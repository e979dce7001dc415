/** The refinement pass of `process_with_claude`: the merged descriptions
    are cut into batches of at most ten tagged slides, each batch is handed
    to a language model together with its slide range, and every tagged
    region of the answer is spliced back over the original region of the
    same position, by `str.replace`. The model is a parameter. */
module Refinement {
  import opened Text
  import opened Tags
  import opened Documents
  import opened Batching

  // ---------------------------------------------------------------------------
  // The regions of a text, as `re.findall(r'(#slide\d+#.*?(?=#slide\d+#|\Z))', s, re.DOTALL)`

  /** The text of each region, tag included, in order. */
  function Texts(rs: seq<Region>): (ts: seq<string>)
    ensures |ts| == |rs|
    ensures forall k | 0 <= k < |ts| :: |ts[k]| > 0
  {
    seq(|rs|, k requires 0 <= k < |rs| => RegionText(rs[k]))
  }

  /** The text of each `#slide\d+#` region of `content`. */
  function RegionTexts(content: string): seq<string>
  {
    Texts(Lex(content, SlideOnly).regions)
  }

  lemma {:induction false} JoinTexts(rs: seq<Region>)
    ensures Join(Texts(rs), "") == RegionsText(rs)
    decreases |rs|
  {
    var ts := Texts(rs);
    if |rs| > 1 {
      JoinTexts(rs[1..]);
      assert ts[1..] == Texts(rs[1..]);
    } else if |rs| == 1 {
      assert rs[1..] == [];
    }
  }

  /** The matches lose nothing but the text before the first tag: that text
      followed by the matches, concatenated, is the whole text. */
  lemma RegionTextsCover(content: string)
    ensures Lex(content, SlideOnly).prefix + Join(RegionTexts(content), "") == content
  {
    JoinTexts(Lex(content, SlideOnly).regions);
    LexLossless(content, SlideOnly);
  }

  /** A text without a tag has no regions. */
  lemma TagFreeNoRegions(s: string)
    requires TagFree(s, SlideOnly)
    ensures RegionTexts(s) == []
  {
    LexFenced(s, [], SlideOnly);
    AppendNil(s);
  }

  lemma {:induction false} RegionsTextAppend(a: seq<Region>, b: seq<Region>)
    ensures RegionsText(a + b) == RegionsText(a) + RegionsText(b)
    decreases |a|
  {
    if a != [] {
      assert (a + b)[0] == a[0];
      assert (a + b)[1..] == a[1..] + b;
      RegionsTextAppend(a[1..], b);
      calc {
        RegionsText(a + b);
        RegionText(a[0]) + RegionsText(a[1..] + b);
        RegionText(a[0]) + (RegionsText(a[1..]) + RegionsText(b));
        (RegionText(a[0]) + RegionsText(a[1..])) + RegionsText(b);
      }
    } else {
      assert a + b == b;
    }
  }

  // ---------------------------------------------------------------------------
  // process_batch

  /** `'\n'.join(slides[start - 1:end])`: the regions of slides `start ..= end`. */
  function BatchContent(content: string, start: nat, end: nat): string
    requires start >= 1
  {
    Join(PySlice(RegionTexts(content), start - 1, end), "\n")
  }

  /** What `process_batch` returns: the model's answer to the batch content,
      told the batch's range and the deck's number of slides. */
  function ProcessBatch(refine: (string, nat, nat, nat) -> string, content: string, start: nat, end: nat, total: nat): string
    requires start >= 1
  {
    refine(BatchContent(content, start, end), start, end, total)
  }

  /** Regions joined by newlines: every region but the last gains a trailing newline. */
  function NewlineRegions(rs: seq<Region>): (ns: seq<Region>)
    ensures |ns| == |rs|
  {
    seq(|rs|, k requires 0 <= k < |rs| => Region(rs[k].tag, rs[k].body + (if k + 1 < |rs| then "\n" else "")))
  }

  lemma {:induction false} JoinNewlineRegions(rs: seq<Region>)
    ensures Join(Texts(rs), "\n") == RegionsText(NewlineRegions(rs))
    decreases |rs|
  {
    var ts := Texts(rs);
    var ns := NewlineRegions(rs);
    if |rs| > 1 {
      JoinNewlineRegions(rs[1..]);
      assert ts[1..] == Texts(rs[1..]);
      assert ns[1..] == NewlineRegions(rs[1..]);
      assert RegionText(ns[0]) == ts[0] + "\n";
    } else if |rs| == 1 {
      assert ns[1..] == [];
      assert ns[0] == Region(rs[0].tag, rs[0].body + "");
      assert rs[0].body + "" == rs[0].body;
    }
  }

  /** A trailing newline cannot complete a tag. */
  lemma TagFreeNewline(b: string)
    requires TagFree(b, SlideOnly)
    ensures TagFree(b + "\n", SlideOnly)
  {
    var s := b + "\n";
    forall i | 0 <= i < |s| ensures TagAtFrom(s, i, SlideOnly).None? {
      TagFreeNewlineAt(b, i);
    }
  }

  lemma TagFreeNewlineAt(b: string, i: nat)
    requires TagFree(b, SlideOnly) && i <= |b|
    ensures TagAt((b + "\n")[i..], SlideOnly).None?
  {
    var s := b + "\n";
    if i == |b| {
      assert s[i..] == "\n";
    } else {
      assert s[i..] == b[i..] + "\n";
      TagFreeAt(b, i, SlideOnly);
      if TagAt(b[i..] + "\n", SlideOnly).Some? {
        TagAtBeforeSpace(b[i..], "\n");
        assert false;
      }
    }
  }

  lemma NewlineRegionsWellFormed(rs: seq<Region>)
    requires TagsWellFormed(rs, SlideOnly) && forall k | 0 <= k < |rs| :: TagFree(rs[k].body, SlideOnly)
    ensures WellFormedRegions(NewlineRegions(rs), SlideOnly)
  {
    var ns := NewlineRegions(rs);
    forall k | 0 <= k < |ns|
      ensures WellFormed(ns[k].tag, SlideOnly) && TagFree(ns[k].body, SlideOnly)
      ensures k + 1 < |ns| ==> Fenced(ns[k].body)
    {
      if k + 1 < |rs| {
        TagFreeNewline(rs[k].body);
      } else {
        assert ns[k].body == rs[k].body;
      }
    }
  }

  /** Scanned regions joined by newlines scan back to the same tags, in
      order, with the newlines added to the bodies. */
  lemma LexJoinedTexts(rs: seq<Region>)
    requires TagsWellFormed(rs, SlideOnly) && forall k | 0 <= k < |rs| :: TagFree(rs[k].body, SlideOnly)
    ensures Lex(Join(Texts(rs), "\n"), SlideOnly) == Lexed([], NewlineRegions(rs))
  {
    JoinNewlineRegions(rs);
    NewlineRegionsWellFormed(rs);
    LexRegionsText(NewlineRegions(rs), SlideOnly);
  }

  lemma SliceTexts(rs: seq<Region>, lo: nat, end: nat)
    ensures var hi := Min(end, |rs|);
      PySlice(Texts(rs), lo, end) == if lo <= hi then Texts(rs[lo..hi]) else []
  {
    var hi := Min(end, |rs|);
    var ts := Texts(rs);
    if lo <= hi {
      assert PySlice(ts, lo, end) == ts[lo..hi];
      assert ts[lo..hi] == Texts(rs[lo..hi]);
    }
  }

  /** The regions `process_batch` slices out: slides `start ..= end`, clamped to the deck. */
  lemma BatchSlice(content: string, start: nat, end: nat)
    requires start >= 1
    ensures var rs := Lex(content, SlideOnly).regions;
      var hi := Min(end, |rs|);
      PySlice(RegionTexts(content), start - 1, end) == if start - 1 <= hi then Texts(rs[start - 1..hi]) else []
  {
    SliceTexts(Lex(content, SlideOnly).regions, start - 1, end);
  }

  /** The text `process_batch` sends holds exactly the tags of slides
      `start ..= end` (clamped to the deck), in order and with nothing
      before the first: each region keeps its text, all but the last
      followed by the joining newline. */
  lemma BatchContentScan(content: string, start: nat, end: nat)
    requires start >= 1
    ensures var rs := Lex(content, SlideOnly).regions;
      var hi := Min(end, |rs|);
      var l := Lex(BatchContent(content, start, end), SlideOnly);
      && l.prefix == []
      && |l.regions| == (if start - 1 <= hi then hi - start + 1 else 0)
      && forall i | 0 <= i < |l.regions| ::
           && l.regions[i].tag == rs[start - 1 + i].tag
           && l.regions[i].body == rs[start - 1 + i].body + (if i + 1 < |l.regions| then "\n" else "")
  {
    var rs := Lex(content, SlideOnly).regions;
    var hi := Min(end, |rs|);
    var lo := start - 1;
    BatchSlice(content, start, end);
    if lo <= hi {
      LexPartWellFormed(content, lo, hi);
      LexJoinedTexts(rs[lo..hi]);
      NewlineRegionsShape(rs, lo, hi);
    } else {
      assert Lex([], SlideOnly) == Lexed([], []);
    }
  }

  /** Any run of scanned regions has well-formed tags and tag-free bodies. */
  lemma LexPartWellFormed(content: string, lo: nat, hi: nat)
    requires lo <= hi <= |Lex(content, SlideOnly).regions|
    ensures var part := Lex(content, SlideOnly).regions[lo..hi];
      TagsWellFormed(part, SlideOnly) && forall k | 0 <= k < |part| :: TagFree(part[k].body, SlideOnly)
  {
    LexTagsWellFormed(content, SlideOnly);
    LexBodiesTagFree(content, SlideOnly);
    var rs := Lex(content, SlideOnly).regions;
    PartWellFormed(rs, lo, hi);
  }

  lemma PartWellFormed(rs: seq<Region>, lo: nat, hi: nat)
    requires lo <= hi <= |rs|
    requires TagsWellFormed(rs, SlideOnly) && forall k | 0 <= k < |rs| :: TagFree(rs[k].body, SlideOnly)
    ensures var part := rs[lo..hi];
      TagsWellFormed(part, SlideOnly) && forall k | 0 <= k < |part| :: TagFree(part[k].body, SlideOnly)
  {
    var part := rs[lo..hi];
    forall k | 0 <= k < |part| ensures WellFormed(part[k].tag, SlideOnly) && TagFree(part[k].body, SlideOnly) {
      assert part[k] == rs[lo + k];
    }
  }

  /** The regions of slides `lo + 1 ..= hi`, each but the last given the joining newline. */
  lemma NewlineRegionsShape(rs: seq<Region>, lo: nat, hi: nat)
    requires lo <= hi <= |rs|
    ensures var ns := NewlineRegions(rs[lo..hi]);
      && |ns| == hi - lo
      && forall i | 0 <= i < |ns| ::
           && ns[i].tag == rs[lo + i].tag
           && ns[i].body == rs[lo + i].body + (if i + 1 < |ns| then "\n" else "")
  {
  }

  // ---------------------------------------------------------------------------
  // replace_batch

  /** `full_content` after the loop of `replace_batch` has taken the new
      regions `news` in order: new region `i` replaces every occurrence of
      old region `start + i` when `start + i <= end` and that old region
      exists, and is skipped otherwise. */
  function Splice(content: string, olds: seq<string>, news: seq<string>, start: nat, end: nat): string
    requires start >= 1 && forall k | 0 <= k < |olds| :: |olds[k]| > 0
    decreases |news|
  {
    if news == [] then content
    else
      var prev := Splice(content, olds, news[..|news| - 1], start, end);
      var n := start + |news| - 1;
      if n <= end && n - 1 < |olds| then ReplaceAll(prev, olds[n - 1], news[|news| - 1]) else prev
  }

  /** `replace_batch(full_content, processed_batch, start, end)`. */
  function Spliced(full: string, processed: string, start: nat, end: nat): string
    requires start >= 1
  {
    Splice(full, RegionTexts(full), RegionTexts(processed), start, end)
  }

  /** `replace_batch`: the regions of both texts are found, then spliced in turn. */
  method ReplaceBatch(fullContent: string, processedBatch: string, start: nat, end: nat) returns (result: string)
    requires start >= 1
    ensures result == Spliced(fullContent, processedBatch, start, end)
  {
    var slides := RegionTexts(fullContent);
    var newSlides := RegionTexts(processedBatch);
    result := SpliceEach(fullContent, slides, newSlides, start, end);
  }

  /** The loop of `replace_batch` over `enumerate(new_slides)`. */
  method SpliceEach(fullContent: string, slides: seq<string>, newSlides: seq<string>, start: nat, end: nat)
    returns (result: string)
    requires start >= 1 && forall k | 0 <= k < |slides| :: |slides[k]| > 0
    ensures result == Splice(fullContent, slides, newSlides, start, end)
  {
    result := fullContent;
    var i := 0;
    while i < |newSlides|
      invariant 0 <= i <= |newSlides|
      invariant result == Splice(fullContent, slides, newSlides[..i], start, end)
    {
      var slideNumber := start + i;
      if slideNumber <= end && slideNumber - 1 < |slides| {
        result := ReplaceAll(result, slides[slideNumber - 1], newSlides[i]);
      }
      assert newSlides[..i + 1][..i] == newSlides[..i];
      i := i + 1;
    }
    assert newSlides[..i] == newSlides;
  }

  /** An answer without a tag leaves the text as it was. */
  lemma TagFreeAnswerChangesNothing(full: string, processed: string, start: nat, end: nat)
    requires start >= 1 && TagFree(processed, SlideOnly)
    ensures Spliced(full, processed, start, end) == full
  {
    TagFreeNoRegions(processed);
  }

  /** The new regions from position `m` on are all past `end` or past the
      old regions, so they are ignored: only the first `m` count. */
  lemma {:induction false} SpliceIgnoresExtra(content: string, olds: seq<string>, news: seq<string>, start: nat, end: nat, m: nat)
    requires start >= 1 && forall k | 0 <= k < |olds| :: |olds[k]| > 0
    requires m <= |news| && (start + m > end || start + m > |olds|)
    ensures Splice(content, olds, news, start, end) == Splice(content, olds, news[..m], start, end)
    decreases |news|
  {
    if |news| > m {
      var init := news[..|news| - 1];
      SpliceIgnoresExtra(content, olds, init, start, end, m);
      assert init[..m] == news[..m];
    } else {
      assert news[..m] == news;
    }
  }

  /** Where region `k` of `content` starts. */
  function RegionOffset(content: string, k: nat): nat
    requires k <= |Lex(content, SlideOnly).regions|
  {
    var l := Lex(content, SlideOnly);
    |l.prefix| + |RegionsText(l.regions[..k])|
  }

  /** The text around region `k`: the text before the first tag, the
      regions before `k`, region `k` itself, and the regions after it. */
  lemma RegionAt(content: string, k: nat)
    requires k < |Lex(content, SlideOnly).regions|
    ensures var l := Lex(content, SlideOnly);
      && RegionTexts(content)[k] == RegionText(l.regions[k])
      && content == l.prefix + RegionsText(l.regions[..k]) + RegionText(l.regions[k]) + RegionsText(l.regions[k + 1..])
  {
    var l := Lex(content, SlideOnly);
    SplitRegions(l.regions, k);
    LexLossless(content, SlideOnly);
  }

  lemma SplitRegions(rs: seq<Region>, k: nat)
    requires k < |rs|
    ensures RegionsText(rs) == RegionsText(rs[..k]) + RegionText(rs[k]) + RegionsText(rs[k + 1..])
    ensures Texts(rs)[k] == RegionText(rs[k])
  {
    RegionsTextFrom(rs, k);
    RegionsTextSplit(rs, k);
    AppendAssoc(RegionsText(rs[..k]), RegionText(rs[k]), RegionsText(rs[k + 1..]));
  }

  lemma RegionsTextFrom(rs: seq<Region>, k: nat)
    requires k < |rs|
    ensures RegionsText(rs[k..]) == RegionText(rs[k]) + RegionsText(rs[k + 1..])
  {
    assert rs[k..][0] == rs[k];
    assert rs[k..][1..] == rs[k + 1..];
  }

  lemma RegionsTextSplit(rs: seq<Region>, k: nat)
    requires k <= |rs|
    ensures RegionsText(rs) == RegionsText(rs[..k]) + RegionsText(rs[k..])
  {
    RegionsTextAppend(rs[..k], rs[k..]);
    SplitAt(rs, k);
  }

  /** One new region for slide `start`, when the old text of that slide
      occurs only in its own place: the new region takes exactly that
      place, and the text before and after it is kept. */
  lemma SpliceOneRegion(content: string, x: string, start: nat, end: nat)
    requires 1 <= start <= end && start <= |Lex(content, SlideOnly).regions|
    requires OccursOnlyAt(content, RegionTexts(content)[start - 1], RegionOffset(content, start - 1))
    ensures var l := Lex(content, SlideOnly);
      Splice(content, RegionTexts(content), [x], start, end)
        == l.prefix + RegionsText(l.regions[..start - 1]) + x + RegionsText(l.regions[start..])
  {
    var l := Lex(content, SlideOnly);
    var k := start - 1;
    RegionAt(content, k);
    var T := RegionTexts(content)[k];
    var a := l.prefix + RegionsText(l.regions[..k]);
    assert [x][..0] == [];
    assert |a| == RegionOffset(content, k);
    ReplaceAllUnique(a, T, RegionsText(l.regions[start..]), x);
  }

  /** The text after the first `i` new regions of a batch have been spliced
      in: the text before the first tag, the old regions before the batch,
      the new regions so far, and the old regions from the next one on. */
  function Stage(pre: string, rs: seq<Region>, news: seq<string>, start: nat, i: nat): string
    requires 1 <= start && i <= |news| && start - 1 + i <= |rs|
  {
    pre + RegionsText(rs[..start - 1]) + Join(news[..i], "") + RegionsText(rs[start - 1 + i..])
  }

  /** Where old region `start - 1 + i` begins in stage `i`. */
  function StageOffset(pre: string, rs: seq<Region>, news: seq<string>, start: nat, i: nat): nat
    requires 1 <= start && i <= |news| && start - 1 <= |rs|
  {
    |pre| + |RegionsText(rs[..start - 1])| + |Join(news[..i], "")|
  }

  lemma {:induction false} JoinSnoc(xs: seq<string>, x: string)
    ensures Join(xs + [x], "") == Join(xs, "") + x
    decreases |xs|
  {
    var ys := xs + [x];
    if |xs| == 1 {
      assert ys[1..] == [x];
    } else if |xs| > 1 {
      assert ys[0] == xs[0] && ys[1..] == xs[1..] + [x];
      JoinSnoc(xs[1..], x);
    } else {
      assert ys == [x];
    }
  }

  /** One step: replacing old region `start - 1 + k`, when it occurs only
      in its own place, turns stage `k` into stage `k + 1`. */
  lemma StageStep(pre: string, rs: seq<Region>, news: seq<string>, start: nat, k: nat)
    requires 1 <= start && k < |news| && start + k <= |rs|
    requires OccursOnlyAt(Stage(pre, rs, news, start, k), RegionText(rs[start - 1 + k]), StageOffset(pre, rs, news, start, k))
    ensures ReplaceAll(Stage(pre, rs, news, start, k), RegionText(rs[start - 1 + k]), news[k]) == Stage(pre, rs, news, start, k + 1)
  {
    var a := pre + RegionsText(rs[..start - 1]) + Join(news[..k], "");
    var t := RegionText(rs[start - 1 + k]);
    var b := RegionsText(rs[start + k..]);
    StageParts(pre, rs, news, start, k);
    ReplaceAllUnique(a, t, b, news[k]);
  }

  /** Stage `k` around old region `start - 1 + k`, and stage `k + 1` around
      new region `k`, with the same text on either side. */
  lemma StageParts(pre: string, rs: seq<Region>, news: seq<string>, start: nat, k: nat)
    requires 1 <= start && k < |news| && start + k <= |rs|
    ensures var a := pre + RegionsText(rs[..start - 1]) + Join(news[..k], "");
      var b := RegionsText(rs[start + k..]);
      && Stage(pre, rs, news, start, k) == a + RegionText(rs[start - 1 + k]) + b
      && |a| == StageOffset(pre, rs, news, start, k)
      && Stage(pre, rs, news, start, k + 1) == a + news[k] + b
  {
    var a := pre + RegionsText(rs[..start - 1]) + Join(news[..k], "");
    var t := RegionText(rs[start - 1 + k]);
    var b := RegionsText(rs[start + k..]);
    RegionsTextFrom(rs, start - 1 + k);
    AppendAssoc(a, t, b);
    JoinSnoc(news[..k], news[k]);
    assert news[..k] + [news[k]] == news[..k + 1];
    AppendAssoc(pre + RegionsText(rs[..start - 1]), Join(news[..k], ""), news[k]);
  }

  /** Stage `i` depends only on the first `i` new regions. */
  lemma StageOfPrefix(pre: string, rs: seq<Region>, news: seq<string>, start: nat, k: nat, i: nat)
    requires 1 <= start && i <= k <= |news| && start - 1 + i <= |rs|
    ensures Stage(pre, rs, news[..k], start, i) == Stage(pre, rs, news, start, i)
    ensures StageOffset(pre, rs, news[..k], start, i) == StageOffset(pre, rs, news, start, i)
  {
    assert news[..k][..i] == news[..i];
  }

  /** Splicing new regions that all fall inside the batch and inside the old
      regions, when at every step the old region about to be replaced occurs
      only in its own place: each new region takes exactly that place. */
  lemma {:induction false} SpliceStages(pre: string, rs: seq<Region>, news: seq<string>, start: nat, end: nat)
    requires 1 <= start && start - 1 + |news| <= |rs| && (news == [] || start - 1 + |news| <= end)
    requires forall i | 0 <= i < |news| ::
      OccursOnlyAt(Stage(pre, rs, news, start, i), RegionText(rs[start - 1 + i]), StageOffset(pre, rs, news, start, i))
    ensures Splice(pre + RegionsText(rs), Texts(rs), news, start, end) == Stage(pre, rs, news, start, |news|)
    decreases |news|
  {
    if news == [] {
      RegionsTextSplit(rs, start - 1);
      AppendAssoc(pre, RegionsText(rs[..start - 1]), RegionsText(rs[start - 1..]));
    } else {
      var k := |news| - 1;
      var init := news[..k];
      forall i | 0 <= i < k
        ensures OccursOnlyAt(Stage(pre, rs, init, start, i), RegionText(rs[start - 1 + i]), StageOffset(pre, rs, init, start, i))
      {
        StageOfPrefix(pre, rs, news, start, k, i);
      }
      SpliceStages(pre, rs, init, start, end);
      StageOfPrefix(pre, rs, news, start, k, k);
      StageStep(pre, rs, news, start, k);
    }
  }

  /** Splicing a whole answer: the new regions that fall inside the batch
      and inside the old regions, `m` of them, take the places of old
      regions `start ..= start + m - 1`, as long as at every step the old
      region about to be replaced occurs only in its own place. */
  lemma SpliceRegions(content: string, news: seq<string>, start: nat, end: nat)
    requires 1 <= start && start - 1 <= |Lex(content, SlideOnly).regions|
    requires var rs := Lex(content, SlideOnly).regions;
      var m := Clamped(|news|, start, end, |rs|);
      forall i | 0 <= i < m ::
        OccursOnlyAt(Stage(Lex(content, SlideOnly).prefix, rs, news[..m], start, i), RegionText(rs[start - 1 + i]),
                     StageOffset(Lex(content, SlideOnly).prefix, rs, news[..m], start, i))
    ensures var l := Lex(content, SlideOnly);
      var m := Clamped(|news|, start, end, |l.regions|);
      Splice(content, RegionTexts(content), news, start, end)
        == l.prefix + RegionsText(l.regions[..start - 1]) + Join(news[..m], "") + RegionsText(l.regions[start - 1 + m..])
  {
    var l := Lex(content, SlideOnly);
    var m := Clamped(|news|, start, end, |l.regions|);
    LexParts(content, l);
    SpliceClamped(l.prefix, l.regions, news, start, end);
    assert news[..m][..m] == news[..m];
    assert Stage(l.prefix, l.regions, news[..m], start, m)
        == l.prefix + RegionsText(l.regions[..start - 1]) + Join(news[..m], "") + RegionsText(l.regions[start - 1 + m..]);
  }

  /** `SpliceRegions` for a text given as its parts. */
  lemma SpliceClamped(pre: string, rs: seq<Region>, news: seq<string>, start: nat, end: nat)
    requires 1 <= start && start - 1 <= |rs|
    requires var m := Clamped(|news|, start, end, |rs|);
      forall i | 0 <= i < m ::
        OccursOnlyAt(Stage(pre, rs, news[..m], start, i), RegionText(rs[start - 1 + i]), StageOffset(pre, rs, news[..m], start, i))
    ensures var m := Clamped(|news|, start, end, |rs|);
      Splice(pre + RegionsText(rs), Texts(rs), news, start, end) == Stage(pre, rs, news[..m], start, m)
  {
    var m := Clamped(|news|, start, end, |rs|);
    if m < |news| {
      SpliceIgnoresExtra(pre + RegionsText(rs), Texts(rs), news, start, end, m);
    } else {
      assert news[..m] == news;
    }
    SpliceStages(pre, rs, news[..m], start, end);
  }

  /** A text is its prefix followed by its regions, and those regions are
      what `RegionTexts` lists. */
  lemma LexParts(content: string, l: Lexed)
    requires l == Lex(content, SlideOnly)
    ensures content == l.prefix + RegionsText(l.regions) && RegionTexts(content) == Texts(l.regions)
  {
    LexLossless(content, SlideOnly);
  }

  /** How many of `count` new regions for a batch starting at `start` land:
      no more than the slides up to `end`, nor than the old regions from
      `start` on. */
  function Clamped(count: nat, start: nat, end: nat, regions: nat): (m: nat)
    requires 1 <= start && start - 1 <= regions
    ensures m <= count && start - 1 + m <= regions && (m == 0 || start - 1 + m <= end)
    ensures m < count ==> start + m > end || start + m > regions
  {
    var room := if end >= start - 1 then end - (start - 1) else 0;
    var m := if count < room then count else room;
    if m < regions - (start - 1) then m else regions - (start - 1)
  }

  lemma RegionTextsTwice(r: Region)
    requires WellFormed(r.tag, SlideOnly) && TagFree(r.body, SlideOnly) && Fenced(r.body)
    ensures RegionTexts(RegionText(r) + RegionText(r)) == [RegionText(r), RegionText(r)]
  {
    assert RegionsText([r, r]) == RegionText(r) + RegionText(r) by {
      assert [r, r][1..] == [r];
      RegionsTextOne(r);
    }
    LexRegionsText([r, r], SlideOnly);
    assert Texts([r, r]) == [RegionText(r), RegionText(r)];
  }

  /** `str.replace` rewrites every copy of the old region text: in a text
      holding the same region twice, splicing a new first slide rewrites
      the second copy too, though slide 2 lies outside the batch `1 ..= 1`. */
  lemma SpliceReplacesEveryCopy(r: Region, x: string)
    requires WellFormed(r.tag, SlideOnly) && TagFree(r.body, SlideOnly) && Fenced(r.body)
    ensures var c := RegionText(r) + RegionText(r);
      Splice(c, RegionTexts(c), [x], 1, 1) == x + x
  {
    var T := RegionText(r);
    RegionTextsTwice(r);
    assert [x][..0] == [];
    ReplaceAllTwice(T, x);
  }

  // ---------------------------------------------------------------------------
  // process_with_claude

  /** The text after the batches `batches` have been refined in turn, each
      from the text as the previous ones left it. */
  function Refined(content: string, batches: seq<Range>, total: nat, refine: (string, nat, nat, nat) -> string): string
    requires forall k | 0 <= k < |batches| :: batches[k].first >= 1
    decreases |batches|
  {
    if batches == [] then content
    else
      var prev := Refined(content, batches[..|batches| - 1], total, refine);
      var b := batches[|batches| - 1];
      Spliced(prev, ProcessBatch(refine, prev, b.first, b.last, total), b.first, b.last)
  }

  /** When the model never answers with a tag, refinement changes nothing. */
  lemma {:induction false} TagFreeRefinerChangesNothing(content: string, batches: seq<Range>, total: nat,
                                                         refine: (string, nat, nat, nat) -> string)
    requires forall k | 0 <= k < |batches| :: batches[k].first >= 1
    requires forall s, a, b, t :: TagFree(refine(s, a, b, t), SlideOnly)
    ensures Refined(content, batches, total, refine) == content
    decreases |batches|
  {
    if batches != [] {
      var init := batches[..|batches| - 1];
      TagFreeRefinerChangesNothing(content, init, total, refine);
      var b := batches[|batches| - 1];
      TagFreeAnswerChangesNothing(content, ProcessBatch(refine, content, b.first, b.last, total), b.first, b.last);
    }
  }

  lemma RefinedSnoc(content: string, batches: seq<Range>, b: Range, total: nat, refine: (string, nat, nat, nat) -> string)
    requires forall k | 0 <= k < |batches| :: batches[k].first >= 1
    requires b.first >= 1
    ensures var prev := Refined(content, batches, total, refine);
      Refined(content, batches + [b], total, refine)
        == Spliced(prev, ProcessBatch(refine, prev, b.first, b.last, total), b.first, b.last)
  {
    assert (batches + [b])[..|batches|] == batches;
  }

  /** One step of the walk over the batch sizes. */
  lemma WalkStep(sizes: seq<nat>, k: nat, start: nat, total: nat)
    requires k < |sizes| && start >= 1 && sizes[k] >= 1
    ensures Walk(sizes[k..], start, total)
      == [Range(start, Min(start + sizes[k] - 1, total))] + Walk(sizes[k + 1..], Min(start + sizes[k] - 1, total) + 1, total)
  {
    assert sizes[k..][1..] == sizes[k + 1..];
  }

  /** The first loop of `process_with_claude`: `batch_sizes` for `total` tagged slides. */
  method BatchSizes(total: nat) returns (batchSizes: seq<nat>)
    ensures batchSizes == Chunks(total, 10)
  {
    batchSizes := [];
    var remaining: nat := total;
    while remaining > 0
      invariant batchSizes + Chunks(remaining, 10) == Chunks(total, 10)
      decreases remaining
    {
      var batchSize := Min(10, remaining);
      ChunksHead(remaining, 10);
      batchSizes := batchSizes + [batchSize];
      remaining := remaining - batchSize;
    }
  }

  /** One turn of the second loop of `process_with_claude`: `process_batch`
      on the text as the earlier batches left it, then `replace_batch`. */
  method RefineOne(content: string, batches: seq<Range>, b: Range, total: nat, refine: (string, nat, nat, nat) -> string,
                   fullContent: string)
    returns (next: string)
    requires forall j | 0 <= j < |batches| :: batches[j].first >= 1
    requires b.first >= 1
    requires fullContent == Refined(content, batches, total, refine)
    ensures next == Refined(content, batches + [b], total, refine)
  {
    var processedBatch := ProcessBatch(refine, fullContent, b.first, b.last, total);
    next := ReplaceBatch(fullContent, processedBatch, b.first, b.last);
    RefinedSnoc(content, batches, b, total, refine);
  }

  lemma WalkAdvance(batches: seq<Range>, sizes: seq<nat>, k: nat, start: nat, total: nat)
    requires k < |sizes| && start >= 1 && sizes[k] >= 1
    requires batches + Walk(sizes[k..], start, total) == Walk(sizes, 1, total)
    ensures var end := Min(start + sizes[k] - 1, total);
      (batches + [Range(start, end)]) + Walk(sizes[k + 1..], end + 1, total) == Walk(sizes, 1, total)
  {
    WalkStep(sizes, k, start, total);
  }

  /** The second loop of `process_with_claude`: each size is walked from
      `start`, its batch refined from the text as the previous batches left
      it, and the answer spliced back. */
  method RefineBatches(content: string, batchSizes: seq<nat>, total: nat, refine: (string, nat, nat, nat) -> string)
    returns (fullContent: string, batches: seq<Range>)
    requires forall k | 0 <= k < |batchSizes| :: batchSizes[k] >= 1
    ensures batches == Walk(batchSizes, 1, total)
    ensures forall j | 0 <= j < |batches| :: batches[j].first >= 1
    ensures fullContent == Refined(content, batches, total, refine)
  {
    fullContent := content;
    var start: nat := 1;
    var k := 0;
    batches := [];
    while k < |batchSizes|
      invariant 0 <= k <= |batchSizes| && start >= 1
      invariant batches + Walk(batchSizes[k..], start, total) == Walk(batchSizes, 1, total)
      invariant forall j | 0 <= j < |batches| :: batches[j].first >= 1
      invariant fullContent == Refined(content, batches, total, refine)
    {
      var end: nat := Min(start + batchSizes[k] - 1, total);
      fullContent := RefineOne(content, batches, Range(start, end), total, refine, fullContent);
      WalkAdvance(batches, batchSizes, k, start, total);
      batches := batches + [Range(start, end)];
      start := end + 1;
      k := k + 1;
    }
    assert batchSizes[k..] == [];
  }

  /** `process_with_claude`: the file is read back, its `#slide\d+#` tags are
      counted, the batch sizes `min(10, remaining)` are listed and walked
      from slide 1, and each batch is refined and spliced back in turn; the
      result is written framed. The batches are the cuts of
      `range(0, total, 10)`. */
  method ProcessWithClaude(file: string, refine: (string, nat, nat, nat) -> string)
    returns (finalFile: string, batches: seq<Range>)
    ensures var content := ReadFile(file);
      var total := |Lex(content, SlideOnly).regions|;
      && batches == RefinementPlan(total)
      && Partitions(batches, total)
      && (forall k | 0 <= k < |batches| :: Count(batches[k]) <= 10)
      && finalFile == WriteFile(Refined(content, batches, total, refine))
  {
    var fullContent := ReadFile(file);
    var totalSlides := |RegionTexts(fullContent)|;
    var batchSizes := BatchSizes(totalSlides);
    ChunksShape(totalSlides, 10);
    fullContent, batches := RefineBatches(fullContent, batchSizes, totalSlides, refine);
    finalFile := WriteFile(fullContent);
    RefinementIsStride(totalSlides);
  }

  // ---------------------------------------------------------------------------
  // translate_to_vietnamese

  /** The translated text as saved: the translator's answer to the read-back
      text, with every `#slide\d+#` match rewritten to `#Trình N#`. */
  function TranslateToVietnamese(file: string, translate: string -> string): string
  {
    Retag(translate(ReadFile(file)))
  }

  /** When the translation is `RetagSafe`, the extractor finds the tags the
      `#slide\d+#` scan finds in the translation, respelt with the same
      numerals in the same order, and its tags-stripped segments are those
      of the translation. */
  lemma TranslationKeepsSegments(file: string, translate: string -> string)
    requires RetagSafe(translate(ReadFile(file)))
    ensures var answer := translate(ReadFile(file));
      && Lex(TranslateToVietnamese(file, translate), Either) == RetagLexed(Lex(answer, SlideOnly))
      && ExtractStripped(TranslateToVietnamese(file, translate)) == ExtractStripped(answer)
  {
    var answer := translate(ReadFile(file));
    RetagScan(answer);
    RetagKeepsStripped(answer);
  }
}
