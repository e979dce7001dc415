/** The slide-tag addressing scheme: `#slide<N>#` markers, and the translated
    `#Trình <N>#` markers, delimit per-slide text in every intermediate file.
    Every regular expression the pipeline uses over such text
    (`#slide\d+#`, `(#slide\d+#.*?(?=#slide\d+#|\Z))`,
    `#(?:slide|Trình)\s*\d+#...`) is a leftmost, non-overlapping scan for one
    of two tag spellings; `Lex` is that scan. */
module Tags {
  import opened Text

  /** The tag spelling a scan recognises. */
  datatype Vocab =
    | SlideOnly   // #slide\d+#
    | Either      // #(?:slide|Trình)\s*\d+#

  /** The two marker words, treated as opaque constants. */
  const SlideWord: string := "slide"
  const TranslatedWord: string := "Trình"

  /** A recognised tag: `#` word gap digits `#` (the gap is empty for `#slide\d+#`). */
  datatype Tag = Tag(word: string, gap: string, digits: string)

  function TagText(t: Tag): string
  {
    "#" + t.word + TailText(t)
  }

  lemma TagTextClosed(t: Tag)
    ensures TagText(t) == ("#" + t.word + t.gap + t.digits) + "#"
  {
    AppendAssoc(t.gap, t.digits, "#");
    AppendAssoc("#" + t.word, t.gap + t.digits, "#");
    AppendAssoc("#" + t.word, t.gap, t.digits);
  }

  /** What follows the marker word: `\s*`, the numeral and the closing `#`. */
  function TailText(t: Tag): string
  {
    t.gap + t.digits + "#"
  }

  predicate WellFormed(t: Tag, v: Vocab)
  {
    && (t.word == SlideWord || (v == Either && t.word == TranslatedWord))
    && (v == SlideOnly ==> t.gap == [])
    && AllSatisfy(t.gap, IsSpace)
    && |t.digits| > 0 && AllDigits(t.digits)
  }

  /** `int(re.findall(r'\d+', tag)[0])`: the slide number a tag carries. */
  function Number(t: Tag): nat
  {
    DigitsValue(t.digits)
  }

  /** Length of the longest prefix of `s` whose characters satisfy `p`. */
  function Span(s: string, p: char -> bool): (n: nat)
    ensures n <= |s| && AllSatisfy(s[..n], p) && (n == |s| || !p(s[n]))
    decreases |s|
  {
    if |s| > 0 && p(s[0]) then
      var k := Span(s[1..], p);
      assert s[..k + 1] == [s[0]] + s[1..][..k];
      k + 1
    else 0
  }

  lemma {:induction false} SpanOf(a: string, b: string, p: char -> bool)
    requires AllSatisfy(a, p) && (b == [] || !p(b[0]))
    ensures Span(a + b, p) == |a|
    decreases |a|
  {
    if a == [] {
      assert a + b == b;
    } else {
      assert (a + b)[1..] == a[1..] + b;
      SpanOf(a[1..], b, p);
    }
  }

  /** The marker word that `s` starts with, if any ("slide" is tried first, as in the regex). */
  function MatchWord(s: string, v: Vocab): (w: Option<string>)
    ensures w.Some? ==> (w.value == SlideWord || (v == Either && w.value == TranslatedWord))
    ensures w.Some? ==> |w.value| <= |s| && s[..|w.value|] == w.value
  {
    if |s| >= |SlideWord| && s[..|SlideWord|] == SlideWord then Some(SlideWord)
    else if v == Either && |s| >= |TranslatedWord| && s[..|TranslatedWord|] == TranslatedWord then Some(TranslatedWord)
    else None
  }

  /** The tag the regex recognises at the very start of `s`, if any. */
  function TagAt(s: string, v: Vocab): (r: Option<Tag>)
    ensures r.Some? ==> WellFormed(r.value, v)
    ensures r.Some? ==> |TagText(r.value)| <= |s| && s[..|TagText(r.value)|] == TagText(r.value)
  {
    if |s| == 0 || s[0] != '#' then None
    else match MatchWord(s[1..], v)
      case None => None
      case Some(w) =>
        var rest := s[1 + |w|..];
        var r := TagAfterWord(w, rest, v);
        if r.Some? then
          HeadWordRest(s, w);
          PrefixOfConcat("#" + w, rest, TailText(r.value));
          r
        else None
  }

  lemma HeadWordRest(s: string, w: string)
    requires |s| >= 1 + |w| && s[0] == '#' && s[1..][..|w|] == w
    ensures s == "#" + w + s[1 + |w|..]
  {
    HeadTail(s);
    assert s[1..][|w|..] == s[1 + |w|..];
    assert s[1..] == s[1..][..|w|] + s[1..][|w|..];
  }

  /** The rest of a tag once its marker word `w` has been read. */
  function TagAfterWord(w: string, rest: string, v: Vocab): (r: Option<Tag>)
    requires w == SlideWord || (v == Either && w == TranslatedWord)
    ensures r.Some? ==> WellFormed(r.value, v) && r.value.word == w
    ensures r.Some? ==> |TailText(r.value)| <= |rest| && rest[..|TailText(r.value)|] == TailText(r.value)
  {
    var g := if v == Either then Span(rest, IsSpace) else 0;
    var d := Span(rest[g..], IsDigit);
    if d > 0 && g + d < |rest| && rest[g + d] == '#' then
      var t := Tag(w, rest[..g], rest[g..g + d]);
      TailPrefix(rest, g, d);
      SpanDigits(rest[g..], d);
      assert rest[g..][..d] == t.digits;
      Some(t)
    else None
  }

  lemma TailPrefix(rest: string, g: nat, d: nat)
    requires g + d < |rest| && rest[g + d] == '#'
    ensures rest[..g + d + 1] == rest[..g] + rest[g..g + d] + "#"
  {
    assert rest[..g + d + 1] == rest[..g + d] + [rest[g + d]];
    assert rest[..g + d] == rest[..g] + rest[g..g + d];
  }

  lemma SpanDigits(x: string, d: nat)
    requires d <= |x| && AllSatisfy(x[..d], IsDigit)
    ensures AllDigits(x[..d])
  {
    forall i | 0 <= i < d ensures IsDigit(x[..d][i]) {
      assert IsDigit(x[..d][i]);
    }
  }

  /** A well-formed tag is recognised at the start of its own text, whatever follows it. */
  lemma TagAtText(t: Tag, u: string, v: Vocab)
    requires WellFormed(t, v)
    ensures TagAt(TagText(t) + u, v) == Some(t)
  {
    var s := TagText(t) + u;
    var rest := TailText(t) + u;
    assert s == "#" + t.word + rest;
    assert s[1..] == t.word + rest;
    WordPrefix(t.word, rest, v);
    assert s[1 + |t.word|..] == rest;
    TagAfterWordText(t, u, v);
  }

  lemma WordPrefix(w: string, rest: string, v: Vocab)
    requires w == SlideWord || (v == Either && w == TranslatedWord)
    ensures MatchWord(w + rest, v) == Some(w)
  {
    var s := w + rest;
    assert s[..|w|] == w;
    if w == TranslatedWord {
      assert s[0] == 'T';
      assert s[..|SlideWord|][0] == 'T';
    }
  }

  lemma TagAfterWordText(t: Tag, u: string, v: Vocab)
    requires WellFormed(t, v)
    ensures TagAfterWord(t.word, TailText(t) + u, v) == Some(t)
  {
    var x := t.digits + ("#" + u);
    TailSplit(t, u);
    TagAfterWordOf(t, x, u, v);
  }

  lemma TailSplit(t: Tag, u: string)
    ensures TailText(t) + u == t.gap + (t.digits + ("#" + u))
  {
    AppendAssoc(t.gap, t.digits, "#");
    AppendAssoc(t.gap + t.digits, "#", u);
    AppendAssoc(t.gap, t.digits, "#" + u);
  }

  /** The tail of a well-formed tag, `x` being its numeral, `#` and what follows, is read back as that tag. */
  lemma TagAfterWordOf(t: Tag, x: string, u: string, v: Vocab)
    requires WellFormed(t, v) && x == t.digits + ("#" + u)
    ensures TagAfterWord(t.word, t.gap + x, v) == Some(t)
  {
    var rest := t.gap + x;
    var g := |t.gap|;
    var d := |t.digits|;
    GapSpan(t, x, v);
    DigitSpan(t, u, x);
    ConcatParts(t.gap, x, d);
    assert x[..d] == t.digits;
  }

  /** The `\s*` of a tag's tail stops exactly where its numeral starts. */
  lemma GapSpan(t: Tag, x: string, v: Vocab)
    requires WellFormed(t, v) && |x| > 0 && IsDigit(x[0])
    ensures (if v == Either then Span(t.gap + x, IsSpace) else 0) == |t.gap|
  {
    assert !IsSpace(x[0]);
    if v == Either {
      SpanOf(t.gap, x, IsSpace);
    }
  }

  /** The numeral of a tag's tail runs up to its closing `#`. */
  lemma DigitSpan(t: Tag, u: string, x: string)
    requires |t.digits| > 0 && AllDigits(t.digits)
    requires x == t.digits + ("#" + u)
    ensures Span(x, IsDigit) == |t.digits| && x[|t.digits|] == '#'
  {
    SpanOf(t.digits, "#" + u, IsDigit);
  }

  /** In the text of a tag, `#` stands only at both ends, and a digit precedes the closing `#`. */
  lemma TagTextShape(t: Tag, v: Vocab)
    requires WellFormed(t, v)
    ensures var T := TagText(t); |T| >= 8 && T[0] == '#' && T[|T| - 1] == '#' && IsDigit(T[|T| - 2])
    ensures var T := TagText(t); forall i | 0 < i < |T| - 1 :: T[i] != '#'
    ensures v == SlideOnly ==> forall i | 0 <= i < |TagText(t)| :: !IsSpace(TagText(t)[i])
  {
    var T := TagText(t);
    var n := |t.word| + |t.gap|;
    forall i | 0 < i < |T| - 1 ensures T[i] != '#' {
      if i <= |t.word| {
        assert T[i] == t.word[i - 1];
      } else if i <= n {
        assert T[i] == t.gap[i - 1 - |t.word|];
      } else {
        assert T[i] == t.digits[i - 1 - n];
      }
    }
    assert T[|T| - 2] == t.digits[|t.digits| - 1];
    if v == SlideOnly {
      forall i | 0 <= i < |T| ensures !IsSpace(T[i]) {
        if 0 < i <= |t.word| {
          assert T[i] == t.word[i - 1];
        } else if |t.word| < i < |T| - 1 {
          assert T[i] == t.digits[i - 1 - |t.word|];
        }
      }
    }
  }

  /** Every `#slide\d+#` match is also a match of the wider pattern, with the same parts. */
  lemma SlideTagIsEitherTag(s: string)
    requires TagAt(s, SlideOnly).Some?
    ensures TagAt(s, Either) == TagAt(s, SlideOnly)
  {
    var t := TagAt(s, SlideOnly).value;
    TagAtSplit(s, SlideOnly);
    assert WellFormed(t, Either);
    TagAtText(t, s[|TagText(t)|..], Either);
  }

  // ---------------------------------------------------------------------------
  // The scan

  /** A tag and the text that follows it up to the next tag (or the end). */
  datatype Region = Region(tag: Tag, body: string)

  /** A scanned text: what precedes the first tag, then the tagged regions in order. */
  datatype Lexed = Lexed(prefix: string, regions: seq<Region>)

  function RegionText(r: Region): string
  {
    TagText(r.tag) + r.body
  }

  function RegionsText(rs: seq<Region>): string
  {
    if rs == [] then [] else RegionText(rs[0]) + RegionsText(rs[1..])
  }

  function Unlex(l: Lexed): string
  {
    l.prefix + RegionsText(l.regions)
  }

  predicate TagsWellFormed(rs: seq<Region>, v: Vocab)
  {
    forall k | 0 <= k < |rs| :: WellFormed(rs[k].tag, v)
  }

  /** The leftmost, non-overlapping scan: at each position either a tag starts
      (and is skipped whole) or one character is passed over. */
  function Lex(s: string, v: Vocab): Lexed
    decreases |s|
  {
    if s == [] then Lexed([], [])
    else match TagAt(s, v)
      case Some(t) =>
        var rest := Lex(s[|TagText(t)|..], v);
        Lexed([], [Region(t, rest.prefix)] + rest.regions)
      case None =>
        var rest := Lex(s[1..], v);
        Lexed([s[0]] + rest.prefix, rest.regions)
  }

  /** Every tag the scan reports is a well-formed tag of its vocabulary. */
  lemma {:induction false} LexTagsWellFormed(s: string, v: Vocab)
    ensures TagsWellFormed(Lex(s, v).regions, v)
    decreases |s|
  {
    if s != [] {
      if TagAt(s, v).Some? {
        var t := TagAt(s, v).value;
        var tail := s[|TagText(t)|..];
        LexTagsWellFormed(tail, v);
        LexTagged(s, v, t, tail);
        var rest := Lex(tail, v);
        TagsWellFormedCons(Region(t, rest.prefix), rest.regions, v);
      } else {
        LexTagsWellFormed(s[1..], v);
        LexSkip(s, v, s[1..]);
      }
    }
  }

  lemma TagsWellFormedCons(r: Region, rs: seq<Region>, v: Vocab)
    requires WellFormed(r.tag, v) && TagsWellFormed(rs, v)
    ensures TagsWellFormed([r] + rs, v)
  {
    var rs' := [r] + rs;
    forall k | 0 <= k < |rs'| ensures WellFormed(rs'[k].tag, v) {
      if k > 0 {
        assert rs'[k] == rs[k - 1];
      }
    }
  }

  /** Lexing loses nothing: rendering the scan gives back the scanned text. */
  lemma {:induction false} LexLossless(s: string, v: Vocab)
    ensures Unlex(Lex(s, v)) == s
    decreases |s|
  {
    if s != [] {
      if TagAt(s, v).Some? {
        var t := TagAt(s, v).value;
        var T := TagText(t);
        var tail := s[|T|..];
        LexLossless(tail, v);
        LexTagged(s, v, t, tail);
        TagAtSplit(s, v);
        var rest := Lex(tail, v);
        RegionsTextCons(Region(t, rest.prefix), rest.regions);
        AppendAssoc(T, rest.prefix, RegionsText(rest.regions));
      } else {
        LexLossless(s[1..], v);
        LexSkip(s, v, s[1..]);
        var rest := Lex(s[1..], v);
        AppendAssoc([s[0]], rest.prefix, RegionsText(rest.regions));
        HeadTail(s);
      }
    }
  }

  /** A text that starts with a tag is that tag's text followed by the rest. */
  lemma TagAtSplit(s: string, v: Vocab)
    requires TagAt(s, v).Some?
    ensures var T := TagText(TagAt(s, v).value); s == T + s[|T|..]
  {
    var T := TagText(TagAt(s, v).value);
    assert s == s[..|T|] + s[|T|..];
  }

  lemma RegionsTextCons(r: Region, rs: seq<Region>)
    ensures RegionsText([r] + rs) == RegionText(r) + RegionsText(rs)
  {
    assert ([r] + rs)[0] == r;
    assert ([r] + rs)[1..] == rs;
  }

  /** The tag recognised at offset `i` of `p`, if any. */
  function TagAtFrom(p: string, i: nat, v: Vocab): Option<Tag>
    requires i <= |p|
  {
    TagAt(p[i..], v)
  }

  /** No tag starts anywhere inside `p`. */
  predicate TagFree(p: string, v: Vocab)
  {
    forall i | 0 <= i < |p| :: TagAtFrom(p, i, v).None?
  }

  /** `p` does not end in a digit, so no tag can start in `p` and close on a following `#`. */
  predicate Fenced(p: string)
  {
    p == [] || !IsDigit(p[|p| - 1])
  }

  /** A tag recognised at the start of `p + q`, where `q` opens with `#`, either
      lies inside `p` or closes on that `#` right after a digit that ends `p`. */
  lemma TagAtConcat(p: string, q: string, v: Vocab)
    requires |p| > 0 && (q == [] || q[0] == '#')
    requires TagAt(p + q, v).Some?
    ensures TagAt(p, v) == TagAt(p + q, v) || IsDigit(p[|p| - 1])
  {
    var s := p + q;
    var t := TagAt(s, v).value;
    var T := TagText(t);
    TagTextShape(t, v);
    if |T| <= |p| {
      assert p == T + p[|T|..] by {
        assert p[..|T|] == s[..|T|];
      }
      TagAtText(t, p[|T|..], v);
    } else {
      assert T[|p|] == s[|p|] == q[0];
      assert |p| == |T| - 1;
      assert T[|T| - 2] == s[|p| - 1] == p[|p| - 1];
    }
  }

  /** A tag recognised at the start of `p` is still recognised when text follows `p`. */
  lemma TagAtExtend(p: string, q: string, v: Vocab)
    requires TagAt(p, v).Some?
    ensures TagAt(p + q, v) == TagAt(p, v)
  {
    var t := TagAt(p, v).value;
    var T := TagText(t);
    var u := p[|T|..];
    TagAtSplit(p, v);
    AppendAssoc(T, u, q);
    TagAtText(t, u + q, v);
  }

  /** A `#slide\d+#` tag contains no whitespace, so it cannot run into a following space. */
  lemma TagAtBeforeSpace(p: string, q: string)
    requires |p| > 0 && (q == [] || IsSpace(q[0]))
    requires TagAt(p + q, SlideOnly).Some?
    ensures TagAt(p, SlideOnly) == TagAt(p + q, SlideOnly)
  {
    var s := p + q;
    var t := TagAt(s, SlideOnly).value;
    var T := TagText(t);
    TagTextShape(t, SlideOnly);
    assert forall i | 0 <= i < |T| :: s[i] == T[i];
    assert q != [] ==> s[|p|] == q[0];
    if |T| > |p| {
      assert false;
    }
    assert p == T + p[|T|..] by {
      assert p[..|T|] == s[..|T|];
    }
    TagAtText(t, p[|T|..], SlideOnly);
  }

  /** Any slice of a tag-free string is tag-free. */
  lemma TagFreeSlice(s: string, a: nat, b: nat, v: Vocab)
    requires TagFree(s, v) && a <= b <= |s|
    ensures TagFree(s[a..b], v)
  {
    forall i | 0 <= i < b - a ensures TagAtFrom(s[a..b], i, v).None? {
      TagFreeSliceAt(s, a, b, i, v);
    }
  }

  lemma TagFreeSliceAt(s: string, a: nat, b: nat, i: nat, v: Vocab)
    requires a <= b <= |s| && i < b - a && TagAtFrom(s, a + i, v).None?
    ensures TagAtFrom(s[a..b], i, v).None?
  {
    SliceSuffix(s, a, b, i);
    TagAtShrink(s[a + i..], s[a..b][i..], s[b..], v);
  }

  /** If no tag starts at the head of `z == p + q`, none starts at the head of `p`. */
  lemma TagAtShrink(z: string, p: string, q: string, v: Vocab)
    requires TagAt(z, v).None? && z == p + q
    ensures TagAt(p, v).None?
  {
    if TagAt(p, v).Some? {
      TagAtExtend(p, q, v);
      assert false;
    }
  }

  /** A string without `#` is tag-free. */
  lemma TagFreeNoHash(s: string, v: Vocab)
    requires forall i | 0 <= i < |s| :: s[i] != '#'
    ensures TagFree(s, v)
  {
    forall i | 0 <= i < |s| ensures TagAtFrom(s, i, v).None? {
      assert s[i..][0] == s[i];
    }
  }

  lemma TagFreeAt(p: string, i: nat, v: Vocab)
    requires TagFree(p, v) && i < |p|
    ensures TagAt(p[i..], v).None?
  {
    assert TagAtFrom(p, i, v).None?;
  }

  /** The text the scan passes over before the first tag is tag-free. */
  lemma {:induction false} LexPrefixTagFree(s: string, v: Vocab)
    ensures TagFree(Lex(s, v).prefix, v)
    decreases |s|
  {
    if s != [] && TagAt(s, v).None? {
      var tl := s[1..];
      LexPrefixTagFree(tl, v);
      LexLossless(tl, v);
      LexSkip(s, v, tl);
      var rest := Lex(tl, v);
      assert s == [s[0]] + tl;
      PrefixConsTagFree(s[0], rest.prefix, RegionsText(rest.regions), s, v);
    }
  }

  /** One character that starts no tag, put before a tag-free text, keeps it tag-free. */
  lemma PrefixConsTagFree(c: char, p: string, r: string, s: string, v: Vocab)
    requires TagFree(p, v) && s == [c] + (p + r) && TagAt(s, v).None?
    ensures TagFree([c] + p, v)
  {
    var P := [c] + p;
    AppendAssoc([c], p, r);
    forall i | 0 <= i < |P| ensures TagAtFrom(P, i, v).None? {
      if i == 0 {
        assert P[0..] == P;
        if TagAt(P, v).Some? {
          TagAtExtend(P, r, v);
          assert false;
        }
      } else {
        assert P[i..] == p[i - 1..];
        TagFreeAt(p, i - 1, v);
      }
    }
  }

  /** The text the scan passes over between tags, and after the last, is tag-free. */
  lemma {:induction false} LexBodiesTagFree(s: string, v: Vocab)
    ensures forall k | 0 <= k < |Lex(s, v).regions| :: TagFree(Lex(s, v).regions[k].body, v)
    decreases |s|
  {
    if s != [] {
      var m := TagAt(s, v);
      if m.Some? {
        var tail := s[|TagText(m.value)|..];
        LexPrefixTagFree(tail, v);
        LexBodiesTagFree(tail, v);
        var rest := Lex(tail, v);
        var rs := [Region(m.value, rest.prefix)] + rest.regions;
        assert Lex(s, v).regions == rs;
        forall k | 0 <= k < |rs| ensures TagFree(rs[k].body, v) {
          if k > 0 {
            assert rs[k] == rest.regions[k - 1];
          }
        }
      } else {
        LexBodiesTagFree(s[1..], v);
        assert Lex(s, v).regions == Lex(s[1..], v).regions;
      }
    }
  }

  /** Once a tag-free, fenced piece is scanned, the scan resumes at a following `#` unchanged. */
  lemma {:induction false} LexFenced(p: string, q: string, v: Vocab)
    requires TagFree(p, v)
    requires q == [] || (q[0] == '#' && Fenced(p))
    ensures Lex(p + q, v) == Lexed(p + Lex(q, v).prefix, Lex(q, v).regions)
    decreases |p|
  {
    if p == [] {
      assert p + q == q;
    } else {
      TagFreeSlice(p, 1, |p|, v);
      assert p[1..|p|] == p[1..];
      LexFenced(p[1..], q, v);
      LexFencedStep(p, q, v, Lex(q, v));
    }
  }

  /** One step of `LexFenced`: the scan passes the first character of `p`. */
  lemma LexFencedStep(p: string, q: string, v: Vocab, l: Lexed)
    requires p != [] && TagFree(p, v)
    requires q == [] || (q[0] == '#' && Fenced(p))
    requires Lex(p[1..] + q, v) == Lexed(p[1..] + l.prefix, l.regions)
    ensures Lex(p + q, v) == Lexed(p + l.prefix, l.regions)
  {
    FencedHead(p, q, v);
    LexSkip(p + q, v, p[1..] + q);
    AppendAssoc([p[0]], p[1..], l.prefix);
    HeadTail(p);
  }

  /** No tag starts at the head of a tag-free, fenced piece followed by `#`. */
  lemma FencedHead(p: string, q: string, v: Vocab)
    requires |p| > 0 && TagFree(p, v)
    requires q == [] || (q[0] == '#' && Fenced(p))
    ensures TagAt(p + q, v).None?
  {
    TagFreeAt(p, 0, v);
    assert p[0..] == p;
    if q == [] {
      assert p + q == p;
    } else if TagAt(p + q, v).Some? {
      TagAtConcat(p, q, v);
      assert false;
    }
  }

  /** One step of the scan where no tag starts: `tl` is the text after the first character. */
  lemma LexSkip(s: string, v: Vocab, tl: string)
    requires s != [] && TagAt(s, v).None? && tl == s[1..]
    ensures Lex(s, v) == Lexed([s[0]] + Lex(tl, v).prefix, Lex(tl, v).regions)
  {
  }

  /** One step of the scan where the tag `t` starts: `tl` is the text after it. */
  lemma LexTagged(s: string, v: Vocab, t: Tag, tl: string)
    requires TagAt(s, v) == Some(t) && tl == s[|TagText(t)|..]
    ensures Lex(s, v) == Lexed([], [Region(t, Lex(tl, v).prefix)] + Lex(tl, v).regions)
  {
  }

  // ---------------------------------------------------------------------------
  // Round trip: text rendered from well-formed regions scans back to them

  predicate WellFormedRegions(rs: seq<Region>, v: Vocab)
  {
    forall k | 0 <= k < |rs| ::
      && WellFormed(rs[k].tag, v)
      && TagFree(rs[k].body, v)
      && (k + 1 < |rs| ==> Fenced(rs[k].body))
  }

  predicate WellFormedLexed(l: Lexed, v: Vocab)
  {
    && TagFree(l.prefix, v)
    && (l.regions != [] ==> Fenced(l.prefix))
    && WellFormedRegions(l.regions, v)
  }

  lemma RegionsTextStart(rs: seq<Region>)
    requires rs != []
    ensures |RegionsText(rs)| > 0 && RegionsText(rs)[0] == '#'
  {
    RegionsCons(rs);
    AppendAssoc(TagText(rs[0].tag), rs[0].body, RegionsText(rs[1..]));
  }

  lemma {:induction false} LexRegionsText(rs: seq<Region>, v: Vocab)
    requires WellFormedRegions(rs, v)
    ensures Lex(RegionsText(rs), v) == Lexed([], rs)
  {
    if rs != [] {
      WellFormedRegionsTail(rs, v);
      LexRegionsText(rs[1..], v);
      if rs[1..] != [] {
        RegionsTextStart(rs[1..]);
      }
      LexRegionStep(rs[0], RegionsText(rs[1..]), rs[1..], v);
      RegionsCons(rs);
    }
  }

  /** A well-formed region rendered in front of a text that scans to `rest`
      (and opens with a tag when `rest` has any) scans to that region and `rest`. */
  lemma LexRegionStep(r: Region, later: string, rest: seq<Region>, v: Vocab)
    requires WellFormed(r.tag, v) && TagFree(r.body, v)
    requires later == [] || (later[0] == '#' && Fenced(r.body))
    requires Lex(later, v) == Lexed([], rest)
    ensures Lex(RegionText(r) + later, v) == Lexed([], [r] + rest)
  {
    var T := TagText(r.tag);
    var x := r.body + later;
    AppendAssoc(T, r.body, later);
    TagAtText(r.tag, x, v);
    assert (T + x)[|T|..] == x;
    LexFenced(r.body, later, v);
    LexTagged(T + x, v, r.tag, x);
    AppendNil(r.body);
  }

  lemma RegionsCons(rs: seq<Region>)
    requires rs != []
    ensures [rs[0]] + rs[1..] == rs && RegionsText(rs) == RegionText(rs[0]) + RegionsText(rs[1..])
  {
  }

  lemma WellFormedRegionsTail(rs: seq<Region>, v: Vocab)
    requires rs != [] && WellFormedRegions(rs, v)
    ensures WellFormed(rs[0].tag, v) && TagFree(rs[0].body, v)
    ensures |rs| > 1 ==> Fenced(rs[0].body)
    ensures WellFormedRegions(rs[1..], v)
  {
    forall k | 0 <= k < |rs[1..]|
      ensures WellFormed(rs[1..][k].tag, v) && TagFree(rs[1..][k].body, v)
      ensures k + 1 < |rs[1..]| ==> Fenced(rs[1..][k].body)
    {
      assert rs[1..][k] == rs[k + 1];
    }
  }

  /** Parsing a rendered well-formed document gives back the same prefix and regions. */
  lemma LexUnlex(l: Lexed, v: Vocab)
    requires WellFormedLexed(l, v)
    ensures Lex(Unlex(l), v) == l
  {
    LexRegionsText(l.regions, v);
    if l.regions != [] {
      RegionsTextStart(l.regions);
    }
    LexFenced(l.prefix, RegionsText(l.regions), v);
    AppendNil(l.prefix);
  }
}
