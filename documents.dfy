/** The per-slide documents the pipeline passes between its stages: the
    reply parser `process_response`, the `descriptions.txt` / `final-context.txt`
    serialisers and their reader `read_file`, the two extraction modes of
    `extract_slide_descriptions`, and the `#slideN#` to `#Trình N#` retag of
    `translate_to_vietnamese`. */
module Documents {
  import opened Text
  import opened Tags

  // ---------------------------------------------------------------------------
  // process_response

  /** One `(key, value)` assignment per region: its slide number and its stripped text. */
  function Pairs(rs: seq<Region>): (ps: seq<(nat, string)>)
    ensures |ps| == |rs|
  {
    seq(|rs|, k requires 0 <= k < |rs| => (Number(rs[k].tag), Strip(rs[k].body)))
  }

  /** The dict built by the assignments `d[key] = value` in order. */
  function Build(ps: seq<(nat, string)>): map<nat, string>
    decreases |ps|
  {
    if ps == [] then map[]
    else Build(ps[..|ps| - 1])[ps[|ps| - 1].0 := ps[|ps| - 1].1]
  }

  /** The dict built by storing each region's stripped body under its slide
      number, region by region. */
  function Collect(rs: seq<Region>): map<nat, string>
  {
    Build(Pairs(rs))
  }

  /** Every assigned key is in the dict. */
  lemma {:induction false} BuildHasKeys(ps: seq<(nat, string)>)
    ensures forall i | 0 <= i < |ps| :: ps[i].0 in Build(ps)
    decreases |ps|
  {
    if ps != [] {
      var init := ps[..|ps| - 1];
      BuildHasKeys(init);
      forall i | 0 <= i < |ps| - 1 ensures ps[i].0 in Build(ps) {
        assert init[i] == ps[i];
      }
    }
  }

  /** Every key of the dict was assigned. */
  lemma {:induction false} BuildOnlyKeys(ps: seq<(nat, string)>)
    ensures forall n | n in Build(ps) :: exists i | 0 <= i < |ps| :: ps[i].0 == n
    decreases |ps|
  {
    if ps != [] {
      var init := ps[..|ps| - 1];
      BuildOnlyKeys(init);
      forall n | n in Build(ps) ensures exists i | 0 <= i < |ps| :: ps[i].0 == n {
        if n in Build(init) {
          var i :| 0 <= i < |init| && init[i].0 == n;
          assert ps[i] == init[i];
        }
      }
    }
  }

  /** The last assignment to a key is the one the dict keeps. */
  lemma {:induction false} BuildLastWins(ps: seq<(nat, string)>, i: nat)
    requires i < |ps| && forall j | i < j < |ps| :: ps[j].0 != ps[i].0
    ensures ps[i].0 in Build(ps) && Build(ps)[ps[i].0] == ps[i].1
    decreases |ps|
  {
    if i < |ps| - 1 {
      var init := ps[..|ps| - 1];
      assert init[i] == ps[i];
      forall j | i < j < |init| ensures init[j].0 != init[i].0 {
        assert init[j] == ps[j];
      }
      BuildLastWins(init, i);
    }
  }

  /** Every value in the dict was assigned to some key. */
  lemma {:induction false} BuildValues(ps: seq<(nat, string)>)
    ensures forall n | n in Build(ps) :: exists i | 0 <= i < |ps| :: Build(ps)[n] == ps[i].1
    decreases |ps|
  {
    if ps != [] {
      var init := ps[..|ps| - 1];
      BuildValues(init);
      forall n | n in Build(ps) ensures exists i | 0 <= i < |ps| :: Build(ps)[n] == ps[i].1 {
        if n != ps[|ps| - 1].0 {
          var i :| 0 <= i < |init| && Build(init)[n] == init[i].1;
          assert ps[i] == init[i];
        }
      }
    }
  }

  /** Every number some tag carries is a key of the dict. */
  lemma CollectHasNumbers(rs: seq<Region>)
    ensures forall i | 0 <= i < |rs| :: Number(rs[i].tag) in Collect(rs)
  {
    var ps := Pairs(rs);
    BuildHasKeys(ps);
    forall i | 0 <= i < |rs| ensures Number(rs[i].tag) in Collect(rs) {
      assert ps[i].0 == Number(rs[i].tag);
    }
  }

  /** Every key of the dict is a number some tag carries. */
  lemma CollectOnlyNumbers(rs: seq<Region>)
    ensures forall n | n in Collect(rs) :: exists i | 0 <= i < |rs| :: Number(rs[i].tag) == n
  {
    var ps := Pairs(rs);
    BuildOnlyKeys(ps);
    forall n | n in Collect(rs) ensures exists i | 0 <= i < |rs| :: Number(rs[i].tag) == n {
      var i :| 0 <= i < |ps| && ps[i].0 == n;
      PairKey(rs, i);
    }
  }

  lemma PairKey(rs: seq<Region>, i: nat)
    requires i < |rs|
    ensures Pairs(rs)[i].0 == Number(rs[i].tag)
  {
  }

  /** No region after position `i` carries the same slide number. */
  predicate LastWithNumber(rs: seq<Region>, i: int)
    requires 0 <= i < |rs|
  {
    forall j | i < j < |rs| :: Number(rs[j].tag) != Number(rs[i].tag)
  }

  /** A repeated number keeps the text of its last region. */
  lemma CollectLastWins(rs: seq<Region>, i: nat)
    requires i < |rs| && LastWithNumber(rs, i)
    ensures Number(rs[i].tag) in Collect(rs)
    ensures Collect(rs)[Number(rs[i].tag)] == Strip(rs[i].body)
  {
    var ps := Pairs(rs);
    forall j | i < j < |ps| ensures ps[j].0 != ps[i].0 {
      assert Number(rs[j].tag) != Number(rs[i].tag);
    }
    BuildLastWins(ps, i);
  }

  /** Every stored text is the stripped body of some region. */
  lemma CollectValues(rs: seq<Region>)
    ensures forall n | n in Collect(rs) :: exists i | 0 <= i < |rs| :: Collect(rs)[n] == Strip(rs[i].body)
  {
    var ps := Pairs(rs);
    BuildValues(ps);
    forall n | n in Collect(rs) ensures exists i | 0 <= i < |rs| :: Collect(rs)[n] == Strip(rs[i].body) {
      var i :| 0 <= i < |ps| && Build(ps)[n] == ps[i].1;
      assert Collect(rs)[n] == Strip(rs[i].body);
    }
  }

  /** `process_response`: split the reply on `#slide\d+#`, drop what precedes
      the first tag, and map each tag's number to the stripped text after it. */
  function ProcessResponse(content: string): map<nat, string>
  {
    Collect(Lex(content, SlideOnly).regions)
  }

  /** No parsed description holds a tag of its own. */
  lemma ProcessResponseTagFree(content: string)
    ensures forall n | n in ProcessResponse(content) :: TagFree(ProcessResponse(content)[n], SlideOnly)
  {
    var rs := Lex(content, SlideOnly).regions;
    LexBodiesTagFree(content, SlideOnly);
    CollectValues(rs);
    assert forall i | 0 <= i < |rs| :: TagFree(Strip(rs[i].body), SlideOnly) by {
      forall i | 0 <= i < |rs| ensures TagFree(Strip(rs[i].body), SlideOnly) {
        StripTagFree(rs[i].body, SlideOnly);
      }
    }
  }

  /** Stripping keeps a string tag-free: the result is one of its slices. */
  lemma StripTagFree(s: string, v: Vocab)
    requires TagFree(s, v)
    ensures TagFree(Strip(s), v)
  {
    var a, b := StripSlice(s);
    TagFreeSlice(s, a, b, v);
  }

  /** Text before the first tag does not reach the parsed dict. */
  lemma ProcessResponseIgnoresPrefix(p: string, s: string)
    requires TagFree(p, SlideOnly)
    requires s == [] || (s[0] == '#' && Fenced(p))
    ensures ProcessResponse(p + s) == ProcessResponse(s)
  {
    LexFenced(p, s, SlideOnly);
  }

  // ---------------------------------------------------------------------------
  // Tags requested from the description model, and the descriptions file

  /** The tag `#slide{n}#`. */
  function SlideTag(n: nat): (t: Tag)
    ensures WellFormed(t, SlideOnly) && Number(t) == n
  {
    Tag(SlideWord, "", Decimal(n))
  }

  /** `send_batch_request`'s `slide_tags`: one tag per image, numbered from `start`. */
  function SlideTagList(start: nat, count: nat): (tags: seq<string>)
    ensures |tags| == count
  {
    seq(count, i requires 0 <= i < count => TagText(SlideTag(start + i)))
  }

  /** Each requested tag scans as exactly one tag, carrying the number `start + i`. */
  lemma SlideTagListScans(start: nat, count: nat)
    ensures forall i | 0 <= i < count ::
      Lex(SlideTagList(start, count)[i], SlideOnly) == Lexed([], [Region(SlideTag(start + i), [])])
  {
    forall i | 0 <= i < count
      ensures Lex(SlideTagList(start, count)[i], SlideOnly) == Lexed([], [Region(SlideTag(start + i), [])])
    {
      var rs := [Region(SlideTag(start + i), [])];
      assert rs[1..] == [];
      assert RegionsText(rs) == TagText(SlideTag(start + i)) + [] + [];
      LexRegionsText(rs, SlideOnly);
    }
  }

  const Header: string := "full_content = \"\"\""
  const Closing: string := "\"\"\""

  /** The block `save_descriptions` writes for description `d` numbered `n`. */
  function Entry(n: nat, d: string): string
  {
    TagText(SlideTag(n)) + "\n" + d + "\n\n"
  }

  function Entries(ds: seq<string>, first: nat): string
    decreases |ds|
  {
    if ds == [] then [] else Entry(first, ds[0]) + Entries(ds[1..], first + 1)
  }

  /** The text `save_descriptions` writes: the descriptions renumbered from 1. */
  function SaveDescriptions(ds: seq<string>): string
  {
    Header + "\n" + Entries(ds, 1) + Closing
  }

  /** The text `write_file` writes. */
  function WriteFile(content: string): string
  {
    Header + "\n" + content + "\n" + Closing
  }

  /** `str.strip(chars)` treats its argument as a set of characters. */
  predicate InHeader(c: char)
  {
    c in Header
  }

  predicate IsQuote(c: char)
  {
    c == '"'
  }

  /** `read_file`: `content.strip('full_content = """').strip('"""')`. */
  function ReadFile(file: string): string
  {
    StripBy(StripBy(file, InHeader), IsQuote)
  }

  /** Every character of the header and of the closing quotes is in the
      strip set, and a newline is not. */
  lemma HeaderChars()
    ensures AllSatisfy(Header, InHeader) && AllSatisfy(Closing, InHeader)
    ensures !InHeader('\n') && !IsQuote('\n')
  {
  }

  /** Reading a file made of the header, a text opening and closing with a
      newline, and the closing quotes gives that text. */
  lemma ReadFramed(x: string)
    requires |x| > 0 && x[0] == '\n' && x[|x| - 1] == '\n'
    ensures ReadFile(Header + x + Closing) == x
  {
    HeaderChars();
    StripPadded(Header, x, Closing, InHeader);
    StripByFixed(x, InHeader);
    StripByFixed(x, IsQuote);
  }

  /** Reading what `write_file` wrote gives the content back between two newlines. */
  lemma ReadWrite(content: string)
    ensures ReadFile(WriteFile(content)) == "\n" + content + "\n"
  {
    var x := "\n" + content + "\n";
    assert WriteFile(content) == Header + x + Closing;
    ReadFramed(x);
  }

  lemma {:induction false} EntriesEnd(ds: seq<string>, first: nat)
    requires ds != []
    ensures |Entries(ds, first)| > 0 && Entries(ds, first)[|Entries(ds, first)| - 1] == '\n'
    decreases |ds|
  {
    if ds[1..] != [] {
      EntriesEnd(ds[1..], first + 1);
    }
    assert Entries(ds, first) == Entry(first, ds[0]) + Entries(ds[1..], first + 1);
  }

  /** Reading the descriptions file gives the entries after one newline. */
  lemma ReadSave(ds: seq<string>)
    ensures ReadFile(SaveDescriptions(ds)) == "\n" + Entries(ds, 1)
  {
    var x := "\n" + Entries(ds, 1);
    assert SaveDescriptions(ds) == Header + x + Closing;
    if ds != [] {
      EntriesEnd(ds, 1);
    }
    ReadFramed(x);
  }

  /** The region the descriptions file holds for description `d` numbered `n`. */
  function SavedRegion(n: nat, d: string): Region
  {
    Region(SlideTag(n), "\n" + d + "\n\n")
  }

  /** The regions the descriptions file scans into. */
  function SavedRegions(ds: seq<string>, first: nat): (rs: seq<Region>)
    ensures |rs| == |ds| && TagsWellFormed(rs, SlideOnly)
    ensures forall i | 0 <= i < |rs| :: Number(rs[i].tag) == first + i
  {
    var rs := seq(|ds|, i requires 0 <= i < |ds| => SavedRegion(first + i, ds[i]));
    assert forall i | 0 <= i < |rs| :: rs[i].tag == SlideTag(first + i);
    rs
  }

  /** The regions of a non-empty list: the first entry's, then the rest's. */
  lemma SavedRegionsCons(ds: seq<string>, first: nat)
    requires ds != []
    ensures SavedRegions(ds, first) == [SavedRegion(first, ds[0])] + SavedRegions(ds[1..], first + 1)
  {
    var rs, tl := SavedRegions(ds, first), SavedRegions(ds[1..], first + 1);
    assert |rs| == 1 + |tl|;
    forall i | 0 <= i < |rs|
      ensures rs[i] == ([SavedRegion(first, ds[0])] + tl)[i]
    {
      if i > 0 {
        assert ds[1..][i - 1] == ds[i];
        assert tl[i - 1] == SavedRegion(first + 1 + (i - 1), ds[i]);
      }
    }
  }

  /** One region renders as its file entry. */
  lemma SavedRegionText(n: nat, d: string)
    ensures RegionText(SavedRegion(n, d)) == Entry(n, d)
  {
    var t := TagText(SlideTag(n));
    AppendAssoc(t, "\n" + d, "\n\n");
    AppendAssoc(t, "\n", d);
  }

  lemma {:induction false} EntriesText(ds: seq<string>, first: nat)
    ensures RegionsText(SavedRegions(ds, first)) == Entries(ds, first)
    decreases |ds|
  {
    if ds != [] {
      var r, tl := SavedRegion(first, ds[0]), SavedRegions(ds[1..], first + 1);
      SavedRegionsCons(ds, first);
      assert ([r] + tl)[1..] == tl;
      assert RegionsText([r] + tl) == RegionText(r) + RegionsText(tl);
      EntriesText(ds[1..], first + 1);
      SavedRegionText(first, ds[0]);
    }
  }

  /** Padding a tag-free description with newlines keeps it tag-free. */
  lemma PaddedTagFree(d: string)
    requires TagFree(d, SlideOnly)
    ensures TagFree("\n" + d + "\n\n", SlideOnly) && Fenced("\n" + d + "\n\n")
  {
    var b := "\n" + d + "\n\n";
    forall i | 0 <= i < |b| ensures TagAtFrom(b, i, SlideOnly).None? {
      PaddedTagFreeAt(d, i);
    }
  }

  lemma PaddedTagFreeAt(d: string, i: nat)
    requires TagFree(d, SlideOnly) && i < |d| + 3
    ensures TagAt(("\n" + d + "\n\n")[i..], SlideOnly).None?
  {
    var b := "\n" + d + "\n\n";
    if 1 <= i <= |d| {
      assert b[i..] == d[i - 1..] + "\n\n";
      TagFreeAt(d, i - 1, SlideOnly);
      if TagAt(d[i - 1..] + "\n\n", SlideOnly).Some? {
        TagAtBeforeSpace(d[i - 1..], "\n\n");
        assert false;
      }
    } else {
      assert b[i..][0] == '\n';
    }
  }

  /** The descriptions file scans back into one region per description, tagged
      `#slide1#` … `#slideN#` in order, each holding its description. */
  lemma SavedScan(ds: seq<string>)
    requires forall i | 0 <= i < |ds| :: TagFree(ds[i], SlideOnly)
    ensures Lex(ReadFile(SaveDescriptions(ds)), SlideOnly) == Lexed("\n", SavedRegions(ds, 1))
  {
    ReadSave(ds);
    EntriesText(ds, 1);
    var l := Lexed("\n", SavedRegions(ds, 1));
    SavedWellFormed(ds);
    LexUnlex(l, SlideOnly);
  }

  lemma SavedWellFormed(ds: seq<string>)
    requires forall i | 0 <= i < |ds| :: TagFree(ds[i], SlideOnly)
    ensures WellFormedLexed(Lexed("\n", SavedRegions(ds, 1)), SlideOnly)
  {
    var rs := SavedRegions(ds, 1);
    forall k | 0 <= k < |ds|
      ensures TagFree(rs[k].body, SlideOnly) && Fenced(rs[k].body)
    {
      assert rs[k] == SavedRegion(1 + k, ds[k]);
      PaddedTagFree(ds[k]);
    }
    TagFreeNoHash("\n", SlideOnly);
  }

  /** Parsing the descriptions file gives back every (stripped, tag-free)
      description under its position, counted from 1. */
  lemma ParseSaved(ds: seq<string>)
    requires forall i | 0 <= i < |ds| :: TagFree(ds[i], SlideOnly) && Strip(ds[i]) == ds[i]
    ensures var m := ProcessResponse(ReadFile(SaveDescriptions(ds)));
      && (forall n :: n in m <==> 1 <= n <= |ds|)
      && (forall i | 0 <= i < |ds| :: i + 1 in m && m[i + 1] == ds[i])
  {
    var content := ReadFile(SaveDescriptions(ds));
    SavedScan(ds);
    ParseScanned(content, ds);
  }

  /** A text that scans into the saved regions parses into the descriptions. */
  lemma ParseScanned(content: string, ds: seq<string>)
    requires forall i | 0 <= i < |ds| :: Strip(ds[i]) == ds[i]
    requires Lex(content, SlideOnly).regions == SavedRegions(ds, 1)
    ensures var m := ProcessResponse(content);
      && (forall n :: n in m <==> 1 <= n <= |ds|)
      && (forall i | 0 <= i < |ds| :: i + 1 in m && m[i + 1] == ds[i])
  {
    var rs := SavedRegions(ds, 1);
    assert ProcessResponse(content) == Collect(rs);
    ParseSavedKeys(ds, rs);
    forall i | 0 <= i < |ds| ensures Collect(rs)[i + 1] == ds[i] {
      ParseSavedValue(ds, rs, i);
    }
  }

  lemma ParseSavedKeys(ds: seq<string>, rs: seq<Region>)
    requires rs == SavedRegions(ds, 1)
    ensures forall n :: n in Collect(rs) <==> 1 <= n <= |ds|
  {
    CollectHasNumbers(rs);
    CollectOnlyNumbers(rs);
    forall n | 1 <= n <= |ds| ensures n in Collect(rs) {
      assert Number(rs[n - 1].tag) == n;
    }
  }

  lemma ParseSavedValue(ds: seq<string>, rs: seq<Region>, i: nat)
    requires i < |ds| && Strip(ds[i]) == ds[i]
    requires rs == SavedRegions(ds, 1)
    ensures i + 1 in Collect(rs) && Collect(rs)[i + 1] == ds[i]
  {
    SavedLastWithNumber(ds, rs, i);
    CollectLastWins(rs, i);
    SavedBody(ds, rs, i);
  }

  lemma SavedLastWithNumber(ds: seq<string>, rs: seq<Region>, i: nat)
    requires i < |ds| && rs == SavedRegions(ds, 1)
    ensures LastWithNumber(rs, i) && Number(rs[i].tag) == i + 1
  {
    forall j | i < j < |rs| ensures Number(rs[j].tag) != Number(rs[i].tag) {
      assert Number(rs[j].tag) == j + 1;
    }
  }

  lemma SavedBody(ds: seq<string>, rs: seq<Region>, i: nat)
    requires i < |ds| && Strip(ds[i]) == ds[i] && rs == SavedRegions(ds, 1)
    ensures Strip(rs[i].body) == ds[i]
  {
    assert rs[i].body == "\n" + ds[i] + "\n\n";
    StripNewlinePadded(ds[i]);
  }

  lemma StripNewlinePadded(d: string)
    ensures Strip("\n" + d + "\n\n") == Strip(d)
  {
    assert AllSatisfy("\n", IsSpace) && AllSatisfy("\n\n", IsSpace);
    StripPadded("\n", d, "\n\n", IsSpace);
  }

  // ---------------------------------------------------------------------------
  // Ordering the merged descriptions

  predicate IsLeast(k: nat, keys: set<nat>)
  {
    k in keys && forall j | j in keys :: k <= j
  }

  lemma {:induction false} MinExists(keys: set<nat>)
    requires keys != {}
    ensures exists k :: IsLeast(k, keys)
    decreases |keys|
  {
    var x :| x in keys;
    var others := keys - {x};
    if others == {} {
      assert keys == {x};
      assert IsLeast(x, keys);
    } else {
      MinExists(others);
      var k :| IsLeast(k, others);
      var least := if x < k then x else k;
      forall j | j in keys ensures least <= j {
        if j != x {
          assert j in others;
        }
      }
      assert IsLeast(least, keys);
    }
  }

  /** The smallest key. */
  function MinKey(keys: set<nat>): (k: nat)
    requires keys != {}
    ensures IsLeast(k, keys)
  {
    MinExists(keys);
    var k :| IsLeast(k, keys);
    k
  }

  /** `sorted(d.keys())`. */
  function SortedKeys(keys: set<nat>): (ks: seq<nat>)
    ensures |ks| == |keys|
    ensures forall n :: n in keys <==> n in ks
    ensures forall i, j | 0 <= i < j < |ks| :: ks[i] < ks[j]
    decreases |keys|
  {
    if keys == {} then []
    else
      var k := MinKey(keys);
      var rest := SortedKeys(keys - {k});
      SortedCons(k, keys, rest);
      [k] + rest
  }

  /** The least key followed by the others in order is the whole set in order. */
  lemma SortedCons(k: nat, keys: set<nat>, rest: seq<nat>)
    requires IsLeast(k, keys)
    requires |rest| == |keys - {k}|
    requires forall n :: n in keys - {k} <==> n in rest
    requires forall i, j | 0 <= i < j < |rest| :: rest[i] < rest[j]
    ensures |[k] + rest| == |keys|
    ensures forall n :: n in keys <==> n in [k] + rest
    ensures forall i, j | 0 <= i < j < |[k] + rest| :: ([k] + rest)[i] < ([k] + rest)[j]
  {
    assert keys == (keys - {k}) + {k};
    forall j | 0 < j < |[k] + rest| ensures k < ([k] + rest)[j] {
      assert ([k] + rest)[j] == rest[j - 1];
      assert rest[j - 1] in keys - {k};
    }
  }

  /** `[d[key] for key in sorted(d.keys())]`. */
  function InKeyOrder(m: map<nat, string>): (ds: seq<string>)
    ensures |ds| == |m|
  {
    var ks := SortedKeys(m.Keys);
    seq(|ks|, i requires 0 <= i < |ks| => m[ks[i]])
  }

  lemma {:induction false} IncreasingGap(ks: seq<nat>, i: nat, j: nat)
    requires forall a, b | 0 <= a < b < |ks| :: ks[a] < ks[b]
    requires i <= j < |ks|
    ensures ks[j] - ks[i] >= j - i
    decreases j - i
  {
    if i < j {
      IncreasingGap(ks, i, j - 1);
    }
  }

  /** When the keys are exactly `1..n`, the ordered values are `d[1], …, d[n]`. */
  lemma InKeyOrderContiguous(m: map<nat, string>, n: nat)
    requires forall k :: k in m <==> 1 <= k <= n
    ensures |InKeyOrder(m)| == n
    ensures forall i | 0 <= i < n :: InKeyOrder(m)[i] == m[i + 1]
  {
    RangeSize(m.Keys, n);
    var ks := SortedKeys(m.Keys);
    forall a | 0 <= a < n ensures 1 <= ks[a] <= n {
      assert ks[a] in m.Keys;
    }
    forall i | 0 <= i < n ensures InKeyOrder(m)[i] == m[i + 1] {
      ContiguousAt(ks, n, i);
    }
  }

  lemma ContiguousAt(ks: seq<nat>, n: nat, i: nat)
    requires |ks| == n && i < n
    requires forall a | 0 <= a < n :: 1 <= ks[a] <= n
    requires forall a, b | 0 <= a < b < |ks| :: ks[a] < ks[b]
    ensures ks[i] == i + 1
  {
    IncreasingGap(ks, 0, i);
    IncreasingGap(ks, i, n - 1);
  }

  lemma {:induction false} RangeSize(keys: set<nat>, n: nat)
    requires forall k :: k in keys <==> 1 <= k <= n
    ensures |keys| == n
    decreases n
  {
    if n > 0 {
      RangeSize(keys - {n}, n - 1);
    } else {
      assert keys == {};
    }
  }

  // ---------------------------------------------------------------------------
  // extract_slide_descriptions

  /** `keep_tags=True`: each match of `#(?:slide|Trình)\s*\d+#.*?` up to the next tag, stripped. */
  function ExtractKept(context: string): (ds: seq<string>)
  {
    var rs := Lex(context, Either).regions;
    seq(|rs|, k requires 0 <= k < |rs| => Strip(RegionText(rs[k])))
  }

  /** `keep_tags=False`: only the text after each tag, stripped. */
  function ExtractStripped(context: string): (ds: seq<string>)
  {
    var rs := Lex(context, Either).regions;
    seq(|rs|, k requires 0 <= k < |rs| => Strip(rs[k].body))
  }

  /** A region stripped whole is its tag followed by its right-stripped body. */
  lemma StripRegion(r: Region, v: Vocab)
    requires WellFormed(r.tag, v)
    ensures Strip(RegionText(r)) == TagText(r.tag) + RStripBy(r.body, IsSpace)
  {
    var T := TagText(r.tag);
    TagTextShape(r.tag, v);
    assert !IsSpace(T[0]) && !IsSpace(T[|T| - 1]);
    assert (T + r.body)[0] == T[0];
    assert LStripBy(T + r.body, IsSpace) == T + r.body;
    RStripAppend(T, r.body, IsSpace);
  }

  /** The two modes agree: same number of segments, each kept segment opens
      with a recognised tag, and removing that tag and stripping gives the
      segment of the other mode. */
  lemma ExtractModesAgree(context: string)
    ensures |ExtractKept(context)| == |ExtractStripped(context)|
    ensures forall k | 0 <= k < |ExtractKept(context)| ::
      && TagAt(ExtractKept(context)[k], Either).Some?
      && var T := TagText(TagAt(ExtractKept(context)[k], Either).value);
         Strip(ExtractKept(context)[k][|T|..]) == ExtractStripped(context)[k]
  {
    var rs := Lex(context, Either).regions;
    var kept := ExtractKept(context);
    LexTagsWellFormed(context, Either);
    forall k | 0 <= k < |kept|
      ensures && TagAt(kept[k], Either).Some?
              && var T := TagText(TagAt(kept[k], Either).value);
                 Strip(kept[k][|T|..]) == ExtractStripped(context)[k]
    {
      KeptSegment(rs[k], Either);
    }
  }

  /** A region's kept segment opens with its tag; dropping the tag and
      stripping gives its stripped body. */
  lemma KeptSegment(r: Region, v: Vocab)
    requires WellFormed(r.tag, v)
    ensures var kept := Strip(RegionText(r));
      && TagAt(kept, v) == Some(r.tag)
      && Strip(kept[|TagText(r.tag)|..]) == Strip(r.body)
  {
    var b := RStripBy(r.body, IsSpace);
    StripRegion(r, v);
    TagAtText(r.tag, b, v);
    assert (TagText(r.tag) + b)[|TagText(r.tag)|..] == b;
    StripAfterRStrip(r.body);
  }

  // ---------------------------------------------------------------------------
  // The retag in translate_to_vietnamese

  /** `#slide N#` becomes `#Trình N#`, numeral kept verbatim. */
  function RetagTag(t: Tag): Tag
  {
    Tag(TranslatedWord, " ", t.digits)
  }

  function RetagLexed(l: Lexed): Lexed
  {
    Lexed(l.prefix, seq(|l.regions|, k requires 0 <= k < |l.regions| =>
      Region(RetagTag(l.regions[k].tag), l.regions[k].body)))
  }

  /** `re.sub(r'#slide(\d+)#', r'#Trình \1#', text)`: every match of the
      `#slide\d+#` scan is rewritten, the text between matches is kept. */
  function Retag(s: string): string
  {
    Unlex(RetagLexed(Lex(s, SlideOnly)))
  }

  /** The bodies of the regions the `#slide\d+#` scan finds hold no match
      of the wider `#(?:slide|Trình)\s*\d+#`, and the text before each tag
      does not end in a digit. A body may still begin `slide{n}#`, which
      the `#` closing the tag before it turns into a tag
      (`SafeRetagCanLeaveSlideTag`). */
  predicate RetagSafe(s: string)
  {
    WellFormedLexed(Lex(s, SlideOnly), Either)
  }

  /** On such text, the extractor's scan of the retagged text sees exactly
      the tags the `#slide\d+#` scan finds in the original, now spelt
      `#Trình N#`, in the same order with the same numerals, around the same
      text. A `slide{n}#` at the start of a body is body text to both scans. */
  lemma RetagScan(s: string)
    requires RetagSafe(s)
    ensures Lex(Retag(s), Either) == RetagLexed(Lex(s, SlideOnly))
  {
    var l := Lex(s, SlideOnly);
    var r := RetagLexed(l);
    assert WellFormedRegions(r.regions, Either) by {
      forall k | 0 <= k < |r.regions|
        ensures WellFormed(r.regions[k].tag, Either)
      {
        assert WellFormed(l.regions[k].tag, Either);
        assert r.regions[k].tag == RetagTag(l.regions[k].tag);
      }
    }
    LexUnlex(r, Either);
  }

  /** Retagging does not change what tags-stripped extraction returns. */
  lemma RetagKeepsStripped(s: string)
    requires RetagSafe(s)
    ensures ExtractStripped(Retag(s)) == ExtractStripped(s)
  {
    var l := Lex(s, SlideOnly);
    LexLossless(s, SlideOnly);
    LexUnlex(l, Either);
    RetagScan(s);
  }

  /** The retag scan resumes after each closing `#`, so in `#slide{a}#slide{b}#`
      only the first tag is rewritten, and the `#` that closes the new
      `#Trình {a}#` opens a `#slide{b}#` that is still there afterwards. */
  lemma RetagCanLeaveSlideTag(a: nat, b: nat)
    ensures var body := SlideWord + Decimal(b) + "#";
      var T := TagText(RetagTag(SlideTag(a)));
      && Retag(TagText(SlideTag(a)) + body) == T + body
      && TagAt((T + body)[|T| - 1..], SlideOnly) == Some(SlideTag(b))
  {
    var body := SlideWord + Decimal(b) + "#";
    var T := TagText(RetagTag(SlideTag(a)));
    RetagFirstOnly(a, body, b);
    SlideTagText(b);
    TagTextClosed(RetagTag(SlideTag(a)));
    ClosingOpensTag(T, body, SlideTag(b));
  }

  /** `RetagSafe` does not rule the shared `#` out: `#slide{a}#slide{b}#`
      is safe text (one region, whose body `slide{b}#` holds no tag of
      either spelling), and its retag still contains `#slide{b}#`. */
  lemma SafeRetagCanLeaveSlideTag(a: nat, b: nat)
    ensures var body := SlideWord + Decimal(b) + "#";
      var T := TagText(RetagTag(SlideTag(a)));
      && RetagSafe(TagText(SlideTag(a)) + body)
      && Retag(TagText(SlideTag(a)) + body) == T + body
      && TagAt((T + body)[|T| - 1..], SlideOnly) == Some(SlideTag(b))
  {
    var body := SlideWord + Decimal(b) + "#";
    SafeOneRegion(SlideTag(a), body, b);
    RetagCanLeaveSlideTag(a, b);
  }

  lemma SafeOneRegion(t: Tag, body: string, b: nat)
    requires WellFormed(t, SlideOnly) && body == SlideWord + Decimal(b) + "#"
    ensures RetagSafe(TagText(t) + body)
  {
    var l := Lexed([], [Region(t, body)]);
    TailTagFree(b, body, SlideOnly);
    TailTagFree(b, body, Either);
    RegionsTextOne(Region(t, body));
    assert Unlex(l) == TagText(t) + body;
    assert WellFormedLexed(l, SlideOnly);
    LexUnlex(l, SlideOnly);
    assert WellFormedLexed(l, Either);
  }

  /** Only the leading tag of `#slide{a}#slide{b}#` is a match of the retag. */
  lemma RetagFirstOnly(a: nat, body: string, b: nat)
    requires body == SlideWord + Decimal(b) + "#"
    ensures Retag(TagText(SlideTag(a)) + body) == TagText(RetagTag(SlideTag(a))) + body
  {
    TailTagFree(b, body, SlideOnly);
    RetagOneRegion(SlideTag(a), body);
  }

  /** The closing `#` of any tag text `T`, followed by the rest of
      `#slide{b}#`, starts the tag `#slide{b}#`. */
  lemma ClosingOpensTag(T: string, body: string, t: Tag)
    requires |T| > 0 && T[|T| - 1] == '#'
    requires WellFormed(t, SlideOnly) && "#" + body == TagText(t)
    ensures TagAt((T + body)[|T| - 1..], SlideOnly) == Some(t)
  {
    assert (T + body)[|T| - 1..] == "#" + body;
    AppendNil(TagText(t));
    TagAtText(t, [], SlideOnly);
  }

  lemma SlideTagText(b: nat)
    ensures TagText(SlideTag(b)) == "#" + (SlideWord + Decimal(b) + "#")
  {
    AppendNil(Decimal(b));
    AppendAssoc("#", SlideWord, Decimal(b) + "#");
    AppendAssoc(SlideWord, Decimal(b), "#");
  }

  /** One tag followed by tag-free text: only the tag is rewritten. */
  lemma RetagOneRegion(t: Tag, body: string)
    requires WellFormed(t, SlideOnly) && TagFree(body, SlideOnly)
    ensures Retag(TagText(t) + body) == TagText(RetagTag(t)) + body
  {
    var l := Lexed([], [Region(t, body)]);
    RegionsTextOne(Region(t, body));
    assert Unlex(l) == TagText(t) + body;
    assert WellFormedLexed(l, SlideOnly);
    LexUnlex(l, SlideOnly);
    var r := RetagLexed(l);
    assert r.regions == [Region(RetagTag(t), body)];
    RegionsTextOne(Region(RetagTag(t), body));
  }

  lemma RegionsTextOne(r: Region)
    ensures RegionsText([r]) == TagText(r.tag) + r.body
  {
    assert [r][1..] == [];
  }

  lemma TailTagFree(b: nat, body: string, v: Vocab)
    requires body == SlideWord + Decimal(b) + "#"
    ensures TagFree(body, v)
  {
    forall i | 0 <= i < |body| ensures TagAtFrom(body, i, v).None? {
      NoTagAt(body, i, b, v);
    }
  }

  lemma NoTagAt(body: string, i: nat, b: nat, v: Vocab)
    requires body == SlideWord + Decimal(b) + "#" && i < |body|
    ensures TagAt(body[i..], v).None?
  {
    if i == |body| - 1 {
      assert body[i..] == "#";
      assert MatchWord([], v).None?;
    } else {
      NotHashInTail(body, i, b);
      assert body[i..][0] == body[i];
    }
  }

  lemma NotHashInTail(body: string, i: nat, b: nat)
    requires body == SlideWord + Decimal(b) + "#" && i < |body| - 1
    ensures body[i] != '#'
  {
    var d := Decimal(b);
    if i < |SlideWord| {
      assert body[i] == SlideWord[i];
      assert forall k | 0 <= k < |SlideWord| :: SlideWord[k] != '#';
    } else {
      assert body[i] == d[i - |SlideWord|];
    }
  }
}
