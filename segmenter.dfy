/** Finding the slide boundaries in the word-timed transcription of a batch
    narration. A marker is a word whose lower-cased, stripped text contains
    "trình" or "chình", followed within the next three tokens by a numeral;
    every marker is scanned for (the scan never skips the numeral it used),
    the markers are stably sorted by their number, and each one opens a
    segment from half a second after it to half a second before the next
    (the last one runs to the end of the last word), stretched to five
    seconds when shorter than one. Times are exact `real`s. */
module Segmenter {
  import opened Text

  /** One transcribed word with its start and end time in seconds. */
  datatype Word = Word(text: string, start: real, end: real)

  /** `{'number': int(next_word), 'start': word.start, 'end': words[j].end}`. */
  datatype Marker = Marker(number: nat, start: real, end: real)

  /** `{'start': ..., 'end': ..., 'label': f'slide_{number}'}`; the label is `name` here. */
  datatype Segment = Segment(start: real, end: real, name: string)

  /** Where a marker was found: the marker word and its numeral token. */
  datatype Hit = Hit(word: nat, numeral: nat)

  const MarkerWord: string := "trình"
  const MarkerVariant: string := "chình"

  // ---------------------------------------------------------------------------
  // Token tests

  /** `str.lower` on one character, for the ASCII and Latin-1 capitals. */
  function LowerChar(c: char): char
  {
    if 'A' <= c <= 'Z' || ('\U{00C0}' <= c <= '\U{00DE}' && c != '\U{00D7}') then
      (c as int + 32) as char
    else c
  }

  function Lower(s: string): (r: string)
    ensures |r| == |s| && forall i | 0 <= i < |s| :: r[i] == LowerChar(s[i])
  {
    seq(|s|, i requires 0 <= i < |s| => LowerChar(s[i]))
  }

  /** `t in s` for strings. */
  predicate Contains(s: string, t: string)
  {
    exists p | 0 <= p <= |s| - |t| :: OccursAt(s, t, p)
  }

  /** The test on `word.word.lower().strip()`; being equal to one of the two
      words is a special case of containing it. */
  predicate IsMarkerWord(text: string)
  {
    var w := Strip(Lower(text));
    Contains(w, MarkerWord) || Contains(w, MarkerVariant)
  }

  /** `words[j].word.strip().isdigit()`, for ASCII numerals. */
  predicate IsNumeral(text: string)
  {
    var t := Strip(text);
    |t| > 0 && AllDigits(t)
  }

  /** `int(next_word)`. */
  function NumeralValue(text: string): nat
  {
    DigitsValue(Strip(text))
  }

  // ---------------------------------------------------------------------------
  // The scan

  /** The two token tests the scan applies. The scan is written for any pair,
      so that what is proved about it does not hang on how the tests compute;
      `Markers` runs it with the real ones, `SpokenTests`. */
  datatype TokenTests = TokenTests(marker: string -> bool, numeral: string -> bool)

  const SpokenTests: TokenTests := TokenTests(IsMarkerWord, IsNumeral)

  /** The inner `for j in range(i + 1, min(i + 4, len(words)))` from `j` on:
      the first numeral in the window, if any. */
  function DigitAfter(words: seq<Word>, t: TokenTests, i: nat, j: nat): (r: Option<nat>)
    requires i < j
    ensures r.Some? ==> j <= r.value < |words| && r.value <= i + 3 && t.numeral(words[r.value].text)
    ensures r.Some? ==> forall k | j <= k < r.value :: !t.numeral(words[k].text)
    ensures r.None? ==> forall k | j <= k < |words| && k <= i + 3 :: !t.numeral(words[k].text)
    decreases |words| - j
  {
    if j >= |words| || j > i + 3 then None
    else if t.numeral(words[j].text) then Some(j)
    else DigitAfter(words, t, i, j + 1)
  }

  /** The marker found at word `i`, if there is one. */
  function HitAt(words: seq<Word>, t: TokenTests, i: nat): (r: Option<Hit>)
    requires i < |words|
    ensures r.Some? ==> r.value.word == i && ValidHit(words, t, r.value)
  {
    if t.marker(words[i].text) then
      match DigitAfter(words, t, i, i + 1)
      case Some(j) => Some(Hit(i, j))
      case None => None
    else None
  }

  /** The markers found while `i` runs over `0 .. n - 1`, in scan order. */
  function HitsBefore(words: seq<Word>, t: TokenTests, n: nat): (hs: seq<Hit>)
    requires n <= |words|
    ensures forall k | 0 <= k < |hs| :: hs[k].word < n && ValidHit(words, t, hs[k])
  {
    if n == 0 then []
    else
      var hs := HitsBefore(words, t, n - 1);
      match HitAt(words, t, n - 1)
      case Some(h) => hs + [h]
      case None => hs
  }

  /** A hit is a marker word followed, one to three tokens later, by the first
      numeral after it. */
  predicate ValidHit(words: seq<Word>, t: TokenTests, h: Hit)
  {
    && h.word < h.numeral < |words| && h.numeral <= h.word + 3
    && t.marker(words[h.word].text) && t.numeral(words[h.numeral].text)
    && forall k | h.word < k < h.numeral :: !t.numeral(words[k].text)
  }

  /** The hits come in strictly increasing word order, so one word yields at
      most one marker. */
  lemma {:induction false} HitsAscending(words: seq<Word>, t: TokenTests, n: nat)
    requires n <= |words|
    ensures forall a, b | 0 <= a < b < |HitsBefore(words, t, n)| ::
      HitsBefore(words, t, n)[a].word < HitsBefore(words, t, n)[b].word
  {
    if n > 0 {
      HitsAscending(words, t, n - 1);
    }
  }

  /** Every hit is what the test at its own word finds, and every word whose
      test finds a marker is among the hits. */
  lemma {:induction false} HitsComplete(words: seq<Word>, t: TokenTests, n: nat)
    requires n <= |words|
    ensures forall h | h in HitsBefore(words, t, n) :: HitAt(words, t, h.word) == Some(h)
    ensures forall i | 0 <= i < n && HitAt(words, t, i).Some? :: HitAt(words, t, i).value in HitsBefore(words, t, n)
  {
    if n > 0 {
      HitsComplete(words, t, n - 1);
    }
  }

  function MarkerOf(words: seq<Word>, h: Hit): Marker
    requires h.word < |words| && h.numeral < |words|
  {
    Marker(NumeralValue(words[h.numeral].text), words[h.word].start, words[h.numeral].end)
  }

  function MarkersOf(words: seq<Word>, hs: seq<Hit>): (ms: seq<Marker>)
    requires forall k | 0 <= k < |hs| :: hs[k].word < |words| && hs[k].numeral < |words|
    ensures |ms| == |hs|
  {
    seq(|hs|, k requires 0 <= k < |hs| => MarkerOf(words, hs[k]))
  }

  lemma MarkersOfSnoc(words: seq<Word>, hs: seq<Hit>, h: Hit)
    requires forall k | 0 <= k < |hs| :: hs[k].word < |words| && hs[k].numeral < |words|
    requires h.word < |words| && h.numeral < |words|
    ensures MarkersOf(words, hs + [h]) == MarkersOf(words, hs) + [MarkerOf(words, h)]
  {
  }

  /** The hits of the real token tests. */
  function Hits(words: seq<Word>): seq<Hit>
  {
    HitsBefore(words, SpokenTests, |words|)
  }

  /** The `presentation_markers` list a scan of all of `words` builds. */
  function Markers(words: seq<Word>): (ms: seq<Marker>)
  {
    MarkersOf(words, Hits(words))
  }

  /** The scan does not skip the numeral it used: in "trình trình 3" both
      marker words find the same `3`, so the slide number comes out twice. */
  lemma ScanRepeatsNumber(words: seq<Word>)
    requires words == [Word(MarkerWord, 0.0, 0.5), Word(MarkerWord, 0.5, 1.0), Word("3", 1.0, 1.5)]
    ensures Markers(words) == [Marker(3, 0.0, 1.5), Marker(3, 0.5, 1.5)]
  {
    MarkerWordIsMarker();
    ThreeIsNumeral();
    RepeatedHits(words, SpokenTests);
    MarkersOfRepeated(words);
  }

  lemma MarkersOfRepeated(words: seq<Word>)
    requires words == [Word(MarkerWord, 0.0, 0.5), Word(MarkerWord, 0.5, 1.0), Word("3", 1.0, 1.5)]
    requires NumeralValue("3") == 3
    ensures MarkersOf(words, [Hit(0, 2), Hit(1, 2)]) == [Marker(3, 0.0, 1.5), Marker(3, 0.5, 1.5)]
  {
  }

  lemma RepeatedHits(words: seq<Word>, t: TokenTests)
    requires words == [Word(MarkerWord, 0.0, 0.5), Word(MarkerWord, 0.5, 1.0), Word("3", 1.0, 1.5)]
    requires t.marker(MarkerWord) && !t.numeral(MarkerWord) && t.numeral("3") && !t.marker("3")
    ensures HitsBefore(words, t, 3) == [Hit(0, 2), Hit(1, 2)]
  {
    assert DigitAfter(words, t, 1, 2) == Some(2);
    assert DigitAfter(words, t, 0, 1) == Some(2);
    assert HitsBefore(words, t, 1) == [Hit(0, 2)];
    assert HitsBefore(words, t, 2) == [Hit(0, 2), Hit(1, 2)];
  }

  lemma MarkerWordIsMarker()
    ensures IsMarkerWord(MarkerWord) && !IsNumeral(MarkerWord)
  {
    MarkerWordLower();
    MarkerWordStrip();
    assert OccursAt(MarkerWord, MarkerWord, 0);
    assert !IsDigit(MarkerWord[0]);
  }

  lemma MarkerWordLower()
    ensures Lower(MarkerWord) == MarkerWord
  {
  }

  lemma MarkerWordStrip()
    ensures Strip(MarkerWord) == MarkerWord
  {
    StripByFixed(MarkerWord, IsSpace);
  }

  lemma ThreeIsNumeral()
    ensures IsNumeral("3") && NumeralValue("3") == 3 && !IsMarkerWord("3")
  {
    ThreeStrip();
    assert DigitsValue("3") == 10 * DigitsValue([]) + DigitValue('3');
    TooShortForMarker("3");
  }

  lemma ThreeStrip()
    ensures Lower("3") == "3" && Strip("3") == "3"
  {
    StripByFixed("3", IsSpace);
  }

  /** Lowercasing keeps the length and stripping cannot lengthen, so a
      word shorter than both marker words contains neither. */
  lemma TooShortForMarker(s: string)
    requires |s| < |MarkerWord|
    ensures !IsMarkerWord(s)
  {
    assert |Strip(Lower(s))| <= |Lower(s)| == |s|;
  }

  // ---------------------------------------------------------------------------
  // presentation_markers.sort(key=lambda x: x['number'])

  /** Put `m` after every marker whose number is not larger. */
  function Insert(m: Marker, s: seq<Marker>): (r: seq<Marker>)
    ensures |r| == |s| + 1
  {
    if s == [] then [m]
    else if m.number < s[0].number then [m] + s
    else [s[0]] + Insert(m, s[1..])
  }

  /** `list.sort` with a key: stable insertion sort by number. */
  function SortByNumber(ms: seq<Marker>): (r: seq<Marker>)
    ensures |r| == |ms|
  {
    if ms == [] then []
    else Insert(ms[|ms| - 1], SortByNumber(ms[..|ms| - 1]))
  }

  predicate SortedByNumber(s: seq<Marker>)
  {
    forall i, j | 0 <= i < j < |s| :: s[i].number <= s[j].number
  }

  /** The markers carrying `n`, in order. */
  function WithNumber(s: seq<Marker>, n: nat): seq<Marker>
  {
    if s == [] then []
    else (if s[0].number == n then [s[0]] else []) + WithNumber(s[1..], n)
  }

  lemma {:induction false} InsertKeeps(m: Marker, s: seq<Marker>)
    ensures multiset(Insert(m, s)) == multiset(s) + multiset{m}
    decreases |s|
  {
    if s != [] && m.number >= s[0].number {
      InsertKeeps(m, s[1..]);
      HeadTail(s);
      assert multiset(s) == multiset{s[0]} + multiset(s[1..]);
    }
  }

  lemma {:induction false} InsertSorted(m: Marker, s: seq<Marker>)
    requires SortedByNumber(s)
    ensures SortedByNumber(Insert(m, s))
    decreases |s|
  {
    if s != [] && m.number >= s[0].number {
      InsertSorted(m, s[1..]);
      InsertKeeps(m, s[1..]);
      var r := Insert(m, s[1..]);
      forall j | 0 <= j < |r| ensures s[0].number <= r[j].number {
        assert r[j] in multiset(r);
        if r[j] != m {
          assert r[j] in multiset(s[1..]);
          var k :| 0 <= k < |s[1..]| && s[1..][k] == r[j];
          assert s[k + 1] == r[j];
        }
      }
      ConsSorted(s[0], r);
    }
  }

  lemma ConsSorted(x: Marker, r: seq<Marker>)
    requires SortedByNumber(r)
    requires forall j | 0 <= j < |r| :: x.number <= r[j].number
    ensures SortedByNumber([x] + r)
  {
    assert forall j | 0 < j < |[x] + r| :: ([x] + r)[j] == r[j - 1];
  }

  lemma {:induction false} InsertWithNumber(m: Marker, s: seq<Marker>, n: nat)
    requires SortedByNumber(s)
    ensures WithNumber(Insert(m, s), n) == WithNumber(s, n) + WithNumber([m], n)
    decreases |s|
  {
    if s == [] {
    } else if m.number < s[0].number {
      WithNumberAppend([m], s, n);
      if m.number == n {
        AboveNumber(s, n);
      }
      AppendNil(WithNumber(s, n));
    } else {
      InsertWithNumber(m, s[1..], n);
      assert Insert(m, s) == [s[0]] + Insert(m, s[1..]);
      HeadTail(s);
      WithNumberAppend([s[0]], Insert(m, s[1..]), n);
      WithNumberAppend([s[0]], s[1..], n);
    }
  }

  lemma {:induction false} AboveNumber(s: seq<Marker>, n: nat)
    requires forall i | 0 <= i < |s| :: s[i].number > n
    ensures WithNumber(s, n) == []
    decreases |s|
  {
    if s != [] {
      AboveNumber(s[1..], n);
    }
  }

  lemma {:induction false} WithNumberAppend(a: seq<Marker>, b: seq<Marker>, n: nat)
    ensures WithNumber(a + b, n) == WithNumber(a, n) + WithNumber(b, n)
    decreases |a|
  {
    if a != [] {
      var x := if a[0].number == n then [a[0]] else [];
      assert (a + b)[0] == a[0];
      assert (a + b)[1..] == a[1..] + b;
      assert WithNumber(a + b, n) == x + WithNumber(a[1..] + b, n);
      assert WithNumber(a, n) == x + WithNumber(a[1..], n);
      WithNumberAppend(a[1..], b, n);
      AppendAssoc(x, WithNumber(a[1..], n), WithNumber(b, n));
    } else {
      AppendNil(b);
      AppendNil(WithNumber(b, n));
    }
  }

  /** The sort orders by number, keeps every marker, and keeps the markers of
      one number in their scan order. */
  lemma {:induction false} SortByNumberSpec(ms: seq<Marker>)
    ensures SortedByNumber(SortByNumber(ms))
    ensures multiset(SortByNumber(ms)) == multiset(ms)
    ensures forall n :: WithNumber(SortByNumber(ms), n) == WithNumber(ms, n)
    decreases |ms|
  {
    if ms != [] {
      var front, last := ms[..|ms| - 1], ms[|ms| - 1];
      SortByNumberSpec(front);
      var r := SortByNumber(front);
      InsertSorted(last, r);
      InsertKeeps(last, r);
      SnocParts(ms);
      assert multiset(ms) == multiset(front) + multiset{last};
      forall n ensures WithNumber(SortByNumber(ms), n) == WithNumber(ms, n) {
        InsertWithNumber(last, r, n);
        WithNumberAppend(front, [last], n);
      }
    }
  }

  lemma SnocParts<T>(s: seq<T>)
    requires s != []
    ensures s[..|s| - 1] + [s[|s| - 1]] == s
  {
  }

  // ---------------------------------------------------------------------------
  // Segments

  /** What the segment of the `i`-th sorted marker spans, before the minimum
      length is enforced. */
  function RawEnd(ms: seq<Marker>, words: seq<Word>, i: nat): real
    requires i < |ms|
  {
    if i + 1 < |ms| then ms[i + 1].start - 0.5
    else if words != [] then words[|words| - 1].end
    else ms[i].end + 0.5 + 30.0
  }

  function SegmentOf(ms: seq<Marker>, words: seq<Word>, i: nat): (g: Segment)
    requires i < |ms|
    ensures g.start == ms[i].end + 0.5 && g.name == SlideLabel(ms[i].number)
    ensures g.end - g.start >= 1.0
    ensures g.end == (if RawEnd(ms, words, i) - g.start < 1.0 then g.start + 5.0 else RawEnd(ms, words, i))
  {
    var start := ms[i].end + 0.5;
    var end := RawEnd(ms, words, i);
    Segment(start, if end - start < 1.0 then start + 5.0 else end, SlideLabel(ms[i].number))
  }

  /** `f'slide_{number}'`. */
  function SlideLabel(n: nat): string
  {
    "slide_" + Decimal(n)
  }

  function Cut(ms: seq<Marker>, words: seq<Word>): (segs: seq<Segment>)
  {
    seq(|ms|, i requires 0 <= i < |ms| => SegmentOf(ms, words, i))
  }

  /** What `_find_presentation_segments` returns for `words`. */
  function PresentationSegments(words: seq<Word>): (segs: seq<Segment>)
  {
    Cut(SortByNumber(Markers(words)), words)
  }

  /** A marker needs a word, so the last segment always ends at the last
      word's end (the `start_time + 30` fallback is never taken). */
  lemma MarkersNeedWords(words: seq<Word>)
    requires Markers(words) != []
    ensures words != []
  {
    assert Hits(words)[0].word < |words|;
  }

  /** The segments cut at sorted markers `ms`: one per marker, segment `i`
      takes the `i`-th marker's number as its label, starts half a second
      after that marker and lasts at least a second; it ends half a second
      before the next marker, or at the last word's end, unless that would
      make it shorter than a second, in which case it lasts five. */
  lemma CutSpec(ms: seq<Marker>, words: seq<Word>)
    requires ms != [] ==> words != []
    ensures var segs := Cut(ms, words);
      && |segs| == |ms|
      && forall i | 0 <= i < |segs| ::
           && segs[i].name == SlideLabel(ms[i].number)
           && segs[i].start == ms[i].end + 0.5
           && segs[i].end - segs[i].start >= 1.0
           && var raw := if i + 1 < |ms| then ms[i + 1].start - 0.5 else words[|words| - 1].end;
              segs[i].end == if raw - segs[i].start < 1.0 then segs[i].start + 5.0 else raw
  {
    var segs := Cut(ms, words);
    forall i | 0 <= i < |segs|
      ensures && segs[i].name == SlideLabel(ms[i].number)
              && segs[i].start == ms[i].end + 0.5
              && segs[i].end - segs[i].start >= 1.0
              && var raw := if i + 1 < |ms| then ms[i + 1].start - 0.5 else words[|words| - 1].end;
                 segs[i].end == if raw - segs[i].start < 1.0 then segs[i].start + 5.0 else raw
    {
      assert segs[i] == SegmentOf(ms, words, i);
    }
  }

  /** `_find_presentation_segments` cuts one segment per marker found, at the
      markers sorted stably by number; no marker gives no segment. */
  lemma PresentationSegmentsSpec(words: seq<Word>)
    ensures var ms := SortByNumber(Markers(words));
      && PresentationSegments(words) == Cut(ms, words)
      && (ms != [] ==> words != [])
      && |ms| == |Hits(words)|
      && multiset(ms) == multiset(Markers(words))
      && SortedByNumber(ms)
      && forall n :: WithNumber(ms, n) == WithNumber(Markers(words), n)
  {
    SortByNumberSpec(Markers(words));
    if Markers(words) != [] {
      MarkersNeedWords(words);
    }
  }

  /** Each marker comes from a marker word and the first numeral one to three
      tokens after it: its number is that numeral's value, its start the
      word's start and its end the numeral's end. */
  lemma MarkersFromHits(words: seq<Word>)
    ensures forall k | 0 <= k < |Hits(words)| ::
      && ValidHit(words, SpokenTests, Hits(words)[k])
      && Markers(words)[k] == MarkerOf(words, Hits(words)[k])
  {
  }

  /** A word yields a marker exactly when it passes the marker test and one
      of the next three tokens passes the numeral test. */
  lemma MarkerWordsYieldHits(words: seq<Word>, t: TokenTests, i: nat)
    requires i < |words|
    ensures (exists j :: Hit(i, j) in HitsBefore(words, t, |words|)) <==>
      t.marker(words[i].text) && exists j | i < j <= i + 3 && j < |words| :: t.numeral(words[j].text)
  {
    var hs := HitsBefore(words, t, |words|);
    HitsComplete(words, t, |words|);
    if t.marker(words[i].text) && exists j | i < j <= i + 3 && j < |words| :: t.numeral(words[j].text) {
      var j :| i < j <= i + 3 && j < |words| && t.numeral(words[j].text);
      var d := DigitAfter(words, t, i, i + 1);
      assert d.Some?;
      assert HitAt(words, t, i) == Some(Hit(i, d.value));
      assert Hit(i, d.value) in hs;
    }
    if exists j :: Hit(i, j) in hs {
      var j :| Hit(i, j) in hs;
      assert HitAt(words, t, i) == Some(Hit(i, j));
      assert ValidHit(words, t, Hit(i, j));
    }
  }

  /** `_find_presentation_segments`: scan for markers, sort them, cut segments. */
  method FindPresentationSegments(words: seq<Word>) returns (segments: seq<Segment>)
    ensures segments == PresentationSegments(words)
  {
    var markers := ScanMarkers(words, SpokenTests);
    segments := [];
    if markers != [] {
      markers := SortByNumber(markers);
      segments := CutSegments(markers, words);
    }
  }

  /** The `while i < len(words)` loop: every word is examined, and the index
      always advances by one. */
  method ScanMarkers(words: seq<Word>, t: TokenTests) returns (markers: seq<Marker>)
    ensures markers == MarkersOf(words, HitsBefore(words, t, |words|))
  {
    markers := [];
    var i := 0;
    while i < |words|
      invariant i <= |words|
      invariant markers == MarkersOf(words, HitsBefore(words, t, i))
    {
      ghost var found := false;
      if t.marker(words[i].text) {
        var j := i + 1;
        var hi := if i + 4 <= |words| then i + 4 else |words|;
        while j < hi
          invariant i + 1 <= j <= hi
          invariant DigitAfter(words, t, i, j) == DigitAfter(words, t, i, i + 1)
          invariant markers == MarkersOf(words, HitsBefore(words, t, i))
        {
          if t.numeral(words[j].text) {
            HitsStep(words, t, i, j);
            MarkersOfSnoc(words, HitsBefore(words, t, i), Hit(i, j));
            markers := markers + [Marker(NumeralValue(words[j].text), words[i].start, words[j].end)];
            found := true;
            break;
          }
          j := j + 1;
        }
      }
      if !found {
        HitsSkip(words, t, i);
      }
      i := i + 1;
    }
  }

  lemma HitsStep(words: seq<Word>, t: TokenTests, i: nat, j: nat)
    requires i < |words| && t.marker(words[i].text) && DigitAfter(words, t, i, i + 1) == Some(j)
    ensures HitsBefore(words, t, i + 1) == HitsBefore(words, t, i) + [Hit(i, j)]
  {
  }

  lemma HitsSkip(words: seq<Word>, t: TokenTests, i: nat)
    requires i < |words| && HitAt(words, t, i).None?
    ensures HitsBefore(words, t, i + 1) == HitsBefore(words, t, i)
  {
  }

  /** The loop over the sorted markers that builds `segments`. */
  method CutSegments(markers: seq<Marker>, words: seq<Word>) returns (segments: seq<Segment>)
    ensures segments == Cut(markers, words)
  {
    segments := [];
    var k := 0;
    while k < |markers|
      invariant k <= |markers|
      invariant segments == seq(k, n requires 0 <= n < k => SegmentOf(markers, words, n))
    {
      var start := markers[k].end + 0.5;
      var end;
      if k + 1 < |markers| {
        end := markers[k + 1].start - 0.5;
      } else {
        end := if words != [] then words[|words| - 1].end else start + 30.0;
      }
      if end - start < 1.0 {
        end := start + 5.0;
      }
      segments := segments + [Segment(start, end, "slide_" + Decimal(markers[k].number))];
      k := k + 1;
    }
  }
}
