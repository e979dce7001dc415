/** The order of the slide audio files the speech step returns, and the
    check the workflow runs on them. `create_video` pairs the `i`-th audio
    file with the `i`-th slide image, so the order matters. Step 2 of the
    batch workflow lists the slide files in slide order. The source then
    returns `sorted(...)` of that list, which compares strings, so
    `slide_10.wav` lands before `slide_2.wav`. The dispatch below returns
    the list in slide order. */
module SpeechOrder {
  import opened Text
  import opened Batching
  import opened Speech
  import opened SpeechBatches

  // ---------------------------------------------------------------------------
  // Slide order out of step 2

  /** Records of consecutive, non-empty batches of the slides `1 ..= n`, each
      counting its own slides. */
  predicate Consecutive(infos: seq<BatchInfo>, n: nat)
  {
    && (forall k | 0 <= k < |infos| ::
          && 0 < infos[k].startSlide <= infos[k].endSlide <= n
          && infos[k].slideCount == infos[k].endSlide - infos[k].startSlide + 1)
    && (forall j, k | 0 <= j && k == j + 1 < |infos| :: infos[k].startSlide == infos[j].endSlide + 1)
  }

  /** The records of step 1 are consecutive, and the last one ends at slide `n`. */
  lemma InfosConsecutive(dir: string, n: nat, size: nat)
    requires size > 0
    ensures Consecutive(Infos(dir, StridePlan(n, size)), n)
    ensures var infos := Infos(dir, StridePlan(n, size));
      infos != [] ==> infos[|infos| - 1].endSlide == n
  {
  }

  predicate Increasing(ns: seq<nat>)
  {
    forall i, j | 0 <= i < j < |ns| :: ns[i] < ns[j]
  }

  /** A batch lists the slides `start_slide, start_slide + 1, …`: all of them
      when its split raised, otherwise one per piece and at most
      `slide_count`. Nothing pads a batch that comes back short. */
  lemma CopiesSlides(b: BatchInfo, split: Option<Split>)
    requires split.Some? ==> forall p | p in split.value.paths :: p in split.value.written
    ensures var ns := Numbers(Copies(b, split));
      && |ns| == (if split.None? || b.slideCount <= |split.value.paths| then b.slideCount else |split.value.paths|)
      && forall i | 0 <= i < |ns| :: ns[i] == b.startSlide + i
  {
  }

  /** Step 2 lists slide numbers in strictly increasing order, each a slide
      of some batch. */
  lemma {:induction false} SplitAllNumbers(infos: seq<BatchInfo>, dir: string, files: Files, transcribe: Transcriber, n: nat)
    requires Consecutive(infos, n)
    ensures var ns := SplitAll(infos, dir, files, transcribe).0;
      && Increasing(ns)
      && (infos == [] ==> ns == [])
      && (infos != [] ==> forall i | 0 <= i < |ns| :: 0 < ns[i] <= infos[|infos| - 1].endSlide)
    decreases |infos|
  {
    if infos != [] {
      var front := infos[..|infos| - 1];
      var b := infos[|infos| - 1];
      assert Consecutive(front, n);
      SplitAllNumbers(front, dir, files, transcribe, n);
      var before := SplitAll(front, dir, files, transcribe);
      var split := BatchSplit(b, dir, before.1, transcribe);
      var ms := Numbers(Copies(b, split));
      CopiesSlides(b, split);
      if front != [] {
        assert b.startSlide == front[|front| - 1].endSlide + 1;
      }
      var ns := before.0 + ms;
      assert SplitAll(infos, dir, files, transcribe).0 == ns;
      forall i, j | 0 <= i < j < |ns| ensures ns[i] < ns[j] {
        if j < |before.0| {
          assert ns[i] == before.0[i] && ns[j] == before.0[j];
        } else if i >= |before.0| {
          assert ns[i] == ms[i - |before.0|] && ns[j] == ms[j - |before.0|];
        } else {
          assert ns[i] == before.0[i] && ns[j] == ms[j - |before.0|];
        }
      }
    }
  }

  lemma {:induction false} IncreasingFloor(ns: seq<nat>, i: nat)
    requires Increasing(ns) && i < |ns| && forall k | 0 <= k < |ns| :: 0 < ns[k]
    ensures i + 1 <= ns[i]
  {
    if i > 0 {
      IncreasingFloor(ns, i - 1);
    }
  }

  lemma {:induction false} IncreasingCeiling(ns: seq<nat>, n: nat, i: nat)
    requires Increasing(ns) && i < |ns| && forall k | 0 <= k < |ns| :: ns[k] <= n
    ensures ns[i] + (|ns| - 1 - i) <= n
    decreases |ns| - i
  {
    if i + 1 < |ns| {
      IncreasingCeiling(ns, n, i + 1);
    }
  }

  /** Strictly increasing slide numbers among `1 ..= n` are at most `n`, and
      exactly `n` of them are `1, 2, …, n`. */
  lemma IncreasingWithin(ns: seq<nat>, n: nat)
    requires Increasing(ns) && forall k | 0 <= k < |ns| :: 0 < ns[k] <= n
    ensures |ns| <= n
    ensures |ns| == n ==> forall i | 0 <= i < |ns| :: ns[i] == i + 1
  {
    forall i | 0 <= i < |ns| ensures i + 1 <= ns[i] && ns[i] + (|ns| - 1 - i) <= n {
      IncreasingFloor(ns, i);
      IncreasingCeiling(ns, n, i);
    }
    if ns != [] {
      assert 1 <= ns[0] && ns[0] + (|ns| - 1) <= n;
    }
  }

  /** `slide_1.wav`, …, `slide_n.wav`: the order the slide images come in. */
  function SlideOrder(dir: string, n: nat): (paths: seq<string>)
    ensures |paths| == n
  {
    seq(n, i requires 0 <= i < n => SlideFile(dir, i + 1))
  }

  lemma SlidePathsInOrder(dir: string, ns: seq<nat>)
    requires forall i | 0 <= i < |ns| :: ns[i] == i + 1
    ensures SlidePaths(dir, ns) == SlideOrder(dir, |ns|)
  {
    forall i | 0 <= i < |ns| ensures SlidePaths(dir, ns)[i] == SlideOrder(dir, |ns|)[i] {
      assert ns[i] == i + 1;
    }
  }

  /** The batch workflow lists each slide's file at most once, in slide order.
      When no batch comes back short, the list is exactly `slide_1.wav …
      slide_n.wav`. */
  lemma BatchOutcomeOrder(descriptions: seq<string>, dir: string, size: nat, tts: Synthesiser,
                          transcribe: Transcriber, files: Files)
    requires size > 0
    ensures var ns := BatchOutcome(descriptions, dir, size, tts, transcribe, files).0;
      && Increasing(ns)
      && (forall i | 0 <= i < |ns| :: 1 <= ns[i] <= |descriptions|)
      && |ns| <= |descriptions|
      && (|ns| == |descriptions| ==> SlidePaths(dir, ns) == SlideOrder(dir, |descriptions|))
    ensures var paths := SlidePaths(dir, BatchOutcome(descriptions, dir, size, tts, transcribe, files).0);
      forall i, j | 0 <= i < j < |paths| :: paths[i] != paths[j]
  {
    var n := |descriptions|;
    var plan := StridePlan(n, size);
    var infos := Infos(dir, plan);
    var entries := BatchEntries(descriptions, dir, tts, plan);
    InfosConsecutive(dir, n, size);
    SplitAllNumbers(infos, dir, Store(files, entries), transcribe, n);
    var ns := BatchOutcome(descriptions, dir, size, tts, transcribe, files).0;
    assert ns == SplitAll(infos, dir, Store(files, entries), transcribe).0;
    IncreasingWithin(ns, n);
    if |ns| == n {
      SlidePathsInOrder(dir, ns);
    }
    var paths := SlidePaths(dir, ns);
    forall i, j | 0 <= i < j < |paths| ensures paths[i] != paths[j] {
      if paths[i] == paths[j] {
        SlideFileInjective(dir, ns[i], ns[j]);
      }
    }
  }

  // ---------------------------------------------------------------------------
  // Every listed file exists

  /** Step 2 keeps every file it finds, and every slide file it lists exists
      afterwards. */
  lemma {:induction false} SplitAllKeys(infos: seq<BatchInfo>, dir: string, files: Files, transcribe: Transcriber)
    ensures var r := SplitAll(infos, dir, files, transcribe);
      files.Keys <= r.1.Keys && AllStored(SlidePaths(dir, r.0), r.1)
    decreases |infos|
  {
    if infos != [] {
      var front := infos[..|infos| - 1];
      var b := infos[|infos| - 1];
      SplitAllKeys(front, dir, files, transcribe);
      var before := SplitAll(front, dir, files, transcribe);
      var cs := Copies(b, BatchSplit(b, dir, before.1, transcribe));
      var writes := SlideWrites(dir, cs);
      StoreGrows(before.1, writes);
      SlideWritesNames(dir, cs);
      SlidePathsAppend(dir, before.0, Numbers(cs));
      KeysGrow(files, before.1, Store(before.1, writes), SlidePaths(dir, before.0), Names(writes));
      assert SplitAll(infos, dir, files, transcribe) == (before.0 + Numbers(cs), Store(before.1, writes));
    }
  }

  /** Writing more files keeps the ones there and adds the ones written. */
  lemma KeysGrow(f0: Files, f1: Files, f2: Files, listed: seq<string>, written: seq<string>)
    requires f0.Keys <= f1.Keys && AllStored(listed, f1)
    requires f1.Keys <= f2.Keys && AllStored(written, f2)
    ensures f0.Keys <= f2.Keys && AllStored(listed + written, f2)
  {
    forall i | 0 <= i < |listed + written| ensures (listed + written)[i] in f2 {
      if i < |listed| {
        assert (listed + written)[i] == listed[i];
      } else {
        assert (listed + written)[i] == written[i - |listed|];
      }
    }
  }

  /** After step 3 every slide file the batch workflow lists still exists:
      removing the batch files never removes a slide file. */
  lemma BatchOutputsExist(descriptions: seq<string>, dir: string, size: nat, tts: Synthesiser,
                          transcribe: Transcriber, files: Files)
    requires size > 0
    ensures var r := BatchOutcome(descriptions, dir, size, tts, transcribe, files);
      AllStored(SlidePaths(dir, r.0), r.1)
  {
    var plan := StridePlan(|descriptions|, size);
    var entries := BatchEntries(descriptions, dir, tts, plan);
    var split := SplitAll(Infos(dir, plan), dir, Store(files, entries), transcribe);
    SplitAllKeys(Infos(dir, plan), dir, Store(files, entries), transcribe);
    var paths := SlidePaths(dir, split.0);
    var removed := set k | 0 <= k < |entries| :: entries[k].0;
    forall i | 0 <= i < |paths| ensures paths[i] in split.1 - removed {
      forall k | 0 <= k < |entries| ensures entries[k].0 != paths[i] {
        SlideFileNotBatchFile(dir, split.0[i], plan[k].first, plan[k].last);
      }
    }
  }

  // ---------------------------------------------------------------------------
  // Step 4 of test_workflow_with_batch_splitting: missing files

  /** `slide_{i+1}.wav` for every listed file `i` that does not exist, in order. */
  function MissingNames(audioFiles: seq<string>, files: Files): seq<string>
    decreases |audioFiles|
  {
    if audioFiles == [] then []
    else
      var k := |audioFiles| - 1;
      MissingNames(audioFiles[..k], files) + (if audioFiles[k] in files then [] else [SlideName(k + 1)])
  }

  /** The check reports nothing exactly when every listed file exists. */
  lemma {:induction false} NothingMissing(audioFiles: seq<string>, files: Files)
    ensures MissingNames(audioFiles, files) == [] <==> AllStored(audioFiles, files)
    decreases |audioFiles|
  {
    if audioFiles != [] {
      var k := |audioFiles| - 1;
      var init := audioFiles[..k];
      NothingMissing(init, files);
      assert MissingNames(audioFiles, files) == [] <==> MissingNames(init, files) == [] && audioFiles[k] in files by {
        var tail := if audioFiles[k] in files then [] else [SlideName(k + 1)];
        assert |MissingNames(audioFiles, files)| == |MissingNames(init, files)| + |tail|;
      }
      assert AllStored(audioFiles, files) <==> AllStored(init, files) && audioFiles[k] in files by {
        assert forall i | 0 <= i < k :: init[i] == audioFiles[i];
      }
    }
  }

  /** The loop of step 4: collect the names of the listed files that are missing. */
  method MissingAudioFiles(audioFiles: seq<string>, files: Files) returns (missing: seq<string>)
    ensures missing == MissingNames(audioFiles, files)
  {
    missing := [];
    var i := 0;
    while i < |audioFiles|
      invariant i <= |audioFiles|
      invariant missing == MissingNames(audioFiles[..i], files)
    {
      assert audioFiles[..i + 1][..i] == audioFiles[..i];
      if audioFiles[i] !in files {
        missing := missing + [SlideName(i + 1)];
      }
      i := i + 1;
    }
    assert audioFiles[..i] == audioFiles;
  }

  // ---------------------------------------------------------------------------
  // sorted(all_slide_files)

  /** Python's `<` on strings: code point by code point, a proper prefix
      first. */
  predicate StrLess(a: string, b: string)
    decreases |a|
  {
    if a == [] then b != []
    else if b == [] then false
    else if a[0] != b[0] then a[0] < b[0]
    else StrLess(a[1..], b[1..])
  }

  predicate StrLeq(a: string, b: string)
  {
    a == b || StrLess(a, b)
  }

  lemma {:induction false} StrLessIrreflexive(a: string)
    ensures !StrLess(a, a)
    decreases |a|
  {
    if a != [] {
      StrLessIrreflexive(a[1..]);
    }
  }

  lemma {:induction false} StrLessAsymmetric(a: string, b: string)
    requires StrLess(a, b)
    ensures !StrLess(b, a)
    decreases |a|
  {
    if a != [] && b != [] && a[0] == b[0] {
      StrLessAsymmetric(a[1..], b[1..]);
    }
  }

  lemma {:induction false} StrLessTransitive(a: string, b: string, c: string)
    requires StrLess(a, b) && StrLess(b, c)
    ensures StrLess(a, c)
    decreases |a|
  {
    if a != [] && a[0] == b[0] && b[0] == c[0] {
      StrLessTransitive(a[1..], b[1..], c[1..]);
    }
  }

  lemma {:induction false} StrLessTotal(a: string, b: string)
    ensures a == b || StrLess(a, b) || StrLess(b, a)
    decreases |a|
  {
    if a != [] && b != [] && a[0] == b[0] {
      StrLessTotal(a[1..], b[1..]);
      if a[1..] == b[1..] {
        HeadTail(a);
        HeadTail(b);
      }
    }
  }

  /** A common prefix does not change the comparison. */
  lemma {:induction false} StrLessPrefix(p: string, a: string, b: string)
    ensures StrLess(p + a, p + b) <==> StrLess(a, b)
    decreases |p|
  {
    if p != [] {
      var pa, pb := p + a, p + b;
      assert pa != [] && pb != [] && pa[0] == pb[0];
      assert pa[1..] == p[1..] + a;
      assert pb[1..] == p[1..] + b;
      assert StrLess(pa, pb) == StrLess(pa[1..], pb[1..]);
      StrLessPrefix(p[1..], a, b);
    } else {
      assert p + a == a && p + b == b;
    }
  }

  /** Insertion into a sorted list, before the first element not smaller. */
  function InsertString(x: string, xs: seq<string>): seq<string>
  {
    if xs == [] then [x]
    else if StrLeq(x, xs[0]) then [x] + xs
    else [xs[0]] + InsertString(x, xs[1..])
  }

  /** `sorted` on a list of strings. */
  function SortStrings(xs: seq<string>): seq<string>
  {
    if xs == [] then [] else InsertString(xs[0], SortStrings(xs[1..]))
  }

  predicate SortedStrings(xs: seq<string>)
  {
    forall i, j | 0 <= i < j < |xs| :: StrLeq(xs[i], xs[j])
  }

  lemma StrLeqTransitive(a: string, b: string, c: string)
    requires StrLeq(a, b) && StrLeq(b, c)
    ensures StrLeq(a, c)
  {
    if a != b && b != c {
      StrLessTransitive(a, b, c);
    }
  }

  lemma {:induction false} InsertStringMultiset(x: string, xs: seq<string>)
    ensures multiset(InsertString(x, xs)) == multiset(xs) + multiset{x}
    decreases |xs|
  {
    if xs != [] && !StrLeq(x, xs[0]) {
      InsertStringMultiset(x, xs[1..]);
      HeadTail(xs);
    }
  }

  lemma {:induction false} InsertStringSorted(x: string, xs: seq<string>)
    requires SortedStrings(xs)
    ensures SortedStrings(InsertString(x, xs))
    ensures xs != [] ==> InsertString(x, xs)[0] == x || InsertString(x, xs)[0] == xs[0]
    decreases |xs|
  {
    if xs != [] && !StrLeq(x, xs[0]) {
      var tail := xs[1..];
      assert SortedStrings(tail);
      InsertStringSorted(x, tail);
      var rest := InsertString(x, tail);
      StrLessTotal(x, xs[0]);
      assert StrLeq(xs[0], rest[0]) by {
        if tail != [] && rest[0] == tail[0] {
          assert tail[0] == xs[1];
        }
      }
      var r := [xs[0]] + rest;
      forall i, j | 0 <= i < j < |r| ensures StrLeq(r[i], r[j]) {
        if i == 0 {
          if j > 1 {
            StrLeqTransitive(xs[0], rest[0], rest[j - 1]);
          }
        } else {
          assert r[i] == rest[i - 1] && r[j] == rest[j - 1];
        }
      }
    } else if xs != [] {
      var r := [x] + xs;
      forall i, j | 0 <= i < j < |r| ensures StrLeq(r[i], r[j]) {
        if i == 0 {
          if j > 1 {
            StrLeqTransitive(x, xs[0], xs[j - 1]);
          }
        } else {
          assert r[i] == xs[i - 1] && r[j] == xs[j - 1];
        }
      }
    }
  }

  /** `sorted` returns its input rearranged into ascending string order. */
  lemma {:induction false} SortStringsSpec(xs: seq<string>)
    ensures SortedStrings(SortStrings(xs))
    ensures multiset(SortStrings(xs)) == multiset(xs)
    decreases |xs|
  {
    if xs != [] {
      SortStringsSpec(xs[1..]);
      InsertStringSorted(xs[0], SortStrings(xs[1..]));
      InsertStringMultiset(xs[0], SortStrings(xs[1..]));
      assert xs == [xs[0]] + xs[1..];
    }
  }

  lemma SlideNamesCompare()
    ensures StrLess(SlideName(1), SlideName(10))
    ensures StrLess(SlideName(10), SlideName(2))
    ensures StrLess(SlideName(1), SlideName(2))
  {
    assert Decimal(1) == "1" && Decimal(2) == "2";
    assert Decimal(10) == "10";
    assert SlideName(1) == "slide_1" + ".wav";
    assert SlideName(10) == "slide_1" + "0.wav";
    assert SlideName(2) == "slide_" + "2.wav";
    assert SlideName(10) == "slide_" + "10.wav";
    assert SlideName(1) == "slide_" + "1.wav";
    StrLessPrefix("slide_1", ".wav", "0.wav");
    StrLessPrefix("slide_", "10.wav", "2.wav");
    StrLessPrefix("slide_", "1.wav", "2.wav");
  }

  /** File names in one directory compare as their base names do. */
  lemma SlideFilesCompare(dir: string, a: nat, b: nat)
    requires StrLess(SlideName(a), SlideName(b))
    ensures StrLess(SlideFile(dir, a), SlideFile(dir, b))
  {
    var p := if dir == [] || dir[|dir| - 1] == '/' then dir else dir + "/";
    assert SlideFile(dir, a) == p + SlideName(a);
    assert SlideFile(dir, b) == p + SlideName(b);
    StrLessPrefix(p, SlideName(a), SlideName(b));
  }

  /** In any list holding the files of slides 1, 2 and 10, `sorted` puts
      something other than slide 2's file second: both `slide_1.wav` and
      `slide_10.wav` sort before `slide_2.wav`. */
  lemma SortedMisplacesSlideTwo(dir: string, xs: seq<string>)
    requires SlideFile(dir, 1) in xs && SlideFile(dir, 2) in xs && SlideFile(dir, 10) in xs
    ensures |SortStrings(xs)| >= 2 && SortStrings(xs)[1] != SlideFile(dir, 2)
  {
    var one, two, ten := SlideFile(dir, 1), SlideFile(dir, 2), SlideFile(dir, 10);
    SlideNamesCompare();
    SlideFilesCompare(dir, 1, 2);
    SlideFilesCompare(dir, 10, 2);
    SlideFilesCompare(dir, 1, 10);
    StrLessIrreflexive(one);
    SortedNotSecond(xs, one, ten, two);
  }

  /** Two different strings of the list that are both smaller than `c` keep
      `c` out of the second place of the sorted list. */
  lemma SortedNotSecond(xs: seq<string>, a: string, b: string, c: string)
    requires a in xs && b in xs && c in xs && a != b
    requires StrLess(a, c) && StrLess(b, c)
    ensures |SortStrings(xs)| >= 2 && SortStrings(xs)[1] != c
  {
    StrLessIrreflexive(c);
    assert a != c && b != c;
    SortStringsSpec(xs);
    var out := SortStrings(xs);
    assert a in multiset(out) && b in multiset(out) && c in multiset(out);
    var p :| 0 <= p < |out| && out[p] == a;
    var q :| 0 <= q < |out| && out[q] == b;
    assert p != q;
    if out[1] == c {
      var t := if p == 0 then q else p;
      assert 2 <= t && (out[t] == a || out[t] == b);
      assert StrLeq(out[1], out[t]);
      StrLessAsymmetric(out[t], c);
      assert false;
    }
  }

  /** With ten slides or more and no batch short, slide order puts slide 2's
      file second and `sorted` does not. */
  lemma SortedOrderDisagrees(dir: string, n: nat)
    requires n >= 10
    ensures SlideOrder(dir, n)[1] == SlideFile(dir, 2)
    ensures |SortStrings(SlideOrder(dir, n))| >= 2 && SortStrings(SlideOrder(dir, n))[1] != SlideFile(dir, 2)
  {
    var xs := SlideOrder(dir, n);
    assert xs[0] == SlideFile(dir, 1) && xs[1] == SlideFile(dir, 2) && xs[9] == SlideFile(dir, 10);
    SortedMisplacesSlideTwo(dir, xs);
  }

  // ---------------------------------------------------------------------------
  // The two entry points

  /** `_tts_batch_with_splitting` as written: the three steps, then
      `sorted(all_slide_files)`. */
  method TtsBatchWithSplitting(descriptions: seq<string>, dir: string, size: nat, tts: Synthesiser,
                               transcribe: Transcriber, files: Files)
    returns (paths: seq<string>, files': Files)
    requires size > 0
    ensures paths == SortStrings(SlidePaths(dir, BatchOutcome(descriptions, dir, size, tts, transcribe, files).0))
    ensures files' == BatchOutcome(descriptions, dir, size, tts, transcribe, files).1
  {
    var allSlideFiles;
    allSlideFiles, files' := TtsBatchInSlideOrder(descriptions, dir, size, tts, transcribe, files);
    paths := SortStrings(allSlideFiles);
  }

  /** `text_to_speech_vietnamese_batch`: a batch size of 1 speaks slide by
      slide, any larger one runs the batch workflow, here returning its files
      in slide order. Either way the files come in slide order and every one
      exists, so the missing-file check of the workflow reports nothing. */
  method TextToSpeech(descriptions: seq<string>, dir: string, size: nat, tts: Synthesiser,
                      transcribe: Transcriber, files: Files)
    returns (paths: seq<string>, files': Files)
    requires size > 0
    ensures size == 1 ==> paths == Names(SingleEntries(descriptions, dir, tts))
                          && files' == Store(files, SingleEntries(descriptions, dir, tts))
    ensures size > 1 ==> paths == SlidePaths(dir, BatchOutcome(descriptions, dir, size, tts, transcribe, files).0)
                         && files' == BatchOutcome(descriptions, dir, size, tts, transcribe, files).1
    ensures |paths| <= |descriptions|
    ensures forall i, j | 0 <= i < j < |paths| :: paths[i] != paths[j]
    ensures MissingNames(paths, files') == []
  {
    if size == 1 {
      paths, files' := TtsSingleSlide(descriptions, dir, tts, files);
      forall i, j | 0 <= i < j < |paths| ensures paths[i] != paths[j] {
        if paths[i] == paths[j] {
          SlideFileInjective(dir, i + 1, j + 1);
        }
      }
    } else {
      paths, files' := TtsBatchInSlideOrder(descriptions, dir, size, tts, transcribe, files);
      BatchOutcomeOrder(descriptions, dir, size, tts, transcribe, files);
      BatchOutputsExist(descriptions, dir, size, tts, transcribe, files);
    }
    NothingMissing(paths, files');
  }
  /** A reordering of stored paths lists only stored paths. */
  lemma PermutedStored(xs: seq<string>, ys: seq<string>, files: Files)
    requires multiset(ys) == multiset(xs) && AllStored(xs, files)
    ensures AllStored(ys, files)
  {
    forall i | 0 <= i < |ys| ensures ys[i] in files {
      assert ys[i] in multiset(xs);
    }
  }

  /** A value occurs at most once in a list without repetitions. */
  lemma {:induction false} DistinctOnce(xs: seq<string>, v: string)
    requires forall i, j | 0 <= i < j < |xs| :: xs[i] != xs[j]
    ensures multiset(xs)[v] <= 1
    decreases |xs|
  {
    if xs != [] {
      assert xs == [xs[0]] + xs[1..];
      DistinctOnce(xs[1..], v);
      if xs[0] == v {
        assert v !in xs[1..];
      }
    }
  }

  /** A value at two positions occurs at least twice. */
  lemma OccursTwice(ys: seq<string>, i: nat, j: nat)
    requires i < j < |ys| && ys[i] == ys[j]
    ensures multiset(ys)[ys[i]] >= 2
  {
    assert ys == ys[..j] + ys[j..];
    assert ys[i] in multiset(ys[..j]) && ys[j] in multiset(ys[j..]);
  }

  /** A reordering of a list without repetitions has none either. */
  lemma PermutedDistinct(xs: seq<string>, ys: seq<string>)
    requires multiset(ys) == multiset(xs)
    requires forall i, j | 0 <= i < j < |xs| :: xs[i] != xs[j]
    ensures forall i, j | 0 <= i < j < |ys| :: ys[i] != ys[j]
  {
    forall i, j | 0 <= i < j < |ys| ensures ys[i] != ys[j] {
      if ys[i] == ys[j] {
        OccursTwice(ys, i, j);
        DistinctOnce(xs, ys[i]);
        assert false;
      }
    }
  }

  /**
   * The dispatch of text_to_speech_vietnamese_batch as written: batch sizes above
   * one go through `_tts_batch_with_splitting`, whose result is sorted
   * as strings.  The audio files still all exist and none repeats, but
   * `slide_10.wav` sorts before `slide_2.wav`.
   */
  method TextToSpeechAsWritten(descriptions: seq<string>, dir: string, size: nat, tts: Synthesiser,
                               transcribe: Transcriber, files: Files)
    returns (paths: seq<string>, files': Files)
    requires size > 0
    ensures size == 1 ==> paths == Names(SingleEntries(descriptions, dir, tts))
                          && files' == Store(files, SingleEntries(descriptions, dir, tts))
    ensures size > 1 ==> paths == SortStrings(SlidePaths(dir, BatchOutcome(descriptions, dir, size, tts, transcribe, files).0))
                         && files' == BatchOutcome(descriptions, dir, size, tts, transcribe, files).1
    ensures |paths| <= |descriptions|
    ensures forall i, j | 0 <= i < j < |paths| :: paths[i] != paths[j]
    ensures MissingNames(paths, files') == []
  {
    if size == 1 {
      paths, files' := TextToSpeech(descriptions, dir, size, tts, transcribe, files);
    } else {
      paths, files' := TtsBatchWithSplitting(descriptions, dir, size, tts, transcribe, files);
      var listed := SlidePaths(dir, BatchOutcome(descriptions, dir, size, tts, transcribe, files).0);
      SortStringsSpec(listed);
      assert |paths| == |multiset(paths)| == |multiset(listed)| == |listed|;
      BatchOutcomeOrder(descriptions, dir, size, tts, transcribe, files);
      BatchOutputsExist(descriptions, dir, size, tts, transcribe, files);
      PermutedStored(listed, paths, files');
      PermutedDistinct(listed, paths);
      NothingMissing(paths, files');
    }
  }
}
