/** `_tts_batch_with_splitting`.
    - Step 1 speaks each batch of `range(0, n, size)` into
      `batch_{first}_to_{last}.wav`, and records every batch, whether or not
      its synthesis succeeded.
    - Step 2 transcribes each batch file and cuts it at the slide markers.
      It copies the first `slide_count` pieces to
      `slide_{start_slide + i}.wav`. When anything in that raises, it writes
      five-second placeholders for every slide of the batch instead.
    - Step 3 removes the batch files.
    What the source returns is `sorted(all_slide_files)`, a string sort. */
module SpeechBatches {
  import opened Text
  import opened Batching
  import opened Segmenter
  import opened Speech

  // ---------------------------------------------------------------------------
  // Step 1: one recording per batch

  /** One `batch_info` record. */
  datatype BatchInfo = BatchInfo(file: string, startSlide: nat, endSlide: nat, slideCount: nat)

  /** Every batch of `plan` is a non-empty run of the slides `1 ..= n`. */
  predicate Within(plan: seq<Range>, n: nat)
  {
    forall k | 0 <= k < |plan| :: 0 < plan[k].first <= plan[k].last <= n
  }

  function InfoOf(dir: string, r: Range): BatchInfo
    requires r.first <= r.last
  {
    BatchInfo(BatchFile(dir, r.first, r.last), r.first, r.last, r.last - r.first + 1)
  }

  function Infos(dir: string, plan: seq<Range>): seq<BatchInfo>
    requires forall k | 0 <= k < |plan| :: plan[k].first <= plan[k].last
  {
    seq(|plan|, k requires 0 <= k < |plan| => InfoOf(dir, plan[k]))
  }

  /** `"\n\n".join(descriptions[batch_start:batch_end])`. */
  function BatchText(descriptions: seq<string>, r: Range): string
    requires 0 < r.first <= r.last <= |descriptions|
  {
    Join(descriptions[r.first - 1..r.last], "\n\n")
  }

  /** The batch recording, or `10.0 * slide_count` seconds of silence when
      synthesis fails. */
  function BatchAudio(tts: Synthesiser, descriptions: seq<string>, r: Range): Audio
    requires 0 < r.first <= r.last <= |descriptions|
  {
    match tts(ReadAloud + BatchText(descriptions, r))
    case Some(data) => Pcm(data)
    case None => SilentAudio(10.0 * (r.last - r.first + 1) as real)
  }

  function BatchEntries(descriptions: seq<string>, dir: string, tts: Synthesiser, plan: seq<Range>): seq<(string, Audio)>
    requires Within(plan, |descriptions|)
  {
    seq(|plan|, k requires 0 <= k < |plan| =>
      (BatchFile(dir, plan[k].first, plan[k].last), BatchAudio(tts, descriptions, plan[k])))
  }

  /** Batch `k` of the plan, the one starting after slide `b`: its record and
      what is written for it. */
  lemma BatchStep(descriptions: seq<string>, dir: string, size: nat, tts: Synthesiser, k: nat, b: nat)
    requires size > 0 && b < |descriptions|
    requires k < |StridePlan(|descriptions|, size)| && b == StridePlan(|descriptions|, size)[k].first - 1
    ensures var plan := StridePlan(|descriptions|, size);
      var r := Range(b + 1, Min(b + size, |descriptions|));
      && plan[k] == r
      && Infos(dir, plan)[k] == BatchInfo(BatchFile(dir, r.first, r.last), r.first, r.last, r.last - b)
      && BatchEntries(descriptions, dir, tts, plan)[k] == (BatchFile(dir, r.first, r.last), BatchAudio(tts, descriptions, r))
  {
  }

  /** Step 1: the records, the batch files in order, and the files after writing them. */
  method CreateBatchFiles(descriptions: seq<string>, dir: string, size: nat, tts: Synthesiser, files: Files)
    returns (info: seq<BatchInfo>, batchFiles: seq<string>, files': Files)
    requires size > 0
    ensures info == Infos(dir, StridePlan(|descriptions|, size))
    ensures batchFiles == Names(BatchEntries(descriptions, dir, tts, StridePlan(|descriptions|, size)))
    ensures files' == Store(files, BatchEntries(descriptions, dir, tts, StridePlan(|descriptions|, size)))
  {
    var n := |descriptions|;
    ghost var plan := StridePlan(n, size);
    ghost var infos := Infos(dir, plan);
    ghost var entries := BatchEntries(descriptions, dir, tts, plan);
    info, batchFiles, files' := [], [], files;
    var batchStart := 0;
    while batchStart < n
      invariant |info| <= |plan|
      invariant |info| < |plan| ==> batchStart == plan[|info|].first - 1
      invariant |info| == |plan| ==> batchStart >= n
      invariant info == infos[..|info|]
      invariant batchFiles == Names(entries[..|info|])
      invariant files' == Store(files, entries[..|info|])
      decreases n - batchStart
    {
      ghost var k := |info|;
      StrideNext(n, size, k, batchStart);
      var batchEnd := Min(batchStart + size, n);
      var batch := Range(batchStart + 1, batchEnd);
      var file := BatchFile(dir, batchStart + 1, batchEnd);
      var audio := BatchAudio(tts, descriptions, batch);
      BatchStep(descriptions, dir, size, tts, k, batchStart);
      StoreSnoc(files, entries[..k], entries[k]);
      TakeSnoc(entries, k);
      TakeSnoc(infos, k);
      assert infos[k] == BatchInfo(file, batchStart + 1, batchEnd, batchEnd - batchStart);
      assert info + [infos[k]] == infos[..k + 1];
      files' := files'[file := audio];
      batchFiles := batchFiles + [file];
      info := info + [BatchInfo(file, batchStart + 1, batchEnd, batchEnd - batchStart)];
      batchStart := batchStart + size;
    }
    assert infos[..|info|] == infos;
    assert entries[..|info|] == entries;
  }

  /** One record per batch of `range(0, n, size)`, whether or not its
      synthesis succeeded. Record `k` covers slides `k * size + 1 ..=
      min(k * size + size, n)`, counts those slides, and names its file after
      them. */
  lemma BatchRecords(n: nat, size: nat, dir: string, k: nat)
    requires size > 0 && k < |StridePlan(n, size)|
    ensures |Infos(dir, StridePlan(n, size))| == |StridePlan(n, size)|
    ensures var b := Infos(dir, StridePlan(n, size))[k];
      && b.startSlide == k * size + 1
      && b.endSlide == Min(k * size + size, n)
      && b.slideCount == b.endSlide - b.startSlide + 1 <= size
      && b.file == BatchFile(dir, b.startSlide, b.endSlide)
  {
    StrideStarts(n, size, k);
  }

  /** Two numerals each followed by a non-digit: equal texts mean equal numerals. */
  lemma DigitsPrefix(x: string, y: string, u: string, v: string)
    requires AllDigits(x) && AllDigits(y) && u != [] && v != [] && !IsDigit(u[0]) && !IsDigit(v[0])
    requires x + u == y + v
    ensures x == y
  {
    assert (x + u)[|x|] == u[0] && (y + v)[|y|] == v[0];
    assert forall i | 0 <= i < |x| :: (x + u)[i] == x[i];
    assert forall i | 0 <= i < |y| :: (y + v)[i] == y[i];
    if |x| < |y| {
      assert false;
    } else if |y| < |x| {
      assert false;
    } else {
      assert x == (x + u)[..|x|];
      assert y == (y + v)[..|y|];
    }
  }

  lemma BatchNameTail(a: string, b: string)
    ensures ("batch_" + a + "_to_" + b + ".wav")[6..] == a + ("_to_" + b + ".wav")
  {
    AppendAssoc("batch_", a, "_to_");
    AppendAssoc("batch_", a + "_to_", b);
    AppendAssoc("batch_", a + "_to_" + b, ".wav");
    AppendAssoc(a, "_to_", b);
    AppendAssoc(a, "_to_" + b, ".wav");
    AppendAssoc(a + "_to_", b, ".wav");
    AppendAssoc("_to_", b, ".wav");
  }

  /** A batch file's name gives away the batch's first slide. */
  lemma BatchFileFirst(dir: string, f: nat, l: nat, f': nat, l': nat)
    requires BatchFile(dir, f, l) == BatchFile(dir, f', l')
    ensures f == f'
  {
    var a, b, a', b' := Decimal(f), Decimal(l), Decimal(f'), Decimal(l');
    PathJoinInjective(dir, "batch_" + a + "_to_" + b + ".wav", "batch_" + a' + "_to_" + b' + ".wav");
    BatchNameTail(a, b);
    BatchNameTail(a', b');
    DigitsPrefix(a, a', "_to_" + b + ".wav", "_to_" + b' + ".wav");
  }

  /** After step 1, the file of batch `k` holds that batch's recording, or its
      silence: no other batch writes the same name. */
  lemma BatchFileHolds(descriptions: seq<string>, dir: string, size: nat, tts: Synthesiser, files: Files, k: nat)
    requires size > 0 && k < |StridePlan(|descriptions|, size)|
    ensures var plan := StridePlan(|descriptions|, size);
      var after := Store(files, BatchEntries(descriptions, dir, tts, plan));
      && BatchFile(dir, plan[k].first, plan[k].last) in after
      && after[BatchFile(dir, plan[k].first, plan[k].last)] == BatchAudio(tts, descriptions, plan[k])
  {
    var plan := StridePlan(|descriptions|, size);
    var entries := BatchEntries(descriptions, dir, tts, plan);
    forall j | k < j < |entries| ensures entries[j].0 != entries[k].0 {
      TilesAscend(plan, 0, |descriptions|, k, j);
      if entries[j].0 == entries[k].0 {
        BatchFileFirst(dir, plan[j].first, plan[j].last, plan[k].first, plan[k].last);
      }
    }
    StoreAt(files, entries, k);
  }

  // ---------------------------------------------------------------------------
  // transcribe_and_split_audio and _split_audio

  /** What `transcribe_and_split_audio` hands back: the piece paths in order,
      and the files `_split_audio` wrote to the batch's temporary directory
      (which `shutil.rmtree` later discards). */
  datatype Split = Split(paths: seq<string>, written: Files)

  /** `audio[start_ms:end_ms]` with `start_ms = int(start * 1000)` and
      `end_ms = int(end * 1000)`. */
  function ClipOf(audio: Audio, g: Segment): Audio
  {
    Clip(audio, Trunc(g.start * 1000.0), Trunc(g.end * 1000.0))
  }

  function PiecePath(outDir: string, g: Segment): string
  {
    PathJoin(outDir, g.name + ".wav")
  }

  function PieceEntries(audio: Audio, segments: seq<Segment>, outDir: string): seq<(string, Audio)>
  {
    seq(|segments|, i requires 0 <= i < |segments| => (PiecePath(outDir, segments[i]), ClipOf(audio, segments[i])))
  }

  /** No later segment has the same label as segment `i`. */
  predicate LastWithName(segments: seq<Segment>, i: nat)
    requires i < |segments|
  {
    forall j | i < j < |segments| :: segments[j].name != segments[i].name
  }

  lemma PiecePathInjective(outDir: string, g: Segment, h: Segment)
    requires PiecePath(outDir, g) == PiecePath(outDir, h)
    ensures g.name == h.name
  {
    PathJoinInjective(outDir, g.name + ".wav", h.name + ".wav");
    assert (g.name + ".wav")[..|g.name|] == g.name;
    assert (h.name + ".wav")[..|h.name|] == h.name;
  }

  /** `_split_audio`: one exported piece per segment, named after its label
      and listed in segment order. A later segment with the same label
      overwrites the earlier piece, and its path is listed again. */
  method SplitAudio(audio: Audio, segments: seq<Segment>, outDir: string) returns (paths: seq<string>, written: Files)
    ensures paths == Names(PieceEntries(audio, segments, outDir))
    ensures written == Store(map[], PieceEntries(audio, segments, outDir))
    ensures |paths| == |segments| && forall i | 0 <= i < |segments| :: paths[i] == PiecePath(outDir, segments[i])
    ensures forall p :: p in written <==> p in paths
    ensures forall i | 0 <= i < |segments| && LastWithName(segments, i) :: written[paths[i]] == ClipOf(audio, segments[i])
  {
    var entries := PieceEntries(audio, segments, outDir);
    paths, written := WriteAll(map[], entries);
    StoreKeys(map[], entries);
    forall i | 0 <= i < |segments| && LastWithName(segments, i)
      ensures written[paths[i]] == ClipOf(audio, segments[i])
    {
      forall j | i < j < |entries| ensures entries[j].0 != entries[i].0 {
        if entries[j].0 == entries[i].0 {
          PiecePathInjective(outDir, segments[j], segments[i]);
        }
      }
      StoreAt(map[], entries, i);
    }
  }

  /** `transcribe_and_split_audio`: `None` when transcription raises, no
      pieces when the transcript holds no slide marker, and otherwise the
      pieces of `_split_audio`. */
  function SplitOf(audio: Audio, outDir: string, transcribe: Transcriber): (r: Option<Split>)
    ensures r.Some? ==> forall p | p in r.value.paths :: p in r.value.written
  {
    match transcribe(audio)
    case None => None
    case Some(words) =>
      var segments := PresentationSegments(words);
      if segments == [] then Some(Split([], map[]))
      else
        var entries := PieceEntries(audio, segments, outDir);
        StoreKeys(map[], entries);
        Some(Split(Names(entries), Store(map[], entries)))
  }

  method TranscribeAndSplitAudio(audio: Audio, outDir: string, transcribe: Transcriber) returns (r: Option<Split>)
    ensures r == SplitOf(audio, outDir, transcribe)
  {
    var words := transcribe(audio);
    if words.None? {
      return None;
    }
    var segments := FindPresentationSegments(words.value);
    if segments == [] {
      return Some(Split([], map[]));
    }
    var paths, written := SplitAudio(audio, segments, outDir);
    return Some(Split(paths, written));
  }

  /** `transcribe_and_split_audio` fails exactly when the transcription does.
      Otherwise it returns one piece per slide marker in the transcript, none
      when there is no marker, and every piece it lists is on disk. */
  lemma SplitOfSpec(audio: Audio, outDir: string, transcribe: Transcriber)
    ensures SplitOf(audio, outDir, transcribe).None? <==> transcribe(audio).None?
    ensures var r := SplitOf(audio, outDir, transcribe);
      r.Some? ==>
        && |r.value.paths| == |Hits(transcribe(audio).value)|
        && forall p :: p in r.value.written <==> p in r.value.paths
  {
    match transcribe(audio)
    case None =>
    case Some(words) =>
      PresentationSegmentsSpec(words);
      var segments := PresentationSegments(words);
      if segments != [] {
        StoreKeys(map[], PieceEntries(audio, segments, outDir));
      }
  }

  // ---------------------------------------------------------------------------
  // Step 2: batch recordings to slide files

  /** The slides a batch yields and the audio each gets. When the split
      raised: five seconds of silence for each of its `slide_count` slides.
      Otherwise: the first `slide_count` pieces, in order, for slides
      `start_slide + i`, and nothing for the slides beyond the last piece. */
  function Copies(b: BatchInfo, split: Option<Split>): seq<(nat, Audio)>
    requires split.Some? ==> forall p | p in split.value.paths :: p in split.value.written
  {
    match split
    case None => seq(b.slideCount, i => (b.startSlide + i, SilentAudio(5.0)))
    case Some(s) =>
      var count := if b.slideCount <= |s.paths| then b.slideCount else |s.paths|;
      seq(count, i requires 0 <= i < count => (b.startSlide + i, s.written[s.paths[i]]))
  }

  function Numbers(cs: seq<(nat, Audio)>): seq<nat>
  {
    seq(|cs|, i requires 0 <= i < |cs| => cs[i].0)
  }

  function SlideWrites(dir: string, cs: seq<(nat, Audio)>): seq<(string, Audio)>
  {
    seq(|cs|, i requires 0 <= i < |cs| => (SlideFile(dir, cs[i].0), cs[i].1))
  }

  function SlidePaths(dir: string, ns: seq<nat>): seq<string>
  {
    seq(|ns|, i requires 0 <= i < |ns| => SlideFile(dir, ns[i]))
  }

  lemma SlidePathsAppend(dir: string, a: seq<nat>, b: seq<nat>)
    ensures SlidePaths(dir, a + b) == SlidePaths(dir, a) + SlidePaths(dir, b)
  {
  }

  lemma SlideWritesNames(dir: string, cs: seq<(nat, Audio)>)
    ensures Names(SlideWrites(dir, cs)) == SlidePaths(dir, Numbers(cs))
  {
  }

  /** How step 2 handles one record: the batch file missing counts as an
      exception, as `open` would raise. */
  function BatchSplit(b: BatchInfo, dir: string, files: Files, transcribe: Transcriber): (r: Option<Split>)
    ensures r.Some? ==> forall p | p in r.value.paths :: p in r.value.written
  {
    if b.file in files then SplitOf(files[b.file], TempDir(dir, b.startSlide, b.endSlide), transcribe) else None
  }

  /** Step 2 over the records in order: the slide numbers it lists and the
      files afterwards. */
  function SplitAll(infos: seq<BatchInfo>, dir: string, files: Files, transcribe: Transcriber): (seq<nat>, Files)
    decreases |infos|
  {
    if infos == [] then ([], files)
    else
      var before := SplitAll(infos[..|infos| - 1], dir, files, transcribe);
      var b := infos[|infos| - 1];
      var cs := Copies(b, BatchSplit(b, dir, before.1, transcribe));
      (before.0 + Numbers(cs), Store(before.1, SlideWrites(dir, cs)))
  }

  /** Step 2: `all_slide_files` and the files afterwards. */
  method SplitBatchFiles(info: seq<BatchInfo>, dir: string, transcribe: Transcriber, files: Files)
    returns (allSlideFiles: seq<string>, files': Files)
    ensures allSlideFiles == SlidePaths(dir, SplitAll(info, dir, files, transcribe).0)
    ensures files' == SplitAll(info, dir, files, transcribe).1
  {
    allSlideFiles, files' := [], files;
    var k := 0;
    while k < |info|
      invariant k <= |info|
      invariant allSlideFiles == SlidePaths(dir, SplitAll(info[..k], dir, files, transcribe).0)
      invariant files' == SplitAll(info[..k], dir, files, transcribe).1
    {
      var batch := info[k];
      var split: Option<Split> := None;
      if batch.file in files' {
        split := TranscribeAndSplitAudio(files'[batch.file], TempDir(dir, batch.startSlide, batch.endSlide), transcribe);
      }
      assert split == BatchSplit(batch, dir, files', transcribe);
      var copies := Copies(batch, split);
      ghost var before := SplitAll(info[..k], dir, files, transcribe);
      var paths;
      paths, files' := WriteAll(files', SlideWrites(dir, copies));
      assert info[..k + 1][..k] == info[..k];
      SlideWritesNames(dir, copies);
      SlidePathsAppend(dir, before.0, Numbers(copies));
      allSlideFiles := allSlideFiles + paths;
      k := k + 1;
    }
    assert info[..k] == info;
  }

  // ---------------------------------------------------------------------------
  // Step 3 and the whole method

  /** Step 3: `os.remove` of every batch file. */
  method RemoveBatchFiles(files: Files, batchFiles: seq<string>) returns (files': Files)
    ensures files' == files - (set j | 0 <= j < |batchFiles| :: batchFiles[j])
  {
    files' := files;
    var i := 0;
    while i < |batchFiles|
      invariant i <= |batchFiles|
      invariant files' == files - (set j | 0 <= j < i :: batchFiles[j])
    {
      assert (set j | 0 <= j < i + 1 :: batchFiles[j]) == (set j | 0 <= j < i :: batchFiles[j]) + {batchFiles[i]};
      files' := files' - {batchFiles[i]};
      i := i + 1;
    }
  }

  /** The slide numbers step 2 lists, and the files after step 3. */
  function BatchOutcome(descriptions: seq<string>, dir: string, size: nat, tts: Synthesiser,
                        transcribe: Transcriber, files: Files): (seq<nat>, Files)
    requires size > 0
  {
    var plan := StridePlan(|descriptions|, size);
    var entries := BatchEntries(descriptions, dir, tts, plan);
    var split := SplitAll(Infos(dir, plan), dir, Store(files, entries), transcribe);
    (split.0, split.1 - (set k | 0 <= k < |entries| :: entries[k].0))
  }

  /** The three steps, returning `all_slide_files` as listed: slide order. */
  method TtsBatchInSlideOrder(descriptions: seq<string>, dir: string, size: nat, tts: Synthesiser,
                              transcribe: Transcriber, files: Files)
    returns (paths: seq<string>, files': Files)
    requires size > 0
    ensures paths == SlidePaths(dir, BatchOutcome(descriptions, dir, size, tts, transcribe, files).0)
    ensures files' == BatchOutcome(descriptions, dir, size, tts, transcribe, files).1
  {
    var info, batchFiles, afterBatches := CreateBatchFiles(descriptions, dir, size, tts, files);
    var afterSplit;
    paths, afterSplit := SplitBatchFiles(info, dir, transcribe, afterBatches);
    files' := RemoveBatchFiles(afterSplit, batchFiles);
  }
}
