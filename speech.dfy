/** Speech for the slides. `text_to_speech_vietnamese_batch` either speaks
    each description on its own (`_tts_single_slide`) or speaks batches of
    descriptions and cuts every batch recording at the slide markers its
    transcription contains (`_tts_batch_with_splitting`,
    `transcribe_and_split_audio`, `_split_audio`). The synthesiser and the
    transcriber are parameters, and a `None` from either stands for the
    exception the source catches. The file system is a map from path to
    audio, passed into each step and returned updated. */
module Speech {
  import opened Text
  import opened Batching
  import opened Segmenter

  /** Audio as the pipeline handles it: PCM bytes (what the synthesiser
      returns, or zeros for silence), or the part of another recording
      between two millisecond offsets (`audio[start_ms:end_ms]`). */
  datatype Audio = Pcm(data: seq<bv8>) | Clip(source: Audio, startMs: int, endMs: int)

  type Files = map<string, Audio>

  /** The speech model on one text: `None` when the call raises. */
  type Synthesiser = string -> Option<seq<bv8>>

  /** Word-level transcription of one recording: `None` when it raises. */
  type Transcriber = Audio -> Option<seq<Word>>

  // ---------------------------------------------------------------------------
  // create_silent_audio

  /** Python's `int()` on a float: truncation toward zero. */
  function Trunc(x: real): (n: int)
    ensures 0.0 <= x ==> n as real <= x < n as real + 1.0
    ensures x < 0.0 ==> n as real - 1.0 < x <= n as real
  {
    if x >= 0.0 then x.Floor else -((-x).Floor)
  }

  const SampleRate: real := 24000.0

  /** `b'\x00\x00' * samples`: two zero bytes per 16-bit sample, none for a
      negative count. */
  function SilentData(samples: int): (data: seq<bv8>)
    ensures |data| == if samples < 0 then 0 else 2 * samples
    ensures forall i | 0 <= i < |data| :: data[i] == 0
  {
    seq(if samples < 0 then 0 else 2 * samples, _ => 0)
  }

  /** `create_silent_audio(filename, duration)`: `int(duration * 24000)` samples of silence. */
  function SilentAudio(duration: real): Audio
  {
    Pcm(SilentData(Trunc(duration * SampleRate)))
  }

  /** The placeholders the speech step writes: five seconds for one slide
      (120000 samples, 240000 bytes) and ten seconds per slide for a batch
      whose synthesis failed. */
  lemma PlaceholderSizes(count: nat)
    ensures |SilentAudio(5.0).data| == 240000
    ensures |SilentAudio(10.0 * count as real).data| == 480000 * count
  {
    assert 5.0 * SampleRate == 120000 as real;
    assert (10.0 * count as real) * SampleRate == (240000 * count) as real;
  }

  // ---------------------------------------------------------------------------
  // File names

  function SlideName(n: nat): string
  {
    "slide_" + Decimal(n) + ".wav"
  }

  /** `os.path.join(output_dir, f'slide_{n}.wav')`. */
  function SlideFile(dir: string, n: nat): string
  {
    PathJoin(dir, SlideName(n))
  }

  /** `os.path.join(output_dir, f'batch_{first}_to_{last}.wav')`. */
  function BatchFile(dir: string, first: nat, last: nat): string
  {
    PathJoin(dir, "batch_" + Decimal(first) + "_to_" + Decimal(last) + ".wav")
  }

  /** `os.path.join(output_dir, f"temp_batch_{first}_to_{last}")`. */
  function TempDir(dir: string, first: nat, last: nat): string
  {
    PathJoin(dir, "temp_batch_" + Decimal(first) + "_to_" + Decimal(last))
  }

  /** Different slides get different files. */
  lemma SlideFileInjective(dir: string, a: nat, b: nat)
    requires SlideFile(dir, a) == SlideFile(dir, b)
    ensures a == b
  {
    PathJoinInjective(dir, SlideName(a), SlideName(b));
    SlideNameDigits(a);
    SlideNameDigits(b);
  }

  lemma SlideNameDigits(n: nat)
    ensures SlideName(n)[6..|SlideName(n)| - 4] == Decimal(n)
  {
    var x := SlideName(n);
    assert x == "slide_" + (Decimal(n) + ".wav");
  }

  /** A slide file is never a batch file, so removing the batch files keeps
      every slide file. */
  lemma SlideFileNotBatchFile(dir: string, n: nat, first: nat, last: nat)
    ensures SlideFile(dir, n) != BatchFile(dir, first, last)
  {
    var s := SlideName(n);
    var b := "batch_" + Decimal(first) + "_to_" + Decimal(last) + ".wav";
    assert s[0] == 's' && b[0] == 'b';
    if SlideFile(dir, n) == BatchFile(dir, first, last) {
      PathJoinInjective(dir, s, b);
      assert false;
    }
  }

  // ---------------------------------------------------------------------------
  // Writing files one after the other

  function Names(entries: seq<(string, Audio)>): (ns: seq<string>)
    ensures |ns| == |entries| && forall i | 0 <= i < |entries| :: ns[i] == entries[i].0
  {
    seq(|entries|, i requires 0 <= i < |entries| => entries[i].0)
  }

  /** The files after writing `entries` in order: a later write of a path wins. */
  function Store(files: Files, entries: seq<(string, Audio)>): Files
    decreases |entries|
  {
    if entries == [] then files
    else
      var last := entries[|entries| - 1];
      Store(files, entries[..|entries| - 1])[last.0 := last.1]
  }

  lemma StoreSnoc(files: Files, entries: seq<(string, Audio)>, e: (string, Audio))
    ensures Store(files, entries + [e]) == Store(files, entries)[e.0 := e.1]
    ensures Names(entries + [e]) == Names(entries) + [e.0]
  {
    assert (entries + [e])[..|entries|] == entries;
  }

  /** After the writes, a path is there iff it was there before or was written. */
  lemma {:induction false} StoreKeys(files: Files, entries: seq<(string, Audio)>)
    ensures forall p :: p in Store(files, entries) <==> p in files || p in Names(entries)
    decreases |entries|
  {
    if entries != [] {
      var front := entries[..|entries| - 1];
      StoreKeys(files, front);
      StoreSnoc(files, front, entries[|entries| - 1]);
      assert front + [entries[|entries| - 1]] == entries;
    }
  }

  /** A path holds what its last write put there ... */
  lemma {:induction false} StoreAt(files: Files, entries: seq<(string, Audio)>, k: nat)
    requires k < |entries|
    requires forall j | k < j < |entries| :: entries[j].0 != entries[k].0
    ensures entries[k].0 in Store(files, entries) && Store(files, entries)[entries[k].0] == entries[k].1
    decreases |entries|
  {
    var front := entries[..|entries| - 1];
    if k < |front| {
      StoreAt(files, front, k);
      assert front[k] == entries[k];
    }
  }

  /** ... and a path nobody writes keeps its content. */
  lemma {:induction false} StoreKeeps(files: Files, entries: seq<(string, Audio)>, p: string)
    requires p in files && p !in Names(entries)
    ensures p in Store(files, entries) && Store(files, entries)[p] == files[p]
    decreases |entries|
  {
    if entries != [] {
      var front := entries[..|entries| - 1];
      assert forall i | 0 <= i < |front| :: Names(front)[i] == Names(entries)[i];
      StoreKeeps(files, front, p);
      assert entries[|entries| - 1].0 == Names(entries)[|entries| - 1];
    }
  }

  /** Every listed path exists. */
  predicate AllStored(paths: seq<string>, files: Files)
  {
    forall i | 0 <= i < |paths| :: paths[i] in files
  }

  /** Writing keeps the paths there were and adds the ones written. */
  lemma StoreGrows(files: Files, entries: seq<(string, Audio)>)
    ensures files.Keys <= Store(files, entries).Keys
    ensures AllStored(Names(entries), Store(files, entries))
  {
    StoreKeys(files, entries);
    assert forall i | 0 <= i < |entries| :: Names(entries)[i] in Names(entries);
  }

  /** The loop each speech step runs: write a file, list its path. */
  method WriteAll(files: Files, entries: seq<(string, Audio)>) returns (paths: seq<string>, files': Files)
    ensures paths == Names(entries) && files' == Store(files, entries)
  {
    paths, files' := [], files;
    var i := 0;
    while i < |entries|
      invariant i <= |entries|
      invariant paths == Names(entries[..i]) && files' == Store(files, entries[..i])
    {
      StoreSnoc(files, entries[..i], entries[i]);
      assert entries[..i] + [entries[i]] == entries[..i + 1];
      files' := files'[entries[i].0 := entries[i].1];
      paths := paths + [entries[i].0];
      i := i + 1;
    }
    assert entries[..i] == entries;
  }

  // ---------------------------------------------------------------------------
  // _tts_single_slide

  /** The instruction put in front of every text sent to the speech model. */
  const ReadAloud := "Đọc trong tiếng việt. "

  /** What slide `i + 1` gets: the synthesised speech, or five seconds of
      silence when the call fails. */
  function SlideAudio(tts: Synthesiser, description: string): Audio
  {
    match tts(ReadAloud + description)
    case Some(data) => Pcm(data)
    case None => SilentAudio(5.0)
  }

  function SingleEntries(descriptions: seq<string>, dir: string, tts: Synthesiser): seq<(string, Audio)>
  {
    seq(|descriptions|, i requires 0 <= i < |descriptions| => (SlideFile(dir, i + 1), SlideAudio(tts, descriptions[i])))
  }

  /** `_tts_single_slide`: one file per description, `slide_{i+1}.wav` for
      the `i`-th, listed in order; a failed call leaves five seconds of
      silence in its place; every other file is left as it was. */
  method TtsSingleSlide(descriptions: seq<string>, dir: string, tts: Synthesiser, files: Files)
    returns (paths: seq<string>, files': Files)
    ensures paths == Names(SingleEntries(descriptions, dir, tts))
    ensures files' == Store(files, SingleEntries(descriptions, dir, tts))
    ensures |paths| == |descriptions| && forall i | 0 <= i < |paths| :: paths[i] == SlideFile(dir, i + 1)
    ensures forall i | 0 <= i < |paths| :: paths[i] in files' && files'[paths[i]] == SlideAudio(tts, descriptions[i])
    ensures forall p :: p in files' <==> p in files || p in paths
    ensures forall p | p in files && p !in paths :: files'[p] == files[p]
  {
    paths, files' := WriteAll(files, SingleEntries(descriptions, dir, tts));
    SingleStore(descriptions, dir, tts, files);
  }

  /** What writing the single-slide entries leaves behind. */
  lemma SingleStore(descriptions: seq<string>, dir: string, tts: Synthesiser, files: Files)
    ensures var entries := SingleEntries(descriptions, dir, tts);
      var paths, files' := Names(entries), Store(files, entries);
      && (forall i | 0 <= i < |paths| :: paths[i] in files' && files'[paths[i]] == SlideAudio(tts, descriptions[i]))
      && (forall p :: p in files' <==> p in files || p in paths)
      && (forall p | p in files && p !in paths :: files'[p] == files[p])
  {
    var entries := SingleEntries(descriptions, dir, tts);
    StoreKeys(files, entries);
    forall i | 0 <= i < |entries|
      ensures entries[i].0 in Store(files, entries) && Store(files, entries)[entries[i].0] == SlideAudio(tts, descriptions[i])
    {
      forall j | i < j < |entries| ensures entries[j].0 != entries[i].0 {
        if entries[j].0 == entries[i].0 {
          SlideFileInjective(dir, j + 1, i + 1);
        }
      }
      StoreAt(files, entries, i);
    }
    forall p | p in files && p !in Names(entries) ensures Store(files, entries)[p] == files[p] {
      StoreKeeps(files, entries, p);
    }
  }
}
