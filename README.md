# Slide-tag lecture pipeline, modelled in Dafny

The system turns a PDF deck into a narrated lecture video. A vision model
describes the slide images in batches, and its replies are split at
`#slideN#` tags. The descriptions are saved to a file and re-read. A text
model then rewrites them ten slides at a time, and each rewritten batch is
spliced back by order. The text is translated, and the translation's tags
are respelt `#Trình N#`. Speech is synthesised either per slide or per
batch. A batch recording is transcribed and cut at the spoken "Trình N"
markers, and each piece becomes one slide's audio file. A command-line
front end chooses batch sizes, a preset and the workflow.

This project models that logic. Every network call becomes a function
parameter:

- the description model, a total function from a request to text;
- the refinement model, a total function from a batch and its range to text;
- the translator, a total function from text to text;
- the speech synthesiser, whose `None` stands for the exception that
  `_tts_single_slide` and `_tts_batch_with_splitting` catch;
- the transcriber, whose `None` stands for the exception that
  `_tts_batch_with_splitting` catches around transcription.

The file system is a map from path to audio. Text is `seq<char>`.

Modules:

- `Text`: the Python string built-ins the pipeline relies on:
  - `strip` with and without a character set;
  - `str(n)` and `int`;
  - `replace`, `join`, clamped slicing and `os.path.join`.
- `Batching`: the three batch planners:
  - `range(0, n, size)` slices;
  - the `min(10, remaining)` sizes list and its walk.
- `Tags`: the two regex scans (`#slide\d+#` and `#(?:slide|Trình)\s*\d+#`) as
  one leftmost, non-overlapping scanner. It is parameterised by the
  vocabulary and proved lossless and invertible.
- `Documents`:
  - `process_response`;
  - the descriptions file and its reader;
  - `sorted(keys)`;
  - the two extraction modes;
  - the retag.
- `Enrichment`: the description pass.
- `Refinement`: `process_batch`, `replace_batch`, the refinement pass and the
  translation step.
- `Segmenter`: `_find_presentation_segments`.
- `Speech`: silence, file names, writing files, and `_tts_single_slide`.
- `SpeechBatches`: `_tts_batch_with_splitting`:
  - its three steps;
  - `transcribe_and_split_audio`;
  - `_split_audio`.
- `SpeechOrder`:
  - the order and existence of the speech files;
  - the lexicographic `sorted`;
  - the dispatch;
  - the missing-file check.
- `Cli`:
  - `validate_positive_int`;
  - the parsed arguments;
  - `apply_preset`;
  - `Config` and the override block;
  - the workflow choice.

Some behaviour of the code is worth noting, because it is not what its
names and docstrings suggest (for instance the step list of
`test_workflow_with_batch_splitting`, main.py:916-923):

- **Splicing goes by order.** `replace_batch` gives the `i`-th new region to
  slide `start + i` and ignores the number inside the new tag. It also
  replaces every copy of the old region's text.
- **Markers are not deduplicated.** The marker scan does not skip the numeral
  it used. So two marker words before one numeral give two markers
  (`Segmenter.ScanRepeatsNumber`).
- **Short batches are not padded.** A batch whose transcript yields fewer
  pieces than slides lists fewer files. There is no padding
  (`SpeechOrder.CopiesSlides`).
- **The retag can leave a tag behind.** The retag does not always leave no
  `#slideN#`. When two tags share a `#`, as in `#slide1#slide2#`, only the
  first tag is rewritten (`Documents.RetagCanLeaveSlideTag`). The hypothesis
  `Documents.RetagSafe` asks only that no region body holds a match of
  `#(?:slide|Trình)\s*\d+#` and that the text before each tag does not end
  in a digit. Under it, the leading tag of each region is respelt in order
  with its numeral (`Documents.RetagScan`). A body that begins `slideN#` is
  still allowed, and it still leaves a `#slideN#` after the retag
  (`Documents.SafeRetagCanLeaveSlideTag`).

## Model

| member | source | states |
|---|---|---|
| Text.LStripBy | main.py:60 | the result is a suffix of the input; every dropped character is in the set; the result does not start with one |
| Text.RStripBy | main.py:60 | the result is a prefix of the input; every dropped character is in the set; the result does not end with one |
| Text.StripPadded | main.py:536 | padding made only of stripped characters does not change what `strip` returns |
| Text.StripAfterRStrip | main.py:543 | right-stripping first does not change what a full strip returns |
| Text.Decimal | main.py:446 | `str(n)` is a non-empty numeral, has no leading zero when `n > 0`, and reads back as `n` |
| Text.ReplaceAllAbsent | main.py:484 | `str.replace` without an occurrence returns its input unchanged |
| Text.ReplaceAllUnique | main.py:484 | when the target occurs only once, `str.replace` swaps exactly that occurrence and keeps the text around it |
| Text.ReplaceAllTwice | main.py:484 | `str.replace` rewrites every occurrence, not only the first |
| Text.Join | main.py:492 | joining no items gives the empty string; joining one item gives that item |
| Text.PySlice | main.py:491 | Python slicing clamps both bounds to the length; in-range slices are ordinary slices |
| Text.PathJoin | main.py:632 | the file name is a suffix of the joined path |
| Text.PathJoinInjective | main.py:632 | joining different names onto one directory gives different paths |
| Batching.StridePlan | main.py:124-125 | `range(0, n, size)` batches tile slides `1..n`: the first starts at 1, each starts `size` after the last, ends at `min(start - 1 + size, n)`, and all but the last hold exactly `size` slides |
| Batching.StrideStarts | main.py:124 | batch `k` starts at slide `k * size + 1` |
| Batching.StrideNext | main.py:651-653 | the batch after slide `b` ends at `min(b + size, n)`; the next starts after it, or the loop stops |
| Batching.TilesCover | main.py:124-133 | every slide of the deck lies in some batch |
| Batching.TilesDisjoint | main.py:124-133 | no slide lies in two batches |
| Batching.TilesAscend | main.py:124-133 | batches come in increasing slide order |
| Batching.TilesTotal | main.py:124-133 | the batch sizes add up to the number of slides |
| Batching.Chunks | main.py:145-150 | the sizes list is empty exactly when there are no slides |
| Batching.ChunksShape | main.py:145-150 | the sizes add up to the tag count; each is between 1 and the cap; all but the last equal the cap |
| Batching.RefinementIsStride | main.py:145-154 | walking the sizes from slide 1 with `start = end + 1` cuts the same batches as `range(0, total, 10)`, so they are contiguous from 1 to total, and a deck without tags gets no batch |
| Tags.TagAtText | main.py:55 | a well-formed tag is recognised at the start of its own text, whatever follows it |
| Tags.TagTextShape | main.py:55 | inside a tag's text, `#` appears only at both ends, and a digit comes right before the closing `#` |
| Tags.SlideTagIsEitherTag | main.py:532 | every `#slide\d+#` match is also a match of the wider extraction pattern, with the same word and numeral |
| Tags.LexTagsWellFormed | main.py:55 | every tag the scan reports is a well-formed tag of its vocabulary |
| Tags.LexLossless | main.py:478 | rendering the scan gives back the scanned text: the prefix followed by the regions is the whole input |
| Tags.LexPrefixTagFree | main.py:55 | the text before the first tag holds no tag |
| Tags.LexBodiesTagFree | main.py:478 | the text of each region after its tag holds no tag |
| Tags.LexUnlex | main.py:478 | scanning a rendered document of well-formed regions gives back the same prefix and regions |
| Documents.BuildHasKeys | main.py:58-61 | every key assigned in the loop is in the dict |
| Documents.BuildOnlyKeys | main.py:58-61 | the dict holds no key that was not assigned |
| Documents.BuildLastWins | main.py:58-61 | the dict keeps the last value assigned to each key |
| Documents.CollectHasNumbers | main.py:55-61 | every number a tag of the reply carries is a key of the parsed dict |
| Documents.CollectOnlyNumbers | main.py:55-61 | every key of the parsed dict is a number some tag carries |
| Documents.CollectLastWins | main.py:58-61 | a repeated slide number keeps the stripped text of its last region |
| Documents.CollectValues | main.py:58-61 | every stored text is the stripped body of some region |
| Documents.ProcessResponseTagFree | main.py:53-63 | no parsed description holds a tag |
| Documents.ProcessResponseIgnoresPrefix | main.py:55 | text before the first tag does not affect the parsed dict |
| Documents.SlideTag | main.py:69 | the tag for slide `n` is `#slide`, then `str(n)`, then `#` |
| Documents.SlideTagList | main.py:69 | `slide_tags` has one tag per image, numbered from `start_slide` |
| Documents.SlideTagListScans | main.py:69 | each requested tag scans as exactly one tag carrying the number `start + i` |
| Documents.HeaderChars | main.py:452 | each character of the header and the closing quotes is in `read_file`'s strip set, and a newline is not |
| Documents.ReadWrite | main.py:449-456 | reading what `write_file` wrote gives the content back between two newlines |
| Documents.ReadSave | main.py:441-452 | reading the descriptions file gives the saved entries after one newline |
| Documents.SavedScan | main.py:441-447 | the saved file scans into one region per description, tagged `#slide1#`…`#slideN#` in order, each holding its description |
| Documents.ParseSaved | main.py:441-447 | parsing the saved text gives back each tag-free, stripped description under its position counted from 1 |
| Documents.SortedKeys | main.py:135 | `sorted(d.keys())` lists every key of the dict once, in strictly increasing order |
| Documents.InKeyOrder | main.py:135 | the list holds one value per key, in key order |
| Documents.InKeyOrderContiguous | main.py:135 | when the keys are exactly `1..n`, the list is `d[1], …, d[n]` |
| Documents.ExtractModesAgree | main.py:525-543 | both extraction modes return the same number of segments; each kept segment opens with a recognised tag; removing that tag and stripping gives the other mode's segment |
| Documents.RetagScan | main.py:569 | when no region body holds a tag of either spelling and no tag follows a digit (`RetagSafe`), the extractor finds exactly the tags the `#slide\d+#` scan found, respelt `#Trình N#`, in order, with the same numerals and the same text around them; a body beginning `slideN#` stays body text |
| Documents.RetagKeepsStripped | main.py:569 | when no region body holds a tag of either spelling and no tag follows a digit (`RetagSafe`), retagging does not change what tags-stripped extraction returns; without that hypothesis it can, as on `#slide1#a#Trình 5#slide2#x` |
| Documents.SafeRetagCanLeaveSlideTag | main.py:569 | `#slide{a}#slide{b}#` satisfies `RetagSafe`, and its retag `#Trình {a}#slide{b}#` still contains `#slide{b}#` |
| Documents.RetagCanLeaveSlideTag | main.py:569 | in `#slide{a}#slide{b}#` only the first tag is rewritten, and `#slide{b}#` is still in the result |
| Enrichment.RequestTags | main.py:69 | a request asks for one tag per image |
| Enrichment.MergedIsMergeAll | main.py:127-132 | merging the replies one by one is `update` with each parsed dict in order |
| Enrichment.ExchangeAt | main.py:124-131 | batch `k` asks for exactly its images and its slides' tags; only batch 0 is marked first; a later batch carries the previous reply verbatim; reply `k` is the model's answer to request `k` |
| Enrichment.DescribeBatches | main.py:124-133 | the loop sends one request per `range(0, n, batch_size)` batch, chains each reply into the next request, and merges every parsed reply in order |
| Enrichment.ProcessPdfToDescriptions | main.py:116-138 | the saved file is the merged dict in key order, renumbered from 1, and the requests are as in `ExchangeAt` |
| Enrichment.MergeAllKeys | main.py:132 | a key is in the merged dict iff some parsed dict has it |
| Enrichment.MergeAllLastWins | main.py:132 | a key takes the value of the last dict that has it |
| Enrichment.MergeTiled | main.py:132-135 | when each dict holds exactly its batch's slides, the key-ordered list has slide `s` at position `s - 1`, with its own batch's text |
| Enrichment.HonestRepliesListEverySlide | main.py:116-138 | when every reply uses exactly its batch's tags, the saved descriptions list every slide of the deck, each with the text its batch's reply gave it |
| Refinement.RegionTextsCover | main.py:478 | the regions lose only the text before the first tag |
| Refinement.TagFreeNoRegions | main.py:479 | an answer without a tag has no regions |
| Refinement.BatchSlice | main.py:490-491 | the regions sliced out are those of slides `start..end`, clamped to the deck |
| Refinement.BatchContentScan | main.py:490-492 | the batch text holds exactly the tags of slides `start..end`, in order, with nothing before the first; each region keeps its text, and all but the last gain the joining newline |
| Refinement.ReplaceBatch | main.py:477-486 | `replace_batch` finds the regions of both texts and splices them by order |
| Refinement.SpliceEach | main.py:481-484 | new region `i` replaces every copy of old region `start + i` when `start + i <= end` and that region exists; otherwise it is skipped |
| Refinement.TagFreeAnswerChangesNothing | main.py:477-486 | an answer without a tag leaves the document unchanged |
| Refinement.SpliceIgnoresExtra | main.py:483 | new regions past `end` or past the old regions are ignored |
| Refinement.SpliceRegions | main.py:477-486 | for an answer of any number of regions: the new regions that fall inside the batch and inside the old regions, `m` of them, replace old regions `start ..= start + m - 1` in order, and the rest of the text is kept, as long as each old region occurs only in its own place when its turn comes |
| Refinement.SpliceStages | main.py:480-483 | the loop of `replace_batch`, one new region at a time: each step turns the text with `i` regions replaced into the text with `i + 1` |
| Refinement.SpliceOneRegion | main.py:477-486 | when slide `start`'s old text occurs only in its own place, the new region takes exactly that place and the text around it is kept |
| Refinement.SpliceReplacesEveryCopy | main.py:484 | a second copy of the old region's text is rewritten too, even when it lies outside the batch |
| Refinement.TagFreeRefinerChangesNothing | main.py:140-177 | when the model never answers with a tag, refinement leaves the document as read |
| Refinement.BatchSizes | main.py:145-150 | the first loop builds the `min(10, remaining)` sizes list |
| Refinement.RefineOne | main.py:157-171 | one turn refines the batch from the text the earlier batches left and splices the answer back |
| Refinement.RefineBatches | main.py:152-173 | the second loop walks the sizes from slide 1 with `start = end + 1`, refining each batch in turn |
| Refinement.ProcessWithClaude | main.py:140-177 | the written file is the read-back text refined over the `range(0, total, 10)` batches of its tag count, in order |
| Refinement.TranslationKeepsSegments | main.py:545-583 | when the translation satisfies `RetagSafe` — no region body holds a tag of either spelling, and no tag follows a digit — the extractor sees the leading tag of each region respelt with the same numerals in order, and tags-stripped extraction is unchanged |
| Segmenter.DigitAfter | main.py:823-834 | the look-ahead finds the first numeral among the next three tokens, or reports none |
| Segmenter.HitAt | main.py:819-834 | a marker found at word `i` is a marker word followed one to three tokens later by the first numeral after it |
| Segmenter.HitsAscending | main.py:815-838 | markers come in strictly increasing word order, so one word yields at most one marker |
| Segmenter.HitsComplete | main.py:815-838 | every marker is what the test at its own word finds, and every word whose test finds one is among the markers |
| Segmenter.MarkerWordsYieldHits | main.py:819-834 | a word yields a marker iff it passes the marker test and one of the next three tokens is a numeral |
| Segmenter.MarkersFromHits | main.py:827-831 | each marker has its numeral's value as its number, its word's start as its start, and the numeral's end as its end |
| Segmenter.ScanRepeatsNumber | main.py:834-836 | in "trình trình 3" both marker words use the same `3`, so the number comes out twice |
| Segmenter.TooShortForMarker | main.py:819-821 | any token shorter than the marker words, whatever its case or surrounding space, is not a marker |
| Segmenter.SortByNumberSpec | main.py:845 | the sort orders markers by number, keeps every marker, and keeps each number's markers in scan order |
| Segmenter.SegmentOf | main.py:847-865 | a segment starts half a second after its marker, is labelled `slide_{number}`, and lasts at least one second; when the raw end is closer than one second, the segment lasts exactly five seconds |
| Segmenter.MarkersNeedWords | main.py:855 | a marker needs a word, so the `start + 30` fallback is never taken |
| Segmenter.CutSpec | main.py:847-865 | one segment per sorted marker; each ends half a second before the next marker's start, or at the last word's end, unless that is under a second |
| Segmenter.PresentationSegmentsSpec | main.py:809-869 | one segment per marker found, cut at the markers stably sorted by number; no marker gives no segment |
| Segmenter.ScanMarkers | main.py:814-838 | the scan tests every word and advances by one each time |
| Segmenter.CutSegments | main.py:847-865 | the loop builds the segments of the sorted markers |
| Segmenter.FindPresentationSegments | main.py:809-869 | the method returns the segments `PresentationSegmentsSpec` describes |
| Speech.Trunc | main.py:756 | `int()` on a float truncates toward zero |
| Speech.PlaceholderSizes | main.py:754-758 | a slide placeholder is 240000 bytes, and a failed batch of `c` slides gets `480000 * c` bytes |
| Speech.SlideFileInjective | main.py:632 | different slides get different file names |
| Speech.SlideFileNotBatchFile | main.py:677-720 | a slide file is never a batch file |
| Speech.StoreKeys | main.py:633 | after the writes, a path exists iff it existed before or was written |
| Speech.StoreAt | main.py:633 | a path holds what its last write put there |
| Speech.StoreKeeps | main.py:633 | a path nobody writes keeps its content |
| Speech.WriteAll | main.py:612-640 | the loop writes each file and lists its path, in order |
| Speech.TtsSingleSlide | main.py:608-642 | one file `slide_{i+1}.wav` per description, listed in order, holding the speech or five seconds of silence; every other file is unchanged |
| SpeechBatches.CreateBatchFiles | main.py:651-701 | step 1 yields one record and one batch file per `range(0, n, size)` batch, in order |
| SpeechBatches.BatchRecords | main.py:681-701 | record `k` covers slides `k*size+1..min(k*size+size, n)`, counts them, and names its file after them, whether or not synthesis succeeded |
| SpeechBatches.BatchFileFirst | main.py:677 | a batch file's name determines the batch's first slide |
| SpeechBatches.BatchFileHolds | main.py:677-694 | after step 1, batch `k`'s file holds that batch's recording, or `10 * slide_count` seconds of silence |
| SpeechBatches.SplitAudio | main.py:871-901 | one piece per segment, named after its label, cut at `int(t * 1000)` ms (on exact reals) and listed in segment order; a later equal label overwrites the earlier piece |
| SpeechBatches.SplitOfSpec | main.py:760-807 | splitting fails exactly when transcription does; otherwise it gives one piece per marker, none without markers, and every listed piece exists |
| SpeechBatches.BatchSplit | main.py:707-740 | a missing batch file counts as an exception |
| SpeechBatches.SplitBatchFiles | main.py:705-740 | step 2 lists the slide files the records yield, in record order |
| SpeechBatches.RemoveBatchFiles | main.py:744-749 | step 3 removes exactly the batch files |
| SpeechBatches.TtsBatchInSlideOrder | main.py:644-750 | the three steps, with the slide files listed in slide order (the corrected return) |
| SpeechOrder.InfosConsecutive | main.py:651-701 | the records cover consecutive batches that end at slide `n` |
| SpeechOrder.CopiesSlides | main.py:718-740 | a batch lists slides `start_slide, start_slide+1, …`: all `slide_count` of them when its split raised, otherwise one per piece up to `slide_count`; a short batch is not padded |
| SpeechOrder.SplitAllNumbers | main.py:707-740 | step 2 lists slide numbers in strictly increasing order, each belonging to some batch |
| SpeechOrder.IncreasingWithin | main.py:718-740 | strictly increasing numbers in `1..n` number at most `n`, and exactly `n` of them are `1..n` |
| SpeechOrder.BatchOutcomeOrder | main.py:644-750 | the batch workflow lists each slide file at most once, in slide order; with no short batch, the list is exactly `slide_1.wav … slide_n.wav` |
| SpeechOrder.SplitAllKeys | main.py:718-740 | step 2 keeps every file it finds, and every slide file it lists exists afterwards |
| SpeechOrder.BatchOutputsExist | main.py:744-749 | after step 3 every listed slide file still exists |
| SpeechOrder.NothingMissing | main.py:949-965 | the check reports nothing iff every listed file exists |
| SpeechOrder.MissingAudioFiles | main.py:949-952 | the loop lists `slide_{i+1}.wav` for each missing listed file, in order |
| SpeechOrder.SortStringsSpec | main.py:752 | `sorted` returns its input rearranged in ascending string order |
| SpeechOrder.SlideFilesCompare | main.py:752 | files in one directory compare as their base names do |
| SpeechOrder.SortedMisplacesSlideTwo | main.py:752 | with slides 1, 2 and 10, `sorted` does not put slide 2's file second |
| SpeechOrder.SortedOrderDisagrees | main.py:752 | with ten or more slides and no short batch, slide order and `sorted` differ at position 2 |
| SpeechOrder.TtsBatchWithSplitting | main.py:644-752 | the batch workflow as written: the files returned through the lexicographic `sorted` |
| SpeechOrder.TextToSpeech | main.py:585-606 | the dispatch with the corrected batch workflow: size 1 speaks slide by slide, larger sizes run the batch workflow in slide order; in both cases the files are distinct, in slide order, at most one per description, and all exist, so the missing-file check passes |
| SpeechOrder.TextToSpeechAsWritten | main.py:585-606 | the dispatch as written: larger sizes return the batch workflow's files through the lexicographic `sorted`; they are still distinct, at most one per description, and all exist, so the missing-file check passes |
| Cli.ParseInt | cli.py:26 | `int(value)` succeeds iff the stripped value, after an optional sign, is a numeral with single underscores between digits |
| Cli.ValidatePositiveInt | cli.py:23-31 | accepts iff `int` succeeds with a positive value, returning that value; an integer that is not positive is refused with "Invalid positive integer", anything else with "Invalid integer" |
| Cli.ValidateDecimal | cli.py:23-31 | a decimal numeral with surrounding whitespace is accepted as its value when positive; `0` is refused as not positive |
| Cli.SignedNumeral | cli.py:26-28 | a signed numeral reads as its value, negated after `-`, so `-5` is an integer that is then refused as not positive |
| Cli.NoDigitNoInteger | cli.py:30-31 | a value without a digit is refused as not an integer |
| Cli.Args.Parsed | cli.py:64-122 | the parsed arguments have positive batch sizes and at most one preset |
| Cli.Args.Defaults | cli.py:64-101 | with only the PDF path given: `./output`, batches of 5, and splitting on, so the batch workflow runs |
| Cli.Args.ApplyPreset | cli.py:139-160 | quick gives 3/1/no splitting; production gives 7/5/splitting; safe gives 3/3/splitting; with no preset nothing changes; other fields are untouched; quick never selects the batch workflow, and production and safe always do |
| Cli.Config.constructor | config.py:19-29 | the defaults: empty PDF path, `./output`, 5 and 5, splitting on, 24 fps, 24000 Hz |
| Cli.Config.OverrideFromArgs | cli.py:194-199 | the five run settings become the command line's whatever was loaded; the video settings stay; the config picks the batch workflow iff the arguments do |
| Cli.SpeechBatchSize | cli.py:248-283 | the speech batch size is the configured one on the batch workflow and 1 otherwise; it is always positive, and above 1 exactly on the batch workflow |
| Cli.Prepare | cli.py:185-283 | the presets as passed in decide the sizes (quick 3/1/no splitting, production 7/5, safe 3/3, none keeps the arguments), the presets, path, output and verbosity are kept, the configuration takes the five run settings and keeps its video settings; the summary's workflow (cli.py:174) and the one run (cli.py:248) agree, that test is the same predicate as main.py:1018, and a quick run speaks slides one at a time |

## Left out

- Network and model calls (OpenAI, Anthropic, Gemini, Whisper) are function parameters. An exception from the synthesiser or the transcriber is a `None`.
- The model takes the description, refinement and translation calls to return text. The source has no `try` around them, so their failure ends the run; that failure is not modelled.
- Prompt wording (`create_prompt`, and the prompt text of `send_batch_request`) has no contract beyond the tag list, so it is not modelled.
- The TextBlock/`str()` conversion of the refinement answer (main.py:162-166, main.py:520-523) is not modelled: the answer is taken as a string.
- `pdf_to_images`, `create_video`, `create_video_with_audio` and `text_to_speech_with_openai` are media and legacy code outside the slide-tag logic.
- `wave_file` headers and pydub decoding are not modelled. Audio is raw PCM bytes or a millisecond clip of another recording.
- `shutil.copy2`, `rmtree` and `os.remove` never fail in the model. A batch's temporary directory is a separate map that is dropped after the batch.
- Directory creation (`os.makedirs`) is not modelled.
- `create_random_output_folder` depends on the clock and uuid, so it is not modelled.
- `print` output and timing are not modelled.
- `generate_vietnamese_audio` has no member of its own. It is the composition of `Refinement.TranslateToVietnamese`, kept-tag extraction and the dispatch: `SpeechOrder.TextToSpeechAsWritten` as written, `SpeechOrder.TextToSpeech` with the corrected slide order. Its unused tags-stripped extraction and its file reads are not modelled.
- user_interface.py (an interactive menu) is not part of this model.
- config.py's JSON, dotenv and environment I/O are not part of this model. A loaded configuration is any `Config` object, and the override ignores its old values.
- argparse itself is not modelled. Its guarantees (positive batch sizes, mutually exclusive presets) are the requires of `Cli.Args.Parsed` and `Cli.Prepare`.
- Cli.ParseInt: covers ASCII digits, one sign, Python whitespace and underscores. It does not cover the Unicode digits Python's `int` also accepts, or a bytes argument.
- Tags.Lex: `\d` and `int()` are read as ASCII digits only. Python's `\d` and `int` also accept other Unicode decimal digits (main.py:55, main.py:59, main.py:142, main.py:478, main.py:479, main.py:490, main.py:532, main.py:539, main.py:569), which the scanner does not treat as digits.
- Segmenter.IsMarkerWord: lowercasing covers ASCII and Latin-1 capitals. Digits are ASCII only. The marker words are opaque constants.
- Enrichment.ProcessPdfToDescriptions: requires a positive batch size, which argparse guarantees. The source raises on `range(0, n, 0)` (main.py:124), and a negative size makes no batches. Enrichment.DescribeBatches has the same requires.
- Segmenter.CutSpec: times are exact reals, while the source uses binary floats. The `< 1.0` test and the `+ 0.5`, `- 0.5` and `+ 5.0` offsets (main.py:849-859) can round differently in Python.
- SpeechBatches.SplitAudio: the cut at `int(t * 1000)` ms (main.py:883-884) is exact in the model and holds in Python only up to float rounding; Python's `int(1.005 * 1000)` is 1004, where the model's `Trunc(1.005 * 1000.0)` is 1005.
- SpeechOrder.TextToSpeech: requires a positive batch size, which argparse guarantees. The source would fail on `range(0, n, 0)`.
- SpeechBatches.SplitBatchFiles: an exception in the middle of a batch's copy loop is treated as an exception before any copy. The model lists only the placeholders of that batch, not the pieces already copied.
- Cli.Args.ApplyPreset: `verbose` only affects printing, so the model ignores it.

## Findings

| source | as written | input that shows it | evidently intended | confidence | as-written member | corrected member |
|---|---|---|---|---|---|---|
| main.py:752 | `sorted(all_slide_files)` sorts the paths as strings, so `slide_10.wav` comes before `slide_2.wav` | a deck of 10 or more slides on the batch workflow (`tts_batch > 1`), with every batch split completely | the files in slide order, which is how `create_video` pairs them with the slide images | not executed | SpeechOrder.TtsBatchWithSplitting (with SpeechOrder.SortedMisplacesSlideTwo and SpeechOrder.SortedOrderDisagrees) | SpeechBatches.TtsBatchInSlideOrder (with SpeechOrder.BatchOutcomeOrder), which SpeechOrder.TextToSpeech uses; SpeechOrder.TextToSpeechAsWritten is the dispatch as written |
