/** The command line in front of the pipeline: the check every batch-size
    argument goes through (`validate_positive_int`), the presets that rewrite
    the parsed arguments (`apply_preset`), the choice between the batch and
    the individual speech workflow, and the copy of the arguments over the
    configuration (`main`). */
module Cli {
  import opened Text

  // ---------------------------------------------------------------------------
  // validate_positive_int

  /** What the argument parser makes of one value: the number it keeps, or
      the message of the `ArgumentTypeError` it reports. */
  datatype Checked = Accepted(value: int) | Rejected(message: string)

  /** The body of a Python integer literal: ASCII digits, with single
      underscores allowed between two digits (`1_000`). */
  predicate IsNumeral(s: string)
  {
    && |s| > 0 && IsDigit(s[0]) && IsDigit(s[|s| - 1])
    && (forall i | 0 <= i < |s| :: IsDigit(s[i]) || s[i] == '_')
    && (forall i | 0 <= i < |s| - 1 :: DigitFollows(s, i))
  }

  /** An underscore at `i` is followed by a digit. */
  predicate DigitFollows(s: string, i: nat)
    requires i + 1 < |s|
  {
    s[i] == '_' ==> IsDigit(s[i + 1])
  }

  /** The digits of a numeral with its underscores taken out. */
  function DropUnderscores(s: string): (r: string)
    ensures |r| <= |s|
    ensures AllDigits(s) ==> r == s
    decreases |s|
  {
    if s == [] then []
    else
      var r := DropUnderscores(s[..|s| - 1]);
      assert AllDigits(s) ==> AllDigits(s[..|s| - 1]) && s[..|s| - 1] + [s[|s| - 1]] == s;
      if s[|s| - 1] == '_' then r else r + [s[|s| - 1]]
  }

  /** The text after an optional leading sign. */
  function Unsigned(t: string): (u: string)
    ensures u == t || (|t| > 0 && u == t[1..])
  {
    if |t| > 0 && (t[0] == '+' || t[0] == '-') then t[1..] else t
  }

  /** `int(value)` on a string: surrounding whitespace is ignored, one sign
      may lead, and the rest must be a numeral; `None` stands for the
      `ValueError`. */
  function ParseInt(value: string): (r: Option<int>)
    ensures r.Some? <==> IsNumeral(Unsigned(Strip(value)))
  {
    SignedValue(Strip(value))
  }

  /** The value of text that has no surrounding whitespace left. */
  function SignedValue(t: string): (r: Option<int>)
    ensures r.Some? <==> IsNumeral(Unsigned(t))
    ensures r.Some? && r.value < 0 ==> t[0] == '-'
  {
    var body := Unsigned(t);
    if IsNumeral(body) then
      var v: int := DigitsValue(DropUnderscores(body));
      Some(if |t| > 0 && t[0] == '-' then -v else v)
    else None
  }

  /** `validate_positive_int(value)`: the integer when it parses and is
      positive; otherwise the parser's error, whose message tells a value
      that is not an integer from one that is not positive. */
  function ValidatePositiveInt(value: string): (r: Checked)
    ensures r.Accepted? <==> ParseInt(value).Some? && ParseInt(value).value > 0
    ensures r.Accepted? ==> r.value > 0 && ParseInt(value) == Some(r.value)
    ensures r.Rejected? && ParseInt(value).Some? ==> r.message == "Invalid positive integer: " + value
    ensures r.Rejected? && ParseInt(value).None? ==> r.message == "Invalid integer: " + value
  {
    match ParseInt(value)
    case Some(n) => if n <= 0 then Rejected("Invalid positive integer: " + value) else Accepted(n)
    case None => Rejected("Invalid integer: " + value)
  }

  /** A decimal numeral, with whitespace around it, is accepted as its own
      value when positive; `0` is an integer that is not positive. */
  lemma ValidateDecimal(lead: string, n: nat, trail: string)
    requires AllSatisfy(lead, IsSpace) && AllSatisfy(trail, IsSpace)
    ensures ParseInt(lead + Decimal(n) + trail) == Some(n as int)
    ensures var value := lead + Decimal(n) + trail;
      ValidatePositiveInt(value) == if n > 0 then Accepted(n) else Rejected("Invalid positive integer: " + value)
  {
    var d := Decimal(n);
    var value := lead + d + trail;
    assert Strip(value) == d by {
      StripPadded(lead, d, trail, IsSpace);
      DigitsStrip(d);
    }
    ParseStripped(value, d);
    UnsignedParse(d);
    assert ParseInt(value) == Some(n as int);
    if n == 0 {
      NotPositive(value, 0);
    }
  }

  /** Digits without a sign read as their value. */
  lemma UnsignedParse(d: string)
    requires |d| > 0 && AllDigits(d)
    ensures SignedValue(d) == Some(DigitsValue(d) as int)
  {
    DigitsNumeral(d);
    SignedDigits(d, d);
  }

  /** `int` reads a signed numeral as its value, negated after a minus (so
      `-5` is an integer, which the check then refuses as not positive). */
  lemma SignedNumeral(t: string, sign: char, d: string)
    requires sign == '-' || sign == '+'
    requires |d| > 0 && AllDigits(d)
    requires |t| == |d| + 1 && t[0] == sign && t[1..] == d
    ensures ParseInt(t) == Some(if sign == '-' then -(DigitsValue(d) as int) else DigitsValue(d) as int)
  {
    DigitsNumeral(d);
    SignedBody(t, sign, d);
    SignedDigits(t, d);
  }

  lemma DigitsNumeral(d: string)
    requires |d| > 0 && AllDigits(d)
    ensures IsNumeral(d) && Unsigned(d) == d
  {
    assert d[0] != '+' && d[0] != '-';
  }

  lemma DigitsStrip(d: string)
    requires |d| > 0 && AllDigits(d)
    ensures Strip(d) == d
  {
    assert !IsSpace(d[0]) && !IsSpace(d[|d| - 1]);
    StripByFixed(d, IsSpace);
  }

  /** A sign in front of a numeral is kept by the strip and read by `int`. */
  lemma SignedBody(t: string, sign: char, d: string)
    requires sign == '-' || sign == '+'
    requires IsNumeral(d) && |t| == |d| + 1 && t[0] == sign && t[1..] == d
    ensures ParseInt(t) == SignedValue(t) && Unsigned(t) == d
  {
    assert t[|t| - 1] == d[|d| - 1];
    StripByFixed(t, IsSpace);
  }

  lemma NotPositive(value: string, v: int)
    requires ParseInt(value) == Some(v) && v <= 0
    ensures ValidatePositiveInt(value) == Rejected("Invalid positive integer: " + value)
  {
  }

  lemma ParseStripped(value: string, t: string)
    requires Strip(value) == t
    ensures ParseInt(value) == SignedValue(t)
  {
  }

  lemma SignedDigits(t: string, d: string)
    requires |t| > 0 && Unsigned(t) == d && IsNumeral(d) && AllDigits(d)
    ensures SignedValue(t) == Some(if t[0] == '-' then -(DigitsValue(d) as int) else DigitsValue(d) as int)
  {
  }

  /** A value without a single ASCII digit is not an integer at all. */
  lemma NoDigitNoInteger(value: string)
    requires forall i | 0 <= i < |value| :: !IsDigit(value[i])
    ensures ValidatePositiveInt(value) == Rejected("Invalid integer: " + value)
  {
    var a, b := StripSlice(value);
    var t := Strip(value);
    var u := Unsigned(t);
    var k := if u == t then 0 else 1;
    assert |u| > 0 ==> u[0] == t[k] == value[a + k];
    if IsNumeral(u) {
      assert false;
    }
  }

  // ---------------------------------------------------------------------------
  // Parsed arguments and apply_preset

  /** The batch workflow runs iff splitting is not switched off and more
      than one slide goes into a speech batch. */
  predicate BatchWorkflow(noBatchSplitting: bool, ttsBatch: int)
  {
    !noBatchSplitting && ttsBatch > 1
  }

  /** The arguments `parse_args` returns: the batch sizes passed through
      `validate_positive_int`, and at most one of the mutually exclusive
      presets. */
  class Args {
    var pdfPath: string
    var output: string
    var pdfBatch: int
    var ttsBatch: int
    var noBatchSplitting: bool
    var verbose: bool
    var quick: bool
    var production: bool
    var safe: bool

    predicate Valid()
      reads this
    {
      && pdfBatch > 0 && ttsBatch > 0
      && !(quick && production) && !(quick && safe) && !(production && safe)
    }

    /** The arguments as given, after the parser's checks. */
    constructor Parsed(pdfPath: string, output: string, pdfBatch: int, ttsBatch: int,
                       noBatchSplitting: bool, verbose: bool, quick: bool, production: bool, safe: bool)
      requires pdfBatch > 0 && ttsBatch > 0
      requires !(quick && production) && !(quick && safe) && !(production && safe)
      ensures Valid()
      ensures this.pdfPath == pdfPath && this.output == output
      ensures this.pdfBatch == pdfBatch && this.ttsBatch == ttsBatch
      ensures this.noBatchSplitting == noBatchSplitting && this.verbose == verbose
      ensures this.quick == quick && this.production == production && this.safe == safe
    {
      this.pdfPath, this.output := pdfPath, output;
      this.pdfBatch, this.ttsBatch := pdfBatch, ttsBatch;
      this.noBatchSplitting, this.verbose := noBatchSplitting, verbose;
      this.quick, this.production, this.safe := quick, production, safe;
    }

    /** Only the PDF path given: `./output`, batches of 5, splitting on. */
    constructor Defaults(pdfPath: string)
      ensures Valid()
      ensures this.pdfPath == pdfPath && output == "./output"
      ensures pdfBatch == 5 && ttsBatch == 5
      ensures !noBatchSplitting && !verbose && !quick && !production && !safe
      ensures BatchWorkflow(noBatchSplitting, ttsBatch)
    {
      this.pdfPath, output := pdfPath, "./output";
      pdfBatch, ttsBatch := 5, 5;
      noBatchSplitting, verbose := false, false;
      quick, production, safe := false, false, false;
    }

    /** `apply_preset(args)`: quick wins over production, production over
        safe; each rewrites the two batch sizes and the splitting switch and
        nothing else; without a preset nothing changes. */
    method ApplyPreset()
      requires Valid()
      modifies this
      ensures Valid()
      ensures quick ==> pdfBatch == 3 && ttsBatch == 1 && noBatchSplitting
      ensures !quick && production ==> pdfBatch == 7 && ttsBatch == 5 && !noBatchSplitting
      ensures !quick && !production && safe ==> pdfBatch == 3 && ttsBatch == 3 && !noBatchSplitting
      ensures !quick && !production && !safe ==>
        pdfBatch == old(pdfBatch) && ttsBatch == old(ttsBatch) && noBatchSplitting == old(noBatchSplitting)
      ensures quick == old(quick) && production == old(production) && safe == old(safe)
      ensures pdfPath == old(pdfPath) && output == old(output) && verbose == old(verbose)
      ensures quick ==> !BatchWorkflow(noBatchSplitting, ttsBatch)
      ensures production || safe ==> BatchWorkflow(noBatchSplitting, ttsBatch)
    {
      if quick {
        pdfBatch, ttsBatch, noBatchSplitting := 3, 1, true;
      } else if production {
        pdfBatch, ttsBatch, noBatchSplitting := 7, 5, false;
      } else if safe {
        pdfBatch, ttsBatch, noBatchSplitting := 3, 3, false;
      }
    }
  }

  // ---------------------------------------------------------------------------
  // The configuration and the override in main

  class Config {
    var defaultPdfPath: string
    var defaultOutputFolder: string
    var pdfBatchSize: int
    var ttsBatchSize: int
    var useBatchSplitting: bool
    var videoFps: int
    var audioRate: int

    /** `Config()` before any file is loaded. */
    constructor ()
      ensures defaultPdfPath == "" && defaultOutputFolder == "./output"
      ensures pdfBatchSize == 5 && ttsBatchSize == 5 && useBatchSplitting
      ensures videoFps == 24 && audioRate == 24000
    {
      defaultPdfPath, defaultOutputFolder := "", "./output";
      pdfBatchSize, ttsBatchSize, useBatchSplitting := 5, 5, true;
      videoFps, audioRate := 24, 24000;
    }

    /** The workflow test of cli.py:248, the same predicate as main.py:1018. */
    predicate BatchChosen()
      reads this
    {
      useBatchSplitting && ttsBatchSize > 1
    }

    /** The override block of `main`: whatever the defaults or a loaded file
        said, the five run settings become the command line's; the video
        settings stay. */
    method OverrideFromArgs(args: Args)
      modifies this
      ensures defaultPdfPath == args.pdfPath && defaultOutputFolder == args.output
      ensures pdfBatchSize == args.pdfBatch && ttsBatchSize == args.ttsBatch
      ensures useBatchSplitting == !args.noBatchSplitting
      ensures videoFps == old(videoFps) && audioRate == old(audioRate)
      ensures BatchChosen() == BatchWorkflow(args.noBatchSplitting, args.ttsBatch)
    {
      defaultPdfPath := args.pdfPath;
      defaultOutputFolder := args.output;
      pdfBatchSize := args.pdfBatch;
      ttsBatchSize := args.ttsBatch;
      useBatchSplitting := !args.noBatchSplitting;
    }
  }

  /** The speech batch size the chosen workflow hands to speech generation:
      the configured one on the batch workflow, 1 on the individual one. It
      is always positive, and above 1 exactly on the batch workflow. */
  function SpeechBatchSize(batch: bool, ttsBatchSize: int): (n: int)
    requires ttsBatchSize > 0
    ensures n > 0
    ensures n > 1 <==> batch && ttsBatchSize > 1
    ensures batch && ttsBatchSize > 1 ==> n == ttsBatchSize
  {
    if batch && ttsBatchSize > 1 then ttsBatchSize else 1
  }

  /** The start of `main`: apply the preset, take a configuration (possibly
      loaded from a file), copy the arguments over it and choose the
      workflow. The summary's workflow and the one that runs agree, quick
      mode always processes slides one by one, and speech generation gets
      a size it accepts. */
  method Prepare(args: Args, config: Config) returns (batch: bool, speechBatch: int)
    requires args.Valid()
    modifies args, config
    ensures args.Valid() && config.ttsBatchSize == args.ttsBatch
    ensures args.quick == old(args.quick) && args.production == old(args.production) && args.safe == old(args.safe)
    ensures args.pdfPath == old(args.pdfPath) && args.output == old(args.output) && args.verbose == old(args.verbose)
    ensures old(args.quick) ==> args.pdfBatch == 3 && args.ttsBatch == 1 && args.noBatchSplitting
    ensures !old(args.quick) && old(args.production) ==>
      args.pdfBatch == 7 && args.ttsBatch == 5 && !args.noBatchSplitting
    ensures !old(args.quick) && !old(args.production) && old(args.safe) ==>
      args.pdfBatch == 3 && args.ttsBatch == 3 && !args.noBatchSplitting
    ensures !old(args.quick) && !old(args.production) && !old(args.safe) ==>
      args.pdfBatch == old(args.pdfBatch) && args.ttsBatch == old(args.ttsBatch)
      && args.noBatchSplitting == old(args.noBatchSplitting)
    ensures config.defaultPdfPath == args.pdfPath && config.defaultOutputFolder == args.output
    ensures config.pdfBatchSize == args.pdfBatch && config.useBatchSplitting == !args.noBatchSplitting
    ensures config.videoFps == old(config.videoFps) && config.audioRate == old(config.audioRate)
    ensures batch == BatchWorkflow(args.noBatchSplitting, args.ttsBatch)
    ensures batch == config.BatchChosen()
    ensures args.quick ==> !batch && speechBatch == 1
    ensures speechBatch == SpeechBatchSize(batch, config.ttsBatchSize)
    ensures speechBatch > 0 && (speechBatch > 1 <==> batch)
  {
    args.ApplyPreset();
    config.OverrideFromArgs(args);
    batch := config.useBatchSplitting && config.ttsBatchSize > 1;
    speechBatch := if batch then config.ttsBatchSize else 1;
  }
}
