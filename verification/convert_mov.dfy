/**
 * The conversion job: one source (a video, a still image, or an image
 * sequence written `path start-end`) becomes a `.mov` or `.png` proxy plus a
 * thumbnail, and the job reports what happened through its two signals.
 *
 * The outside world is a parameter.  `Env` says whether the output file is
 * already there, what ffprobe reported, what the encode and extraction
 * processes returned, and the clock text used for the temporary thumbnail
 * name.  Python's `repr` of a float is the parameter `repr`.  A run is the
 * trace of what the job does: each command it issues, each signal it emits,
 * the one rename, and an uncaught exception if there is one.
 */
module ConvertMov {
  import opened Wrappers
  import opened Strings
  import opened Numerals
  import opened Paths
  import opened Config
  import opened Media
  import Commands

  /** The job's constructor arguments. */
  datatype Job = Job(source: string, output: string, isImageSeq: bool, resX: int, resY: int)

  /** One stream of the ffprobe report, as far as the job reads it; `duration` is the value of a non-empty duration text. */
  datatype Stream = Stream(nbFrames: Option<string>, frameRate: Option<string>,
                           width: Option<int>, height: Option<int>, duration: Option<real>)

  /** What ffprobe printed: nothing, an empty JSON value, or an object that may hold `streams`. */
  datatype Report = NoOutput | EmptyReport | Report(streams: Option<seq<Stream>>)

  /** `(stdout, stderr)` of a finished process. */
  datatype Proc = Proc(out: string, err: Option<string>)

  datatype Env = Env(outputExists: bool, report: Report, render: Proc, extract: Proc, stamp: string)

  /** `_get_file_metadata`'s tuple: thumbnail time, frame rate, frame count, width, height. */
  datatype Probe = Probe(thumbTime: Value, fps: Value, frames: Value, width: Option<int>, height: Option<int>)

  /** A process the job starts, with the arguments it formats into the command line. */
  datatype Command =
    | VideoEncode(source: string, output: string, x: int, y: int, fps: string)
    | SequenceEncode(source: string, output: string, x: int, y: int, start: string, fps: string)
    | ImageEncode(source: string, output: string, x: int, y: int)
    | Extract(source: string, output: string, x: int, y: int, time: string)

  /** The command line of a command; only the extraction seeks, and every command writes its output second to last. */
  function Argv(c: Command): (argv: seq<string>)
    ensures |argv| >= 7 && argv[0] == "ffmpeg" && argv[|argv| - 2] == c.output
    ensures c.Extract? <==> argv[1] == "-ss"
  {
    match c
    case VideoEncode(source, output, x, y, fps) => Commands.ConvertVideo(source, output, x, y, fps)
    case SequenceEncode(source, output, x, y, start, fps) =>
      Commands.ConvertImageSequence(source, output, x, y, start, fps)
    case ImageEncode(source, output, x, y) => Commands.ConvertImage(source, output, x, y)
    case Extract(source, output, x, y, time) => Commands.ExtractImage(source, output, x, y, time)
  }

  datatype Event =
    | Issue(command: Command)
    | Completed(output: string, thumbnail: string, metadata: Metadata)   // on_render_completed
    | RenderError(message: string)                                       // on_render_error
    | Renamed(from: string, to: string)
    | Crash(error: Error)

  /** The tuple used when ffprobe reports nothing. */
  const Fallback: Probe := Probe(Int(0), Int(24), Int(1), None, None)

  /** `map(int, parts)` forced into a tuple: the first part that is not an integer raises ValueError. */
  function ParseInts(parts: seq<string>): (r: Result<seq<int>>)
    ensures r.Ok? <==> forall i :: 0 <= i < |parts| ==> ParseInt(parts[i]).Some?
    ensures r.Ok? ==> |r.value| == |parts| && forall i :: 0 <= i < |parts| ==> ParseInt(parts[i]) == Some(r.value[i])
  {
    if |parts| == 0 then Ok([])
    else
      match ParseInt(parts[0])
      case None => Err(ValueError(parts[0]))
      case Some(v) =>
        var rest := ParseInts(parts[1..]);
        if rest.Err? then
          assert exists i :: 1 <= i < |parts| && ParseInt(parts[i]).None? by {
            var i :| 0 <= i < |parts[1..]| && ParseInt(parts[1..][i]).None?;
            assert parts[i + 1] == parts[1..][i];
          }
          Err(rest.error)
        else
          var r := [v] + rest.value;
          assert forall i :: 1 <= i < |parts| ==> ParseInt(parts[i]) == Some(r[i]) by {
            forall i | 1 <= i < |parts| ensures ParseInt(parts[i]) == Some(r[i]) {
              assert parts[i] == parts[1..][i - 1];
            }
          }
          Ok(r)
  }

  /**
   * `_get_fps`: numerator over denominator of an `n/d` rate.  A rate reads as
   * a number exactly when its first two `/`-separated parts are integers and
   * the second is not zero; a zero denominator raises ZeroDivisionError.
   */
  function GetFps(rate: string): (r: Result<real>)
    ensures var ints := ParseInts(Split(rate, "/"));
      r.Ok? <==> ints.Ok? && |ints.value| >= 2 && ints.value[1] != 0
    ensures var ints := ParseInts(Split(rate, "/"));
      r.Ok? ==> r.value == ints.value[0] as real / ints.value[1] as real
    ensures var ints := ParseInts(Split(rate, "/"));
      ints.Ok? && |ints.value| >= 2 && ints.value[1] == 0 ==> r == Err(ZeroDivisionError)
  {
    var ints :- ParseInts(Split(rate, "/"));
    if |ints| < 2 then Err(IndexError("tuple index out of range"))
    else if ints[1] == 0 then Err(ZeroDivisionError)
    else Ok(ints[0] as real / ints[1] as real)
  }

  /** `str(i)` never holds a slash. */
  lemma IntTextHasNoSlash(i: int)
    ensures '/' !in IntToString(i)
  {
    var t := IntToString(i);
    forall k | 0 <= k < |t| ensures t[k] != '/' {
      if i >= 0 {
        assert IsDigit(t[k]);
      } else if k > 0 {
        assert IsDigit(t[1..][k - 1]);
      }
    }
  }

  /** A rate written `n/d` with a non-zero denominator reads back as `n / d`. */
  lemma GetFpsOfRatio(n: int, d: int)
    requires d != 0
    ensures GetFps(IntToString(n) + "/" + IntToString(d)) == Ok(n as real / d as real)
  {
    var a := IntToString(n);
    var b := IntToString(d);
    IntTextHasNoSlash(n);
    IntTextHasNoSlash(d);
    assert Join([a, b], "/") == a + "/" + b;
    SplitOfJoin([a, b], '/');
    ParseIntToString(n);
    ParseIntToString(d);
    assert ParseInts([a, b]).value == [n, d];
  }

  /** `_get_file_metadata` from the ffprobe report. */
  function FileMetadata(report: Report): (r: Result<Probe>)
    ensures report.NoOutput? || report.EmptyReport? ==> r == Ok(Fallback)
    ensures report == Report(None) ==> r == Err(KeyError("streams"))
    ensures report == Report(Some([])) ==> r == Err(IndexError("list index out of range"))
    ensures r.Ok? ==> !r.value.fps.Str? && !r.value.thumbTime.Str?
  {
    match report
    case NoOutput => Ok(Fallback)
    case EmptyReport => Ok(Fallback)
    case Report(None) => Err(KeyError("streams"))
    case Report(Some(streams)) =>
      if |streams| == 0 then Err(IndexError("list index out of range"))
      else
        var s := streams[0];
        var frames := match s.nbFrames case Some(t) => Str(t) case None => Int(1);
        match s.frameRate
        case None => Err(KeyError("r_frame_rate"))
        case Some(rate) =>
          var fps :- GetFps(rate);
          var time := match s.duration case Some(d) => Real((d / 2.0).Floor as real) case None => Int(0);
          Ok(Probe(time, Real(fps), frames, s.width, s.height))
  }

  /**
   * The first stream decides the tuple: its frame count text (1 without
   * one), its size, its frame rate (KeyError without one), and half its
   * duration rounded down (0 without one).
   */
  lemma FileMetadataOfStream(s: Stream, rest: seq<Stream>)
    ensures var r := FileMetadata(Report(Some([s] + rest)));
      (s.frameRate.None? ==> r == Err(KeyError("r_frame_rate")))
      && (r.Ok? <==> s.frameRate.Some? && GetFps(s.frameRate.value).Ok?)
    ensures var r := FileMetadata(Report(Some([s] + rest)));
      r.Ok? ==>
        r.value.frames == (match s.nbFrames case Some(t) => Str(t) case None => Int(1))
        && r.value.width == s.width && r.value.height == s.height
        && r.value.fps == Real(GetFps(s.frameRate.value).value)
        && r.value.thumbTime == (match s.duration case Some(d) => Real((d / 2.0).Floor as real) case None => Int(0))
  {
    assert ([s] + rest)[0] == s;
  }

  /** `float(v)` for the numbers the probe yields. */
  function AsReal(v: Value): real
    requires !v.Str?
  {
    match v
    case Int(i) => i as real
    case Real(x) => x
  }

  /** `float("{:.2f}".format(x))`, rounding half up. */
  function Round2(x: real): (r: real)
    ensures x - 0.005 < r <= x + 0.005
  {
    ((x * 100.0 + 0.5).Floor as real) / 100.0
  }

  /** `f"{v}"` for a number the job formats into an argument. */
  function Text(v: Value, repr: real -> string): string {
    match v
    case Int(i) => IntToString(i)
    case Real(x) => repr(x)
    case Str(s) => s
  }

  /** `_execute_render_command` reports failure when the process wrote to stderr and nothing to stdout. */
  predicate RenderFailed(p: Proc) {
    p.err.Some? && p.err.value != "" && p.out == ""
  }

  /** `_generate_thumbnail` reports failure whenever the process wrote to stderr. */
  predicate ThumbnailFailed(p: Proc) {
    p.err.Some? && p.err.value != ""
  }

  /**
   * The thumbnail next to an output: its extension replaced by `.png`.  An
   * image job's `.png` output is therefore its own thumbnail.
   */
  function ThumbnailPath(output: string): (r: string)
    ensures EndsWith(r, ".png") && StartsWith(r, Splitext(output).0) && |r| == |Splitext(output).0| + 4
    ensures Splitext(output).1 == ".png" <==> r == output
  {
    var r := Splitext(output).0 + ".png";
    assert r[|r| - 4..] == ".png";
    r
  }

  /** Neither process wrote to stderr. */
  predicate Succeeds(env: Env) {
    env.render.err.None? && env.extract.err.None?
  }

  /** The encode ran and failed. */
  predicate EncodeFailed(env: Env) {
    !env.outputExists && RenderFailed(env.render)
  }

  /**
   * What one conversion does once its inputs are known: the encode command,
   * the thumbnail extraction (none for a still image), and the events that
   * follow a successful extraction.
   */
  datatype Plan = Plan(encode: Command, extract: Option<Command>, finish: seq<Event>)

  /** The plans the job builds: an encode and an extraction told apart, and a finish of renames ending in the completion. */
  predicate Sound(p: Plan) {
    !p.encode.Extract? && (p.extract.Some? ==> p.extract.value.Extract?)
    && |p.finish| >= 1 && p.finish[|p.finish| - 1].Completed?
    && forall k :: 0 <= k < |p.finish| - 1 ==> p.finish[k].Renamed?
  }

  /** Either process failed and stopped the job. */
  predicate Failed(env: Env, p: Plan) {
    EncodeFailed(env) || (p.extract.Some? && ThumbnailFailed(env.extract))
  }

  /**
   * `_convert_video`, `_convert_image_sequence` and `_convert_image`: encode
   * only when the output is missing, stop if that failed; then extract the
   * thumbnail, stop if that failed; then finish.
   */
  function Execute(env: Env, p: Plan): (t: seq<Event>)
    ensures EncodeFailed(env) ==> t == [Issue(p.encode), RenderError(env.render.err.value)]
    ensures !env.outputExists ==> |t| >= 1 && t[0] == Issue(p.encode)
  {
    var enc := if env.outputExists then [] else [Issue(p.encode)];
    if EncodeFailed(env) then enc + [RenderError(env.render.err.value)]
    else
      match p.extract
      case None => enc + p.finish
      case Some(x) =>
        if ThumbnailFailed(env.extract) then enc + [Issue(x), RenderError(env.extract.err.value)]
        else enc + [Issue(x)] + p.finish
  }

  /** A finish holds no command and no error report. */
  lemma FinishIsQuiet(p: Plan)
    requires Sound(p)
    ensures forall e :: e in p.finish ==> e.Renamed? || e.Completed?
  {
    forall e | e in p.finish ensures e.Renamed? || e.Completed? {
      var i :| 0 <= i < |p.finish| && p.finish[i] == e;
      assert i < |p.finish| - 1 ==> p.finish[i].Renamed?;
    }
  }

  /** Each event of a trace is the encode (only when the output was missing), the extraction, an error, or part of the finish. */
  lemma ExecuteEvents(env: Env, p: Plan)
    ensures forall e :: e in Execute(env, p) ==>
      e in p.finish || e.RenderError? || (e == Issue(p.encode) && !env.outputExists)
      || (p.extract.Some? && e == Issue(p.extract.value))
  {
  }

  /** A failed step leaves only commands and error reports: nothing of the finish. */
  lemma FailedExecuteReportsOnly(env: Env, p: Plan)
    ensures Failed(env, p) ==> forall e :: e in Execute(env, p) ==> e.Issue? || e.RenderError?
  {
  }

  /** Without a failure the trace is commands followed by the whole finish, the extraction last among them. */
  lemma SucceededExecuteFinishes(env: Env, p: Plan)
    ensures !Failed(env, p) ==> var t := Execute(env, p);
      |t| >= |p.finish| && t[|t| - |p.finish|..] == p.finish
      && (forall k :: 0 <= k < |t| - |p.finish| ==> t[k].Issue?)
      && (p.extract.Some? ==> |t| > |p.finish| && t[|t| - |p.finish| - 1] == Issue(p.extract.value))
  {
    if !Failed(env, p) {
      var enc := if env.outputExists then [] else [Issue(p.encode)];
      var pre := if p.extract.Some? then enc + [Issue(p.extract.value)] else enc;
      assert Execute(env, p) == pre + p.finish;
      assert (pre + p.finish)[|pre|..] == p.finish;
    }
  }

  /** An existing output is not encoded again: the only command left is the extraction. */
  lemma ExistingOutputSkipsEncode(env: Env, p: Plan)
    requires Sound(p) && env.outputExists
    ensures forall e :: e in Execute(env, p) && e.Issue? ==> p.extract == Some(e.command)
  {
    FinishIsQuiet(p);
    ExecuteEvents(env, p);
  }

  /** When neither process writes to stderr, the trace ends with the plan's last event. */
  lemma SucceededEndsWithFinish(env: Env, p: Plan)
    requires Sound(p) && Succeeds(env)
    ensures var t := Execute(env, p); |t| >= 1 && t[|t| - 1] == p.finish[|p.finish| - 1]
  {
    SucceededExecuteFinishes(env, p);
  }

  /** The completion, if the trace holds one, is its last event, and then nothing failed. */
  lemma CompletionIsLast(env: Env, p: Plan, k: nat)
    requires Sound(p)
    requires k < |Execute(env, p)| && Execute(env, p)[k].Completed?
    ensures k == |Execute(env, p)| - 1 && Execute(env, p)[k] == p.finish[|p.finish| - 1]
    ensures !Failed(env, p)
  {
    CompletionMeansSuccess(env, p, k);
    var t := Execute(env, p);
    SucceededExecuteFinishes(env, p);
    var n := |t| - |p.finish|;
    assert k >= n;
    assert t[k] == p.finish[k - n];
  }

  /** A trace that holds a completion had no failure. */
  lemma CompletionMeansSuccess(env: Env, p: Plan, k: nat)
    requires k < |Execute(env, p)| && Execute(env, p)[k].Completed?
    ensures !Failed(env, p)
  {
    FailedExecuteReportsOnly(env, p);
    assert Execute(env, p)[k] in Execute(env, p);
  }

  /** `%` followed by two digits and `d` starts at `j`: a match of `%\d{2}d`. */
  predicate PaddingAt(s: string, j: int) {
    0 <= j && j + 4 <= |s| && s[j] == '%' && IsDigit(s[j + 1]) && IsDigit(s[j + 2]) && s[j + 3] == 'd'
  }

  /** The first match of `%\d{2}d`, if any. */
  function FirstPadding(s: string): (r: Option<nat>)
    ensures r.Some? ==> PaddingAt(s, r.value) && forall j :: 0 <= j < r.value ==> !PaddingAt(s, j)
    ensures r.None? <==> forall j :: !PaddingAt(s, j)
    decreases |s|
  {
    if PaddingAt(s, 0) then Some(0)
    else if |s| < 4 then None
    else
      var rest := FirstPadding(s[1..]);
      if rest.Some? then
        var i := rest.value;
        forall j | 0 <= j < i + 1 ensures !PaddingAt(s, j) {
          if j > 0 { assert !PaddingAt(s[1..], j - 1); }
        }
        assert PaddingAt(s[1..], i);
        assert s[i + 1] == s[1..][i] && s[i + 2] == s[1..][i + 1] && s[i + 3] == s[1..][i + 2] && s[i + 4] == s[1..][i + 3];
        assert PaddingAt(s, i + 1);
        Some(i + 1)
      else
        forall j ensures !PaddingAt(s, j) {
          if j > 0 { assert !PaddingAt(s[1..], j - 1); }
        }
        None
  }

  /** `re.split(r"%\d{2}d", s)`: the text between the matches, found left to right. */
  function SplitPadding(s: string): (parts: seq<string>)
    ensures |parts| >= 1
    decreases |s|
  {
    match FirstPadding(s)
    case None => [s]
    case Some(i) => [s[..i]] + SplitPadding(s[i + 4..])
  }

  /** The temporary thumbnail name: every `%\d{2}d` replaced by `_$$$$<stamp>_`. */
  function TempName(thumbnail: string, stamp: string): (r: string)
    ensures (forall j :: !PaddingAt(thumbnail, j)) ==> r == thumbnail
  {
    Join(SplitPadding(thumbnail), "_$$$$" + stamp + "_")
  }

  /** The temporary name starts with the text before the first padding and ends with the text after the last. */
  lemma TempNameEnds(thumbnail: string, stamp: string)
    ensures StartsWith(TempName(thumbnail, stamp), SplitPadding(thumbnail)[0])
    ensures EndsWith(TempName(thumbnail, stamp), SplitPadding(thumbnail)[|SplitPadding(thumbnail)| - 1])
  {
    JoinEnds(SplitPadding(thumbnail), "_$$$$" + stamp + "_");
  }

  /** A thumbnail name without frame padding is its own temporary name. */
  lemma TempNameUnpadded(thumbnail: string, stamp: string)
    requires forall j :: !PaddingAt(thumbnail, j)
    ensures TempName(thumbnail, stamp) == thumbnail
  {
  }

  /** A padded thumbnail name gets the stamp in place of its padding. */
  lemma TempNamePadded(a: string, pad: string, b: string, stamp: string)
    requires PaddingAt(pad, 0) && |pad| == 4
    requires forall j :: !PaddingAt(a, j)
    requires forall j :: !PaddingAt(b, j)
    ensures TempName(a + pad + b, stamp) == a + "_$$$$" + stamp + "_" + b
  {
    SplitPaddingOnce(a, pad, b);
    var sep := "_$$$$" + stamp + "_";
    assert Join([a, b], sep) == a + sep + Join([b], sep);
  }

  /** A name with one padding splits into the text before it and the text after it. */
  lemma SplitPaddingOnce(a: string, pad: string, b: string)
    requires PaddingAt(pad, 0) && |pad| == 4
    requires forall j :: !PaddingAt(a, j)
    requires forall j :: !PaddingAt(b, j)
    ensures SplitPadding(a + pad + b) == [a, b]
  {
    var s := a + pad + b;
    FirstPaddingAfter(a, pad, b);
    assert s[..|a|] == a && s[|a| + 4..] == b;
    assert SplitPadding(b) == [b];
  }

  lemma FirstPaddingAfter(a: string, pad: string, b: string)
    requires PaddingAt(pad, 0) && |pad| == 4
    requires forall j :: !PaddingAt(a, j)
    ensures FirstPadding(a + pad + b) == Some(|a|)
  {
    var s := a + pad + b;
    assert PaddingAt(s, |a|) by {
      assert s[|a|..|a| + 4] == pad;
    }
    forall j | 0 <= j < |a| ensures !PaddingAt(s, j) {
      if j + 4 <= |a| {
        assert s[j..j + 4] == a[j..j + 4];
        assert !PaddingAt(a, j);
      } else {
        assert s[|a|] == '%';
      }
    }
  }

  /** The sequence encode, given the `path start-end` text so that the builder cuts the range off once. */
  function EncodeSequence(job: Job, start: string, fps: string): (r: Command)
    ensures Argv(r)[4] == Commands.SequenceInput(job.source)
  {
    SequenceEncode(job.source, job.output, job.resX, job.resY, start, fps)
  }

  /** The sequence encode as written: the builder receives the path already cut, and cuts again. */
  function EncodeSequenceAsWritten(job: Job, base: string, start: string, fps: string): (r: Command)
    ensures Argv(r)[4] == Commands.SequenceInput(base)
  {
    SequenceEncode(base, job.output, job.resX, job.resY, start, fps)
  }

  /** A sequence under a directory whose name holds a space loses everything after that space as written. */
  lemma EncodeSequenceAsWrittenCutsPath(job: Job, dir: string, name: string, range: string, start: string, fps: string)
    requires ' ' !in name && ' ' !in range
    requires job.source == dir + " " + name + " " + range
    ensures Argv(EncodeSequenceAsWritten(job, dir + " " + name, start, fps))[4] == dir
    ensures Argv(EncodeSequence(job, start, fps))[4] == dir + " " + name
  {
    Commands.SequenceCommandInput(dir, name, job.output, job.resX, job.resY, start, fps);
    Commands.SequenceCommandInput(dir + " " + name, range, job.output, job.resX, job.resY, start, fps);
  }

  /** `int(t)` raising ValueError. */
  function ToInt(t: string): (r: Result<int>)
    ensures r.Ok? <==> ParseInt(t).Some?
    ensures r.Ok? ==> ParseInt(t) == Some(r.value)
  {
    match ParseInt(t)
    case Some(i) => Ok(i)
    case None => Err(ValueError(t))
  }


  /** `rsplit(' ', 1)` then `split('-')` of a sequence text: the path, the start text and the end text. */
  function SplitSequence(source: string): (r: Result<(string, string, string)>)
    ensures r.Ok? ==> source == r.value.0 + " " + r.value.1 + "-" + r.value.2
    ensures ' ' !in source ==> r.Err?
  {
    var parts := RSplitOnce(source, ' ');
    if |parts| != 2 then Err(ValueError("not enough values to unpack"))
    else
      var bounds := Split(parts[1], "-");
      if |bounds| != 2 then Err(ValueError("too many values to unpack"))
      else
        assert Join(bounds, "-") == bounds[0] + "-" + Join(bounds[1..], "-");
        Ok((parts[0], bounds[0], bounds[1]))
  }

  /** A frame number as the sequence text writes it: one or more decimal digits, leading zeros allowed. */
  predicate Numeral(t: string) {
    |t| >= 1 && AllDigits(t)
  }

  /** The frames from `start` to `end`, both included. */
  function FrameTotal(a: string, b: string): int
    requires Numeral(a) && Numeral(b)
  {
    ParseDigits(b) - ParseDigits(a) + 1
  }

  /** `int(t)` of a frame number is its decimal value. */
  lemma NumeralValue(t: string)
    requires Numeral(t)
    ensures ParseInt(t) == Some(ParseDigits(t) as int)
  {
    assert IsDigit(t[0]);
  }

  /** `start-end` with two frame numbers holds no space. */
  lemma RangeHasNoSpace(a: string, b: string)
    requires Numeral(a) && Numeral(b)
    ensures ' ' !in a + "-" + b
  {
    var range := a + "-" + b;
    forall k | 0 <= k < |range| ensures range[k] != ' ' {
      if k < |a| { assert IsDigit(a[k]); }
      else if k > |a| { assert IsDigit(b[k - |a| - 1]); }
    }
  }

  /** `start-end` with two frame numbers splits at its dash. */
  lemma RangeSplit(a: string, b: string)
    requires Numeral(a) && Numeral(b)
    ensures Split(a + "-" + b, "-") == [a, b]
  {
    forall k | 0 <= k < |a| ensures a[k] != '-' { assert IsDigit(a[k]); }
    forall k | 0 <= k < |b| ensures b[k] != '-' { assert IsDigit(b[k]); }
    assert Join([a, b], "-") == a + "-" + b;
    SplitOfJoin([a, b], '-');
  }

  /** `path start-end` with two frame numbers splits at its last space. */
  lemma RangeRSplit(base: string, a: string, b: string)
    requires Numeral(a) && Numeral(b)
    ensures RSplitOnce(base + " " + a + "-" + b, ' ') == [base, a + "-" + b]
  {
    var range := a + "-" + b;
    RangeHasNoSpace(a, b);
    RSplitOnceLast(base, ' ', range);
    assert base + " " + a + "-" + b == base + [' '] + range;
  }

  /** `path start-end` with two frame numbers splits back into its three texts. */
  lemma SplitSequenceOf(base: string, a: string, b: string)
    requires Numeral(a) && Numeral(b)
    ensures SplitSequence(base + " " + a + "-" + b) == Ok((base, a, b))
  {
    RangeRSplit(base, a, b);
    RangeSplit(a, b);
  }

  /** The metadata dict: the frame rate rounded to two decimals, the rest as given. */
  function MetadataOf(probe: Probe, frames: Value, format: string): (m: Metadata)
    requires !probe.fps.Str?
    ensures m.frames == frames && m.format == format && m.width == probe.width && m.height == probe.height
    ensures m.fps.Real? && AsReal(probe.fps) - 0.005 < m.fps.r <= AsReal(probe.fps) + 0.005
  {
    Metadata(Real(Round2(AsReal(probe.fps))), frames, probe.width, probe.height, format)
  }

  /** What `_convert_video` does: encode, extract the thumbnail beside the output, complete. */
  function VideoPlan(job: Job, probe: Probe, meta: Metadata, repr: real -> string): (p: Plan)
    ensures Sound(p) && p.extract.Some?
    ensures p.finish == [Completed(job.output, ThumbnailPath(job.output), meta)]
  {
    var thumb := ThumbnailPath(job.output);
    Plan(VideoEncode(job.source, job.output, job.resX, job.resY, Text(probe.fps, repr)),
         Some(Extract(job.source, thumb, job.resX, job.resY, Text(probe.thumbTime, repr))),
         [Completed(job.output, thumb, meta)])
  }

  /** What `_convert_image_sequence` does: encode, extract under the temporary name, rename, complete. */
  function SequencePlan(job: Job, stamp: string, base: string, start: string, probe: Probe, meta: Metadata,
                        repr: real -> string): (p: Plan)
    ensures Sound(p) && p.extract.Some?
    ensures p.finish == [Renamed(TempName(ThumbnailPath(job.output), stamp), ThumbnailPath(job.output)),
                         Completed(job.output, ThumbnailPath(job.output), meta)]
  {
    var thumb := ThumbnailPath(job.output);
    var temp := TempName(thumb, stamp);
    var encode := EncodeSequence(job, start, Text(probe.fps, repr));
    Plan(encode, Some(Extract(base, temp, job.resX, job.resY, Text(probe.thumbTime, repr))),
         [Renamed(temp, thumb), Completed(job.output, thumb, meta)])
  }

  /** What `_convert_image` does: encode and complete, with no extraction. */
  function ImagePlan(job: Job, meta: Metadata): (p: Plan)
    ensures Sound(p) && p.extract.None?
    ensures p.encode == ImageEncode(job.source, job.output, job.resX, job.resY)
    ensures p.finish == [Completed(job.output, ThumbnailPath(job.output), meta)]
  {
    Plan(ImageEncode(job.source, job.output, job.resX, job.resY), None,
         [Completed(job.output, ThumbnailPath(job.output), meta)])
  }

  /** `_process_video`: probe, then build the metadata with the source's suffix as the format. */
  function ProcessVideo(job: Job, env: Env, repr: real -> string): (r: Result<Plan>)
    ensures r.Ok? ==> Sound(r.value) && r.value.extract.Some? && |r.value.finish| == 1
    ensures r.Ok? ==> EndsInCompletion(r.value, job.output)
  {
    var probe :- FileMetadata(env.report);
    Ok(VideoPlan(job, probe, MetadataOf(probe, probe.frames, Suffix(job.source)), repr))
  }

  /** `_process_image`. */
  function ProcessImage(job: Job, env: Env): (r: Result<Plan>)
    ensures r.Ok? ==> Sound(r.value) && r.value.extract.None? && |r.value.finish| == 1
    ensures r.Ok? ==> r.value.encode == ImageEncode(job.source, job.output, job.resX, job.resY)
    ensures r.Ok? ==> EndsInCompletion(r.value, job.output)
  {
    var probe :- FileMetadata(env.report);
    Ok(ImagePlan(job, MetadataOf(probe, probe.frames, Suffix(job.source))))
  }

  /**
   * `_process_image_sequence`: split the text, probe the path, and count the
   * frames from the two numbers (the end is converted first).
   */
  function ProcessSequence(job: Job, env: Env, repr: real -> string): (r: Result<Plan>)
    ensures r.Ok? ==> Sound(r.value) && r.value.extract.Some? && |r.value.finish| == 2
    ensures r.Ok? ==> r.value.finish[0] == Renamed(TempName(ThumbnailPath(job.output), env.stamp), ThumbnailPath(job.output))
    ensures r.Ok? ==> EndsInCompletion(r.value, job.output)
  {
    var texts :- SplitSequence(job.source);
    var probe :- FileMetadata(env.report);
    SequenceFromTexts(job, env.stamp, repr, texts, probe)
  }

  /** The rest of `_process_image_sequence` once the text is split and probed: the end is converted first. */
  function SequenceFromTexts(job: Job, stamp: string, repr: real -> string, texts: (string, string, string),
                             probe: Probe): (r: Result<Plan>)
    requires !probe.fps.Str?
    ensures r.Ok? <==> FrameCount(texts).Ok?
    ensures r.Ok? ==> Sound(r.value) && r.value.extract.Some? && |r.value.finish| == 2
    ensures r.Ok? ==> r.value.finish[0] == Renamed(TempName(ThumbnailPath(job.output), stamp), ThumbnailPath(job.output))
    ensures r.Ok? ==> EndsInCompletion(r.value, job.output)
  {
    var count :- FrameCount(texts);
    Ok(SequencePlan(job, stamp, texts.0, texts.1, probe, MetadataOf(probe, Str(IntToString(count)), Suffix(texts.0)), repr))
  }

  /** `int(end) - int(start) + 1`: the end is converted first, so its ValueError wins. */
  function FrameCount(texts: (string, string, string)): (r: Result<int>)
    ensures r.Ok? <==> ParseInt(texts.1).Some? && ParseInt(texts.2).Some?
    ensures r.Ok? ==> r.value == ParseInt(texts.2).value - ParseInt(texts.1).value + 1
    ensures ParseInt(texts.2).None? ==> r == Err(ValueError(texts.2))
  {
    var last :- ToInt(texts.2);
    var first :- ToInt(texts.1);
    Ok(last - first + 1)
  }

  /** The completion of the job writing `output`, with the thumbnail beside it. */
  predicate CompletesAs(e: Event, output: string) {
    e.Completed? && e.output == output && e.thumbnail == ThumbnailPath(output)
  }

  /** The plan finishes with the completion of the job writing `output`. */
  predicate EndsInCompletion(p: Plan, output: string) {
    |p.finish| >= 1 && CompletesAs(p.finish[|p.finish| - 1], output)
  }

  /** The job converts its source: it is flagged as a sequence or has a supported extension. */
  predicate Supported(job: Job) {
    job.isImageSeq || IsImage(job.source) || IsVideo(job.source)
  }

  /** `run`'s dispatch as intended: the sequence flag, then the image formats, then the video formats. */
  function Process(job: Job, env: Env, repr: real -> string): (r: Result<Plan>)
    ensures r.Ok? ==> Sound(r.value) && EndsInCompletion(r.value, job.output)
  {
    if job.isImageSeq then ProcessSequence(job, env, repr)
    else if IsImage(job.source) then ProcessImage(job, env)
    else ProcessVideo(job, env, repr)
  }

  /**
   * The trace of `run` as intended: what it did, or the exception that ended
   * it.  Three things are corrected here.  The sequence flag is read from the
   * attribute the constructor sets (the code reads `self.is_image_seq`).  The
   * format tests use the configured `SUPPORTED_IMAGE_FORMATS` and
   * `SUPPORTED_VIDEO_FORMATS` (the code reads lower-case names the
   * configuration does not define).  A sequence is encoded through
   * EncodeSequence, which cuts the frame range off once (the code cuts at the
   * last space twice, see EncodeSequenceAsWritten).
   */
  function Run(job: Job, env: Env, repr: real -> string): (r: seq<Event>)
    ensures !Supported(job) ==> r == []
    ensures Supported(job) ==> |r| >= 1
    ensures forall i :: 0 <= i < |r| && r[i].Crash? ==> |r| == 1
  {
    if !Supported(job) then []
    else
      match Process(job, env, repr)
      case Err(e) => [Crash(e)]
      case Ok(p) =>
        ExecuteNeverCrashes(env, p);
        Execute(env, p)
  }

  /** A sound plan's execution reports at least one event and never an exception. */
  lemma ExecuteNeverCrashes(env: Env, p: Plan)
    requires Sound(p)
    ensures |Execute(env, p)| >= 1
    ensures forall e :: e in Execute(env, p) ==> !e.Crash?
  {
    ExecuteEvents(env, p);
    FinishIsQuiet(p);
  }

  /**
   * `run` as written: it reads `self.is_image_seq`, but the flag is stored
   * under the private name, so the attribute lookup raises before anything
   * else happens.  Past that, a job that is not a sequence would raise
   * AttributeError again on the lower-case format names.
   */
  function RunAsWritten(job: Job, env: Env, repr: real -> string): (t: seq<Event>)
    ensures forall e :: e in t ==> !e.Completed? && !e.Issue?
  {
    [Crash(AttributeError("is_image_seq"))]
  }

  /** As written no job issues a command; a video job with working tools completes under the intended dispatch. */
  lemma RunAsWrittenNeverConverts(job: Job, env: Env, repr: real -> string)
    requires !job.isImageSeq && !IsImage(job.source) && IsVideo(job.source)
    requires env.report == NoOutput && Succeeds(env)
    ensures forall e :: e in RunAsWritten(job, env, repr) ==> !e.Completed?
    ensures |Run(job, env, repr)| >= 1 && Run(job, env, repr)[|Run(job, env, repr)| - 1].Completed?
  {
    var p := Process(job, env, repr).value;
    SucceededExecuteFinishes(env, p);
  }

  /** A source that is not a sequence and matches no format produces nothing. */
  lemma UnsupportedIsSilent(job: Job, env: Env, repr: real -> string)
    requires !Supported(job)
    ensures Run(job, env, repr) == []
  {
  }

  /** A failed encode ends the job: the encode command and its error, nothing more. */
  lemma FailedEncodeStops(job: Job, env: Env, repr: real -> string)
    requires Supported(job) && Process(job, env, repr).Ok? && EncodeFailed(env)
    ensures var t := Run(job, env, repr);
      |t| == 2 && t[0].Issue? && !t[0].command.Extract? && t[1] == RenderError(env.render.err.value)
  {
  }

  /** The encode is issued exactly when the output file is missing, and then first. */
  lemma EncodeOnlyWhenMissing(job: Job, env: Env, repr: real -> string)
    requires Supported(job) && Process(job, env, repr).Ok?
    ensures env.outputExists ==> forall e :: e in Run(job, env, repr) && e.Issue? ==> e.command.Extract?
    ensures !env.outputExists ==>
      (|Run(job, env, repr)| >= 1 && Run(job, env, repr)[0].Issue? && !Run(job, env, repr)[0].command.Extract?)
  {
    if env.outputExists {
      ExistingOutputSkipsEncode(env, Process(job, env, repr).value);
    }
  }

  /**
   * A completion comes last, names the job's output and the `.png` beside
   * it, and directly follows the extraction of a video or the rename of a
   * sequence's thumbnail.
   */
  lemma CompletionComesLast(job: Job, env: Env, repr: real -> string, k: nat)
    requires k < |Run(job, env, repr)| && Run(job, env, repr)[k].Completed?
    ensures k == |Run(job, env, repr)| - 1
    ensures Run(job, env, repr)[k].output == job.output && Run(job, env, repr)[k].thumbnail == ThumbnailPath(job.output)
    ensures job.isImageSeq ==> (k >= 1 &&
      Run(job, env, repr)[k - 1] == Renamed(TempName(ThumbnailPath(job.output), env.stamp), ThumbnailPath(job.output)))
    ensures !job.isImageSeq && !IsImage(job.source) ==>
      (k >= 1 && Run(job, env, repr)[k - 1].Issue? && Run(job, env, repr)[k - 1].command.Extract?)
  {
    RunCompletedIsPlanned(job, env, repr, k);
    var p := Process(job, env, repr).value;
    RunOfPlan(job, env, repr, p);
    CompletionIsLast(env, p, k);
    assert job.isImageSeq ==> Process(job, env, repr) == ProcessSequence(job, env, repr);
    assert !job.isImageSeq && !IsImage(job.source) ==> Process(job, env, repr) == ProcessVideo(job, env, repr);
    StepBeforeCompletion(env, p);
  }

  /** In a trace without failure, the event before the completion is the rename before it, or else the extraction. */
  lemma StepBeforeCompletion(env: Env, p: Plan)
    requires Sound(p) && !Failed(env, p)
    ensures var t := Execute(env, p);
      |p.finish| == 2 ==> |t| >= 2 && t[|t| - 2] == p.finish[0]
    ensures var t := Execute(env, p);
      p.extract.Some? && |p.finish| == 1 ==> |t| >= 2 && t[|t| - 2] == Issue(p.extract.value)
  {
    var enc := if env.outputExists then [] else [Issue(p.encode)];
    var pre := if p.extract.Some? then enc + [Issue(p.extract.value)] else enc;
    var t := pre + p.finish;
    assert Execute(env, p) == t;
    assert |p.finish| == 2 ==> t[|t| - 2] == p.finish[0];
    assert p.extract.Some? ==> pre[|pre| - 1] == Issue(p.extract.value);
  }

  /** A run that completes was supported and built its plan. */
  lemma RunCompletedIsPlanned(job: Job, env: Env, repr: real -> string, k: nat)
    requires k < |Run(job, env, repr)| && Run(job, env, repr)[k].Completed?
    ensures Supported(job) && Process(job, env, repr).Ok?
  {
  }

  /**
   * Both processes run with stderr merged into stdout, so `err` is always
   * None: then nothing is reported as failed, and a run that raised nothing
   * ends in its completion.
   */
  lemma MergedStderrCompletes(job: Job, env: Env, repr: real -> string)
    requires Supported(job) && Process(job, env, repr).Ok? && Succeeds(env)
    ensures forall e :: e in Run(job, env, repr) ==> !e.RenderError?
    ensures |Run(job, env, repr)| >= 1 && Run(job, env, repr)[|Run(job, env, repr)| - 1].Completed?
  {
    var p := Process(job, env, repr).value;
    RunOfPlan(job, env, repr, p);
    MergedNeverFails(env, p);
    SucceededExecuteQuiet(env, p);
  }

  lemma MergedNeverFails(env: Env, p: Plan)
    requires Succeeds(env)
    ensures !Failed(env, p)
  {
  }

  /** A sound plan whose steps all succeed reports no error and ends in its last finishing event. */
  lemma SucceededExecuteQuiet(env: Env, p: Plan)
    requires Sound(p) && !Failed(env, p)
    ensures forall e :: e in Execute(env, p) ==> !e.RenderError?
    ensures |Execute(env, p)| >= 1 && Execute(env, p)[|Execute(env, p)| - 1] == p.finish[|p.finish| - 1]
  {
    SucceededExecuteNoError(env, p);
    var t := Execute(env, p);
    SucceededExecuteFinishes(env, p);
    var n := |t| - |p.finish|;
    assert t[|t| - 1] == t[n..][|p.finish| - 1];
  }

  lemma SucceededExecuteNoError(env: Env, p: Plan)
    requires Sound(p) && !Failed(env, p)
    ensures forall e :: e in Execute(env, p) ==> !e.RenderError?
  {
    var enc := if env.outputExists then [] else [Issue(p.encode)];
    var pre := if p.extract.Some? then enc + [Issue(p.extract.value)] else enc;
    assert Execute(env, p) == pre + p.finish;
    assert forall e :: e in pre ==> e.Issue?;
    FinishIsQuiet(p);
  }

  /** An image job never extracts: every command it issues is the image encode. */
  lemma ImageNeverExtracts(job: Job, env: Env, repr: real -> string)
    requires !job.isImageSeq && IsImage(job.source)
    ensures forall e :: e in Run(job, env, repr) && e.Issue? ==>
      e.command == ImageEncode(job.source, job.output, job.resX, job.resY)
  {
    var r := Run(job, env, repr);
    match Process(job, env, repr)
    case Err(e) =>
      assert forall x :: x in r ==> x.Crash? || !Supported(job);
    case Ok(p) =>
      assert Process(job, env, repr) == ProcessImage(job, env);
      assert p.encode == ImageEncode(job.source, job.output, job.resX, job.resY) && p.extract.None?;
      assert Supported(job) ==> r == Execute(env, p);
      EncodeOnlyIssue(env, p);
  }

  /** Without an extraction, the only command a sound plan issues is its encode. */
  lemma EncodeOnlyIssue(env: Env, p: Plan)
    requires Sound(p) && p.extract.None?
    ensures forall e :: e in Execute(env, p) && e.Issue? ==> e.command == p.encode
  {
    FinishIsQuiet(p);
    ExecuteEvents(env, p);
  }

  /** The plan for `path start-end`: the range parsed, the frames counted, the path's suffix as the format. */
  lemma SequencePlanOf(job: Job, env: Env, repr: real -> string, base: string, a: string, b: string)
    requires Numeral(a) && Numeral(b) && job.isImageSeq && job.source == base + " " + a + "-" + b
    requires FileMetadata(env.report).Ok?
    ensures Process(job, env, repr) == Ok(SequencePlan(job, env.stamp, base, a, FileMetadata(env.report).value,
      MetadataOf(FileMetadata(env.report).value, Str(IntToString(FrameTotal(a, b))), Suffix(base)),
      repr))
  {
    var texts := (base, a, b);
    var count := FrameTotal(a, b);
    var probe := FileMetadata(env.report).value;
    FrameCountOf(texts);
    SequenceFromTextsOf(job, env.stamp, repr, texts, probe, count);
    SequenceTextsOf(job, env, repr, base, a, b);
  }

  /** A sequence job on `path start-end` goes on with the three texts and the probe. */
  lemma SequenceTextsOf(job: Job, env: Env, repr: real -> string, base: string, a: string, b: string)
    requires Numeral(a) && Numeral(b) && job.isImageSeq && job.source == base + " " + a + "-" + b
    requires FileMetadata(env.report).Ok?
    ensures Process(job, env, repr) == SequenceFromTexts(job, env.stamp, repr, (base, a, b), FileMetadata(env.report).value)
  {
    SplitSequenceOf(base, a, b);
    ProcessSequenceOf(job, env, repr, (base, a, b), FileMetadata(env.report).value);
  }

  /** Two frame numbers count the frames from the first to the last, both included. */
  lemma FrameCountOf(texts: (string, string, string))
    requires Numeral(texts.1) && Numeral(texts.2)
    ensures FrameCount(texts) == Ok(FrameTotal(texts.1, texts.2))
  {
    NumeralValue(texts.1);
    NumeralValue(texts.2);
  }

  /** A sequence job whose text splits and whose probe succeeds goes on with those texts and that probe. */
  lemma ProcessSequenceOf(job: Job, env: Env, repr: real -> string, texts: (string, string, string), probe: Probe)
    requires job.isImageSeq && SplitSequence(job.source) == Ok(texts) && FileMetadata(env.report) == Ok(probe)
    ensures Process(job, env, repr) == SequenceFromTexts(job, env.stamp, repr, texts, probe)
  {
    assert Process(job, env, repr) == ProcessSequence(job, env, repr);
  }

  /** With both numbers parsed, the plan counts `end - start + 1` frames and takes the path's suffix as the format. */
  lemma SequenceFromTextsOf(job: Job, stamp: string, repr: real -> string, texts: (string, string, string),
                            probe: Probe, count: int)
    requires !probe.fps.Str? && FrameCount(texts) == Ok(count)
    ensures SequenceFromTexts(job, stamp, repr, texts, probe) == Ok(SequencePlan(job, stamp, texts.0, texts.1, probe,
      MetadataOf(probe, Str(IntToString(count)), Suffix(texts.0)), repr))
  {
  }

  /** A sequence `path start-end` completes with `end - start + 1` frames and the path's suffix as its format. */
  lemma SequenceMetadata(job: Job, env: Env, repr: real -> string, base: string, a: string, b: string)
    requires Numeral(a) && Numeral(b) && job.isImageSeq && job.source == base + " " + a + "-" + b
    requires FileMetadata(env.report).Ok? && Succeeds(env)
    ensures var t := Run(job, env, repr);
      |t| >= 1 && t[|t| - 1] == Completed(job.output, ThumbnailPath(job.output),
        MetadataOf(FileMetadata(env.report).value, Str(IntToString(FrameTotal(a, b))), Suffix(base)))
  {
    var probe := FileMetadata(env.report).value;
    var meta := MetadataOf(probe, Str(IntToString(FrameTotal(a, b))), Suffix(base));
    SequencePlanEnds(job, env, repr, base, a, probe, meta);
    SequenceRunOf(job, env, repr, base, a, b);
  }

  /** A sequence job on `path start-end` runs the plan built from its texts and probe. */
  lemma SequenceRunOf(job: Job, env: Env, repr: real -> string, base: string, a: string, b: string)
    requires Numeral(a) && Numeral(b) && job.isImageSeq && job.source == base + " " + a + "-" + b
    requires FileMetadata(env.report).Ok?
    ensures Run(job, env, repr) == Execute(env, SequencePlan(job, env.stamp, base, a, FileMetadata(env.report).value,
      MetadataOf(FileMetadata(env.report).value, Str(IntToString(FrameTotal(a, b))), Suffix(base)), repr))
  {
    SequencePlanOf(job, env, repr, base, a, b);
    RunOfPlan(job, env, repr, Process(job, env, repr).value);
  }

  /** With both processes quiet, a sequence plan's trace ends in its completion. */
  lemma SequencePlanEnds(job: Job, env: Env, repr: real -> string, base: string, a: string, probe: Probe, meta: Metadata)
    requires Succeeds(env)
    ensures var t := Execute(env, SequencePlan(job, env.stamp, base, a, probe, meta, repr));
      |t| >= 1 && t[|t| - 1] == Completed(job.output, ThumbnailPath(job.output), meta)
  {
    SucceededEndsWithFinish(env, SequencePlan(job, env.stamp, base, a, probe, meta, repr));
  }

  /** A job whose plan could not be built reports exactly that exception. */
  lemma RunOfError(job: Job, env: Env, repr: real -> string)
    requires Supported(job) && Process(job, env, repr).Err?
    ensures Run(job, env, repr) == [Crash(Process(job, env, repr).error)]
  {
  }

  /** Once the plan is built, the run is its execution. */
  lemma RunOfPlan(job: Job, env: Env, repr: real -> string, p: Plan)
    requires Supported(job) && Process(job, env, repr) == Ok(p)
    ensures Run(job, env, repr) == Execute(env, p)
  {
  }
}
