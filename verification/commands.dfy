/**
 * The ffmpeg and ffprobe argument lists of the conversion job.  Numbers that
 * the job formats into arguments (frame rate, frame time, start frame)
 * arrive here already as text; the resolutions are integers written with
 * `str`.
 */
module Commands {
  import opened Wrappers
  import opened Strings
  import opened Numerals

  const ScaleTail: string := ":force_original_aspect_ratio=decrease"

  /** The `-vf` filter every builder uses: fit inside `x` by `y`, keeping the aspect ratio. */
  function Scale(x: int, y: int): string {
    "scale=" + IntToString(x) + ":" + IntToString(y) + ScaleTail
  }

  /** Reads a scale filter back into its two resolutions. */
  function ParseScale(s: string): (r: Option<(int, int)>)
    ensures r.Some? ==> StartsWith(s, "scale=") && EndsWith(s, ScaleTail)
  {
    if |s| >= |"scale="| + |ScaleTail| && StartsWith(s, "scale=") && EndsWith(s, ScaleTail) then
      var middle := s[|"scale="|..|s| - |ScaleTail|];
      var parts := Split(middle, ":");
      if |parts| == 2 then
        match (ParseInt(parts[0]), ParseInt(parts[1]))
        case (Some(x), Some(y)) => Some((x, y))
        case _ => None
      else None
    else None
  }

  /** `str(i)` never holds a colon. */
  lemma IntTextHasNoColon(i: int)
    ensures ':' !in IntToString(i)
  {
    var t := IntToString(i);
    forall k | 0 <= k < |t| ensures t[k] != ':' {
      if i >= 0 {
        assert IsDigit(t[k]);
      } else if k > 0 {
        assert IsDigit(t[1..][k - 1]);
      }
    }
  }

  /** The filter text determines the resolutions it was built from. */
  lemma ParseScaleOfScale(x: int, y: int)
    ensures ParseScale(Scale(x, y)) == Some((x, y))
  {
    IntTextHasNoColon(x);
    IntTextHasNoColon(y);
    ParseIntToString(x);
    ParseIntToString(y);
    ParseScaleOfTexts(IntToString(x), IntToString(y), x, y);
  }

  /** A filter around two colon-free integer texts parses back to their values. */
  lemma ParseScaleOfTexts(a: string, b: string, x: int, y: int)
    requires ':' !in a && ':' !in b && ParseInt(a) == Some(x) && ParseInt(b) == Some(y)
    ensures ParseScale("scale=" + a + ":" + b + ScaleTail) == Some((x, y))
  {
    var middle := a + ":" + b;
    assert Split(middle, ":") == [a, b] by {
      assert Join([a, b], ":") == middle;
      SplitOfJoin([a, b], ':');
    }
    assert "scale=" + a + ":" + b + ScaleTail == "scale=" + middle + ScaleTail;
    ScaleFrame(middle);
    ParseScaleAt("scale=" + middle + ScaleTail, middle, a, b, x, y);
  }

  /** Parsing a recognised filter whose middle splits into two integer texts. */
  lemma ParseScaleAt(s: string, middle: string, a: string, b: string, x: int, y: int)
    requires |s| >= |"scale="| + |ScaleTail| && StartsWith(s, "scale=") && EndsWith(s, ScaleTail)
    requires s[|"scale="|..|s| - |ScaleTail|] == middle && Split(middle, ":") == [a, b]
    requires ParseInt(a) == Some(x) && ParseInt(b) == Some(y)
    ensures ParseScale(s) == Some((x, y))
  {
  }

  /** A filter text is recognised by its prefix and tail, and the text between them is recovered. */
  lemma ScaleFrame(middle: string)
    ensures var s := "scale=" + middle + ScaleTail;
      |s| >= |"scale="| + |ScaleTail| && StartsWith(s, "scale=") && EndsWith(s, ScaleTail)
      && s[|"scale="|..|s| - |ScaleTail|] == middle
  {
    var s := "scale=" + middle + ScaleTail;
    assert s[|"scale="|..|s| - |ScaleTail|] == middle;
    assert s[..|"scale="|] == "scale=";
    assert s[|s| - |ScaleTail|..] == ScaleTail;
  }

  /** The argument following the first occurrence of `flag`. */
  function ValueAfter(argv: seq<string>, flag: string): Option<string> {
    if |argv| < 2 then None
    else if argv[0] == flag then Some(argv[1])
    else ValueAfter(argv[1..], flag)
  }

  /** The argument after `flag` is the one at `i + 1` when `i` is where `flag` first occurs. */
  lemma {:induction false} ValueAfterAt(argv: seq<string>, flag: string, i: nat)
    requires i + 1 < |argv| && argv[i] == flag
    requires forall j :: 0 <= j < i ==> argv[j] != flag
    ensures ValueAfter(argv, flag) == Some(argv[i + 1])
    decreases i
  {
    if i > 0 {
      ValueAfterAt(argv[1..], flag, i - 1);
    }
  }

  /** The `convert_video` argument list around a given filter text. */
  function VideoArgs(source: string, filter: string, fps: string, output: string): (r: seq<string>)
    ensures |r| == 15 && r[0] == "ffmpeg" && r[14] == "-hide_banner" && r[13] == output
    ensures r[1] == "-i" && r[2] == source
  {
    ["ffmpeg", "-i", source, "-vcodec", "libx264", "-movflags", "faststart", "-pix_fmt", "yuv422p",
     "-vf", filter, "-r", fps, output, "-hide_banner"]
  }

  /** `convert_video`: encode a video to H.264 with fast start. */
  function ConvertVideo(source: string, output: string, x: int, y: int, fps: string): (r: seq<string>)
    ensures |r| == 15 && r[2] == source && r[12] == fps && r[13] == output
    ensures r[9] == "-vf" && r[10] == Scale(x, y)
    ensures r[5] == "-movflags" && r[6] == "faststart"
  {
    var filter := Scale(x, y);
    var r := VideoArgs(source, filter, fps, output);
    assert r[10] == filter;
    r
  }

  /** `source.rsplit(' ', 1)[0]`: the source without its last space-separated token. */
  function SequenceInput(source: string): (r: string)
    ensures ' ' !in source ==> r == source
    ensures ' ' in source ==> |r| < |source| && source[..|r|] == r && source[|r|] == ' ' && ' ' !in source[|r| + 1..]
  {
    var parts := RSplitOnce(source, ' ');
    assert |parts| == 2 ==> source[..|parts[0]|] == parts[0] && source[|parts[0]| + 1..] == parts[1] by {
      if |parts| == 2 {
        assert source == parts[0] + [' '] + parts[1];
      }
    }
    parts[0]
  }

  /** The input is the whole source when it has no space, else everything before its last space. */
  lemma SequenceInputCut(source: string)
    ensures ' ' !in source ==> SequenceInput(source) == source
    ensures ' ' in source ==> exists rest :: ' ' !in rest && source == SequenceInput(source) + [' '] + rest
  {
    var parts := RSplitOnce(source, ' ');
    if |parts| == 2 {
      assert ' ' !in parts[1] && source == parts[0] + [' '] + parts[1];
    }
  }

  /** The `convert_image_sequence` argument list around a given input and filter text. */
  function SequenceArgs(start: string, input: string, filter: string, fps: string, output: string): (r: seq<string>)
    ensures |r| == 15 && r[0] == "ffmpeg" && r[14] == "-hide_banner" && r[13] == output
    ensures r[1] == "-start_number" && r[2] == start && r[3] == "-i" && r[4] == input
  {
    ["ffmpeg", "-start_number", start, "-i", input, "-vcodec", "libx264",
     "-pix_fmt", "yuv420p", "-vf", filter, "-r", fps, output, "-hide_banner"]
  }

  /**
   * `convert_image_sequence`: the input is the source with its last
   * space-separated token (the frame range) removed.
   */
  function ConvertImageSequence(source: string, output: string, x: int, y: int, start: string, fps: string): (r: seq<string>)
    ensures |r| == 15 && r[2] == start && r[4] == SequenceInput(source) && r[12] == fps && r[13] == output
    ensures r[9] == "-vf" && r[10] == Scale(x, y)
  {
    var filter := Scale(x, y);
    var r := SequenceArgs(start, SequenceInput(source), filter, fps, output);
    assert r[10] == filter;
    r
  }

  /** The `convert_image` argument list around a given filter text. */
  function ImageArgs(source: string, filter: string, output: string): (r: seq<string>)
    ensures |r| == 7 && r[0] == "ffmpeg" && r[6] == "-hide_banner" && r[5] == output
    ensures r[1] == "-i" && r[2] == source
  {
    ["ffmpeg", "-i", source, "-vf", filter, output, "-hide_banner"]
  }

  /** `convert_image`: scale a still image. */
  function ConvertImage(source: string, output: string, x: int, y: int): (r: seq<string>)
    ensures |r| == 7 && r[2] == source && r[5] == output
    ensures r[3] == "-vf" && r[4] == Scale(x, y)
  {
    var filter := Scale(x, y);
    var r := ImageArgs(source, filter, output);
    assert r[4] == filter;
    r
  }

  /** `extract_video_thumbnail_frame`: the ffprobe call that reports streams and format as JSON. */
  function ProbeCommand(source: string): (r: seq<string>)
    ensures |r| == 10 && r[0] == "ffprobe" && r[9] == "-hide_banner" && r[8] == source
  {
    ["ffprobe", "-loglevel", "0", "-print_format", "json", "-show_format", "-show_streams",
     "-i", source, "-hide_banner"]
  }

  /** The `extract_image_from_video` argument list around a given filter text. */
  function ExtractArgs(source: string, filter: string, output: string, time: string): (r: seq<string>)
    ensures |r| == 13 && r[0] == "ffmpeg" && r[12] == "-hide_banner" && r[11] == output
    ensures r[1] == "-ss" && r[2] == time && r[3] == "-i" && r[4] == source
  {
    ["ffmpeg", "-ss", time, "-i", source, "-pix_fmt", "yuvj420p", "-frames", "1",
     "-vf", filter, output, "-hide_banner"]
  }

  /** `extract_image_from_video`: seek, then write exactly one frame. */
  function ExtractImage(source: string, output: string, x: int, y: int, time: string): (r: seq<string>)
    ensures |r| == 13 && r[2] == time && r[4] == source && r[11] == output
    ensures r[7] == "-frames" && r[8] == "1"
    ensures r[9] == "-vf" && r[10] == Scale(x, y)
  {
    var filter := Scale(x, y);
    var r := ExtractArgs(source, filter, output, time);
    assert r[10] == filter;
    r
  }

  /** The options a video argument list carries, for any filter text that is not itself a flag. */
  lemma VideoArgsOptions(source: string, filter: string, fps: string, output: string)
    requires source != "-vf" && source != "-r" && filter != "-r"
    ensures var c := VideoArgs(source, filter, fps, output);
      ValueAfter(c, "-i") == Some(source) && ValueAfter(c, "-vf") == Some(filter)
      && ValueAfter(c, "-r") == Some(fps)
  {
    var c := VideoArgs(source, filter, fps, output);
    assert ValueAfter(c, "-i") == Some(c[2]) by { ValueAfterAt(c, "-i", 1); }
    assert ValueAfter(c, "-vf") == Some(c[10]) by { ValueAfterAt(c, "-vf", 9); }
    assert ValueAfter(c, "-r") == Some(c[12]) by { ValueAfterAt(c, "-r", 11); }
  }

  /** What ffmpeg reads from a video command: its input, scale filter and frame rate. */
  lemma VideoCommandOptions(source: string, output: string, x: int, y: int, fps: string)
    requires source != "-vf" && source != "-r"
    ensures var c := ConvertVideo(source, output, x, y, fps);
      ValueAfter(c, "-i") == Some(source) && ValueAfter(c, "-vf") == Some(Scale(x, y))
      && ValueAfter(c, "-r") == Some(fps)
  {
    assert Scale(x, y)[0] == 's';
    VideoArgsOptions(source, Scale(x, y), fps, output);
  }

  /** The options a sequence argument list carries. */
  lemma SequenceArgsOptions(start: string, input: string, filter: string, fps: string, output: string)
    requires start != "-i" && start != "-pix_fmt" && input != "-pix_fmt"
    ensures var c := SequenceArgs(start, input, filter, fps, output);
      ValueAfter(c, "-start_number") == Some(start) && ValueAfter(c, "-i") == Some(input)
      && ValueAfter(c, "-pix_fmt") == Some("yuv420p")
  {
    var c := SequenceArgs(start, input, filter, fps, output);
    assert ValueAfter(c, "-start_number") == Some(c[2]) by { ValueAfterAt(c, "-start_number", 1); }
    assert ValueAfter(c, "-i") == Some(c[4]) by { ValueAfterAt(c, "-i", 3); }
    assert ValueAfter(c, "-pix_fmt") == Some(c[8]) by { ValueAfterAt(c, "-pix_fmt", 7); }
  }

  /** What ffmpeg reads from a sequence command: the start frame, the input and yuv420p. */
  lemma SequenceCommandOptions(source: string, output: string, x: int, y: int, start: string, fps: string)
    requires start != "-i" && start != "-pix_fmt" && SequenceInput(source) != "-pix_fmt"
    ensures var c := ConvertImageSequence(source, output, x, y, start, fps);
      ValueAfter(c, "-start_number") == Some(start) && ValueAfter(c, "-i") == Some(SequenceInput(source))
      && ValueAfter(c, "-pix_fmt") == Some("yuv420p")
  {
    SequenceArgsOptions(start, SequenceInput(source), Scale(x, y), fps, output);
  }

  /** Unlike the video argument list, a sequence argument list asks for no fast-start layout. */
  lemma SequenceArgsNoFastStart(start: string, input: string, filter: string, fps: string, output: string)
    requires start != "-movflags" && input != "-movflags" && filter != "-movflags"
    requires output != "-movflags" && fps != "-movflags"
    ensures "-movflags" !in SequenceArgs(start, input, filter, fps, output)
    ensures "-movflags" in VideoArgs(input, filter, fps, output)
  {
    assert VideoArgs(input, filter, fps, output)[5] == "-movflags";
  }

  /** Unlike the video command, a sequence command asks for no fast-start layout. */
  lemma SequenceCommandNoFastStart(source: string, output: string, x: int, y: int, start: string, fps: string)
    requires start != "-movflags" && SequenceInput(source) != "-movflags"
    requires output != "-movflags" && fps != "-movflags"
    ensures "-movflags" !in ConvertImageSequence(source, output, x, y, start, fps)
    ensures "-movflags" in ConvertVideo(source, output, x, y, fps)
  {
    assert Scale(x, y)[0] == 's';
    SequenceArgsNoFastStart(start, SequenceInput(source), Scale(x, y), fps, output);
    assert VideoArgs(source, Scale(x, y), fps, output)[5] == "-movflags";
  }

  /** A sequence text `path start-end` feeds ffmpeg the path alone. */
  lemma SequenceCommandInput(base: string, range: string, output: string, x: int, y: int, start: string, fps: string)
    requires ' ' !in range
    ensures ConvertImageSequence(base + " " + range, output, x, y, start, fps)[4] == base
  {
    RSplitOnceLast(base, ' ', range);
    assert base + " " + range == base + [' '] + range;
    assert SequenceInput(base + " " + range) == base;
  }

  /** The options an extraction argument list carries. */
  lemma ExtractArgsOptions(source: string, filter: string, output: string, time: string)
    requires time != "-i" && time != "-frames" && source != "-frames"
    ensures var c := ExtractArgs(source, filter, output, time);
      ValueAfter(c, "-ss") == Some(time) && ValueAfter(c, "-i") == Some(source)
      && ValueAfter(c, "-frames") == Some("1")
  {
    var c := ExtractArgs(source, filter, output, time);
    assert ValueAfter(c, "-ss") == Some(c[2]) by { ValueAfterAt(c, "-ss", 1); }
    assert ValueAfter(c, "-i") == Some(c[4]) by { ValueAfterAt(c, "-i", 3); }
    assert ValueAfter(c, "-frames") == Some(c[8]) by { ValueAfterAt(c, "-frames", 7); }
  }

  /** What ffmpeg reads from an extraction command: the seek time, the input, and a single frame. */
  lemma ExtractCommandOptions(source: string, output: string, x: int, y: int, time: string)
    requires time != "-i" && time != "-frames" && source != "-frames"
    ensures var c := ExtractImage(source, output, x, y, time);
      ValueAfter(c, "-ss") == Some(time) && ValueAfter(c, "-i") == Some(source)
      && ValueAfter(c, "-frames") == Some("1")
  {
    ExtractArgsOptions(source, Scale(x, y), output, time);
  }

  /** What ffmpeg reads from an image command. */
  lemma ImageCommandOptions(source: string, output: string, x: int, y: int)
    requires source != "-vf"
    ensures var c := ConvertImage(source, output, x, y);
      ValueAfter(c, "-i") == Some(source) && ValueAfter(c, "-vf") == Some(Scale(x, y))
  {
    var c := ConvertImage(source, output, x, y);
    assert ValueAfter(c, "-i") == Some(c[2]) by { ValueAfterAt(c, "-i", 1); }
    assert ValueAfter(c, "-vf") == Some(c[4]) by { ValueAfterAt(c, "-vf", 3); }
  }

  /** What ffprobe reads from the probe command. */
  lemma ProbeCommandOptions(source: string)
    ensures var c := ProbeCommand(source);
      ValueAfter(c, "-i") == Some(source) && ValueAfter(c, "-print_format") == Some("json")
      && ValueAfter(c, "-loglevel") == Some("0")
  {
    var c := ProbeCommand(source);
    assert ValueAfter(c, "-loglevel") == Some(c[2]) by { ValueAfterAt(c, "-loglevel", 1); }
    assert ValueAfter(c, "-print_format") == Some(c[4]) by { ValueAfterAt(c, "-print_format", 3); }
    assert ValueAfter(c, "-i") == Some(c[8]) by { ValueAfterAt(c, "-i", 7); }
  }
}
