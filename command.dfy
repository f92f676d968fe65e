/** The FFmpeg command line `convert` builds (Main_Adv2.py:383-386, 424-444): one string
    handed to `subprocess.Popen`. The adjacent f-string pieces amount to `cmd /c` glued to
    the FFmpeg path (no space follows `/c`) and then a list of words joined by single
    spaces; the framerate option is one of those words, so when it is empty two spaces
    meet. */
module Command {
  import opened Text
  import opened Decimal

  /** The encoder settings read from the window's spin boxes. The bitrate is taken as the
      text of its spin box, the frame rate and quality factor as their integer values. */
  datatype Settings = Settings(bitrateEnabled: bool, bitrateText: string, frameRate: int, crf: int)

  /** The `-b:v` value: the spin box text when the bitrate box is enabled, the integer 0
      otherwise, which the f-string prints as `0`. */
  function BitrateArgument(s: Settings): string {
    if s.bitrateEnabled then s.bitrateText else "0"
  }

  /** The `-framerate` option, present only when the extension recorded when the input
      was browsed is exactly `.png`. */
  function FramerateFilter(ext: string, frameRate: int): string {
    if ext == ".png" then "-framerate " + IntToString(frameRate) else []
  }

  /** The quoted filter chain: frame rate, a 512x512 box keeping the aspect ratio, and a
      pixel format with alpha. */
  function VideoFilter(frameRate: int): string {
    "\"fps=" + IntToString(frameRate) + ",scale=512:512" + ":force_original_aspect_ratio=decrease" + ",format=yuva420p\""
  }

  /** The words before the framerate option. */
  function FrontWords(ffmpeg: string, input: string, frameRate: int): (ws: seq<string>)
    ensures |ws| == 5
  {
    [ffmpeg, "-i", input, "-vf", VideoFilter(frameRate)]
  }

  /** The words after the framerate option. */
  function BackWords(output: string, s: Settings): (ws: seq<string>)
    ensures |ws| == 18
  {
    ["-c:v", "libvpx-vp9", "-pix_fmt", "yuva420p", "-b:v", BitrateArgument(s), "-crf", IntToString(s.crf),
     "-deadline", "best", "-cpu-used", "0", "-y", "-an", output, "||", "cmd", "/k\""]
  }

  /** The command string of Main_Adv2.py:429-444. */
  function BuildCommand(ffmpeg: string, input: string, output: string, ext: string, s: Settings): string {
    "cmd /c" + Join(FrontWords(ffmpeg, input, s.frameRate) + [FramerateFilter(ext, s.frameRate)] + BackWords(output, s), ' ')
  }

  /** The words a reader splitting the command at spaces sees in the framerate slot. */
  function FramerateWords(ext: string, frameRate: int): seq<string> {
    if ext == ".png" then ["-framerate", IntToString(frameRate)] else [[]]
  }

  predicate NoSpaces(ws: seq<string>) { forall k :: 0 <= k < |ws| ==> ' ' !in ws[k] }

  lemma NumeralHasNoSpace(n: int)
    ensures ' ' !in IntToString(n)
  {
    var d := NatToString(if n >= 0 then n else -n);
    assert forall k :: 0 <= k < |d| ==> d[k] != ' ';
  }

  lemma FilterHasNoSpace(frameRate: int)
    ensures ' ' !in VideoFilter(frameRate)
  {
    NumeralHasNoSpace(frameRate);
    var a, b, c, d := "\"fps=", ",scale=512:512", ":force_original_aspect_ratio=decrease", ",format=yuva420p\"";
    assert ' ' !in a && ' ' !in b;
    assert ' ' !in c;
    assert ' ' !in d;
  }

  lemma FixedWordsHaveNoSpaces(ffmpeg: string, input: string, output: string, s: Settings)
    requires ' ' !in ffmpeg && ' ' !in input && ' ' !in output && ' ' !in BitrateArgument(s)
    ensures NoSpaces(FrontWords(ffmpeg, input, s.frameRate)) && NoSpaces(BackWords(output, s))
  {
    FilterHasNoSpace(s.frameRate);
    NumeralHasNoSpace(s.crf);
    var codec, tuning, ending := CodecWords(), TuningWords(), EndingWords();
    var middle := [BitrateArgument(s), "-crf", IntToString(s.crf)];
    assert BackWords(output, s) == codec + middle + tuning + [output] + ending;
    CodecWordsHaveNoSpaces();
    TuningWordsHaveNoSpaces();
    EndingWordsHaveNoSpaces();
    assert NoSpaces(middle) && NoSpaces([output]);
    NoSpacesAppend(codec, middle);
    NoSpacesAppend(codec + middle, tuning);
    NoSpacesAppend(codec + middle + tuning, [output]);
    NoSpacesAppend(codec + middle + tuning + [output], ending);
  }

  function CodecWords(): seq<string> { ["-c:v", "libvpx-vp9", "-pix_fmt", "yuva420p", "-b:v"] }

  function TuningWords(): seq<string> { ["-deadline", "best", "-cpu-used", "0", "-y", "-an"] }

  function EndingWords(): seq<string> { ["||", "cmd", "/k\""] }

  lemma CodecWordsHaveNoSpaces()
    ensures NoSpaces(CodecWords())
  {
  }

  lemma TuningWordsHaveNoSpaces()
    ensures NoSpaces(TuningWords())
  {
  }

  lemma EndingWordsHaveNoSpaces()
    ensures NoSpaces(EndingWords())
  {
  }

  lemma NoSpacesAppend(a: seq<string>, b: seq<string>)
    requires NoSpaces(a) && NoSpaces(b)
    ensures NoSpaces(a + b)
  {
    assert forall k :: |a| <= k < |a + b| ==> (a + b)[k] == b[k - |a|];
  }

  /** Joining a list around one middle word. */
  lemma {:induction false} JoinAround(a: seq<string>, x: string, b: seq<string>, c: char)
    requires |a| >= 1 && |b| >= 1
    ensures Join(a + [x] + b, c) == Join(a, c) + [c] + x + [c] + Join(b, c)
  {
    if |a| == 1 {
      assert (a + [x] + b)[1..] == [x] + b;
      assert ([x] + b)[1..] == b;
    } else {
      assert (a + [x] + b)[1..] == a[1..] + [x] + b;
      JoinAround(a[1..], x, b, c);
    }
  }

  /** Splitting a joined list whose words hold no separator, except perhaps one middle
      word, gives back the words, with the middle one split in turn. */
  lemma SplitAroundWord(a: seq<string>, x: string, b: seq<string>, c: char)
    requires |a| >= 1 && |b| >= 1
    requires forall k :: 0 <= k < |a| ==> c !in a[k]
    requires forall k :: 0 <= k < |b| ==> c !in b[k]
    ensures Split(Join(a + [x] + b, c), c) == a + Split(x, c) + b
  {
    JoinAround(a, x, b, c);
    var ja, jb := Join(a, c), Join(b, c);
    assert ja + [c] + x + [c] + jb == ja + [c] + (x + [c] + jb);
    SplitAround(ja, x + [c] + jb, c);
    SplitAround(x, jb, c);
    SplitJoin(a, c);
    SplitJoin(b, c);
  }

  /** The framerate option splits into its two words, or into one empty word. */
  lemma FramerateSplit(ext: string, frameRate: int)
    ensures Split(FramerateFilter(ext, frameRate), ' ') == FramerateWords(ext, frameRate)
  {
    if ext == ".png" {
      NumeralHasNoSpace(frameRate);
      var key, n := "-framerate", IntToString(frameRate);
      assert ' ' !in key by {
        assert forall k :: 0 <= k < |key| ==> key[k] != ' ';
      }
      assert FramerateFilter(ext, frameRate) == key + [' '] + n;
      SplitTwoWords(key, n, ' ');
    }
  }

  /** Two words without the separator, joined by it, split back into the two. */
  lemma SplitTwoWords(a: string, b: string, c: char)
    requires c !in a && c !in b
    ensures Split(a + [c] + b, c) == [a, b]
  {
    SplitAround(a, b, c);
    SplitWord(a, c);
    SplitWord(b, c);
  }

  /** When the paths and the bitrate text hold no space, splitting the command after
      `cmd /c` at spaces gives back the FFmpeg path, `-i` and the input, the filter chain,
      `-framerate` and the frame rate exactly when the extension is `.png` (an empty word
      otherwise), then the codec options with `-b:v` and its value, `-crf` and its value,
      and the output. */
  lemma CommandWords(ffmpeg: string, input: string, output: string, ext: string, s: Settings)
    requires ' ' !in ffmpeg && ' ' !in input && ' ' !in output && ' ' !in BitrateArgument(s)
    ensures StartsWith(BuildCommand(ffmpeg, input, output, ext, s), "cmd /c" + ffmpeg)
    ensures Split(BuildCommand(ffmpeg, input, output, ext, s)[6..], ' ')
         == FrontWords(ffmpeg, input, s.frameRate) + FramerateWords(ext, s.frameRate) + BackWords(output, s)
  {
    var front, back := FrontWords(ffmpeg, input, s.frameRate), BackWords(output, s);
    var f := FramerateFilter(ext, s.frameRate);
    var joined := Join(front + [f] + back, ' ');
    var cmd := BuildCommand(ffmpeg, input, output, ext, s);
    assert cmd == "cmd /c" + joined && cmd[6..] == joined;
    assert (front + [f] + back)[0] == ffmpeg;
    assert joined == ffmpeg + [' '] + Join((front + [f] + back)[1..], ' ');
    assert cmd[..6 + |ffmpeg|] == "cmd /c" + ffmpeg;
    FixedWordsHaveNoSpaces(ffmpeg, input, output, s);
    SplitAroundWord(front, f, back, ' ');
    FramerateSplit(ext, s.frameRate);
  }

  /** Read on the words: the input follows `-i`; `-framerate` stands in the slot after the
      filter chain iff the extension is `.png`; `-b:v` is followed by the bitrate, which is
      `0` when the bitrate box is disabled; `-crf` is followed by the quality factor; the
      output comes four words before the end. */
  lemma CommandArguments(ffmpeg: string, input: string, output: string, ext: string, s: Settings)
    requires ' ' !in ffmpeg && ' ' !in input && ' ' !in output && ' ' !in BitrateArgument(s)
    ensures var ws := Split(BuildCommand(ffmpeg, input, output, ext, s)[6..], ' ');
      var k := if ext == ".png" then 1 else 0;
      && |ws| == 24 + k
      && ws[0] == ffmpeg && ws[1] == "-i" && ws[2] == input
      && (ws[5] == "-framerate" <==> ext == ".png")
      && (ext == ".png" ==> ws[6] == IntToString(s.frameRate))
      && ws[10 + k] == "-b:v" && ws[11 + k] == BitrateArgument(s)
      && (s.bitrateEnabled ==> ws[11 + k] == s.bitrateText)
      && (!s.bitrateEnabled ==> ws[11 + k] == "0")
      && ws[12 + k] == "-crf" && ws[13 + k] == IntToString(s.crf)
      && ws[|ws| - 4] == output
  {
    CommandWords(ffmpeg, input, output, ext, s);
  }
}
