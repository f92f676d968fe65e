/** The conversion supervisor of `convert` in Main_Adv2.py: the ordered validation
    chain (372-422), the pump that reads FFmpeg's error stream line by line and emits
    progress (462-485), the events that close a run (485-495) and the classification of
    the exit code (499-517). */
module Supervisor {
  import opened Text
  import SequencePattern
  import Progress

  // ---- validation (372-422) ----

  /** Why `convert` returns before launching FFmpeg, one per warning it shows. */
  datatype Rejection =
    | FfmpegNotFound
    | InputMissing
    | NoImagesFound(globPattern: string)
    | MediaInfoUnknown
    | OutputMissing
    | BadOutputExtension

  /** What `get_mov_duration_and_frame_count` returned for a clip. */
  datatype MediaInfo = MediaInfo(duration: Option<Progress.Seconds>, frames: Option<nat>)

  /** The totals the progress parser divides by. */
  datatype Totals = Totals(frames: Option<nat>, duration: Option<Progress.Seconds>)

  datatype Verdict = Accepted(totals: Totals) | Rejected(reason: Rejection)

  predicate FfmpegFound(ffmpegPath: string, ffmpegIsFile: bool) { ffmpegPath != [] && ffmpegIsFile }

  /** An image sequence needs at least one file matching its glob, a clip a frame count. */
  predicate MediaKnown(input: string, matchCount: nat, probe: MediaInfo) {
    if SequencePattern.IsSequence(input) then matchCount > 0 else probe.frames.Some?
  }

  /** `output.lower().endswith('.webm')`. */
  predicate WebmOutput(output: string) { EndsWith(Lower(output), ".webm") }

  /** The checks of `convert` in their order. `matchCount` is the number of files the glob
      of an image-sequence input matches, `probe` what the probe found for a clip. */
  function Validate(ffmpegPath: string, ffmpegIsFile: bool, input: string, output: string,
                    matchCount: nat, probe: MediaInfo): (v: Verdict)
    ensures v == Rejected(FfmpegNotFound) <==> !FfmpegFound(ffmpegPath, ffmpegIsFile)
    ensures v == Rejected(InputMissing) <==> FfmpegFound(ffmpegPath, ffmpegIsFile) && input == []
    ensures (v.Rejected? && (v.reason.NoImagesFound? || v.reason == MediaInfoUnknown))
        <==> FfmpegFound(ffmpegPath, ffmpegIsFile) && input != [] && !MediaKnown(input, matchCount, probe)
    ensures v.Rejected? && v.reason.NoImagesFound? ==>
              SequencePattern.IsSequence(input) && v.reason.globPattern == SequencePattern.Glob(input)
    ensures v == Rejected(OutputMissing)
        <==> FfmpegFound(ffmpegPath, ffmpegIsFile) && input != [] && MediaKnown(input, matchCount, probe) && output == []
    ensures v == Rejected(BadOutputExtension)
        <==> FfmpegFound(ffmpegPath, ffmpegIsFile) && input != [] && MediaKnown(input, matchCount, probe) && output != []
             && !WebmOutput(output)
    ensures v.Accepted?
        <==> FfmpegFound(ffmpegPath, ffmpegIsFile) && input != [] && MediaKnown(input, matchCount, probe) && output != []
             && WebmOutput(output)
    ensures v.Accepted? && SequencePattern.IsSequence(input) ==> v.totals == Totals(Some(matchCount), None)
    ensures v.Accepted? && !SequencePattern.IsSequence(input) ==> v.totals == Totals(probe.frames, probe.duration)
  {
    if !FfmpegFound(ffmpegPath, ffmpegIsFile) then Rejected(FfmpegNotFound)
    else if input == [] then Rejected(InputMissing)
    else if SequencePattern.IsSequence(input) && matchCount == 0 then
      Rejected(NoImagesFound(SequencePattern.Glob(input)))
    else if !SequencePattern.IsSequence(input) && probe.frames.None? then Rejected(MediaInfoUnknown)
    else if output == [] then Rejected(OutputMissing)
    else if !WebmOutput(output) then Rejected(BadOutputExtension)
    else if SequencePattern.IsSequence(input) then Accepted(Totals(Some(matchCount), None))
    else Accepted(Totals(probe.frames, probe.duration))
  }

  /** One check of the chain: whether it passes and what it reports when it does not. */
  datatype Check = Check(passes: bool, reason: Rejection)

  /** The chain as data, in the order the source runs it. */
  function Checks(ffmpegPath: string, ffmpegIsFile: bool, input: string, output: string,
                  matchCount: nat, probe: MediaInfo): seq<Check>
  {
    [ Check(FfmpegFound(ffmpegPath, ffmpegIsFile), FfmpegNotFound),
      Check(input != [], InputMissing),
      Check(MediaKnown(input, matchCount, probe),
            if SequencePattern.IsSequence(input) then NoImagesFound(SequencePattern.Glob(input)) else MediaInfoUnknown),
      Check(output != [], OutputMissing),
      Check(WebmOutput(output), BadOutputExtension) ]
  }

  /** The reason of the first check that fails, if any. */
  function FirstFailure(checks: seq<Check>): (r: Option<Rejection>)
    ensures r.None? <==> forall k :: 0 <= k < |checks| ==> checks[k].passes
  {
    if checks == [] then None
    else if !checks[0].passes then Some(checks[0].reason)
    else FirstFailure(checks[1..])
  }

  /** Validate reports exactly the first failing check of the chain, and accepts when
      every check passes. */
  lemma ValidateFirstFailure(ffmpegPath: string, ffmpegIsFile: bool, input: string, output: string,
                             matchCount: nat, probe: MediaInfo)
    ensures var first := FirstFailure(Checks(ffmpegPath, ffmpegIsFile, input, output, matchCount, probe));
      && (Validate(ffmpegPath, ffmpegIsFile, input, output, matchCount, probe).Accepted? <==> first.None?)
      && (first.Some? ==> Validate(ffmpegPath, ffmpegIsFile, input, output, matchCount, probe) == Rejected(first.value))
  {
    var cs := Checks(ffmpegPath, ffmpegIsFile, input, output, matchCount, probe);
    assert FirstFailure(cs[4..]) == if cs[4].passes then None else Some(cs[4].reason);
    assert FirstFailure(cs[3..]) == if cs[3].passes then FirstFailure(cs[4..]) else Some(cs[3].reason);
    assert FirstFailure(cs[2..]) == if cs[2].passes then FirstFailure(cs[3..]) else Some(cs[2].reason);
    assert FirstFailure(cs[1..]) == if cs[1].passes then FirstFailure(cs[2..]) else Some(cs[1].reason);
  }

  // ---- the progress pump (462-485) ----

  /** Length of what `readline` returns from the stream `rest`: up to and including the
      first line break, or all of it. */
  function LineLength(rest: string): (n: nat)
    ensures n <= |rest|
    ensures n == 0 <==> rest == []
    ensures forall k :: 0 <= k < n - 1 ==> rest[k] != '\n'
    ensures n < |rest| ==> rest[n - 1] == '\n'
  {
    if rest == [] then 0 else if rest[0] == '\n' then 1 else 1 + LineLength(rest[1..])
  }

  /** `proc.stderr.readline()` on the text still in the pipe. */
  function ReadLine(rest: string): string {
    rest[..LineLength(rest)]
  }

  datatype Event = ProgressEvent(percent: real) | FinishedEvent(success: bool)

  /** The progress event, if any, that one raw line yields after `strip()`. */
  function LineEvents(raw: string, mode: Progress.Mode, totals: Totals): (es: seq<Event>)
    ensures |es| <= 1
    ensures forall k :: 0 <= k < |es| ==> es[k].ProgressEvent? && 0.0 <= es[k].percent <= 100.0
  {
    match Progress.LineProgress(Strip(raw), mode, totals.frames, totals.duration)
    case None => []
    case Some(p) => [ProgressEvent(p)]
  }

  /** The events the pump emits while reading the stream `rest` to its end. */
  function StreamEvents(rest: string, mode: Progress.Mode, totals: Totals): seq<Event>
    decreases |rest|
  {
    if rest == [] then []
    else
      var raw := ReadLine(rest);
      LineEvents(raw, mode, totals) + StreamEvents(rest[|raw|..], mode, totals)
  }

  /** The stream's events are those of its first line followed by those of the rest. */
  lemma StreamStep(rest: string, mode: Progress.Mode, totals: Totals)
    requires rest != []
    ensures StreamEvents(rest, mode, totals)
         == LineEvents(ReadLine(rest), mode, totals) + StreamEvents(rest[|ReadLine(rest)|..], mode, totals)
  {
  }

  lemma AppendAssoc<T>(a: seq<T>, b: seq<T>, c: seq<T>)
    ensures (a + b) + c == a + (b + c)
  {
  }

  /** Reading one more line keeps the events emitted so far, followed by those of the
      stream still to read, equal to the events of the whole stream. */
  lemma PumpStep(stderr: string, rest: string, events: seq<Event>, mode: Progress.Mode, totals: Totals)
    requires rest != []
    requires events + StreamEvents(rest, mode, totals) == StreamEvents(stderr, mode, totals)
    ensures (events + LineEvents(ReadLine(rest), mode, totals)) + StreamEvents(rest[|ReadLine(rest)|..], mode, totals)
         == StreamEvents(stderr, mode, totals)
  {
    StreamStep(rest, mode, totals);
    AppendAssoc(events, LineEvents(ReadLine(rest), mode, totals), StreamEvents(rest[|ReadLine(rest)|..], mode, totals));
  }

  /** `monitor_progress`: read lines until `readline` returns the empty string, emit a
      percentage for every line the parser understands, then emit 100. Returns the events
      and what is left in the pipe. */
  method PumpProgress(stderr: string, mode: Progress.Mode, totals: Totals) returns (events: seq<Event>, rest: string)
    ensures events == StreamEvents(stderr, mode, totals) + [ProgressEvent(100.0)]
    ensures rest == []
  {
    events := [];
    rest := stderr;
    while true
      invariant events + StreamEvents(rest, mode, totals) == StreamEvents(stderr, mode, totals)
      decreases |rest|
    {
      var raw := ReadLine(rest);
      if raw == [] {
        break;
      }
      var line := Strip(raw);
      var pct := Progress.LineProgress(line, mode, totals.frames, totals.duration);
      PumpStep(stderr, rest, events, mode, totals);
      if pct.Some? {
        assert LineEvents(raw, mode, totals) == [ProgressEvent(pct.value)];
        events := events + [ProgressEvent(pct.value)];
      } else {
        assert events + LineEvents(raw, mode, totals) == events;
      }
      rest := rest[|raw|..];
    }
    events := events + [ProgressEvent(100.0)];
  }

  /** Events that are all percentages in [0, 100]. */
  predicate PercentsOnly(es: seq<Event>) {
    forall k :: 0 <= k < |es| ==> es[k].ProgressEvent? && 0.0 <= es[k].percent <= 100.0
  }

  lemma PercentsAppend(a: seq<Event>, b: seq<Event>)
    requires PercentsOnly(a) && PercentsOnly(b)
    ensures PercentsOnly(a + b)
  {
  }

  /** All the stream yields are percentages in [0, 100]; none of it is a finished event. */
  lemma {:induction false} StreamEventsBounded(rest: string, mode: Progress.Mode, totals: Totals)
    ensures PercentsOnly(StreamEvents(rest, mode, totals))
    decreases |rest|
  {
    if rest != [] {
      var raw := ReadLine(rest);
      StreamStep(rest, mode, totals);
      StreamEventsBounded(rest[|raw|..], mode, totals);
      PercentsAppend(LineEvents(raw, mode, totals), StreamEvents(rest[|raw|..], mode, totals));
    }
  }

  /** Reference reading of the pump: split the stream into its lines the way
      `splitlines` does and parse each of them once, in order. */
  function ParseLines(lines: seq<string>, mode: Progress.Mode, totals: Totals): seq<Event> {
    if lines == [] then [] else LineEvents(lines[0], mode, totals) + ParseLines(lines[1..], mode, totals)
  }

  /** A line as `readline` returns it, without its line break. */
  function Chomp(raw: string): string {
    if raw != [] && raw[|raw| - 1] == '\n' then raw[..|raw| - 1] else raw
  }

  /** The line `readline` returns first is, without its line break, the first of the
      stream's lines, and the line break does not survive `strip()`. */
  lemma LinesStep(rest: string)
    requires rest != []
    ensures Lines(rest) == [Chomp(ReadLine(rest))] + Lines(rest[|ReadLine(rest)|..])
    ensures Strip(ReadLine(rest)) == Strip(Chomp(ReadLine(rest)))
  {
    var n := LineLength(rest);
    var raw := ReadLine(rest);
    var next := rest[n..];
    if rest[n - 1] == '\n' {
      var piece := rest[..n - 1];
      assert raw == piece + ['\n'];
      assert rest == piece + "\n" + next;
      LinesAfterBreak(piece, next);
      StripAppendSpace(piece, '\n');
    } else {
      assert n == |rest| && raw == rest && Chomp(raw) == rest;
      LinesWithoutBreak(rest);
      assert next == [] && Lines(next) == [];
    }
  }

  /** Reading with `readline` until the stream is empty sees every line of the stream
      exactly once and in order: the pump's events are those of the stream's lines. */
  lemma {:induction false} StreamEventsLines(rest: string, mode: Progress.Mode, totals: Totals)
    ensures StreamEvents(rest, mode, totals) == ParseLines(Lines(rest), mode, totals)
    decreases |rest|
  {
    if rest != [] {
      var raw := ReadLine(rest);
      StreamStep(rest, mode, totals);
      StreamEventsLines(rest[|raw|..], mode, totals);
      LinesStep(rest);
      var ls := Lines(rest);
      assert ls[0] == Chomp(raw) && ls[1..] == Lines(rest[|raw|..]);
      assert LineEvents(raw, mode, totals) == LineEvents(ls[0], mode, totals);
    }
  }

  /** A stream holding one line and its line break yields that line's events. */
  lemma StreamOneLine(line: string, mode: Progress.Mode, totals: Totals)
    requires '\n' !in line
    ensures StreamEvents(line + "\n", mode, totals) == LineEvents(line, mode, totals)
  {
    StreamEventsLines(line + "\n", mode, totals);
    LinesAfterBreak(line, []);
    assert line + "\n" + [] == line + "\n";
    assert Lines([]) == [];
    assert ParseLines([line], mode, totals) == LineEvents(line, mode, totals) + ParseLines([], mode, totals);
  }

  /** A line without surrounding white space that the parser reads as p yields exactly
      the event p. */
  lemma LineEventsOf(line: string, mode: Progress.Mode, totals: Totals, p: real)
    requires Strip(line) == line
    requires Progress.LineProgress(line, mode, totals.frames, totals.duration) == Some(p)
    ensures LineEvents(line, mode, totals) == [ProgressEvent(p)]
  {
  }

  // ---- closing a run (485-517) ----

  /** Exit code of a process ended by Ctrl+C or a closed console on Windows
      (STATUS_CONTROL_C_EXIT), which `convert` treats as a manual close. */
  const ControlCExit: int := 0xC000013A

  datatype Report =
    | Succeeded(output: string)
    | ClosedManually
    | Failed(code: int, lines: seq<string>)

  /** `stderr.strip().splitlines()[-5:]`. */
  function LastLines(stderr: string): (ls: seq<string>)
    ensures |ls| <= 5
    ensures var all := Lines(Strip(stderr)); |ls| <= |all| && all == all[..|all| - |ls|] + ls
    ensures |ls| == 5 || ls == Lines(Strip(stderr))
  {
    LastN(Lines(Strip(stderr)), 5)
  }

  /** The outcome the exit code selects, given what `communicate` returned on stderr. */
  function Classify(code: int, stderr: string, output: string): (r: Report)
    ensures r.Succeeded? <==> code == 0
    ensures r.Succeeded? ==> r.output == output
    ensures r.ClosedManually? <==> code == ControlCExit
    ensures r.Failed? <==> code != 0 && code != ControlCExit
    ensures r.Failed? ==> r.code == code && r.lines == LastLines(stderr)
  {
    if code == ControlCExit then ClosedManually
    else if code != 0 then Failed(code, LastLines(stderr))
    else Succeeded(output)
  }

  /** The message shown for a failure joins the detail lines with line breaks. */
  function FailureDetails(r: Report): string
    requires r.Failed?
  {
    Join(r.lines, '\n')
  }

  /** The message lists the last lines of the error stream one per line: splitting it at
      line breaks gives them back. */
  lemma FailureDetailsLines(code: int, stderr: string, output: string)
    requires code != 0 && code != ControlCExit && LastLines(stderr) != []
    ensures Split(FailureDetails(Classify(code, stderr, output)), '\n') == LastLines(stderr)
  {
    var all, ls := Lines(Strip(stderr)), LastLines(stderr);
    assert forall k :: 0 <= k < |ls| ==> ls[k] == all[|all| - |ls| + k];
    SplitJoin(ls, '\n');
  }

  /** The pump has already read the error stream to its end, so `communicate` returns an
      empty stderr and a failure carries no detail lines at all. */
  lemma DrainedDetailsEmpty(code: int, output: string)
    requires code != 0 && code != ControlCExit
    ensures Classify(code, [], output) == Failed(code, [])
  {
  }

  /** Every event of a launched run: the pump's percentages, its 100, the 100 emitted after
      `communicate`, and the finished event carrying `returncode == 0`. */
  function RunEvents(stderr: string, mode: Progress.Mode, totals: Totals, code: int): seq<Event> {
    StreamEvents(stderr, mode, totals) + [ProgressEvent(100.0), ProgressEvent(100.0), FinishedEvent(code == 0)]
  }

  /** A run emits only percentages in [0, 100] before exactly one finished event, which
      comes last, reports success iff the exit code is 0, and follows two 100 events. */
  lemma RunEventsShape(stderr: string, mode: Progress.Mode, totals: Totals, code: int)
    ensures var es := RunEvents(stderr, mode, totals, code);
      && |es| >= 3
      && es[|es| - 1] == FinishedEvent(code == 0)
      && es[|es| - 2] == ProgressEvent(100.0) && es[|es| - 3] == ProgressEvent(100.0)
      && PercentsOnly(es[..|es| - 1])
  {
    StreamEventsBounded(stderr, mode, totals);
    var s := StreamEvents(stderr, mode, totals);
    var es := RunEvents(stderr, mode, totals, code);
    assert es[..|es| - 1] == s + [ProgressEvent(100.0), ProgressEvent(100.0)];
    PercentsAppend(s, [ProgressEvent(100.0), ProgressEvent(100.0)]);
  }
}
