/** The main window of Main_Adv2.py as far as a conversion goes: the fields the
    browse and start handlers fill in, the registry of running conversions
    (`active_conversions`), the conversion thread `convert` and the cancel handler. */
module Window {
  import opened Text
  import Paths
  import SequencePattern
  import Progress
  import Command
  import Supervisor

  /** The text of `str(uuid.uuid4())`. */
  type TaskId = string

  /** A `threading.Thread` and a `subprocess.Popen` object, by identity. */
  type ThreadHandle = nat
  type ProcessHandle = nat

  /** One value of `active_conversions`: `{"thread": ..., "process": ...}`. */
  datatype Entry = Entry(thread: ThreadHandle, process: Option<ProcessHandle>)

  /** The FFmpeg location `start_conversion` always uses. */
  const DefaultFfmpegPath: string := "D:\\Script_D\\_FINAL\\PngSequence2Webm\\ffmpeg.exe"

  /** How `convert` ends. */
  datatype Outcome =
    | Stopped(reason: Supervisor.Rejection)  // a warning box; nothing is launched
    | ExtensionUnset                         // `self.ext` is read before any input was browsed
    | ConversionError                        // an exception caught by `convert`
    | Completed(report: Supervisor.Report)   // FFmpeg ran to its end

  /** What the part of `convert` before the pump leaves: how it ended early, or the run it
      launched with the command, the process, the progress mode and the totals. */
  datatype Launch =
    | Aborted(outcome: Outcome)
    | Started(command: string, process: ProcessHandle, mode: Progress.Mode, totals: Supervisor.Totals)

  /** The label of the progress dialog: both paths shortened, after `Source:` and
      `Output:` (seven characters each, so the `:<7` padding adds nothing). */
  function ProgressLabel(input: string, output: string): string {
    "Converting:\n" + "  Source: " + Paths.TruncatePathByFolder(input) + "\n"
    + "  Output: " + Paths.TruncatePathByFolder(output)
  }

  /** The label shows three lines: the heading, the shortened input, the shortened output. */
  lemma LabelLines(input: string, output: string)
    requires '\n' !in input && '\n' !in output
    ensures Lines(ProgressLabel(input, output))
         == ["Converting:", "  Source: " + Paths.TruncatePathByFolder(input),
             "  Output: " + Paths.TruncatePathByFolder(output)]
  {
    var heading, source, target := "Converting:", "  Source: ", "  Output: ";
    assert '\n' !in heading by {
      assert forall k :: 0 <= k < |heading| ==> heading[k] != '\n';
    }
    assert '\n' !in source && '\n' !in target by {
      assert forall k :: 0 <= k < |source| ==> source[k] != '\n';
      assert forall k :: 0 <= k < |target| ==> target[k] != '\n';
    }
    TruncateKeepsLine(input);
    TruncateKeepsLine(output);
    NoBreakConcat(source, Paths.TruncatePathByFolder(input));
    NoBreakConcat(target, Paths.TruncatePathByFolder(output));
    var a := source + Paths.TruncatePathByFolder(input);
    var b := target + Paths.TruncatePathByFolder(output);
    assert ProgressLabel(input, output) == heading + "\n" + (a + "\n" + b);
    ThreeLines(heading, a, b);
  }

  lemma NoBreakConcat(a: string, b: string)
    requires '\n' !in a && '\n' !in b
    ensures '\n' !in a + b
  {
  }

  /** Three lines without breaks, joined by breaks, are read back as the three. */
  lemma ThreeLines(x: string, a: string, b: string)
    requires '\n' !in x && '\n' !in a && '\n' !in b && b != []
    ensures Lines(x + "\n" + (a + "\n" + b)) == [x, a, b]
  {
    LinesAfterBreak(x, a + "\n" + b);
    LinesAfterBreak(a, b);
    LinesWithoutBreak(b);
  }

  /** Shortening a path adds no line break. */
  lemma TruncateKeepsLine(path: string)
    requires '\n' !in path
    ensures '\n' !in Paths.TruncatePathByFolder(path)
  {
    var parts := Split(path, Paths.Sep);
    if |parts| > 4 {
      SplitKeepsAbsent(path, Paths.Sep, '\n');
      JoinKeepsLine(parts[..2]);
      JoinKeepsLine(Paths.TakeLast(parts, 2));
    }
  }

  /** Joining pieces of a path without line breaks gives none. */
  lemma {:induction false} JoinKeepsLine(xs: seq<string>)
    requires forall k :: 0 <= k < |xs| ==> '\n' !in xs[k]
    ensures '\n' !in Join(xs, Paths.Sep)
  {
    if |xs| > 1 {
      JoinKeepsLine(xs[1..]);
    }
  }

  class MainWindow {
    /** The text of `QLineEdit_InputFile` and `QLineEdit_OutputFile`. */
    var inputField: string
    var outputField: string
    /** `self.ext`, which only `browse_input_file` sets. */
    var ext: Option<string>
    /** `self.ffmpeg_path`, `self.input_file`, `self.output_file`, set by `start_conversion`. */
    var ffmpegPath: string
    var inputFile: string
    var outputFile: string
    /** `self.active_conversions`. */
    var active: map<TaskId, Entry>

    constructor ()
      ensures inputField == [] && outputField == [] && ext == None
      ensures ffmpegPath == [] && inputFile == [] && outputFile == []
      ensures active == map[]
    {
      inputField, outputField, ext := [], [], None;
      ffmpegPath, inputFile, outputFile := [], [], [];
      active := map[];
    }

    /** `browse_input_file` with the path the dialog returned (empty when cancelled):
        records the extension and shows a `.png` frame as its sequence pattern. */
    method BrowseInputFile(path: string)
      modifies this`inputField, this`ext
      ensures path == [] ==> inputField == old(inputField) && ext == old(ext)
      ensures path != [] ==> ext == Some(Paths.Extension(path))
      ensures path != [] ==> inputField == SequencePattern.DerivePattern(path)
    {
      if path != [] {
        ext := Some(Paths.Extension(path));
        inputField := SequencePattern.DerivePattern(path);
      }
    }

    /** `browse_output_file` with the path the dialog returned (empty when cancelled). */
    method BrowseOutputFile(path: string)
      modifies this`outputField
      ensures path == [] ==> outputField == old(outputField)
      ensures path != [] ==> outputField == path
    {
      if path != [] {
        outputField := path;
      }
    }

    /** `start_conversion`: fixes the FFmpeg path, copies the two fields, registers the
        task with no process yet and returns the dialog label. Starting the thread is
        the caller's next step, `Convert`. */
    method StartConversion(id: TaskId, thread: ThreadHandle) returns (caption: string)
      modifies this`ffmpegPath, this`inputFile, this`outputFile, this`active
      ensures ffmpegPath == DefaultFfmpegPath
      ensures inputFile == inputField && outputFile == outputField
      ensures active == old(active)[id := Entry(thread, None)]
      ensures caption == ProgressLabel(inputField, outputField)
    {
      ffmpegPath := DefaultFfmpegPath;
      inputFile := inputField;
      outputFile := outputField;
      caption := ProgressLabel(inputFile, outputFile);
      active := active[id := Entry(thread, None)];
    }

    /** The verdict of the checks `convert` makes on the current fields. */
    function Verdict(ffmpegIsFile: bool, matchCount: nat, probe: Supervisor.MediaInfo): Supervisor.Verdict
      reads this
    {
      Supervisor.Validate(ffmpegPath, ffmpegIsFile, inputFile, outputFile, matchCount, probe)
    }

    /** `convert` up to and including the registration of the process. `ffmpegIsFile` is
        `os.path.isfile(self.ffmpeg_path)`, `matchCount` the number of files the glob
        matches, `probe` what the probe of a clip returned, and `spawn` the process
        `Popen` created, or None when it raised. */
    method Start(id: TaskId, settings: Command.Settings, ffmpegIsFile: bool, matchCount: nat,
                 probe: Supervisor.MediaInfo, spawn: Option<ProcessHandle>) returns (launch: Launch)
      modifies this`active
      ensures Verdict(ffmpegIsFile, matchCount, probe).Rejected? ==>
        launch == Aborted(Stopped(Verdict(ffmpegIsFile, matchCount, probe).reason)) && active == old(active)
      ensures Verdict(ffmpegIsFile, matchCount, probe).Accepted? && ext.None? ==>
        launch == Aborted(ExtensionUnset) && active == old(active)
      ensures Verdict(ffmpegIsFile, matchCount, probe).Accepted? && ext.Some? && (spawn.None? || id !in old(active)) ==>
        launch == Aborted(ConversionError) && active == old(active)
      ensures Verdict(ffmpegIsFile, matchCount, probe).Accepted? && ext.Some? && spawn.Some? && id in old(active) ==>
        && launch == Started(Command.BuildCommand(ffmpegPath, inputFile, outputFile, ext.value, settings), spawn.value,
                             Progress.ModeFor(inputFile), Verdict(ffmpegIsFile, matchCount, probe).totals)
        && active == old(active)[id := old(active)[id].(process := spawn)]
    {
      var v := Supervisor.Validate(ffmpegPath, ffmpegIsFile, inputFile, outputFile, matchCount, probe);
      if v.Rejected? {
        return Aborted(Stopped(v.reason));
      }
      if ext.None? {
        return Aborted(ExtensionUnset);
      }
      var command := Command.BuildCommand(ffmpegPath, inputFile, outputFile, ext.value, settings);
      if spawn.None? || id !in active {
        return Aborted(ConversionError);
      }
      active := active[id := active[id].(process := spawn)];
      launch := Started(command, spawn.value, Progress.ModeFor(inputFile), v.totals);
    }

    /** The rest of `convert` for a launched run: pump FFmpeg's error stream `stderr`,
        emit 100 and the finished event, drop the task from the registry and classify
        the exit code `code`. A task no longer registered makes the deletion raise, which
        `convert` reports as a conversion error after the events were emitted. */
    method Supervise(id: TaskId, launch: Launch, stderr: string, code: int)
      returns (events: seq<Supervisor.Event>, outcome: Outcome)
      requires launch.Started?
      modifies this`active
      ensures events == Supervisor.RunEvents(stderr, launch.mode, launch.totals, code)
      ensures id in old(active) ==>
        outcome == Completed(Supervisor.Classify(code, [], outputFile)) && active == old(active) - {id}
      ensures id !in old(active) ==> outcome == ConversionError && active == old(active)
    {
      var rest;
      events, rest := Supervisor.PumpProgress(stderr, launch.mode, launch.totals);
      events := events + [Supervisor.ProgressEvent(100.0), Supervisor.FinishedEvent(code == 0)];
      if id !in active {
        return events, ConversionError;
      }
      active := active - {id};
      outcome := Completed(Supervisor.Classify(code, rest, outputFile));
    }

    /** The whole thread `convert`: events are emitted only for a launched run, and the
        registry loses the task exactly when the run gets to its end. */
    method Convert(id: TaskId, settings: Command.Settings, ffmpegIsFile: bool, matchCount: nat,
                   probe: Supervisor.MediaInfo, spawn: Option<ProcessHandle>, stderr: string, code: int)
      returns (launch: Launch, events: seq<Supervisor.Event>, outcome: Outcome)
      modifies this`active
      ensures launch.Aborted? ==> events == [] && outcome == launch.outcome && active == old(active)
      ensures launch.Started? ==>
        && id in old(active)
        && events == Supervisor.RunEvents(stderr, launch.mode, launch.totals, code)
        && outcome == Completed(Supervisor.Classify(code, [], outputFile))
        && active == old(active) - {id}
      ensures Verdict(ffmpegIsFile, matchCount, probe).Rejected? ==>
        launch == Aborted(Stopped(Verdict(ffmpegIsFile, matchCount, probe).reason))
      ensures Verdict(ffmpegIsFile, matchCount, probe).Accepted? && ext.None? ==> launch == Aborted(ExtensionUnset)
      ensures Verdict(ffmpegIsFile, matchCount, probe).Accepted? && ext.Some? && (spawn.None? || id !in old(active)) ==>
        launch == Aborted(ConversionError)
      ensures Verdict(ffmpegIsFile, matchCount, probe).Accepted? && ext.Some? && spawn.Some? && id in old(active) ==>
        launch == Started(Command.BuildCommand(ffmpegPath, inputFile, outputFile, ext.value, settings), spawn.value,
                          Progress.ModeFor(inputFile), Verdict(ffmpegIsFile, matchCount, probe).totals)
    {
      launch := Start(id, settings, ffmpegIsFile, matchCount, probe, spawn);
      if launch.Aborted? {
        return launch, [], launch.outcome;
      }
      ghost var before := active;
      events, outcome := Supervise(id, launch, stderr, code);
      assert active == before - {id};
      assert before - {id} == old(active) - {id};
    }

    /** `on_cancel`: the process to kill, if the task has one yet. The handler indexes
        the looked-up entry before testing it, so the task must still be registered. */
    method OnCancel(id: TaskId) returns (kill: Option<ProcessHandle>)
      requires id in active
      ensures kill == active[id].process
    {
      var data := active[id];
      if data.process.Some? {
        kill := data.process;
      } else {
        kill := None;
      }
    }
  }

  /** The frame `shot_0001.png` has the extension `.png`. */
  lemma ShotExtension(path: string)
    requires path == "shot_0001.png"
    ensures Paths.Extension(path) == ".png"
  {
    var g := SequencePattern.Groups("shot", '_', "0001", ".png");
    assert path == g.prefix + [g.separator] + g.digits + g.ext;
    SequencePattern.ExtensionOfMatch(path, g);
  }

  /** `out.webm` passes the extension check. */
  lemma WebmName(output: string)
    requires output == "out.webm"
    ensures Supervisor.WebmOutput(output)
  {
    assert Lower(output) == output;
  }

  /** A fresh window after browsing the frame `frame` and the output `output`. */
  method Browsed(frame: string, output: string) returns (w: MainWindow)
    requires frame == "shot_0001.png" && output != []
    ensures fresh(w)
    ensures w.ext == Some(".png") && w.inputField == "shot_%04d.png" && w.outputField == output
    ensures w.active == map[]
  {
    w := new MainWindow();
    SequencePattern.DeriveShotExample(frame);
    ShotExtension(frame);
    w.BrowseInputFile(frame);
    w.BrowseOutputFile(output);
  }

  /** The window after browsing the frame `frame` and the output `output` and pressing
      Convert, with task `task` on thread 1. */
  method Prepared(frame: string, output: string) returns (w: MainWindow, caption: string)
    requires frame == "shot_0001.png" && output != []
    ensures fresh(w)
    ensures w.ext == Some(".png") && w.inputFile == "shot_%04d.png" && w.outputFile == output
    ensures w.ffmpegPath == DefaultFfmpegPath
    ensures w.active == map["task" := Entry(1, None)]
  {
    w := Browsed(frame, output);
    caption := w.StartConversion("task", 1);
  }

  /** The checks accept the pattern `shot_%04d.png` with ten matching files and the
      output `out.webm`, counting frames out of ten. */
  lemma ShotAccepted(input: string, output: string)
    requires input == "shot_%04d.png" && output == "out.webm"
    ensures Supervisor.Validate(DefaultFfmpegPath, true, input, output, 10, Supervisor.MediaInfo(None, None))
         == Supervisor.Accepted(Supervisor.Totals(Some(10), None))
    ensures Progress.ModeFor(input) == Progress.FrameMode
  {
    assert input[5] == '%';
    WebmName(output);
  }

  /** The line `frame=   5` read in frame mode out of ten frames gives 50%. */
  lemma FrameFiveLine(line: string)
    requires line == "frame=   5"
    ensures Supervisor.LineEvents(line, Progress.FrameMode, Supervisor.Totals(Some(10), None))
         == [Supervisor.ProgressEvent(50.0)]
  {
    StripNothing(line);
    Progress.FrameExample(line);
    Supervisor.LineEventsOf(line, Progress.FrameMode, Supervisor.Totals(Some(10), None), 50.0);
  }

  /** That line holds no line break. */
  lemma FrameFiveNoBreak(line: string)
    requires line == "frame=   5"
    ensures '\n' !in line
  {
    assert forall k :: 0 <= k < |line| ==> line[k] != '\n';
  }

  /** FFmpeg's error stream holding that one line yields the one event 50%. */
  lemma FrameFiveStream(line: string)
    requires line == "frame=   5"
    ensures Supervisor.StreamEvents(line + "\n", Progress.FrameMode, Supervisor.Totals(Some(10), None))
         == [Supervisor.ProgressEvent(50.0)]
  {
    FrameFiveNoBreak(line);
    FrameFiveLine(line);
    Supervisor.StreamOneLine(line, Progress.FrameMode, Supervisor.Totals(Some(10), None));
  }

  /** The same window once `convert` has launched FFmpeg for ten frames as process 2. */
  method Launched(frame: string, output: string) returns (w: MainWindow, launch: Launch)
    requires frame == "shot_0001.png" && output == "out.webm"
    ensures fresh(w)
    ensures launch.Started? && launch.process == 2
    ensures launch.mode == Progress.FrameMode && launch.totals == Supervisor.Totals(Some(10), None)
    ensures w.outputFile == output
    ensures w.active == map["task" := Entry(1, Some(2))]
  {
    var caption;
    w, caption := Prepared(frame, output);
    ShotAccepted(w.inputFile, output);
    launch := w.Start("task", Command.Settings(false, [], 24, 10), true, 10, Supervisor.MediaInfo(None, None), Some(2));
  }

  /** A ten-frame sequence that FFmpeg finishes with exit code 0: the dialog sees the
      events of the stream read in frame mode out of ten frames (see FrameFiveStream), the run
      succeeds and the registry is empty again. */
  method SequenceRun(frame: string, output: string, stderr: string)
    returns (events: seq<Supervisor.Event>, outcome: Outcome, left: map<TaskId, Entry>)
    requires frame == "shot_0001.png" && output == "out.webm"
    ensures events == Supervisor.RunEvents(stderr, Progress.FrameMode, Supervisor.Totals(Some(10), None), 0)
    ensures outcome == Completed(Supervisor.Succeeded(output))
    ensures left == map[]
  {
    var w, launch := Launched(frame, output);
    events, outcome := w.Supervise("task", launch, stderr, 0);
    left := w.active;
    assert map["task" := Entry(1, Some(2))] - {"task"} == map[];
  }

  /** Cancelling while FFmpeg runs finds the process to kill. If FFmpeg then ends with
      3221225786, the dialog sees 100, 100 and failure, and nothing is reported. */
  method CancelledRun(frame: string, output: string)
    returns (kill: Option<ProcessHandle>, events: seq<Supervisor.Event>, outcome: Outcome)
    requires frame == "shot_0001.png" && output == "out.webm"
    ensures kill == Some(2)
    ensures events == [Supervisor.ProgressEvent(100.0), Supervisor.ProgressEvent(100.0),
                       Supervisor.FinishedEvent(false)]
    ensures outcome == Completed(Supervisor.ClosedManually)
  {
    var w, launch := Launched(frame, output);
    kill := w.OnCancel("task");
    events, outcome := w.Supervise("task", launch, [], Supervisor.ControlCExit);
  }

  /** An output without `.webm` is refused after the input checks; the task stays in the
      registry, still without a process. */
  method RejectedRun(frame: string, output: string) returns (outcome: Outcome, left: map<TaskId, Entry>)
    requires frame == "shot_0001.png" && output == "out.mp4"
    ensures outcome == Stopped(Supervisor.BadOutputExtension)
    ensures left == map["task" := Entry(1, None)]
  {
    var w, _ := Prepared(frame, output);
    assert w.inputFile[5] == '%';
    assert !Supervisor.WebmOutput(output) by {
      assert Lower(output)[3] == '.';
    }
    var launch, es, out := w.Convert("task", Command.Settings(false, [], 24, 10), true, 3,
                                     Supervisor.MediaInfo(None, None), None, [], 0);
    outcome, left := out, w.active;
  }
}
