# PNG sequence to WebM converter: the conversion core in Dafny

`Main_Adv2.py` is a PySide6 window around FFmpeg. It turns an image sequence or a clip into a
VP9 WebM with alpha. This project models the part of it that does more than lay out widgets:

- `truncate_path_by_folder`, which shortens the paths shown in the progress dialog;
- `browse_input_file` turning a sample frame `shot_0001.png` into the pattern `shot_%04d.png`,
  and recording the extension `os.path.splitext` finds;
- in `convert`:
  - the test for an image sequence (`'%' in input`) and the glob substitution `re.sub(r'%0\d+d', '*', …)`;
  - the validation chain, in the order the code runs it;
  - the FFmpeg command string;
  - the progress parser for `frame=` and `time=` lines, and the pump that feeds it FFmpeg's
    error stream line by line;
  - the events that close a run, and the classification of the exit code;
- the registry `active_conversions`:
  - `start_conversion` inserts a task;
  - `convert` records the process in it and deletes the task at the end;
  - `on_cancel` reads it.

Modules follow the program's structure:

| file | module | what it holds |
|---|---|---|
| text.dfy | Text | Python's `split`, `join`, `strip`, `lower`, `splitlines`, `xs[-n:]`, over ASCII character classes |
| decimal.dfy | Decimal | `str(n)`, `int(digits)`, `float("SS.ff")` as an exact real |
| paths.dfy | Paths | `truncate_path_by_folder`, the extension part of `os.path.splitext` |
| sequence_pattern.dfy | SequencePattern | the sample-name regex, the derived pattern, the glob substitution |
| progress.dfy | Progress | `re.search` for `frame=\s*(\d+)` and `time=(\d+:\d+:\d+\.\d+)`, the percentage |
| command.dfy | Command | the command string handed to `Popen` |
| supervisor.dfy | Supervisor | validation, the pump, the closing events, the exit-code classification |
| window.dfy | Window | `class MainWindow`: the fields the handlers set, the registry, `convert` as `Start` then `Supervise`, and `on_cancel` |

Things `convert` gets from outside become parameters:

- whether `os.path.isfile` holds for the FFmpeg path;
- the number of files `glob.glob` matches;
- what `get_mov_duration_and_frame_count` returns;
- the process `Popen` creates, or none when it raises;
- the whole text FFmpeg writes on its error stream, as the text-mode pipe delivers it (with `\r` already turned into `\n`);
- the exit code.

Percentages are exact reals, not floating point.

## Model

| member | source | states |
|---|---|---|
| Paths.TruncatePathByFolder | Main_Adv2.py:31-38 | Splits the path at the separator and, when it has more than `keep_start + keep_end` components, joins the first ones, `...` and the last ones. TruncateComponents and TruncateDefaultLength state what comes out. |
| Paths.TruncateComponents | Main_Adv2.py:31-38 | A path with at most `keep_start + keep_end` components comes back unchanged. A longer one splits into its first `keep_start` components, one `...` and its last `keep_end` components. With `keep_end == 0` that is all of them, as `parts[-0:]` is in Python. |
| Paths.TruncateDefaultLength | Main_Adv2.py:31-38 | With the default arguments, a path of more than four components shows as exactly five. |
| Paths.SplitAroundEllipsis | Main_Adv2.py:38 | Joining the two kept groups around `...` and splitting again gives the groups back, with `...` between them. |
| Paths.Extension | Main_Adv2.py:304 | The recorded extension is empty, or it starts with `.` and ends the path. |
| Paths.ExtensionNonempty | Main_Adv2.py:304 | The extension is nonempty exactly when the last path component has a dot after a non-dot character. |
| Paths.ExtensionShape | Main_Adv2.py:304 | A nonempty extension runs from a dot to the end of the path, with no further dot or separator in it. |
| Paths.ExtensionAt | Main_Adv2.py:304 | A dot in the last component, with a non-dot before it and no dot or separator after it, starts the extension. |
| Paths.LastIndexOf | Main_Adv2.py:304 | The index of the last occurrence of a character, or -1 when there is none. |
| SequencePattern.MatchWhole | Main_Adv2.py:305 | Whatever it returns are groups of `^(.*?)([._])(\d+)(\.\w+)$` that span the whole path. |
| SequencePattern.MatchSampleName | Main_Adv2.py:305 | Whatever it returns is a match of the regex for the path. The match either ends at the end of the path or, as `$` allows, just before a final line break. |
| SequencePattern.MatchComplete | Main_Adv2.py:305 | Every match of the regex, including one that ends before a final line break, is the one MatchSampleName returns. So the match is unique and the lazy `(.*?)` changes nothing. |
| SequencePattern.MatchWholeComplete | Main_Adv2.py:305 | Groups that span the whole path are the ones MatchWhole returns. |
| SequencePattern.DerivePattern | Main_Adv2.py:304-312 | The text the input field shows after browsing: the pattern built from the groups when the regex matches and the extension is `.png`, otherwise the path. DeriveFromFrame, DeriveKeeps and DerivedPatternGlob state what it gives. |
| SequencePattern.ExtensionOfMatch | Main_Adv2.py:304-305 | For a matching path, the `splitext` extension is the regex's last group. |
| SequencePattern.DeriveFromFrame | Main_Adv2.py:305-310 | A matching `.png` frame becomes prefix, separator, `%0<number of digits>d` and `.png`. |
| SequencePattern.DeriveKeeps | Main_Adv2.py:307-312 | A path that no match gives the extension `.png` is shown as it was chosen. |
| SequencePattern.DeriveShotExample | Main_Adv2.py:305-310 | `shot_0001.png` becomes `shot_%04d.png`. |
| SequencePattern.IsSequence | Main_Adv2.py:394 | Holds exactly when the input contains `%`. DerivedPatternIsSequence, ModeFor and Validate rely on it. |
| SequencePattern.DerivedPatternIsSequence | Main_Adv2.py:307-310 | A derived pattern counts as an image sequence. |
| SequencePattern.DerivedPatternGlob | Main_Adv2.py:394-399 | When the prefix holds no `%`, the glob of a derived pattern is the sample name with its frame number replaced by `*`. |
| SequencePattern.Glob | Main_Adv2.py:399 | `re.sub(r'%0\d+d', '*', …)`, scanning left to right and replacing each token TokenLength finds. GlobToken (a token becomes `*`) and GlobStray (any other character, a stray `%` among them, is kept) cover every input; GlobPattern, GlobPlain and GlobNoToken state what it gives for whole patterns. |
| SequencePattern.GlobStray | Main_Adv2.py:399 | A character that starts no `%0<digits>d` token, such as the `%` of a folder `100%`, is kept, and the substitution continues after it. |
| SequencePattern.GlobToken | Main_Adv2.py:399 | A token `%0<digits>d` is replaced by one `*`, for any run of digits, whatever follows it. |
| SequencePattern.GlobPattern | Main_Adv2.py:399 | The width token of a pattern whose only `%` is that token is replaced by `*`, and nothing else changes. |
| SequencePattern.GlobNoToken | Main_Adv2.py:399 | Text without `%` is unchanged by the substitution. |
| SequencePattern.GlobPlain | Main_Adv2.py:399 | Text without `%` passes through unchanged, and so does what follows it. |
| SequencePattern.TokenLength | Main_Adv2.py:399 | A `%0\d+d` token is at least four characters and starts with `%`. |
| SequencePattern.TokenLengthMeaning | Main_Adv2.py:399 | A token is found exactly when the text starts with `%0`, one or more digits and `d`. Its length is then that of those characters. |
| SequencePattern.TokenFound | Main_Adv2.py:399 | What TokenLength finds is `%0`, digits and `d`. |
| Progress.ModeFor | Main_Adv2.py:469 | Frame counting is used exactly for sequences and for inputs ending in `.mov`. |
| Progress.Percent | Main_Adv2.py:472-482 | `min(done / total * 100, 100)` lies in [0, 100]. It is 100 exactly when `done >= total`; below that it is `done * 100 / total`. |
| Progress.PercentMonotone | Main_Adv2.py:472-482 | A larger count never gives a smaller percentage. |
| Progress.SearchFrame | Main_Adv2.py:470 | `re.search(r"frame=\s*(\d+)", line)` from a position, as the first position where the pattern matches. SearchFrameLeftmost states its result. |
| Progress.SearchTime | Main_Adv2.py:478 | `re.search(r"time=(\d+:\d+:\d+\.\d+)", line)` from a position. What it reports holds a valid clock; SearchTimeFound, SearchTimeMissing and SearchTimeFirst state which match it reports. |
| Progress.SearchFrameLeftmost | Main_Adv2.py:470 | The frame search reports the value of the leftmost `frame=\s*(\d+)` match, and nothing exactly when there is no match. |
| Progress.SearchTimeFound | Main_Adv2.py:478 | When the time search reports groups, they are those of the leftmost `time=(\d+:\d+:\d+\.\d+)` match. |
| Progress.SearchTimeMissing | Main_Adv2.py:478 | When the time search reports nothing, no position matches. |
| Progress.SearchTimeFirst | Main_Adv2.py:478 | A match with no earlier match is the one the search reports. |
| Progress.LineProgress | Main_Adv2.py:469-483 | A percentage lies in [0, 100]. In frame mode there is one exactly when `frame=` matches and the total frame count is known and non-zero. In time mode there is one exactly when `time=` matches and the duration is known and non-zero. |
| Progress.FrameLine | Main_Adv2.py:470-473 | A line `frame=<spaces><n>…` reports `min(n / total * 100, 100)`. |
| Progress.SearchClockLine | Main_Adv2.py:478 | FFmpeg's clock after a `time=` with no `t` before it in the line is read back as its zero-padded fields. |
| Progress.ClockTextSeconds | Main_Adv2.py:480-481 | `int(h) * 3600 + int(m) * 60 + float(s)` on the printed clock is the time it shows. |
| Progress.TimeLine | Main_Adv2.py:478-483 | A stats line showing `time=HH:MM:SS.cc` reports that time out of the duration. |
| Progress.FrameExample | Main_Adv2.py:469-473 | `frame=   5` out of ten frames gives 50. |
| Progress.TimeExample | Main_Adv2.py:477-483 | `time=00:00:05.00` in a ten-second clip gives 50. |
| Command.BitrateArgument | Main_Adv2.py:383-386 | The spin box text when the bitrate box is enabled, `0` when it is disabled. CommandArguments states where it lands in the command. |
| Command.FramerateFilter | Main_Adv2.py:424-427 | `-framerate <rate>` for a `.png` input, empty otherwise. FramerateSplit and CommandArguments state it. |
| Command.BuildCommand | Main_Adv2.py:429-444 | The command f-string. CommandWords and CommandArguments state its words. |
| Command.FramerateSplit | Main_Adv2.py:424-427 | The framerate option splits into `-framerate` and the rate, or into one empty word. |
| Command.CommandWords | Main_Adv2.py:429-444 | The command starts `cmd /c<ffmpeg>`. With no spaces in the paths or the bitrate text, splitting the rest at spaces gives the fixed word list. |
| Command.CommandArguments | Main_Adv2.py:383-444 | On those words: the input follows `-i`. `-framerate` stands after the filter chain exactly when the extension is `.png`. `-b:v` is followed by the spin box text when the box is enabled, and by a literal `0` when it is disabled. `-crf` is followed by the quality factor. The output is the fourth word from the end. |
| Command.FixedWordsHaveNoSpaces | Main_Adv2.py:429-444 | None of the fixed words holds a space. |
| Supervisor.Validate | Main_Adv2.py:372-422 | Each rejection happens exactly when all earlier checks pass and its own check fails. The order is: FFmpeg found, input given, images found or frame count known, output given, `.webm` output. A rejected sequence carries its glob. The totals are the match count for a sequence, or the probe's frames and duration for a clip. |
| Supervisor.FfmpegFound | Main_Adv2.py:372 | Holds exactly when the FFmpeg path is nonempty and names a file. Validate rejects with FfmpegNotFound exactly when it fails. |
| Supervisor.MediaKnown | Main_Adv2.py:394-411 | For an image sequence, at least one file matches its glob. For a clip, the probe found a frame count. Validate rejects with NoImagesFound or MediaInfoUnknown exactly when it fails after the earlier checks pass. |
| Supervisor.WebmOutput | Main_Adv2.py:419 | The lowered output path ends with `.webm`, so `.WEBM` is accepted too. Validate rejects with a bad extension exactly when it fails after the earlier checks pass. |
| Supervisor.ValidateFirstFailure | Main_Adv2.py:372-422 | Validate reports exactly the first failing check of the chain, and accepts exactly when every check passes. |
| Supervisor.FirstFailure | Main_Adv2.py:372-422 | No failure is reported exactly when every check passes. |
| Supervisor.ReadLine | Main_Adv2.py:463 | `proc.stderr.readline()` on what is left of the stream. LineLength states what it takes. |
| Supervisor.StreamEvents | Main_Adv2.py:462-483 | The events of the `monitor_progress` loop, read line by line until `readline` returns empty. StreamEventsLines, StreamEventsBounded and StreamOneLine state them. |
| Supervisor.LineLength | Main_Adv2.py:463 | `readline` takes everything up to and including the first line break, or the whole rest. It returns empty only at the end of the stream. |
| Supervisor.LineEvents | Main_Adv2.py:466-483 | One line yields at most one event, and it is a percentage in [0, 100]. |
| Supervisor.PumpProgress | Main_Adv2.py:462-485 | The loop's events are those of the stream, line by line, followed by one 100, and the stream is read to its end. |
| Supervisor.StreamEventsLines | Main_Adv2.py:463-466 | Reading with `readline` until it returns empty sees every line of the stream (as `splitlines` gives them) exactly once, in order. |
| Supervisor.StreamEventsBounded | Main_Adv2.py:462-483 | The stream yields only percentages in [0, 100]. |
| Supervisor.StreamOneLine | Main_Adv2.py:463-466 | A stream of one line and its line break yields exactly that line's events. |
| Supervisor.LinesStep | Main_Adv2.py:463-466 | The first `readline` result, without its line break, is the stream's first line, and the line break does not survive `strip()`. |
| Supervisor.LineEventsOf | Main_Adv2.py:466-483 | A line without surrounding white space that the parser reads as p yields exactly the event p. |
| Supervisor.LastLines | Main_Adv2.py:503 | `stderr.strip().splitlines()[-5:]` is a suffix of the lines of at most five items, and it is all of them when there are fewer. |
| Supervisor.Classify | Main_Adv2.py:499-517 | Success exactly for code 0, with the output path. A manual close exactly for 3221225786. A failure exactly for every other code, carrying the code and the last lines. |
| Supervisor.FailureDetailsLines | Main_Adv2.py:503-508 | Splitting the failure message's details at line breaks gives back the last lines. |
| Supervisor.DrainedDetailsEmpty | Main_Adv2.py:485-503 | After the pump has drained the stream, a failure carries no detail lines. |
| Supervisor.RunEvents | Main_Adv2.py:462-495 | Everything a run sends the dialog: the pump's percentages and its 100, the 100 emitted after `communicate`, and the finished event. RunEventsShape and PumpProgress state them. |
| Supervisor.RunEventsShape | Main_Adv2.py:462-495 | A run emits only percentages in [0, 100], then two 100 events, then one finished event. That event comes last and reports success exactly when the exit code is 0. |
| Window.ProgressLabel | Main_Adv2.py:345-349 | The dialog label text. LabelLines states its lines. |
| Window.LabelLines | Main_Adv2.py:345-349 | The dialog label is three lines: `Converting:` and the two shortened paths after `Source:` and `Output:`. |
| Window.TruncateKeepsLine | Main_Adv2.py:31-38 | Shortening a path adds no line break. |
| Window.MainWindow.constructor | Main_Adv2.py:83-197 | The window starts with empty fields, no extension and an empty registry, as `self.active_conversions = {}` at line 197 sets it. |
| Window.MainWindow.BrowseInputFile | Main_Adv2.py:303-312 | A chosen path sets the extension and shows the derived pattern. A cancelled dialog changes nothing. |
| Window.MainWindow.BrowseOutputFile | Main_Adv2.py:325-326 | A chosen path is shown. A cancelled dialog changes nothing. |
| Window.MainWindow.StartConversion | Main_Adv2.py:333-367 | Fixes the FFmpeg path and copies the two fields. Registers the task with its thread and no process, and builds the label. |
| Window.MainWindow.Start | Main_Adv2.py:372-459 | A rejection, an unset extension, or a failed spawn or missing entry aborts with the registry unchanged. Otherwise it launches the built command with the mode and totals, and records the process in the task's entry. |
| Window.MainWindow.Supervise | Main_Adv2.py:462-517 | Emits the run's events. If the task is still registered, it is removed and the exit code is classified. Otherwise the deletion fails, which is reported as a conversion error. |
| Window.MainWindow.Convert | Main_Adv2.py:370-520 | An aborted run emits nothing and leaves the registry as it was. A launched run emits the run's events, completes with the classified exit code, and removes the task. Which abort happens is decided as in Start. |
| Window.MainWindow.OnCancel | Main_Adv2.py:213-221 | The process to kill is the registered task's process, or none before one is recorded. |
| Window.ShotAccepted | Main_Adv2.py:372-422 | `shot_%04d.png` with ten matches and `out.webm` is accepted, counting frames out of ten. |
| Window.FrameFiveLine | Main_Adv2.py:466-473 | The line `frame=   5`, counting out of ten frames, yields the one event 50. |
| Window.FrameFiveStream | Main_Adv2.py:462-473 | An error stream holding that one line yields the one event 50. |
| Window.Launched | Main_Adv2.py:294-459 | Browsing `shot_0001.png` and `out.webm`, starting, and launching as process 2 registers process 2 for ten frames in frame mode. |
| Window.SequenceRun | Main_Adv2.py:370-517 | A ten-frame sequence that FFmpeg ends with code 0 succeeds with the output path and leaves the registry empty. |
| Window.CancelledRun | Main_Adv2.py:213-221 | Cancelling finds process 2. With an empty stream and exit code 3221225786, the dialog sees 100, 100 and failure, and nothing is reported. |
| Window.RejectedRun | Main_Adv2.py:419-422 | `out.mp4` is refused as a bad extension, and the task stays registered without a process. |

## Left out

- The widgets, file dialogs, message boxes, the help menu, `QSettings` and the style sheet are not modelled. Dialog results are parameters, and warnings are `Outcome` values.
- Threads and signals are left out: `convert`, `monitor_progress` and the signal connections run sequentially in the model. Another `start_conversion` could overwrite `self.input_file` while a run is in progress; the model does not capture that.
- Supervisor.StreamEvents and Supervisor.PumpProgress: the error stream is taken as text that has already been decoded. A decoding error in `readline` (line 463) is not modelled. It ends `monitor_progress` without its 100, stays in that thread instead of reaching the `except` at line 519, and leaves `communicate` with no error text. That happens when FFmpeg echoes a path the locale encoding cannot decode. Supervisor.RunEventsShape and Supervisor.Classify therefore describe only runs whose error stream decodes.
- Window.MainWindow.Supervise: it takes the whole error stream at once. It does not model reading while FFmpeg is still writing, or a cancel that happens between two lines.
- Cancelling is modelled by calling OnCancel between Start and Supervise. The `taskkill /F /T /PID` call is left out because it is an external process; OnCancel returns the process to kill.
- `get_mov_duration_and_frame_count` (lines 40-70) runs FFmpeg. Its result is the parameter `probe`.
- `glob.glob` is the parameter `matchCount`, and `os.path.isfile` is `ffmpegIsFile`.
- `os.path.normpath` is not modelled: paths are taken as already normalised, with the Windows separator `\`.
- Universal newlines are left out: the stream's only line break is `\n`, and `splitlines` is modelled for that case only.
- Character classes are modelled on ASCII characters only: the model does not recognise non-ASCII digits, word characters or white space as `\d`, `\w`, `\s` and `strip()` do, and `lower()` lowers only ASCII letters.
- The text of the info and error message boxes is left out, apart from the detail lines (FailureDetails).
- `uuid.uuid4()` is left out: the task id is a parameter of StartConversion.
- Command.CommandWords and Command.CommandArguments: both are stated only for paths and bitrate text without spaces. A space in a path splits it into several words; the model does not describe how `cmd` then reads the command.
- The `print` calls are debugging output and are left out.

Behaviour of the code that the model keeps as written:

- The input's media check (glob or probe) runs before the output checks.
- A disabled bitrate box still produces `-b:v 0`.
- `-framerate` depends on the extension recorded by `browse_input_file` being `.png`, not on the input being a sequence. If no input was ever browsed, reading `self.ext` raises before the `try`. No events are then emitted and the task stays registered (`ExtensionUnset`).
- Two 100 events are emitted, at lines 485 and 493.
- `on_cancel` indexes the entry it looked up before testing it (line 217). So it needs the task to be registered, and OnCancel requires `id in active`.
- The failure details come from `communicate()`, which runs after the pump has read the error stream to its end. The details are therefore empty (DrainedDetailsEmpty).
- An early return in `convert` never removes the task from the registry.
