# VideoConvertor — a Dafny model of the conversion scheduler

VideoConvertor converts a queue of video files by running an external
command-line convertor (ffmpeg or similar) on each file, a bounded number
at a time. The user works through a GTK window: files are added to a
list, moved up and down, and given subtitle files, and a start/stop
button starts a run or cancels it. This project models the logic behind
that window and proves properties about it:

- **`PyString`** (`py_string.dfy`) — Python's `str.replace`, `str.split`
  and `str.join`, which the command builder and the output-name rule use.
- **`FileNames`** (`file_names.dfy`) — `extend_file_name`. The text after
  the last `.` becomes `NEW` and `.avi` is appended.
- **`Process`** (`process.py` → `process.dfy`) — the `ConversionProcess`
  class. It holds the flags `started`, `finished` and `paused`, the
  cancelled completion handle and the temporary logs. It also models the
  command line built by placeholder substitution, and the return code
  taken from the exit status.
- **`TaskQueue`** (`task_queue.dfy`) — the row store both front ends share.
  A row holds an id, the file path, the subtitle path and the running flag.
  The module covers the `Queue` wrapper, lookup and removal by id, the
  waiting rows, column lookup and row equality.
- **`Tasks`** (`tasks.dfy`) — the task built from the first waiting row,
  the file-size completeness test, and how `task_finished` classifies a
  task and records it.
- **`Scheduling`** (`scheduler.py` → `scheduler.dfy`) — the `Scheduler`
  class: start, scheduling, completion events, cancel, pause and resume.
- **`Gui`** (`gui.py` → `gui.dfy`) — the same logic as it lives in the
  `VideoConvertorGUI` window class. This adds row ids, row removal,
  moving selected rows up and down, and the subtitle entry text.
- **`Legacy`** (`video_convertor.py` → `video_convertor.dfy`) — the older
  front end. Its factory refuses a configuration missing any of six keys.
  Its convertor object builds one command and launches it at most once
  at a time.

The model makes the following choices:

- **Completion chains become events.** Each process's completion
  callbacks are Twisted deferred chains: `task_finished`, removal from
  `processes`, then `start_process`. The model runs each chain as an
  explicit event method (`OnFinished`), which receives the exit status,
  the file sizes and the next pid. The live chains are kept in a map
  from process to task.
- **Cancelling a process runs its chain at once.** When a process's
  completion handle is cancelled, its chain runs synchronously, and the
  model does the same inside the cancel loop.
- **A run ends with its last chain.** When no chain is left, the
  `DeferredList` fires and the run stops.
- **Outside facts are parameters.** Operating-system answers are
  parameters. These are the pid of a spawned program, whether it had
  already exited when signalled, whether `psutil` found it, what
  `poll()` reports, and the file sizes (None when `os.stat` fails).

## Model

| member | source | states |
|---|---|---|
| PyString.Split | src/scheduler.py:309 | `str.split` with a non-empty separator yields at least one piece |
| PyString.ReplaceIsJoinOfSplit | src/process.py:110-113 | `s.replace(pat, rep)` equals joining, with `rep`, the pieces of `s` split at `pat` |
| PyString.ReplaceAbsent | src/process.py:110-113 | replacing a placeholder that does not occur leaves the text unchanged |
| PyString.ReplaceWithItself | src/process.py:110-113 | replacing a pattern by itself leaves any text unchanged, the empty pattern included |
| PyString.SplitThenJoin | src/scheduler.py:309-313 | joining the pieces of a split with the separator gives back the original name |
| PyString.ReplaceLength | src/process.py:132-133 | the substituted text grows by the length difference once per occurrence |
| FileNames.ExtendFileNameKeepsStem | src/scheduler.py:308-317 | the output name is the input up to its last `.` (all of it when there is none) followed by `.NEW.avi`, so it always ends in `.NEW.avi` |
| FileNames.ExtendedNameIsStem | src/scheduler.py:309-313 | both branches of the join give the stem followed by `.NEW` |
| FileNames.SeveralPieces | src/scheduler.py:310-311 | with a `.` in the name, dropping the last piece and adding `NEW` gives stem + `.NEW` |
| FileNames.OnePiece | src/scheduler.py:312-313 | without a `.`, adding the piece `NEW` gives name + `.NEW` |
| FileNames.ExtendFileNameReplacesExtension | src/scheduler.py:308-317 | `front.ext` (ext without `.`) becomes `front.NEW.avi`, e.g. `movie.mkv` → `movie.NEW.avi` |
| FileNames.ExtendFileNameKeepsPlainName | src/gui.py:586-595 | a name with no `.` becomes name + `.NEW.avi` |
| Process.ExtendCommandBySub | src/process.py:124-134 | every subtitle-params placeholder becomes the subtitle parameters with the subtitle path substituted (empty without a subtitle file); a command without the placeholder is unchanged |
| Process.GetConversionCommand | src/process.py:100-122 | the command starts with the platform's executable (win32 and cygwin use the Windows one) followed by a space |
| Process.TemplateWithoutPlaceholders | src/process.py:100-122 | an argument template mentioning no placeholder is passed on verbatim after the executable |
| Process.InputPlaceholderOnly | src/process.py:106-118 | a template that is just the input placeholder runs the input path, as long as the path mentions no later placeholder |
| Process.ReturnCodeOf | src/process.py:148-160 | normal exit gives 0; termination gives the exit code, else minus the signal; no code and no signal is the unknown-status error |
| Process.ConversionProcess.constructor | src/process.py:16-38 | a new process is neither started, finished, paused nor cancelled, has no pid, return code or captured output, and keeps its files and settings |
| Process.ConversionProcess.Run | src/process.py:40-62 | only an unstarted process runs; it becomes started with the spawned pid, its command is the conversion command and both logs are open |
| Process.ConversionProcess.Terminate | src/process.py:64-73 | a finished process, or one that exited before the signal, is left untouched; otherwise the completion handle is cancelled and the process is finished |
| Process.ConversionProcess.Pause | src/process.py:75-85 | only a running, unpaused process is paused, and it is marked paused exactly when the OS process was found |
| Process.ConversionProcess.Resume | src/process.py:87-98 | only a running, paused process is resumed, and it is marked not paused |
| Process.ConversionProcess.ProcessExited | src/process.py:144-168 | the process becomes finished and both logs are closed; the return code follows the exit status; an unknown status keeps the captured output; stdout is read only when logging it |
| TaskQueue.IndexOfId | src/scheduler.py:256-261 | the position found holds the first row with the id; None exactly when no row has it |
| TaskQueue.RemoveFirstWithId | src/scheduler.py:38-49 | without a matching row the store is unchanged; otherwise exactly one row, the first match, leaves it |
| TaskQueue.RemoveLeavesNoTrace | src/scheduler.py:38-49 | on a store with unique ids, removal keeps the ids unique and removes exactly the given id |
| TaskQueue.RemoveKeepsIdsBelow | src/gui.py:235-249 | removal keeps the ids unique and below the next id to hand out |
| TaskQueue.NotRunningIsFilter | src/scheduler.py:243-250 | the waiting rows are exactly the rows whose running flag is not set |
| TaskQueue.NotRunningConcat | src/scheduler.py:243-250 | the waiting rows keep queue order: the waiting rows of a concatenation are the two lists of waiting rows concatenated |
| TaskQueue.FirstNotRunning | src/scheduler.py:221-227 | the position found is the first row not running; None exactly when every row runs |
| TaskQueue.AllRunningNoneWaiting | src/scheduler.py:218-219 | when every row runs there is nothing to do |
| TaskQueue.WaitingHeadIsFirstNotRunning | src/scheduler.py:221-227 | the first waiting row is the first row not running, and the rest wait after it |
| TaskQueue.StartedRowLeavesWaitingList | src/scheduler.py:252-254 | marking the first waiting row as running removes exactly it from the waiting rows, so it is never picked again |
| TaskQueue.MarkedFirstWaiting | src/scheduler.py:252-254 | marking the first waiting row leaves as waiting only the waiting rows after it |
| TaskQueue.MarkRunningKeepsIds | src/scheduler.py:252-254 | setting a running flag changes no row but the flag and keeps the ids |
| TaskQueue.MarkRunningKeepsIdsBelow | src/gui.py:532-535 | marking a row as running keeps the ids unique and below the next id to hand out |
| TaskQueue.MarkRunningThenStopped | src/scheduler.py:328-330 | resetting all running flags undoes any marking |
| TaskQueue.StoppedAllWaiting | src/scheduler.py:328-330 | after the reset every row waits again and no row was removed |
| TaskQueue.ColumnOf | src/scheduler.py:73-78 | a number is used as it is, a known name gives its column, an unknown name is a KeyError, any other key a TypeError |
| TaskQueue.RemoveDeletesFirstEqualRow | src/scheduler.py:38-63 | `Queue.remove` deletes the first row that `QueueRow.__eq__` finds equal to the argument (same id) and keeps the other rows in their order |
| TaskQueue.Queue.constructor | src/scheduler.py:18-19 | the queue wraps the given store |
| TaskQueue.Queue.IsEmpty | src/scheduler.py:32-33 | empty exactly when there are no rows, and then nothing waits |
| TaskQueue.Queue.Append | src/scheduler.py:35-36 | the row is added at the end |
| TaskQueue.Queue.Remove | src/scheduler.py:38-49 | returns True exactly when a row has the id, and removes only the first such row |
| TaskQueue.Queue.SetRunning | src/scheduler.py:69-71 | writing the running column changes only that row's flag |
| Tasks.Spawn | src/scheduler.py:199-205 | the new process is fresh, started, not finished or paused, carries the task's files and has the given pid |
| Tasks.TopTaskIsFirstWaitingRow | src/scheduler.py:221-241 | no task exactly when every row runs; otherwise the task of the first row not running, with the extended output name |
| Tasks.TopTaskRowIsFound | src/scheduler.py:252-259 | the top task's row is found by id |
| Tasks.StartingTopTaskConsumesIt | src/scheduler.py:188-216 | starting the top task keeps ids unique and removes exactly the first waiting row from the waiting rows |
| Tasks.StartOneMore | src/scheduler.py:174-180 | each start of a `schedule_tasks` fill changes only running flags and, with unique ids, removes the next row of the waiting list that the fill began with |
| Tasks.StartedInOrderExtend | src/scheduler.py:174-180 | a start that gives a new process the task of the next waiting row keeps every earlier process bound to its own row's task |
| Tasks.FillStep | src/scheduler.py:174-180 | one `start_process` of a fill adds exactly one process and its chain, changes only running flags and, with unique ids, binds the new process to the task of the next row of the waiting list the fill began with |
| Tasks.ChainsCarryFirstWaiting | src/scheduler.py:174-186 | when only the started processes have chains, the chains carry exactly the tasks of the first waiting rows, one per started process |
| Tasks.FillCount | src/scheduler.py:174-180 | the number a fill starts: at most one per waiting row, never past the limit, and short of the waiting rows only when the limit is reached |
| Tasks.FillCountIsUnique | src/scheduler.py:174-180 | those three conditions determine the count, so a fill that meets them started exactly `FillCount` processes |
| Tasks.IsTaskComplete | src/scheduler.py:297-306 | complete exactly when output size / input size > 0.5; an empty input is the division error |
| Tasks.RatioAboveHalf | src/scheduler.py:304-306 | the ratio test is the same as twice the output size exceeding the input size |
| Tasks.Classify | src/scheduler.py:263-289 | cancelled ⇔ discarded; a non-zero code ⇔ failed; code 0 is done when the size check passes or is bypassed, incomplete when it fails, and unclassified when it raises |
| Tasks.Record | src/scheduler.py:276-289 | a classified task is appended to exactly one result list; a discarded or unclassified one changes none |
| Tasks.RowsAfter | src/scheduler.py:291-292 | the row goes exactly when the task was classified and its row still exists |
| Tasks.BypassNeverIncomplete | src/scheduler.py:276-287 | on win32 a zero exit code is always done |
| Scheduling.Scheduler.constructor | src/scheduler.py:93-106 | a new scheduler is not running, paused or cancelled, has no processes and empty result lists |
| Scheduling.Scheduler.GetRowsNotRunning | src/scheduler.py:243-250 | returns the waiting rows in queue order |
| Scheduling.Scheduler.HasTasks | src/scheduler.py:218-219 | true exactly when some row waits |
| Scheduling.Scheduler.GetTopTask | src/scheduler.py:221-241 | returns the task of the first waiting row, or None |
| Scheduling.Scheduler.GetRowById | src/scheduler.py:256-261 | returns the first row with the id, or None |
| Scheduling.Scheduler.SetTaskStarted | src/scheduler.py:252-254 | marks the task's row as running and nothing else |
| Scheduling.Scheduler.StartProcess | src/scheduler.py:188-216 | starts nothing exactly when cancelled or nothing waits; otherwise spawns one fresh process for the top task, adds it and its chain, and marks its row running |
| Scheduling.Scheduler.ScheduleTasks | src/scheduler.py:168-186 | starts nothing when cancelled; otherwise, with unique ids, starts exactly `FillCount(count, running processes, waiting rows)` processes, each row leaving the front of the waiting list; the k-th started process is new, not paused, and its chain carries the task of the k-th waiting row; only running flags change; the number of processes never exceeds `count` once it did not |
| Scheduling.Scheduler.Start | src/scheduler.py:120-135 | only when not running; sets running, clears the results and the cancelled flag; chains start exactly when some row waited and `count` > 0; with unique ids exactly `min(count, waiting rows)` processes run, their rows being the first waiting ones; the returned processes are all the processes, new and not paused, each with a chain carrying the task of the waiting row at its position; the limit holds; otherwise nothing changes in the queue and running stays set |
| Scheduling.Scheduler.ResetFinishedTasks | src/scheduler.py:163-166 | empties the three result lists and changes nothing else |
| Scheduling.Scheduler.TaskFinished | src/scheduler.py:263-294 | records the verdict of `Classify` (size check bypassed on win32) and removes the row exactly when recorded |
| Scheduling.Scheduler.RemoveTaskRow | src/scheduler.py:291-292 | removes the first row with the task's id, if any |
| Scheduling.Scheduler.OnFinished | src/scheduler.py:212-214 | the finished process leaves `processes` and the chains, its task is classified and recorded, and a new, unpaused process for the next waiting row starts unless cancelled or nothing waits; the number of processes never grows, so the limit is kept; the run ends with the last chain |
| Scheduling.Scheduler.ChainReachesTask | src/scheduler.py:212-213 | the first two callbacks: the task is recorded and its row removed, the process has left both sets |
| Scheduling.Scheduler.StopRunningProcesses | src/scheduler.py:319-326 | every popped process that had not exited is terminated; no process remains and no chain starts a new one |
| Scheduling.Scheduler.StopOne | src/scheduler.py:322-324 | one pop and terminate during a cancel: the process leaves the set and, unless it had exited, is finished, cancelled and its chain ends |
| Scheduling.Scheduler.ResetTasksQueue | src/scheduler.py:328-330 | every row's running flag is cleared and no row is removed |
| Scheduling.Scheduler.Cancel | src/scheduler.py:137-145 | only while running; sets cancelled, leaves no process, clears every running flag without removing rows, records nothing, and starts no new process |
| Scheduling.Scheduler.Pause | src/scheduler.py:147-153 | only while running; sets paused; succeeds exactly when no process was paused already, and then every process is paused exactly when its OS process was found; otherwise only unpaused processes that were found change, to paused |
| Scheduling.Scheduler.Resume | src/scheduler.py:155-161 | only while running; clears paused; succeeds exactly when every process was paused, and then none remains paused; otherwise some process was not paused, the assertion stops the loop, and processes only ever go from paused to running |
| Scheduling.Scheduler.ResumeAll | src/scheduler.py:155-161 | the corrected resume: clears paused and leaves no process paused, whatever was paused before |
| Gui.AppendedIdIsNew | src/gui.py:134-143 | the id handed to a new row is not in use, so ids stay unique |
| Gui.SwapUp | src/gui.py:333-337 | a selected row above the top changes place with the row above it and nothing else moves |
| Gui.SwapDown | src/gui.py:359-363 | a selected row above the bottom changes place with the row below it and nothing else moves |
| Gui.MovedUpIsPermutation | src/gui.py:320-340 | moving the selection up only reorders the rows |
| Gui.MovedDownIsPermutation | src/gui.py:343-366 | moving the selection down only reorders the rows |
| Gui.MovedUpKeepsBelow | src/gui.py:331-337 | rows below every selected row stay in place |
| Gui.SelectedRowMovesUp | src/gui.py:331-337 | when the top row is not selected, each selected row ends one place higher |
| Gui.SelectedRowsMoveUp | src/gui.py:320-340 | when no selected row is the top row, every selected row ends one place higher |
| Gui.MovedDownKeepsAbove | src/gui.py:357-363 | rows above every selected row stay in place |
| Gui.SelectedRowMovesDown | src/gui.py:357-363 | when the bottom row is not selected, each selected row ends one place lower |
| Gui.SelectedRowsMoveDown | src/gui.py:343-366 | when no selected row is the bottom row, every selected row ends one place lower |
| Gui.MovedUpKeepsIds | src/gui.py:331-337 | moving up keeps the row ids unique and below the next id |
| Gui.MovedDownKeepsIds | src/gui.py:357-363 | moving down keeps the row ids unique and below the next id |
| Gui.AnyGiven | src/gui.py:299 | true exactly when some selected row has a non-empty subtitle path |
| Gui.SubtitlesEntryText | src/gui.py:283-304 | one selected row shows its subtitle path (empty for none); several show `~~~~~~` exactly when any has subtitles, else empty |
| Gui.VideoConvertorGui.constructor | src/gui.py:36-53 | no rows, no processes, not running or paused, empty result lists, next id 0 |
| Gui.VideoConvertorGui.AddFileName | src/gui.py:134-143 | appends a waiting row without subtitles and with a fresh id, then advances the id counter |
| Gui.VideoConvertorGui.RemoveRow | src/gui.py:235-249 | removes the first row with the id, if any, and ids stay unique |
| Gui.VideoConvertorGui.MoveUp | src/gui.py:320-340 | the store becomes the selection moved up in ascending order |
| Gui.VideoConvertorGui.MoveDown | src/gui.py:343-366 | the store becomes the selection moved down, bottom row first |
| Gui.VideoConvertorGui.GetRowsNotRunning | src/gui.py:522-530 | returns the waiting rows in store order |
| Gui.VideoConvertorGui.AnyTaskExists | src/gui.py:497-498 | true exactly when some row waits |
| Gui.VideoConvertorGui.GetTopTask | src/gui.py:500-520 | returns the task of the first waiting row, or None |
| Gui.VideoConvertorGui.GetRowById | src/gui.py:537-543 | returns the first row with the id, or None |
| Gui.VideoConvertorGui.SetTaskStarted | src/gui.py:532-535 | marks the task's row as running and nothing else |
| Gui.VideoConvertorGui.StartProcess | src/gui.py:470-495 | starts nothing exactly when nothing waits (there is no cancelled check); otherwise spawns a fresh process for the top task and marks its row running |
| Gui.VideoConvertorGui.ScheduleTasks | src/gui.py:450-468 | starts exactly `FillCount(count, running processes, waiting rows)` processes, each row leaving the front of the waiting list; the k-th started process is new, not paused, and its chain carries the task of the k-th waiting row; only running flags change; never beyond `count` |
| Gui.VideoConvertorGui.StartConversion | src/gui.py:392-404 | clears the results; the run goes on exactly when some row waited and `count` > 0; exactly `min(count, waiting rows)` processes run, for the first waiting rows, and only running flags change; the returned processes are all the processes, new and not paused, each with a chain carrying the task of the waiting row at its position; the limit holds |
| Gui.VideoConvertorGui.ResetFinishedTasks | src/gui.py:425-428 | empties the three result lists and changes nothing else |
| Gui.VideoConvertorGui.TaskFinished | src/gui.py:545-572 | records the verdict of `Classify` (no win32 bypass) and removes the row exactly when recorded |
| Gui.VideoConvertorGui.OnFinished | src/gui.py:491-493 | the finished process leaves both sets, its task is recorded, a new, unpaused process for the next waiting row starts unless nothing waits, the number of live chains never grows, so the limit is kept, and the run ends with the last chain |
| Gui.VideoConvertorGui.ChainReachesTask | src/gui.py:491-492 | the first two callbacks: the task is recorded and its row removed, the process has left both sets |
| Gui.VideoConvertorGui.ResetTasksQueue | src/gui.py:419-423 | every running flag is cleared and no row is removed |
| Gui.VideoConvertorGui.Kill | src/gui.py:413-415 | the popped process leaves the set; unless it had exited it is finished, cancelled and its chain no longer waits on it |
| Gui.VideoConvertorGui.ContinueChain | src/gui.py:491-493 | a cancelled chain still calls `start_process`: one fresh process for the next waiting row, or, with none waiting, the chain ends |
| Gui.VideoConvertorGui.StopOne | src/gui.py:413-415 | one pop and terminate, including the new process the cancelled chain starts |
| Gui.VideoConvertorGui.StopRunningProcesses | src/gui.py:410-417 | no process remains, every popped process that had not exited is terminated, and one process is spawned for every waiting row |
| Gui.VideoConvertorGui.CancelConversion | src/gui.py:406-408 | every running flag is cleared, no row is removed, nothing is recorded, the number of live chains does not grow, and unless every process had already exited one process per waiting row was spawned and killed |
| Legacy.LoadConfig | src/video_convertor.py:22-32 | accepted exactly when all six keys are present, kept unchanged; otherwise the error names the first missing key in checking order |
| Legacy.SameRuleAsConversionProcess | src/video_convertor.py:56-69 | the legacy command is exactly the argument part of `get_conversion_command` for the same options |
| Legacy.SubtitleParamsUnusedWithoutSubtitles | src/video_convertor.py:93-102 | without a subtitle file the configured subtitle parameters do not affect the command |
| Legacy.TemplateWithoutAliases | src/video_convertor.py:56-69 | a template mentioning none of the placeholders is run verbatim |
| Legacy.VideoConvertor.constructor | src/video_convertor.py:38-45 | a new convertor keeps its files and configuration and has launched nothing |
| Legacy.VideoConvertor.Process | src/video_convertor.py:56-76 | allowed only before the first launch or after the previous program finished; launches the command with input, then output, then subtitle substitution |
| Legacy.VideoConvertor.IsProcessing | src/video_convertor.py:83-84 | processing exactly while `poll()` reports no return code |
| Legacy.VideoConvertor.GetReturnCode | src/video_convertor.py:86-87 | the return code `poll()` reports, None while running |
| Legacy.VideoConvertor.CancelProcess | src/video_convertor.py:78-81 | a termination signal is sent exactly when the program is still processing |

## Left out

- GTK widgets, dialogs, the spinner, button sensitivity, the report dialog and the error-log writer: these are user-interface effects and file output with no scheduling logic.
- The Twisted reactor, `inlineCallbacks` and `async_function`: completions are explicit event methods, and the size check runs inline on sizes passed in. `WatchingProcessProtocol` and `src/utils.py` are not part of this model. The window in which a finished process is still in `processes` is not modelled either: `process_exited` and the size check are still pending then, and a pause or resume in that window would fail the `not self.finished` assertion (src/process.py:77, 89).
- Operating-system effects: `spawnProcess`, `signalProcess`, `psutil`, `subprocess.Popen`, `os.stat` and the temporary log files. Their outcomes are parameters, and `shlex.split` of the command is not modelled.
- Decoding captured output with the locale's encoding: the decoded text is a parameter (None when decoding fails).
- `Decimal` arithmetic in `is_task_complete` (28 significant digits) is modelled as exact rational division. The two agree for every size `os.stat` can report (below 2^63): an exact ratio above 0.5 exceeds it by at least 1/(2 × input size), far more than the rounding step of 10^-28 near 0.5, and rounding never lifts a ratio at or below 0.5 above it. They could differ only for input sizes of about 10^27 bytes or more.
- The `has_sub` and `subpix` columns are display-only and are not part of the row.
- `has_files`, `on_remove_file_button_clicked`, the subtitle add and remove handlers, `on_start_stop_button_clicked`, `on_pause_button_clicked`, `set_conversion_paused` and `resume_conversion` in `gui.py`: these are widget handlers around the modelled operations. The pause logic is modelled in `Scheduler.Pause` and `Scheduler.Resume`; `set_conversion_paused` runs the same loop over the GUI's processes.
- Logging in every file.
- `getProgress` in `video_convertor.py` only raises `NotImplementedError`.
- Gui.VideoConvertorGui.MoveUp: an empty selection, for which `get_selected_paths` returns None, is taken as an empty list; the window itself would fail on `len(None)`.
- Gui.VideoConvertorGui.MoveDown: likewise, an empty selection (`get_selected_paths` returns None, src/gui.py:183-184) is taken as an empty list, where `on_down_button_clicked` would fail on `len(None)` (src/gui.py:344-346).
- Scheduling.Scheduler.ScheduleTasks: returns the started processes in start order rather than a `DeferredList` of their deferreds.
- Scheduling.Scheduler.ScheduleTasks: the waiting-list and count clauses are stated for a store with unique row ids. With a duplicated id, marking the top row running can mark an earlier row with the same id instead, and the fill may start the same row twice; the model keeps that behaviour but states nothing about the count then.
- Gui.VideoConvertorGui.ScheduleTasks: returns the started processes in start order rather than a `DeferredList` of their deferreds.
- Scheduling.Scheduler.Start: returns whether it started, with the started processes in start order, rather than the `DeferredList` it returns (when nothing was scheduled the source raises at `addBoth` instead).
- Gui.VideoConvertorGui.StartConversion: returns whether the run goes on, with the started processes in start order, rather than awaiting the `DeferredList`.
- Gui.VideoConvertorGui.StopRunningProcesses: the processes spawned during the cancel loop are counted, not listed; their termination is not stated one by one.
- Gui.VideoConvertorGui.CancelConversion: states the number of spawned processes, not which they were.
- Legacy.VideoConvertor.constructor: requires a configuration with all six keys, because the only caller is the factory after `__loadConfig`. A convertor built directly from an unchecked configuration, which would raise `KeyError` in `process`, is not modelled.
- Legacy.VideoConvertor.Process: the launched program is identified by its command string; the `poll()` history of one program is not tied across calls.

### Where the code and the design description differ (the model follows the code)

- A finished run clears only `running` (`reset_scheduler`, src/scheduler.py:130-131); `paused` and `cancelled` are left as they were.
- There is no periodic scheduling tick, and `start_process` does not check `paused`.
- `start` with nothing to schedule does not complete a run: `schedule_tasks` returns None, the `addBoth` that follows raises, and `running` stays set.
- Cancelling a completion handle runs its callbacks at once, so a terminated process's chain has ended before `cancel` returns.
- The placeholders are configurable strings, not fixed `{input}`/`{output}` names.

## Findings

| source | as written | input that shows it | evidently intended | confidence | as-written member | corrected member |
|---|---|---|---|---|---|---|
| src/gui.py:470-495 | `start_process` has no cancelled check. During `cancel_conversion` each terminated process's chain still calls it, so a conversion is spawned (and then killed by the same pop loop) for every row still waiting | two rows, `count` = 1, cancel while the first converts: a process for the second row is started and immediately terminated | cancelling starts no new conversion, as `Scheduler.start_process` guarantees with its `cancelled` flag | not executed | Gui.VideoConvertorGui.CancelConversion | Scheduling.Scheduler.Cancel |
| src/scheduler.py:155-161 | `resume` asserts, through `ConversionProcess.resume` (src/process.py:87-90), that every process in the set is paused. `pause` leaves unpaused a process the process lookup does not find, and a process started while paused (a completion still calls `start_process`) is not paused either; `resume` then fails its assertion part-way through the set, leaving the processes not yet visited suspended | two processes, `pause` while the lookup misses one of them (or while one exits, so that its successor starts unpaused), then `resume`: the assertion fails on the unpaused process | resume every paused process and leave the running ones alone, so that nothing stays suspended | not executed | Scheduling.Scheduler.Resume | Scheduling.Scheduler.ResumeAll |
