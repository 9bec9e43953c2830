/**
 * Tasks as both schedulers build them from rows, the file-size completeness
 * test, and the classification `task_finished` makes of a finished task.
 */
module Tasks {
  import opened Wrappers
  import opened FileNames
  import opened TaskQueue
  import opened Process

  /** A conversion job: the row's files, the derived output name and the row id. */
  datatype Task = Task(inputFile: string, subFile: Option<string>, outputFile: string, rowId: int)

  /** The task `get_top_task` builds from a row. */
  function TaskOf(row: Row): Task
  {
    Task(row.filePath, row.subPath, ExtendFileName(row.filePath), row.id)
  }

  /**
   * A process created for a task by `start_process`: it converts the task's
   * files with the given settings and does not capture stdout.
   */
  predicate Carries(p: ConversionProcess, t: Task, config: CommandConfig, platform: Platform)
  {
    p.inputFile == t.inputFile && p.subFile == t.subFile && p.outputFile == t.outputFile &&
    !p.logStdout && p.config == config && p.platform == platform
  }

  /**
   * `ConversionProcess(...)` followed by `run()` in `start_process`: a new
   * process for the task, spawned with the pid the operating system hands out.
   */
  method Spawn(task: Task, pid: int, config: CommandConfig, platform: Platform) returns (p: ConversionProcess)
    ensures fresh(p) && Pending(p) && Carries(p, task, config, platform) && p.pid == Some(pid) && !p.paused
  {
    p := new ConversionProcess(task.inputFile, task.subFile, task.outputFile, false, config, platform);
    p.Run(pid);
  }

  /**
   * `get_top_task`: the task for the first row whose running flag is not
   * set, or None when every row runs.
   */
  function TopTask(rows: seq<Row>): Option<Task>
  {
    var waiting := NotRunning(rows);
    if |waiting| == 0 then None else Some(TaskOf(waiting[0]))
  }

  /** The top task is the one for the first row, in store order, not marked running. */
  lemma TopTaskIsFirstWaitingRow(rows: seq<Row>)
    ensures TopTask(rows).None? <==> forall i :: 0 <= i < |rows| ==> rows[i].running
    ensures TopTask(rows).Some? ==>
              FirstNotRunning(rows).Some? && TopTask(rows).value == TaskOf(rows[FirstNotRunning(rows).value])
  {
    WaitingHeadIsFirstNotRunning(rows);
  }

  /** The row of the top task is in the store, so looking its id up succeeds. */
  lemma TopTaskRowIsFound(rows: seq<Row>)
    requires TopTask(rows).Some?
    ensures IndexOfId(rows, TopTask(rows).value.rowId).Some?
  {
    NotRunningIsFilter(rows);
    assert NotRunning(rows)[0] in rows;
  }

  /**
   * Starting the top task takes exactly its row out of the waiting list, so a
   * row is never picked twice, provided ids are unique (with a duplicate id
   * the lookup may mark an earlier row that already runs).
   */
  lemma StartingTopTaskConsumesIt(rows: seq<Row>)
    requires UniqueIds(rows) && TopTask(rows).Some?
    ensures UniqueIds(MarkRunning(rows, TopTask(rows).value.rowId))
    ensures NotRunning(MarkRunning(rows, TopTask(rows).value.rowId)) == NotRunning(rows)[1..]
  {
    WaitingHeadIsFirstNotRunning(rows);
    StartedRowLeavesWaitingList(rows);
    MarkRunningKeepsIds(rows, TopTask(rows).value.rowId);
  }

  /**
   * One more start of a `schedule_tasks` fill that has already started `n`
   * tasks from the store `orig`: only running flags change, and (with unique
   * ids) the waiting list loses exactly its next row.
   */
  lemma {:induction false} StartOneMore(before: seq<Row>, orig: seq<Row>, n: nat)
    requires Stopped(before) == Stopped(orig) && TopTask(before).Some?
    requires UniqueIds(orig) ==>
               UniqueIds(before) && n <= |NotRunning(orig)| && NotRunning(before) == NotRunning(orig)[n..]
    ensures var after := MarkRunning(before, TopTask(before).value.rowId);
            Stopped(after) == Stopped(orig) &&
            (UniqueIds(orig) ==>
               UniqueIds(after) && n + 1 <= |NotRunning(orig)| && NotRunning(after) == NotRunning(orig)[n + 1..])
  {
    var id := TopTask(before).value.rowId;
    MarkRunningThenStopped(before, id);
    if UniqueIds(orig) {
      StartingTopTaskConsumesIt(before);
      assert NotRunning(orig)[n..][1..] == NotRunning(orig)[n + 1..];
    }
  }

  /**
   * How many processes a `schedule_tasks` fill starts when `busy` already
   * run, the limit is `limit` and `waiting` rows wait: one per waiting row,
   * stopping once the limit is reached.
   */
  function FillCount(limit: int, busy: nat, waiting: nat): (n: nat)
    ensures n <= waiting
    ensures n == 0 || busy + n <= limit
    ensures n == waiting || busy + n >= limit
  {
    if busy >= limit then 0
    else if limit - busy < waiting then limit - busy
    else waiting
  }

  /** The three conditions above leave exactly one count. */
  lemma FillCountIsUnique(limit: int, busy: nat, waiting: nat, n: nat)
    requires n <= waiting
    requires n == 0 || busy + n <= limit
    requires n == waiting || busy + n >= limit
    ensures n == FillCount(limit, busy, waiting)
  {
  }

  /**
   * The chains of the processes a fill has started, in start order: each
   * started process has a chain, and the k-th carries the task of the k-th
   * row of `waiting`.
   */
  ghost predicate StartedInOrder(chains: map<ConversionProcess, Task>, waiting: seq<Row>,
                                 started: seq<ConversionProcess>)
  {
    forall k :: 0 <= k < |started| ==>
      started[k] in chains && (k < |waiting| ==> chains[started[k]] == TaskOf(waiting[k]))
  }

  /** A new process given the task of the next waiting row extends the order by one. */
  lemma StartedInOrderExtend(chains: map<ConversionProcess, Task>, waiting: seq<Row>,
                             started: seq<ConversionProcess>, p: ConversionProcess)
    requires StartedInOrder(chains, waiting, started) && p !in started && |started| < |waiting|
    ensures StartedInOrder(chains[p := TaskOf(waiting[|started|])], waiting, started + [p])
  {
  }

  /**
   * The state of a `schedule_tasks` fill that began with the store `rows0`,
   * the processes `procs0` and the chains `chains0` and has started
   * `started`, now at the store `rows`, the processes `procs` and the chains
   * `chains`: each start added its process and its chain, only running flags
   * changed, and (with unique ids) the waiting list lost one row from its
   * front per start, whose task the started process carries.
   */
  ghost predicate Filled(rows: seq<Row>, procs: set<ConversionProcess>, chains: map<ConversionProcess, Task>,
                         rows0: seq<Row>, procs0: set<ConversionProcess>, chains0: map<ConversionProcess, Task>,
                         started: seq<ConversionProcess>)
  {
    (forall p :: p in procs ==> p in procs0 || p in started) &&
    (forall p :: p in procs0 ==> p in procs) && (forall p :: p in started ==> p in procs) &&
    (forall p :: p in chains ==> p in chains0 || p in started) &&
    (forall p :: p in chains0 ==> p in chains) && (forall p :: p in started ==> p in chains) &&
    |procs| == |procs0| + |started| &&
    Stopped(rows) == Stopped(rows0) &&
    (UniqueIds(rows0) ==>
       UniqueIds(rows) && |started| <= |NotRunning(rows0)| &&
       NotRunning(rows) == NotRunning(rows0)[|started|..] &&
       StartedInOrder(chains, NotRunning(rows0), started))
  }

  /**
   * One `start_process` of a fill: a new process `p`, given the top task,
   * joins the processes and the chains and its row is marked running.
   */
  lemma FillStep(rows: seq<Row>, procs: set<ConversionProcess>, chains: map<ConversionProcess, Task>,
                 rows0: seq<Row>, procs0: set<ConversionProcess>, chains0: map<ConversionProcess, Task>,
                 started: seq<ConversionProcess>, p: ConversionProcess)
    requires Filled(rows, procs, chains, rows0, procs0, chains0, started) && TopTask(rows).Some?
    requires p !in procs && p !in chains && p !in started
    ensures var t := TopTask(rows).value;
            Filled(MarkRunning(rows, t.rowId), procs + {p}, chains[p := t], rows0, procs0, chains0, started + [p])
  {
    StartOneMore(rows, rows0, |started|);
    if UniqueIds(rows0) {
      assert NotRunning(rows)[0] == NotRunning(rows0)[|started|];
      StartedInOrderExtend(chains, NotRunning(rows0), started, p);
    }
  }

  /**
   * When the started processes are the only ones with chains, the chains
   * carry exactly the tasks of the first `|started|` waiting rows.
   */
  lemma ChainsCarryFirstWaiting(chains: map<ConversionProcess, Task>, waiting: seq<Row>,
                                started: seq<ConversionProcess>)
    requires StartedInOrder(chains, waiting, started) && |started| <= |waiting|
    requires forall p :: p in chains ==> p in started
    ensures forall p :: p in chains ==> exists k :: 0 <= k < |started| && chains[p] == TaskOf(waiting[k])
    ensures forall k :: 0 <= k < |started| ==> TaskOf(waiting[k]) in chains.Values
  {
    forall p | p in chains
      ensures exists k :: 0 <= k < |started| && chains[p] == TaskOf(waiting[k])
    {
      var k :| 0 <= k < |started| && started[k] == p;
    }
    forall k | 0 <= k < |started|
      ensures TaskOf(waiting[k]) in chains.Values
    {
      assert chains[started[k]] == TaskOf(waiting[k]);
    }
  }

  /** The sizes `os.stat` reports for a task's input and output files. */
  datatype FileSizes = FileSizes(inputSize: nat, outputSize: nat)

  /**
   * `is_task_complete`: the output is more than half as large as the input,
   * the ratio being taken exactly; None where the division by a zero input
   * size raises.
   */
  function IsTaskComplete(sizes: FileSizes): (r: Option<bool>)
    ensures r.None? <==> sizes.inputSize == 0
    ensures r.Some? ==> (r.value <==> (sizes.outputSize as real) / (sizes.inputSize as real) > 0.5)
  {
    if sizes.inputSize == 0 then None
    else
      RatioAboveHalf(sizes.inputSize, sizes.outputSize);
      Some(2 * sizes.outputSize > sizes.inputSize)
  }

  lemma RatioAboveHalf(input: nat, output: nat)
    requires input > 0
    ensures (output as real) / (input as real) > 0.5 <==> 2 * output > input
  {
    var n := input as real;
    var q := (output as real) / n;
    assert q * n == output as real;
    SignOfProduct(q - 0.5, n);
    assert (q - 0.5) * n == q * n - 0.5 * n;
  }

  lemma SignOfProduct(a: real, n: real)
    requires n > 0.0
    ensures a > 0.0 ==> a * n > 0.0
    ensures a <= 0.0 ==> a * n <= 0.0
  {
  }

  /** What becomes of a task whose completion chain reaches `task_finished`. */
  datatype Verdict =
    | Done          // appended to tasks_done, row removed
    | Incomplete    // appended to tasks_incomplete, row removed
    | Failed        // appended to tasks_failed, row removed
    | Discarded     // the chain was cancelled: nothing recorded, row kept
    | CheckFailed   // the size check raised: nothing recorded, row kept

  predicate RemovesRow(v: Verdict)
  {
    v == Done || v == Incomplete || v == Failed
  }

  /**
   * The classification of `task_finished`: a cancelled chain is discarded;
   * return code 0 is done when the size check passes (or is bypassed) and
   * incomplete when it fails; any other return code, or none, is a failure.
   * `sizes` is None when the files cannot be examined.
   */
  function Classify(cancelled: bool, returncode: Option<int>, bypassSizeCheck: bool,
                    sizes: Option<FileSizes>): (v: Verdict)
    ensures v == Discarded <==> cancelled
    ensures v == Failed <==> !cancelled && returncode != Some(0)
    ensures v == Done <==>
              !cancelled && returncode == Some(0) &&
              (bypassSizeCheck || (sizes.Some? && IsTaskComplete(sizes.value) == Some(true)))
    ensures v == Incomplete <==>
              !cancelled && returncode == Some(0) && !bypassSizeCheck &&
              sizes.Some? && IsTaskComplete(sizes.value) == Some(false)
    ensures v == CheckFailed <==>
              !cancelled && returncode == Some(0) && !bypassSizeCheck &&
              (sizes.None? || IsTaskComplete(sizes.value).None?)
  {
    if cancelled then Discarded
    else if returncode != Some(0) then Failed
    else if bypassSizeCheck then Done
    else if sizes.None? then CheckFailed
    else match IsTaskComplete(sizes.value)
      case None => CheckFailed
      case Some(complete) => if complete then Done else Incomplete
  }

  /** The three result lists. */
  datatype Results = Results(done: seq<Task>, incomplete: seq<Task>, failed: seq<Task>)

  function Total(r: Results): nat
  {
    |r.done| + |r.incomplete| + |r.failed|
  }

  /** The result lists after a task with verdict `v` is recorded. */
  function Record(r: Results, t: Task, v: Verdict): (r': Results)
    ensures Total(r') == Total(r) + (if RemovesRow(v) then 1 else 0)
    ensures r.done <= r'.done && r.incomplete <= r'.incomplete && r.failed <= r'.failed
    ensures RemovesRow(v) ==> t in (if v == Done then r'.done else if v == Incomplete then r'.incomplete else r'.failed)
  {
    match v
    case Done => r.(done := r.done + [t])
    case Incomplete => r.(incomplete := r.incomplete + [t])
    case Failed => r.(failed := r.failed + [t])
    case Discarded => r
    case CheckFailed => r
  }

  /** The store after `task_finished`: the task's row is removed exactly when the task was recorded. */
  function RowsAfter(rows: seq<Row>, t: Task, v: Verdict): (r: seq<Row>)
    ensures !RemovesRow(v) ==> r == rows
    ensures RemovesRow(v) && t.rowId in Ids(rows) ==> |r| == |rows| - 1
    ensures RemovesRow(v) && t.rowId !in Ids(rows) ==> r == rows
  {
    if RemovesRow(v) then RemoveFirstWithId(rows, t.rowId) else rows
  }

  /** On win32 the scheduler records every zero-exit task as done, whatever the sizes. */
  lemma BypassNeverIncomplete(returncode: Option<int>, sizes: Option<FileSizes>)
    ensures Classify(false, returncode, true, sizes) != Incomplete
    ensures Classify(false, returncode, true, sizes) != CheckFailed
    ensures returncode == Some(0) ==> Classify(false, returncode, true, sizes) == Done
  {
  }
}
