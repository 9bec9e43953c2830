/**
 * The `Scheduler` of the task queue: it starts up to the configured number
 * of conversion processes, always for the first waiting row, refills a slot
 * when a process ends, classifies finished tasks into done, incomplete and
 * failed, and supports cancel, pause and resume.
 *
 * The twisted deferred chain of a process (process_exited, task_finished,
 * removal from the process set, start of the next process) is an explicit
 * event, `OnFinished`. A chain continues with the deferred of the process it
 * starts, so each chain handed to the DeferredList of `start` lives on until
 * one of its links starts nothing; `chains` holds the live ones, keyed by the
 * process whose exit drives each, and `running` is reset when the last ends.
 */
module Scheduling {
  import opened Wrappers
  import opened Process
  import opened TaskQueue
  import opened Tasks

  /** Replacing a member of a set by a new element keeps its size. */
  lemma ReplacedKeepsSize(s: set<ConversionProcess>, p: ConversionProcess, q: ConversionProcess)
    requires p in s && q !in s
    ensures |s - {p} + {q}| == |s|
  {
    assert s == (s - {p}) + {p};
  }

  /** Removing an element never makes a set larger. */
  lemma RemovedNoLarger(s: set<ConversionProcess>, p: ConversionProcess)
    ensures |s - {p}| <= |s|
  {
    if p in s {
      assert s == (s - {p}) + {p};
    }
  }

  class Scheduler {
    const queue: Queue
    /** The `processes.count` configuration option. */
    const processCount: int
    const config: CommandConfig
    const platform: Platform

    var running: bool
    var paused: bool
    var cancelled: bool
    var processes: set<ConversionProcess>
    /** The live completion chains, with the task their callbacks were given. */
    var chains: map<ConversionProcess, Task>
    var tasksDone: seq<Task>
    var tasksIncomplete: seq<Task>
    var tasksFailed: seq<Task>

    constructor(queue: Queue, processCount: int, config: CommandConfig, platform: Platform)
      ensures this.queue == queue && this.processCount == processCount
      ensures this.config == config && this.platform == platform
      ensures !running && !paused && !cancelled
      ensures processes == {} && chains == map[]
      ensures ResultLists() == Results([], [], [])
      ensures Valid()
    {
      this.queue, this.processCount, this.config, this.platform := queue, processCount, config, platform;
      running, paused, cancelled := false, false, false;
      processes, chains := {}, map[];
      tasksDone, tasksIncomplete, tasksFailed := [], [], [];
    }

    function ResultLists(): Results
      reads this
    {
      Results(tasksDone, tasksIncomplete, tasksFailed)
    }

    /** No more processes run than the `processes.count` option allows. */
    predicate WithinLimit()
      reads this
    {
      processes == {} || |processes| <= processCount
    }

    /**
     * Every process in the set drives a live chain; every live chain waits on
     * a process that was started, has not finished and has no return code
     * yet; a live chain means the scheduler is running. Until a cancel,
     * every live chain waits on a process of the set.
     */
    ghost predicate Valid()
      reads this, chains.Keys
    {
      processes <= chains.Keys &&
      (!cancelled ==> forall p :: p in chains ==> p in processes) &&
      (forall p :: p in chains ==> Pending(p) && Carries(p, chains[p], config, platform)) &&
      (chains != map[] ==> running)
    }

    /** `get_rows_not_running`: one pass over the store, keeping the rows not marked running. */
    method GetRowsNotRunning() returns (rows: seq<Row>)
      ensures rows == NotRunning(queue.rows)
    {
      rows := [];
      var i := 0;
      while i < |queue.rows|
        invariant 0 <= i <= |queue.rows|
        invariant rows == NotRunning(queue.rows[..i])
      {
        assert queue.rows[..i + 1][..i] == queue.rows[..i];
        if !queue.rows[i].running {
          rows := rows + [queue.rows[i]];
        }
        i := i + 1;
      }
      assert queue.rows[..i] == queue.rows;
    }

    /** `has_tasks`: some row is not marked running. */
    method HasTasks() returns (b: bool)
      ensures b <==> NotRunning(queue.rows) != []
    {
      var rows := GetRowsNotRunning();
      b := |rows| > 0;
    }

    /** `get_top_task`: the task for the first waiting row, or None. */
    method GetTopTask() returns (t: Option<Task>)
      ensures t == TopTask(queue.rows)
    {
      var rows := GetRowsNotRunning();
      if |rows| == 0 {
        return None;
      }
      var row := rows[0];
      return Some(TaskOf(row));
    }

    /**
     * `get_row_by_id`: the first row carrying the id, found by a scan from
     * the top; the row is given by its position, through which callers
     * update it.
     */
    method GetRowById(id: int) returns (r: Option<nat>)
      ensures r == IndexOfId(queue.rows, id)
    {
      var i := 0;
      while i < |queue.rows|
        invariant 0 <= i <= |queue.rows|
        invariant forall j :: 0 <= j < i ==> queue.rows[j].id != id
      {
        if queue.rows[i].id == id {
          return Some(i);
        }
        i := i + 1;
      }
      return None;
    }

    /** `set_task_started`: the task's row (which the caller took from the store) is marked running. */
    method SetTaskStarted(task: Task)
      requires IndexOfId(queue.rows, task.rowId).Some?
      modifies queue
      ensures queue.rows == MarkRunning(old(queue.rows), task.rowId)
    {
      var r := GetRowById(task.rowId);
      queue.SetRunning(r.value, true);
    }

    /**
     * `start_process`: nothing once cancelled or when no row waits;
     * otherwise a process for the top task is created and run (the
     * operating system hands it `pid`), joins the process set, its row is
     * marked running, and its completion chain is set up.
     */
    method StartProcess(pid: int) returns (started: Option<ConversionProcess>)
      requires Valid() && running
      modifies this, queue
      ensures Valid() && running
      ensures started.None? <==> old(cancelled) || NotRunning(old(queue.rows)) == []
      ensures started.None? ==>
                queue.rows == old(queue.rows) && processes == old(processes) && chains == old(chains)
      ensures started.Some? ==>
                var p := started.value;
                var t := TopTask(old(queue.rows)).value;
                TopTask(old(queue.rows)).Some? && fresh(p) && p.started && p.pid == Some(pid) && !p.paused &&
                processes == old(processes) + {p} && chains == old(chains)[p := t] &&
                queue.rows == MarkRunning(old(queue.rows), t.rowId)
      ensures cancelled == old(cancelled) && paused == old(paused) && tasksDone == old(tasksDone) &&
              tasksIncomplete == old(tasksIncomplete) && tasksFailed == old(tasksFailed)
    {
      if cancelled {
        return None;
      }
      var has := HasTasks();
      if !has {
        return None;
      }
      // get_top_task cannot come back empty here: has_tasks has just seen a waiting row
      var t := GetTopTask();
      var task := t.value;
      ghost var rows0 := queue.rows;
      TopTaskRowIsFound(rows0);
      var p := Spawn(task, pid, config, platform);
      processes := processes + {p};
      SetTaskStarted(task);
      assert queue.rows == MarkRunning(rows0, task.rowId);
      chains := chains[p := task];
      forall q | q in chains
        ensures Pending(q) && Carries(q, chains[q], config, platform)
      {
        if q != p {
          assert q in old(chains);
        }
      }
      return Some(p);
    }

    /**
     * `schedule_tasks`: while fewer processes than the limit run, start
     * another, stopping at the first start that does nothing. Returns the
     * processes started, whose chains go into the DeferredList (there is no
     * DeferredList when none was started). `pids` gives the pid of the k-th
     * spawn.
     */
    method ScheduleTasks(pids: nat -> int) returns (started: seq<ConversionProcess>)
      requires Valid() && running
      modifies this, queue
      ensures Valid() && running
      ensures cancelled ==> started == []
      ensures NotRunning(old(queue.rows)) == [] ==> started == []
      ensures started == [] ==> queue.rows == old(queue.rows) && processes == old(processes) && chains == old(chains)
      ensures forall p :: p in processes <==> p in old(processes) || p in started
      ensures forall p :: p in chains <==> p in old(chains) || p in started
      ensures |processes| == |old(processes)| + |started|
      ensures started != [] ==> |processes| <= processCount
      ensures old(WithinLimit()) ==> WithinLimit()
      ensures |processes| < processCount ==> cancelled || NotRunning(queue.rows) == []
      ensures Stopped(queue.rows) == Stopped(old(queue.rows))
      ensures UniqueIds(old(queue.rows)) ==>
                UniqueIds(queue.rows) && |started| <= |NotRunning(old(queue.rows))| &&
                NotRunning(queue.rows) == NotRunning(old(queue.rows))[|started|..]
      ensures UniqueIds(old(queue.rows)) && !cancelled ==>
                |started| == FillCount(processCount, |old(processes)|, |NotRunning(old(queue.rows))|)
      ensures fresh(processes - old(processes))
      ensures forall p :: p in processes - old(processes) ==> !p.paused
      ensures UniqueIds(old(queue.rows)) ==> StartedInOrder(chains, NotRunning(old(queue.rows)), started)
      ensures cancelled == old(cancelled) && paused == old(paused) && tasksDone == old(tasksDone) &&
              tasksIncomplete == old(tasksIncomplete) && tasksFailed == old(tasksFailed)
    {
      started := [];
      var has := HasTasks();
      if !has {
        return;
      }
      while |processes| < processCount
        invariant Valid() && running
        invariant Filled(queue.rows, processes, chains, old(queue.rows), old(processes), old(chains), started)
        invariant fresh(processes - old(processes))
        invariant forall p :: p in processes - old(processes) ==> !p.paused
        invariant started != [] ==> |processes| <= processCount
        invariant started == [] ==> queue.rows == old(queue.rows) && processes == old(processes) && chains == old(chains)
        invariant cancelled ==> started == []
        invariant cancelled == old(cancelled) && paused == old(paused) && tasksDone == old(tasksDone) &&
                  tasksIncomplete == old(tasksIncomplete) && tasksFailed == old(tasksFailed)
        decreases processCount - |processes|
      {
        var p := StartNext(pids(|started|), old(queue.rows), old(processes), old(chains), started);
        if p.None? {
          break;
        }
        started := started + [p.value];
      }
      if UniqueIds(old(queue.rows)) && !cancelled {
        FillCountIsUnique(processCount, |old(processes)|, |NotRunning(old(queue.rows))|, |started|);
      }
    }

    /** One turn of the loop of `schedule_tasks`: `start_process`, seen as a step of the fill. */
    method StartNext(pid: int, ghost rows0: seq<Row>, ghost procs0: set<ConversionProcess>,
                     ghost chains0: map<ConversionProcess, Task>, ghost started: seq<ConversionProcess>)
      returns (next: Option<ConversionProcess>)
      requires Valid() && running && Filled(queue.rows, processes, chains, rows0, procs0, chains0, started)
      requires forall p :: p in processes - procs0 ==> !p.paused
      modifies this, queue
      ensures Valid() && running
      ensures next.None? <==> old(cancelled) || NotRunning(old(queue.rows)) == []
      ensures next.None? ==>
                queue.rows == old(queue.rows) && processes == old(processes) && chains == old(chains)
      ensures next.Some? ==>
                fresh(next.value) && processes == old(processes) + {next.value} &&
                Filled(queue.rows, processes, chains, rows0, procs0, chains0, started + [next.value])
      ensures forall p :: p in processes - procs0 ==> !p.paused
      ensures cancelled == old(cancelled) && paused == old(paused) && tasksDone == old(tasksDone) &&
              tasksIncomplete == old(tasksIncomplete) && tasksFailed == old(tasksFailed)
    {
      next := StartProcess(pid);
      if next.Some? {
        FillStep(old(queue.rows), old(processes), old(chains), rows0, procs0, chains0, started, next.value);
      }
    }

    /**
     * `start`: may only be called when not running; clears the cancelled
     * flag, marks the scheduler running, empties the result lists and
     * schedules. `ok` is false when nothing was scheduled: `schedule_tasks`
     * then returns None, the following `addBoth` raises, and the scheduler
     * stays marked running with no chain left to reset it. `started` lists
     * the processes whose chains the returned DeferredList gathers, in
     * start order.
     */
    method Start(pids: nat -> int) returns (ok: bool, started: seq<ConversionProcess>)
      requires Valid() && !running
      modifies this, queue
      ensures Valid() && running && !cancelled
      ensures tasksDone == [] && tasksIncomplete == [] && tasksFailed == []
      ensures ok <==> NotRunning(old(queue.rows)) != [] && processCount > 0
      ensures ok <==> chains != map[]
      ensures !ok ==> queue.rows == old(queue.rows) && processes == {}
      ensures ok ==> 0 < |processes| <= processCount
      ensures WithinLimit()
      ensures |processes| < processCount ==> NotRunning(queue.rows) == []
      ensures Stopped(queue.rows) == Stopped(old(queue.rows))
      ensures UniqueIds(old(queue.rows)) ==>
                |processes| == FillCount(processCount, 0, |NotRunning(old(queue.rows))|) &&
                NotRunning(queue.rows) == NotRunning(old(queue.rows))[|processes|..]
      ensures ok <==> started != []
      ensures fresh(processes) && forall p :: p in processes ==> !p.paused
      ensures |started| == |processes| && forall p :: p in processes <==> p in started
      ensures forall p :: p in chains <==> p in processes
      ensures UniqueIds(old(queue.rows)) ==> StartedInOrder(chains, NotRunning(old(queue.rows)), started)
      ensures paused == old(paused)
    {
      assert chains == map[];
      assert processes == {};
      cancelled := false;
      running := true;
      ResetFinishedTasks();
      started := ScheduleTasks(pids);
      ok := started != [];
      if ok {
        assert started[0] in chains && started[0] in processes;
      }
    }

    /** `reset_finished_tasks`: the three result lists are emptied. */
    method ResetFinishedTasks()
      modifies this
      ensures tasksDone == [] && tasksIncomplete == [] && tasksFailed == []
      ensures running == old(running) && paused == old(paused) && cancelled == old(cancelled)
      ensures processes == old(processes) && chains == old(chains)
    {
      tasksDone, tasksIncomplete, tasksFailed := [], [], [];
    }

    /**
     * `task_finished`: a cancelled chain records nothing; otherwise the task
     * is classified by its return code (the size check is skipped on win32)
     * and, when recorded, its row is looked up by id and removed. `sizes` is
     * None when the files cannot be examined; the check then raises and
     * neither list nor row changes.
     */
    method TaskFinished(task: Task, cancelledResult: bool, returncode: Option<int>, sizes: Option<FileSizes>)
      returns (v: Verdict)
      modifies this, queue
      ensures v == Classify(cancelledResult, returncode, platform == Win32, sizes)
      ensures Results(tasksDone, tasksIncomplete, tasksFailed) ==
              Record(Results(old(tasksDone), old(tasksIncomplete), old(tasksFailed)), task, v)
      ensures queue.rows == RowsAfter(old(queue.rows), task, v)
      ensures running == old(running) && paused == old(paused) && cancelled == old(cancelled)
      ensures processes == old(processes) && chains == old(chains)
    {
      if cancelledResult {
        return Discarded;
      }
      if returncode == Some(0) {
        if platform != Win32 {
          if sizes.None? {
            return CheckFailed;
          }
          var complete := IsTaskComplete(sizes.value);
          if complete.None? {
            return CheckFailed;
          }
          if complete.value {
            tasksDone := tasksDone + [task];
            v := Done;
          } else {
            tasksIncomplete := tasksIncomplete + [task];
            v := Incomplete;
          }
        } else {
          tasksDone := tasksDone + [task];
          v := Done;
        }
      } else {
        tasksFailed := tasksFailed + [task];
        v := Failed;
      }
      RemoveTaskRow(task);
    }

    /**
     * `get_row_by_id` followed by `Queue.remove`: the first row with the
     * task's id leaves the store. When there is none, `remove` is handed
     * None: it raises at the first row it compares, or returns False on an
     * empty store; nothing changes either way.
     */
    method RemoveTaskRow(task: Task)
      modifies queue
      ensures queue.rows == RemoveFirstWithId(old(queue.rows), task.rowId)
    {
      var r := GetRowById(task.rowId);
      if r.Some? {
        var removed := queue.Remove(queue.rows[r.value]);
      }
    }

    /**
     * The exit report of process `p`, followed along its completion chain:
     * `process_exited` records the exit, `task_finished` classifies the
     * task the chain was given (on this path the chain is not cancelled),
     * `p` leaves the process set (nothing happens when `cancel` popped it
     * already) and `start_process` is asked for a successor, which carries
     * the chain on. A chain that starts nothing ends, and with the last one
     * the scheduler stops running.
     */
    method OnFinished(p: ConversionProcess, status: ExitStatus, stderrText: Option<string>,
                      stdoutText: Option<string>, sizes: Option<FileSizes>, nextPid: int)
      returns (verdict: Verdict, next: Option<ConversionProcess>)
      requires Valid() && p in chains
      modifies this, queue, p
      ensures Valid()
      ensures running <==> chains != map[]
      ensures p.finished && p.returncode == ReturnCodeOf(status) && p !in processes && p !in chains
      ensures verdict == Classify(false, ReturnCodeOf(status), platform == Win32, sizes)
      ensures Results(tasksDone, tasksIncomplete, tasksFailed) ==
              Record(Results(old(tasksDone), old(tasksIncomplete), old(tasksFailed)), old(chains)[p], verdict)
      ensures var rows := RowsAfter(old(queue.rows), old(chains)[p], verdict);
              (next.None? <==> cancelled || NotRunning(rows) == []) &&
              (next.None? ==>
                 queue.rows == rows && processes == old(processes) - {p} && chains == old(chains) - {p}) &&
              (next.Some? ==>
                 var q, t := next.value, TopTask(rows).value;
                 TopTask(rows).Some? && fresh(q) && !q.paused && processes == old(processes) - {p} + {q} &&
                 chains == (old(chains) - {p})[q := t] && queue.rows == MarkRunning(rows, t.rowId))
      ensures |processes| <= |old(processes)| && (next.Some? ==> |processes| == |old(processes)|)
      ensures old(WithinLimit()) ==> WithinLimit()
      ensures cancelled == old(cancelled) && paused == old(paused)
    {
      ghost var before := processes;
      verdict := ChainReachesTask(p, status, stderrText, stdoutText, sizes);
      next := StartProcess(nextPid);
      if next.Some? {
        ReplacedKeepsSize(before, p, next.value);
      } else {
        RemovedNoLarger(before, p);
      }
      if chains == map[] {
        running := false;
      }
    }

    /**
     * The links of `p`'s chain up to `start_process`: `process_exited`,
     * `task_finished` and the removal of `p` from the process set. The
     * chain is handed on, so it is no longer keyed by `p`.
     */
    method ChainReachesTask(p: ConversionProcess, status: ExitStatus, stderrText: Option<string>,
                            stdoutText: Option<string>, sizes: Option<FileSizes>)
      returns (verdict: Verdict)
      requires Valid() && p in chains
      modifies this, queue, p
      ensures Valid() && running
      ensures p.finished && p.returncode == ReturnCodeOf(status)
      ensures processes == old(processes) - {p} && chains == old(chains) - {p}
      ensures verdict == Classify(false, ReturnCodeOf(status), platform == Win32, sizes)
      ensures Results(tasksDone, tasksIncomplete, tasksFailed) ==
              Record(Results(old(tasksDone), old(tasksIncomplete), old(tasksFailed)), old(chains)[p], verdict)
      ensures queue.rows == RowsAfter(old(queue.rows), old(chains)[p], verdict)
      ensures cancelled == old(cancelled) && paused == old(paused)
    {
      var task := chains[p];
      var outcome := p.ProcessExited(status, stderrText, stdoutText);
      verdict := TaskFinished(task, false, p.returncode, sizes);
      processes := processes - {p};
      chains := chains - {p};
    }

    /**
     * `stop_running_processes`, once `cancel` has set the cancelled flag:
     * pops and terminates processes until the set is empty. Terminating a
     * process the operating system has not yet reaped cancels its deferred,
     * and the chain ends at once (the task is discarded, and `start_process`
     * starts nothing once cancelled); when it was the last chain the
     * scheduler stops running. A process that has already exited keeps its
     * chain, which its exit report will finish.
     */
    method StopRunningProcesses(exitedAlready: set<ConversionProcess>)
      requires Valid() && running && cancelled
      modifies this, processes
      ensures Valid() && processes == {}
      ensures forall p :: p in old(processes) && p !in exitedAlready ==> p.finished && p.deferredCancelled
      ensures forall p :: p in chains <==> p in old(chains) && (p !in old(processes) || p in exitedAlready)
      ensures forall p :: p in chains ==> chains[p] == old(chains)[p]
      ensures running <==> chains != map[] || old(chains) == map[]
      ensures cancelled && paused == old(paused)
      ensures tasksDone == old(tasksDone) && tasksIncomplete == old(tasksIncomplete) && tasksFailed == old(tasksFailed)
    {
      ghost var stopped: set<ConversionProcess> := {};
      while processes != {}
        invariant processes <= old(processes) && stopped !! processes
        invariant forall p :: p in stopped ==> p.finished && p.deferredCancelled
        invariant forall p :: p in old(processes) ==> p in processes || p in stopped || p in exitedAlready
        invariant Valid()
        invariant forall p :: p in chains <==>
                    p in old(chains) && (p in processes || p !in old(processes) || p in exitedAlready)
        invariant forall p :: p in chains ==> chains[p] == old(chains)[p]
        invariant running <==> chains != map[] || old(chains) == map[]
        invariant cancelled && paused == old(paused)
        invariant tasksDone == old(tasksDone) && tasksIncomplete == old(tasksIncomplete) &&
                  tasksFailed == old(tasksFailed)
        decreases processes
      {
        var p :| p in processes;
        StopOne(p, p in exitedAlready);
        if p !in exitedAlready {
          stopped := stopped + {p};
        }
      }
    }

    /**
     * One turn of the loop of `stop_running_processes`: `p` leaves the
     * process set and is terminated; unless it had already exited, its
     * chain ends, and with the last chain the scheduler stops running.
     */
    method StopOne(p: ConversionProcess, exitedAlready: bool)
      requires Valid() && cancelled && p in processes
      modifies this, p
      ensures Valid() && processes == old(processes) - {p}
      ensures exitedAlready ==> chains == old(chains) && running == old(running)
      ensures !exitedAlready ==> p.finished && p.deferredCancelled && chains == old(chains) - {p} &&
                                 running == (old(running) && chains != map[])
      ensures cancelled == old(cancelled) && paused == old(paused)
      ensures tasksDone == old(tasksDone) && tasksIncomplete == old(tasksIncomplete) && tasksFailed == old(tasksFailed)
    {
      processes := processes - {p};
      p.Terminate(exitedAlready);
      if !exitedAlready {
        chains := chains - {p};
        if chains == map[] {
          running := false;
        }
      }
    }

    /** `reset_tasks_queue`: every row is marked not running; none is removed or moved. */
    method ResetTasksQueue()
      modifies queue
      ensures queue.rows == Stopped(old(queue.rows))
    {
      var i := 0;
      while i < |queue.rows|
        invariant 0 <= i <= |queue.rows| == |old(queue.rows)|
        invariant forall j :: 0 <= j < i ==> queue.rows[j] == old(queue.rows)[j].(running := false)
        invariant forall j :: i <= j < |queue.rows| ==> queue.rows[j] == old(queue.rows)[j]
      {
        queue.SetRunning(i, false);
        i := i + 1;
      }
    }

    /**
     * `cancel`: may only be called while running; sets the cancelled flag,
     * stops the running processes and marks every row not running.
     */
    method Cancel(exitedAlready: set<ConversionProcess>)
      requires Valid() && running
      modifies this, queue, processes
      ensures Valid() && cancelled && processes == {}
      ensures queue.rows == Stopped(old(queue.rows))
      ensures forall p :: p in old(processes) && p !in exitedAlready ==> p.finished && p.deferredCancelled
      ensures forall p :: p in chains <==> p in old(chains) && (p !in old(processes) || p in exitedAlready)
      ensures running <==> chains != map[] || old(chains) == map[]
      ensures paused == old(paused)
      ensures tasksDone == old(tasksDone) && tasksIncomplete == old(tasksIncomplete) && tasksFailed == old(tasksFailed)
    {
      cancelled := true;
      StopRunningProcesses(exitedAlready);
      ResetTasksQueue();
    }

    /**
     * `pause`: may only be called while running; sets the paused flag and
     * pauses the processes one after the other, in no fixed order. Pausing
     * succeeds for a process the process lookup finds alive (`alive`); a
     * process that is paused already fails its assertion, which ends the
     * loop (`ok` is false) and leaves the processes not yet visited as they
     * were.
     */
    method Pause(alive: set<ConversionProcess>) returns (ok: bool)
      requires Valid() && running
      modifies this, processes
      ensures Valid() && running && paused
      ensures ok <==> forall p :: p in old(processes) ==> !old(p.paused)
      ensures ok ==> forall p :: p in processes ==> p.paused == (p in alive)
      ensures forall p :: p in old(processes) ==> p.paused == old(p.paused) || (!old(p.paused) && p in alive)
      ensures processes == old(processes) && chains == old(chains) && cancelled == old(cancelled)
      ensures tasksDone == old(tasksDone) && tasksIncomplete == old(tasksIncomplete) && tasksFailed == old(tasksFailed)
    {
      paused := true;
      ok := true;
      var todo := processes;
      while todo != {} && ok
        invariant todo <= processes == old(processes) && chains == old(chains)
        invariant Valid() && running && paused && cancelled == old(cancelled)
        invariant forall p :: p in todo ==> p.paused == old(p.paused)
        invariant ok ==> forall p :: p in processes && p !in todo ==> !old(p.paused) && p.paused == (p in alive)
        invariant !ok ==> exists p :: p in processes && old(p.paused)
        invariant forall p :: p in old(processes) ==> p.paused == old(p.paused) || (!old(p.paused) && p in alive)
        invariant tasksDone == old(tasksDone) && tasksIncomplete == old(tasksIncomplete) &&
                  tasksFailed == old(tasksFailed)
        decreases todo
      {
        var p :| p in todo;
        if p.paused {
          ok := false;
        } else {
          p.Pause(p in alive);
        }
        todo := todo - {p};
      }
    }

    /**
     * `resume`: may only be called while running; clears the paused flag and
     * resumes the processes one after the other, in no fixed order. A
     * process that is not paused (one the lookup did not find when pausing,
     * or one started since) fails its assertion, which ends the loop (`ok`
     * is false) and leaves the processes not yet visited paused.
     */
    method Resume() returns (ok: bool)
      requires Valid() && running
      modifies this, processes
      ensures Valid() && running && !paused
      ensures ok <==> forall p :: p in old(processes) ==> old(p.paused)
      ensures ok ==> forall p :: p in processes ==> !p.paused
      ensures forall p :: p in old(processes) ==> p.paused == old(p.paused) || !p.paused
      ensures processes == old(processes) && chains == old(chains) && cancelled == old(cancelled)
      ensures tasksDone == old(tasksDone) && tasksIncomplete == old(tasksIncomplete) && tasksFailed == old(tasksFailed)
    {
      paused := false;
      ok := true;
      var todo := processes;
      while todo != {} && ok
        invariant todo <= processes == old(processes) && chains == old(chains)
        invariant Valid() && running && !paused && cancelled == old(cancelled)
        invariant forall p :: p in todo ==> p.paused == old(p.paused)
        invariant ok ==> forall p :: p in processes && p !in todo ==> old(p.paused) && !p.paused
        invariant !ok ==> exists p :: p in processes && !old(p.paused)
        invariant forall p :: p in old(processes) ==> p.paused == old(p.paused) || !p.paused
        invariant tasksDone == old(tasksDone) && tasksIncomplete == old(tasksIncomplete) &&
                  tasksFailed == old(tasksFailed)
        decreases todo
      {
        var p :| p in todo;
        if !p.paused {
          ok := false;
        } else {
          p.Resume();
        }
        todo := todo - {p};
      }
    }

    /**
     * `resume` as its design intends it: every paused process is resumed and
     * one that is not paused is left alone, so that afterwards no process is
     * paused, whatever happened while the scheduler was paused.
     */
    method ResumeAll()
      requires Valid() && running
      modifies this, processes
      ensures Valid() && running && !paused
      ensures forall p :: p in processes ==> !p.paused
      ensures processes == old(processes) && chains == old(chains) && cancelled == old(cancelled)
      ensures tasksDone == old(tasksDone) && tasksIncomplete == old(tasksIncomplete) && tasksFailed == old(tasksFailed)
    {
      paused := false;
      var todo := processes;
      while todo != {}
        invariant todo <= processes == old(processes) && chains == old(chains)
        invariant Valid() && running && !paused && cancelled == old(cancelled)
        invariant forall p :: p in processes && p !in todo ==> !p.paused
        invariant tasksDone == old(tasksDone) && tasksIncomplete == old(tasksIncomplete) &&
                  tasksFailed == old(tasksFailed)
        decreases todo
      {
        var p :| p in todo;
        if p.paused {
          p.Resume();
        }
        todo := todo - {p};
      }
    }
  }
}
