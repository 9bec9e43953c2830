/**
 * The conversion window of the GUI (`VideoConvertorGUI`), reduced to the
 * state its handlers change: the row store with its id counter, the process
 * set, the live completion chains and the three result lists. The window
 * embeds its own copy of the scheduler, which differs from
 * `Scheduling.Scheduler` in two places: `start_process` has no cancelled
 * flag to consult, and `task_finished` always runs the size check.
 */
module Gui {
  import opened Wrappers
  import opened Process
  import opened TaskQueue
  import opened Tasks

  /** Selected paths as the tree view reports them: distinct, top to bottom. */
  predicate Ascending(sel: seq<nat>)
  {
    forall i, j :: 0 <= i < j < |sel| ==> sel[i] < sel[j]
  }

  predicate InRange(sel: seq<nat>, n: nat)
  {
    forall k :: 0 <= k < |sel| ==> sel[k] < n
  }

  /**
   * A row given the counter's id can join a store whose ids were all handed
   * out before: its id is new, ids stay unique, and all are below the
   * advanced counter.
   */
  lemma AppendedIdIsNew(rows: seq<Row>, row: Row, bound: int)
    requires UniqueIds(rows) && IdsBelow(rows, bound) && row.id == bound >= 0
    ensures bound !in Ids(rows)
    ensures UniqueIds(rows + [row]) && IdsBelow(rows + [row], bound + 1)
  {
    var r := rows + [row];
    forall i, j | 0 <= i < j < |r|
      ensures r[i].id != r[j].id
    {
      if j == |rows| {
        assert r[i] == rows[i];
      } else {
        assert r[i] == rows[i] && r[j] == rows[j];
      }
    }
  }

  /** One step of `on_up_button_clicked`: the row at `i` trades places with the one above, unless it is on top. */
  function SwapUp(rows: seq<Row>, i: nat): (r: seq<Row>)
    requires i < |rows|
    ensures |r| == |rows|
    ensures i == 0 ==> r == rows
    ensures i > 0 ==> r[i - 1] == rows[i] && r[i] == rows[i - 1]
    ensures forall k :: 0 <= k < |rows| && k != i && k + 1 != i ==> r[k] == rows[k]
  {
    if i == 0 then rows else rows[i - 1 := rows[i]][i := rows[i - 1]]
  }

  /** One step of `on_down_button_clicked`: the row at `i` trades places with the one below, unless it is last. */
  function SwapDown(rows: seq<Row>, i: nat): (r: seq<Row>)
    requires i < |rows|
    ensures |r| == |rows|
    ensures i == |rows| - 1 ==> r == rows
    ensures i < |rows| - 1 ==> r[i + 1] == rows[i] && r[i] == rows[i + 1]
    ensures forall k :: 0 <= k < |rows| && k != i && k != i + 1 ==> r[k] == rows[k]
  {
    if i == |rows| - 1 then rows else rows[i + 1 := rows[i]][i := rows[i + 1]]
  }

  /** The store after `on_up_button_clicked` has handled the selected paths from the top down. */
  function MovedUp(rows: seq<Row>, sel: seq<nat>): (r: seq<Row>)
    requires InRange(sel, |rows|)
    ensures |r| == |rows|
    decreases |sel|
  {
    if sel == [] then rows else SwapUp(MovedUp(rows, sel[..|sel| - 1]), sel[|sel| - 1])
  }

  /** The store after `on_down_button_clicked` has handled the selected paths from the bottom up. */
  function MovedDown(rows: seq<Row>, sel: seq<nat>): (r: seq<Row>)
    requires InRange(sel, |rows|)
    ensures |r| == |rows|
    decreases |sel|
  {
    if sel == [] then rows else SwapDown(MovedDown(rows, sel[1..]), sel[0])
  }

  /** Trading the places of two rows keeps the store's rows. */
  lemma SwapIsPermutation(rows: seq<Row>, i: nat, j: nat)
    requires i < |rows| && j < |rows|
    ensures multiset(rows[i := rows[j]][j := rows[i]]) == multiset(rows)
  {
  }

  /** Moving rows up only reorders the store. */
  lemma {:induction false} MovedUpIsPermutation(rows: seq<Row>, sel: seq<nat>)
    requires InRange(sel, |rows|)
    ensures multiset(MovedUp(rows, sel)) == multiset(rows)
    decreases |sel|
  {
    if sel != [] {
      var m, x := MovedUp(rows, sel[..|sel| - 1]), sel[|sel| - 1];
      MovedUpIsPermutation(rows, sel[..|sel| - 1]);
      if x > 0 {
        SwapIsPermutation(m, x - 1, x);
      }
    }
  }

  /** Moving rows down only reorders the store. */
  lemma {:induction false} MovedDownIsPermutation(rows: seq<Row>, sel: seq<nat>)
    requires InRange(sel, |rows|)
    ensures multiset(MovedDown(rows, sel)) == multiset(rows)
    decreases |sel|
  {
    if sel != [] {
      var back := sel[1..];
      assert InRange(back, |rows|);
      var m, x := MovedDown(rows, back), sel[0];
      MovedDownIsPermutation(rows, back);
      if x < |rows| - 1 {
        SwapIsPermutation(m, x + 1, x);
      }
    }
  }

  /** Rows below every selected path are not touched by moving up. */
  lemma {:induction false} MovedUpKeepsBelow(rows: seq<Row>, sel: seq<nat>, j: nat)
    requires InRange(sel, |rows|) && j < |rows|
    requires forall k :: 0 <= k < |sel| ==> sel[k] < j
    ensures MovedUp(rows, sel)[j] == rows[j]
    decreases |sel|
  {
    if sel != [] {
      MovedUpKeepsBelow(rows, sel[..|sel| - 1], j);
    }
  }

  /** The selected row at position `k` of `sel` ends one place higher. */
  lemma {:induction false} SelectedRowMovesUp(rows: seq<Row>, sel: seq<nat>, k: nat)
    requires InRange(sel, |rows|) && Ascending(sel) && k < |sel| && sel[0] > 0
    ensures MovedUp(rows, sel)[sel[k] - 1] == rows[sel[k]]
    decreases |sel|
  {
    var front, x := sel[..|sel| - 1], sel[|sel| - 1];
    var m := MovedUp(rows, front);
    assert InRange(front, |rows|) && Ascending(front);
    if k == |sel| - 1 {
      MovedUpKeepsBelow(rows, front, x);
    } else {
      assert front[k] == sel[k] && sel[k] < x && front[0] == sel[0];
      SelectedRowMovesUp(rows, front, k);
    }
  }

  /**
   * With no selected row on top, every selected row ends exactly one place
   * higher than it was.
   */
  lemma SelectedRowsMoveUp(rows: seq<Row>, sel: seq<nat>)
    requires InRange(sel, |rows|) && Ascending(sel)
    requires forall k :: 0 <= k < |sel| ==> sel[k] > 0
    ensures forall k :: 0 <= k < |sel| ==> MovedUp(rows, sel)[sel[k] - 1] == rows[sel[k]]
  {
    forall k | 0 <= k < |sel|
      ensures MovedUp(rows, sel)[sel[k] - 1] == rows[sel[k]]
    {
      SelectedRowMovesUp(rows, sel, k);
    }
  }

  /** Rows above every selected path are not touched by moving down. */
  lemma {:induction false} MovedDownKeepsAbove(rows: seq<Row>, sel: seq<nat>, j: nat)
    requires InRange(sel, |rows|) && j < |rows|
    requires forall k :: 0 <= k < |sel| ==> j < sel[k]
    ensures MovedDown(rows, sel)[j] == rows[j]
    decreases |sel|
  {
    if sel != [] {
      MovedDownKeepsAbove(rows, sel[1..], j);
    }
  }

  /** The selected row at position `k` of `sel` ends one place lower. */
  lemma {:induction false} SelectedRowMovesDown(rows: seq<Row>, sel: seq<nat>, k: nat)
    requires InRange(sel, |rows|) && Ascending(sel) && k < |sel| && sel[|sel| - 1] < |rows| - 1
    ensures MovedDown(rows, sel)[sel[k] + 1] == rows[sel[k]]
    decreases |sel|
  {
    var back, x := sel[1..], sel[0];
    var m := MovedDown(rows, back);
    assert InRange(back, |rows|) && Ascending(back);
    if k == 0 {
      MovedDownKeepsAbove(rows, back, x);
    } else {
      assert back[k - 1] == sel[k] && x < sel[k] && back[|back| - 1] == sel[|sel| - 1];
      SelectedRowMovesDown(rows, back, k - 1);
    }
  }

  /**
   * With no selected row at the bottom, every selected row ends exactly one
   * place lower than it was.
   */
  lemma SelectedRowsMoveDown(rows: seq<Row>, sel: seq<nat>)
    requires InRange(sel, |rows|) && Ascending(sel)
    requires forall k :: 0 <= k < |sel| ==> sel[k] < |rows| - 1
    ensures forall k :: 0 <= k < |sel| ==> MovedDown(rows, sel)[sel[k] + 1] == rows[sel[k]]
  {
    forall k | 0 <= k < |sel|
      ensures MovedDown(rows, sel)[sel[k] + 1] == rows[sel[k]]
    {
      SelectedRowMovesDown(rows, sel, k);
    }
  }

  /** A row swap keeps ids unique and keeps every id a row already had. */
  lemma SwapKeepsIds(rows: seq<Row>, r: seq<Row>, i: nat, j: nat, bound: int)
    requires i < |rows| && j < |rows| && |r| == |rows|
    requires r[i] == rows[j] && r[j] == rows[i]
    requires forall k :: 0 <= k < |rows| && k != i && k != j ==> r[k] == rows[k]
    requires UniqueIds(rows) && IdsBelow(rows, bound)
    ensures UniqueIds(r) && IdsBelow(r, bound)
  {
    var at := (k: nat) requires k < |rows| => if k == i then j else if k == j then i else k;
    forall a, b | 0 <= a < b < |r|
      ensures r[a].id != r[b].id
    {
      assert r[a] == rows[at(a)] && r[b] == rows[at(b)];
    }
    forall k | 0 <= k < |r|
      ensures 0 <= r[k].id < bound
    {
      assert r[k] == rows[at(k)];
    }
  }

  lemma SwapUpKeepsIds(rows: seq<Row>, x: nat, bound: int)
    requires x < |rows|
    requires UniqueIds(rows) && IdsBelow(rows, bound)
    ensures var r := SwapUp(rows, x); UniqueIds(r) && IdsBelow(r, bound)
  {
    SwapKeepsIds(rows, SwapUp(rows, x), if x > 0 then x - 1 else x, x, bound);
  }

  lemma {:induction false} MovedUpKeepsIds(rows: seq<Row>, sel: seq<nat>, bound: int)
    requires InRange(sel, |rows|)
    requires UniqueIds(rows) && IdsBelow(rows, bound)
    ensures var r := MovedUp(rows, sel); UniqueIds(r) && IdsBelow(r, bound)
    decreases |sel|
  {
    if sel != [] {
      var m, x := MovedUp(rows, sel[..|sel| - 1]), sel[|sel| - 1];
      MovedUpKeepsIds(rows, sel[..|sel| - 1], bound);
      SwapUpKeepsIds(m, x, bound);
    }
  }

  lemma SwapDownKeepsIds(rows: seq<Row>, x: nat, bound: int)
    requires x < |rows|
    requires UniqueIds(rows) && IdsBelow(rows, bound)
    ensures var r := SwapDown(rows, x); UniqueIds(r) && IdsBelow(r, bound)
  {
    SwapKeepsIds(rows, SwapDown(rows, x), x, if x < |rows| - 1 then x + 1 else x, bound);
  }

  lemma {:induction false} MovedDownKeepsIds(rows: seq<Row>, sel: seq<nat>, bound: int)
    requires InRange(sel, |rows|)
    requires UniqueIds(rows) && IdsBelow(rows, bound)
    ensures var r := MovedDown(rows, sel); UniqueIds(r) && IdsBelow(r, bound)
    decreases |sel|
  {
    if sel != [] {
      var back := sel[1..];
      assert InRange(back, |rows|) by {
        forall k | 0 <= k < |back| ensures back[k] < |rows| { assert back[k] == sel[k + 1]; }
      }
      var m, x := MovedDown(rows, back), sel[0];
      MovedDownKeepsIds(rows, back, bound);
      SwapDownKeepsIds(m, x, bound);
    }
  }

  /** Some selected row has a subtitle path that Python counts as true (set and not empty). */
  function AnyGiven(subs: seq<Option<string>>): (b: bool)
    ensures b <==> exists k :: 0 <= k < |subs| && IsGiven(subs[k])
  {
    if subs == [] then false
    else IsGiven(subs[0]) || (assert forall k :: 0 <= k < |subs| - 1 ==> subs[1..][k] == subs[k + 1];
                              AnyGiven(subs[1..]))
  }

  /**
   * The text `set_subtitles_entry` shows for the subtitle paths of the
   * selected rows: nothing for no selection, the path of a single selected
   * row, and a marker for several rows when any of them has subtitles.
   */
  function SubtitlesEntryText(subs: seq<Option<string>>): (text: string)
    ensures |subs| == 1 ==> text == (if subs[0].Some? then subs[0].value else "")
    ensures |subs| != 1 ==> (text == "~~~~~~" <==> |subs| > 1 && AnyGiven(subs))
    ensures |subs| != 1 ==> text == "~~~~~~" || text == ""
  {
    if |subs| == 0 then ""
    else if |subs| == 1 then (if subs[0].None? then "" else subs[0].value)
    else if AnyGiven(subs) then "~~~~~~"
    else ""
  }

  /** A part of a set is no larger than the set. */
  lemma SubsetNoLarger<T>(a: set<T>, b: set<T>)
    requires a <= b
    ensures |a| <= |b|
  {
    assert b == a + (b - a);
  }

  /**
   * The conversion state of `VideoConvertorGUI`. Completion chains are
   * explicit events as in `Scheduling.Scheduler`; `chains` holds the live
   * ones, keyed by the process whose exit drives each.
   */
  class VideoConvertorGui {
    /** The `processes.count` configuration option. */
    const processCount: int
    const config: CommandConfig
    const platform: Platform

    /** `last_row_id`: the id the next added row receives. */
    var lastRowId: int
    /** `tasks_liststore`, top to bottom. */
    var rows: seq<Row>
    var conversionRunning: bool
    var conversionPaused: bool
    var processes: set<ConversionProcess>
    var chains: map<ConversionProcess, Task>
    var tasksDone: seq<Task>
    var tasksIncomplete: seq<Task>
    var tasksFailed: seq<Task>

    constructor(processCount: int, config: CommandConfig, platform: Platform)
      ensures this.processCount == processCount && this.config == config && this.platform == platform
      ensures lastRowId == 0 && rows == []
      ensures !conversionRunning && !conversionPaused && processes == {} && chains == map[]
      ensures ResultLists() == Results([], [], [])
      ensures Valid()
    {
      this.processCount, this.config, this.platform := processCount, config, platform;
      lastRowId, rows := 0, [];
      conversionRunning, conversionPaused := false, false;
      processes, chains := {}, map[];
      tasksDone, tasksIncomplete, tasksFailed := [], [], [];
    }

    function ResultLists(): Results
      reads this
    {
      Results(tasksDone, tasksIncomplete, tasksFailed)
    }

    /** Row ids are unique and were all handed out by the counter, so the next one is new. */
    ghost predicate RowsValid()
      reads this
    {
      0 <= lastRowId && UniqueIds(rows) && IdsBelow(rows, lastRowId)
    }

    /**
     * Every process in the set drives a live chain, and every live chain
     * waits on a process that was started for its task and has not finished.
     */
    ghost predicate ChainsValid()
      reads this, chains.Keys
    {
      processes <= chains.Keys &&
      forall p :: p in chains ==> Pending(p) && Carries(p, chains[p], config, platform)
    }

    /**
     * No more processes run than the `processes.count` option allows: the
     * live chains are bounded, and each process drives one of them.
     */
    predicate WithinLimit()
      reads this
    {
      chains == map[] || |chains.Keys| <= processCount
    }

    /**
     * Besides the above, the conversion counts as running exactly while a
     * chain is live: `start_conversion` clears the flag once the
     * DeferredList of its chains has fired, or at once when nothing started.
     */
    ghost predicate Valid()
      reads this, chains.Keys
    {
      RowsValid() && ChainsValid() && (conversionRunning <==> chains != map[])
    }

    /** `add_file_name`: a waiting row without subtitles joins the bottom with a new id. */
    method AddFileName(fileName: string)
      requires Valid()
      modifies this
      ensures Valid()
      ensures old(lastRowId) !in Ids(old(rows))
      ensures rows == old(rows) + [Row(old(lastRowId), fileName, None, false)]
      ensures lastRowId == old(lastRowId) + 1
      ensures conversionRunning == old(conversionRunning) && conversionPaused == old(conversionPaused)
      ensures processes == old(processes) && chains == old(chains) && ResultLists() == old(ResultLists())
    {
      var rowId := lastRowId;
      lastRowId := lastRowId + 1;
      AppendedIdIsNew(rows, Row(rowId, fileName, None, false), rowId);
      rows := rows + [Row(rowId, fileName, None, false)];
    }

    /** `remove_row`: a scan from the top deletes the first row carrying the id, if there is one. */
    method RemoveRow(id: int)
      requires RowsValid()
      modifies this
      ensures RowsValid()
      ensures rows == RemoveFirstWithId(old(rows), id)
      ensures lastRowId == old(lastRowId)
      ensures conversionRunning == old(conversionRunning) && conversionPaused == old(conversionPaused)
      ensures processes == old(processes) && chains == old(chains) && ResultLists() == old(ResultLists())
    {
      var i := 0;
      while i < |rows| && rows[i].id != id
        invariant 0 <= i <= |rows|
        invariant forall j :: 0 <= j < i ==> rows[j].id != id
      {
        i := i + 1;
      }
      RemoveKeepsIdsBelow(rows, id, lastRowId);
      if i < |rows| {
        assert IndexOfId(rows, id) == Some(i);
        rows := rows[..i] + rows[i + 1..];
      }
    }

    /**
     * `on_up_button_clicked`: each selected path, from the top down, trades
     * places with the row above unless it is the top row.
     */
    method MoveUp(sel: seq<nat>)
      requires RowsValid() && Ascending(sel) && InRange(sel, |rows|)
      modifies this
      ensures RowsValid()
      ensures rows == MovedUp(old(rows), sel)
      ensures lastRowId == old(lastRowId)
      ensures conversionRunning == old(conversionRunning) && conversionPaused == old(conversionPaused)
      ensures processes == old(processes) && chains == old(chains) && ResultLists() == old(ResultLists())
    {
      var k := 0;
      while k < |sel|
        invariant 0 <= k <= |sel| && |rows| == |old(rows)|
        invariant InRange(sel[..k], |rows|) && rows == MovedUp(old(rows), sel[..k])
        invariant lastRowId == old(lastRowId)
        invariant conversionRunning == old(conversionRunning) && conversionPaused == old(conversionPaused)
        invariant processes == old(processes) && chains == old(chains) && ResultLists() == old(ResultLists())
      {
        var x := sel[k];
        if x > 0 {
          rows := rows[x - 1 := rows[x]][x := rows[x - 1]];
        }
        assert sel[..k + 1][..k] == sel[..k];
        k := k + 1;
      }
      assert sel[..k] == sel;
      MovedUpKeepsIds(old(rows), sel, lastRowId);
    }

    /**
     * `on_down_button_clicked`: each selected path, from the bottom up,
     * trades places with the row below unless it is the last row.
     */
    method MoveDown(sel: seq<nat>)
      requires RowsValid() && Ascending(sel) && InRange(sel, |rows|)
      modifies this
      ensures RowsValid()
      ensures rows == MovedDown(old(rows), sel)
      ensures lastRowId == old(lastRowId)
      ensures conversionRunning == old(conversionRunning) && conversionPaused == old(conversionPaused)
      ensures processes == old(processes) && chains == old(chains) && ResultLists() == old(ResultLists())
    {
      var rowCount := |rows|;
      var k := |sel|;
      while k > 0
        invariant 0 <= k <= |sel| && |rows| == rowCount
        invariant InRange(sel[k..], rowCount) && rows == MovedDown(old(rows), sel[k..])
        invariant lastRowId == old(lastRowId)
        invariant conversionRunning == old(conversionRunning) && conversionPaused == old(conversionPaused)
        invariant processes == old(processes) && chains == old(chains) && ResultLists() == old(ResultLists())
      {
        k := k - 1;
        var x := sel[k];
        if x < rowCount - 1 {
          rows := rows[x + 1 := rows[x]][x := rows[x + 1]];
        }
        assert sel[k..][1..] == sel[k + 1..];
      }
      MovedDownKeepsIds(old(rows), sel, lastRowId);
    }

    /** `get_rows_not_running`: one pass over the store, keeping the rows not marked running. */
    method GetRowsNotRunning() returns (waiting: seq<Row>)
      ensures waiting == NotRunning(rows)
    {
      waiting := [];
      var i := 0;
      while i < |rows|
        invariant 0 <= i <= |rows|
        invariant waiting == NotRunning(rows[..i])
      {
        assert rows[..i + 1][..i] == rows[..i];
        if !rows[i].running {
          waiting := waiting + [rows[i]];
        }
        i := i + 1;
      }
      assert rows[..i] == rows;
    }

    /** `any_task_exists`: some row is not marked running. */
    method AnyTaskExists() returns (b: bool)
      ensures b <==> NotRunning(rows) != []
    {
      var waiting := GetRowsNotRunning();
      b := |waiting| > 0;
    }

    /** `get_top_task`: the task for the first waiting row, or None. */
    method GetTopTask() returns (t: Option<Task>)
      ensures t == TopTask(rows)
    {
      var waiting := GetRowsNotRunning();
      if |waiting| == 0 {
        return None;
      }
      return Some(TaskOf(waiting[0]));
    }

    /** `get_row_by_id`: the position of the first row carrying the id, found by a scan from the top. */
    method GetRowById(id: int) returns (r: Option<nat>)
      ensures r == IndexOfId(rows, id)
    {
      var i := 0;
      while i < |rows|
        invariant 0 <= i <= |rows|
        invariant forall j :: 0 <= j < i ==> rows[j].id != id
      {
        if rows[i].id == id {
          return Some(i);
        }
        i := i + 1;
      }
      return None;
    }

    /** `set_task_started`: the task's row (which the caller took from the store) is marked running. */
    method SetTaskStarted(task: Task)
      requires RowsValid() && IndexOfId(rows, task.rowId).Some?
      modifies this
      ensures RowsValid()
      ensures rows == MarkRunning(old(rows), task.rowId)
      ensures lastRowId == old(lastRowId)
      ensures conversionRunning == old(conversionRunning) && conversionPaused == old(conversionPaused)
      ensures processes == old(processes) && chains == old(chains) && ResultLists() == old(ResultLists())
    {
      var r := GetRowById(task.rowId);
      MarkRunningKeepsIdsBelow(rows, task.rowId, lastRowId);
      rows := rows[r.value := rows[r.value].(running := true)];
    }

    /**
     * `start_process`: nothing when no row waits; otherwise a process for
     * the top task is created and run (the operating system hands it
     * `pid`), joins the process set, its row is marked running, and its
     * completion chain is set up. Unlike the scheduler's, this one has no
     * cancelled flag to consult.
     */
    method StartProcess(pid: int) returns (started: Option<ConversionProcess>)
      requires RowsValid() && ChainsValid() && conversionRunning
      modifies this
      ensures RowsValid() && ChainsValid() && conversionRunning
      ensures started.None? <==> NotRunning(old(rows)) == []
      ensures started.None? ==> rows == old(rows) && processes == old(processes) && chains == old(chains)
      ensures started.Some? ==>
                var p := started.value;
                var t := TopTask(old(rows)).value;
                TopTask(old(rows)).Some? && fresh(p) && p.started && p.pid == Some(pid) && !p.paused &&
                processes == old(processes) + {p} && chains == old(chains)[p := t] &&
                rows == MarkRunning(old(rows), t.rowId)
      ensures lastRowId == old(lastRowId) && conversionPaused == old(conversionPaused)
      ensures ResultLists() == old(ResultLists())
    {
      var has := AnyTaskExists();
      if !has {
        return None;
      }
      // get_top_task cannot come back empty here: any_task_exists has just seen a waiting row
      var t := GetTopTask();
      var task := t.value;
      TopTaskRowIsFound(rows);
      var p := Spawn(task, pid, config, platform);
      processes := processes + {p};
      SetTaskStarted(task);
      chains := chains[p := task];
      forall q | q in chains
        ensures Pending(q) && Carries(q, chains[q], config, platform)
      {
        if q != p {
          assert q in old(chains);
        }
      }
      return Some(p);
    }

    /**
     * `schedule_tasks`: when some row waits, starts processes while fewer
     * than the limit run, stopping at the first start that does nothing.
     * Returns the processes started, whose chains go into the DeferredList.
     * `pids` gives the pid of the k-th spawn.
     */
    method ScheduleTasks(pids: nat -> int) returns (started: seq<ConversionProcess>)
      requires RowsValid() && ChainsValid() && conversionRunning
      modifies this
      ensures RowsValid() && ChainsValid() && conversionRunning
      ensures NotRunning(old(rows)) == [] ==> started == []
      ensures started == [] ==> rows == old(rows) && processes == old(processes) && chains == old(chains)
      ensures forall p :: p in processes <==> p in old(processes) || p in started
      ensures forall p :: p in chains <==> p in old(chains) || p in started
      ensures |processes| == |old(processes)| + |started|
      ensures started != [] ==> |processes| <= processCount
      ensures |processes| < processCount ==> NotRunning(rows) == []
      ensures Stopped(rows) == Stopped(old(rows))
      ensures |started| <= |NotRunning(old(rows))| && NotRunning(rows) == NotRunning(old(rows))[|started|..]
      ensures |started| == FillCount(processCount, |old(processes)|, |NotRunning(old(rows))|)
      ensures fresh(processes - old(processes))
      ensures forall p :: p in processes - old(processes) ==> !p.paused
      ensures StartedInOrder(chains, NotRunning(old(rows)), started)
      ensures lastRowId == old(lastRowId) && conversionPaused == old(conversionPaused)
      ensures ResultLists() == old(ResultLists())
    {
      started := [];
      var has := AnyTaskExists();
      if !has {
        return;
      }
      while |processes| < processCount
        invariant RowsValid() && ChainsValid() && conversionRunning
        invariant Filled(rows, processes, chains, old(rows), old(processes), old(chains), started)
        invariant UniqueIds(old(rows))
        invariant fresh(processes - old(processes))
        invariant forall p :: p in processes - old(processes) ==> !p.paused
        invariant started != [] ==> |processes| <= processCount
        invariant started == [] ==> rows == old(rows) && processes == old(processes) && chains == old(chains)
        invariant lastRowId == old(lastRowId) && conversionPaused == old(conversionPaused)
        invariant ResultLists() == old(ResultLists())
        decreases processCount - |processes|
      {
        var p := StartNext(pids(|started|), old(rows), old(processes), old(chains), started);
        if p.None? {
          break;
        }
        started := started + [p.value];
      }
      FillCountIsUnique(processCount, |old(processes)|, |NotRunning(old(rows))|, |started|);
    }

    /** One turn of the loop of `schedule_tasks`: `start_process`, seen as a step of the fill. */
    method StartNext(pid: int, ghost rows0: seq<Row>, ghost procs0: set<ConversionProcess>,
                     ghost chains0: map<ConversionProcess, Task>, ghost started: seq<ConversionProcess>)
      returns (next: Option<ConversionProcess>)
      requires RowsValid() && ChainsValid() && conversionRunning
      requires Filled(rows, processes, chains, rows0, procs0, chains0, started)
      requires forall p :: p in processes - procs0 ==> !p.paused
      modifies this
      ensures RowsValid() && ChainsValid() && conversionRunning
      ensures next.None? <==> NotRunning(old(rows)) == []
      ensures next.None? ==> rows == old(rows) && processes == old(processes) && chains == old(chains)
      ensures next.Some? ==>
                fresh(next.value) && processes == old(processes) + {next.value} &&
                Filled(rows, processes, chains, rows0, procs0, chains0, started + [next.value])
      ensures forall p :: p in processes - procs0 ==> !p.paused
      ensures lastRowId == old(lastRowId) && conversionPaused == old(conversionPaused)
      ensures ResultLists() == old(ResultLists())
    {
      next := StartProcess(pid);
      if next.Some? {
        FillStep(old(rows), old(processes), old(chains), rows0, procs0, chains0, started, next.value);
      }
    }

    /**
     * `start_conversion` (the start button when no conversion runs): marks
     * the conversion running, empties the result lists and schedules; when
     * nothing was started the report follows at once and the flag is
     * cleared again. `started` lists the processes whose chains the awaited
     * DeferredList gathers, in start order.
     */
    method StartConversion(pids: nat -> int) returns (ok: bool, started: seq<ConversionProcess>)
      requires Valid() && !conversionRunning
      modifies this
      ensures Valid() && WithinLimit()
      ensures ResultLists() == Results([], [], [])
      ensures ok <==> NotRunning(old(rows)) != [] && processCount > 0
      ensures ok <==> conversionRunning
      ensures !ok ==> rows == old(rows) && processes == {}
      ensures ok ==> 0 < |processes| <= processCount
      ensures |processes| < processCount ==> NotRunning(rows) == []
      ensures |processes| == FillCount(processCount, 0, |NotRunning(old(rows))|)
      ensures Stopped(rows) == Stopped(old(rows)) && NotRunning(rows) == NotRunning(old(rows))[|processes|..]
      ensures ok <==> started != []
      ensures fresh(processes) && forall p :: p in processes ==> !p.paused
      ensures |started| == |processes| && forall p :: p in processes <==> p in started
      ensures StartedInOrder(chains, NotRunning(old(rows)), started)
      ensures lastRowId == old(lastRowId) && conversionPaused == old(conversionPaused)
    {
      conversionRunning := true;
      ResetFinishedTasks();
      started := ScheduleTasks(pids);
      ok := started != [];
      assert chains.Keys == processes;
      if ok {
        assert started[0] in chains && started[0] in processes;
      } else {
        conversionRunning := false;
      }
    }

    /** `reset_finished_tasks`: the three result lists are emptied. */
    method ResetFinishedTasks()
      modifies this
      ensures ResultLists() == Results([], [], [])
      ensures lastRowId == old(lastRowId) && rows == old(rows)
      ensures conversionRunning == old(conversionRunning) && conversionPaused == old(conversionPaused)
      ensures processes == old(processes) && chains == old(chains)
    {
      tasksDone, tasksIncomplete, tasksFailed := [], [], [];
    }

    /**
     * `task_finished`: a cancelled chain records nothing; otherwise the task
     * is classified by its return code, always with the size check, and,
     * when recorded, its row is looked up by id and removed (when the row
     * is gone, `remove_row` is handed None and raises before changing
     * anything). `sizes` is None when the files cannot be examined.
     */
    method TaskFinished(task: Task, cancelledResult: bool, returncode: Option<int>, sizes: Option<FileSizes>)
      returns (v: Verdict)
      requires RowsValid()
      modifies this
      ensures RowsValid()
      ensures v == Classify(cancelledResult, returncode, false, sizes)
      ensures ResultLists() == Record(old(ResultLists()), task, v)
      ensures rows == RowsAfter(old(rows), task, v)
      ensures lastRowId == old(lastRowId)
      ensures conversionRunning == old(conversionRunning) && conversionPaused == old(conversionPaused)
      ensures processes == old(processes) && chains == old(chains)
    {
      if cancelledResult {
        return Discarded;
      }
      if returncode == Some(0) {
        if sizes.None? {
          return CheckFailed;
        }
        var complete := IsTaskComplete(sizes.value);
        if complete.None? {
          return CheckFailed;
        }
        if complete.value {
          tasksDone := tasksDone + [task];
          v := Done;
        } else {
          tasksIncomplete := tasksIncomplete + [task];
          v := Incomplete;
        }
      } else {
        tasksFailed := tasksFailed + [task];
        v := Failed;
      }
      var r := GetRowById(task.rowId);
      if r.Some? {
        RemoveRow(rows[r.value].id);
      }
    }

    /**
     * The exit report of process `p`, followed along its completion chain:
     * `process_exited`, `task_finished` for the task the chain was given,
     * removal of `p` from the process set (nothing happens when
     * `cancel_conversion` popped it already) and `start_process`, which
     * carries the chain on. With no cancelled flag, a report that arrives
     * after a cancel starts the top waiting row again.
     */
    method OnFinished(p: ConversionProcess, status: ExitStatus, stderrText: Option<string>,
                      stdoutText: Option<string>, sizes: Option<FileSizes>, nextPid: int)
      returns (verdict: Verdict, next: Option<ConversionProcess>)
      requires Valid() && p in chains
      modifies this, p
      ensures Valid()
      ensures p.finished && p.returncode == ReturnCodeOf(status) && p !in processes && p !in chains
      ensures verdict == Classify(false, ReturnCodeOf(status), false, sizes)
      ensures ResultLists() == Record(old(ResultLists()), old(chains)[p], verdict)
      ensures var after := RowsAfter(old(rows), old(chains)[p], verdict);
              (next.None? <==> NotRunning(after) == []) &&
              (next.None? ==>
                 rows == after && processes == old(processes) - {p} && chains == old(chains) - {p}) &&
              (next.Some? ==>
                 var q, t := next.value, TopTask(after).value;
                 TopTask(after).Some? && fresh(q) && !q.paused && processes == old(processes) - {p} + {q} &&
                 chains == (old(chains) - {p})[q := t] && rows == MarkRunning(after, t.rowId))
      ensures |chains.Keys| <= |old(chains).Keys| && (old(WithinLimit()) ==> WithinLimit())
      ensures lastRowId == old(lastRowId) && conversionPaused == old(conversionPaused)
    {
      verdict := ChainReachesTask(p, status, stderrText, stdoutText, sizes);
      next := StartProcess(nextPid);
      if chains == map[] {
        conversionRunning := false;
      }
    }

    /**
     * The links of `p`'s chain up to `start_process`: `process_exited`,
     * `task_finished` and the removal of `p` from the process set.
     */
    method ChainReachesTask(p: ConversionProcess, status: ExitStatus, stderrText: Option<string>,
                            stdoutText: Option<string>, sizes: Option<FileSizes>)
      returns (verdict: Verdict)
      requires Valid() && p in chains
      modifies this, p
      ensures RowsValid() && ChainsValid() && conversionRunning
      ensures p.finished && p.returncode == ReturnCodeOf(status)
      ensures processes == old(processes) - {p} && chains == old(chains) - {p}
      ensures verdict == Classify(false, ReturnCodeOf(status), false, sizes)
      ensures ResultLists() == Record(old(ResultLists()), old(chains)[p], verdict)
      ensures rows == RowsAfter(old(rows), old(chains)[p], verdict)
      ensures lastRowId == old(lastRowId) && conversionPaused == old(conversionPaused)
    {
      var task := chains[p];
      var outcome := p.ProcessExited(status, stderrText, stdoutText);
      verdict := TaskFinished(task, false, p.returncode, sizes);
      processes := processes - {p};
      chains := chains - {p};
    }

    /** `reset_tasks_queue`: every row is marked not running; none is removed or moved. */
    method ResetTasksQueue()
      requires RowsValid()
      modifies this
      ensures RowsValid()
      ensures rows == Stopped(old(rows))
      ensures lastRowId == old(lastRowId)
      ensures conversionRunning == old(conversionRunning) && conversionPaused == old(conversionPaused)
      ensures processes == old(processes) && chains == old(chains) && ResultLists() == old(ResultLists())
    {
      var i := 0;
      while i < |rows|
        invariant 0 <= i <= |rows| == |old(rows)|
        invariant forall j :: 0 <= j < i ==> rows[j] == old(rows)[j].(running := false)
        invariant forall j :: i <= j < |rows| ==> rows[j] == old(rows)[j]
        invariant lastRowId == old(lastRowId)
        invariant conversionRunning == old(conversionRunning) && conversionPaused == old(conversionPaused)
        invariant processes == old(processes) && chains == old(chains) && ResultLists() == old(ResultLists())
      {
        rows := rows[i := rows[i].(running := false)];
        i := i + 1;
      }
      SameIds(old(rows), rows);
    }

    /**
     * One turn of the loop of `stop_running_processes`: `p` leaves the
     * process set and is terminated. Unless it had already exited, its
     * deferred is cancelled and its chain runs at once: `task_finished`
     * discards the task, the second removal of `p` raises and is passed
     * over, and `start_process`, with no cancelled flag to stop it, starts
     * the top waiting row, whose process carries the chain on. When nothing
     * waits the chain ends, and with the last chain the conversion stops
     * running.
     */
    method StopOne(p: ConversionProcess, exitedAlready: bool, pid: int) returns (next: Option<ConversionProcess>)
      requires Valid() && p in processes
      modifies this, p
      ensures Valid() && p !in processes
      ensures exitedAlready ==> next == None && rows == old(rows) && chains == old(chains)
      ensures !exitedAlready ==> p.finished && p.deferredCancelled && p !in chains
      ensures next.None? && !exitedAlready ==> NotRunning(old(rows)) == [] && rows == old(rows)
      ensures next.Some? ==> fresh(next.value) && |NotRunning(rows)| == |NotRunning(old(rows))| - 1
      ensures forall q :: q in processes <==> (q in old(processes) && q != p) || next == Some(q)
      ensures forall q :: q in chains <==> (q in old(chains) && (q != p || exitedAlready)) || next == Some(q)
      ensures Stopped(rows) == Stopped(old(rows))
      ensures lastRowId == old(lastRowId) && conversionPaused == old(conversionPaused)
      ensures ResultLists() == old(ResultLists())
    {
      Kill(p, exitedAlready);
      next := None;
      if !exitedAlready {
        next := ContinueChain(pid);
      }
    }

    /**
     * `processes.pop()` and `terminate()`: unless the process had already
     * exited, its deferred is cancelled and the chain no longer waits on it.
     */
    method Kill(p: ConversionProcess, exitedAlready: bool)
      requires Valid() && p in processes
      modifies this, p
      ensures RowsValid() && ChainsValid() && conversionRunning == old(conversionRunning)
      ensures processes == old(processes) - {p}
      ensures exitedAlready ==> chains == old(chains)
      ensures !exitedAlready ==> p.finished && p.deferredCancelled && chains == old(chains) - {p} && conversionRunning
      ensures rows == old(rows) && lastRowId == old(lastRowId) && conversionPaused == old(conversionPaused)
      ensures ResultLists() == old(ResultLists())
    {
      processes := processes - {p};
      p.Terminate(exitedAlready);
      if !exitedAlready {
        chains := chains - {p};
      }
    }

    /**
     * The rest of a chain whose deferred was cancelled: `task_finished`
     * discards the task, the second removal of the process raises and is
     * passed over, and `start_process` starts the top waiting row, whose
     * process carries the chain on. When nothing waits the chain ends, and
     * with the last chain the conversion stops running.
     */
    method ContinueChain(pid: int) returns (next: Option<ConversionProcess>)
      requires RowsValid() && ChainsValid() && conversionRunning
      modifies this
      ensures Valid()
      ensures next.None? ==> NotRunning(old(rows)) == [] && rows == old(rows) &&
                             processes == old(processes) && chains == old(chains)
      ensures next.Some? ==> fresh(next.value) && |NotRunning(rows)| == |NotRunning(old(rows))| - 1 &&
                             processes == old(processes) + {next.value} && next.value in chains &&
                             chains.Keys == old(chains).Keys + {next.value}
      ensures Stopped(rows) == Stopped(old(rows))
      ensures lastRowId == old(lastRowId) && conversionPaused == old(conversionPaused)
      ensures ResultLists() == old(ResultLists())
    {
      ghost var before := rows;
      next := StartProcess(pid);
      if next.Some? {
        StartingTopTaskConsumesIt(before);
        MarkRunningThenStopped(before, TopTask(before).value.rowId);
      }
      if chains == map[] {
        conversionRunning := false;
      }
    }

    /**
     * `stop_running_processes`: pops and terminates processes until the set
     * is empty. Each process terminated before it exited starts the next
     * waiting row on its way out, and that process is popped and terminated
     * in turn, so every row that was still waiting is started and stopped
     * again; `spawnCount` counts those processes. Processes that had already
     * exited keep their chains, which their exit reports will finish.
     */
    method StopRunningProcesses(exitedAlready: set<ConversionProcess>, pids: nat -> int)
      returns (spawnCount: nat)
      requires Valid()
      modifies this, processes
      ensures Valid() && processes == {}
      ensures Stopped(rows) == Stopped(old(rows))
      ensures old(processes) <= exitedAlready ==> spawnCount == 0 && rows == old(rows)
      ensures !(old(processes) <= exitedAlready) ==> spawnCount == |NotRunning(old(rows))| && NotRunning(rows) == []
      ensures forall p :: p in old(processes) && p !in exitedAlready ==> p.finished && p.deferredCancelled
      ensures forall p :: p in chains <==> p in old(chains) && (p !in old(processes) || p in exitedAlready)
      ensures lastRowId == old(lastRowId) && conversionPaused == old(conversionPaused)
      ensures ResultLists() == old(ResultLists())
    {
      spawnCount := 0;
      ghost var stoppedAny := false;
      ghost var lastBorn: Option<ConversionProcess> := None;
      while processes != {}
        invariant Valid()
        invariant forall p :: p in processes && p !in old(processes) ==> fresh(p)
        invariant forall p :: p in old(processes) && p !in processes && p !in exitedAlready ==>
                    p.finished && p.deferredCancelled
        invariant forall p :: p in old(processes) ==> p in processes || p in exitedAlready || stoppedAny
        invariant forall p :: p in chains <==>
                    (p in old(chains) && (p in processes || p !in old(processes) || p in exitedAlready)) ||
                    (p in processes && p !in old(processes))
        invariant Stopped(rows) == Stopped(old(rows))
        invariant |NotRunning(rows)| + spawnCount == |NotRunning(old(rows))|
        invariant !stoppedAny ==> spawnCount == 0 && rows == old(rows) && processes <= old(processes)
        invariant stoppedAny ==> !(old(processes) <= exitedAlready)
        invariant lastBorn.Some? ==> lastBorn.value !in exitedAlready && lastBorn.value !in old(processes)
        invariant stoppedAny ==> NotRunning(rows) == [] || (lastBorn.Some? && lastBorn.value in processes)
        invariant lastRowId == old(lastRowId) && conversionPaused == old(conversionPaused)
        invariant ResultLists() == old(ResultLists())
        decreases |NotRunning(rows)|, processes
      {
        var p :| p in processes;
        var exited := p in exitedAlready;
        var next := StopOne(p, exited, pids(spawnCount));
        if !exited {
          stoppedAny := true;
        }
        if next.Some? {
          lastBorn := next;
          spawnCount := spawnCount + 1;
        }
      }
    }

    /**
     * `cancel_conversion` (the stop button while a conversion runs): stops
     * the running processes, then marks every row not running. No row is
     * removed, but nothing stops the exit report of a process that had
     * already exited from starting the top row again afterwards.
     */
    method CancelConversion(exitedAlready: set<ConversionProcess>, pids: nat -> int)
      returns (spawnCount: nat)
      requires Valid() && conversionRunning
      modifies this, processes
      ensures Valid() && processes == {}
      ensures rows == Stopped(old(rows))
      ensures old(processes) <= exitedAlready ==> spawnCount == 0
      ensures !(old(processes) <= exitedAlready) ==> spawnCount == |NotRunning(old(rows))|
      ensures forall p :: p in old(processes) && p !in exitedAlready ==> p.finished && p.deferredCancelled
      ensures forall p :: p in chains <==> p in old(chains) && (p !in old(processes) || p in exitedAlready)
      ensures |chains.Keys| <= |old(chains).Keys| && (old(WithinLimit()) ==> WithinLimit())
      ensures lastRowId == old(lastRowId) && conversionPaused == old(conversionPaused)
      ensures ResultLists() == old(ResultLists())
    {
      ghost var keys0 := chains.Keys;
      spawnCount := StopRunningProcesses(exitedAlready, pids);
      ResetTasksQueue();
      SubsetNoLarger(chains.Keys, keys0);
    }
  }
}
