/**
 * The ordered row store both schedulers work on: rows of
 * (id, file path, subtitle path, running flag), looked up and removed by id,
 * and the view of the rows still waiting to be converted.
 */
module TaskQueue {
  import opened Wrappers

  /** One row of the store; the `has_sub` and `subpix` columns are display-only. */
  datatype Row = Row(id: int, filePath: string, subPath: Option<string>, running: bool)

  /** No two rows share an id. */
  predicate UniqueIds(rows: seq<Row>)
  {
    forall i, j :: 0 <= i < j < |rows| ==> rows[i].id != rows[j].id
  }

  /** The ids present in the store. */
  function Ids(rows: seq<Row>): (ids: set<int>)
    ensures forall i :: 0 <= i < |rows| ==> rows[i].id in ids
    ensures forall id :: id in ids ==> exists i :: 0 <= i < |rows| && rows[i].id == id
  {
    set i | 0 <= i < |rows| :: rows[i].id
  }

  /** The position of the first row carrying `id`, as a scan from the top finds it. */
  function IndexOfId(rows: seq<Row>, id: int): (r: Option<nat>)
    ensures r.Some? ==> r.value < |rows| && rows[r.value].id == id
    ensures r.Some? ==> forall j :: 0 <= j < r.value ==> rows[j].id != id
    ensures r.None? <==> forall j :: 0 <= j < |rows| ==> rows[j].id != id
  {
    if rows == [] then None
    else if rows[0].id == id then Some(0)
    else match IndexOfId(rows[1..], id)
      case None => None
      case Some(k) => Some(k + 1)
  }

  /** The store after deleting the first row carrying `id`; unchanged when there is none. */
  function RemoveFirstWithId(rows: seq<Row>, id: int): (r: seq<Row>)
    ensures IndexOfId(rows, id).None? ==> r == rows
    ensures IndexOfId(rows, id).Some? ==>
              |r| == |rows| - 1 &&
              multiset(r) == multiset(rows) - multiset{rows[IndexOfId(rows, id).value]}
  {
    match IndexOfId(rows, id)
    case None => rows
    case Some(i) =>
      assert rows == rows[..i] + [rows[i]] + rows[i + 1..];
      rows[..i] + rows[i + 1..]
  }

  /** Position-wise view of deleting the row at `i`. */
  lemma DeleteAt(rows: seq<Row>, i: nat)
    requires i < |rows|
    ensures forall k :: 0 <= k < i ==> (rows[..i] + rows[i + 1..])[k] == rows[k]
    ensures forall k :: i < k < |rows| ==> (rows[..i] + rows[i + 1..])[k - 1] == rows[k]
  {
  }

  lemma DeleteAtKeepsUnique(rows: seq<Row>, i: nat)
    requires i < |rows| && UniqueIds(rows)
    ensures UniqueIds(rows[..i] + rows[i + 1..])
  {
    var r := rows[..i] + rows[i + 1..];
    DeleteAt(rows, i);
    forall a, b | 0 <= a < b < |r|
      ensures r[a].id != r[b].id
    {
      var a' := if a < i then a else a + 1;
      var b' := if b < i then b else b + 1;
      assert r[a] == rows[a'] && r[b] == rows[b'];
    }
  }

  lemma DeleteAtIds(rows: seq<Row>, i: nat)
    requires i < |rows| && UniqueIds(rows)
    ensures Ids(rows[..i] + rows[i + 1..]) == Ids(rows) - {rows[i].id}
  {
    DeleteAtKeepsOtherIds(rows, i);
    DeleteAtAddsNoId(rows, i);
  }

  lemma DeleteAtKeepsOtherIds(rows: seq<Row>, i: nat)
    requires i < |rows|
    ensures Ids(rows) - {rows[i].id} <= Ids(rows[..i] + rows[i + 1..])
  {
    var r := rows[..i] + rows[i + 1..];
    DeleteAt(rows, i);
    forall x | x in Ids(rows) - {rows[i].id}
      ensures x in Ids(r)
    {
      var k :| 0 <= k < |rows| && rows[k].id == x;
      if k < i {
        assert r[k] == rows[k];
      } else {
        assert r[k - 1] == rows[k];
      }
    }
  }

  lemma DeleteAtAddsNoId(rows: seq<Row>, i: nat)
    requires i < |rows| && UniqueIds(rows)
    ensures Ids(rows[..i] + rows[i + 1..]) <= Ids(rows) - {rows[i].id}
  {
    var r := rows[..i] + rows[i + 1..];
    DeleteAt(rows, i);
    forall x | x in Ids(r)
      ensures x in Ids(rows) - {rows[i].id}
    {
      var k :| 0 <= k < |r| && r[k].id == x;
      var k' := if k < i then k else k + 1;
      assert r[k] == rows[k'];
    }
  }

  /** In a store with unique ids, removal by id leaves no row with that id and keeps ids unique. */
  lemma RemoveLeavesNoTrace(rows: seq<Row>, id: int)
    requires UniqueIds(rows)
    ensures UniqueIds(RemoveFirstWithId(rows, id))
    ensures Ids(RemoveFirstWithId(rows, id)) == Ids(rows) - {id}
  {
    match IndexOfId(rows, id)
    case None =>
      assert id !in Ids(rows);
    case Some(i) =>
      assert RemoveFirstWithId(rows, id) == rows[..i] + rows[i + 1..] && rows[i].id == id;
      DeleteAtKeepsUnique(rows, i);
      DeleteAtIds(rows, i);
  }

  /** Every id in the store lies in [0, bound): only ids handed out so far occur. */
  predicate IdsBelow(rows: seq<Row>, bound: int)
  {
    forall k :: 0 <= k < |rows| ==> 0 <= rows[k].id < bound
  }

  /** Removing a row keeps ids unique and every remaining id among those handed out. */
  lemma RemoveKeepsIdsBelow(rows: seq<Row>, id: int, bound: int)
    requires UniqueIds(rows) && IdsBelow(rows, bound)
    ensures UniqueIds(RemoveFirstWithId(rows, id)) && IdsBelow(RemoveFirstWithId(rows, id), bound)
  {
    match IndexOfId(rows, id)
    case None =>
    case Some(i) =>
      DeleteAt(rows, i);
      DeleteAtKeepsUnique(rows, i);
  }

  /** The store after `set_task_started`: the first row carrying `id` is marked running. */
  function MarkRunning(rows: seq<Row>, id: int): seq<Row>
  {
    match IndexOfId(rows, id)
    case None => rows
    case Some(i) => rows[i := rows[i].(running := true)]
  }

  /** The store after `reset_tasks_queue`: every row waiting again, none removed. */
  function Stopped(rows: seq<Row>): (r: seq<Row>)
  {
    seq(|rows|, i requires 0 <= i < |rows| => rows[i].(running := false))
  }

  /** A reset forgets that a row was marked running: only the running flag ever changed. */
  lemma MarkRunningThenStopped(rows: seq<Row>, id: int)
    ensures Stopped(MarkRunning(rows, id)) == Stopped(rows)
  {
    match IndexOfId(rows, id)
    case None =>
    case Some(i) =>
      var r := rows[i := rows[i].(running := true)];
      assert MarkRunning(rows, id) == r;
      assert forall k :: 0 <= k < |rows| ==> Stopped(r)[k] == Stopped(rows)[k];
  }

  /**
   * `get_rows_not_running`: the rows whose running flag is not set, in store
   * order (defined from the back, as the scan accumulates them).
   */
  function NotRunning(rows: seq<Row>): (r: seq<Row>)
    ensures |r| <= |rows|
  {
    if rows == [] then []
    else
      var front := rows[..|rows| - 1];
      var last := rows[|rows| - 1];
      assert rows == front + [last];
      if last.running then NotRunning(front) else NotRunning(front) + [last]
  }

  /** The waiting rows are exactly the rows of the store not marked running. */
  lemma {:induction false} NotRunningIsFilter(rows: seq<Row>)
    ensures forall x :: x in NotRunning(rows) ==> x in rows && !x.running
    ensures forall x :: x in rows && !x.running ==> x in NotRunning(rows)
    decreases |rows|
  {
    if rows != [] {
      var front := rows[..|rows| - 1];
      assert rows == front + [rows[|rows| - 1]];
      NotRunningIsFilter(front);
    }
  }

  lemma {:induction false} NotRunningConcat(a: seq<Row>, b: seq<Row>)
    ensures NotRunning(a + b) == NotRunning(a) + NotRunning(b)
    decreases |b|
  {
    if b == [] {
      assert a + b == a;
    } else {
      var front := b[..|b| - 1];
      assert (a + b)[..|a + b| - 1] == a + front;
      assert (a + b)[|a + b| - 1] == b[|b| - 1];
      NotRunningConcat(a, front);
    }
  }

  lemma NotRunningCons(x: Row, rows: seq<Row>)
    ensures NotRunning([x] + rows) == (if x.running then [] else [x]) + NotRunning(rows)
  {
    NotRunningConcat([x], rows);
    assert NotRunning([x]) == NotRunning([]) + (if x.running then [] else [x]) by {
      assert [x][..0] == [];
    }
  }

  /** The position of the first row whose running flag is not set. */
  function FirstNotRunning(rows: seq<Row>): (r: Option<nat>)
    ensures r.Some? ==> r.value < |rows| && !rows[r.value].running
    ensures r.Some? ==> forall j :: 0 <= j < r.value ==> rows[j].running
    ensures r.None? <==> forall j :: 0 <= j < |rows| ==> rows[j].running
  {
    if rows == [] then None
    else if !rows[0].running then Some(0)
    else match FirstNotRunning(rows[1..])
      case None => None
      case Some(k) => Some(k + 1)
  }

  /** A store whose rows all run has nothing waiting. */
  lemma {:induction false} AllRunningNoneWaiting(rows: seq<Row>)
    requires forall j :: 0 <= j < |rows| ==> rows[j].running
    ensures NotRunning(rows) == []
    decreases |rows|
  {
    if rows != [] {
      NotRunningCons(rows[0], rows[1..]);
      assert rows == [rows[0]] + rows[1..];
      AllRunningNoneWaiting(rows[1..]);
    }
  }

  /**
   * The head of the waiting rows is the first row, in store order, whose
   * running flag is not set: the waiting list is exactly that row followed by
   * the waiting rows after it.
   */
  lemma WaitingHeadIsFirstNotRunning(rows: seq<Row>)
    ensures NotRunning(rows) != [] <==> FirstNotRunning(rows).Some?
    ensures FirstNotRunning(rows).Some? ==>
              NotRunning(rows) == [rows[FirstNotRunning(rows).value]]
                                  + NotRunning(rows[FirstNotRunning(rows).value + 1..])
  {
    match FirstNotRunning(rows)
    case None =>
      AllRunningNoneWaiting(rows);
    case Some(i) =>
      assert rows == rows[..i] + ([rows[i]] + rows[i + 1..]);
      AllRunningNoneWaiting(rows[..i]);
      NotRunningConcat(rows[..i], [rows[i]] + rows[i + 1..]);
      NotRunningCons(rows[i], rows[i + 1..]);
  }

  /**
   * Marking the first waiting row as running removes exactly that row from the
   * waiting list, provided ids are unique (otherwise the id lookup may mark an
   * earlier row that already runs, and the same row stays first in line).
   */
  lemma StartedRowLeavesWaitingList(rows: seq<Row>)
    requires UniqueIds(rows)
    requires NotRunning(rows) != []
    ensures NotRunning(MarkRunning(rows, NotRunning(rows)[0].id)) == NotRunning(rows)[1..]
  {
    WaitingHeadIsFirstNotRunning(rows);
    var i := FirstNotRunning(rows).value;
    assert NotRunning(rows)[0] == rows[i];
    assert IndexOfId(rows, rows[i].id) == Some(i);
    MarkedFirstWaiting(rows, i);
  }

  lemma MarkedFirstWaiting(rows: seq<Row>, i: nat)
    requires i < |rows| && FirstNotRunning(rows) == Some(i)
    requires IndexOfId(rows, rows[i].id) == Some(i)
    ensures NotRunning(MarkRunning(rows, rows[i].id)) == NotRunning(rows[i + 1..])
  {
    var front, top := rows[..i], rows[i].(running := true);
    MarkRunningSplits(rows, i);
    assert forall j :: 0 <= j < |front| ==> front[j].running;
    AllRunningNoneWaiting(front);
    NotRunningConcat(front, [top] + rows[i + 1..]);
    NotRunningCons(top, rows[i + 1..]);
  }

  lemma MarkRunningSplits(rows: seq<Row>, i: nat)
    requires i < |rows| && IndexOfId(rows, rows[i].id) == Some(i)
    ensures MarkRunning(rows, rows[i].id) == rows[..i] + ([rows[i].(running := true)] + rows[i + 1..])
  {
    var marked := rows[i := rows[i].(running := true)];
    assert MarkRunning(rows, rows[i].id) == marked;
    assert marked[..i] == rows[..i] && marked[i + 1..] == rows[i + 1..];
    assert marked == marked[..i] + ([marked[i]] + marked[i + 1..]);
  }

  /** Two stores whose rows carry the same ids, position by position, have the same ids. */
  lemma SameIds(a: seq<Row>, b: seq<Row>)
    requires |a| == |b| && forall k :: 0 <= k < |a| ==> a[k].id == b[k].id
    ensures Ids(a) == Ids(b)
    ensures UniqueIds(a) <==> UniqueIds(b)
  {
    forall x | x in Ids(a) ensures x in Ids(b) {
      var k :| 0 <= k < |a| && a[k].id == x;
      assert b[k].id == x;
    }
    forall x | x in Ids(b) ensures x in Ids(a) {
      var k :| 0 <= k < |b| && b[k].id == x;
      assert a[k].id == x;
    }
  }

  /** Marking a row running keeps ids unique and among those handed out. */
  lemma MarkRunningKeepsIdsBelow(rows: seq<Row>, id: int, bound: int)
    requires UniqueIds(rows) && IdsBelow(rows, bound)
    ensures UniqueIds(MarkRunning(rows, id)) && IdsBelow(MarkRunning(rows, id), bound)
  {
    match IndexOfId(rows, id)
    case None =>
    case Some(i) =>
      var r := rows[i := rows[i].(running := true)];
      assert forall k :: 0 <= k < |r| ==> r[k].id == rows[k].id;
  }

  /** Marking a row running changes at most that row's flag, so ids stay as they were. */
  lemma MarkRunningKeepsIds(rows: seq<Row>, id: int)
    ensures |MarkRunning(rows, id)| == |rows|
    ensures forall i :: 0 <= i < |rows| ==>
              MarkRunning(rows, id)[i] == rows[i] || MarkRunning(rows, id)[i] == rows[i].(running := true)
    ensures Ids(MarkRunning(rows, id)) == Ids(rows)
    ensures UniqueIds(rows) ==> UniqueIds(MarkRunning(rows, id))
  {
    match IndexOfId(rows, id)
    case None =>
    case Some(i) =>
      var r := rows[i := rows[i].(running := true)];
      assert MarkRunning(rows, id) == r;
      SameIds(rows, r);
  }

  /** After a reset every row waits again, with its id, paths and position kept. */
  lemma {:induction false} StoppedAllWaiting(rows: seq<Row>)
    ensures NotRunning(Stopped(rows)) == Stopped(rows)
    ensures Ids(Stopped(rows)) == Ids(rows)
    decreases |rows|
  {
    var s := Stopped(rows);
    if rows != [] {
      var front := rows[..|rows| - 1];
      assert s[..|s| - 1] == Stopped(front);
      StoppedAllWaiting(front);
      assert s == Stopped(front) + [s[|s| - 1]];
    }
    forall x | x in Ids(rows) ensures x in Ids(s) {
      var k :| 0 <= k < |rows| && rows[k].id == x;
      assert s[k].id == x;
    }
  }

  /** The keys `QueueRow` accepts: a column number, a column name, or anything else. */
  datatype ColumnKey = IntKey(n: int) | StrKey(name: string) | OtherKey

  datatype ColumnError = UnknownColumn | KeyTypeError

  /** The column names, in column order. */
  const ColumnNames: seq<string> := ["id", "file_path", "sub_path", "has_sub", "subpix", "running"]

  /**
   * `QueueRow._get_column` (and the GUI's `_get_column_no` for names): a number
   * is used as it is, a name is looked up in the column map (KeyError for an
   * unknown name), any other key is a TypeError.
   */
  function ColumnOf(key: ColumnKey): (r: Result<int, ColumnError>)
    ensures key.IntKey? ==> r == Ok(key.n)
    ensures key.StrKey? ==> (r.Ok? <==> key.name in ColumnNames)
    ensures key.StrKey? && r.Ok? ==> 0 <= r.value < |ColumnNames| && ColumnNames[r.value] == key.name
    ensures key.StrKey? && r.Err? ==> r.error == UnknownColumn
    ensures key.OtherKey? ==> r == Err(KeyTypeError)
  {
    match key
    case IntKey(n) => Ok(n)
    case OtherKey => Err(KeyTypeError)
    case StrKey(name) =>
      if name == ColumnNames[0] then Ok(0)
      else if name == ColumnNames[1] then Ok(1)
      else if name == ColumnNames[2] then Ok(2)
      else if name == ColumnNames[3] then Ok(3)
      else if name == ColumnNames[4] then Ok(4)
      else if name == ColumnNames[5] then Ok(5)
      else Err(UnknownColumn)
  }

  /** What the right-hand side of `QueueRow.__eq__` can be. */
  datatype Operand = QueueRowOperand(row: Row) | OtherOperand

  /** `QueueRow.__eq__`: equal to another queue row exactly when the ids match. */
  predicate RowEquals(a: Row, other: Operand)
  {
    other.QueueRowOperand? && other.row.id == a.id
  }

  /**
   * `Queue.remove` deletes the first stored row that `QueueRow.__eq__`
   * finds equal to its argument and keeps the others in their order.
   */
  lemma RemoveDeletesFirstEqualRow(rows: seq<Row>, row: Row, i: nat)
    requires i < |rows| && RowEquals(rows[i], QueueRowOperand(row))
    requires forall j :: 0 <= j < i ==> !RowEquals(rows[j], QueueRowOperand(row))
    ensures RemoveFirstWithId(rows, row.id) == rows[..i] + rows[i + 1..]
  {
    assert IndexOfId(rows, row.id) == Some(i);
  }

  /** The `Queue` wrapper around the store. */
  class Queue {
    var rows: seq<Row>

    constructor(rows: seq<Row>)
      ensures this.rows == rows
    {
      this.rows := rows;
    }

    /** `empty`: the store has no rows, so nothing waits. */
    function IsEmpty(): (r: bool)
      reads this
      ensures r <==> |rows| == 0
      ensures r ==> NotRunning(rows) == []
    {
      |rows| == 0
    }

    /** `append`: the row goes to the end. */
    method Append(row: Row)
      modifies this
      ensures rows == old(rows) + [row]
    {
      rows := rows + [row];
    }

    /**
     * `remove`: scans from the top and deletes the first row whose id
     * matches the argument's, reporting whether one was found.
     */
    method Remove(row: Row) returns (removed: bool)
      modifies this
      ensures removed <==> IndexOfId(old(rows), row.id).Some?
      ensures rows == RemoveFirstWithId(old(rows), row.id)
    {
      var i := 0;
      while i < |rows|
        invariant 0 <= i <= |rows|
        invariant rows == old(rows)
        invariant forall j :: 0 <= j < i ==> rows[j].id != row.id
      {
        if rows[i].id == row.id {
          rows := rows[..i] + rows[i + 1..];
          return true;
        }
        i := i + 1;
      }
      return false;
    }

    /** `row['running'] = value` on the row at position `i`. */
    method SetRunning(i: nat, value: bool)
      requires i < |rows|
      modifies this
      ensures rows == old(rows)[i := old(rows)[i].(running := value)]
    {
      rows := rows[i := rows[i].(running := value)];
    }
  }
}
