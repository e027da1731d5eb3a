/**
 * The rows downloadSession hands to the spreadsheet writer: a name row, the
 * completed tasks, then the pending tasks. Writing the workbook is not modelled.
 */
module Export {
  import opened Values

  /** The fields of a task that the export reads. */
  datatype TaskView = TaskView(name: string, minutes: int, completedTime: Option<int>, description: string)

  /**
   * A spreadsheet row. `completedTime` stands for the ISO text of the completion
   * instant; `None` is the empty cell.
   */
  datatype Row =
    | NameRow(name: string)
    | TaskRow(status: string, task: string, minutes: int, completedTime: Option<int>, description: string)

  const CompletedStatus: string := "Completed tasks"
  const PendingStatus: string := "Pending tasks"

  function DoneRows(done: seq<TaskView>): (rows: seq<Row>)
    ensures |rows| == |done|
    ensures forall i :: 0 <= i < |done| ==>
      rows[i] == TaskRow(CompletedStatus, done[i].name, done[i].minutes, done[i].completedTime, done[i].description)
  {
    if done == [] then []
    else
      var t := done[0];
      [TaskRow(CompletedStatus, t.name, t.minutes, t.completedTime, t.description)] + DoneRows(done[1..])
  }

  function PendingRows(pending: seq<TaskView>): (rows: seq<Row>)
    ensures |rows| == |pending|
    ensures forall i :: 0 <= i < |pending| ==>
      rows[i] == TaskRow(PendingStatus, pending[i].name, pending[i].minutes, None, pending[i].description)
  {
    if pending == [] then []
    else
      var t := pending[0];
      [TaskRow(PendingStatus, t.name, t.minutes, None, t.description)] + PendingRows(pending[1..])
  }

  /** The export: the student's name, every completed task in order, then every pending task in order. */
  function SessionRows(studentName: string, done: seq<TaskView>, pending: seq<TaskView>): (rows: seq<Row>)
    ensures |rows| == 1 + |done| + |pending|
    ensures rows[0] == NameRow(studentName)
  {
    [NameRow(studentName)] + DoneRows(done) + PendingRows(pending)
  }

  /** After the name row come the completed tasks, in order, and then the pending tasks, in order. */
  lemma SessionRowsLayout(studentName: string, done: seq<TaskView>, pending: seq<TaskView>)
    ensures var rows := SessionRows(studentName, done, pending);
      && (forall i :: 0 <= i < |done| ==>
        rows[1 + i] == TaskRow(CompletedStatus, done[i].name, done[i].minutes, done[i].completedTime, done[i].description))
      && (forall j :: 0 <= j < |pending| ==>
        rows[1 + |done| + j] == TaskRow(PendingStatus, pending[j].name, pending[j].minutes, None, pending[j].description))
  {
    var head, d, p := [NameRow(studentName)], DoneRows(done), PendingRows(pending);
    var rows := head + d + p;
    forall i | 0 <= i < |done| ensures rows[1 + i] == d[i] {
      assert rows[1 + i] == (head + d)[1 + i];
    }
    forall j | 0 <= j < |pending| ensures rows[1 + |done| + j] == p[j] { }
  }

  /** The tasks with the given status, read back from rows. */
  function Select(rows: seq<Row>, status: string): seq<TaskView> {
    if rows == [] then []
    else
      var rest := Select(rows[1..], status);
      match rows[0]
      case TaskRow(s, task, minutes, completed, description) =>
        if s == status then [TaskView(task, minutes, completed, description)] + rest else rest
      case NameRow(_) => rest
  }

  lemma {:induction false} SelectAppend(a: seq<Row>, b: seq<Row>, status: string)
    ensures Select(a + b, status) == Select(a, status) + Select(b, status)
  {
    if a == [] {
      assert a + b == b;
    } else {
      assert (a + b)[1..] == a[1..] + b;
      SelectAppend(a[1..], b, status);
    }
  }

  lemma {:induction false} SelectDoneRows(done: seq<TaskView>)
    ensures Select(DoneRows(done), CompletedStatus) == done
    ensures Select(DoneRows(done), PendingStatus) == []
  {
    assert CompletedStatus[0] != PendingStatus[0];
    if done != [] {
      SelectDoneRows(done[1..]);
    }
  }

  lemma {:induction false} SelectPendingRows(pending: seq<TaskView>)
    ensures Select(PendingRows(pending), CompletedStatus) == []
    ensures |Select(PendingRows(pending), PendingStatus)| == |pending|
    ensures forall i :: 0 <= i < |pending| ==>
      Select(PendingRows(pending), PendingStatus)[i] == pending[i].(completedTime := None)
  {
    assert CompletedStatus[0] != PendingStatus[0];
    if pending != [] {
      SelectPendingRows(pending[1..]);
    }
  }

  /** Tasks without a completion instant come back from the pending rows unchanged. */
  lemma PendingReadBack(pending: seq<TaskView>)
    requires forall t :: t in pending ==> t.completedTime == None
    ensures Select(PendingRows(pending), CompletedStatus) == []
    ensures Select(PendingRows(pending), PendingStatus) == pending
  {
    SelectPendingRows(pending);
    var back := Select(PendingRows(pending), PendingStatus);
    forall i | 0 <= i < |pending| ensures back[i] == pending[i] {
      assert pending[i] in pending;
    }
  }

  /**
   * The export loses nothing it writes: the completed tasks come back in order
   * with their completion instants, and the pending tasks come back in order,
   * which (never having been completed) have none.
   */
  lemma ExportReadBack(studentName: string, done: seq<TaskView>, pending: seq<TaskView>)
    requires forall t :: t in pending ==> t.completedTime == None
    ensures Select(SessionRows(studentName, done, pending), CompletedStatus) == done
    ensures Select(SessionRows(studentName, done, pending), PendingStatus) == pending
  {
    var head, doneRows, pendingRows := [NameRow(studentName)], DoneRows(done), PendingRows(pending);
    assert head[1..] == [];
    SelectDoneRows(done);
    PendingReadBack(pending);
    SelectAppend(head, doneRows, CompletedStatus);
    SelectAppend(head, doneRows, PendingStatus);
    SelectAppend(head + doneRows, pendingRows, CompletedStatus);
    SelectAppend(head + doneRows, pendingRows, PendingStatus);
  }
}
