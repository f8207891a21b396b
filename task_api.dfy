/** The task routes of teleport_webrtc/api/tasks.py: create, get, list,
    delete, accept, complete and watch. Each route that changes the table is
    specified by a function giving its answer and the table afterwards; the
    handler methods perform the same steps against a `TaskTable` and are
    proved to agree with those functions. */
module TaskApi {
  import opened Common
  import opened TaskCrud

  const TaskNotFound := HttpError(404, "Task not found")
  const AlreadyAccepted := HttpError(400, "Task already accepted")
  const NotExecutor := HttpError(403, "You are not the executor of this task")
  const StreamNotStarted := HttpError(400, "Stream not started yet")

  /** The task as a route returns it (`TaskOut`, without the creator record). */
  datatype TaskOut = TaskOut(
    id: int,
    country: string,
    city: string,
    startCoordinates: Coordinates,
    checkpoints: seq<Coordinates>,
    description: string,
    streamUrl: Option<string>)

  /** A route's answer together with the table it leaves behind. */
  datatype Outcome<T> = Outcome(response: Response<T>, rows: seq<Task>)

  /** Python truthiness of a nullable integer column: None and 0 are false. */
  predicate Truthy(x: Option<int>)
  {
    x.Some? && x.value != 0
  }

  /** Python truthiness of a nullable text column: None and "" are false. */
  predicate TruthyText(x: Option<string>)
  {
    x.Some? && x.value != ""
  }

  /** The comprehension the routes use to read checkpoints back out of the
      JSON column. */
  function RenderCheckpoints(rs: seq<CheckpointRecord>): seq<Coordinates>
  {
    seq(|rs|, i requires 0 <= i < |rs| => Coordinates(rs[i].latitude, rs[i].longitude))
  }

  /** Reading stored checkpoints back gives the request's checkpoints. */
  lemma CheckpointsRoundTrip(cs: seq<Coordinates>)
    ensures RenderCheckpoints(SerializeCheckpoints(cs)) == cs
  {
    var r := RenderCheckpoints(SerializeCheckpoints(cs));
    assert |r| == |cs|;
    forall i | 0 <= i < |cs|
      ensures r[i] == cs[i]
    {
      assert r[i] == Coordinates(cs[i].latitude, cs[i].longitude);
    }
  }

  function ToTaskOut(t: Task): TaskOut
  {
    TaskOut(t.id, t.country, t.city, Coordinates(t.startLatitude, t.startLongitude),
            RenderCheckpoints(t.checkpoints), t.description, t.streamUrl)
  }

  /** `get_task`: 404 for a missing task, otherwise the stored task with
      its checkpoints read back out of the JSON column. */
  function GetTask(rows: seq<Task>, taskId: int): (r: Response<TaskOut>)
    ensures r.Fail? <==> FindTask(rows, taskId).None?
    ensures r.Fail? ==> r.error == TaskNotFound
    ensures r.Ok? ==>
      var t := FindTask(rows, taskId).value;
      && r.value.id == taskId
      && r.value.country == t.country && r.value.city == t.city
      && r.value.startCoordinates == Coordinates(t.startLatitude, t.startLongitude)
      && |r.value.checkpoints| == |t.checkpoints|
      && (forall i :: 0 <= i < |t.checkpoints| ==>
            r.value.checkpoints[i] == Coordinates(t.checkpoints[i].latitude, t.checkpoints[i].longitude))
      && r.value.description == t.description
      && r.value.streamUrl == t.streamUrl
  {
    match FindTask(rows, taskId)
    case None => Fail(TaskNotFound)
    case Some(t) => Ok(ToTaskOut(t))
  }

  /** `delete_task`: the CRUD delete, then 404 when it found nothing. */
  function DeleteOutcome(rows: seq<Task>, taskId: int): Outcome<string>
  {
    var deleted := FindTask(rows, taskId).Some?;
    Outcome(if deleted then Ok("Task deleted successfully") else Fail(TaskNotFound),
            DeleteRows(rows, taskId))
  }

  /** `accept_task`: 404 for a missing task, 400 when an executor id is
      already set (truthy), otherwise the CRUD accept and the task's new
      stream URL. */
  function AcceptOutcome(rows: seq<Task>, taskId: int, caller: int): Outcome<string>
  {
    match FindTask(rows, taskId)
    case None => Outcome(Fail(TaskNotFound), rows)
    case Some(t) =>
      if Truthy(t.executorId) then Outcome(Fail(AlreadyAccepted), rows)
      else Outcome(Ok(StreamUrl(taskId)), AcceptRows(rows, taskId, caller))
  }

  /** `complete_task`: 403 unless the task exists and the caller is its
      executor; no check of the status. */
  function CompleteOutcome(rows: seq<Task>, taskId: int, caller: int): Outcome<string>
  {
    var t := FindTask(rows, taskId);
    if t.None? || t.value.executorId != Some(caller) then Outcome(Fail(NotExecutor), rows)
    else Outcome(Ok("Task completed successfully"), CompleteRows(rows, taskId))
  }

  /** `watch_task`: 404 for a missing task, 400 while the stream URL is
      empty, otherwise the stored URL. */
  function WatchTask(rows: seq<Task>, taskId: int): (r: Response<string>)
    ensures r.Ok? <==> FindTask(rows, taskId).Some? && TruthyText(FindTask(rows, taskId).value.streamUrl)
    ensures r.Ok? ==> r.value != "" && FindTask(rows, taskId).value.streamUrl == Some(r.value)
    ensures r.Fail? ==> r.error == (if FindTask(rows, taskId).None? then TaskNotFound else StreamNotStarted)
  {
    match FindTask(rows, taskId)
    case None => Fail(TaskNotFound)
    case Some(t) => if !TruthyText(t.streamUrl) then Fail(StreamNotStarted) else Ok(t.streamUrl.value)
  }

  /** `create_task`: the id of the newly stored task. */
  method CreateTask(table: TaskTable, data: TaskCreate, caller: int) returns (taskId: int)
    requires table.Valid()
    modifies table
    ensures table.Valid()
    ensures taskId == old(table.nextId)
    ensures table.rows == old(table.rows) + [NewTask(taskId, data, caller)]
  {
    var task := table.CreateTask(data, caller);
    taskId := task.id;
  }

  /** `get_all_tasks`: every stored task, in table order, as `TaskOut`. */
  method GetAllTasks(table: TaskTable) returns (out: seq<TaskOut>)
    ensures |out| == |table.rows|
    ensures forall i :: 0 <= i < |out| ==> out[i] == ToTaskOut(table.rows[i])
  {
    var tasks := table.rows;
    out := [];
    var i := 0;
    while i < |tasks|
      invariant 0 <= i <= |tasks|
      invariant |out| == i
      invariant forall j :: 0 <= j < i ==> out[j] == ToTaskOut(tasks[j])
    {
      out := out + [ToTaskOut(tasks[i])];
      i := i + 1;
    }
  }

  method DeleteTask(table: TaskTable, taskId: int) returns (r: Response<string>)
    requires table.Valid()
    modifies table
    ensures table.Valid() && table.nextId == old(table.nextId)
    ensures Outcome(r, table.rows) == DeleteOutcome(old(table.rows), taskId)
  {
    var deleted := table.DeleteTask(taskId);
    if !deleted {
      return Fail(TaskNotFound);
    }
    r := Ok("Task deleted successfully");
  }

  /** The accept handler: look up, check, accept, look up again and answer
      with the stored stream URL. */
  method AcceptTask(table: TaskTable, taskId: int, caller: int) returns (r: Response<string>)
    requires table.Valid()
    modifies table
    ensures table.Valid() && table.nextId == old(table.nextId)
    ensures Outcome(r, table.rows) == AcceptOutcome(old(table.rows), taskId, caller)
  {
    var task := FindTask(table.rows, taskId);
    if task.None? {
      return Fail(TaskNotFound);
    }
    if Truthy(task.value.executorId) {
      return Fail(AlreadyAccepted);
    }
    ghost var before := table.rows;
    var _ := table.AcceptTask(taskId, caller);
    FindAfterReplace(before, taskId, Accepted(task.value, taskId, caller));
    var updated := FindTask(table.rows, taskId);
    r := Ok(updated.value.streamUrl.value);
  }

  method CompleteTask(table: TaskTable, taskId: int, caller: int) returns (r: Response<string>)
    requires table.Valid()
    modifies table
    ensures table.Valid() && table.nextId == old(table.nextId)
    ensures Outcome(r, table.rows) == CompleteOutcome(old(table.rows), taskId, caller)
  {
    var task := FindTask(table.rows, taskId);
    if task.None? || task.value.executorId != Some(caller) {
      return Fail(NotExecutor);
    }
    var _ := table.CompleteTask(taskId);
    r := Ok("Task completed successfully");
  }

  // ---------------------------------------------------------------------
  // Properties of the routes

  /** Reading a task right after creating it gives back what was sent, with
      no stream URL yet; watching it is refused with 400. */
  lemma GetAfterCreate(rows: seq<Task>, nextId: int, data: TaskCreate, caller: int)
    requires IdsBelow(rows, nextId)
    ensures var rows' := rows + [NewTask(nextId, data, caller)];
      && GetTask(rows', nextId) == Ok(TaskOut(nextId, data.country, data.city,
            data.startCoordinates, data.checkpoints, data.description, None))
      && WatchTask(rows', nextId) == Fail(StreamNotStarted)
  {
    var rows' := rows + [NewTask(nextId, data, caller)];
    assert rows'[|rows|].id == nextId;
    assert forall j :: 0 <= j < |rows| ==> rows'[j] == rows[j];
    assert TaskIndex(rows', nextId) == |rows|;
    CheckpointsRoundTrip(data.checkpoints);
  }

  /** Every route answers a missing task with 404, except complete, which
      answers 403; none of them changes the table. */
  lemma MissingTaskAnswers(rows: seq<Task>, taskId: int, caller: int)
    requires FindTask(rows, taskId).None?
    ensures GetTask(rows, taskId) == Fail(TaskNotFound)
    ensures DeleteOutcome(rows, taskId) == Outcome(Fail(TaskNotFound), rows)
    ensures AcceptOutcome(rows, taskId, caller) == Outcome(Fail(TaskNotFound), rows)
    ensures CompleteOutcome(rows, taskId, caller) == Outcome(Fail(NotExecutor), rows)
    ensures WatchTask(rows, taskId) == Fail(TaskNotFound)
  {
    assert TaskIndex(rows, taskId) < 0;
  }

  /** After a successful accept by a real user (ids start at 1), a second
      accept of the same task, by anyone, is refused and changes nothing. */
  lemma SecondAcceptRejected(rows: seq<Task>, taskId: int, first: int, second: int)
    requires AcceptOutcome(rows, taskId, first).response.Ok?
    requires first != 0
    ensures var rows' := AcceptOutcome(rows, taskId, first).rows;
      AcceptOutcome(rows', taskId, second) == Outcome(Fail(AlreadyAccepted), rows')
  {
    var t := FindTask(rows, taskId).value;
    FindAfterReplace(rows, taskId, Accepted(t, taskId, first));
  }

  /** The CRUD accept has no guard of its own: it replaces whatever executor
      the task had. */
  lemma CrudAcceptOverwrites(rows: seq<Task>, taskId: int, executorId: int)
    requires FindTask(rows, taskId).Some?
    ensures FindTask(AcceptRows(rows, taskId, executorId), taskId)
      == Some(Accepted(FindTask(rows, taskId).value, taskId, executorId))
  {
    FindAfterReplace(rows, taskId, Accepted(FindTask(rows, taskId).value, taskId, executorId));
  }

  /** After a successful accept, watch answers with exactly the URL that
      accept returned. */
  lemma WatchAfterAccept(rows: seq<Task>, taskId: int, caller: int)
    requires AcceptOutcome(rows, taskId, caller).response.Ok?
    ensures WatchTask(AcceptOutcome(rows, taskId, caller).rows, taskId)
      == AcceptOutcome(rows, taskId, caller).response
  {
    var t := FindTask(rows, taskId).value;
    FindAfterReplace(rows, taskId, Accepted(t, taskId, caller));
  }

  /** The URL is a function of the task id alone: accepting the same task id
      on any table, by any executor, yields the same URL. */
  lemma AcceptUrlDeterministic(rows1: seq<Task>, rows2: seq<Task>, taskId: int, e1: int, e2: int)
    requires AcceptOutcome(rows1, taskId, e1).response.Ok?
    requires AcceptOutcome(rows2, taskId, e2).response.Ok?
    ensures AcceptOutcome(rows1, taskId, e1).response == AcceptOutcome(rows2, taskId, e2).response
  {
  }

  /** Complete succeeds exactly when the task exists and the caller is its
      executor, so completing a task nobody accepted is refused with 403. */
  lemma CompleteNeedsExecutor(rows: seq<Task>, taskId: int, caller: int)
    ensures CompleteOutcome(rows, taskId, caller).response.Ok?
      <==> FindTask(rows, taskId).Some? && FindTask(rows, taskId).value.executorId == Some(caller)
    ensures FindTask(rows, taskId).Some? && FindTask(rows, taskId).value.executorId.None? ==>
      CompleteOutcome(rows, taskId, caller) == Outcome(Fail(NotExecutor), rows)
  {
  }

  /** There is no status guard: the executor can complete a task again, and
      the second call leaves the table as the first one did. */
  lemma CompleteRepeatable(rows: seq<Task>, taskId: int, caller: int)
    requires CompleteOutcome(rows, taskId, caller).response.Ok?
    ensures var rows' := CompleteOutcome(rows, taskId, caller).rows;
      CompleteOutcome(rows', taskId, caller) == Outcome(Ok("Task completed successfully"), rows')
  {
    var t := FindTask(rows, taskId).value;
    var k := TaskIndex(rows, taskId);
    FindAfterReplace(rows, taskId, t.(status := Completed));
    var rows' := rows[k := t.(status := Completed)];
    assert rows'[k].id == taskId;
    assert forall j :: 0 <= j < k ==> rows'[j] == rows[j];
    assert TaskIndex(rows', taskId) == k;
    assert rows'[k := rows'[k].(status := Completed)] == rows';
  }

  /** After a successful delete the task is gone for every route, and all
      other tasks read as before. */
  lemma DeleteThenGone(rows: seq<Task>, nextId: int, taskId: int)
    requires IdsBelow(rows, nextId)
    requires DeleteOutcome(rows, taskId).response.Ok?
    ensures var rows' := DeleteOutcome(rows, taskId).rows;
      && GetTask(rows', taskId) == Fail(TaskNotFound)
      && WatchTask(rows', taskId) == Fail(TaskNotFound)
      && DeleteOutcome(rows', taskId) == Outcome(Fail(TaskNotFound), rows')
      && forall x :: x != taskId ==> GetTask(rows', x) == GetTask(rows, x)
  {
    DeleteRemovesExactly(rows, nextId, taskId);
    var rows' := DeleteRows(rows, taskId);
    DeletePreservesIds(rows, nextId, taskId);
    DeleteRemovesExactly(rows', nextId, taskId);
  }

  // ---------------------------------------------------------------------
  // The lifecycle seen through the routes

  /** A task as the routes leave it: either untouched since creation, or
      bound to a real executor with its channel set. */
  ghost predicate Consistent(t: Task)
  {
    || (t.status == Pending && t.executorId == None && t.streamUrl == None)
    || (t.status != Pending && t.executorId.Some? && t.executorId.value > 0
        && t.streamUrl == Some(StreamUrl(t.id)))
  }

  ghost predicate AllConsistent(rows: seq<Task>)
  {
    forall i :: 0 <= i < |rows| ==> Consistent(rows[i])
  }

  function Rank(s: Status): nat
  {
    match s
    case Pending => 0
    case InProgress => 1
    case Completed => 2
  }

  /** What a route may do to a task that is still there afterwards: status
      never moves back, and a bound executor, the channel and the creator
      never change. */
  ghost predicate Advances(before: Task, after: Task)
  {
    && after.id == before.id
    && after.createdBy == before.createdBy
    && Rank(before.status) <= Rank(after.status)
    && (before.executorId.Some? ==> after.executorId == before.executorId)
    && (before.streamUrl.Some? ==> after.streamUrl == before.streamUrl)
  }

  ghost predicate AllAdvance(rows: seq<Task>, rows': seq<Task>)
  {
    forall x :: FindTask(rows, x).Some? && FindTask(rows', x).Some? ==>
      Advances(FindTask(rows, x).value, FindTask(rows', x).value)
  }

  /** A freshly created task is pending, with no executor and no stream
      URL, and the table stays consistent. */
  lemma CreateKeepsLifecycle(rows: seq<Task>, nextId: int, data: TaskCreate, caller: int)
    requires AllConsistent(rows)
    ensures NewTask(nextId, data, caller).status == Pending
    ensures NewTask(nextId, data, caller).executorId.None? && NewTask(nextId, data, caller).streamUrl.None?
    ensures AllConsistent(rows + [NewTask(nextId, data, caller)])
  {
  }

  /** With real user ids, the accept route keeps every task consistent and
      only moves tasks forward. */
  lemma AcceptKeepsLifecycle(rows: seq<Task>, taskId: int, caller: int)
    requires AllConsistent(rows) && caller > 0
    ensures AllConsistent(AcceptOutcome(rows, taskId, caller).rows)
    ensures AllAdvance(rows, AcceptOutcome(rows, taskId, caller).rows)
  {
    var k := TaskIndex(rows, taskId);
    if k >= 0 && !Truthy(rows[k].executorId) {
      var t := rows[k];
      assert t.status == Pending;
      var t' := Accepted(t, taskId, caller);
      FindAfterReplace(rows, taskId, t');
      var rows' := rows[k := t'];
      assert forall i :: 0 <= i < |rows'| ==> rows'[i] == (if i == k then t' else rows[i]);
    }
  }

  /** With real user ids, the complete route keeps every task consistent and
      only moves tasks forward. */
  lemma CompleteKeepsLifecycle(rows: seq<Task>, taskId: int, caller: int)
    requires AllConsistent(rows) && caller > 0
    ensures AllConsistent(CompleteOutcome(rows, taskId, caller).rows)
    ensures AllAdvance(rows, CompleteOutcome(rows, taskId, caller).rows)
  {
    var k := TaskIndex(rows, taskId);
    if k >= 0 && rows[k].executorId == Some(caller) {
      var t := rows[k];
      var t' := t.(status := Completed);
      FindAfterReplace(rows, taskId, t');
      var rows' := rows[k := t'];
      assert forall i :: 0 <= i < |rows'| ==> rows'[i] == (if i == k then t' else rows[i]);
    }
  }

  /** Every row left by a delete is consistent when every row was. */
  lemma DeleteKeepsConsistent(rows: seq<Task>, taskId: int)
    requires AllConsistent(rows)
    ensures AllConsistent(DeleteRows(rows, taskId))
  {
    var k := TaskIndex(rows, taskId);
    if k >= 0 {
      var d := DeleteRows(rows, taskId);
      forall i | 0 <= i < k
        ensures Consistent(d[i])
      {
        assert d[i] == rows[i];
      }
      forall i | k <= i < |d|
        ensures Consistent(d[i])
      {
        assert d[i] == rows[i + 1];
      }
    }
  }

  /** The delete route removes one task and leaves the others as they were. */
  lemma DeleteKeepsLifecycle(rows: seq<Task>, nextId: int, taskId: int)
    requires AllConsistent(rows) && IdsBelow(rows, nextId)
    ensures AllConsistent(DeleteOutcome(rows, taskId).rows)
    ensures AllAdvance(rows, DeleteOutcome(rows, taskId).rows)
    ensures forall x :: x != taskId ==> FindTask(DeleteOutcome(rows, taskId).rows, x) == FindTask(rows, x)
  {
    DeleteKeepsConsistent(rows, taskId);
    DeleteRemovesExactly(rows, nextId, taskId);
  }
}
