/** The task table of the dispatch module and its CRUD layer
    (`TaskCRUD` in teleport_webrtc/crud/tasks.py). The table is a sequence of
    rows; every lookup returns the first row whose id matches, as `.first()`
    does on the query result. */
module TaskCrud {
  import opened Common

  /** A latitude/longitude pair as it arrives in a request body. Coordinates
      are stored and copied, never computed on. */
  datatype Coordinates = Coordinates(latitude: real, longitude: real)

  /** A checkpoint as serialised into the JSON column: `{latitude, longitude}`. */
  datatype CheckpointRecord = CheckpointRecord(latitude: real, longitude: real)

  /** The body of a create request (`TaskCreate`). */
  datatype TaskCreate = TaskCreate(
    country: string,
    city: string,
    startCoordinates: Coordinates,
    checkpoints: seq<Coordinates>,
    description: string)

  /** The three values the code ever writes into the `status` column. */
  datatype Status = Pending | InProgress | Completed

  /** One row of the `tasks` table. */
  datatype Task = Task(
    id: int,
    country: string,
    city: string,
    startLatitude: real,
    startLongitude: real,
    checkpoints: seq<CheckpointRecord>,
    description: string,
    executorId: Option<int>,
    status: Status,
    streamUrl: Option<string>,
    createdBy: int)

  const StreamUrlPrefix: string := "ws://127.0.0.1:8002/ws/video/"

  /** The video channel of a task: a fixed prefix followed by the task id. */
  function StreamUrl(taskId: int): string
  {
    StreamUrlPrefix + IntToString(taskId)
  }

  /** The channel identifies its task: distinct tasks never share a channel. */
  lemma StreamUrlInjective(a: int, b: int)
    requires StreamUrl(a) == StreamUrl(b)
    ensures a == b
  {
    var n := |StreamUrlPrefix|;
    assert StreamUrl(a)[n..] == IntToString(a);
    assert StreamUrl(b)[n..] == IntToString(b);
    IntToStringInjective(a, b);
  }

  /** The list comprehension that turns request checkpoints into JSON records:
      same length, same order, each record carrying the same two values. */
  function SerializeCheckpoints(cs: seq<Coordinates>): (r: seq<CheckpointRecord>)
    ensures |r| == |cs|
    ensures forall i :: 0 <= i < |cs| ==>
      r[i].latitude == cs[i].latitude && r[i].longitude == cs[i].longitude
  {
    seq(|cs|, i requires 0 <= i < |cs| => CheckpointRecord(cs[i].latitude, cs[i].longitude))
  }

  /** The row `create_task` builds; the column defaults fill in status,
      executor and stream URL. */
  function NewTask(id: int, data: TaskCreate, userId: int): Task
  {
    Task(id, data.country, data.city,
         data.startCoordinates.latitude, data.startCoordinates.longitude,
         SerializeCheckpoints(data.checkpoints), data.description,
         None, Pending, None, userId)
  }

  /** Row ids strictly increase along the table and stay below the next id
      the table will hand out (an auto-increment primary key). */
  ghost predicate IdsBelow(rows: seq<Task>, nextId: int)
  {
    && (forall i, j :: 0 <= i < j < |rows| ==> rows[i].id < rows[j].id)
    && (forall i :: 0 <= i < |rows| ==> rows[i].id < nextId)
  }

  /** Position of the first row with the given id, or -1. */
  function TaskIndex(rows: seq<Task>, id: int): (k: int)
    ensures -1 <= k < |rows|
    ensures 0 <= k ==> rows[k].id == id && forall j :: 0 <= j < k ==> rows[j].id != id
    ensures k < 0 ==> forall j :: 0 <= j < |rows| ==> rows[j].id != id
    decreases |rows|
  {
    if rows == [] then -1
    else if rows[0].id == id then 0
    else
      var k := TaskIndex(rows[1..], id);
      if k < 0 then -1 else k + 1
  }

  /** `get_task_by_id`: the task with that id, or nothing. */
  function FindTask(rows: seq<Task>, id: int): (r: Option<Task>)
    ensures r.Some? <==> exists j :: 0 <= j < |rows| && rows[j].id == id
    ensures r.Some? ==> r.value in rows && r.value.id == id
  {
    var k := TaskIndex(rows, id);
    if k < 0 then None else Some(rows[k])
  }

  /** What `accept_task` writes into a row: the executor, `in_progress` and
      the channel derived from the requested id. */
  function Accepted(t: Task, taskId: int, executorId: int): Task
  {
    t.(executorId := Some(executorId), status := InProgress, streamUrl := Some(StreamUrl(taskId)))
  }

  /** The table after `accept_task`: the matching row is overwritten whatever
      its executor was; a missing id leaves the table as it was. */
  function AcceptRows(rows: seq<Task>, taskId: int, executorId: int): seq<Task>
  {
    var k := TaskIndex(rows, taskId);
    if k < 0 then rows else rows[k := Accepted(rows[k], taskId, executorId)]
  }

  /** The table after `complete_task`: the matching row becomes `completed`
      whatever its status was. */
  function CompleteRows(rows: seq<Task>, taskId: int): seq<Task>
  {
    var k := TaskIndex(rows, taskId);
    if k < 0 then rows else rows[k := rows[k].(status := Completed)]
  }

  /** The table after `delete_task`: the matching row is removed. */
  function DeleteRows(rows: seq<Task>, taskId: int): seq<Task>
  {
    var k := TaskIndex(rows, taskId);
    if k < 0 then rows else rows[..k] + rows[k + 1..]
  }

  /** Replacing the row found for `id` by a row with the same id changes the
      answer of a lookup for that id only. */
  lemma FindAfterReplace(rows: seq<Task>, id: int, t: Task)
    requires TaskIndex(rows, id) >= 0 && t.id == id
    ensures var rows' := rows[TaskIndex(rows, id) := t];
      forall x :: FindTask(rows', x) == if x == id then Some(t) else FindTask(rows, x)
  {
    var k := TaskIndex(rows, id);
    var rows' := rows[k := t];
    forall x
      ensures FindTask(rows', x) == if x == id then Some(t) else FindTask(rows, x)
    {
      var a, b := TaskIndex(rows', x), TaskIndex(rows, x);
      assert forall j :: 0 <= j < |rows| ==> rows'[j].id == rows[j].id;
      if x == id {
        assert rows'[k] == t;
        assert a == k;
      } else if b >= 0 {
        assert rows'[b].id == x;
        assert a == b;
      } else {
        assert a < 0;
      }
    }
  }

  /** `create_task` appends a row under a fresh id. */
  lemma CreatePreservesIds(rows: seq<Task>, nextId: int, data: TaskCreate, userId: int)
    requires IdsBelow(rows, nextId)
    ensures IdsBelow(rows + [NewTask(nextId, data, userId)], nextId + 1)
  {
  }

  /** Rewriting the fields of a row other than its id keeps the ids in order. */
  lemma ReplacePreservesIds(rows: seq<Task>, nextId: int, k: int, t: Task)
    requires IdsBelow(rows, nextId) && 0 <= k < |rows| && t.id == rows[k].id
    ensures IdsBelow(rows[k := t], nextId)
  {
    assert forall j :: 0 <= j < |rows| ==> rows[k := t][j].id == rows[j].id;
  }

  /** `accept_task` and `complete_task` keep the ids in order. */
  lemma UpdatesPreserveIds(rows: seq<Task>, nextId: int, taskId: int, executorId: int)
    requires IdsBelow(rows, nextId)
    ensures IdsBelow(AcceptRows(rows, taskId, executorId), nextId)
    ensures IdsBelow(CompleteRows(rows, taskId), nextId)
  {
    var k := TaskIndex(rows, taskId);
    if k >= 0 {
      ReplacePreservesIds(rows, nextId, k, Accepted(rows[k], taskId, executorId));
      ReplacePreservesIds(rows, nextId, k, rows[k].(status := Completed));
    }
  }

  /** `delete_task` keeps the ids in order. */
  lemma DeletePreservesIds(rows: seq<Task>, nextId: int, taskId: int)
    requires IdsBelow(rows, nextId)
    ensures IdsBelow(DeleteRows(rows, taskId), nextId)
  {
    var k := TaskIndex(rows, taskId);
    if k >= 0 {
      var d := DeleteRows(rows, taskId);
      assert forall i :: 0 <= i < |d| ==> d[i] == rows[if i < k then i else i + 1];
    }
  }

  /** `delete_task` on a present id removes exactly that task: afterwards the
      id is gone and every other id finds the same task as before. On an
      absent id nothing changes. */
  lemma DeleteRemovesExactly(rows: seq<Task>, nextId: int, taskId: int)
    requires IdsBelow(rows, nextId)
    ensures FindTask(DeleteRows(rows, taskId), taskId) == None
    ensures forall x :: x != taskId ==> FindTask(DeleteRows(rows, taskId), x) == FindTask(rows, x)
    ensures FindTask(rows, taskId).None? ==> DeleteRows(rows, taskId) == rows
    ensures FindTask(rows, taskId).Some? ==> |DeleteRows(rows, taskId)| == |rows| - 1
  {
    var k := TaskIndex(rows, taskId);
    if k >= 0 {
      var d := DeleteRows(rows, taskId);
      assert forall i :: 0 <= i < |d| ==> d[i] == rows[if i < k then i else i + 1];
      forall x | x != taskId
        ensures FindTask(d, x) == FindTask(rows, x)
      {
        var b := TaskIndex(rows, x);
        if b >= 0 {
          var a := if b < k then b else b - 1;
          assert d[a] == rows[b];
          assert TaskIndex(d, x) == a;
        } else {
          assert TaskIndex(d, x) < 0;
        }
      }
      assert TaskIndex(d, taskId) < 0;
    }
  }

  /** The `tasks` table as the CRUD layer sees it. */
  class TaskTable {
    var rows: seq<Task>
    var nextId: int

    ghost predicate Valid()
      reads this
    {
      IdsBelow(rows, nextId)
    }

    constructor ()
      ensures Valid() && rows == [] && nextId == 1
    {
      rows := [];
      nextId := 1;
    }

    /** `create_task`: a new row under the next id, recording the creator,
        copying the request fields, `pending`, no executor, no stream URL. */
    method CreateTask(data: TaskCreate, userId: int) returns (task: Task)
      requires Valid()
      modifies this
      ensures Valid()
      ensures rows == old(rows) + [task] && nextId == old(nextId) + 1
      ensures task.id == old(nextId) && task.createdBy == userId
      ensures task.country == data.country && task.city == data.city
      ensures task.startLatitude == data.startCoordinates.latitude
      ensures task.startLongitude == data.startCoordinates.longitude
      ensures task.checkpoints == SerializeCheckpoints(data.checkpoints)
      ensures task.description == data.description
      ensures task.status == Pending && task.executorId == None && task.streamUrl == None
    {
      CreatePreservesIds(rows, nextId, data, userId);
      task := NewTask(nextId, data, userId);
      rows := rows + [task];
      nextId := nextId + 1;
    }

    /** `delete_task`: true and the row removed when the id exists, false
        and nothing changed otherwise. */
    method DeleteTask(taskId: int) returns (deleted: bool)
      requires Valid()
      modifies this
      ensures Valid() && nextId == old(nextId)
      ensures deleted <==> FindTask(old(rows), taskId).Some?
      ensures rows == DeleteRows(old(rows), taskId)
    {
      DeletePreservesIds(rows, nextId, taskId);
      var k := TaskIndex(rows, taskId);
      if k < 0 {
        return false;
      }
      rows := rows[..k] + rows[k + 1..];
      deleted := true;
    }

    /** `accept_task`: nothing for a missing id; otherwise the row gets the
        executor, `in_progress` and its stream URL, with no check of a
        previous executor, and the updated row is returned. */
    method AcceptTask(taskId: int, executorId: int) returns (r: Option<Task>)
      requires Valid()
      modifies this
      ensures Valid() && nextId == old(nextId)
      ensures rows == AcceptRows(old(rows), taskId, executorId)
      ensures r.None? <==> FindTask(old(rows), taskId).None?
      ensures r.Some? ==> r.value == Accepted(FindTask(old(rows), taskId).value, taskId, executorId)
    {
      UpdatesPreserveIds(rows, nextId, taskId, executorId);
      var k := TaskIndex(rows, taskId);
      if k < 0 {
        return None;
      }
      var task := rows[k];
      task := task.(executorId := Some(executorId));
      task := task.(status := InProgress);
      task := task.(streamUrl := Some(StreamUrl(taskId)));
      rows := rows[k := task];
      r := Some(task);
    }

    /** `complete_task`: nothing for a missing id; otherwise the row becomes
        `completed`, whatever its status was. */
    method CompleteTask(taskId: int) returns (r: Option<Task>)
      requires Valid()
      modifies this
      ensures Valid() && nextId == old(nextId)
      ensures rows == CompleteRows(old(rows), taskId)
      ensures r.None? <==> FindTask(old(rows), taskId).None?
      ensures r.Some? ==> r.value == FindTask(old(rows), taskId).value.(status := Completed)
    {
      UpdatesPreserveIds(rows, nextId, taskId, 0);
      var k := TaskIndex(rows, taskId);
      if k < 0 {
        return None;
      }
      var task := rows[k].(status := Completed);
      rows := rows[k := task];
      r := Some(task);
    }
  }
}
