/** The distance-task manager: tasks stored by id, the set of ids still to be
    worked on, and the queue a worker takes ids from. The distance computation
    itself is an input: its outcome is given to the worker step, which runs it
    as one indivisible step. Times are abstract instants. */
module TaskManager {
  import opened Wrappers
  import opened Ordering

  datatype Status = Queued | Processing | Completed | Failed | Cancelled

  /** A row of `tasks`. */
  datatype Task = Task(
    id: string,
    filename: string,
    status: Status,
    createdAt: int,
    completedAt: Option<int>,
    error: Option<string>,
    resultData: Option<string>,
    resultFilename: Option<string>,
    progress: int,
    fileContent: seq<bv8>)

  /** What the distance computation yields for a task: the encoded result file
      and its name, or the text of the exception it raised. */
  datatype Outcome = Success(resultData: string, resultFilename: string) | Raised(message: string)

  function CreatedAt(t: Task): int {
    t.createdAt
  }

  predicate IsTerminal(s: Status) {
    s == Completed || s == Failed || s == Cancelled
  }

  /** The status changes the manager makes: a queued or processing task may
      finish, fail or be cancelled, a queued one may start, and nothing leaves
      a terminal status. */
  predicate Allowed(a: Status, b: Status) {
    a == b
    || (a == Queued && b == Processing)
    || ((a == Queued || a == Processing) && IsTerminal(b))
  }

  /** A task after the computation has run on it. */
  function Finished(t: Task, outcome: Outcome, now: int): (r: Task)
    ensures r.id == t.id && r.filename == t.filename && r.createdAt == t.createdAt
    ensures r.completedAt == Some(now)
    ensures outcome.Success? ==> (r.status == Completed
      && r.resultData == Some(outcome.resultData) && r.resultFilename == Some(outcome.resultFilename))
    ensures outcome.Raised? ==> r.status == Failed && r.error == Some(outcome.message)
  {
    match outcome
    case Success(data, name) =>
      t.(status := Completed, completedAt := Some(now), resultData := Some(data), resultFilename := Some(name))
    case Raised(message) =>
      t.(status := Failed, error := Some(message), completedAt := Some(now))
  }

  /** Every way a computation ends moves a queued task along an allowed
      change into a terminal status. */
  lemma FinishedAllowed(t: Task, outcome: Outcome, now: int)
    requires t.status == Queued
    ensures Allowed(t.status, Finished(t, outcome, now).status) && IsTerminal(Finished(t, outcome, now).status)
  {
  }

  /** A reordering keeps the length and the members. */
  lemma SameElements<T>(a: seq<T>, b: seq<T>)
    requires multiset(a) == multiset(b)
    ensures |a| == |b| && forall t :: t in a <==> t in b
  {
    assert |multiset(a)| == |a| && |multiset(b)| == |b|;
    forall t
      ensures t in a <==> t in b
    {
      assert t in a <==> t in multiset(a);
      assert t in b <==> t in multiset(b);
    }
  }

  const CancelledMessage := "Task cancelled by user"

  class TaskManager {
    var tasks: map<string, Task>
    var active: set<string>
    var queue: seq<string>

    /** Every row sits under its own id, and every id still to be worked on
        belongs to a queued task and waits in the queue. */
    predicate Valid()
      reads this
    {
      (forall id :: id in tasks ==> tasks[id].id == id)
      && (forall id :: id in active ==> id in tasks && tasks[id].status == Queued && id in queue)
    }

    /** The manager over the rows already stored, with nothing queued. */
    constructor (rows: map<string, Task>)
      requires forall id :: id in rows ==> rows[id].id == id
      ensures tasks == rows && active == {} && queue == [] && Valid()
    {
      tasks := rows;
      active := {};
      queue := [];
    }

    /** add_task: a new queued row under a fresh id, which becomes active and
        joins the end of the queue. */
    method AddTask(fileContent: seq<bv8>, filename: string, id: string, now: int) returns (r: string)
      requires Valid() && id !in tasks
      modifies this
      ensures Valid() && r == id
      ensures tasks == old(tasks)[id := Task(id, filename, Queued, now, None, None, None, None, 0, fileContent)]
      ensures active == old(active) + {id} && queue == old(queue) + [id]
    {
      tasks := tasks[id := Task(id, filename, Queued, now, None, None, None, None, 0, fileContent)];
      active := active + {id};
      queue := queue + [id];
      r := id;
    }

    /** One turn of the worker loop: take the first id from the queue. An id
        no longer active is ignored. An active one is set processing, the
        computation runs, and the task ends completed with its result or
        failed with the error, leaving the active set either way. */
    method ProcessNext(outcome: Outcome, now: int)
      requires Valid() && queue != []
      modifies this
      ensures Valid()
      ensures queue == old(queue)[1..]
      ensures old(queue)[0] !in old(active) ==> tasks == old(tasks) && active == old(active)
      ensures old(queue)[0] in old(active) ==>
        tasks == old(tasks)[old(queue)[0] := Finished(old(tasks)[old(queue)[0]], outcome, now)]
        && active == old(active) - {old(queue)[0]}
      ensures forall id :: id in old(tasks) ==> id in tasks && Allowed(old(tasks)[id].status, tasks[id].status)
    {
      var id := queue[0];
      queue := queue[1..];
      if id !in active {
        return;
      }
      var task := tasks[id];
      task := task.(status := Processing);
      tasks := tasks[id := task];
      task := Finished(task, outcome, now);
      tasks := tasks[id := task];
      active := active - {id};
    }

    /** The worker over several turns: every id it takes leaves the active
        set, so none of them is worked on again. */
    method RunWorker(outcomes: seq<Outcome>, now: int)
      requires Valid() && |outcomes| <= |queue|
      modifies this
      ensures Valid()
      ensures queue == old(queue)[|outcomes|..]
      ensures forall i :: 0 <= i < |outcomes| ==> old(queue)[i] !in active
      ensures active <= old(active)
    {
      var i := 0;
      while i < |outcomes|
        invariant 0 <= i <= |outcomes|
        invariant Valid()
        invariant queue == old(queue)[i..]
        invariant forall k :: 0 <= k < i ==> old(queue)[k] !in active
        invariant active <= old(active)
      {
        ProcessNext(outcomes[i], now);
        i := i + 1;
      }
    }

    /** get_task. */
    function GetTask(id: string): (r: Option<Task>)
      reads this
      ensures r.Some? <==> id in tasks
      ensures r.Some? ==> r.value == tasks[id]
    {
      if id in tasks then Some(tasks[id]) else None
    }

    /** get_all_tasks: every row once, newest first. */
    method GetAllTasks() returns (r: seq<Task>)
      requires Valid()
      ensures NewestFirst(r, CreatedAt)
      ensures |r| == |tasks|
      ensures forall id :: id in tasks ==> tasks[id] in r
      ensures forall t :: t in r ==> t.id in tasks && tasks[t.id] == t
    {
      var rows: seq<Task> := [];
      var rest := tasks.Keys;
      while rest != {}
        invariant rest <= tasks.Keys
        invariant |rows| + |rest| == |tasks|
        invariant forall id :: id in tasks && id !in rest ==> tasks[id] in rows
        invariant forall t :: t in rows ==> t.id in tasks && t.id !in rest && tasks[t.id] == t
        decreases |rest|
      {
        var id :| id in rest;
        rows := rows + [tasks[id]];
        assert |rest - {id}| == |rest| - 1;
        rest := rest - {id};
      }
      r := SortNewestFirst(rows, CreatedAt);
      SameElements(rows, r);
    }

    /** cancel_task: an unknown id answers false; a task that is neither
        queued nor processing raises `ValueError`; otherwise it is cancelled
        with the user's message and leaves the active set. */
    method CancelTask(id: string, now: int) returns (r: Result<bool, string>)
      requires Valid()
      modifies this
      ensures Valid() && queue == old(queue)
      ensures id !in old(tasks) ==> r == Ok(false) && tasks == old(tasks) && active == old(active)
      ensures id in old(tasks) && old(tasks)[id].status != Queued && old(tasks)[id].status != Processing ==>
        r == Err("Only queued or processing tasks can be cancelled") && tasks == old(tasks) && active == old(active)
      ensures id in old(tasks) && (old(tasks)[id].status == Queued || old(tasks)[id].status == Processing) ==>
        r == Ok(true)
        && tasks == old(tasks)[id := old(tasks)[id].(status := Cancelled, completedAt := Some(now), error := Some(CancelledMessage))]
        && active == old(active) - {id}
      ensures forall k :: k in old(tasks) ==> k in tasks && Allowed(old(tasks)[k].status, tasks[k].status)
    {
      if id !in tasks {
        return Ok(false);
      }
      var task := tasks[id];
      if task.status != Queued && task.status != Processing {
        return Err("Only queued or processing tasks can be cancelled");
      }
      tasks := tasks[id := task.(status := Cancelled, completedAt := Some(now), error := Some(CancelledMessage))];
      if id in active {
        active := active - {id};
      }
      r := Ok(true);
    }

    /** delete_task: an unknown id answers false; only a completed, failed or
        cancelled task is removed, any other raises `ValueError`. */
    method DeleteTask(id: string) returns (r: Result<bool, string>)
      requires Valid()
      modifies this
      ensures Valid() && queue == old(queue) && active == old(active)
      ensures id !in old(tasks) ==> r == Ok(false) && tasks == old(tasks)
      ensures id in old(tasks) && !IsTerminal(old(tasks)[id].status) ==>
        r == Err("Only completed, failed, or cancelled tasks can be deleted") && tasks == old(tasks)
      ensures id in old(tasks) && IsTerminal(old(tasks)[id].status) ==>
        r == Ok(true) && tasks == old(tasks) - {id}
    {
      if id !in tasks {
        return Ok(false);
      }
      if !IsTerminal(tasks[id].status) {
        return Err("Only completed, failed, or cancelled tasks can be deleted");
      }
      tasks := tasks - {id};
      r := Ok(true);
    }
  }
}
