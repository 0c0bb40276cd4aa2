/**
 * The two read-only views of the tables: the user's task list with derived
 * totals and running flags, and the user's active task.
 */
module Projections {
  import opened Wrappers
  import opened Tables
  import opened Durations

  /** The fields of a task the API returns, with the two derived ones. */
  datatype TaskResponse = TaskResponse(
    id: nat,
    title: string,
    description: Option<string>,
    matter: Option<string>,
    status: TaskStatus,
    totalDuration: int,
    isRunning: bool)

  function Respond(t: Task, totalDuration: int, isRunning: bool): TaskResponse {
    TaskResponse(t.id, t.title, t.description, t.matter, t.status, totalDuration, isRunning)
  }

  /** A task's entry in the list, with its totals derived from the session table. */
  function Listed(t: Task, sessions: seq<Session>): TaskResponse {
    Respond(t, TotalDuration(sessions, t.id), IsRunning(sessions, t.id))
  }

  /** The list query's filter: the user's own tasks, and only those of the given status if one is given. */
  predicate Selected(t: Task, userId: nat, filter: Option<TaskStatus>) {
    t.userId == userId && (filter.None? || t.status == filter.value)
  }

  /** The rows the list query returns, in table order. */
  function UserTasks(tasks: seq<Task>, userId: nat, filter: Option<TaskStatus>): (r: seq<Task>)
    ensures forall t :: t in r <==> t in tasks && Selected(t, userId, filter)
    ensures |r| <= |tasks|
  {
    if |tasks| == 0 then []
    else (if Selected(tasks[0], userId, filter) then [tasks[0]] else []) + UserTasks(tasks[1..], userId, filter)
  }

  /** The list keeps every selected row exactly as often as the table holds it, and no other row. */
  lemma {:induction false} UserTasksCounts(tasks: seq<Task>, userId: nat, filter: Option<TaskStatus>)
    ensures forall t :: multiset(UserTasks(tasks, userId, filter))[t]
                        == (if Selected(t, userId, filter) then multiset(tasks)[t] else 0)
  {
    if |tasks| > 0 {
      assert tasks == [tasks[0]] + tasks[1..];
      UserTasksCounts(tasks[1..], userId, filter);
    }
  }

  /** The task list: one entry per selected task, in order, each with its derived total and running flag. */
  method GetTasks(tasks: seq<Task>, sessions: seq<Session>, userId: nat, filter: Option<TaskStatus>)
    returns (result: seq<TaskResponse>)
    ensures |result| == |UserTasks(tasks, userId, filter)|
    ensures forall i :: 0 <= i < |result| ==>
      var t := UserTasks(tasks, userId, filter)[i];
      && result[i] == Listed(t, sessions)
      && result[i].totalDuration == TotalDuration(sessions, t.id)
      && (result[i].isRunning <==> exists j :: 0 <= j < |sessions| && sessions[j].taskId == t.id && IsOpen(sessions[j]))
  {
    var selected := UserTasks(tasks, userId, filter);
    result := [];
    for i := 0 to |selected|
      invariant |result| == i
      invariant forall j :: 0 <= j < i ==> result[j] == Listed(selected[j], sessions)
    {
      var t := selected[i];
      var totalDuration := TotalDuration(sessions, t.id);
      var isRunning := IsRunning(sessions, t.id);
      result := result + [Respond(t, totalDuration, isRunning)];
    }
  }

  /**
   * The user's active task: none when the user has no open session,
   * otherwise the open session's task (looked up by id alone), flagged as
   * running, with its total.
   */
  function GetActiveTask(tasks: seq<Task>, sessions: seq<Session>, userId: nat): (r: Option<TaskResponse>)
    requires SessionsOwned(tasks, sessions)
    ensures r.None? <==> forall i :: 0 <= i < |sessions| ==> !(IsOpen(sessions[i]) && sessions[i].userId == userId)
    ensures r.Some? ==> r.value.isRunning
    ensures r.Some? ==> exists i :: 0 <= i < |sessions| && IsOpen(sessions[i]) && sessions[i].userId == userId
                                    && sessions[i].taskId == r.value.id
    ensures r.Some? ==> r.value.totalDuration == TotalDuration(sessions, r.value.id)
  {
    match RunningOf(sessions, userId)
    case None => None
    case Some(i) =>
      assert HasTask(tasks, sessions[i].taskId, sessions[i].userId);
      match TaskById(tasks, sessions[i].taskId)
      case None => assert false; None
      case Some(k) => Some(Respond(tasks[k], TotalDuration(sessions, tasks[k].id), true))
  }

  /** The active task is the user's own and appears in the unfiltered list exactly as reported. */
  lemma ActiveTaskIsListed(tasks: seq<Task>, sessions: seq<Session>, nextId: nat, userId: nat)
    requires TablesValid(tasks, sessions, nextId)
    ensures GetActiveTask(tasks, sessions, userId).Some? ==>
      exists t :: t in UserTasks(tasks, userId, None) && Listed(t, sessions) == GetActiveTask(tasks, sessions, userId).value
  {
    var i := RunningOf(sessions, userId);
    if i.Some? {
      OwnerOfSession(tasks, sessions, nextId, i.value);
      var k := TaskById(tasks, sessions[i.value].taskId).value;
      assert IsRunning(sessions, tasks[k].id);
      assert tasks[k] in UserTasks(tasks, userId, None);
    }
  }

  /** No user ever has two running tasks. */
  lemma AtMostOneRunningTask(tasks: seq<Task>, sessions: seq<Session>, nextId: nat)
    requires TablesValid(tasks, sessions, nextId)
    ensures forall k, l ::
      0 <= k < |tasks| && 0 <= l < |tasks| && tasks[k].userId == tasks[l].userId &&
      IsRunning(sessions, tasks[k].id) && IsRunning(sessions, tasks[l].id)
      ==> k == l
  {
    forall k, l | 0 <= k < |tasks| && 0 <= l < |tasks| && tasks[k].userId == tasks[l].userId &&
        IsRunning(sessions, tasks[k].id) && IsRunning(sessions, tasks[l].id)
      ensures k == l
    {
      var i :| 0 <= i < |sessions| && sessions[i].taskId == tasks[k].id && IsOpen(sessions[i]);
      var j :| 0 <= j < |sessions| && sessions[j].taskId == tasks[l].id && IsOpen(sessions[j]);
      OwnerOfSession(tasks, sessions, nextId, i);
      OwnerOfSession(tasks, sessions, nextId, j);
      IdsUnique(tasks, nextId, k, TaskById(tasks, sessions[i].taskId).value);
      IdsUnique(tasks, nextId, l, TaskById(tasks, sessions[j].taskId).value);
      assert i == j;
      IdsUnique(tasks, nextId, k, l);
    }
  }
}
