/**
 * The two tables of the timer engine: tasks and timer sessions, the
 * single-row queries that the routes run against them, and the invariants
 * that every reachable state of the tables satisfies.
 */
module Tables {
  import opened Wrappers

  datatype TaskStatus = Open | Completed

  /** A row of the tasks table. The server-side `created_at` timestamp is not modelled. */
  datatype Task = Task(
    id: nat,
    userId: nat,
    title: string,
    description: Option<string>,
    categoryId: Option<nat>,
    matter: Option<string>,
    status: TaskStatus,
    completedAt: Option<int>)

  /** A row of the task_sessions table; times are whole seconds. */
  datatype Session = Session(
    taskId: nat,
    userId: nat,
    startTime: int,
    endTime: Option<int>,
    duration: int)

  /** A session is open (its timer runs) while it has no end time. */
  predicate IsOpen(s: Session) {
    s.endTime.None?
  }

  /**
   * The row a query's `.first()` returns, taken here as the earliest one in
   * table order that matches. The queries have no ordering clause; the
   * lemmas OnlyRunningSession, FindTaskOfRow and TaskByIdOfRow show that in
   * consistent tables at most one row ever matches, so the choice is moot.
   */
  function First<T>(s: seq<T>, p: T -> bool): (r: Option<nat>)
    ensures r.Some? ==> r.value < |s| && p(s[r.value])
    ensures r.Some? ==> forall j :: 0 <= j < r.value ==> !p(s[j])
    ensures r.None? ==> forall j :: 0 <= j < |s| ==> !p(s[j])
  {
    if |s| == 0 then None
    else if p(s[0]) then Some(0)
    else match First(s[1..], p)
      case None => None
      case Some(k) => Some(k + 1)
  }

  /** The task with this id that belongs to this user. */
  function FindTask(tasks: seq<Task>, id: nat, userId: nat): Option<nat> {
    First(tasks, (t: Task) => t.id == id && t.userId == userId)
  }

  /** The task with this id, whoever owns it. */
  function TaskById(tasks: seq<Task>, id: nat): Option<nat> {
    First(tasks, (t: Task) => t.id == id)
  }

  /** The user's open session, whatever its task. */
  function RunningOf(sessions: seq<Session>, userId: nat): Option<nat> {
    First(sessions, (s: Session) => IsOpen(s) && s.userId == userId)
  }

  /** The user's open session on this task. */
  function RunningFor(sessions: seq<Session>, taskId: nat, userId: nat): Option<nat> {
    First(sessions, (s: Session) => s.taskId == taskId && s.userId == userId && IsOpen(s))
  }

  predicate HasTask(tasks: seq<Task>, id: nat, userId: nat) {
    exists k :: 0 <= k < |tasks| && tasks[k].id == id && tasks[k].userId == userId
  }

  /** Task ids are handed out in increasing order, all below the next one to hand out. */
  ghost predicate IdsIssued(tasks: seq<Task>, nextId: nat) {
    && (forall k, l :: 0 <= k < l < |tasks| ==> tasks[k].id < tasks[l].id)
    && (forall k :: 0 <= k < |tasks| ==> tasks[k].id < nextId)
  }

  /** Every session refers to a task of the same user. */
  ghost predicate SessionsOwned(tasks: seq<Task>, sessions: seq<Session>) {
    forall i :: 0 <= i < |sessions| ==> HasTask(tasks, sessions[i].taskId, sessions[i].userId)
  }

  /** An open session has not yet been credited with any time. */
  ghost predicate OpenIdle(sessions: seq<Session>) {
    forall i :: 0 <= i < |sessions| && IsOpen(sessions[i]) ==> sessions[i].duration == 0
  }

  /** Each user has at most one open session. */
  ghost predicate SingleRunner(sessions: seq<Session>) {
    forall i, j ::
      0 <= i < |sessions| && 0 <= j < |sessions| &&
      IsOpen(sessions[i]) && IsOpen(sessions[j]) &&
      sessions[i].userId == sessions[j].userId
      ==> i == j
  }

  ghost predicate TablesValid(tasks: seq<Task>, sessions: seq<Session>, nextId: nat) {
    && IdsIssued(tasks, nextId)
    && SessionsOwned(tasks, sessions)
    && OpenIdle(sessions)
    && SingleRunner(sessions)
  }

  /** Under increasing ids, a task id names at most one row. */
  lemma IdsUnique(tasks: seq<Task>, nextId: nat, k: nat, l: nat)
    requires IdsIssued(tasks, nextId)
    requires k < |tasks| && l < |tasks| && tasks[k].id == tasks[l].id
    ensures k == l
  {
  }

  /** A session's task is the row found by its id, and it belongs to the session's user. */
  lemma OwnerOfSession(tasks: seq<Task>, sessions: seq<Session>, nextId: nat, i: nat)
    requires IdsIssued(tasks, nextId) && SessionsOwned(tasks, sessions)
    requires i < |sessions|
    ensures TaskById(tasks, sessions[i].taskId).Some?
    ensures tasks[TaskById(tasks, sessions[i].taskId).value].userId == sessions[i].userId
  {
    assert HasTask(tasks, sessions[i].taskId, sessions[i].userId);
    var k :| 0 <= k < |tasks| && tasks[k].id == sessions[i].taskId && tasks[k].userId == sessions[i].userId;
    var found := TaskById(tasks, sessions[i].taskId);
    assert found.Some?;
    IdsUnique(tasks, nextId, k, found.value);
  }

  /** In consistent tables, any open session of the user is the one the running-session query finds. */
  lemma OnlyRunningSession(sessions: seq<Session>, userId: nat, i: nat)
    requires SingleRunner(sessions)
    requires i < |sessions| && IsOpen(sessions[i]) && sessions[i].userId == userId
    ensures RunningOf(sessions, userId) == Some(i)
  {
  }

  /** In consistent tables, the stop route's query also finds the user's only open session. */
  lemma OnlyRunningSessionFor(sessions: seq<Session>, taskId: nat, userId: nat, i: nat)
    requires SingleRunner(sessions)
    requires i < |sessions| && IsOpen(sessions[i]) && sessions[i].userId == userId && sessions[i].taskId == taskId
    ensures RunningFor(sessions, taskId, userId) == Some(i)
  {
  }

  /** Under unique ids, the owned-task query for a row's id and owner finds that row, whatever the order. */
  lemma {:induction false} FindTaskOfRow(tasks: seq<Task>, nextId: nat, k: nat)
    requires IdsIssued(tasks, nextId) && k < |tasks|
    ensures FindTask(tasks, tasks[k].id, tasks[k].userId) == Some(k)
  {
    var found := FindTask(tasks, tasks[k].id, tasks[k].userId);
    IdsUnique(tasks, nextId, k, found.value);
  }

  /** Under unique ids, the by-id query for a row's id finds that row, whatever the order. */
  lemma {:induction false} TaskByIdOfRow(tasks: seq<Task>, nextId: nat, k: nat)
    requires IdsIssued(tasks, nextId) && k < |tasks|
    ensures TaskById(tasks, tasks[k].id) == Some(k)
  {
    var found := TaskById(tasks, tasks[k].id);
    IdsUnique(tasks, nextId, k, found.value);
  }
}
