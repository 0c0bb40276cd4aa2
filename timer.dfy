/**
 * The timer state machine as edits of the session table: what starting and
 * stopping a timer leave in the table, and why each edit keeps every user
 * down to at most one open session.
 */
module Timer {
  import opened Wrappers
  import opened Tables
  import opened Durations

  /** The error kinds the timer routes report (both are HTTP 404 in the API). */
  datatype Error = NotFound | NoRunningTimer

  /** The `stopped_task` part of a start reply. */
  datatype TaskRef = TaskRef(id: nat, title: string)

  /** The session table after a start has closed whatever the user had running. */
  function AutoStopped(sessions: seq<Session>, userId: nat, now: int): seq<Session> {
    match RunningOf(sessions, userId)
    case None => sessions
    case Some(i) => sessions[i := Close(sessions[i], now)]
  }

  /** The session table after a successful start of `taskId` by `userId` at `now`. */
  function StartedSessions(sessions: seq<Session>, taskId: nat, userId: nat, now: int): seq<Session> {
    AutoStopped(sessions, userId, now) + [Session(taskId, userId, now, None, 0)]
  }

  /** The `stopped_task` a start reports: the task of the session it auto-stopped, found by id alone. */
  function StoppedTask(tasks: seq<Task>, sessions: seq<Session>, userId: nat): (r: Option<TaskRef>)
    ensures r.Some? ==> RunningOf(sessions, userId).Some?
    ensures r.Some? ==> r.value.id == sessions[RunningOf(sessions, userId).value].taskId
    ensures r.Some? ==> exists k :: 0 <= k < |tasks| && tasks[k].id == r.value.id && tasks[k].title == r.value.title
  {
    match RunningOf(sessions, userId)
    case None => None
    case Some(i) =>
      match TaskById(tasks, sessions[i].taskId)
      case None => None
      case Some(k) => Some(TaskRef(tasks[k].id, tasks[k].title))
  }

  /** Whenever the user had a session running and the tables are consistent, its task is reported. */
  lemma StoppedTaskReported(tasks: seq<Task>, sessions: seq<Session>, nextId: nat, userId: nat)
    requires IdsIssued(tasks, nextId) && SessionsOwned(tasks, sessions)
    ensures StoppedTask(tasks, sessions, userId).Some? <==> RunningOf(sessions, userId).Some?
  {
    if RunningOf(sessions, userId).Some? {
      OwnerOfSession(tasks, sessions, nextId, RunningOf(sessions, userId).value);
    }
  }

  /**
   * A start closes exactly the session the user had running (crediting it
   * with `now - start_time`), leaves every other existing row as it was,
   * and appends one open row for the started task.
   */
  lemma StartClosesOnlyRunning(sessions: seq<Session>, taskId: nat, userId: nat, now: int)
    ensures var r := StartedSessions(sessions, taskId, userId, now);
      && |r| == |sessions| + 1
      && r[|sessions|] == Session(taskId, userId, now, None, 0)
      && (RunningOf(sessions, userId).None? ==> r[..|sessions|] == sessions)
      && (RunningOf(sessions, userId).Some? ==>
            var i := RunningOf(sessions, userId).value;
            && r[i].endTime == Some(now)
            && r[i].duration == now - sessions[i].startTime
            && r[i].taskId == sessions[i].taskId && r[i].userId == userId
            && r[i].startTime == sessions[i].startTime
            && forall j :: 0 <= j < |sessions| && j != i ==> r[j] == sessions[j])
  {
    var r := StartedSessions(sessions, taskId, userId, now);
    assert r[..|sessions|] == AutoStopped(sessions, userId, now);
  }

  /**
   * Given at most one open session per user beforehand, after a start the
   * user's only open session is the new one, for the started task, begun at
   * `now`; and still no user has two.
   */
  lemma {:induction false} StartLeavesOneRunner(sessions: seq<Session>, taskId: nat, userId: nat, now: int)
    requires SingleRunner(sessions)
    ensures var r := StartedSessions(sessions, taskId, userId, now);
      && SingleRunner(r)
      && IsOpen(r[|sessions|]) && r[|sessions|].taskId == taskId
      && r[|sessions|].userId == userId && r[|sessions|].startTime == now
      && forall j :: 0 <= j < |r| && IsOpen(r[j]) && r[j].userId == userId ==> j == |sessions|
  {
    var stopped := AutoStopped(sessions, userId, now);
    var r := StartedSessions(sessions, taskId, userId, now);
    assert r == stopped + [Session(taskId, userId, now, None, 0)];
    // After the auto-stop the user has no open session left.
    forall j | 0 <= j < |stopped| && stopped[j].userId == userId ensures !IsOpen(stopped[j]) {
      match RunningOf(sessions, userId)
      case None =>
      case Some(i) =>
        if j != i {
          assert stopped[j] == sessions[j];
        }
    }
    forall j | 0 <= j < |sessions| ensures !(IsOpen(r[j]) && r[j].userId == userId) {
      assert r[j] == stopped[j];
    }
    forall i, j | 0 <= i < |sessions| && 0 <= j < |sessions| && IsOpen(r[i]) && IsOpen(r[j])
        && r[i].userId == r[j].userId
      ensures i == j
    {
      assert r[i] == stopped[i] && r[j] == stopped[j];
      assert IsOpen(sessions[i]) && IsOpen(sessions[j]);
    }
  }
  /** Stopping an open session keeps the tables consistent. */
  lemma StopKeepsTables(tasks: seq<Task>, sessions: seq<Session>, nextId: nat, i: nat, now: int)
    requires TablesValid(tasks, sessions, nextId)
    requires i < |sessions| && IsOpen(sessions[i])
    ensures TablesValid(tasks, sessions[i := Close(sessions[i], now)], nextId)
  {
    var r := sessions[i := Close(sessions[i], now)];
    forall j | 0 <= j < |r| ensures HasTask(tasks, r[j].taskId, r[j].userId) {
      assert HasTask(tasks, sessions[j].taskId, sessions[j].userId);
    }
    forall j, k | 0 <= j < |r| && 0 <= k < |r| && IsOpen(r[j]) && IsOpen(r[k]) && r[j].userId == r[k].userId
      ensures j == k
    {
      assert r[j] == sessions[j] && r[k] == sessions[k];
    }
  }

  /** A successful start keeps the tables consistent: no user ends up with two open sessions. */
  lemma StartKeepsTables(tasks: seq<Task>, sessions: seq<Session>, nextId: nat, taskId: nat, userId: nat, now: int)
    requires TablesValid(tasks, sessions, nextId)
    requires HasTask(tasks, taskId, userId)
    ensures TablesValid(tasks, StartedSessions(sessions, taskId, userId, now), nextId)
  {
    var stopped := AutoStopped(sessions, userId, now);
    var r := StartedSessions(sessions, taskId, userId, now);
    StartLeavesOneRunner(sessions, taskId, userId, now);
    StartClosesOnlyRunning(sessions, taskId, userId, now);
    forall j | 0 <= j < |r| ensures HasTask(tasks, r[j].taskId, r[j].userId) {
      if j < |sessions| {
        assert r[j].taskId == sessions[j].taskId && r[j].userId == sessions[j].userId;
        assert HasTask(tasks, sessions[j].taskId, sessions[j].userId);
      }
    }
    forall j | 0 <= j < |r| && IsOpen(r[j]) ensures r[j].duration == 0 {
      if j < |sessions| {
        assert r[j] == stopped[j];
        assert IsOpen(sessions[j]);
      }
    }
  }

  /**
   * Under a clock that has not gone back past any recorded start, a start
   * credits no session with a negative duration and lowers no task's total.
   */
  lemma StartKeepsTotals(sessions: seq<Session>, taskId: nat, userId: nat, now: int)
    requires OpenIdle(sessions) && DurationsNonNegative(sessions) && StartedBy(sessions, now)
    ensures var r := StartedSessions(sessions, taskId, userId, now);
      && DurationsNonNegative(r) && StartedBy(r, now)
      && forall t :: TotalDuration(r, t) >= TotalDuration(sessions, t)
  {
    var stopped := AutoStopped(sessions, userId, now);
    var newRow := Session(taskId, userId, now, None, 0);
    var r := StartedSessions(sessions, taskId, userId, now);
    StartClosesOnlyRunning(sessions, taskId, userId, now);
    forall t ensures TotalDuration(r, t) >= TotalDuration(sessions, t) {
      TotalAppend(stopped, newRow, t);
      match RunningOf(sessions, userId)
      case None =>
      case Some(i) => CloseAddsElapsed(sessions, i, now, t);
    }
  }

  /** Stopping at `now` credits a non-negative duration when the clock has not gone back. */
  lemma StopKeepsTotals(sessions: seq<Session>, i: nat, now: int)
    requires i < |sessions| && IsOpen(sessions[i])
    requires OpenIdle(sessions) && DurationsNonNegative(sessions) && StartedBy(sessions, now)
    ensures var r := sessions[i := Close(sessions[i], now)];
      && DurationsNonNegative(r) && StartedBy(r, now)
      && forall t :: TotalDuration(r, t) >= TotalDuration(sessions, t)
  {
    forall t ensures TotalDuration(sessions[i := Close(sessions[i], now)], t) >= TotalDuration(sessions, t) {
      CloseAddsElapsed(sessions, i, now, t);
    }
  }

  /**
   * A start credits the session it auto-stops with the seconds it ran, to
   * that session's own task; every other total is unchanged.
   */
  lemma StartCreditsPrevious(sessions: seq<Session>, taskId: nat, userId: nat, now: int, t: nat)
    requires OpenIdle(sessions)
    ensures TotalDuration(StartedSessions(sessions, taskId, userId, now), t)
         == TotalDuration(sessions, t)
            + (match RunningOf(sessions, userId)
               case None => 0
               case Some(i) => if sessions[i].taskId == t then now - sessions[i].startTime else 0)
  {
    TotalAppend(AutoStopped(sessions, userId, now), Session(taskId, userId, now, None, 0), t);
    match RunningOf(sessions, userId)
    case None =>
    case Some(i) => CloseAddsElapsed(sessions, i, now, t);
  }

  /**
   * After a start, among the user's tasks exactly the started one is
   * running: whatever ran before has stopped.
   */
  lemma StartSwitchesRunning(tasks: seq<Task>, sessions: seq<Session>, nextId: nat,
                             taskId: nat, userId: nat, now: int, k: nat)
    requires TablesValid(tasks, sessions, nextId)
    requires HasTask(tasks, taskId, userId)
    requires k < |tasks| && tasks[k].userId == userId
    ensures IsRunning(StartedSessions(sessions, taskId, userId, now), tasks[k].id) <==> tasks[k].id == taskId
  {
    var r := StartedSessions(sessions, taskId, userId, now);
    StartKeepsTables(tasks, sessions, nextId, taskId, userId, now);
    StartLeavesOneRunner(sessions, taskId, userId, now);
    if tasks[k].id != taskId {
      forall j | 0 <= j < |r| && r[j].taskId == tasks[k].id ensures !IsOpen(r[j]) {
        assert HasTask(tasks, r[j].taskId, r[j].userId);
        var l :| 0 <= l < |tasks| && tasks[l].id == r[j].taskId && tasks[l].userId == r[j].userId;
        IdsUnique(tasks, nextId, k, l);
      }
    }
  }

  /**
   * Starting a task at `a` and stopping it at `b` adds exactly `b - a`
   * seconds to that task's total: the stop finds the session the start
   * opened. When the user was idle before, that is `b - a` on top of the
   * total before the start.
   */
  lemma StartThenStopAddsInterval(sessions: seq<Session>, taskId: nat, userId: nat, a: int, b: int)
    requires SingleRunner(sessions) && OpenIdle(sessions)
    ensures var started := StartedSessions(sessions, taskId, userId, a);
      && RunningFor(started, taskId, userId) == Some(|sessions|)
      && TotalDuration(started[|sessions| := Close(started[|sessions|], b)], taskId)
         == TotalDuration(started, taskId) + (b - a)
      && (RunningOf(sessions, userId).None? ==>
            TotalDuration(started[|sessions| := Close(started[|sessions|], b)], taskId)
            == TotalDuration(sessions, taskId) + (b - a))
  {
    var started := StartedSessions(sessions, taskId, userId, a);
    StartLeavesOneRunner(sessions, taskId, userId, a);
    StartClosesOnlyRunning(sessions, taskId, userId, a);
    forall j | 0 <= j < |started| && IsOpen(started[j]) ensures started[j].duration == 0 {
      if j < |sessions| {
        assert started[j] == AutoStopped(sessions, userId, a)[j];
      }
    }
    StartCreditsPrevious(sessions, taskId, userId, a, taskId);
    CloseAddsElapsed(started, |sessions|, b, taskId);
  }
}
