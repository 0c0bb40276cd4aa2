/**
 * The mutating routes of the timer engine over the two tables. The caller
 * is given as a user id, and the server clock as `now` in whole seconds.
 */
module Store {
  import opened Wrappers
  import opened Tables
  import opened Durations
  import opened Timer
  import opened Projections

  class TimerStore {
    var tasks: seq<Task>
    var sessions: seq<Session>
    var nextTaskId: nat

    ghost predicate Valid()
      reads this
    {
      TablesValid(tasks, sessions, nextTaskId)
    }

    /** Empty tables; the database hands out task ids from 1. */
    constructor ()
      ensures Valid()
      ensures tasks == [] && sessions == [] && nextTaskId == 1
    {
      tasks := [];
      sessions := [];
      nextTaskId := 1;
    }

    /** Adds an open task for the user; its response shows no time and no running timer. */
    method CreateTask(userId: nat, title: string, description: Option<string>,
                      categoryId: Option<nat>, matter: Option<string>)
      returns (created: TaskResponse)
      requires Valid()
      modifies this
      ensures Valid()
      ensures tasks == old(tasks) + [Task(old(nextTaskId), userId, title, description, categoryId, matter, Open, None)]
      ensures sessions == old(sessions) && nextTaskId == old(nextTaskId) + 1
      ensures created == Listed(tasks[|tasks| - 1], sessions)
      ensures created.totalDuration == 0 && !created.isRunning && created.status == Open
    {
      var task := Task(nextTaskId, userId, title, description, categoryId, matter, Open, None);
      NewTaskIdle(tasks, sessions, nextTaskId);
      forall i | 0 <= i < |sessions| ensures HasTask(tasks + [task], sessions[i].taskId, sessions[i].userId) {
        assert HasTask(tasks, sessions[i].taskId, sessions[i].userId);
        var k :| 0 <= k < |tasks| && tasks[k].id == sessions[i].taskId && tasks[k].userId == sessions[i].userId;
        assert (tasks + [task])[k] == tasks[k];
      }
      tasks := tasks + [task];
      nextTaskId := nextTaskId + 1;
      created := Respond(task, 0, false);
    }

    /**
     * Starts a timer on one of the user's tasks: closes whatever session the
     * user had open, reports its task, and opens a new session. A missing or
     * foreign task is NotFound and changes nothing.
     */
    method StartTimer(taskId: nat, userId: nat, now: int) returns (r: Result<Option<TaskRef>, Error>)
      requires Valid()
      modifies this
      ensures Valid()
      ensures tasks == old(tasks) && nextTaskId == old(nextTaskId)
      ensures FindTask(old(tasks), taskId, userId).None? ==> r == Err(NotFound) && sessions == old(sessions)
      ensures FindTask(old(tasks), taskId, userId).Some? ==>
        && r == Ok(StoppedTask(old(tasks), old(sessions), userId))
        && sessions == StartedSessions(old(sessions), taskId, userId, now)
    {
      var found := FindTask(tasks, taskId, userId);
      if found.None? {
        return Err(NotFound);
      }
      assert HasTask(tasks, taskId, userId) by {
        assert tasks[found.value].id == taskId && tasks[found.value].userId == userId;
      }
      StartKeepsTables(tasks, sessions, nextTaskId, taskId, userId, now);
      var stopped := StoppedTask(tasks, sessions, userId);
      var running := RunningOf(sessions, userId);
      if running.Some? {
        var i := running.value;
        sessions := sessions[i := Close(sessions[i], now)];
      }
      sessions := sessions + [Session(taskId, userId, now, None, 0)];
      r := Ok(stopped);
    }

    /** Stops the user's open session on the task; without one it is NoRunningTimer and changes nothing. */
    method StopTimer(taskId: nat, userId: nat, now: int) returns (r: Result<(), Error>)
      requires Valid()
      modifies this
      ensures Valid()
      ensures tasks == old(tasks) && nextTaskId == old(nextTaskId)
      ensures RunningFor(old(sessions), taskId, userId).None? ==> r == Err(NoRunningTimer) && sessions == old(sessions)
      ensures RunningFor(old(sessions), taskId, userId).Some? ==>
        var i := RunningFor(old(sessions), taskId, userId).value;
        && r == Ok(())
        && sessions == old(sessions)[i := Close(old(sessions)[i], now)]
    {
      var found := RunningFor(sessions, taskId, userId);
      if found.None? {
        return Err(NoRunningTimer);
      }
      var i := found.value;
      StopKeepsTables(tasks, sessions, nextTaskId, i, now);
      sessions := sessions[i := Close(sessions[i], now)];
      r := Ok(());
    }

    /** Marks one of the user's tasks completed at `now`; sessions, running ones included, are untouched. */
    method CompleteTask(taskId: nat, userId: nat, now: int) returns (r: Result<(), Error>)
      requires Valid()
      modifies this
      ensures Valid()
      ensures sessions == old(sessions) && nextTaskId == old(nextTaskId)
      ensures FindTask(old(tasks), taskId, userId).None? ==> r == Err(NotFound) && tasks == old(tasks)
      ensures FindTask(old(tasks), taskId, userId).Some? ==>
        var k := FindTask(old(tasks), taskId, userId).value;
        && r == Ok(())
        && tasks == old(tasks)[k := old(tasks)[k].(status := Completed, completedAt := Some(now))]
    {
      var found := FindTask(tasks, taskId, userId);
      if found.None? {
        return Err(NotFound);
      }
      var k := found.value;
      var done := tasks[k].(status := Completed, completedAt := Some(now));
      forall i | 0 <= i < |sessions| ensures HasTask(tasks[k := done], sessions[i].taskId, sessions[i].userId) {
        assert HasTask(tasks, sessions[i].taskId, sessions[i].userId);
        var l :| 0 <= l < |tasks| && tasks[l].id == sessions[i].taskId && tasks[l].userId == sessions[i].userId;
        assert tasks[k := done][l].id == tasks[l].id && tasks[k := done][l].userId == tasks[l].userId;
      }
      tasks := tasks[k := done];
      r := Ok(());
    }
  }

  /** The id the next created task gets is unused by any session: the new task has no time and no timer. */
  lemma NewTaskIdle(tasks: seq<Task>, sessions: seq<Session>, nextId: nat)
    requires TablesValid(tasks, sessions, nextId)
    ensures TotalDuration(sessions, nextId) == 0 && !IsRunning(sessions, nextId)
  {
    forall i | 0 <= i < |sessions| ensures sessions[i].taskId != nextId {
      assert HasTask(tasks, sessions[i].taskId, sessions[i].userId);
    }
    TotalOfUntracked(sessions, nextId);
  }
  /** Two tasks of one user; task A is started at 0 and stopped at 125. */
  method StartStopScenario() returns (store: TimerStore)
    ensures fresh(store) && store.Valid()
    ensures store.tasks == [Task(1, 7, "Review lease", None, None, None, Open, None),
                            Task(2, 7, "Draft memo", None, None, None, Open, None)]
    ensures store.sessions == [Session(1, 7, 0, Some(125), 125)]
    ensures TotalDuration(store.sessions, 1) == 125 && !IsRunning(store.sessions, 1)
  {
    store := new TimerStore();
    var _ := store.CreateTask(7, "Review lease", None, None, None);
    var _ := store.CreateTask(7, "Draft memo", None, None, None);
    assert FindTask(store.tasks, 1, 7) == Some(0);
    var _ := store.StartTimer(1, 7, 0);
    assert store.sessions == [Session(1, 7, 0, None, 0)];
    assert RunningFor(store.sessions, 1, 7) == Some(0);
    var _ := store.StopTimer(1, 7, 125);
    assert store.sessions == [Session(1, 7, 0, Some(125), 125)];
    assert TotalDuration(store.sessions, 1) == 125;
  }

  /**
   * Continuing from StartStopScenario: task A runs again from 200 until
   * task B is started at 210, which stops A and reports it, so A's total is
   * 125 + 10. B is then completed while its timer runs and stays running
   * and active.
   */
  method SwitchScenario() returns (totalA: int, runningA: bool, stopped: Result<Option<TaskRef>, Error>,
                                   runningB: bool, activeB: bool)
    ensures totalA == 135 && !runningA && stopped == Ok(Some(TaskRef(1, "Review lease")))
    ensures runningB && activeB
  {
    var store := StartStopScenario();
    var closed := Session(1, 7, 0, Some(125), 125);
    assert FindTask(store.tasks, 1, 7) == Some(0);
    var _ := store.StartTimer(1, 7, 200);
    assert store.sessions == [closed, Session(1, 7, 200, None, 0)];
    assert !IsOpen(store.sessions[0]) && IsOpen(store.sessions[1]);
    assert RunningOf(store.sessions, 7) == Some(1);
    assert TaskById(store.tasks, 1) == Some(0);
    assert store.tasks[0].id == 1 && store.tasks[1].id == 2;
    assert FindTask(store.tasks, 2, 7) == Some(1);
    stopped := store.StartTimer(2, 7, 210);
    var sessionsAfter := [closed, Session(1, 7, 200, Some(210), 10), Session(2, 7, 210, None, 0)];
    assert store.sessions == sessionsAfter;
    var _ := store.CompleteTask(2, 7, 300);
    assert sessionsAfter[..2] == [closed, Session(1, 7, 200, Some(210), 10)];
    assert sessionsAfter[..2][..1] == [closed];
    assert TotalDuration(sessionsAfter, 1) == 135;
    totalA := TotalDuration(store.sessions, 1);
    runningA := IsRunning(store.sessions, 1);
    assert store.sessions[2].taskId == 2 && IsOpen(store.sessions[2]);
    runningB := IsRunning(store.sessions, 2);
    assert !IsOpen(store.sessions[0]) && !IsOpen(store.sessions[1]);
    assert RunningOf(store.sessions, 7) == Some(2);
    assert TaskById(store.tasks, 2) == Some(1);
    var active := GetActiveTask(store.tasks, store.sessions, 7);
    activeB := active.Some? && active.value.id == 2 && active.value.status == Completed;
  }
}
