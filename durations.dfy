/**
 * Duration accounting: closing a session credits it with the seconds it
 * ran, and a task's total is the sum of its sessions' credited seconds.
 */
module Durations {
  import opened Wrappers
  import opened Tables

  /** The edit both timer routes make to an open session when they stop it at `now`. */
  function Close(s: Session, now: int): Session {
    s.(endTime := Some(now), duration := now - s.startTime)
  }

  /** What one session adds to the total of `taskId`. */
  function Credit(s: Session, taskId: nat): int {
    if s.taskId == taskId then s.duration else 0
  }

  /** The listing's `total_duration`: the sum of `duration_seconds` over the task's sessions. */
  function TotalDuration(sessions: seq<Session>, taskId: nat): int {
    if |sessions| == 0 then 0
    else TotalDuration(sessions[..|sessions| - 1], taskId) + Credit(sessions[|sessions| - 1], taskId)
  }

  /** The listing's `is_running`: some session of the task has no end time. */
  predicate IsRunning(sessions: seq<Session>, taskId: nat) {
    exists i :: 0 <= i < |sessions| && sessions[i].taskId == taskId && IsOpen(sessions[i])
  }

  /** The clock has not gone back past any recorded start. */
  ghost predicate StartedBy(sessions: seq<Session>, now: int) {
    forall i :: 0 <= i < |sessions| ==> sessions[i].startTime <= now
  }

  ghost predicate DurationsNonNegative(sessions: seq<Session>) {
    forall i :: 0 <= i < |sessions| ==> sessions[i].duration >= 0
  }

  lemma {:induction false} TotalNonNegative(sessions: seq<Session>, taskId: nat)
    requires DurationsNonNegative(sessions)
    ensures TotalDuration(sessions, taskId) >= 0
  {
    if |sessions| > 0 {
      var init := sessions[..|sessions| - 1];
      assert DurationsNonNegative(init) by {
        forall i | 0 <= i < |init| ensures init[i].duration >= 0 {
          assert init[i] == sessions[i];
        }
      }
      TotalNonNegative(init, taskId);
    }
  }

  /** Appending a row adds exactly that row's credit. */
  lemma TotalAppend(sessions: seq<Session>, s: Session, taskId: nat)
    ensures TotalDuration(sessions + [s], taskId) == TotalDuration(sessions, taskId) + Credit(s, taskId)
  {
    assert (sessions + [s])[..|sessions|] == sessions;
  }

  /** Rewriting one row changes the total by the difference of that row's credits. */
  lemma {:induction false} TotalUpdate(sessions: seq<Session>, i: nat, s: Session, taskId: nat)
    requires i < |sessions|
    ensures TotalDuration(sessions[i := s], taskId)
         == TotalDuration(sessions, taskId) - Credit(sessions[i], taskId) + Credit(s, taskId)
  {
    var n := |sessions|;
    var updated := sessions[i := s];
    if i == n - 1 {
      assert updated[..n - 1] == sessions[..n - 1];
    } else {
      assert updated[..n - 1] == sessions[..n - 1][i := s];
      TotalUpdate(sessions[..n - 1], i, s, taskId);
    }
  }

  /** Stopping an open session adds the seconds it ran to its own task's total and nothing elsewhere. */
  lemma CloseAddsElapsed(sessions: seq<Session>, i: nat, now: int, taskId: nat)
    requires i < |sessions| && IsOpen(sessions[i]) && OpenIdle(sessions)
    ensures TotalDuration(sessions[i := Close(sessions[i], now)], taskId)
         == TotalDuration(sessions, taskId)
            + (if sessions[i].taskId == taskId then now - sessions[i].startTime else 0)
  {
    TotalUpdate(sessions, i, Close(sessions[i], now), taskId);
  }

  /** A task that no session mentions has total zero and is not running. */
  lemma {:induction false} TotalOfUntracked(sessions: seq<Session>, taskId: nat)
    requires forall i :: 0 <= i < |sessions| ==> sessions[i].taskId != taskId
    ensures TotalDuration(sessions, taskId) == 0
    ensures !IsRunning(sessions, taskId)
  {
    if |sessions| > 0 {
      var init := sessions[..|sessions| - 1];
      assert forall i :: 0 <= i < |init| ==> init[i] == sessions[i];
      TotalOfUntracked(init, taskId);
    }
  }
}
