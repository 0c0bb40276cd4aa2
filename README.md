# Legal Task Timer: the timer engine

This project models the timer engine behind the task routes of the Legal
Task Timer API. The HTTP, ORM and authentication layers are left out. What
remains is a state machine over two tables:

- a **tasks** table: id, owner, title, description, category, matter,
  status (open or completed) and completion time;
- a **task sessions** table: one row per timer run. Each row holds its task,
  its user, a start time, an optional end time and the seconds credited to
  it (0 until it is closed).

The caller is a given user id. The server clock is an integer `now` in
seconds, passed to each operation. The database is the class
`Store.TimerStore`, whose fields are the two tables (as sequences in table
order) and the next task id to hand out.

Files, one module each:

- `wrappers.dfy` (`Wrappers`): `Option` and `Result`.
- `tables.dfy` (`Tables`): the rows and the `.first()` queries the routes
  run (`First`, and `FindTask`, `TaskById`, `RunningOf`, `RunningFor` built
  on it). It also holds the table invariants. `TablesValid` combines them:
  - task ids increase and stay below the next id;
  - every session belongs to a task of its own user;
  - an open session is credited 0 seconds;
  - each user has at most one open session (`SingleRunner`).
- `durations.dfy` (`Durations`): stopping a session (`Close`), a task's
  `total_duration` (`TotalDuration`) and `is_running` (`IsRunning`), and
  their arithmetic.
- `timer.dfy` (`Timer`): what a start and a stop leave in the session
  table, and why each keeps the invariants.
- `projections.dfy` (`Projections`): the task list (`GetTasks`, a loop that
  builds the response list) and the active task (`GetActiveTask`).
- `store.dfy` (`Store`): the class with the four mutating routes, and two
  concrete scenarios.

The model follows the code as written, not an idealised timer:

- starting a task that is already running closes its session and opens a
  new one (it is not a no-op);
- a completed task can be started;
- stopping without an open session is the error `NoRunningTimer`, not a
  silent no-op;
- completing a task does not stop its running session, so a completed task
  can be listed as running (`Store.SwitchScenario` shows this);
- a negative elapsed time is stored as it is, not rejected or clamped.

## Model

| member | source | states |
|---|---|---|
| `Tables.First` | backend/app/main.py:290-294 | A `.first()` query returns a matching row, taken here as the earliest in table order; when it returns none, no row matches. |
| `Tables.OnlyRunningSession` | backend/app/main.py:263-266 | In consistent tables, any open session of the user is the one the running-session query returns, so which matching row the database picks does not matter. |
| `Tables.OnlyRunningSessionFor` | backend/app/main.py:290-294 | In consistent tables, the stop route's query for a task and user returns any open session of that task and user, whatever the row order. |
| `Tables.FindTaskOfRow` | backend/app/main.py:258 | With unique task ids, the query for a task id and owner returns that very row, whatever the row order. |
| `Tables.TaskByIdOfRow` | backend/app/main.py:272 | With unique task ids, the query by id alone returns that very row, whatever the row order. |
| `Tables.OwnerOfSession` | backend/app/main.py:314 | In consistent tables, looking up a session's task by id alone always finds a row, and that row belongs to the session's user. |
| `Durations.TotalNonNegative` | backend/app/main.py:246 | If no session is credited a negative duration, every task's total is non-negative. |
| `Durations.CloseAddsElapsed` | backend/app/main.py:299-300 | Closing an open session at `now` adds `now - start_time` to its own task's total and leaves every other task's total unchanged. |
| `Durations.TotalOfUntracked` | backend/app/main.py:245-247 | A task that no session mentions has total 0 and is not running. |
| `Timer.StoppedTask` | backend/app/main.py:268-272 | The reported `stopped_task` exists only when the user had an open session. It is that session's task: its id and title come from a task row. |
| `Timer.StoppedTaskReported` | backend/app/main.py:284-285 | In consistent tables, a start reports a stopped task exactly when the user had a session open. |
| `Timer.StartClosesOnlyRunning` | backend/app/main.py:262-281 | A start changes only one existing row: the user's open session, which gets end time `now` and duration `now - start_time`. With no open session, the old rows stay as they were. In both cases one open row is appended for the started task, beginning at `now` with 0 seconds. |
| `Timer.StartLeavesOneRunner` | backend/app/main.py:263-281 | If each user had at most one open session before a start, the same holds after it. The user's only open session is then the new one, for the started task, with start time `now`. |
| `Timer.StartKeepsTables` | backend/app/main.py:256-286 | A start on one of the user's own tasks keeps all the table invariants, including one open session per user. |
| `Timer.StopKeepsTables` | backend/app/main.py:288-302 | Closing an open session keeps all the table invariants. |
| `Timer.StartKeepsTotals` | backend/app/main.py:269-271 | Assume the clock is not behind any recorded start time. Then a start credits no negative duration and no task's total decreases. |
| `Timer.StopKeepsTotals` | backend/app/main.py:296-301 | Under the same clock assumption, a stop credits no negative duration and no task's total decreases. |
| `Timer.StartCreditsPrevious` | backend/app/main.py:263-281 | A start adds to each task's total exactly the seconds of the session it auto-stopped, `now - start_time`, when that session was the task's, and 0 otherwise. The new session adds nothing. So on a switch from A to B, A's total grows by A's elapsed time and every other total stays. |
| `Timer.StartSwitchesRunning` | backend/app/main.py:263-281 | In consistent tables, after a start, a task of the user is running iff it is the started task. On a switch from A to B, A stops running and B runs. |
| `Timer.StartThenStopAddsInterval` | backend/app/main.py:275-300 | Whether or not the user had a timer, after a start at `a` the stop route finds exactly the session that start opened. Stopping it at `b` raises the task's total by exactly `b - a` over its total after the start. If the user had no timer, that is `b - a` over its total before the start. |
| `Projections.UserTasks` | backend/app/main.py:238-241 | The listed tasks are exactly the user's tasks, further limited to those with the requested status when a status is given. |
| `Projections.UserTasksCounts` | backend/app/main.py:238-241 | Each selected row appears in the list exactly as often as in the table, and no other row appears. |
| `Projections.GetTasks` | backend/app/main.py:236-254 | The list has one entry per selected task, in order. Each entry's `total_duration` is the sum of that task's session durations. Its `is_running` holds iff some session of the task has no end time. |
| `Projections.GetActiveTask` | backend/app/main.py:304-321 | Returns none iff the user has no open session. Otherwise it returns the task of an open session of the user, flagged as running, with its total. |
| `Projections.ActiveTaskIsListed` | backend/app/main.py:314-320 | In consistent tables, the active task is one of the user's own tasks. The unfiltered task list shows it exactly as the active-task view does, running flag included. |
| `Projections.AtMostOneRunningTask` | backend/app/main.py:247 | In consistent tables, no two tasks of the same user are running at once. |
| `Store.TimerStore.constructor` | backend/app/main.py:172 | The tables start empty, satisfy the invariants, and task ids are handed out from 1. |
| `Store.TimerStore.CreateTask` | backend/app/main.py:222-234 | Appends an open task with the next id and leaves sessions unchanged. The response shows total 0 and not running, which matches how the task list would show it. |
| `Store.TimerStore.StartTimer` | backend/app/main.py:256-286 | A missing or foreign task gives NotFound and leaves both tables unchanged. Otherwise the session table becomes `StartedSessions` of the old one, the reply names the stopped task, and the invariants hold. |
| `Store.TimerStore.StopTimer` | backend/app/main.py:288-302 | With no open session for this task and user, the result is NoRunningTimer and nothing changes. Otherwise only that session is closed at `now`, and the invariants hold. |
| `Store.TimerStore.CompleteTask` | backend/app/main.py:323-332 | A missing or foreign task gives NotFound and changes nothing. Otherwise only that task's row changes: its status becomes completed and its completion time `now`. Sessions, running ones included, are untouched. |
| `Store.NewTaskIdle` | backend/app/main.py:127-128 | In consistent tables, no session mentions the next task id, so a newly created task has total 0 and is not running. |
| `Store.StartStopScenario` | backend/app/main.py:256-302 | Two tasks are created. Task 1 is started at 0 and stopped at 125, leaving one closed session of 125 seconds: total 125, not running. |
| `Store.SwitchScenario` | backend/app/main.py:256-332 | Task 1 is restarted at 200, then task 2 is started at 210. This stops task 1 and reports it, and task 1's total is 135. Task 2 is then completed and stays running and active. |

## Left out

- Authentication and users: password hashing, JWT tokens, the register, login and "me" routes. These are foreign library calls; the caller is the given user id.
- Settings, the engine and session factory, table creation, category seeding, CORS and the duplicated root route. These are configuration and I/O.
- Request and response schemas and the HTTP error mapping. Results are the `Result` datatype with the error kinds `NotFound` and `NoRunningTimer`. Only the `stopped_task` of a start reply is modelled, not its message text.
- The clock. `datetime.utcnow()` and the truncating `int(... .total_seconds())` are replaced by an integer `now` in whole seconds. The two clock readings in one start, for the end of the old session and the start of the new one, are both `now`.
- The `created_at` server timestamps. The model has no task creation time, so the list comes back in table order.
- Projections.UserTasks: its contract states which tasks are listed but not their order. The source sorts by `created_at` descending, and the model does not track that timestamp.
- Tables.First: the queries have no ordering clause, so the database may return any matching row; the model takes the earliest in table order. `Tables.OnlyRunningSession`, `Tables.OnlyRunningSessionFor`, `Tables.FindTaskOfRow` and `Tables.TaskByIdOfRow` show that in consistent tables at most one row matches each query the routes run, so the choice changes nothing there.
- Session ids and row ids other than task ids. No route reads them.
- Task ids are a counter starting at 1, standing for the database's key assignment. No route deletes rows.
- Projections.GetActiveTask: requires `SessionsOwned`: every session's task exists and belongs to the session's user. The source needs only the task of the user's open session to exist, and fails at backend/app/main.py:315 when that task is missing. Every store the four routes can reach satisfies the stronger condition, because they keep `Valid()`.
- Transactions and concurrent requests: two starts racing each other are not modelled. Each route is one atomic step.
- The category foreign key is stored but never checked, as in the source.
