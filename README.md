# Telegram task-reminder bot: the reminder tick and the task list

A model of the core of the bot in `bot.js`. The bot keeps one JSON document
holding a list of task records. Each record has an id, the owner's chat id,
a title, a due date and a `notified` flag. Two chat commands work on the
list, and a tick runs once a minute:

- `/addtask` builds a fresh record for the caller with `notified = false`,
  appends it to the fetched list and saves the whole list.
- `/getmytasks` filters the fetched list by owner and answers with the
  caller's tasks, or with a "no tasks yet" note.
- The reminder tick walks the list in order. It skips a task that is
  already notified. It makes one send attempt for a task due in more than
  zero and at most four hours. It marks the task notified only when that
  send succeeded. It then saves the whole list, changed or not.

Modules:

- `Wrappers` (wrappers.dfy): `Option`.
- `TaskRecords` (task_records.dfy): the `Task` record, the record `/addtask`
  builds (`NewTask`), the owner filter (`MyTasks`) and its lemmas.
- `Reminders` (reminders.dfy): the four-hour window, the tick as a function
  of the list (`Tick`) and the lemmas about it.
- `Bot` (bot.dfy): the fetch boundary (`GetTasks`), the
  `/addtask` and `/getmytasks` handlers, and `CheckNotifications`, a method
  that runs the tick's loop over an array in place and is proved equal to
  `Tick`.

Modelling choices:

- Times are integer milliseconds since the epoch. A due date that
  `new Date(...)` cannot parse is `None`. The source's NaN difference fails
  both comparisons, so `InWindow` is false for `None`.
- The source tests `hoursDiff <= 4 && hoursDiff > 0` with
  `hoursDiff = timeDiff / 3600000`. The method does that test on exact
  reals. `HoursTestIsWindowTest` proves it is the same test as
  `0 < timeDiff <= 14_400_000`.
- The chat channel is the oracle `delivered: nat -> bool`: the k-th send
  attempt of a tick (counting from 0) succeeds exactly when `delivered(k)`.
  The sends are awaited one after another, so this numbering is the order
  of the sends.
- The fetched document is an input (`Fetch`). A failed read and a record
  without a `tasks` field both give the empty list. The list handed to the
  save is an output. Save errors are swallowed in the source, so the
  model's result does not depend on them.
- In the source the mini app's payload is decoded with `JSON.parse` and the
  id is `Date.now().toString()`. Here the decoded payload
  (`Option<TaskData>`, `None` when decoding fails) and the id are parameters.

The tick keeps one boolean flag per task and one four-hour window. It
marks a task only after a successful send, and it saves the list on every
tick, whether or not anything changed.

A consequence the model makes visible (`Bot.FailedReadSavesEmpty`, and the
`AddTask` contract with `Fetch.Failed`): a failed read yields the empty
list, and both the tick and `/addtask` then save a list built from it. The
stored document is overwritten with no tasks, or with just the new one.

## Model

| member | source | states |
|---|---|---|
| `TaskRecords.NewTask` | bot.js:50-56 | defines the record `/addtask` stores: the given id, the caller's chat id as owner, the payload's title and date, and `notified = false` |
| `TaskRecords.MyTasks` | bot.js:74 | the filtered list holds exactly the tasks of the list whose owner is the caller, and is no longer than the list |
| `TaskRecords.MyTasksAppend` | bot.js:74 | filtering a concatenation is the concatenation of the filtered parts, so the filter keeps list order |
| `TaskRecords.MyTasksAllOwned` | bot.js:74 | the filter returns the whole list exactly when every task in it belongs to the caller |
| `TaskRecords.AddedTaskListing` | bot.js:50-74 | after `/addtask`, the caller's listing is the old listing plus the new record at its end; every other user's listing is unchanged |
| `Bot.GetTasks` | bot.js:23-31 | defines the fetch boundary: the record's task list, or the empty list for a failed request or a record without `tasks` |
| `Bot.AddTask` | bot.js:44-60 | a payload that does not decode saves nothing; otherwise the saved list is one longer, the fetched records come first unchanged, and the last record is the new one, owned by the caller and not notified |
| `Bot.GetMyTasks` | bot.js:70-79 | the "no tasks" answer is given exactly when no fetched task belongs to the caller; otherwise the answer is the filtered list itself, the caller's tasks in list order, repeats included |
| `Bot.CheckNotifications` | bot.js:95-124 | the in-place loop hands the save exactly the list `Tick` describes and makes exactly `Tick`'s send attempts, in order |
| `Bot.FailedReadSavesEmpty` | bot.js:97-124 | after a failed read the tick makes no send attempt and saves the empty list |
| `Reminders.HoursTestIsWindowTest` | bot.js:104-108 | `hoursDiff <= 4 && hoursDiff > 0` holds exactly when `0 < timeDiff <= 14_400_000` ms |
| `Reminders.TickShape` | bot.js:100-124 | the saved list has the fetched list's length, and the tick makes one send attempt per due task |
| `Reminders.TickTaskAt` | bot.js:100-121 | record i comes out marked exactly when it was due and the send made for it (number DueCount of the records before it) succeeded; otherwise it is unchanged |
| `Reminders.TickAttemptAt` | bot.js:108-112 | a due task i gets a send attempt, at position DueCount of the records before it, addressed to its owner, with that position's outcome |
| `Reminders.TickAttemptsValid` | bot.js:100-121 | every attempt is for a due task of the list and goes to its owner with the outcome of its position; attempts follow list order, so no task gets two attempts in one tick |
| `Reminders.TickPreservesRecords` | bot.js:100-124 | same length and order; each record comes back unchanged, or, if it was not notified, with only `notified` set to true; the flag is never reset |
| `Reminders.NotDueUntouched` | bot.js:101-108 | a task already notified, overdue, or more than four hours away gets no send attempt and is saved unchanged |
| `Reminders.UnparseableNeverFires` | bot.js:103-108 | a task whose date does not parse gets no send attempt and is saved unchanged, at any time |
| `Reminders.NotifiedOnlyAfterSuccess` | bot.js:111-119 | a task not notified before comes out notified exactly when the tick made a successful send attempt for it |
| `Reminders.FailedSendRetried` | bot.js:111-119 | a due task whose send failed is saved unchanged and is still due, so a later tick in the window tries again |
| `Reminders.NothingDueNoChange` | bot.js:100-124 | when no task is due, the tick attempts no send and saves the list as it was |
| `Reminders.AllDeliveredNothingDue` | bot.js:101-116 | if every send this tick made succeeded, no task is due at the same time after the tick |
| `Reminders.TickIdempotent` | bot.js:101-116 | if every send this tick made succeeded, a second tick at the same time attempts no send and changes nothing, whatever its channel does |

## Left out

- The JSONBin requests in `getTasks` and `saveTasks` (bot.js:23-41): network I/O. The fetch result is an input and the saved list an output. Whether the save succeeds is not modelled, since the source swallows its errors.
- The Telegram API (`sendMessage`, polling, the `/start` keyboard, error handlers; bot.js:11, 134-154): a foreign library. Only each reminder send's success or failure is kept, as the oracle. The confirmation and error replies of `/addtask` are not modelled.
- The node-cron schedule (bot.js:131): a timer. The model is one tick at a given `now`. Sequences of ticks are covered only by the lemmas about a second tick at the same `now` and about retrying a failed send.
- Date parsing with `new Date(...)`, `toLocaleString('ru-RU')` and the `Math.round(hoursDiff)` message text (bot.js:83-84, 103, 109): locale and float formatting. Dates are optional integers of milliseconds. The reply texts and the reminder text are not modelled.
- Reminders.HoursTestIsWindowTest: the division is taken on exact reals, not IEEE doubles. For integer millisecond differences in the range of JavaScript dates the double quotient compares with 4 and 0 the same way, but that is not proved here.
- `JSON.parse` of the payload and `Date.now().toString()` ids (bot.js:47, 51): the decoded payload and the id are parameters.
- TaskRecords.MyTasks: owners are integers compared with `==`. JavaScript's loose `==` between a number and a numeric string (a record written with a string `userId` by another client) is not modelled.
- TaskRecords.Task: `notified` is a boolean. The source tests it for truthiness (bot.js:101), so a stored non-boolean truthy value written by another client (`1`, `"false"`) makes the source skip the task; such values are not modelled.
- The outer `try`/`catch` of the tick (bot.js:96, 125-127): nothing inside the modelled loop throws on well-formed records. A record that is not an object (which would throw at `task.notified`) is not representable here.
- Environment variables and the token (bot.js:5-9): configuration.
- Concurrency between the tick and a command handler racing on the document: each handler is modelled as one sequential read-modify-write.
