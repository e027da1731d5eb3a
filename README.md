# Study planner: time budget and task lifecycle

A Dafny model of the engine behind the study planner's single page (`script.js`).
A student starts a session with a planned number of hours. They then add, edit,
time and complete tasks against that budget, and finally download the session as a
spreadsheet.

- The page's globals are the fields of one `Planner.Session` object.
  - `tasks` and `doneTasks` are sequences of `Planner.Task` objects, whose fields the
    handlers update in place.
  - `currentTimerId` becomes `timer`: the task whose countdown interval is live, or `null`.
  - `currentRunningIndex` becomes `runningIndex`, which, as in the code, is never cleared.
- Each handler is a method:
  - `StartSession`, `AddTask`, `EditTask`, `StartTimer`, `StopTimer`, `MarkAsDone` and `LoadQuotes`.
  - Each firing of the interval callback is one call of `Tick`.
  - A handler that shows an alert returns `Refused(alert)` and changes nothing.
- The other modules hold the pure parts:
  - `Text`: JavaScript `trim`, decimal numerals, `padStart`, replace-all.
  - `Arith`: `Math.round` of a span in minutes, and the truncating `%`.
  - `Budget`: the "Remaining Plan" hours/minutes split.
  - `Countdown`: `formatTime`.
  - `Export`: the rows of the download.
  - `Quotes`: the quote-row filter and clean-up.

The session invariant `Planner.Session.Valid` is kept by every handler except the
as-written edit when it aborts (see below). It says:
- no task object is listed twice;
- pending tasks are uncompleted, and completed ones are stamped and stopped;
- every task has a positive plan and a countdown between zero and the full plan;
- the committed minutes `usedMinutes` are the planned minutes of all tasks, pending
  and completed;
- a live interval belongs to a pending task that is flagged running.

Because `startTimer` refuses while the slot is full, at most one countdown is live.

The code does **not** keep "at most one task is flagged running". `currentRunningIndex`
goes stale when `markAsDone` splices the pending list. `stopTimer` then clears the slot
and the flag of whichever task now sits at that index. `Scenarios.TwoRunningTasks`
follows such a run to two running tasks.

Further facts about `script.js` that the model keeps:
- completing a task never gives its minutes back to the budget (`MarkAsDone` cannot
  change `usedMinutes`);
- editing a task down simply adds the negative difference, with no floor;
- there is no operation that revises the plan or imports a session.

`editTask` as written (`Planner.Session.EditTaskAsWritten`) throws when its description
prompt is cancelled. By then it has already renamed and re-planned the task, but the
countdown still holds the old length. The countdown can then exceed the new plan, which
breaks `Valid`; `Scenarios.CancelledDescription` shows such a run. The other handlers
all require `Valid`, so the model does not follow the session past that point.

The model lets `StartSession` run again on a live session, which the page does not
offer: it hides the start dialog after the first successful start (script.js:148-149).
Such a second start could shrink the plan below what is committed. So the budget
bound `WithinBudget` is established by `AddTask` and `EditTask` rather than kept by
every handler.

## Model

| member | source | states |
|---|---|---|
| Planner.Session.constructor | script.js:5-12 | the initial globals: empty lists, zero plan and commitment, no interval, no running index; the invariant holds |
| Planner.Task.constructor | script.js:185-195 | a new task has its countdown at the full plan, is stopped, never started, uncompleted, with nothing used |
| Planner.Session.AvailableMinutes | script.js:475-477 | under the invariant, the plan minus the planned minutes of every task, completed ones included; non-negative exactly when the budget holds |
| Planner.Session.StartSession | script.js:112-145 | refuses a blank name or hours, non-positive or NaN hours, and a plan running past midnight, in that order and with no change; otherwise stores the trimmed, non-empty name and a plan of `hours * 60` that fits in the day |
| Planner.Session.AddTask | script.js:161-198 | refuses a blank trimmed name, zero/NaN/negative minutes, and minutes beyond what is available, with no change; otherwise appends exactly one fresh task with a full countdown and commits its minutes, keeping the budget |
| Planner.Session.EditTask | script.js:211-246 | refuses a running task, a missing or empty name, NaN or non-positive minutes, a cancelled prompt, and an increase beyond what is available, with no change; otherwise sets the trimmed name (tested before trimming), plan, description and a full new countdown, shifts the commitment by the difference, keeps the budget, and always accepts a decrease |
| Planner.Session.Revise | script.js:240-245 | the updates of an accepted edit: only that task's name, plan, description and countdown change, and the commitment moves by the change of plan, keeping the invariant |
| Planner.Session.EditTaskAsWritten | script.js:211-246 | the handler as written: with the description prompt cancelled it throws after committing the change and renaming and re-planning the task, leaving the old countdown, which can exceed the new plan |
| Planner.Session.StartTimer | script.js:381-401 | refuses while any interval is live, with no change; otherwise flags the task running, overwrites its start instant, records its index and fills the slot, touching nothing else |
| Planner.Session.Tick | script.js:401-412 | with seconds left, counts the captured task down by exactly one; at zero, clears the slot and the running flag and leaves the task pending; the countdown never goes negative |
| Planner.Session.StopTimer | script.js:416-429 | refuses unless the index is the last started one; otherwise clears the slot and the running flag of the task at that index, leaving its countdown, start instant and the running index as they were |
| Planner.Session.MarkAsDone | script.js:432-462 | the minutes used are the span since the latest start rounded to the nearest minute (running or stopped) or 0 (never started); stamps and stops the task, clears the slot only in the running branch, moves the task to the end of the completed list with the others in order, and leaves the commitment unchanged |
| Planner.Session.Complete | script.js:457-462 | the common tail of the three branches: the task records its minutes and completion instant, stops, and moves from the pending list to the end of the completed list, keeping the invariant |
| Planner.Session.CompleteAt | script.js:459-462 | without the completed task the lists stay free of duplicates, still sum to the commitment, and keep any live interval |
| Planner.Session.CommittedCoversTasks | script.js:198 | under the invariant every task, pending or completed, holds at least one committed minute, so the commitment is never negative |
| Planner.Session.LoadQuotes | script.js:61-75 | appends, in order, one cleaned quote per usable row and nothing else |
| Planner.Session.ExportRows | script.js:515-531 | the download has one row per task plus the name row |
| Planner.Session.ExportHoldsSession | script.js:515-531 | the completed rows read back as the completed tasks in order, with their completion instants, and the pending rows as the pending tasks in order |
| Arith.RoundToMinutes | script.js:441-451 | `Math.round(ms / 1000 / 60)`: the minute count within half a minute of the span, halves rounding up |
| Arith.RoundToMinutesUnique | script.js:441-451 | that minute count is the only one within half a minute of the span |
| Arith.JsRem60 | script.js:491 | JavaScript `a % 60`: a remainder below 60 in size, with the sign of `a`, differing from `a` by a multiple of 60 |
| Budget.RemainingPlan | script.js:487-492 | the displayed hours are the floor of the available minutes over 60; for a non-negative budget hours and minutes add back up to it |
| Budget.RemainingPlanAddsUp | script.js:490-491 | hours and minutes add up exactly when the budget is non-negative or overdrawn by whole hours; otherwise they sum to an hour less than it |
| Countdown.FormatTime | script.js:480-484 | digits, a colon and two digits, with no leading zero on the minutes unless they are the single digit `0` |
| Countdown.FormatTimeRoundTrip | script.js:480-484 | the field before the colon reads as `seconds / 60` and the two-digit field after it as `seconds % 60`, below 60; read back together they give the countdown |
| Countdown.FormatTimeInjective | script.js:480-484 | different countdowns display differently |
| Text.Decimal | script.js:483 | `toString()` of a non-negative integer: a non-empty numeral of digits, with a leading zero only for 0 itself |
| Text.Trim | script.js:118 | the result is no longer than the input and has no white space at either end |
| Text.TrimStrips | script.js:118 | the result is the input with only white space removed at its two ends |
| Text.TrimEmpty | script.js:118 | the trimmed field is empty exactly when the field is all white space |
| Text.TrimUntouched | script.js:168 | a string without white space at either end is left as it is |
| Text.TrimIdempotent | script.js:168 | trimming twice is trimming once |
| Text.DecimalRoundTrip | script.js:483 | the decimal numeral of a number reads back as that number |
| Text.PadStart | script.js:483 | `padStart`: the width is reached with fill characters in front of the unchanged string |
| Text.ReplaceAll | script.js:69-70 | `replace(/…/g, rep)`: with a replacement no longer than the pattern, the result is no longer than the input |
| Text.ReplaceAllNoOccurrence | script.js:69-70 | a string in which the pattern does not occur is returned unchanged |
| Text.ReplaceAllFirst | script.js:69-70 | the first occurrence becomes the replacement, the text before it is kept, and the rest is replaced in turn; with `ReplaceAllNoOccurrence` this fixes the result on every string |
| Text.ReplaceAllRemoves | script.js:69-70 | after a global replace the pattern no longer occurs, when the replacement cannot recreate it |
| Text.ReplaceAllKeepsOut | script.js:69-70 | a second replace does not bring back the first pattern |
| Text.TrimKeepsOut | script.js:71 | trimming does not bring back a removed pattern |
| Export.DoneRows | script.js:517-523 | one "Completed tasks" row per completed task, in order, with its fields and completion instant |
| Export.PendingRows | script.js:524-530 | one "Pending tasks" row per pending task, in order, with an empty completion cell |
| Export.SessionRows | script.js:515-531 | the name row first, then `|done| + |pending|` task rows |
| Export.SessionRowsLayout | script.js:515-531 | after the name row come the completed tasks' rows in order, then the pending tasks' rows in order, with an empty completion cell |
| Export.ExportReadBack | script.js:515-531 | selecting by status gives back the completed list and the pending list unchanged and in order |
| Quotes.CleanQuoteRepairs | script.js:67-71 | a cleaned quote holds neither mis-decoded sequence and has no white space at either end |
| Quotes.Usable | script.js:65 | `row.quote && row.author`: both fields non-empty |
| Quotes.CleanQuote | script.js:67-71 | the repaired, trimmed quote text is no longer than the original and has no white space at either end |
| Quotes.CleanQuoteKeepsText | script.js:67-71 | a quote holding neither mis-decoded sequence is only trimmed; where they occur, `Text.ReplaceAllFirst` says what takes their place |
| Quotes.Clean | script.js:67-72 | the pushed quote: the quote is the row's quote repaired and trimmed (`CleanQuote`), the author is the row's author trimmed; both fields have no white space at either end and neither is longer than in the row |
| Quotes.Cleaned | script.js:63-74 | no more quotes than rows |
| Quotes.UsableRows | script.js:65 | keeps exactly the rows with a non-empty quote and author |
| Quotes.UsableRowsAppend | script.js:63-65 | the rows kept from a concatenation are those kept from its parts, in order |
| Quotes.UsableRowsSingle | script.js:63-65 | a single row is kept, once, exactly when it is usable; with `UsableRowsAppend`, the kept rows are the usable ones, each once, in order |
| Quotes.CleanedKeepsUsable | script.js:63-74 | the quotes are `Clean` applied to each kept row (`UsableRows`), position by position |
| Scenarios.TwoRunningTasks | script.js:398-462 | complete the first of three tasks while the second counts down, stop "index 1", start index 1: two distinct pending tasks are flagged running |
| Scenarios.CancelledDescription | script.js:234-245 | cutting a fresh 30-minute task to 10 minutes with the description prompt cancelled leaves a 30-minute countdown on a 10-minute task |

## Left out

- DOM rendering and event wiring (`renderTasks`, `renderDoneTasks`, `createIconButton`, `updateClock`, the listeners): presentation with nothing to state.
- `alert` and `prompt`: alerts are the `Refused` results, and prompt answers are parameters (`None` for a cancelled prompt).
- `setInterval`/`clearInterval` scheduling: the interval is the `timer` slot and its callback is `Tick`; there is no concurrency to model.
- `Date.now()`, `new Date()` and ISO date text: instants are integer-millisecond parameters, and `startTimeFormatted`/`completedTimeFormatted` are the `startTime`/`completedTime` instants.
- `parseInt`'s reading of text (`"12abc"` is 12): its result is an int-or-NaN parameter (`Num`).
- Planner.Session.StartSession: requires that the hours number is NaN when the trimmed hours field is empty, as `parseInt` makes it.
- Out-of-range indices: a `requires index < |tasks|`, because the buttons only pass live indices; the code would throw.
- `showRandomQuote` (it depends on `Math.random` and a modal), `Papa.parse` and the `XLSX` workbook calls: foreign libraries and file I/O. Only the rows built before those calls are modelled.
- Floating point: `Math.round` of a millisecond span is stated exactly on integers. `Math.floor` and `%` are stated on integers, which the minute and second counts always are.
- Planner.Session.LoadQuotes: states nothing about the session invariant, because its frame only lets it change the quote list.
- Planner.Session.EditTaskAsWritten: after an aborted edit the session is no longer `Valid`, and the model does not follow the page as it goes on ticking, stopping or completing that task.
- Countdown.FormatTime: shows the countdown of a non-negative count of seconds only. `Tick` keeps the count non-negative.

## Findings

| source | as written | input that shows it | evidently intended | confidence | as-written member | corrected member |
|---|---|---|---|---|---|---|
| script.js:234-245 | `usedMinutes`, `task.name` and `task.minutes` are updated before `newDescription.trim()`, which throws when the description prompt is cancelled (`null`) | a stopped, fresh 30-minute task, edited to name "x", 10 minutes, description prompt cancelled | a cancelled prompt rejects the edit like the other invalid inputs, or all four fields change together | not executed | Planner.Session.EditTaskAsWritten | Planner.Session.EditTask |
