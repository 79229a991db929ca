# minecraft-exchange: tasks, instance generation and the emerald shop, in Dafny

minecraft-exchange is a small web application where a player claims tasks,
submits them and, once an administrator verifies them, earns emeralds to
spend in a shop. This project models its core in Dafny:

- the task life cycle `available → claimed → completed → verified` (plus
  `expired`), as conditional single-table updates;
- the two variants of `CreateTaskInstancesFromTemplate` that turn a task
  template into task instances. The handlers-package variant suppresses
  duplicates by counting active instances. The utils-package variant
  suppresses them when an instance expires today or later;
- the weekly recurrence of daily templates, and the start-time normaliser
  with its three layouts;
- the refresh cycle (per-template generation, then the expiry sweep), and
  the older refresh of main.go (today's and tomorrow's instances, then the
  stale-claim sweep);
- the listings of available, upcoming and claimed tasks;
- the reward credit on verification, the purchase rule, and the form
  validation of templates and items;
- the older transactional handlers of main.go.

The database is a class `Models.Store` whose fields are the tables (maps
from id to row, the exchange records as a sequence) and the AUTOINCREMENT
counters. `Snapshot()` reads the whole store as a `Tables.Db` value. Every
statement is a function on `Db` in `Tables` and a method on `Store`. Every
handler is a method on the store, and its `ensures` ties the new store and
its outcome to a function of the old store. The lemmas beside each handler
state what the source promises about that function.

Time is a parameter everywhere:
- an instant is a day number (day 0 is 1970-01-01) plus the second of the
  day;
- `Calendar.Stamp` writes the "2006-01-02 15:04:05" text the application
  stores;
- `Calendar.StampOrder` proves that SQLite's text comparison of such stamps
  is their chronological order while years have four digits.

A failing statement is an explicit boolean (or a `Stage`) parameter. The
model therefore shows which handlers are atomic and which leave partial
writes:
- the handlers package commits each statement on its own;
- the main.go handlers run in one transaction.

Where the code and the intent stated in its comments differ, the model
follows the code. Two differences are proved:
- `ClaimTaskHandler` of the handlers package reports success even when the
  task was not available. Its UPDATE matches no row and returns no error.
  See `TaskHandlers.ClaimOutcome`.
- The older `exchangeHandler` debits the first player but records the
  purchase for player 1. See `Legacy.LegacyExchangeAtomic`.

Every task INSERT of the older code for a daily template (main.go:1048,
:1253, :1277) names a `repeat_days` column that the tasks table does not
have, so SQLite rejects it. As written, the older `createTaskHandler`
stores a daily template and then answers with a server error
(`Legacy.LegacyDailyInsertRejected`), and the older refresh adds no task at
all (`Legacy.LegacyFoldAsWritten`). These rejections are the insert-failure
parameters of the model set to true. With the parameters false, the model
describes the inserts as intended; the lemmas about the rows the older code
adds (`Legacy.TomorrowRowOpen`, `Legacy.LegacyDailyOpenAtOnce`, the
refresh lemmas) describe that intended behaviour. Instances made for
tomorrow would have no start time, so the models listing would show them as
available at once (`Legacy.LegacyDailyOpenAtOnce`).

## Model

| member | source | states |
|---|---|---|
| Tables.MovesForward | models/models.go:552-570 | every status change a statement makes goes forward along available → claimed → completed → verified, or to expired; no status is revisited |
| Tables.ProgressForward | models/models.go:552-570 | across two successive statements a task's status rank never decreases, and a task back at its starting status never left it |
| Tables.ClaimTask | models/models.go:552-557 | the row changes exactly when it is available; it becomes claimed by the given player; no other row or column changes and no row disappears |
| Tables.CompleteTask | models/models.go:559-564 | the row changes exactly when it is claimed; it becomes completed with its owner kept; nothing else changes |
| Tables.VerifyTask | models/models.go:566-571 | the row changes exactly when it is completed; it becomes verified with its owner kept; nothing else changes |
| Tables.Insert | models/models.go:573-581 | an insert adds exactly one key, the next AUTOINCREMENT id |
| Tables.CreateTask | models/models.go:573-581 | models.CreateTask adds one available, unowned row under the next id, fresh in a well-formed store, with both time columns set to now and the draft's template, expiry and start; every other row and table is unchanged |
| Tables.InsertFresh | models/models.go:118-128 | a new row is available and unowned (the column defaults), under an id no row had; every old row is kept and the store stays well formed |
| Tables.UpdatePlayerEmeralds | models/models.go:303-307 | only that player's balance changes, to the given value; a missing player changes nothing |
| Tables.UpdateItemStock | models/models.go:527-531 | only that item's stock changes, to the given value |
| Tables.DeleteTaskTemplate | models/models.go:589-593 | exactly that template disappears; the other templates and every task instance stay |
| Tables.CreateTaskTemplate | models/models.go:595-606 | the template is stored under the next id, the one LastInsertId reports, which no template of a well-formed store has; no other table or counter changes |
| Tables.CreateItem | models/models.go:511-519 | the item is stored under the next id, which no item of a well-formed store has; no other table or counter changes |
| Tables.CreateExchangeRecord | models/models.go:533-537 | the earlier records are kept in order and exactly one record (player, item) is appended; no other table changes |
| Tables.TaskStatementsKeepWf | models/models.go:552-571 | the status updates keep ids below the counters and keep an owner on every claimed, completed or verified task |
| Tables.OtherStatementsKeepWf | models/models.go:303-307 | the statements on players, items, templates and records keep the store well formed |
| Tables.FirstPlayerIs | models/models.go:283-291 | the first player is the player with the smallest id |
| Tables.OpenAt | models/models.go:311 | the available listing's condition: status available, start NULL or at or before now, expiry after now (text comparison) |
| Tables.HeldBy | models/models.go:336 | the claimed listing's condition: status claimed or completed and owned by the player |
| Tables.UpcomingAt | models/models.go:362 | the upcoming listing's condition: status available and a start after now; a NULL start never qualifies |
| Tables.AvailableUpcomingDisjoint | models/models.go:309-384 | no task is listed both as available and as upcoming at the same time |
| Tables.ClaimLeavesAvailable | models/models.go:309-333 | a claim takes exactly the claimed task off the available listing |
| Tables.ClaimJoinsClaimed | models/models.go:335-358 | a claim adds the task to the claimer's listing exactly when it was available |
| Tables.CompleteKeepsClaimed | models/models.go:335-358 | completing leaves every player's claimed listing as it was |
| Tables.VerifyLeavesClaimed | models/models.go:335-358 | verifying takes the task off every claimed listing |
| Tables.Sweep | utils/utils.go:261 | the expiry sweep changes only task rows and keeps every task id; SweepExact states which rows become expired |
| Tables.SweepExact | utils/utils.go:260-266 | the sweep expires exactly the available or claimed tasks whose expiry is before now; all other rows are unchanged |
| Tables.SweepIdempotent | utils/utils.go:260-266 | a second sweep with the same time changes nothing |
| Tables.LegacySweep | main.go:1290 | the older sweep changes only task rows and keeps every task id; LegacySweepExact states which rows become completed |
| Tables.LegacySweepExact | main.go:1290 | the older sweep completes exactly the claimed daily tasks last updated before today, and touches nothing else |
| Models.Store.GetFirstPlayerID | models/models.go:283-291 | succeeds exactly when a player exists, and returns the smallest player id |
| Models.Store.GetTaskByID | models/models.go:608-615 | returns the row when the id exists, NotFound otherwise |
| Models.Store.GetPlayerInfo | models/models.go:293-301 | returns the row when the id exists, NotFound otherwise |
| Models.Store.GetItemInfo | models/models.go:501-509 | returns the row when the id exists, NotFound otherwise |
| Models.Store.GetTemplate | utils/utils.go:84-88 | the template row for a present id; NotFound when no row has it |
| Models.Store.ListDailyTemplates | models/models.go:480-499 | lists every daily template id exactly once |
| Models.Store.ClaimTask | models/models.go:552-557 | the new store is Tables.ClaimTask of the old one, or the old one when the statement fails |
| Models.Store.CompleteTask | models/models.go:559-564 | the new store is Tables.CompleteTask of the old one, or the old one on failure |
| Models.Store.VerifyTask | models/models.go:566-571 | the new store is Tables.VerifyTask of the old one, or the old one on failure |
| Models.Store.CreateTask | models/models.go:573-581 | the new store has the row inserted with both time columns set to now, or is the old one on failure |
| Models.Store.InsertTask | main.go:1027-1031 | the older handlers' INSERT INTO tasks with explicit created_at: the row is inserted with the given time columns, or nothing changes and a failure is reported |
| Models.Store.UpdatePlayerEmeralds | models/models.go:303-307 | the new store is Tables.UpdatePlayerEmeralds of the old one, or the old one on failure |
| Models.Store.UpdateItemStock | models/models.go:527-531 | the new store is Tables.UpdateItemStock of the old one, or the old one on failure |
| Models.Store.DeleteTaskTemplate | models/models.go:589-593 | the new store is Tables.DeleteTaskTemplate of the old one, or the old one on failure |
| Models.Store.CreateTaskTemplate | models/models.go:595-606 | returns the new template's id and stores the template under it; on failure, an error and no change |
| Models.Store.CreateItem | models/models.go:511-519 | the new store is Tables.CreateItem of the old one, or the old one on failure |
| Models.Store.CreateExchangeRecord | models/models.go:533-537 | appends the record, or changes nothing on failure |
| Models.Store.ExpireOverdue | utils/utils.go:260-266 | the new store is the sweep of the old one, or the old one on failure |
| Models.Store.CompleteStale | main.go:1290 | the new store is the older sweep of the old one, or the old one on failure |
| Text.LessTransitive | models/models.go:311 | SQLite's text order is transitive |
| Text.LessTotal | models/models.go:311 | SQLite's text order is total |
| Text.JoinSplit | handlers/task_handlers.go:294-298 | splitting on "," and joining again gives the repeat days back |
| Text.SplitJoin | handlers/task_handlers.go:294-298 | splitting the joined checkbox values gives the values back when none contains "," |
| Numerals.DigitsOrder | models/models.go:311 | equal-width numerals compare as text as their values compare |
| Numerals.Atoi | handlers/task_handlers.go:90 | strconv.Atoi accepts only values within the 64-bit range |
| Numerals.AtoiDigits | handlers/task_handlers.go:90 | strconv.Atoi reads back the decimal numeral of every non-negative int |
| Numerals.Itoa | utils/utils.go:122 | strconv.Itoa: the text starts with a minus sign exactly for a negative number |
| Numerals.AtoiItoa | handlers/task_handlers.go:90 | strconv.Atoi reads back the strconv.Itoa text of every 64-bit int, negative ones included |
| Numerals.ScanIntDigits | handlers/task_handlers.go:315 | Sscanf "%d" reads the leading numeral and ignores the text after it |
| Numerals.ScanInt | handlers/task_handlers.go:315 | Sscanf "%d" skips leading spaces, takes an optional sign and the digit run after it, and fails outside the 64-bit range |
| Calendar.Civil | utils/utils.go:119-122 | the calendar date of a day number is valid and on or after 1970 |
| Calendar.CivilOrder | utils/utils.go:119-122 | day numbers and dates correspond one to one, preserving order |
| Calendar.WeekdayOffset | utils/utils.go:119-134 | seven consecutive days show every weekday exactly once |
| Calendar.StampOrder | utils/utils.go:97-99 | stamps compare as text exactly as the instants compare in time |
| Calendar.StampInjective | models/models.go:311 | distinct instants have distinct stamps |
| Calendar.StampLength | utils/utils.go:261 | stamps are 19 characters long |
| Calendar.DayStartStamp | utils/utils.go:98 | the stamp of midnight is the date followed by " 00:00:00" |
| StartTime.StartFor | handlers/task_handlers.go:444-475 | an empty start argument gives now's stamp; otherwise the normalised argument |
| StartTime.Normalize | handlers/task_handlers.go:450-467 | tries the three layouts in order and writes an accepted time in the canonical layout; the Normalize lemmas below state what it accepts and returns |
| StartTime.NormalizeCanonical | handlers/task_handlers.go:450-467 | canonical "2006-01-02 15:04:05" text normalises to itself |
| StartTime.NormalizeT | handlers/task_handlers.go:450-467 | "2006-01-02T15:04:05" normalises to the same time with a space |
| StartTime.NormalizeShort | handlers/task_handlers.go:450-467 | "2006-01-02T15:04" normalises to the same time with seconds 00 |
| StartTime.NormalizeIdempotent | handlers/task_handlers.go:450-467 | normalising a normalised start changes nothing |
| StartTime.NormalizeShape | handlers/task_handlers.go:450-467 | every accepted start time comes out as the canonical text of a valid time |
| StartTime.NormalizeExamples | handlers/task_handlers.go:450-467 | the three layouts on one example time |
| StartTime.NormalizeLoose | handlers/task_handlers.go:450-467 | time.Parse also accepts a one-digit hour after extra spaces |
| StartTime.NormalizeRejects | utils/utils.go:178-207 | text with no four-digit year is refused |
| Recurrence.WeekdayText | handlers/task_handlers.go:386-387 | a weekday's text is its single decimal digit |
| Recurrence.WeekdayTextInjective | handlers/task_handlers.go:386-387 | different weekdays have different texts |
| Recurrence.Contains | handlers/task_handlers.go:389-394 | the loop over the pieces reports exactly whether the text is one of them |
| Recurrence.FirstMatchFrom | handlers/task_handlers.go:384-399 | the first listed offset at or after from, below 7, or none |
| Recurrence.SearchWeek | handlers/task_handlers.go:384-399 | the loop with its found flag finds the first of the next seven days whose weekday is listed, or reports none |
| Recurrence.NoMatchIffNoneListed | handlers/task_handlers.go:401 | the search fails exactly when no weekday is listed |
| Recurrence.NoWeekdayNoMatch | handlers/task_handlers.go:401 | repeat days that name no weekday number never yield an instance |
| Recurrence.EmptyRepeatDays | handlers/task_handlers.go:401 | empty repeat days never yield an instance |
| Recurrence.JoinedDaysListed | handlers/task_handlers.go:294-298 | a weekday is listed in the joined form values exactly when it was checked |
| Recurrence.SundayExample | handlers/task_handlers.go:384-399 | on a Sunday, "1,3,5" places the instance on Monday |
| Recurrence.TomorrowWeekday | main.go:1187-1188 | (today + 1) mod 7 is the weekday of the next day |
| Generation.DailyDay | handlers/task_handlers.go:378-401 | the chosen day is within the coming week and listed; no earlier day of that week is listed; there is none exactly when no weekday is listed |
| Generation.CreateDailyInstance | handlers/task_handlers.go:378-430 | the search, then the insert, carries out the daily plan |
| Generation.CreateLimitedInstance | handlers/task_handlers.go:433-500 | the count, the start-time cascade and the insert carry out the limited plan |
| Generation.ApplyGrows | models/models.go:573-581 | carrying out a plan only adds the planned row under a fresh id; the store changes exactly when the plan creates and the insert succeeds |
| Generation.LimitedRules | handlers/task_handlers.go:433-497 | a template with any instance gets nothing; an unreadable explicit start is refused with no insert; an empty start means now; the stored start is canonical |
| Generation.DailySpan | handlers/task_handlers.go:404-422 | a daily instance starts at 00:00:00 and expires at 23:59:59 of its day, and start comes before expiry |
| Generation.DailyVisibility | models/models.go:309-384 | a daily instance is listed as available during its day and as upcoming before it |
| TaskHandlers.CreateTaskInstancesFromTemplate | handlers/task_handlers.go:352-502 | the new store and outcome are those of the active-count generator |
| TaskHandlers.ActiveStepIdempotent | handlers/task_handlers.go:367-374 | after a successful call, a second call for the same template changes nothing, at any time and with any arguments |
| TaskHandlers.ActiveStepKeepsOne | handlers/task_handlers.go:364-374 | the generator never creates a second active instance of any template |
| TaskHandlers.LimitedSingleShot | handlers/task_handlers.go:435-441 | both generators give a limited template at most one instance ever |
| TaskHandlers.ParseId | handlers/task_handlers.go:83-95 | an empty id is MissingId and an unreadable one BadId; otherwise it is the Atoi value |
| TaskHandlers.ParseIdRoundTrip | handlers/task_handlers.go:83-95 | every task id reads back through the form |
| TaskHandlers.ClaimTaskHandler | handlers/task_handlers.go:75-115 | the new store and outcome are those of ClaimSpec |
| TaskHandlers.ClaimOutcome | handlers/task_handlers.go:75-115 | success exactly when the id parses, a player exists and the update succeeds; the store changes only when the task was available |
| TaskHandlers.CompleteTaskHandler | handlers/task_handlers.go:118-188 | the new store and outcome are those of CompleteSpec |
| TaskHandlers.CompleteOutcome | handlers/task_handlers.go:156-181 | success exactly when the task is claimed by the current player and the update succeeds, whatever regeneration does; the task becomes completed, other rows are kept, and at most one row is added |
| TaskHandlers.VerifyTaskHandler | handlers/task_handlers.go:191-262 | the new store and outcome are those of VerifySpec |
| TaskHandlers.VerifyOutcome | handlers/task_handlers.go:230-253 | success exactly when the task is completed and both statements succeed; the owner's balance rises by exactly the reward and the task becomes verified |
| TaskHandlers.VerifyKeepsWf | handlers/task_handlers.go:230-253 | verification keeps the store well formed whatever fails |
| TaskHandlers.VerifyOwnerPresent | handlers/task_handlers.go:236 | in a well-formed store a completed task has an owner |
| TaskHandlers.VerifyTwiceCredits | handlers/task_handlers.go:245-253 | if the status update fails after the credit, a retry credits the reward a second time |
| TaskHandlers.ValidateTaskForm | handlers/task_handlers.go:302-319 | accepts exactly a non-empty title, difficulty, type and reward, repeat days for a daily template, and a positive reward |
| TaskHandlers.RewardReading | handlers/task_handlers.go:315-316 | the reward is the leading numeral; a reward of zero is refused |
| TaskHandlers.CreateTaskHandler | handlers/task_handlers.go:265-350 | the new store and outcome are those of CreateSpec |
| TaskHandlers.CreateOutcome | handlers/task_handlers.go:332-345 | a valid form always stores its template, even when generation fails; a limited template with an unreadable start is BadStartTime; otherwise its instance is created, a daily one on the chosen day |
| Utils.HasCurrent | utils/utils.go:95-109 | MAX(expiry_time) over the template's rows expiring from today's midnight on is non-empty; such a row is an instance of the template |
| Utils.ExpiryStep | utils/utils.go:79-236 | a missing template is NotFound; a failing call changes nothing; a changing call adds exactly one task id |
| Utils.CreateTaskInstancesFromTemplate | utils/utils.go:79-236 | the new store and outcome are those of the expiry-based generator |
| Utils.ExpiryStepGrows | utils/utils.go:79-236 | the generator only adds one row, under a fresh id, and keeps the store well formed |
| Utils.DailyRowCurrent | utils/utils.go:97-110 | an instance for today or later counts as current |
| Utils.ExpiryStepIdempotent | utils/utils.go:97-110 | after a successful call, a later call on the same day changes nothing |
| Utils.ExpiryStale | utils/utils.go:97-164 | an unexpired-by-sweep instance from an earlier day does not stop a new one, so two instances can be active |
| Utils.RefreshDailyTasks | utils/utils.go:240-268 | an early return without a sweep when the listing fails; otherwise each daily template is generated in the listed order, then the sweep runs |
| Utils.RefreshFoldGrows | utils/utils.go:251-257 | the cycle only adds rows and keeps the store well formed |
| Utils.StepSettles | utils/utils.go:97-164 | a successful generator call leaves its daily template with a current instance, or with none to make |
| Utils.RefreshFoldSettles | utils/utils.go:251-257 | one template's failure does not stop the others: every listed template that did not fail is settled |
| Utils.SweepKeepsSettled | utils/utils.go:260-266 | the sweep does not unsettle a template |
| Utils.RefreshSettles | utils/utils.go:240-268 | after a cycle, the store is well formed, only task rows changed, old rows are kept or expired, and each daily template that did not fail is settled |
| Utils.UntilMidnight | utils/utils.go:56-60 | the first delay is positive, at most one day, and ends exactly at the next midnight |
| ExchangeHandlers.ExchangeHandler | handlers/exchange_handlers.go:110-222 | the new store and outcome are those of ExchangeSpec |
| ExchangeHandlers.WritePurchase | handlers/exchange_handlers.go:177-209 | the three writes each stand alone; a failure stops the later ones |
| ExchangeHandlers.ExchangeOutcome | handlers/exchange_handlers.go:158-196 | success exactly when the item is in stock and affordable and nothing fails; then the balance drops by the cost, the stock by one, and one record is appended; a refusal changes nothing |
| ExchangeHandlers.ExchangeKeepsNonNegative | handlers/exchange_handlers.go:158-188 | balances and stocks stay non-negative whichever call fails |
| ExchangeHandlers.ExchangePartial | handlers/exchange_handlers.go:178-193 | when the stock update fails, the player has paid, the stock is unchanged and no record is made |
| ExchangeHandlers.ValidateItemForm | handlers/exchange_handlers.go:256-272 | accepts exactly a non-empty name, a positive cost and a non-negative stock |
| ExchangeHandlers.ItemExpiryDefault | handlers/exchange_handlers.go:276-281 | an empty expiry defaults to thirty days on, later than now |
| ExchangeHandlers.CreateItemHandler | handlers/exchange_handlers.go:225-302 | the new store and outcome are those of CreateItemSpec |
| ExchangeHandlers.CreateItemOutcome | handlers/exchange_handlers.go:256-290 | success exactly for a valid form; the item gets a fresh id and a positive cost; balances and stocks stay non-negative |
| ExchangeHandlers.ValidateItemUpdate | handlers/exchange_handlers.go:441-464 | an empty id is MissingFields; an accepted form has a readable id and the same positive cost and non-negative stock creation accepts |
| ExchangeHandlers.UpdateAgreesWithCreate | handlers/exchange_handlers.go:441-464 | the update form accepts the same cost and stock as creation, with the same errors |
| Legacy.RowId | main.go:767-784 | the id text compared with the INTEGER key: empty text selects no row and a selected id is a 64-bit int |
| Legacy.RowIdRoundTrip | main.go:767-784 | the numeral of any 64-bit id selects that id |
| Legacy.ClaimTaskHandler | main.go:759-815 | the new store and outcome are those of LegacyClaim |
| Legacy.LegacyClaimOutcome | main.go:784-797 | a task that is not available is refused and left as it was; otherwise it is claimed for player 1 and nothing else changes; a failure rolls back |
| Legacy.CompleteTaskHandler | main.go:817-874 | the new store and outcome are those of LegacyComplete |
| Legacy.LegacyCompleteOutcome | main.go:843-856 | success exactly for a task claimed by player 1; only its status and update time change |
| Legacy.VerifyTaskHandler | main.go:876-950 | the new store and outcome are those of LegacyVerify |
| Legacy.CreditThenVerify | main.go:925-941 | the credit of the reward and the status change, one after the other |
| Legacy.LegacyVerifyAtomic | main.go:899-941 | the owner gains exactly the reward and the task becomes verified together, or neither happens |
| Legacy.ExchangeHandler | main.go:515-609 | the new store and outcome are those of LegacyExchange |
| Legacy.LegacyExchangeAtomic | main.go:549-600 | a refusal for stock or balance changes nothing; success debits the first player, takes one from stock and appends one record naming player 1, all together |
| Legacy.CreateTaskHandler | main.go:953-1060 | the new store and outcome are those of LegacyCreate |
| Legacy.TomorrowRowOpen | main.go:1037-1051 | the row made for tomorrow has no start, so it is open now and never upcoming |
| Legacy.LegacyDailyOpenAtOnce | main.go:1037-1056 | when its insert succeeds as intended, a daily template's first instance expires at the end of tomorrow but is listed as available at once |
| Legacy.LegacyDailyInsertRejected | main.go:1046-1055 | as written the daily insert is rejected: the new template stays stored under a fresh id, the outcome is a server error and the tasks table is unchanged |
| Legacy.RefreshToday | main.go:1241-1262 | today's instance is inserted only if none of the template was created today |
| Legacy.RefreshTomorrow | main.go:1265-1286 | tomorrow's instance is inserted only if none of the template expires tomorrow |
| Legacy.RefreshTemplate | main.go:1205-1287 | a template with empty repeat days is skipped; otherwise today's part, then tomorrow's |
| Legacy.RefreshDailyTasks | main.go:1183-1296 | an early return when the listing fails; otherwise every daily template in the listed order, then the stale-claim sweep |
| Legacy.CountsGrow | main.go:1249-1276 | adding rows never turns a non-zero count back to zero |
| Legacy.ExpiryDates | main.go:1266-1273 | a daily expiry carries exactly its own day's date |
| Legacy.TodayPartGrows | main.go:1241-1262 | today's part adds at most one available daily row, after which the count of instances created today is not zero |
| Legacy.TomorrowPartGrows | main.go:1265-1286 | tomorrow's part adds at most one available daily row; it both expires tomorrow and counts as created tomorrow |
| Legacy.TodayRowNotCounted | main.go:1273-1276 | today's new row is never what the count of tomorrow's instances finds |
| Legacy.LegacyStepGrows | main.go:1205-1287 | one template's step adds only available daily rows of that template and keeps every old row |
| Legacy.LegacyStepIdempotent | main.go:1249-1278 | once its inserts succeed, running a template again on the same day adds nothing |
| Legacy.LegacyNextDay | main.go:1276-1282 | tomorrow's instance is created at tomorrow's midnight, so the next day's today-check finds it |
| Legacy.LegacyFoldGrows | main.go:1205-1287 | the whole pass keeps every row; each added row is an available daily task of a listed template |
| Legacy.LegacyFoldAsWritten | main.go:1252-1283 | when every insert of the pass is rejected, as the missing repeat_days column makes it, the pass leaves the store as it was |

## Left out

- HTTP plumbing is left out: request parsing, status codes, redirects, template rendering, cookies, the login check, `SendJSONResponse` and `IsAJAXRequest`. Each handler is modelled as the decision it makes and the store changes that follow.
- Logging is left out.
- Token generation with `crypto/rand` is left out.
- The page in static/js/main.js is left out.
- Database setup and sample data are left out. The model keeps only the column defaults of a new task row.
- The timers and goroutines of `StartDailyTaskRefresh` and `startDailyTaskRefresh` are left out. The model covers one cycle, with the current time as a parameter, plus the delay to the first midnight (`Utils.UntilMidnight`).
- Time zones and daylight saving are left out. A day is always 86400 seconds, and `Add(24 * time.Hour)` is the next day.
- SQLite's `CURRENT_TIMESTAMP` and `date('now')` are UTC, while the application writes local time. The model treats both as the same clock.
- `date(expiry_time)` is modelled only on the application's own 19-character stamps. SQLite's leniency with other text is left out.
- `Legacy.RowId` simplifies how the older handlers bind the id text directly against the INTEGER key. The model reads the text with `Atoi`, so text that is not a decimal integer selects no row. SQLite's type-affinity conversions of unusual numerals are not modelled.
- Integer widths are not modelled:
  - balances, stocks and rewards are unbounded integers;
  - Go's 64-bit `int` overflow on `emeralds + reward` or `emeralds - cost` is not modelled;
  - the parsers do model the 64-bit range check of `Atoi` and `Sscanf`.
- Read queries are modelled as never failing, except a read that finds no row. A failing SELECT or Scan inside a generator is folded into the insert-failure parameter of that step.
- In the older refresh, a failing COUNT for a template is folded into that instance's failure parameter.
- A failing `db.Begin()` in the older handlers is not modelled separately. It changes nothing, as a failure before commit does.
- A failing `LastInsertId` in the older `createTaskHandler` is not modelled.
- Concurrency is left out: simultaneous claims, and the reads outside the transaction in the older `exchangeHandler` (`getFirstPlayerID` uses the pool, not the transaction).
- The listing order is not modelled. `ORDER BY created_at DESC` only fixes the order in which templates are visited, and `Lists` allows any order.
- `models.UpdateItem` is not shown in models/models.go and is not part of this model. Only the update form's validation is modelled (`ExchangeHandlers.ValidateItemUpdate`).
- `models.DeleteTask`, `DeleteItem`, `UpdateExchangeRecordStatus`, the admin and shop listings, and `ExchangeRewardHandler` are left out. They are outside the task and shop rules modelled here.
- The older daily task inserts name a `repeat_days` column of the tasks table that no schema declares. As written, the older refresh therefore adds nothing, and the older `createTaskHandler` fails after storing a daily template. The model reaches that behaviour only through its insert-failure parameters; with them false it describes the inserts as intended, with the column dropped.
- The older code's own table definitions are not modelled. Both families of handlers run against the schema of models/models.go.
- Legacy.LegacyNextDay: guarantees the next day's check finds an instance only when no instance expiring tomorrow existed before the step. An instance the newer generator made for tomorrow is created today, so the next day's check does not see it.
- `Calendar.StampOrder` and the lemmas that rely on it hold for years below 10000 only. Beyond that, stamps lose their fixed width.

## Findings

| source | as written | input that shows it | evidently intended | confidence | as-written member | corrected member |
|---|---|---|---|---|---|---|
| main.go:1047-1055 | the daily instance INSERT names a repeat_days column that the tasks table lacks, so it fails after the template is stored and the handler answers 500 | any valid daily form, for example title "t", difficulty "easy", reward "5", Monday checked | the instance for tomorrow inserted without that column | not executed | Legacy.LegacyDailyInsertRejected | Legacy.LegacyDailyOpenAtOnce |
| main.go:1252-1283 | both refresh INSERTs name the same missing column, so the older refresh never adds a task | any daily template whose repeat days list today's weekday | today's and tomorrow's instances inserted | not executed | Legacy.LegacyFoldAsWritten | Legacy.TodayPartGrows |
