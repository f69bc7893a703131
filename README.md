# A verified model of a Laravel project-management back end

The system is a JSON API for running projects and tracking objectives. It keeps:

- projects and their tasks, with a project progress rolled up from the task counts;
- OKRs (objectives with weighted key results) and KPIs, each with a progress towards a
  target, a four-tier completion status and a pacing test against elapsed time;
- users with a role (`admin`, `project_manager`, `member`), per-user task statistics and a
  performance score;
- a permission table, a role-to-permission table filled by two seeders and edited by the user
  endpoints;
- activity-log entries and notifications with relative-time labels and a read flag;
- application settings held in a cache with a JSON file behind it.

This project models those parts in Dafny and proves what the code promises about them.

- **One module per source file.** The Eloquent models (`KeyResultModel`, `OkrModel`,
  `KpiModel`, `ProjectModel`, `UserModel`, `ActivityLogModel`, `NotificationModel`), the
  controllers (`TaskController`, `ProjectController`, `UserController`, `SettingsController`,
  `OkrController`, `KpiController`) and the seeders (`PermissionSeeder`,
  `RolePermissionSeeder`) each have a module of their own.
- **Shared modules.** `Common` holds `Option` and `Field`, which says whether a request key
  is absent, null, given or malformed; the Laravel validation rules are predicates over it.
  `PhpMath` holds PHP's `round`, `trim` and integer-to-string conversion. `Metric` holds the
  clamped linear progress formula, the tiers and the pacing test that key results, OKRs and
  KPIs share. `Permissions` holds the `permissions` and `role_permissions` tables.
- **Database tables are classes.** A table is a class whose fields are a `seq` of rows (or a
  `map` keyed by the unique index) plus the next auto-increment id. Methods change these
  fields and state the new contents.
- **Controllers and seeders are methods over those classes.** Each states its response code
  and the new table contents for every branch: validation failure, unknown id, and success.
  A loop in the source is a loop with invariants here.
- **Pure computations are functions.** Progress, tiers, labels, scopes and merges are
  functions with named results. Lemmas state the properties: bounds, partitions,
  idempotence, round trips, injectivity of labels and "nothing else changes".

Where the code and its documentation disagree, the model follows the code, except where a "## Findings" row models both readings:

- Validation failures in the OKR and KPI controllers answer 500, not 422. The validator runs
  inside a `try` whose `catch (\Exception)` turns every failure into 500.
- `todo_list` is validated but never stored, because it is not in the Task model's
  `$fillable`.
- As written, the task endpoints' progress recount never sets a project's status to
  `Completed` or `Planning` (see Findings). The model's task endpoints recount with the
  corrected mapping, so 100 percent gives `Completed` and 0 gives `Planning`.
- The KPI update's `end_date` rule is checked against the request's own `start_date` only.
  An update that sends an end date but no start date passes, even when the end date falls
  on or before the stored start date.

## Model

| member | source | states |
|---|---|---|
| PhpMath.Round | app/Models/Project.php:56 | `round()` gives the integer within half a unit, halves going away from zero |
| PhpMath.Percent | app/Http/Controllers/Api/TaskController.php:458-459 | `round(c/t*100)` is 0 for no completed task, 100 when all are completed, and in [0,100] whenever c <= t |
| PhpMath.PercentIntegerForm | app/Models/Project.php:55-56 | the percentage equals the integer expression (200·c + t) div (2·t) |
| PhpMath.PercentBelowWhole | app/Models/Project.php:56 | with fewer than 200 tasks, one task short of all reads below 100 |
| PhpMath.PercentAbovePartZero | app/Models/Project.php:56 | with at most 200 tasks, one completed task already reads at least 1 |
| PhpMath.PercentRoundsUpToWhole | app/Models/Project.php:56 | 199 of 200 completed rounds to 100 |
| PhpMath.PercentRoundsDownToZero | app/Models/Project.php:56 | 1 of 201 completed rounds to 0 |
| PhpMath.DecimalRoundTrip | app/Models/ActivityLog.php:72-75 | the decimal text PHP prints for a count reads back as that count |
| PhpMath.DecimalStringInjective | app/Models/ActivityLog.php:72-75 | different counts print as different texts |
| PhpMath.NumberLabelInjective | app/Models/ActivityLog.php:72-75 | a count followed by a fixed suffix such as " hours ago" determines the count |
| PhpMath.DecimalString | app/Models/ActivityLog.php:72-75 | PHP's integer-to-string conversion: only digits, at least one, no leading zero |
| PhpMath.TrimSpec | app/Http/Controllers/Api/TaskController.php:126 | `trim()` returns a slice of its input that starts and ends with a non-whitespace character, and everything cut off is whitespace |
| PhpMath.Trim | app/Http/Controllers/Api/TaskController.php:126 | `trim()`: the leading whitespace cut, then the trailing (the same call trims the project name at ProjectController.php:146) |
| PhpMath.TrimStart | app/Http/Controllers/Api/TaskController.php:126 | the leading whitespace cut off is all whitespace and the rest starts with a non-whitespace character |
| PhpMath.TrimEnd | app/Http/Controllers/Api/TaskController.php:126 | the trailing whitespace cut off is all whitespace and the rest ends with a non-whitespace character |
| PhpMath.TrimUnchanged | app/Http/Controllers/Api/TaskController.php:126 | a title without surrounding whitespace is stored as sent |
| PhpMath.TrimIdempotent | app/Http/Controllers/Api/TaskController.php:126 | trimming a trimmed title changes nothing |
| Metric.LinearProgress | app/Models/KeyResult.php:62-71 | progress is 0 for a zero target; otherwise the ratio (current−baseline)/(target−baseline)·100 clamped to [0,100] (the ratio itself when it lies inside) |
| Metric.EndPoints | app/Models/KeyResult.php:68-70 | at the baseline the progress is 0 and at the target 100 (non-zero target) |
| Metric.FallingTargetExample | app/Models/KeyResult.php:68-70 | baseline 6, target 2, current 3 gives 75: the formula handles a falling target without looking at `direction` |
| Metric.MonotoneTowardsTarget | app/Models/KeyResult.php:68-70 | moving the current value towards the target never lowers the progress, for rising and falling targets |
| Metric.TierUnique | app/Models/KeyResult.php:157-168 | the four tier bands (>=100, [80,100), [60,80), <60) are disjoint |
| Metric.TierNamesDistinct | app/Models/KeyResult.php:157-168 | the four tier strings differ |
| Metric.DirectionIcon | app/Models/KeyResult.php:93-105 | rising arrow for `increase`, falling arrow for `decrease`, flat arrow for anything else |
| Metric.DirectionIconsDistinct | app/Models/KeyResult.php:93-105 | the three stored directions get three different icons |
| Metric.TotalDays | app/Models/Okr.php:147-149 | the pacing window is days-to-end plus days elapsed when there is an end date, otherwise the default window |
| Metric.OnPace | app/Models/Okr.php:145-153 | on pace iff progress >= elapsed/total·100: for a positive total that is progress·total >= elapsed·100, for a negative total progress·total <= elapsed·100; a zero total is the unguarded division by zero |
| Metric.NegativeWindowAlwaysOnPace | app/Models/Okr.php:145-153 | a window ending before it starts makes the expected share negative, so every non-negative progress is on pace |
| Metric.OnPaceAtStart | app/Models/Kpi.php:165-169 | with 0 days elapsed and a positive window every progress is on pace |
| Metric.OnPaceAtEnd | app/Models/Kpi.php:165-169 | at the end of the window only progress >= 100 is on pace |
| Metric.CountPaces | app/Http/Controllers/Api/OkrController.php:136-137 | the first count is the number of tests that held and the second the number that failed, so together they are the number of tests; undefined exactly when one test throws |
| KeyResultModel.HasProgress | app/Models/KeyResult.php:64-68 | the domain of `progress`: a zero target is guarded, and otherwise the target must differ from the baseline, since PHP's `/` throws DivisionByZeroError on a zero divisor |
| KeyResultModel.Progress | app/Models/KeyResult.php:62-71 | progress is in [0,100], 0 for a zero target, 0 at the baseline and 100 at the target |
| KeyResultModel.IsCompleted | app/Models/KeyResult.php:110-113 | `isCompleted()`: progress of at least 100 |
| KeyResultModel.IsOnTrack | app/Models/KeyResult.php:118-121 | `isOnTrack()`: progress of at least 80 |
| KeyResultModel.IsAtRisk | app/Models/KeyResult.php:126-129 | `isAtRisk()`: progress from 60 up to, not including, 80 |
| KeyResultModel.IsBehind | app/Models/KeyResult.php:134-137 | `isBehind()`: progress below 60 |
| KeyResultModel.TierPredicatesPartition | app/Models/KeyResult.php:118-137 | at risk and behind never overlap; exactly one of on track, at risk and behind holds; completed implies on track |
| KeyResultModel.CompletionStatus | app/Models/KeyResult.php:157-168 | the status is the tier whose band holds the progress; completed iff `isCompleted`, on_track iff on track and not completed, at_risk iff `isAtRisk`, behind iff `isBehind` |
| KeyResultModel.StatusColor | app/Models/KeyResult.php:76-88 | active green, completed blue, cancelled red, gray exactly for any other text |
| KeyResultModel.StatusColorsDistinct | app/Models/KeyResult.php:76-88 | the three stored statuses get three different non-gray colours |
| KeyResultModel.ActiveOnly | app/Models/KeyResult.php:46-49 | the active scope keeps exactly the rows with status `active` |
| KeyResultModel.ActiveOnlyAppend | app/Models/KeyResult.php:46-49 | the scope of a concatenation is the concatenation of the scopes, so order is kept |
| KeyResultModel.OfOkr | app/Models/KeyResult.php:54-57 | `byOkr` keeps exactly the rows of that OKR |
| KeyResultModel.WithCurrentValue | app/Models/KeyResult.php:142-152 | only `current_value` and `status` change; status becomes `completed` iff the new progress reaches 100, otherwise it is unchanged |
| KeyResultModel.AutoCompleteIsOneWay | app/Models/KeyResult.php:142-152 | the status can only ever change to `completed`, and a completed key result stays completed |
| KeyResultModel.FindInOkr | app/Http/Controllers/Api/OkrController.php:365-374 | finds a key result only if it has the id and belongs to the given OKR; none exactly when no row matches both |
| KeyResultModel.KeyResultTable.constructor | app/Http/Controllers/Api/OkrController.php:219-231 | an empty table whose first id is 1 |
| KeyResultModel.KeyResultTable.Create | app/Http/Controllers/Api/OkrController.php:220-230 | the row is appended with the next id and the default status `active` |
| KeyResultModel.KeyResultTable.UpdateCurrentValue | app/Models/KeyResult.php:142-152 | the value is saved first; when progress is defined the row becomes `WithCurrentValue`; on a division by zero only the value has changed and the call fails |
| OkrModel.WeightedSum | app/Models/Okr.php:101-103 | `sum(progress * weight)` over the active key results |
| OkrModel.TotalWeight | app/Models/Okr.php:100 | `sum('weight')` over the active key results |
| OkrModel.OverallProgress | app/Models/Okr.php:92-106 | 0 with no active key result or a total weight <= 0; otherwise the q with q·Σweight = Σ(progress·weight) over the active key results |
| OkrModel.WeightedSumBounds | app/Models/Okr.php:100-104 | with non-negative weights and progresses in [lo,hi], lo·Σw <= Σ progress·w <= hi·Σw |
| OkrModel.OverallProgressBetween | app/Models/Okr.php:100-105 | the weighted mean lies between any lower and upper bound of the active key results' progress |
| OkrModel.OverallProgressInRange | app/Models/Okr.php:92-106 | with non-negative weights the overall progress is in [0,100] |
| OkrModel.WeightedMeanExample | app/Models/Okr.php:100-105 | (100, weight 3) and (50, weight 1) give 87.5 |
| OkrModel.InactiveIgnored | app/Models/Okr.php:94 | adding a key result that is not active leaves the overall progress as it was |
| OkrModel.InactiveDropsOut | app/Models/Okr.php:94 | a key result that is not active, wherever it stands, is invisible to the active scope |
| OkrModel.NoneActive | app/Models/Okr.php:94-98 | with no active key result the roll-up sees an empty list |
| OkrModel.CompletingLeavesTheMean | app/Models/KeyResult.php:142-152 | when `updateCurrentValue` completes a key result, the OKR's progress becomes the mean over the others |
| OkrModel.AllCompletedReadsZero | app/Models/Okr.php:92-106 | an OKR whose key results are all completed reads progress 0 and status `behind` |
| OkrModel.IsOnTrack | app/Models/Okr.php:145-153 | on pace against the window days-to-end + elapsed, or 90 days with no end date; undefined exactly when that window is 0 |
| OkrModel.HalfWayWithoutEndDate | app/Models/Okr.php:145-153 | with no end date, 45 elapsed days call for 50 percent |
| OkrModel.CompletionStatus | app/Models/Okr.php:158-171 | the 100/80/60 tier whose band holds the overall progress |
| OkrModel.StatusColor | app/Models/Okr.php:111-123 | active green, completed blue, cancelled red, gray exactly for any other text |
| OkrModel.TypeLabel | app/Models/Okr.php:128-140 | Company, Team, and Individual for `individual` and any unknown type |
| OkrModel.TypeLabelsDistinct | app/Models/Okr.php:128-140 | the three stored types get three different labels |
| OkrModel.ActiveOkrs | app/Models/Okr.php:60-63 | the active scope keeps exactly the OKRs with status `active` |
| OkrModel.ByType | app/Models/Okr.php:68-71 | `byType` keeps exactly the OKRs whose type has the given name |
| OkrModel.ByUser | app/Models/Okr.php:76-79 | `byUser` keeps exactly the OKRs of that owner |
| OkrModel.ByProject | app/Models/Okr.php:84-87 | `byProject` keeps exactly the OKRs of that project; one without a project never matches |
| OkrModel.ActiveByUserCommute | app/Models/Okr.php:60-79 | `active()->byUser()` and `byUser()->active()` give the same rows in the same order |
| OkrModel.OkrTable.constructor | app/Http/Controllers/Api/OkrController.php:207-216 | an empty table whose first id is 1 |
| OkrModel.OkrTable.Create | app/Http/Controllers/Api/OkrController.php:207-216 | the row is appended with the next id and the default status `active` |
| KpiModel.HasProgress | app/Models/Kpi.php:93-97 | the domain of `progress`, as for a key result: a zero target is guarded, and otherwise the target must differ from the baseline |
| KpiModel.Progress | app/Models/Kpi.php:91-100 | the same target-zero guard, formula and [0,100] clamp as a key result |
| KpiModel.IsOnTrack | app/Models/Kpi.php:162-170 | on pace against days-to-end + elapsed, or 30 days with no end date; undefined exactly when that window is 0 |
| KpiModel.FullWindowNeedsFullProgress | app/Models/Kpi.php:165-169 | with no end date and 30 days elapsed, on track iff progress >= 100 |
| KpiModel.FirstDayOnTrack | app/Models/Kpi.php:165-169 | with 0 days elapsed and a positive window every KPI is on track |
| KpiModel.StatusColor | app/Models/Kpi.php:105-119 | active green, paused yellow, completed blue, cancelled red, gray exactly for any other text |
| KpiModel.StatusColorsDistinct | app/Models/Kpi.php:105-119 | the four stored statuses get four different non-gray colours |
| KpiModel.FrequencyLabel | app/Models/Kpi.php:141-157 | the five frequencies capitalised; `Monthly` for anything else |
| KpiModel.FrequencyLabelsDistinct | app/Models/Kpi.php:141-157 | the five stored frequencies get five different labels |
| KpiModel.ActiveOnly | app/Models/Kpi.php:59-62 | the active scope keeps exactly the KPIs with status `active` |
| KpiModel.ByCategory | app/Models/Kpi.php:67-70 | `byCategory` keeps exactly the KPIs of that category |
| KpiModel.ByUser | app/Models/Kpi.php:75-78 | `byUser` keeps exactly the KPIs of that owner |
| KpiModel.ByProject | app/Models/Kpi.php:83-86 | `byProject` keeps exactly the KPIs of that project; one without a project never matches |
| KpiModel.CategoryWithinProject | app/Models/Kpi.php:67-86 | `byProject()->byCategory()` and `byCategory()->byProject()` give the same rows in the same order |
| KpiModel.Find | app/Http/Controllers/Api/KpiController.php:332-339 | finds the row with the id; none exactly when no row has it |
| KpiModel.KpiTable.constructor | app/Http/Controllers/Api/KpiController.php:186-200 | an empty table whose first id is 1 |
| KpiModel.KpiTable.Create | app/Http/Controllers/Api/KpiController.php:186-200 | the row is appended with the next id and the default status `active` |
| KpiModel.KpiTable.Replace | app/Http/Controllers/Api/KpiController.php:270-275 | one row is overwritten in place, ids kept |
| KpiModel.KpiTable.UpdateCurrentValue | app/Models/Kpi.php:175-179 | only `current_value` changes; the status, and every other row, is untouched |
| ProjectModel.PriorityOr | app/Http/Controllers/Api/TaskController.php:131 | a sent priority is stored by name; an unsent one falls back |
| ProjectModel.TasksOf | app/Models/Project.php:29-32 | the `tasks` relation keeps exactly the tasks of that project |
| ProjectModel.CountStatus | app/Models/Project.php:39-41 | the count is at most the total; 0 iff no task has the status; the total iff every task has it |
| ProjectModel.CountsPartition | app/Models/Project.php:35-43 | completed + in progress + todo counts add up to the total |
| ProjectModel.StatsOf | app/Models/Project.php:35-43 | the four figures are the total and the three status counts, which partition it |
| ProjectModel.GetTaskStats | app/Models/Project.php:35-43 | the figures count the project's own tasks, and the three status counts add up to the total |
| ProjectModel.ComputedProgress | app/Models/Project.php:46-59 | 0 without tasks, otherwise `round(completed/total·100)`; in [0,100]; 0 when none is completed, 100 when all are |
| ProjectModel.FullProgressIffAllCompleted | app/Models/Project.php:55-56 | below 200 tasks, progress 100 iff there is a task and every task is completed |
| ProjectModel.ZeroProgressIffNoneCompleted | app/Models/Project.php:55-56 | below 200 tasks, progress 0 iff no task is completed |
| ProjectModel.WithProgress | app/Models/Project.php:46-59 | only `progress` changes, to the computed value; the status is untouched |
| ProjectModel.UpdateProgressIdempotent | app/Models/Project.php:46-59 | a second `updateProgress` over unchanged tasks changes nothing |
| ProjectModel.FindProject | app/Http/Controllers/Api/TaskController.php:444-448 | finds the project with the id; none exactly when the id is not in the table |
| ProjectModel.FindTask | app/Http/Controllers/Api/TaskController.php:311-318 | finds the task with the id; none exactly when no task has it |
| ProjectModel.WithoutProject | database/migrations/2025_07_07_095503_create_tasks_table.php:24 | the cascade keeps exactly the tasks of the other projects, in order |
| ProjectModel.NoTasksLeft | database/migrations/2025_07_07_095503_create_tasks_table.php:24 | after the cascade the deleted project has no tasks |
| ProjectModel.RemoveProjectIds | app/Http/Controllers/Api/ProjectController.php:441 | removing a project keeps every other project's id and the id order |
| ProjectModel.Workspace.constructor | database/migrations/2025_07_07_095503_create_tasks_table.php:11-26 | both tables empty, first ids 1 |
| ProjectModel.Workspace.InsertProject | app/Http/Controllers/Api/ProjectController.php:145-154 | the project is appended with the next id; tasks untouched |
| ProjectModel.Workspace.InsertTask | app/Http/Controllers/Api/TaskController.php:138 | the task is appended with the next id; it must belong to an existing project; projects untouched |
| ProjectModel.Workspace.ReplaceProject | app/Http/Controllers/Api/ProjectController.php:362 | one project row overwritten in place, ids and tasks kept |
| ProjectModel.Workspace.ReplaceTask | app/Http/Controllers/Api/TaskController.php:353 | one task row overwritten in place, ids and projects kept |
| ProjectModel.Workspace.DeleteTask | app/Http/Controllers/Api/TaskController.php:409 | the task row is removed, everything else kept |
| ProjectModel.Workspace.DeleteProject | app/Http/Controllers/Api/ProjectController.php:441 | the project row and, by `ON DELETE CASCADE`, exactly its tasks are removed |
| ProjectModel.Workspace.UpdateProgress | app/Models/Project.php:46-59 | only that project's progress changes, to the value computed from its tasks |
| UserModel.AssignedTasks | app/Models/User.php:46-49 | keeps exactly the tasks assigned to the user |
| UserModel.Matching | app/Models/User.php:64-70 | a builder carrying several status clauses keeps exactly the tasks that satisfy all of them |
| UserModel.MatchingOne | app/Models/User.php:68 | a builder with one status clause counts exactly the tasks of that status |
| UserModel.MatchingContradictory | app/Models/User.php:68-70 | a builder carrying two different status clauses returns no row |
| UserModel.GetTaskStatsAsWritten | app/Models/User.php:62-72 | as written: the total and completed counts are right, and the in-progress and todo counts are always 0 |
| UserModel.InProgressLostAsWritten | app/Models/User.php:62-72 | a user with one task in progress is reported with 0 in progress, where the intended count is 1 |
| UserModel.GetTaskStats | app/Models/User.php:62-72 | intended figures: the total of the assigned tasks, and the completed, in-progress and todo counts each over the assigned tasks, which add up to it |
| UserModel.RoundShift | app/Models/User.php:86-88 | adding the whole-number bonus before rounding shifts the rounded value by the bonus |
| UserModel.Min100 | app/Models/User.php:88 | `min(100, …)`: the cap at 100 |
| UserModel.PerformanceScore | app/Models/User.php:74-89 | 85 without tasks; otherwise min(100, completion% + 5 if any task is in progress), rounded; always in [0,100]; 100 when all are completed |
| UserModel.ScoreWithoutActivity | app/Models/User.php:82-88 | with nothing in progress the score is exactly the completion percentage |
| UserModel.BonusNeverAppliesAsWritten | app/Models/User.php:62-89 | with the written counts the activity bonus never applies |
| UserModel.Unique | app/Models/User.php:94-96 | `array_unique` output has no repeats, the same values as its input, and is no longer |
| UserModel.UniqueOfDistinct | app/Models/User.php:94-96 | a list without repeats is left as it is |
| UserModel.UniqueIdempotent | app/Models/User.php:94-96 | de-duplicating twice is de-duplicating once |
| UserModel.UniquePrefix | app/Models/User.php:94-96 | first occurrences are kept in order: the de-duplicated first list is a prefix of the result |
| UserModel.ProjectNames | app/Models/User.php:91-97 | no name twice, every name of either list present, and the created-project names first, in order |
| ActivityLogModel.DateLabel | app/Models/ActivityLog.php:77 | `format('M j, Y')`: month abbreviation, day without leading zero, comma, four-digit year |
| ActivityLogModel.MonthAbbrev | app/Models/ActivityLog.php:77 | the `M` format gives a three-letter capitalised month name |
| ActivityLogModel.MonthAbbrevInjective | app/Models/ActivityLog.php:77 | twelve months, twelve names |
| ActivityLogModel.Pad4 | app/Models/ActivityLog.php:77 | the `Y` format pads a year with leading zeros to four digits and keeps the digits |
| ActivityLogModel.Pad4Injective | app/Models/ActivityLog.php:77 | padding loses nothing on canonical digit strings |
| ActivityLogModel.DateLabelInjective | app/Models/ActivityLog.php:76-78 | a `M j, Y` label names exactly one date |
| ActivityLogModel.KindOf | app/Models/ActivityLog.php:70-78 | the buckets <1, [1,60), [60,1440), >=1440 minutes are exclusive and exhaustive; hours are floor(diff/60) in 1..23 |
| ActivityLogModel.FormattedTime | app/Models/ActivityLog.php:66-79 | "Just now" iff under a minute; "n minutes ago" (no singular); floor(diff/60) "hours ago" in 1..23; else the `M j, Y` date |
| ActivityLogModel.MinutesLabelInjective | app/Models/ActivityLog.php:72-73 | two minute counts under an hour with the same label are equal |
| ActivityLogModel.HoursBucket | app/Models/ActivityLog.php:74-75 | every difference from an hour to just under a day shows 1 to 23 hours |
| ActivityLogModel.Recent | app/Models/ActivityLog.php:58-61 | keeps exactly the entries created at or after now minus the given days |
| ActivityLogModel.RecentWeek | app/Models/ActivityLog.php:58-61 | without an argument the look-back is 7 days |
| ActivityLogModel.RecentWidens | app/Models/ActivityLog.php:58-61 | a longer look-back keeps every entry a shorter one keeps |
| ActivityLogModel.OfType | app/Models/ActivityLog.php:42-45 | keeps exactly the entries of that type |
| ActivityLogModel.ByUser | app/Models/ActivityLog.php:50-53 | keeps exactly the entries of that user |
| ActivityLogModel.ScopesCommute | app/Models/ActivityLog.php:42-53 | chaining the type and user scopes in either order gives the same list |
| ActivityLogModel.OfTypeAppend | app/Models/ActivityLog.php:42-45 | the type scope of a concatenation is the concatenation of the scopes |
| ActivityLogModel.ByUserAppend | app/Models/ActivityLog.php:50-53 | the user scope of a concatenation is the concatenation of the scopes |
| NotificationModel.FormattedTime | app/Models/Notification.php:83-97 | "Just now" iff the signed hour difference is under 1; "h hours ago" under a day; otherwise "d days ago", with a minus sign for a negative day count |
| NotificationModel.PastRowReadsJustNow | app/Models/Notification.php:87-90 | with a signed difference, a negative hour count, a row created in the past, reads "Just now" |
| NotificationModel.HoursLabelInjective | app/Models/Notification.php:90-91 | two hour counts under a day with the same label are equal |
| NotificationModel.HoursAndDaysDiffer | app/Models/Notification.php:88-96 | an hours label is never a days label |
| NotificationModel.WithRead | app/Models/Notification.php:102-115 | the read flag is set to the given value; nothing else changes |
| NotificationModel.MarkLastWins | app/Models/Notification.php:102-106 | marking twice is marking once, and the later mark decides |
| NotificationModel.ReadThenUnreadRestores | app/Models/Notification.php:102-115 | `markAsRead` then `markAsUnread` restores an unread notification |
| NotificationModel.Unread | app/Models/Notification.php:43-46 | keeps exactly the unread rows |
| NotificationModel.ReadRows | app/Models/Notification.php:51-54 | keeps exactly the read rows |
| NotificationModel.ReadScopesPartition | app/Models/Notification.php:43-54 | every row is in exactly one of the two scopes, and their sizes add up |
| NotificationModel.ByPriority | app/Models/Notification.php:75-78 | keeps exactly the rows of that priority |
| NotificationModel.HighPriority | app/Models/Notification.php:59-62 | keeps exactly the rows of priority `high` |
| NotificationModel.ByType | app/Models/Notification.php:67-70 | keeps exactly the rows of that type |
| PhpMath.SignedString | app/Models/Notification.php:94-95 | the text PHP's string concatenation gives a day count: its decimal digits, behind a minus sign when it is negative |
| NotificationModel.Insertable | database/migrations/2025_07_20_001138_create_notifications_table.php:16-24 | the insert succeeds iff user name, action, target, type and details are given (NOT NULL columns read without `??`), and a given priority is one of the enum values |
| NotificationModel.NotificationRow | app/Models/Notification.php:120-132 | user name, action, target, type and details copied from the data; user id and metadata the given value, else null; priority `medium` unless given and always in the enum; read false |
| NotificationModel.NotificationTable.constructor | database/migrations/2025_07_20_001138_create_notifications_table.php:17-23 | an empty table whose first id is 1 |
| NotificationModel.NotificationTable.Create | app/Models/Notification.php:120-132 | a missing NOT NULL value or an unlisted priority fails and leaves the table as it was; otherwise the row is appended with a fresh id |
| NotificationModel.NotificationTable.MarkAsRead | app/Models/Notification.php:102-106 | only row i's read flag changes, to true |
| NotificationModel.NotificationTable.MarkAsUnread | app/Models/Notification.php:111-115 | only row i's read flag changes, to false |
| Permissions.RoleOf | database/migrations/2025_07_19_000000_create_permissions_tables.php:20 | a string names a role iff it is one of the three enum values, and the role has that name |
| Permissions.RoleOfName | database/migrations/2025_07_19_000000_create_permissions_tables.php:20 | every role is named by its own name |
| Permissions.Names | database/seeders/RolePermissionSeeder.php:13 | the names of the permission rows, in order |
| Permissions.IdOf | database/seeders/RolePermissionSeeder.php:40 | `where('name', n)->first()` is none iff no row has the name, else the id of a row with that name |
| Permissions.InsertOrIgnore | database/seeders/PermissionSeeder.php:45 | a name already present leaves the table as it was; a new one is appended with the next id |
| Permissions.InsertOrIgnoreExtends | database/seeders/PermissionSeeder.php:45 | existing rows are never changed and at most one is added, the name is present afterwards, and unique names and ordered ids stay so |
| Permissions.AccessStore.constructor | database/migrations/2025_07_19_000000_create_permissions_tables.php:12-29 | both tables empty, first id 1, the unique and foreign-key invariants hold |
| Permissions.AccessStore.InsertOrIgnorePermission | database/seeders/PermissionSeeder.php:45 | the permission table becomes `InsertOrIgnore` of the old one; unique names and grants are kept |
| Permissions.AccessStore.TruncateGrants | database/seeders/RolePermissionSeeder.php:35 | `role_permissions` becomes empty; permissions untouched |
| Permissions.AccessStore.InsertGrant | database/seeders/RolePermissionSeeder.php:42-48 | a new (role, permission) pair is added as allowed |
| Permissions.AccessStore.PutGrant | app/Http/Controllers/Api/UserController.php:104-107 | the row of the pair is created or overwritten with the given flag |
| PermissionSeeder.Seed | database/seeders/PermissionSeeder.php:44-51 | the `foreach` of `insertOrIgnore` calls over the permission list, in order |
| PermissionSeeder.SeedExtends | database/seeders/PermissionSeeder.php:45 | seeding only appends: existing rows, descriptions included, are kept |
| PermissionSeeder.SeedCoversList | database/seeders/PermissionSeeder.php:44-51 | after seeding every listed name is present |
| PermissionSeeder.SeedIgnoresKnown | database/seeders/PermissionSeeder.php:45 | a list whose names are all present changes nothing |
| PermissionSeeder.SeedIdempotent | database/seeders/PermissionSeeder.php:44-51 | a rerun adds no rows and changes none |
| PermissionSeeder.SeedAddsOnlyListed | database/seeders/PermissionSeeder.php:13-29 | no name outside the list is ever seeded |
| PermissionSeeder.DocumentPermissionsNotSeeded | database/seeders/PermissionSeeder.php:31-41 | the commented-out document and folder permissions are never seeded |
| PermissionSeeder.InsertAll | database/seeders/PermissionSeeder.php:44-51 | the loop leaves the table the seed function gives, grants untouched |
| PermissionSeeder.Run | database/seeders/PermissionSeeder.php:44-51 | all 17 listed names are present afterwards, in the table the seed function gives; grants untouched |
| RolePermissionSeeder.AddRole | database/seeders/RolePermissionSeeder.php:39-50 | the inner `foreach`: one allowed row for each name of the role found by `where('name')->first()`, a missing name skipped |
| RolePermissionSeeder.AddRoles | database/seeders/RolePermissionSeeder.php:38-51 | the outer `foreach` over the roles, in order |
| RolePermissionSeeder.Seeded | database/seeders/RolePermissionSeeder.php:35-51 | the grants table after the truncate and both loops, a function of the permissions alone |
| RolePermissionSeeder.AddRoleKeys | database/seeders/RolePermissionSeeder.php:39-49 | one role's inner loop adds exactly the pairs of the role with the id of each listed name found; a missing name is skipped |
| RolePermissionSeeder.AddRoleAllowed | database/seeders/RolePermissionSeeder.php:42-48 | every row the inner loop inserts is allowed |
| RolePermissionSeeder.AddRolesKeys | database/seeders/RolePermissionSeeder.php:38-51 | the outer loop yields exactly the pairs some role's entry names |
| RolePermissionSeeder.AddRolesAllowed | database/seeders/RolePermissionSeeder.php:38-51 | every row the outer loop leaves is allowed |
| RolePermissionSeeder.SeededExactly | database/seeders/RolePermissionSeeder.php:16-51 | the seeded table is exactly {(r, id(n)) : n listed for r and present}, every row allowed |
| RolePermissionSeeder.ListedNamesAreSeeded | database/seeders/PermissionSeeder.php:13-29 | every name a role is listed with is in the permission seeder's list |
| RolePermissionSeeder.SeedersTogether | database/seeders/RolePermissionSeeder.php:38-51 | after both seeders, each role holds every permission listed for it |
| RolePermissionSeeder.RoleListFacts | database/seeders/RolePermissionSeeder.php:17-31 | admin lacks `manage_own_tasks`; member lacks `manage_tasks` and `manage_projects` but has `manage_own_tasks` |
| RolePermissionSeeder.RoleListsDistinct | database/seeders/RolePermissionSeeder.php:16-32 | no role lists a name twice |
| RolePermissionSeeder.SeededNames | database/seeders/PermissionSeeder.php:13-29 | the 17 names of the permission seeder's list, in order |
| RolePermissionSeeder.RolesDistinctListed | database/seeders/RolePermissionSeeder.php:16-32 | the three roles are each listed once, and no list names a permission twice |
| RolePermissionSeeder.FreshGrant | database/seeders/RolePermissionSeeder.php:42-48 | the pair for the next name is never among those already inserted, so the unique index is never violated |
| RolePermissionSeeder.SeedRole | database/seeders/RolePermissionSeeder.php:39-50 | one role's inner loop leaves the grants the specification function gives, permissions untouched |
| RolePermissionSeeder.SeedRoles | database/seeders/RolePermissionSeeder.php:38-51 | the nested loops over distinct roles leave exactly the grants the specification function gives |
| RolePermissionSeeder.Run | database/seeders/RolePermissionSeeder.php:13-51 | truncate, then insert: the grants depend only on the permissions, so a rerun leaves the same table |
| UserController.FindUser | app/Http/Controllers/Api/UserController.php:115-121 | the first user with the id; none exactly when no user has it |
| UserController.UserTable.constructor | app/Http/Controllers/Api/UserController.php:68 | a table of users with distinct ids |
| UserController.UserTable.SetRole | app/Http/Controllers/Api/UserController.php:72-73 | only the role of that user changes |
| UserController.UpdateRole | app/Http/Controllers/Api/UserController.php:66-75 | a role outside the enum gives 422 and an unknown user 404, both without change; otherwise only that user's role changes |
| UserController.EntriesValid | app/Http/Controllers/Api/UserController.php:98-102 | the `permissions` rules: each entry has a `permission_id` that exists and an `allowed` boolean |
| UserController.Pairs | app/Http/Controllers/Api/UserController.php:103-108 | the (permission id, allowed) pairs of the validated entries, in order |
| UserController.Upserted | app/Http/Controllers/Api/UserController.php:103-108 | the `foreach` of `updateOrCreate` calls: each pair overwrites or creates the row keyed by role and permission id |
| UserController.UpsertedKeys | app/Http/Controllers/Api/UserController.php:103-108 | after the upserts there is a row for every listed id besides the old rows; rows of other roles and unlisted ids keep their values |
| UserController.UpsertedLastWins | app/Http/Controllers/Api/UserController.php:103-108 | a permission listed twice ends with the later entry's value |
| UserController.SetRolePermissions | app/Http/Controllers/Api/UserController.php:96-110 | a broken rule gives 422; an absent list gives 500; an unknown role gives 500 for a non-empty list; otherwise 200 with every pair upserted in order |
| UserController.Allowed | app/Http/Controllers/Api/UserController.php:124-135 | exactly the permissions whose row for the role has `allowed` set |
| UserController.GetUserPermissions | app/Http/Controllers/Api/UserController.php:113-141 | none (404) exactly for an unknown user, else the permissions the user's role is allowed |
| UserController.SetThenGet | app/Http/Controllers/Api/UserController.php:103-135 | after a role's permissions are set, a listed permission is reported iff its last entry allowed it |
| SettingsController.Merge | app/Http/Controllers/Api/SettingsController.php:258-261 | saved keys override the defaults; the other default keys are kept; no other keys appear |
| SettingsController.Loaded | app/Http/Controllers/Api/SettingsController.php:229-263 | no file or an undecodable file gives exactly the defaults; a decoded file gives the merge |
| SettingsController.LoadedHasEveryDefault | app/Http/Controllers/Api/SettingsController.php:230-261 | a read from the file never lacks a default key |
| SettingsController.SettingsStore.constructor | app/Http/Controllers/Api/SettingsController.php:229 | an empty cache over the given file |
| SettingsController.SettingsStore.GetSettings | app/Http/Controllers/Api/SettingsController.php:227-265 | a cache hit returns the cached value unchanged; a miss loads from defaults and file and caches the result |
| SettingsController.SettingsStore.SaveSettings | app/Http/Controllers/Api/SettingsController.php:270-277 | the given settings, unmerged, go into both cache and file |
| SettingsController.SettingsStore.Expire | app/Http/Controllers/Api/SettingsController.php:229 | the cache entry lapses after 3600 seconds; the file is kept |
| SettingsController.Passes | app/Http/Controllers/Api/SettingsController.php:40-66 | one rule: string or email with its `max`, boolean, integer range, or `in` list; a value of the wrong kind fails |
| SettingsController.StoreValid | app/Http/Controllers/Api/SettingsController.php:40-66 | the request passes iff every ruled key it carries is non-null and passes its rule; absent keys pass |
| SettingsController.Validated | app/Http/Controllers/Api/SettingsController.php:40-66 | `$validated` holds exactly the ruled keys the request carried with a value |
| SettingsController.DefaultsPassRules | app/Http/Controllers/Api/SettingsController.php:40-66 | the defaults and the rules name the same keys, and each default passes its rule |
| SettingsController.Store | app/Http/Controllers/Api/SettingsController.php:37-89 | a broken rule (the ranges of sessionTimeout 5..480, passwordExpiry 30..365, loginAttempts 3..10, dataRetention 30..1095 among them) gives 422 with nothing saved; otherwise 200 with exactly the validated keys saved to cache and file |
| SettingsController.SavedSubsetShadowsDefaults | app/Http/Controllers/Api/SettingsController.php:270-277 | after a save a read from the file still sees every unsent default |
| SettingsController.SavedKeyReadBack | app/Http/Controllers/Api/SettingsController.php:270-277 | a submitted key reads back as submitted |
| SettingsController.ExportEncoding | app/Http/Controllers/Api/SettingsController.php:304-318 | pretty JSON iff `json`, CSV iff `csv`, plain JSON for `xlsx` and `pdf` |
| SettingsController.Export | app/Http/Controllers/Api/SettingsController.php:94-133 | an unsent format is csv; a null or unlisted format is rejected with 400 before any data is gathered; otherwise the chosen encoding |
| SettingsController.XlsxAndPdfAlike | app/Http/Controllers/Api/SettingsController.php:306-317 | xlsx and pdf give the same plain JSON, unlike the pretty-printed json export |
| TaskController.TaskStatusOr | app/Http/Controllers/Api/TaskController.php:130 | a sent status is stored by name; an unsent one falls back |
| TaskController.StatusAfterRecountAsWritten | app/Http/Controllers/Api/TaskController.php:462-469 | as written: only 0 < p < 100 changes the status (to In Progress); every other progress keeps it |
| TaskController.FinishedProjectStaysPlanningAsWritten | app/Http/Controllers/Api/TaskController.php:462-469 | as written a Planning project at 100 percent stays Planning, where the intended mapping gives Completed |
| TaskController.StatusAfterRecount | app/Http/Controllers/Api/TaskController.php:462-469 | intended mapping: Completed iff 100, Planning iff 0, In Progress iff strictly between; never On Hold |
| TaskController.Recount | app/Http/Controllers/Api/TaskController.php:450-474 | only progress and status change; without tasks progress 0 and status kept; otherwise the status follows the progress |
| TaskController.RecountIdempotent | app/Http/Controllers/Api/TaskController.php:450-474 | recounting twice over the same tasks is recounting once |
| TaskController.AllTasksDoneCompletesProject | app/Http/Controllers/Api/TaskController.php:458-469 | a project whose tasks are all completed ends Completed at 100 |
| TaskController.CompletedIffAllTasksDone | app/Http/Controllers/Api/TaskController.php:458-469 | below 200 tasks, a project with tasks reads Completed iff all of them are completed |
| TaskController.QuarterDoneExample | app/Http/Controllers/Api/TaskController.php:458-469 | one completed task of four gives 25 and In Progress |
| TaskController.UpdateProjectProgress | app/Http/Controllers/Api/TaskController.php:441-490 | an unknown project changes nothing; otherwise only that project's progress and status change; tasks untouched |
| TaskController.TaskInputValid | app/Http/Controllers/Api/TaskController.php:98-114 | the `store` rules: title required, project existing, assignee existing or null, status, priority and progress in range when sent |
| TaskController.TaskRow | app/Http/Controllers/Api/TaskController.php:125-136 | title trimmed, description '' and tags [] when unsent, status Todo, priority Medium and progress 0 by default, project from the request, assignee and due date the sent value (a known user for the assignee) or null, progress the sent value or 0 |
| TaskController.StoreDefaults | app/Http/Controllers/Api/TaskController.php:125-136 | a request with a title and a project only stores every default |
| TaskController.Store | app/Http/Controllers/Api/TaskController.php:94-181 | a broken rule gives 422 without change; otherwise the task is appended and its project recounted over the new list (line 142), 201 |
| TaskController.TaskPatchValid | app/Http/Controllers/Api/TaskController.php:320-336 | the `update` rules: the `sometimes` keys may be left out but not sent as null |
| TaskController.PatchedTask | app/Http/Controllers/Api/TaskController.php:320-353 | the id is kept; for each of title, description, project, assignee, status, priority, due date, progress and tags: a sent value overwrites the column, a sent null clears a nullable one, an unsent key keeps it; a sent project or assignee exists and a sent progress is 0..100 |
| TaskController.Update | app/Http/Controllers/Api/TaskController.php:308-387 | 404 for an unknown id and 422 for a broken rule, without change; otherwise the row is patched and its (possibly new) project recounted (line 357), 200 |
| TaskController.Destroy | app/Http/Controllers/Api/TaskController.php:393-436 | 404 for an unknown id without change; otherwise the task is removed and its project recounted over the rest (line 412), 200 |
| ProjectController.ProjectStatusOr | app/Http/Controllers/Api/ProjectController.php:147 | a sent status is stored by name; an unsent one falls back |
| ProjectController.OverdueOnItsDueDay | app/Http/Controllers/Api/ProjectController.php:69 | an open project is already overdue during its due day, once midnight has passed |
| ProjectController.NeverOverdue | app/Http/Controllers/Api/ProjectController.php:69 | a completed project, or one without a due date, is never overdue |
| ProjectController.IsOverdue | app/Http/Controllers/Api/ProjectController.php:69 | `is_overdue`: a due date whose midnight has passed and a status other than Completed |
| ProjectController.Figures | app/Http/Controllers/Api/ProjectController.php:286-316 | the progress `show` and `store` report is recomputed from the tasks (0 without tasks), in 0..100, with the four task figures; no `is_overdue` |
| ProjectController.Summary | app/Http/Controllers/Api/ProjectController.php:46-76 | an `index` entry: the same recomputed progress and task figures, plus `is_overdue` iff the due date is past and the status is not Completed |
| ProjectController.SummaryIgnoresStoredProgress | app/Http/Controllers/Api/ProjectController.php:54-57 | the stored progress plays no part in the reported one |
| ProjectController.Show | app/Http/Controllers/Api/ProjectController.php:273-328 | none (404) exactly for an unknown id; otherwise that project with the computed progress and its task figures, and no `is_overdue` |
| ProjectController.ProjectInputValid | app/Http/Controllers/Api/ProjectController.php:122-129 | the `store` rules: name required, status and priority from their lists, progress 0..100, a due date not before today |
| ProjectController.ProjectRow | app/Http/Controllers/Api/ProjectController.php:145-152 | name trimmed, description '' when unsent, status Planning, priority Medium and progress 0 by default, due date the sent value (not before today) or null |
| ProjectController.FreshProjectHasNoTasks | app/Http/Controllers/Api/ProjectController.php:145-154 | a new project has no tasks, since every task belongs to an existing project |
| ProjectController.Store | app/Http/Controllers/Api/ProjectController.php:112-230 | rules (status in the four values, priority in Low/Medium/High, progress 0..100, due date not before today) broken gives 422 without change; otherwise the row is appended and reported with progress 0 |
| ProjectController.ProjectPatchValid | app/Http/Controllers/Api/ProjectController.php:345-352 | the `update` rules: a past due date is accepted and the `sometimes` keys may not be null |
| ProjectController.PatchedProject | app/Http/Controllers/Api/ProjectController.php:345-362 | the id is kept; for each of name, description, status, priority, due date and progress: a sent value overwrites the column, a sent null clears a nullable one, an unsent key keeps it; a sent progress is 0..100 |
| ProjectController.UpdateOverridesProgressKeepsStatus | app/Http/Controllers/Api/ProjectController.php:362-365 | after update the progress is the task-derived one whatever was sent, while a sent status is kept |
| ProjectController.Update | app/Http/Controllers/Api/ProjectController.php:333-423 | 404 for an unknown id and 422 for a broken rule, without change; otherwise patched then `updateProgress`, 200 |
| ProjectController.Destroy | app/Http/Controllers/Api/ProjectController.php:428-459 | 404 for an unknown id without change; otherwise the project and exactly its tasks are removed |
| OkrController.KeyResultInputValid | app/Http/Controllers/Api/OkrController.php:178-185 | the `key_results.*` rules: title, unit, target and direction required, values at least 0, weight 1..10 when sent |
| OkrController.OkrInputValid | app/Http/Controllers/Api/OkrController.php:169-186 | the `store` rules, with at least one key result and every key result valid |
| OkrController.KeyResultRow | app/Http/Controllers/Api/OkrController.php:220-230 | current and baseline 0 and weight 1 when unsent; status active; all values >= 0 and the weight in 1..10 |
| OkrController.KeyResultRows | app/Http/Controllers/Api/OkrController.php:219-231 | one row per element, in order, with consecutive ids |
| OkrController.StoredWeightsPositive | app/Http/Controllers/Api/OkrController.php:177-231 | every stored weight is in 1..10 and every created key result is active |
| OkrController.AllActiveKept | app/Http/Controllers/Api/OkrController.php:219-231 | the freshly created key results, all active, all enter the roll-up |
| OkrController.OkrRow | app/Http/Controllers/Api/OkrController.php:207-216 | owned by the given user, status active; objective, category, type and start date from the request; description, end date and project id the sent value or null |
| OkrController.StoreCodeAsWritten | app/Http/Controllers/Api/OkrController.php:166-249 | as written, 201 only when a valid request also sends `description` and `end_date`; 404 exactly for a valid request without a user |
| OkrController.OmittedOptionalKeysFailAsWritten | app/Http/Controllers/Api/OkrController.php:211-215 | a valid request without description and end date is refused with 500 |
| OkrController.OmittedOptionalKeysStoredAsNull | app/Http/Controllers/Api/OkrController.php:207-216 | under the corrected reading that request stores null description and end date |
| OkrController.Store | app/Http/Controllers/Api/OkrController.php:166-249 | a broken rule (at least one key result, weight 1..10, values >= 0) gives 500 and no user 404, both with no row written; otherwise the OKR and its key results are appended in order, all or nothing, 201 |
| OkrController.CreateKeyResults | app/Http/Controllers/Api/OkrController.php:219-231 | the foreach appends one key-result row per validated element, in request order, with consecutive ids; the table stays well-formed |
| OkrController.UpdateKeyResultValue | app/Http/Controllers/Api/OkrController.php:358-391 | a missing or negative value gives 500 and a key result not in that OKR 404, without change; otherwise `updateCurrentValue` (500 when its progress divides by zero) |
| OkrController.PaceOf | app/Http/Controllers/Api/OkrController.php:136-137 | no answer (the division by zero) when an active key result's target equals its non-zero baseline; otherwise no answer exactly when the window is 0 days, the 90-day test without an end date, and with one the test over days-to-end plus days elapsed |
| OkrController.ActivePaces | app/Http/Controllers/Api/OkrController.php:136-137 | one `isOnTrack()` answer per active OKR, in order |
| OkrController.Stats | app/Http/Controllers/Api/OkrController.php:129-161 | no answer exactly when one active OKR's pacing test throws; otherwise total, active and completed as counted, on_track the number of active OKRs on track and at_risk the number not, which add up to active, and active + completed <= total; with defined roll-ups and no end dates it always answers |
| OkrController.StatsFailsOnUndefinedRollUp | app/Http/Controllers/Api/OkrController.php:129-161 | one active OKR with an active key result whose target equals its non-zero baseline makes `stats` answer 500 |
| OkrController.CountCompleted | app/Http/Controllers/Api/OkrController.php:135 | the count is 0 exactly when no OKR is completed and the full length exactly when all are |
| OkrController.ActiveAndCompletedDisjoint | app/Http/Controllers/Api/OkrController.php:134-135 | no OKR is counted both as active and as completed |
| KpiController.KpiInputValid | app/Http/Controllers/Api/KpiController.php:154-167 | the `store` rules: name, category, unit, target, frequency, direction and start date required, an end date after the start |
| KpiController.KpiRow | app/Http/Controllers/Api/KpiController.php:186-200 | name, category, unit, target and start as sent; current and baseline 0 when unsent; all values >= 0; enums as sent, status `active`; description, end date and project as sent and null exactly when unsent; an end date after the start; a project that exists |
| KpiController.StoreCodeAsWritten | app/Http/Controllers/Api/KpiController.php:151-214 | as written, 201 only when a valid request also sends `description` and `end_date` |
| KpiController.OmittedOptionalKeysFailAsWritten | app/Http/Controllers/Api/KpiController.php:190-199 | a valid request without the optional keys is refused with 500 |
| KpiController.OmittedOptionalKeysStoredAsNull | app/Http/Controllers/Api/KpiController.php:186-200 | under the corrected reading that request stores nulls and the default 0 values |
| KpiController.Store | app/Http/Controllers/Api/KpiController.php:151-214 | a broken rule (values >= 0, enums, end after start) gives 500 and no user 404, without change; otherwise one row appended, 201 |
| KpiController.StatusRuleAcceptsExactlyTheEnum | app/Http/Controllers/Api/KpiController.php:270 | the update's status rule accepts exactly the four stored statuses |
| KpiController.PatchFrequency | app/Http/Controllers/Api/KpiController.php:268 | an unsent frequency is kept; a sent one is stored by name |
| KpiController.PatchDirection | app/Http/Controllers/Api/KpiController.php:269 | an unsent direction is kept; a sent one is stored by name |
| KpiController.PatchStatus | app/Http/Controllers/Api/KpiController.php:270 | an unsent status is kept; a sent one is stored by name |
| KpiController.KpiPatchValid | app/Http/Controllers/Api/KpiController.php:260-273 | the `update` rules, `status` one of the four enum values when sent |
| KpiController.PatchStorable | database/migrations/2025_07_20_005755_create_kpis_table.php:23-24 | `current_value` and `baseline_value` are NOT NULL columns, so a patch may not null them |
| KpiController.Patched | app/Http/Controllers/Api/KpiController.php:260-276 | id and owner kept; for each of the thirteen keys: a sent value overwrites the column, a sent null clears a nullable one, an unsent key keeps it; sent values are >= 0; a sent project exists; an end date sent with a start date lies after it |
| KpiController.EndDateAloneSkipsStoredStart | app/Http/Controllers/Api/KpiController.php:272 | an end date sent without a start date is accepted and written even when it is not after the stored start date |
| KpiController.EndDateNotAfterSentStartRejected | app/Http/Controllers/Api/KpiController.php:271-272 | an end date sent on or before the start date sent with it breaks the rules |
| KpiController.EmptyPatchChangesNothing | app/Http/Controllers/Api/KpiController.php:248-290 | a request that sends nothing leaves the row as it was |
| KpiController.Update | app/Http/Controllers/Api/KpiController.php:248-290 | 404 for an unknown id; 500 for a broken rule (the end date compared only with a start date sent in the same request) or a null NOT NULL value, without change; otherwise patched, 200 |
| KpiController.UpdateValue | app/Http/Controllers/Api/KpiController.php:325-355 | a missing or negative value gives 500 and an unknown id 404, without change; otherwise only `current_value` changes |
| KpiController.CountCompleted | app/Http/Controllers/Api/KpiController.php:121 | the count is 0 exactly when no KPI is completed and the full length exactly when all are |
| KpiController.ActiveAndCompletedDisjoint | app/Http/Controllers/Api/KpiController.php:120-121 | no KPI is counted both as active and as completed |
| KpiController.PaceOf | app/Http/Controllers/Api/KpiController.php:122-123 | no answer (the division by zero) when the target equals a non-zero baseline; otherwise no answer exactly when the window is 0 days, the 30-day test without an end date, and with one the test over days-to-end plus days elapsed |
| KpiController.ActivePaces | app/Http/Controllers/Api/KpiController.php:122-123 | one `isOnTrack()` answer per active KPI, in order |
| KpiController.Stats | app/Http/Controllers/Api/KpiController.php:115-146 | no answer exactly when one active KPI's pacing test throws; otherwise total, active and completed as counted, on_track the number of active KPIs on track and at_risk the number not, which add up to active, and active + completed <= total; with defined progress and no end dates it always answers |
| KpiController.StatsFailsOnUndefinedProgress | app/Http/Controllers/Api/KpiController.php:115-146 | one active KPI whose target equals its non-zero baseline makes `stats` answer 500 |
| KpiController.StoredFlatKpiHasNoPace | app/Http/Controllers/Api/KpiController.php:151-199 | `store` accepts a KPI with target 5 and baseline 5, and its pacing test has no answer |

## Left out

- **HTTP.** Responses are reduced to their status codes and the data the model computes. JSON envelopes, messages, logging and eager loading (`load`, `with`) are not modelled, and neither are routes and middleware.
- **Carbon.** `now()`, `diffInDays`, `diffInMinutes` and `diffInHours` enter as parameters, and dates are day numbers. Time zones and calendar arithmetic are not modelled.
- **Epoch end date.** When a KPI update sends `end_date` without `start_date`, Laravel compares the end date's timestamp with null. A timestamp of exactly 0 (midnight of 1 January 1970) would fail that comparison. Dates are day numbers here, so the model lets every such end date pass.
- **Floating point.** PHP floats and `decimal(15,2)` columns are exact reals. Rounding to two decimals on storage and float error are not modelled.
- **Field.** The request value is reduced to absent, null, a value of the right kind, or malformed. Laravel's type coercion ("1" as a number) and the `email` rule's syntax check are folded into "malformed" or left to the caller.
- **SettingsController.SettingsStore.Expire.** The 3600-second cache lifetime is an explicit method the caller invokes. The clock is not modelled.
- **Settings I/O.** The file write, the JSON encoding and the CSV writer are not modelled, and neither are `arrayToXlsx` and `arrayToPdf` beyond their plain `json_encode`. Only the choice of encoding is modelled.
- **Settings statistics.** Backup, disk usage, the system statistics and download are not modelled. They are I/O over the file system.
- **Export data.** The data an export gathers is not modelled, only the format check and the encoding choice.
- **OKR and KPI endpoints.** `index`, `show` and `destroy`, and the general `update` of the OKR controller, are not modelled. They are query-builder listing and plain row updates.
- **Grouped counts.** The `by_type` and `by_status` groupings of the OKR statistics are not modelled, and neither are the `by_category` and `by_status` groupings of the KPI statistics. They are aggregate queries.
- **Project index.** The filtering, search and ordering of `ProjectController::index` is not modelled. Its per-project figures are `ProjectController.Summary`.
- **Transactions.** The OKR `store` is all or nothing, which is what the transaction ensures. Concurrent requests are not modelled.
- **INSERT IGNORE ids.** An ignored `insertOrIgnore` keeps the next id unchanged. MySQL can burn an auto-increment value on an ignored row, which is not modelled.
- **TaskController.UpdateProjectProgress.** Its `catch (\Exception)` (TaskController.php:484-489) cannot fire in the model, because the modelled queries do not throw. Database errors are not modelled.
- **UserController.GetUserPermissions.** The permissions come in the order of the `permissions` table, not of the `role_permissions` rows the query joins from. The response's field selection and the key-by-id mapping are left out.
- **UserController.SetRolePermissions.** An unknown role with a non-empty list answers 500 with no row written. This is the first insert failing on the enum column. The model does not cover a partial write, where MySQL in non-strict mode would store an empty role instead.
- **RolePermissionSeeder.Run.** There is no "rows of other roles are unchanged" property. The table is emptied first, so no rows of other roles exist.
- **UserModel.Unique.** It models `array_unique` as a list of first occurrences. PHP keeps the original array keys, so the result can have gaps in its indices, and JSON then encodes it as an object; the keys are not modelled.
- **UserModel.GetTaskStatsAsWritten.** The accumulated clauses are modelled as a list of status filters on one builder, not as SQL.
- **Stats 500s.** The division by zero in a progress getter is a DivisionByZeroError, which `catch (\Exception $e)` does not catch. Laravel's handler then answers 500 without the JSON body. The model returns `None` for it, the same value as the caught 500.
- **NotificationModel.FormattedTime.** The hour and day differences are whole signed numbers. Carbon 3 returns fractional differences, which PHP would print with decimals, and that is not modelled.
- **ActivityLogModel.FormattedTime.** The minute difference is a whole signed number. Carbon 3's `diffInMinutes` returns a float, so a row whose difference is not whole would print a fractional count such as `5.5 minutes ago`; that label is not modelled. The hour label stays whole, since `floor` is applied first.
- **OkrModel.IsOnTrack and KpiModel.IsOnTrack.** The elapsed and remaining days are parameters, with Carbon's signed differences. That the end can lie in the past is not constrained.
- **Fixture seeders.** The fixture seeders, the file, folder, team, time-entry, custom-event, notification and activity-log controllers, and the commented-out `hasPermission` in the User model are not part of this model.

## Findings

| source | as written | input that shows it | evidently intended | confidence | as-written member | corrected member |
|---|---|---|---|---|---|---|
| app/Http/Controllers/Api/TaskController.php:463-469 | `round()` returns a float, and `$newProgress === 100` / `=== 0` compare it with integers, so both tests are always false; only the "In Progress" branch can change the status | a Planning project whose only task is completed: progress 100, status stays Planning | 100 gives Completed and 0 gives Planning | not executed | TaskController.StatusAfterRecountAsWritten, TaskController.FinishedProjectStaysPlanningAsWritten | TaskController.StatusAfterRecount |
| app/Models/User.php:64-70 | `$tasks = $this->assignedTasks()` is one builder; each `where()` adds to it, so `in_progress` counts rows that are Completed and In Progress at once, and `todo` adds a third clause: both are always 0 | a user whose one assigned task is In Progress: `in_progress` is 0 | each count on a fresh query, so `in_progress` is 1 (and the score's activity bonus can apply) | not executed | UserModel.GetTaskStatsAsWritten, UserModel.InProgressLostAsWritten | UserModel.GetTaskStats |
| app/Http/Controllers/Api/OkrController.php:211-215, app/Http/Controllers/Api/KpiController.php:190-199 | `$validated['description']` and `$validated['end_date']` are read without `?? null`, and `validated()` holds no key the client left out, so a valid request without them raises an ErrorException and answers 500 | an OKR with one key result and no description or end date | unsent keys stored as null, as for `project_id` on the line before | not executed | OkrController.StoreCodeAsWritten, OkrController.OmittedOptionalKeysFailAsWritten, KpiController.StoreCodeAsWritten, KpiController.OmittedOptionalKeysFailAsWritten | OkrController.Store, OkrController.OmittedOptionalKeysStoredAsNull, KpiController.Store, KpiController.OmittedOptionalKeysStoredAsNull |
