# done — task timing core, modelled in Dafny

`done` is a single-user task timer. One task at a time is *active* and its clock runs.
Starting another task, or resuming one, pauses the active task and pushes it onto the
front of a *queue* of paused tasks. Finishing the active task appends a record to the
*completed log*. The store also keeps two short autocomplete histories, one of project
labels and one of category labels. The components around the store read this state:

- an entry form with a running `HH:MM:SS` clock;
- a quick-entry box that suggests earlier task names;
- a stacked task list where a double click completes a block;
- a daily report with totals, an average, a longest-first list and a feedback line;
- a 24-hour heatmap;
- a pie chart of time per task name.

The project models the store and these six components and proves what they promise.

- `game_store.dfy` (module `GameStore`) holds the store. Each action is a pure
  transition on a `StoreState` value (`Pause`, `Start`, `Resume`, `Finish`). Lemmas prove
  that every action keeps the store invariant `Consistent`: no task id appears twice
  among the active task, the queue and the log, and both histories hold at most 20
  distinct entries. They also prove how ids and time move between the three places. The
  class `Store` holds the five fields the source updates in place. Each of its methods
  is proved to leave the fields equal to its transition function applied to the old
  state. `StartNewTask` and `ResumeTask` call `PauseCurrentTask` part-way through, as
  the source does.
- `heatmap.dfy`, `summary_modal.dfy`, `task_controller.dfy`, `task_input.dfy`,
  `category_pie.dfy` and `simple_task_stack.dfy` hold one component each. Helpers shared
  by several components live in `text.dfy` (JavaScript whitespace, `trim`,
  `toLowerCase`, `includes`, number to string, `padStart`), `time_format.dfy` (the
  hour/minute/second split, JavaScript `%` and `Math.round`), `sorting.dfy` (the stable
  descending sort), `completed_log.dfy` (names, distinct names, duration sums) and
  `seqs.dfy`.

Units and number semantics:

- All times are whole milliseconds. Each timestamp is a `now: int` parameter and each
  new task id is an `id` parameter. Every store action reads the clock once.
- The source keeps durations as floating-point seconds, always a difference of
  millisecond timestamps divided by 1000. The model keeps the milliseconds instead.
  Every comparison with a number of seconds then becomes an exact comparison with that
  many thousand milliseconds.
- `Math.floor` of a quotient by a positive constant is Dafny's `/`.
- JavaScript's `%` truncates towards zero. `TimeFormat.JsRem` models it.
- `Math.round(x)` is `floor(x + 1/2)`. `TimeFormat.RoundDiv` models it.
- `Array.prototype.sort` is stable. The model sorts with a stable insertion sort and
  proves it stable.

Four behaviours one might expect of such a store are absent from the code, and the
model follows the code:

- A negative session (the clock went backwards) is not clamped to zero.
- Every project and category value that is not already present is put into its history,
  including the empty string.
- The store has no operation that removes a history entry.
- Finishing a task does not mirror it to a remote service.

## Model

| member | source | states |
|---|---|---|
| `GameStore.Elapsed` | store/gameStore.ts:136-138 | the work on the active task grows by exactly `now - startTime` over its earlier work, and never shrinks when the clock goes forward |
| `GameStore.IndexOfId` | store/gameStore.ts:87 | `queue.find` by id: the first queue entry with that id, or -1 exactly when no entry has it |
| `GameStore.FindQueued` | store/gameStore.ts:87-88 | the task to resume is missing exactly when its id is not queued; a found entry is the first queued task with that id |
| `GameStore.Paused` | store/gameStore.ts:117-124 | the queued copy keeps the task's id, name and labels, adds exactly the session `now - startTime` to its accumulated time and records `lastPausedAt = now` |
| `GameStore.Resumed` | store/gameStore.ts:99-102 | the resumed task keeps the queued entry's id, name, labels and accumulated time, with a new session starting at `now` |
| `GameStore.Completed` | store/gameStore.ts:140-148 | the record keeps the task's id, name, labels and accumulated time, with `completedAt = now` and a total exceeding the accumulated time by exactly the last session |
| `GameStore.RemoveId` | store/gameStore.ts:96 | `filter(t => t.id !== id)`: an entry stays exactly when it was queued and carries another id; a queue without the id is returned unchanged |
| `GameStore.RemoveIdOnce` | store/gameStore.ts:96 | for an id queued once, the filter removes exactly the entry found and keeps the others in order |
| `GameStore.Remember` | store/gameStore.ts:68-74 | the history update: a present value leaves the list unchanged; any other value goes to the front, the old entries follow in order, and the list is cut to 20 |
| `GameStore.RememberKeepsHistoryOk` | store/gameStore.ts:68-74 | a history of at most 20 distinct entries stays so after any update |
| `GameStore.InitialConsistent` | store/gameStore.ts:44-48 | the empty store satisfies the invariant and holds no ids |
| `GameStore.ActiveIsAlone` | store/gameStore.ts:59-60 | under the invariant the active task's id is neither queued nor completed |
| `GameStore.Pause` | store/gameStore.ts:110-130 | `pauseCurrentTask`: a no-op without an active task; otherwise the active task moves to the front of the queue with its session added to its accumulated time and `lastPausedAt = now`, and nothing else changes |
| `GameStore.Start` | store/gameStore.ts:50-81 | `startNewTask`: the old active task is paused; the new task is active with no earlier work from `now`; the log is unchanged; both histories take the update |
| `GameStore.Resume` | store/gameStore.ts:83-108 | `resumeTask`: an id that is not queued changes nothing; otherwise the active task is paused, the found entry becomes active with its accumulated time and a session from `now`, and its id leaves the queue |
| `GameStore.Finish` | store/gameStore.ts:132-154 | `finishCurrentTask`: a no-op without an active task; otherwise exactly one record is appended with the task's fields, `completedAt = now` and total = earlier work + session; the queue and histories are unchanged and nothing is active |
| `GameStore.PauseKeepsConsistent` | store/gameStore.ts:110-130 | pausing keeps the invariant and the in-progress ids in the same order |
| `GameStore.StartKeepsConsistent` | store/gameStore.ts:50-81 | starting with a fresh id keeps the invariant, adds exactly that id to the tasks in progress and leaves the log's ids alone; no unfinished work is lost |
| `GameStore.ResumeKeepsConsistent` | store/gameStore.ts:83-108 | resuming keeps the invariant and the multiset of in-progress ids |
| `GameStore.FinishKeepsConsistent` | store/gameStore.ts:132-154 | finishing keeps the invariant and moves exactly the active id from in progress to the end of the log |
| `GameStore.PauseNeverLosesTime` | store/gameStore.ts:114-122 | pausing with the clock not before the session start never lowers accumulated time |
| `GameStore.SessionsAddUp` | store/gameStore.ts:50-154 | start at t0, pause at t1, resume at t2 and finish at t3 record the task with `accumulatedTime = t1 - t0` and total `(t1 - t0) + (t3 - t2)`, leaving the queue as before and nothing active |
| `GameStore.FinishAgreesWithPause` | store/gameStore.ts:136-138 | the total that finishing records equals the accumulated time a pause at the same moment would keep |
| `GameStore.Store.constructor` | store/gameStore.ts:44-48 | a new store is empty and valid |
| `GameStore.Store.PauseCurrentTask` | store/gameStore.ts:110-130 | the fields become `Pause` of the old state; the invariant is kept |
| `GameStore.Store.StartNewTask` | store/gameStore.ts:50-81 | the fields become `Start` of the old state (pausing in place first); the invariant is kept |
| `GameStore.Store.ResumeTask` | store/gameStore.ts:83-108 | the fields become `Resume` of the old state; the invariant is kept |
| `GameStore.Store.FinishCurrentTask` | store/gameStore.ts:132-154 | the fields become `Finish` of the old state; the invariant is kept |
| `Text.TrimStart` | components/TaskController.tsx:40 | drops exactly the leading JavaScript whitespace |
| `Text.TrimEnd` | components/TaskController.tsx:40 | drops exactly the trailing JavaScript whitespace |
| `Text.Trim` | components/TaskController.tsx:40 | `trim()`: the result is a contiguous part of the input with only whitespace before and after it, and it neither starts nor ends with JavaScript whitespace |
| `Text.TrimEmptyIffBlank` | components/TaskInput.tsx:21 | `!s.trim()` holds exactly when every character of `s` is JavaScript whitespace |
| `Text.LowerChar` | components/TaskInput.tsx:16 | an ASCII capital moves up by 32 to its small letter; any other character is kept |
| `Text.ToLower` | components/TaskInput.tsx:16 | lower-cases letter by letter and keeps the length |
| `Text.Includes` | components/TaskInput.tsx:16 | `includes`: a pattern at the start is found, and a found pattern is no longer than the text |
| `Text.IncludesIffWindow` | components/TaskInput.tsx:16 | `includes` holds exactly when the pattern occurs at some position |
| `Text.NatToString` | components/SummaryModal.tsx:112 | a number prints as at least one decimal digit, one digit exactly below 10, with no leading zero unless the number is 0 |
| `Text.IntToString` | components/SummaryModal.tsx:49 | `toString()`: a non-negative number prints as digits that read back as it; a negative one as `-` followed by the digits of its magnitude; no leading zero except for 0 itself |
| `Text.ParseNatToString` | components/SummaryModal.tsx:112 | printing a number and reading it back gives the number |
| `Text.Pad2` | components/TaskController.tsx:49 | `padStart(2, '0')`: at least two characters, the original at the end, zeros before |
| `Text.PadNatRoundTrip` | components/TaskController.tsx:49 | a padded number still reads back as itself and is exactly two digits below 100 |
| `Seqs.Take` | components/TaskInput.tsx:16 | `slice(0, n)` is the prefix of length `min(n, length)` |
| `Seqs.TakeDistinct` | store/gameStore.ts:71 | cutting a list without repetitions leaves none |
| `Sorting.SortDesc` | components/SummaryModal.tsx:30 | the sort returns a permutation of its input in non-increasing key order |
| `Sorting.SortDescStable` | components/SummaryModal.tsx:30 | the sort is stable: the elements with any given key keep their relative order |
| `Sorting.WithKeyPrefix` | components/Analytics/CategoryPie.tsx:14 | cutting a list to its first elements keeps, for every key, a prefix of the elements with that key |
| `Sorting.TopIsLargest` | components/Analytics/CategoryPie.tsx:12-14 | the first `n` after sorting are sorted, together with the rest make up the input, and none is smaller than any left out |
| `TimeFormat.HoursOf` | components/TaskController.tsx:46 | `Math.floor(seconds / 3600)`: the whole hours, the greatest `h` with `h` hours not past the duration; never negative for a non-negative duration |
| `TimeFormat.MinutesOf` | components/TaskController.tsx:47 | `Math.floor((seconds % 3600) / 60)`: between -60 and 59; for a non-negative duration, non-negative and together with the hours the duration's whole minutes |
| `TimeFormat.SecondsOf` | components/TaskController.tsx:48 | `Math.floor(seconds % 60)`: between -60 and 59; for a non-negative duration, non-negative and together with the whole minutes the duration's whole seconds |
| `TimeFormat.JsRem` | components/TaskController.tsx:47-48 | JavaScript `%`: the remainder is smaller than the divisor and takes the dividend's sign |
| `TimeFormat.Decompose` | components/TaskController.tsx:45-49 | for a non-negative duration, minutes and seconds are below 60 and `h*3600 + m*60 + s` is its whole seconds |
| `TimeFormat.FieldsBounded` | components/TaskController.tsx:46-48 | for any sign, minutes and seconds stay within -60 and 59 |
| `TimeFormat.HoursPositive` | components/SummaryModal.tsx:47-49 | the hour field is positive exactly from one hour on |
| `TimeFormat.HoursAndMinutes` | components/SummaryModal.tsx:19-20 | the hours and minutes of a non-negative duration make its whole minutes, with minutes below 60 |
| `TimeFormat.RoundDiv` | components/SummaryModal.tsx:22 | `Math.round(num / den)`: the result is within one half of the quotient, halves rounding up |
| `TimeFormat.RoundDivNonNegative` | components/SummaryModal.tsx:22 | rounding a non-negative quotient never gives a negative number |
| `CompletedLog.TotalDuration` | components/SummaryModal.tsx:18 | the summed `totalDuration` of the log is not negative when no record is |
| `CompletedLog.DurationFor` | components/Analytics/CategoryPie.tsx:8 | a name's summed duration is not negative when no record is |
| `CompletedLog.Names` | components/TaskInput.tsx:13 | `map(t => t.name)`: one name per record, in order |
| `CompletedLog.DistinctNames` | components/TaskInput.tsx:13 | `new Set(names)` holds exactly the names of the log |
| `CompletedLog.DistinctNamesDistinct` | components/TaskInput.tsx:13 | no name appears twice in it |
| `CompletedLog.DistinctNamesOrder` | components/TaskInput.tsx:13 | names are listed in the order of their first occurrence in the log |
| `CompletedLog.DurationForBounds` | components/Analytics/CategoryPie.tsx:7-10 | with no negative durations, a name's sum lies between 0 and the log's total, and is 0 for a name not in the log |
| `CompletedLog.DurationForAbsent` | components/Analytics/CategoryPie.tsx:8 | a name that is not in the log has a sum of 0 |
| `Heatmap.TaskStart` | components/Analytics/Heatmap.tsx:22-23 | a task is taken to start its duration before it was completed, so not after it when the duration is not negative |
| `Heatmap.HourStart` | components/Analytics/Heatmap.tsx:26-27 | each of the 24 hours starts within the day and ends by the day's end |
| `Heatmap.Overlap` | components/Analytics/Heatmap.tsx:29-35 | the overlap is never negative, is positive exactly when the intervals meet, fits in each interval, and is the whole task when it lies inside the hour |
| `Heatmap.OverlapSplit` | components/Analytics/Heatmap.tsx:29-35 | cutting the hour window in two cuts the overlap into two parts that add up to it |
| `Heatmap.Contribution` | components/Analytics/Heatmap.tsx:22-35 | one task adds between 0 and one hour to an hour, and adds time only when it meets that hour |
| `Heatmap.HourTotal` | components/Analytics/Heatmap.tsx:15-36 | an hour's total lies between 0 and the number of tasks times one hour |
| `Heatmap.Intensity` | components/Analytics/Heatmap.tsx:38-43 | the level is 0 exactly for no time, 1 exactly below one minute, 2 exactly from one to below ten minutes, 3 exactly from ten to below thirty minutes, and 4 exactly from thirty minutes on |
| `Heatmap.IntensityMonotone` | components/Analytics/Heatmap.tsx:38-43 | more time never gives a lower level |
| `Heatmap.GetIntensity` | components/Analytics/Heatmap.tsx:9-44 | the `forEach` loop's level equals the level of the hour's total |
| `Heatmap.HourTotalPermutation` | components/Analytics/Heatmap.tsx:17-36 | the hour's total does not depend on the order of the log |
| `Heatmap.HourTotalAtLeast` | components/Analytics/Heatmap.tsx:17-36 | every task's share of an hour counts towards its total |
| `Heatmap.CoveredHourIsDeep` | components/Analytics/Heatmap.tsx:17-43 | an hour some task covered from start to end shows level 4 |
| `Heatmap.SpreadIsOverlap` | components/Analytics/Heatmap.tsx:25-35 | over the first `n` hour cells a task adds exactly its overlap with those hours together, with nothing counted twice or lost |
| `Heatmap.DayAccountsForTask` | components/Analytics/Heatmap.tsx:7-35 | a task that ran inside the day adds exactly its duration over the 24 cells |
| `Heatmap.Colors` | components/Analytics/Heatmap.tsx:46-55 | `getColors`: the grey class exactly outside levels 1 to 4 |
| `Heatmap.ColorsTellLevelsApart` | components/Analytics/Heatmap.tsx:46-55 | levels 0 to 4 get five different colour classes; any other value gets level 0's |
| `SummaryModal.AvgDuration` | components/SummaryModal.tsx:21-23 | 0 for an empty log; otherwise the mean total in minutes rounded to the nearest whole minute |
| `SummaryModal.AvgDurationNonNegative` | components/SummaryModal.tsx:21-23 | with no negative durations the average is not negative |
| `SummaryModal.TotalReading` | components/SummaryModal.tsx:18-20 | the shown hours and minutes of the total are its whole minutes, with minutes below 60 |
| `SummaryModal.SortedTasks` | components/SummaryModal.tsx:30 | the report's list holds the same tasks, longest first |
| `SummaryModal.GenerateFeedback` | components/SummaryModal.tsx:33-44 | exactly one message, in priority order: none completed; total above four hours (with its hours and minutes); at least five tasks (with the count); otherwise good pace |
| `SummaryModal.DeepWorkNamesHours` | components/SummaryModal.tsx:37-38 | the deep-work message names at least four hours and minutes below 60 |
| `SummaryModal.FormatDuration` | components/SummaryModal.tsx:46-51 | the label always ends in `m` |
| `SummaryModal.FormatDurationReadsBack` | components/SummaryModal.tsx:46-51 | for a non-negative duration the label reads back as its hours and its minutes below 60, which make up its whole minutes |
| `SummaryModal.FormatDurationShowsHours` | components/SummaryModal.tsx:46-51 | the label has an hour part exactly for durations of one hour or more |
| `SummaryModal.PendingLabel` | components/SummaryModal.tsx:112 | the pending count label is never empty |
| `SummaryModal.PendingLabelReadsBack` | components/SummaryModal.tsx:112 | the label reads back as the queue length, followed by exactly `+1` when a task is active and by nothing otherwise (no `+` at all) |
| `SummaryModal.PendingCountsInProgress` | components/SummaryModal.tsx:112 | the queue length plus one for an active task is the number of tasks in progress |
| `TaskController.OrDefault` | components/TaskController.tsx:41 | `value \|\| fallback` keeps a non-empty value and gives the fallback exactly for the empty string |
| `TaskController.HandleStart` | components/TaskController.tsx:39-43 | a blank name starts nothing and keeps the input; any other name starts with `GENERAL`/`MISC` for empty labels, even while a task is active, and clears the name |
| `TaskController.DisplayedElapsed` | components/TaskController.tsx:22-37 | the clock shows 0 without an active task, otherwise the earlier work plus `now - startTime` |
| `TaskController.DisplayedIsRecorded` | components/TaskController.tsx:28-31 | the clock shows exactly the total that finishing at that moment would record |
| `TaskController.FormatTime` | components/TaskController.tsx:45-50 | the clock string has at least eight characters |
| `TaskController.FormatTimeReadsBack` | components/TaskController.tsx:45-50 | for a non-negative duration the string reads back as hours, minutes below 60 and seconds below 60 that make up its whole seconds |
| `TaskInput.IsSuggestion` | components/TaskInput.tsx:16 | a history name is suggested exactly when it differs from the input and its lower-cased form contains the lower-cased input at some position; a suggestion is at least as long as the input |
| `TaskInput.Matching` | components/TaskInput.tsx:16 | the filter keeps exactly the history entries that contain the input ignoring case and differ from it, in history order |
| `TaskInput.Suggestions` | components/TaskInput.tsx:15-17 | none for an empty input; otherwise exactly the first five matches in history order (all of them when there are fewer) |
| `TaskInput.NoExactEcho` | components/TaskInput.tsx:16 | the input itself is never suggested |
| `TaskInput.SuggestionsFromLog` | components/TaskInput.tsx:13-16 | suggestions are names of completed tasks, each offered once |
| `TaskInput.HandleSubmit` | components/TaskInput.tsx:19-25 | a blank input starts nothing and stays; any other input starts as typed with empty labels and clears the box |
| `TaskInput.HandleSelect` | components/TaskInput.tsx:27-31 | the chosen suggestion starts with empty labels and the box clears |
| `CategoryPie.EntriesFor` | components/Analytics/CategoryPie.tsx:8 | each entry carries its name's summed duration |
| `CategoryPie.Aggregation` | components/Analytics/CategoryPie.tsx:7-12 | no more entries than records; each entry is a name of the log carrying that name's summed duration |
| `CategoryPie.Aggregate` | components/Analytics/CategoryPie.tsx:7-12 | the mutating `reduce` and `Object.entries` yield one entry per distinct name, in first-completion order, with the name's summed duration |
| `CategoryPie.AggregationAddsUp` | components/Analytics/CategoryPie.tsx:7-10 | the entries add up to the log's total time |
| `CategoryPie.AggregationEntries` | components/Analytics/CategoryPie.tsx:7-12 | every entry is a name of the log with its sum, every name has its entry, no name twice, and no negative value when no duration is negative |
| `CategoryPie.Top` | components/Analytics/CategoryPie.tsx:12-14 | at most five entries, taken from the aggregation, largest first, none smaller than any left out |
| `CategoryPie.TopKeepsEarliestTies` | components/Analytics/CategoryPie.tsx:12-14 | among entries with equal time the stable sort and `slice(0, 5)` keep the earliest in aggregation order: for every value the kept entries are a prefix of the entries with that value |
| `CategoryPie.ShareAdd` | components/Analytics/CategoryPie.tsx:23-26 | adding the shares of two values gives the share of their sum |
| `CategoryPie.SliceAt` | components/Analytics/CategoryPie.tsx:21-30 | a slice keeps its entry's name and value, spans exactly its share `value / total`, and sets the large-arc flag exactly for a share above one half |
| `CategoryPie.SumValues` | components/Analytics/CategoryPie.tsx:16 | the `reduce` total of the top entries is never negative when no value is |
| `CategoryPie.Share` | components/Analytics/CategoryPie.tsx:23 | `value / total`: the share times the total gives back the value |
| `CategoryPie.Slices` | components/Analytics/CategoryPie.tsx:20-41 | one slice per entry, in order, each starting where the previous one ended |
| `CategoryPie.ChartOf` | components/Analytics/CategoryPie.tsx:16-41 | a drawn pie has between one and five slices |
| `CategoryPie.BuildSlices` | components/Analytics/CategoryPie.tsx:21-41 | the loop with its running `cumulativePercent` builds exactly the slice list: each share is value / total, and each slice starts and ends at the running sum of shares |
| `CategoryPie.Render` | components/Analytics/CategoryPie.tsx:5-41 | the component draws `NO DATA YET` when the top five total 0, otherwise their slices |
| `CategoryPie.SlicesTileCircle` | components/Analytics/CategoryPie.tsx:21-30 | with no negative values each share is within 0 to 1, each slice starts where the previous ended, from 0 to 1, and at most one slice sets the large-arc flag |
| `CategoryPie.NoDataExactlyWhenNoTime` | components/Analytics/CategoryPie.tsx:16-18 | with no negative durations, `NO DATA YET` shows exactly when the log has no time at all |
| `CategoryPie.PercentLabel` | components/Analytics/CategoryPie.tsx:67 | `Math.round(percent * 100)`: for any non-zero total of either sign, the whole percentage nearest to `value / total`, halves rounding up |
| `CategoryPie.PercentLabelBounds` | components/Analytics/CategoryPie.tsx:67 | the rounded percentage of a share is between 0 and 100 |
| `SimpleTaskStack.DoubleClick` | components/SimpleTaskStack.tsx:34-44 | double-clicking the active block finishes it; the histories never change |
| `SimpleTaskStack.DoubleClickQueued` | components/SimpleTaskStack.tsx:38-43 | double-clicking a queued block completes that task with total = its earlier work + (finish − resume); the old active task heads the queue; nothing is active; the invariant holds and no other in-progress id is lost |
| `SimpleTaskStack.DoubleClickStale` | components/SimpleTaskStack.tsx:38-43 | an id no longer queued finishes whatever is active, and changes nothing when nothing is |
| `SimpleTaskStack.HandleSubmit` | components/SimpleTaskStack.tsx:25-32 | a blank input starts nothing; any other input starts under `General`/`Task` and clears the input |
| `SimpleTaskStack.HandleDoubleClick` | components/SimpleTaskStack.tsx:34-44 | the store's fields become `DoubleClick` of the old state; the invariant is kept |

## Left out

- Persistence (zustand `persist` to `localStorage` under a versioned key) is left out. The store is modelled as it lives in memory.
- The clock (`Date.now()`, `new Date()`) and `crypto.randomUUID()` are parameters: `now`, `startOfDay` and a fresh `id`. The id is required not to be in use, as a UUID is trusted to be.
- GameStore.Store.StartNewTask: uses one `now` for the pause and for the new task's start. The source reads the clock twice, so the two can differ by a few milliseconds. The same holds for `ResumeTask`.
- GameStore.Resume: the spread `{...taskToResume}` also copies `lastPausedAt` into the active task. The model drops that field, because nothing reads it there.
- Floating-point rounding of second values is not modelled. Durations are exact millisecond integers, and the report's shares are exact reals.
- Text.ToLower: lower-cases ASCII letters only, where `toLowerCase` covers all of Unicode.
- Text.LowerChar: maps only `A`–`Z`. Capitals outside ASCII (`É`, `Ω`, full-width letters), which `toLowerCase` maps to small letters, are kept unchanged, so a suggestion that differs from the input only in such a letter's case is not found.
- CategoryPie.Aggregate: sums every name as a fresh key on a clean map. The source's `acc` is a plain `{}` object, and three cases differ from that:
  - `Object.entries` lists integer-like keys (a task named `"42"`) first, in numeric order, where the model keeps insertion order.
  - A name inherited from `Object.prototype` (`"constructor"`, `"toString"`, `"valueOf"`, `"hasOwnProperty"` and the rest) reads back as a function. Adding to it gives a string, so the source's `total` and the shares become strings or `NaN`, and a label reads `NaN%`. The model gives such a name its plain numeric sum.
  - The special key `__proto__` is not modelled either.
- The SVG geometry of the pie is not modelled: `getCoordinatesForPercent`, the path strings, and the alternating slice colours. The model keeps the start and end shares that feed the geometry.
- SummaryModal.GenerateFeedback: says which message is shown and the numbers in it. The Japanese wording is not modelled. Neither are the date line and the session id, which come from the clock.
- React wiring is left out: component state for dropdown and suggestion visibility, the 100 ms refresh interval, focus and blur timers, and rendering.
- SimpleTaskStack.DoubleClick: the two store actions of a double click on a queued block get their own times, `resumeAt` and `finishAt`. The source awaits nothing between them.
- The other components and pages are not part of this model: the timer display, the task queue view, the physics stack, the wave grid, the boot sequence, the polaroid card, authentication, routing and the legal pages.
- Behaviour that the code does not have is not modelled: removing a history entry, a remote mirror of finished tasks, clamping negative sessions, skipping empty history values, and moving a reused value to the front of its history.
