# Habit tracker: completion toggle, streaks and summary figures

A Dafny model of the logic of a small React habit tracker. The page holds an
ordered list of habits, each with a list of completion dates and two stored
streak numbers. The model covers:

- the page's four list operations (`addHabit`, `updateHabit`, `deleteHabit`,
  `toggleHabitCompletion`), with the toggle's copy, `indexOf`, `splice`/`push`,
  in-place `sort()` and the two streak loops;
- the overview panel's figures (completed today, average streak, completion
  percentage, nothing shown for an empty list);
- the add-habit form (blank-name check, hand-over of the untrimmed draft,
  reset to defaults, field edits, the weekly-target options);
- the habit card (today button, seven-day calendar, per-habit completion rate,
  two-click delete).

Dates are day numbers (`Day = int`, consecutive calendar days differ by one);
`YYYY-MM-DD` strings sort lexicographically in date order, so `sort()` becomes
ascending order on integers. "Today", the current time, new ids and creation
timestamps are parameters.

Files:

- `habit.dfy`: the `Habit` record, the form's `Draft`, partial updates.
- `sorting.dfy`: the reference insertion sort, and the in-place array sort that
  stands for `completedDates.sort()`, proved equal to it.
- `completion.dfy`: `indexOf` and the toggle of one date.
- `streaks.dfy`: the current and longest streak, as functions and as the
  loops of the toggle.
- `store.dfy`: the habit list as a class with a `seq<Habit>` field.
- `rounding.dfy`: `Math.round(a / b)` and `Math.ceil(n / d)` on integers.
- `stats.dfy`: the overview panel.
- `add_habit_form.dfy`: the add-habit form as a class.
- `habit_card.dfy`: the habit card; the delete confirmation is a class.
- `scenarios.dfy`: concrete histories and click sequences.

What the code does, and where it differs from the usual reading of its names:

- **The stored `longestStreak` is the number of completion entries.** The loop
  at `src/pages/Index.tsx:101-104` never resets `tempStreak`, so it counts the
  entries; it does not find the longest run of consecutive days.
  `Streaks.LongestStreakIsCount` proves this for every list.
  `Scenarios.TwoRuns` is an example: a 5-day run long ago plus a 3-day run ending
  today gives 8, not 5. The model follows the code.
- **The current streak stops at 30.** The backward walk looks at most 29 days
  before today, so a longer unbroken run still shows 30
  (`Streaks.StreakCapped`, `Scenarios.FortyDaysWithGap`).
- **The overview's completion rate can show 100 when not every habit is done.**
  Rounding gives 100 exactly when at least 99.5% are completed today
  (`Stats.CompletionRateFull`). With 200 habits and 199 done it shows 100
  (`Stats.FullWithOneMissing`). Below 200 habits, 100 does mean all are done
  (`Stats.FullIsAllCompleted`).
- **The card's completion rate can exceed 100.** The rate divides the number
  of entries by the days since creation, and the calendar can mark days before
  the habit was created. Seven calendar clicks on a habit created today give
  700 (`HabitCard.CompletionRateAboveHundred`).
- **`addHabit` does not check the name.** Only the form rejects blank names
  (`AddHabitForm.Form.Submit`), and it hands over the name untrimmed.
- **Ids are not checked for uniqueness.** Update, delete and toggle act on every
  habit with the given id.

## Model

| member | source | states |
|---|---|---|
| Sorting.SortSpec | src/pages/Index.tsx:78 | the reference sort returns an ascending permutation of its input, of the same length |
| Sorting.Insert | src/pages/Index.tsx:78 | defines one insertion step of the reference sort: `x` goes before the first element not smaller than it; `InsertSpec` proves it keeps a sorted list sorted and adds exactly one `x` |
| Sorting.Sort | src/pages/Index.tsx:78 | defines the reference sort as repeated insertion; `SortSpec` proves the result is an ascending permutation and `SortedUnique` that it is the only one |
| Sorting.SortedUnique | src/pages/Index.tsx:78 | two ascending sequences with the same multiset are equal, so the sorted order of the dates is unique |
| Sorting.SortOfSorted | src/pages/Index.tsx:78 | sorting an already ascending list returns it unchanged |
| Sorting.SortInPlace | src/pages/Index.tsx:78 | `completedDates.sort()` leaves the array holding exactly the reference sort of its old contents |
| Sorting.SinkLast | src/pages/Index.tsx:78 | one insertion step extends the ascending prefix by one element and keeps the array's multiset |
| Sorting.SwapAdjacent | src/pages/Index.tsx:78 | one exchange swaps two neighbours, keeps every other element and keeps the multiset |
| Sorting.NoDuplicatesMultiplicity | src/pages/Index.tsx:74 | in a duplicate-free list every value occurs at most once |
| Sorting.MultiplicityNoDuplicates | src/pages/Index.tsx:74 | a list in which every value occurs at most once has no duplicates |
| Completion.IndexOf | src/pages/Index.tsx:67 | `indexOf` returns -1 or a valid index |
| Completion.IndexOfSpec | src/pages/Index.tsx:67 | `indexOf` is -1 exactly when the date is absent; otherwise it is the first index holding the date |
| Completion.Toggled | src/pages/Index.tsx:67-75 | defines the copied list after `splice` of the first occurrence or `push` of an absent date; `ToggledSpec` proves one copy is removed or added |
| Completion.ToggledDates | src/pages/Index.tsx:66-78 | defines the stored list: the toggled list sorted; `ToggledDatesContents`, `ToggledDatesMembership`, `ToggledDatesNoDuplicates` and `ToggleTwice` carry its properties |
| Completion.ToggledSpec | src/pages/Index.tsx:66-75 | `splice` removes one copy of a present date and `push` adds one copy of an absent one; the length changes by one |
| Completion.ToggledDatesContents | src/pages/Index.tsx:66-78 | the stored list is ascending and holds the old entries with one copy of the date removed or added, and its length changes by exactly one |
| Completion.ToggledDatesMembership | src/pages/Index.tsx:66-78 | every other date keeps its membership; on a duplicate-free list the toggled date is present afterwards iff it was absent before |
| Completion.ToggledDatesNoDuplicates | src/pages/Index.tsx:69-78 | a duplicate-free list stays duplicate-free, since `push` happens only when `indexOf` is -1 |
| Completion.ToggleTwice | src/pages/Index.tsx:66-78 | toggling the same date twice on a duplicate-free list gives the sorted original list |
| Completion.ToggleLaterDate | src/pages/Index.tsx:74-78 | toggling a date later than every entry of an ascending list appends it at the end |
| Streaks.Max | src/pages/Index.tsx:103 | `Math.max` is at least both arguments and equals one of them |
| Streaks.RunBack | src/pages/Index.tsx:88-97 | the backward walk from day `today - i` counts at most the days left before the bound of 30 |
| Streaks.RunBackSpec | src/pages/Index.tsx:88-97 | every day the walk counts is completed, and the walk stops at a missing day or at the bound |
| Streaks.CurrentStreak | src/pages/Index.tsx:85-98 | the current streak is at most 30, and it is 0 exactly when today is not completed |
| Streaks.CurrentStreakSpec | src/pages/Index.tsx:85-98 | the current streak counts a run of completed days ending today, stopped by the first missing day or by the bound of 30 |
| Streaks.LongestStreak | src/pages/Index.tsx:101-110 | the stored longest streak is at least the current streak and at least the number of entries |
| Streaks.RunFitsInList | src/pages/Index.tsx:85-104 | `c` consecutive completed days ending today need at least `c` entries in the list |
| Streaks.LongestStreakIsCount | src/pages/Index.tsx:101-110 | as written, the stored longest streak always equals the number of entries |
| Streaks.StreakOfRun | src/pages/Index.tsx:85-98 | a run of `n` < 30 completed days ending today, with the day before it missing, gives a current streak of exactly `n` |
| Streaks.StreakCapped | src/pages/Index.tsx:88 | thirty or more completed days ending today give a current streak of exactly 30 |
| Streaks.ComputeStreaks | src/pages/Index.tsx:79-110 | the two loops and the final `Math.max` compute exactly the current and longest streak |
| HabitModel.Merge | src/pages/Index.tsx:55 | defines the merge of a partial update: each field the patch carries replaces the habit's own, the rest stay; `Store.UpdatedEmptyPatch` and `Store.UpdatedIdempotent` use it |
| Store.NewHabit | src/pages/Index.tsx:41-48 | defines the record built from a draft: the draft's five fields, the given id and creation time, no dates, both streaks 0; `Store.HabitStore.AddHabit` appends it |
| Store.ToggledHabit | src/pages/Index.tsx:66-111 | defines the habit after a toggle: toggled sorted dates and both streaks recomputed from them, other fields kept; `ToggledHabitStreaks` and `ToggledHabitTwice` carry its properties |
| Store.ToggleIfMatch | src/pages/Index.tsx:64-113 | defines the toggle's `map` callback: a habit with the id becomes `ToggledHabit`, any other is returned as is |
| Store.ToggleAll | src/pages/Index.tsx:64-114 | defines the whole list after a toggle; `ToggleAllSpec` proves it keeps length and positions and applies `ToggleIfMatch` to each habit |
| Store.Updated | src/pages/Index.tsx:53-57 | the `map` keeps the length; each habit with the id becomes the merge of the habit and the patch, every other habit is unchanged |
| Store.UpdatedIdempotent | src/pages/Index.tsx:53-57 | applying the same patch twice equals applying it once, for every patch, including one that renames the id |
| Store.UpdatedEmptyPatch | src/pages/Index.tsx:53-57 | an empty patch changes nothing |
| Store.Deleted | src/pages/Index.tsx:59-61 | the `filter` never lengthens the list |
| Store.DeletedMembers | src/pages/Index.tsx:59-61 | a habit survives a delete iff it was present and its id differs; with no match the list is unchanged |
| Store.DeletedConcat | src/pages/Index.tsx:60 | the filter distributes over concatenation, so the survivors keep their order |
| Store.AddThenDelete | src/pages/Index.tsx:40-61 | deleting a just-added habit under a fresh id restores the list |
| Store.ToggledHabitStreaks | src/pages/Index.tsx:66-111 | after a toggle, 0 <= current <= longest, current <= 30, longest equals the number of entries, and the dates are ascending; a duplicate-free list stays duplicate-free |
| Store.ToggledHabitTwice | src/pages/Index.tsx:66-111 | toggling one date twice on a duplicate-free habit gives its sorted dates with streaks recomputed from them; every other field is kept |
| Store.ToggleCompletion | src/pages/Index.tsx:65-111 | the map callback for the matching habit (copy, `indexOf`, `splice` or `push`, in-place sort, streak loops) returns exactly the toggled habit |
| Store.ToggleAllSpec | src/pages/Index.tsx:63-115 | the toggle's `map` keeps the length and position of every habit, toggling exactly those with the id |
| Store.ToggleAllNoMatch | src/pages/Index.tsx:63-115 | a toggle for an id no habit has leaves the list unchanged |
| Store.ToggleEach | src/pages/Index.tsx:64-114 | the element-by-element `map` equals the value-level toggle of the whole list |
| Store.ToggleEachKeepsOrder | src/pages/Index.tsx:63-115 | if every habit had 0 <= current <= longest before a toggle, every habit still does after it |
| Store.HabitStore.constructor | src/pages/Index.tsx:24 | the page starts with no habits |
| Store.HabitStore.AddHabit | src/pages/Index.tsx:40-51 | appends one habit at the end, with the draft's fields, the given id and timestamp, no dates and zero streaks; earlier habits are unchanged, and ordered streaks stay ordered |
| Store.HabitStore.UpdateHabit | src/pages/Index.tsx:53-57 | the list becomes its patched version; an unknown id changes nothing |
| Store.HabitStore.DeleteHabit | src/pages/Index.tsx:59-61 | the list becomes its filtered version; exactly the habits without the id remain, and ordered streaks stay ordered |
| Store.HabitStore.ToggleHabitCompletion | src/pages/Index.tsx:63-115 | length kept; each habit with the id is toggled where it stands and every other habit is unchanged; an unknown id changes nothing; ordered streaks stay ordered |
| Rounding.RoundDiv | src/components/StatsOverview.tsx:20 | `Math.round(a / b)` is the integer within half a unit of a / b, halves rounding up |
| Rounding.RoundDivUnique | src/components/StatsOverview.tsx:24 | that integer is the only one within half a unit of a / b |
| Rounding.RoundDivBounds | src/components/StatsOverview.tsx:23-25 | a ratio between 0 and `m` rounds to a value between 0 and `m` |
| Rounding.CeilDiv | src/components/HabitCard.tsx:26 | `Math.ceil(n / d)` is the least integer not below n / d |
| Stats.CompletedToday | src/components/StatsOverview.tsx:14-17 | the count of habits completed today lies between 0 and the number of habits |
| Stats.CompletedTodayAll | src/components/StatsOverview.tsx:15-17 | the count equals the number of habits iff every habit has today among its dates |
| Stats.CompletedTodayNone | src/components/StatsOverview.tsx:15-17 | the count is 0 iff no habit has today among its dates |
| Stats.StreakSum | src/components/StatsOverview.tsx:20 | defines the sum of the current streaks; `StreakSumBounds` bounds it and `AverageStreak` rounds it over the count |
| Stats.StreakSumBounds | src/components/StatsOverview.tsx:20 | current streaks in 0..m add up to between 0 and m times the number of habits |
| Stats.AverageStreak | src/components/StatsOverview.tsx:19-21 | 0 for no habits; otherwise within half a unit of the mean current streak, halves rounding up |
| Stats.AverageStreakBounds | src/components/StatsOverview.tsx:19-21 | when every current streak lies in 0..m, so does the average |
| Stats.CompletionRate | src/components/StatsOverview.tsx:23-25 | lies in 0..100; 0 for no habits; otherwise within half a unit of 100 × completed / total |
| Stats.CompletionRateFull | src/components/StatsOverview.tsx:23-25 | the rate is 100 iff there are habits and at least 99.5% of them are completed today |
| Stats.AllCompletedIsFull | src/components/StatsOverview.tsx:15-25 | every habit completed today gives 100 |
| Stats.FullIsAllCompleted | src/components/StatsOverview.tsx:15-25 | with fewer than 200 habits, 100 means every habit is completed today |
| Stats.FullWithOneMissing | src/components/StatsOverview.tsx:15-25 | 200 habits with 199 completed still show 100, although one habit is not completed |
| Stats.OverviewOf | src/components/StatsOverview.tsx:11-27 | the panel shows nothing exactly when there are no habits; otherwise completed <= total == number of habits and the rate lies in 0..100 |
| AddHabitForm.FrequencyOptionsAreOneToSeven | src/components/AddHabitDialog.tsx:150-156 | the weekly-target options are exactly 1..7 in ascending order, and the default 7 is one of them |
| AddHabitForm.IsWhitespace | src/components/AddHabitDialog.tsx:58 | defines the characters `trim()` removes: the ECMAScript white space and line terminators |
| AddHabitForm.Trim | src/components/AddHabitDialog.tsx:58 | defines `trim()` as dropping leading then trailing white space; `TrimStart` and `TrimEnd` state what each half drops and keeps |
| AddHabitForm.IsBlank | src/components/AddHabitDialog.tsx:58 | defines the submit guard: nothing is left after trimming; `BlankIffAllWhitespace` proves it holds iff every character is white space |
| AddHabitForm.TrimStart | src/components/AddHabitDialog.tsx:58 | leading white space is dropped: what is dropped is all white space, and what remains is a suffix that does not start with white space |
| AddHabitForm.TrimEnd | src/components/AddHabitDialog.tsx:58 | trailing white space is dropped: what is dropped is all white space, and what remains is a prefix that does not end with white space |
| AddHabitForm.BlankIffAllWhitespace | src/components/AddHabitDialog.tsx:58 | a name is blank after `trim()` iff every character is white space |
| AddHabitForm.Applied | src/components/AddHabitDialog.tsx:70-72 | a field edit sets the named field to the value and keeps the other four |
| AddHabitForm.AppliedLastWins | src/components/AddHabitDialog.tsx:70-72 | two edits of the same field leave the second value |
| AddHabitForm.SubmitDependsOnlyOnName | src/components/AddHabitDialog.tsx:58-72 | editing a field other than the name does not change whether a submit is accepted |
| AddHabitForm.Form.constructor | src/components/AddHabitDialog.tsx:48-54 | the form starts with name, description and category empty, the first palette colour and target 7 |
| AddHabitForm.Form.Submit | src/components/AddHabitDialog.tsx:56-68 | a blank name hands nothing over and leaves the form as it was; otherwise the current form, name untrimmed, is handed over once and the form returns to the defaults |
| AddHabitForm.Form.HandleInputChange | src/components/AddHabitDialog.tsx:70-72 | the form becomes the old form with the one field edited |
| HabitCard.Last7Days | src/components/HabitCard.tsx:30-38 | seven days, the k-th being today - 6 + k |
| HabitCard.GetLast7Days | src/components/HabitCard.tsx:30-38 | the counting loop pushes exactly today - 6, ..., today |
| HabitCard.Last7DaysEndsToday | src/components/HabitCard.tsx:30-40 | the window is consecutive days ascending by one, exactly today - 6 .. today; its last cell is today and shows the same state as the today button |
| HabitCard.IsCompletedToday | src/components/HabitCard.tsx:24 | defines the today button's done state: today is among the dates; `Scenarios.TodayButtonFlips` proves a toggle of today flips it |
| HabitCard.IsCellCompleted | src/components/HabitCard.tsx:105 | defines a calendar cell's done state: its day is among the dates; `Last7DaysEndsToday` proves the last cell agrees with the today button |
| HabitCard.DaysSinceCreation | src/components/HabitCard.tsx:26 | the denominator is at least 1; it is 1 exactly when at most one day has elapsed, and otherwise the ceiling of the elapsed time in whole days |
| HabitCard.CompletionRate | src/components/HabitCard.tsx:25-27 | 0 for no entries; never negative; otherwise within half a unit of 100 × entries / days since creation |
| HabitCard.CompletionRateAtMost100 | src/components/HabitCard.tsx:25-27 | no more entries than days since creation keeps the rate in 0..100 |
| HabitCard.CompletionRateAboveHundred | src/components/HabitCard.tsx:25-27 | seven entries on a habit created within the last day give 700 |
| HabitCard.Card.constructor | src/components/HabitCard.tsx:22 | a new card is not armed for delete |
| HabitCard.Card.HandleDelete | src/components/HabitCard.tsx:42-49 | an armed card requests the delete of its habit's id; an unarmed card arms itself and requests nothing |
| HabitCard.Card.Disarm | src/components/HabitCard.tsx:47 | the timer callback disarms the card |
| HabitCard.Card.ToggleToday | src/components/HabitCard.tsx:90 | the today button toggles today on this card's habit |
| HabitCard.Card.ToggleCell | src/components/HabitCard.tsx:104-118 | calendar cell k toggles day today - 6 + k, inside the window, on this card's habit |
| Scenarios.FiveDayRun | src/pages/Index.tsx:85-110 | five consecutive days ending today give current 5 and longest 5 |
| Scenarios.TwoRuns | src/pages/Index.tsx:85-110 | a 5-day run long ago and a 3-day run ending today give current 3 and a stored longest of 8 |
| Scenarios.FortyDaysWithGap | src/pages/Index.tsx:85-110 | forty days ending today, with the day 31 days back missing, give current 30 and a stored longest of 39 |
| Scenarios.NewHabitToggledTwice | src/pages/Index.tsx:40-111 | a new habit with today toggled twice has no dates and both streaks 0 |
| Scenarios.TwoDaysDates | src/pages/Index.tsx:66-78 | toggling two earlier days in order on an empty list gives them in ascending order |
| Scenarios.ThreeDaysDates | src/pages/Index.tsx:66-78 | toggling the three days ending today, oldest first, gives them in ascending order |
| Scenarios.ThreeDaysStreaks | src/pages/Index.tsx:85-110 | the three days ending today give current 3 and longest 3 |
| Scenarios.NewHabitThreeDays | src/pages/Index.tsx:40-111 | a new habit toggled on each of the three days ending today has those dates and both streaks 3 |
| Scenarios.CreateThenToggleTodayTwice | src/pages/Index.tsx:40-115 | through the store: add a habit and toggle today twice; the habit has no dates and zero streaks |
| Scenarios.TodayButtonFlips | src/components/HabitCard.tsx:85-98 | on a duplicate-free habit the today button flips the done state; every other day keeps its state |
| Scenarios.DeleteTakesTwoClicks | src/components/HabitCard.tsx:42-49 | on a fresh card the first delete click requests nothing and the second requests the delete |
| Scenarios.DisarmedBetweenClicks | src/components/HabitCard.tsx:42-49 | when the timer disarms the card between clicks, neither click requests a delete |

## Left out

- Loading from and saving to `localStorage`, with `JSON.parse`/`JSON.stringify` (`src/pages/Index.tsx:28-38`): browser storage I/O.
- The clock and calendar (`new Date()`, `setDate`, `toISOString().split('T')`). Dates are day numbers and "today" and "now" are parameters. The original mixes local-time `setDate` with UTC formatting, so near midnight or across a daylight-saving change its "yesterday" can differ from day number minus one. The model does not capture that.
- Id and timestamp generation (`Date.now().toString()`, `new Date().toISOString()`): the id and the creation time are parameters of `Store.HabitStore.AddHabit`. `createdAt` is held as a millisecond number rather than an ISO string.
- The three-second `setTimeout` that disarms the delete confirmation: it is the explicit `HabitCard.Card.Disarm` event, with no timing.
- `handleInputChange` with arbitrary field names or values of the wrong type: the model has one edit per form field, each with the field's own type. `parseInt` of the select's value is taken as already done.
- The lists of categories and colours, the dialog's open/close wiring, all JSX, CSS classes and icons.
- Stats.CompletionRate: computed on exact rationals. JavaScript computes `(completed / total) * 100` in binary floating point, and at an exact half that product can land just below the half and round down (23 of 40 habits gives 57.49999999999999 and so 57, where the model gives 58).
- HabitCard.CompletionRate: computed on exact rationals, with the same floating-point caveat as the overview's rate at exact halves.
- HabitModel.Merge: a patch carries only values of each field's declared type; a key present with the value `undefined`, which the object spread copies over the habit's field, is not expressible.
- Sorting.SortInPlace: models `sort()` as an insertion sort on integers; the engine's actual sorting algorithm is not modelled, only its result, which is unique.
