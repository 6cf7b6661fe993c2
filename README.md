# lifesystem core in Dafny

A model of the algorithmic core of the `lifesystem` goal and habit
tracker, with proofs of its properties. The model covers five parts.

- **Habit scheduling and analytics** (`habit_service.dfy`): whether a habit
  is due on a date under its recurrence rule (daily, weekly, monthly,
  specific weekdays). On top of that rule: the current streak, the
  completion rate over a window clipped at the creation date, and the
  completion trend. Entries are recorded as an upsert on (habit, date).
  The dashboard status and the habit update are also modelled.
- **Goal hierarchy** (`goal_service.dfy`): goals form a table with a
  nullable parent id. The model computes a goal's closure (the goal and
  all its descendants) with a worklist. It covers cascading deletion of
  the closure and its check-ins, goal creation and update, check-in
  creation, check-in history and goal progress.
- **Goals screen** (`goals_view.dfy`): the screen's own descendant
  search, the eligible-parent list that keeps re-parenting cycle-free,
  the blank-name check before saving, and where `load_goals` places each
  goal in the tree.
- **Habit dialog and table** (`habits_view.dfy`): the seven weekday boxes
  are encoded to and from the comma-separated `specific_days_of_week`
  string. The model also covers the dialog's frequency and completion-type
  reactions and the frequency column of the habit table.
- **Calendar** (`calendar_view.dfy`): the per-day markers in general and
  heatmap mode, the clearing of the shown month, and the text snippets
  shown for check-ins and notes.

Supporting modules:

- `dates.dfy`: Python `date` arithmetic on day ordinals (Monday is
  weekday 0).
- `text.dfy`: the parts of Python `str` the core uses.
- `models.dfy`: the records and enumerations.
- `wrappers.dfy`: `Option`.

Modelling conventions:

- Today is a parameter.
- The database session is an object holding maps keyed by primary key. A
  failed commit is a parameter, and after a failed commit nothing has
  changed.
- An exception the code lets escape is a `None` result.
- What a service query returns to a view is a parameter of the view's
  method.

## Model

| member | source | states |
|---|---|---|
| Dates.Weekday | src/services/habit_service.py:190 | `date.weekday()` of any date is in 0..6 |
| Dates.DaysInMonth | src/views/calendar_view.py:356 | `calendar.monthrange(y, m)[1]` is 28..31, and 31 exactly for January, March, May, July, August, October and December |
| Dates.FromOrdinal | src/services/habit_service.py:194 | the date of an ordinal has a month in 1..12 and a day within that month's length |
| Dates.DayOfMonth | src/services/habit_service.py:194 | `date.day` is in 1..31 |
| Dates.OrdinalRoundTrip | src/services/habit_service.py:194 | the year, month and day read off an ordinal give back that same ordinal, so the 400-, 100-, 4- and 1-year decomposition finds the real calendar date |
| Dates.DayOfMonthOfDate | src/services/habit_service.py:194 | `date.day` of an ordinal is the day of a real calendar date (a month in 1..12, a day within that month) whose ordinal is that ordinal |
| Text.Split | src/services/habit_service.py:199 | `s.split(',')` has at least one part, no part contains the separator, every character of a part is a character of the text, and every character of the text other than the separator lies in some part |
| Text.Join | src/views/habits.py:163 | `sep.join(parts)` starts with the first part, and every character of it comes from a part or from the separator |
| Text.SplitJoin | src/views/habits.py:163 | splitting a `",".join` of separator-free parts gives back exactly those parts |
| Text.ParseDecimal | src/services/habit_service.py:199 | `int(d)` succeeds exactly on non-empty digit strings, and a single digit gives its own value |
| Text.Strip | src/views/goals.py:353 | `s.strip()` is a piece of the text preceded and followed only by whitespace, and it neither starts nor ends with whitespace |
| Text.StripEmptyIffBlank | src/views/goals.py:353 | `name.strip()` is empty exactly when every character of the name is whitespace |
| Text.FirstLine | src/views/calendar_view.py:326 | `splitlines()[0]` is a prefix with no line break, followed in the text by a line break or by nothing |
| Text.StrLessTransitive | src/views/goals.py:241 | string `<` is transitive |
| Text.StrLessIrreflexive | src/views/goals.py:241 | no string is `<` itself |
| Text.StrLessTotal | src/views/goals.py:241 | of two different strings, one is `<` the other |
| Models.FreshId | backend/app/models/enhanced_models.py:42 | a new row id is at least 1, is not in use, exceeds every id in use, and is 1 or one past an id in use |
| HabitService.ParseSegments | src/services/habit_service.py:199 | the weekday list parses exactly when every non-empty segment is a decimal number, and then lists v exactly when some non-empty segment reads as v |
| HabitService.ParseDayList | src/services/habit_service.py:196-199 | the weekday list parses exactly when the string holds nothing but digits and commas, and is empty exactly when it holds nothing but commas |
| HabitService.Readable | src/services/habit_service.py:196-199 | the rule raises exactly for an active specific-days habit whose weekday string holds a character other than a digit or a comma |
| HabitService.IsDueOn | src/services/habit_service.py:181-201 | raises exactly on an unreadable rule; an inactive habit and an unrecognised frequency are never due |
| HabitService.DailyAlwaysDue | src/services/habit_service.py:186-187 | an active daily habit is due on every date |
| HabitService.WeeklyDueEverySeventhDay | src/services/habit_service.py:188-191 | an active weekly habit is due exactly on the dates a multiple of seven days from its creation date |
| HabitService.MonthlyNeverDueOnMissingDay | src/services/habit_service.py:192-195 | an active monthly habit created on a day the target month does not have (the 31st in a 30-day month) is not due |
| HabitService.SpecificDaysDueIff | src/services/habit_service.py:196-200 | an active specific-days habit with a readable list is due exactly when some non-empty segment names the date's weekday |
| HabitService.SpecificDaysWithoutListNeverDue | src/services/habit_service.py:196-198 | a specific-days habit with no weekday string or an empty one is never due |
| HabitService.DueSet | src/services/habit_service.py:267-272 | the due days counted lie in the window `[start, today]` |
| HabitService.CountDueDays | src/services/habit_service.py:267-272 | the counting loop raises exactly on an unreadable rule, and otherwise counts exactly the due days of the window |
| HabitService.DueCountExtend | src/services/habit_service.py:267-272 | counting one more day adds one exactly when that day is due, and an empty range has no due day |
| HabitService.CountCompletedDueDays | src/services/habit_service.py:285-309 | the loop over completed dates counts exactly the distinct dates that are both completed and due |
| HabitService.PercentBounds | src/services/habit_service.py:311-319 | `(completed / due) * 100` of a part of the due days lies in [0, 100] and is exactly 100 when all are completed |
| HabitService.RateIsPercentage | src/services/habit_service.py:311-319 | the completion rate lies in [0, 100] |
| HabitService.RateIgnoresOffDays | src/services/habit_service.py:303-309 | a completion on a day that is not due never changes the rate |
| HabitService.RateFullWhenEveryDueDayDone | src/services/habit_service.py:303-319 | completing every due day of a window with due days gives exactly 100 |
| HabitService.ApplyPatch | src/services/habit_service.py:63-89 | a new frequency other than specific days clears the weekday string; otherwise the string is the given one or the old one; every other field (name, description, frequency, completion type, target, unit, status) is the given value or the old one; the creation date is kept; an empty update changes nothing |
| HabitService.ApplyPatchIdempotent | src/services/habit_service.py:63-89 | applying the same update twice equals applying it once |
| HabitService.PatchAwayFromSpecificDaysReadable | src/services/habit_service.py:67-69 | after switching a habit away from specific days its rule can always be evaluated |
| HabitService.HabitStore.EntryIdsOn | src/services/habit_service.py:109-112 | definition: the entries found for (habit, date) are exactly those of that habit on that date |
| HabitService.HabitStore.CompletedDays | src/services/habit_service.py:236-245 | definition: a date is listed exactly when the habit has a completed entry on it |
| HabitService.HabitStore.CompletedUpTo | src/services/habit_service.py:236-245 | definition: the completed dates not after today |
| HabitService.HabitStore.UpdateHabit | src/services/habit_service.py:63-89 | an unknown habit gives `None` and no change; otherwise the habit becomes the patched habit and entries are untouched |
| HabitService.HabitStore.RecordEntry | src/services/habit_service.py:107-141 | an existing entry for the date is overwritten in place and no row is added; otherwise a row with a fresh id is added if the habit exists and `ValueError` is raised if not; all other entries are unchanged and there stays at most one entry per (habit, date) |
| HabitService.HabitStore.StatusForDisplay | src/services/habit_service.py:211-230 | "Not Due Today" exactly when not due, "Completed" exactly when due with a completed entry, "In Progress" exactly when due with an uncompleted entry of a quantitative or duration habit, and "Pending" in the remaining due cases |
| HabitService.HabitStore.CurrentStreak | src/services/habit_service.py:232-250 | every day of the run ending today is completed, the day before the run is not, and the streak never exceeds the number of distinct completed dates |
| HabitService.HabitStore.CompletionRate | src/services/habit_service.py:252-319 | 0 for an unknown habit; otherwise the rate over `[max(today - (days - 1), created), today]`, which is 0 when the window is empty or has no due day |
| HabitService.HabitStore.CompletionTrend | src/services/habit_service.py:321-334 | exactly `days` flags, oldest first; flag i is set exactly when the habit has a completed entry on `today - (days - 1 - i)` |
| GoalService.Closure | src/services/goal_service.py:284-312 | the closure holds exactly the goals whose parent chain reaches the goal, the goal included |
| GoalService.ReachTrans | src/services/goal_service.py:284-312 | parent paths compose |
| GoalService.ChildInClosure | src/services/goal_service.py:299-311 | a child of a closure member is a member |
| GoalService.ClosedSetContainsClosure | src/services/goal_service.py:299-311 | a set holding the goal and closed under children holds the whole closure |
| GoalService.ReachInClosedSet | src/services/goal_service.py:299-311 | every goal with a parent path into a set closed under children lies in that set |
| GoalService.Reparent | src/services/goal_service.py:57-63 | definition: re-parenting overwrites one goal and leaves the others and the id set unchanged |
| GoalService.ReparentedPath | src/services/goal_service.py:57-63 | a parent path after re-parenting is an old path, or passes through the re-parented goal |
| GoalService.PathToTargetSurvives | src/services/goal_service.py:57-63 | an old path to the re-parented goal still leads there, possibly cut shorter |
| GoalService.PathToTargetExisted | src/services/goal_service.py:57-63 | a path to the re-parented goal afterwards means the start was already in its closure |
| GoalService.ReparentOutsideClosureKeepsAcyclic | src/services/goal_service.py:57-63 | moving a goal under a parent outside its own closure (or to no parent) keeps an acyclic hierarchy acyclic |
| GoalService.WithoutGoals | src/services/goal_service.py:325-352 | definition: exactly the goals outside the deleted set remain, unchanged |
| GoalService.WithoutCheckInsOf | src/services/goal_service.py:325-352 | definition: exactly the check-ins of goals outside the deleted set remain, unchanged |
| GoalService.DeleteLeavesNoOrphans | src/services/goal_service.py:325-352 | after deleting a closure no remaining goal has a deleted parent |
| GoalService.DeleteKeepsAcyclic | src/services/goal_service.py:325-352 | deleting goals from an acyclic hierarchy leaves it acyclic |
| GoalService.SubPath | src/services/goal_service.py:325-352 | a parent path that survives a deletion was already a path |
| GoalService.Linkable | src/services/goal_service.py:68-74 | definition: the linked ids are exactly the given ids that name existing rows |
| GoalService.GoalsDueSoonAsWritten | src/services/goal_service.py:170-176 | as written the query always raises |
| GoalService.GoalsDueSoon | src/services/goal_service.py:170-176 | definition: a goal is due soon exactly when it has a target date no later than today plus the horizon and is not completed |
| GoalService.DueSoonAsWrittenNeverAnswers | src/services/goal_service.py:170-176 | the query as written never returns the goals due soon |
| GoalService.DueSoonMonotone | src/services/goal_service.py:170-176 | a longer horizon never drops a goal |
| GoalService.InsertNewestFirst | src/services/goal_service.py:135-138 | inserting into a newest-first list keeps it newest first and adds exactly that check-in |
| GoalService.HeadIsNewest | src/services/goal_service.py:189-194 | the head of a newest-first list is dated no earlier than any element |
| GoalService.GoalStore.ChildIds | src/services/goal_service.py:306-307 | definition: the children are exactly the goals whose parent is the given goal |
| GoalService.GoalStore.EnqueueChildren | src/services/goal_service.py:306-310 | the queue keeps its old entries in front, gains each uncollected child of the goal once, and stays free of duplicates |
| GoalService.GoalStore.DescendantIds | src/services/goal_service.py:284-312 | the worklist ends on any data, cycles and self-loops included, and returns exactly the closure |
| GoalService.GoalStore.PushStep | src/services/goal_service.py:302-310 | collecting the head of the queue and queueing its uncollected children keeps every collected or queued goal in the closure and every child of a collected goal collected or queued |
| GoalService.GoalStore.DeleteGoal | src/services/goal_service.py:314-355 | unknown id or failed commit: `False` and nothing changes; otherwise exactly the closure and the check-ins of its goals are removed, everything else is unchanged, and the result is `True` |
| GoalService.GoalStore.UpdateGoal | src/services/goal_service.py:46-76 | unknown id: `None` and no change; otherwise the scalar fields are overwritten, the parent is set unchecked, and the link sets become exactly the given existing ids |
| GoalService.GoalStore.CreateGoal | src/services/goal_service.py:19-44 | a new goal under a fresh id, with the parent stored unchecked and links to existing rows only; nothing else changes |
| GoalService.GoalStore.CreateCheckIn | src/services/goal_service.py:102-128 | `ValueError` exactly for an unknown goal; otherwise one new check-in under a fresh id |
| GoalService.GoalStore.CheckInIdsFor | src/services/goal_service.py:133-137 | definition: exactly that goal's check-ins dated within the optional inclusive bounds |
| GoalService.GoalStore.CheckIns | src/services/goal_service.py:130-138 | each matching check-in exactly once, newest first |
| GoalService.GoalStore.GoalProgress | src/services/goal_service.py:178-196 | `None` for an unknown goal; otherwise all its check-ins newest first, the total equals their number, and the latest is the first of that history (`None` when it is empty), which is dated no earlier than any of its check-ins |
| GoalsView.RowIds | src/views/goals.py:321-334 | definition: the ids of the cached rows |
| GoalsView.ProperDescendants | src/views/goals.py:321-334 | exactly the rows reachable by one or more child links |
| GoalsView.DownReachExtend | src/views/goals.py:330-333 | a child of a reached row is reached one step further |
| GoalsView.ChildrenOf | src/views/goals.py:330-331 | definition: exactly the rows whose parent is the given id |
| GoalsView.ChildrenAreDescendants | src/views/goals.py:330-333 | the children of a reached row are descendants |
| GoalsView.DownReachInClosedSet | src/views/goals.py:321-334 | a set closed under children holds every row reachable from its members |
| GoalsView.ClosedSetHoldsDescendants | src/views/goals.py:321-334 | once nothing is left to process, every descendant has been found |
| GoalsView.VisitStep | src/views/goals.py:325-333 | processing one pending goal keeps the search invariant and shrinks what is left to process |
| GoalsView.ProcessOne | src/views/goals.py:325-333 | one turn of the search loop keeps the search invariant and either processes one more goal or leaves fewer goals pending |
| GoalsView.CollectChildren | src/views/goals.py:329-333 | the scan over the rows adds exactly the children of the current goal to the found set, and the new ones to the pending set |
| GoalsView.ViewDescendantIds | src/views/goals.py:321-334 | the search ends on any data thanks to the processed set and returns exactly the rows reachable by child links |
| GoalsView.ReachLastStep | src/views/goals.py:321-334 | an upward path ends with a child-to-parent step |
| GoalsView.DownReachIffReach | src/views/goals.py:321-334 | over rows that list the stored goals, a downward path is an upward path read backwards |
| GoalsView.ViewDescendantsMatchClosure | src/views/goals.py:386-389 | the view's descendants plus the goal are the service's closure, and on an acyclic hierarchy the goal is not among its own descendants |
| GoalsView.Eligible | src/views/goals.py:390 | the eligible rows are exactly the rows whose id is not excluded |
| GoalsView.EligibleParentKeepsAcyclic | src/views/goals.py:386-390 | re-parenting to an eligible parent or to no parent keeps an acyclic hierarchy acyclic |
| GoalsView.NameAccepted | src/views/goals.py:353-355 | a name is accepted exactly when it has a non-whitespace character |
| GoalsView.SubmitNewGoal | src/views/goals.py:351-365 | a blank name is refused before the service is called; otherwise exactly one goal is created from the form |
| GoalsView.SubmitEdit | src/views/goals.py:400-415 | a blank name is refused before the service is called; otherwise the goal is updated, and with a parent from the eligible list an acyclic hierarchy stays acyclic |
| GoalsView.KeyLessIrreflexive | src/views/goals.py:241 | no goal sorts before itself |
| GoalsView.KeyLessSplit | src/views/goals.py:241 | the sort key is a strict weak order |
| GoalsView.KeyLessAsymmetric | src/views/goals.py:241 | two goals never sort before each other |
| GoalsView.InsertByKey | src/views/goals.py:241 | inserting keeps the list sorted and adds exactly one element |
| GoalsView.SortRows | src/views/goals.py:241 | the goals are ordered parentless first, then by name, and are a permutation of the input |
| GoalsView.LoadGoals | src/views/goals.py:233-265 | every goal gets exactly one item, in sorted order, placed by the one-pass rule |
| GoalsView.PlaceAsWritten | src/views/goals.py:254-265 | a goal goes under a parent exactly when its parent id is non-zero and a goal with that id comes earlier in the sorted order, and then it goes under its own parent |
| GoalsView.PlaceInOneScan | src/views/goals.py:245-265 | a goal goes under its parent exactly when the parent id is non-zero and that parent was placed earlier in the scan |
| GoalsView.TwoLevelPlacedAsIntended | src/views/goals.py:241-265 | when every parent is parentless, each goal is placed under its parent whenever that parent is loaded |
| GoalsView.GrandchildSortedBeforeParentIsMisplaced | src/views/goals.py:241-265 | Root, B (child of Root) and A (child of B) sort as Root, A, B, and A lands at top level although B is loaded |
| GoalsView.ExampleSorted | src/views/goals.py:241 | the three goals of that example sort as Root, A, B |
| GoalsView.ExampleTailSorted | src/views/goals.py:241 | B and A sort as A, B |
| GoalsView.LoadGoalsParentsFirst | src/views/goals.py:254-265 | each goal is placed under its own parent exactly when the parent id is non-zero and that parent is loaded |
| GoalsView.PlaceAfterRegistering | src/views/goals.py:254-265 | registering every goal before placing any puts each goal under its parent whenever the parent is loaded |
| HabitsView.CheckedFrom | src/views/habits.py:161 | the indices of the checked boxes, ascending |
| HabitsView.DigitStrings | src/views/habits.py:161 | `str(i)` of each index, in order |
| HabitsView.ParseDigitStrings | src/views/habits.py:161-163 | reading the digit strings back gives the indices |
| HabitsView.EncodeDays | src/views/habits.py:159-165 | the weekday string is present exactly for specific days with a checked box, and its comma-separated parts are the checked indices in decimal, ascending |
| HabitsView.EncodedDaysParse | src/views/habits.py:160-163 | the saved weekday string parses back to exactly the checked indices |
| HabitsView.ShownFrequency | src/views/habits.py:131-132 | definition: the combo shows the habit's frequency, or keeps its item when `findData` fails |
| HabitsView.LoadedDays | src/views/habits.py:130-138 | loading raises exactly on a malformed non-empty weekday string of a specific-days habit |
| HabitsView.DaysRoundTrip | src/views/habits.py:135-138 | saving the boxes and loading the habit into a new dialog checks exactly the boxes that were checked |
| HabitsView.SavedDaysAreDueDays | src/views/habits.py:160-163 | a saved active specific-days habit is due exactly on the weekdays whose boxes were checked |
| HabitsView.ClampTarget | src/views/habits.py:74 | the target spin box holds a value in [0, 10000] and keeps a value already in range |
| HabitsView.HabitDialog.OnFrequencyChanged | src/views/habits.py:117-123 | leaving specific days unchecks all seven boxes; otherwise they stay as they were |
| HabitsView.HabitDialog.SelectFrequency | src/views/habits.py:117-123 | picking a frequency other than specific days unchecks all boxes and changes nothing else |
| HabitsView.HabitDialog.SelectCompletionType | src/views/habits.py:108-115 | outside quantitative and duration the target and unit are reset |
| HabitsView.HabitDialog.LoadHabitData | src/views/habits.py:125-153 | the fields show the habit; box i is checked exactly when i is in the weekday string; a malformed string raises; the target is the clamped value or 0, and the unit the habit's unit or empty |
| HabitsView.HabitDialog.GetHabitData | src/views/habits.py:155-176 | the weekday string is present exactly for specific days with a checked box; target and unit are present exactly for quantitative and duration |
| HabitsView.FrequencyLabel | src/views/habits.py:238 | each of the four frequencies shows its stored value capitalized ("Daily", "Specific_days") |
| HabitsView.DayLabels | src/views/habits.py:241-243 | the labels of the stored indices in stored order; an index past Sunday raises |
| HabitsView.FrequencyDisplay | src/views/habits.py:238-246 | other frequencies show their name; a specific-days habit without a weekday string shows "Days: None" |
| HabitsView.DisplayFailsIff | src/views/habits.py:242-243 | the column fails exactly on a weekday string that does not parse or names an index past Sunday |
| HabitsView.DisplayOfSavedDays | src/views/habits.py:238-246 | a habit saved from the dialog shows "Days: " and the labels of its checked boxes, Monday first, or "Days: None" |
| CalendarView.Truncate | src/views/calendar_view.py:324 | a text longer than the limit becomes its first `limit` characters plus "...", and a shorter one is unchanged |
| CalendarView.ReflectionSnippet | src/views/calendar_view.py:304 | a reflection is cut at 50 characters plus "...", and no reflection gives an empty text |
| CalendarView.NoteSnippet | src/views/calendar_view.py:324-326 | the note text is the first line of the content cut at 75 characters |
| CalendarView.NoteSnippetShape | src/views/calendar_view.py:324-326 | a note snippet is one line of at most 78 characters taken from the start of the note |
| CalendarView.Classify | src/views/calendar_view.py:451-460 | "multiple events" exactly for more than one kind; each single kind gets its own marker (goal before habit before check-in); no marker exactly when there is no event |
| CalendarView.Shows | src/views/calendar_view.py:416-421 | definition: "All Events" shows every category, and any other filter shows only the category of its own name |
| CalendarView.GeneralFormat | src/views/calendar_view.py:446-460 | under "All Events" a day is classified by all three kinds; only "All Events" can mark multiple events; a filter naming no category marks nothing |
| CalendarView.SingleFilterMarksOneKind | src/views/calendar_view.py:416-421 | with one category selected, a day shows that category's marker or none |
| CalendarView.EntriesByDate | src/views/calendar_view.py:381 | every date with an entry maps to the flag of its last entry |
| CalendarView.HeatFormat | src/views/calendar_view.py:394-403 | completed or missed by the winning entry; untouched without an entry |
| CalendarView.LastEntryWins | src/views/calendar_view.py:381 | the last entry of a date decides its heatmap marker |
| CalendarView.MarkHeatmap | src/views/calendar_view.py:394-403 | each day of the month gets the heatmap marker of its entry, and other dates are unchanged |
| CalendarView.MarkEvents | src/views/calendar_view.py:444-460 | each day of the month gets its general marker, and other dates are unchanged |
| CalendarView.CalendarView.ClearFormats | src/views/calendar_view.py:348-360 | each day 1..days-in-month is visited once, in order, and cleared; other dates keep their formats |
| CalendarView.CalendarView.UpdateFormats | src/views/calendar_view.py:362-460 | heatmap mode marks days by their winning entry; general mode marks days by the categories the filter fetched; a failed fetch leaves the month cleared; other months are untouched |

## Left out

- The Qt widgets, message boxes, colours, tooltips and tab order are not modelled. A widget is a field holding its value.
- SQLAlchemy sessions, `joinedload`, `refresh` and `updated_at`/`created_at` time stamps are not modelled. The store is an object with maps, and a commit either applies the whole change or, when it fails, none of it.
- Time of day and the clock (`utcnow`, `datetime.combine`) are not modelled. Dates are day ordinals and today is a parameter.
- Text.ParseDecimal: accepts plain ASCII digits only. Python's `int` also takes surrounding whitespace, a sign, underscores and other Unicode digits. Strings the dialog writes use only ASCII digits.
- HabitsView.ClampTarget: does not model the spin box rounding to two decimals.
- HabitsView.FrequencyLabel: a stored frequency outside the four members is shown as its raw text. The ORM would reject such a value when loading it.
- HabitsView.FrequencyLabel: `str.capitalize` is modelled for ASCII letters only (`Text.Capitalize`). The four stored values are ASCII.
- HabitService.HabitStore.UpdateHabit: the conversion of enum values given as strings is not modelled. The dialog always passes enum members.
- HabitService.HabitStore.CompletionRate: dates are unbounded ordinals, so the `OverflowError` Python raises when `today - timedelta(days=days - 1)` falls before 0001-01-01 (a `days` beyond today's ordinal) is not modelled; the model clips the window at the creation date and returns a rate. The only caller passes 30.
- HabitService.HabitStore.CompletionTrend: dates are unbounded ordinals, so the `OverflowError` Python raises when `today - timedelta(days=i)` falls before 0001-01-01 is not modelled; the model returns `days` flags for any `days`.
- Dates.FromOrdinal: defined for every integer; Python's `date` covers only ordinals 1..3652059 (0001-01-01..9999-12-31) and raises outside them. OrdinalRoundTrip is stated for ordinals from 1 on.
- HabitService.HabitStore.CompletionRate: the rate is an exact real. Floating-point rounding of the division and of `* 100` is not modelled.
- GoalService.GoalStore.CheckIns: ties between check-ins with the same date are not ordered. The database's tie order is not specified.
- GoalsView.SortRows: the order among goals with equal keys is not stated. Python's sort is stable.
- The eligible-parent list is built from the goals cached at the last tree load. The model assumes that cache still lists the stored goals (`RowsDescribe`).
- The add-goal dialog offers the whole cached list as parents. A new goal has no descendants, so no cycle can arise.
- `record_habit_entry` keeps the original time stamp of an overwritten entry. Time of day is not modelled, so this is not visible.
- The check-in detail line `Progress: p%` and the habit entry status text format floats. They are not modelled.
- `_get_events_for_date` builds event widgets from service queries. Only its snippet texts and category filter are modelled.
- Only `delete_goal` catches a store error and rolls back, so only `DeleteGoal` takes a failed commit as a parameter. `create_goal`, `update_goal`, `create_check_in` and `record_habit_entry` let a failed commit raise to the calling view; the model has them always commit.
- `create_goal` does not check that the parent exists, and `update_goal` has no cycle check; the only guard is the edit dialog's eligible-parent list. The model follows the code.

## Findings

| source | as written | input that shows it | evidently intended | confidence | as-written member | corrected member |
|---|---|---|---|---|---|---|
| src/services/goal_service.py:170-176 | `get_goals_due_soon` uses `timedelta`, but the module imports only `datetime` from `datetime` (line 5), so every call raises `NameError` | any call, e.g. `get_goals_due_soon(7)` | goals with a target date no later than now plus `days` and a status other than completed | high, not executed | GoalService.DueSoonAsWrittenNeverAnswers | GoalService.GoalsDueSoon |
| src/views/goals.py:241-265 | the tree is built in one pass over the goals sorted by (has parent, name); a goal is placed under its parent only if the parent was placed earlier in the pass | goals Root (no parent), B (parent Root) and A (parent B): sorted Root, A, B, so A is shown at top level | every goal whose parent is loaded is shown under that parent | high, not executed | GoalsView.GrandchildSortedBeforeParentIsMisplaced | GoalsView.LoadGoalsParentsFirst |
