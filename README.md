# MyFMS portal logic in Dafny

This project models the logic inside the MyFMS student portal's React
components and proves properties of it. The logic covers:

- the class-period clock and the timetable views built on it (which
  period is running now, today's weekday, the `HH:MM` labels, the weekly
  grid and the daily card list);
- the hook that reloads the page at configured times of day;
- the assignment list's done toggle and its add form;
- the rotating photo carousel;
- the study-room week number and image path;
- the settings page's radio group.

How instants are modelled:

- An instant is a local-time millisecond count of type `int`, on days of
  exactly 24 hours (module `Clock`).
- `new Date(now).setHours(h, m, s, ms)` is `now`'s midnight plus
  `((h*60+m)*60+s)*1000+ms`. JavaScript carries overflowing or negative
  fields into the neighbouring units, so this linear formula is exact. It
  covers `setHours(h, m - 5, 0, 0)` as well.

The JavaScript built-ins the components use are in module `Builtins`, each
restricted to how the portal uses it:

- `find`, `split(sep)[0]`, `String(n)` with `padStart(2, '0')`;
- the truncating `%`, `Math.ceil(a / b)`;
- the stable `sort` with a comparator;
- the ASCII part of `toLowerCase` and of `\s`.

The period table, `isCurrentClassTime`, `formatTime`, the course-id split and
the two schedule views are identical in `src/components/Timetable.tsx` and
`src/Dashboard.tsx`:

- They are modelled once, in module `PeriodClock`, and the table cites the
  Timetable copy. The matching Dashboard lines are 27-34, 36, 38-49, 72-118
  and 120-174.
- Only `getTodayDay` differs between the two copies. Its weekend fallback is
  `'Mon'` in Timetable and `'Fri'` in Dashboard, so each has its own module:
  `Timetable` and `Dashboard`.

State that the components change in place is a class: the reload hook's
timer handle (`ScheduledReloader.Reloader`), the assignments panel's list
and form fields (`Assignments.AssignmentsPanel`), and the carousel's index
(`RotatingCarousel.Carousel`). Everything else is functions over values.

The reload hook arms a single timer per effect run and never re-arms it
after it fires. The page reload mounts the hook again. The model follows the
code in this.

## Model

| member | source | states |
|---|---|---|
| Builtins.FindIndex | src/components/Timetable.tsx:38 | the index of the first element satisfying the predicate, -1 exactly when none does |
| Builtins.Find | src/components/Timetable.tsx:38 | `undefined` (None) exactly when no element matches; otherwise the first matching element of the list |
| Builtins.SplitHead | src/components/Timetable.tsx:73 | `split(sep)[0]` is a prefix free of `sep`, and ends either at the end of the string or just before a `sep` |
| Builtins.SplitHeadOfJoin | src/components/Timetable.tsx:73 | the first piece of `a + sep + b` is `a` when `a` holds no `sep` |
| Builtins.NatToString | src/components/Timetable.tsx:35 | `String(n)` is at least one decimal digit with no leading zero; one digit iff n < 10, two iff 10 <= n < 100 |
| Builtins.ParseNatToString | src/components/Timetable.tsx:35 | `String(n)` reads back as `n` |
| Builtins.PadStart2 | src/components/Timetable.tsx:35 | `padStart(2, '0')` has length max(2, len), ends in the original and is `0` before it |
| Builtins.TwoDigitsRoundTrip | src/components/Timetable.tsx:35 | `String(n).padStart(2, '0')` is two digits reading back as `n` for every n < 100 |
| Builtins.JsRemainder | src/components/RotatingCarousel.tsx:26-31 | the truncating `%`: in [0, n) for a non-negative dividend, in (-n, 0] for a negative one |
| Builtins.CeilDiv | src/components/StudyRoom.tsx:12 | `Math.ceil(a / b)` is the least r with a <= r*b |
| Builtins.IsWhitespace | src/components/RadioGroup.tsx:21 | the regex class `\s` over ASCII; described by RadioGroup.RunBecomesOneDash |
| Builtins.LowerChar | src/components/RadioGroup.tsx:21 | `A`..`Z` move to `a`..`z` (code point +32); every other character is unchanged |
| Builtins.ToLower | src/components/RadioGroup.tsx:21 | same length, each character lowered by LowerChar |
| Builtins.SortBy | src/components/Assignments.tsx:151 | the sorted list is ordered by the comparator and is a permutation of the input |
| Builtins.SortedHeadIsLeast | src/hooks/useScheduledReloader.ts:38-44 | element 0 of a sorted non-empty list is in the list and precedes every element of it |
| Builtins.SortBySorted | src/components/Assignments.tsx:151 | sorting an already sorted list leaves it as it is (stability) |
| Clock.SetHours | src/components/Timetable.tsx:43-47 | `setHours` on a copy of `now`: `now`'s midnight plus the wall-clock offset; described by Clock.AtTimeOfDay and PeriodClock.CurrentIffInWindow |
| Clock.TimeOfDay | src/components/Timetable.tsx:43-47 | the time of day is in [0, 24h) and added to local midnight gives the instant back |
| Clock.ShiftByDays | src/hooks/useScheduledReloader.ts:49 | moving k whole days keeps the time of day and moves midnight by k days |
| Clock.AtTimeOfDay | src/components/Timetable.tsx:43-47 | day start plus an in-range time of day has that midnight and that time of day |
| PeriodClock.PeriodTableWellFormed | src/components/Timetable.tsx:26-33 | six periods numbered 1..6, each a valid clock interval with start < end, none starting before the previous ends |
| PeriodClock.LookUp | src/components/Timetable.tsx:38 | `periodTimes.find`; described by PeriodClock.LookUpPeriod |
| PeriodClock.IsCurrentClassTime | src/components/Timetable.tsx:37-50 | `isCurrentClassTime`; described by PeriodClock.CurrentIffInWindow, WindowBoundariesAreExact, DependsOnlyOnTimeOfDay and OnlyFirstTwoPeriodsOverlap |
| PeriodClock.LookUpPeriod | src/components/Timetable.tsx:38-39 | periods 1..6 find their own row; every other number finds none |
| PeriodClock.CurrentIffInWindow | src/components/Timetable.tsx:37-50 | current iff the period is 1..6 and the time of day lies in [start - 5 min, end], both ends inclusive |
| PeriodClock.UnknownPeriodIsNeverCurrent | src/components/Timetable.tsx:38-39 | a period outside 1..6 is never current |
| PeriodClock.FirstPeriodWindow | src/components/Timetable.tsx:43-49 | period 1 is current exactly from 09:10:00.000 to 10:55:00.000 |
| PeriodClock.WindowBoundariesAreExact | src/components/Timetable.tsx:43-49 | current at the window's first and last millisecond, not one millisecond before or after |
| PeriodClock.DependsOnlyOnTimeOfDay | src/components/Timetable.tsx:43-47 | shifting `now` by whole days never changes the answer |
| PeriodClock.OnlyFirstTwoPeriodsOverlap | src/components/Timetable.tsx:26-33 | two different periods are current together iff they are periods 1 and 2 and it is 10:50..10:55 |
| PeriodClock.FormatTime | src/components/Timetable.tsx:35 | `formatTime`; described by PeriodClock.FormatTimeRoundTrip |
| PeriodClock.FormatTimeRoundTrip | src/components/Timetable.tsx:35 | for values below 100: two digits, a colon, two digits, reading back as the hour and the minute |
| PeriodClock.CourseId | src/components/Timetable.tsx:73 | the id's prefix before its first `-`, or the whole id when it has none |
| PeriodClock.CourseIdOfCompositeId | src/Dashboard.tsx:138 | the course id of `course-rest` is `course` |
| PeriodClock.DayNumber | src/components/Timetable.tsx:120 | each weekday's 1-based position in the Mon..Fri list |
| PeriodClock.SubjectsOf | src/components/Timetable.tsx:193 | `weeklyData[day]`, or no subjects when the day is missing; used by PeriodClock.SlotContents and Timetable.WeekendShowsMonday |
| PeriodClock.SubjectAt | src/components/Timetable.tsx:137 | `weeklySubjects[day]?.find(...)`; described by PeriodClock.SlotContents |
| PeriodClock.Slot | src/components/Timetable.tsx:136-142 | one weekly cell; described by PeriodClock.SlotContents |
| PeriodClock.SlotContents | src/components/Timetable.tsx:136-142 | a slot is empty iff no subject of the day has the period; a filled slot holds the first such subject in the day's list, with its course id, current iff the day is today and the window rule holds |
| PeriodClock.WeeklyGrid | src/components/Timetable.tsx:118-176 | `WeeklySchedule`'s grid; described by PeriodClock.WeeklyGridSlots |
| PeriodClock.WeeklyGridSlots | src/components/Timetable.tsx:118-176 | a 5x6 grid of days Mon..Fri and periods 1..6; a cell is empty iff no subject has that period; a filled cell holds the day's first subject with that period and is current iff its day is today and the window rule holds |
| PeriodClock.HoursLabelShape | src/components/Timetable.tsx:99 | a table row's label is `HH:MM-HH:MM`: eleven characters with `:`, `-`, `:` at 2, 5, 8 |
| PeriodClock.DailyCardOf | src/components/Timetable.tsx:72-99 | one `DailySchedule` card; described by PeriodClock.DailyCardHours and DailyAgreesWithWeekly |
| PeriodClock.DailyCards | src/components/Timetable.tsx:69-76 | `subjects.map(...)`; described by PeriodClock.DailyAgreesWithWeekly |
| PeriodClock.DailyCardHours | src/components/Timetable.tsx:75-99 | a card shows hours iff its period is in the table, and then exactly that period's start and end as `HH:MM-HH:MM` |
| PeriodClock.DailyAgreesWithWeekly | src/components/Timetable.tsx:76-142 | a subject of today's list with a period in the table occupies today's weekly cell for that period, and its daily card is highlighted exactly when that cell is |
| PeriodClock.Display | src/components/Timetable.tsx:193-202 | the weekly grid or today's daily cards from `weeklyData[today]`, or no cards when today is missing; described by Timetable.WeekendShowsMonday, Dashboard.WeekendShowsFriday and PeriodClock.DailyAgreesWithWeekly |
| Timetable.TodayDay | src/components/Timetable.tsx:186-190 | `getTodayDay` with the `'Mon'` fallback; described by Timetable.TodayDayOfWeekday |
| Timetable.TimetableDisplay | src/components/Timetable.tsx:183-206 | `TimetableDisplay`; described by Timetable.WeekendShowsMonday |
| Timetable.TodayDayOfWeekday | src/components/Timetable.tsx:186-190 | weekday indices 1..5 name Mon..Fri and back; Saturday and Sunday give Mon |
| Timetable.WeekendShowsMonday | src/components/Timetable.tsx:186-201 | at the weekend the daily view lists Monday's subjects, and the grid highlights nothing outside Monday |
| Dashboard.TodayDay | src/Dashboard.tsx:188-191 | `getTodayDay` with the `'Fri'` fallback; described by Dashboard.TodayDayOfWeekday |
| Dashboard.DashboardDisplay | src/Dashboard.tsx:185-208 | the dashboard's `Timetable`; described by Dashboard.WeekendShowsFriday |
| Dashboard.TodayDayOfWeekday | src/Dashboard.tsx:188-191 | weekday indices 1..5 name Mon..Fri and back; Saturday and Sunday give Fri |
| Dashboard.WeekendShowsFriday | src/Dashboard.tsx:188-203 | at the weekend the daily view lists Friday's subjects, and the grid highlights nothing outside Friday |
| ScheduledReloader.TodayAt | src/hooks/useScheduledReloader.ts:29-33 | a listed time on today's date; described by ScheduledReloader.TodaySchedules and DelayWithinOneDay |
| ScheduledReloader.TomorrowAt | src/hooks/useScheduledReloader.ts:47-52 | a listed time on tomorrow's date; described by ScheduledReloader.TomorrowSchedules and DelayWithinOneDay |
| ScheduledReloader.TodaySchedules | src/hooks/useScheduledReloader.ts:29-33 | one instant per listed time; each is that time on today's date |
| ScheduledReloader.TomorrowSchedules | src/hooks/useScheduledReloader.ts:47-52 | one instant per listed time; each is that time on tomorrow's date |
| ScheduledReloader.StillAhead | src/hooks/useScheduledReloader.ts:36-37 | keeps exactly the instants strictly after `now`; empty when none is |
| ScheduledReloader.Earlier | src/hooks/useScheduledReloader.ts:38 | the comparator `(a, b) => a.getTime() - b.getTime()` read as "may come first"; described by ScheduledReloader.EarlierIsTotalPreorder and NextReloadIsEarliest |
| ScheduledReloader.EarlierIsTotalPreorder | src/hooks/useScheduledReloader.ts:38 | the comparator `a - b` orders instants as a total preorder |
| ScheduledReloader.NextReload | src/hooks/useScheduledReloader.ts:19-55 | no instant is chosen exactly when the list is empty |
| ScheduledReloader.NextReloadIsEarliest | src/hooks/useScheduledReloader.ts:36-55 | if some listed time today is strictly after `now`, the earliest such instant; otherwise the earliest listed time tomorrow |
| ScheduledReloader.NextReloadIgnoresOrderAndDuplicates | src/hooks/useScheduledReloader.ts:38-54 | lists with the same members choose the same instant |
| ScheduledReloader.DelayWithinOneDay | src/hooks/useScheduledReloader.ts:47-58 | for valid hours and minutes the delay is strictly positive and at most one day |
| ScheduledReloader.NineAndOneSchedule | src/hooks/useScheduledReloader.ts:29-55 | with 09:00 and 13:00: at 08:00 today 09:00, at 09:00:01 today 13:00, at 13:00:01 tomorrow 09:00 |
| ScheduledReloader.ExactTimeIsNotAhead | src/hooks/useScheduledReloader.ts:37 | a time equal to `now` to the millisecond is not upcoming and moves to tomorrow |
| ScheduledReloader.Reloader.constructor | src/hooks/useScheduledReloader.ts:23 | no timer armed, no reload requested |
| ScheduledReloader.Reloader.Effect | src/hooks/useScheduledReloader.ts:17-68 | an empty list arms nothing; otherwise one timer due at NextReload with delay NextReload - now |
| ScheduledReloader.Reloader.Cleanup | src/hooks/useScheduledReloader.ts:71-73 | the timer is cleared and no reload is requested by it |
| ScheduledReloader.Reloader.Tick | src/hooks/useScheduledReloader.ts:63-65 | a due timer fires once and requests the reload; otherwise nothing changes |
| ScheduledReloader.ReloadFiresOnSchedule | src/hooks/useScheduledReloader.ts:19-65 | after mounting, the page reloads by `later` iff some time is listed and the chosen instant is not after `later` |
| ScheduledReloader.CleanupCancelsReload | src/hooks/useScheduledReloader.ts:63-73 | after the cleanup no reload fires, however far the clock advances |
| Assignments.ListOrder | src/components/Assignments.tsx:151 | the comparator's order; described by Assignments.ListOrderIsTotalPreorder |
| Assignments.WithDone | src/components/Assignments.tsx:149-150 | the `map`; described by Assignments.WithDoneEntries |
| Assignments.Toggled | src/components/Assignments.tsx:148-151 | the map and sort; described by Assignments.ToggledSpec and ToggleWithoutMatchKeepsFetchOrder |
| Assignments.ListOrderIsTotalPreorder | src/components/Assignments.tsx:151 | not-done before done, then ascending deadline, is a total preorder |
| Assignments.WithDoneEntries | src/components/Assignments.tsx:149-150 | entries with the id get the new flag and are otherwise unchanged; all others are untouched |
| Assignments.ToggledSpec | src/components/Assignments.tsx:148-151 | the toggled list is a permutation of the flagged list, ordered by (done, deadline), holding exactly the entries with the id flipped and the others unchanged |
| Assignments.ToggleWithoutMatchKeepsFetchOrder | src/components/Assignments.tsx:148-151 | on a list already in fetch order, an id with no entry leaves the list exactly as it was |
| Assignments.DeadlineText | src/components/Assignments.tsx:113-115 | `${datePart}T${timePart}`; described by Assignments.AssignmentsPanel.AddAssignment |
| Assignments.FormatDateTime | src/components/Assignments.tsx:30-34 | the empty string gives `''`; any other string goes through the date library's `format` |
| Assignments.AssignmentsPanel.constructor | src/components/Assignments.tsx:42-50 | an empty list and an empty form |
| Assignments.AssignmentsPanel.ApplyFetch | src/components/Assignments.tsx:52-64 | fetched rows replace the list; a failed query keeps it; the form is untouched |
| Assignments.AssignmentsPanel.ToggleDone | src/components/Assignments.tsx:138-154 | a successful update replaces the list by the toggled list; an error leaves it untouched |
| Assignments.AssignmentsPanel.AddAssignment | src/components/Assignments.tsx:108-135 | nothing happens without a user, a name or a date; otherwise the row carries the formatted date and the form's time or `23:59`, and a successful insert empties the form |
| RotatingCarousel.Next | src/components/RotatingCarousel.tsx:31 | `(prev + 1) % items.length`; described by RotatingCarousel.StepsMoveByOne and PrevUndoesNext |
| RotatingCarousel.Prev | src/components/RotatingCarousel.tsx:26 | `(prev - 1 + items.length) % items.length`; described by RotatingCarousel.StepsMoveByOne and PrevUndoesNext |
| RotatingCarousel.NextTimes | src/components/RotatingCarousel.tsx:29-32 | k presses of next; described by RotatingCarousel.NextTimesAdvances |
| RotatingCarousel.StepsMoveByOne | src/components/RotatingCarousel.tsx:24-32 | next moves to i+1 and wraps to 0 at the end; prev moves to i-1 and wraps to n-1 at the start |
| RotatingCarousel.StepsStayInRange | src/components/RotatingCarousel.tsx:26-31 | both steps keep the index in [0, n) |
| RotatingCarousel.StepsWrapAround | src/components/RotatingCarousel.tsx:25-31 | next from n-1 is 0, prev from 0 is n-1 |
| RotatingCarousel.PrevUndoesNext | src/components/RotatingCarousel.tsx:24-32 | prev after next, and next after prev, restore the index |
| RotatingCarousel.NextTimesAdvances | src/components/RotatingCarousel.tsx:31 | k presses of next move the index to (i + k) mod n |
| RotatingCarousel.FullTurnReturns | src/components/RotatingCarousel.tsx:29-32 | n presses of next return to the starting index |
| RotatingCarousel.Carousel.constructor | src/components/RotatingCarousel.tsx:18 | the index starts at 0 |
| RotatingCarousel.Carousel.HandlePrev | src/components/RotatingCarousel.tsx:24-27 | the index becomes Prev of the old one and stays valid |
| RotatingCarousel.Carousel.HandleNext | src/components/RotatingCarousel.tsx:29-32 | the index becomes Next of the old one and stays valid |
| RotatingCarousel.Carousel.CurrentItem | src/components/RotatingCarousel.tsx:20-35 | no item exactly when the list is empty; otherwise `items[activeIndex]` |
| RotatingCarousel.NextThenPrevShowsSameItem | src/components/RotatingCarousel.tsx:18-35 | a new carousel shows the first item, and next then prev shows the same item again |
| StudyRoom.WeekOfMonth | src/components/StudyRoom.tsx:12 | `weekOfMonth`; described by StudyRoom.WeekIsCalendarRow and the range and monotonicity lemmas |
| StudyRoom.ImageName | src/components/StudyRoom.tsx:13 | `imageName`; described by StudyRoom.ImagePathNamesMonthAndWeek |
| StudyRoom.ImagePath | src/components/StudyRoom.tsx:14 | `imagePath`; described by StudyRoom.ImagePathNamesMonthAndWeek |
| StudyRoom.WeekIsCalendarRow | src/components/StudyRoom.tsx:12 | the week is the 0-based row of the day in a Sunday-first month calendar |
| StudyRoom.WeekOfMonthRange | src/components/StudyRoom.tsx:12 | for days 1..31 and first weekdays 0..6 the week lies in 0..5 |
| StudyRoom.FirstDayIsWeekZero | src/components/StudyRoom.tsx:12 | the first of the month is always in week 0 |
| StudyRoom.WeekOfMonthMonotone | src/components/StudyRoom.tsx:12 | later days never fall in earlier weeks |
| StudyRoom.WeekLaterIsNextWeek | src/components/StudyRoom.tsx:12 | seven days later is exactly one week later |
| StudyRoom.ImagePathNamesMonthAndWeek | src/components/StudyRoom.tsx:12-14 | the path is `/images/studyroom/` then a name that reads back as month 1..12, `.`, the week, `.webp` |
| RadioGroup.DropWhitespace | src/components/RadioGroup.tsx:21 | a suffix starting at a non-whitespace character, strictly shorter when the string starts with whitespace |
| RadioGroup.ReplaceWhitespaceRuns | src/components/RadioGroup.tsx:21 | the replacement holds no whitespace |
| RadioGroup.PlainTextIsKept | src/components/RadioGroup.tsx:21 | text without whitespace is copied unchanged |
| RadioGroup.RunBecomesOneDash | src/components/RadioGroup.tsx:21 | each maximal whitespace run, however long, becomes exactly one `-` |
| RadioGroup.NoWhitespaceIsFixed | src/components/RadioGroup.tsx:21 | a string without whitespace is its own replacement |
| RadioGroup.GroupName | src/components/RadioGroup.tsx:21 | the group name holds no whitespace and no upper-case ASCII letter |
| RadioGroup.GroupNameKeepsText | src/components/RadioGroup.tsx:21 | apart from whitespace and dashes, the name holds the legend's characters in order, lowercased |
| RadioGroup.GroupNameIdempotent | src/components/RadioGroup.tsx:21 | deriving the name twice equals deriving it once |
| RadioGroup.WhitespaceAmountIsIrrelevant | src/components/RadioGroup.tsx:21 | legends differing only in the width of a whitespace run share a name |
| RadioGroup.TwoWordLegend | src/components/RadioGroup.tsx:21 | two whitespace-free words joined by one space give `word1-word2`, each lowercased |
| RadioGroup.RadioInputs | src/components/RadioGroup.tsx:30-41 | the rendered inputs, one per option; described by the lemmas in the rows below |
| RadioGroup.OneGroupForAllInputs | src/components/RadioGroup.tsx:21-36 | every input carries the one group name derived from the legend |
| RadioGroup.LabelsBindOwnInputs | src/components/RadioGroup.tsx:35-44 | with distinct values, the label of each option designates its own input and no other |
| RadioGroup.AtMostOneChecked | src/components/RadioGroup.tsx:38 | with distinct values at most one input is checked |
| RadioGroup.CheckedIffOffered | src/components/RadioGroup.tsx:38 | some input is checked iff the selected value is one of the options' values |
| RadioGroup.Chosen | src/components/RadioGroup.tsx:39 | the value `onChange(option.value)` reports; described by RadioGroup.ChoosingChecksIt |
| RadioGroup.ChoosingChecksIt | src/components/RadioGroup.tsx:38-39 | storing the value an input reports checks that input and, with distinct values, only that one |

## Left out

- Supabase: authentication, queries, inserts, updates and deletes are remote I/O. They become parameters: the fetched rows, the signed-in user id, and whether an update or insert succeeded.
- The role lookup and admin mode, `handleDeleteAssignment`, and the loading flag in `src/components/Assignments.tsx`: remote I/O, or display only.
- The time-zone shift to Asia/Tokyo (`toLocaleString`) and DST: days are 24 hours and `now` is already local.
- `Date.getDay()`, `getDate()`, `getMonth()` and the first weekday of the month are integer inputs.
- The date library's `format` is a function parameter: `format` of `FormatDateTime`, and `formatDate` of `AssignmentsPanel.AddAssignment` for `format(newDate, 'yyyy-MM-dd')`.
- `new Date(string)` and `toISOString` are left out. The deadline text `date T time` is what the model hands on.
- `parseInt` of the subject id is left out. The selected id is kept as the form's string.
- `console.log`, `console.error`, and all rendering, animation and styling are left out.
- `getDayProps` calendar highlighting is styling over library dates and is left out.
- Timers are modelled as a pending due instant. `window.location.reload` is modelled as a flag.
- ScheduledReloader.Reloader.Effect: the hook reads the clock once for `now` and again for each candidate date. The model uses one instant for all of these reads, so a run that spans midnight is not modelled.
- ScheduledReloader.Reloader.Effect: React's rule that cleanup runs before the next effect is a precondition (no timer pending).
- The memoised `JSON.stringify(times)` dependency is left out. It only decides when React re-runs the effect.
- Builtins.SortBy: its stability is stated only through Builtins.SortBySorted (a list already in order is unchanged). Keeping the input order of equal elements in general is not stated.
- Builtins.JsRemainder: its contract states the range only. The exact value is its definition.
- Builtins.IsWhitespace: only the ASCII members of `\s` are modelled. Unicode spaces such as U+00A0 and U+3000 are not.
- Builtins.ToLower: only ASCII letters are modelled. Unicode case mapping is not.
- PeriodClock.FormatTime: it takes non-negative numbers only. All callers pass table constants.
- RotatingCarousel.Carousel: `items` is fixed for the carousel's life. If a parent shrinks the list while the index points past its new end, that case is not modelled.
- RotatingCarousel.Carousel: a missing (`null`) list is modelled as the empty list.
- RotatingCarousel.Carousel.HandlePrev and HandleNext require a non-empty list, because their buttons are rendered only then.
- Other pages, contexts and services (`src/pages/*`, `src/services/*`, `src/contexts/SidebarContext.tsx`) are not part of this model.
