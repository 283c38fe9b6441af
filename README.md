# Productivity hub: verified model of the core logic

This project models, in Dafny, the parts of the productivity dashboard
(a React client over Todoist, Dynalist and Google Calendar, with a small
Express server) that hold real logic, and proves what they promise:

- **Outline reconstruction** (`outline.dfy`). `DynalistService.parseNodes`
  rebuilds a flat list of outline nodes into an id-keyed table of
  entries, each with its `children` linked by id, plus the ordered list
  of top-level ids. It is an imperative method whose two loops are
  proved against the specification function `Parse`. Properties proved
  about `Parse` cover which ids are kept, their default fields, the
  exact child lists, the top-level rule, the reserved `root` node,
  orphaned subtrees, cycles, order and a bound on the count.
- **Eisenhower matrix** (`eisenhower.dfy`). Four independent,
  order-preserving filters keyed on priority and on a one-day urgency
  horizon. The proofs cover overlaps, disjoint pairs, coverage and the
  five-item display cap.
- **Pomodoro timer** (`pomodoro.dfy`). A `Timer` class whose handlers
  (tick, effect, completion, toggle, reset, switch mode) are proved
  against pure state functions. Those functions carry an invariant and
  run-over-time lemmas. The `mm:ss` formatter is proved to read back as
  the seconds it shows.
- **Calendar** (`calendar.dfy`, with `civil_date.dfy`). It covers:
  - events per day and per hour slot;
  - the "+k more" cap in month cells;
  - the week view's seven days;
  - the month grid, built by counted loops and proved equal to a
    specification grid, with whole weeks from Sunday to Saturday;
  - day, week and month navigation, including `setMonth` roll-over;
  - a `CalendarView` class for the component's state and the
    create-event guard.

  Dates are integer millisecond time values with a zero time-zone
  offset. `CivilDate` implements the following parts of ECMA-262:
  - the day and year arithmetic of section 21.4.1 (`MakeDay`,
    `MakeDate`, year and month lookup);
  - the getters and setters of section 21.4.4 that the calendar uses
    (`getFullYear`, `getMonth`, `getDate`, `getDay`, `setDate`,
    `setMonth`);
  - MakeFullYear, which the `Date` constructor applies (section
    21.4.2.1): `new Date(y, m, d)` reads a year of 0..99 as 1900..1999.
- **Dashboard** (`dashboard.dfy`). It covers:
  - `updateStats`, a method whose summing loop is proved against
    `StatsAfter`;
  - the due-date class;
  - the priority badge;
  - the quick-add whitespace guard;
  - the error texts shown when a load fails.

Shared pieces: `Sequences` (order-preserving `filter` and the
"first k, then +n more" cap), `JsString` (`trim` and its truthiness
test) and `Wrappers` (`Option`).

## Model

| member | source | states |
|---|---|---|
| Outline.ParseNodes | server/services/dynalist.js:74-119 | Two linear passes over the nodes, with no recursion, return exactly `Parse(nodes)`: the first-pass table with every entry's children linked, and the top-level ids. This holds on every input, cyclic child lists included. |
| Outline.ParseAllDocuments | server/routes/dynalist.js:35-43 | The documents route's loop gives one result per document, in order. Each result carries the document's id and title and `Parse` of its nodes. |
| Outline.BuildNodeMap | server/services/dynalist.js:79-92 | The first pass's table is `FirstPass(nodes)`: one fresh entry per id of a non-blank node, where a later such node replaces an earlier one. |
| Outline.LinkAll | server/services/dynalist.js:94-116 | After the second pass, every entry keeps its first-pass fields. Its children are those linked by all nodes carrying its id. The top-level list is the ids the pass pushed, in input order. |
| Outline.VisitNode | server/services/dynalist.js:95-115 | Visiting node `i` advances the linked table and the top-level list from `i` nodes to `i + 1`. |
| Outline.LinkChildren | server/services/dynalist.js:98-105 | The child ids found in the table are appended to the entry's children, in list order. Ids not in the table are skipped. No other entry changes. |
| Outline.FirstPassKeys | server/services/dynalist.js:80-92 | An id has an entry exactly when some node with that id has non-blank content. |
| Outline.FirstPassLastWins | server/services/dynalist.js:80-92 | The stored entry comes from the last non-blank node with that id and has no children yet. |
| Outline.EntryFields | server/services/dynalist.js:81-90 | Each entry has non-blank content. Its note defaults to "", `checked` to false, and created/modified are copied from the last non-blank node with its id. |
| Outline.LinkedChildrenMembers | server/services/dynalist.js:98-105 | After `k` nodes, `c` is linked under `id` exactly when `c` has an entry and one of those nodes carrying `id` lists `c`. |
| Outline.ChildrenMembers | server/services/dynalist.js:98-105 | `c` is a child of entry `x` exactly when `c` is itself an entry and some node with id `x` lists it. Children of blank nodes are not attached elsewhere. |
| Outline.LinkedChildrenOfUnique | server/services/dynalist.js:95-105 | With unique ids, only node `i` contributes children to its own id. |
| Outline.ChildrenOfUniqueNode | server/services/dynalist.js:98-105 | With unique ids, a kept node's children are its child ids that have entries, in its listed order. |
| Outline.TopLevelIdsMembers | server/services/dynalist.js:107-114 | An id is pushed as top-level exactly when it has an entry, is top-level, and some node carries it. |
| Outline.TopLevelIff | server/services/dynalist.js:107-114 | An entry's id is pushed as top-level exactly when no node other than `root` lists it as a child, or it is `root` itself. Blank nodes count as parents here. |
| Outline.RootChildrenAreTopLevel | server/services/dynalist.js:107-114 | A kept direct child of `root` that no other node lists is top-level. |
| Outline.OrphanedByBlankParent | server/services/dynalist.js:81-114 | A non-root id listed by a non-root node, where every node listing it is blank, is neither top-level nor anyone's child: its subtree is lost. |
| Outline.CycleIsNotTopLevel | server/services/dynalist.js:107-114 | Two non-root nodes that list each other are both excluded from the top level. |
| Outline.RootCycleIsTopLevel | server/services/dynalist.js:107-114 | A cycle through `root` is kept: `root` is top-level by its own id, and a child only `root` lists is top-level even when it lists `root` back. |
| Outline.RootsInInputOrder | server/services/dynalist.js:95-116 | Top-level ids appear in the order of their nodes in the input. |
| Outline.RootsDistinctAndBounded | server/services/dynalist.js:95-118 | With unique ids, no top-level id repeats, and there are no more of them than entries. |
| JsString.TrimStartSpec | server/services/dynalist.js:81 | `trim`'s leading half keeps a suffix that is empty or starts with a non-whitespace character. |
| JsString.TrimStartDropsWhitespace | server/services/dynalist.js:81 | Everything dropped from the front is whitespace. |
| JsString.TrimEndSpec | server/services/dynalist.js:81 | The trailing half keeps a prefix that is empty or ends with a non-whitespace character. |
| JsString.TrimEndDropsWhitespace | server/services/dynalist.js:81 | Everything dropped from the back is whitespace. |
| JsString.HasTextIff | server/services/dynalist.js:81 | `s.trim()` is non-empty exactly when `s` has a non-whitespace character. |
| Sequences.Filter | client/src/components/EisenhowerMatrix.js:12 | `filter` keeps only elements that pass, and keeps every element that passes. |
| Sequences.FilterAppend | client/src/components/EisenhowerMatrix.js:12 | Filtering a concatenation filters each part in turn, so elements keep their relative order. |
| Sequences.FilterKeepsOrder | server/services/dynalist.js:112-114 | Two kept elements appear in the result in their input order. |
| Sequences.FilterDistinct | server/services/dynalist.js:112-114 | Filtering a list without repeats gives a list without repeats. |
| Sequences.DistinctWithin | server/services/dynalist.js:112-114 | A list without repeats drawn from a set is no longer than the set. |
| Sequences.Shown | client/src/components/EisenhowerMatrix.js:55 | `slice(0, limit)` gives exactly min(length, limit) items, a prefix of the list, so the whole list when it is short enough. |
| Sequences.MoreCount | client/src/components/EisenhowerMatrix.js:60-62 | The "+n more" count is positive exactly when there are more than `limit` items, and then it is length − limit. |
| Sequences.ShownPlusMore | client/src/components/EisenhowerMatrix.js:55-62 | Shown items plus the "+n more" count account for every item, and the hidden ones are the rest of the list. |
| Eisenhower.QuadrantMembers | client/src/components/EisenhowerMatrix.js:12-30 | A quadrant lists a task exactly when it is in the list and meets that quadrant's own predicate, with the threshold at that filter's clock reading + 86 400 000 ms. |
| Eisenhower.QuadrantsKeepOrder | client/src/components/EisenhowerMatrix.js:12-30 | Each quadrant is an order-preserving subsequence of the input tasks. |
| Eisenhower.PriorityFourDoFirst | client/src/components/EisenhowerMatrix.js:12 | A priority-4 task is in "Do First" whatever its due date. |
| Eisenhower.DisjointQuadrants | client/src/components/EisenhowerMatrix.js:12-30 | Each filter has its own clock reading. "Do First" and "Schedule" share no task when the second reading is not earlier than the first. "Schedule" and "Eliminate" never share one. |
| Eisenhower.PriorityTwoDueSoonOverlaps | client/src/components/EisenhowerMatrix.js:12-24 | A priority-2 task due within a day of both the first and the third filter's readings is in both "Do First" and "Delegate". |
| Eisenhower.NotAPartition | client/src/components/EisenhowerMatrix.js:12-30 | A priority-2 task due at the first reading makes the four lists hold two items in all, so the quadrants are not a partition. This holds whenever the later readings are not earlier than the first. |
| Eisenhower.EveryRankedTaskListed | client/src/components/EisenhowerMatrix.js:12-30 | A task with priority 1 to 4 is in at least one quadrant, unless its due instant lies between the thresholds of two filters' clock readings. |
| Eisenhower.OneReadingListsEveryRankedTask | client/src/components/EisenhowerMatrix.js:12-30 | With one clock reading shared by all four filters, every task with priority 1 to 4 is listed. |
| Eisenhower.ClockGapUnlisted | client/src/components/EisenhowerMatrix.js:12-18 | A priority-3 task due exactly one day after the first reading is listed in no quadrant when the clock has moved on by a millisecond for the other filters. |
| Eisenhower.UndatedLowPriorityOnlyEliminate | client/src/components/EisenhowerMatrix.js:12-30 | A task with priority at most 2 and no due date is in "Eliminate" and in no other quadrant, whatever the clock readings. |
| Eisenhower.QuadrantDisplay | client/src/components/EisenhowerMatrix.js:55-62 | A quadrant shows exactly its first min(n, 5) tasks. "+k more" appears exactly when n > 5, and then k = n − 5. |
| Pomodoro.Duration | client/src/components/PomodoroTimer.js:11-15 | Every mode has a positive length. |
| Pomodoro.InitialState | client/src/components/PomodoroTimer.js:5-15 | The timer mounts stopped in work mode with 1500 s left and no sessions. The lengths are work 1500, short break 300 and long break 900 seconds. |
| Pomodoro.TickChanges | client/src/components/PomodoroTimer.js:17-21 | A tick changes the state exactly when the timer is active with time left, and then it only lowers the countdown by one. |
| Pomodoro.ValidPreserved | client/src/components/PomodoroTimer.js:17-67 | Every operation keeps 0 ≤ timeLeft ≤ the current mode's length. |
| Pomodoro.SettledIsPositive | client/src/components/PomodoroTimer.js:22-23 | Once the effect has run, the countdown is positive, so a countdown at zero always completes the session. |
| Pomodoro.CompleteStops | client/src/components/PomodoroTimer.js:33-51 | Completion stops the timer and refills the countdown to the new mode's length. |
| Pomodoro.CompleteWork | client/src/components/PomodoroTimer.js:36-47 | Completing a work session counts it. The next mode is a long break exactly when the new count is a multiple of 4, and a short break otherwise. |
| Pomodoro.CompleteBreak | client/src/components/PomodoroTimer.js:48-51 | Completing a break returns to 1500 s of work, stopped, with sessions unchanged. |
| Pomodoro.ResetAndSwitch | client/src/components/PomodoroTimer.js:58-67 | Reset is a switch to the current mode. A switch sets the mode and its length, stops the timer, and keeps sessions. |
| Pomodoro.ToggleOnlyFlips | client/src/components/PomodoroTimer.js:54-56 | Toggling flips activity alone, with no guard on the countdown, and undoes itself. |
| Pomodoro.StoppedStaysPut | client/src/components/PomodoroTimer.js:17-24 | A stopped timer with time left is unchanged however many seconds pass. |
| Pomodoro.RunCountsDown | client/src/components/PomodoroTimer.js:17-21 | While time is left, a running timer only counts down, one per second. |
| Pomodoro.RunToCompletion | client/src/components/PomodoroTimer.js:17-51 | A running timer with `t` seconds left completes after exactly `t` seconds, then waits stopped. |
| Pomodoro.RunSplit | client/src/components/PomodoroTimer.js:17-24 | Running `a` then `b` seconds is the same as running `a + b` seconds. |
| Pomodoro.WorkSessionEnds | client/src/components/PomodoroTimer.js:33-47 | A work session run to its end counts one session and leaves the timer stopped in a break. |
| Pomodoro.Timer.Tick | client/src/components/PomodoroTimer.js:18-21 | The tick handler performs `Ticked` on the fields and keeps the invariant. |
| Pomodoro.Timer.Settle | client/src/components/PomodoroTimer.js:17-24 | The effect performs `Settled` and leaves a positive countdown. |
| Pomodoro.Timer.HandleTimerComplete | client/src/components/PomodoroTimer.js:33-52 | The completion handler performs `Completed` and restores the invariant. |
| Pomodoro.Timer.ToggleTimer | client/src/components/PomodoroTimer.js:54-56 | The toggle handler performs `Toggled`. |
| Pomodoro.Timer.ResetTimer | client/src/components/PomodoroTimer.js:58-61 | The reset handler performs `Reset`. |
| Pomodoro.Timer.SwitchMode | client/src/components/PomodoroTimer.js:63-67 | The switch handler performs `Switched`. |
| Pomodoro.Timer.constructor | client/src/components/PomodoroTimer.js:5-8 | The fields start at the initial state. |
| Pomodoro.TwoDigits | client/src/components/PomodoroTimer.js:72 | `toString().padStart(2, '0')` gives at least two digits that read back as the number, and exactly two below 100. |
| Pomodoro.ValueOfDigits | client/src/components/PomodoroTimer.js:72 | A number's decimal digits read back as the number. |
| Pomodoro.FormatTimeRoundTrip | client/src/components/PomodoroTimer.js:69-73 | `formatTime(s)` is digits for s div 60, a colon and two digits for s mod 60, so it reads back as s. It is exactly 5 characters when s < 6000. |
| CivilDate.DayFromYearIsClosedForm | client/src/components/Calendar.js:37-38 | Counting years one by one agrees with the closed-form year start of ECMA-262, before 1970 as well as after. |
| CivilDate.YearFromDay | client/src/components/Calendar.js:35 | The year found for a day starts on or before it, and the next year starts after it. |
| CivilDate.MonthInYear | client/src/components/Calendar.js:36 | The month found for a day of the year is the one whose span contains it. |
| CivilDate.ToCivilSpec | client/src/components/Calendar.js:35-36 | `getFullYear`, `getMonth` and `getDate` give a valid date that names the same day through `MakeDay`. |
| CivilDate.CivilRoundTrip | client/src/components/Calendar.js:52 | A valid date, turned into a day by `MakeDay(y, m, d)`, reads back as the same date. |
| CivilDate.MakeDayNormalised | client/src/components/Calendar.js:38 | A month outside 0..11 carries into the year, and a date carries into the following days. So `MakeDay(y, m + 1, 0)` is the last day of month `m`. |
| CivilDate.NextMonthStart | client/src/components/Calendar.js:38 | The next month starts one month's length after this one. |
| CivilDate.SetDateShifts | client/src/components/Calendar.js:24-28 | `setDate(getDate() + k)` moves exactly `k` days and keeps the time of day. |
| CivilDate.SetMonthKeepsDate | client/src/components/Calendar.js:71 | `setMonth(m)` keeps the date and time of day when the target month is long enough, with the year carried. |
| CivilDate.SetMonthRollsOver | client/src/components/Calendar.js:71 | A date that the target month lacks rolls over into the following month. |
| CivilDate.LastOfMonth | client/src/components/Calendar.js:38 | `MakeDay(y, m + 1, 0)` and `MakeDay(y, m, n)`, with n the month's length, are both the month's last day. |
| CivilDate.PreviousMonthStart | client/src/components/Calendar.js:43-46 | A month starts exactly the previous month's length after the previous month starts, so `MakeDay(y, m, 0)` is the previous month's last day. |
| CivilDate.WeekDay | client/src/components/Calendar.js:24 | `getDay` is always in 0..6. |
| CivilDate.WeekDayShift | client/src/components/Calendar.js:24 | Consecutive days have consecutive weekdays. |
| Calendar.EventsForDateMembers | client/src/components/Calendar.js:80-85 | A day lists exactly the events whose start (`dateTime`, else `date`) falls on that calendar day. |
| Calendar.EventsForDateOrder | client/src/components/Calendar.js:80-85 | A day's list keeps input order. |
| Calendar.EventOnOneDay | client/src/components/Calendar.js:80-85 | An event with a start is listed under a day exactly when its start falls on that day, so under one day only. One without a start is listed under none. |
| Calendar.HourSlotMembers | client/src/components/Calendar.js:148-160 | Slot `i` holds exactly that day's timed events whose start hour is `i`. |
| Calendar.SlotsPartitionTimedEvents | client/src/components/Calendar.js:148-160 | Each timed event of the day is in exactly one of the 24 slots. All-day events are in none. |
| Calendar.MonthCellDisplay | client/src/components/Calendar.js:218-225 | A month cell shows exactly the first min(n, 3) events. "+k more" appears exactly when n > 3, and then k = n − 3. |
| Calendar.ShiftDays | client/src/components/Calendar.js:27-28 | Copying a date and calling `setDate(getDate() + k)` gives the same time of day `k` days later. |
| Calendar.GetWeekDays | client/src/components/Calendar.js:21-32 | The loop returns `WeekOf(currentDate)`. |
| Calendar.WeekShape | client/src/components/Calendar.js:21-32 | The week is seven consecutive days from a Sunday, keeps the time of day, and holds the current date at its weekday's position. |
| Calendar.GetMonthDays | client/src/components/Calendar.js:34-62 | The three loops return `MonthGrid` of the current date's month. The year is the current date's year, or 1900 + that year when it is 0..99, because `new Date(year, …)` applies MakeFullYear. |
| Calendar.MonthCells | client/src/components/Calendar.js:37-61 | The previous-month, current-month and next-month runs together are the month grid of `FullYear(year)`. |
| Calendar.FirstDayOfMonth | client/src/components/Calendar.js:37-43 | The number of leading cells is the weekday of the 1st of the month in `FullYear(year)`. The padding anchor is the previous month's last day, at midnight. |
| Calendar.LastDayOfMonth | client/src/components/Calendar.js:51-56 | `lastDay.getDate()` is the length of the month in `FullYear(year)`, and the trailing padding is 6 minus its last day's weekday. |
| Calendar.LeadingCells | client/src/components/Calendar.js:43-48 | The leading loop lists the last `startPadding` days before the month, oldest first, marked outside the month. |
| Calendar.CurrentMonthCells | client/src/components/Calendar.js:50-53 | The middle loop lists days 1 to `last` from the 1st of the month in `FullYear(year)`, in order, marked as in the month. |
| Calendar.TrailingCells | client/src/components/Calendar.js:55-59 | The trailing loop lists days 1 to `endPadding` after the end of the month in `FullYear(year)`, marked outside the month. |
| Calendar.GridShape | client/src/components/Calendar.js:42-59 | A grid round a month of 28 to 31 days has 28 to 42 cells in whole weeks. Its first cell is a Sunday and its last a Saturday. |
| Calendar.MonthGridShape | client/src/components/Calendar.js:42-59 | The same, for the month grid itself. It is not always 42 cells. |
| Calendar.MonthGridCells | client/src/components/Calendar.js:42-59 | The cells are consecutive midnights. Exactly the cells from the leading padding onward, for the month's length, are marked as in the month. |
| Calendar.CurrentCellDate | client/src/components/Calendar.js:51-53 | The `k`-th day from the month's start is date `k + 1` of the month. |
| Calendar.TrailingCellDate | client/src/components/Calendar.js:56-59 | The `k`-th day after the month's end is date `k + 1` of the next month, with the year carried. |
| Calendar.LeadingCellDate | client/src/components/Calendar.js:43-48 | The leading cells are the last days of the previous month, in ascending order. |
| Calendar.NavigateByDays | client/src/components/Calendar.js:64-70 | The day and week views move by exactly 1 or 7 days in the given direction and keep the time of day. |
| Calendar.NavigateThereAndBack | client/src/components/Calendar.js:64-70 | In the day and week views, next then previous returns the original date. |
| Calendar.NavigateMonthKeepsDate | client/src/components/Calendar.js:70-71 | The month view keeps a date up to 28 and the time of day while the month moves by one, with the year carried. |
| Calendar.NavigateMonthWraps | client/src/components/Calendar.js:70-71 | Next from December is January of the next year. Previous from January is December of the year before. |
| Calendar.NavigateMonthRollsOver | client/src/components/Calendar.js:70-71 | A date the target month lacks rolls over into the month after it, as `setMonth` does. |
| Calendar.EmptyForm | client/src/components/Calendar.js:8-15 | The initial and reset form cannot create an event. Its recurrence is "none" and its task list is empty. |
| Calendar.CalendarView.constructor | client/src/components/Calendar.js:5-15 | The component opens in week view on `now`, with the modal closed and the form empty. |
| Calendar.CalendarView.NavigateDate | client/src/components/Calendar.js:64-74 | The current date becomes the date one step of the view away. Nothing else changes. |
| Calendar.CalendarView.GoToToday | client/src/components/Calendar.js:76-78 | The current date becomes `now`. Nothing else changes. |
| Calendar.CalendarView.SetView | client/src/components/Calendar.js:118-135 | Switching view keeps the date. |
| Calendar.CalendarView.SetShowEventModal | client/src/components/Calendar.js:137 | Opening or closing the modal changes nothing else. |
| Calendar.CalendarView.SetNewEvent | client/src/components/Calendar.js:8-15 | A form edit replaces only the form. |
| Calendar.CalendarView.HandleCreateEvent | client/src/components/Calendar.js:87-100 | With a title and a date, the form is handed on, the modal closes and the form empties. Otherwise nothing changes. Every form handed on has both. |
| Calendar.CreateTwice | client/src/components/Calendar.js:87-100 | Two presses of Create hand on at most one form. |
| Dashboard.InitialStats | client/src/App.js:12 | Every counter starts at 0, and there is no outline count yet. |
| Dashboard.UpdateStats | client/src/App.js:89-110 | The copy-and-overwrite, with its summing loop, returns `StatsAfter(prev, update)`. |
| Dashboard.StatsAfterFrame | client/src/App.js:89-110 | `completedToday` never changes. An update touches only its own source's counters, and a missing payload changes nothing. |
| Dashboard.StatsAfterCounts | client/src/App.js:93-106 | The Todoist load sets `totalTasks = |tasks|` and the calendar load sets `upcomingEvents = |events|`. The Dynalist load sets `totalDocs = |docs|` and `dynalistItems` to the sum of top-level entries. |
| Dashboard.UpdatesCommute | client/src/App.js:26-30 | Updates from different sources give the same record in either order, so the concurrent loaders' finishing order does not matter. |
| Dashboard.LaterLoadWins | client/src/App.js:89-110 | A later load from a source replaces the earlier one's counters, and repeating a load changes nothing. |
| Dashboard.CompletedTodayStaysZero | client/src/App.js:12 | From the initial record, `completedToday` is 0 after any run of updates. |
| Dashboard.TotalItemsBounded | client/src/App.js:103-105 | If no document counts more top-level entries than entries, neither do all of them together. |
| Dashboard.DynalistItemsAtMostEntries | client/src/App.js:101-106 | With unique node ids per document, `dynalistItems` for the documents route's result is at most the number of entries of any depth. |
| Dashboard.NestedEntryNotCounted | client/src/App.js:104 | A document with an entry nested under a non-root node counts fewer items than entries: descendants are not counted. |
| Dashboard.DueClassIff | client/src/App.js:186-207 | The class is "overdue" exactly when `isPast`. It is "today" exactly when `isToday` and not past, so a due time earlier today is overdue. Otherwise it is "". |
| Dashboard.TodayIsLaterToday | client/src/App.js:199-207 | A "today" due time lies between now and the end of today. |
| Dashboard.NumberText | client/src/App.js:385-386 | The badge number is decimal digits that read back as the number. A negative number gets a leading minus sign, and the digits after it read back as its magnitude. |
| Dashboard.BadgeTable | client/src/App.js:383-387 | Priorities 4, 3 and 2 show "P1" high, "P2" medium and "P3" low. Priority 1 shows no badge. |
| Dashboard.BadgeRule | client/src/App.js:383-387 | A badge is shown exactly when priority > 1. It is high exactly for 4 and medium exactly for 3. For 1 < priority ≤ 5 its label is "P" followed by digits that read back as 5 − priority. Above 5 the label is "P-" followed by digits that read back as priority − 5. |
| Dashboard.QuickAddGuard | client/src/App.js:124-130 | Nothing is posted exactly when the text is all whitespace. Otherwise the text is posted as typed, untrimmed. |
| Dashboard.ErrorOrCases | client/src/App.js:82 | `serverError \|\| fallback` shows a non-empty server text as is, and the fallback otherwise. |
| Dashboard.ErrorMessagesShown | client/src/App.js:44-83 | A failed load always shows a non-empty text. For the calendar, a 401 shows the not-authenticated text whatever the server says. |

## Behaviour worth noting

- The quadrants are four independent filters, not a first-match
  partition. A priority-2 task due within a day is listed twice
  (`Eisenhower.NotAPartition`).
- Each quadrant filter reads `Date.now()` afresh. A task whose due
  instant falls between two readings' thresholds can be listed in no
  quadrant (`Eisenhower.ClockGapUnlisted`).
- `parseNodes` keeps no visited set. It terminates on cyclic child lists
  because it makes two linear passes.
  - Two non-root nodes that list each other are both left off the top
    level (`Outline.CycleIsNotTopLevel`).
  - A cycle through `root` is kept at the top level, because a parent
    named `root` does not count (`Outline.RootCycleIsTopLevel`).
  - A cycle reachable from a top-level entry gives a circular object
    graph, which the documents route's `res.json` cannot serialise.
- The month grid has 28, 35 or 42 cells, depending on the month
  (`Calendar.MonthGridShape`).
- For a current date in years 0..99, the month view shows the grid of
  year 1900 + year, because `new Date(year, …)` applies MakeFullYear
  while navigation's `setDate`/`setMonth` do not
  (`Calendar.GetMonthDays`).
- The timer has no guard against starting at zero time.
  `toggleTimer` flips activity whatever the countdown is.
- `dynalistItems` counts top-level entries only, not their descendants
  (`Dashboard.NestedEntryNotCounted`).

## Left out

- Network calls:
  - `getFiles`, `getDocument`, `getAllDocuments`, and the Todoist and
    Google services (thin HTTP wrappers);
  - the Express routes and server start-up;
  - OAuth and the token cache.

  The documents route's per-document loop is kept as
  `Outline.ParseAllDocuments`.
- Async loaders, `Promise.all`, the loading and syncing flags, and the
  five-minute refresh interval. These are concurrency and timers. The
  loaders' effect on the statistics is modelled as a sequence of
  updates in any order (`Dashboard.ApplyAll`, `Dashboard.UpdatesCommute`).
- The timer's `setInterval`/`clearInterval` scheduling. A tick is an
  explicit method call.
- The progress percentage and SVG offsets. These are floating point.
- Locale formatting (`toLocaleString`, `toLocaleDateString`,
  `toLocaleTimeString`, `formatDate`, `formatEventTime`), ISO date-string
  parsing, time zones and daylight saving time. Dates are local
  millisecond time values with a zero offset, and "now" is a parameter.
- Invalid dates (NaN time values) and `TimeClip`'s range limit. All time
  values are integers.
- JSX rendering, apart from the display caps, and the modal's per-field
  edits (modelled as whole-form replacement).
- Calendar.CalendarView: the view is a three-constructor datatype, so an
  unknown view string, which `navigateDate` would leave unchanged,
  cannot occur.
- Calendar.CalendarView.HandleCreateEvent: the create-event callback is
  recorded in the `created` list rather than performed.
- Dashboard.QuickAddGuard: the post and the reload after it are network
  calls. Only the guard and the content sent are modelled.
- Dashboard.UpdateStats: a payload is either absent (`None`) or a list.
  Other falsy or non-list values are not modelled.
- Outline.ParseNodes: the result is a graph of shared node objects, with
  children pushed by reference. The model gives it as an id-keyed table
  with children and roots listed by id. Object identity is not modelled,
  and neither is a later mutation seen through two references.
- Outline.RawNode: a missing `content` or `children` is modelled as ""
  or [], which the code treats alike.
- Eisenhower.QuadrantMembers: one clock reading per filter. Inside a
  filter the source reads the clock again for every task, and the model
  does not capture that finer variation.
- Outline.ParseAllDocuments: the route's JSON serialisation is not
  modelled, so its failure on a circular graph is not modelled either.
- Eisenhower.QuadrantMembers: a task's due date is an integer instant.
  An unparsable due date, which compares false both ways in the code,
  is not modelled.
