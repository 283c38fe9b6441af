/**
 * The calendar view: which events fall on a day and in which hour slot,
 * the seven days of a week view, the padded grid of a month view, the
 * previous/next navigation of each view and the new-event form.
 * Dates are local time values in milliseconds (see CivilDate).
 */
module Calendar {
  import opened Wrappers
  import opened Sequences
  import opened CivilDate

  /** When an event starts: at a time of day, on a whole day (a day number), or not given. */
  datatype Start = DateTime(time: int) | AllDay(day: int) | NoStart

  datatype Event = Event(id: string, summary: string, start: Start)

  /** The day an event starts on; an event without a start is on no day. */
  function EventDay(e: Event): Option<int>
  {
    match e.start
    case DateTime(t) => Some(Day(t))
    case AllDay(d) => Some(d)
    case NoStart => None
  }

  function OnDay(day: int): Event -> bool
  {
    e => EventDay(e) == Some(day)
  }

  /** The events listed under the day of `date`, in their given order. */
  function EventsForDate(events: seq<Event>, date: int): seq<Event>
  {
    Filter(events, OnDay(Day(date)))
  }

  /** A day lists exactly the events that start on it. */
  lemma EventsForDateMembers(events: seq<Event>, date: int, e: Event)
    ensures e in EventsForDate(events, date) <==> e in events && EventDay(e) == Some(Day(date))
  {
    if e in events && EventDay(e) == Some(Day(date)) {
      var i :| 0 <= i < |events| && events[i] == e;
    }
    if e in EventsForDate(events, date) {
      var i :| 0 <= i < |EventsForDate(events, date)| && EventsForDate(events, date)[i] == e;
    }
  }

  /** A day's list keeps the input order: the events of a concatenation are those of each part in turn. */
  lemma EventsForDateOrder(a: seq<Event>, b: seq<Event>, date: int)
    ensures EventsForDate(a + b, date) == EventsForDate(a, date) + EventsForDate(b, date)
  {
    FilterAppend(a, b, OnDay(Day(date)));
  }

  /** An event with a start is listed under exactly one day; one without is listed under none. */
  lemma EventOnOneDay(events: seq<Event>, e: Event, date: int)
    requires e in events
    ensures e.start.NoStart? ==> e !in EventsForDate(events, date)
    ensures e.start.DateTime? ==> (e in EventsForDate(events, date) <==> Day(e.start.time) == Day(date))
    ensures e.start.AllDay? ==> (e in EventsForDate(events, date) <==> e.start.day == Day(date))
  {
    EventsForDateMembers(events, date, e);
  }

  /** The test of the day view's slot for `hour`: a timed event starting in that hour. */
  function InHour(hour: int): Event -> bool
  {
    (e: Event) => e.start.DateTime? && GetHours(e.start.time) == hour
  }

  /** The events shown in the day view's slot for `hour` of the day of `date`. */
  function HourSlot(events: seq<Event>, date: int, hour: int): seq<Event>
  {
    Filter(EventsForDate(events, date), InHour(hour))
  }

  /** A slot holds exactly the day's timed events that start within its hour. */
  lemma HourSlotMembers(events: seq<Event>, date: int, hour: int, e: Event)
    ensures e in HourSlot(events, date, hour) <==>
      e in events && e.start.DateTime? && Day(e.start.time) == Day(date) && GetHours(e.start.time) == hour
  {
    var day := EventsForDate(events, date);
    EventsForDateMembers(events, date, e);
    if e in day && InHour(hour)(e) {
      var i :| 0 <= i < |day| && day[i] == e;
    }
    if e in HourSlot(events, date, hour) {
      var i :| 0 <= i < |HourSlot(events, date, hour)| && HourSlot(events, date, hour)[i] == e;
    }
  }

  /** Each timed event of the day sits in exactly one of the 24 slots; an all-day event sits in none. */
  lemma SlotsPartitionTimedEvents(events: seq<Event>, date: int, e: Event, hour: int)
    requires e in events
    ensures e.start.DateTime? && Day(e.start.time) == Day(date) ==>
      0 <= GetHours(e.start.time) < 24 && (e in HourSlot(events, date, hour) <==> hour == GetHours(e.start.time))
    ensures !e.start.DateTime? ==> e !in HourSlot(events, date, hour)
  {
    HourSlotMembers(events, date, hour, e);
  }

  /** A month cell lists at most this many events before its "+k more" line. */
  const CellLimit: nat := 3

  /** A month cell shows the first three of its day's events, and "+k more" with the rest counted when there are more. */
  lemma MonthCellDisplay(events: seq<Event>, date: int)
    ensures var listed := EventsForDate(events, date);
      |Shown(listed, CellLimit)| == (if |listed| <= 3 then |listed| else 3) && Shown(listed, CellLimit) <= listed &&
      (|listed| <= 3 ==> Shown(listed, CellLimit) == listed) &&
      (MoreCount(listed, CellLimit) > 0 <==> |listed| > 3) &&
      (|listed| > 3 ==> MoreCount(listed, CellLimit) == |listed| - 3) &&
      |Shown(listed, CellLimit)| + MoreCount(listed, CellLimit) == |listed|
  {
    ShownPlusMore(EventsForDate(events, date), CellLimit);
  }

  // The week view.

  /** The week of `t`, Sunday first, each day at the time of day of `t`. */
  function WeekOf(t: int): (r: seq<int>)
    ensures |r| == 7
  {
    seq(7, i => MakeDate(Day(t) - GetDay(t) + i, TimeWithinDay(t)))
  }

  /** `new Date(t)` then `setDate(getDate() + k)`: the same time of day, `k` days on. */
  method ShiftDays(t: int, k: int) returns (day: int)
    ensures day == MakeDate(Day(t) + k, TimeWithinDay(t))
  {
    day := SetDate(t, GetDate(t) + k);
    SetDateShifts(t, k);
    DaySplit(day, 0, 0);
  }

  /** The seven days shown by the week view: from the Sunday on or before `currentDate`, one day at a time. */
  method GetWeekDays(currentDate: int) returns (days: seq<int>)
    ensures days == WeekOf(currentDate)
  {
    ghost var week := WeekOf(currentDate);
    var start := ShiftDays(currentDate, -GetDay(currentDate));
    DaySplit(currentDate, Day(currentDate) - GetDay(currentDate), TimeWithinDay(currentDate));
    days := [];
    var i := 0;
    while i < 7
      invariant 0 <= i <= 7
      invariant days == week[..i]
    {
      var day := ShiftDays(start, i);
      assert week[..i + 1] == week[..i] + [day];
      days := days + [day];
      i := i + 1;
    }
  }

  /** The week holds seven consecutive days from a Sunday, the current day among them, all at its time of day. */
  lemma WeekShape(t: int, i: int)
    requires 0 <= i < 7
    ensures GetDay(WeekOf(t)[0]) == 0
    ensures Day(WeekOf(t)[i]) == Day(WeekOf(t)[0]) + i
    ensures GetDay(WeekOf(t)[i]) == i
    ensures TimeWithinDay(WeekOf(t)[i]) == TimeWithinDay(t)
    ensures WeekOf(t)[GetDay(t)] == t
  {
    var w := GetDay(t);
    DaySplit(t, Day(t) - w, TimeWithinDay(t));
    DaySplit(t, Day(t) - w + i, TimeWithinDay(t));
  }

  // The month view.

  /** A cell of the month grid: local midnight of its day, and whether that day is in the month shown. */
  datatype Cell = Cell(date: int, isCurrentMonth: bool)

  /**
   * The month grid of month `month` of `year`: the days of the month,
   * preceded by the days of the previous month back to a Sunday and
   * followed by the days of the next month up to a Saturday.
   */
  function MonthGrid(year: int, month: int): seq<Cell>
    requires 0 <= month < 12
  {
    var first := MakeDay(year, month, 1);
    var n := DaysInMonth(year, month);
    GridCells(first, WeekDay(first), n, 6 - WeekDay(first + n - 1))
  }

  /** The month grid spelled out with its first day, its length and its paddings. */
  lemma MonthGridIs(year: int, month: int, first: int, p: nat, n: nat, e: nat)
    requires 0 <= month < 12 && first == MakeDay(year, month, 1) && n == DaysInMonth(year, month)
    requires p == WeekDay(first) && e == 6 - WeekDay(first + n - 1)
    ensures MonthGrid(year, month) == GridCells(first, p, n, e)
  {
  }

  /** `p` days before day `first`, then the `n` days from it marked as in the month, then `e` days after them. */
  function GridCells(first: int, p: nat, n: nat, e: int): (r: seq<Cell>)
    requires e >= 0
    ensures |r| == p + n + e
  {
    seq(p + n + e, i => Cell(MakeDate(first - p + i, 0), p <= i < p + n))
  }

  /** The first day of the month and the last day of the previous one, as the month view computes them. */
  lemma MonthStartBounds(year: int, month: int)
    ensures GetDay(NewDate(year, month, 1)) == WeekDay(MakeDay(FullYear(year), month, 1))
    ensures Day(NewDate(year, month, 0)) == MakeDay(FullYear(year), month, 1) - 1
    ensures TimeWithinDay(NewDate(year, month, 0)) == 0
  {
    NewDateDay(year, month, 1);
    NewDateDay(year, month, 0);
    MakeDayNormalised(FullYear(year), month, 0);
  }

  /** The last day of the month, as the month view computes it. */
  lemma MonthEndDay(year: int, month: int, n: int)
    requires 0 <= month < 12 && n == DaysInMonth(FullYear(year), month)
    ensures Day(NewDate(year, month + 1, 0)) == MakeDay(FullYear(year), month, 1) + n - 1
    ensures GetDay(NewDate(year, month + 1, 0)) == WeekDay(MakeDay(FullYear(year), month, 1) + n - 1)
  {
    NewDateDay(year, month + 1, 0);
    LastOfMonth(FullYear(year), month, n);
  }

  /** The date of the month's last day is the month's length. */
  lemma MonthEndDate(year: int, month: int, n: int)
    requires 0 <= month < 12 && n == DaysInMonth(FullYear(year), month)
    ensures GetDate(NewDate(year, month + 1, 0)) == n
  {
    var last := Day(NewDate(year, month + 1, 0));
    MonthEndDay(year, month, n);
    LastOfMonth(FullYear(year), month, n);
    CivilAt(Civil(FullYear(year), month, n), last);
  }

  /** Day `i` of the month, and day `i` of the next month, counted from the month's first day. */
  lemma MonthDay(year: int, month: int, i: int)
    requires 0 <= month < 12
    ensures NewDate(year, month, i) == MakeDate(MakeDay(FullYear(year), month, 1) + i - 1, 0)
    ensures NewDate(year, month + 1, i) == MakeDate(MakeDay(FullYear(year), month, 1) + DaysInMonth(FullYear(year), month) + i - 1, 0)
  {
    MakeDayNormalised(FullYear(year), month, i);
    MakeDayNormalised(FullYear(year), month + 1, i);
    NextMonthStart(FullYear(year), month);
    assert month / 12 == 0 && month % 12 == month;
  }

  /** `count` consecutive cells from day `from`, each at midnight. */
  function CellRun(from: int, count: nat, inMonth: bool): (r: seq<Cell>)
    ensures |r| == count
  {
    seq(count, j => Cell(MakeDate(from + j, 0), inMonth))
  }

  /** The three runs laid end to end are the month grid's cells. */
  lemma GridJoin(first: int, p: nat, n: nat, e: nat)
    ensures CellRun(first - p, p, false) + CellRun(first, n, true) + CellRun(first + n, e, false) ==
      GridCells(first, p, n, e)
  {
  }

  /** The leading run: the last `startPadding` days up to `prevMonthLast`, oldest first. */
  method LeadingCells(prevMonthLast: int, startPadding: int, ghost from: int) returns (cells: seq<Cell>)
    requires 0 <= startPadding && TimeWithinDay(prevMonthLast) == 0
    requires from == Day(prevMonthLast) + 1 - startPadding
    ensures cells == CellRun(from, startPadding, false)
  {
    ghost var run := CellRun(from, startPadding, false);
    cells := [];
    var i := startPadding - 1;
    while i >= 0
      invariant -1 <= i < startPadding
      invariant cells == run[..startPadding - 1 - i]
    {
      var day := ShiftDays(prevMonthLast, -i);
      assert run[..startPadding - i] == run[..startPadding - 1 - i] + [Cell(day, false)];
      cells := cells + [Cell(day, false)];
      i := i - 1;
    }
  }

  /** The days 1..last of the month, each marked as in the month. */
  method CurrentMonthCells(year: int, month: int, last: int) returns (cells: seq<Cell>)
    requires 0 <= month < 12 && 0 <= last
    ensures cells == CellRun(MakeDay(FullYear(year), month, 1), last, true)
  {
    ghost var run := CellRun(MakeDay(FullYear(year), month, 1), last, true);
    cells := [];
    var i := 1;
    while i <= last
      invariant 1 <= i <= last + 1
      invariant cells == run[..i - 1]
    {
      var day := NewDate(year, month, i);
      MonthDay(year, month, i);
      assert run[..i] == run[..i - 1] + [Cell(day, true)];
      cells := cells + [Cell(day, true)];
      i := i + 1;
    }
  }

  /** The days 1..endPadding of the next month, marked as outside the month. */
  method TrailingCells(year: int, month: int, endPadding: int, ghost from: int) returns (cells: seq<Cell>)
    requires 0 <= month < 12 && 0 <= endPadding
    requires from == MakeDay(FullYear(year), month, 1) + DaysInMonth(FullYear(year), month)
    ensures cells == CellRun(from, endPadding, false)
  {
    ghost var run := CellRun(from, endPadding, false);
    cells := [];
    var i := 1;
    while i <= endPadding
      invariant 1 <= i <= endPadding + 1
      invariant cells == run[..i - 1]
    {
      var day := NewDate(year, month + 1, i);
      MonthDay(year, month, i);
      assert run[..i] == run[..i - 1] + [Cell(day, false)];
      cells := cells + [Cell(day, false)];
      i := i + 1;
    }
  }

  /** The first day of the month: its weekday is the number of leading cells; the day before ends the previous month. */
  method FirstDayOfMonth(year: int, month: int) returns (startPadding: int, prevMonthLast: int)
    ensures startPadding == WeekDay(MakeDay(FullYear(year), month, 1))
    ensures Day(prevMonthLast) == MakeDay(FullYear(year), month, 1) - 1 && TimeWithinDay(prevMonthLast) == 0
  {
    var firstDay := NewDate(year, month, 1);
    startPadding := GetDay(firstDay);
    prevMonthLast := NewDate(year, month, 0);
    MonthStartBounds(year, month);
  }

  /** The last day of the month: its date is the month's length and its weekday fixes the number of trailing cells. */
  method LastDayOfMonth(year: int, month: int) returns (last: int, endPadding: int)
    requires 0 <= month < 12
    ensures last == DaysInMonth(FullYear(year), month)
    ensures endPadding == 6 - WeekDay(MakeDay(FullYear(year), month, 1) + last - 1)
  {
    ghost var n := DaysInMonth(FullYear(year), month);
    var lastDay := NewDate(year, month + 1, 0);
    last := GetDate(lastDay);
    assert last == n by {
      MonthEndDate(year, month, n);
    }
    assert GetDay(lastDay) == WeekDay(MakeDay(FullYear(year), month, 1) + last - 1) by {
      MonthEndDay(year, month, last);
    }
    endPadding := 6 - GetDay(lastDay);
  }

  /** The cells of the month view, built as three runs: previous month, this month, next month. */
  method GetMonthDays(currentDate: int) returns (days: seq<Cell>)
    ensures 0 <= GetMonth(currentDate) < 12
    ensures 0 <= GetFullYear(currentDate) <= 99 ==> days == MonthGrid(GetFullYear(currentDate) + 1900, GetMonth(currentDate))
    ensures !(0 <= GetFullYear(currentDate) <= 99) ==> days == MonthGrid(GetFullYear(currentDate), GetMonth(currentDate))
  {
    var year := GetFullYear(currentDate);
    var month := GetMonth(currentDate);
    ToCivilSpec(Day(currentDate));
    days := MonthCells(year, month);
  }

  /** The three runs of the month view for month `month` of `year`, laid end to end. */
  method MonthCells(year: int, month: int) returns (days: seq<Cell>)
    requires 0 <= month < 12
    ensures days == MonthGrid(FullYear(year), month)
  {
    var startPadding, prevMonthLast := FirstDayOfMonth(year, month);
    var last, endPadding := LastDayOfMonth(year, month);
    ghost var first := MakeDay(FullYear(year), month, 1);
    var leading := LeadingCells(prevMonthLast, startPadding, first - startPadding);
    var current := CurrentMonthCells(year, month, last);
    var trailing := TrailingCells(year, month, endPadding, first + last);
    days := leading + current + trailing;
    GridJoin(first, startPadding, last, endPadding);
    MonthGridIs(FullYear(year), month, first, startPadding, last, endPadding);
  }

  /** A grid built round a month of 28 to 31 days covers whole weeks, four to six of them, from a Sunday to a Saturday. */
  lemma GridShape(first: int, n: int)
    requires 28 <= n <= 31
    ensures var g := GridCells(first, WeekDay(first), n, 6 - WeekDay(first + n - 1));
      |g| % 7 == 0 && 28 <= |g| <= 42 &&
      GetDay(g[0].date) == 0 && GetDay(g[|g| - 1].date) == 6
  {
    var p := WeekDay(first);
    var e := 6 - WeekDay(first + n - 1);
    WeekDayShift(first, n - 1);
    assert p + n + e == 7 * ((p + n - 1) / 7 + 1);
    DaySplit(0, first - p, 0);
    DaySplit(0, first + n + e - 1, 0);
    WeekDayShift(first - p, p);
    WeekDayShift(first + n - 1, e);
  }

  /** The month grid covers whole weeks, four to six of them, from a Sunday to a Saturday. */
  lemma MonthGridShape(year: int, month: int)
    requires 0 <= month < 12
    ensures var g := MonthGrid(year, month);
      |g| % 7 == 0 && 28 <= |g| <= 42 &&
      GetDay(g[0].date) == 0 && GetDay(g[|g| - 1].date) == 6
  {
    GridShape(MakeDay(year, month, 1), DaysInMonth(year, month));
  }

  /** The grid's cells are consecutive days at midnight, and exactly the days `p..p+n-1` are marked as in the month. */
  lemma MonthGridCells(year: int, month: int, i: int)
    requires 0 <= month < 12 && 0 <= i < |MonthGrid(year, month)|
    ensures var g := MonthGrid(year, month); var first := MakeDay(year, month, 1); var p := WeekDay(first);
      Day(g[i].date) == first - p + i && TimeWithinDay(g[i].date) == 0 &&
      (g[i].isCurrentMonth <==> p <= i < p + DaysInMonth(year, month))
  {
    DaySplit(0, MakeDay(year, month, 1) - WeekDay(MakeDay(year, month, 1)) + i, 0);
  }

  /** Day `d`, the `k`-th from the month's first, is day `k + 1` of the month. */
  lemma CurrentCellDate(year: int, month: int, n: int, k: int, d: int)
    requires 0 <= month < 12 && n == DaysInMonth(year, month) && 0 <= k < n
    requires d == MakeDay(year, month, 1) + k
    ensures ToCivil(d) == Civil(year, month, k + 1)
  {
    MakeDayNormalised(year, month, k + 1);
    CivilAt(Civil(year, month, k + 1), d);
  }

  /** Day `d`, the `k`-th after the month's last, is day `k + 1` of the next month. */
  lemma TrailingCellDate(year: int, month: int, n: int, k: int, d: int)
    requires 0 <= month < 12 && n == DaysInMonth(year, month) && 0 <= k < 7
    requires d == MakeDay(year, month, 1) + n + k
    ensures ToCivil(d) == Civil(year + (month + 1) / 12, (month + 1) % 12, k + 1)
  {
    var next := Civil(year + (month + 1) / 12, (month + 1) % 12, k + 1);
    assert d == MakeDay(next.year, next.month, next.date) by {
      NextMonthStart(year, month);
      MakeDayNormalised(year, month + 1, k + 1);
      assert month / 12 == 0 && month % 12 == month;
    }
    CivilAt(next, d);
  }

  /** Day `d`, `p - i` days before the month's first, is among the last days of the previous month, in ascending order. */
  lemma LeadingCellDate(year: int, month: int, pn: int, p: int, i: int, d: int)
    requires pn == DaysInMonth(year + (month - 1) / 12, (month - 1) % 12) && 0 <= i < p <= 6
    requires d == MakeDay(year, month, 1) - p + i
    ensures ToCivil(d) == Civil(year + (month - 1) / 12, (month - 1) % 12, pn - p + i + 1)
  {
    var prev := Civil(year + (month - 1) / 12, (month - 1) % 12, pn - p + i + 1);
    assert ValidCivil(prev) && d == MakeDay(prev.year, prev.month, prev.date) by {
      PreviousMonthStart(year, month, pn);
      MakeDayNormalised(prev.year, prev.month, prev.date);
    }
    CivilAt(prev, d);
  }

  // Navigation.

  /** The three views of the calendar. */
  datatype View = DayView | WeekView | MonthView

  /**
   * `navigateDate`'s switch on the view: the date one step of `view` away from `t`,
   * `direction` being 1 for next and -1 for previous.
   */
  function Navigated(view: View, t: int, direction: int): int
  {
    match view
    case DayView => SetDate(t, GetDate(t) + direction)
    case WeekView => SetDate(t, GetDate(t) + direction * 7)
    case MonthView => SetMonth(t, GetMonth(t) + direction)
  }

  /** The day and week views move by exactly `k` days, one or seven in the direction given, keeping the time of day. */
  lemma NavigateByDays(view: View, t: int, direction: int, k: int)
    requires view != MonthView && k == (if view == DayView then direction else direction * 7)
    ensures Navigated(view, t, direction) == MakeDate(Day(t) + k, TimeWithinDay(t))
    ensures Day(Navigated(view, t, direction)) == Day(t) + k
    ensures TimeWithinDay(Navigated(view, t, direction)) == TimeWithinDay(t)
  {
    NavigatedIsSetDate(view, t, direction, k);
    SetDateShifts(t, k);
  }

  lemma NavigatedIsSetDate(view: View, t: int, direction: int, k: int)
    requires view != MonthView && k == (if view == DayView then direction else direction * 7)
    ensures Navigated(view, t, direction) == SetDate(t, GetDate(t) + k)
  {
    var date := GetDate(t) + k;
    if view == DayView {
      assert date == GetDate(t) + direction;
    } else {
      assert date == GetDate(t) + direction * 7;
    }
  }

  /** In the day and week views, next then previous comes back to the same date. */
  lemma NavigateThereAndBack(view: View, t: int)
    requires view != MonthView
    ensures Navigated(view, Navigated(view, t, 1), -1) == t
  {
    var k := if view == DayView then 1 else 7;
    var u := Navigated(view, t, 1);
    NavigateByDays(view, t, 1, k);
    NavigateByDays(view, u, -1, -k);
    DaySplit(t, 0, 0);
  }

  /** The month view keeps a day of the month up to 28 and the time of day, moving the month with the year carried. */
  lemma NavigateMonthKeepsDate(t: int, direction: int, month: int)
    requires month == GetMonth(t) + direction && GetDate(t) <= 28
    ensures ToCivil(Day(Navigated(MonthView, t, direction))) == Civil(GetFullYear(t) + month / 12, month % 12, GetDate(t))
    ensures TimeWithinDay(Navigated(MonthView, t, direction)) == TimeWithinDay(t)
  {
    assert Navigated(MonthView, t, direction) == SetMonth(t, month);
    assert GetDate(t) <= DaysInMonth(GetFullYear(t) + month / 12, month % 12);
    SetMonthKeepsDate(t, month);
  }

  /** Next from December is January of the next year; previous from January is December of the year before. */
  lemma NavigateMonthWraps(t: int)
    requires GetDate(t) <= 28
    ensures GetMonth(t) == 11 ==>
      ToCivil(Day(Navigated(MonthView, t, 1))) == Civil(GetFullYear(t) + 1, 0, GetDate(t))
    ensures GetMonth(t) == 0 ==>
      ToCivil(Day(Navigated(MonthView, t, -1))) == Civil(GetFullYear(t) - 1, 11, GetDate(t))
  {
    if GetMonth(t) == 11 {
      NavigateMonthKeepsDate(t, 1, 12);
    }
    if GetMonth(t) == 0 {
      NavigateMonthKeepsDate(t, -1, -1);
    }
  }

  /** A day of the month that the target month lacks rolls over into the month after the target. */
  lemma NavigateMonthRollsOver(t: int, direction: int, month: int)
    requires month == GetMonth(t) + direction
    requires GetDate(t) > DaysInMonth(GetFullYear(t) + month / 12, month % 12)
    ensures var n := DaysInMonth(GetFullYear(t) + month / 12, month % 12);
      ToCivil(Day(Navigated(MonthView, t, direction))) ==
        Civil(GetFullYear(t) + (month + 1) / 12, (month + 1) % 12, GetDate(t) - n)
    ensures TimeWithinDay(Navigated(MonthView, t, direction)) == TimeWithinDay(t)
  {
    assert Navigated(MonthView, t, direction) == SetMonth(t, month);
    SetMonthRollsOver(t, month);
  }

  // The new-event form.

  /** The fields of the new-event form, as the text the user typed. */
  datatype EventForm = EventForm(
    title: string, date: string, startTime: string, endTime: string, recurring: string, tasks: seq<string>)

  /** The form as it starts and as it is reset after an event is created. */
  function EmptyForm(): (f: EventForm)
    ensures !CanCreate(f) && f.recurring == "none" && f.tasks == []
  {
    EventForm("", "", "", "", "none", [])
  }

  /** An event is created only from a form with a title and a date; blank text counts as given. */
  predicate CanCreate(f: EventForm)
  {
    f.title != "" && f.date != ""
  }

  /** The state of the calendar component, with the forms it has handed on for creation. */
  class CalendarView {
    var view: View
    var currentDate: int
    var showEventModal: bool
    var newEvent: EventForm
    /** The forms passed to the create-event callback, oldest first. */
    var created: seq<EventForm>

    /** Every form handed on has a title and a date. */
    ghost predicate Valid()
      reads this
    {
      forall f :: f in created ==> CanCreate(f)
    }

    /** The component opens on the week of `now`, the modal closed and the form empty. */
    constructor(now: int)
      ensures Valid()
      ensures view == WeekView && currentDate == now && !showEventModal
      ensures newEvent == EmptyForm() && created == []
    {
      view := WeekView;
      currentDate := now;
      showEventModal := false;
      newEvent := EmptyForm();
      created := [];
    }

    /** One step of the current view forward or back; nothing else changes. */
    method NavigateDate(direction: int)
      requires Valid()
      modifies this
      ensures Valid()
      ensures currentDate == Navigated(view, old(currentDate), direction)
      ensures view == old(view) && showEventModal == old(showEventModal)
      ensures newEvent == old(newEvent) && created == old(created)
    {
      currentDate := Navigated(view, currentDate, direction);
    }

    /** Back to the current time, which is passed in. */
    method GoToToday(now: int)
      requires Valid()
      modifies this
      ensures Valid()
      ensures currentDate == now
      ensures view == old(view) && showEventModal == old(showEventModal)
      ensures newEvent == old(newEvent) && created == old(created)
    {
      currentDate := now;
    }

    /** Switches to another view, keeping the date. */
    method SetView(v: View)
      requires Valid()
      modifies this
      ensures Valid()
      ensures view == v
      ensures currentDate == old(currentDate) && showEventModal == old(showEventModal)
      ensures newEvent == old(newEvent) && created == old(created)
    {
      view := v;
    }

    /** Opens or closes the new-event modal. */
    method SetShowEventModal(show: bool)
      requires Valid()
      modifies this
      ensures Valid()
      ensures showEventModal == show
      ensures view == old(view) && currentDate == old(currentDate)
      ensures newEvent == old(newEvent) && created == old(created)
    {
      showEventModal := show;
    }

    /** Replaces the form's contents, as each field edit does. */
    method SetNewEvent(f: EventForm)
      requires Valid()
      modifies this
      ensures Valid()
      ensures newEvent == f
      ensures view == old(view) && currentDate == old(currentDate)
      ensures showEventModal == old(showEventModal) && created == old(created)
    {
      newEvent := f;
    }

    /**
     * With a title and a date, hands the form on, closes the modal and empties
     * the form; otherwise nothing happens.
     */
    method HandleCreateEvent()
      requires Valid()
      modifies this
      ensures Valid()
      ensures CanCreate(old(newEvent)) ==>
        created == old(created) + [old(newEvent)] && !showEventModal && newEvent == EmptyForm()
      ensures !CanCreate(old(newEvent)) ==>
        created == old(created) && showEventModal == old(showEventModal) && newEvent == old(newEvent)
      ensures view == old(view) && currentDate == old(currentDate)
    {
      if newEvent.title != "" && newEvent.date != "" {
        created := created + [newEvent];
        showEventModal := false;
        newEvent := EmptyForm();
      }
    }
  }

  /** Pressing Create twice hands the form on at most once: the first press empties it. */
  method CreateTwice(c: CalendarView)
    requires c.Valid()
    modifies c
    ensures c.Valid()
    ensures |c.created| <= |old(c.created)| + 1
    ensures c.newEvent == old(c.newEvent) || c.newEvent == EmptyForm()
  {
    c.HandleCreateEvent();
    c.HandleCreateEvent();
  }
}
