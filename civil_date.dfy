/**
 * Local calendar arithmetic as the JavaScript `Date` object performs it
 * (the day and year functions of section 21.4.1 of ECMA-262), on integer
 * millisecond time values in a zone with no offset: a time value splits
 * into a day number counted from 1 January 1970 and the milliseconds
 * within that day, and a day number converts to and from a proleptic
 * Gregorian (year, month, date) with months counted from 0.
 */
module CivilDate {

  const MsPerDay: int := 86400000
  const MsPerHour: int := 3600000

  /** The day a time value falls on (floor division). */
  function Day(t: int): int
  {
    t / MsPerDay
  }

  function TimeWithinDay(t: int): (r: int)
    ensures 0 <= r < MsPerDay
  {
    t % MsPerDay
  }

  function MakeDate(day: int, time: int): int
  {
    day * MsPerDay + time
  }

  /** A time value is its day's start plus the time within the day, and MakeDate splits back the same way. */
  lemma DaySplit(t: int, day: int, time: int)
    requires 0 <= time < MsPerDay
    ensures MakeDate(Day(t), TimeWithinDay(t)) == t
    ensures Day(MakeDate(day, time)) == day && TimeWithinDay(MakeDate(day, time)) == time
  {
  }

  predicate IsLeapYear(y: int)
  {
    y % 4 == 0 && (y % 100 != 0 || y % 400 == 0)
  }

  function DaysInYear(y: int): int
  {
    if IsLeapYear(y) then 366 else 365
  }

  /** The number of the first day of year `y`, counted year by year from 1970. */
  function DayFromYear(y: int): int
    decreases if y >= 1970 then y - 1970 else 1970 - y
  {
    if y == 1970 then 0
    else if y > 1970 then DayFromYear(y - 1) + DaysInYear(y - 1)
    else DayFromYear(y + 1) - DaysInYear(y)
  }

  /** Consecutive years start a year's length apart. */
  lemma NextYearStart(y: int)
    ensures DayFromYear(y + 1) == DayFromYear(y) + DaysInYear(y)
  {
  }

  /** The closed form of DayFromYear given in section 21.4.1.3 of ECMA-262. */
  function DayFromYearClosedForm(y: int): int
  {
    365 * (y - 1970) + (y - 1969) / 4 - (y - 1901) / 100 + (y - 1601) / 400
  }

  lemma ClosedFormStep(y: int)
    ensures DayFromYearClosedForm(y + 1) == DayFromYearClosedForm(y) + DaysInYear(y)
  {
    FloorStep4(y);
    FloorStep100(y);
    FloorStep400(y);
    LeapDivisors(y);
  }

  /** A multiple of 400 is a multiple of 100, and a multiple of 100 is a multiple of 4. */
  lemma LeapDivisors(y: int)
    ensures y % 400 == 0 ==> y % 100 == 0
    ensures y % 100 == 0 ==> y % 4 == 0
  {
    if y % 400 == 0 {
      MultipleOf100(y, 4 * (y / 400));
    }
    if y % 100 == 0 {
      MultipleOf4(y, 25 * (y / 100));
    }
  }

  lemma MultipleOf100(y: int, k: int)
    requires y == 100 * k
    ensures y % 100 == 0
  {
  }

  lemma MultipleOf4(y: int, k: int)
    requires y == 4 * k
    ensures y % 4 == 0
  {
  }

  /** Each floor term of the closed form grows by one exactly at a multiple of its period. */
  lemma FloorStep4(y: int)
    ensures (y + 1 - 1969) / 4 == (y - 1969) / 4 + (if y % 4 == 0 then 1 else 0)
  {
  }

  lemma FloorStep100(y: int)
    ensures (y + 1 - 1901) / 100 == (y - 1901) / 100 + (if y % 100 == 0 then 1 else 0)
  {
  }

  lemma FloorStep400(y: int)
    ensures (y + 1 - 1601) / 400 == (y - 1601) / 400 + (if y % 400 == 0 then 1 else 0)
  {
  }

  /** Counting years one by one agrees with the closed form for every year, before 1970 as well as after. */
  lemma {:induction false} DayFromYearIsClosedForm(y: int)
    ensures DayFromYear(y) == DayFromYearClosedForm(y)
    decreases if y >= 1970 then y - 1970 else 1970 - y
  {
    if y > 1970 {
      DayFromYearIsClosedForm(y - 1);
      ClosedFormStep(y - 1);
    } else if y < 1970 {
      DayFromYearIsClosedForm(y + 1);
      ClosedFormStep(y);
    }
  }

  lemma {:induction false} YearStartsIncrease(a: int, b: int)
    requires a < b
    ensures DayFromYear(a + 1) <= DayFromYear(b)
    decreases b - a
  {
    if a + 1 < b {
      NextYearStart(a + 1);
      YearStartsIncrease(a + 1, b);
    }
  }

  /** The year containing day `d`. */
  function YearFromDay(d: int): (y: int)
    ensures DayFromYear(y) <= d < DayFromYear(y + 1)
  {
    if d >= 0 then YearUp(d, 1970) else YearDown(d, 1969)
  }

  function YearUp(d: int, y: int): (r: int)
    requires DayFromYear(y) <= d
    ensures DayFromYear(r) <= d < DayFromYear(r + 1)
    decreases d - DayFromYear(y)
  {
    NextYearStart(y);
    if DayFromYear(y + 1) <= d then YearUp(d, y + 1) else y
  }

  function YearDown(d: int, y: int): (r: int)
    requires d < DayFromYear(y + 1)
    ensures DayFromYear(r) <= d < DayFromYear(r + 1)
    decreases DayFromYear(y + 1) - d
  {
    NextYearStart(y);
    if d < DayFromYear(y) then YearDown(d, y - 1) else y
  }

  /** A day lies in exactly one year. */
  lemma YearUnique(y: int, d: int)
    requires DayFromYear(y) <= d < DayFromYear(y + 1)
    ensures YearFromDay(d) == y
  {
    var r := YearFromDay(d);
    if r < y {
      YearStartsIncrease(r, y);
    } else if y < r {
      YearStartsIncrease(y, r);
    }
  }

  /** Days in the year before month `m` of a common year. */
  function CommonDaysBefore(m: int): int
    requires 0 <= m <= 12
  {
    if m == 0 then 0 else if m == 1 then 31 else (153 * (m - 2) + 2) / 5 + 59
  }

  /** Days of year `y` before month `m` (0 = January; 12 = the whole year). */
  function DaysBeforeMonth(y: int, m: int): int
    requires 0 <= m <= 12
  {
    CommonDaysBefore(m) + if m >= 2 && IsLeapYear(y) then 1 else 0
  }

  function DaysInMonth(y: int, m: int): (r: int)
    requires 0 <= m < 12
    ensures 28 <= r <= 31
  {
    DaysBeforeMonth(y, m + 1) - DaysBeforeMonth(y, m)
  }

  lemma {:induction false} MonthStartsIncrease(y: int, a: int, b: int)
    requires 0 <= a < b <= 12
    ensures DaysBeforeMonth(y, a + 1) <= DaysBeforeMonth(y, b)
    decreases b - a
  {
    if a + 1 < b {
      assert DaysInMonth(y, a + 1) > 0;
      MonthStartsIncrease(y, a + 1, b);
    }
  }

  /** The month holding day `k` (counted from 0) of year `y`. */
  function MonthInYear(y: int, k: int): (m: int)
    requires 0 <= k < DaysInYear(y)
    ensures 0 <= m < 12 && DaysBeforeMonth(y, m) <= k < DaysBeforeMonth(y, m + 1)
  {
    MonthSearch(y, k, 0)
  }

  function MonthSearch(y: int, k: int, m: int): (r: int)
    requires 0 <= m < 12 && DaysBeforeMonth(y, m) <= k < DaysInYear(y)
    ensures m <= r < 12 && DaysBeforeMonth(y, r) <= k < DaysBeforeMonth(y, r + 1)
    decreases 12 - m
  {
    if k < DaysBeforeMonth(y, m + 1) || m == 11 then m else MonthSearch(y, k, m + 1)
  }

  lemma MonthUnique(y: int, m: int, k: int)
    requires 0 <= m < 12 && DaysBeforeMonth(y, m) <= k < DaysBeforeMonth(y, m + 1)
    ensures 0 <= k < DaysInYear(y) && MonthInYear(y, k) == m
  {
    if m < 11 {
      MonthStartsIncrease(y, m, 12);
    }
    var r := MonthInYear(y, k);
    if r < m {
      MonthStartsIncrease(y, r, m);
    } else if m < r {
      MonthStartsIncrease(y, m, r);
    }
  }

  /** A calendar date: full year, month from 0 to 11 and day of the month from 1. */
  datatype Civil = Civil(year: int, month: int, date: int)

  predicate ValidCivil(c: Civil)
  {
    0 <= c.month < 12 && 1 <= c.date <= DaysInMonth(c.year, c.month)
  }

  /**
   * The day number of (year, month, date) for any integers: months beyond
   * 0..11 carry into the year and dates beyond the month's length carry
   * into the following months, as MakeDay does.
   */
  function MakeDay(year: int, month: int, date: int): int
  {
    var ym := year + month / 12;
    var mn := month % 12;
    DayFromYear(ym) + DaysBeforeMonth(ym, mn) + date - 1
  }

  /** Within 0..11 the month needs no carrying. */
  lemma MakeDayInYear(year: int, month: int, date: int)
    requires 0 <= month < 12
    ensures MakeDay(year, month, date) == DayFromYear(year) + DaysBeforeMonth(year, month) + date - 1
  {
    assert month / 12 == 0 && month % 12 == month;
  }

  /** The calendar date of day `d`. */
  function ToCivil(d: int): Civil
  {
    var y := YearFromDay(d);
    NextYearStart(y);
    var k := d - DayFromYear(y);
    var m := MonthInYear(y, k);
    Civil(y, m, k - DaysBeforeMonth(y, m) + 1)
  }

  /** The date of a day is a valid calendar date, and it names the day back through MakeDay. */
  lemma ToCivilSpec(d: int)
    ensures ValidCivil(ToCivil(d))
    ensures MakeDay(ToCivil(d).year, ToCivil(d).month, ToCivil(d).date) == d
  {
    var y := YearFromDay(d);
    NextYearStart(y);
    var k := d - DayFromYear(y);
    var m := MonthInYear(y, k);
    var c := Civil(y, m, k - DaysBeforeMonth(y, m) + 1);
    assert ToCivil(d) == c;
    MakeDayInYear(y, m, c.date);
  }

  /** Every valid calendar date is the date of the day MakeDay gives it. */
  lemma CivilRoundTrip(c: Civil)
    requires ValidCivil(c)
    ensures ToCivil(MakeDay(c.year, c.month, c.date)) == c
  {
    var d := MakeDay(c.year, c.month, c.date);
    var k := DaysBeforeMonth(c.year, c.month) + c.date - 1;
    MakeDayInYear(c.year, c.month, c.date);
    MonthUnique(c.year, c.month, k);
    NextYearStart(c.year);
    YearUnique(c.year, d);
    ToCivilParts(d, c.year, k, c.month);
  }

  /** ToCivil read off from the year and the month the day falls in. */
  lemma ToCivilParts(d: int, y: int, k: int, m: int)
    requires YearFromDay(d) == y && k == d - DayFromYear(y)
    requires 0 <= k < DaysInYear(y) && MonthInYear(y, k) == m
    ensures ToCivil(d) == Civil(y, m, k - DaysBeforeMonth(y, m) + 1)
  {
  }

  /** The same, for a day number already known to be the one MakeDay gives. */
  lemma CivilAt(c: Civil, d: int)
    requires ValidCivil(c) && d == MakeDay(c.year, c.month, c.date)
    ensures ToCivil(d) == c
  {
    CivilRoundTrip(c);
  }

  /** A month number outside 0..11 names the same month as its normalised form. */
  lemma MakeDayNormalised(year: int, month: int, date: int)
    ensures MakeDay(year, month, date) == MakeDay(year + month / 12, month % 12, date)
    ensures MakeDay(year, month, date) == MakeDay(year, month, 1) + date - 1
  {
  }

  /** The next month starts a month's length after this one. */
  lemma NextMonthStart(year: int, month: int)
    ensures MakeDay(year, month + 1, 1) == MakeDay(year, month, 1) + DaysInMonth(year + month / 12, month % 12)
  {
    var ym, mn := year + month / 12, month % 12;
    if mn == 11 {
      assert (month + 1) / 12 == month / 12 + 1 && (month + 1) % 12 == 0;
      NextYearStart(ym);
    } else {
      assert (month + 1) / 12 == month / 12 && (month + 1) % 12 == mn + 1;
    }
  }

  /** The day before the next month's first is the month's last, the one whose date is the month's length. */
  lemma LastOfMonth(year: int, month: int, n: int)
    requires 0 <= month < 12 && n == DaysInMonth(year, month)
    ensures MakeDay(year, month + 1, 0) == MakeDay(year, month, 1) + n - 1
    ensures MakeDay(year, month, n) == MakeDay(year, month, 1) + n - 1
  {
    assert month / 12 == 0 && month % 12 == month;
    NextMonthStart(year, month);
    MakeDayNormalised(year, month + 1, 0);
    MakeDayNormalised(year, month, n);
  }

  /** A month starts a previous-month's length after the previous month starts. */
  lemma PreviousMonthStart(year: int, month: int, pn: int)
    requires pn == DaysInMonth(year + (month - 1) / 12, (month - 1) % 12)
    ensures MakeDay(year, month, 1) == MakeDay(year + (month - 1) / 12, (month - 1) % 12, 1) + pn
  {
    NextMonthStart(year, month - 1);
    assert month - 1 + 1 == month;
    MakeDayNormalised(year, month - 1, 1);
  }

  /** Day of the week, 0 = Sunday; day 0 was a Thursday. */
  function WeekDay(d: int): (r: int)
    ensures 0 <= r < 7
  {
    (d + 4) % 7
  }

  /** Consecutive days have consecutive weekdays. */
  lemma WeekDayShift(d: int, k: int)
    ensures WeekDay(d + k) == (WeekDay(d) + k) % 7
  {
  }

  // The local-time accessors and setters of a Date.

  function GetFullYear(t: int): int
  {
    ToCivil(Day(t)).year
  }

  function GetMonth(t: int): int
  {
    ToCivil(Day(t)).month
  }

  function GetDate(t: int): int
  {
    ToCivil(Day(t)).date
  }

  function GetDay(t: int): int
  {
    WeekDay(Day(t))
  }

  function GetHours(t: int): (r: int)
    ensures 0 <= r < 24
  {
    TimeWithinDay(t) / MsPerHour
  }

  /** `setDate`: the same year, month and time of day with the given day of the month. */
  function SetDate(t: int, date: int): int
  {
    MakeDate(MakeDay(GetFullYear(t), GetMonth(t), date), TimeWithinDay(t))
  }

  /** `setMonth`: the same year, day of the month and time of day in the given month. */
  function SetMonth(t: int, month: int): int
  {
    MakeDate(MakeDay(GetFullYear(t), month, GetDate(t)), TimeWithinDay(t))
  }

  /**
   * MakeFullYear, as the `Date` constructor applies it (section 21.4.2.1 of
   * ECMA-262): a year of 0..99 is read as 1900..1999.
   */
  function FullYear(year: int): int
  {
    if 0 <= year <= 99 then 1900 + year else year
  }

  /** `new Date(year, month, date)`: local midnight of that day, the year read through MakeFullYear. */
  function NewDate(year: int, month: int, date: int): int
  {
    MakeDate(MakeDay(FullYear(year), month, date), 0)
  }

  /** Setting the day of the month `k` past its current value moves the time exactly `k` days. */
  lemma SetDateShifts(t: int, k: int)
    ensures SetDate(t, GetDate(t) + k) == MakeDate(Day(t) + k, TimeWithinDay(t))
    ensures Day(SetDate(t, GetDate(t) + k)) == Day(t) + k
    ensures TimeWithinDay(SetDate(t, GetDate(t) + k)) == TimeWithinDay(t)
  {
    var c := ToCivil(Day(t));
    ToCivilSpec(Day(t));
    assert MakeDay(c.year, c.month, c.date + k) == Day(t) + k;
    DaySplit(t, Day(t) + k, TimeWithinDay(t));
  }

  /** `new Date(year, month, date)` is midnight of the day MakeDay names for the full year. */
  lemma NewDateDay(year: int, month: int, date: int)
    ensures Day(NewDate(year, month, date)) == MakeDay(FullYear(year), month, date)
    ensures TimeWithinDay(NewDate(year, month, date)) == 0
  {
    DaySplit(0, MakeDay(FullYear(year), month, date), 0);
  }

  /** `setMonth` lands on the day MakeDay names for the new month, at the same time of day. */
  lemma SetMonthDay(t: int, month: int)
    ensures Day(SetMonth(t, month)) == MakeDay(GetFullYear(t), month, GetDate(t))
    ensures TimeWithinDay(SetMonth(t, month)) == TimeWithinDay(t)
  {
    DaySplit(t, MakeDay(GetFullYear(t), month, GetDate(t)), TimeWithinDay(t));
  }

  /** The month of a time value is 0 to 11 and its day of the month 1 to 31. */
  lemma DateRange(t: int)
    ensures 0 <= GetMonth(t) < 12 && 1 <= GetDate(t) <= 31
  {
    ToCivilSpec(Day(t));
  }

  /** `setMonth` keeps the day of the month and the time of day when the target month is long enough. */
  lemma SetMonthKeepsDate(t: int, month: int)
    requires GetDate(t) <= DaysInMonth(GetFullYear(t) + month / 12, month % 12)
    ensures ToCivil(Day(SetMonth(t, month))) == Civil(GetFullYear(t) + month / 12, month % 12, GetDate(t))
    ensures TimeWithinDay(SetMonth(t, month)) == TimeWithinDay(t)
  {
    var y, date := GetFullYear(t), GetDate(t);
    var d := Day(SetMonth(t, month));
    DateRange(t);
    SetMonthDay(t, month);
    NormalisedDate(y, month, date, d);
  }

  /** A date within its month's length names that date of the normalised month. */
  lemma NormalisedDate(year: int, month: int, date: int, d: int)
    requires 1 <= date <= DaysInMonth(year + month / 12, month % 12)
    requires d == MakeDay(year, month, date)
    ensures ToCivil(d) == Civil(year + month / 12, month % 12, date)
  {
    MakeDayNormalised(year, month, date);
    CivilAt(Civil(year + month / 12, month % 12, date), d);
  }

  /** A date of 1 to 3 exists in every month. */
  lemma EarlyDateValid(c: Civil)
    requires 0 <= c.month < 12 && 1 <= c.date <= 3
    ensures ValidCivil(c)
  {
  }

  /** Counting `n` days, a whole month's length, past a month's start is counting from the next month's start. */
  lemma CarryIntoNextMonth(year: int, month: int, date: int, n: int)
    requires n == DaysInMonth(year + month / 12, month % 12)
    ensures MakeDay(year, month, date) == MakeDay(year + (month + 1) / 12, (month + 1) % 12, date - n)
  {
    MakeDayNormalised(year, month + 1, date - n);
    CarryWithinMonths(year, month, date, n);
  }

  lemma CarryWithinMonths(year: int, month: int, date: int, n: int)
    requires n == DaysInMonth(year + month / 12, month % 12)
    ensures MakeDay(year, month, date) == MakeDay(year, month + 1, date - n)
  {
    NextMonthStart(year, month);
    MakeDayNormalised(year, month, date);
    MakeDayNormalised(year, month + 1, date - n);
  }

  /** A date past the end of its month, by at most three days, names an early date of the next month. */
  lemma RollOver(year: int, month: int, date: int, n: int, d: int)
    requires n == DaysInMonth(year + month / 12, month % 12) && n < date <= 31
    requires d == MakeDay(year, month, date)
    ensures ToCivil(d) == Civil(year + (month + 1) / 12, (month + 1) % 12, date - n)
  {
    var next := Civil(year + (month + 1) / 12, (month + 1) % 12, date - n);
    assert d == MakeDay(next.year, next.month, next.date) by {
      CarryIntoNextMonth(year, month, date, n);
    }
    EarlyDateValid(next);
    CivilAt(next, d);
  }

  /** A day of the month that the target month lacks rolls over into the month after it. */
  lemma SetMonthRollsOver(t: int, month: int)
    requires GetDate(t) > DaysInMonth(GetFullYear(t) + month / 12, month % 12)
    ensures var n := DaysInMonth(GetFullYear(t) + month / 12, month % 12);
      ToCivil(Day(SetMonth(t, month))) == Civil(GetFullYear(t) + (month + 1) / 12, (month + 1) % 12, GetDate(t) - n)
    ensures TimeWithinDay(SetMonth(t, month)) == TimeWithinDay(t)
  {
    var d := Day(SetMonth(t, month));
    DateRange(t);
    SetMonthDay(t, month);
    RollOver(GetFullYear(t), month, GetDate(t), DaysInMonth(GetFullYear(t) + month / 12, month % 12), d);
  }
}
