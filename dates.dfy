/**
 * Python's `date` and fixed-offset `datetime` as records, with the
 * proleptic Gregorian day numbering (`toordinal`), day arithmetic, the ISO
 * 8601 week-numbering year (`isocalendar`, `fromisocalendar`) and the ISO
 * text forms that `isoformat` writes and `fromisoformat` reads.
 */
module Dates {
  import opened Wrappers
  import opened Text

  /** A calendar date, as Python's `date(year, month, day)`. */
  datatype Date = Date(year: int, month: int, day: int)

  /**
   * A date-time. `offset` is the fixed UTC offset in minutes east of UTC;
   * `None` is a naive date-time (no tzinfo).
   */
  datatype DateTime = DateTime(year: int, month: int, day: int, hour: int, minute: int, second: int, offset: Option<int>)
  {
    /** `dt.date()`. */
    function DateOf(): Date { Date(year, month, day) }
  }

  const MinYear := 1
  const MaxYear := 9999

  predicate IsLeap(y: int) { y % 4 == 0 && (y % 100 != 0 || y % 400 == 0) }

  function DaysInYear(y: int): int { if IsLeap(y) then 366 else 365 }

  function DaysInMonth(y: int, m: int): int
    requires 1 <= m <= 12
  {
    if m == 2 then (if IsLeap(y) then 29 else 28)
    else if m == 4 || m == 6 || m == 9 || m == 11 then 30
    else 31
  }

  /** The dates Python can represent: years 1 to 9999. */
  predicate ValidDate(d: Date) {
    MinYear <= d.year <= MaxYear && 1 <= d.month <= 12 && 1 <= d.day <= DaysInMonth(d.year, d.month)
  }

  /** A valid date, a valid time of day and an offset strictly inside one day. */
  predicate ValidDateTime(t: DateTime) {
    && ValidDate(t.DateOf())
    && 0 <= t.hour <= 23 && 0 <= t.minute <= 59 && 0 <= t.second <= 59
    && (t.offset.Some? ==> -1439 <= t.offset.value <= 1439)
  }

  // ------------------------------------------------------------ day numbers

  /**
   * Days before January 1st of year `y`, counting from 0001-01-01: the
   * lengths of the years in between (years up to 1 by the closed form).
   */
  function DaysBeforeYear(y: int): int
    decreases if y > 1 then y else 0
  {
    if y <= 1 then DaysBeforeYearClosed(y)
    else DaysBeforeYear(y - 1) + DaysInYear(y - 1)
  }

  /** CPython's `_days_before_year`, in closed form. */
  function DaysBeforeYearClosed(y: int): int {
    var p := y - 1;
    p * 365 + p / 4 - p / 100 + p / 400
  }

  /** Days in year `y` before the first of month `m`. */
  function DaysBeforeMonth(y: int, m: int): int
    requires 1 <= m <= 12
  {
    var base :=
      if m == 1 then 0 else if m == 2 then 31 else if m == 3 then 59 else if m == 4 then 90
      else if m == 5 then 120 else if m == 6 then 151 else if m == 7 then 181 else if m == 8 then 212
      else if m == 9 then 243 else if m == 10 then 273 else if m == 11 then 304 else 334;
    if m > 2 && IsLeap(y) then base + 1 else base
  }

  /** `d.toordinal()`: 0001-01-01 is day 1. */
  function Ordinal(d: Date): int
    requires ValidDate(d)
  {
    DaysBeforeYear(d.year) + DaysBeforeMonth(d.year, d.month) + d.day
  }

  /** The ordinal of 9999-12-31, the last date Python represents. */
  const MaxOrdinal := 3652059

  lemma DivStep4(y: int)
    ensures y / 4 == (y - 1) / 4 + (if y % 4 == 0 then 1 else 0)
  {
  }

  lemma DivStep100(y: int)
    ensures y / 100 == (y - 1) / 100 + (if y % 100 == 0 then 1 else 0)
  {
  }

  lemma DivStep400(y: int)
    ensures y / 400 == (y - 1) / 400 + (if y % 400 == 0 then 1 else 0)
  {
  }

  lemma DaysBeforeYearClosedStep(y: int)
    ensures DaysBeforeYearClosed(y + 1) == DaysBeforeYearClosed(y) + DaysInYear(y)
  {
    DivStep4(y);
    DivStep100(y);
    DivStep400(y);
  }

  /** Each year adds its own length to the day count. */
  lemma DaysBeforeYearStep(y: int)
    ensures DaysBeforeYear(y + 1) == DaysBeforeYear(y) + DaysInYear(y)
  {
    if y < 1 {
      DaysBeforeYearClosedStep(y);
    }
  }

  /** The closed form CPython uses counts the same days. */
  lemma {:induction false} DaysBeforeYearIsClosedForm(y: int)
    ensures DaysBeforeYear(y) == DaysBeforeYearClosed(y)
    decreases if y > 1 then y else 0
  {
    if y > 1 {
      DaysBeforeYearIsClosedForm(y - 1);
      DaysBeforeYearClosedStep(y - 1);
    }
  }

  /** Year 10000 would start right after day `MaxOrdinal`, and its ISO week 1 three days later. */
  lemma YearAfterLast(y: int)
    requires y == MaxYear + 1
    ensures DaysBeforeYear(y) == MaxOrdinal
    ensures Week1Monday(y) == MaxOrdinal + 3
  {
    DaysBeforeYearIsClosedForm(y);
  }


  lemma {:induction false} DaysBeforeYearGrows(a: int, b: int)
    requires a <= b
    ensures DaysBeforeYear(a) + 365 * (b - a) <= DaysBeforeYear(b)
    decreases b - a
  {
    if a < b {
      DaysBeforeYearStep(a);
      DaysBeforeYearGrows(a + 1, b);
    }
  }

  lemma MonthEnd(y: int, m: int)
    requires 1 <= m <= 12
    ensures DaysBeforeMonth(y, m) + DaysInMonth(y, m) == if m == 12 then DaysInYear(y) else DaysBeforeMonth(y, m + 1)
  {
  }

  /** A date's ordinal lies inside its year. */
  lemma OrdinalInYear(d: Date)
    requires ValidDate(d)
    ensures DaysBeforeYear(d.year) < Ordinal(d) <= DaysBeforeYear(d.year + 1)
  {
    DaysBeforeYearStep(d.year);
    MonthEnd(d.year, d.month);
    assert DaysBeforeMonth(d.year, d.month) + DaysInMonth(d.year, d.month) <= DaysInYear(d.year);
  }

  /** Every valid date has an ordinal between 1 and that of 9999-12-31. */
  lemma OrdinalRange(d: Date)
    requires ValidDate(d)
    ensures 1 <= Ordinal(d) <= MaxOrdinal
  {
    OrdinalInYear(d);
    var top := MaxYear + 1;
    YearAfterLast(top);
    DaysBeforeYearGrows(1, d.year);
    DaysBeforeYearGrows(d.year + 1, top);
  }

  /** Dates with the same ordinal are the same date. */
  lemma OrdinalInjective(a: Date, b: Date)
    requires ValidDate(a) && ValidDate(b) && Ordinal(a) == Ordinal(b)
    ensures a == b
  {
    OrdinalInYear(a);
    OrdinalInYear(b);
    if a.year < b.year {
      DaysBeforeYearGrows(a.year + 1, b.year);
    } else if b.year < a.year {
      DaysBeforeYearGrows(b.year + 1, a.year);
    } else {
      MonthEnd(a.year, a.month);
      MonthEnd(b.year, b.month);
      assert a.month == b.month;
    }
  }

  /** The day after `d`. */
  function NextDay(d: Date): (r: Date)
    requires ValidDate(d) && Ordinal(d) < MaxOrdinal
    ensures ValidDate(r) && Ordinal(r) == Ordinal(d) + 1
  {
    MonthEnd(d.year, d.month);
    if d.day < DaysInMonth(d.year, d.month) then Date(d.year, d.month, d.day + 1)
    else if d.month < 12 then Date(d.year, d.month + 1, 1)
    else
      DaysBeforeYearStep(d.year);
      if d.year == MaxYear then YearAfterLast(d.year + 1); assert false; d
      else Date(d.year + 1, 1, 1)
  }

  /** The day before `d`. */
  function PrevDay(d: Date): (r: Date)
    requires ValidDate(d) && Ordinal(d) > 1
    ensures ValidDate(r) && Ordinal(r) == Ordinal(d) - 1
  {
    if d.day > 1 then Date(d.year, d.month, d.day - 1)
    else if d.month > 1 then
      MonthEnd(d.year, d.month - 1);
      Date(d.year, d.month - 1, DaysInMonth(d.year, d.month - 1))
    else
      DaysBeforeYearStep(d.year - 1);
      MonthEnd(d.year - 1, 12);
      if d.year == MinYear then assert false; d
      else Date(d.year - 1, 12, 31)
  }

  /** `d + timedelta(days=k)`, defined where the result is a date Python represents. */
  function AddDays(d: Date, k: int): (r: Date)
    requires ValidDate(d) && 1 <= Ordinal(d) + k <= MaxOrdinal
    ensures ValidDate(r) && Ordinal(r) == Ordinal(d) + k
    decreases if k >= 0 then k else -k
  {
    if k == 0 then d
    else if k > 0 then AddDays(NextDay(d), k - 1)
    else AddDays(PrevDay(d), k + 1)
  }

  /** The date whose ordinal is `n` (Python's `date.fromordinal`). */
  function FromOrdinal(n: int): (r: Date)
    requires 1 <= n <= MaxOrdinal
    ensures ValidDate(r) && Ordinal(r) == n
  {
    if n == 1 then Date(MinYear, 1, 1) else NextDay(FromOrdinal(n - 1))
  }

  /** `d.weekday()`: Monday is 0 and Sunday is 6. */
  function Weekday(d: Date): (w: int)
    requires ValidDate(d)
    ensures 0 <= w <= 6
  {
    OrdinalWeekday(Ordinal(d))
  }

  /** The weekday of the date with ordinal `n`; day 1, 0001-01-01, is a Monday. */
  function OrdinalWeekday(n: int): int {
    (n + 6) % 7
  }

  /** The Monday on or before `d` is a date, and a Monday. */
  lemma WeekMonday(d: Date)
    requires ValidDate(d)
    ensures 1 <= Ordinal(d) - Weekday(d) <= MaxOrdinal
    ensures Weekday(AddDays(d, -Weekday(d))) == 0
  {
    OrdinalRange(d);
    MondayBefore(Ordinal(d));
  }

  /** Stepping back from ordinal `n` by its weekday lands on a Monday, not before day 1. */
  lemma MondayBefore(n: int)
    requires n >= 1
    ensures 1 <= n - OrdinalWeekday(n) <= n
    ensures OrdinalWeekday(n - OrdinalWeekday(n)) == 0
  {
    var q, w := (n + 6) / 7, (n + 6) % 7;
    assert n + 6 == 7 * q + w;
    assert n - w + 6 == 7 * q;
  }

  // -------------------------------------------------------------- ISO weeks

  /** The Monday of the week holding the first Thursday on or after ordinal `first`. */
  function MondayOfWeekOne(first: int): int {
    var wd := (first + 6) % 7;
    var monday := first - wd;
    if wd > 3 then monday + 7 else monday
  }

  /** CPython's `_isoweek1monday(y)`: the ordinal of the Monday of ISO week 1 of year `y`, the week holding its first Thursday. */
  function Week1Monday(y: int): int {
    MondayOfWeekOne(DaysBeforeYear(y) + 1)
  }

  /** The number of ISO weeks in ISO year `y`. */
  function WeeksInYear(y: int): int {
    (Week1Monday(y + 1) - Week1Monday(y)) / 7
  }

  /** The test `date.fromisocalendar` applies to week 53: the year starts on a Thursday, or is leap and starts on a Wednesday. */
  predicate HasWeek53(y: int) {
    var firstWeekday := (DaysBeforeYear(y) + 1) % 7;
    firstWeekday == 4 || (firstWeekday == 3 && IsLeap(y))
  }

  lemma MondayOfWeekOneNear(first: int)
    ensures first - 3 <= MondayOfWeekOne(first) <= first + 3
    ensures MondayOfWeekOne(first) % 7 == 1
  {
  }

  lemma WeekSpan(first: int, len: int)
    requires len == 365 || len == 366
    ensures var d := MondayOfWeekOne(first + len) - MondayOfWeekOne(first);
      (d == 364 || d == 371) && (d == 371 <==> (first % 7 == 4 || (first % 7 == 3 && len == 366)))
  {
    var r := first % 7;
    assert first == 7 * (first / 7) + r;
    assert (first + 6) % 7 == (r + 6) % 7;
    assert (first + len + 6) % 7 == (r + len + 6) % 7;
  }

  /** ISO week 1 starts at most three days either side of January 1st, on a Monday. */
  lemma Week1MondayNear(y: int)
    ensures DaysBeforeYear(y) - 2 <= Week1Monday(y) <= DaysBeforeYear(y) + 4
    ensures Week1Monday(y) % 7 == 1
  {
    MondayOfWeekOneNear(DaysBeforeYear(y) + 1);
  }

  /** An ISO year has 52 or 53 weeks, and 53 exactly when `fromisocalendar` accepts week 53. */
  lemma WeeksInYearFacts(y: int)
    ensures Week1Monday(y + 1) - Week1Monday(y) == 7 * WeeksInYear(y)
    ensures WeeksInYear(y) == 52 || WeeksInYear(y) == 53
    ensures WeeksInYear(y) == 53 <==> HasWeek53(y)
  {
    var first := DaysBeforeYear(y) + 1;
    DaysBeforeYearStep(y);
    assert Week1Monday(y + 1) == MondayOfWeekOne(first + DaysInYear(y));
    WeekSpan(first, DaysInYear(y));
    var dd := Week1Monday(y + 1) - Week1Monday(y);
    assert dd == 364 || dd == 371;
    assert dd == 371 <==> HasWeek53(y);
    assert WeeksInYear(y) == dd / 7;
  }

  /** ISO week 1 of a later year never starts before that of an earlier one. */
  lemma {:induction false} Week1MondayMonotone(a: int, b: int)
    requires a <= b
    ensures Week1Monday(a) + 364 * (b - a) <= Week1Monday(b)
    decreases b - a
  {
    if a < b {
      WeeksInYearFacts(a);
      Week1MondayMonotone(a + 1, b);
    }
  }

  /** 0001-01-01 is a Monday, so ISO week 1 of year 1 starts on day 1. */
  lemma FirstYearStarts(y: int)
    requires y == MinYear
    ensures DaysBeforeYear(y) == 0
    ensures Week1Monday(y) == 1
  {
  }


  /** The year, week and weekday of `date.isocalendar()`. */
  datatype IsoWeekDate = IsoWeekDate(year: int, week: int, weekday: int)

  /** `r` is the ISO year, week and weekday of `d`: the ISO year whose weeks hold `d`, the week counted from that year's week 1, and Monday as 1. */
  predicate IsIsoWeekDateOf(d: Date, r: IsoWeekDate)
    requires ValidDate(d)
  {
    && Week1Monday(r.year) <= Ordinal(d) < Week1Monday(r.year + 1)
    && r.week == (Ordinal(d) - Week1Monday(r.year)) / 7 + 1
    && r.weekday == Weekday(d) + 1
    && 1 <= r.week <= WeeksInYear(r.year)
    && MinYear <= r.year <= MaxYear
  }

  /** `d.isocalendar()`, as CPython computes it. */
  function IsoCalendar(d: Date): (r: IsoWeekDate)
    requires ValidDate(d)
    ensures IsIsoWeekDateOf(d, r)
  {
    var y := d.year;
    var today := Ordinal(d);
    var w1 := Week1Monday(y);
    var week := (today - w1) / 7;
    var day := (today - w1) % 7;
    if week < 0 then
      var w0 := Week1Monday(y - 1);
      var r := IsoWeekDate(y - 1, (today - w0) / 7 + 1, (today - w0) % 7 + 1);
      BeforeWeekOne(d, r);
      r
    else if week >= 52 && today >= Week1Monday(y + 1) then
      var r := IsoWeekDate(y + 1, 1, day + 1);
      InNextWeekOne(d, r);
      r
    else
      var r := IsoWeekDate(y, week + 1, day + 1);
      InOwnYear(d, r);
      r
  }

  /** Counting days from a Monday gives the weekday. */
  lemma DaysFromMonday(today: int, monday: int)
    requires monday % 7 == 1
    ensures (today - monday) % 7 == (today + 6) % 7
  {
    assert monday == 7 * (monday / 7) + 1;
    assert today - monday == (today + 6) - 7 * (monday / 7 + 1);
  }

  /** A day in the `weeks` weeks from Monday `m` lies in one of them. */
  lemma WeekOfWindow(today: int, m: int, weeks: int)
    requires m <= today < m + 7 * weeks
    ensures 1 <= (today - m) / 7 + 1 <= weeks
  {
  }

  /** A day in the `weeks` weeks from Monday `m` to Monday `next` has its week number in range and its weekday counted from `m`. */
  lemma WeekOfIsoYear(today: int, m: int, next: int, weeks: int)
    requires m % 7 == 1 && m <= today < next && next == m + 7 * weeks
    ensures 1 <= (today - m) / 7 + 1 <= weeks
    ensures (today - m) % 7 == OrdinalWeekday(today)
  {
    WeekOfWindow(today, m, weeks);
    DaysFromMonday(today, m);
  }

  /** A day between ISO week 1 of `r.year` and that of the next year, counted from the first, has `r` as its ISO date. */
  lemma IsoWeekDateFrom(d: Date, r: IsoWeekDate, m: int, next: int)
    requires ValidDate(d) && MinYear <= r.year <= MaxYear
    requires m == Week1Monday(r.year) && next == Week1Monday(r.year + 1)
    requires m <= Ordinal(d) < next
    requires r.week == (Ordinal(d) - m) / 7 + 1 && r.weekday == (Ordinal(d) - m) % 7 + 1
    ensures IsIsoWeekDateOf(d, r)
  {
    Week1MondayNear(r.year);
    WeeksInYearFacts(r.year);
    WeekOfIsoYear(Ordinal(d), m, next, WeeksInYear(r.year));
  }

  /** The days from three days before ISO week 1 of year `y` to two days after ISO week 1 of the next year. */
  lemma OrdinalNearWeekOne(d: Date)
    requires ValidDate(d)
    ensures Week1Monday(d.year) - 3 <= Ordinal(d) <= Week1Monday(d.year + 1) + 2
  {
    OrdinalInYear(d);
    Week1MondayNear(d.year);
    Week1MondayNear(d.year + 1);
  }

  /** No day of year 1 comes before its ISO week 1, and no day of year 9999 reaches the ISO week 1 after it. */
  lemma FirstDayInWeekOne(d: Date)
    requires ValidDate(d)
    ensures d.year == MinYear ==> Week1Monday(d.year) <= Ordinal(d)
    ensures d.year == MaxYear ==> Ordinal(d) < Week1Monday(d.year + 1)
  {
    OrdinalRange(d);
    if d.year == MinYear {
      FirstYearStarts(d.year);
    }
    if d.year == MaxYear {
      YearAfterLast(d.year + 1);
    }
  }

  /** A day before ISO week 1 of its year lies in the last ISO week of the year before. */
  lemma BeforeWeekOne(d: Date, r: IsoWeekDate)
    requires ValidDate(d) && Ordinal(d) < Week1Monday(d.year)
    requires var m0 := Week1Monday(d.year - 1);
      r == IsoWeekDate(d.year - 1, (Ordinal(d) - m0) / 7 + 1, (Ordinal(d) - m0) % 7 + 1)
    ensures IsIsoWeekDateOf(d, r)
  {
    var y := d.year;
    FirstDayInWeekOne(d);
    OrdinalNearWeekOne(d);
    WeeksInYearFacts(y - 1);
    IsoWeekDateFrom(d, r, Week1Monday(y - 1), Week1Monday(y));
  }

  /** A day of week 52 or later on or after the next year's ISO week 1 lies in that week. */
  lemma InNextWeekOne(d: Date, r: IsoWeekDate)
    requires ValidDate(d) && Ordinal(d) >= Week1Monday(d.year + 1)
    requires r == IsoWeekDate(d.year + 1, 1, (Ordinal(d) - Week1Monday(d.year)) % 7 + 1)
    ensures IsIsoWeekDateOf(d, r)
  {
    var y, today := d.year, Ordinal(d);
    var m1, m2 := Week1Monday(y), Week1Monday(y + 1);
    FirstDayInWeekOne(d);
    OrdinalNearWeekOne(d);
    WeeksInYearFacts(y + 1);
    Week1MondayNear(y);
    Week1MondayNear(y + 1);
    DaysFromMonday(today, m1);
    DaysFromMonday(today, m2);
    IsoWeekDateFrom(d, r, m2, Week1Monday(y + 2));
  }

  /** The remaining days lie in an ISO week of their own year. */
  lemma InOwnYear(d: Date, r: IsoWeekDate)
    requires ValidDate(d)
    requires var today, m1 := Ordinal(d), Week1Monday(d.year);
      m1 <= today && !((today - m1) / 7 >= 52 && today >= Week1Monday(d.year + 1))
      && r == IsoWeekDate(d.year, (today - m1) / 7 + 1, (today - m1) % 7 + 1)
    ensures IsIsoWeekDateOf(d, r)
  {
    WeeksInYearFacts(d.year);
    IsoWeekDateFrom(d, r, Week1Monday(d.year), Week1Monday(d.year + 1));
  }



  /** The year and week numbers `date.fromisocalendar` accepts. */
  predicate IsoWeekAccepted(y: int, w: int) {
    MinYear <= y <= MaxYear && (1 <= w <= 52 || (w == 53 && HasWeek53(y)))
  }

  /** The ordinal of weekday `wd` (1 is Monday) of ISO week `w` of year `y`. */
  function IsoWeekOrdinal(y: int, w: int, wd: int): int {
    Week1Monday(y) + 7 * (w - 1) + (wd - 1)
  }

  /**
   * `date.fromisocalendar(y, w, wd)`; `None` where Python raises: a year
   * outside 1..9999, a week outside 1..52 other than an accepted week 53, a
   * weekday outside 1..7, or a result past 9999-12-31.
   */
  function FromIsoCalendar(y: int, w: int, wd: int): (r: Option<Date>)
    ensures r.Some? <==> IsoWeekAccepted(y, w) && 1 <= wd <= 7 && IsoWeekOrdinal(y, w, wd) <= MaxOrdinal
    ensures r.Some? ==> ValidDate(r.value) && Ordinal(r.value) == IsoWeekOrdinal(y, w, wd)
  {
    if !(MinYear <= y <= MaxYear) then None
    else if !(0 < w < 53) && !(w == 53 && HasWeek53(y)) then None
    else if !(0 < wd < 8) then None
    else
      var n := IsoWeekOrdinal(y, w, wd);
      Week1MondayPositive(y);
      if n > MaxOrdinal then None else Some(FromOrdinal(n))
  }

  lemma Week1MondayPositive(y: int)
    requires y >= MinYear
    ensures Week1Monday(y) >= 1
  {
    var first := MinYear;
    FirstYearStarts(first);
    Week1MondayMonotone(first, y);
  }

  /** The Monday of every ISO week `fromisocalendar` accepts is a date Python represents. */
  lemma WeekMondayInRange(y: int, w: int)
    requires IsoWeekAccepted(y, w)
    ensures IsoWeekOrdinal(y, w, 1) <= MaxOrdinal
  {
    WeeksInYearFacts(y);
    var top := MaxYear + 1;
    YearAfterLast(top);
    Week1MondayMonotone(y + 1, top);
  }

  /** ISO years do not overlap: a day lies in the ISO weeks of one year only. */
  lemma IsoYearUnique(n: int, a: int, b: int)
    requires Week1Monday(a) <= n < Week1Monday(a + 1)
    requires Week1Monday(b) <= n < Week1Monday(b + 1)
    ensures a == b
  {
    if a < b {
      Week1MondayMonotone(a + 1, b);
    } else if b < a {
      Week1MondayMonotone(b + 1, a);
    }
  }

  /** `fromisocalendar(..., 1)` is a Monday and `isocalendar` gives back the same year and week. */
  lemma FromIsoCalendarMonday(y: int, w: int)
    requires IsoWeekAccepted(y, w)
    ensures FromIsoCalendar(y, w, 1).Some?
    ensures var d := FromIsoCalendar(y, w, 1).value; Weekday(d) == 0 && IsoCalendar(d) == IsoWeekDate(y, w, 1)
  {
    WeekMondayInRange(y, w);
    var d := FromIsoCalendar(y, w, 1).value;
    IsoCalendarOfWeekMonday(d, y, w);
  }

  /** The Monday of an accepted ISO week has that year, week and weekday 1. */
  lemma IsoCalendarOfWeekMonday(d: Date, y: int, w: int)
    requires ValidDate(d) && IsoWeekAccepted(y, w) && Ordinal(d) == IsoWeekOrdinal(y, w, 1)
    ensures Weekday(d) == 0 && IsoCalendar(d) == IsoWeekDate(y, w, 1)
  {
    IsoDateOfWeekMonday(d, y, w, IsoCalendar(d));
  }

  /** Any ISO date of the Monday of an accepted ISO week is that year, week and weekday 1. */
  lemma IsoDateOfWeekMonday(d: Date, y: int, w: int, c: IsoWeekDate)
    requires ValidDate(d) && IsoWeekAccepted(y, w) && Ordinal(d) == IsoWeekOrdinal(y, w, 1)
    requires IsIsoWeekDateOf(d, c)
    ensures Weekday(d) == 0 && c == IsoWeekDate(y, w, 1)
  {
    var n, m := Ordinal(d), Week1Monday(y);
    assert n == m + 7 * (w - 1);
    Week1MondayNear(y);
    WeeksFromMonday(n, m, w);
    WeekInOwnYear(y, w);
    IsoYearUnique(n, c.year, y);
    assert c.week == (n - m) / 7 + 1;
    assert Weekday(d) == OrdinalWeekday(n);
  }

  /** The Monday of an accepted ISO week of year `y` lies in ISO year `y`. */
  lemma WeekInOwnYear(y: int, w: int)
    requires IsoWeekAccepted(y, w)
    ensures Week1Monday(y) <= IsoWeekOrdinal(y, w, 1) < Week1Monday(y + 1)
  {
    WeeksInYearFacts(y);
  }

  lemma WeeksFromMonday(n: int, m: int, w: int)
    requires m % 7 == 1 && n == m + 7 * (w - 1)
    ensures OrdinalWeekday(n) == 0 && (n - m) % 7 == 0 && (n - m) / 7 + 1 == w
  {
    DaysFromMonday(n, m);
  }

  /** The Monday of the ISO week holding `d`, found through `isocalendar` then `fromisocalendar`, is `d` minus its weekday. */
  lemma IsoCalendarRoundTrip(d: Date)
    requires ValidDate(d)
    ensures var c := IsoCalendar(d);
      && IsoWeekAccepted(c.year, c.week)
      && 1 <= Ordinal(d) - Weekday(d) <= MaxOrdinal
      && FromIsoCalendar(c.year, c.week, 1) == Some(AddDays(d, -Weekday(d)))
  {
    var c := IsoCalendar(d);
    IsoCalendarWeekMonday(d);
    WeekMondayInRange(c.year, c.week);
    Week1MondayPositive(c.year);
    OrdinalRange(d);
    var monday := FromIsoCalendar(c.year, c.week, 1).value;
    var back := AddDays(d, -Weekday(d));
    OrdinalInjective(monday, back);
  }

  /** The week `isocalendar` gives is one `fromisocalendar` accepts, and its Monday is `d` minus its weekday. */
  lemma IsoCalendarWeekMonday(d: Date)
    requires ValidDate(d)
    ensures var c := IsoCalendar(d);
      IsoWeekAccepted(c.year, c.week) && IsoWeekOrdinal(c.year, c.week, 1) == Ordinal(d) - Weekday(d)
  {
    IsoWeekMondayOf(d, IsoCalendar(d));
  }

  /** The week of any ISO date of `d` is accepted, and its Monday is `d` minus its weekday. */
  lemma IsoWeekMondayOf(d: Date, c: IsoWeekDate)
    requires ValidDate(d) && IsIsoWeekDateOf(d, c)
    ensures IsoWeekAccepted(c.year, c.week) && IsoWeekOrdinal(c.year, c.week, 1) == Ordinal(d) - Weekday(d)
  {
    var n, m := Ordinal(d), Week1Monday(c.year);
    WeeksInYearFacts(c.year);
    Week1MondayNear(c.year);
    AlignToMonday(n, m, c.week);
    assert IsoWeekOrdinal(c.year, c.week, 1) == m + 7 * (c.week - 1);
    assert Weekday(d) == OrdinalWeekday(n);
  }

  /** Going back to the Monday of the week: whole weeks from Monday `m`, then the weekday offset. */
  lemma AlignToMonday(n: int, m: int, wk: int)
    requires m % 7 == 1 && m <= n && wk == (n - m) / 7 + 1
    ensures m + 7 * (wk - 1) == n - OrdinalWeekday(n)
  {
    DaysFromMonday(n, m);
    assert n - m == 7 * ((n - m) / 7) + (n - m) % 7;
  }

  /** `f"{iso_year}-W{iso_week:02d}"`, the ISO 8601 week-date label `YYYY-Www` (section 4.1.4.2 of ISO 8601:2004). */
  function IsoWeekLabel(y: int, w: nat): string
    requires w < 100
  {
    IntToString(y) + "-W" + Pad2(w)
  }

  /**
   * `iso_week_str(d)`: the label of the ISO week holding `d`, its ISO year
   * and a two-digit week number between 1 and 53.
   */
  function IsoWeekStr(d: Date): (r: string)
    requires ValidDate(d)
    ensures var c := IsoCalendar(d); 1 <= c.week <= 53 && r == IntToString(c.year) + "-W" + Pad2(c.week)
  {
    var c := IsoCalendar(d);
    WeeksInYearFacts(c.year);
    IsoWeekLabel(c.year, c.week)
  }

  /** The ISO week after week `w` of ISO year `y`. */
  function NextIsoWeek(y: int, w: int): (r: (int, int))
    requires IsoWeekAccepted(y, w)
    ensures IsoWeekOrdinal(r.0, r.1, 1) == IsoWeekOrdinal(y, w, 1) + 7
  {
    WeeksInYearFacts(y);
    if w < WeeksInYear(y) then (y, w + 1) else (y + 1, 1)
  }

  /** Seven days on, `isocalendar` gives the next ISO week, across year ends included. */
  lemma WeekAfter(d: Date, e: Date)
    requires ValidDate(d) && ValidDate(e) && Ordinal(e) == Ordinal(d) + 7
    ensures var c, c2 := IsoCalendar(d), IsoCalendar(e);
      if c.week < WeeksInYear(c.year) then c2.year == c.year && c2.week == c.week + 1
      else c2.year == c.year + 1 && c2.week == 1
  {
    var c, c2 := IsoCalendar(d), IsoCalendar(e);
    NextWeekOf(Ordinal(d), c.year, c.week, c2.year, c2.week);
  }

  /** The ISO year and week of the day seven days after day `n`, which lies in week `w` of ISO year `y`. */
  lemma NextWeekOf(n: int, y: int, w: int, y2: int, w2: int)
    requires Week1Monday(y) <= n < Week1Monday(y + 1) && w == (n - Week1Monday(y)) / 7 + 1
    requires Week1Monday(y2) <= n + 7 < Week1Monday(y2 + 1) && w2 == (n + 7 - Week1Monday(y2)) / 7 + 1
    ensures if w < WeeksInYear(y) then y2 == y && w2 == w + 1 else y2 == y + 1 && w2 == 1
  {
    WeeksInYearFacts(y);
    if w < WeeksInYear(y) {
      IsoYearUnique(n + 7, y2, y);
    } else {
      WeeksInYearFacts(y + 1);
      IsoYearUnique(n + 7, y2, y + 1);
    }
  }

  // --------------------------------------------------------------- ISO text

  /** `d.isoformat()`: `YYYY-MM-DD`. */
  function DateText(d: Date): (s: string)
    requires ValidDate(d)
    ensures |s| == 10
  {
    Pad4(d.year) + "-" + Pad2(d.month) + "-" + Pad2(d.day)
  }

  /** Reads `YYYY-MM-DD`, accepting only a valid date. */
  function ParseDateText(s: string): (r: Option<Date>)
    requires |s| == 10
    ensures r.Some? ==> ValidDate(r.value)
  {
    if AllDigits(s[..4]) && s[4] == '-' && AllDigits(s[5..7]) && s[7] == '-' && AllDigits(s[8..10]) then
      var d := Date(DigitsValue(s[..4]), DigitsValue(s[5..7]), DigitsValue(s[8..10]));
      if ValidDate(d) then Some(d) else None
    else None
  }

  lemma ParseDateTextRoundTrip(d: Date)
    requires ValidDate(d)
    ensures ParseDateText(DateText(d)) == Some(d)
  {
    var s := DateText(d);
    assert s[..4] == Pad4(d.year);
    assert s[5..7] == Pad2(d.month);
    assert s[8..10] == Pad2(d.day);
  }

  /** `dt.strftime("%H:%M")`. */
  function ClockText(t: DateTime): (s: string)
    requires ValidDateTime(t)
    ensures |s| == 5
  {
    Pad2(t.hour) + ":" + Pad2(t.minute)
  }

  /** `HH:MM:SS`. */
  function TimeText(t: DateTime): (s: string)
    requires ValidDateTime(t)
    ensures |s| == 8
  {
    Pad2(t.hour) + ":" + Pad2(t.minute) + ":" + Pad2(t.second)
  }

  /** The `+HH:MM` / `-HH:MM` suffix of an aware date-time; nothing for a naive one. */
  function OffsetText(offset: Option<int>): (s: string)
    requires offset.Some? ==> -1439 <= offset.value <= 1439
  {
    match offset
    case None => ""
    case Some(o) =>
      var a := if o < 0 then -o else o;
      [if o < 0 then '-' else '+'] + Pad2(a / 60) + ":" + Pad2(a % 60)
  }

  /** `dt.isoformat()`: `YYYY-MM-DDTHH:MM:SS`, then the offset when there is one. */
  function IsoFormat(t: DateTime): string
    requires ValidDateTime(t)
  {
    DateText(t.DateOf()) + "T" + TimeText(t) + OffsetText(t.offset)
  }

  /** The time-of-day part of an ISO text and its offset. */
  datatype TimeOfDay = TimeOfDay(hour: int, minute: int, second: int, offset: Option<int>)

  /** Reads an offset suffix: empty (naive), `Z`, or `+HH:MM` / `-HH:MM` under 24 hours. */
  function ParseOffset(s: string): (r: Option<Option<int>>)
    ensures r.Some? && r.value.Some? ==> -1439 <= r.value.value <= 1439
  {
    if s == "" then Some(None)
    else if s == "Z" then Some(Some(0))
    else if |s| == 6 && (s[0] == '+' || s[0] == '-') && AllDigits(s[1..3]) && s[3] == ':' && AllDigits(s[4..6]) then
      var hh := DigitsValue(s[1..3]);
      var mm := DigitsValue(s[4..6]);
      if hh <= 23 && mm <= 59 then Some(Some(if s[0] == '-' then -(hh * 60 + mm) else hh * 60 + mm)) else None
    else None
  }

  /** Reads `HH:MM` or `HH:MM:SS` followed by an offset suffix. */
  function ParseTimeOfDay(s: string): (r: Option<TimeOfDay>)
    ensures r.Some? ==> 0 <= r.value.hour <= 23 && 0 <= r.value.minute <= 59 && 0 <= r.value.second <= 59
    ensures r.Some? && r.value.offset.Some? ==> -1439 <= r.value.offset.value <= 1439
  {
    if |s| < 5 || !AllDigits(s[..2]) || s[2] != ':' || !AllDigits(s[3..5]) then None
    else
      var h := DigitsValue(s[..2]);
      var m := DigitsValue(s[3..5]);
      var hasSeconds := |s| >= 8 && s[5] == ':' && AllDigits(s[6..8]);
      var sec := if hasSeconds then DigitsValue(s[6..8]) else 0;
      var rest := if hasSeconds then s[8..] else s[5..];
      match ParseOffset(rest)
      case None => None
      case Some(off) => if h <= 23 && m <= 59 && sec <= 59 then Some(TimeOfDay(h, m, sec, off)) else None
  }

  /**
   * `datetime.fromisoformat(s)` on the forms these scripts write and read:
   * `YYYY-MM-DD`, optionally followed by `T` or a space, `HH:MM` or
   * `HH:MM:SS`, and an optional offset. `None` where Python raises.
   */
  function ParseIso(s: string): (r: Option<DateTime>)
    ensures r.Some? ==> ValidDateTime(r.value)
  {
    if |s| < 10 then None
    else match ParseDateText(s[..10])
      case None => None
      case Some(d) =>
        if |s| == 10 then Some(DateTime(d.year, d.month, d.day, 0, 0, 0, None))
        else if s[10] != 'T' && s[10] != ' ' then None
        else match ParseTimeOfDay(s[11..])
          case None => None
          case Some(t) => Some(DateTime(d.year, d.month, d.day, t.hour, t.minute, t.second, t.offset))
  }

  lemma ParseOffsetRoundTrip(offset: Option<int>)
    requires offset.Some? ==> -1439 <= offset.value <= 1439
    ensures ParseOffset(OffsetText(offset)) == Some(offset)
  {
    if offset.Some? {
      var o := offset.value;
      var a := if o < 0 then -o else o;
      var hh, mm := Pad2(a / 60), Pad2(a % 60);
      var s := OffsetText(offset);
      assert s == [if o < 0 then '-' else '+'] + hh + ":" + mm;
      assert |s| == 6 && s[3] == ':';
      assert s[1..3] == hh;
      assert s[4..6] == mm;
      assert a == (a / 60) * 60 + a % 60;
    }
  }

  /** `fromisoformat` reads back exactly what `isoformat` wrote. */
  lemma ParseIsoRoundTrip(t: DateTime)
    requires ValidDateTime(t)
    ensures ParseIso(IsoFormat(t)) == Some(t)
  {
    var s := IsoFormat(t);
    var d := t.DateOf();
    ParseDateTextRoundTrip(d);
    assert s[..10] == DateText(d);
    var rest := s[11..];
    assert rest == TimeText(t) + OffsetText(t.offset);
    assert rest[..2] == Pad2(t.hour);
    assert rest[3..5] == Pad2(t.minute);
    assert rest[6..8] == Pad2(t.second);
    assert rest[8..] == OffsetText(t.offset);
    ParseOffsetRoundTrip(t.offset);
  }

  /** Different date-times have different ISO texts. */
  lemma IsoFormatInjective(a: DateTime, b: DateTime)
    requires ValidDateTime(a) && ValidDateTime(b) && IsoFormat(a) == IsoFormat(b)
    ensures a == b
  {
    ParseIsoRoundTrip(a);
    ParseIsoRoundTrip(b);
  }

  /** A space inside the first ten characters leaves no `YYYY-MM-DD` to read. */
  lemma ShortDatePart(p: string, rest: string)
    requires |p| < 10
    ensures ParseIso(p + " " + rest) == None
  {
    var s := p + " " + rest;
    if |s| >= 10 {
      var h := s[..10];
      assert h[|p|] == ' ';
      if |p| < 4 {
        assert h[..4][|p|] == ' ';
      } else if 5 <= |p| < 7 {
        assert h[5..7][|p| - 5] == ' ';
      } else if 8 <= |p| {
        assert h[8..10][|p| - 8] == ' ';
      }
    }
  }

  /**
   * A text `p + " " + rest` that parses holds its date in the first ten
   * characters of `p`: two such texts with the same `p` are on the same day.
   */
  lemma ParsedDatePrefix(p: string, rest: string, t: DateTime)
    requires ParseIso(p + " " + rest) == Some(t)
    ensures |p| >= 10 && ParseDateText(p[..10]) == Some(t.DateOf())
  {
    if |p| < 10 {
      ShortDatePart(p, rest);
    } else {
      assert (p + " " + rest)[..10] == p[..10];
    }
  }

  /** `HH:MM:SS`, as the scripts append it to a date. */
  predicate ClockForm(c: string) {
    |c| == 8 && AllDigits(c[..2]) && c[2] == ':' && AllDigits(c[3..5]) && c[5] == ':' && AllDigits(c[6..8])
  }

  /** The hour, minute and second of a `HH:MM:SS` clock. */
  function ClockValues(c: string): (int, int, int)
    requires ClockForm(c)
  {
    (DigitsValue(c[..2]), DigitsValue(c[3..5]), DigitsValue(c[6..8]))
  }

  /** The first and the last second of a day, as the scripts write them. */
  const Midnight := "00:00:00"
  const LastSecond := "23:59:59"

  lemma DayBoundsClocks()
    ensures ClockForm(Midnight) && ClockValues(Midnight) == (0, 0, 0)
    ensures ClockForm(LastSecond) && ClockValues(LastSecond) == (23, 59, 59)
  {
    TwoDigits(Midnight[..2]);
    TwoDigits(Midnight[3..5]);
    TwoDigits(Midnight[6..8]);
    TwoDigits(LastSecond[..2]);
    TwoDigits(LastSecond[3..5]);
    TwoDigits(LastSecond[6..8]);
  }

  lemma TwoDigits(s: string)
    requires |s| == 2 && AllDigits(s)
    ensures DigitsValue(s) == DigitValue(s[0]) * 10 + DigitValue(s[1])
  {
    var h := s[..|s| - 1];
    assert h[..|h| - 1] == [] && h[|h| - 1] == s[0];
    assert DigitsValue(h) == DigitValue(s[0]);
  }

  /** After more than ten characters of date part, a space and a clock cannot be read as a time of day. */
  lemma LongDatePart(p: string, clock: string)
    requires |p| > 10 && ClockForm(clock)
    ensures ParseTimeOfDay((p + " " + clock)[11..]) == None
  {
    var u := (p + " " + clock)[11..];
    var k := |p| - 11;
    assert |u| == k + 9 && u[k] == ' ';
    if k < 2 {
      assert u[..2][k] == ' ';
    } else if k == 2 {
    } else if k < 5 {
      assert u[3..5][k - 3] == ' ';
    } else if k < 8 {
      if k == 5 { assert u[5] == ' '; } else { assert u[6..8][k - 6] == ' '; }
      assert |u[5..]| == k + 4;
    } else {
      assert |u[5..]| == k + 4 && |u[8..]| == k + 1;
    }
  }

  /**
   * `fromisoformat(f"{day} {clock}")` with a `HH:MM:SS` clock succeeds only
   * on a ten-character `YYYY-MM-DD` day, and gives that day at that clock,
   * naive.
   */
  lemma ParsedDayAtClock(p: string, clock: string, t: DateTime)
    requires ClockForm(clock) && ParseIso(p + " " + clock) == Some(t)
    ensures |p| == 10 && ParseDateText(p) == Some(t.DateOf())
    ensures (t.hour, t.minute, t.second) == ClockValues(clock) && t.offset == None
  {
    ParsedDatePrefix(p, clock, t);
    if |p| > 10 {
      LongDatePart(p, clock);
    } else {
      var s := p + " " + clock;
      assert p[..10] == p && s[11..] == clock;
      assert clock[8..] == "";
    }
  }

  /** A fixed UTC offset in minutes, under a day either way, as `timezone(timedelta(...))` allows. */
  type UtcOffset = o: int | -1439 <= o <= 1439

  /** `dt.replace(tzinfo=tz)` with a fixed offset of `tz` minutes. */
  function WithOffset(t: DateTime, tz: int): DateTime {
    t.(offset := Some(tz))
  }

  // ------------------------------------------------------------ differences

  /** Seconds from 0001-01-01T00:00:00, measured in UTC for an aware date-time. */
  function Timestamp(t: DateTime): int
    requires ValidDateTime(t)
  {
    Ordinal(t.DateOf()) * 86400 + t.hour * 3600 + t.minute * 60 + t.second
      - (if t.offset.Some? then t.offset.value * 60 else 0)
  }

  /** Python subtracts two date-times only when both are naive or both are aware. */
  predicate Subtractable(a: DateTime, b: DateTime) {
    a.offset.Some? == b.offset.Some?
  }

  /** `(end - start).total_seconds()`. */
  function SecondsBetween(start: DateTime, end: DateTime): int
    requires ValidDateTime(start) && ValidDateTime(end) && Subtractable(start, end)
  {
    Timestamp(end) - Timestamp(start)
  }

  /** `max(0, int((end - start).total_seconds() // 60))`: whole minutes, floored, never negative. */
  function ClampedMinutes(start: DateTime, end: DateTime): (m: nat)
    requires ValidDateTime(start) && ValidDateTime(end) && Subtractable(start, end)
    ensures m * 60 <= if SecondsBetween(start, end) > 0 then SecondsBetween(start, end) else 0
    ensures SecondsBetween(start, end) >= 0 ==> SecondsBetween(start, end) < (m + 1) * 60
  {
    var q := SecondsBetween(start, end) / 60;
    if q < 0 then 0 else q
  }
}
