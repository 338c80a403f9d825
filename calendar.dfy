/**
 * The proleptic Gregorian calendar as Python's `datetime.date` implements it:
 * dates of the years 1 to 9999, day numbers counted from 0001-01-01 (day 1),
 * adding a number of days, and the `%d/%m/%Y` rendering.
 */
module Calendar {
  import opened Wrappers
  import opened Text

  datatype Date = Date(year: int, month: int, day: int)

  const MaxYear := 9999

  /** The day number of 9999-12-31, the last date `datetime.date` can hold. */
  const MaxOrdinal := 3652059

  predicate IsLeapYear(y: int)
  {
    y % 4 == 0 && (y % 100 != 0 || y % 400 == 0)
  }

  /** `calendar.monthrange(year, month)[1]`: how many days the month has. */
  function LastDayOfMonth(year: int, month: int): (n: int)
    requires 1 <= month <= 12
    ensures 28 <= n <= 31
  {
    if month == 2 then (if IsLeapYear(year) then 29 else 28)
    else if month == 4 || month == 6 || month == 9 || month == 11 then 30
    else 31
  }

  /** What `datetime.date(year, month, day)` accepts without raising `ValueError`. */
  predicate IsValid(d: Date)
  {
    1 <= d.year <= MaxYear && 1 <= d.month <= 12 && 1 <= d.day <= LastDayOfMonth(d.year, d.month)
  }

  type ValidDate = d: Date | IsValid(d) witness Date(1, 1, 1)

  function YearLength(y: int): int
  {
    if IsLeapYear(y) then 366 else 365
  }

  // ------------------------------------------------------------ day numbers

  /** Days in the years before `y`, counted year by year. */
  function DaysBeforeYear(y: int): (n: int)
    requires 1 <= y
    ensures n >= 365 * (y - 1)
    decreases y
  {
    if y == 1 then 0 else DaysBeforeYear(y - 1) + YearLength(y - 1)
  }

  lemma DaysBeforeNextYear(y: int)
    requires 1 <= y
    ensures DaysBeforeYear(y + 1) == DaysBeforeYear(y) + YearLength(y)
  {
  }

  /**
   * The count in closed form, as `datetime` computes it: 365 days a year, one
   * more every fourth year, except every hundredth unless it is a four-hundredth.
   */
  lemma {:induction false} DaysBeforeYearClosed(y: int)
    requires 1 <= y
    ensures DaysBeforeYear(y) == (y - 1) * 365 + (y - 1) / 4 - (y - 1) / 100 + (y - 1) / 400
    decreases y
  {
    if y > 1 {
      DaysBeforeYearClosed(y - 1);
      DivSteps(y - 1);
    }
  }

  /** Going from `y - 1` to `y` adds one multiple of 4, 100 or 400 exactly when it divides `y`. */
  lemma DivSteps(y: int)
    ensures y / 4 == (y - 1) / 4 + (if y % 4 == 0 then 1 else 0)
    ensures y / 100 == (y - 1) / 100 + (if y % 100 == 0 then 1 else 0)
    ensures y / 400 == (y - 1) / 400 + (if y % 400 == 0 then 1 else 0)
    ensures (y % 400 == 0 ==> y % 100 == 0) && (y % 100 == 0 ==> y % 4 == 0)
  {
  }

  /** The last day `datetime.date` can hold is day number `MaxOrdinal`. */
  lemma LastOrdinal()
    ensures DaysBeforeYear(MaxYear + 1) == MaxOrdinal
  {
    DaysBeforeYearClosed(MaxYear + 1);
  }

  lemma {:induction false} DaysBeforeYearGrows(a: int, b: int)
    requires 1 <= a <= b
    ensures DaysBeforeYear(a) + 365 * (b - a) <= DaysBeforeYear(b)
    decreases b - a
  {
    if a < b {
      DaysBeforeNextYear(a);
      DaysBeforeYearGrows(a + 1, b);
    }
  }

  /** Days in the months of year `y` before month `m`. */
  function DaysBeforeMonth(y: int, m: int): (n: int)
    requires 1 <= m <= 13
    ensures 0 <= n <= 31 * (m - 1)
  {
    if m == 1 then 0 else DaysBeforeMonth(y, m - 1) + LastDayOfMonth(y, m - 1)
  }

  /** The twelve month lengths add up to the length of the year. */
  lemma MonthsFillYear(y: int)
    ensures DaysBeforeMonth(y, 13) == YearLength(y)
  {
    var f := LastDayOfMonth(y, 2);
    assert DaysBeforeMonth(y, 3) == 31 + f;
    assert DaysBeforeMonth(y, 5) == 92 + f;
    assert DaysBeforeMonth(y, 7) == 153 + f;
    assert DaysBeforeMonth(y, 9) == 215 + f;
    assert DaysBeforeMonth(y, 11) == 276 + f;
  }

  lemma {:induction false} DaysBeforeMonthGrows(y: int, a: int, b: int)
    requires 1 <= a < b <= 13
    ensures DaysBeforeMonth(y, a) + LastDayOfMonth(y, a) <= DaysBeforeMonth(y, b)
    decreases b - a
  {
    if a + 1 < b {
      DaysBeforeMonthGrows(y, a, b - 1);
    }
  }

  /** `date.toordinal()`: 0001-01-01 is day 1. */
  function ToOrdinal(d: ValidDate): (n: int)
    ensures DaysBeforeYear(d.year) < n <= DaysBeforeYear(d.year + 1)
    ensures 1 <= n <= MaxOrdinal
  {
    DaysBeforeMonthGrows(d.year, d.month, 13);
    MonthsFillYear(d.year);
    DaysBeforeYearGrows(d.year + 1, MaxYear + 1);
    LastOrdinal();
    DaysBeforeYear(d.year) + DaysBeforeMonth(d.year, d.month) + d.day
  }

  /** The year whose days include day number `n`, searched upwards from `y`. */
  function YearOf(n: int, y: int): (r: int)
    requires 1 <= y <= MaxYear && DaysBeforeYear(y) < n <= MaxOrdinal
    ensures y <= r <= MaxYear && DaysBeforeYear(r) < n <= DaysBeforeYear(r + 1)
    decreases MaxYear - y
  {
    if n <= DaysBeforeYear(y + 1) then y
    else if y == MaxYear then LastOrdinal(); assert false; y
    else YearOf(n, y + 1)
  }

  /** The month of year `y` holding its `k`-th day, searched upwards from `m`. */
  function MonthOf(y: int, k: int, m: int): (r: int)
    requires 1 <= m <= 12 && DaysBeforeMonth(y, m) < k <= YearLength(y)
    ensures m <= r <= 12 && DaysBeforeMonth(y, r) < k <= DaysBeforeMonth(y, r) + LastDayOfMonth(y, r)
    decreases 12 - m
  {
    if k <= DaysBeforeMonth(y, m) + LastDayOfMonth(y, m) then m
    else if m == 12 then MonthsFillYear(y); assert false; m
    else MonthOf(y, k, m + 1)
  }

  /** `date.fromordinal(n)`. */
  function FromOrdinal(n: int): (d: ValidDate)
    requires 1 <= n <= MaxOrdinal
    ensures ToOrdinal(d) == n
  {
    var y := YearOf(n, 1);
    DaysBeforeNextYear(y);
    MonthsFillYear(y);
    var k := n - DaysBeforeYear(y);
    var m := MonthOf(y, k, 1);
    Date(y, m, k - DaysBeforeMonth(y, m))
  }

  /** Different dates have different day numbers. */
  lemma ToOrdinalInjective(a: ValidDate, b: ValidDate)
    requires ToOrdinal(a) == ToOrdinal(b)
    ensures a == b
  {
    if a.year < b.year {
      DaysBeforeYearGrows(a.year + 1, b.year);
    } else if b.year < a.year {
      DaysBeforeYearGrows(b.year + 1, a.year);
    } else if a.month < b.month {
      DaysBeforeMonthGrows(a.year, a.month, b.month);
    } else if b.month < a.month {
      DaysBeforeMonthGrows(a.year, b.month, a.month);
    }
  }

  lemma FromToOrdinal(d: ValidDate)
    ensures FromOrdinal(ToOrdinal(d)) == d
  {
    ToOrdinalInjective(FromOrdinal(ToOrdinal(d)), d);
  }

  // ------------------------------------------------------------ arithmetic

  /**
   * `d + timedelta(days=n)`; `None` where Python raises `OverflowError`
   * because the result falls outside 0001-01-01 .. 9999-12-31.
   */
  function AddDays(d: ValidDate, n: int): (r: Option<ValidDate>)
    ensures r.Some? <==> 1 <= ToOrdinal(d) + n <= MaxOrdinal
    ensures r.Some? ==> ToOrdinal(r.value) == ToOrdinal(d) + n
  {
    var o := ToOrdinal(d) + n;
    if 1 <= o <= MaxOrdinal then Some(FromOrdinal(o)) else None
  }

  /** The calendar successor of a date, stated month by month. */
  function NextDay(d: ValidDate): Option<ValidDate>
  {
    if d.day < LastDayOfMonth(d.year, d.month) then Some(Date(d.year, d.month, d.day + 1))
    else if d.month < 12 then Some(Date(d.year, d.month + 1, 1))
    else if d.year < MaxYear then Some(Date(d.year + 1, 1, 1))
    else None
  }

  /** Adding one day is the calendar successor. */
  lemma AddOneDay(d: ValidDate)
    ensures AddDays(d, 1) == NextDay(d)
  {
    match NextDay(d)
    case None =>
      LastDayOrdinal(d);
    case Some(e) =>
      NextDayOrdinal(d, e);
      ToOrdinalInjective(AddDays(d, 1).value, e);
  }

  lemma LastDayOrdinal(d: ValidDate)
    requires NextDay(d).None?
    ensures ToOrdinal(d) == MaxOrdinal
  {
    MonthsFillYear(d.year);
    LastOrdinal();
  }

  lemma NextDayOrdinal(d: ValidDate, e: ValidDate)
    requires NextDay(d) == Some(e)
    ensures ToOrdinal(e) == ToOrdinal(d) + 1
  {
    if d.day == LastDayOfMonth(d.year, d.month) && d.month == 12 {
      MonthsFillYear(d.year);
    }
  }

  lemma AddZeroDays(d: ValidDate)
    ensures AddDays(d, 0) == Some(d)
  {
    FromToOrdinal(d);
  }

  /** Shifting by `a` days and then by `b` days is shifting by `a + b` days when both steps stay in range. */
  lemma AddDaysTwice(d: ValidDate, a: int, b: int)
    requires AddDays(d, a).Some?
    ensures AddDays(AddDays(d, a).value, b) == AddDays(d, a + b)
  {
    var e := AddDays(d, a).value;
    if AddDays(d, a + b).Some? {
      ToOrdinalInjective(AddDays(e, b).value, AddDays(d, a + b).value);
    }
  }

  // -------------------------------------------------------------- rendering

  /** `d.strftime('%d/%m/%Y')`. */
  function DateText(d: ValidDate): (s: string)
    ensures |s| == 10 && s[2] == '/' && s[5] == '/'
    ensures AllDigits(s[..2]) && AllDigits(s[3..5]) && AllDigits(s[6..])
    ensures Value2(s[..2]) == d.day && Value2(s[3..5]) == d.month && Value4(s[6..]) == d.year
  {
    var s := Pad2(d.day) + "/" + Pad2(d.month) + "/" + Pad4(d.year);
    assert s[..2] == Pad2(d.day) && s[3..5] == Pad2(d.month) && s[6..] == Pad4(d.year);
    s
  }
}
