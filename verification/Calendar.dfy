/** The proleptic Gregorian calendar behind the date part of a clock string. Instants count from
    the first midnight of year 0, so every instant here is a natural number. */
module Calendar {
  const MILLIS_PER_DAY: nat := 86_400_000

  predicate IsLeap(y: nat)
  {
    y % 4 == 0 && (y % 100 != 0 || y % 400 == 0)
  }

  function YearLength(y: nat): (n: nat)
    ensures 365 <= n <= 366
  {
    if IsLeap(y) then 366 else 365
  }

  function MonthLength(y: nat, m: nat): (n: nat)
    ensures 28 <= n <= 31
  {
    if m == 2 then (if IsLeap(y) then 29 else 28)
    else if m == 4 || m == 6 || m == 9 || m == 11 then 30
    else 31
  }

  function DaysBeforeYear(y: nat): nat
  {
    if y == 0 then 0 else DaysBeforeYear(y - 1) + YearLength(y - 1)
  }

  function DaysBeforeMonth(y: nat, m: nat): nat
  {
    if m <= 1 then 0 else DaysBeforeMonth(y, m - 1) + MonthLength(y, m - 1)
  }

  datatype Date = Date(year: nat, month: nat, day: nat)

  predicate ValidDate(d: Date)
  {
    1 <= d.month <= 12 && 1 <= d.day <= MonthLength(d.year, d.month)
  }

  /** Days from the epoch to a date. */
  function DayNumber(d: Date): int
  {
    DaysBeforeYear(d.year) + DaysBeforeMonth(d.year, d.month) + d.day - 1
  }

  /** The year holding a day, and the day's place in it, looking from year `y` on. */
  function SplitYear(day: nat, y: nat): (nat, nat)
  {
    if day < YearLength(y) then (y, day) else SplitYear(day - YearLength(y), y + 1)
  }

  function SplitMonth(day: nat, y: nat, m: nat): (nat, nat)
  {
    if m >= 12 || day < MonthLength(y, m) then (m, day)
    else SplitMonth(day - MonthLength(y, m), y, m + 1)
  }

  function DateOf(day: nat): Date
  {
    var (y, rest) := SplitYear(day, 0);
    var (m, d) := SplitMonth(rest, y, 1);
    Date(y, m, d + 1)
  }

  lemma {:induction false} SplitYearFinds(day: nat, y: nat)
    ensures var (y', rest) := SplitYear(day, y);
      y' >= y && rest < YearLength(y') && DaysBeforeYear(y) + day == DaysBeforeYear(y') + rest
    decreases day
  {
    if day >= YearLength(y) {
      SplitYearFinds(day - YearLength(y), y + 1);
    }
  }

  lemma {:induction false} SplitMonthFinds(day: nat, y: nat, m: nat)
    requires 1 <= m <= 12 && DaysBeforeMonth(y, m) + day < YearLength(y)
    ensures var (m', rest) := SplitMonth(day, y, m);
      m <= m' <= 12 && rest < MonthLength(y, m') && DaysBeforeMonth(y, m) + day == DaysBeforeMonth(y, m') + rest
    decreases 12 - m
  {
    YearIsItsMonths(y);
    if m < 12 && day >= MonthLength(y, m) {
      SplitMonthFinds(day - MonthLength(y, m), y, m + 1);
    }
  }

  lemma YearIsItsMonths(y: nat)
    ensures DaysBeforeMonth(y, 12) + MonthLength(y, 12) == YearLength(y)
  {
    assert DaysBeforeMonth(y, 4) == 59 + 31 + (if IsLeap(y) then 1 else 0) by {
      assert DaysBeforeMonth(y, 2) == 31;
    }
    assert DaysBeforeMonth(y, 7) == DaysBeforeMonth(y, 4) + 91 by {
      assert DaysBeforeMonth(y, 5) == DaysBeforeMonth(y, 4) + 30;
    }
    assert DaysBeforeMonth(y, 10) == DaysBeforeMonth(y, 7) + 92 by {
      assert DaysBeforeMonth(y, 8) == DaysBeforeMonth(y, 7) + 31;
    }
    assert DaysBeforeMonth(y, 12) == DaysBeforeMonth(y, 10) + 61 by {
      assert DaysBeforeMonth(y, 11) == DaysBeforeMonth(y, 10) + 31;
    }
  }

  lemma {:induction false} YearsGrow(y: nat, y': nat)
    requires y < y'
    ensures DaysBeforeYear(y) + YearLength(y) <= DaysBeforeYear(y')
    decreases y'
  {
    if y + 1 < y' {
      YearsGrow(y, y' - 1);
    }
  }

  lemma {:induction false} YearsAreLong(y: nat)
    ensures DaysBeforeYear(y) >= 365 * y
  {
    if y > 0 {
      YearsAreLong(y - 1);
    }
  }

  lemma {:induction false} MonthsGrow(y: nat, m: nat, m': nat)
    requires 1 <= m < m'
    ensures DaysBeforeMonth(y, m) + MonthLength(y, m) <= DaysBeforeMonth(y, m')
    decreases m'
  {
    if m + 1 < m' {
      MonthsGrow(y, m, m' - 1);
    }
  }

  predicate DateLess(a: Date, b: Date)
  {
    a.year < b.year || (a.year == b.year && (a.month < b.month || (a.month == b.month && a.day < b.day)))
  }

  /** Every day has exactly one valid date: splitting finds it and counting undoes the split. */
  lemma DateOfDay(day: nat)
    ensures ValidDate(DateOf(day)) && DayNumber(DateOf(day)) == day
  {
    SplitYearFinds(day, 0);
    var (y, rest) := SplitYear(day, 0);
    SplitMonthFinds(rest, y, 1);
    var (m, d) := SplitMonth(rest, y, 1);
    assert d < MonthLength(y, m);
  }

  /** Calendar order is day order. */
  lemma DayOrder(a: Date, b: Date)
    requires ValidDate(a) && ValidDate(b)
    ensures DayNumber(a) < DayNumber(b) <==> DateLess(a, b)
  {
    if DateLess(a, b) {
      DayOrderForward(a, b);
    } else if a != b {
      DayOrderForward(b, a);
    }
  }

  lemma DayOrderForward(a: Date, b: Date)
    requires ValidDate(a) && ValidDate(b) && DateLess(a, b)
    ensures DayNumber(a) < DayNumber(b)
  {
    if a.year < b.year {
      YearsGrow(a.year, b.year);
      YearIsItsMonths(a.year);
      if a.month < 12 {
        MonthsGrow(a.year, a.month, 12);
      }
    } else if a.month < b.month {
      MonthsGrow(a.year, a.month, b.month);
    }
  }

  // ---------------------------------------------------------------------------
  // Instants in milliseconds
  // ---------------------------------------------------------------------------

  /** The seven numbers of a timestamp with millisecond precision. */
  datatype Moment = Moment(date: Date, hour: nat, minute: nat, second: nat, milli: nat)

  predicate ValidMoment(t: Moment)
  {
    ValidDate(t.date) && t.hour < 24 && t.minute < 60 && t.second < 60 && t.milli < 1000
  }

  function MomentOf(ms: nat): Moment
  {
    var r := ms % MILLIS_PER_DAY;
    Moment(DateOf(ms / MILLIS_PER_DAY), r / 3_600_000, r / 60_000 % 60, r / 1000 % 60, r % 1000)
  }

  function MillisOf(t: Moment): (ms: nat)
    requires ValidMoment(t)
  {
    DayNumber(t.date) * MILLIS_PER_DAY + t.hour * 3_600_000 + t.minute * 60_000 + t.second * 1000 + t.milli
  }

  predicate MomentLess(a: Moment, b: Moment)
  {
    DateLess(a.date, b.date) ||
    (a.date == b.date && (a.hour < b.hour ||
    (a.hour == b.hour && (a.minute < b.minute ||
    (a.minute == b.minute && (a.second < b.second ||
    (a.second == b.second && a.milli < b.milli)))))))
  }

  /** Reading an instant off the calendar and counting it back meet. */
  lemma MomentOfMillis(ms: nat)
    ensures ValidMoment(MomentOf(ms)) && MillisOf(MomentOf(ms)) == ms
  {
    DateOfDay(ms / MILLIS_PER_DAY);
    var r := ms % MILLIS_PER_DAY;
    assert r == r / 1000 * 1000 + r % 1000;
    assert r / 60_000 == r / 1000 / 60;
    assert r / 3_600_000 == r / 60_000 / 60;
  }

  /** Field-by-field order of two instants is their order in milliseconds. */
  lemma MomentOrder(a: nat, b: nat)
    ensures a < b <==> MomentLess(MomentOf(a), MomentOf(b))
    ensures a == b <==> MomentOf(a) == MomentOf(b)
  {
    MomentOfMillis(a);
    MomentOfMillis(b);
    var s, t := MomentOf(a), MomentOf(b);
    DayOrder(s.date, t.date);
    DateOfDay(a / MILLIS_PER_DAY);
    DateOfDay(b / MILLIS_PER_DAY);
  }

  /** A year starts at least 365 days after the one before. */
  lemma YearBound(ms: nat)
    ensures 365 * MomentOf(ms).date.year <= ms / MILLIS_PER_DAY
  {
    DateOfDay(ms / MILLIS_PER_DAY);
    YearsAreLong(MomentOf(ms).date.year);
  }

  // ---------------------------------------------------------------------------
  // The Gregorian rule, counted
  // ---------------------------------------------------------------------------

  lemma Quarter(n: nat)
    requires n >= 1
    ensures (n + 3) / 4 == (n + 2) / 4 + (if (n - 1) % 4 == 0 then 1 else 0)
  {
  }

  lemma Hundredth(n: nat)
    requires n >= 1
    ensures (n + 99) / 100 == (n + 98) / 100 + (if (n - 1) % 100 == 0 then 1 else 0)
  {
  }

  lemma FourHundredth(n: nat)
    requires n >= 1
    ensures (n + 399) / 400 == (n + 398) / 400 + (if (n - 1) % 400 == 0 then 1 else 0)
  {
  }

  lemma MultipleOf100(y: nat)
    requires y % 100 == 0
    ensures y % 4 == 0
  {
    var q: int, rest: int := y / 100, y / 4;
    assert y == 100 * q && y == 4 * rest + y % 4;
    assert y % 4 == 4 * (25 * q - rest);
  }

  lemma MultipleOf400(y: nat)
    requires y % 400 == 0
    ensures y % 100 == 0
  {
    var q: int, rest: int := y / 400, y / 100;
    assert y == 400 * q && y == 100 * rest + y % 100;
    assert y % 100 == 100 * (4 * q - rest);
  }

  /** The days before a year, in closed form: 365 each, and one more every 4 years, but not every 100, but every
      400. */
  lemma {:induction false} GregorianCount(y: nat)
    ensures DaysBeforeYear(y) == 365 * y + (y + 3) / 4 - (y + 99) / 100 + (y + 399) / 400
  {
    if y > 0 {
      GregorianCount(y - 1);
      Quarter(y);
      Hundredth(y);
      FourHundredth(y);
      if (y - 1) % 400 == 0 {
        MultipleOf400(y - 1);
      }
      if (y - 1) % 100 == 0 {
        MultipleOf100(y - 1);
      }
    }
  }

  /** The days before each month. */
  const MONTH_STARTS: seq<nat> := [0, 31, 59, 90, 120, 151, 181, 212, 243, 273, 304, 334]

  lemma {:induction false} MonthStarts(y: nat, m: nat)
    requires 1 <= m <= 12
    ensures DaysBeforeMonth(y, m) == MONTH_STARTS[m - 1] + (if m > 2 then YearLength(y) - 365 else 0)
  {
    if m > 1 {
      MonthStarts(y, m - 1);
    }
  }

  /** The Unix epoch by the calendar. */
  lemma UnixEpochIsDay719528()
    ensures DayNumber(Date(1970, 1, 1)) == 719_528 && DateOf(719_528) == Date(1970, 1, 1)
  {
    hide DaysBeforeYear, DateOf;
    GregorianCount(1970);
    MonthStarts(1970, 1);
    DateOfDay(719_528);
    DayOrder(DateOf(719_528), Date(1970, 1, 1));
    DayOrder(Date(1970, 1, 1), DateOf(719_528));
  }
}
