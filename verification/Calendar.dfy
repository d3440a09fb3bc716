/** The calendar of the `time` crate, and the count of nanoseconds behind it. */
module Calendar {
  import opened DateTimes
  import Instants

  /** `OffsetDateTime` in UTC, as the `time` crate represents it. */
  datatype Moment = Moment(year: int, month: nat, day: nat, hour: nat, minute: nat, second: nat, nanosecond: nat) {
    predicate Valid() {
      && -9999 <= year <= 9999 && 1 <= month <= 12 && 1 <= day <= DaysIn(year, month)
      && hour < 24 && minute < 60 && second < 60 && nanosecond < NANOS
    }

    function Nanos(): int
      requires 1 <= month <= 12
    {
      Seconds(year, month, day, hour, minute, second) * NANOS + nanosecond
    }
  }

  const NANOS: nat := 1_000_000_000

  // ----- counting time

  /** Days of the proleptic Gregorian calendar before a year. */
  function DaysBeforeYear(year: int): int {
    var y := year - 1;
    365 * y + y / 4 - y / 100 + y / 400
  }

  function DaysBeforeMonth(year: int, month: nat): nat
    requires 1 <= month <= 12
  {
    if month == 1 then 0 else DaysBeforeMonth(year, month - 1) + DaysIn(year, month - 1)
  }

  function Seconds(year: int, month: nat, day: nat, hour: nat, minute: nat, second: nat): int
    requires 1 <= month <= 12
  {
    (((DaysBeforeYear(year) + DaysBeforeMonth(year, month) + day) * 24 + hour) * 60 + minute) * 60 + second
  }

  /** The day count and the calendar agree: a year ends where the next begins. */
  lemma YearsFollowEachOther(year: int)
    ensures DaysBeforeYear(year + 1) == DaysBeforeYear(year) + DaysBeforeMonth(year, 12) + DaysIn(year, 12)
  {
    assert DaysBeforeMonth(year, 2) == 31;
    assert DaysBeforeMonth(year, 3) == 31 + DaysIn(year, 2);
    assert DaysBeforeMonth(year, 5) == DaysBeforeMonth(year, 4) + 30 == DaysBeforeMonth(year, 3) + 61;
    assert DaysBeforeMonth(year, 7) == DaysBeforeMonth(year, 6) + 30 == DaysBeforeMonth(year, 5) + 61;
    assert DaysBeforeMonth(year, 9) == DaysBeforeMonth(year, 8) + 31 == DaysBeforeMonth(year, 7) + 62;
    assert DaysBeforeMonth(year, 11) == DaysBeforeMonth(year, 10) + 31 == DaysBeforeMonth(year, 9) + 61;
    assert DaysBeforeMonth(year, 12) == DaysBeforeMonth(year, 11) + 30;
    MultiplesBelow(year, 4);
    MultiplesBelow(year, 100);
    MultiplesBelow(year, 400);
  }

  lemma MultiplesBelow(year: int, m: nat)
    requires m in {4, 100, 400}
    ensures year / m == (year - 1) / m + if year % m == 0 then 1 else 0
  {
  }

  // ----- the calendar and the count, both ways

  const FIRST_MOMENT: Moment := Moment(-9999, 1, 1, 0, 0, 0, 0)
  const LAST_MOMENT: Moment := Moment(9999, 12, 31, 23, 59, 59, NANOS - 1)

  function DaysTo(year: int, month: nat, day: nat): int
    requires 1 <= month <= 12
  {
    DaysBeforeYear(year) + DaysBeforeMonth(year, month) + day
  }

  /** The month and day of the year's k-th day, for the days up to the end of `month`. */
  lemma {:induction false} DayOfYear(year: int, k: nat, month: nat) returns (m: nat, d: nat)
    requires 1 <= month <= 12 && 1 <= k <= DaysBeforeMonth(year, month) + DaysIn(year, month)
    ensures 1 <= m <= 12 && 1 <= d <= DaysIn(year, m) && DaysBeforeMonth(year, m) + d == k
  {
    if k > DaysBeforeMonth(year, month) {
      m, d := month, k - DaysBeforeMonth(year, month);
    } else {
      m, d := DayOfYear(year, k, month - 1);
    }
  }

  lemma {:induction false} YearOfDay(n: int, first: int, last: int) returns (year: int)
    requires first <= last && DaysBeforeYear(first) < n <= DaysBeforeYear(last + 1)
    ensures first <= year <= last && DaysBeforeYear(year) < n <= DaysBeforeYear(year + 1)
    decreases last - first
  {
    if n > DaysBeforeYear(last) {
      year := last;
    } else {
      year := YearOfDay(n, first, last - 1);
    }
  }

  /** Every count between the first moment and the last is some moment's. */
  lemma MomentAt(n: int) returns (t: Moment)
    requires FIRST_MOMENT.Nanos() <= n <= LAST_MOMENT.Nanos()
    ensures t.Valid() && t.Nanos() == n
  {
    hide DaysBeforeYear, DaysBeforeMonth, DaysIn;
    var seconds, minutes, hours, days := n / NANOS, n / NANOS / 60, n / NANOS / 60 / 60, n / NANOS / 60 / 60 / 24;
    DaysWithinTheCalendar(n);
    var year := YearOfDay(days, -9999, 9999);
    YearsFollowEachOther(year);
    var month, day := DayOfYear(year, days - DaysBeforeYear(year), 12);
    t := Moment(year, month, day, hours % 24, minutes % 60, seconds % 60, n % NANOS);
  }

  lemma NothingBeforeJanuary(year: int)
    ensures DaysBeforeMonth(year, 1) == 0
  {
  }

  lemma DaysWithinTheCalendar(n: int)
    requires FIRST_MOMENT.Nanos() <= n <= LAST_MOMENT.Nanos()
    ensures DaysBeforeYear(-9999) < n / NANOS / 60 / 60 / 24 <= DaysBeforeYear(10000)
  {
    hide DaysBeforeYear, DaysBeforeMonth;
    YearsFollowEachOther(9999);
    NothingBeforeJanuary(-9999);
  }

  lemma {:induction false} YearsIncrease(a: int, b: int)
    requires a < b
    ensures DaysBeforeYear(a + 1) <= DaysBeforeYear(b)
    decreases b - a
  {
    if a + 1 < b {
      YearsIncrease(a, b - 1);
      YearsFollowEachOther(b - 1);
    }
  }

  lemma {:induction false} MonthsIncrease(year: int, a: nat, b: nat)
    requires 1 <= a < b <= 12
    ensures DaysBeforeMonth(year, a) + DaysIn(year, a) <= DaysBeforeMonth(year, b)
    decreases b
  {
    if a + 1 < b {
      MonthsIncrease(year, a, b - 1);
    }
  }

  lemma DateIsWithinItsYear(year: int, month: nat, day: nat)
    requires 1 <= month <= 12 && 1 <= day <= DaysIn(year, month)
    ensures DaysBeforeYear(year) < DaysTo(year, month, day) <= DaysBeforeYear(year + 1)
  {
    hide DaysBeforeYear, DaysIn;
    YearsFollowEachOther(year);
    if month < 12 {
      MonthsIncrease(year, month, 12);
    }
  }

  lemma DateOfDayIsUnique(y: int, m: nat, d: nat, year: int, month: nat, day: nat)
    requires 1 <= m <= 12 && 1 <= d <= DaysIn(y, m) && 1 <= month <= 12 && 1 <= day <= DaysIn(year, month)
    requires DaysTo(y, m, d) == DaysTo(year, month, day)
    ensures y == year && m == month && d == day
  {
    hide DaysBeforeYear, DaysBeforeMonth, DaysIn;
    DateIsWithinItsYear(y, m, d);
    DateIsWithinItsYear(year, month, day);
    if y < year {
      YearsIncrease(y, year);
    } else if year < y {
      YearsIncrease(year, y);
    } else if m < month {
      MonthsIncrease(y, m, month);
    } else if month < m {
      MonthsIncrease(y, month, m);
    }
  }

  /** Two moments with one count are the same. */
  lemma MomentsAreDistinct(a: Moment, b: Moment)
    requires a.Valid() && b.Valid() && a.Nanos() == b.Nanos()
    ensures a == b
  {
    hide DaysBeforeYear, DaysBeforeMonth, DaysIn;
    assert a.Nanos() / NANOS == Seconds(a.year, a.month, a.day, a.hour, a.minute, a.second);
    assert b.Nanos() / NANOS == Seconds(b.year, b.month, b.day, b.hour, b.minute, b.second);
    SecondsSplit(a.year, a.month, a.day, a.hour, a.minute, a.second);
    SecondsSplit(b.year, b.month, b.day, b.hour, b.minute, b.second);
    DateOfDayIsUnique(a.year, a.month, a.day, b.year, b.month, b.day);
  }

  lemma SecondsSplit(year: int, month: nat, day: nat, hour: nat, minute: nat, second: nat)
    requires 1 <= month <= 12 && hour < 24 && minute < 60 && second < 60
    ensures var s := Seconds(year, month, day, hour, minute, second);
            && s % 60 == second && s / 60 % 60 == minute && s / 60 / 60 % 24 == hour
            && s / 60 / 60 / 24 == DaysTo(year, month, day)
  {
    hide DaysBeforeYear, DaysBeforeMonth;
  }

  lemma MomentIsWithinTheCalendar(t: Moment)
    requires t.Valid()
    ensures FIRST_MOMENT.Nanos() <= t.Nanos() <= LAST_MOMENT.Nanos()
  {
    hide DaysBeforeYear, DaysBeforeMonth;
    DateIsWithinItsYear(t.year, t.month, t.day);
    YearsFollowEachOther(9999);
    NothingBeforeJanuary(-9999);
    assert DaysIn(9999, 12) == 31;
    if -9999 < t.year {
      YearsIncrease(-9999, t.year);
      YearsFollowEachOther(-9999);
    }
    if t.year < 9999 {
      YearsIncrease(t.year, 10000);
    }
  }

  /** One date in two years that follow each other: the counts differ by more than 363 days. */
  lemma SameDateNextYear(year: int, month: nat, day: nat, hour: nat, minute: nat, second: nat)
    requires 1 <= month <= 12
    ensures Seconds(year + 1, month, day, hour, minute, second)
         >= Seconds(year, month, day, hour, minute, second) + 364 * 86_400
  {
    hide DaysBeforeYear, DaysBeforeMonth;
    MonthsShiftByADay(year, month);
    YearsAreLong(year);
  }

  lemma CenturiesAreMultiplesOfFour(year: int)
    ensures year % 100 == 0 ==> year % 4 == 0
  {
    if year % 100 == 0 {
      assert year == 4 * (25 * (year / 100));
    }
  }

  lemma YearsAreLong(year: int)
    ensures DaysBeforeYear(year + 1) >= DaysBeforeYear(year) + 365
  {
    CenturiesAreMultiplesOfFour(year);
    MultiplesBelow(year, 4);
    MultiplesBelow(year, 100);
    MultiplesBelow(year, 400);
  }

  lemma {:induction false} MonthsShiftByADay(year: int, month: nat)
    requires 1 <= month <= 12
    ensures DaysBeforeMonth(year + 1, month) >= DaysBeforeMonth(year, month) - if month <= 2 then 0 else 1
  {
    if month > 1 {
      MonthsShiftByADay(year, month - 1);
    }
  }

  // ----- Unix time

  const EPOCH: Moment := Moment(1970, 1, 1, 0, 0, 0, 0)

  /** The range of instants is this calendar, counted from the epoch. */
  lemma InstantsSpanTheCalendar()
    ensures FIRST_MOMENT.Nanos() - EPOCH.Nanos() == Instants.MIN_INSTANT
    ensures LAST_MOMENT.Nanos() - EPOCH.Nanos() == Instants.MAX_INSTANT
    ensures Moment(0, 1, 1, 0, 0, 0, 0).Nanos() - EPOCH.Nanos() == Instants.YEAR_ZERO
  {
    hide DaysBeforeMonth;
    YearsFollowEachOther(9999);
    NothingBeforeJanuary(-9999);
    NothingBeforeJanuary(0);
    NothingBeforeJanuary(1970);
  }
}
