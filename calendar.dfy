/**
 * The proleptic Gregorian calendar over instants counted in nanoseconds since
 * 1970-01-01T00:00:00Z. It stands in for the date arithmetic the file tree asks of
 * its date library: the year of an instant, whether a year/month/day triple is a
 * date, and the instant at which a given minute of a given day begins.
 */
module Calendar {

  const NanosPerSecond: int := 1_000_000_000
  const NanosPerMinute: int := 60 * NanosPerSecond
  const NanosPerDay: int := 86_400 * NanosPerSecond

  predicate IsLeapYear(y: int) {
    y % 4 == 0 && (y % 100 != 0 || y % 400 == 0)
  }

  function DaysInYear(y: int): nat {
    if IsLeapYear(y) then 366 else 365
  }

  function DaysInMonth(y: int, m: int): (n: nat)
    requires 1 <= m <= 12
    ensures 28 <= n <= 31
    ensures m == 2 ==> (n == 29 <==> IsLeapYear(y))
  {
    if m == 2 then (if IsLeapYear(y) then 29 else 28)
    else if m == 4 || m == 6 || m == 9 || m == 11 then 30
    else 31
  }

  /** What the date library accepts as a calendar date (`ymd_opt` giving a single result). */
  predicate IsValidDate(y: int, m: int, d: int) {
    1 <= m <= 12 && 1 <= d <= DaysInMonth(y, m)
  }

  /** Days from the first of January of year `y` to the first day of month `m`. */
  function DaysBeforeMonth(y: int, m: int): nat
    requires 1 <= m <= 13
  {
    if m == 1 then 0 else DaysBeforeMonth(y, m - 1) + DaysInMonth(y, m - 1)
  }

  /** Days from 0000-01-01 to the first of January of year `y` (negative before year 0). */
  function DaysBeforeYear(y: int): int {
    365 * y + (y + 3) / 4 - (y + 99) / 100 + (y + 399) / 400
  }

  /** Days from 1970-01-01 to the given date. */
  function DaysFromCivil(y: int, m: int, d: int): int
    requires 1 <= m <= 12
  {
    DaysBeforeYear(y) - DaysBeforeYear(1970) + DaysBeforeMonth(y, m) + d - 1
  }

  /** The instant at which minute `hh:mm:00` of the given date begins. */
  function MinuteStart(y: int, m: int, d: int, hh: int, mm: int): int
    requires 1 <= m <= 12
  {
    DaysFromCivil(y, m, d) * NanosPerDay + (hh * 60 + mm) * NanosPerMinute
  }

  lemma YearLength(y: int)
    ensures DaysBeforeYear(y + 1) == DaysBeforeYear(y) + DaysInYear(y)
  {
    assert (y + 4) / 4 - (y + 3) / 4 == if y % 4 == 0 then 1 else 0;
    assert (y + 100) / 100 - (y + 99) / 100 == if y % 100 == 0 then 1 else 0;
    assert (y + 400) / 400 - (y + 399) / 400 == if y % 400 == 0 then 1 else 0;
    if y % 400 == 0 {
      assert y % 100 == 0 && y % 4 == 0;
    } else if y % 100 == 0 {
      assert y % 4 == 0;
    }
  }

  lemma MonthsFillYear(y: int)
    ensures DaysBeforeMonth(y, 13) == DaysInYear(y)
  {
    var feb := DaysInMonth(y, 2);
    assert DaysBeforeMonth(y, 2) == 31;
    assert DaysBeforeMonth(y, 3) == 31 + feb;
    assert DaysBeforeMonth(y, 4) == 62 + feb;
    assert DaysBeforeMonth(y, 5) == 92 + feb;
    assert DaysBeforeMonth(y, 6) == 123 + feb;
    assert DaysBeforeMonth(y, 7) == 153 + feb;
    assert DaysBeforeMonth(y, 8) == 184 + feb;
    assert DaysBeforeMonth(y, 9) == 215 + feb;
    assert DaysBeforeMonth(y, 10) == 245 + feb;
    assert DaysBeforeMonth(y, 11) == 276 + feb;
    assert DaysBeforeMonth(y, 12) == 306 + feb;
    assert DaysBeforeMonth(y, 13) == 337 + feb;
  }

  lemma {:induction false} DaysBeforeMonthGrows(y: int, m: int, m': int)
    requires 1 <= m <= m' <= 13
    ensures DaysBeforeMonth(y, m) <= DaysBeforeMonth(y, m')
    decreases m' - m
  {
    if m < m' {
      DaysBeforeMonthGrows(y, m, m' - 1);
    }
  }

  /** Every date of year `y` lies between the first of January of `y` and that of `y + 1`. */
  lemma DateWithinYear(y: int, m: int, d: int)
    requires IsValidDate(y, m, d)
    ensures DaysFromCivil(y, 1, 1) <= DaysFromCivil(y, m, d) < DaysFromCivil(y + 1, 1, 1)
  {
    DaysBeforeMonthGrows(y, m + 1, 13);
    MonthsFillYear(y);
    YearLength(y);
  }

  /** The calendar date that follows a given one. */
  function NextDate(y: int, m: int, d: int): (int, int, int)
    requires IsValidDate(y, m, d)
  {
    if d < DaysInMonth(y, m) then (y, m, d + 1)
    else if m < 12 then (y, m + 1, 1)
    else (y + 1, 1, 1)
  }

  /** Consecutive dates are consecutive day numbers: the calendar has no gaps and no overlaps. */
  lemma NextDateIsNextDay(y: int, m: int, d: int)
    requires IsValidDate(y, m, d)
    ensures var (y', m', d') := NextDate(y, m, d);
      IsValidDate(y', m', d') && DaysFromCivil(y', m', d') == DaysFromCivil(y, m, d) + 1
  {
    if d == DaysInMonth(y, m) && m == 12 {
      MonthsFillYear(y);
      YearLength(y);
    }
  }

  // ---------------------------------------------------------------------------
  // The year of an instant, found by walking from an estimate to the year whose
  // first day is the last one not after the instant's day.

  function YearAtOrBelow(dayNumber: int, y: int): (r: int)
    ensures DaysBeforeYear(r) <= dayNumber
    decreases if DaysBeforeYear(y) <= dayNumber then 0 else DaysBeforeYear(y) - dayNumber
  {
    YearLength(y - 1);
    if DaysBeforeYear(y) <= dayNumber then y else YearAtOrBelow(dayNumber, y - 1)
  }

  function YearContaining(dayNumber: int, y: int): (r: int)
    requires DaysBeforeYear(y) <= dayNumber
    ensures DaysBeforeYear(r) <= dayNumber < DaysBeforeYear(r + 1)
    decreases dayNumber - DaysBeforeYear(y)
  {
    YearLength(y);
    if dayNumber < DaysBeforeYear(y + 1) then y else YearContaining(dayNumber, y + 1)
  }

  /** The calendar year (UTC) in which instant `t` falls. */
  function YearOf(t: int): (y: int)
    ensures DaysFromCivil(y, 1, 1) * NanosPerDay <= t < DaysFromCivil(y + 1, 1, 1) * NanosPerDay
  {
    var day := t / NanosPerDay;
    var dayNumber := day + DaysBeforeYear(1970);
    var y := YearContaining(dayNumber, YearAtOrBelow(dayNumber, dayNumber / 366));
    assert DaysFromCivil(y, 1, 1) <= day < DaysFromCivil(y + 1, 1, 1);
    DayBoundsInstant(t, DaysFromCivil(y, 1, 1), DaysFromCivil(y + 1, 1, 1));
    y
  }

  /** Bounds on the day of an instant are bounds on the instant itself. */
  lemma DayBoundsInstant(t: int, lo: int, hi: int)
    requires lo <= t / NanosPerDay < hi
    ensures lo * NanosPerDay <= t < hi * NanosPerDay
  {
    assert lo * NanosPerDay <= (t / NanosPerDay) * NanosPerDay;
    assert (t / NanosPerDay + 1) * NanosPerDay <= hi * NanosPerDay;
  }
}
