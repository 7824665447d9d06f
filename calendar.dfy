/** Proleptic Gregorian calendar on whole day numbers.
    Day 0 is 1970-01-01, the epoch of JavaScript dates; a date written
    "YYYY" or "YYYY-MM-DD" denotes midnight UTC of that day, so every date
    the timeline handles is a whole day number. */
module Calendar {

  predicate IsLeapYear(y: int) {
    y % 4 == 0 && (y % 100 != 0 || y % 400 == 0)
  }

  function DaysInYear(y: int): (n: int)
    ensures n == 365 || n == 366
    ensures n == 366 <==> IsLeapYear(y)
  {
    if IsLeapYear(y) then 366 else 365
  }

  predicate IsMonth(m: int) { 1 <= m <= 12 }

  function DaysInMonth(y: int, m: int): (n: int)
    requires IsMonth(m)
    ensures 28 <= n <= 31
  {
    if m == 2 then (if IsLeapYear(y) then 29 else 28)
    else if m == 4 || m == 6 || m == 9 || m == 11 then 30
    else 31
  }

  /** Days of year y that lie before the first day of month m. */
  function DaysBeforeMonth(y: int, m: int): (n: int)
    requires IsMonth(m)
    ensures m == 1 ==> n == 0
    ensures n + DaysInMonth(y, m) <= DaysInYear(y)
    ensures m == 12 ==> n + DaysInMonth(y, m) == DaysInYear(y)
  {
    [0, 31, 59, 90, 120, 151, 181, 212, 243, 273, 304, 334][m - 1]
    + (if m > 2 && IsLeapYear(y) then 1 else 0)
  }

  lemma MonthStep(y: int, m: int)
    requires 1 <= m < 12
    ensures DaysBeforeMonth(y, m) + DaysInMonth(y, m) == DaysBeforeMonth(y, m + 1)
  {
  }

  /** Day number of 1970-01-01 counted from 0000-01-01. */
  const EpochDay := 719528

  /** Leap years in [0, y) (negated count of those in [y, 0) when y < 0). */
  function LeapYearsBefore(y: int): int {
    (y + 3) / 4 - (y + 99) / 100 + (y + 399) / 400
  }

  /** Day number of 1 January of year y. */
  function YearStart(y: int): int {
    365 * y + LeapYearsBefore(y) - EpochDay
  }

  /** Day number of the given calendar date. As with Date.UTC, a day of
      the month outside the month carries over linearly. */
  function DayOf(y: int, m: int, d: int): (n: int)
    requires IsMonth(m)
    ensures m == 1 && d == 1 ==> n == YearStart(y)
  {
    YearStart(y) + DaysBeforeMonth(y, m) + d - 1
  }

  lemma Div4Step(y: int)
    ensures (y + 4) / 4 - (y + 3) / 4 == if y % 4 == 0 then 1 else 0
  {
    var q, r := y / 4, y % 4;
    assert y == 4 * q + r;
    assert (y + 4) / 4 == q + 1;
    assert (y + 3) / 4 == if r == 0 then q else q + 1;
  }

  lemma Div100Step(y: int)
    ensures (y + 100) / 100 - (y + 99) / 100 == if y % 100 == 0 then 1 else 0
  {
    var q, r := y / 100, y % 100;
    assert y == 100 * q + r;
    assert (y + 100) / 100 == q + 1;
    assert (y + 99) / 100 == if r == 0 then q else q + 1;
  }

  lemma Div400Step(y: int)
    ensures (y + 400) / 400 - (y + 399) / 400 == if y % 400 == 0 then 1 else 0
  {
    var q, r := y / 400, y % 400;
    assert y == 400 * q + r;
    assert (y + 400) / 400 == q + 1;
    assert (y + 399) / 400 == if r == 0 then q else q + 1;
  }

  /** Going from y to y + 1 adds one to the leap-year count exactly when y is leap. */
  lemma LeapYearsStep(y: int)
    ensures LeapYearsBefore(y + 1) == LeapYearsBefore(y) + (if IsLeapYear(y) then 1 else 0)
  {
    Div4Step(y);
    Div100Step(y);
    Div400Step(y);
    DivisibilityChain(y);
    assert LeapYearsBefore(y + 1) == (y + 4) / 4 - (y + 100) / 100 + (y + 400) / 400;
  }

  lemma DivisibilityChain(y: int)
    ensures y % 400 == 0 ==> y % 100 == 0
    ensures y % 100 == 0 ==> y % 4 == 0
  {
    if y % 400 == 0 {
      var k := 4 * (y / 400);
      var q, r := y / 100, y % 100;
      assert 100 * k == 100 * q + r;
      assert 100 * (k - q) == r;
    }
    if y % 100 == 0 {
      var k := 25 * (y / 100);
      var q, r := y / 4, y % 4;
      assert 4 * k == 4 * q + r;
      assert 4 * (k - q) == r;
    }
  }

  /** Consecutive first-of-January days are one calendar year apart. */
  lemma YearStartStep(y: int)
    ensures YearStart(y + 1) == YearStart(y) + DaysInYear(y)
  {
    LeapYearsStep(y);
  }

  lemma YearStartMonotone(y: int, z: int)
    requires y <= z
    ensures YearStart(y) <= YearStart(z)
    decreases z - y
  {
    if y < z {
      YearStartStep(y);
      YearStartMonotone(y + 1, z);
    }
  }

  /** The first day of every month of year y lies in [YearStart(y), YearStart(y+1)),
      and later months start later. */
  lemma MonthStartInYear(y: int, m: int)
    requires IsMonth(m)
    ensures YearStart(y) <= DayOf(y, m, 1) < YearStart(y + 1)
    ensures m < 12 ==> DayOf(y, m, 1) < DayOf(y, m + 1, 1)
  {
    YearStartStep(y);
    if m < 12 { MonthStep(y, m); }
  }

  lemma EpochIsDayZero()
    ensures DayOf(1970, 1, 1) == 0
  {
    assert LeapYearsBefore(1970) == 493 - 20 + 5;
    assert YearStart(1970) == 0;
  }
}
