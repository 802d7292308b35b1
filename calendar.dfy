/**
  Proleptic Gregorian calendar on day numbers counted from 1970-01-01 (UTC).

  A civil date (year, month, day) is mapped to a day number; a day-of-month
  beyond the month's length simply runs on into the following month, which is
  how PHP's DateTime normalises a date such as "February 31".
 */
module Calendar {

  predicate IsLeapYear(y: int) {
    y % 4 == 0 && (y % 100 != 0 || y % 400 == 0)
  }

  function DaysInYear(y: int): int {
    if IsLeapYear(y) then 366 else 365
  }

  function DaysInMonth(y: int, m: int): (n: int)
    requires 1 <= m <= 12
    ensures 28 <= n <= 31
  {
    if m == 2 then (if IsLeapYear(y) then 29 else 28)
    else if m == 4 || m == 6 || m == 9 || m == 11 then 30
    else 31
  }

  /** Day number of January 1st of year `y`. */
  function DaysBeforeYear(y: int): int
    decreases if y < 1970 then 1970 - y else y - 1970
  {
    if y == 1970 then 0
    else if y > 1970 then DaysBeforeYear(y - 1) + DaysInYear(y - 1)
    else DaysBeforeYear(y + 1) - DaysInYear(y)
  }

  /** Days from January 1st to the first day of month `m` of year `y`. */
  function DaysBeforeMonth(y: int, m: int): int
    requires 1 <= m <= 12
  {
    var leap := if m > 2 && IsLeapYear(y) then 1 else 0;
    leap +
    (if m == 1 then 0 else if m == 2 then 31 else if m == 3 then 59
     else if m == 4 then 90 else if m == 5 then 120 else if m == 6 then 151
     else if m == 7 then 181 else if m == 8 then 212 else if m == 9 then 243
     else if m == 10 then 273 else if m == 11 then 304 else 334)
  }

  datatype Date = Date(year: int, month: int, day: int)

  predicate ValidDate(d: Date) {
    1 <= d.month <= 12 && 1 <= d.day <= DaysInMonth(d.year, d.month)
  }

  /** Day number of a date; `day` may lie outside the month and is counted on linearly. */
  function DayNumber(d: Date): int
    requires 1 <= d.month <= 12
  {
    DaysBeforeYear(d.year) + DaysBeforeMonth(d.year, d.month) + d.day - 1
  }

  lemma YearStep(y: int)
    ensures DaysBeforeYear(y + 1) == DaysBeforeYear(y) + DaysInYear(y)
  {
  }

  lemma MonthStep(y: int, m: int)
    requires 1 <= m < 12
    ensures DaysBeforeMonth(y, m + 1) == DaysBeforeMonth(y, m) + DaysInMonth(y, m)
  {
  }

  lemma DecemberEndsYear(y: int)
    ensures DaysBeforeMonth(y, 12) + DaysInMonth(y, 12) == DaysInYear(y)
  {
  }

  /** January 1st of a later year comes at least a full year after that of an earlier one. */
  lemma {:induction false} YearsIncrease(y: int, z: int)
    requires y < z
    ensures DaysBeforeYear(y + 1) <= DaysBeforeYear(z)
    decreases z - y
  {
    if y + 1 < z {
      YearsIncrease(y + 1, z);
      YearStep(y + 1);
    }
  }

  /** The year whose days contain day number `n`, searched from year `y`. */
  function YearContaining(n: int, y: int): (r: int)
    ensures DaysBeforeYear(r) <= n < DaysBeforeYear(r + 1)
    decreases (if n < DaysBeforeYear(y) then DaysBeforeYear(y) - n else 0),
              (if n < DaysBeforeYear(y) then 0 else n - DaysBeforeYear(y))
  {
    YearStep(y);
    YearStep(y - 1);
    if n < DaysBeforeYear(y) then YearContaining(n, y - 1)
    else if n < DaysBeforeYear(y + 1) then y
    else YearContaining(n, y + 1)
  }

  /** The month of year `y` holding day `dayOfYear` (0-based), searched from month `m`. */
  function MonthContaining(y: int, dayOfYear: int, m: int): (r: int)
    requires 0 <= dayOfYear < DaysInYear(y)
    requires 1 <= m <= 12 && DaysBeforeMonth(y, m) <= dayOfYear
    ensures m <= r <= 12
    ensures DaysBeforeMonth(y, r) <= dayOfYear < DaysBeforeMonth(y, r) + DaysInMonth(y, r)
    decreases 12 - m
  {
    if dayOfYear < DaysBeforeMonth(y, m) + DaysInMonth(y, m) then m
    else
      if m == 12 then DecemberEndsYear(y); m
      else MonthStep(y, m); MonthContaining(y, dayOfYear, m + 1)
  }

  /** The valid civil date of day number `n`. */
  function CivilFromDays(n: int): (d: Date)
    ensures ValidDate(d) && DayNumber(d) == n
  {
    var y := YearContaining(n, 1970);
    YearStep(y);
    var m := MonthContaining(y, n - DaysBeforeYear(y), 1);
    Date(y, m, n - DaysBeforeYear(y) - DaysBeforeMonth(y, m) + 1)
  }

  lemma ValidDateInItsYear(d: Date)
    requires ValidDate(d)
    ensures DaysBeforeYear(d.year) <= DayNumber(d) < DaysBeforeYear(d.year + 1)
  {
    YearStep(d.year);
    if d.month < 12 {
      MonthStep(d.year, d.month);
      MonthsIncrease(d.year, d.month + 1, 12);
    }
    DecemberEndsYear(d.year);
  }

  lemma {:induction false} MonthsIncrease(y: int, m: int, k: int)
    requires 1 <= m <= k <= 12
    ensures DaysBeforeMonth(y, m) <= DaysBeforeMonth(y, k)
    decreases k - m
  {
    if m < k {
      MonthStep(y, m);
      MonthsIncrease(y, m + 1, k);
    }
  }

  /** Distinct valid dates have distinct day numbers. */
  lemma {:induction false} DayNumberInjective(a: Date, b: Date)
    requires ValidDate(a) && ValidDate(b) && DayNumber(a) == DayNumber(b)
    ensures a == b
  {
    ValidDateInItsYear(a);
    ValidDateInItsYear(b);
    if a.year < b.year {
      YearsIncrease(a.year, b.year);
      assert false;
    } else if b.year < a.year {
      YearsIncrease(b.year, a.year);
      assert false;
    }
    if a.month < b.month {
      MonthStep(a.year, a.month);
      MonthsIncrease(a.year, a.month + 1, b.month);
      assert false;
    } else if b.month < a.month {
      MonthStep(b.year, b.month);
      MonthsIncrease(b.year, b.month + 1, a.month);
      assert false;
    }
  }

  /** Day numbering and civil dates are inverse on valid dates. */
  lemma CivilRoundTrip(d: Date)
    requires ValidDate(d)
    ensures CivilFromDays(DayNumber(d)) == d
  {
    DayNumberInjective(CivilFromDays(DayNumber(d)), d);
  }

  /** Month index (12 * year + month - 1) of a date, and back. */
  function MonthIndex(d: Date): int {
    12 * d.year + d.month - 1
  }

  /** `d` moved by `k` months (negative: back), keeping the day of month. */
  function AddMonths(d: Date, k: int): (r: Date)
    ensures 1 <= r.month <= 12 && r.day == d.day
    ensures MonthIndex(r) == MonthIndex(d) + k
  {
    var idx := MonthIndex(d) + k;
    Date(idx / 12, idx % 12 + 1, d.day)
  }

  /** Day number of the first of the month with index `idx`. */
  function MonthStart(idx: int): int {
    DayNumber(Date(idx / 12, idx % 12 + 1, 1))
  }

  lemma MonthStartStep(idx: int)
    ensures MonthStart(idx + 1) == MonthStart(idx) + DaysInMonth(idx / 12, idx % 12 + 1)
  {
    var y, m := idx / 12, idx % 12 + 1;
    if m < 12 {
      assert (idx + 1) / 12 == y && (idx + 1) % 12 + 1 == m + 1;
      MonthStep(y, m);
    } else {
      assert (idx + 1) / 12 == y + 1 && (idx + 1) % 12 + 1 == 1;
      YearStep(y);
      DecemberEndsYear(y);
    }
  }

  lemma DayNumberByIndex(d: Date)
    requires 1 <= d.month <= 12
    ensures DayNumber(d) == MonthStart(MonthIndex(d)) + d.day - 1
  {
    var idx := MonthIndex(d);
    assert idx / 12 == d.year && idx % 12 + 1 == d.month;
  }

  /** Going back further in months, with the same day of month, never gives a later day. */
  lemma {:induction false} EarlierMonthsEarlierDays(d: Date, j: int, k: int)
    requires 1 <= d.month <= 12 && 0 <= j <= k
    ensures DayNumber(AddMonths(d, -k)) <= DayNumber(AddMonths(d, -j))
    decreases k - j
  {
    if j < k {
      EarlierMonthsEarlierDays(d, j + 1, k);
      var a, b := AddMonths(d, -(j + 1)), AddMonths(d, -j);
      DayNumberByIndex(a);
      DayNumberByIndex(b);
      MonthStartStep(MonthIndex(a));
    }
  }

  /** Moving by zero months is the identity. */
  lemma AddNoMonths(d: Date)
    requires 1 <= d.month <= 12
    ensures AddMonths(d, 0) == d
  {
    var idx := MonthIndex(d);
    assert idx / 12 == d.year && idx % 12 + 1 == d.month;
  }

}
