/**
  The part of PHP's `DateInterval` and `DateTime::sub` the retention job relies
  on: reading a duration written with one date designator ("P30d", "P2m",
  "P1y", as in section 4.4.3.2 of ISO 8601) and subtracting it from a UTC
  timestamp in seconds.
 */
module DateInterval {
  import opened Wrappers
  import opened Decimal
  import opened Calendar

  /** The date part of a duration. */
  datatype Interval = Interval(years: nat, months: nat, days: nat)

  /**
    Reads `P<digits><designator>`. A string without digits (the bare "P"),
    with a sign, or with an unknown designator is rejected, as the
    `DateInterval` constructor rejects it with an exception. Designators are
    read in either case: this is an assumption about PHP's reader, on which
    every cutoff of the job depends, since the job writes them in lower case.
   */
  function ParseSpec(spec: string): (r: Option<Interval>)
    ensures r.Some? ==> |spec| >= 3 && spec[0] == 'P' && AllDigits(spec[1..|spec| - 1])
                        && spec[|spec| - 1] in "yYmMwWdD"
  {
    if |spec| < 3 || spec[0] != 'P' || !AllDigits(spec[1..|spec| - 1]) then None
    else
      var n := DigitsValue(spec[1..|spec| - 1]);
      var designator := spec[|spec| - 1];
      if designator in "yY" then Some(Interval(n, 0, 0))
      else if designator in "mM" then Some(Interval(0, n, 0))
      else if designator in "wW" then Some(Interval(0, 0, 7 * n))
      else if designator in "dD" then Some(Interval(0, 0, n))
      else None
  }

  /** The other possible reading: only upper-case designators, as written in ISO 8601. */
  function ParseSpecUpperCaseOnly(spec: string): (r: Option<Interval>)
    ensures r.Some? ==> ParseSpec(spec).Some? && spec[|spec| - 1] in "YMWD"
  {
    if |spec| > 0 && spec[|spec| - 1] in "ymwd" then None else ParseSpec(spec)
  }

  /** Years and months of a duration counted in months. */
  function TotalMonths(iv: Interval): int {
    12 * iv.years + iv.months
  }

  /** Calendar date of a timestamp. */
  function DateOf(t: int): (d: Date)
    ensures ValidDate(d)
    ensures DayNumber(d) == t / 86400
  {
    CivilFromDays(t / 86400)
  }

  /**
    `DateTime::sub`: years and months are taken off the calendar month, the day
    of month is kept (running on into the next month where the target month is
    shorter), then days are taken off; the time of day is kept.
   */
  function Sub(t: int, iv: Interval): int {
    var moved := AddMonths(DateOf(t), -TotalMonths(iv));
    (DayNumber(moved) - iv.days) * 86400 + t % 86400
  }

  /** A timestamp is its day number in seconds plus its time of day. */
  lemma TimestampSplit(t: int)
    ensures DayNumber(DateOf(t)) * 86400 + t % 86400 == t
  {
  }

  /** A day number and a time of day put together read back apart. */
  lemma SplitTimestamp(day: int, second: int)
    requires 0 <= second < 86400
    ensures (day * 86400 + second) / 86400 == day
    ensures (day * 86400 + second) % 86400 == second
  {
  }

  /** An instant on the day of a valid date has that date. */
  lemma InstantOnDate(s: int, d: Date, second: int)
    requires ValidDate(d) && 0 <= second < 86400 && s == DayNumber(d) * 86400 + second
    ensures DateOf(s) == d
  {
    SplitTimestamp(DayNumber(d), second);
    CivilRoundTrip(d);
  }

  /** More days are more seconds. */
  lemma DaysScale(a: int, b: int)
    requires a <= b
    ensures a * 86400 <= b * 86400
  {
  }

  /** `Sub` as the day `TotalMonths(iv)` months back, less `iv.days` days, at the same time of day. */
  lemma SubUnfold(t: int, iv: Interval)
    ensures Sub(t, iv) == (DayNumber(AddMonths(DateOf(t), -TotalMonths(iv))) - iv.days) * 86400 + t % 86400
  {
  }

  /** Subtracting a duration keeps the time of day. */
  lemma SubKeepsTime(t: int, iv: Interval)
    ensures Sub(t, iv) % 86400 == t % 86400
  {
    var day := DayNumber(AddMonths(DateOf(t), -TotalMonths(iv))) - iv.days;
    SubUnfold(t, iv);
    SplitTimestamp(day, t % 86400);
  }

  /** Subtracting a duration never gives a later instant. */
  lemma SubNotLater(t: int, iv: Interval)
    ensures Sub(t, iv) <= t
  {
    var d := DateOf(t);
    var back := DayNumber(AddMonths(d, -TotalMonths(iv)));
    EarlierMonthsEarlierDays(d, 0, TotalMonths(iv));
    AddNoMonths(d);
    SubUnfold(t, iv);
    TimestampSplit(t);
    DaysScale(back - iv.days, DayNumber(d));
  }

  /** A duration of whole days only is plain arithmetic on the timestamp. */
  lemma SubDays(t: int, iv: Interval)
    requires TotalMonths(iv) == 0
    ensures Sub(t, iv) == t - iv.days * 86400
  {
    var d := DateOf(t);
    AddNoMonths(d);
    assert AddMonths(d, -TotalMonths(iv)) == d;
    SubUnfold(t, iv);
    TimestampSplit(t);
  }

  /** Only the total of months and the days of a duration matter: a year is twelve months. */
  lemma SubSameTotals(t: int, a: Interval, b: Interval)
    requires TotalMonths(a) == TotalMonths(b) && a.days == b.days
    ensures Sub(t, a) == Sub(t, b)
  {
    SubUnfold(t, a);
    SubUnfold(t, b);
  }

  /** A longer duration, in months and in days, never gives a later instant. */
  lemma SubMonotone(t: int, shorter: Interval, longer: Interval)
    requires TotalMonths(shorter) <= TotalMonths(longer) && shorter.days <= longer.days
    ensures Sub(t, longer) <= Sub(t, shorter)
  {
    var d := DateOf(t);
    var a := DayNumber(AddMonths(d, -TotalMonths(shorter)));
    var b := DayNumber(AddMonths(d, -TotalMonths(longer)));
    EarlierMonthsEarlierDays(d, TotalMonths(shorter), TotalMonths(longer));
    SubUnfold(t, shorter);
    SubUnfold(t, longer);
    DaysScale(b - longer.days, a - shorter.days);
  }

  /** Without days, `Sub` is the day the months lead back to, at the same time of day. */
  lemma SubMonthsOnly(t: int, iv: Interval, target: Date)
    requires iv.days == 0 && target == AddMonths(DateOf(t), -TotalMonths(iv))
    ensures Sub(t, iv) == DayNumber(target) * 86400 + t % 86400
  {
    SubUnfold(t, iv);
  }

  /**
    Without days, subtracting lands on the date `k` months back, not a fixed
    number of days back, whenever that month has the day of month.
   */
  lemma SubLandsOnDate(t: int, iv: Interval, k: int)
    requires iv.days == 0 && TotalMonths(iv) == k
    ensures var target := AddMonths(DateOf(t), -k);
            target.day <= DaysInMonth(target.year, target.month) ==> DateOf(Sub(t, iv)) == target
  {
    var target := AddMonths(DateOf(t), -k);
    if target.day <= DaysInMonth(target.year, target.month) {
      SubMonthsOnly(t, iv, target);
      InstantOnDate(Sub(t, iv), target, t % 86400);
    }
  }

}
