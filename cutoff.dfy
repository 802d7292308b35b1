/**
  `RetentionJob::getBeforeDate`: a retention policy (unit, amount) and the
  clock's current timestamp give the one instant before which tagged files
  expire. The policy becomes a duration spec string, PHP's `DateInterval`
  reads it, and `DateTime::sub` takes it off the current time.
 */
module Cutoff {
  import opened Wrappers
  import opened Decimal
  import opened Calendar
  import opened DateInterval

  /** Codes of the `time_unit` column of the `retention` table. */
  const DAY: int := 0
  const WEEK: int := 1
  const MONTH: int := 2
  const YEAR: int := 3

  predicate IsKnownUnit(unit: int) {
    unit == DAY || unit == WEEK || unit == MONTH || unit == YEAR
  }

  /**
    The spec string: "P", then for a known unit the amount (seven times the
    amount for weeks) and a lower-case designator; nothing is appended for
    any other unit.
   */
  function BeforeDateSpec(unit: int, amount: int): string {
    var spec := "P";
    if unit == DAY then spec + IntToString(amount) + "d"
    else if unit == WEEK then spec + IntToString(amount * 7) + "d"
    else if unit == MONTH then spec + IntToString(amount) + "m"
    else if unit == YEAR then spec + IntToString(amount) + "y"
    else spec
  }

  /** The duration a policy stands for, stated directly. */
  function PolicyInterval(unit: int, amount: nat): Interval
    requires IsKnownUnit(unit)
  {
    if unit == DAY then Interval(0, 0, amount)
    else if unit == WEEK then Interval(0, 0, 7 * amount)
    else if unit == MONTH then Interval(0, amount, 0)
    else Interval(amount, 0, 0)
  }

  /**
    The cutoff instant, or None where constructing the `DateInterval` throws
    (an unknown unit leaves the spec "P"; a negative amount puts a sign in it).
   */
  function GetBeforeDate(unit: int, amount: int, now: int): Option<int> {
    match ParseSpec(BeforeDateSpec(unit, amount))
    case None => None
    case Some(iv) => Some(Sub(now, iv))
  }

  lemma ParseOneDesignator(digits: string, designator: char)
    requires |digits| >= 1 && AllDigits(digits)
    ensures var spec := "P" + digits + [designator];
            spec[1..|spec| - 1] == digits && spec[|spec| - 1] == designator &&
            (ParseSpec(spec).Some? <==> designator in "yYmMwWdD")
  {
    var spec := "P" + digits + [designator];
    assert spec[1..|spec| - 1] == digits;
  }

  /**
    The spec built for a policy reads back as exactly the policy's duration
    when the unit is known and the amount is not negative, and is rejected
    otherwise.
   */
  lemma SpecRoundTrip(unit: int, amount: int)
    ensures ParseSpec(BeforeDateSpec(unit, amount)) ==
            if IsKnownUnit(unit) && amount >= 0 then Some(PolicyInterval(unit, amount)) else None
  {
    var spec := BeforeDateSpec(unit, amount);
    if IsKnownUnit(unit) {
      var n := if unit == WEEK then amount * 7 else amount;
      var designator := if unit == DAY || unit == WEEK then 'd' else if unit == MONTH then 'm' else 'y';
      assert spec == "P" + IntToString(n) + [designator];
      if amount >= 0 {
        NatToStringReadsBack(n);
        ParseOneDesignator(IntToString(n), designator);
      } else {
        NegativeHasSign(n);
        assert spec[1] == '-';
        assert !AllDigits(spec[1..|spec| - 1]) by {
          assert spec[1..|spec| - 1][0] == '-';
        }
      }
    } else {
      assert spec == "P";
    }
  }

  /** An unknown unit appends nothing to "P", and no cutoff comes of it. */
  lemma UnknownUnitHasNoCutoff(unit: int, amount: int, now: int)
    requires !IsKnownUnit(unit)
    ensures BeforeDateSpec(unit, amount) == "P"
    ensures GetBeforeDate(unit, amount, now) == None
  {
  }

  /** A negative amount gives no cutoff. */
  lemma NegativeAmountHasNoCutoff(unit: int, amount: int, now: int)
    requires amount < 0
    ensures GetBeforeDate(unit, amount, now) == None
  {
    SpecRoundTrip(unit, amount);
  }

  /**
    Were PHP's reader to accept only upper-case designators, no spec the job
    builds would be readable, so no policy would have a cutoff.
   */
  lemma UpperCaseReaderRejectsEverySpec(unit: int, amount: int)
    ensures ParseSpecUpperCaseOnly(BeforeDateSpec(unit, amount)) == None
  {
    var spec := BeforeDateSpec(unit, amount);
    SpecRoundTrip(unit, amount);
    if IsKnownUnit(unit) && amount >= 0 {
      var n := if unit == WEEK then amount * 7 else amount;
      var designator := if unit == DAY || unit == WEEK then 'd' else if unit == MONTH then 'm' else 'y';
      assert spec == "P" + IntToString(n) + [designator];
      assert spec[|spec| - 1] == designator;
    }
  }

  /** For a known unit and an amount of zero or more, the cutoff is the policy's duration taken off now. */
  lemma CutoffIsSub(unit: int, amount: nat, now: int)
    requires IsKnownUnit(unit)
    ensures GetBeforeDate(unit, amount, now).Some?
    ensures GetBeforeDate(unit, amount, now).value == Sub(now, PolicyInterval(unit, amount))
  {
    SpecRoundTrip(unit, amount);
  }

  /** DAY: `amount` days of 86400 seconds before now. */
  lemma CutoffDay(amount: nat, now: int)
    ensures GetBeforeDate(DAY, amount, now).Some?
    ensures GetBeforeDate(DAY, amount, now).value == now - amount * 86400
  {
    CutoffIsSub(DAY, amount, now);
    SubDays(now, PolicyInterval(DAY, amount));
  }

  /** WEEK: the DAY cutoff for seven times the amount. */
  lemma CutoffWeek(amount: nat, now: int)
    ensures GetBeforeDate(WEEK, amount, now) == GetBeforeDate(DAY, 7 * amount, now)
    ensures GetBeforeDate(WEEK, amount, now).Some?
    ensures GetBeforeDate(WEEK, amount, now).value == now - 7 * amount * 86400
  {
    CutoffIsSub(WEEK, amount, now);
    CutoffIsSub(DAY, 7 * amount, now);
    SubDays(now, PolicyInterval(WEEK, amount));
    SubDays(now, PolicyInterval(DAY, 7 * amount));
  }

  /**
    MONTH: the same time of day, `amount` calendar months back (on that very
    date when the month has it), and never after now.
   */
  lemma CutoffMonth(amount: nat, now: int)
    ensures GetBeforeDate(MONTH, amount, now).Some?
    ensures var c := GetBeforeDate(MONTH, amount, now).value;
            var target := AddMonths(DateOf(now), -(amount as int));
            c <= now && c % 86400 == now % 86400 &&
            (target.day <= DaysInMonth(target.year, target.month) ==> DateOf(c) == target)
  {
    CutoffIsSub(MONTH, amount, now);
    var iv := PolicyInterval(MONTH, amount);
    assert TotalMonths(iv) == amount && iv.days == 0;
    SubNotLater(now, iv);
    SubKeepsTime(now, iv);
    SubLandsOnDate(now, iv, amount);
  }

  /** YEAR: the MONTH cutoff for twelve times the amount. */
  lemma CutoffYear(amount: nat, now: int)
    ensures GetBeforeDate(YEAR, amount, now) == GetBeforeDate(MONTH, 12 * amount, now)
  {
    CutoffIsSub(YEAR, amount, now);
    CutoffIsSub(MONTH, 12 * amount, now);
    SubSameTotals(now, PolicyInterval(YEAR, amount), PolicyInterval(MONTH, 12 * amount));
  }

  /** A policy with a known unit and an amount of zero or more has a cutoff, never after now. */
  lemma CutoffNotAfterNow(unit: int, amount: nat, now: int)
    requires IsKnownUnit(unit)
    ensures GetBeforeDate(unit, amount, now).Some?
    ensures GetBeforeDate(unit, amount, now).value <= now
    ensures amount == 0 ==> GetBeforeDate(unit, amount, now).value == now
  {
    CutoffIsSub(unit, amount, now);
    var iv := PolicyInterval(unit, amount);
    SubNotLater(now, iv);
    if amount == 0 {
      SubDays(now, iv);
    }
  }

  /** A longer retention never moves the cutoff later. */
  lemma CutoffMonotone(unit: int, shorter: nat, longer: nat, now: int)
    requires IsKnownUnit(unit) && shorter <= longer
    ensures GetBeforeDate(unit, longer, now).Some? && GetBeforeDate(unit, shorter, now).Some?
    ensures GetBeforeDate(unit, longer, now).value <= GetBeforeDate(unit, shorter, now).value
  {
    CutoffIsSub(unit, shorter, now);
    CutoffIsSub(unit, longer, now);
    SubMonotone(now, PolicyInterval(unit, shorter), PolicyInterval(unit, longer));
  }

  /** A policy of 30 days evaluated at 2024-03-01T00:00:00Z (1709251200) cuts off at 2024-01-31T00:00:00Z. */
  lemma ThirtyDaysFromMarchFirst()
    ensures GetBeforeDate(DAY, 30, 1709251200).Some?
    ensures GetBeforeDate(DAY, 30, 1709251200).value == 1706659200
  {
    CutoffDay(30, 1709251200);
  }

}
