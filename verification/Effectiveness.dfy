/**
 Calendar dates in their wire format, and the two places that decide whether a
 version of a law is in effect: the retrieval query and the citation check.
 */
module Effectiveness {
  import opened Wrappers
  import opened Text
  import opened Sources

  // ----- calendar dates -----

  function Digit(c: char): int {
    c as int - '0' as int
  }

  predicate IsLeapYear(year: int) {
    year % 400 == 0 || (year % 4 == 0 && year % 100 != 0)
  }

  function DaysInMonth(year: int, month: int): nat {
    match month
    case 1 => 31
    case 3 => 31
    case 5 => 31
    case 7 => 31
    case 8 => 31
    case 10 => 31
    case 12 => 31
    case 4 => 30
    case 6 => 30
    case 9 => 30
    case 11 => 30
    case 2 => if IsLeapYear(year) then 29 else 28
    case _ => 0
  }

  predicate HasDateShape(value: string) {
    && |value| == 10
    && value[4] == '-' && value[7] == '-'
    && forall i :: 0 <= i < 10 && i != 4 && i != 7 ==> IsAsciiDigit(value[i])
  }

  function Year(value: string): int
    requires |value| == 10
  {
    1000 * Digit(value[0]) + 100 * Digit(value[1]) + 10 * Digit(value[2]) + Digit(value[3])
  }

  function Month(value: string): int
    requires |value| == 10
  {
    10 * Digit(value[5]) + Digit(value[6])
  }

  function Day(value: string): int
    requires |value| == 10
  {
    10 * Digit(value[8]) + Digit(value[9])
  }

  predicate IsIsoCalendarDate(value: string) {
    && HasDateShape(value)
    && Year(value) > 0
    && 1 <= Day(value) <= DaysInMonth(Year(value), Month(value))
  }

  // ----- the calendar, independently of its spelling -----

  function YearLength(year: int): nat {
    if IsLeapYear(year) then 366 else 365
  }

  /** Days from 1 January of year 1 to 1 January of `year`. */
  function DaysBeforeYear(year: int): nat {
    if year <= 1 then 0 else DaysBeforeYear(year - 1) + YearLength(year - 1)
  }

  function DaysBeforeMonth(year: int, month: int): nat {
    if month <= 1 then 0 else DaysBeforeMonth(year, month - 1) + DaysInMonth(year, month - 1)
  }

  /** The ordinal of a date in the proleptic Gregorian calendar. */
  function DayNumber(value: string): int
    requires |value| == 10
  {
    DaysBeforeYear(Year(value)) + DaysBeforeMonth(Year(value), Month(value)) + Day(value)
  }

  lemma {:induction false} LaterYearStartsLater(y: int, z: int)
    requires 1 <= y < z
    ensures DaysBeforeYear(y) + YearLength(y) <= DaysBeforeYear(z)
    decreases z - y
  {
    if y + 1 < z { LaterYearStartsLater(y, z - 1); }
  }

  lemma {:induction false} LaterMonthStartsLater(y: int, m: int, n: int)
    requires 1 <= m < n
    ensures DaysBeforeMonth(y, m) + DaysInMonth(y, m) <= DaysBeforeMonth(y, n)
    decreases n - m
  {
    if m + 1 < n { LaterMonthStartsLater(y, m, n - 1); }
  }

  lemma MonthsFillTheYear(y: int)
    ensures DaysBeforeMonth(y, 13) == YearLength(y)
  {
    assert DaysBeforeMonth(y, 3) == 31 + DaysInMonth(y, 2) by { assert DaysBeforeMonth(y, 2) == 31; }
    assert DaysBeforeMonth(y, 5) == DaysBeforeMonth(y, 3) + 61 by {
      assert DaysBeforeMonth(y, 4) == DaysBeforeMonth(y, 3) + 31;
    }
    assert DaysBeforeMonth(y, 7) == DaysBeforeMonth(y, 5) + 61 by {
      assert DaysBeforeMonth(y, 6) == DaysBeforeMonth(y, 5) + 31;
    }
    assert DaysBeforeMonth(y, 9) == DaysBeforeMonth(y, 7) + 62 by {
      assert DaysBeforeMonth(y, 8) == DaysBeforeMonth(y, 7) + 31;
    }
    assert DaysBeforeMonth(y, 11) == DaysBeforeMonth(y, 9) + 61 by {
      assert DaysBeforeMonth(y, 10) == DaysBeforeMonth(y, 9) + 30;
    }
    assert DaysBeforeMonth(y, 12) == DaysBeforeMonth(y, 11) + 30;
  }

  lemma DayWithinYear(y: int, m: int, d: int)
    requires 1 <= d <= DaysInMonth(y, m)
    ensures 1 <= m <= 12 && DaysBeforeMonth(y, m) + d <= YearLength(y)
  {
    assert 1 <= m <= 12;
    LaterMonthStartsLater(y, m, 13);
    MonthsFillTheYear(y);
  }

  // ----- the calendar in closed form -----

  /** Days of a common year in front of each month, and in all. */
  const DAYS_BEFORE: seq<nat> := [0, 31, 59, 90, 120, 151, 181, 212, 243, 273, 304, 334, 365]

  /** The leap years up to a year: every fourth, but of the centuries only every fourth. */
  function LeapYearsUpTo(year: nat): int {
    year / 4 - year / 100 + year / 400
  }

  lemma QuotientSteps(n: nat)
    requires n >= 1
    ensures n / 4 - (n - 1) / 4 == if n % 4 == 0 then 1 else 0
    ensures n / 100 - (n - 1) / 100 == if n % 100 == 0 then 1 else 0
    ensures n / 400 - (n - 1) / 400 == if n % 400 == 0 then 1 else 0
  {
  }

  lemma MultiplesNest(n: nat)
    ensures (n % 400 == 0 ==> n % 100 == 0) && (n % 100 == 0 ==> n % 4 == 0)
  {
    if n % 100 == 0 { IsFourfold(n, n / 100); }
    if n % 400 == 0 { IsHundredfold(n, n / 400); }
  }

  lemma IsFourfold(n: nat, q: nat)
    requires n == 100 * q
    ensures n % 4 == 0
  {
    assert n == 4 * (25 * q);
  }

  lemma IsHundredfold(n: nat, q: nat)
    requires n == 400 * q
    ensures n % 100 == 0
  {
    assert n == 100 * (4 * q);
  }

  /** A leap year is one more leap year. */
  lemma LeapYearCounts(year: nat)
    requires year >= 1
    ensures LeapYearsUpTo(year) - LeapYearsUpTo(year - 1) == if IsLeapYear(year) then 1 else 0
  {
    QuotientSteps(year);
    MultiplesNest(year);
  }

  lemma {:induction false} YearsInClosedForm(year: nat)
    requires year >= 1
    ensures DaysBeforeYear(year) == 365 * (year - 1) + LeapYearsUpTo(year - 1)
    decreases year
  {
    hide LeapYearsUpTo, IsLeapYear;
    if year > 1 {
      LeapYearCounts(year - 1);
      YearsInClosedForm(year - 1);
    } else {
      assert LeapYearsUpTo(0) == 0 by { NoLeapYears(); }
    }
  }

  lemma NoLeapYears()
    ensures LeapYearsUpTo(0) == 0
  {
  }

  lemma MonthsInClosedForm(year: nat, month: nat)
    requires year >= 1 && 1 <= month <= 13
    ensures DaysBeforeMonth(year, month) ==
      DAYS_BEFORE[month - 1] + if month > 2 then LeapYearsUpTo(year) - LeapYearsUpTo(year - 1) else 0
    decreases month
  {
    if month > 1 {
      MonthsInClosedForm(year, month - 1);
      MonthLength(year, month - 1);
    }
  }

  /** Month lengths are the differences of the table, with the leap day in February. */
  lemma MonthLength(year: nat, month: nat)
    requires year >= 1
    ensures 1 <= month <= 12 ==>
      DaysInMonth(year, month) == DAYS_BEFORE[month] - DAYS_BEFORE[month - 1]
        + if month == 2 then LeapYearsUpTo(year) - LeapYearsUpTo(year - 1) else 0
    ensures !(1 <= month <= 12) ==> DaysInMonth(year, month) == 0
  {
    LeapYearCounts(year);
    hide LeapYearsUpTo, IsLeapYear;
  }

  lemma LeapYearsRepeat(n: nat)
    ensures LeapYearsUpTo(n + 400) == LeapYearsUpTo(n) + 97
  {
    assert (n + 400) / 4 == n / 4 + 100;
    assert (n + 400) / 100 == n / 100 + 4;
    assert (n + 400) / 400 == n / 400 + 1;
  }

  /** The calendar repeats after 400 years, 97 of them leap years. */
  lemma CalendarRepeats(year: nat)
    requires year >= 1
    ensures DaysBeforeYear(year + 400) == DaysBeforeYear(year) + 400 * 365 + 97
  {
    YearsInClosedForm(year);
    YearsInClosedForm(year + 400);
    LeapYearsRepeat(year - 1);
    hide LeapYearsUpTo, DaysBeforeYear;
  }

  /** The days a date is compared by are those of the Gregorian calendar in closed form. */
  lemma DayNumberIsGregorian(value: string)
    requires IsIsoCalendarDate(value)
    ensures var (y, m, d) := (Year(value), Month(value), Day(value));
      && y >= 1 && 1 <= m <= 12
      && var leap := LeapYearsUpTo(y) - LeapYearsUpTo(y - 1);
      && 1 <= d <= DAYS_BEFORE[m] - DAYS_BEFORE[m - 1] + (if m == 2 then leap else 0)
      && DayNumber(value) ==
        365 * (y - 1) + LeapYearsUpTo(y - 1) + DAYS_BEFORE[m - 1] + (if m > 2 then leap else 0) + d
  {
    DayWithinYear(Year(value), Month(value), Day(value));
    YearsInClosedForm(Year(value));
    MonthsInClosedForm(Year(value), Month(value));
    MonthLength(Year(value), Month(value));
    hide DaysBeforeYear, DaysBeforeMonth, DaysInMonth, LeapYearsUpTo, Year, Month, Day;
  }

  /** Of the strings in date shape, exactly the days of that calendar from year 1 on are accepted. */
  lemma AcceptedDates(value: string)
    requires HasDateShape(value)
    ensures IsIsoCalendarDate(value) <==>
      && Year(value) >= 1 && 1 <= Month(value) <= 12
      && 1 <= Day(value) <= DAYS_BEFORE[Month(value)] - DAYS_BEFORE[Month(value) - 1]
           + if Month(value) == 2 then LeapYearsUpTo(Year(value)) - LeapYearsUpTo(Year(value) - 1) else 0
  {
    hide DaysInMonth, LeapYearsUpTo;
    assert Year(value) >= 0 && Month(value) >= 0;
    if Year(value) >= 1 { MonthLength(Year(value), Month(value)); }
  }

  /** The digits of a date read as one number. */
  function DateKey(value: string): int
    requires |value| == 10
  {
    10_000 * Year(value) + 100 * Month(value) + Day(value)
  }

  /** A smaller date key is an earlier day. */
  lemma KeyOrderIsDayOrder(a: string, b: string)
    requires IsIsoCalendarDate(a) && IsIsoCalendarDate(b) && DateKey(a) < DateKey(b)
    ensures DayNumber(a) < DayNumber(b)
  {
    DayWithinYear(Year(a), Month(a), Day(a));
    DayWithinYear(Year(b), Month(b), Day(b));
    DaysFitTwoDigits(Year(a), Month(a));
    DaysFitTwoDigits(Year(b), Month(b));
    hide DaysInMonth, IsLeapYear, Year, Month, Day, HasDateShape;
    if Year(a) < Year(b) {
      LaterYearStartsLater(Year(a), Year(b));
    } else if Month(a) < Month(b) {
      LaterMonthStartsLater(Year(a), Month(a), Month(b));
    }
  }

  lemma DaysFitTwoDigits(y: int, m: int)
    ensures DaysInMonth(y, m) <= 31
  {
  }

  /** Strings with a common prefix compare by their first difference. */
  lemma {:induction false} FirstDifference(a: string, b: string, k: nat)
    requires k < |a| && k < |b| && a[..k] == b[..k] && a[k] < b[k]
    ensures LexLe(a, b) && !LexLe(b, a)
    decreases k
  {
    if k > 0 {
      assert a[0] == a[..k][0] && b[0] == b[..k][0];
      assert a[1..][..k - 1] == a[..k][1..] && b[1..][..k - 1] == b[..k][1..];
      FirstDifference(a[1..], b[1..], k - 1);
    }
  }

  /** At the first different digit, the smaller digit gives the smaller key. */
  lemma FirstDigitDecides(a: string, b: string, k: nat)
    requires HasDateShape(a) && HasDateShape(b) && k < 10 && a[k] < b[k]
    requires forall i :: 0 <= i < k ==> a[i] == b[i]
    ensures DateKey(a) < DateKey(b)
  {
    assert k != 4 && k != 7;
    if k < 4 {
      if k == 0 {} else if k == 1 {} else if k == 2 {} else {}
    } else if k < 7 {
      if k == 5 {} else {}
    } else {
      if k == 8 {} else {}
    }
  }

  lemma DifferentTexts(a: string, b: string) returns (k: nat)
    requires |a| == |b| && a != b
    ensures k < |a| && a[k] != b[k] && forall i :: 0 <= i < k ==> a[i] == b[i]
  {
    k :| k < |a| && a[k] != b[k];
    while exists i :: 0 <= i < k && a[i] != b[i]
      invariant k < |a| && a[k] != b[k]
      decreases k
    {
      var i :| 0 <= i < k && a[i] != b[i];
      k := i;
    }
  }

  /** On accepted dates the order of strings is the order of days. */
  lemma StringOrderIsCalendarOrder(a: string, b: string)
    requires IsIsoCalendarDate(a) && IsIsoCalendarDate(b)
    ensures LexLe(a, b) <==> DayNumber(a) <= DayNumber(b)
  {
    if a == b {
      LexReflexive(a);
    } else {
      var k := DifferentTexts(a, b);
      hide DayNumber, LexLe, DateKey, DaysInMonth;
      assert a[..k] == b[..k];
      if a[k] < b[k] {
        FirstDifference(a, b, k);
        FirstDigitDecides(a, b, k);
        KeyOrderIsDayOrder(a, b);
      } else {
        FirstDifference(b, a, k);
        FirstDigitDecides(b, a, k);
        KeyOrderIsDayOrder(b, a);
      }
    }
  }

  // ----- which versions are in effect -----

  const REPEALED := "repealed"
  const IN_FORCE := "in_force"

  predicate IsEffectiveOn(source: LegalSource, caseDate: Option<string>, includeExpired: bool) {
    match caseDate
    case None => includeExpired || source.versionStatus == IN_FORCE
    case Some(date) =>
      && !(source.versionStatus == REPEALED && source.effectiveTo.None?)
      && LexLe(source.effectiveFrom, date)
      && (source.effectiveTo.Some? ==> LexLe(date, source.effectiveTo.value))
  }

  /** The date conditions of the retrieval query, as its two conjuncts. */
  predicate QueryAdmits(row: LegalSource, caseDate: Option<string>, includeExpired: bool) {
    && (|| caseDate.None?
        || InDateRange(row, caseDate.value))
    && (|| includeExpired
        || (caseDate.None? && row.versionStatus == IN_FORCE)
        || (&& caseDate.Some? && InDateRange(row, caseDate.value)
            && (row.versionStatus == IN_FORCE || row.effectiveTo.Some?)))
  }

  predicate InDateRange(row: LegalSource, date: string) {
    && LexLe(row.effectiveFrom, date)
    && !(row.versionStatus == REPEALED && row.effectiveTo.None?)
    && (row.effectiveTo.None? || LexLe(date, row.effectiveTo.value))
  }

  /**
   The query admits what the citation check accepts, except that without
   `include_expired` it drops open-ended versions that are not in force.
   */
  lemma QueryAdmitsExactly(row: LegalSource, caseDate: Option<string>, includeExpired: bool)
    ensures QueryAdmits(row, caseDate, includeExpired) <==>
      && IsEffectiveOn(row, caseDate, includeExpired)
      && (includeExpired || caseDate.None? || row.versionStatus == IN_FORCE || row.effectiveTo.Some?)
    ensures caseDate.None? ==>
      (QueryAdmits(row, caseDate, includeExpired) <==> includeExpired || row.versionStatus == "in_force")
  {
    hide LexLe;
  }

  /** A version not yet in force but already dated: the citation check accepts it, the query does not offer it. */
  lemma NotYetEffectiveDiffers(row: LegalSource, date: string)
    requires row.versionStatus == "not_yet_effective" && row.effectiveTo.None? && LexLe(row.effectiveFrom, date)
    ensures IsEffectiveOn(row, Some(date), false) && !QueryAdmits(row, Some(date), false)
  {
    assert "not_yet_effective"[0] != REPEALED[0] && "not_yet_effective"[0] != IN_FORCE[0];
  }

  /** The period in which a version with well-formed dates applies, in calendar days. */
  lemma EffectiveMeansWithinDays(source: LegalSource, date: string, includeExpired: bool)
    requires IsIsoCalendarDate(date) && IsIsoCalendarDate(source.effectiveFrom)
    requires source.effectiveTo.Some? ==> IsIsoCalendarDate(source.effectiveTo.value)
    ensures IsEffectiveOn(source, Some(date), includeExpired) <==>
      && DayNumber(source.effectiveFrom) <= DayNumber(date)
      && (match source.effectiveTo
          case Some(to) => DayNumber(date) <= DayNumber(to)
          case None => source.versionStatus != REPEALED)
  {
    StringOrderIsCalendarOrder(source.effectiveFrom, date);
    if source.effectiveTo.Some? { StringOrderIsCalendarOrder(date, source.effectiveTo.value); }
    hide DayNumber, LexLe, IsIsoCalendarDate;
  }
}
