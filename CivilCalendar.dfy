/**
 * Proleptic Gregorian calendar arithmetic on day numbers.
 *
 * A day number counts days from 1970-01-01 (day 0, a Thursday); negative
 * numbers are earlier days. Conversion goes through "March-based" years, in
 * which February is the last month, so that the leap day is always the last
 * day of such a year; 400 Gregorian years make an era of 146097 days.
 * The constant 719468 is the number of days from 0000-03-01 to 1970-01-01;
 * the numbers are written out because the verifier reasons about division
 * by a literal far more cheaply than by a named constant.
 */
module CivilCalendar {

  /** A calendar date; month is 1..12 (January is 1). */
  datatype Civil = Civil(year: int, month: int, day: int)

  predicate IsLeapYear(y: int) {
    y % 4 == 0 && (y % 100 != 0 || y % 400 == 0)
  }

  function DaysInMonth(y: int, m: int): (n: int)
    requires 1 <= m <= 12
    ensures 28 <= n <= 31
    ensures n == 29 <==> m == 2 && IsLeapYear(y)
    ensures n == 28 <==> m == 2 && !IsLeapYear(y)
  {
    if m == 2 then (if IsLeapYear(y) then 29 else 28)
    else if m == 4 || m == 6 || m == 9 || m == 11 then 30
    else 31
  }

  predicate ValidCivil(c: Civil) {
    1 <= c.month <= 12 && 1 <= c.day <= DaysInMonth(c.year, c.month)
  }

  /** Days in the first k March-based years of an era. */
  function EraYearsDays(k: int): int {
    365 * k + k / 4 - k / 100 + k / 400
  }

  /** Days from 1 March to the first day of the mp-th month counted from March (mp = 0 is March). */
  function MarchMonthDays(mp: int): int {
    (153 * mp + 2) / 5
  }


  /** Month counted from March (0 = March, 11 = February). */
  function MarchMonth(m: int): (mp: int)
    requires 1 <= m <= 12
    ensures 0 <= mp <= 11
  {
    (m + 9) % 12
  }

  /** The calendar month of the mp-th month counted from March. */
  function MonthFromMarch(mp: int): (m: int)
    requires 0 <= mp <= 11
    ensures 1 <= m <= 12 && MarchMonth(m) == mp
  {
    if mp < 10 then mp + 3 else mp - 9
  }

  /**
   * The day number of a date. The day of the month enters linearly, so a day
   * past the end of the month (or before its start) counts on into the
   * neighbouring months, as JavaScript's MakeDay does.
   */
  function DaysFromCivil(c: Civil): int
    requires 1 <= c.month <= 12
  {
    var y := if c.month <= 2 then c.year - 1 else c.year;
    (y / 400) * 146097 + EraYearsDays(y % 400) + MarchMonthDays(MarchMonth(c.month)) + c.day - 1 - 719468
  }

  /** The March-based year within an era that holds day doe of the era, searched from year k. */
  function YearOfEra(doe: int, k: int): (y: int)
    requires 0 <= k <= 399 && EraYearsDays(k) <= doe < 146097
    ensures k <= y <= 399 && EraYearsDays(y) <= doe < EraYearsDays(y + 1)
    decreases 399 - k
  {
    if k == 399 || doe < EraYearsDays(k + 1) then k else YearOfEra(doe, k + 1)
  }

  /** The month (counted from March) that holds day doy of a March-based year, searched from month mp. */
  function MonthOfYear(doy: int, mp: int): (r: int)
    requires 0 <= mp <= 11 && MarchMonthDays(mp) <= doy
    ensures mp <= r <= 11 && MarchMonthDays(r) <= doy
    ensures r < 11 ==> doy < MarchMonthDays(r + 1)
    decreases 11 - mp
  {
    if mp == 11 || doy < MarchMonthDays(mp + 1) then mp else MonthOfYear(doy, mp + 1)
  }

  /** The March-based year of an era that holds day doe of the era. */
  function YearOfDay(doe: int): (y: int)
    requires 0 <= doe < 146097
    ensures 0 <= y <= 399 && EraYearsDays(y) <= doe < EraYearsDays(y + 1)
  {
    YearOfEra(doe, 0)
  }

  /** The month (counted from March) that holds day doe of an era, whose March-based year yoe is known. */
  function MonthOfDay(doe: int, yoe: int): (mp: int)
    requires 0 <= yoe <= 399 && EraYearsDays(yoe) <= doe
    ensures 0 <= mp <= 11 && MarchMonthDays(mp) <= doe - EraYearsDays(yoe)
    ensures mp < 11 ==> doe - EraYearsDays(yoe) < MarchMonthDays(mp + 1)
  {
    MonthOfYear(doe - EraYearsDays(yoe), 0)
  }

  /** The date of a day number. */
  function CivilFromDays(n: int): (c: Civil)
    ensures ValidCivil(c)
    ensures DaysFromCivil(c) == n
  {
    var z := n + 719468;
    CivilOfEraDayFacts(z / 146097, z % 146097);
    CivilOfEraDay(z / 146097, z % 146097)
  }

  /** The date of day doe (0-based, counted from 1 March of the era's first year) of 400-year era number era. */
  function CivilOfEraDay(era: int, doe: int): Civil
    requires 0 <= doe < 146097
  {
    var yoe := YearOfDay(doe);
    EraDate(era, doe, yoe, MonthOfDay(doe, yoe))
  }

  /** The date of a day of an era is valid and has that day's number. */
  lemma CivilOfEraDayFacts(era: int, doe: int)
    requires 0 <= doe < 146097
    ensures ValidCivil(CivilOfEraDay(era, doe))
    ensures DaysFromCivil(CivilOfEraDay(era, doe)) == era * 146097 + doe - 719468
  {
    var yoe := YearOfDay(doe);
    EraDateFacts(era, doe, yoe, MonthOfDay(doe, yoe));
  }

  /**
   * The date of day doe of an era, once its March-based year yoe and its month
   * mp counted from March are known.
   */
  function EraDate(era: int, doe: int, yoe: int, mp: int): Civil
    requires 0 <= mp <= 11
  {
    var m := MonthFromMarch(mp);
    Civil(era * 400 + yoe + (if m <= 2 then 1 else 0), m, doe - EraYearsDays(yoe) - MarchMonthDays(mp) + 1)
  }

  /** A day found inside its year and month gives a valid date whose day number is the day counted. */
  lemma EraDateFacts(era: int, doe: int, yoe: int, mp: int)
    requires 0 <= yoe <= 399 && 0 <= mp <= 11
    requires EraYearsDays(yoe) <= doe < EraYearsDays(yoe + 1)
    requires MarchMonthDays(mp) <= doe - EraYearsDays(yoe)
    requires mp < 11 ==> doe - EraYearsDays(yoe) < MarchMonthDays(mp + 1)
    ensures ValidCivil(EraDate(era, doe, yoe, mp))
    ensures DaysFromCivil(EraDate(era, doe, yoe, mp)) == era * 146097 + doe - 719468
  {
    var c := EraDate(era, doe, yoe, mp);
    MonthLengthFromMarch(era, yoe, mp);
    DaysFromEraParts(era, yoe, mp, c.day);
  }

  // ---------------------------------------------------------------------------
  // Facts about the building blocks
  // ---------------------------------------------------------------------------

  /** A March-based year k (0-based) has 366 days exactly when calendar year k + 1 is a leap year. */
  lemma YearLength(k: int)
    ensures EraYearsDays(k + 1) - EraYearsDays(k) == if IsLeapYear(k + 1) then 366 else 365
  {
    DivStep4(k);
    DivStep100(k);
    DivStep400(k);
    DivisibilityChain(k + 1);
  }

  /** A multiple of 400 is a multiple of 100, and a multiple of 100 is a multiple of 4. */
  lemma DivisibilityChain(a: int)
    ensures a % 400 == 0 ==> a % 100 == 0
    ensures a % 100 == 0 ==> a % 4 == 0
  {
    if a % 400 == 0 {
      assert a / 100 == 4 * (a / 400);
    }
    if a % 100 == 0 {
      assert a / 4 == 25 * (a / 100);
    }
  }

  lemma DivStep4(k: int)
    ensures (k + 1) / 4 - k / 4 == if (k + 1) % 4 == 0 then 1 else 0
  {
  }

  lemma DivStep100(k: int)
    ensures (k + 1) / 100 - k / 100 == if (k + 1) % 100 == 0 then 1 else 0
  {
  }

  lemma DivStep400(k: int)
    ensures (k + 1) / 400 - k / 400 == if (k + 1) % 400 == 0 then 1 else 0
  {
  }

  /** Leap years repeat every 400 years. */
  lemma LeapYearPeriodic(era: int, y: int)
    ensures IsLeapYear(era * 400 + y) <==> IsLeapYear(y)
  {
    ModPeriodic4(era, y);
    ModPeriodic100(era, y);
    ModPeriodic400(era, y);
  }

  lemma ModPeriodic4(era: int, y: int)
    ensures (era * 400 + y) % 4 == y % 4
  {
    assert era * 400 + y == 4 * (era * 100 + y / 4) + y % 4;
  }

  lemma ModPeriodic100(era: int, y: int)
    ensures (era * 400 + y) % 100 == y % 100
  {
    assert era * 400 + y == 100 * (era * 4 + y / 100) + y % 100;
  }

  lemma ModPeriodic400(era: int, y: int)
    ensures (era * 400 + y) % 400 == y % 400
  {
    assert era * 400 + y == 400 * (era + y / 400) + y % 400;
  }

  /** The day number of a date given by era, March-based year of the era, month from March and day. */
  lemma DaysFromEraParts(era: int, yoe: int, mp: int, d: int)
    requires 0 <= yoe < 400 && 0 <= mp <= 11
    ensures var m := MonthFromMarch(mp);
            DaysFromCivil(Civil(era * 400 + yoe + (if m <= 2 then 1 else 0), m, d))
              == era * 146097 + EraYearsDays(yoe) + MarchMonthDays(mp) + d - 1 - 719468
  {
    EraYearSplit(era, yoe);
  }

  /** Splitting a year into its era and its year within the era. */
  lemma EraYearSplit(era: int, yoe: int)
    requires 0 <= yoe < 400
    ensures (era * 400 + yoe) / 400 == era && (era * 400 + yoe) % 400 == yoe
  {
  }

  /**
   * The mp-th month (counted from March) of March-based year yoe of an era is
   * as long as the Gregorian month it stands for, in the calendar year it falls in.
   */
  lemma MonthLengthFromMarch(era: int, yoe: int, mp: int)
    requires 0 <= yoe < 400 && 0 <= mp <= 11
    ensures var m := MonthFromMarch(mp);
            var next := if mp < 11 then MarchMonthDays(mp + 1) else EraYearsDays(yoe + 1) - EraYearsDays(yoe);
            next - MarchMonthDays(mp) == DaysInMonth(era * 400 + yoe + (if m <= 2 then 1 else 0), m)
  {
    if mp < 11 {
      MarchMonthLength(mp, era * 400 + yoe + (if MonthFromMarch(mp) <= 2 then 1 else 0));
    } else {
      YearLength(yoe);
      LeapYearPeriodic(era, yoe + 1);
    }
  }

  /** Months March..January have the lengths of the Gregorian calendar, whatever the year. */
  lemma MarchMonthLength(mp: int, y: int)
    requires 0 <= mp < 11
    ensures MarchMonthDays(mp + 1) - MarchMonthDays(mp) == DaysInMonth(y, MonthFromMarch(mp))
  {
    if mp == 0 {} else if mp == 1 {} else if mp == 2 {} else if mp == 3 {} else if mp == 4 {}
    else if mp == 5 {} else if mp == 6 {} else if mp == 7 {} else if mp == 8 {} else if mp == 9 {}
    else {}
  }

  lemma {:induction false} EraYearsMonotone(i: int, j: int)
    requires i <= j
    ensures EraYearsDays(i) <= EraYearsDays(j)
    decreases j - i
  {
    if i < j {
      YearLength(j - 1);
      EraYearsMonotone(i, j - 1);
    }
  }

  lemma {:induction false} YearOfEraUnique(doe: int, k: int, y: int)
    requires 0 <= k <= y <= 399
    requires EraYearsDays(y) <= doe < EraYearsDays(y + 1)
    ensures EraYearsDays(k) <= doe < 146097
    ensures YearOfEra(doe, k) == y
    decreases y - k
  {
    EraYearsMonotone(k, y);
    EraYearsMonotone(y + 1, 400);
    if k < y {
      EraYearsMonotone(k + 1, y);
      YearOfEraUnique(doe, k + 1, y);
    }
  }

  lemma {:induction false} MonthOfYearUnique(doy: int, k: int, mp: int)
    requires 0 <= k <= mp <= 11
    requires MarchMonthDays(mp) <= doy
    requires mp < 11 ==> doy < MarchMonthDays(mp + 1)
    ensures MarchMonthDays(k) <= doy
    ensures MonthOfYear(doy, k) == mp
    decreases mp - k
  {
    if k < mp {
      MonthOfYearUnique(doy, k + 1, mp);
    }
  }

  // ---------------------------------------------------------------------------
  // Round trips
  // ---------------------------------------------------------------------------

  /** Every valid date survives the trip to a day number and back. */
  lemma CivilRoundTrip(c: Civil)
    requires ValidCivil(c)
    ensures CivilFromDays(DaysFromCivil(c)) == c
  {
    var era, doe := EraDayOf(c);
    CivilFromEraDay(DaysFromCivil(c), era, doe);
  }

  lemma CivilFromEraDay(n: int, era: int, doe: int)
    requires 0 <= doe < 146097 && n + 719468 == era * 146097 + doe
    ensures CivilFromDays(n) == CivilOfEraDay(era, doe)
  {
    EraDaySplit(era, doe);
    EraDayCongruence((n + 719468) / 146097, (n + 719468) % 146097, era, doe);
  }

  // Stated apart so that the verifier sees the congruence without unfolding the conversion.
  lemma EraDayCongruence(era: int, doe: int, era': int, doe': int)
    requires 0 <= doe < 146097 && era == era' && doe == doe'
    ensures CivilOfEraDay(era, doe) == CivilOfEraDay(era', doe')
  {
  }

  /** A valid date is the date of some day of some era. */
  lemma EraDayOf(c: Civil) returns (era: int, doe: int)
    requires ValidCivil(c)
    ensures 0 <= doe < 146097
    ensures DaysFromCivil(c) + 719468 == era * 146097 + doe
    ensures CivilOfEraDay(era, doe) == c
  {
    var yoe, doy, mp;
    era, yoe, doy, mp := EraPartsOf(c);
    doe := EraYearsDays(yoe) + doy;
    assert 0 <= doe < 146097 by {
      EraYearsMonotone(yoe + 1, 400);
    }
    assert DaysFromCivil(c) + 719468 == era * 146097 + doe by {
      DaysFromEraParts(era, yoe, mp, c.day);
    }
    assert CivilOfEraDay(era, doe) == c by {
      YearOfDayUnique(doe, yoe);
      MonthOfDayUnique(doe, yoe, mp);
      CivilOfEraDayParts(era, doe, yoe, mp);
      EraDateOfCivil(c, era, doe, yoe, mp);
    }
  }

  /** The era, March-based year of the era, day of that year and month from March of a valid date. */
  lemma EraPartsOf(c: Civil) returns (era: int, yoe: int, doy: int, mp: int)
    requires ValidCivil(c)
    ensures 0 <= yoe < 400 && 0 <= mp <= 11 && MonthFromMarch(mp) == c.month
    ensures era * 400 + yoe == if c.month <= 2 then c.year - 1 else c.year
    ensures doy == MarchMonthDays(mp) + c.day - 1
    ensures MarchMonthDays(mp) <= doy < EraYearsDays(yoe + 1) - EraYearsDays(yoe)
    ensures mp < 11 ==> doy < MarchMonthDays(mp + 1)
  {
    var y := if c.month <= 2 then c.year - 1 else c.year;
    yoe := y % 400;
    era := y / 400;
    mp := MarchMonth(c.month);
    doy := MarchMonthDays(mp) + c.day - 1;
    var m := MonthFromMarch(mp);
    assert m == c.month;
    var year := era * 400 + yoe + (if m <= 2 then 1 else 0);
    assert year == c.year;
    assert DaysInMonth(year, m) == DaysInMonth(c.year, c.month);
    DayOfYearBound(era, yoe, mp, c.day);
  }

  /** The parts EraDayOf computes from a date put the date back together. */
  lemma EraDateOfCivil(c: Civil, era: int, doe: int, yoe: int, mp: int)
    requires 1 <= c.month <= 12 && 0 <= mp <= 11 && MonthFromMarch(mp) == c.month
    requires era * 400 + yoe == if c.month <= 2 then c.year - 1 else c.year
    requires doe - EraYearsDays(yoe) == MarchMonthDays(mp) + c.day - 1
    ensures EraDate(era, doe, yoe, mp) == c
  {
  }

  /** The year search finds the one year that holds the day. */
  lemma YearOfDayUnique(doe: int, y: int)
    requires 0 <= doe < 146097 && 0 <= y <= 399
    requires EraYearsDays(y) <= doe < EraYearsDays(y + 1)
    ensures YearOfDay(doe) == y
  {
    YearOfEraUnique(doe, 0, y);
  }

  /** The month search finds the one month that holds the day. */
  lemma MonthOfDayUnique(doe: int, yoe: int, mp: int)
    requires 0 <= yoe <= 399 && EraYearsDays(yoe) <= doe && 0 <= mp <= 11
    requires MarchMonthDays(mp) <= doe - EraYearsDays(yoe)
    requires mp < 11 ==> doe - EraYearsDays(yoe) < MarchMonthDays(mp + 1)
    ensures MonthOfDay(doe, yoe) == mp
  {
    MonthOfYearUnique(doe - EraYearsDays(yoe), 0, mp);
  }

  /** A day of a valid month lies inside its March-based year. */
  lemma DayOfYearBound(era: int, yoe: int, mp: int, d: int)
    requires 0 <= yoe < 400 && 0 <= mp <= 11
    requires var m := MonthFromMarch(mp);
             1 <= d <= DaysInMonth(era * 400 + yoe + (if m <= 2 then 1 else 0), m)
    ensures mp < 11 ==> MarchMonthDays(mp) + d - 1 < MarchMonthDays(mp + 1)
    ensures MarchMonthDays(mp) + d - 1 < EraYearsDays(yoe + 1) - EraYearsDays(yoe)
  {
    MonthLengthFromMarch(era, yoe, mp);
    YearLength(yoe);
    if mp < 11 {
      assert MarchMonthDays(mp + 1) <= MarchMonthDays(11);
    }
  }

  /** CivilOfEraDay unfolded, once the year and the month have been found. */
  lemma CivilOfEraDayParts(era: int, doe: int, yoe: int, mp: int)
    requires 0 <= doe < 146097 && YearOfDay(doe) == yoe
    requires 0 <= yoe <= 399 && EraYearsDays(yoe) <= doe && MonthOfDay(doe, yoe) == mp
    ensures CivilOfEraDay(era, doe) == EraDate(era, doe, yoe, mp)
  {
  }

  /** Splitting a day number into its era and its day within the era. */
  lemma EraDaySplit(era: int, doe: int)
    requires 0 <= doe < 146097
    ensures (era * 146097 + doe) / 146097 == era && (era * 146097 + doe) % 146097 == doe
  {
  }

  /** The day of the month counts on linearly from the first of the month. */
  lemma DayOffset(c: Civil)
    requires 1 <= c.month <= 12
    ensures DaysFromCivil(c) == DaysFromCivil(Civil(c.year, c.month, 1)) + c.day - 1
  {
  }

  /** Counting one day past the end of a month reaches the first of the next month. */
  lemma DayPastMonthEnd(y: int, m: int)
    requires 1 <= m <= 12
    ensures var next := if m == 12 then Civil(y + 1, 1, 1) else Civil(y, m + 1, 1);
            DaysFromCivil(Civil(y, m, DaysInMonth(y, m) + 1)) == DaysFromCivil(next)
  {
    NextMonthFollows(y, m);
    DayOffset(Civil(y, m, DaysInMonth(y, m)));
    DayOffset(Civil(y, m, DaysInMonth(y, m) + 1));
  }

  /** Day numbers and valid dates are in one-to-one correspondence. */
  lemma DaysFromCivilInjective(a: Civil, b: Civil)
    requires ValidCivil(a) && ValidCivil(b)
    ensures DaysFromCivil(a) == DaysFromCivil(b) <==> a == b
  {
    if DaysFromCivil(a) == DaysFromCivil(b) {
      CivilRoundTrip(a);
      CivilRoundTrip(b);
    }
  }

  /** The first day of the month after (y, m) follows the last day of (y, m): months tile the day line. */
  lemma NextMonthFollows(y: int, m: int)
    requires 1 <= m <= 12
    ensures var next := if m == 12 then Civil(y + 1, 1, 1) else Civil(y, m + 1, 1);
            DaysFromCivil(next) == DaysFromCivil(Civil(y, m, DaysInMonth(y, m))) + 1
  {
    if m == 2 {
      MarchFollowsFebruary(y);
    } else if m == 12 {
      JanuaryFollowsDecember(y);
    } else {
      MonthFollowsWithinYear(y, m);
    }
  }

  /** Apart from February and December, the next month starts in the same March-based year. */
  lemma MonthFollowsWithinYear(y: int, m: int)
    requires m == 1 || 3 <= m <= 11
    ensures DaysFromCivil(Civil(y, m + 1, 1)) == DaysFromCivil(Civil(y, m, DaysInMonth(y, m))) + 1
  {
    var mp := MarchMonth(m);
    assert MarchMonth(m + 1) == mp + 1 && mp < 11;
    MarchMonthLength(mp, y);
  }

  /** 1 January follows 31 December; both lie in the same March-based year. */
  lemma JanuaryFollowsDecember(y: int)
    ensures DaysFromCivil(Civil(y + 1, 1, 1)) == DaysFromCivil(Civil(y, 12, DaysInMonth(y, 12))) + 1
  {
    MarchMonthLength(9, y);
    var next := y + 1;
    assert next - 1 == y;
    assert DaysFromCivil(Civil(next, 1, 1)) == (y / 400) * 146097 + EraYearsDays(y % 400) + MarchMonthDays(10) - 719468;
  }

  /** 1 March starts a new March-based year, right after the last day of February. */
  lemma MarchFollowsFebruary(y: int)
    ensures DaysFromCivil(Civil(y, 3, 1)) == DaysFromCivil(Civil(y, 2, DaysInMonth(y, 2))) + 1
  {
    var y0 := y - 1;
    var era, yoe := y0 / 400, y0 % 400;
    assert era * 400 + yoe + 1 == y;
    assert DaysFromCivil(Civil(y, 2, DaysInMonth(y, 2)))
        == era * 146097 + EraYearsDays(yoe) + 337 + DaysInMonth(y, 2) - 1 - 719468;
    assert EraYearsDays(yoe + 1) - EraYearsDays(yoe) == 337 + DaysInMonth(y, 2) by {
      YearLength(yoe);
      var k := yoe + 1;
      LeapYearPeriodic(era, k);
      assert era * 400 + k == y;
      assert IsLeapYear(era * 400 + k) == IsLeapYear(y);
    }
    if yoe == 399 {
      assert y / 400 == era + 1 && y % 400 == 0;
    } else {
      assert y / 400 == era && y % 400 == yoe + 1;
    }
  }

  /** Dates of the years 0 to 9999 lie within about 2400 years of the epoch. */
  lemma DaysFromCivilRange(c: Civil)
    requires ValidCivil(c) && 0 <= c.year <= 9999
    ensures -900000 <= DaysFromCivil(c) <= 3000000
  {
    var y := if c.month <= 2 then c.year - 1 else c.year;
    var k := y % 400;
    EraYearsMonotone(0, k);
    EraYearsMonotone(k, 400);
    assert EraYearsDays(400) == 146097;
    assert -1 <= y / 400 <= 24;
    var mp := MarchMonth(c.month);
    assert 0 <= MarchMonthDays(mp) <= 337;
  }
}
