/**
 * The part of JavaScript's Date and Number behaviour that the calendar relies
 * on, in the terms of the ECMAScript Language Specification (section 21.4,
 * "Date Objects"): instants are whole minutes since 1970-01-01T00:00, read in
 * one fixed time zone, and a Date is either valid or the Invalid Date that any
 * NaN argument or an out-of-range time produces.
 */
module JsDate {
  import opened CivilCalendar

  /** A JavaScript number as far as the calendar needs one: an integer or NaN. */
  datatype Numeric = Finite(value: int) | NaN

  /** A Date object: an instant in minutes, or the Invalid Date. */
  datatype Date = ValidDate(time: int) | InvalidDate

  /** Largest distance from the epoch a Date may have: 8.64e15 ms (TimeClip), in minutes. */
  const MaxTime: int := 144_000_000_000

  /** TimeClip: an instant too far from the epoch gives the Invalid Date. */
  function TimeClip(t: int): (d: Date)
    ensures d.ValidDate? <==> -MaxTime <= t <= MaxTime
    ensures d.ValidDate? ==> d.time == t
  {
    if -MaxTime <= t <= MaxTime then ValidDate(t) else InvalidDate
  }

  /** The Date constructor reads years 0..99 as 1900..1999 (MakeFullYear). */
  function MakeFullYear(y: int): (r: int)
    ensures 0 <= y <= 99 ==> r == 1900 + y
    ensures !(0 <= y <= 99) ==> r == y
  {
    if 0 <= y <= 99 then 1900 + y else y
  }

  /**
   * MakeDay(year, month, date): the day number of the date-th day counted from
   * the first of month index month (0 = January) of year. Month indices outside
   * 0..11 roll over into other years, and dates outside the month roll over
   * into other months.
   */
  function MakeDay(year: int, month: int, date: int): int {
    DaysFromCivil(Civil(year + month / 12, month % 12 + 1, 1)) + date - 1
  }

  /** For a month index within the year, MakeDay is the day number of that calendar date. */
  lemma MakeDayInYear(year: int, month: int, date: int)
    requires 0 <= month < 12
    ensures MakeDay(year, month, date) == DaysFromCivil(Civil(year, month + 1, date))
  {
    assert Civil(year + month / 12, month % 12 + 1, 1) == Civil(year, month + 1, 1);
    DayOffset(Civil(year, month + 1, date));
  }

  /** A valid calendar date is the day MakeDay gives for its month index and day, and nothing rolls over. */
  lemma MakeDayOfValidDate(c: Civil)
    requires ValidCivil(c)
    ensures MakeDay(c.year, c.month - 1, c.day) == DaysFromCivil(c)
    ensures CivilFromDays(MakeDay(c.year, c.month - 1, c.day)) == c
  {
    MakeDayInYear(c.year, c.month - 1, c.day);
    assert Civil(c.year, c.month - 1 + 1, c.day) == c;
    CivilRoundTrip(c);
  }

  /** Month index 12 of a year is January of the next year, and so on. */
  lemma MakeDayMonthRollover(year: int, month: int, date: int)
    ensures MakeDay(year, month + 12, date) == MakeDay(year + 1, month, date)
  {
    assert (month + 12) / 12 == month / 12 + 1;
    assert (month + 12) % 12 == month % 12;
    assert Civil(year + (month + 12) / 12, (month + 12) % 12 + 1, 1) == Civil(year + 1 + month / 12, month % 12 + 1, 1);
  }

  /** The day after the last day of a month is the first day of the next month index. */
  lemma MakeDayDateRollover(year: int, month: int)
    requires 0 <= month < 12
    ensures MakeDay(year, month, DaysInMonth(year, month + 1) + 1) == MakeDay(year, month + 1, 1)
  {
    MakeDayInYear(year, month, DaysInMonth(year, month + 1) + 1);
    DayPastMonthEnd(year, month + 1);
    if month < 11 {
      MakeDayInYear(year, month + 1, 1);
    } else {
      MakeDayMonthRollover(year, 0, 1);
      assert MakeDay(year, month + 1, 1) == MakeDay(year, 0 + 12, 1);
      MakeDayInYear(year + 1, 0, 1);
    }
  }

  /** Start of a day from its day number and minutes since midnight. */
  function MakeDate(day: int, minuteOfDay: int): int {
    day * 1440 + minuteOfDay
  }

  /** startOfDay in the fixed zone: the day number an instant falls on. */
  function DayOf(t: int): (day: int)
    ensures MakeDate(day, 0) <= t < MakeDate(day + 1, 0)
  {
    t / 1440
  }

  lemma DayOfMakeDate(day: int, minuteOfDay: int)
    requires 0 <= minuteOfDay < 1440
    ensures DayOf(MakeDate(day, minuteOfDay)) == day
  {
  }

  /**
   * new Date(year, monthIndex, day, hours, minutes): local wall-clock time in
   * the fixed zone; any NaN argument gives the Invalid Date.
   */
  function NewDate(year: Numeric, month: Numeric, day: Numeric, hours: Numeric, minutes: Numeric): (d: Date)
    ensures (year.NaN? || month.NaN? || day.NaN? || hours.NaN? || minutes.NaN?) ==> d == InvalidDate
    ensures d.ValidDate? ==>
              d.time == MakeDate(MakeDay(MakeFullYear(year.value), month.value, day.value), hours.value * 60 + minutes.value)
  {
    if year.NaN? || month.NaN? || day.NaN? || hours.NaN? || minutes.NaN? then InvalidDate
    else TimeClip(MakeDate(MakeDay(MakeFullYear(year.value), month.value, day.value), hours.value * 60 + minutes.value))
  }

  /** Date.UTC(year, monthIndex, day) at midnight; the fixed zone is UTC, so this is NewDate with no time of day. */
  function DateUtc(year: int, month: int, day: int): (d: Date)
    ensures d == NewDate(Finite(year), Finite(month), Finite(day), Finite(0), Finite(0))
  {
    TimeClip(MakeDate(MakeDay(MakeFullYear(year), month, day), 0))
  }

  /** date-fns addMinutes: an Invalid Date stays invalid; otherwise the time moves and is clipped again. */
  function AddMinutes(d: Date, amount: int): (r: Date)
    ensures d.InvalidDate? ==> r.InvalidDate?
    ensures r.ValidDate? ==> d.ValidDate? && r.time == d.time + amount
  {
    match d
    case InvalidDate => InvalidDate
    case ValidDate(t) => TimeClip(t + amount)
  }

  /** Moving a Date forward and back by the same amount gives it back, clipped to the Date range. */
  lemma AddMinutesInverse(d: Date, amount: int)
    requires AddMinutes(d, amount).ValidDate?
    ensures AddMinutes(AddMinutes(d, amount), -amount) == TimeClip(d.time)
    ensures -MaxTime <= d.time <= MaxTime ==> AddMinutes(AddMinutes(d, amount), -amount) == d
  {
  }

  /** Number(x) minus one, as in `month - 1`: NaN stays NaN. */
  function Decrement(x: Numeric): (r: Numeric)
    ensures r.NaN? <==> x.NaN?
    ensures r.Finite? ==> r.value == x.value - 1
  {
    match x
    case NaN => NaN
    case Finite(v) => Finite(v - 1)
  }
}
