/**
 * The add-event form: its state, the end date of a new event, and the submit
 * handler that turns the form's text fields into the event sent to the agent.
 * Instants are minutes since the epoch in one fixed zone.
 */
module EventForm {
  import opened CivilCalendar
  import opened JsDate
  import opened FormText
  import opened Recurrence

  /** Every event the form creates lasts 30 minutes. */
  const EventDuration: int := 30

  /** The end used for a recurring event without an end date: Date.UTC(2999, 12, 31). */
  function NoEndSentinel(): Date {
    DateUtc(2999, 12, 31)
  }

  /** Month index 12 of 2999 rolls over into January 3000: day 31 of it is day number 376230. */
  lemma SentinelDay()
    ensures MakeDay(2999, 12, 31) == 376230
    ensures DaysFromCivil(Civil(3000, 1, 31)) == 376230
  {
    assert Civil(2999 + 12 / 12, 12 % 12 + 1, 1) == Civil(3000, 1, 1);
    assert DaysFromCivil(Civil(3000, 1, 1)) == 376200;
  }

  /** The sentinel is midnight at the start of 31 January 3000. */
  lemma NoEndSentinelIs3000January31()
    ensures NoEndSentinel() == ValidDate(MakeDate(376230, 0))
    ensures CivilFromDays(DayOf(NoEndSentinel().time)) == Civil(3000, 1, 31)
  {
    SentinelDay();
    assert MakeFullYear(2999) == 2999;
    DayOfMakeDate(376230, 0);
    assert ValidCivil(Civil(3000, 1, 31));
    CivilRoundTrip(Civil(3000, 1, 31));
  }

  /**
   * getEndDate: a recurring event ends at its recurrence end when there is
   * one (`??` keeps any Date, even an invalid one) and at the sentinel
   * otherwise; any other event ends `duration` minutes after its start.
   */
  function GetEndDate(startDate: Date, duration: int, isRecurring: bool, recurrenceEndDate: Option<Date>): Date {
    if isRecurring then
      match recurrenceEndDate
      case Some(d) => d
      case None => NoEndSentinel()
    else
      AddMinutes(startDate, duration)
  }

  /** A one-off event ends exactly `duration` minutes after a valid start, while that stays in the Date range. */
  lemma OneOffEnd(startDate: Date, duration: int, recurrenceEndDate: Option<Date>)
    ensures startDate.InvalidDate? ==> GetEndDate(startDate, duration, false, recurrenceEndDate).InvalidDate?
    ensures startDate.ValidDate? && -MaxTime <= startDate.time + duration <= MaxTime ==>
              GetEndDate(startDate, duration, false, recurrenceEndDate) == ValidDate(startDate.time + duration)
  {
  }

  /**
   * A recurring event ignores its start and duration: it ends at its
   * recurrence end, or at the sentinel, midnight of day 376230 (31 January 3000).
   */
  lemma RecurringEnd(startDate: Date, duration: int, recurrenceEndDate: Option<Date>)
    ensures recurrenceEndDate.Some? ==> GetEndDate(startDate, duration, true, recurrenceEndDate) == recurrenceEndDate.value
    ensures recurrenceEndDate.None? ==> GetEndDate(startDate, duration, true, recurrenceEndDate) == ValidDate(MakeDate(376230, 0))
  {
    NoEndSentinelIs3000January31();
  }

  /**
   * The recurrence end the handler builds: none when the field is empty;
   * otherwise the chosen day at the event's hours and minutes, plus the
   * event's duration.
   */
  function RecurrenceEnd(recurrenceEndDate: string, hours: Numeric, minutes: Numeric): (r: Option<Date>)
    ensures r.None? <==> recurrenceEndDate == ""
  {
    if recurrenceEndDate == "" then None
    else
      var (rYear, rMonth, rDay) := SplitNumbers3(recurrenceEndDate, '-');
      Some(AddMinutes(NewDate(rYear, Decrement(rMonth), rDay, hours, minutes), EventDuration))
  }

  /** Why the handler sends nothing. */
  datatype SubmitError =
    | MissingDateOrTime  // the guard: the date or the time field is empty
    | InvalidStart       // toISOString throws on an Invalid Date start
    | InvalidEnd         // toISOString throws on an Invalid Date end

  datatype Result<T> = Ok(value: T) | Err(error: SubmitError)

  /** The object the handler passes to runAction("setEvent", ...); the dates as instants. */
  datatype NewEvent = NewEvent(
    title: string,
    description: string,
    startDateUtc: int,
    endDateUtc: int,
    duration: int,
    isRecurring: bool,
    recurrencePattern: Option<RecurrenceRule>)

  /**
   * What the submit handler sends for the given field values: nothing when
   * the date or time is empty or a date comes out invalid; otherwise the
   * event with its start, its end, and a pattern only when it is recurring.
   * The pattern is generateRecurrencePattern as written, so a recurring
   * event with the rate "ANNUALLY" is sent without one.
   */
  function Payload(title: string, description: string, date: string, time: string,
                   isRecurring: bool, recurringRate: string, recurrenceEndDate: string): (r: Result<NewEvent>)
    ensures r == Err(MissingDateOrTime) <==> date == "" || time == ""
    ensures r.Ok? ==>
              r.value.title == title && r.value.description == description &&
              r.value.duration == EventDuration && r.value.isRecurring == isRecurring &&
              (r.value.recurrencePattern.Some? <==> isRecurring && recurringRate in {"DAILY", "WEEKLY", "MONTHLY"})
  {
    if date == "" || time == "" then Err(MissingDateOrTime)
    else
      var (year, month, day) := SplitNumbers3(date, '-');
      var (hours, minutes, _) := SplitNumbers3(time, ':');
      var startDateObj := NewDate(year, Decrement(month), day, hours, minutes);
      var endDateObj := GetEndDate(startDateObj, EventDuration, isRecurring, RecurrenceEnd(recurrenceEndDate, hours, minutes));
      if startDateObj.InvalidDate? then Err(InvalidStart)
      else if endDateObj.InvalidDate? then Err(InvalidEnd)
      else
        var pattern := if isRecurring then PatternAsWritten(recurringRate, startDateObj.time, endDateObj.time) else None;
        Ok(NewEvent(title, description, startDateObj.time, endDateObj.time, EventDuration, isRecurring, pattern))
  }

  /**
   * The payload the handler evidently intends: the same as Payload, except
   * that a recurring event carries the corrected pattern, so "ANNUALLY" gives
   * a YEARLY rule.
   */
  function PayloadIntended(title: string, description: string, date: string, time: string,
                           isRecurring: bool, recurringRate: string, recurrenceEndDate: string): (r: Result<NewEvent>)
    ensures r.Err? <==> Payload(title, description, date, time, isRecurring, recurringRate, recurrenceEndDate).Err?
    ensures r.Ok? ==>
              (r.value.recurrencePattern.Some? <==> isRecurring && FrequencyOfRate(recurringRate).Some?)
  {
    match Payload(title, description, date, time, isRecurring, recurringRate, recurrenceEndDate)
    case Err(e) => Err(e)
    case Ok(ev) =>
      if ev.isRecurring then Ok(ev.(recurrencePattern := Pattern(recurringRate, ev.startDateUtc, ev.endDateUtc)))
      else Ok(ev)
  }

  /** The handler as written sends what is intended, except that a recurring "ANNUALLY" event loses its YEARLY rule. */
  lemma PayloadIntendedAgrees(title: string, description: string, date: string, time: string,
                              isRecurring: bool, recurringRate: string, recurrenceEndDate: string)
    ensures var r := Payload(title, description, date, time, isRecurring, recurringRate, recurrenceEndDate);
            var q := PayloadIntended(title, description, date, time, isRecurring, recurringRate, recurrenceEndDate);
            (!(isRecurring && recurringRate == "ANNUALLY") ==> r == q) &&
            (isRecurring && recurringRate == "ANNUALLY" && r.Ok? ==>
               r.value.recurrencePattern.None? &&
               q == Ok(r.value.(recurrencePattern := Some(RecurrenceRule(YEARLY, 1, r.value.startDateUtc, r.value.endDateUtc)))))
  {
    var r := Payload(title, description, date, time, isRecurring, recurringRate, recurrenceEndDate);
    if r.Ok? && isRecurring {
      PatternAsWrittenAgrees(recurringRate, r.value.startDateUtc, r.value.endDateUtc);
    }
  }

  /** The text a date input holds for a day: "YYYY-MM-DD". */
  function DateField(c: Civil): string
    requires c.year >= 0 && c.month >= 0 && c.day >= 0
  {
    Padded(c.year, 4) + "-" + Padded(c.month, 2) + "-" + Padded(c.day, 2)
  }

  /** The text a time input holds: "HH:MM". */
  function TimeField(hours: nat, minutes: nat): string {
    Padded(hours, 2) + ":" + Padded(minutes, 2)
  }

  /** The handler reads a date field back as its year, month and day. */
  lemma DateFieldNumbers(c: Civil)
    requires c.year >= 0 && c.month >= 0 && c.day >= 0
    ensures SplitNumbers3(DateField(c), '-') == (Finite(c.year), Finite(c.month), Finite(c.day))
  {
    SplitNumbersOfThree(Padded(c.year, 4), Padded(c.month, 2), Padded(c.day, 2), '-');
    ToNumberPadded(c.year, 4);
    ToNumberPadded(c.month, 2);
    ToNumberPadded(c.day, 2);
  }

  /** The handler reads a time field back as its hours and minutes. */
  lemma TimeFieldNumbers(hours: nat, minutes: nat)
    ensures var (h, mi, _) := SplitNumbers3(TimeField(hours, minutes), ':');
            h == Finite(hours) && mi == Finite(minutes)
  {
    SplitNumbersOfTwo(Padded(hours, 2), Padded(minutes, 2), ':');
    ToNumberPadded(hours, 2);
    ToNumberPadded(minutes, 2);
  }

  /**
   * new Date(year, month - 1, day, hours, minutes) for a year of 0 to 9999, a
   * time of day, and a day valid in the full year (years 0 to 99 are read as
   * 1900 to 1999) is that day at that time.
   */
  lemma LocalDateOf(y: int, m: int, d: int, hours: nat, minutes: nat)
    requires 0 <= y <= 9999 && ValidCivil(Civil(MakeFullYear(y), m, d)) && hours < 24 && minutes < 60
    ensures NewDate(Finite(y), Decrement(Finite(m)), Finite(d), Finite(hours), Finite(minutes)) ==
            ValidDate(MakeDate(DaysFromCivil(Civil(MakeFullYear(y), m, d)), hours * 60 + minutes))
  {
    var c := Civil(MakeFullYear(y), m, d);
    var n := DaysFromCivil(c);
    var minuteOfDay := hours * 60 + minutes;
    assert MakeDay(c.year, m - 1, d) == n by {
      MakeDayOfValidDate(c);
    }
    assert TimeClip(MakeDate(n, minuteOfDay)) == ValidDate(MakeDate(n, minuteOfDay)) by {
      DaysFromCivilRange(c);
      ClipInRange(n, minuteOfDay);
    }
  }

  /**
   * The Date the handler builds reads back as its parts: the day it falls on
   * is the calendar date of the fields, and its minute of the day is
   * hours * 60 + minutes.
   */
  lemma NewDateFields(y: int, m: int, d: int, hours: nat, minutes: nat)
    requires 0 <= y <= 9999 && ValidCivil(Civil(MakeFullYear(y), m, d)) && hours < 24 && minutes < 60
    ensures var date := NewDate(Finite(y), Decrement(Finite(m)), Finite(d), Finite(hours), Finite(minutes));
            date.ValidDate? &&
            CivilFromDays(DayOf(date.time)) == Civil(MakeFullYear(y), m, d) &&
            date.time % 1440 == hours * 60 + minutes
  {
    var c := Civil(MakeFullYear(y), m, d);
    LocalDateOf(y, m, d, hours, minutes);
    DayOfMakeDate(DaysFromCivil(c), hours * 60 + minutes);
    CivilRoundTrip(c);
  }

  /** Instants of the years 0 to 9999 are far inside the range of a Date. */
  lemma ClipInRange(n: int, minuteOfDay: int)
    requires -900000 <= n <= 3000000 && 0 <= minuteOfDay < 1440
    ensures TimeClip(MakeDate(n, minuteOfDay)) == ValidDate(MakeDate(n, minuteOfDay))
  {
  }

  /** The instant the form's fields name: day c at hours:minutes. */
  function FieldInstant(c: Civil, hours: nat, minutes: nat): int
    requires 1 <= c.month <= 12
  {
    MakeDate(DaysFromCivil(c), hours * 60 + minutes)
  }

  /** The handler's start for the fields of day c at hours:minutes is that instant, and it reads hours and minutes back. */
  lemma FieldsStart(c: Civil, hours: nat, minutes: nat)
    requires ValidCivil(c) && 100 <= c.year <= 9999 && hours < 24 && minutes < 60
    ensures var (year, month, day) := SplitNumbers3(DateField(c), '-');
            var (h, mi, _) := SplitNumbers3(TimeField(hours, minutes), ':');
            h == Finite(hours) && mi == Finite(minutes) &&
            NewDate(year, Decrement(month), day, h, mi) == ValidDate(FieldInstant(c, hours, minutes))
  {
    DateFieldNumbers(c);
    TimeFieldNumbers(hours, minutes);
    LocalDateOf(c.year, c.month, c.day, hours, minutes);
    assert Civil(MakeFullYear(c.year), c.month, c.day) == c;
  }

  /** The recurrence end for the field of day endDay is that day at hours:minutes plus 30 minutes. */
  lemma FieldsRecurrenceEnd(endDay: Civil, hours: nat, minutes: nat)
    requires ValidCivil(endDay) && 100 <= endDay.year <= 9999 && hours < 24 && minutes < 60
    ensures RecurrenceEnd(DateField(endDay), Finite(hours), Finite(minutes)) ==
            Some(ValidDate(FieldInstant(endDay, hours, minutes) + EventDuration))
  {
    DateFieldNumbers(endDay);
    LocalDateOf(endDay.year, endDay.month, endDay.day, hours, minutes);
    assert Civil(MakeFullYear(endDay.year), endDay.month, endDay.day) == endDay;
    DaysFromCivilRange(endDay);
  }

  /** Once the start and the end come out valid, the handler sends them, with a pattern exactly when recurring. */
  lemma PayloadOfValidDates(title: string, description: string, date: string, time: string,
                            isRecurring: bool, recurringRate: string, recurrenceEndDate: string, start: int, end: int)
    requires date != "" && time != ""
    requires var (year, month, day) := SplitNumbers3(date, '-');
             var (h, mi, _) := SplitNumbers3(time, ':');
             NewDate(year, Decrement(month), day, h, mi) == ValidDate(start) &&
             GetEndDate(ValidDate(start), EventDuration, isRecurring, RecurrenceEnd(recurrenceEndDate, h, mi)) == ValidDate(end)
    ensures Payload(title, description, date, time, isRecurring, recurringRate, recurrenceEndDate) ==
            Ok(NewEvent(title, description, start, end, EventDuration, isRecurring,
                        if isRecurring then PatternAsWritten(recurringRate, start, end) else None))
  {
  }

  /** A one-off event on a valid day at a valid time is sent with that start, an end 30 minutes later, and no pattern. */
  lemma SubmitOneOff(title: string, description: string, c: Civil, hours: nat, minutes: nat,
                     recurringRate: string, recurrenceEndDate: string)
    requires ValidCivil(c) && 100 <= c.year <= 9999 && hours < 24 && minutes < 60
    ensures var start := FieldInstant(c, hours, minutes);
            Payload(title, description, DateField(c), TimeField(hours, minutes), false, recurringRate, recurrenceEndDate) ==
            Ok(NewEvent(title, description, start, start + EventDuration, EventDuration, false, None))
  {
    var start := FieldInstant(c, hours, minutes);
    FieldsStart(c, hours, minutes);
    DaysFromCivilRange(c);
    assert -MaxTime <= start + EventDuration <= MaxTime;
    PayloadOfValidDates(title, description, DateField(c), TimeField(hours, minutes), false, recurringRate,
                        recurrenceEndDate, start, start + EventDuration);
  }

  /** A recurring event without an end date is sent with the sentinel as its end and as the rule's UNTIL. */
  lemma SubmitRecurringNoEnd(title: string, description: string, c: Civil, hours: nat, minutes: nat, recurringRate: string)
    requires ValidCivil(c) && 100 <= c.year <= 9999 && hours < 24 && minutes < 60
    ensures var start, end := FieldInstant(c, hours, minutes), MakeDate(376230, 0);
            Payload(title, description, DateField(c), TimeField(hours, minutes), true, recurringRate, "") ==
            Ok(NewEvent(title, description, start, end, EventDuration, true, PatternAsWritten(recurringRate, start, end)))
  {
    FieldsStart(c, hours, minutes);
    NoEndSentinelIs3000January31();
    PayloadOfValidDates(title, description, DateField(c), TimeField(hours, minutes), true, recurringRate, "",
                        FieldInstant(c, hours, minutes), MakeDate(376230, 0));
  }

  /**
   * A recurring event with an end date is sent with that day, at the event's
   * time plus 30 minutes, as its end and as the rule's UNTIL.
   */
  lemma SubmitRecurringWithEnd(title: string, description: string, c: Civil, hours: nat, minutes: nat,
                               recurringRate: string, endDay: Civil)
    requires ValidCivil(c) && 100 <= c.year <= 9999 && hours < 24 && minutes < 60
    requires ValidCivil(endDay) && 100 <= endDay.year <= 9999
    ensures var start, end := FieldInstant(c, hours, minutes), FieldInstant(endDay, hours, minutes) + EventDuration;
            Payload(title, description, DateField(c), TimeField(hours, minutes), true, recurringRate, DateField(endDay)) ==
            Ok(NewEvent(title, description, start, end, EventDuration, true, PatternAsWritten(recurringRate, start, end)))
  {
    FieldsStart(c, hours, minutes);
    FieldsRecurrenceEnd(endDay, hours, minutes);
    PayloadOfValidDates(title, description, DateField(c), TimeField(hours, minutes), true, recurringRate, DateField(endDay),
                        FieldInstant(c, hours, minutes), FieldInstant(endDay, hours, minutes) + EventDuration);
  }

  /**
   * As written, a recurring event with the rate "ANNUALLY" is sent, marked
   * recurring, but with no recurrence pattern.
   */
  lemma SubmitAnnuallyNoPattern(title: string, description: string, c: Civil, hours: nat, minutes: nat)
    requires ValidCivil(c) && 100 <= c.year <= 9999 && hours < 24 && minutes < 60
    ensures var r := Payload(title, description, DateField(c), TimeField(hours, minutes), true, "ANNUALLY", "");
            r.Ok? && r.value.isRecurring && r.value.recurrencePattern.None? &&
            r.value.startDateUtc == FieldInstant(c, hours, minutes)
  {
    SubmitRecurringNoEnd(title, description, c, hours, minutes, "ANNUALLY");
  }

  /**
   * Nothing checks the order of the two dates: a recurrence ending before the
   * start is sent as it is, with UNTIL before DTSTART.
   */
  lemma SubmitEndBeforeStart()
    ensures var r := Payload("t", "d", DateField(Civil(2024, 3, 5)), TimeField(10, 30), true, "DAILY", DateField(Civil(2024, 3, 1)));
            r.Ok? && r.value.endDateUtc < r.value.startDateUtc &&
            r.value.recurrencePattern.Some? && r.value.recurrencePattern.value.until < r.value.recurrencePattern.value.dtstart
  {
    SubmitRecurringWithEnd("t", "d", Civil(2024, 3, 5), 10, 30, "DAILY", Civil(2024, 3, 1));
  }

  /** The form's state: the values of its inputs. */
  class AddEventForm {
    var title: string
    var description: string
    var date: string
    var time: string
    var isRecurring: bool
    var recurringRate: string
    var recurrenceEndDate: string

    /** Every input starts empty, not recurring, with the rate "DAILY". */
    constructor ()
      ensures title == "" && description == "" && date == "" && time == ""
      ensures !isRecurring && recurringRate == "DAILY" && recurrenceEndDate == ""
    {
      title := "";
      description := "";
      date := "";
      time := "";
      isRecurring := false;
      recurringRate := "DAILY";
      recurrenceEndDate := "";
    }

    /** Clears the inputs after a submission, except the recurrence end date. */
    method ResetInputs()
      modifies this
      ensures title == "" && description == "" && date == "" && time == ""
      ensures !isRecurring && recurringRate == "DAILY"
      ensures recurrenceEndDate == old(recurrenceEndDate)
    {
      title := "";
      description := "";
      date := "";
      time := "";
      isRecurring := false;
      recurringRate := "DAILY";
    }

    /**
     * The Add Event click handler. `delivered` says whether runAction
     * resolved; the inputs are reset only after a delivered submission, and
     * are left as they were when the handler stops early or runAction fails.
     */
    method Submit(delivered: bool) returns (result: Result<NewEvent>)
      modifies this
      ensures result == Payload(old(title), old(description), old(date), old(time),
                                old(isRecurring), old(recurringRate), old(recurrenceEndDate))
      ensures result.Ok? && delivered ==>
                title == "" && description == "" && date == "" && time == "" &&
                !isRecurring && recurringRate == "DAILY"
      ensures !(result.Ok? && delivered) ==>
                title == old(title) && description == old(description) && date == old(date) &&
                time == old(time) && isRecurring == old(isRecurring) && recurringRate == old(recurringRate)
      ensures recurrenceEndDate == old(recurrenceEndDate)
    {
      if date == "" || time == "" {
        return Err(MissingDateOrTime);
      }
      var duration := EventDuration;
      var (year, month, day) := SplitNumbers3(date, '-');
      var (hours, minutes, _) := SplitNumbers3(time, ':');
      var startDateObj := NewDate(year, Decrement(month), day, hours, minutes);
      var recurrenceEndDateObj := RecurrenceEnd(recurrenceEndDate, hours, minutes);
      var endDateObj := GetEndDate(startDateObj, duration, isRecurring, recurrenceEndDateObj);
      if startDateObj.InvalidDate? {
        return Err(InvalidStart);
      }
      if endDateObj.InvalidDate? {
        return Err(InvalidEnd);
      }
      var recurrencePattern := if isRecurring then PatternAsWritten(recurringRate, startDateObj.time, endDateObj.time) else None;
      result := Ok(NewEvent(title, description, startDateObj.time, endDateObj.time, duration, isRecurring, recurrencePattern));
      if delivered {
        ResetInputs();
      }
    }
  }
}
