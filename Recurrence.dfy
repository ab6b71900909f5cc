/**
 * The recurrence pattern the add-event form attaches to a recurring event: an
 * RRULE in the sense of section 3.3.10 of RFC 5545, kept as a record of the
 * rule parts the form sets (FREQ, INTERVAL, DTSTART and UNTIL) rather than as
 * its text. Frequencies carry the numeric values the rrule library gives them,
 * where YEARLY is 0.
 */
module Recurrence {

  datatype Option<T> = None | Some(value: T)

  /** The frequencies the form offers, in the rrule library's order. */
  datatype Frequency = YEARLY | MONTHLY | WEEKLY | DAILY

  /** The rule parts the form sets; instants are minutes since the epoch. */
  datatype RecurrenceRule = RecurrenceRule(freq: Frequency, interval: int, dtstart: int, until: int)

  /** The numeric value of a frequency in the rrule library (RRule.YEARLY is 0). */
  function FrequencyCode(f: Frequency): (code: int)
    ensures 0 <= code <= 3
    ensures code == 0 <==> f == YEARLY
  {
    match f
    case YEARLY => 0
    case MONTHLY => 1
    case WEEKLY => 2
    case DAILY => 3
  }

  /** The value of the option for f in the form's rate select. */
  function RateName(f: Frequency): (rate: string)
    ensures |rate| >= 5
  {
    match f
    case DAILY => "DAILY"
    case WEEKLY => "WEEKLY"
    case MONTHLY => "MONTHLY"
    case YEARLY => "ANNUALLY"
  }

  /**
   * The conditional chain that picks the frequency for the selected rate;
   * any other string gives undefined.
   */
  function FrequencyOfRate(rate: string): (freq: Option<Frequency>)
    ensures freq.Some? <==> rate in {"DAILY", "WEEKLY", "MONTHLY", "ANNUALLY"}
  {
    if rate == "DAILY" then Some(DAILY)
    else if rate == "WEEKLY" then Some(WEEKLY)
    else if rate == "MONTHLY" then Some(MONTHLY)
    else if rate == "ANNUALLY" then Some(YEARLY)
    else None
  }

  /** Every rate the select offers maps to its frequency, and only that rate does. */
  lemma FrequencyOfRateName(rate: string, f: Frequency)
    ensures FrequencyOfRate(rate) == Some(f) <==> rate == RateName(f)
  {
    match f
    case DAILY =>
    case WEEKLY =>
    case MONTHLY =>
    case YEARLY =>
  }

  /**
   * generateRecurrencePattern as written: the guard `if (!freq) return;`
   * rejects undefined and also the falsy frequency value 0, which is YEARLY.
   */
  function PatternAsWritten(rate: string, start: int, end: int): (r: Option<RecurrenceRule>)
    ensures r.Some? <==> rate in {"DAILY", "WEEKLY", "MONTHLY"}
  {
    match FrequencyOfRate(rate)
    case None => None
    case Some(f) =>
      if FrequencyCode(f) == 0 then None
      else Some(RecurrenceRule(f, 1, start, end))
  }

  /**
   * generateRecurrencePattern as intended: no pattern exactly for an unknown
   * rate; otherwise a rule with that frequency, interval 1, and the event's
   * start and end as DTSTART and UNTIL.
   */
  function Pattern(rate: string, start: int, end: int): (r: Option<RecurrenceRule>)
    ensures r.None? <==> FrequencyOfRate(rate).None?
    ensures r.Some? ==> r.value == RecurrenceRule(FrequencyOfRate(rate).value, 1, start, end)
  {
    match FrequencyOfRate(rate)
    case None => None
    case Some(f) => Some(RecurrenceRule(f, 1, start, end))
  }

  /** The rule's frequency is the one the rate names, so the rate can be read back from the rule. */
  lemma PatternRate(rate: string, start: int, end: int)
    requires Pattern(rate, start, end).Some?
    ensures RateName(Pattern(rate, start, end).value.freq) == rate
  {
    FrequencyOfRateName(rate, Pattern(rate, start, end).value.freq);
  }

  /** Each rate the select offers yields the rule with its frequency, interval 1, and the given start and end. */
  lemma PatternOfRateName(f: Frequency, start: int, end: int)
    ensures Pattern(RateName(f), start, end) == Some(RecurrenceRule(f, 1, start, end))
  {
    FrequencyOfRateName(RateName(f), f);
  }

  /** The guard as written differs from the intended one only on "ANNUALLY". */
  lemma PatternAsWrittenAgrees(rate: string, start: int, end: int)
    ensures rate != "ANNUALLY" ==> PatternAsWritten(rate, start, end) == Pattern(rate, start, end)
    ensures rate == "ANNUALLY" ==>
              PatternAsWritten(rate, start, end).None? &&
              Pattern(rate, start, end) == Some(RecurrenceRule(YEARLY, 1, start, end))
  {
    if rate != "ANNUALLY" {
      match FrequencyOfRate(rate)
      case None =>
      case Some(f) =>
        assert f != YEARLY;
    }
  }
}
