# Aspen calendar month view — Dafny model

This project models the computational core of the month view of the Aspen
calendar web client (`src/Calendar.tsx`):

- **The date grid** (`MonthView`). Take the first and last day of the
  reference month and widen them to the enclosing Sunday-to-Saturday weeks.
  List every day of that range, then cut the list into rows of seven with a
  `reduce` that pushes onto arrays. The model is module `MonthGrid`, which
  rests on `CivilCalendar` (proleptic Gregorian day numbers).
- **Event placement** (`CalendarCellRow`, `CalendarCell`). Each cell keeps
  the events that start on its day. It then sorts that array in place, with
  the comparator `isAfter(a, b) ? 1 : -1`. The model is module `Events`,
  whose `CalendarEvent` datatype mirrors the interface in `src/types.ts`.
- **The add-event form** (`AddEventForm`). Its state is a class with the seven
  `useState` fields. `resetInputs`, `getEndDate` and
  `generateRecurrencePattern` are modelled, and so is the Add Event click
  handler: it guards, splits the "YYYY-MM-DD" and "HH:MM" texts, calls
  `Number`, builds the dates, and composes the payload. The models are modules
  `EventForm` and `Recurrence`, with `FormText` for `split`/`Number` and
  `JsDate` for the `Date` constructor, `Date.UTC`, `TimeClip` and date-fns
  `addMinutes`.

Conventions:

- Instants are whole minutes since 1970-01-01T00:00, read in one fixed zone.
  Days are day numbers, and day 0 is a Thursday.
- A `Date` is either `ValidDate(time)` or `InvalidDate`.
- A recurrence pattern is the record of rule parts the form sets, in the sense
  of section 3.3.10 of RFC 5545: FREQ, INTERVAL, DTSTART and UNTIL. It is not
  the rrule library's text.

Notes on the code's behaviour, all of which the model keeps:

- Ties in a cell are left to the sort. The comparator never returns 0, so
  events with equal starts are in no defined order. `Events.CompareTies`
  states this.
- An unknown rate gives no pattern (`None`), not an error.
- A recurring event with an unknown rate is sent with no pattern. So is one
  with the rate "ANNUALLY", because of the guard described under "Findings".
  `EventForm.Payload` and `EventForm.AddEventForm.Submit` model the handler as
  written. `EventForm.PayloadIntended` is the corrected payload, kept beside
  it.
- `resetInputs` leaves the recurrence end date as it is.
- The recurrence end is the chosen day at the event's time plus the 30-minute
  duration.

## Model

| member | source | states |
|---|---|---|
| MonthGrid.StartOfWeek | src/Calendar.tsx:398 | the result is a Sunday, at most six days before the given day |
| MonthGrid.EndOfWeek | src/Calendar.tsx:400 | the result is a Saturday, at most six days after the given day |
| MonthGrid.StartOfMonth | src/Calendar.tsx:397 | the result is day 1 of the given day's year and month, and not after it |
| MonthGrid.EndOfMonth | src/Calendar.tsx:399 | the result is the last day (DaysInMonth) of the given day's month, and not before it |
| MonthGrid.MonthLength | src/Calendar.tsx:397-399 | the month runs from startOfMonth to endOfMonth over exactly DaysInMonth days |
| MonthGrid.InMonthIff | src/Calendar.tsx:397-399 | a day is in the reference month exactly when it lies between monthStart and monthEnd |
| MonthGrid.MonthSpan | src/Calendar.tsx:397-399 | a month spans 28 to 31 days |
| MonthGrid.EachDayOfInterval | src/Calendar.tsx:402 | the list holds exactly the days from start to end, each once, in strictly increasing order |
| MonthGrid.ChunkWeeks | src/Calendar.tsx:403-406 | the reduce yields row r = items 7r..7r+6 (the last row possibly shorter); concatenating the rows gives back the items in order |
| MonthGrid.ConcatRows7 | src/Calendar.tsx:403-406 | concatenating the rows of seven gives back the flat list |
| MonthGrid.BuildDateMatrix | src/Calendar.tsx:397-406 | the imperative grid build yields the date matrix of the reference instant's day |
| MonthGrid.WholeWeeks | src/Calendar.tsx:398-400 | widening a 28 to 31 day span to whole weeks gives a multiple of 7, from 28 to 42 days |
| MonthGrid.WeekRows | src/Calendar.tsx:397-406 | 4 to 6 rows, each of 7 consecutive days starting on a Sunday, numbered in row-major order from the grid's first day |
| MonthGrid.WeekEnds | src/Calendar.tsx:397-406 | the first cell is the Sunday on or before monthStart; the last is the Saturday on or after monthEnd |
| MonthGrid.WeekMatrixPlacesOnce | src/Calendar.tsx:397-406 | every day of the span sits at exactly one row and column of the matrix |
| MonthGrid.GridShape | src/Calendar.tsx:397-406 | for any reference day the matrix has 4 to 6 rows of 7 consecutive days from a Sunday, covering startOfWeek(monthStart)..endOfWeek(monthEnd) |
| MonthGrid.MonthDayPlacedOnce | src/Calendar.tsx:397-406 | every day of the reference month appears exactly once, at row (d - start) / 7 and column (d - start) % 7 |
| MonthGrid.GridWithinWeeks | src/Calendar.tsx:398-402 | no day outside startOfWeek(monthStart)..endOfWeek(monthEnd) appears |
| MonthGrid.GridOutsideMonth | src/Calendar.tsx:397-402 | a cell's day is outside the month exactly when it comes before monthStart or after monthEnd |
| MonthGrid.SameMonthSameGrid | src/Calendar.tsx:397-406 | two reference days in the same month give the same month bounds and the same matrix |
| MonthGrid.WeekMatrixRows | src/Calendar.tsx:397-406 | the number of rows is the number of weeks the span touches |
| MonthGrid.MonthRows | src/Calendar.tsx:397-406 | the matrix has (weekday of the 1st + month length + 6) / 7 rows |
| MonthGrid.FourRowSpan | src/Calendar.tsx:397-406 | a span fills four rows exactly when it is 28 days starting on a Sunday |
| MonthGrid.SixRowSpan | src/Calendar.tsx:397-406 | a span fills six rows exactly when its first weekday plus its length exceeds 35 |
| MonthGrid.FourRowMonth | src/Calendar.tsx:397-406 | a month has four rows exactly when it has 28 days and starts on a Sunday |
| MonthGrid.SixRowMonth | src/Calendar.tsx:397-406 | a month has six rows exactly when its first weekday plus its length exceeds 35 |
| CivilCalendar.CivilFromDays | src/Calendar.tsx:397-399 | the calendar date of a day number is valid and maps back to that day number |
| CivilCalendar.CivilRoundTrip | src/Calendar.tsx:397-399 | a valid calendar date maps to a day number and back to itself |
| CivilCalendar.DaysFromCivilInjective | src/Calendar.tsx:397-399 | two valid dates have the same day number exactly when they are equal |
| CivilCalendar.NextMonthFollows | src/Calendar.tsx:397-399 | the first of the next month is the day after the last of this month |
| Events.StartOfDay | src/Calendar.tsx:196-197 | startOfDay is midnight of the same day, and an Invalid Date stays invalid |
| Events.StartsOnIff | src/Calendar.tsx:194-199 | the filter's test holds exactly when the event's start is valid and falls on the cell's day |
| Events.StartsOnOneDay | src/Calendar.tsx:194-199 | an event passes the filter of at most one day |
| Events.EventsOn | src/Calendar.tsx:194-199 | the filter keeps no more events than it is given, and each one kept starts on the day |
| Events.EventsOnCount | src/Calendar.tsx:194-199 | the filter keeps every copy of each event that starts on the day and drops every other event |
| Events.EventsOnMember | src/Calendar.tsx:194-199 | an event is in the cell exactly when it is in the input and starts on the day |
| Events.EventsOnAppend | src/Calendar.tsx:194-199 | the filter keeps the input order: filtering a + b is filtering a, then filtering b |
| Events.EventsOnAll | src/Calendar.tsx:194-199 | events that all start on the day pass the filter unchanged |
| Events.CellsDisjoint | src/Calendar.tsx:193-199 | cells of two different days share no event |
| Events.CellRow | src/Calendar.tsx:193-205 | one cell per date of the row; an event is in a date's cell exactly when it is one of the events and starts on that date |
| Events.EventInOneCell | src/Calendar.tsx:193-205 | an event whose day lies in the grid's range is in exactly one cell, at its day's row and column |
| Events.EventOutsideNoCell | src/Calendar.tsx:193-205 | an event with an invalid start, or a day outside the grid's range, is in no cell |
| Events.Compare | src/Calendar.tsx:173-175 | the comparator answers only 1 or -1; for valid starts, -1 (a may stay before b) exactly when a starts no later than b, the order the sorted cell has; with an Invalid Date always -1 |
| Events.CompareTies | src/Calendar.tsx:173-175 | for equal starts each event is reported first (-1 both ways); for different valid starts it is antisymmetric |
| Events.SortByStart | src/Calendar.tsx:172-175 | the in-place sort permutes the array, and orders it by start when every start is valid |
| Events.InsertLeft | src/Calendar.tsx:172-175 | one pass of the sort extends the sorted prefix by one element and keeps a permutation |
| Events.SinkStep | src/Calendar.tsx:172-175 | swapping an element left past an element that starts later keeps the prefix ordered except at the element being moved |
| Events.SinkDone | src/Calendar.tsx:172-175 | once the left neighbour no longer starts later, the prefix is sorted |
| Events.CellEvents | src/Calendar.tsx:172-199 | a cell shows a permutation of the filtered events, sorted by start, each starting on the day and drawn from the input |
| JsDate.MakeDayInYear | src/Calendar.tsx:343 | for a month index 0 to 11, MakeDay is the day number of that calendar date |
| JsDate.MakeDayOfValidDate | src/Calendar.tsx:343 | a valid date's year, month - 1 and day give back its day number, with no rollover |
| JsDate.MakeDayMonthRollover | src/Calendar.tsx:251 | month index m + 12 of a year is month index m of the next year |
| JsDate.MakeDayDateRollover | src/Calendar.tsx:343 | the day after a month's last day is the first of the next month index |
| JsDate.DateUtc | src/Calendar.tsx:251 | Date.UTC at midnight is the constructor's instant in the fixed zone |
| JsDate.AddMinutesInverse | src/Calendar.tsx:349-352 | addMinutes by an amount and then by its negation gives back the Date (clipped to the Date range) |
| JsDate.DayOfMakeDate | src/Calendar.tsx:196-197 | a time of day within the day stays on that day |
| FormText.Split | src/Calendar.tsx:341-342 | split yields at least one piece, no piece holds the separator, and joining the pieces gives back the text |
| FormText.SplitJoin | src/Calendar.tsx:341-342 | splitting pieces joined by the separator gives back the pieces |
| FormText.ToNumber | src/Calendar.tsx:341-342 | Number() is finite exactly for digit strings |
| FormText.ToNumberDecimal | src/Calendar.tsx:341-342 | Number() reads back a decimal numeral |
| FormText.ToNumberPadded | src/Calendar.tsx:341-342 | Number() reads back a zero-padded numeral such as "03" |
| FormText.SplitNumbersOfThree | src/Calendar.tsx:341 | "Y-M-D" splits into the numbers Y, M and D |
| FormText.SplitNumbersOfTwo | src/Calendar.tsx:342 | "H:M" splits into the numbers H and M, with no third piece |
| Recurrence.FrequencyCode | src/Calendar.tsx:268-272 | a frequency's numeric value is falsy exactly for YEARLY |
| Recurrence.FrequencyOfRate | src/Calendar.tsx:261-270 | the conditional chain gives a frequency exactly for DAILY, WEEKLY, MONTHLY and ANNUALLY |
| Recurrence.FrequencyOfRateName | src/Calendar.tsx:261-270 | each offered rate maps to its frequency, and only that rate maps to it |
| Recurrence.PatternAsWritten | src/Calendar.tsx:256-282 | as written, a pattern comes out only for DAILY, WEEKLY and MONTHLY |
| Recurrence.PatternOfRateName | src/Calendar.tsx:256-282 | the corrected pattern for each offered rate is the rule with that rate's frequency, interval 1, DTSTART = start and UNTIL = end |
| Recurrence.PatternRate | src/Calendar.tsx:274-279 | the rate can be read back from the rule's frequency |
| Recurrence.PatternAsWrittenAgrees | src/Calendar.tsx:261-272 | the as-written guard agrees with the intended one except on ANNUALLY, where it drops the YEARLY rule |
| EventForm.SentinelDay | src/Calendar.tsx:251 | Date.UTC(2999, 12, 31) rolls month index 12 over to 31 January 3000, day number 376230 |
| EventForm.NoEndSentinelIs3000January31 | src/Calendar.tsx:251 | the sentinel is midnight at the start of 31 January 3000 |
| EventForm.OneOffEnd | src/Calendar.tsx:244-254 | a non-recurring event ends duration minutes after a valid start; an invalid start gives an invalid end |
| EventForm.RecurringEnd | src/Calendar.tsx:244-254 | a recurring event ends at the given recurrence end if there is one, and at the sentinel otherwise |
| EventForm.RecurrenceEnd | src/Calendar.tsx:344-354 | there is no recurrence end exactly when the end-date field is empty |
| EventForm.Payload | src/Calendar.tsx:336-380 | the result is MissingDateOrTime exactly when the date or the time is empty; a sent event carries the fields, duration 30 and the recurring flag, and has a pattern exactly when it is recurring with the rate DAILY, WEEKLY or MONTHLY |
| EventForm.PayloadIntended | src/Calendar.tsx:364-370 | the corrected payload fails exactly when the handler's does; a sent event has a pattern exactly when it is recurring with one of the four offered rates |
| EventForm.PayloadIntendedAgrees | src/Calendar.tsx:364-370 | the handler as written sends the corrected payload, except that a recurring "ANNUALLY" event has no pattern where the YEARLY rule was intended |
| EventForm.DateFieldNumbers | src/Calendar.tsx:341 | a "YYYY-MM-DD" field reads back as its year, month and day |
| EventForm.TimeFieldNumbers | src/Calendar.tsx:342 | an "HH:MM" field reads back as its hours and minutes |
| EventForm.LocalDateOf | src/Calendar.tsx:343 | new Date(y, m - 1, d, h, mi) on a valid date is that day at that time, with years 0 to 99 read as 1900 to 1999 |
| EventForm.NewDateFields | src/Calendar.tsx:343 | the Date built from the fields is valid and reads back as its calendar date and its minute of the day |
| EventForm.ClipInRange | src/Calendar.tsx:343 | instants of the years 0 to 9999 lie within the Date range, so TimeClip keeps them |
| EventForm.FieldsStart | src/Calendar.tsx:341-343 | the handler's start for the fields of a date and a time is that date at that time |
| EventForm.FieldsRecurrenceEnd | src/Calendar.tsx:344-354 | the recurrence end for an end-date field is that day at the event's time plus 30 minutes |
| EventForm.SubmitOneOff | src/Calendar.tsx:336-380 | a one-off event is sent with its start, an end 30 minutes later, and no pattern |
| EventForm.SubmitRecurringNoEnd | src/Calendar.tsx:336-380 | a recurring event with no end date is sent with the sentinel as its end, and with the pattern generateRecurrencePattern gives as written for that start and end |
| EventForm.SubmitRecurringWithEnd | src/Calendar.tsx:336-380 | a recurring event with an end date is sent with that day at its time plus 30 minutes as its end, and with the as-written pattern for that start and end |
| EventForm.SubmitAnnuallyNoPattern | src/Calendar.tsx:364-370 | a recurring "ANNUALLY" event with valid fields is sent, marked recurring, with no pattern |
| EventForm.SubmitEndBeforeStart | src/Calendar.tsx:344-370 | nothing orders the two dates: an end date before the start is sent, with UNTIL before DTSTART |
| EventForm.AddEventForm.constructor | src/Calendar.tsx:227-233 | the form starts empty, not recurring, with the rate DAILY |
| EventForm.AddEventForm.ResetInputs | src/Calendar.tsx:235-242 | clears title, description, date and time, and resets the flag and the rate, but keeps the recurrence end date |
| EventForm.AddEventForm.Submit | src/Calendar.tsx:336-381 | the handler's outcome is Payload of the current fields; the inputs reset only after a delivered payload and are otherwise unchanged; the recurrence end date never changes |

## Left out

- The JSX rendering is left out, as are styling, the event popper, navigation and the view selector. They contain no computation.
- Network calls to the agent are left out: `runAction("setEvent", ...)`, and `getView("eventsForMonth", ...)` with its refetch on date change. In `Submit`, the parameter `delivered` stands for whether `runAction` resolved. The payload itself is the method's result.
- Console logging is left out.
- The React `onChange` setters are left out. The model sets the form fields directly.
- `src/EventEdit.tsx` is not part of this model. It fetches an event and renders a form whose submit only logs.
- The time zone is fixed. Local time and UTC are the same, so `toISOString` and `new Date(isoText)` round-trip instants without loss. The ISO text itself is not modelled, and `startDateUtc`/`endDateUtc` of a stored event are held as the `Date` parsed from that text.
- `RRule.toString()` is not modelled: the pattern is the rule record. Likewise a stored event's `recurrencePattern` is the rule it describes, not its text.
- Instants are whole minutes; seconds and milliseconds are left out.
- FormText.ToNumber: models `Number()` only on the texts the form's inputs produce. Digit strings (with "" read as 0) are modelled; signs, decimals, white space, exponents and hexadecimal read as NaN here.
- EventForm.SubmitOneOff: stated for years 100 to 9999 only. For two-digit years the constructor reads years 0 to 99 as 1900 to 1999, and `LocalDateOf` covers that case.
- EventForm.SubmitRecurringNoEnd: stated for years 100 to 9999 only, as for `SubmitOneOff`.
- EventForm.SubmitRecurringWithEnd: stated for years 100 to 9999 only, as for `SubmitOneOff`.
- Events.SortByStart: the model uses insertion sort with the source's comparator. The comparator answers -1 for two equal starts in either order, so it is not a consistent comparator in the ECMAScript sense, and the language leaves the resulting order implementation-defined. The model assumes that the engine's sort still orders the cell by start, as insertion and merge sorts do with this comparator. The relative order of equal starts, and the order produced when a start is an Invalid Date, are not claimed.

## Findings

| source | as written | input that shows it | evidently intended | confidence | as-written member | corrected member |
|---|---|---|---|---|---|---|
| src/Calendar.tsx:272 | `if (!freq) return;` treats every falsy frequency as missing, and rrule's `RRule.YEARLY` is 0 | rate "ANNUALLY" (offered by the form's select) with isRecurring set: the event is sent with no pattern | return no pattern only when the rate is unknown; "ANNUALLY" gives a YEARLY rule | not executed | EventForm.PayloadIntendedAgrees | EventForm.PayloadIntended |
