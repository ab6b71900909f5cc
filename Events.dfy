/**
 * Placing the month's events in the cells of the month view: each cell keeps
 * the events that start on its day (the filter of the cell row), and sorts
 * them by start instant (the sort of the cell).
 */
module Events {
  import opened JsDate
  import opened MonthGrid
  import opened Recurrence

  /**
   * A stored event. startDateUtc and endDateUtc hold the Date that
   * new Date(...) makes of the stored ISO text; recurrencePattern holds the
   * rule the text describes, if any.
   */
  datatype CalendarEvent = CalendarEvent(
    id: string,
    title: string,
    description: string,
    startDateUtc: Date,
    endDateUtc: Date,
    duration: int,
    isRecurring: bool,
    recurrencePattern: Option<RecurrenceRule>)

  /** date-fns startOfDay: midnight of the day; the Invalid Date stays invalid. */
  function StartOfDay(d: Date): (r: Date)
    ensures r.ValidDate? <==> d.ValidDate?
    ensures r.ValidDate? ==> r.time <= d.time < r.time + 1440 && r.time % 1440 == 0
  {
    match d
    case InvalidDate => InvalidDate
    case ValidDate(t) => ValidDate(MakeDate(DayOf(t), 0))
  }

  /** date-fns isEqual: equal time values; NaN equals nothing, so an Invalid Date is equal to no date. */
  predicate IsEqual(a: Date, b: Date) {
    a.ValidDate? && b.ValidDate? && a.time == b.time
  }

  /** date-fns isAfter: a strictly later time value; false when either date is invalid. */
  predicate IsAfter(a: Date, b: Date) {
    a.ValidDate? && b.ValidDate? && a.time > b.time
  }

  /** The filter's test for the cell of day `day`, whose Date is that day's midnight. */
  predicate StartsOn(e: CalendarEvent, day: int) {
    IsEqual(StartOfDay(e.startDateUtc), StartOfDay(ValidDate(MakeDate(day, 0))))
  }

  /** An event starts on a cell's day exactly when its start is a valid instant on that day. */
  lemma StartsOnIff(e: CalendarEvent, day: int)
    ensures StartsOn(e, day) <==> e.startDateUtc.ValidDate? && DayOf(e.startDateUtc.time) == day
  {
    DayOfMakeDate(day, 0);
    if e.startDateUtc.ValidDate? {
      var t := e.startDateUtc.time;
      if MakeDate(DayOf(t), 0) == MakeDate(day, 0) {
        assert DayOf(t) == day;
      }
    }
  }

  /** An event starts on at most one day. */
  lemma StartsOnOneDay(e: CalendarEvent, d1: int, d2: int)
    requires StartsOn(e, d1) && StartsOn(e, d2)
    ensures d1 == d2
  {
    StartsOnIff(e, d1);
    StartsOnIff(e, d2);
  }

  /**
   * events.filter(...) for the cell of day `day`: the events that start on
   * that day, in input order.
   */
  function EventsOn(events: seq<CalendarEvent>, day: int): (cell: seq<CalendarEvent>)
    ensures |cell| <= |events|
    ensures forall i :: 0 <= i < |cell| ==> StartsOn(cell[i], day)
  {
    if events == [] then []
    else
      var rest := EventsOn(events[1..], day);
      if StartsOn(events[0], day) then [events[0]] + rest else rest
  }

  /** The filter keeps each event that starts on the day as often as the input has it, and drops every other. */
  lemma {:induction false} EventsOnCount(events: seq<CalendarEvent>, day: int, e: CalendarEvent)
    ensures multiset(EventsOn(events, day))[e] == if StartsOn(e, day) then multiset(events)[e] else 0
  {
    if events != [] {
      EventsOnCount(events[1..], day, e);
      assert events == [events[0]] + events[1..];
    }
  }

  /** An event is in a cell exactly when it is one of the events and starts on the cell's day. */
  lemma EventsOnMember(events: seq<CalendarEvent>, day: int, e: CalendarEvent)
    ensures e in EventsOn(events, day) <==> e in events && StartsOn(e, day)
  {
    EventsOnCount(events, day, e);
    assert e in EventsOn(events, day) <==> multiset(EventsOn(events, day))[e] > 0;
    assert e in events <==> multiset(events)[e] > 0;
  }

  /** The filter keeps order: filtering a concatenation concatenates the filtered parts. */
  lemma {:induction false} EventsOnAppend(a: seq<CalendarEvent>, b: seq<CalendarEvent>, day: int)
    ensures EventsOn(a + b, day) == EventsOn(a, day) + EventsOn(b, day)
  {
    if a != [] {
      EventsOnAppend(a[1..], b, day);
      assert (a + b)[0] == a[0];
      assert (a + b)[1..] == a[1..] + b;
    } else {
      assert a + b == b;
    }
  }

  /** A list of events that all start on the day passes the filter unchanged. */
  lemma {:induction false} EventsOnAll(events: seq<CalendarEvent>, day: int)
    requires forall i :: 0 <= i < |events| ==> StartsOn(events[i], day)
    ensures EventsOn(events, day) == events
  {
    if events != [] {
      EventsOnAll(events[1..], day);
    }
  }

  /** Cells of different days share no event, so within a row of distinct days an event lands in at most one cell. */
  lemma CellsDisjoint(events: seq<CalendarEvent>, d1: int, d2: int, e: CalendarEvent)
    requires d1 != d2
    ensures !(e in EventsOn(events, d1) && e in EventsOn(events, d2))
  {
    EventsOnMember(events, d1, e);
    EventsOnMember(events, d2, e);
    if StartsOn(e, d1) && StartsOn(e, d2) {
      StartsOnOneDay(e, d1, d2);
    }
  }

  /** For every date of a row, an event is in the date's cell exactly when it is one of the events and starts on that date. */
  lemma EventsOnMembers(dates: seq<int>, events: seq<CalendarEvent>)
    ensures forall i, e :: 0 <= i < |dates| ==> (e in EventsOn(events, dates[i]) <==> e in events && StartsOn(e, dates[i]))
  {
    forall i, e | 0 <= i < |dates|
      ensures e in EventsOn(events, dates[i]) <==> e in events && StartsOn(e, dates[i])
    {
      EventsOnMember(events, dates[i], e);
    }
  }

  /** The cells of one row: dates.map(date => events.filter(...)). */
  function CellRow(dates: seq<int>, events: seq<CalendarEvent>): (cells: seq<seq<CalendarEvent>>)
    ensures |cells| == |dates|
    ensures forall i :: 0 <= i < |dates| ==> cells[i] == EventsOn(events, dates[i])
    ensures forall i, e :: 0 <= i < |cells| ==> (e in cells[i] <==> e in events && StartsOn(e, dates[i]))
  {
    EventsOnMembers(dates, events);
    seq(|dates|, i requires 0 <= i < |dates| => EventsOn(events, dates[i]))
  }

  /**
   * In a matrix of whole weeks, an event whose start day lies in the
   * matrix's range is in exactly one cell: the one at its day's row and column.
   */
  lemma EventInOneCell(m: seq<seq<int>>, gs: int, events: seq<CalendarEvent>, e: CalendarEvent)
    requires WeeksFrom(m, gs)
    requires e in events && e.startDateUtc.ValidDate?
    requires gs <= DayOf(e.startDateUtc.time) < gs + 7 * |m|
    ensures var d := DayOf(e.startDateUtc.time);
            var r, k := (d - gs) / 7, (d - gs) % 7;
            0 <= r < |m| && 0 <= k < |m[r]| &&
            forall r', k' :: 0 <= r' < |m| && 0 <= k' < |m[r']| ==>
              (e in CellRow(m[r'], events)[k'] <==> r' == r && k' == k)
  {
    var d := DayOf(e.startDateUtc.time);
    var r, k := (d - gs) / 7, (d - gs) % 7;
    forall r', k' | 0 <= r' < |m| && 0 <= k' < |m[r']|
      ensures e in CellRow(m[r'], events)[k'] <==> r' == r && k' == k
    {
      EventsOnMember(events, m[r'][k'], e);
      StartsOnIff(e, m[r'][k']);
      assert m[r'][k'] == gs + 7 * r' + k';
    }
  }

  /** An event with an invalid start, or whose start day lies outside the matrix's range, is in no cell. */
  lemma EventOutsideNoCell(m: seq<seq<int>>, gs: int, events: seq<CalendarEvent>, e: CalendarEvent)
    requires WeeksFrom(m, gs)
    requires e.startDateUtc.InvalidDate? || !(gs <= DayOf(e.startDateUtc.time) < gs + 7 * |m|)
    ensures forall r, k :: 0 <= r < |m| && 0 <= k < |m[r]| ==> e !in CellRow(m[r], events)[k]
  {
    forall r, k | 0 <= r < |m| && 0 <= k < |m[r]|
      ensures e !in CellRow(m[r], events)[k]
    {
      EventsOnMember(events, m[r][k], e);
      StartsOnIff(e, m[r][k]);
      assert m[r][k] == gs + 7 * r + k;
    }
  }

  /**
   * The comparator of the cell's sort: 1 when a starts after b, otherwise -1.
   * For valid starts, -1 (a may stay before b) means exactly that a does not
   * start later than b, which is the order SortedByStart asks for; with an
   * Invalid Date it always answers -1.
   */
  function Compare(a: CalendarEvent, b: CalendarEvent): (c: int)
    ensures c == 1 || c == -1
    ensures c == 1 <==> IsAfter(a.startDateUtc, b.startDateUtc)
    ensures a.startDateUtc.ValidDate? && b.startDateUtc.ValidDate? ==> (c == -1 <==> StartTime(a) <= StartTime(b))
    ensures a.startDateUtc.InvalidDate? || b.startDateUtc.InvalidDate? ==> c == -1
  {
    if IsAfter(a.startDateUtc, b.startDateUtc) then 1 else -1
  }

  /**
   * The comparator never answers 0: for two events with the same start each
   * is reported to come first, so the order of such events is left to the
   * sort algorithm. For valid, different starts it is antisymmetric.
   */
  lemma CompareTies(a: CalendarEvent, b: CalendarEvent)
    requires a.startDateUtc.ValidDate? && b.startDateUtc.ValidDate?
    ensures a.startDateUtc.time == b.startDateUtc.time ==> Compare(a, b) == -1 && Compare(b, a) == -1
    ensures a.startDateUtc.time != b.startDateUtc.time ==> Compare(a, b) == -Compare(b, a)
  {
  }

  /** The start instant of an event (read only where the start is valid). */
  function StartTime(e: CalendarEvent): int {
    if e.startDateUtc.ValidDate? then e.startDateUtc.time else 0
  }

  predicate AllStartsValid(s: seq<CalendarEvent>) {
    forall i :: 0 <= i < |s| ==> s[i].startDateUtc.ValidDate?
  }

  /** Non-decreasing by start instant. */
  predicate SortedByStart(s: seq<CalendarEvent>) {
    forall i, j :: 0 <= i < j < |s| ==> StartTime(s[i]) <= StartTime(s[j])
  }

  /** The first n events are non-decreasing by start instant. */
  predicate SortedPrefix(s: seq<CalendarEvent>, n: int) {
    forall i, j :: 0 <= i < j < n && j < |s| ==> StartTime(s[i]) <= StartTime(s[j])
  }

  /**
   * events.sort(comparator) on the cell's array, by insertion: each element
   * in turn moves left into the sorted prefix. The array ends up a
   * permutation of its contents, and sorted by start when every start is
   * valid (with an Invalid Date the comparator orders nothing).
   */
  method SortByStart(a: array<CalendarEvent>)
    modifies a
    ensures multiset(a[..]) == multiset(old(a[..]))
    ensures AllStartsValid(old(a[..])) ==> SortedByStart(a[..])
  {
    ghost var valid := AllStartsValid(a[..]);
    var i := 0;
    while i < a.Length
      invariant 0 <= i <= a.Length
      invariant multiset(a[..]) == multiset(old(a[..]))
      invariant valid ==> AllStartsValid(a[..]) && SortedPrefix(a[..], i)
    {
      InsertLeft(a, i);
      i := i + 1;
    }
  }

  /**
   * One step of the sort: a[i] moves left while the comparator says its left
   * neighbour comes after it, so a sorted prefix of i events becomes one of
   * i + 1.
   */
  method InsertLeft(a: array<CalendarEvent>, i: int)
    requires 0 <= i < a.Length
    modifies a
    ensures multiset(a[..]) == multiset(old(a[..]))
    ensures AllStartsValid(old(a[..])) && SortedPrefix(old(a[..]), i) ==>
              AllStartsValid(a[..]) && SortedPrefix(a[..], i + 1)
  {
    ghost var valid := AllStartsValid(a[..]) && SortedPrefix(a[..], i);
    var j := i;
    while j > 0 && Compare(a[j - 1], a[j]) == 1
      invariant 0 <= j <= i
      invariant multiset(a[..]) == multiset(old(a[..]))
      invariant valid ==> AllStartsValid(a[..]) && Sinking(a[..], i, j)
    {
      ghost var s := a[..];
      if valid {
        SinkStep(s, i, j);
      }
      a[j - 1], a[j] := a[j], a[j - 1];
      assert a[..] == s[j - 1 := s[j]][j := s[j - 1]];
      j := j - 1;
    }
    if valid {
      SinkDone(a[..], i, j);
    }
  }

  /** The first i + 1 events are in order, except that the one at j may still have to move left. */
  predicate Sinking(s: seq<CalendarEvent>, i: int, j: int) {
    forall p, q :: 0 <= p < q <= i && q != j && q < |s| ==> StartTime(s[p]) <= StartTime(s[q])
  }

  /** Swapping the moving event with a later-starting left neighbour keeps the rest in order. */
  lemma SinkStep(s: seq<CalendarEvent>, i: int, j: int)
    requires 0 < j <= i < |s|
    requires AllStartsValid(s) && Sinking(s, i, j)
    requires Compare(s[j - 1], s[j]) == 1
    ensures var t := s[j - 1 := s[j]][j := s[j - 1]];
            AllStartsValid(t) && Sinking(t, i, j - 1)
  {
    var t := s[j - 1 := s[j]][j := s[j - 1]];
    assert StartTime(s[j - 1]) > StartTime(s[j]);
    forall p, q | 0 <= p < q <= i && q != j - 1
      ensures StartTime(t[p]) <= StartTime(t[q])
    {
      if q == j {
        if p < j - 1 {
          assert StartTime(s[p]) <= StartTime(s[j - 1]);
        }
      } else if p == j - 1 {
        assert StartTime(s[j - 1]) <= StartTime(s[q]);
      } else if p == j {
        assert StartTime(s[j - 1]) <= StartTime(s[q]);
      }
    }
  }

  /** Once the moving event's left neighbour no longer starts after it, the first i + 1 events are in order. */
  lemma SinkDone(s: seq<CalendarEvent>, i: int, j: int)
    requires 0 <= j <= i < |s|
    requires AllStartsValid(s) && Sinking(s, i, j)
    requires j == 0 || Compare(s[j - 1], s[j]) != 1
    ensures SortedPrefix(s, i + 1)
  {
    forall p, q | 0 <= p < q < i + 1 && q < |s|
      ensures StartTime(s[p]) <= StartTime(s[q])
    {
      if q == j && p < j - 1 {
        assert StartTime(s[p]) <= StartTime(s[j - 1]);
      }
    }
  }

  /**
   * The events a cell shows for day `day`: the filtered events, sorted by
   * start. The input list itself is not changed.
   */
  method CellEvents(events: seq<CalendarEvent>, day: int) returns (cell: seq<CalendarEvent>)
    ensures multiset(cell) == multiset(EventsOn(events, day))
    ensures SortedByStart(cell)
    ensures forall i :: 0 <= i < |cell| ==> StartsOn(cell[i], day) && cell[i] in events
  {
    var filtered := EventsOn(events, day);
    var a := new CalendarEvent[|filtered|](i requires 0 <= i < |filtered| => filtered[i]);
    assert a[..] == filtered;
    assert AllStartsValid(filtered) by {
      forall i | 0 <= i < |filtered|
        ensures filtered[i].startDateUtc.ValidDate?
      {
        assert filtered[i] in multiset(filtered);
        StartsOnIff(filtered[i], day);
      }
    }
    SortByStart(a);
    cell := a[..];
    forall i | 0 <= i < |cell|
      ensures StartsOn(cell[i], day) && cell[i] in events
    {
      assert cell[i] in multiset(cell);
      EventsOnMember(events, day, cell[i]);
    }
  }
}
