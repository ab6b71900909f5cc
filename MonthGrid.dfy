/**
 * The month view's date matrix: the weeks, Sunday to Saturday, that cover the
 * reference month, listed day by day and then cut into rows of seven. Days are
 * day numbers (day 0 is 1970-01-01, a Thursday); a day's Date is its midnight.
 */
module MonthGrid {
  import opened CivilCalendar
  import opened JsDate

  /** getDay: 0 is Sunday, 6 is Saturday. */
  function Weekday(day: int): (w: int)
    ensures 0 <= w < 7
  {
    (day + 4) % 7
  }

  lemma WeekdayShift(day: int, k: int)
    requires 0 <= k
    ensures Weekday(day + k) == (Weekday(day) + k) % 7
  {
  }

  /** startOfWeek with weeks starting on Sunday: the Sunday on or before day. */
  function StartOfWeek(day: int): (r: int)
    ensures Weekday(r) == 0 && r <= day < r + 7
  {
    day - Weekday(day)
  }

  /** endOfWeek: the Saturday on or after day. */
  function EndOfWeek(day: int): (r: int)
    ensures Weekday(r) == 6 && day <= r < day + 7
  {
    StartOfWeek(day) + 6
  }

  /** Whether day falls in the same calendar month (and year) as ref. */
  predicate InMonth(day: int, ref: int) {
    var c, d := CivilFromDays(day), CivilFromDays(ref);
    c.year == d.year && c.month == d.month
  }

  /** startOfMonth: the first day of the month day falls in. */
  function StartOfMonth(day: int): (r: int)
    ensures r <= day
    ensures CivilFromDays(r) == Civil(CivilFromDays(day).year, CivilFromDays(day).month, 1)
  {
    var c := CivilFromDays(day);
    var first := Civil(c.year, c.month, 1);
    CivilRoundTrip(first);
    DaysFromCivil(first)
  }

  /** endOfMonth: the last day of the month day falls in. */
  function EndOfMonth(day: int): (r: int)
    ensures day <= r
    ensures var c := CivilFromDays(day);
            CivilFromDays(r) == Civil(c.year, c.month, DaysInMonth(c.year, c.month))
  {
    var c := CivilFromDays(day);
    var last := Civil(c.year, c.month, DaysInMonth(c.year, c.month));
    CivilRoundTrip(last);
    DayOffset(c);
    DayOffset(last);
    DaysFromCivil(last)
  }

  /** The month runs from its first to its last day. */
  lemma MonthLength(day: int)
    ensures var c := CivilFromDays(day);
            EndOfMonth(day) - StartOfMonth(day) + 1 == DaysInMonth(c.year, c.month)
  {
    var c := CivilFromDays(day);
    DayOffset(Civil(c.year, c.month, DaysInMonth(c.year, c.month)));
  }

  /** A day is in ref's month exactly when it lies between that month's first and last day. */
  lemma InMonthIff(day: int, ref: int)
    ensures InMonth(day, ref) <==> StartOfMonth(ref) <= day <= EndOfMonth(ref)
  {
    if InMonth(day, ref) {
      InMonthBetween(day, ref);
    }
    if StartOfMonth(ref) <= day <= EndOfMonth(ref) {
      BetweenInMonth(day, ref);
    }
  }

  lemma InMonthBetween(day: int, ref: int)
    requires InMonth(day, ref)
    ensures StartOfMonth(ref) <= day <= EndOfMonth(ref)
  {
    var c, cd := CivilFromDays(ref), CivilFromDays(day);
    MonthLength(ref);
    DayOffset(cd);
    assert day == StartOfMonth(ref) + cd.day - 1;
  }

  lemma BetweenInMonth(day: int, ref: int)
    requires StartOfMonth(ref) <= day <= EndOfMonth(ref)
    ensures InMonth(day, ref)
  {
    var c := CivilFromDays(ref);
    var s := StartOfMonth(ref);
    MonthLength(ref);
    var cd := Civil(c.year, c.month, day - s + 1);
    assert ValidCivil(cd);
    DayOffset(cd);
    assert DaysFromCivil(cd) == day;
    CivilRoundTrip(cd);
  }

  /** First day of the grid: the Sunday on or before the first of the month. */
  function GridStart(ref: int): int {
    StartOfWeek(StartOfMonth(ref))
  }

  /** Last day of the grid: the Saturday on or after the last of the month. */
  function GridEnd(ref: int): int {
    EndOfWeek(EndOfMonth(ref))
  }

  /** A list that counts up from first by one, with one entry per day up to last, holds exactly those days. */
  lemma ConsecutiveDays(first: int, last: int, days: seq<int>)
    requires |days| == last - first + 1
    requires forall i :: 0 <= i < |days| ==> days[i] == first + i
    ensures forall d :: d in days <==> first <= d <= last
  {
    forall d | first <= d <= last
      ensures d in days
    {
      assert days[d - first] == d;
    }
  }

  /** eachDayOfInterval: every day from first to last, in order. */
  function EachDayOfInterval(first: int, last: int): (days: seq<int>)
    requires first <= last
    ensures |days| == last - first + 1
    ensures forall i :: 0 <= i < |days| ==> days[i] == first + i
    ensures forall d :: d in days <==> first <= d <= last
    ensures forall i, j :: 0 <= i < j < |days| ==> days[i] < days[j]
  {
    var days := seq(last - first + 1, i => first + i);
    ConsecutiveDays(first, last, days);
    days
  }

  function Min(a: int, b: int): int {
    if a <= b then a else b
  }

  /** The rows the grid reduce builds: row r holds the items at indices 7r up to 7r + 6. */
  function Rows7<T>(items: seq<T>): (rows: seq<seq<T>>)
    ensures |rows| == (|items| + 6) / 7
  {
    seq((|items| + 6) / 7, r requires 0 <= r < (|items| + 6) / 7 => items[7 * r .. Min(7 * r + 7, |items|)])
  }

  /** The rows laid end to end. */
  function Concat<T>(rows: seq<seq<T>>): seq<T> {
    if rows == [] then [] else Concat(rows[..|rows| - 1]) + rows[|rows| - 1]
  }

  /** The date matrix of the month view for reference day ref. */
  function DateMatrix(ref: int): seq<seq<int>> {
    WeekMatrix(StartOfMonth(ref), EndOfMonth(ref))
  }

  /** weeks holds the first i items cut into rows of seven, the last row possibly short. */
  ghost predicate ChunkedUpTo<T>(weeks: seq<seq<T>>, items: seq<T>, i: int)
    requires 0 <= i <= |items|
  {
    |weeks| == (i + 6) / 7 &&
    forall r :: 0 <= r < |weeks| ==> weeks[r] == items[7 * r .. Min(7 * r + 7, i)]
  }

  /** An item at a multiple of seven opens a new row. */
  lemma OpenRow<T>(weeks: seq<seq<T>>, items: seq<T>, i: int)
    requires 0 <= i < |items| && i % 7 == 0
    requires ChunkedUpTo(weeks, items, i)
    ensures ChunkedUpTo(weeks + [[items[i]]], items, i + 1)
  {
    var w := weeks + [[items[i]]];
    forall r | 0 <= r < |w|
      ensures w[r] == items[7 * r .. Min(7 * r + 7, i + 1)]
    {
      if r == |weeks| {
        assert 7 * r == i;
      }
    }
  }

  /** Any other item is pushed onto the last row. */
  lemma ExtendRow<T>(weeks: seq<seq<T>>, items: seq<T>, i: int)
    requires 0 <= i < |items| && i % 7 != 0
    requires ChunkedUpTo(weeks, items, i)
    ensures |weeks| >= 1
    ensures ChunkedUpTo(weeks[..|weeks| - 1] + [weeks[|weeks| - 1] + [items[i]]], items, i + 1)
  {
    var n := |weeks|;
    var w := weeks[..n - 1] + [weeks[n - 1] + [items[i]]];
    assert 7 * (n - 1) < i < 7 * n;
    forall r | 0 <= r < |w|
      ensures w[r] == items[7 * r .. Min(7 * r + 7, i + 1)]
    {
      if r == n - 1 {
        assert weeks[r] == items[7 * r .. i];
        assert Min(7 * r + 7, i + 1) == i + 1;
        assert items[7 * r .. i + 1] == items[7 * r .. i] + [items[i]];
      } else {
        assert w[r] == weeks[r];
        assert Min(7 * r + 7, i + 1) == 7 * r + 7 == Min(7 * r + 7, i);
      }
    }
  }

  /** Once every item is placed, the rows are those of Rows7. */
  lemma ChunkedAll<T>(weeks: seq<seq<T>>, items: seq<T>)
    requires ChunkedUpTo(weeks, items, |items|)
    ensures weeks == Rows7(items)
  {
  }

  /**
   * The `reduce` of the month view: an item whose index is a multiple of 7
   * opens a new row, any other item is pushed onto the last row.
   */
  method ChunkWeeks<T>(items: seq<T>) returns (weeks: seq<seq<T>>)
    ensures weeks == Rows7(items)
    ensures Concat(weeks) == items
  {
    weeks := [];
    var i := 0;
    while i < |items|
      invariant 0 <= i <= |items|
      invariant ChunkedUpTo(weeks, items, i)
    {
      if i % 7 == 0 {
        OpenRow(weeks, items, i);
        weeks := weeks + [[items[i]]];
      } else {
        ExtendRow(weeks, items, i);
        weeks := weeks[..|weeks| - 1] + [weeks[|weeks| - 1] + [items[i]]];
      }
      i := i + 1;
    }
    ChunkedAll(weeks, items);
    ConcatRows7(items);
  }

  /** Dropping the last row of Rows7 gives the rows of the items before it. */
  lemma Rows7Front<T>(items: seq<T>)
    requires |items| > 0
    ensures var n := (|items| + 6) / 7;
            Rows7(items)[..n - 1] == Rows7(items[..7 * (n - 1)]) &&
            Rows7(items)[n - 1] == items[7 * (n - 1)..]
  {
    var n := (|items| + 6) / 7;
    var front := items[..7 * (n - 1)];
    var rows := Rows7(items);
    assert (|front| + 6) / 7 == n - 1;
    forall r | 0 <= r < n - 1
      ensures rows[r] == Rows7(front)[r]
    {
      assert rows[r] == items[7 * r .. 7 * r + 7];
      assert Rows7(front)[r] == front[7 * r .. 7 * r + 7];
    }
  }

  /** Laying the rows of Rows7 end to end gives back the items, in order. */
  lemma {:induction false} ConcatRows7<T>(items: seq<T>)
    ensures Concat(Rows7(items)) == items
    decreases |items|
  {
    if |items| > 0 {
      var n := (|items| + 6) / 7;
      var front := items[..7 * (n - 1)];
      ConcatRows7(front);
      Rows7Front(items);
      assert items == front + items[7 * (n - 1)..];
    }
  }

  /** Builds the date matrix of the month view for the reference instant date. */
  method BuildDateMatrix(date: int) returns (matrix: seq<seq<int>>)
    ensures matrix == DateMatrix(DayOf(date))
  {
    var ref := DayOf(date);
    var monthStart := StartOfMonth(ref);
    var start := StartOfWeek(monthStart);
    var monthEnd := EndOfMonth(ref);
    var end := EndOfWeek(monthEnd);
    var dates := EachDayOfInterval(start, end);
    matrix := ChunkWeeks(dates);
  }

  /** A month has 28 to 31 days. */
  lemma MonthSpan(ref: int)
    ensures 28 <= EndOfMonth(ref) - StartOfMonth(ref) + 1 <= 31
  {
    MonthLength(ref);
  }

  /**
   * The days from the Sunday on or before first through the Saturday on or
   * after last, for a span of 28 to 31 days, cut into rows of seven.
   */
  function WeekMatrix(first: int, last: int): seq<seq<int>>
    requires first <= last
  {
    Rows7(EachDayOfInterval(StartOfWeek(first), EndOfWeek(last)))
  }

  /** Widening a span of 28 to 31 days to whole weeks gives 4 to 6 weeks. */
  lemma WholeWeeks(first: int, last: int)
    requires 28 <= last - first + 1 <= 31
    ensures var n := EndOfWeek(last) - StartOfWeek(first) + 1;
            n % 7 == 0 && 28 <= n <= 42
  {
    var gs, ge := StartOfWeek(first), EndOfWeek(last);
    assert (gs + 4) % 7 == 0 && (ge + 4) % 7 == 6;
  }

  /**
   * m is a run of whole weeks from the Sunday gs: every row has seven days,
   * starts on a Sunday, and numbers the days in row-major order.
   */
  predicate WeeksFrom(m: seq<seq<int>>, gs: int) {
    forall r :: 0 <= r < |m| ==>
      |m[r]| == 7 && Weekday(m[r][0]) == 0 &&
      forall k :: 0 <= k < 7 ==> m[r][k] == gs + 7 * r + k
  }

  /** day sits in m at row (day - gs) / 7 and column (day - gs) % 7, and nowhere else. */
  predicate PlacedOnce(m: seq<seq<int>>, gs: int, day: int) {
    var r, k := (day - gs) / 7, (day - gs) % 7;
    0 <= r < |m| && |m[r]| == 7 && m[r][k] == day &&
    forall r', k' :: 0 <= r' < |m| && 0 <= k' < |m[r']| && m[r'][k'] == day ==> r' == r && k' == k
  }

  /** The rows of WeekMatrix are whole weeks, 4 to 6 of them, from the Sunday on or before first. */
  lemma WeekRows(first: int, last: int)
    requires 28 <= last - first + 1 <= 31
    ensures var m := WeekMatrix(first, last);
            4 <= |m| <= 6 && 7 * |m| == EndOfWeek(last) - StartOfWeek(first) + 1 &&
            WeeksFrom(m, StartOfWeek(first))
  {
    WholeWeeks(first, last);
    var gs := StartOfWeek(first);
    var days := EachDayOfInterval(gs, EndOfWeek(last));
    var m := Rows7(days);
    assert |m| == |days| / 7;
    forall r | 0 <= r < |m|
      ensures |m[r]| == 7 && Weekday(m[r][0]) == 0
      ensures forall k :: 0 <= k < 7 ==> m[r][k] == gs + 7 * r + k
    {
      assert m[r] == days[7 * r .. 7 * r + 7];
      WeekdayShift(gs, 7 * r);
    }
  }

  /**
   * WeekMatrix starts on the Sunday on or before first and ends on the
   * Saturday on or after last.
   */
  lemma WeekEnds(first: int, last: int)
    requires 28 <= last - first + 1 <= 31
    ensures |WeekMatrix(first, last)| >= 1
    ensures var m := WeekMatrix(first, last);
            |m[0]| == 7 && |m[|m| - 1]| == 7 &&
            m[0][0] == StartOfWeek(first) && Weekday(m[0][0]) == 0 &&
            m[0][0] <= first < m[0][0] + 7 &&
            m[|m| - 1][6] == EndOfWeek(last) && Weekday(m[|m| - 1][6]) == 6 &&
            m[|m| - 1][6] - 7 < last <= m[|m| - 1][6]
  {
    WeekRows(first, last);
  }

  /** Each day from first to last sits in WeekMatrix at exactly one row and column. */
  lemma WeekMatrixPlacesOnce(first: int, last: int, day: int)
    requires 28 <= last - first + 1 <= 31
    requires first <= day <= last
    ensures PlacedOnce(WeekMatrix(first, last), StartOfWeek(first), day)
  {
    WeekRows(first, last);
  }

  /**
   * Every row of the date matrix is a week: seven consecutive days from a
   * Sunday. There are 4 to 6 rows, and each day is the grid's first day plus
   * its position in row-major order.
   */
  lemma GridShape(ref: int)
    ensures var m := DateMatrix(ref);
            4 <= |m| <= 6 && 7 * |m| == GridEnd(ref) - GridStart(ref) + 1 &&
            WeeksFrom(m, GridStart(ref))
  {
    var first, last := StartOfMonth(ref), EndOfMonth(ref);
    assert 28 <= last - first + 1 <= 31 by { MonthSpan(ref); }
    WeekRows(first, last);
  }

  /**
   * Every day of the reference month is in the matrix exactly once, at the
   * row and column its distance from the grid's first day gives.
   */
  lemma MonthDayPlacedOnce(ref: int, day: int)
    requires InMonth(day, ref)
    ensures PlacedOnce(DateMatrix(ref), GridStart(ref), day)
  {
    var first, last := StartOfMonth(ref), EndOfMonth(ref);
    assert first <= day <= last by { InMonthIff(day, ref); }
    assert 28 <= last - first + 1 <= 31 by { MonthSpan(ref); }
    WeekMatrixPlacesOnce(first, last, day);
  }

  /** No day outside the widened range [GridStart, GridEnd] appears in the matrix. */
  lemma GridWithinWeeks(ref: int)
    ensures var m := DateMatrix(ref);
            forall r, k :: 0 <= r < |m| && 0 <= k < |m[r]| ==> GridStart(ref) <= m[r][k] <= GridEnd(ref)
  {
    GridShape(ref);
  }

  /** Days of the grid outside the month are the leading and trailing days of the first and last week. */
  lemma GridOutsideMonth(ref: int, r: int, k: int)
    requires var m := DateMatrix(ref); 0 <= r < |m| && 0 <= k < |m[r]|
    ensures var d := DateMatrix(ref)[r][k];
            !InMonth(d, ref) <==> d < StartOfMonth(ref) || EndOfMonth(ref) < d
  {
    InMonthIff(DateMatrix(ref)[r][k], ref);
  }

  /** Any reference day from the first to the last of a month gives that month's matrix. */
  lemma SameMonthSameGrid(a: int, b: int)
    requires InMonth(a, b)
    ensures StartOfMonth(a) == StartOfMonth(b) && EndOfMonth(a) == EndOfMonth(b)
    ensures DateMatrix(a) == DateMatrix(b)
  {
  }

  /** Rounding a span to whole weeks, as arithmetic on its weekday offsets. */
  lemma WeekCount(n: int, w: int, len: int)
    requires 0 <= w < 7 && 1 <= len
    requires 7 * n == w + len + 6 - (w + len - 1) % 7
    ensures n == (w + len + 6) / 7
  {
    var x := w + len - 1;
    assert x == 7 * (x / 7) + x % 7;
  }

  /** WeekMatrix has as many rows as the span touches weeks. */
  lemma WeekMatrixRows(first: int, last: int)
    requires 28 <= last - first + 1 <= 31
    ensures |WeekMatrix(first, last)| == (Weekday(first) + last - first + 7) / 7
  {
    var len := last - first + 1;
    WeekRows(first, last);
    assert Weekday(last) == (Weekday(first) + len - 1) % 7 by { WeekdayShift(first, len - 1); }
    WeekCount(|WeekMatrix(first, last)|, Weekday(first), len);
  }

  /**
   * The number of rows is the number of weeks the month touches: its length
   * plus the days of the first week before the first of the month, rounded up
   * to whole weeks.
   */
  lemma MonthRows(ref: int)
    ensures |DateMatrix(ref)| == (Weekday(StartOfMonth(ref)) + EndOfMonth(ref) - StartOfMonth(ref) + 7) / 7
  {
    assert 28 <= EndOfMonth(ref) - StartOfMonth(ref) + 1 <= 31 by { MonthSpan(ref); }
    WeekMatrixRows(StartOfMonth(ref), EndOfMonth(ref));
  }

  /** A span of 28 to 31 days fills four rows exactly when it is 28 days from a Sunday. */
  lemma FourRowSpan(first: int, last: int)
    requires 28 <= last - first + 1 <= 31
    ensures |WeekMatrix(first, last)| == 4 <==> Weekday(first) == 0 && last - first + 1 == 28
  {
    WeekMatrixRows(first, last);
  }

  /** A span of 28 to 31 days fills six rows exactly when it runs past the fifth Saturday. */
  lemma SixRowSpan(first: int, last: int)
    requires 28 <= last - first + 1 <= 31
    ensures |WeekMatrix(first, last)| == 6 <==> Weekday(first) + (last - first + 1) > 35
  {
    WeekMatrixRows(first, last);
  }

  /** Four rows exactly for a 28-day February that starts on a Sunday. */
  lemma FourRowMonth(ref: int)
    ensures var first := StartOfMonth(ref);
            |DateMatrix(ref)| == 4 <==> Weekday(first) == 0 && EndOfMonth(ref) - first + 1 == 28
  {
    assert 28 <= EndOfMonth(ref) - StartOfMonth(ref) + 1 <= 31 by { MonthSpan(ref); }
    FourRowSpan(StartOfMonth(ref), EndOfMonth(ref));
  }

  /** Six rows exactly when the month runs past the fifth Saturday: the first's weekday plus the length exceeds 35. */
  lemma SixRowMonth(ref: int)
    ensures var first := StartOfMonth(ref);
            |DateMatrix(ref)| == 6 <==> Weekday(first) + EndOfMonth(ref) - first + 1 > 35
  {
    assert 28 <= EndOfMonth(ref) - StartOfMonth(ref) + 1 <= 31 by { MonthSpan(ref); }
    SixRowSpan(StartOfMonth(ref), EndOfMonth(ref));
  }
}
