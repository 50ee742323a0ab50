/**
 * The logic of app/components/CalendarView.tsx: the week of seven cells built from the
 * parsed timetable, the subject dots of a cell, the overflow dot, the mark for today and
 * the guard on selecting a day. Rendering and the dialog are not part of this model.
 */
module CalendarView {
  import opened Wrappers
  import opened Schedule
  import opened OrarioRouter

  // ---------------------------------------------------------------------------
  // weekDays

  /** One cell of the week: `{ day, events, hasEvents }`. */
  datatype WeekDay = WeekDay(day: int, events: seq<ParsedEvent>, hasEvents: bool)

  /** `dayData?.events || []`: an array is truthy even when empty, so a found day gives its own events. */
  function EventsOf(schedule: seq<Day<ParsedEvent>>, index: int): seq<ParsedEvent> {
    match FindDay(schedule, index)
    case None => []
    case Some(d) => d.events
  }

  /** `Array.from({ length: 7 }, ...)`: a cell for each day index 0..6. */
  function WeekDays(schedule: seq<Day<ParsedEvent>>): (week: seq<WeekDay>)
    ensures |week| == 7
    ensures forall i :: 0 <= i < 7 ==> week[i].day == i
    ensures forall i :: 0 <= i < 7 ==> (week[i].hasEvents <==> |week[i].events| > 0)
  {
    seq(7, i requires 0 <= i < 7 => WeekDay(i, EventsOf(schedule, i), |EventsOf(schedule, i)| > 0))
  }

  /** A cell holds the events of the first timetable entry for its day, or none when there is no such entry. */
  lemma WeekDayEvents(schedule: seq<Day<ParsedEvent>>, i: int)
    requires 0 <= i < 7
    ensures var cell := WeekDays(schedule)[i];
      match FindDayIndex(schedule, i)
      case None => cell.events == [] && !cell.hasEvents
      case Some(k) => cell.events == schedule[k].events && (cell.hasEvents <==> |schedule[k].events| > 0)
  {
  }

  /** Entries of the timetable for indexes outside 0..6 do not appear in the week. */
  lemma WeekDaysIgnoreOtherIndexes(schedule: seq<Day<ParsedEvent>>, extra: seq<Day<ParsedEvent>>)
    requires forall k :: 0 <= k < |extra| ==> !(0 <= extra[k].day < 7)
    ensures WeekDays(schedule + extra) == WeekDays(extra + schedule) == WeekDays(schedule)
  {
    forall i | 0 <= i < 7
      ensures EventsOf(schedule + extra, i) == EventsOf(schedule, i)
      ensures EventsOf(extra + schedule, i) == EventsOf(schedule, i)
    {
      FindDayAppend(schedule, extra, i);
      FindDayPrepend(extra, schedule, i);
    }
  }

  // ---------------------------------------------------------------------------
  // getEventDots

  /** The position of the first occurrence of `x` in `xs`. */
  function FirstIndex<T(==)>(xs: seq<T>, x: T): (k: nat)
    requires x in xs
    ensures k < |xs| && xs[k] == x && x !in xs[..k]
    decreases |xs|
  {
    if xs[0] == x then 0
    else
      var k := 1 + FirstIndex(xs[1..], x);
      assert xs[..k] == [xs[0]] + xs[1..][..k - 1];
      k
  }

  /** The first occurrence is the only position holding `x` with no `x` before it. */
  lemma FirstIndexUnique<T>(xs: seq<T>, x: T, k: int)
    requires 0 <= k < |xs| && xs[k] == x && x !in xs[..k]
    ensures FirstIndex(xs, x) == k
  {
  }

  /** In a prefix that contains `x`, its first occurrence is where it is in the whole sequence. */
  lemma FirstIndexPrefix<T>(xs: seq<T>, x: T, n: int)
    requires 0 <= n <= |xs| && x in xs[..n]
    ensures FirstIndex(xs, x) == FirstIndex(xs[..n], x)
  {
    var f := FirstIndex(xs[..n], x);
    assert xs[..f] == xs[..n][..f];
    FirstIndexUnique(xs, x, f);
  }

  /**
   * `Array.from(new Set(xs))`: a `Set` keeps one copy of each element, in the order of first
   * insertion.
   */
  function Distinct<T(==)>(xs: seq<T>): (ys: seq<T>)
    ensures forall k :: 0 <= k < |xs| ==> xs[k] in ys
    ensures forall k :: 0 <= k < |ys| ==> ys[k] in xs
    ensures forall i, j :: 0 <= i < j < |ys| ==> ys[i] != ys[j]
    decreases |xs|
  {
    if xs == [] then []
    else
      var init, last := xs[..|xs| - 1], xs[|xs| - 1];
      assert xs == init + [last];
      var ys := Distinct(init);
      if last in ys then ys else ys + [last]
  }

  /** Two elements of the output come out in the order of their first occurrences in the input. */
  lemma {:induction false} DistinctOrderPair<T>(xs: seq<T>, i: int, j: int)
    requires 0 <= i < j < |Distinct(xs)|
    ensures FirstIndex(xs, Distinct(xs)[i]) < FirstIndex(xs, Distinct(xs)[j])
    decreases |xs|
  {
    var n := |xs|;
    var init, last := xs[..n - 1], xs[n - 1];
    var ys0, ys := Distinct(init), Distinct(xs);
    assert ys == if last in ys0 then ys0 else ys0 + [last];
    assert ys[i] == ys0[i] && ys0[i] in init;
    FirstIndexPrefix(xs, ys[i], n - 1);
    if j < |ys0| {
      assert ys[j] == ys0[j] && ys0[j] in init;
      FirstIndexPrefix(xs, ys[j], n - 1);
      DistinctOrderPair(init, i, j);
    } else {
      assert ys[j] == last && last !in xs[..n - 1];
      FirstIndexUnique(xs, last, n - 1);
    }
  }

  /** The elements come out ordered by their first occurrence in the input. */
  lemma DistinctFirstOccurrenceOrder<T>(xs: seq<T>)
    ensures var ys := Distinct(xs);
      forall i, j :: 0 <= i < j < |ys| ==> FirstIndex(xs, ys[i]) < FirstIndex(xs, ys[j])
  {
    var ys := Distinct(xs);
    forall i, j | 0 <= i < j < |ys|
      ensures FirstIndex(xs, ys[i]) < FirstIndex(xs, ys[j])
    {
      DistinctOrderPair(xs, i, j);
    }
  }

  /** The subjects of the events, in order. */
  function Subjects(events: seq<ParsedEvent>): (m: seq<string>)
    ensures |m| == |events|
    ensures forall i :: 0 <= i < |events| ==> m[i] == events[i].materia
  {
    seq(|events|, i requires 0 <= i < |events| => events[i].materia)
  }

  /** `getEventDots(events)`: the first three distinct subjects. */
  function GetEventDots(events: seq<ParsedEvent>): (dots: seq<string>)
    ensures |dots| <= 3
    ensures forall i, j :: 0 <= i < j < |dots| ==> dots[i] != dots[j]
    ensures forall k :: 0 <= k < |dots| ==> dots[k] in Subjects(events)
  {
    var d := Distinct(Subjects(events));
    if |d| <= 3 then d else d[..3]
  }

  /**
   * The dots follow the order in which the subjects first appear, and they are the first
   * distinct subjects: a subject that first appears no later than some dot's subject has a
   * dot. So the cut at three is the only loss, and with fewer than three dots every subject
   * of the day has one.
   */
  lemma EventDotsSpec(events: seq<ParsedEvent>)
    ensures var dots, subjects := GetEventDots(events), Subjects(events);
      && (forall i, j :: 0 <= i < j < |dots| ==> FirstIndex(subjects, dots[i]) < FirstIndex(subjects, dots[j]))
      && (forall k, i :: 0 <= k < |events| && 0 <= i < |dots| && FirstIndex(subjects, subjects[k]) <= FirstIndex(subjects, dots[i]) ==> subjects[k] in dots)
      && (|dots| < 3 ==> forall k :: 0 <= k < |events| ==> events[k].materia in dots)
      && (|dots| == 3 || |dots| == |Distinct(subjects)|)
  {
    var subjects := Subjects(events);
    var d := Distinct(subjects);
    var dots := GetEventDots(events);
    assert forall i :: 0 <= i < |dots| ==> dots[i] == d[i];
    forall i, j | 0 <= i < j < |dots|
      ensures FirstIndex(subjects, dots[i]) < FirstIndex(subjects, dots[j])
    {
      DistinctOrderPair(subjects, i, j);
    }
    forall k, i | 0 <= k < |events| && 0 <= i < |dots| && FirstIndex(subjects, subjects[k]) <= FirstIndex(subjects, dots[i])
      ensures subjects[k] in dots
    {
      assert subjects[k] in d;
      var j :| 0 <= j < |d| && d[j] == subjects[k];
      if i < j {
        DistinctOrderPair(subjects, i, j);
      }
      assert dots[j] == d[j];
    }
    if |dots| < 3 {
      forall k | 0 <= k < |events|
        ensures events[k].materia in dots
      {
        assert subjects[k] in d;
      }
    }
  }

  // ---------------------------------------------------------------------------
  // The cell's dots, today's mark and the click

  /** `dayData.hasEvents && dayData.events.length > 3`: the grey dot after the subject dots. */
  predicate ShowOverflowDot(cell: WeekDay) {
    cell.hasEvents && |cell.events| > 3
  }

  /** On a cell of the week the grey dot appears exactly when the day has more than three events. */
  lemma OverflowCountsEvents(schedule: seq<Day<ParsedEvent>>, i: int)
    requires 0 <= i < 7
    ensures ShowOverflowDot(WeekDays(schedule)[i]) <==> |WeekDays(schedule)[i].events| > 3
  {
  }

  /** It counts events, not subjects: four lessons of one subject give one subject dot and the grey dot. */
  lemma OverflowWithOneSubject(e: ParsedEvent)
    ensures var cell := WeekDay(0, [e, e, e, e], true);
      GetEventDots(cell.events) == [e.materia] && ShowOverflowDot(cell)
  {
    var m := e.materia;
    assert Subjects([e, e, e, e]) == [m, m, m, m];
    assert [m][..0] == [] && Distinct([m]) == [m];
    assert [m, m][..1] == [m] && Distinct([m, m]) == [m];
    assert [m, m, m][..2] == [m, m] && Distinct([m, m, m]) == [m];
    assert [m, m, m, m][..3] == [m, m, m] && Distinct([m, m, m, m]) == [m];
  }

  /** `index === todayIndex`, with `todayIndex` the conversion of JavaScript's `getDay()` the server also uses. */
  predicate IsToday(index: int, today: int)
    requires 0 <= today <= 6
  {
    index == AdjustedDay(today)
  }

  /** Exactly one of the seven cells is marked as today. */
  lemma OneCellIsToday(schedule: seq<Day<ParsedEvent>>, today: int)
    requires 0 <= today <= 6
    ensures exists i :: 0 <= i < |WeekDays(schedule)| && IsToday(i, today)
    ensures forall i, j :: 0 <= i < 7 && 0 <= j < 7 && IsToday(i, today) && IsToday(j, today) ==> i == j
  {
    assert IsToday(AdjustedDay(today), today);
  }

  /** `dayData.hasEvents && setSelectedDay(...)`: the day chosen by a click, if any. */
  function OnClick(cell: WeekDay): Option<Day<ParsedEvent>> {
    if cell.hasEvents then Some(Day(cell.day, cell.events)) else None
  }

  /** A click selects a day only when the cell has events, and then selects that cell's day with those events. */
  lemma SelectOnlyWithEvents(schedule: seq<Day<ParsedEvent>>, i: int)
    requires 0 <= i < 7
    ensures var cell := WeekDays(schedule)[i];
      && (OnClick(cell).Some? <==> |cell.events| > 0)
      && (OnClick(cell).Some? ==> OnClick(cell).value == Day(i, EventsOf(schedule, i)))
  {
  }
}
