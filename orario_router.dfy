/**
 * The two queries of server/api/routers/orario.ts: `getOrario`, which is `scrap()`, and
 * `getNextLesson`, which picks the requested day and, for today, the lesson in progress or
 * the next one (`findNextLesson`). The clock is given as inputs: the weekday of the target
 * date, the minutes since midnight and the formatted date.
 */
module OrarioRouter {
  import opened Wrappers
  import opened JsString
  import opened Schedule
  import opened DateUtils
  import opened OrarioUtils
  import opened OrarioScraper

  // ---------------------------------------------------------------------------
  // findNextLesson

  /** `{ ...lesson, startMinutes, endMinutes }`, with `None` for NaN. */
  datatype TimedLesson = TimedLesson(time: string, title: string, startMinutes: Option<int>, endMinutes: Option<int>)

  /** `hours * 60 + minutes`: NaN if either operand is. */
  function ClockMinutes(hours: Option<int>, minutes: Option<int>): (r: Option<int>)
    ensures r.Some? <==> hours.Some? && minutes.Some?
    ensures r.Some? ==> r.value == hours.value * 60 + minutes.value
  {
    if hours.Some? && minutes.Some? then Some(hours.value * 60 + minutes.value) else None
  }

  /** `const [h, m] = piece.split(':').map(Number)` then `h * 60 + m`; a missing second part is `undefined`, so NaN. */
  function PieceMinutes(piece: string): Option<int> {
    var parts := Split(piece, ":");
    ClockMinutes(ToNumber(parts[0]), if |parts| >= 2 then ToNumber(parts[1]) else None)
  }

  /** The `map` step: `null` unless the time splits on " - " into exactly two pieces. */
  function ParseLesson(lesson: RawEvent): Option<TimedLesson> {
    var range := Split(lesson.time, " - ");
    if |range| != 2 then None
    else Some(TimedLesson(lesson.time, lesson.title, PieceMinutes(range[0]), PieceMinutes(range[1])))
  }

  /** `.filter(lesson => lesson !== null)`. */
  function NonNull(ts: seq<Option<TimedLesson>>): (kept: seq<TimedLesson>)
    ensures |kept| <= |ts|
    ensures forall k :: 0 <= k < |kept| ==> Some(kept[k]) in ts
    ensures forall k :: 0 <= k < |ts| && ts[k].Some? ==> ts[k].value in kept
    decreases |ts|
  {
    if ts == [] then []
    else (match ts[0] case Some(t) => [t] case None => []) + NonNull(ts[1..])
  }

  /** The filter works element by element and keeps the order. */
  lemma {:induction false} NonNullAppend(a: seq<Option<TimedLesson>>, b: seq<Option<TimedLesson>>)
    ensures NonNull(a + b) == NonNull(a) + NonNull(b)
    decreases |a|
  {
    if a != [] {
      assert (a + b)[0] == a[0];
      assert (a + b)[1..] == a[1..] + b;
      NonNullAppend(a[1..], b);
    } else {
      assert a + b == b;
    }
  }

  /** Every lesson parsed, `lessons.map(...)`. */
  function ParseEach(lessons: seq<RawEvent>): (ts: seq<Option<TimedLesson>>)
    ensures |ts| == |lessons|
  {
    seq(|lessons|, i requires 0 <= i < |lessons| => ParseLesson(lessons[i]))
  }

  /** `lessons.map(...).filter(lesson => lesson !== null)`. */
  function ParseLessons(lessons: seq<RawEvent>): (parsed: seq<TimedLesson>)
    ensures |parsed| <= |lessons|
    ensures forall k :: 0 <= k < |parsed| ==> Some(parsed[k]) in ParseEach(lessons)
    ensures forall k :: 0 <= k < |lessons| && ParseLesson(lessons[k]).Some? ==> ParseLesson(lessons[k]).value in parsed
  {
    var ts := ParseEach(lessons);
    assert forall k :: 0 <= k < |lessons| ==> ts[k] == ParseLesson(lessons[k]);
    NonNull(ts)
  }

  /** Parsing works lesson by lesson and keeps the order. */
  lemma ParseLessonsAppend(a: seq<RawEvent>, b: seq<RawEvent>)
    ensures ParseLessons(a + b) == ParseLessons(a) + ParseLessons(b)
  {
    assert ParseEach(a + b) == ParseEach(a) + ParseEach(b);
    NonNullAppend(ParseEach(a), ParseEach(b));
  }

  /** A parsed lesson keeps its time and title, and is there exactly when the time has two pieces. */
  lemma ParseLessonShape(lesson: RawEvent)
    ensures ParseLesson(lesson).Some? <==> |Split(lesson.time, " - ")| == 2
    ensures ParseLesson(lesson).Some? ==> ParseLesson(lesson).value.time == lesson.time && ParseLesson(lesson).value.title == lesson.title
  {
  }

  /** "HH:MM" with two-digit fields is read as `hours * 60 + minutes`. */
  lemma PieceOfClockTime(h: nat, m: nat)
    requires h < 100 && m < 100
    ensures PieceMinutes(TwoDigits(h) + ":" + TwoDigits(m)) == Some(h * 60 + m)
  {
    SplitAtFirst(TwoDigits(h), ":", TwoDigits(m));
    SplitWithoutSeparator(TwoDigits(m), ":");
    TwoDigitsValue(h);
    TwoDigitsValue(m);
  }

  /** A time written "HH:MM - HH:MM" parses to the minutes of its start and of its end. */
  lemma ParseFormattedTime(h1: nat, m1: nat, h2: nat, m2: nat, title: string)
    requires h1 < 100 && m1 < 100 && h2 < 100 && m2 < 100
    ensures var start, end := TwoDigits(h1) + ":" + TwoDigits(m1), TwoDigits(h2) + ":" + TwoDigits(m2);
      var time := start + " - " + end;
      ParseLesson(RawEvent(time, title)) == Some(TimedLesson(time, title, Some(h1 * 60 + m1), Some(h2 * 60 + m2)))
  {
    var start, end := TwoDigits(h1) + ":" + TwoDigits(m1), TwoDigits(h2) + ":" + TwoDigits(m2);
    assert forall i :: 0 <= i < |start| ==> start[i] != ' ';
    assert forall i :: 0 <= i < |end| ==> end[i] != ' ';
    SplitAtFirst(start, " - ", end);
    SplitWithoutSeparator(end, " - ");
    PieceOfClockTime(h1, m1);
    PieceOfClockTime(h2, m2);
  }

  /** `now >= startMinutes && now <= endMinutes`; a comparison with NaN is false. */
  predicate InProgress(l: TimedLesson, now: int) {
    l.startMinutes.Some? && l.endMinutes.Some? && l.startMinutes.value <= now <= l.endMinutes.value
  }

  /** `startMinutes > now`; false for NaN. */
  predicate StartsAfter(l: TimedLesson, now: int) {
    l.startMinutes.Some? && l.startMinutes.value > now
  }

  /** The position `find` stops at: the first lesson in progress. */
  function FirstInProgress(ls: seq<TimedLesson>, now: int): (r: Option<nat>)
    ensures r.Some? ==> r.value < |ls| && InProgress(ls[r.value], now)
    ensures r.Some? ==> forall j :: 0 <= j < r.value ==> !InProgress(ls[j], now)
    ensures r.None? ==> forall j :: 0 <= j < |ls| ==> !InProgress(ls[j], now)
    decreases |ls|
  {
    if ls == [] then None
    else if InProgress(ls[0], now) then Some(0)
    else match FirstInProgress(ls[1..], now)
      case None => None
      case Some(j) => Some(j + 1)
  }

  /**
   * The position of `filter(startMinutes > now).sort(by startMinutes)[0]`: the sort is
   * stable, so it is the earliest start, and the first in input order among equal starts.
   */
  function EarliestAfter(ls: seq<TimedLesson>, now: int): (r: Option<nat>)
    ensures r.Some? ==> r.value < |ls| && StartsAfter(ls[r.value], now)
    ensures r.Some? ==> forall j :: 0 <= j < |ls| && StartsAfter(ls[j], now) ==> ls[r.value].startMinutes.value <= ls[j].startMinutes.value
    ensures r.Some? ==> forall j :: 0 <= j < r.value && StartsAfter(ls[j], now) ==> ls[r.value].startMinutes.value < ls[j].startMinutes.value
    ensures r.None? ==> forall j :: 0 <= j < |ls| ==> !StartsAfter(ls[j], now)
    decreases |ls|
  {
    if ls == [] then None
    else match EarliestAfter(ls[1..], now)
      case None => if StartsAfter(ls[0], now) then Some(0) else None
      case Some(j) =>
        if StartsAfter(ls[0], now) && ls[0].startMinutes.value <= ls[j + 1].startMinutes.value then Some(0)
        else Some(j + 1)
  }

  /** Whether the chosen lesson is under way or the next to begin. */
  datatype Status = Current | Next

  /** `{ lesson, status }`. */
  datatype NextLessonInfo = NextLessonInfo(lesson: TimedLesson, status: Status)

  /** The choice among the parsed lessons: the first in progress, else the earliest to start after `now`. */
  function SelectLesson(parsed: seq<TimedLesson>, now: int): (r: Option<NextLessonInfo>)
    ensures r.Some? ==> r.value.lesson in parsed
    ensures r.Some? && r.value.status == Current ==> InProgress(r.value.lesson, now)
    ensures r.Some? && r.value.status == Next ==> StartsAfter(r.value.lesson, now)
  {
    match FirstInProgress(parsed, now)
    case Some(k) => Some(NextLessonInfo(parsed[k], Current))
    case None =>
      match EarliestAfter(parsed, now)
      case Some(k) => Some(NextLessonInfo(parsed[k], Next))
      case None => None
  }

  /** `findNextLesson(lessons, currentTime, isToday)`, with `now` the minutes since midnight of `currentTime`. */
  function FindNextLesson(lessons: seq<RawEvent>, now: int, isToday: bool): (r: Option<NextLessonInfo>)
    ensures !isToday ==> r.None?
    ensures r.Some? ==> r.value.lesson in ParseLessons(lessons)
    ensures r.Some? && r.value.status == Current ==> InProgress(r.value.lesson, now)
    ensures r.Some? && r.value.status == Next ==> StartsAfter(r.value.lesson, now)
  {
    if !isToday then None else SelectLesson(ParseLessons(lessons), now)
  }

  /** The first lesson in progress is the one returned, as current. */
  lemma CurrentIsFirstInProgress(lessons: seq<RawEvent>, now: int, k: int)
    requires var ps := ParseLessons(lessons);
      0 <= k < |ps| && InProgress(ps[k], now) && forall j :: 0 <= j < k ==> !InProgress(ps[j], now)
    ensures FindNextLesson(lessons, now, true) == Some(NextLessonInfo(ParseLessons(lessons)[k], Current))
  {
    var r := FirstInProgress(ParseLessons(lessons), now);
    assert r.Some? && r.value == k;
  }

  /** With none in progress, the returned lesson starts after `now`, earliest, and first among equal starts. */
  lemma NextIsEarliestAfter(lessons: seq<RawEvent>, now: int, k: int)
    requires var ps := ParseLessons(lessons);
      && (forall j :: 0 <= j < |ps| ==> !InProgress(ps[j], now))
      && 0 <= k < |ps| && StartsAfter(ps[k], now)
      && (forall j :: 0 <= j < |ps| && StartsAfter(ps[j], now) ==> ps[k].startMinutes.value <= ps[j].startMinutes.value)
      && (forall j :: 0 <= j < k && StartsAfter(ps[j], now) ==> ps[k].startMinutes.value < ps[j].startMinutes.value)
    ensures FindNextLesson(lessons, now, true) == Some(NextLessonInfo(ParseLessons(lessons)[k], Next))
  {
    var ps := ParseLessons(lessons);
    var r := EarliestAfter(ps, now);
    assert r.Some?;
    assert ps[r.value].startMinutes.value == ps[k].startMinutes.value;
    assert r.value == k;
  }

  /** Today, the result is null exactly when no lesson is in progress and none starts later. */
  lemma NoneWhenNothingAhead(lessons: seq<RawEvent>, now: int)
    ensures var ps := ParseLessons(lessons);
      FindNextLesson(lessons, now, true).None? <==>
        forall j :: 0 <= j < |ps| ==> !InProgress(ps[j], now) && !StartsAfter(ps[j], now)
  {
    var ps := ParseLessons(lessons);
    if FirstInProgress(ps, now).None? && EarliestAfter(ps, now).None? {
      assert forall j :: 0 <= j < |ps| ==> !InProgress(ps[j], now) && !StartsAfter(ps[j], now);
    }
  }

  /** A lesson whose time does not split into two pieces changes nothing. */
  lemma MalformedIgnored(a: seq<RawEvent>, l: RawEvent, b: seq<RawEvent>, now: int, isToday: bool)
    requires |Split(l.time, " - ")| != 2
    ensures FindNextLesson(a + [l] + b, now, isToday) == FindNextLesson(a + b, now, isToday)
  {
    var al := a + [l];
    assert ParseLessons(al) == ParseLessons(a) by {
      ParseLessonsAppend(a, [l]);
      MalformedParsesToNothing(l);
    }
    assert ParseLessons(al + b) == ParseLessons(a) + ParseLessons(b) by {
      ParseLessonsAppend(al, b);
    }
    ParseLessonsAppend(a, b);
    assert a + [l] + b == al + b;
    SameParsedSameChoice(a + [l] + b, a + b, now, isToday);
  }

  /** The choice depends on the lessons only through their parsed form. */
  lemma SameParsedSameChoice(x: seq<RawEvent>, y: seq<RawEvent>, now: int, isToday: bool)
    requires ParseLessons(x) == ParseLessons(y)
    ensures FindNextLesson(x, now, isToday) == FindNextLesson(y, now, isToday)
  {
  }

  /** A lesson whose time does not split into two pieces is dropped by the parsing. */
  lemma MalformedParsesToNothing(l: RawEvent)
    requires |Split(l.time, " - ")| != 2
    ensures ParseLessons([l]) == []
  {
    assert ParseEach([l]) == [None];
    var none: seq<Option<TimedLesson>> := [None];
    assert none[1..] == [];
  }

  /** A lesson whose time splits into two pieces is kept by the parsing, as its parsed form. */
  lemma WellFormedParsesToItself(l: RawEvent)
    requires |Split(l.time, " - ")| == 2
    ensures ParseLessons([l]) == [ParseLesson(l).value]
  {
    assert ParseEach([l]) == [ParseLesson(l)];
    var one: seq<Option<TimedLesson>> := [ParseLesson(l)];
    assert one[1..] == [];
  }

  /** A chosen lesson never has a NaN start, and a current one never a NaN end. */
  lemma ChosenHasNumbers(lessons: seq<RawEvent>, now: int, isToday: bool)
    ensures var r := FindNextLesson(lessons, now, isToday);
      && (r.Some? ==> r.value.lesson.startMinutes.Some?)
      && (r.Some? && r.value.status == Current ==> r.value.lesson.endMinutes.Some?)
  {
  }

  // ---------------------------------------------------------------------------
  // getNextLesson

  /** `dayOfWeek === 0 ? 6 : dayOfWeek - 1`: JavaScript's `getDay` (Sunday 0) as Monday 0 .. Sunday 6. */
  function AdjustedDay(jsDay: int): (d: int)
    requires 0 <= jsDay <= 6
    ensures 0 <= d <= 6
    ensures jsDay == 0 ==> d == 6
    ensures jsDay != 0 ==> d == jsDay - 1
  {
    if jsDay == 0 then 6 else jsDay - 1
  }

  /** The server's conversion agrees with lib/date-utils.ts's on the same day (luxon numbers Sunday 7). */
  lemma AdjustedDayAgrees(jsDay: int)
    requires 0 <= jsDay <= 6
    ensures AdjustedDay(jsDay) == GetDayOfWeek(if jsDay == 0 then 7 else jsDay)
  {
  }

  /** The reply of `getNextLesson`: `hasLessons` is `false` exactly for `NoLessons`, whose `lessons` is `[]`. */
  datatype NextLessonResponse =
    | NoLessons(dayName: string, date: string)
    | Lessons(dayName: string, date: string, lessons: seq<RawEvent>, nextLesson: Option<NextLessonInfo>, totalLessons: nat)

  /**
   * The reply computed from the timetable, for the target date given by its JavaScript
   * weekday and its formatted `date`, with `now` the minutes since midnight of the request.
   */
  function NextLessonFor(data: seq<Day<RawEvent>>, targetJsDay: int, dayOffset: int, now: int, date: string): (r: NextLessonResponse)
    requires 0 <= targetJsDay <= 6
    ensures r.dayName == Giorni[AdjustedDay(targetJsDay)] && r.date == date
    ensures r.Lessons? ==> r.totalLessons == |r.lessons| > 0
    ensures r.Lessons? && dayOffset != 0 ==> r.nextLesson.None?
  {
    var adjustedDay := AdjustedDay(targetJsDay);
    var dayName := Giorni[adjustedDay];
    match FindDay(data, adjustedDay)
    case None => NoLessons(dayName, date)
    case Some(daySchedule) =>
      if |daySchedule.events| == 0 then NoLessons(dayName, date)
      else Lessons(dayName, date, daySchedule.events, FindNextLesson(daySchedule.events, now, dayOffset == 0), |daySchedule.events|)
  }

  /** There are lessons exactly when the first entry of the timetable for the day exists and has events; they are its events. */
  lemma NextLessonForDay(data: seq<Day<RawEvent>>, targetJsDay: int, dayOffset: int, now: int, date: string)
    requires 0 <= targetJsDay <= 6
    ensures var r := NextLessonFor(data, targetJsDay, dayOffset, now, date);
      var k := FindDayIndex(data, AdjustedDay(targetJsDay));
      && (r.Lessons? <==> k.Some? && |data[k.value].events| > 0)
      && (r.Lessons? ==> r.lessons == data[k.value].events)
      && (r.Lessons? && dayOffset == 0 ==> r.nextLesson == FindNextLesson(r.lessons, now, true))
  {
  }

  // ---------------------------------------------------------------------------
  // The queries

  /** `getOrario`: the `name` input is not used; the reply is what `scrap()` resolves to. */
  method GetOrario(cache: ScheduleCache, name: string, now: int, page: Page, doneAt: int) returns (outcome: Outcome)
    modifies cache
    ensures StepResult(cache.cachedData, outcome) == Step(old(cache.cachedData), now, page, doneAt)
  {
    outcome := cache.Scrap(now, page, doneAt);
  }

  /** `getNextLesson`: `scrap()`, then the reply for the day; `None` when `scrap()` rejects. */
  method GetNextLesson(cache: ScheduleCache, dayOffset: int, targetJsDay: int, nowMinutes: int, date: string,
                       now: int, page: Page, doneAt: int) returns (r: Option<NextLessonResponse>)
    requires 0 <= targetJsDay <= 6
    modifies cache
    ensures var st := Step(old(cache.cachedData), now, page, doneAt);
      && cache.cachedData == st.slot
      && r == (if st.outcome.Thrown? then None else Some(NextLessonFor(st.outcome.data, targetJsDay, dayOffset, nowMinutes, date)))
  {
    var orarioData := cache.Scrap(now, page, doneAt);
    match orarioData
    case Thrown => r := None;
    case Served(data, _) => r := Some(NextLessonFor(data, targetJsDay, dayOffset, nowMinutes, date));
  }
}
