/**
 * The logic of app/components/NextLessonCard.tsx: its own copy of the title parser (which
 * also drops a trailing "L" from the instructor), the two navigation counters `dayOffset`
 * and `currentLessonIndex` updated by the click handlers, and the predicates that choose
 * what is shown. Rendering is not part of this model.
 */
module NextLessonCard {
  import opened JsString
  import opened Schedule
  import opened OrarioUtils
  import opened OrarioRouter

  // ---------------------------------------------------------------------------
  // parseEventTitle (the component's copy)

  /** `if (docente && docente.endsWith("L")) docente = docente.slice(0, -1)`. */
  function StripTrailingL(d: string): (r: string)
    ensures EndsWith(d, "L") ==> r + "L" == d
    ensures !EndsWith(d, "L") ==> r == d
  {
    if d != "" && EndsWith(d, "L") then d[..|d| - 1] else d
  }

  /**
   * The component's `parseEventTitle`: the same two expressions and the same `includes`
   * test as lib/orario-utils.ts, with the trailing "L" dropped from the instructor.
   */
  function ParseEventTitleCard(title: string): (f: TitleFields)
    ensures f.docente != "" <==> f.aula != ""
    ensures f.docente != "" ==> |f.docente| >= 2 && IsAsciiUpper(f.docente[0]) && f.docente[1] == '.'
  {
    TitleFields(Materia(title), Aula(title), StripTrailingL(Docente(title)),
                if Contains(title, "Laboratorio") then "Laboratorio" else "Lezione")
  }

  /**
   * The component's parser agrees with the library's on the subject, the room and the kind;
   * its instructor is the library's with exactly one trailing "L" removed when there is one.
   */
  lemma CardAgreesWithLibrary(title: string)
    ensures var card, lib := ParseEventTitleCard(title), ParseEventTitle(title);
      && card.materia == lib.materia && card.aula == lib.aula && card.tipo == lib.tipo
      && (EndsWith(lib.docente, "L") ==> card.docente + "L" == lib.docente)
      && (!EndsWith(lib.docente, "L") ==> card.docente == lib.docente)
  {
  }

  // ---------------------------------------------------------------------------
  // The reply as the component reads it

  /** `data?.lessons || []`. */
  function LessonsOf(data: NextLessonResponse): seq<RawEvent> {
    match data
    case NoLessons(_, _) => []
    case Lessons(_, _, lessons, _, _) => lessons
  }

  /** `data?.hasLessons && lessons.length > 0`. */
  predicate HasLessons(data: NextLessonResponse) {
    data.Lessons? && |LessonsOf(data)| > 0
  }

  /** On a reply built by the server the length test is redundant: the flag alone decides. */
  lemma HasLessonsIsServerFlag(days: seq<Day<RawEvent>>, targetJsDay: int, dayOffset: int, now: int, date: string)
    requires 0 <= targetJsDay <= 6
    ensures var r := NextLessonFor(days, targetJsDay, dayOffset, now, date);
      HasLessons(r) <==> r.Lessons?
  {
  }

  /** `isCurrentLesson`: the reply's lesson is in progress and has the shown lesson's `time`. */
  predicate IsCurrentLesson(data: NextLessonResponse, shown: RawEvent) {
    data.Lessons? && data.nextLesson.Some? && data.nextLesson.value.status == Current
    && data.nextLesson.value.lesson.time == shown.time
  }

  /** `isNextLesson`: the reply's lesson is the next one and has the shown lesson's `time`. */
  predicate IsNextLesson(data: NextLessonResponse, shown: RawEvent) {
    data.Lessons? && data.nextLesson.Some? && data.nextLesson.value.status == Next
    && data.nextLesson.value.lesson.time == shown.time
  }

  /** The two badges exclude each other, and each needs the same `time` string as the shown lesson. */
  lemma BadgesExclusive(data: NextLessonResponse, shown: RawEvent)
    ensures !(IsCurrentLesson(data, shown) && IsNextLesson(data, shown))
    ensures IsCurrentLesson(data, shown) || IsNextLesson(data, shown) ==> data.nextLesson.value.lesson.time == shown.time
  {
  }

  /** On another day than today the server sends no `nextLesson`, so no badge is shown. */
  lemma NoBadgeOnOtherDays(days: seq<Day<RawEvent>>, targetJsDay: int, dayOffset: int, now: int, date: string, shown: RawEvent)
    requires 0 <= targetJsDay <= 6 && dayOffset != 0
    ensures var r := NextLessonFor(days, targetJsDay, dayOffset, now, date);
      !IsCurrentLesson(r, shown) && !IsNextLesson(r, shown)
  {
  }

  // ---------------------------------------------------------------------------
  // Navigation

  /** Which of the two views with buttons is shown: "nessuna lezione", or a lesson out of `count`. */
  datatype LessonsView = EmptyView | LessonView(count: nat)

  /** The view `hasLessons` chooses for a reply. */
  function ViewOf(data: NextLessonResponse): LessonsView {
    if HasLessons(data) then LessonView(|LessonsOf(data)|) else EmptyView
  }

  /** The two counters of the component. */
  datatype NavState = NavState(dayOffset: int, lessonIndex: int)

  /** The four buttons. */
  datatype Button = PreviousDay | NextDay | PreviousLesson | NextLesson {
    predicate IsDayButton() {
      PreviousDay? || NextDay?
    }
  }

  function Max(a: int, b: int): int {
    if a < b then b else a
  }

  function Min(a: int, b: int): int {
    if a < b then a else b
  }

  /**
   * Whether a button is shown and enabled: the day buttons are in both views and "previous
   * day" is disabled on the first day; the lesson buttons are shown only for more than one
   * lesson and are disabled on the first and on the last lesson.
   */
  predicate Enabled(s: NavState, view: LessonsView, b: Button) {
    match b
    case PreviousDay => s.dayOffset != 0
    case NextDay => true
    case PreviousLesson => view.LessonView? && view.count > 1 && s.lessonIndex != 0
    case NextLesson => view.LessonView? && view.count > 1 && s.lessonIndex != view.count - 1
  }

  /**
   * The counters after a click. The day buttons of the lesson view also reset the lesson
   * index; those of the empty view do not. A button that is not enabled changes nothing.
   */
  function Click(s: NavState, view: LessonsView, b: Button): NavState {
    if !Enabled(s, view, b) then s
    else match b
      case PreviousDay => NavState(Max(s.dayOffset - 1, 0), if view.LessonView? then 0 else s.lessonIndex)
      case NextDay => NavState(s.dayOffset + 1, if view.LessonView? then 0 else s.lessonIndex)
      case PreviousLesson => NavState(s.dayOffset, Max(s.lessonIndex - 1, 0))
      case NextLesson => NavState(s.dayOffset, Min(s.lessonIndex + 1, view.count - 1))
  }

  /**
   * The invariant of the counters for the view on screen: the offset is never negative, the
   * index is a position of the shown lessons, and it is 0 while no lesson is shown.
   */
  predicate NavValid(s: NavState, view: LessonsView) {
    && s.dayOffset >= 0 && s.lessonIndex >= 0
    && (view.LessonView? ==> s.lessonIndex < view.count)
    && (view.EmptyView? ==> s.lessonIndex == 0)
  }

  /** "Previous day" never goes below today; "next day" adds one. */
  lemma DayButtonsMoveOffset(s: NavState, view: LessonsView)
    requires s.dayOffset >= 0
    ensures Click(s, view, PreviousDay).dayOffset == Max(s.dayOffset - 1, 0)
    ensures Click(s, view, NextDay).dayOffset == s.dayOffset + 1
  {
  }

  /**
   * An enabled day button leaves the lesson index at 0 in both views: the empty view does not
   * reset it, but there it is already 0.
   */
  lemma DayButtonResetsIndex(s: NavState, view: LessonsView, b: Button)
    requires NavValid(s, view) && b.IsDayButton() && Enabled(s, view, b)
    ensures Click(s, view, b).lessonIndex == 0
  {
  }

  /** The lesson buttons keep the index within the shown lessons and do not change the day. */
  lemma LessonButtonsStayInRange(s: NavState, count: nat, b: Button)
    requires !b.IsDayButton() && 0 <= s.lessonIndex < count
    ensures var t := Click(s, LessonView(count), b);
      t.dayOffset == s.dayOffset && 0 <= t.lessonIndex < count
  {
  }

  /**
   * Every click keeps the invariant, whatever reply arrives for the new day, as long as the
   * reply for an unchanged offset is the one already shown. So `lessons[currentLessonIndex]`
   * always names a lesson.
   */
  lemma ClickKeepsInvariant(s: NavState, view: LessonsView, b: Button, view': LessonsView)
    requires NavValid(s, view)
    requires Click(s, view, b).dayOffset == s.dayOffset ==> view' == view
    requires view'.LessonView? ==> view'.count > 0
    ensures NavValid(Click(s, view, b), view')
  {
    if Enabled(s, view, b) && b.IsDayButton() {
      DayButtonResetsIndex(s, view, b);
    }
  }

  /** `lessons[currentLessonIndex]`, the lesson on screen. */
  function CurrentLesson(data: NextLessonResponse, s: NavState): (shown: RawEvent)
    requires HasLessons(data) && NavValid(s, ViewOf(data))
    ensures shown in LessonsOf(data)
  {
    LessonsOf(data)[s.lessonIndex]
  }

  /** The state of the component: its two counters. */
  class LessonNavigator {
    var dayOffset: int
    var currentLessonIndex: int

    /** The counters as a value. */
    function State(): NavState
      reads this
    {
      NavState(dayOffset, currentLessonIndex)
    }

    /** Both `useState(0)`. */
    constructor ()
      ensures State() == NavState(0, 0)
      ensures NavValid(State(), EmptyView)
    {
      dayOffset := 0;
      currentLessonIndex := 0;
    }

    /** The left arrow next to the day name. */
    method GoPreviousDay(view: LessonsView)
      modifies this
      ensures State() == Click(old(State()), view, PreviousDay)
    {
      if dayOffset == 0 {
        return;
      }
      dayOffset := Max(dayOffset - 1, 0);
      if view.LessonView? {
        currentLessonIndex := 0;
      }
    }

    /** The right arrow next to the day name. */
    method GoNextDay(view: LessonsView)
      modifies this
      ensures State() == Click(old(State()), view, NextDay)
    {
      dayOffset := dayOffset + 1;
      if view.LessonView? {
        currentLessonIndex := 0;
      }
    }

    /** The left arrow under the lesson. */
    method ShowPreviousLesson(view: LessonsView)
      modifies this
      ensures State() == Click(old(State()), view, PreviousLesson)
    {
      if view.LessonView? && view.count > 1 && currentLessonIndex != 0 {
        currentLessonIndex := Max(currentLessonIndex - 1, 0);
      }
    }

    /** The right arrow under the lesson. */
    method ShowNextLesson(view: LessonsView)
      modifies this
      ensures State() == Click(old(State()), view, NextLesson)
    {
      if view.LessonView? && view.count > 1 && currentLessonIndex != view.count - 1 {
        currentLessonIndex := Min(currentLessonIndex + 1, view.count - 1);
      }
    }
  }
}
