/** The timetable's records, shared by the server, the helpers and the views. */
module Schedule {
  import opened Wrappers

  /** An event as scraped from the calendar page: `{ time, title }`. */
  datatype RawEvent = RawEvent(time: string, title: string)

  /** An event with its title decomposed (`ParsedEvent` of lib/orario-utils.ts). */
  datatype ParsedEvent = ParsedEvent(time: string, materia: string, aula: string, docente: string, tipo: string)

  /** One day of the timetable, `{ day, events }`, over raw or parsed events. */
  datatype Day<E> = Day(day: int, events: seq<E>)

  /** `days.some(d => d.events.length > 0)`. */
  predicate HasAnyEvent<E>(days: seq<Day<E>>) {
    exists i :: 0 <= i < |days| && |days[i].events| > 0
  }

  /** The position that `days.find(d => d.day === index)` returns, if any. */
  function FindDayIndex<E>(days: seq<Day<E>>, index: int): (r: Option<nat>)
    ensures r.Some? ==> r.value < |days| && days[r.value].day == index
    ensures r.Some? ==> forall k :: 0 <= k < r.value ==> days[k].day != index
    ensures r.None? ==> forall k :: 0 <= k < |days| ==> days[k].day != index
    decreases |days|
  {
    if days == [] then None
    else if days[0].day == index then Some(0)
    else match FindDayIndex(days[1..], index)
      case None => None
      case Some(j) => Some(j + 1)
  }

  /** `days.find(d => d.day === index)`. */
  function FindDay<E>(days: seq<Day<E>>, index: int): Option<Day<E>> {
    match FindDayIndex(days, index)
    case None => None
    case Some(j) => Some(days[j])
  }

  /** Appending entries the search does not stop at leaves the first entry found (and its absence) unchanged. */
  lemma {:induction false} FindDayAppend<E>(a: seq<Day<E>>, b: seq<Day<E>>, index: int)
    requires forall k :: 0 <= k < |b| ==> b[k].day != index
    ensures FindDay(a + b, index) == FindDay(a, index)
  {
    forall k | 0 <= k < |a + b|
      ensures (a + b)[k] == if k < |a| then a[k] else b[k - |a|]
    {
    }
  }

  /** Prepending entries the search does not stop at moves the entry found but not its contents. */
  lemma {:induction false} FindDayPrepend<E>(a: seq<Day<E>>, b: seq<Day<E>>, index: int)
    requires forall k :: 0 <= k < |a| ==> a[k].day != index
    ensures FindDay(a + b, index) == FindDay(b, index)
  {
    if a == [] {
      assert a + b == b;
    } else {
      assert (a + b)[1..] == a[1..] + b;
      FindDayPrepend(a[1..], b, index);
    }
  }
}
