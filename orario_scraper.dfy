/**
 * `scrap` in server/api/routers/orario.ts: the extraction of the timetable from the
 * rendered calendar page, and the in-memory cache in front of it. The browser is outside
 * the model: a call is given the page as the extraction script would see it, and the two
 * readings of the clock `scrap` makes.
 */
module OrarioScraper {
  import opened Wrappers
  import opened JsString
  import opened Schedule

  // ---------------------------------------------------------------------------
  // Extraction (the script run by page.evaluate)

  /** One `.fc-event` card: the text of its `.fc-time` and `.fc-title` elements, `None` when the element is missing. */
  datatype Card = Card(timeText: Option<string>, titleText: Option<string>)

  /** `el?.textContent?.trim() ?? ""`. */
  function TextOf(el: Option<string>): string {
    match el
    case None => ""
    case Some(text) => Trim(text)
  }

  /** `{ time, title }` read from one card. */
  function ReadCard(card: Card): RawEvent {
    RawEvent(TextOf(card.timeText), TextOf(card.titleText))
  }

  /** `.filter(event => event.title.includes("Var"))`. */
  function KeepVar(events: seq<RawEvent>): (kept: seq<RawEvent>)
    ensures |kept| <= |events|
    ensures forall k :: 0 <= k < |kept| ==> Contains(kept[k].title, "Var")
    decreases |events|
  {
    if events == [] then []
    else (if Contains(events[0].title, "Var") then [events[0]] else []) + KeepVar(events[1..])
  }

  /** A single event is kept exactly when its title contains "Var". */
  lemma KeepVarSingle(e: RawEvent)
    ensures KeepVar([e]) == (if Contains(e.title, "Var") then [e] else [])
  {
    assert [e][1..] == [];
  }

  /**
   * The filter works piece by piece and keeps the order: filtering `a + b` is filtering `a`,
   * then `b`. With `KeepVarSingle` this determines the filter on every sequence.
   */
  lemma {:induction false} KeepVarAppend(a: seq<RawEvent>, b: seq<RawEvent>)
    ensures KeepVar(a + b) == KeepVar(a) + KeepVar(b)
    decreases |a|
  {
    if a != [] {
      assert (a + b)[0] == a[0];
      assert (a + b)[1..] == a[1..] + b;
      KeepVarAppend(a[1..], b);
    } else {
      assert a + b == b;
    }
  }

  /** The events of one `.fc-content-col` column, read in DOM order and filtered. */
  function ColumnEvents(cards: seq<Card>): seq<RawEvent> {
    KeepVar(seq(|cards|, i requires 0 <= i < |cards| => ReadCard(cards[i])))
  }

  /** `Array.from(cols).map((col, dayIndex) => ({ day: dayIndex, events }))`: one day per column, numbered by position. */
  function Extract(columns: seq<seq<Card>>): (days: seq<Day<RawEvent>>)
    ensures |days| == |columns|
    ensures forall i :: 0 <= i < |columns| ==> days[i].day == i
  {
    seq(|columns|, i requires 0 <= i < |columns| => Day(i, ColumnEvents(columns[i])))
  }

  /** Every card of column `i` whose title contains "Var" is among day `i`'s events, and every event there is one. */
  lemma ExtractKeepsCard(columns: seq<seq<Card>>, i: int, j: int)
    requires 0 <= i < |columns| && 0 <= j < |columns[i]|
    ensures Contains(ReadCard(columns[i][j]).title, "Var") ==> ReadCard(columns[i][j]) in Extract(columns)[i].events
    ensures forall k :: 0 <= k < |Extract(columns)[i].events| ==> Contains(Extract(columns)[i].events[k].title, "Var")
  {
    var cards := columns[i];
    var read := seq(|cards|, j requires 0 <= j < |cards| => ReadCard(cards[j]));
    assert Extract(columns)[i].events == KeepVar(read);
    assert read == read[..j] + [read[j]] + read[j + 1..];
    KeepVarAppend(read[..j] + [read[j]], read[j + 1..]);
    KeepVarAppend(read[..j], [read[j]]);
    KeepVarSingle(read[j]);
  }

  /** A card without a time or title element reads as "" there; one with it reads its trimmed text. */
  lemma ReadCardDefaults(card: Card)
    ensures card.timeText.None? ==> ReadCard(card).time == ""
    ensures card.timeText.Some? ==> ReadCard(card).time == Trim(card.timeText.value)
    ensures card.titleText.None? ==> ReadCard(card).title == ""
    ensures card.titleText.Some? ==> ReadCard(card).title == Trim(card.titleText.value)
  {
  }

  // ---------------------------------------------------------------------------
  // The cache

  /** `CACHE_TTL`: thirty minutes, in milliseconds. */
  const CacheTtl: int := 1000 * 60 * 30

  /** The value of `cachedData` when it is not null. */
  datatype CacheEntry = CacheEntry(data: seq<Day<RawEvent>>, timestamp: int)

  /** What the browser yields: the columns of the rendered calendar, or an exception (launch, navigation, timeout). */
  datatype Page = Rendered(columns: seq<seq<Card>>) | Unavailable

  /** What a call of `scrap` resolves to: the timetable, and whether the page was fetched; or a rejection. */
  datatype Outcome = Served(data: seq<Day<RawEvent>>, fetched: bool) | Thrown

  /** The cache slot seen at time `now`. */
  datatype SlotState = Empty | Fresh | Stale

  /** Whether the slot is empty, fresh (younger than the TTL) or stale. */
  function StateOf(slot: Option<CacheEntry>, now: int): (st: SlotState)
    ensures st == Empty <==> slot.None?
    ensures st == Fresh <==> slot.Some? && now - slot.value.timestamp < CacheTtl
  {
    match slot
    case None => Empty
    case Some(e) => if now - e.timestamp < CacheTtl then Fresh else Stale
  }

  /** The slot after a call, and what the call resolved to. */
  datatype StepResult = StepResult(slot: Option<CacheEntry>, outcome: Outcome)

  /**
   * One call of `scrap`: started at `now` with the slot `slot`, given the page the browser
   * would yield and the clock `doneAt` read after the extraction.
   */
  function Step(slot: Option<CacheEntry>, now: int, page: Page, doneAt: int): StepResult {
    if StateOf(slot, now) == Fresh then StepResult(slot, Served(slot.value.data, false))
    else match page
      case Unavailable => StepResult(slot, Thrown)
      case Rendered(columns) =>
        var data := Extract(columns);
        if HasAnyEvent(data) then StepResult(Some(CacheEntry(data, doneAt)), Served(data, true))
        else StepResult(slot, Served(data, true))
  }

  /** The invariant of the slot: cached data always holds at least one event. */
  predicate SlotValid(slot: Option<CacheEntry>) {
    slot.Some? ==> HasAnyEvent(slot.value.data)
  }

  /** A fresh slot is returned as it is, whatever the page and the clock at the end would have been: nothing is fetched. */
  lemma FreshServesCache(slot: Option<CacheEntry>, now: int, page: Page, doneAt: int)
    requires slot.Some? && now - slot.value.timestamp < CacheTtl
    ensures Step(slot, now, page, doneAt) == StepResult(slot, Served(slot.value.data, false))
  {
  }

  /** The slot changes only to install a fetched result that has an event, stamped with the clock read after the fetch. */
  lemma InstallsOnlyNonEmpty(slot: Option<CacheEntry>, now: int, page: Page, doneAt: int)
    ensures var r := Step(slot, now, page, doneAt);
      r.slot != slot ==>
        && StateOf(slot, now) != Fresh && page.Rendered?
        && HasAnyEvent(Extract(page.columns))
        && r.slot == Some(CacheEntry(Extract(page.columns), doneAt))
        && r.outcome == Served(Extract(page.columns), true)
  {
  }

  /** A non-fresh slot and a page with an event: the page's timetable is installed and returned. */
  lemma StaleInstalls(slot: Option<CacheEntry>, now: int, columns: seq<seq<Card>>, doneAt: int)
    requires StateOf(slot, now) != Fresh && HasAnyEvent(Extract(columns))
    ensures Step(slot, now, Rendered(columns), doneAt) == StepResult(Some(CacheEntry(Extract(columns), doneAt)), Served(Extract(columns), true))
  {
  }

  /** A fetched timetable without events leaves the slot exactly as it was, and is still returned. */
  lemma EmptyResultNotCached(slot: Option<CacheEntry>, now: int, columns: seq<seq<Card>>, doneAt: int)
    requires StateOf(slot, now) != Fresh && !HasAnyEvent(Extract(columns))
    ensures Step(slot, now, Rendered(columns), doneAt) == StepResult(slot, Served(Extract(columns), true))
  {
  }

  /** A failed fetch rejects the call and leaves the slot as it was. */
  lemma FailureKeepsSlot(slot: Option<CacheEntry>, now: int, doneAt: int)
    requires StateOf(slot, now) != Fresh
    ensures Step(slot, now, Unavailable, doneAt) == StepResult(slot, Thrown)
  {
  }

  /** Every call keeps the invariant of the slot. */
  lemma StepKeepsInvariant(slot: Option<CacheEntry>, now: int, page: Page, doneAt: int)
    requires SlotValid(slot)
    ensures SlotValid(Step(slot, now, page, doneAt).slot)
  {
  }

  /** After a call installs a result, any call less than the TTL later is served that result without fetching. */
  lemma SecondCallWithinTtl(slot: Option<CacheEntry>, now: int, page: Page, doneAt: int, later: int, page': Page, doneAt': int)
    requires Step(slot, now, page, doneAt).slot != slot
    requires doneAt <= later < doneAt + CacheTtl
    ensures var r := Step(slot, now, page, doneAt);
      Step(r.slot, later, page', doneAt') == StepResult(r.slot, Served(r.outcome.data, false))
  {
    InstallsOnlyNonEmpty(slot, now, page, doneAt);
  }

  /**
   * The module-level `cachedData` of server/api/routers/orario.ts, with `scrap` as its one
   * operation. Only sequential calls are modelled.
   */
  class ScheduleCache {
    var cachedData: Option<CacheEntry>

    /** The slot holds at least one event whenever it is set. */
    ghost predicate Valid()
      reads this
    {
      SlotValid(cachedData)
    }

    /** `let cachedData = null`. */
    constructor ()
      ensures cachedData == None && Valid()
    {
      cachedData := None;
    }

    /** `scrap()`: the call `Step` describes, with the slot updated in place. */
    method Scrap(now: int, page: Page, doneAt: int) returns (outcome: Outcome)
      modifies this
      ensures StepResult(cachedData, outcome) == Step(old(cachedData), now, page, doneAt)
      ensures old(Valid()) ==> Valid()
    {
      if cachedData.Some? && now - cachedData.value.timestamp < CacheTtl {
        return Served(cachedData.value.data, false);
      }
      match page
      case Unavailable =>
        outcome := Thrown;
      case Rendered(columns) =>
        var pageContent := Extract(columns);
        if HasAnyEvent(pageContent) {
          cachedData := Some(CacheEntry(pageContent, doneAt));
        }
        outcome := Served(pageContent, true);
    }
  }
}
