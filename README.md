# UniApplication timetable core, modelled in Dafny

UniApplication shows a university's weekly lesson timetable. The server renders the public
calendar page in a headless browser and reads every event card of every day column. It
keeps only the titles that contain "Var", and caches the result in memory for thirty
minutes. Two queries sit on top of the cache: `getOrario` returns the raw timetable, and
`getNextLesson` returns the lessons of a chosen day. For today, `getNextLesson` also
returns the lesson in progress or the next to start. The client splits each event title
into subject, room, instructor and kind with two regular expressions. It draws a week
grid in which each day shows up to three dots for its distinct subjects and a grey dot when
it has more than three events, and a card that pages through one day's lessons.

The model is written on values except where the program changes state in place. Those
places are the module-level cache of the server and the two counters of the lesson card,
and each is a class with a mutable field.

| file | module | models |
|---|---|---|
| wrappers.dfy | `Wrappers` | `Option` |
| js_string.dfy | `JsString` | the JavaScript built-ins the core relies on: `trim`, `includes`, `indexOf`, `endsWith`, `split`, `Number(...)`, integer rendering |
| schedule.dfy | `Schedule` | the timetable records and `find` on days |
| title_regex.dfy | `TitleRegex` | `/^(.+?)Aula/` and `/Aula\s+(.+?)\s+([A-Z]\.\s*[A-Z]+)/` with JavaScript's matching priorities |
| orario_utils.dfy | `OrarioUtils` | lib/orario-utils.ts |
| date_utils.dfy | `DateUtils` | lib/date-utils.ts |
| orario_scraper.dfy | `OrarioScraper` | `scrap` in server/api/routers/orario.ts: extraction and cache |
| orario_router.dfy | `OrarioRouter` | `findNextLesson`, `getOrario` and `getNextLesson` |
| next_lesson_card.dfy | `NextLessonCard` | app/components/NextLessonCard.tsx |
| calendar_view.dfy | `CalendarView` | app/components/CalendarView.tsx |

The regular expressions are not simplified: each search function is proved to return
exactly the match that JavaScript's priorities select. These priorities are the
leftmost start, the longest greedy run and the shortest lazy group, and `.` never matches a
line terminator.

Behaviour of the code worth noting:
- **`/^(.+?)Aula/` and line breaks.** The subject is the text before the first "Aula" at
  index 1 or later, but only when no line terminator comes before it. Otherwise the
  expression fails and the subject is the whole title (`OrarioUtils.MateriaAcrossLineBreak`).
- **Number of days.** Extraction yields one day per calendar column found, numbered by
  position. It does not always yield seven.
- **Index reset on day change.** Only the day buttons of the lesson view reset the lesson
  index. Those of the "nessuna lezione" view do not. `NextLessonCard.DayButtonResetsIndex`
  proves that this changes nothing: while no lesson is shown, the index is already 0.
- **Cache timestamp.** The cache is stamped with a second reading of the clock, taken after
  the fetch (`doneAt`). The reading that decided the cache was stale (`now`) is not used.

## Model

| member | source | states |
|---|---|---|
| JsString.Trim | server/api/routers/orario.ts:45-46 | `trim()` returns an infix of the input with only white space cut off on either side, and the result neither starts nor ends with white space |
| JsString.TrimOfTrimmed | lib/orario-utils.ts:34 | a string that neither starts nor ends with white space is its own trim |
| JsString.Contains | server/api/routers/orario.ts:49 | `includes` holds exactly when the substring occurs at some index |
| JsString.Split | server/api/routers/orario.ts:83 | `split` always yields at least one part |
| JsString.SplitJoin | server/api/routers/orario.ts:83 | joining the parts of `split` with the separator gives the string back |
| JsString.SplitPartsClean | server/api/routers/orario.ts:83 | no part of `split` contains the separator |
| JsString.SplitAtFirst | server/api/routers/orario.ts:86-87 | a first part free of the separator's first character is cut off at the separator after it |
| JsString.SplitWithoutSeparator | server/api/routers/orario.ts:86-87 | a string free of the separator's first character is not cut |
| JsString.ToNumber | server/api/routers/orario.ts:86-87 | `Number` of a digit string is its decimal value, and of an empty or all-white-space string is 0 |
| JsString.NumberRejects | server/api/routers/orario.ts:86-87 | a character that is not a digit, a sign or white space makes `Number` NaN |
| JsString.IntToDecimal | lib/orario-utils.ts:19 | the rendering of an integer is non-empty, and it is all digits exactly when the integer is not negative |
| JsString.DecimalRoundTrip | lib/orario-utils.ts:19 | the decimal rendering of a natural number reads back as that number |
| JsString.NumberOfDecimal | lib/orario-utils.ts:19 | `Number` applied to the rendering of any integer gives the integer back |
| Schedule.FindDayIndex | server/api/routers/orario.ts:143 | `find` on days stops at the first entry with the wanted `day`, and finds nothing only when no entry has it |
| Schedule.FindDayAppend | app/components/CalendarView.tsx:14 | appending entries for other days does not change what `find` returns |
| Schedule.FindDayPrepend | app/components/CalendarView.tsx:14 | prepending entries for other days does not change what `find` returns |
| TitleRegex.SubjectEnd | lib/orario-utils.ts:26 | `/^(.+?)Aula/` matches with group 1 ending at the smallest k >= 1 that has "Aula" at k and no line terminator before it, and fails exactly when there is no such k |
| TitleRegex.InstructorAtIffShape | lib/orario-utils.ts:30 | the deterministic matcher of the tail `\s+[A-Z]\.\s*[A-Z]+` accepts at a position exactly when the tail can match there |
| TitleRegex.FirstRoomMatchSound | lib/orario-utils.ts:30 | what the search returns is a match of the whole second expression |
| TitleRegex.FirstRoomMatchPriorities | lib/orario-utils.ts:30 | the match returned has no match starting earlier, no longer first `\s+` at its start, and no shorter group 1 |
| TitleRegex.FirstRoomMatchComplete | lib/orario-utils.ts:30 | the search finds nothing exactly when the expression matches nowhere in the title |
| TitleRegex.InstructorAtSpan | lib/orario-utils.ts:30 | where the tail matcher accepts at q, its span starts right after the whole run of white space at q and has the shape `[A-Z]\.\s*[A-Z]+` |
| TitleRegex.InstructorAtUnique | lib/orario-utils.ts:30 | any span after white space at q with the shape `[A-Z]\.\s*[A-Z]+` whose capitals run to their end is the tail matcher's span: the greedy runs leave no other choice |
| TitleRegex.InstructorOfFirstMatch | lib/orario-utils.ts:30 | group 2 is the text of the tail's span at the end of the first match's room; only white space lies between the room and it; it has the shape `[A-Z]\.\s*[A-Z]+`; its greedy `[A-Z]+` runs to the end of the capitals |
| TitleRegex.InstructorIffMatch | lib/orario-utils.ts:34 | group 2 is non-empty exactly when the expression matches |
| TitleRegex.Instructor | lib/orario-utils.ts:34 | a non-empty group 2 is `[A-Z]\.\s*[A-Z]+` as a whole: an upper-case letter, a dot, then white space, then only upper-case letters, at least one; so no white space at either end |
| OrarioUtils.GetDayName | lib/orario-utils.ts:16-20 | indexes 0..6 get the Italian weekday names, only these indexes get a name from that table, and any other index i gets "Giorno " followed by the decimal rendering of i |
| OrarioUtils.DayNameRoundTrip | lib/orario-utils.ts:18-20 | the day index can be read back from every name, so different indexes, including those outside 0..6, get different names |
| OrarioUtils.Materia | lib/orario-utils.ts:26-27 | the subject is the whole title, or the trimmed text before a point where the first expression can end |
| OrarioUtils.Aula | lib/orario-utils.ts:30-31 | the room is empty exactly when the second expression does not match, and otherwise begins with "Aula " |
| OrarioUtils.Docente | lib/orario-utils.ts:34 | the instructor is empty exactly when there is no match; otherwise it is an upper-case letter, a dot, and more, ending in an upper-case letter; trimming leaves group 2 as it is |
| OrarioUtils.ParseEventTitle | lib/orario-utils.ts:22-40 | no "Aula" leaves the subject as the title with empty room and instructor; room and instructor are empty together; the room starts with "Aula "; the kind is "Laboratorio" exactly when the title contains it, else "Lezione" |
| OrarioUtils.AulaIffMatch | lib/orario-utils.ts:30-31 | the room is non-empty exactly when some match of the second expression exists |
| OrarioUtils.MateriaBeforeFirstAula | lib/orario-utils.ts:26-27 | with the first "Aula" at index k >= 1 and no line break before it, the subject is the trimmed text before k |
| OrarioUtils.MateriaWhenAulaOnlyAtStart | lib/orario-utils.ts:26-27 | an "Aula" only at index 0 leaves the whole title as the subject |
| OrarioUtils.MateriaAcrossLineBreak | lib/orario-utils.ts:26-27 | a line terminator before every "Aula" at index 1 or later leaves the whole title as the subject |
| OrarioUtils.ParseEvent | lib/orario-utils.ts:45-50 | a parsed event keeps its time and carries the four fields of its title |
| OrarioUtils.ParseOrarioData | lib/orario-utils.ts:42-53 | same number of days, same `day` and event count for each, every event parsed in place |
| OrarioUtils.ParseOrarioDataKeepsTimes | lib/orario-utils.ts:48 | every event keeps its time |
| OrarioUtils.GetMateriaColorAsWritten | lib/orario-utils.ts:56-68 | the lookup as written yields a palette colour, the fallback, or an inherited `Object.prototype` member |
| OrarioUtils.MateriaColorPrototypeLeak | lib/orario-utils.ts:67 | the subject "toString" gets `Object.prototype.toString` instead of a colour |
| OrarioUtils.GetMateriaColor | lib/orario-utils.ts:56-68 | the intended lookup always yields one of the four colours or "#666666": the normalised name first, then the name as given, then the fallback |
| OrarioUtils.MateriaColorAgrees | lib/orario-utils.ts:67 | away from inherited property names, the lookup as written and the intended one agree |
| DateUtils.GetDayOfWeek | lib/date-utils.ts:19-22 | luxon weekdays 1..7 map into 0..6 |
| DateUtils.DayOfWeekIsPredecessor | lib/date-utils.ts:21 | the result is `weekday - 1` for every weekday, Sunday's special case included |
| DateUtils.DayOfWeekBijective | lib/date-utils.ts:19-22 | every index 0..6 belongs to exactly one weekday |
| DateUtils.TimeToMinutes | lib/date-utils.ts:31-39 | a result is never more than 99 * 60 + 99 |
| DateUtils.TimeToMinutesAccepts | lib/date-utils.ts:32-33 | the result is non-null exactly when the whole string is 1 or 2 digits, ":", and 2 digits |
| DateUtils.TimeToMinutesValue | lib/date-utils.ts:35-38 | on a match the result is hours * 60 + minutes |
| DateUtils.NoRangeCheck | lib/date-utils.ts:35-38 | "99:99" gives 6039: neither group is range-checked |
| DateUtils.RangeIsNotAClockTime | lib/date-utils.ts:32 | the anchors reject a whole "10:30 - 12:30" range |
| DateUtils.TwoDigitsValue | lib/date-utils.ts:35-36 | a number below 100 written with two digits reads back as itself |
| DateUtils.PaddedRoundTrip | lib/date-utils.ts:31-38 | "HH:MM" of h, m < 100 gives h * 60 + m |
| DateUtils.UnpaddedRoundTrip | lib/date-utils.ts:31-38 | "H:MM", with the hour printed without padding, of h, m < 100 gives h * 60 + m |
| OrarioScraper.KeepVar | server/api/routers/orario.ts:49 | the filter keeps no more events than it is given, and every kept title contains "Var" |
| OrarioScraper.KeepVarSingle | server/api/routers/orario.ts:49 | one event is kept exactly when its title contains "Var" |
| OrarioScraper.KeepVarAppend | server/api/routers/orario.ts:49 | the filter works piece by piece and keeps the DOM order |
| OrarioScraper.Extract | server/api/routers/orario.ts:40-52 | one day per column, with `day` the column's index |
| OrarioScraper.ExtractKeepsCard | server/api/routers/orario.ts:44-51 | a card of column i whose title contains "Var" is among day i's events, and all of day i's events contain "Var" |
| OrarioScraper.ReadCardDefaults | server/api/routers/orario.ts:45-46 | a missing time or title element reads as "", and a present one as its trimmed text |
| OrarioScraper.StateOf | server/api/routers/orario.ts:14 | the slot is empty exactly when it is null, and fresh exactly when it is set and younger than the TTL |
| OrarioScraper.FreshServesCache | server/api/routers/orario.ts:14-17 | a fresh slot is returned unchanged, without fetching, and is left as it was |
| OrarioScraper.InstallsOnlyNonEmpty | server/api/routers/orario.ts:58-62 | the slot changes only to install a fetched result in which some day has an event, stamped with the clock reading taken after the fetch |
| OrarioScraper.StaleInstalls | server/api/routers/orario.ts:58-62 | a slot that is not fresh, plus a page with an event, installs and returns that page's timetable |
| OrarioScraper.EmptyResultNotCached | server/api/routers/orario.ts:63-67 | a fetched timetable without any event leaves the slot exactly as it was, and is still returned |
| OrarioScraper.FailureKeepsSlot | server/api/routers/orario.ts:24-31 | a failed fetch rejects the call and leaves the slot as it was |
| OrarioScraper.StepKeepsInvariant | server/api/routers/orario.ts:9 | whenever the slot is set, its data holds at least one event, after every call |
| OrarioScraper.SecondCallWithinTtl | server/api/routers/orario.ts:10-17 | after an install, a call less than thirty minutes later is served the installed data without fetching |
| OrarioScraper.ScheduleCache.Scrap | server/api/routers/orario.ts:12-71 | the new slot and the result are those of the state machine, and the invariant of the slot is kept |
| OrarioRouter.ClockMinutes | server/api/routers/orario.ts:91-92 | `h * 60 + m` is NaN exactly when an operand is |
| OrarioRouter.NonNull | server/api/routers/orario.ts:94 | the filter keeps exactly the lessons that were parsed: everything kept was parsed, and every non-null parsed lesson is kept |
| OrarioRouter.ParseLessons | server/api/routers/orario.ts:82-94 | every lesson of the result is the parse of some input lesson, and every input lesson that parses is in the result |
| OrarioRouter.NonNullAppend | server/api/routers/orario.ts:94 | the filter works piece by piece and keeps the order |
| OrarioRouter.ParseLessonsAppend | server/api/routers/orario.ts:82-94 | parsing works lesson by lesson and keeps the order |
| OrarioRouter.ParseLessonShape | server/api/routers/orario.ts:83-90 | a lesson is parsed exactly when its time splits on " - " into two pieces, and keeps its time and title |
| OrarioRouter.PieceOfClockTime | server/api/routers/orario.ts:86-87 | "HH:MM" is read as hours * 60 + minutes |
| OrarioRouter.ParseFormattedTime | server/api/routers/orario.ts:82-93 | a time written "HH:MM - HH:MM" parses to the minutes of its start and of its end |
| OrarioRouter.FirstInProgress | server/api/routers/orario.ts:97-99 | the first lesson with start <= now <= end, with NaN bounds never in progress |
| OrarioRouter.EarliestAfter | server/api/routers/orario.ts:106-108 | a lesson starting after now with the least start, the first in input order among equal starts (the sort is stable) |
| OrarioRouter.SelectLesson | server/api/routers/orario.ts:96-114 | the chosen lesson is one of the parsed lessons; a current one is in progress, a next one starts after now |
| OrarioRouter.FindNextLesson | server/api/routers/orario.ts:74-115 | null when the day is not today; otherwise the lesson chosen is parsed, in progress if current, and starting later if next |
| OrarioRouter.CurrentIsFirstInProgress | server/api/routers/orario.ts:97-103 | the first lesson in progress is returned as current |
| OrarioRouter.NextIsEarliestAfter | server/api/routers/orario.ts:106-112 | with none in progress, the earliest later start, first among equals, is returned as next |
| OrarioRouter.NoneWhenNothingAhead | server/api/routers/orario.ts:114 | today the result is null exactly when no lesson is in progress and none starts later |
| OrarioRouter.MalformedIgnored | server/api/routers/orario.ts:83-84 | inserting a lesson whose time does not split into two pieces changes nothing |
| OrarioRouter.SameParsedSameChoice | server/api/routers/orario.ts:96-114 | the choice depends on the lessons only through their parsed form |
| OrarioRouter.WellFormedParsesToItself | server/api/routers/orario.ts:83-94 | a lesson whose time splits into two pieces is kept, as its parsed form |
| OrarioRouter.MalformedParsesToNothing | server/api/routers/orario.ts:84 | a lesson without two time pieces parses to nothing |
| OrarioRouter.ChosenHasNumbers | server/api/routers/orario.ts:97-108 | a chosen lesson never has a NaN start, and a current one never a NaN end |
| OrarioRouter.AdjustedDay | server/api/routers/orario.ts:138-139 | JavaScript's weekday is mapped into 0..6, Sunday to 6, every other day d to d - 1 |
| OrarioRouter.AdjustedDayAgrees | server/api/routers/orario.ts:139 | the server's conversion agrees with `getDayOfWeek` on the same day |
| OrarioRouter.NextLessonFor | server/api/routers/orario.ts:138-167 | the day's name and date; with lessons, `totalLessons` is their number and is positive; `nextLesson` is null unless the offset is 0 |
| OrarioRouter.NextLessonForDay | server/api/routers/orario.ts:143-166 | lessons exactly when the first entry for the day exists and has events, which are then the lessons; for today, `nextLesson` is `findNextLesson` of them |
| OrarioRouter.GetOrario | server/api/routers/orario.ts:118-122 | the reply is what `scrap` resolves to, with the cache updated as `scrap` does |
| OrarioRouter.GetNextLesson | server/api/routers/orario.ts:124-168 | `scrap`, then the reply for the day; a rejection when `scrap` rejects |
| NextLessonCard.StripTrailingL | app/components/NextLessonCard.tsx:26-28 | one trailing "L" is removed when there is one, and otherwise nothing changes |
| NextLessonCard.ParseEventTitleCard | app/components/NextLessonCard.tsx:17-33 | the instructor is non-empty exactly when the room is, and still begins with an upper-case letter and a dot after the strip |
| NextLessonCard.CardAgreesWithLibrary | app/components/NextLessonCard.tsx:18-30 | subject, room and kind equal the library's; the instructor is the library's with exactly one trailing "L" removed when present |
| NextLessonCard.HasLessonsIsServerFlag | app/components/NextLessonCard.tsx:95 | on a server reply, `hasLessons` is the server's flag: its length test never fails |
| NextLessonCard.BadgesExclusive | app/components/NextLessonCard.tsx:144-149 | "in corso" and "prossima" are never both shown, and each needs the same time string as the shown lesson |
| NextLessonCard.NoBadgeOnOtherDays | app/components/NextLessonCard.tsx:144-149 | on any day but today neither badge is shown |
| NextLessonCard.DayButtonsMoveOffset | app/components/NextLessonCard.tsx:110-121 | "previous day" sets the offset to max(offset - 1, 0), so never below today, and "next day" adds one |
| NextLessonCard.DayButtonResetsIndex | app/components/NextLessonCard.tsx:161-178 | after an enabled day button the lesson index is 0, in both views |
| NextLessonCard.LessonButtonsStayInRange | app/components/NextLessonCard.tsx:255-268 | the lesson buttons keep the index within [0, lessons.length - 1] and leave the day alone |
| NextLessonCard.ClickKeepsInvariant | app/components/NextLessonCard.tsx:140 | every click keeps the offset non-negative and the index a position of the lessons shown, so `lessons[currentLessonIndex]` is always a lesson |
| NextLessonCard.CurrentLesson | app/components/NextLessonCard.tsx:140 | the lesson on screen is one of the day's lessons |
| NextLessonCard.LessonNavigator.GoPreviousDay | app/components/NextLessonCard.tsx:110-165 | the counters change as the "previous day" transition says |
| NextLessonCard.LessonNavigator.GoNextDay | app/components/NextLessonCard.tsx:121-178 | the counters change as the "next day" transition says |
| NextLessonCard.LessonNavigator.ShowPreviousLesson | app/components/NextLessonCard.tsx:255-257 | the counters change as the "previous lesson" transition says |
| NextLessonCard.LessonNavigator.ShowNextLesson | app/components/NextLessonCard.tsx:265-268 | the counters change as the "next lesson" transition says |
| CalendarView.WeekDays | app/components/CalendarView.tsx:13-20 | seven cells, cell i has `day = i`, and `hasEvents` holds exactly when its events are non-empty |
| CalendarView.WeekDayEvents | app/components/CalendarView.tsx:14-18 | a cell holds the events of the first timetable entry for its day, or none |
| CalendarView.WeekDaysIgnoreOtherIndexes | app/components/CalendarView.tsx:13-14 | entries for day indexes outside 0..6 do not affect the week |
| CalendarView.Distinct | app/components/CalendarView.tsx:23-24 | `Array.from(new Set(xs))` holds every element of the input, only those, each once |
| CalendarView.DistinctFirstOccurrenceOrder | app/components/CalendarView.tsx:23-24 | the elements come out in the order of their first occurrence |
| CalendarView.GetEventDots | app/components/CalendarView.tsx:22-25 | at most three dots, all different, each a subject of the day |
| CalendarView.EventDotsSpec | app/components/CalendarView.tsx:22-25 | the dots are in first-occurrence order and are the first distinct subjects: a subject that first appears no later than some dot's subject has a dot; with fewer than three dots every subject of the day has one |
| CalendarView.OverflowCountsEvents | app/components/CalendarView.tsx:98-100 | the grey dot appears exactly when the day has more than three events |
| CalendarView.OverflowWithOneSubject | app/components/CalendarView.tsx:98-100 | four lessons of one subject give one subject dot and the grey dot: events are counted, not subjects |
| CalendarView.OneCellIsToday | app/components/CalendarView.tsx:39-40 | `todayIndex` marks exactly one of the seven cells |
| CalendarView.SelectOnlyWithEvents | app/components/CalendarView.tsx:70 | a click selects a day only when the cell has events, and then selects that day with those events |

## Left out

- Browser I/O: launching the browser, navigating with `networkidle2` and a 30 s timeout, `page.evaluate`, and closing the browser in `finally`. A call instead receives the columns the page would yield, or an `Unavailable` page that rejects it.
- Concurrency: sequential calls only. `scrap` has no single-flight guard, and the model adds none.
- Clocks and time zones: `Date.now()`, `new Date()`, `setDate`, `getHours`, `toISOString`, and the luxon wrappers `getCurrentItalianDateTime`, `formatDate`, `addDays` and `minutesToTime`. The weekday, the minutes since midnight, the date string and the two clock readings of `scrap` are parameters.
- Unicode: strings are sequences of Unicode scalar values, not UTF-16 code units. NFD normalisation, accent stripping and upper-casing in the colour lookups are a parameter (`normalized`).
- `getMateriaColorMap` and the dot colours of NextLessonCard.tsx: that function is not part of this model. The local `getMateriaColor` of CalendarView.tsx (lines 27-37) is the same lookup as lib/orario-utils.ts and is modelled once, by `OrarioUtils.GetMateriaColorAsWritten`.
- app/components/CalendarDayDialog.tsx: pixel layout with fractional arithmetic.
- Rendering, React state plumbing, tRPC and zod wiring, React Query settings, the UI-only files and the loading and error views (they have no buttons), and all `console` logging.
- JsString.IntToDecimal: integers are exact and unbounded. JavaScript renders a number exactly only below 2^53 in magnitude; beyond that it prints the rounded double, and from 10^21 on it uses exponent form ("1e+21").
- OrarioUtils.GetDayName: only integer indexes are modelled. JavaScript also accepts a non-integer or NaN and gives "Giorno 2.5" or "Giorno NaN".
- OrarioRouter.NextLessonFor: the weekday and the date string are parameters. A `dayOffset` large enough to make the target date invalid, so that `toISOString` throws, is not modelled.
- JsString.ToNumber: a digit string is read as an exact integer; JavaScript rounds it to a double past 2^53. Only the integer decimal forms of `Number` (optional sign, digits, surrounding white space, the empty string). Fractions, exponents, hexadecimal, binary and octal literals and "Infinity" give NaN in the model.
- NextLessonCard.ClickKeepsInvariant: assumes the reply shown for a day offset does not change while it is on screen. A refetch that returns fewer lessons for the same offset is not modelled.
- Extraction: a column yields its events in DOM order. Which cards the page contains is outside the model.

## Findings

| source | as written | input that shows it | evidently intended | confidence | as-written member | corrected member |
|---|---|---|---|---|---|---|
| lib/orario-utils.ts:67 | the fallback chain over `colors[normalizedMateria]`, then `colors[materia]`, then "#666666" reads the object literal through its prototype, so a subject named like an `Object.prototype` member gets that member: a function, not a colour | subject "toString" (normalised "TOSTRING"): `colors["TOSTRING"]` is undefined and `colors["toString"]` is `Object.prototype.toString` | only the palette's own keys are consulted, so the result is always one of the four colours or "#666666" | not executed | OrarioUtils.GetMateriaColorAsWritten (OrarioUtils.MateriaColorPrototypeLeak) | OrarioUtils.GetMateriaColor (OrarioUtils.MateriaColorAgrees) |
