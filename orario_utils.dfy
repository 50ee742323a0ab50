/**
 * The helpers of lib/orario-utils.ts: day names, the heuristic decomposition of an event
 * title into subject, room, instructor and kind, its application to a whole timetable,
 * and the colour chosen for a subject.
 */
module OrarioUtils {
  import opened Wrappers
  import opened JsString
  import opened Schedule
  import opened TitleRegex

  // ---------------------------------------------------------------------------
  // getDayName

  /** The Italian weekday names, Monday first. */
  const Giorni: seq<string> := ["Luned\U{EC}", "Marted\U{EC}", "Mercoled\U{EC}", "Gioved\U{EC}", "Venerd\U{EC}", "Sabato", "Domenica"]

  /**
   * `giorni[dayIndex] || `Giorno ${dayIndex}``: every name in the table is non-empty, so
   * the fallback is taken exactly when the index is outside the table.
   */
  function GetDayName(dayIndex: int): (name: string)
    ensures 0 <= dayIndex < 7 ==> name == Giorni[dayIndex]
    ensures name in Giorni <==> 0 <= dayIndex < 7
    ensures !(0 <= dayIndex < 7) ==> name == "Giorno " + IntToDecimal(dayIndex)
  {
    if 0 <= dayIndex < |Giorni| then Giorni[dayIndex]
    else
      var name := "Giorno " + IntToDecimal(dayIndex);
      assert name[3] == 'r';
      assert forall k :: 0 <= k < 7 ==> Giorni[k][3] != 'r';
      name
  }

  /** The day index a name stands for: a position in the table, or the integer after "Giorno ". */
  function DayIndexOf(name: string): Option<int> {
    if name == Giorni[0] then Some(0)
    else if name == Giorni[1] then Some(1)
    else if name == Giorni[2] then Some(2)
    else if name == Giorni[3] then Some(3)
    else if name == Giorni[4] then Some(4)
    else if name == Giorni[5] then Some(5)
    else if name == Giorni[6] then Some(6)
    else if |name| >= 7 && name[..7] == "Giorno " then ToNumber(name[7..])
    else None
  }

  /** Different day indexes get different names: the index can always be read back. */
  lemma DayNameRoundTrip(dayIndex: int)
    ensures DayIndexOf(GetDayName(dayIndex)) == Some(dayIndex)
  {
    if !(0 <= dayIndex < 7) {
      var digits := IntToDecimal(dayIndex);
      var name := "Giorno " + digits;
      assert GetDayName(dayIndex) == name;
      assert name[..7] == "Giorno " && name[7..] == digits;
      assert forall k :: 0 <= k < 7 ==> name != Giorni[k];
      NumberOfDecimal(dayIndex);
    }
  }

  // ---------------------------------------------------------------------------
  // parseEventTitle

  /** The four fields `parseEventTitle` returns. */
  datatype TitleFields = TitleFields(materia: string, aula: string, docente: string, tipo: string)

  /** `aulaMatch ? aulaMatch[1].trim() : title`, with `aulaMatch = title.match(/^(.+?)Aula/)`. */
  function Materia(title: string): (materia: string)
    ensures materia == title || exists k :: SubjectEndsAt(title, k) && materia == Trim(title[..k])
  {
    match SubjectEnd(title)
    case Some(k) => Trim(title[..k])
    case None => title
  }

  /** `aulaFullMatch ? `Aula ${aulaFullMatch[1].trim()}` : ''`. */
  function Aula(title: string): (aula: string)
    ensures aula == "" <==> FirstRoomMatch(title).None?
    ensures aula == "" || (|aula| >= 5 && aula[..5] == "Aula ")
  {
    match FirstRoomMatch(title)
    case Some(m) => "Aula " + Trim(RoomText(title, m))
    case None => ""
  }

  /** `aulaFullMatch ? aulaFullMatch[2].trim() : ''`; group 2 begins and ends with a letter, so trimming keeps it. */
  function Docente(title: string): (docente: string)
    ensures docente == "" <==> FirstRoomMatch(title).None?
    ensures docente != "" ==> |docente| >= 3 && IsAsciiUpper(docente[0]) && docente[1] == '.'
    ensures docente != "" ==> IsAsciiUpper(docente[|docente| - 1])
    ensures docente == Instructor(title)
  {
    var d := Instructor(title);
    InstructorIffMatch(title);
    TrimOfTrimmed(d);
    Trim(d)
  }

  /** `parseEventTitle(title)`. */
  function ParseEventTitle(title: string): (f: TitleFields)
    ensures !Contains(title, "Aula") ==> f.materia == title && f.aula == "" && f.docente == ""
    ensures f.aula == "" <==> f.docente == ""
    ensures f.aula == "" || (|f.aula| >= 5 && f.aula[..5] == "Aula ")
    ensures f.docente != "" ==> |f.docente| >= 3 && IsAsciiUpper(f.docente[0]) && f.docente[1] == '.'
    ensures f.docente != "" ==> IsAsciiUpper(f.docente[|f.docente| - 1])
    ensures f.tipo == "Laboratorio" <==> Contains(title, "Laboratorio")
    ensures f.tipo == "Laboratorio" || f.tipo == "Lezione"
  {
    var f := TitleFields(Materia(title), Aula(title), Docente(title), if Contains(title, "Laboratorio") then "Laboratorio" else "Lezione");
    AulaOccurs(title);
    f
  }

  /** The room and the instructor are present exactly when the second expression matches somewhere in the title. */
  lemma AulaIffMatch(title: string)
    ensures ParseEventTitle(title).aula != "" <==> exists p, g, L :: IsMatch(title, p, g, L)
  {
    FirstRoomMatchComplete(title);
  }

  /** An "Aula" anywhere in the title is an occurrence for `includes`. */
  lemma AulaOccurs(title: string)
    ensures (exists p :: AulaAt(title, p)) ==> Contains(title, "Aula")
  {
    if p :| AulaAt(title, p) {
      assert OccursAt(title, "Aula", p);
    }
  }

  /** With a first "Aula" at index `k >= 1` and no line break before it, the subject is the trimmed text before it. */
  lemma MateriaBeforeFirstAula(title: string, k: int)
    requires 1 <= k && AulaAt(title, k) && SingleLine(title, 0, k)
    requires forall j :: 1 <= j < k ==> !AulaAt(title, j)
    ensures ParseEventTitle(title).materia == Trim(title[..k])
  {
    assert SubjectEndsAt(title, k);
    var r := SubjectEnd(title);
    assert r.Some? && r.value <= k;
    assert r == Some(k);
    assert Materia(title) == Trim(title[..k]);
  }

  /** An "Aula" only at index 0 is not a subject boundary: the subject is the whole title. */
  lemma MateriaWhenAulaOnlyAtStart(title: string)
    requires forall j :: 1 <= j ==> !AulaAt(title, j)
    ensures ParseEventTitle(title).materia == title
  {
  }

  /** `.` does not match a line terminator, so one before every later "Aula" leaves the whole title as the subject. */
  lemma MateriaAcrossLineBreak(title: string, i: int)
    requires 0 <= i < |title| && IsLineTerminator(title[i])
    requires forall j :: 1 <= j <= i ==> !AulaAt(title, j)
    ensures ParseEventTitle(title).materia == title
  {
  }

  // ---------------------------------------------------------------------------
  // parseOrarioData

  /** One scraped event with its title decomposed; the time is carried over. */
  function ParseEvent(e: RawEvent): (p: ParsedEvent)
    ensures p.time == e.time
    ensures TitleFields(p.materia, p.aula, p.docente, p.tipo) == ParseEventTitle(e.title)
  {
    var f := ParseEventTitle(e.title);
    ParsedEvent(e.time, f.materia, f.aula, f.docente, f.tipo)
  }

  /** `parseOrarioData(rawData)`: the same days, in the same order, with each event parsed in place. */
  function ParseOrarioData(raw: seq<Day<RawEvent>>): (days: seq<Day<ParsedEvent>>)
    ensures |days| == |raw|
    ensures forall i :: 0 <= i < |raw| ==> days[i].day == raw[i].day && |days[i].events| == |raw[i].events|
    ensures forall i, j :: 0 <= i < |raw| && 0 <= j < |raw[i].events| ==> days[i].events[j] == ParseEvent(raw[i].events[j])
  {
    seq(|raw|, i requires 0 <= i < |raw| => Day(raw[i].day, seq(|raw[i].events|, j requires 0 <= j < |raw[i].events| => ParseEvent(raw[i].events[j]))))
  }

  /** Parsing keeps every event's time, so the times of the timetable can be read back unchanged. */
  lemma ParseOrarioDataKeepsTimes(raw: seq<Day<RawEvent>>, i: int, j: int)
    requires 0 <= i < |raw| && 0 <= j < |raw[i].events|
    ensures ParseOrarioData(raw)[i].events[j].time == raw[i].events[j].time
  {
  }

  // ---------------------------------------------------------------------------
  // getMateriaColor

  /** The colours of the four known subjects. */
  const Palette: map<string, string> := map[
    "BASI DI DATI" := "#00D4FF",
    "PROBABILITA E STATISTICA PER L'INFORMATICA" := "#FF3366",
    "SISTEMI OPERATIVI" := "#00FF88",
    "PROGETTAZIONE DEL SOFTWARE" := "#FFAA00"]

  /** The colour of a subject that is not in the palette. */
  const Fallback: string := "#666666"

  /** The property names every object literal inherits from `Object.prototype`. */
  const ObjectPrototypeMembers: set<string> := {
    "constructor", "hasOwnProperty", "isPrototypeOf", "propertyIsEnumerable",
    "toString", "toLocaleString", "valueOf", "__proto__",
    "__defineGetter__", "__defineSetter__", "__lookupGetter__", "__lookupSetter__"}

  /** What `colors[key]` reads on the literal: an own colour, or an inherited member (a function or an object). */
  datatype Lookup = Colour(hex: string) | PrototypeMember(name: string)

  /** `colors[key]`, with `None` for `undefined`. */
  function PropertyOf(key: string): Option<Lookup> {
    if key in Palette then Some(Colour(Palette[key]))
    else if key in ObjectPrototypeMembers then Some(PrototypeMember(key))
    else None
  }

  /** The truthiness `||` tests: a non-empty string or any inherited member. */
  predicate Truthy(v: Option<Lookup>) {
    match v
    case None => false
    case Some(Colour(hex)) => hex != ""
    case Some(PrototypeMember(_)) => true
  }

  /**
   * `colors[normalizedMateria] || colors[materia] || '#666666'` as written, where
   * `normalized` is `materia` after NFD normalisation, accent removal and upper-casing.
   */
  function GetMateriaColorAsWritten(materia: string, normalized: string): (c: Lookup)
    ensures c.Colour? ==> c.hex in Palette.Values || c.hex == Fallback
    ensures c.PrototypeMember? ==> c.name in ObjectPrototypeMembers
  {
    var a := PropertyOf(normalized);
    if Truthy(a) then a.value
    else
      var b := PropertyOf(materia);
      if Truthy(b) then b.value else Colour(Fallback)
  }

  /** The subject "toString" (upper-cased "TOSTRING") gets `Object.prototype.toString`, not a colour. */
  lemma MateriaColorPrototypeLeak()
    ensures GetMateriaColorAsWritten("toString", "TOSTRING") == PrototypeMember("toString")
  {
    assert "TOSTRING" !in Palette && "TOSTRING" !in ObjectPrototypeMembers;
    assert "toString" !in Palette;
  }

  /** The lookup as intended: only the palette's own keys are consulted. */
  function GetMateriaColor(materia: string, normalized: string): (c: string)
    ensures c in Palette.Values || c == Fallback
    ensures normalized in Palette ==> c == Palette[normalized]
    ensures normalized !in Palette && materia in Palette ==> c == Palette[materia]
    ensures c == Fallback <==> normalized !in Palette && materia !in Palette
  {
    if normalized in Palette then Palette[normalized]
    else if materia in Palette then Palette[materia]
    else Fallback
  }

  /** Away from the inherited names, the lookup as written and the intended one agree. */
  lemma MateriaColorAgrees(materia: string, normalized: string)
    requires materia !in ObjectPrototypeMembers && normalized !in ObjectPrototypeMembers
    ensures GetMateriaColorAsWritten(materia, normalized) == Colour(GetMateriaColor(materia, normalized))
  {
  }
}
