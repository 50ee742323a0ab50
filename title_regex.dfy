/**
 * The two regular expressions with which an event title is taken apart:
 *
 *   /^(.+?)Aula/                                  the subject, before the first "Aula"
 *   /Aula\s+(.+?)\s+([A-Z]\.\s*[A-Z]+)/           the room (group 1) and the instructor (group 2)
 *
 * Both are modelled with JavaScript's matching priorities: the unanchored expression is
 * tried at the leftmost position first, a greedy `\s+` prefers its longest run, a lazy
 * `(.+?)` its shortest, and `.` matches everything but a line terminator. Each search
 * function is proved to return exactly the match these priorities select.
 */
module TitleRegex {
  import opened Wrappers
  import opened JsString

  /** "Aula" starts at index `p` of `s`. */
  predicate AulaAt(s: string, p: int) {
    0 <= p && p + 4 <= |s| && s[p..p + 4] == "Aula"
  }

  /** `s[lo..hi]` holds no line terminator, so `.` matches each of its characters. */
  predicate SingleLine(s: string, lo: int, hi: int) {
    0 <= lo <= hi <= |s| && forall i :: lo <= i < hi ==> !IsLineTerminator(s[i])
  }

  // ---------------------------------------------------------------------------
  // /^(.+?)Aula/

  /** The anchored group `(.+?)` can span `s[..k]` with "Aula" right after it. */
  predicate SubjectEndsAt(s: string, k: int) {
    1 <= k && AulaAt(s, k) && SingleLine(s, 0, k)
  }

  /** The shortest group end `k' >= k`, trying the lengths in the lazy quantifier's order. */
  function SubjectSearch(s: string, k: nat): (r: Option<nat>)
    requires 1 <= k <= |s| + 1 && SingleLine(s, 0, k - 1)
    ensures r.Some? ==> k <= r.value && SubjectEndsAt(s, r.value)
    ensures r.Some? ==> forall k' :: k <= k' < r.value ==> !SubjectEndsAt(s, k')
    ensures r.None? ==> forall k' :: k <= k' ==> !SubjectEndsAt(s, k')
    decreases |s| - k
  {
    if k + 4 > |s| then None
    else if IsLineTerminator(s[k - 1]) then None
    else if s[k..k + 4] == "Aula" then Some(k)
    else SubjectSearch(s, k + 1)
  }

  /** Where group 1 of `/^(.+?)Aula/` ends, or `None` when the expression does not match. */
  function SubjectEnd(s: string): (r: Option<nat>)
    ensures r.Some? ==> SubjectEndsAt(s, r.value) && forall k :: 1 <= k < r.value ==> !SubjectEndsAt(s, k)
    ensures r.None? ==> forall k :: !SubjectEndsAt(s, k)
  {
    SubjectSearch(s, 1)
  }

  // ---------------------------------------------------------------------------
  // /Aula\s+(.+?)\s+([A-Z]\.\s*[A-Z]+)/

  /** The length of the run of white space that starts at `q`. */
  function WhiteSpaceRun(s: string, q: nat): (n: nat)
    requires q <= |s|
    ensures q + n <= |s|
    decreases |s| - q
  {
    if q < |s| && IsWhiteSpace(s[q]) then 1 + WhiteSpaceRun(s, q + 1) else 0
  }

  /** `WhiteSpaceRun` covers white space only, and the longest such run. */
  lemma {:induction false} WhiteSpaceRunSpec(s: string, q: nat)
    requires q <= |s|
    ensures var n := WhiteSpaceRun(s, q);
      && (forall i :: q <= i < q + n ==> IsWhiteSpace(s[i]))
      && (q + n == |s| || !IsWhiteSpace(s[q + n]))
    decreases |s| - q
  {
    if q < |s| && IsWhiteSpace(s[q]) {
      WhiteSpaceRunSpec(s, q + 1);
    }
  }

  /** The length of the run of `[A-Z]` letters that starts at `q`. */
  function UpperRun(s: string, q: nat): (n: nat)
    requires q <= |s|
    ensures q + n <= |s|
    decreases |s| - q
  {
    if q < |s| && IsAsciiUpper(s[q]) then 1 + UpperRun(s, q + 1) else 0
  }

  /** `UpperRun` covers upper-case letters only, and the longest such run. */
  lemma {:induction false} UpperRunSpec(s: string, q: nat)
    requires q <= |s|
    ensures var n := UpperRun(s, q);
      && (forall i :: q <= i < q + n ==> IsAsciiUpper(s[i]))
      && (q + n == |s| || !IsAsciiUpper(s[q + n]))
    decreases |s| - q
  {
    if q < |s| && IsAsciiUpper(s[q]) {
      UpperRunSpec(s, q + 1);
    }
  }

  /** A span `s[start..end]` of a string. */
  datatype Span = Span(start: nat, end: nat)

  /**
   * The tail `\s+([A-Z]\.\s*[A-Z]+)` matched at `q`, giving the span of the group.
   * Its greedy runs never need to give characters back: what follows each of them is
   * an upper-case letter, which is not white space.
   */
  function InstructorAt(s: string, q: nat): (r: Option<Span>)
    requires q <= |s|
    ensures r.Some? ==> q < r.value.start && r.value.start + 3 <= r.value.end <= |s|
    ensures r.Some? ==> IsAsciiUpper(s[r.value.start]) && s[r.value.start + 1] == '.'
    ensures r.Some? ==> IsAsciiUpper(s[r.value.end - 1])
    ensures r.Some? ==> r.value.end == |s| || !IsAsciiUpper(s[r.value.end])
  {
    var w := WhiteSpaceRun(s, q);
    var d := q + w;
    if w == 0 || d + 2 > |s| || !IsAsciiUpper(s[d]) || s[d + 1] != '.' then None
    else
      var v := WhiteSpaceRun(s, d + 2);
      var c := UpperRun(s, d + 2 + v);
      UpperRunSpec(s, d + 2 + v);
      if c == 0 then None else Some(Span(d, d + 2 + v + c))
  }

  /** The tail's shape with the lengths `w`, `v`, `c` of `\s+`, `\s*` and `[A-Z]+` given. */
  ghost predicate InstructorShape(s: string, q: int, w: int, v: int, c: int) {
    && 0 <= q && 1 <= w && 0 <= v && 1 <= c && q + w + 2 + v + c <= |s|
    && (forall i :: q <= i < q + w ==> IsWhiteSpace(s[i]))
    && IsAsciiUpper(s[q + w]) && s[q + w + 1] == '.'
    && (forall i :: q + w + 2 <= i < q + w + 2 + v ==> IsWhiteSpace(s[i]))
    && (forall i :: q + w + 2 + v <= i < q + w + 2 + v + c ==> IsAsciiUpper(s[i]))
  }

  /** Any run of white space at `q` is no longer than `WhiteSpaceRun(s, q)`. */
  lemma WhiteSpaceRunLongest(s: string, q: nat, n: nat)
    requires q + n <= |s| && forall i :: q <= i < q + n ==> IsWhiteSpace(s[i])
    ensures n <= WhiteSpaceRun(s, q)
  {
    WhiteSpaceRunSpec(s, q);
  }

  /** What the tail matcher accepts has the tail's shape. */
  lemma InstructorAtShape(s: string, q: nat)
    requires q <= |s| && InstructorAt(s, q).Some?
    ensures exists w, v, c :: InstructorShape(s, q, w, v, c)
  {
    var w := WhiteSpaceRun(s, q);
    var d := q + w;
    var v := WhiteSpaceRun(s, d + 2);
    var c := UpperRun(s, d + 2 + v);
    WhiteSpaceRunSpec(s, q);
    WhiteSpaceRunSpec(s, d + 2);
    UpperRunSpec(s, d + 2 + v);
    assert InstructorShape(s, q, w, v, c);
  }

  /** Whatever has the tail's shape, the tail matcher accepts. */
  lemma ShapeInstructorAt(s: string, q: nat, w: int, v: int, c: int)
    requires q <= |s| && InstructorShape(s, q, w, v, c)
    ensures InstructorAt(s, q).Some?
  {
    WhiteSpaceRunLongest(s, q, w);
    WhiteSpaceRunSpec(s, q);
    var d := q + w;
    WhiteSpaceRunLongest(s, d + 2, v);
    WhiteSpaceRunSpec(s, d + 2);
    assert IsAsciiUpper(s[d + 2 + v]);
  }

  /** The deterministic tail matcher accepts exactly the strings the tail's shape describes. */
  lemma InstructorAtIffShape(s: string, q: nat)
    requires q <= |s|
    ensures InstructorAt(s, q).Some? <==> exists w, v, c :: InstructorShape(s, q, w, v, c)
  {
    if InstructorAt(s, q).Some? {
      InstructorAtShape(s, q);
    }
    if w, v, c :| InstructorShape(s, q, w, v, c) {
      ShapeInstructorAt(s, q, w, v, c);
    }
  }

  /**
   * Group 2, `[A-Z]\.\s*[A-Z]+`, covering exactly `s[start..end]`: a capital and a dot, then
   * white space, then capitals only, at least one.
   */
  predicate GroupTwoAt(s: string, start: int, end: int) {
    && 0 <= start && start + 3 <= end <= |s|
    && IsAsciiUpper(s[start]) && s[start + 1] == '.' && IsAsciiUpper(s[end - 1])
    && (forall i :: start + 2 <= i < end ==> IsWhiteSpace(s[i]) || IsAsciiUpper(s[i]))
    && (forall i, j :: start + 2 <= i < j < end && IsAsciiUpper(s[i]) ==> IsAsciiUpper(s[j]))
  }

  /** Group 2 read off a span is group 2 of the text cut out at that span. */
  lemma GroupTwoOfSlice(s: string, start: int, end: int)
    requires GroupTwoAt(s, start, end)
    ensures GroupTwoAt(s[start..end], 0, end - start)
  {
    var t := s[start..end];
    assert forall i :: 0 <= i < |t| ==> t[i] == s[start + i];
  }

  /** Any run of capitals at `q` is no longer than `UpperRun(s, q)`. */
  lemma UpperRunLongest(s: string, q: nat, n: nat)
    requires q + n <= |s| && forall i :: q <= i < q + n ==> IsAsciiUpper(s[i])
    ensures n <= UpperRun(s, q)
  {
    UpperRunSpec(s, q);
  }

  /**
   * Where the tail matcher accepts, its span is group 2 laid over the text right after the
   * whole run of white space at `q`.
   */
  lemma InstructorAtSpan(s: string, q: nat)
    requires q <= |s| && InstructorAt(s, q).Some?
    ensures var span := InstructorAt(s, q).value;
      && span.start == q + WhiteSpaceRun(s, q)
      && (forall i :: q <= i < span.start ==> IsWhiteSpace(s[i]))
      && GroupTwoAt(s, span.start, span.end)
  {
    var d := q + WhiteSpaceRun(s, q);
    var v := WhiteSpaceRun(s, d + 2);
    WhiteSpaceRunSpec(s, q);
    WhiteSpaceRunSpec(s, d + 2);
    UpperRunSpec(s, d + 2 + v);
  }

  /**
   * The tail matcher's span is the only one the tail can take at `q` with its last `[A-Z]+`
   * run to the end of the capitals: the greedy `\s+`, `\s*` and `[A-Z]+` leave no choice.
   */
  lemma InstructorAtUnique(s: string, q: nat, start: int, end: int)
    requires GroupTwoAt(s, start, end) && (end == |s| || !IsAsciiUpper(s[end]))
    requires q < start && (forall i :: q <= i < start ==> IsWhiteSpace(s[i]))
    ensures InstructorAt(s, q) == Some(Span(start, end))
  {
    WhiteSpaceRunLongest(s, q, start - q);
    WhiteSpaceRunSpec(s, q);
    assert start == q + WhiteSpaceRun(s, q);
    var v := WhiteSpaceRun(s, start + 2);
    WhiteSpaceRunSpec(s, start + 2);
    var p := start + 2 + v;
    assert p < end;
    forall i | p <= i < end
      ensures IsAsciiUpper(s[i])
    {
      assert IsAsciiUpper(s[p]);
    }
    UpperRunLongest(s, p, end - p);
    UpperRunSpec(s, p);
  }

  /** The positions of `s` at which the tail matches. */
  function TailPositions(s: string): (t: set<nat>)
    ensures forall q :: q in t ==> q <= |s|
  {
    set q: nat | q <= |s| && InstructorAt(s, q).Some?
  }

  /** Membership in `TailPositions` is the tail matcher's verdict. */
  lemma TailPositionsMeans(s: string, q: nat)
    requires q <= |s|
    ensures q in TailPositions(s) <==> InstructorAt(s, q).Some?
  {
  }

  // The search below is stated over any set `tail` of positions at which the tail is taken
  // to match; the expression itself is the instance `tail == TailPositions(s)`.

  /** The lazy group `(.+?)` spans `s[g..g + L]` and the tail matches right after it. */
  ghost predicate RoomThenTail(s: string, tail: set<nat>, g: int, L: int) {
    1 <= L && SingleLine(s, g, g + L) && g + L in tail
  }

  /** The first group length from `L` on, in the lazy quantifier's order, after which the tail matches. */
  function LazyRoom(s: string, tail: set<nat>, g: nat, L: nat): Option<nat>
    requires 1 <= L
    decreases |s| - (g + L)
  {
    if g + L > |s| then None
    else if IsLineTerminator(s[g + L - 1]) then None
    else if g + L in tail then Some(L)
    else LazyRoom(s, tail, g, L + 1)
  }

  /** `LazyRoom` returns the shortest group length `>= L` that works, and `None` when none does. */
  lemma {:induction false} LazyRoomSpec(s: string, tail: set<nat>, g: nat, L: nat)
    requires 1 <= L && SingleLine(s, g, g + L - 1)
    ensures var r := LazyRoom(s, tail, g, L);
      && (r.Some? ==> L <= r.value && RoomThenTail(s, tail, g, r.value))
      && (r.Some? ==> forall L' :: L <= L' < r.value ==> !RoomThenTail(s, tail, g, L'))
      && (r.None? ==> forall L' :: L <= L' ==> !RoomThenTail(s, tail, g, L'))
    decreases |s| - (g + L)
  {
    if g + L <= |s| && !IsLineTerminator(s[g + L - 1]) && g + L !in tail {
      LazyRoomSpec(s, tail, g, L + 1);
    }
  }

  /** A match: "Aula" at `p`, a first white-space run of length `gap`, a lazy group of length `room`, then the tail. */
  ghost predicate IsMatchIn(s: string, tail: set<nat>, p: int, gap: int, room: int) {
    && AulaAt(s, p) && 1 <= gap && p + 4 + gap <= |s|
    && (forall i :: p + 4 <= i < p + 4 + gap ==> IsWhiteSpace(s[i]))
    && RoomThenTail(s, tail, p + 4 + gap, room)
  }

  /** A match of the whole expression `Aula\s+(.+?)\s+([A-Z]\.\s*[A-Z]+)`. */
  ghost predicate IsMatch(s: string, p: int, gap: int, room: int) {
    IsMatchIn(s, TailPositions(s), p, gap, room)
  }

  /** The choices a match makes: where it starts, how long `\s+` is, how long `(.+?)` is. */
  datatype RoomMatch = RoomMatch(at: nat, gap: nat, room: nat)

  /** A match's first white-space run cannot be longer than the run that is there. */
  lemma GapBound(s: string, tail: set<nat>, p: nat)
    requires p + 4 <= |s|
    ensures forall gap, room :: IsMatchIn(s, tail, p, gap, room) ==> gap <= WhiteSpaceRun(s, p + 4)
  {
    WhiteSpaceRunSpec(s, p + 4);
  }

  /** Backtracking at `p`: the longest first run `<= gap` for which some group length works, with the shortest such group. */
  function GreedyGap(s: string, tail: set<nat>, p: nat, gap: nat): (r: Option<RoomMatch>)
    ensures r.Some? ==> r.value.at == p && 1 <= r.value.gap <= gap
    decreases gap
  {
    if gap == 0 then None
    else match LazyRoom(s, tail, p + 4 + gap, 1)
      case Some(L) => Some(RoomMatch(p, gap, L))
      case None => GreedyGap(s, tail, p, gap - 1)
  }

  /** What `GreedyGap` returns is a match at `p`, and its group is the shortest one for that run. */
  lemma {:induction false} GreedyGapSound(s: string, tail: set<nat>, p: nat, gap: nat)
    requires AulaAt(s, p) && gap <= WhiteSpaceRun(s, p + 4)
    ensures var r := GreedyGap(s, tail, p, gap);
      r.Some? ==> IsMatchIn(s, tail, p, r.value.gap, r.value.room) && forall L' :: L' < r.value.room ==> !IsMatchIn(s, tail, p, r.value.gap, L')
    decreases gap
  {
    if gap > 0 {
      var g := p + 4 + gap;
      LazyRoomSpec(s, tail, g, 1);
      WhiteSpaceRunSpec(s, p + 4);
      match LazyRoom(s, tail, g, 1)
      case Some(L) =>
        assert GreedyGap(s, tail, p, gap) == Some(RoomMatch(p, gap, L));
        assert forall L' :: L' < L ==> !IsMatchIn(s, tail, p, gap, L');
      case None =>
        assert GreedyGap(s, tail, p, gap) == GreedyGap(s, tail, p, gap - 1);
        GreedyGapSound(s, tail, p, gap - 1);
    }
  }

  /** No longer first run than the one `GreedyGap` picks leads to a match, and `None` means no run does. */
  lemma {:induction false} GreedyGapLongest(s: string, tail: set<nat>, p: nat, gap: nat)
    requires AulaAt(s, p) && gap <= WhiteSpaceRun(s, p + 4)
    ensures var r := GreedyGap(s, tail, p, gap);
      && (r.Some? ==> forall g', L' :: r.value.gap < g' <= gap ==> !IsMatchIn(s, tail, p, g', L'))
      && (r.None? ==> forall g', L' :: g' <= gap ==> !IsMatchIn(s, tail, p, g', L'))
    decreases gap
  {
    if gap > 0 {
      var g := p + 4 + gap;
      LazyRoomSpec(s, tail, g, 1);
      if LazyRoom(s, tail, g, 1).None? {
        assert GreedyGap(s, tail, p, gap) == GreedyGap(s, tail, p, gap - 1);
        assert forall L' :: !IsMatchIn(s, tail, p, gap, L');
        GreedyGapLongest(s, tail, p, gap - 1);
      }
    }
  }

  /** The leftmost start at or after `p` where backtracking succeeds, with the choices `GreedyGap` makes there. */
  function ScanFrom(s: string, tail: set<nat>, p: nat): Option<RoomMatch>
    decreases |s| - p
  {
    if p + 4 > |s| then None
    else if s[p..p + 4] == "Aula" then
      match GreedyGap(s, tail, p, WhiteSpaceRun(s, p + 4))
      case Some(m) => Some(m)
      case None => ScanFrom(s, tail, p + 1)
    else ScanFrom(s, tail, p + 1)
  }

  /** What `ScanFrom` returns is a match from `p` on, with the longest first run and then the shortest group there. */
  lemma {:induction false} ScanFromSound(s: string, tail: set<nat>, p: nat)
    ensures var r := ScanFrom(s, tail, p);
      && (r.Some? ==> p <= r.value.at && IsMatchIn(s, tail, r.value.at, r.value.gap, r.value.room))
      && (r.Some? ==> forall g', L' :: r.value.gap < g' ==> !IsMatchIn(s, tail, r.value.at, g', L'))
      && (r.Some? ==> forall L' :: L' < r.value.room ==> !IsMatchIn(s, tail, r.value.at, r.value.gap, L'))
    decreases |s| - p
  {
    if p + 4 <= |s| {
      var run := WhiteSpaceRun(s, p + 4);
      if s[p..p + 4] == "Aula" && GreedyGap(s, tail, p, run).Some? {
        GreedyGapSound(s, tail, p, run);
        GreedyGapLongest(s, tail, p, run);
        GapBound(s, tail, p);
      } else {
        ScanFromSound(s, tail, p + 1);
      }
    }
  }

  /** No match starts between `p` and what `ScanFrom` returns, and `None` means no match starts at or after `p`. */
  lemma {:induction false} ScanFromLeftmost(s: string, tail: set<nat>, p: nat)
    ensures var r := ScanFrom(s, tail, p);
      && (r.Some? ==> forall p', g', L' :: p <= p' < r.value.at ==> !IsMatchIn(s, tail, p', g', L'))
      && (r.None? ==> forall p', g', L' :: p <= p' ==> !IsMatchIn(s, tail, p', g', L'))
    decreases |s| - p
  {
    if p + 4 <= |s| {
      var run := WhiteSpaceRun(s, p + 4);
      if s[p..p + 4] == "Aula" {
        if GreedyGap(s, tail, p, run).None? {
          GreedyGapLongest(s, tail, p, run);
          assert forall g', L' :: !IsMatchIn(s, tail, p, g', L') by {
            GapBound(s, tail, p);
          }
          ScanFromLeftmost(s, tail, p + 1);
        }
      } else {
        assert forall g', L' :: !IsMatchIn(s, tail, p, g', L');
        ScanFromLeftmost(s, tail, p + 1);
      }
    }
  }

  /**
   * `s.match(/Aula\s+(.+?)\s+([A-Z]\.\s*[A-Z]+)/)`, as the choices the match made;
   * its properties are the lemmas that follow.
   */
  function FirstRoomMatch(s: string): (r: Option<RoomMatch>)
    ensures r.Some? ==> AulaAt(s, r.value.at) && 1 <= r.value.gap && 1 <= r.value.room
    ensures r.Some? ==> r.value.at + 4 + r.value.gap + r.value.room <= |s|
  {
    ScanFromSound(s, TailPositions(s), 0);
    ScanFrom(s, TailPositions(s), 0)
  }

  /** What `FirstRoomMatch` returns is a match. */
  lemma FirstRoomMatchSound(s: string)
    ensures var r := FirstRoomMatch(s); r.Some? ==> IsMatch(s, r.value.at, r.value.gap, r.value.room)
  {
    ScanFromSound(s, TailPositions(s), 0);
  }

  /** `FirstRoomMatch` makes the choices of the matcher: no earlier start, no longer first run, no shorter room text. */
  lemma FirstRoomMatchPriorities(s: string)
    ensures var r := FirstRoomMatch(s);
      r.Some? ==>
        && (forall p, g, L :: p < r.value.at ==> !IsMatch(s, p, g, L))
        && (forall g, L :: r.value.gap < g ==> !IsMatch(s, r.value.at, g, L))
        && (forall L :: L < r.value.room ==> !IsMatch(s, r.value.at, r.value.gap, L))
  {
    ScanFromSound(s, TailPositions(s), 0);
    ScanFromLeftmost(s, TailPositions(s), 0);
  }

  /** `FirstRoomMatch` finds nothing exactly when the expression matches nowhere. */
  lemma FirstRoomMatchComplete(s: string)
    ensures FirstRoomMatch(s).None? <==> forall p, g, L :: !IsMatch(s, p, g, L)
  {
    ScanFromLeftmost(s, TailPositions(s), 0);
    FirstRoomMatchSound(s);
  }

  /** Group 1 of a match: the room text. */
  function RoomText(s: string, m: RoomMatch): string
    requires m.at + 4 + m.gap + m.room <= |s|
  {
    var g := m.at + 4 + m.gap;
    s[g..g + m.room]
  }

  /** Group 2 of a match: the instructor's initial and surname (empty if the tail does not match there). */
  function InstructorText(s: string, m: RoomMatch): (t: string)
    requires m.at + 4 + m.gap + m.room <= |s|
    ensures t != "" ==> GroupTwoAt(t, 0, |t|)
  {
    match InstructorAt(s, m.at + 4 + m.gap + m.room)
    case Some(span) =>
      InstructorAtSpan(s, m.at + 4 + m.gap + m.room);
      GroupTwoOfSlice(s, span.start, span.end);
      s[span.start..span.end]
    case None => ""
  }

  /** Group 2 of the first match, or "" when there is none. */
  function Instructor(s: string): (d: string)
    ensures d != "" ==> GroupTwoAt(d, 0, |d|)
    ensures d == [] || (!IsWhiteSpace(d[0]) && !IsWhiteSpace(d[|d| - 1]))
  {
    match FirstRoomMatch(s)
    case Some(m) => InstructorText(s, m)
    case None => ""
  }

  /** There is an instructor exactly when there is a match: the tail of a match always yields group 2. */
  lemma InstructorIffMatch(s: string)
    ensures Instructor(s) != "" <==> FirstRoomMatch(s).Some?
  {
    FirstRoomMatchSound(s);
    if FirstRoomMatch(s).Some? {
      InstructorOfMatch(s, FirstRoomMatch(s).value);
    }
  }

  /** At the end of a match's room text the tail matches, so group 2 is there. */
  lemma InstructorOfMatch(s: string, m: RoomMatch)
    requires IsMatch(s, m.at, m.gap, m.room)
    ensures InstructorText(s, m) != ""
  {
    var q := m.at + 4 + m.gap + m.room;
    assert q in TailPositions(s);
    TailPositionsMeans(s, q);
  }

  /**
   * Group 2 of the first match is the text of the tail's span at the end of the room: it
   * starts after the whole run of white space there, has the shape `[A-Z]\.\s*[A-Z]+`, and
   * its greedy `[A-Z]+` runs to the end of the capitals. `InstructorAtUnique` shows no other
   * span has these properties.
   */
  lemma InstructorOfFirstMatch(s: string)
    requires FirstRoomMatch(s).Some?
    ensures var m := FirstRoomMatch(s).value;
      var q := m.at + 4 + m.gap + m.room;
      && q <= |s| && InstructorAt(s, q).Some?
      && (var span := InstructorAt(s, q).value;
          && Instructor(s) == s[span.start..span.end]
          && q < span.start
          && (forall i :: q <= i < span.start ==> IsWhiteSpace(s[i]))
          && GroupTwoAt(s, span.start, span.end)
          && (span.end == |s| || !IsAsciiUpper(s[span.end])))
  {
    var m := FirstRoomMatch(s).value;
    var q := m.at + 4 + m.gap + m.room;
    assert q <= |s| && InstructorAt(s, q).Some? by {
      FirstRoomMatchSound(s);
      InstructorOfMatch(s, m);
    }
    InstructorAtSpan(s, q);
  }
}
