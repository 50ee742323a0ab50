/**
 * The JavaScript string built-ins the timetable code relies on: `trim`, `includes`,
 * `endsWith`, `split`, `Number(...)` on integer strings, and the decimal rendering
 * of an integer in a template literal. Strings are sequences of characters.
 */
module JsString {
  import opened Wrappers

  /** ECMAScript LineTerminator: the characters that `.` in a regular expression does not match. */
  predicate IsLineTerminator(c: char) {
    c == '\n' || c == '\r' || c == '\U{2028}' || c == '\U{2029}'
  }

  /** ECMAScript WhiteSpace or LineTerminator: what `\s` matches and what `trim()` and `Number()` strip. */
  predicate IsWhiteSpace(c: char) {
    || IsLineTerminator(c)
    || c == '\t' || c == '\U{B}' || c == '\U{C}' || c == ' '
    || c == '\U{A0}' || c == '\U{1680}' || ('\U{2000}' <= c <= '\U{200A}')
    || c == '\U{202F}' || c == '\U{205F}' || c == '\U{3000}' || c == '\U{FEFF}'
  }

  /** The regular-expression class `[A-Z]`. */
  predicate IsAsciiUpper(c: char) {
    'A' <= c <= 'Z'
  }

  /** The regular-expression class `\d`. */
  predicate IsAsciiDigit(c: char) {
    '0' <= c <= '9'
  }

  predicate AllWhiteSpace(t: string) {
    forall i :: 0 <= i < |t| ==> IsWhiteSpace(t[i])
  }

  predicate AllDigits(t: string) {
    forall i :: 0 <= i < |t| ==> IsAsciiDigit(t[i])
  }

  // ---------------------------------------------------------------------------
  // String.prototype.trim

  /** The index of the first character at or after `i` that is not white space, or `|s|`. */
  function SkipWhiteSpace(s: string, i: nat): (k: nat)
    requires i <= |s|
    ensures i <= k <= |s|
    ensures forall j :: i <= j < k ==> IsWhiteSpace(s[j])
    ensures k == |s| || !IsWhiteSpace(s[k])
    decreases |s| - i
  {
    if i < |s| && IsWhiteSpace(s[i]) then SkipWhiteSpace(s, i + 1) else i
  }

  /** The end of `s[lo..hi]` once its trailing white space is dropped. */
  function DropWhiteSpace(s: string, lo: nat, hi: nat): (k: nat)
    requires lo <= hi <= |s|
    ensures lo <= k <= hi
    ensures forall j :: k <= j < hi ==> IsWhiteSpace(s[j])
    ensures k == lo || !IsWhiteSpace(s[k - 1])
    decreases hi - lo
  {
    if lo < hi && IsWhiteSpace(s[hi - 1]) then DropWhiteSpace(s, lo, hi - 1) else hi
  }

  /** `s.trim()`: the longest infix of `s` that neither starts nor ends with white space. */
  function Trim(s: string): (r: string)
    ensures exists a, b :: 0 <= a <= b <= |s| && r == s[a..b] && AllWhiteSpace(s[..a]) && AllWhiteSpace(s[b..])
    ensures r == [] || (!IsWhiteSpace(r[0]) && !IsWhiteSpace(r[|r| - 1]))
  {
    var a := SkipWhiteSpace(s, 0);
    var b := DropWhiteSpace(s, a, |s|);
    assert AllWhiteSpace(s[..a]) by {
      forall j | 0 <= j < a ensures IsWhiteSpace(s[..a][j]) {
        assert s[..a][j] == s[j];
      }
    }
    assert AllWhiteSpace(s[b..]) by {
      forall j | 0 <= j < |s| - b ensures IsWhiteSpace(s[b..][j]) {
        assert s[b..][j] == s[b + j];
      }
    }
    s[a..b]
  }

  /** A string that neither starts nor ends with white space is its own trim. */
  lemma TrimOfTrimmed(s: string)
    requires s == [] || (!IsWhiteSpace(s[0]) && !IsWhiteSpace(s[|s| - 1]))
    ensures Trim(s) == s
  {
    assert SkipWhiteSpace(s, 0) == 0;
    assert DropWhiteSpace(s, 0, |s|) == |s|;
    assert s[0..|s|] == s;
  }

  /** A character of `s` that is not white space survives `trim()`, at its offset past the cut. */
  lemma TrimKeeps(s: string, i: int) returns (a: nat)
    requires 0 <= i < |s| && !IsWhiteSpace(s[i])
    ensures a <= i && i - a < |Trim(s)| && Trim(s)[i - a] == s[i]
  {
    a := SkipWhiteSpace(s, 0);
    var b := DropWhiteSpace(s, a, |s|);
    assert Trim(s) == s[a..b];
  }

  // ---------------------------------------------------------------------------
  // String.prototype.includes, indexOf, endsWith

  /** `sub` occurs in `s` starting at index `i`. */
  predicate OccursAt(s: string, sub: string, i: int) {
    0 <= i && i + |sub| <= |s| && s[i..i + |sub|] == sub
  }

  /** `s.indexOf(sub, from)`, with `None` for -1. */
  function IndexOfFrom(s: string, sub: string, from: nat): (r: Option<nat>)
    ensures r.Some? ==> from <= r.value && OccursAt(s, sub, r.value)
    ensures r.Some? ==> forall j :: from <= j < r.value ==> !OccursAt(s, sub, j)
    ensures r.None? ==> forall j :: from <= j ==> !OccursAt(s, sub, j)
    decreases |s| - from
  {
    if from + |sub| > |s| then None
    else if s[from..from + |sub|] == sub then Some(from)
    else IndexOfFrom(s, sub, from + 1)
  }

  /** `s.includes(sub)`. */
  predicate Contains(s: string, sub: string)
    ensures Contains(s, sub) <==> exists i :: OccursAt(s, sub, i)
  {
    IndexOfFrom(s, sub, 0).Some?
  }

  /** `s.endsWith(suffix)`. */
  predicate EndsWith(s: string, suffix: string) {
    |suffix| <= |s| && s[|s| - |suffix|..] == suffix
  }

  /** An occurrence inside a prefix of `s` is an occurrence in `s`. */
  lemma OccursInPrefix(s: string, sub: string, n: int, j: int)
    requires 0 <= n <= |s| && OccursAt(s[..n], sub, j)
    ensures OccursAt(s, sub, j)
  {
    assert s[..n][j..j + |sub|] == s[j..j + |sub|];
  }

  // ---------------------------------------------------------------------------
  // String.prototype.split with a non-empty string separator

  /** The inverse of `split`: `parts.join(sep)`. */
  function Join(parts: seq<string>, sep: string): string
    requires |parts| >= 1
    decreases |parts|
  {
    if |parts| == 1 then parts[0] else parts[0] + sep + Join(parts[1..], sep)
  }

  /**
   * `s.split(sep)`: cuts `s` at every occurrence of `sep` found scanning left to right,
   * each search resuming after the previous separator (so occurrences never overlap).
   */
  function Split(s: string, sep: string): (parts: seq<string>)
    requires sep != []
    ensures |parts| >= 1
    decreases |s|
  {
    match IndexOfFrom(s, sep, 0)
    case None => [s]
    case Some(i) => [s[..i]] + Split(s[i + |sep|..], sep)
  }

  /** Joining the parts of `split` back with the separator gives `s`. */
  lemma {:induction false} SplitJoin(s: string, sep: string)
    requires sep != []
    ensures Join(Split(s, sep), sep) == s
    decreases |s|
  {
    match IndexOfFrom(s, sep, 0)
    case None =>
    case Some(i) =>
      var rest := Split(s[i + |sep|..], sep);
      SplitJoin(s[i + |sep|..], sep);
      assert s == s[..i] + sep + s[i + |sep|..] by {
        assert s[i..i + |sep|] == sep;
        assert s == s[..i] + s[i..i + |sep|] + s[i + |sep|..];
      }
      assert Split(s, sep) == [s[..i]] + rest;
      assert ([s[..i]] + rest)[1..] == rest;
  }

  /** No part of `split` contains the separator. */
  lemma {:induction false} SplitPartsClean(s: string, sep: string)
    requires sep != []
    ensures forall k :: 0 <= k < |Split(s, sep)| ==> !Contains(Split(s, sep)[k], sep)
    decreases |s|
  {
    match IndexOfFrom(s, sep, 0)
    case None =>
    case Some(i) =>
      var head := s[..i];
      var rest := Split(s[i + |sep|..], sep);
      SplitPartsClean(s[i + |sep|..], sep);
      assert !Contains(head, sep) by {
        forall j | OccursAt(head, sep, j) ensures false {
          OccursInPrefix(s, sep, i, j);
        }
      }
      assert Split(s, sep) == [head] + rest;
  }

  /** A string without the separator's first character is not cut. */
  lemma SplitWithoutSeparator(s: string, sep: string)
    requires sep != [] && forall i :: 0 <= i < |s| ==> s[i] != sep[0]
    ensures Split(s, sep) == [s]
  {
    forall j | 0 <= j < |s|
      ensures !OccursAt(s, sep, j)
    {
      assert s[j] != sep[0];
    }
  }

  /** A first part without the separator's first character is cut off at the separator that follows it. */
  lemma SplitAtFirst(a: string, sep: string, b: string)
    requires sep != [] && forall i :: 0 <= i < |a| ==> a[i] != sep[0]
    ensures Split(a + sep + b, sep) == [a] + Split(b, sep)
  {
    var s := a + sep + b;
    assert OccursAt(s, sep, |a|) by {
      assert s[|a|..|a| + |sep|] == sep;
    }
    forall j | 0 <= j < |a|
      ensures !OccursAt(s, sep, j)
    {
      assert s[j] == a[j];
    }
    assert IndexOfFrom(s, sep, 0) == Some(|a|);
    assert s[..|a|] == a && s[|a| + |sep|..] == b;
  }

  // ---------------------------------------------------------------------------
  // Decimal integers: parseInt(.., 10) on digit strings, Number(...), and `${n}`

  function DigitValue(c: char): (d: nat)
    requires IsAsciiDigit(c)
    ensures d < 10
  {
    c as int - '0' as int
  }

  function DigitChar(d: nat): (c: char)
    requires d < 10
    ensures IsAsciiDigit(c) && DigitValue(c) == d
  {
    ('0' as int + d) as char
  }

  /** The value of a string of decimal digits (leading zeros allowed). */
  function DecimalValue(t: string): nat
    requires AllDigits(t)
    decreases |t|
  {
    if t == [] then 0 else DecimalValue(t[..|t| - 1]) * 10 + DigitValue(t[|t| - 1])
  }

  /** The shortest decimal rendering of `n`, as JavaScript prints an integer below 2^53. */
  function NatToDecimal(n: nat): (r: string)
    ensures |r| >= 1 && AllDigits(r)
    ensures |r| > 1 ==> r[0] != '0'
    decreases n
  {
    if n < 10 then [DigitChar(n)] else NatToDecimal(n / 10) + [DigitChar(n % 10)]
  }

  /** `${i}` for an integer `i`. */
  function IntToDecimal(i: int): (r: string)
    ensures |r| >= 1
    ensures i >= 0 <==> AllDigits(r)
  {
    if i < 0 then
      var r := "-" + NatToDecimal(-i);
      assert !IsAsciiDigit(r[0]);
      r
    else NatToDecimal(i)
  }

  lemma {:induction false} DecimalRoundTrip(n: nat)
    ensures DecimalValue(NatToDecimal(n)) == n
    decreases n
  {
    if n >= 10 {
      DecimalRoundTrip(n / 10);
      var r := NatToDecimal(n);
      assert r[..|r| - 1] == NatToDecimal(n / 10);
    }
  }

  /** `Number(...)` on a string that has already been trimmed. */
  function NumberOfTrimmed(t: string): Option<int> {
    if t == [] then Some(0)
    else if t[0] == '-' && |t| > 1 && AllDigits(t[1..]) then Some(-(DecimalValue(t[1..]) as int))
    else if t[0] == '+' && |t| > 1 && AllDigits(t[1..]) then Some(DecimalValue(t[1..]))
    else if AllDigits(t) then Some(DecimalValue(t))
    else None
  }

  /**
   * `Number(s)` restricted to integers: white space is trimmed, an empty remainder is 0,
   * an optional sign followed by decimal digits is that integer, and anything else is
   * `None` (NaN).
   */
  function ToNumber(s: string): (r: Option<int>)
    ensures AllDigits(s) ==> r == Some(DecimalValue(s))
    ensures AllWhiteSpace(s) ==> r == Some(0)
  {
    if AllDigits(s) && s != [] then TrimOfTrimmed(s); NumberOfTrimmed(s)
    else if AllWhiteSpace(s) then TrimOfWhiteSpace(s); Some(0)
    else NumberOfTrimmed(Trim(s))
  }

  lemma TrimOfWhiteSpace(s: string)
    requires AllWhiteSpace(s)
    ensures Trim(s) == []
  {
  }

  /** A character that is neither a digit, a sign nor white space makes `Number(s)` NaN. */
  lemma NumberRejects(s: string, i: int)
    requires 0 <= i < |s| && !IsAsciiDigit(s[i]) && !IsWhiteSpace(s[i]) && s[i] != '+' && s[i] != '-'
    ensures ToNumber(s).None?
  {
    var t := Trim(s);
    var a := TrimKeeps(s, i);
    var k := i - a;
    assert t[k] == s[i];
    assert !AllDigits(t);
    if t[0] == '-' || t[0] == '+' {
      assert k != 0;
      assert t[1..][k - 1] == t[k];
    }
  }

  /** `Number(`${i}`)` gives `i` back. */
  lemma NumberOfDecimal(i: int)
    ensures ToNumber(IntToDecimal(i)) == Some(i)
  {
    if i < 0 {
      var d := NatToDecimal(-i);
      var s := "-" + d;
      DecimalRoundTrip(-i);
      assert s[1..] == d;
      assert !AllDigits(s) && !AllWhiteSpace(s) by {
        assert !IsAsciiDigit(s[0]) && !IsWhiteSpace(s[0]);
      }
      TrimOfTrimmed(s);
      assert NumberOfTrimmed(s) == Some(i);
    } else {
      DecimalRoundTrip(i);
    }
  }
}
