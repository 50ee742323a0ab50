/**
 * The two pure helpers of lib/date-utils.ts: the conversion of luxon's weekday to a
 * Monday-first index, and the parser of "H:MM" / "HH:MM" clock times into minutes
 * since midnight. The luxon wrappers around the clock are not part of this model.
 */
module DateUtils {
  import opened Wrappers
  import opened JsString

  // ---------------------------------------------------------------------------
  // getDayOfWeek

  /** `getDayOfWeek`: luxon's weekday, 1 (Monday) to 7 (Sunday), as 0 (Monday) to 6 (Sunday). */
  function GetDayOfWeek(weekday: int): (d: int)
    requires 1 <= weekday <= 7
    ensures 0 <= d <= 6
  {
    if weekday == 7 then 6 else weekday - 1
  }

  /** The special case for Sunday agrees with the general rule: every weekday moves down by one. */
  lemma DayOfWeekIsPredecessor(weekday: int)
    requires 1 <= weekday <= 7
    ensures GetDayOfWeek(weekday) == weekday - 1
  {
  }

  /** Different weekdays get different indexes, and every index 0..6 is some weekday's. */
  lemma DayOfWeekBijective(d: int)
    requires 0 <= d <= 6
    ensures GetDayOfWeek(d + 1) == d
    ensures forall w :: 1 <= w <= 7 && GetDayOfWeek(w) == d ==> w == d + 1
  {
  }

  // ---------------------------------------------------------------------------
  // timeToMinutes

  /** `s` is `h + ":" + m` with one or two digits in `h` and two in `m`: the strings `/^(\d{1,2}):(\d{2})$/` accepts. */
  ghost predicate ClockParts(s: string, h: string, m: string) {
    1 <= |h| <= 2 && AllDigits(h) && |m| == 2 && AllDigits(m) && s == h + ":" + m
  }

  /**
   * `timeToMinutes(timeString)`. A digit is never ":", so the greedy `\d{1,2}` has only one
   * way to match: the hour group is everything before the last three characters and the
   * minute group is the last two. `parseInt(.., 10)` of a digit group is its decimal value.
   */
  function TimeToMinutes(s: string): (r: Option<nat>)
    ensures r.Some? ==> r.value <= 99 * 60 + 99
  {
    if (|s| == 4 || |s| == 5) && AllDigits(s[..|s| - 3]) && s[|s| - 3] == ':' && AllDigits(s[|s| - 2..]) then
      var h, m := s[..|s| - 3], s[|s| - 2..];
      AtMostTwoDigits(h);
      AtMostTwoDigits(m);
      Some(DecimalValue(h) * 60 + DecimalValue(m))
    else None
  }

  /** One or two digits make at most 99. */
  lemma AtMostTwoDigits(t: string)
    requires |t| <= 2 && AllDigits(t)
    ensures DecimalValue(t) <= 99
  {
    if t != [] {
      assert AllDigits(t[..|t| - 1]);
      if |t| == 2 {
        assert t[..1][..0] == [];
      }
    }
  }

  /** The parser succeeds exactly on the strings the anchored expression accepts. */
  lemma TimeToMinutesAccepts(s: string)
    ensures TimeToMinutes(s).Some? <==> exists h, m :: ClockParts(s, h, m)
  {
    if TimeToMinutes(s).Some? {
      var h, m := s[..|s| - 3], s[|s| - 2..];
      assert s == h + ":" + m;
      assert ClockParts(s, h, m);
    }
    if h, m :| ClockParts(s, h, m) {
      assert s[..|s| - 3] == h;
      assert s[|s| - 2..] == m;
    }
  }

  /** On a match the result is hours * 60 + minutes, with no range check on either group. */
  lemma TimeToMinutesValue(s: string, h: string, m: string)
    requires ClockParts(s, h, m)
    ensures TimeToMinutes(s) == Some(DecimalValue(h) * 60 + DecimalValue(m))
  {
    assert s[..|s| - 3] == h;
    assert s[|s| - 2..] == m;
  }

  /** Without a range check, "99:99" is 99 hours and 99 minutes. */
  lemma NoRangeCheck()
    ensures TimeToMinutes("99:99") == Some(6039)
  {
    assert DecimalValue("99") == 99 by {
      assert "99"[..1] == "9";
      assert "9"[..0] == "";
    }
    TimeToMinutesValue("99:99", "99", "99");
  }

  /** The expression is anchored: a lesson's whole "10:30 - 12:30" time range is not a clock time. */
  lemma RangeIsNotAClockTime()
    ensures TimeToMinutes("10:30 - 12:30") == None
  {
  }

  /** `n < 100` with two digits, a leading zero below ten. */
  function TwoDigits(n: nat): (t: string)
    requires n < 100
    ensures |t| == 2 && AllDigits(t)
  {
    [DigitChar(n / 10), DigitChar(n % 10)]
  }

  /** Two digits read back as the number they were written from. */
  lemma TwoDigitsValue(n: nat)
    requires n < 100
    ensures DecimalValue(TwoDigits(n)) == n
  {
    var t := TwoDigits(n);
    assert t[..1] == [DigitChar(n / 10)];
    assert t[..1][..0] == [];
    assert DecimalValue(t[..1]) == n / 10;
    assert DecimalValue(t) == (n / 10) * 10 + n % 10;
  }

  /** "HH:MM" for `h` and `m` below 100 gives `h * 60 + m` back. */
  lemma PaddedRoundTrip(h: nat, m: nat)
    requires h < 100 && m < 100
    ensures TimeToMinutes(TwoDigits(h) + ":" + TwoDigits(m)) == Some(h * 60 + m)
  {
    TwoDigitsValue(h);
    TwoDigitsValue(m);
    TimeToMinutesValue(TwoDigits(h) + ":" + TwoDigits(m), TwoDigits(h), TwoDigits(m));
  }

  /** "H:MM", the hour as JavaScript prints it, for `h` and `m` below 100 gives `h * 60 + m` back. */
  lemma UnpaddedRoundTrip(h: nat, m: nat)
    requires h < 100 && m < 100
    ensures TimeToMinutes(NatToDecimal(h) + ":" + TwoDigits(m)) == Some(h * 60 + m)
  {
    assert |NatToDecimal(h)| <= 2 by {
      if h >= 10 {
        assert NatToDecimal(h) == NatToDecimal(h / 10) + [DigitChar(h % 10)];
      }
    }
    DecimalRoundTrip(h);
    TwoDigitsValue(m);
    TimeToMinutesValue(NatToDecimal(h) + ":" + TwoDigits(m), NatToDecimal(h), TwoDigits(m));
  }
}
