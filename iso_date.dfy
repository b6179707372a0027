/**
 * The conversion the scraper applies to the `datetime` attribute of a
 * `<relative-time>` element: replace every `Z` with `+00:00`, parse the
 * result with `datetime.fromisoformat`, and print it back with
 * `strftime('%Y-%m-%d')`.
 *
 * Only the shape of ISO 8601 text that the parser needs is modelled: a
 * calendar date `YYYY-MM-DD`, optionally followed by one separator
 * character and a time of day with an optional `+HH:MM`/`-HH:MM` offset.
 */
module IsoDate {
  import opened Wrappers

  predicate IsDigit(c: char)
  {
    '0' <= c <= '9'
  }

  predicate AllDigits(s: string)
  {
    forall i :: 0 <= i < |s| ==> IsDigit(s[i])
  }

  /** The decimal value of a string of digits. */
  function Number(s: string): nat
    requires AllDigits(s)
  {
    if s == [] then 0 else 10 * Number(s[..|s| - 1]) + (s[|s| - 1] as int - '0' as int)
  }

  /** Two digits whose value is below `bound`. */
  predicate TwoDigitsBelow(s: string, bound: nat)
  {
    |s| == 2 && AllDigits(s) && Number(s) < bound
  }

  predicate IsLeapYear(y: nat)
  {
    y % 4 == 0 && (y % 100 != 0 || y % 400 == 0)
  }

  function DaysInMonth(y: nat, m: nat): nat
    requires 1 <= m <= 12
  {
    if m == 2 then (if IsLeapYear(y) then 29 else 28)
    else if m == 4 || m == 6 || m == 9 || m == 11 then 30
    else 31
  }

  /** A calendar date `YYYY-MM-DD` that names a real day of years 1 to 9999. */
  predicate IsDate(s: string)
  {
    |s| == 10 && AllDigits(s[..4]) && s[4] == '-' && AllDigits(s[5..7]) && s[7] == '-' && AllDigits(s[8..]) &&
    var y, m, d := Number(s[..4]), Number(s[5..7]), Number(s[8..]);
    1 <= y && 1 <= m <= 12 && 1 <= d <= DaysInMonth(y, m)
  }

  /** `HH`, `HH:MM`, `HH:MM:SS`, `HH:MM:SS.fff` or `HH:MM:SS.ffffff`. */
  predicate IsClock(t: string)
  {
    |t| >= 2 && TwoDigitsBelow(t[..2], 24) &&
    (|t| == 2 ||
     (|t| >= 5 && t[2] == ':' && TwoDigitsBelow(t[3..5], 60) &&
      (|t| == 5 ||
       (|t| >= 8 && t[5] == ':' && TwoDigitsBelow(t[6..8], 60) &&
        (|t| == 8 || ((|t| == 12 || |t| == 15) && t[8] == '.' && AllDigits(t[9..])))))))
  }

  /** A UTC offset `+HH:MM` or `-HH:MM`. */
  predicate IsOffset(o: string)
  {
    |o| == 6 && (o[0] == '+' || o[0] == '-') && TwoDigitsBelow(o[1..3], 24) && o[3] == ':' &&
    TwoDigitsBelow(o[4..], 60)
  }

  predicate IsTime(t: string)
  {
    IsClock(t) || (|t| >= 6 && IsClock(t[..|t| - 6]) && IsOffset(t[|t| - 6..]))
  }

  /**
   * The strings the model lets `datetime.fromisoformat` accept: a date
   * alone, or a date, one separator and a time whose length is that of
   * `HH`, `HH:MM`, `HH:MM:SS`, `HH:MM:SS.fff` or `HH:MM:SS.ffffff`, with or
   * without a six-character offset.
   */
  function IsIsoDateTime(s: string): (b: bool)
    ensures b ==> |s| == 10 || |s| - 11 in {2, 5, 8, 12, 15, 11, 14, 18, 21}
  {
    |s| >= 10 && IsDate(s[..10]) && (|s| == 10 || IsTime(s[11..]))
  }

  /** Python's `s.replace('Z', '+00:00')`. */
  function ReplaceZ(s: string): (r: string)
    ensures forall i :: 0 <= i < |r| ==> r[i] != 'Z'
  {
    if s == [] then []
    else (if s[0] == 'Z' then "+00:00" else [s[0]]) + ReplaceZ(s[1..])
  }

  /** Replacing works piecewise. */
  lemma {:induction false} ReplaceZAppend(s: string, t: string)
    ensures ReplaceZ(s + t) == ReplaceZ(s) + ReplaceZ(t)
  {
    if s != [] {
      var piece := if s[0] == 'Z' then "+00:00" else [s[0]];
      assert (s + t)[0] == s[0] && (s + t)[1..] == s[1..] + t;
      ReplaceZAppend(s[1..], t);
      calc {
        ReplaceZ(s + t);
        piece + ReplaceZ(s[1..] + t);
        piece + (ReplaceZ(s[1..]) + ReplaceZ(t));
        (piece + ReplaceZ(s[1..])) + ReplaceZ(t);
      }
    } else {
      assert s + t == t;
    }
  }

  /** Text without a `Z` is left as it is. */
  lemma {:induction false} ReplaceZIdentity(s: string)
    requires forall i :: 0 <= i < |s| ==> s[i] != 'Z'
    ensures ReplaceZ(s) == s
  {
    if s != [] {
      ReplaceZIdentity(s[1..]);
    }
  }

  /**
   * Where the replaced text starts with no `+`, replacing changed nothing
   * there: those characters are the original's.
   */
  lemma {:induction false} ReplaceZKeepsPrefix(s: string, n: nat)
    requires n <= |ReplaceZ(s)|
    requires forall i :: 0 <= i < n ==> ReplaceZ(s)[i] != '+'
    ensures n <= |s| && s[..n] == ReplaceZ(s)[..n]
  {
    if n > 0 {
      assert s != [];
      var t := ReplaceZ(s[1..]);
      var piece := if s[0] == 'Z' then "+00:00" else [s[0]];
      assert ReplaceZ(s) == piece + t;
      assert ReplaceZ(s)[0] == piece[0];
      assert ReplaceZ(s)[0] != '+';
      assert s[0] != 'Z';
      assert ReplaceZ(s) == [s[0]] + t;
      forall i | 0 <= i < n - 1 ensures t[i] != '+' {
        assert t[i] == ReplaceZ(s)[i + 1];
      }
      ReplaceZKeepsPrefix(s[1..], n - 1);
      assert s[..n] == [s[0]] + s[1..][..n - 1];
    }
  }

  /**
   * `datetime.fromisoformat(attr.replace('Z', '+00:00')).strftime('%Y-%m-%d')`,
   * or None where that raises: the attribute is missing (`None.replace`
   * raises) or the parser rejects the text. No time-zone conversion
   * happens, so the printed date is the one written in the attribute.
   */
  function FormatExpiry(attr: Option<string>): (r: Option<string>)
    ensures r.Some? <==> attr.Some? && IsIsoDateTime(ReplaceZ(attr.value))
    ensures r.Some? ==> |attr.value| >= 10 && r.value == attr.value[..10] && IsDate(r.value)
  {
    match attr
    case None => None
    case Some(a) =>
      var t := ReplaceZ(a);
      if IsIsoDateTime(t) then
        DateChars(t[..10]);
        assert forall i :: 0 <= i < 10 ==> t[i] != '+' by {
          forall i | 0 <= i < 10 ensures t[i] != '+' {
            assert t[..10][i] == t[i];
          }
        }
        ReplaceZKeepsPrefix(a, 10);
        Some(t[..10])
      else
        None
  }

  /** A date is written in digits and dashes. */
  lemma DateChars(d: string)
    requires IsDate(d)
    ensures forall i :: 0 <= i < |d| ==> IsDigit(d[i]) || d[i] == '-'
  {
    forall i | 0 <= i < |d| ensures IsDigit(d[i]) || d[i] == '-' {
      if i < 4 { assert d[..4][i] == d[i]; }
      else if 4 < i < 7 { assert d[5..7][i - 5] == d[i]; }
      else if 7 < i { assert d[8..][i - 8] == d[i]; }
    }
  }

  /** A time of day is written in digits, colons and a decimal point. */
  lemma ClockChars(t: string)
    requires IsClock(t)
    ensures forall i :: 0 <= i < |t| ==> IsDigit(t[i]) || t[i] == ':' || t[i] == '.'
  {
    forall i | 0 <= i < |t| ensures IsDigit(t[i]) || t[i] == ':' || t[i] == '.' {
      if i < 2 { assert t[..2][i] == t[i]; }
      else if 2 < i < 5 { assert t[3..5][i - 3] == t[i]; }
      else if 5 < i < 8 { assert t[6..8][i - 6] == t[i]; }
      else if 8 < i { assert t[9..][i - 9] == t[i]; }
    }
  }

  /** The value of two digits. */
  lemma NumberOfTwo(s: string)
    requires |s| == 2 && AllDigits(s)
    ensures Number(s) == 10 * (s[0] as int - '0' as int) + (s[1] as int - '0' as int)
  {
    var first := s[..1];
    assert first[..0] == [] && first[0] == s[0];
    assert Number(first) == s[0] as int - '0' as int;
  }

  /** The value of four digits. */
  lemma NumberOfFour(s: string)
    requires |s| == 4 && AllDigits(s)
    ensures Number(s) == 1000 * (s[0] as int - '0' as int) + 100 * (s[1] as int - '0' as int) +
                         10 * (s[2] as int - '0' as int) + (s[3] as int - '0' as int)
  {
    NumberOfTwo(s[..2]);
    assert s[..3][..2] == s[..2];
  }

  /** `+00:00` is the UTC offset. */
  lemma UtcIsOffset()
    ensures IsOffset("+00:00")
  {
    var o := "+00:00";
    NumberOfTwo(o[1..3]);
    NumberOfTwo(o[4..]);
  }

  /** `Z` becomes `+00:00` at the end of text that has no other `Z`. */
  lemma ReplaceTrailingZ(head: string)
    requires forall i :: 0 <= i < |head| ==> head[i] != 'Z'
    ensures ReplaceZ(head + "Z") == head + "+00:00"
  {
    ReplaceZIdentity(head);
    ReplaceZAppend(head, "Z");
  }

  /** A time of day followed by the UTC offset is a time. */
  lemma UtcTime(clock: string)
    requires IsClock(clock)
    ensures IsTime(clock + "+00:00")
  {
    var time := clock + "+00:00";
    assert time[..|time| - 6] == clock && time[|time| - 6..] == "+00:00";
    UtcIsOffset();
  }

  /** A date, `T` and a time of day contain no `Z`. */
  lemma StampHasNoZ(date: string, clock: string)
    requires IsDate(date) && IsClock(clock)
    ensures forall i :: 0 <= i < |date + "T" + clock| ==> (date + "T" + clock)[i] != 'Z'
  {
    var head := date + "T" + clock;
    DateChars(date);
    ClockChars(clock);
    forall i | 0 <= i < |head| ensures head[i] != 'Z' {
      if i < |date| { assert head[i] == date[i]; }
      else if i > |date| { assert head[i] == clock[i - |date| - 1]; }
    }
  }

  /**
   * The timestamps GitHub writes, a date and a time of day in UTC marked
   * with `Z` (`2025-06-01T00:00:00Z`), yield the date as written.
   */
  lemma FormatUtcTimestamp(date: string, clock: string)
    requires IsDate(date) && IsClock(clock)
    ensures FormatExpiry(Some(date + "T" + clock + "Z")) == Some(date)
  {
    var head := date + "T" + clock;
    StampHasNoZ(date, clock);
    ReplaceTrailingZ(head);
    UtcTime(clock);
    var t := head + "+00:00";
    assert t[..10] == date && t[11..] == clock + "+00:00";
    assert IsIsoDateTime(t);
    assert (head + "Z")[..10] == date;
  }

  /** A timestamp whose first ten characters are not a real date is rejected, whatever follows. */
  lemma RejectInvalidDate(date: string, rest: string)
    requires |date| == 10 && !IsDate(date)
    ensures FormatExpiry(Some(date + rest)) == None
  {
    assert (date + rest)[..10] == date;
  }

  /** 29 February of a four-digit year is a date exactly in the leap years (year 0 excepted). */
  lemma LeapDay(y: string)
    requires |y| == 4 && AllDigits(y)
    ensures IsDate(y + "-02-29") <==> 1 <= Number(y) && IsLeapYear(Number(y))
  {
    var d := y + "-02-29";
    assert d[..4] == y;
    assert d[5..7] == "02" && d[8..] == "29";
    NumberOfTwo(d[5..7]);
    NumberOfTwo(d[8..]);
  }
}
