/**
 * The "HH:MM" and "HH:MM-HH:MM" texts exchanged with the web front-end:
 * `strftime('%H:%M')` on the listing side, `str.split('-')` and
 * `strptime(..., '%H:%M')` on the booking side.
 */
module ClockText {
  import opened Wrappers
  import opened Clock

  predicate IsDigit(c: char)
  {
    '0' <= c <= '9'
  }

  predicate AllDigits(s: string)
  {
    forall i :: 0 <= i < |s| ==> IsDigit(s[i])
  }

  function DigitChar(n: int): (c: char)
    requires 0 <= n < 10
    ensures IsDigit(c) && c as int - '0' as int == n
  {
    ('0' as int + n) as char
  }

  /** The decimal value of a string of ASCII digits. */
  function DecimalValue(s: string): (n: nat)
    requires AllDigits(s)
  {
    if |s| == 0 then 0
    else DecimalValue(s[..|s| - 1]) * 10 + (s[|s| - 1] as int - '0' as int)
  }

  /** Two zero-padded digits, as `%H` and `%M` print them. */
  function Pad2(n: int): (s: string)
    requires 0 <= n < 100
    ensures |s| == 2 && AllDigits(s) && DecimalValue(s) == n
  {
    var s := [DigitChar(n / 10), DigitChar(n % 10)];
    assert s[..1] == [DigitChar(n / 10)] && s[..1][..0] == [];
    assert DecimalValue(s[..1]) == n / 10;
    s
  }

  /** `strftime('%H:%M')` of a time of day. */
  function FormatClock(t: int): (s: string)
    requires 0 <= t < MinutesPerDay
    ensures |s| == 5 && s[2] == ':'
    ensures FieldText(s[..2], 23) && DecimalValue(s[..2]) == t / 60
    ensures FieldText(s[3..], 59) && DecimalValue(s[3..]) == t % 60
  {
    var h, m := Pad2(t / 60), Pad2(t % 60);
    var s := h + ":" + m;
    assert s[..2] == h && s[3..] == m;
    s
  }

  /** The slot text "HH:MM-HH:MM" of a start and end time of day. */
  function FormatRange(start: int, end: int): (s: string)
    requires 0 <= start < MinutesPerDay && 0 <= end < MinutesPerDay
    ensures |s| == 11 && s[5] == '-'
    ensures s[..5] == FormatClock(start) && s[6..] == FormatClock(end)
    ensures '-' !in s[..5] && '-' !in s[6..]
  {
    var a, b := FormatClock(start), FormatClock(end);
    var s := a + "-" + b;
    assert s[..5] == a && s[6..] == b;
    ClockTextHasNoDash(a);
    ClockTextHasNoDash(b);
    s
  }

  /** A printed clock time holds only digits and a colon, so no '-'. */
  lemma ClockTextHasNoDash(s: string)
    requires |s| == 5 && s[2] == ':' && AllDigits(s[..2]) && AllDigits(s[3..])
    ensures '-' !in s
  {
    forall k | 0 <= k < |s| ensures s[k] != '-' {
      if k < 2 {
        assert s[k] == s[..2][k];
      } else if k > 2 {
        assert s[k] == s[3..][k - 3];
      }
    }
  }

  /** Glues pieces back together with `sep` between them (`sep.join(pieces)`). */
  function Join(pieces: seq<string>, sep: char): string
    requires |pieces| >= 1
  {
    if |pieces| == 1 then pieces[0] else pieces[0] + [sep] + Join(pieces[1..], sep)
  }

  /** `s.split(sep)` for a one-character separator: the maximal pieces between separators. */
  function SplitOn(s: string, sep: char): (pieces: seq<string>)
    ensures |pieces| >= 1
    ensures Join(pieces, sep) == s
    ensures forall i :: 0 <= i < |pieces| ==> sep !in pieces[i]
  {
    if |s| == 0 then [""]
    else
      var rest := SplitOn(s[1..], sep);
      if s[0] == sep then
        [""] + rest
      else
        assert s == [s[0]] + s[1..];
        [[s[0]] + rest[0]] + rest[1..]
  }

  /** Splitting undoes joining, as long as no piece contains the separator. */
  lemma {:induction false} SplitJoin(pieces: seq<string>, sep: char)
    requires |pieces| >= 1
    requires forall i :: 0 <= i < |pieces| ==> sep !in pieces[i]
    ensures SplitOn(Join(pieces, sep), sep) == pieces
    decreases |pieces|, |pieces[0]|
  {
    var p := pieces[0];
    if |pieces| == 1 {
      SplitNoSeparator(p, sep);
    } else if |p| == 0 {
      var tail := Join(pieces[1..], sep);
      assert Join(pieces, sep) == [sep] + tail;
      assert ([sep] + tail)[1..] == tail;
      SplitJoin(pieces[1..], sep);
      assert pieces == [""] + pieces[1..];
    } else {
      var shorter := [p[1..]] + pieces[1..];
      assert shorter[1..] == pieces[1..];
      SplitJoin(shorter, sep);
      var whole := Join(pieces, sep);
      assert whole == [p[0]] + Join(shorter, sep);
      assert whole[1..] == Join(shorter, sep);
      assert [p[0]] + p[1..] == p;
      assert pieces == [p] + pieces[1..];
    }
  }

  lemma {:induction false} SplitNoSeparator(s: string, sep: char)
    requires sep !in s
    ensures SplitOn(s, sep) == [s]
  {
    if |s| > 0 {
      assert sep !in s[1..] by {
        forall k | 0 <= k < |s[1..]| ensures s[1..][k] != sep {
          assert s[1..][k] == s[k + 1];
        }
      }
      SplitNoSeparator(s[1..], sep);
      assert [s[0]] + s[1..] == s;
    }
  }

  /** One `%H` or `%M` field as `strptime` accepts it: one or two ASCII digits with a value at most `max`. */
  predicate FieldText(s: string, max: int)
  {
    1 <= |s| <= 2 && AllDigits(s) && DecimalValue(s) <= max
  }

  /** The pattern of Python's `_strptime` for `%H`: `2[0-3]|[0-1]\d|\d`. */
  predicate HourPattern(s: string)
  {
    || (|s| == 2 && s[0] == '2' && '0' <= s[1] <= '3')
    || (|s| == 2 && '0' <= s[0] <= '1' && IsDigit(s[1]))
    || (|s| == 1 && IsDigit(s[0]))
  }

  /** The pattern of Python's `_strptime` for `%M`: `[0-5]\d|\d`. */
  predicate MinutePattern(s: string)
  {
    || (|s| == 2 && '0' <= s[0] <= '5' && IsDigit(s[1]))
    || (|s| == 1 && IsDigit(s[0]))
  }

  /** The value of one or two digits. */
  lemma DecimalValueShort(s: string)
    requires AllDigits(s) && 1 <= |s| <= 2
    ensures |s| == 1 ==> DecimalValue(s) == s[0] as int - '0' as int
    ensures |s| == 2 ==> DecimalValue(s) == 10 * (s[0] as int - '0' as int) + (s[1] as int - '0' as int)
  {
    assert s[..|s| - 1][..0] == [];
    if |s| == 2 {
      assert s[..1][0] == s[0];
      assert DecimalValue(s[..1]) == s[0] as int - '0' as int;
    }
  }

  /** The digit-and-bound reading of a field agrees with `strptime`'s patterns for `%H` and `%M`. */
  lemma FieldTextMatchesPatterns(s: string)
    ensures FieldText(s, 23) <==> HourPattern(s)
    ensures FieldText(s, 59) <==> MinutePattern(s)
  {
    if 1 <= |s| <= 2 && AllDigits(s) {
      DecimalValueShort(s);
    }
    if HourPattern(s) || MinutePattern(s) {
      assert AllDigits(s);
      DecimalValueShort(s);
    }
  }

  /** Reads one `%H` or `%M` field. */
  function ParseField(s: string, max: int): (r: Option<int>)
    ensures r.Some? <==> FieldText(s, max)
    ensures max == 23 ==> (r.Some? <==> HourPattern(s))
    ensures max == 59 ==> (r.Some? <==> MinutePattern(s))
    ensures r.Some? ==> AllDigits(s) && r.value == DecimalValue(s) && 0 <= r.value <= max
  {
    FieldTextMatchesPatterns(s);
    if 1 <= |s| <= 2 && AllDigits(s) && DecimalValue(s) <= max then Some(DecimalValue(s)) else None
  }

  /**
   * `strptime(s, '%H:%M')`, as a time of day. Python accepts an hour of one or
   * two digits up to 23 and a minute of one or two digits up to 59, separated
   * by exactly one colon, with nothing after it.
   */
  function ParseClock(s: string): (r: Option<int>)
    ensures r.Some? ==> 0 <= r.value < MinutesPerDay
    ensures var f := SplitOn(s, ':');
            r.Some? <==> |f| == 2 && FieldText(f[0], 23) && FieldText(f[1], 59)
    ensures var f := SplitOn(s, ':');
            r.Some? ==> |f| == 2 && AllDigits(f[0]) && AllDigits(f[1])
                        && r.value == 60 * DecimalValue(f[0]) + DecimalValue(f[1])
  {
    var fields := SplitOn(s, ':');
    if |fields| != 2 then None
    else
      match (ParseField(fields[0], 23), ParseField(fields[1], 59))
      case (Some(h), Some(m)) => Some(h * 60 + m)
      case _ => None
  }

  /** A digit string holds no separator other than a digit. */
  lemma DigitsHaveNo(s: string, sep: char)
    requires AllDigits(s) && !IsDigit(sep)
    ensures sep !in s
  {
    forall k | 0 <= k < |s| ensures s[k] != sep {
      assert IsDigit(s[k]);
    }
  }

  /** Splitting an hour field, a colon and a minute field on ':' gives the two fields. */
  lemma SplitClockText(h: string, m: string)
    requires AllDigits(h) && AllDigits(m)
    ensures SplitOn(h + ":" + m, ':') == [h, m]
  {
    DigitsHaveNo(h, ':');
    DigitsHaveNo(m, ':');
    var pieces := [h, m];
    assert forall i :: 0 <= i < |pieces| ==> ':' !in pieces[i];
    assert pieces[1..] == [m];
    assert h + ":" + m == Join(pieces, ':');
    SplitJoin(pieces, ':');
  }

  /** An hour field, one colon and a minute field are read as that time of day. */
  lemma ParseClockOf(h: string, m: string)
    requires FieldText(h, 23) && FieldText(m, 59)
    ensures ParseClock(h + ":" + m).Some?
    ensures ParseClock(h + ":" + m).value == 60 * DecimalValue(h) + DecimalValue(m)
  {
    SplitClockText(h, m);
  }

  /** Conversely, every text `strptime('%H:%M')` accepts is an hour field, one colon and a minute field. */
  lemma ParseClockFields(s: string)
    requires ParseClock(s).Some?
    ensures exists h, m :: s == h + ":" + m && FieldText(h, 23) && FieldText(m, 59)
  {
    var f := SplitOn(s, ':');
    assert Join(f, ':') == s;
    assert f[1..] == [f[1]];
    assert s == f[0] + ":" + f[1];
  }

  /** What `strftime('%H:%M')` prints, `strptime(..., '%H:%M')` reads back. */
  lemma ParseFormatClock(t: int)
    requires 0 <= t < MinutesPerDay
    ensures ParseClock(FormatClock(t)) == Some(t)
  {
    var s := FormatClock(t);
    assert s == s[..2] + ":" + s[3..];
    ParseClockOf(s[..2], s[3..]);
  }

  /** A rendered slot text splits on '-' into the two rendered clock times. */
  lemma SplitFormatRange(start: int, end: int)
    requires 0 <= start < MinutesPerDay && 0 <= end < MinutesPerDay
    ensures SplitOn(FormatRange(start, end), '-') == [FormatClock(start), FormatClock(end)]
  {
    var s := FormatRange(start, end);
    assert s == Join([s[..5], s[6..]], '-');
    SplitJoin([s[..5], s[6..]], '-');
  }
}
