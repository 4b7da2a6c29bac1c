/**
 The time parser: `minutes_since_midnight` reads text shaped like
 `hh:mm:ss`, three colon-separated `i32` fields, and yields `mm + 60 * hh`.
 The seconds are parsed but ignored and no field is range-checked. The
 arithmetic is `i32`, so an overflow (a panic in a debug build) is reported
 as its own error.
 */
module Clock {
  import opened Results

  const I32Min: int := -0x8000_0000
  const I32Max: int := 0x7fff_ffff

  predicate InI32(x: int) {
    I32Min <= x <= I32Max
  }

  // ---------------------------------------------------------------------
  // Splitting on a separator, and its inverse

  function IndexOf(s: string, c: char): (i: nat)
    requires c in s
    ensures i < |s| && s[i] == c && c !in s[..i]
  {
    if s[0] == c then 0 else 1 + IndexOf(s[1..], c)
  }

  /** The pieces between occurrences of `sep`; none of them contains `sep`. */
  function Split(s: string, sep: char): (parts: seq<string>)
    ensures |parts| >= 1
    ensures forall i :: 0 <= i < |parts| ==> sep !in parts[i]
    decreases |s|
  {
    if sep in s then
      var i := IndexOf(s, sep);
      [s[..i]] + Split(s[i + 1..], sep)
    else
      [s]
  }

  function Join(parts: seq<string>, sep: char): string
    requires |parts| >= 1
  {
    if |parts| == 1 then parts[0] else parts[0] + [sep] + Join(parts[1..], sep)
  }

  /** Splitting loses nothing: the pieces joined back give the text. */
  lemma {:induction false} JoinSplit(s: string, sep: char)
    ensures Join(Split(s, sep), sep) == s
    decreases |s|
  {
    if sep in s {
      var i := IndexOf(s, sep);
      JoinSplit(s[i + 1..], sep);
      assert Split(s, sep)[1..] == Split(s[i + 1..], sep);
      assert s == s[..i] + [sep] + s[i + 1..];
    }
  }

  /** Pieces free of the separator are recovered exactly from their join. */
  lemma {:induction false} SplitJoin(parts: seq<string>, sep: char)
    requires |parts| >= 1
    requires forall i :: 0 <= i < |parts| ==> sep !in parts[i]
    ensures Split(Join(parts, sep), sep) == parts
    decreases |parts|
  {
    if |parts| > 1 {
      var s := Join(parts, sep);
      var rest := Join(parts[1..], sep);
      assert s == parts[0] + [sep] + rest;
      assert s[|parts[0]|] == sep;
      assert sep in s;
      var i := IndexOf(s, sep);
      assert s[..|parts[0]|] == parts[0];
      assert i == |parts[0]|;
      assert s[..i] == parts[0];
      assert s[i + 1..] == rest;
      SplitJoin(parts[1..], sep);
    } else {
      assert Join(parts, sep) == parts[0];
    }
  }

  // ---------------------------------------------------------------------
  // Decimal integer fields

  predicate IsDigit(c: char) {
    '0' <= c <= '9'
  }

  predicate AllDigits(s: string) {
    forall i :: 0 <= i < |s| ==> IsDigit(s[i])
  }

  function DigitValue(c: char): nat
    requires IsDigit(c)
  {
    (c as int) - ('0' as int)
  }

  function DigitChar(d: nat): (c: char)
    requires d < 10
    ensures IsDigit(c) && DigitValue(c) == d
  {
    (('0' as int) + d) as char
  }

  /** The value of a string of decimal digits, most significant first. */
  function DigitsValue(s: string): nat
    requires AllDigits(s)
  {
    if |s| == 0 then 0
    else DigitsValue(s[..|s| - 1]) * 10 + DigitValue(s[|s| - 1])
  }

  /** The shortest decimal text of a natural number. */
  function Digits(n: nat): (s: string)
    ensures |s| >= 1 && AllDigits(s)
  {
    if n < 10 then [DigitChar(n)] else Digits(n / 10) + [DigitChar(n % 10)]
  }

  lemma {:induction false} DigitsRoundTrip(n: nat)
    ensures DigitsValue(Digits(n)) == n
  {
    var s := Digits(n);
    if n >= 10 {
      assert s[..|s| - 1] == Digits(n / 10);
      DigitsRoundTrip(n / 10);
    }
  }

  /** Text of an integer the way Rust prints it: a minus sign for negatives. */
  function IntText(n: int): (s: string)
    ensures |s| >= 1
  {
    if n < 0 then "-" + Digits(-n) else Digits(n)
  }

  /**
   One `{i32}` field: an optional sign, one or more ASCII digits, and a value
   inside the `i32` range.
   */
  function ParseI32(s: string): (r: Option<int>)
    ensures r.Some? ==> InI32(r.value)
    ensures r.Some? ==> |s| >= 1 && ':' !in s
    ensures r.Some? ==> IsDigit(s[|s| - 1])
    ensures r.Some? && r.value < 0 ==> s[0] == '-'
  {
    if |s| == 0 then None
    else
      var signed := s[0] == '-' || s[0] == '+';
      var body := if signed then s[1..] else s;
      if |body| == 0 || !AllDigits(body) then None
      else
        var v: int := if s[0] == '-' then -(DigitsValue(body) as int) else DigitsValue(body);
        if InI32(v) then
          assert s == [s[0]] + body || s == body;
          Some(v)
        else None
  }

  lemma IntTextRoundTrip(n: int)
    requires InI32(n)
    ensures ParseI32(IntText(n)) == Some(n)
  {
    if n < 0 {
      DigitsRoundTrip(-n);
      ParseNegative(Digits(-n));
    } else {
      DigitsRoundTrip(n);
      ParseUnsigned(Digits(n));
    }
  }

  /** A minus sign followed by digits reads as the negated digit value. */
  lemma ParseNegative(body: string)
    requires |body| >= 1 && AllDigits(body) && InI32(-(DigitsValue(body) as int))
    ensures ParseI32("-" + body) == Some(-(DigitsValue(body) as int))
  {
    var s := "-" + body;
    assert s[0] == '-' && s[1..] == body;
  }

  /** Plain digits read as their value. */
  lemma ParseUnsigned(body: string)
    requires |body| >= 1 && AllDigits(body) && InI32(DigitsValue(body))
    ensures ParseI32(body) == Some(DigitsValue(body))
  {
    assert IsDigit(body[0]);
  }

  // ---------------------------------------------------------------------
  // minutes_since_midnight

  function MinutesSinceMidnight(hhmmss: string): (r: Result<int, BillError>)
    ensures r.Ok? ==> InI32(r.value)
    ensures var fs := Split(hhmmss, ':');
            r.Ok? ==> |fs| == 3 && ParseI32(fs[0]).Some? && ParseI32(fs[1]).Some? && ParseI32(fs[2]).Some?
    ensures var fs := Split(hhmmss, ':');
            r == Err(TimeFormat) <==>
              |fs| != 3 || ParseI32(fs[0]).None? || ParseI32(fs[1]).None? || ParseI32(fs[2]).None?
    ensures r.Err? ==> r.error == TimeFormat || r.error == MinuteOverflow
  {
    FieldsMinutes(Split(hhmmss, ':'))
  }

  /** The pattern `{i32}:{i32}:{i32}` applied to the colon-separated fields. */
  function FieldsMinutes(fields: seq<string>): (r: Result<int, BillError>)
    ensures r.Ok? ==> InI32(r.value) && |fields| == 3
    ensures r.Ok? ==> ParseI32(fields[0]).Some? && ParseI32(fields[1]).Some? && ParseI32(fields[2]).Some?
    ensures r == Err(TimeFormat) <==>
              |fields| != 3 || ParseI32(fields[0]).None? || ParseI32(fields[1]).None? || ParseI32(fields[2]).None?
    ensures r.Err? ==> r.error == TimeFormat || r.error == MinuteOverflow
  {
    if |fields| != 3 then Err(TimeFormat)
    else
      var hh, mm, ss := ParseI32(fields[0]), ParseI32(fields[1]), ParseI32(fields[2]);
      if hh.None? || mm.None? || ss.None? then Err(TimeFormat)
      else if !InI32(60 * hh.value) || !InI32(mm.value + 60 * hh.value) then Err(MinuteOverflow)
      else Ok(mm.value + 60 * hh.value)
  }

  lemma Join3(a: string, b: string, c: string, sep: char)
    ensures Join([a, b, c], sep) == a + [sep] + b + [sep] + c
  {
    assert [a, b, c][1..] == [b, c];
    assert [b, c][1..] == [c];
    assert Join([b, c], sep) == b + [sep] + c;
    assert Join([a, b, c], sep) == a + [sep] + (b + [sep] + c);
  }

  /** Reading three fields that the text splits into. */
  lemma MinutesOfFields(s: string, hh: string, mm: string, ss: string, h: int, m: int)
    requires Split(s, ':') == [hh, mm, ss]
    requires ParseI32(hh) == Some(h) && ParseI32(mm) == Some(m) && ParseI32(ss).Some?
    ensures MinutesSinceMidnight(s) == if InI32(60 * h) && InI32(m + 60 * h) then Ok(m + 60 * h) else Err(MinuteOverflow)
  {
    assert MinutesSinceMidnight(s) == FieldsMinutes([hh, mm, ss]);
  }

  /** Three fields that parse, joined with colons, read as `mm + 60 * hh` unless that overflows. */
  lemma JoinedFields(hh: string, mm: string, ss: string, h: int, m: int)
    requires ParseI32(hh) == Some(h) && ParseI32(mm) == Some(m) && ParseI32(ss).Some?
    ensures MinutesSinceMidnight(Join([hh, mm, ss], ':'))
         == if InI32(60 * h) && InI32(m + 60 * h) then Ok(m + 60 * h) else Err(MinuteOverflow)
  {
    var parts := [hh, mm, ss];
    assert forall i :: 0 <= i < |parts| ==> ':' !in parts[i];
    SplitJoin(parts, ':');
    MinutesOfFields(Join(parts, ':'), hh, mm, ss, h, m);
  }

  function TimeText(hh: int, mm: int, ss: int): string {
    Join([IntText(hh), IntText(mm), IntText(ss)], ':')
  }

  /**
   Any three `i32` values printed as `hh:mm:ss` parse back to `mm + 60 * hh`,
   whatever the seconds, unless that arithmetic overflows `i32`.
   */
  lemma TimeTextMinutes(hh: int, mm: int, ss: int)
    requires InI32(hh) && InI32(mm) && InI32(ss)
    ensures MinutesSinceMidnight(TimeText(hh, mm, ss))
         == if InI32(60 * hh) && InI32(mm + 60 * hh) then Ok(mm + 60 * hh) else Err(MinuteOverflow)
  {
    IntTextRoundTrip(hh);
    IntTextRoundTrip(mm);
    IntTextRoundTrip(ss);
    JoinedFields(IntText(hh), IntText(mm), IntText(ss), hh, mm);
  }

  /** The seconds field never changes the answer as long as it parses. */
  lemma SecondsIgnored(hh: string, mm: string, ss1: string, ss2: string)
    requires ParseI32(ss1).Some? && ParseI32(ss2).Some?
    requires ParseI32(hh).Some? && ParseI32(mm).Some?
    ensures MinutesSinceMidnight(Join([hh, mm, ss1], ':')) == MinutesSinceMidnight(Join([hh, mm, ss2], ':'))
  {
    var h, m := ParseI32(hh).value, ParseI32(mm).value;
    JoinedFields(hh, mm, ss1, h, m);
    JoinedFields(hh, mm, ss2, h, m);
  }

  /** Text with other than exactly two colons is rejected as malformed. */
  lemma FieldCountRejected(s: string)
    requires |Split(s, ':')| != 3
    ensures MinutesSinceMidnight(s) == Err(TimeFormat)
  {
  }

  // ---------------------------------------------------------------------
  // Wall-clock times, as the tariff files write them

  /** Two zero-padded digits, as in `08`. */
  function Pad2(n: nat): string
    requires n < 100
  {
    [DigitChar(n / 10), DigitChar(n % 10)]
  }

  predicate IsWallClock(hh: int, mm: int, ss: int) {
    0 <= hh < 24 && 0 <= mm < 60 && 0 <= ss < 60
  }

  function ClockText(hh: int, mm: int, ss: int): string
    requires IsWallClock(hh, mm, ss)
  {
    Join([Pad2(hh), Pad2(mm), Pad2(ss)], ':')
  }

  lemma Pad2Parses(n: nat)
    requires n < 100
    ensures ParseI32(Pad2(n)) == Some(n)
  {
    var s := Pad2(n);
    assert s[..1][..0] == [];
    assert DigitsValue(s[..1]) == n / 10;
    assert s[..|s| - 1] == s[..1];
  }

  /** A valid wall-clock time reads as a minute of the day in [0, 1440). */
  lemma WallClockMinutes(hh: int, mm: int, ss: int)
    requires IsWallClock(hh, mm, ss)
    ensures MinutesSinceMidnight(ClockText(hh, mm, ss)) == Ok(60 * hh + mm)
    ensures 0 <= 60 * hh + mm < 1440
  {
    Pad2Parses(hh);
    Pad2Parses(mm);
    Pad2Parses(ss);
    JoinedFields(Pad2(hh), Pad2(mm), Pad2(ss), hh, mm);
  }

  /** Later wall-clock times within a day never read as earlier minutes. */
  lemma WallClockMonotonic(h1: int, m1: int, s1: int, h2: int, m2: int, s2: int)
    requires IsWallClock(h1, m1, s1) && IsWallClock(h2, m2, s2)
    requires h1 < h2 || (h1 == h2 && m1 < m2) || (h1 == h2 && m1 == m2 && s1 <= s2)
    ensures MinutesSinceMidnight(ClockText(h1, m1, s1)).Ok?
    ensures MinutesSinceMidnight(ClockText(h2, m2, s2)).Ok?
    ensures MinutesSinceMidnight(ClockText(h1, m1, s1)).value <= MinutesSinceMidnight(ClockText(h2, m2, s2)).value
    ensures (h1, m1) != (h2, m2) ==> MinutesSinceMidnight(ClockText(h1, m1, s1)).value < MinutesSinceMidnight(ClockText(h2, m2, s2)).value
  {
    WallClockMinutes(h1, m1, s1);
    WallClockMinutes(h2, m2, s2);
  }

  lemma ClockTextIs(hh: int, mm: int, ss: int, text: string)
    requires IsWallClock(hh, mm, ss)
    requires text == Pad2(hh) + ":" + Pad2(mm) + ":" + Pad2(ss)
    ensures MinutesSinceMidnight(text) == Ok(60 * hh + mm)
  {
    Join3(Pad2(hh), Pad2(mm), Pad2(ss), ':');
    WallClockMinutes(hh, mm, ss);
  }

  /** The three cases the program's own unit test checks. */
  lemma UnitTestCases()
    ensures MinutesSinceMidnight("00:00:00") == Ok(0)
    ensures MinutesSinceMidnight("12:34:56") == Ok(754)
    ensures MinutesSinceMidnight("23:59:59") == Ok(1439)
  {
    assert Pad2(0) == "00" && Pad2(12) == "12" && Pad2(34) == "34" && Pad2(56) == "56";
    assert Pad2(23) == "23" && Pad2(59) == "59";
    assert "00" + ":" + "00" + ":" + "00" == "00:00:00";
    assert "12" + ":" + "34" + ":" + "56" == "12:34:56";
    assert "23" + ":" + "59" + ":" + "59" == "23:59:59";
    ClockTextIs(0, 0, 0, "00:00:00");
    ClockTextIs(12, 34, 56, "12:34:56");
    ClockTextIs(23, 59, 59, "23:59:59");
  }
}
