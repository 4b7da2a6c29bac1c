/**
 The day classification inside `price_energy`: the date field of an energy
 row is trimmed, then a public holiday is priced as day 6 (the Sunday slot)
 and any other date as its weekday counted from Monday = 0. Date parsing and
 the weekday calculation belong to the chrono library; they enter the model
 as a function from date text to an optional weekday.
 */
module Calendar {
  import opened Results

  /** A day of the week, Monday = 0 through Sunday = 6. */
  type Weekday = d: int | 0 <= d <= 6

  /** The day index public holidays are priced under, shared with true Sundays. */
  const HolidayDay: Weekday := 6

  /** Rust's `char::is_whitespace`: the Unicode White_Space property. */
  predicate IsWhitespace(c: char) {
    || ('\t' <= c <= '\r')
    || c == ' '
    || c == '\U{0085}'
    || c == '\U{00A0}'
    || c == '\U{1680}'
    || ('\U{2000}' <= c <= '\U{200A}')
    || c == '\U{2028}'
    || c == '\U{2029}'
    || c == '\U{202F}'
    || c == '\U{205F}'
    || c == '\U{3000}'
  }

  /** Every character of `s` is white space. */
  predicate AllWhitespace(s: string) {
    forall i :: 0 <= i < |s| ==> IsWhitespace(s[i])
  }

  /** The number of leading white-space characters. */
  function Lead(s: string): (n: nat)
    ensures n <= |s|
  {
    if |s| > 0 && IsWhitespace(s[0]) then Lead(s[1..]) + 1 else 0
  }

  /** Exactly the characters `Lead` counts are white: the count stops at the first other character. */
  lemma {:induction false} LeadSpec(s: string)
    ensures AllWhitespace(s[..Lead(s)])
    ensures Lead(s) < |s| ==> !IsWhitespace(s[Lead(s)])
  {
    if |s| > 0 && IsWhitespace(s[0]) {
      var m := Lead(s[1..]);
      LeadSpec(s[1..]);
      var w := s[..m + 1];
      forall i | 0 <= i < |w|
        ensures IsWhitespace(w[i])
      {
        if i > 0 {
          assert w[i] == s[1..][..m][i - 1];
        }
      }
      assert m + 1 < |s| ==> s[m + 1] == s[1..][m];
    }
  }

  /** The number of trailing white-space characters. */
  function Trail(s: string): (n: nat)
    ensures n <= |s|
  {
    if |s| > 0 && IsWhitespace(s[|s| - 1]) then Trail(s[..|s| - 1]) + 1 else 0
  }

  /** Exactly the characters `Trail` counts are white: the count stops at the last other character. */
  lemma {:induction false} TrailSpec(s: string)
    ensures AllWhitespace(s[|s| - Trail(s)..])
    ensures Trail(s) < |s| ==> !IsWhitespace(s[|s| - Trail(s) - 1])
  {
    if |s| > 0 && IsWhitespace(s[|s| - 1]) {
      var t := s[..|s| - 1];
      var m := Trail(t);
      TrailSpec(t);
      var w := s[|s| - (m + 1)..];
      forall i | 0 <= i < |w|
        ensures IsWhitespace(w[i])
      {
        if i < m {
          assert w[i] == t[|t| - m..][i];
        }
      }
      assert m + 1 < |s| ==> s[|s| - (m + 1) - 1] == t[|t| - m - 1];
    }
  }

  /** `str::trim`: leading and trailing white space removed. */
  function Trim(s: string): (r: string)
    ensures Lead(s) + |r| <= |s| && r == s[Lead(s)..Lead(s) + |r|]
  {
    var n := Lead(s);
    s[n..|s| - Trail(s[n..])]
  }

  /**
   What trimming leaves: a contiguous slice of the input with non-white ends,
   everything cut from either end being white space.
   */
  lemma TrimSpec(s: string)
    ensures var r, n := Trim(s), Lead(s);
            && (|r| > 0 ==> !IsWhitespace(r[0]) && !IsWhitespace(r[|r| - 1]))
            && n + |r| <= |s| && r == s[n..n + |r|]
            && AllWhitespace(s[..n]) && AllWhitespace(s[n + |r|..])
  {
    var n := Lead(s);
    var t := s[n..];
    var m := Trail(t);
    var r := Trim(s);
    assert r == s[n..|s| - m];
    LeadSpec(s);
    TrailSpec(t);
    CutEnds(s, n, m);
    if |r| > 0 {
      assert m < |t| && n < |s|;
      assert r[0] == s[n] && r[|r| - 1] == t[|t| - m - 1];
    }
  }

  /** Cutting `n` characters from the front and then `m` from the back, as slices of the input. */
  lemma CutEnds(s: string, n: nat, m: nat)
    requires n <= |s| && m <= |s| - n
    ensures var t, r := s[n..], s[n..|s| - m];
            && s[n + |r|..] == t[|t| - m..]
            && (|r| > 0 ==> r[0] == s[n] && r[|r| - 1] == t[|t| - m - 1])
  {
  }

  lemma {:induction false} LeadPadded(w: string, t: string)
    requires AllWhitespace(w)
    ensures Lead(w + t) == |w| + Lead(t)
  {
    if |w| > 0 {
      assert (w + t)[1..] == w[1..] + t;
      LeadPadded(w[1..], t);
    } else {
      assert w + t == t;
    }
  }

  lemma {:induction false} TrailPadded(t: string, w: string)
    requires AllWhitespace(w)
    ensures Trail(t + w) == Trail(t) + |w|
  {
    if |w| > 0 {
      var w' := w[..|w| - 1];
      assert (t + w)[..|t + w| - 1] == t + w';
      TrailPadded(t, w');
    } else {
      assert t + w == t;
    }
  }

  /**
   Trimming is characterised by its result: text that is white space, then
   `r` with non-white ends (or nothing), then white space trims to `r`.
   */
  lemma TrimUnique(w1: string, r: string, w2: string)
    requires AllWhitespace(w1) && AllWhitespace(w2)
    requires |r| > 0 ==> !IsWhitespace(r[0]) && !IsWhitespace(r[|r| - 1])
    ensures Trim(w1 + r + w2) == r
  {
    var x := w1 + r + w2;
    assert x == w1 + (r + w2);
    LeadPadded(w1, r + w2);
    if |r| > 0 {
      assert Lead(r + w2) == 0;
      assert x[Lead(x)..] == r + w2;
      TrailPadded(r, w2);
      assert Trail(r) == 0;
    } else {
      assert r + w2 == w2 + [];
      LeadPadded(w2, []);
      assert Lead(x) == |x|;
    }
  }

  /** Removing white space a second time changes nothing. */
  lemma TrimIdempotent(s: string)
    ensures Trim(Trim(s)) == Trim(s)
  {
    var r := Trim(s);
    TrimSpec(s);
    assert AllWhitespace([]);
    assert r == [] + r + [];
    TrimUnique([], r, []);
  }

  /** Surrounding white space does not change the trimmed text. */
  lemma TrimPadded(front: string, s: string, back: string)
    requires AllWhitespace(front) && AllWhitespace(back)
    ensures Trim(front + s + back) == Trim(s)
  {
    var r := Trim(s);
    var n := Lead(s);
    var j := n + |r|;
    TrimSpec(s);
    assert r == s[n..j];
    Regroup(front, s, back, n, j);
    PaddedUnique(front, s[..n], s[n..j], s[j..], back);
  }

  lemma PaddedUnique(front: string, lead: string, r: string, rest: string, back: string)
    requires AllWhitespace(front) && AllWhitespace(lead) && AllWhitespace(rest) && AllWhitespace(back)
    requires |r| > 0 ==> !IsWhitespace(r[0]) && !IsWhitespace(r[|r| - 1])
    ensures Trim((front + lead) + r + (rest + back)) == r
  {
    WhitespaceConcat(front, lead);
    WhitespaceConcat(rest, back);
    TrimUnique(front + lead, r, rest + back);
  }

  /** Cutting `s` at `i` and `j` and moving the outer pieces into the padding. */
  lemma Regroup(front: string, s: string, back: string, i: nat, j: nat)
    requires i <= j <= |s|
    ensures front + s + back == (front + s[..i]) + s[i..j] + (s[j..] + back)
  {
    assert s == s[..i] + s[i..j] + s[j..];
  }

  lemma WhitespaceConcat(a: string, b: string)
    requires AllWhitespace(a) && AllWhitespace(b)
    ensures AllWhitespace(a + b)
  {
    forall i | 0 <= i < |a + b|
      ensures IsWhitespace((a + b)[i])
    {
      if i < |a| {
        assert (a + b)[i] == a[i];
      } else {
        assert (a + b)[i] == b[i - |a|];
      }
    }
  }

  /**
   The day index a row's date is priced under: holidays first, then the
   weekday; a non-holiday date that does not parse is an error.
   */
  function DayIndex(date: string, holidays: set<string>, weekdayOf: string -> Option<Weekday>): (r: Result<Weekday, BillError>)
    ensures Trim(date) in holidays ==> r == Ok(HolidayDay)
    ensures Trim(date) !in holidays && weekdayOf(Trim(date)).Some? ==> r == Ok(weekdayOf(Trim(date)).value)
    ensures r.Err? <==> Trim(date) !in holidays && weekdayOf(Trim(date)).None?
    ensures r.Err? ==> r.error == DateParse
  {
    var d := Trim(date);
    if d in holidays then Ok(HolidayDay)
    else
      match weekdayOf(d)
      case None => Err(DateParse)
      case Some(w) => Ok(w)
  }

  /**
   A holiday is priced as day 6 whatever its real weekday, and even when the
   date text would not parse at all.
   */
  lemma HolidayOverridesWeekday(date: string, holidays: set<string>,
                                 w1: string -> Option<Weekday>, w2: string -> Option<Weekday>)
    requires Trim(date) in holidays
    ensures DayIndex(date, holidays, w1) == DayIndex(date, holidays, w2) == Ok(HolidayDay)
  {
  }

  /** Padding a date with white space does not change how it is classified. */
  lemma DayIndexIgnoresPadding(front: string, date: string, back: string,
                                holidays: set<string>, weekdayOf: string -> Option<Weekday>)
    requires AllWhitespace(front) && AllWhitespace(back)
    ensures DayIndex(front + date + back, holidays, weekdayOf) == DayIndex(date, holidays, weekdayOf)
  {
    TrimPadded(front, date, back);
  }
}
