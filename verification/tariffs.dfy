/**
 Tariff tables and `lookup_tariff`: an ordered list of rules, each covering a
 half-open range of days of the week (0 for Monday) and a half-open range of
 minutes since midnight. Lookup returns the rate of the first rule in table
 order that covers the queried point, or fails if none does.
 */
module Tariffs {
  import opened Results

  /**
   One row of a tariff table. The program stores the days as `i16` and the
   minutes as `i32`; the loader guarantees those ranges and the comparisons
   below do not depend on them.
   */
  datatype Tariff = Tariff(
    dayStart: int,
    dayEnd: int,
    timeStart: int,
    timeEnd: int,
    rate: real,
    name: string)

  /** Both half-open ranges contain the queried point. */
  predicate Matches(t: Tariff, dow: int, minute: int) {
    t.dayStart <= dow < t.dayEnd && t.timeStart <= minute < t.timeEnd
  }

  /** Rule `k` covers the point and no earlier rule does. */
  predicate IsFirstMatch(rules: seq<Tariff>, dow: int, minute: int, k: int) {
    && 0 <= k < |rules|
    && Matches(rules[k], dow, minute)
    && forall j :: 0 <= j < k ==> !Matches(rules[j], dow, minute)
  }

  predicate Covered(rules: seq<Tariff>, dow: int, minute: int) {
    exists k :: 0 <= k < |rules| && Matches(rules[k], dow, minute)
  }

  function Lookup(dow: int, minute: int, rules: seq<Tariff>): (r: Result<real, BillError>)
    ensures r.Err? <==> !Covered(rules, dow, minute)
    ensures r.Err? ==> r.error == NoTariff(dow, minute)
    ensures r.Ok? ==> exists k :: IsFirstMatch(rules, dow, minute, k) && r.value == rules[k].rate
  {
    if |rules| == 0 then Err(NoTariff(dow, minute))
    else if Matches(rules[0], dow, minute) then
      assert IsFirstMatch(rules, dow, minute, 0);
      Ok(rules[0].rate)
    else
      var r := Lookup(dow, minute, rules[1..]);
      if r.Ok? then
        var k :| IsFirstMatch(rules[1..], dow, minute, k) && r.value == rules[1..][k].rate;
        assert IsFirstMatch(rules, dow, minute, k + 1);
        r
      else
        assert forall k :: 1 <= k < |rules| ==> rules[k] == rules[1..][k - 1];
        r
  }

  /** The first covering rule decides the rate, even when later rules overlap it. */
  lemma {:induction false} FirstMatchWins(rules: seq<Tariff>, dow: int, minute: int, k: int)
    requires IsFirstMatch(rules, dow, minute, k)
    ensures Lookup(dow, minute, rules) == Ok(rules[k].rate)
  {
    if k > 0 {
      assert !Matches(rules[0], dow, minute);
      assert IsFirstMatch(rules[1..], dow, minute, k - 1);
      FirstMatchWins(rules[1..], dow, minute, k - 1);
    }
  }

  /** Rules appended to a table never shadow a rule already in it. */
  lemma {:induction false} LookupAppend(front: seq<Tariff>, back: seq<Tariff>, dow: int, minute: int)
    ensures Lookup(dow, minute, front + back)
         == if Covered(front, dow, minute) then Lookup(dow, minute, front) else Lookup(dow, minute, back)
  {
    if |front| > 0 {
      assert (front + back)[0] == front[0];
      assert (front + back)[1..] == front[1..] + back;
      LookupAppend(front[1..], back, dow, minute);
      if !Matches(front[0], dow, minute) {
        assert Covered(front, dow, minute) == Covered(front[1..], dow, minute) by {
          if Covered(front, dow, minute) {
            var k :| 0 <= k < |front| && Matches(front[k], dow, minute);
            assert front[1..][k - 1] == front[k];
          }
          if Covered(front[1..], dow, minute) {
            var k :| 0 <= k < |front[1..]| && Matches(front[1..][k], dow, minute);
            assert front[k + 1] == front[1..][k];
          }
        }
      }
    } else {
      assert front + back == back;
    }
  }

  /** All covering rules agree on the rate at this point (no conflicting overlap). */
  predicate Unambiguous(rules: seq<Tariff>, dow: int, minute: int) {
    forall i, j :: 0 <= i < |rules| && 0 <= j < |rules| && Matches(rules[i], dow, minute) && Matches(rules[j], dow, minute)
      ==> rules[i].rate == rules[j].rate
  }

  /** Without conflicting overlaps, any covering rule gives the looked-up rate. */
  lemma UnambiguousLookup(rules: seq<Tariff>, dow: int, minute: int, k: int)
    requires Unambiguous(rules, dow, minute)
    requires 0 <= k < |rules| && Matches(rules[k], dow, minute)
    ensures Lookup(dow, minute, rules) == Ok(rules[k].rate)
  {
  }

  /**
   Without conflicting overlaps, the order of the table does not matter: any
   rearrangement of the same rules gives the same result.
   */
  lemma ReorderUnambiguous(rules: seq<Tariff>, shuffled: seq<Tariff>, dow: int, minute: int)
    requires multiset(rules) == multiset(shuffled)
    requires Unambiguous(rules, dow, minute)
    ensures Lookup(dow, minute, shuffled) == Lookup(dow, minute, rules)
  {
    if Covered(rules, dow, minute) {
      var k :| 0 <= k < |rules| && Matches(rules[k], dow, minute);
      assert rules[k] in multiset(shuffled);
      var k' :| 0 <= k' < |shuffled| && shuffled[k'] == rules[k];
      assert Unambiguous(shuffled, dow, minute) by {
        forall i, j | 0 <= i < |shuffled| && 0 <= j < |shuffled| && Matches(shuffled[i], dow, minute) && Matches(shuffled[j], dow, minute)
          ensures shuffled[i].rate == shuffled[j].rate
        {
          assert shuffled[i] in multiset(rules);
          assert shuffled[j] in multiset(rules);
        }
      }
      UnambiguousLookup(rules, dow, minute, k);
      UnambiguousLookup(shuffled, dow, minute, k');
    } else {
      forall k | 0 <= k < |shuffled|
        ensures !Matches(shuffled[k], dow, minute)
      {
        assert shuffled[k] in multiset(rules);
      }
    }
  }

  /**
   Precedence by table order: a Sunday/holiday rule placed ahead of an
   all-week default wins on day 6, and the default still prices other days.
   */
  lemma HolidayRuleFirstExample(minute: int)
    requires 0 <= minute < 1440
    ensures var rules := [Tariff(6, 7, 0, 1440, 0.10, "holiday"), Tariff(0, 7, 0, 1440, 0.30, "anytime")];
            && Lookup(6, minute, rules) == Ok(0.10)
            && Lookup(2, minute, rules) == Ok(0.30)
            && Lookup(7, minute, rules) == Err(NoTariff(7, minute))
  {
    var rules := [Tariff(6, 7, 0, 1440, 0.10, "holiday"), Tariff(0, 7, 0, 1440, 0.30, "anytime")];
    FirstMatchWins(rules, 6, minute, 0);
    assert IsFirstMatch(rules, 2, minute, 1);
    FirstMatchWins(rules, 2, minute, 1);
    assert !Covered(rules, 7, minute);
  }

  /** The linear scan of `lookup_tariff`, as a loop over the table. */
  method FindTariff(dow: int, minute: int, rules: seq<Tariff>) returns (r: Result<real, BillError>)
    ensures r.Ok? ==> exists k :: IsFirstMatch(rules, dow, minute, k) && r.value == rules[k].rate
    ensures r.Err? ==> r == Err(NoTariff(dow, minute)) && !Covered(rules, dow, minute)
    ensures r == Lookup(dow, minute, rules)
  {
    var i := 0;
    while i < |rules|
      invariant 0 <= i <= |rules|
      invariant forall j :: 0 <= j < i ==> !Matches(rules[j], dow, minute)
    {
      if Matches(rules[i], dow, minute) {
        assert IsFirstMatch(rules, dow, minute, i);
        FirstMatchWins(rules, dow, minute, i);
        return Ok(rules[i].rate);
      }
      i := i + 1;
    }
    return Err(NoTariff(dow, minute));
  }
}
