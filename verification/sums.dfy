/**
 Reference definitions over a sequence of per-item outcomes (one outcome per
 energy cell, or one per energy row): whether all succeeded, their total, and
 which error is reported. These are stated independently of the left folds
 the pricing pass uses, and the lemmas here connect the two shapes.
 */
module Sums {
  import opened Results

  type Outcome = Result<real, BillError>

  predicate AllOk(rs: seq<Outcome>) {
    forall i :: 0 <= i < |rs| ==> rs[i].Ok?
  }

  /** The total of the values, added from the front. */
  function Sum(rs: seq<Outcome>): real
    requires AllOk(rs)
  {
    if |rs| == 0 then 0.0 else rs[0].value + Sum(rs[1..])
  }

  /** The error of the lowest-index failing item. */
  function FirstError(rs: seq<Outcome>): BillError
    requires !AllOk(rs)
  {
    if rs[0].Err? then rs[0].error
    else
      assert !AllOk(rs[1..]) by {
        var i :| 0 <= i < |rs| && rs[i].Err?;
        assert rs[1..][i - 1] == rs[i];
      }
      FirstError(rs[1..])
  }

  /** The error of the highest-index failing item. */
  function LastError(rs: seq<Outcome>): BillError
    requires !AllOk(rs)
  {
    var n := |rs| - 1;
    if rs[n].Err? then rs[n].error
    else
      assert !AllOk(rs[..n]) by {
        var i :| 0 <= i < |rs| && rs[i].Err?;
        assert rs[..n][i] == rs[i];
      }
      LastError(rs[..n])
  }

  /** The first error is that of a failing item with only successes before it. */
  lemma {:induction false} FirstErrorWitness(rs: seq<Outcome>)
    requires !AllOk(rs)
    ensures exists k :: 0 <= k < |rs| && rs[k].Err? && AllOk(rs[..k]) && FirstError(rs) == rs[k].error
  {
    if rs[0].Err? {
      assert AllOk(rs[..0]);
    } else {
      var i :| 0 <= i < |rs| && rs[i].Err?;
      assert rs[1..][i - 1] == rs[i];
      FirstErrorWitness(rs[1..]);
      var k :| 0 <= k < |rs| - 1 && rs[1..][k].Err? && AllOk(rs[1..][..k]) && FirstError(rs[1..]) == rs[1..][k].error;
      assert rs[..k + 1] == [rs[0]] + rs[1..][..k];
      assert rs[k + 1] == rs[1..][k];
    }
  }

  /** The last error is that of a failing item with only successes after it. */
  lemma {:induction false} LastErrorWitness(rs: seq<Outcome>)
    requires !AllOk(rs)
    ensures exists k :: 0 <= k < |rs| && rs[k].Err? && AllOk(rs[k + 1..]) && LastError(rs) == rs[k].error
  {
    var n := |rs| - 1;
    var pre := rs[..n];
    LastSnoc(pre, rs[n]);
    assert rs == pre + [rs[n]];
    if rs[n].Err? {
      assert AllOk(rs[n + 1..]);
    } else {
      LastErrorWitness(pre);
      var k :| 0 <= k < n && pre[k].Err? && AllOk(pre[k + 1..]) && LastError(pre) == pre[k].error;
      assert pre[k + 1..] == rs[k + 1..n];
      assert rs[k + 1..] == rs[k + 1..n] + [rs[n]];
      AllOkSnoc(rs[k + 1..n], rs[n]);
    }
  }

  /** Appending a success to successes keeps them all successes. */
  lemma AllOkSnoc(rs: seq<Outcome>, x: Outcome)
    requires AllOk(rs) && x.Ok?
    ensures AllOk(rs + [x])
  {
  }

  /** How appending one item changes success and the reported last error. */
  lemma LastSnoc(rs: seq<Outcome>, x: Outcome)
    ensures AllOk(rs + [x]) <==> AllOk(rs) && x.Ok?
    ensures !AllOk(rs + [x]) ==> LastError(rs + [x]) == if x.Err? then x.error else LastError(rs)
  {
    Snoc(rs, x);
    assert (rs + [x])[..|rs|] == rs;
  }

  /** Adding from the back gives the same total as adding from the front. */
  lemma {:induction false} SumSnoc(rs: seq<Outcome>, x: Outcome)
    requires AllOk(rs) && x.Ok?
    ensures AllOk(rs + [x])
    ensures Sum(rs + [x]) == Sum(rs) + x.value
  {
    assert AllOk(rs + [x]);
    if |rs| > 0 {
      assert (rs + [x])[1..] == rs[1..] + [x];
      SumSnoc(rs[1..], x);
    }
  }

  /** A failure already present in a prefix stays the reported one when items are appended. */
  lemma {:induction false} FirstErrorSnoc(rs: seq<Outcome>, x: Outcome)
    requires !AllOk(rs)
    ensures !AllOk(rs + [x])
    ensures FirstError(rs + [x]) == FirstError(rs)
  {
    assert !AllOk(rs + [x]) by {
      var i :| 0 <= i < |rs| && rs[i].Err?;
      assert (rs + [x])[i] == rs[i];
    }
    if !rs[0].Err? {
      assert (rs + [x])[1..] == rs[1..] + [x];
      FirstErrorSnoc(rs[1..], x);
    }
  }

  /** When every earlier item succeeded, an appended failure is the reported one. */
  lemma {:induction false} FirstErrorAtEnd(rs: seq<Outcome>, x: Outcome)
    requires AllOk(rs) && x.Err?
    ensures !AllOk(rs + [x])
    ensures FirstError(rs + [x]) == x.error
  {
    assert (rs + [x])[|rs|] == x;
    if |rs| > 0 {
      assert (rs + [x])[1..] == rs[1..] + [x];
      FirstErrorAtEnd(rs[1..], x);
    }
  }

  /** How appending one item changes success, total and reported first error. */
  lemma Snoc(rs: seq<Outcome>, x: Outcome)
    ensures AllOk(rs + [x]) <==> AllOk(rs) && x.Ok?
    ensures AllOk(rs + [x]) ==> Sum(rs + [x]) == Sum(rs) + x.value
    ensures !AllOk(rs + [x]) ==> FirstError(rs + [x]) == if AllOk(rs) then x.error else FirstError(rs)
  {
    assert (rs + [x])[|rs|] == x;
    assert AllOk(rs + [x]) ==> AllOk(rs) by {
      if AllOk(rs + [x]) {
        forall i | 0 <= i < |rs| ensures rs[i].Ok? {
          assert (rs + [x])[i] == rs[i];
        }
      }
    }
    if AllOk(rs) && x.Ok? {
      SumSnoc(rs, x);
    } else if AllOk(rs) {
      FirstErrorAtEnd(rs, x);
    } else {
      FirstErrorSnoc(rs, x);
    }
  }
}
