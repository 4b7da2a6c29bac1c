/**
 The interval pricing pass of `price_energy`. An energy table is a sequence
 of already-tokenised rows: the date first, then one reading per sub-daily
 interval. The column count is fixed by the first row, the interval width is
 `1440 / (columns - 1)` by integer division, value column `i` is priced at
 minute `i * interval`, and the pass returns (rows, columns, total cost) or
 the error that stopped it.

 The model keeps the exact shape of the program's two folds:
 - the row fold stops at the first row that fails;
 - the cell fold parses and looks up each cell before it looks at the running
   sum, so within a row the error reported is that of the LAST failing cell.
 Both are proved equal to reference definitions built from `Sums`.
 */
module Pricing {
  import opened Results
  import opened Sums
  import opened Calendar

  /** One tokenised line of the energy table. */
  type Record = seq<string>

  /** The injected tariff lookup: (day index, minute of day) to a $/kWh rate. */
  type LookupFn = (int, int) -> Result<real, BillError>

  /**
   What the pass reads besides the table: the public holidays, and the two
   parsers from foreign libraries (chrono's date parser with its weekday, and
   Rust's `f64` parser).
   */
  datatype Sources = Sources(
    holidays: set<string>,
    weekdayOf: string -> Option<Weekday>,
    parseEnergy: string -> Option<real>)

  /** The pass's result: rows read, columns per row, and the accumulated cost. */
  datatype Pass = Pass(lines: nat, cols: nat, total: real)

  const MinutesPerDay: nat := 24 * 60

  // ---------------------------------------------------------------------
  // Column minutes

  /**
   `k * w` by repeated addition. Value column `i` is priced at minute
   `Times(i, interval)`, the program's `i * interval`.
   */
  function Times(k: nat, w: nat): nat {
    if k == 0 then 0 else Times(k - 1, w) + w
  }

  lemma {:induction false} TimesIsProduct(k: nat, w: nat)
    ensures Times(k, w) == k * w
  {
    if k > 0 {
      TimesIsProduct(k - 1, w);
      assert k * w == (k - 1) * w + w;
    }
  }

  /** A larger factor gives a multiple at least one `w` larger. */
  lemma {:induction false} TimesStep(i: nat, j: nat, w: nat)
    requires i < j
    ensures Times(i, w) + w <= Times(j, w)
  {
    if i < j - 1 {
      TimesStep(i, j - 1, w);
    }
  }

  /** The interval width `1440 / (cols - 1)`, the quotient taken by repeated subtraction. */
  function Interval(cols: nat): nat
    requires cols >= 2
  {
    Quotient(MinutesPerDay, cols - 1)
  }

  /** How many times `b` fits into `a`. */
  function Quotient(a: nat, b: nat): nat
    requires b > 0
    decreases a
  {
    if a < b then 0 else 1 + Quotient(a - b, b)
  }

  /** `Quotient` satisfies the defining bounds of division: `q * b <= a < q * b + b`. */
  lemma {:induction false} QuotientBounds(a: nat, b: nat)
    requires b > 0
    ensures Times(Quotient(a, b), b) <= a < Times(Quotient(a, b), b) + b
    decreases a
  {
    if a >= b {
      QuotientBounds(a - b, b);
    }
  }

  /** At most one quotient satisfies the division bounds. */
  lemma UniqueQuotient(a: nat, b: nat, q1: nat, q2: nat)
    requires b > 0
    requires Times(q1, b) <= a < Times(q1, b) + b
    requires Times(q2, b) <= a < Times(q2, b) + b
    ensures q1 == q2
  {
    if q1 < q2 {
      TimesStep(q1, q2, b);
    } else if q2 < q1 {
      TimesStep(q2, q1, b);
    }
  }

  /** Repeated subtraction computes the program's integer division. */
  lemma QuotientIsDivision(a: nat, b: nat)
    requires b > 0
    ensures Quotient(a, b) == a / b
  {
    QuotientBounds(a, b);
    TimesIsProduct(a / b, b);
    UniqueQuotient(a, b, Quotient(a, b), a / b);
  }

  /** The interval is the integer division the program performs. */
  lemma IntervalIsDivision(cols: nat)
    requires cols >= 2
    ensures Interval(cols) == MinutesPerDay / (cols - 1)
  {
    QuotientIsDivision(MinutesPerDay, cols - 1);
  }

  /** Every minute the pass queries lies inside the day. */
  lemma ColumnMinuteInDay(cols: nat, i: nat)
    requires cols >= 2 && i < cols - 1
    ensures 0 <= Times(i, Interval(cols)) < MinutesPerDay
  {
    var n, w := cols - 1, Interval(cols);
    TimesStep(i, n, w);
    QuotientBounds(MinutesPerDay, n);
    TimesIsProduct(n, w);
    TimesIsProduct(w, n);
    if w == 0 {
      TimesIsProduct(i, w);
    }
  }

  /**
   The value columns tile at most one day, and fall short of it by less than
   one minute per column; they tile it exactly when the column count divides
   1440.
   */
  lemma IntervalsCoverDay(cols: nat)
    requires cols >= 2
    ensures (cols - 1) * Interval(cols) <= MinutesPerDay
    ensures MinutesPerDay - (cols - 1) * Interval(cols) < cols - 1
    ensures MinutesPerDay % (cols - 1) == 0 <==> (cols - 1) * Interval(cols) == MinutesPerDay
  {
    var n := cols - 1;
    IntervalIsDivision(cols);
    assert MinutesPerDay == n * (MinutesPerDay / n) + MinutesPerDay % n;
  }

  // ---------------------------------------------------------------------
  // Cells

  /** One cell: parse the reading, then look up the rate, then multiply. */
  function CellPrice(src: Sources, lookup: LookupFn, day: int, minute: int, text: string): (r: Outcome)
    ensures r.Ok? <==> src.parseEnergy(text).Some? && lookup(day, minute).Ok?
    ensures r.Ok? ==> r.value == lookup(day, minute).value * src.parseEnergy(text).value
    ensures src.parseEnergy(text).None? ==> r == Err(EnergyParse)
    ensures src.parseEnergy(text).Some? && lookup(day, minute).Err? ==> r == Err(lookup(day, minute).error)
  {
    match src.parseEnergy(text)
    case None => Err(EnergyParse)
    case Some(energy) =>
      match lookup(day, minute)
      case Err(e) => Err(e)
      case Ok(rate) => Ok(rate * energy)
  }

  /** The per-cell outcomes of a row's value columns, cell `i` at minute `Times(i, interval)`. */
  function CellOutcomes(src: Sources, lookup: LookupFn, day: int, interval: nat, cells: seq<string>): (os: seq<Outcome>)
    ensures |os| == |cells|
  {
    if |cells| == 0 then []
    else
      var n := |cells| - 1;
      CellOutcomes(src, lookup, day, interval, cells[..n]) + [CellPrice(src, lookup, day, Times(n, interval), cells[n])]
  }

  /** Item `i` of the outcomes is cell `i` priced at its own minute. */
  lemma {:induction false} CellOutcomeAt(src: Sources, lookup: LookupFn, day: int, interval: nat, cells: seq<string>, i: nat)
    requires i < |cells|
    ensures CellOutcomes(src, lookup, day, interval, cells)[i] == CellPrice(src, lookup, day, Times(i, interval), cells[i])
  {
    var n := |cells| - 1;
    var pre := CellOutcomes(src, lookup, day, interval, cells[..n]);
    var o := CellPrice(src, lookup, day, Times(n, interval), cells[n]);
    assert CellOutcomes(src, lookup, day, interval, cells) == pre + [o];
    if i < n {
      CellOutcomeAt(src, lookup, day, interval, cells[..n], i);
      assert cells[..n][i] == cells[i];
      assert (pre + [o])[i] == pre[i];
    }
  }

  /**
   The program's inner fold over a row's value columns, as written. A row
   without values costs nothing, and because each step prices its own cell
   before it looks at the running sum, a failing last cell decides the row's
   error whatever the cells before it did.
   */
  function CellsFold(src: Sources, lookup: LookupFn, day: int, interval: nat, cells: seq<string>): (r: Outcome)
    ensures |cells| == 0 ==> r == Ok(0.0)
    ensures |cells| > 0 ==>
              var last := CellPrice(src, lookup, day, Times(|cells| - 1, interval), cells[|cells| - 1]);
              last.Err? ==> r == Err(last.error)
  {
    if |cells| == 0 then Ok(0.0)
    else
      var i := |cells| - 1;
      var acc := CellsFold(src, lookup, day, interval, cells[..i]);
      match CellPrice(src, lookup, day, Times(i, interval), cells[i])
      case Err(e) => Err(e)
      case Ok(v) => if acc.Err? then acc else Ok(acc.value + v)
  }

  /**
   A row's cells succeed together or not at all: the fold yields the sum of
   all cell costs when every cell prices, and otherwise the error of the last
   cell that fails.
   */
  lemma {:induction false} CellsFoldMeetsSpec(src: Sources, lookup: LookupFn, day: int, interval: nat, cells: seq<string>)
    ensures var os := CellOutcomes(src, lookup, day, interval, cells);
            CellsFold(src, lookup, day, interval, cells)
            == if AllOk(os) then Ok(Sum(os)) else Err(LastError(os))
  {
    var os := CellOutcomes(src, lookup, day, interval, cells);
    if |cells| > 0 {
      var i := |cells| - 1;
      var pre := CellOutcomes(src, lookup, day, interval, cells[..i]);
      CellsFoldMeetsSpec(src, lookup, day, interval, cells[..i]);
      LastSnoc(pre, os[i]);
      if AllOk(pre) && os[i].Ok? {
        SumSnoc(pre, os[i]);
      }
    } else {
      assert AllOk(os);
    }
  }

  lemma CellPriceLocal(src: Sources, l1: LookupFn, l2: LookupFn, day: int, minute: int, text: string)
    requires l1(day, minute) == l2(day, minute)
    ensures CellPrice(src, l1, day, minute, text) == CellPrice(src, l2, day, minute, text)
  {
    var a := CellPrice(src, l1, day, minute, text);
    var b := CellPrice(src, l2, day, minute, text);
    assert a.Ok? <==> b.Ok?;
    if a.Ok? {
      assert a.value == b.value;
    }
  }

  /** The cell fold only consults the lookup at the minutes its columns query. */
  lemma {:induction false} CellsFoldLocal(src: Sources, l1: LookupFn, l2: LookupFn, day: int, interval: nat, cells: seq<string>)
    requires forall i :: 0 <= i < |cells| ==> l1(day, Times(i, interval)) == l2(day, Times(i, interval))
    ensures CellsFold(src, l1, day, interval, cells) == CellsFold(src, l2, day, interval, cells)
  {
    if |cells| > 0 {
      var i := |cells| - 1;
      CellPriceLocal(src, l1, l2, day, Times(i, interval), cells[i]);
      CellsFoldLocal(src, l1, l2, day, interval, cells[..i]);
    }
  }

  // ---------------------------------------------------------------------
  // Rows

  /** Once a row has been read the column count is that of a row with at least one value. */
  predicate Started(p: Pass) {
    p.lines > 0 ==> p.cols >= 2
  }

  /**
   One step of the program's row fold, as written. An earlier error is passed
   on unchanged; a successful step counts one more row, keeps the first row's
   width, and only accepts rows of that width.
   */
  function RowStep(src: Sources, lookup: LookupFn, acc: Result<Pass, BillError>, r: Record): (res: Result<Pass, BillError>)
    requires acc.Ok? ==> Started(acc.value)
    ensures acc.Err? ==> res == acc
    ensures res.Ok? ==> acc.Ok? && res.value.lines == acc.value.lines + 1
    ensures res.Ok? ==> res.value.cols == |r| >= 2 && Started(res.value)
    ensures res.Ok? && acc.value.lines > 0 ==> res.value.cols == acc.value.cols
  {
    if acc.Err? then acc
    else
      var lineNo, numCols, sum := acc.value.lines, acc.value.cols, acc.value.total;
      if lineNo == 0 && |r| == 0 then Err(EmptyFirstRow)
      else if lineNo != 0 && |r| != numCols then Err(ColumnMismatch(|r|, lineNo, numCols))
      else
        var numCols2 := if lineNo == 0 then |r| else numCols;
        if numCols2 == 1 then Err(ZeroInterval)
        else
          var interval := Interval(numCols2);
          var day :- DayIndex(r[0], src.holidays, src.weekdayOf);
          var rowCost :- CellsFold(src, lookup, day, interval, r[1..]);
          Ok(Pass(lineNo + 1, numCols2, sum + rowCost))
  }

  /** The program's fold over the rows of an energy table, as written. */
  function PriceEnergy(src: Sources, lookup: LookupFn, rows: seq<Record>): (res: Result<Pass, BillError>)
    ensures res.Ok? ==> Started(res.value)
    ensures res.Ok? ==> res.value.lines == |rows|
    ensures res.Ok? && |rows| > 0 ==> res.value.cols == |rows[0]|
  {
    if |rows| == 0 then Ok(Pass(0, 0, 0.0))
    else
      var n := |rows| - 1;
      var acc := PriceEnergy(src, lookup, rows[..n]);
      assert n > 0 ==> rows[..n][0] == rows[0];
      RowStep(src, lookup, acc, rows[n])
  }

  // ---------------------------------------------------------------------
  // Reference definition of the pass

  /** The column count a table is priced with: that of its first row. */
  function Width(rows: seq<Record>): nat {
    if |rows| == 0 then 0 else |rows[0]|
  }

  /**
   What row number `k` contributes, judged on its own against the first
   row's width: its width, its date, and the cells' reference outcome.
   */
  function RowOutcome(src: Sources, lookup: LookupFn, width: nat, k: nat, r: Record): Outcome {
    if k == 0 && |r| == 0 then Err(EmptyFirstRow)
    else if k != 0 && |r| != width then Err(ColumnMismatch(|r|, k, width))
    else if |r| <= 1 then Err(ZeroInterval)
    else
      var day :- DayIndex(r[0], src.holidays, src.weekdayOf);
      var os := CellOutcomes(src, lookup, day, Interval(|r|), r[1..]);
      if AllOk(os) then Ok(Sum(os)) else Err(LastError(os))
  }

  /** Every row's own outcome against the width `width`, in table order. */
  function RowOutcomes(src: Sources, lookup: LookupFn, width: nat, rows: seq<Record>): (os: seq<Outcome>)
    ensures |os| == |rows|
  {
    if |rows| == 0 then []
    else
      var n := |rows| - 1;
      RowOutcomes(src, lookup, width, rows[..n]) + [RowOutcome(src, lookup, width, n, rows[n])]
  }

  /** Item `k` of the outcomes is row `k`'s outcome. */
  lemma {:induction false} RowOutcomeAt(src: Sources, lookup: LookupFn, width: nat, rows: seq<Record>, k: nat)
    requires k < |rows|
    ensures RowOutcomes(src, lookup, width, rows)[k] == RowOutcome(src, lookup, width, k, rows[k])
  {
    var n := |rows| - 1;
    var pre := RowOutcomes(src, lookup, width, rows[..n]);
    var o := RowOutcome(src, lookup, width, n, rows[n]);
    assert RowOutcomes(src, lookup, width, rows) == pre + [o];
    if k < n {
      RowOutcomeAt(src, lookup, width, rows[..n], k);
      assert rows[..n][k] == rows[k];
      assert (pre + [o])[k] == pre[k];
    }
  }

  /**
   The pass succeeds exactly when every row does, with the row count, the
   first row's width and the sum of all row costs; otherwise it reports the
   first failing row's error.
   */
  function PriceSpec(src: Sources, lookup: LookupFn, rows: seq<Record>): Result<Pass, BillError> {
    Aggregate(RowOutcomes(src, lookup, Width(rows), rows), |rows|, Width(rows))
  }

  /** All-or-nothing aggregation of per-row outcomes into a pass result. */
  function Aggregate(os: seq<Outcome>, lines: nat, cols: nat): Result<Pass, BillError> {
    if AllOk(os) then Ok(Pass(lines, cols, Sum(os))) else Err(FirstError(os))
  }

  /** Aggregating one more row, in terms of the rows before it. */
  function AggregateSnoc(ps: seq<Outcome>, o: Outcome, lines: nat, cols: nat): Result<Pass, BillError> {
    if !AllOk(ps) then Err(FirstError(ps))
    else if o.Err? then Err(o.error)
    else Ok(Pass(lines, cols, Sum(ps) + o.value))
  }

  lemma AggregateAppend(ps: seq<Outcome>, o: Outcome, lines: nat, cols: nat)
    ensures Aggregate(ps + [o], lines, cols) == AggregateSnoc(ps, o, lines, cols)
  {
    Snoc(ps, o);
  }

  /** The aggregate of outcomes whose first failure is at `k` reports that failure. */
  lemma AggregateFirstFailure(os: seq<Outcome>, k: nat, lines: nat, cols: nat)
    requires k < |os| && os[k].Err?
    requires forall j :: 0 <= j < k ==> os[j].Ok?
    ensures Aggregate(os, lines, cols) == Err(os[k].error)
  {
    assert AllOk(os[..k]);
    assert os[..k + 1] == os[..k] + [os[k]];
    FirstErrorAtEnd(os[..k], os[k]);
    FirstErrorPrefix(os, k + 1);
  }

  /** A failure inside a prefix is the failure reported for the whole sequence. */
  lemma {:induction false} FirstErrorPrefix(os: seq<Outcome>, n: nat)
    requires n <= |os| && !AllOk(os[..n])
    ensures !AllOk(os)
    ensures FirstError(os) == FirstError(os[..n])
    decreases |os| - n
  {
    if n < |os| {
      assert os[..n + 1] == os[..n] + [os[n]];
      FirstErrorSnoc(os[..n], os[n]);
      FirstErrorPrefix(os, n + 1);
    } else {
      assert os[..n] == os;
    }
  }

  /** One row step from a successful prefix is that row's reference outcome. */
  lemma RowStepIsOutcome(src: Sources, lookup: LookupFn, rows: seq<Record>, n: nat, acc: Result<Pass, BillError>, s: real)
    requires n == |rows| - 1
    requires acc == Ok(Pass(n, Width(rows[..n]), s))
    requires n > 0 ==> |rows[0]| >= 2
    ensures var o := RowOutcome(src, lookup, |rows[0]|, n, rows[n]);
            o.Err? ==> RowStep(src, lookup, acc, rows[n]) == Err(o.error)
    ensures var o := RowOutcome(src, lookup, |rows[0]|, n, rows[n]);
            o.Ok? ==> RowStep(src, lookup, acc, rows[n]) == Ok(Pass(|rows|, |rows[0]|, s + o.value))
  {
    var r := rows[n];
    assert n > 0 ==> rows[..n][0] == rows[0];
    if |r| >= 2 && (n == 0 || |r| == |rows[0]|) {
      var d := DayIndex(r[0], src.holidays, src.weekdayOf);
      if d.Ok? {
        CellsFoldMeetsSpec(src, lookup, d.value, Interval(|r|), r[1..]);
      }
    }
  }

  lemma StepAggregates(src: Sources, lookup: LookupFn, rows: seq<Record>, n: nat, acc: Result<Pass, BillError>, ps: seq<Outcome>)
    requires n == |rows| - 1
    requires acc == Aggregate(ps, n, Width(rows[..n]))
    requires acc.Ok? && n > 0 ==> |rows[0]| >= 2
    ensures RowStep(src, lookup, acc, rows[n])
         == AggregateSnoc(ps, RowOutcome(src, lookup, |rows[0]|, n, rows[n]), |rows|, |rows[0]|)
  {
    if AllOk(ps) {
      RowStepIsOutcome(src, lookup, rows, n, acc, Sum(ps));
    }
  }

  /** One more row through the fold, given that the rows before it aggregate to `ps`. */
  lemma FoldSnoc(src: Sources, lookup: LookupFn, rows: seq<Record>, ps: seq<Outcome>)
    requires |rows| > 0
    requires var n := |rows| - 1; PriceEnergy(src, lookup, rows[..n]) == Aggregate(ps, n, Width(rows[..n]))
    ensures var n := |rows| - 1;
            PriceEnergy(src, lookup, rows) == AggregateSnoc(ps, RowOutcome(src, lookup, |rows[0]|, n, rows[n]), |rows|, |rows[0]|)
  {
    var n := |rows| - 1;
    var acc := PriceEnergy(src, lookup, rows[..n]);
    assert PriceEnergy(src, lookup, rows) == RowStep(src, lookup, acc, rows[n]);
    assert n > 0 ==> rows[..n][0] == rows[0];
    StepAggregates(src, lookup, rows, n, acc, ps);
  }

  /** The program's row fold computes the reference definition. */
  lemma {:induction false} PriceEnergyMeetsSpec(src: Sources, lookup: LookupFn, rows: seq<Record>)
    ensures PriceEnergy(src, lookup, rows) == PriceSpec(src, lookup, rows)
  {
    if |rows| == 0 {
      assert AllOk(RowOutcomes(src, lookup, 0, rows));
    } else {
      var n := |rows| - 1;
      PriceEnergyMeetsSpec(src, lookup, rows[..n]);
      var ps := RowOutcomes(src, lookup, |rows[0]|, rows[..n]);
      assert n > 0 ==> Width(rows[..n]) == |rows[0]|;
      assert PriceEnergy(src, lookup, rows[..n]) == Aggregate(ps, n, Width(rows[..n]));
      FoldSnoc(src, lookup, rows, ps);
      AggregateAppend(ps, RowOutcome(src, lookup, |rows[0]|, n, rows[n]), |rows|, |rows[0]|);
    }
  }

  // ---------------------------------------------------------------------
  // Consequences

  /** A successful pass saw rows of one common width with at least one value column. */
  lemma PriceEnergyWidths(src: Sources, lookup: LookupFn, rows: seq<Record>)
    requires PriceEnergy(src, lookup, rows).Ok?
    ensures forall k :: 0 <= k < |rows| ==> |rows[k]| == |rows[0]| >= 2
  {
    PriceEnergyMeetsSpec(src, lookup, rows);
    var os := RowOutcomes(src, lookup, Width(rows), rows);
    forall k | 0 <= k < |rows|
      ensures |rows[k]| == |rows[0]| >= 2
    {
      RowOutcomeAt(src, lookup, Width(rows), rows, k);
      assert os[k].Ok?;
    }
  }

  /** A first row with no fields stops the pass. */
  lemma EmptyFirstRowFails(src: Sources, lookup: LookupFn, rows: seq<Record>)
    requires |rows| > 0 && |rows[0]| == 0
    ensures PriceEnergy(src, lookup, rows) == Err(EmptyFirstRow)
  {
    PriceEnergyMeetsSpec(src, lookup, rows);
    RowOutcomeAt(src, lookup, Width(rows), rows, 0);
    AggregateFirstFailure(RowOutcomes(src, lookup, Width(rows), rows), 0, |rows|, Width(rows));
  }

  /** A first row holding only its date stops the pass where the program would divide by zero. */
  lemma DateOnlyFirstRowFails(src: Sources, lookup: LookupFn, rows: seq<Record>)
    requires |rows| > 0 && |rows[0]| == 1
    ensures PriceEnergy(src, lookup, rows) == Err(ZeroInterval)
  {
    PriceEnergyMeetsSpec(src, lookup, rows);
    RowOutcomeAt(src, lookup, Width(rows), rows, 0);
    AggregateFirstFailure(RowOutcomes(src, lookup, Width(rows), rows), 0, |rows|, Width(rows));
  }

  /**
   If every row before row `k` prices and row `k` is narrower or wider than
   the first row, the pass fails with a mismatch naming row `k`.
   */
  lemma ColumnMismatchReported(src: Sources, lookup: LookupFn, rows: seq<Record>, k: nat)
    requires 0 < k < |rows| && |rows[k]| != |rows[0]|
    requires forall j :: 0 <= j < k ==> RowOutcome(src, lookup, |rows[0]|, j, rows[j]).Ok?
    ensures PriceEnergy(src, lookup, rows) == Err(ColumnMismatch(|rows[k]|, k, |rows[0]|))
  {
    PriceEnergyMeetsSpec(src, lookup, rows);
    var os := RowOutcomes(src, lookup, Width(rows), rows);
    forall j | 0 <= j < k
      ensures os[j].Ok?
    {
      RowOutcomeAt(src, lookup, Width(rows), rows, j);
    }
    RowOutcomeAt(src, lookup, Width(rows), rows, k);
    AggregateFirstFailure(os, k, |rows|, Width(rows));
  }

  /** Rows whose outcomes agree row by row give the same outcome sequence. */
  lemma RowOutcomesAgree(src: Sources, l1: LookupFn, l2: LookupFn, width: nat, rows: seq<Record>)
    requires forall k :: 0 <= k < |rows| ==> RowOutcome(src, l1, width, k, rows[k]) == RowOutcome(src, l2, width, k, rows[k])
    ensures RowOutcomes(src, l1, width, rows) == RowOutcomes(src, l2, width, rows)
  {
    var os1, os2 := RowOutcomes(src, l1, width, rows), RowOutcomes(src, l2, width, rows);
    forall k | 0 <= k < |rows|
      ensures os1[k] == os2[k]
    {
      RowOutcomeAt(src, l1, width, rows, k);
      RowOutcomeAt(src, l2, width, rows, k);
    }
  }

  /**
   The pass only consults the tariff at days 0 to 6 and minutes in [0, 1440):
   two lookups that agree there price every table identically.
   */
  lemma PriceEnergyLocal(src: Sources, l1: LookupFn, l2: LookupFn, rows: seq<Record>)
    requires forall d, m :: 0 <= d <= 6 && 0 <= m < MinutesPerDay ==> l1(d, m) == l2(d, m)
    ensures PriceEnergy(src, l1, rows) == PriceEnergy(src, l2, rows)
  {
    PriceEnergyMeetsSpec(src, l1, rows);
    PriceEnergyMeetsSpec(src, l2, rows);
    forall k | 0 <= k < |rows|
      ensures RowOutcome(src, l1, Width(rows), k, rows[k]) == RowOutcome(src, l2, Width(rows), k, rows[k])
    {
      RowOutcomeLocal(src, l1, l2, Width(rows), k, rows[k]);
    }
    RowOutcomesAgree(src, l1, l2, Width(rows), rows);
  }

  lemma RowOutcomeLocal(src: Sources, l1: LookupFn, l2: LookupFn, width: nat, k: nat, r: Record)
    requires forall d, m :: 0 <= d <= 6 && 0 <= m < MinutesPerDay ==> l1(d, m) == l2(d, m)
    ensures RowOutcome(src, l1, width, k, r) == RowOutcome(src, l2, width, k, r)
  {
    if |r| >= 2 {
      var d := DayIndex(r[0], src.holidays, src.weekdayOf);
      if d.Ok? {
        var w := Interval(|r|);
        forall i | 0 <= i < |r| - 1
          ensures l1(d.value, Times(i, w)) == l2(d.value, Times(i, w))
        {
          ColumnMinuteInDay(|r|, i);
        }
        CellsFoldLocal(src, l1, l2, d.value, w, r[1..]);
        CellsFoldMeetsSpec(src, l1, d.value, w, r[1..]);
        CellsFoldMeetsSpec(src, l2, d.value, w, r[1..]);
      }
    }
  }

  // ---------------------------------------------------------------------
  // Streaming

  /** The pass as a loop that reads the rows one at a time. */
  method PriceRows(src: Sources, lookup: LookupFn, rows: seq<Record>) returns (res: Result<Pass, BillError>)
    ensures res == PriceSpec(src, lookup, rows)
    ensures res.Ok? ==> res.value.lines == |rows| && res.value.cols == Width(rows)
  {
    res := Ok(Pass(0, 0, 0.0));
    var i := 0;
    while i < |rows|
      invariant 0 <= i <= |rows|
      invariant res == PriceEnergy(src, lookup, rows[..i])
    {
      assert rows[..i + 1][..i] == rows[..i];
      res := RowStep(src, lookup, res, rows[i]);
      i := i + 1;
    }
    assert rows[..i] == rows;
    PriceEnergyMeetsSpec(src, lookup, rows);
  }
}
