/**
 The bill arithmetic of `main`: price the consumption table against the
 consumption tariff, price the feed-in table against the feed-in tariff when
 both are given, charge the daily supply once per consumption row, and add
 the three.
 */
module Billing {
  import opened Results
  import opened Tariffs
  import opened Pricing

  datatype Bill = Bill(consumption: real, feedin: real, supply: real, total: real)

  /** The injected lookup `main` builds from a tariff table. */
  function TableLookup(rules: seq<Tariff>): LookupFn {
    (dow: int, minute: int) => Lookup(dow, minute, rules)
  }

  /** The feed-in pass, or the empty result `(0, 0, 0.0)` unless both its inputs are given. */
  function FeedinPass(src: Sources, feedinTariff: Option<seq<Tariff>>, feedin: Option<seq<Record>>): (r: Result<Pass, BillError>)
    ensures feedinTariff.None? || feedin.None? ==> r == Ok(Pass(0, 0, 0.0))
    ensures feedinTariff.Some? && feedin.Some? ==> r == PriceEnergy(src, TableLookup(feedinTariff.value), feedin.value)
  {
    match (feedinTariff, feedin)
    case (Some(t), Some(e)) => PriceEnergy(src, TableLookup(t), e)
    case _ => Ok(Pass(0, 0, 0.0))
  }

  /**
   The bill of `main`: the consumption pass first, then the feed-in pass,
   then the supply charge and the total.
   */
  function ComputeBill(src: Sources, daily: real,
                       consumptionTariff: seq<Tariff>, consumption: seq<Record>,
                       feedinTariff: Option<seq<Tariff>>, feedin: Option<seq<Record>>): (r: Result<Bill, BillError>)
    ensures r.Ok? <==> PriceEnergy(src, TableLookup(consumptionTariff), consumption).Ok?
                       && FeedinPass(src, feedinTariff, feedin).Ok?
    ensures var c := PriceEnergy(src, TableLookup(consumptionTariff), consumption);
            c.Err? ==> r == Err(c.error)
    ensures var c, f := PriceEnergy(src, TableLookup(consumptionTariff), consumption), FeedinPass(src, feedinTariff, feedin);
            c.Ok? && f.Err? ==> r == Err(f.error)
    ensures r.Ok? ==> r.value.consumption == PriceEnergy(src, TableLookup(consumptionTariff), consumption).value.total
    ensures r.Ok? ==> r.value.feedin == FeedinPass(src, feedinTariff, feedin).value.total
    ensures r.Ok? && (feedinTariff.None? || feedin.None?) ==> r.value.feedin == 0.0
    ensures r.Ok? ==> r.value.supply == Supply(|consumption|, daily)
    ensures r.Ok? ==> r.value.total == r.value.consumption + r.value.feedin + r.value.supply
  {
    var c :- PriceEnergy(src, TableLookup(consumptionTariff), consumption);
    var f :- FeedinPass(src, feedinTariff, feedin);
    Ok(MakeBill(c, f, daily))
  }

  /** The supply charge for `days` days: one daily charge per day, added up. */
  function Supply(days: nat, daily: real): real {
    if days == 0 then 0.0 else Supply(days - 1, daily) + daily
  }

  /** Adding the daily charge once per day is the product `days * daily` that `main` computes. */
  lemma {:induction false} SupplyIsProduct(days: nat, daily: real)
    ensures Supply(days, daily) == (days as real) * daily
  {
    if days > 0 {
      SupplyIsProduct(days - 1, daily);
      assert (days as real) * daily == ((days - 1) as real) * daily + daily;
    }
  }

  /** The three parts of a bill and their sum. */
  function MakeBill(c: Pass, f: Pass, daily: real): (b: Bill)
    ensures b.consumption == c.total && b.feedin == f.total
    ensures b.supply == Supply(c.lines, daily)
    ensures b.supply == (c.lines as real) * daily
    ensures b.total == b.consumption + b.feedin + b.supply
  {
    SupplyIsProduct(c.lines, daily);
    var supply := Supply(c.lines, daily);
    Bill(c.total, f.total, supply, c.total + f.total + supply)
  }

  /**
   The feed-in table never changes the supply charge: two bills that differ
   only in their feed-in inputs charge the same supply.
   */
  lemma SupplyIgnoresFeedin(src: Sources, daily: real,
                            consumptionTariff: seq<Tariff>, consumption: seq<Record>,
                            t1: Option<seq<Tariff>>, f1: Option<seq<Record>>,
                            t2: Option<seq<Tariff>>, f2: Option<seq<Record>>)
    requires ComputeBill(src, daily, consumptionTariff, consumption, t1, f1).Ok?
    requires ComputeBill(src, daily, consumptionTariff, consumption, t2, f2).Ok?
    ensures ComputeBill(src, daily, consumptionTariff, consumption, t1, f1).value.supply
         == ComputeBill(src, daily, consumptionTariff, consumption, t2, f2).value.supply
    ensures ComputeBill(src, daily, consumptionTariff, consumption, t1, f1).value.consumption
         == ComputeBill(src, daily, consumptionTariff, consumption, t2, f2).value.consumption
  {
  }

  /**
   A bill's consumption cost is the reference total of the consumption table:
   every row priced, the cell costs of every row summed.
   */
  lemma BillConsumptionIsSpec(src: Sources, daily: real,
                              consumptionTariff: seq<Tariff>, consumption: seq<Record>,
                              feedinTariff: Option<seq<Tariff>>, feedin: Option<seq<Record>>)
    requires ComputeBill(src, daily, consumptionTariff, consumption, feedinTariff, feedin).Ok?
    ensures PriceSpec(src, TableLookup(consumptionTariff), consumption).Ok?
    ensures ComputeBill(src, daily, consumptionTariff, consumption, feedinTariff, feedin).value.consumption
         == PriceSpec(src, TableLookup(consumptionTariff), consumption).value.total
  {
    PriceEnergyMeetsSpec(src, TableLookup(consumptionTariff), consumption);
  }

  /**
   When both feed-in inputs are given, a bill's feed-in cost is the reference
   total of the feed-in table priced against the feed-in tariff.
   */
  lemma BillFeedinIsSpec(src: Sources, daily: real,
                         consumptionTariff: seq<Tariff>, consumption: seq<Record>,
                         feedinTariff: seq<Tariff>, feedin: seq<Record>)
    requires ComputeBill(src, daily, consumptionTariff, consumption, Some(feedinTariff), Some(feedin)).Ok?
    ensures PriceSpec(src, TableLookup(feedinTariff), feedin).Ok?
    ensures ComputeBill(src, daily, consumptionTariff, consumption, Some(feedinTariff), Some(feedin)).value.feedin
         == PriceSpec(src, TableLookup(feedinTariff), feedin).value.total
  {
    PriceEnergyMeetsSpec(src, TableLookup(feedinTariff), feedin);
  }
}
