/** The derived mortality rate per 100,000 population:
    `df["Rate"] = df["Deaths"] / df["Pop"] * 100_000`. */
module Rate {
  import opened Tables
  import opened Records
  import opened Aggregate

  /** A row of the fact table handed to the dashboard. */
  datatype FactRow = FactRow(key: FactKey, deaths: nat, pop: nat, rate: Option<real>)

  const Scale: real := 100000.0

  /** A rate of `rate` deaths per 100,000 agrees with the counts: Rate * Pop == Deaths * 100,000. */
  predicate Consistent(rate: real, deaths: nat, pop: nat)
  {
    rate * (pop as real) == (deaths as real) * Scale
  }

  /** Deaths per 100,000 population. The source divides without a guard; with Pop == 0 its
      floating-point division yields inf or NaN, which this model represents as no value. */
  function RatePer100k(deaths: nat, pop: nat): (r: Option<real>)
    ensures r.Some? <==> pop > 0
    ensures r.Some? ==> Consistent(r.value, deaths, pop) && r.value >= 0.0
  {
    if pop == 0 then None else Some(deaths as real / pop as real * Scale)
  }

  /** Adds the Rate column: same rows, same order, same keys and sums; each rate times Pop gives
      Deaths times 100,000, and a rate exists exactly when Pop is positive. */
  function WithRates(groups: seq<Group>): (r: seq<FactRow>)
    ensures |r| == |groups|
    ensures forall i :: 0 <= i < |r| ==>
              r[i].key == groups[i].key && r[i].deaths == groups[i].deaths && r[i].pop == groups[i].pop
    ensures forall i :: 0 <= i < |r| ==> (r[i].rate.Some? <==> r[i].pop > 0)
    ensures forall i :: 0 <= i < |r| && r[i].rate.Some? ==>
              Consistent(r[i].rate.value, r[i].deaths, r[i].pop)
  {
    seq(|groups|, i requires 0 <= i < |groups| =>
      FactRow(groups[i].key, groups[i].deaths, groups[i].pop, RatePer100k(groups[i].deaths, groups[i].pop)))
  }
}
