/** `load_data`: reshape, merge, backfill, drop, aggregate and derive, in that order. */
module Load {
  import opened Tables
  import opened Records
  import opened Reshape
  import opened Merge
  import opened Backfill
  import opened Aggregate
  import opened Rate

  /** The merged data frame `df`, whose Pop column is overwritten in place and whose incomplete
      rows are dropped in place. */
  class Frame {
    var rows: seq<Row>

    constructor (rows: seq<Row>)
      ensures this.rows == rows
    {
      this.rows := rows;
    }

    /** The grouped backfill, as one backward scan that remembers, per (Country, Sex, Age) group,
        the Pop of the nearest later row of that group that has one. */
    method FillPop()
      modifies this
      ensures rows == Backfilled(old(rows))
    {
      ghost var orig := rows;
      var next: map<GroupKey, nat> := map[];
      var i := |rows|;
      while i > 0
        invariant 0 <= i <= |orig| == |rows|
        invariant forall k :: 0 <= k < i ==> rows[k] == orig[k]
        invariant forall k :: i <= k < |orig| ==> rows[k] == Backfilled(orig)[k]
        invariant forall g :: NextPop(orig, g, i) == if g in next then Some(next[g]) else None
      {
        i := i - 1;
        var row := rows[i];
        var g := GroupOf(row);
        if row.pop.Some? {
          next := next[g := row.pop.value];
        } else if g in next {
          rows := rows[i := row.(pop := Some(next[g]))];
        }
      }
    }

    /** `dropna(inplace=True)`: keeps the complete rows, in their order. */
    method DropIncomplete()
      modifies this
      ensures rows == Where(old(rows), IsComplete)
    {
      var all := rows;
      var kept: seq<Row> := [];
      for i := 0 to |all|
        invariant kept == Where(all[..i], IsComplete)
      {
        assert all[..i + 1][..i] == all[..i];
        if IsComplete(all[i]) {
          kept := kept + [all[i]];
        }
      }
      assert all[..|all|] == all;
      rows := kept;
    }
  }

  /** The table after the drop: merged, backfilled and with incomplete rows removed; no row of
      it has a missing cell. */
  function Cleaned(mortality: WideTable<MortalityIds>, population: WideTable<PopulationIds>): (c: seq<Row>)
    requires Rectangular(mortality) && Rectangular(population)
    ensures forall i :: 0 <= i < |c| ==> IsComplete(c[i])
  {
    Where(Backfilled(LeftMerge(Melt(mortality), Melt(population))), IsComplete)
  }

  /** The fact table `load_data` returns. */
  function FactTable(mortality: WideTable<MortalityIds>, population: WideTable<PopulationIds>): seq<FactRow>
    requires Rectangular(mortality) && Rectangular(population)
  {
    Aggregated(Cleaned(mortality, population))
  }

  /** The last two steps: group and sum, then add the rate. */
  function Aggregated(cleaned: seq<Row>): seq<FactRow>
  {
    WithRates(GroupSum(cleaned))
  }

  /** The pipeline itself, on the already parsed wide tables. */
  method LoadData(mortality: WideTable<MortalityIds>, population: WideTable<PopulationIds>)
    returns (facts: seq<FactRow>)
    requires Rectangular(mortality) && Rectangular(population)
    ensures facts == FactTable(mortality, population)
  {
    var cancerLong := Melt(mortality);
    var popLong := Melt(population);
    var df := new Frame(LeftMerge(cancerLong, popLong));
    df.FillPop();
    df.DropIncomplete();
    var grouped := GroupSum(df.rows);
    facts := WithRates(grouped);
  }

  /** The invariants of the fact table built from cleaned rows c: keys are strictly increasing,
      hence unique; each row's Deaths and Pop are the sums over the rows of c with its key; every
      key of c has its row and every row's key is a key of c; and the rate exists exactly when
      Pop is positive, with Rate * Pop == Deaths * 100,000. */
  lemma FactTableInvariants(c: seq<Row>)
    ensures forall i, j :: 0 <= i < j < |Aggregated(c)| ==> KeyLess(Aggregated(c)[i].key, Aggregated(c)[j].key)
    ensures forall i :: 0 <= i < |Aggregated(c)| ==>
              && Aggregated(c)[i].deaths == DeathsFor(c, Aggregated(c)[i].key)
              && Aggregated(c)[i].pop == PopFor(c, Aggregated(c)[i].key)
              && Present(c, Aggregated(c)[i].key)
    ensures forall i :: 0 <= i < |c| ==> exists j :: 0 <= j < |Aggregated(c)| && Aggregated(c)[j].key == KeyOf(c[i])
    ensures forall i :: 0 <= i < |Aggregated(c)| ==> (Aggregated(c)[i].rate.Some? <==> Aggregated(c)[i].pop > 0)
    ensures forall i :: 0 <= i < |Aggregated(c)| && Aggregated(c)[i].rate.Some? ==>
              Consistent(Aggregated(c)[i].rate.value, Aggregated(c)[i].deaths, Aggregated(c)[i].pop)
  {
    var g := GroupSum(c);
    var f := Aggregated(c);
    GroupSumRows(c);
    forall i, j | 0 <= i < j < |f| ensures KeyLess(f[i].key, f[j].key) {
      assert f[i].key == g[i].key && f[j].key == g[j].key;
    }
    forall i | 0 <= i < |c| ensures exists j :: 0 <= j < |f| && f[j].key == KeyOf(c[i]) {
      var j :| 0 <= j < |g| && g[j].key == KeyOf(c[i]);
      assert f[j].key == g[j].key;
    }
  }

  /** The two tiny source tables of the end-to-end example: one mortality row and one
      population row over two age brackets. */
  const TestlandMortality: WideTable<MortalityIds> :=
    WideTable(["Age <5", "Age 5-14"], [WideRow(MortalityIds("Testland", 2010, "X", "F"), [Some(10), Some(0)])])
  const TestlandPopulation: WideTable<PopulationIds> :=
    WideTable(["Age <5", "Age 5-14"], [WideRow(PopulationIds("Testland", 2010, "F"), [Some(100000), Some(50000)])])
  const TestlandYoung := Row("Testland", 2010, "X", "F", "Age <5", Some(10), Some(100000))
  const TestlandOlder := Row("Testland", 2010, "X", "F", "Age 5-14", Some(0), Some(50000))

  lemma TestlandMelted()
    ensures Rectangular(TestlandMortality) && Rectangular(TestlandPopulation)
    ensures Melt(TestlandMortality) == [
              LongRow(MortalityIds("Testland", 2010, "X", "F"), "Age <5", Some(10)),
              LongRow(MortalityIds("Testland", 2010, "X", "F"), "Age 5-14", Some(0))]
    ensures Melt(TestlandPopulation) == [
              LongRow(PopulationIds("Testland", 2010, "F"), "Age <5", Some(100000)),
              LongRow(PopulationIds("Testland", 2010, "F"), "Age 5-14", Some(50000))]
  {
    var mortality, population := TestlandMortality, TestlandPopulation;
    var mLong := Melt(mortality);
    assert mortality.rows[0].cells[0] == Some(10) && mortality.headers[0] == "Age <5";
    assert mLong[Offset(0, 1) + 0] == LongRow(mortality.rows[0].ids, "Age <5", Some(10));
    assert mLong[Offset(1, 1) + 0] == LongRow(mortality.rows[0].ids, "Age 5-14", Some(0));
    var pLong := Melt(population);
    assert population.rows[0].cells[0] == Some(100000) && population.headers[0] == "Age <5";
    assert pLong[Offset(0, 1) + 0] == LongRow(population.rows[0].ids, "Age <5", Some(100000));
    assert pLong[Offset(1, 1) + 0] == LongRow(population.rows[0].ids, "Age 5-14", Some(50000));
  }

  lemma TestlandMerged()
    ensures Rectangular(TestlandMortality) && Rectangular(TestlandPopulation)
    ensures LeftMerge(Melt(TestlandMortality), Melt(TestlandPopulation)) == [TestlandYoung, TestlandOlder]
  {
    TestlandMelted();
    var mLong := Melt(TestlandMortality);
    var pLong := Melt(TestlandPopulation);
    assert "Age <5" != "Age 5-14" by { assert "Age <5"[4] != "Age 5-14"[4]; }
    assert UniqueKeys(pLong);
    LeftMergeUnique(mLong, pLong);
    var merged := LeftMerge(mLong, pLong);
    assert merged[0].pop == pLong[0].value;
    assert merged[1].pop == pLong[1].value;
  }

  lemma TestlandCleaned()
    ensures Rectangular(TestlandMortality) && Rectangular(TestlandPopulation)
    ensures Cleaned(TestlandMortality, TestlandPopulation) == [TestlandYoung, TestlandOlder]
  {
    TestlandMerged();
    var merged := [TestlandYoung, TestlandOlder];
    var filled := Backfilled(merged);
    assert filled[0] == merged[0] && filled[1] == merged[1];
    assert filled == merged;
    assert IsComplete(merged[0]) && IsComplete(merged[1]);
    WhereAll(merged, IsComplete);
  }

  /** "Age 5-14" sorts before "Age <5", since '5' precedes '<' in code-point order. */
  lemma TestlandKeyOrder()
    ensures KeyLess(KeyOf(TestlandOlder), KeyOf(TestlandYoung))
  {
  }

  lemma TestlandGrouped()
    ensures GroupSum([TestlandYoung, TestlandOlder])
            == [Group(KeyOf(TestlandOlder), 0, 50000), Group(KeyOf(TestlandYoung), 10, 100000)]
  {
    var c := [TestlandYoung, TestlandOlder];
    var k0 := KeyOf(TestlandYoung);
    var k1 := KeyOf(TestlandOlder);
    TestlandKeyOrder();
    assert c[..1] == [TestlandYoung];
    assert c[..1][..0] == [];
    assert GroupSum(c[..1][..0]) == [];
    var first := GroupSum(c[..1]);
    assert first == Insert([], k0, Value(TestlandYoung.deaths), Value(TestlandYoung.pop));
    assert first == Insert([], k0, 10, 100000) == [Group(k0, 10, 100000)];
    assert k0 != k1;
    assert Insert(first, k1, 0, 50000) == [Group(k1, 0, 50000)] + first;
  }

  lemma TestlandRates()
    ensures RatePer100k(0, 50000) == Some(0.0)
    ensures RatePer100k(10, 100000) == Some(10.0)
  {
    assert (10 as real) / (100000 as real) == 0.0001;
  }

  /** The end-to-end example: the two tiny tables give two fact rows, in key order ("Age 5-14"
      sorts before "Age <5"): 0 deaths in 50,000 (rate 0.0) and 10 deaths in 100,000 (rate 10.0). */
  lemma EndToEndExample()
    ensures Rectangular(TestlandMortality) && Rectangular(TestlandPopulation)
    ensures FactTable(TestlandMortality, TestlandPopulation)
            == [FactRow(FactKey("Testland", 2010, "X", "Age 5-14", "F"), 0, 50000, Some(0.0)),
                FactRow(FactKey("Testland", 2010, "X", "Age <5", "F"), 10, 100000, Some(10.0))]
  {
    TestlandCleaned();
    TestlandGrouped();
    TestlandRates();
    var g := GroupSum([TestlandYoung, TestlandOlder]);
    var f := WithRates(g);
    assert f[0] == FactRow(g[0].key, 0, 50000, RatePer100k(0, 50000));
    assert f[1] == FactRow(g[1].key, 10, 100000, RatePer100k(10, 100000));
    assert FactTable(TestlandMortality, TestlandPopulation) == f;
  }
}
