/** The left merge of the long mortality table with the long population table on their common
    columns Country, Year, Sex and Age (`pd.merge(left=cancer_df, right=pop_df, how="left")`). */
module Merge {
  import opened Tables
  import opened Records
  import opened Reshape

  /** The columns the two long tables share, and so the columns the merge joins on. */
  datatype JoinKey = JoinKey(country: string, year: int, sex: string, age: string)

  function MortalityKey(l: LongRow<MortalityIds>): JoinKey
  {
    JoinKey(l.ids.country, l.ids.year, l.ids.sex, l.age)
  }

  function PopulationKey(p: LongRow<PopulationIds>): JoinKey
  {
    JoinKey(p.ids.country, p.ids.year, p.ids.sex, p.age)
  }

  /** The Pop cells of the population rows whose key is k, in population-table order. */
  function Matches(pop: seq<LongRow<PopulationIds>>, k: JoinKey): (m: seq<Option<nat>>)
    ensures |m| <= |pop|
    decreases |pop|
  {
    if pop == [] then []
    else
      var n := |pop| - 1;
      Matches(pop[..n], k) + (if PopulationKey(pop[n]) == k then [pop[n].value] else [])
  }

  /** A mortality row extended with a population cell. */
  function Joined(l: LongRow<MortalityIds>, pop: Option<nat>): Row
  {
    Row(l.ids.country, l.ids.year, l.ids.cancer, l.ids.sex, l.age, l.value, pop)
  }

  /** The mortality columns of a merged row. */
  function Unjoined(r: Row): LongRow<MortalityIds>
  {
    LongRow(MortalityIds(r.country, r.year, r.cancer, r.sex), r.age, r.deaths)
  }

  /** The merged rows of one mortality row: one per matching population row, or a single row
      with Pop missing when none matches. */
  function JoinOne(l: LongRow<MortalityIds>, pop: seq<LongRow<PopulationIds>>): seq<Row>
  {
    var m := Matches(pop, MortalityKey(l));
    if m == [] then [Joined(l, None)]
    else seq(|m|, j requires 0 <= j < |m| => Joined(l, m[j]))
  }

  /** The left merge: each mortality row, in order, followed by the rows of the next one. */
  function LeftMerge(mortality: seq<LongRow<MortalityIds>>, pop: seq<LongRow<PopulationIds>>): (r: seq<Row>)
    ensures |r| >= |mortality|
    decreases |mortality|
  {
    if mortality == [] then []
    else
      var n := |mortality| - 1;
      LeftMerge(mortality[..n], pop) + JoinOne(mortality[n], pop)
  }

  /** Every merged row of one mortality row carries that row's columns unchanged. */
  lemma JoinOneKeeps(l: LongRow<MortalityIds>, pop: seq<LongRow<PopulationIds>>)
    ensures |JoinOne(l, pop)| >= 1
    ensures forall i :: 0 <= i < |JoinOne(l, pop)| ==> Unjoined(JoinOne(l, pop)[i]) == l
  {
  }

  /** Every merged row comes from a mortality row, whose columns it carries unchanged. */
  lemma {:induction false} LeftMergeFromMortality(mortality: seq<LongRow<MortalityIds>>, pop: seq<LongRow<PopulationIds>>)
    ensures forall i :: 0 <= i < |LeftMerge(mortality, pop)| ==>
              exists m :: 0 <= m < |mortality| && Unjoined(LeftMerge(mortality, pop)[i]) == mortality[m]
    decreases |mortality|
  {
    if mortality != [] {
      var n := |mortality| - 1;
      var front := mortality[..n];
      LeftMergeFromMortality(front, pop);
      JoinOneKeeps(mortality[n], pop);
      var prev := LeftMerge(front, pop);
      var r := LeftMerge(mortality, pop);
      assert r == prev + JoinOne(mortality[n], pop);
      forall i | 0 <= i < |r| ensures exists m :: 0 <= m < |mortality| && Unjoined(r[i]) == mortality[m] {
        if i < |prev| {
          assert r[i] == prev[i];
          var m :| 0 <= m < n && Unjoined(prev[i]) == front[m];
          assert front[m] == mortality[m];
        } else {
          assert Unjoined(r[i]) == mortality[n];
        }
      }
    } else {
      assert LeftMerge(mortality, pop) == [];
    }
  }

  /** Some row of `out` carries the mortality row l unchanged. */
  predicate Carries(out: seq<Row>, l: LongRow<MortalityIds>)
  {
    exists i :: 0 <= i < |out| && Unjoined(out[i]) == l
  }

  /** Every mortality row appears in the merge with Country, Year, Cancer, Sex, Age and Deaths
      unchanged: the left merge loses no mortality row. */
  lemma {:induction false} LeftMergeKeepsMortality(mortality: seq<LongRow<MortalityIds>>, pop: seq<LongRow<PopulationIds>>)
    ensures forall m :: 0 <= m < |mortality| ==> Carries(LeftMerge(mortality, pop), mortality[m])
    decreases |mortality|
  {
    if mortality != [] {
      var n := |mortality| - 1;
      var front := mortality[..n];
      LeftMergeKeepsMortality(front, pop);
      JoinOneKeeps(mortality[n], pop);
      var prev := LeftMerge(front, pop);
      var r := LeftMerge(mortality, pop);
      assert r == prev + JoinOne(mortality[n], pop);
      forall m | 0 <= m < |mortality| ensures Carries(r, mortality[m]) {
        if m < n {
          assert front[m] == mortality[m];
          var i :| 0 <= i < |prev| && Unjoined(prev[i]) == front[m];
          assert r[i] == prev[i];
        } else {
          assert Unjoined(r[|prev|]) == mortality[n];
        }
      }
    }
  }

  /** No two population rows share a key. */
  predicate UniqueKeys(pop: seq<LongRow<PopulationIds>>)
  {
    forall a, b :: 0 <= a < b < |pop| ==> PopulationKey(pop[a]) != PopulationKey(pop[b])
  }

  lemma {:induction false} MatchesNone(pop: seq<LongRow<PopulationIds>>, k: JoinKey)
    ensures Matches(pop, k) == [] <==> forall j :: 0 <= j < |pop| ==> PopulationKey(pop[j]) != k
    decreases |pop|
  {
    if pop != [] {
      var n := |pop| - 1;
      MatchesNone(pop[..n], k);
      assert forall j :: 0 <= j < n ==> pop[..n][j] == pop[j];
    }
  }

  lemma {:induction false} MatchesUnique(pop: seq<LongRow<PopulationIds>>, k: JoinKey, j: nat)
    requires UniqueKeys(pop) && j < |pop| && PopulationKey(pop[j]) == k
    ensures Matches(pop, k) == [pop[j].value]
    decreases |pop|
  {
    var n := |pop| - 1;
    assert UniqueKeys(pop[..n]);
    if j < n {
      MatchesUnique(pop[..n], k, j);
      assert PopulationKey(pop[n]) != k;
    } else {
      MatchesNone(pop[..n], k);
      assert forall i :: 0 <= i < n ==> pop[..n][i] == pop[i];
    }
  }

  /** Cell c is the Pop cell of some population row with key k. */
  predicate CellOf(pop: seq<LongRow<PopulationIds>>, k: JoinKey, c: Option<nat>)
  {
    exists j :: 0 <= j < |pop| && PopulationKey(pop[j]) == k && c == pop[j].value
  }

  /** Every matched cell is the Pop cell of a population row with key k. */
  lemma {:induction false} MatchesFrom(pop: seq<LongRow<PopulationIds>>, k: JoinKey)
    ensures forall q :: 0 <= q < |Matches(pop, k)| ==> CellOf(pop, k, Matches(pop, k)[q])
    decreases |pop|
  {
    if pop != [] {
      var n := |pop| - 1;
      var front := pop[..n];
      MatchesFrom(front, k);
      var prev := Matches(front, k);
      var m := Matches(pop, k);
      assert m == prev + (if PopulationKey(pop[n]) == k then [pop[n].value] else []);
      forall q | 0 <= q < |m| ensures CellOf(pop, k, m[q]) {
        if q < |prev| {
          assert CellOf(front, k, prev[q]);
          var j :| 0 <= j < n && PopulationKey(front[j]) == k && prev[q] == front[j].value;
          assert front[j] == pop[j];
        } else {
          assert m[q] == pop[n].value;
        }
      }
    } else {
      assert Matches(pop, k) == [];
    }
  }

  /** The join key of a merged row. */
  function RowKey(r: Row): JoinKey
  {
    JoinKey(r.country, r.year, r.sex, r.age)
  }

  /** The Pop of merged row r is the cell of some population row with r's key (a cell that may
      itself be missing), or missing when no population row has that key. */
  predicate PopFromPopulation(pop: seq<LongRow<PopulationIds>>, r: Row)
  {
    || CellOf(pop, RowKey(r), r.pop)
    || (r.pop == None && forall j :: 0 <= j < |pop| ==> PopulationKey(pop[j]) != RowKey(r))
  }

  lemma JoinOnePop(l: LongRow<MortalityIds>, pop: seq<LongRow<PopulationIds>>)
    ensures forall q :: 0 <= q < |JoinOne(l, pop)| ==> PopFromPopulation(pop, JoinOne(l, pop)[q])
  {
    var k := MortalityKey(l);
    MatchesNone(pop, k);
    MatchesFrom(pop, k);
    var out := JoinOne(l, pop);
    forall q | 0 <= q < |out| ensures PopFromPopulation(pop, out[q]) {
      assert RowKey(out[q]) == k;
    }
  }

  /** With any population table, repeated keys included: each merged row's Pop comes from a
      population row with the same Country, Year, Sex and Age, or is missing because none has it. */
  lemma {:induction false} LeftMergePop(mortality: seq<LongRow<MortalityIds>>, pop: seq<LongRow<PopulationIds>>)
    ensures forall i :: 0 <= i < |LeftMerge(mortality, pop)| ==> PopFromPopulation(pop, LeftMerge(mortality, pop)[i])
    decreases |mortality|
  {
    if mortality != [] {
      var n := |mortality| - 1;
      LeftMergePop(mortality[..n], pop);
      JoinOnePop(mortality[n], pop);
      var prev := LeftMerge(mortality[..n], pop);
      var r := LeftMerge(mortality, pop);
      assert r == prev + JoinOne(mortality[n], pop);
      forall i | 0 <= i < |r| ensures PopFromPopulation(pop, r[i]) {
        if i < |prev| {
          assert r[i] == prev[i];
        } else {
          assert r[i] == JoinOne(mortality[n], pop)[i - |prev|];
        }
      }
    } else {
      assert LeftMerge(mortality, pop) == [];
    }
  }

  /** The population cell a uniquely keyed merge attaches for key k. */
  function PopCell(pop: seq<LongRow<PopulationIds>>, k: JoinKey): Option<nat>
  {
    var m := Matches(pop, k);
    if m == [] then None else m[0]
  }

  /** Without duplicate population keys, one mortality row yields one merged row. */
  lemma JoinOneUnique(l: LongRow<MortalityIds>, pop: seq<LongRow<PopulationIds>>)
    requires UniqueKeys(pop)
    ensures JoinOne(l, pop) == [Joined(l, PopCell(pop, MortalityKey(l)))]
  {
    var k := MortalityKey(l);
    MatchesNone(pop, k);
    if m :| 0 <= m < |pop| && PopulationKey(pop[m]) == k {
      MatchesUnique(pop, k, m);
      assert Matches(pop, k) == [pop[m].value];
    } else {
      assert Matches(pop, k) == [];
    }
  }

  /** Without duplicate population keys, each mortality row yields exactly one merged row. */
  lemma {:induction false} LeftMergeAligned(mortality: seq<LongRow<MortalityIds>>, pop: seq<LongRow<PopulationIds>>)
    requires UniqueKeys(pop)
    ensures |LeftMerge(mortality, pop)| == |mortality|
    ensures forall i :: 0 <= i < |mortality| ==>
              LeftMerge(mortality, pop)[i] == Joined(mortality[i], PopCell(pop, MortalityKey(mortality[i])))
    decreases |mortality|
  {
    if mortality != [] {
      var n := |mortality| - 1;
      LeftMergeAligned(mortality[..n], pop);
      var l := mortality[n];
      var k := MortalityKey(l);
      var prev := LeftMerge(mortality[..n], pop);
      var r := LeftMerge(mortality, pop);
      assert r == prev + JoinOne(l, pop);
      assert JoinOne(l, pop) == [Joined(l, PopCell(pop, k))] by { JoinOneUnique(l, pop); }
      forall i | 0 <= i < |mortality|
        ensures r[i] == Joined(mortality[i], PopCell(pop, MortalityKey(mortality[i])))
      {
        if i < n {
          assert r[i] == prev[i];
          assert mortality[..n][i] == mortality[i];
        }
      }
    }
  }

  /** What PopCell attaches when keys are unique: the matching row's cell, or nothing. */
  lemma PopCellUnique(pop: seq<LongRow<PopulationIds>>, k: JoinKey)
    requires UniqueKeys(pop)
    ensures forall j :: 0 <= j < |pop| && PopulationKey(pop[j]) == k ==> PopCell(pop, k) == pop[j].value
    ensures (forall j :: 0 <= j < |pop| ==> PopulationKey(pop[j]) != k) ==> PopCell(pop, k) == None
  {
    MatchesNone(pop, k);
    forall j | 0 <= j < |pop| && PopulationKey(pop[j]) == k ensures PopCell(pop, k) == pop[j].value {
      MatchesUnique(pop, k, j);
    }
  }

  /** With a population table keyed uniquely by (Country, Year, Sex, Age), the merge has exactly
      one row per mortality row, in the same order, with the mortality columns unchanged; its Pop
      is the cell of the population row with the same key, and is missing when there is none. */
  lemma LeftMergeUnique(mortality: seq<LongRow<MortalityIds>>, pop: seq<LongRow<PopulationIds>>)
    requires UniqueKeys(pop)
    ensures |LeftMerge(mortality, pop)| == |mortality|
    ensures forall i :: 0 <= i < |mortality| ==> Unjoined(LeftMerge(mortality, pop)[i]) == mortality[i]
    ensures forall i, j ::
              0 <= i < |mortality| && 0 <= j < |pop| && PopulationKey(pop[j]) == MortalityKey(mortality[i])
              ==> LeftMerge(mortality, pop)[i].pop == pop[j].value
    ensures forall i ::
              0 <= i < |mortality| && (forall j :: 0 <= j < |pop| ==> PopulationKey(pop[j]) != MortalityKey(mortality[i]))
              ==> LeftMerge(mortality, pop)[i].pop == None
  {
    LeftMergeAligned(mortality, pop);
    forall i | 0 <= i < |mortality| ensures
      && (forall j :: 0 <= j < |pop| && PopulationKey(pop[j]) == MortalityKey(mortality[i])
            ==> LeftMerge(mortality, pop)[i].pop == pop[j].value)
      && ((forall j :: 0 <= j < |pop| ==> PopulationKey(pop[j]) != MortalityKey(mortality[i]))
            ==> LeftMerge(mortality, pop)[i].pop == None)
    {
      PopCellUnique(pop, MortalityKey(mortality[i]));
    }
  }

  /** The melted population table of a source keyed by (Country, Year, Sex), with distinct age
      headers, is uniquely keyed: the precondition of LeftMergeUnique holds for it. */
  lemma MeltedPopulationUnique(t: WideTable<PopulationIds>)
    requires Rectangular(t)
    requires forall a, b :: 0 <= a < b < |t.rows| ==> t.rows[a].ids != t.rows[b].ids
    requires forall a, b :: 0 <= a < b < |t.headers| ==> t.headers[a] != t.headers[b]
    ensures UniqueKeys(Melt(t))
  {
    MeltUnique(t);
    var m := Melt(t);
    forall a, b | 0 <= a < b < |m| ensures PopulationKey(m[a]) != PopulationKey(m[b]) {
      assert (m[a].ids, m[a].age) != (m[b].ids, m[b].age);
    }
  }
}
