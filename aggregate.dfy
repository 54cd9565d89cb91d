/** Grouping the cleaned table by (Country, Year, Cancer, Age, Sex) and summing Deaths and Pop:
    `df.groupby(["Country", "Year", "Cancer", "Age", "Sex"]).sum().reset_index()`. */
module Aggregate {
  import opened Tables
  import opened Records

  /** One row of the grouped table: a key and the sums of its rows' Deaths and Pop. */
  datatype Group = Group(key: FactKey, deaths: nat, pop: nat)

  /** A summed cell: pandas' sum skips missing values, so a missing cell adds nothing. */
  function Value(o: Option<nat>): nat
  {
    if o.Some? then o.value else 0
  }

  /** Some row of `rows` has key k. */
  predicate Present(rows: seq<Row>, k: FactKey)
  {
    exists i :: 0 <= i < |rows| && KeyOf(rows[i]) == k
  }

  /** The sum of Deaths over the rows with key k. */
  function DeathsFor(rows: seq<Row>, k: FactKey): nat
    decreases |rows|
  {
    if rows == [] then 0
    else
      var n := |rows| - 1;
      DeathsFor(rows[..n], k) + (if KeyOf(rows[n]) == k then Value(rows[n].deaths) else 0)
  }

  /** The sum of Pop over the rows with key k. */
  function PopFor(rows: seq<Row>, k: FactKey): nat
    decreases |rows|
  {
    if rows == [] then 0
    else
      var n := |rows| - 1;
      PopFor(rows[..n], k) + (if KeyOf(rows[n]) == k then Value(rows[n].pop) else 0)
  }

  lemma PresentLast(rows: seq<Row>)
    requires rows != []
    ensures forall k :: Present(rows, k) <==> Present(rows[..|rows| - 1], k) || KeyOf(rows[|rows| - 1]) == k
  {
  }

  /** Keys strictly increase along the table, so no key occurs twice. */
  predicate Sorted(gs: seq<Group>)
  {
    forall i, j :: 0 <= i < j < |gs| ==> KeyLess(gs[i].key, gs[j].key)
  }

  /** The first group with key k. */
  function Find(gs: seq<Group>, k: FactKey): (f: Option<Group>)
    ensures f.Some? ==> f.value.key == k
    ensures f.None? <==> forall i :: 0 <= i < |gs| ==> gs[i].key != k
  {
    if gs == [] then None
    else if gs[0].key == k then Some(gs[0])
    else
      var f := Find(gs[1..], k);
      assert forall i :: 1 <= i < |gs| ==> gs[i] == gs[1..][i - 1];
      f
  }

  function DeathsOf(f: Option<Group>): nat
  {
    if f.Some? then f.value.deaths else 0
  }

  function PopOf(f: Option<Group>): nat
  {
    if f.Some? then f.value.pop else 0
  }

  /** In a sorted table, looking up a group's own key finds that group. */
  lemma {:induction false} FindSorted(gs: seq<Group>, i: nat)
    requires Sorted(gs) && i < |gs|
    ensures Find(gs, gs[i].key) == Some(gs[i])
    decreases i
  {
    if i > 0 {
      KeyLessIrreflexive(gs[0].key);
      assert gs[0].key != gs[i].key;
      FindSorted(gs[1..], i - 1);
    }
  }

  /** Adds one row's key and cells to a sorted grouped table: the key's sums grow by the row's
      cells, every other key is unaffected, and the table stays sorted. */
  function Insert(gs: seq<Group>, k: FactKey, deaths: nat, pop: nat): (r: seq<Group>)
    requires Sorted(gs)
    ensures Sorted(r)
    ensures r != [] && (r[0].key == k || (gs != [] && r[0].key == gs[0].key))
    ensures forall k' :: k' != k ==> Find(r, k') == Find(gs, k')
    ensures Find(r, k) == Some(Group(k, DeathsOf(Find(gs, k)) + deaths, PopOf(Find(gs, k)) + pop))
    decreases |gs|
  {
    if gs == [] then [Group(k, deaths, pop)]
    else if gs[0].key == k then [Group(k, gs[0].deaths + deaths, gs[0].pop + pop)] + gs[1..]
    else if KeyLess(k, gs[0].key) then
      var r := [Group(k, deaths, pop)] + gs;
      assert Sorted(r) by { SortedPrepend(Group(k, deaths, pop), gs); }
      assert Find(gs, k) == None by { FindBelow(gs, k); }
      r
    else
      KeyLessTotal(k, gs[0].key);
      assert Sorted(gs[1..]);
      var rest := Insert(gs[1..], k, deaths, pop);
      var r := [gs[0]] + rest;
      assert Sorted(r) by { SortedPrepend(gs[0], rest); }
      r
  }

  /** A group whose key is below the first key of a sorted table can be put in front of it. */
  lemma SortedPrepend(g: Group, gs: seq<Group>)
    requires Sorted(gs)
    requires gs != [] ==> KeyLess(g.key, gs[0].key)
    ensures Sorted([g] + gs)
  {
    var r := [g] + gs;
    forall i, j | 0 <= i < j < |r| ensures KeyLess(r[i].key, r[j].key) {
      if i == 0 && j > 1 {
        KeyLessTransitive(g.key, gs[0].key, gs[j - 1].key);
      }
    }
  }

  /** A key below the first key of a sorted table is not in it. */
  lemma FindBelow(gs: seq<Group>, k: FactKey)
    requires Sorted(gs) && gs != [] && KeyLess(k, gs[0].key)
    ensures Find(gs, k) == None
  {
    forall j | 0 <= j < |gs| ensures gs[j].key != k {
      if j > 0 { KeyLessTransitive(k, gs[0].key, gs[j].key); }
      KeyLessIrreflexive(k);
    }
  }

  /** `groupby(...).sum()`: keys strictly increasing (unique), and for every key, a group exactly
      when some row has that key, holding the sums of Deaths and Pop over those rows. */
  function GroupSum(rows: seq<Row>): (r: seq<Group>)
    ensures Sorted(r)
    ensures forall k :: Find(r, k).Some? <==> Present(rows, k)
    ensures forall k :: DeathsOf(Find(r, k)) == DeathsFor(rows, k) && PopOf(Find(r, k)) == PopFor(rows, k)
    decreases |rows|
  {
    if rows == [] then []
    else
      var n := |rows| - 1;
      var prev := GroupSum(rows[..n]);
      var r := Insert(prev, KeyOf(rows[n]), Value(rows[n].deaths), Value(rows[n].pop));
      PresentLast(rows);
      assert forall k :: DeathsFor(rows, k) == DeathsFor(rows[..n], k) + (if KeyOf(rows[n]) == k then Value(rows[n].deaths) else 0);
      assert forall k :: PopFor(rows, k) == PopFor(rows[..n], k) + (if KeyOf(rows[n]) == k then Value(rows[n].pop) else 0);
      r
  }

  /** Each grouped row holds the sums over exactly the rows with its key, no key occurs twice,
      every key of the input has its grouped row, and every grouped row's key comes from the input. */
  lemma GroupSumRows(rows: seq<Row>)
    ensures forall i :: 0 <= i < |GroupSum(rows)| ==>
              GroupSum(rows)[i].deaths == DeathsFor(rows, GroupSum(rows)[i].key)
              && GroupSum(rows)[i].pop == PopFor(rows, GroupSum(rows)[i].key)
              && Present(rows, GroupSum(rows)[i].key)
    ensures forall i, j :: 0 <= i < j < |GroupSum(rows)| ==> GroupSum(rows)[i].key != GroupSum(rows)[j].key
    ensures forall i :: 0 <= i < |rows| ==> exists j :: 0 <= j < |GroupSum(rows)| && GroupSum(rows)[j].key == KeyOf(rows[i])
  {
    var r := GroupSum(rows);
    forall i | 0 <= i < |r|
      ensures r[i].deaths == DeathsFor(rows, r[i].key) && r[i].pop == PopFor(rows, r[i].key)
      ensures Present(rows, r[i].key)
    {
      FindSorted(r, i);
    }
    forall i, j | 0 <= i < j < |r| ensures r[i].key != r[j].key {
      KeyLessIrreflexive(r[i].key);
    }
    forall i | 0 <= i < |rows| ensures exists j :: 0 <= j < |r| && r[j].key == KeyOf(rows[i]) {
      assert Present(rows, KeyOf(rows[i]));
      assert !forall j :: 0 <= j < |r| ==> r[j].key != KeyOf(rows[i]);
    }
  }
}
