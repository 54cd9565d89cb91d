/** Reshaping a wide table (one column per age bracket) into a long one (one row per bracket),
    as `DataFrame.melt(id_vars=..., var_name="Age", value_name=...)` does. */
module Reshape {
  import opened Tables

  /** A wide row: the identifying columns and one cell per value column. */
  datatype WideRow<Id> = WideRow(ids: Id, cells: seq<Option<nat>>)

  /** A wide table: the value-column headers (the age brackets) and the rows, in file order. */
  datatype WideTable<Id> = WideTable(headers: seq<string>, rows: seq<WideRow<Id>>)

  /** A long row: the identifying columns, the header it came from (Age) and its cell. */
  datatype LongRow<Id> = LongRow(ids: Id, age: string, value: Option<nat>)

  /** Every row has one cell per value column, as in any parsed table. */
  predicate Rectangular<Id>(t: WideTable<Id>)
  {
    forall j :: 0 <= j < |t.rows| ==> |t.rows[j].cells| == |t.headers|
  }

  /** The long rows contributed by value column k: one per wide row, in row order. */
  function Column<Id>(t: WideTable<Id>, k: nat): seq<LongRow<Id>>
    requires Rectangular(t) && k < |t.headers|
  {
    seq(|t.rows|, j requires 0 <= j < |t.rows| => LongRow(t.rows[j].ids, t.headers[k], t.rows[j].cells[k]))
  }

  /** The index of the first long row of value column k when every column contributes `height`
      rows: k * height, counted column by column. */
  function Offset(k: nat, height: nat): nat
  {
    if k == 0 then 0 else Offset(k - 1, height) + height
  }

  lemma {:induction false} OffsetIsProduct(k: nat, height: nat)
    ensures Offset(k, height) == k * height
  {
    if k > 0 {
      OffsetIsProduct(k - 1, height);
      assert (k - 1) * height + height == k * height;
    }
  }

  /** Column k lies wholly before the end of the first n columns. */
  lemma {:induction false} OffsetBelow(k: nat, n: nat, height: nat)
    requires k < n
    ensures Offset(k, height) + height <= Offset(n, height)
    decreases n
  {
    if k < n - 1 {
      OffsetBelow(k, n - 1, height);
    }
  }

  /** The first n value columns melted: column-major, column after column, as pandas lays them out. */
  function MeltColumns<Id>(t: WideTable<Id>, n: nat): (r: seq<LongRow<Id>>)
    requires Rectangular(t) && n <= |t.headers|
    ensures |r| == Offset(n, |t.rows|)
  {
    if n == 0 then [] else MeltColumns(t, n - 1) + Column(t, n - 1)
  }

  /** Every long row of the first n melted columns takes its Age from one of their headers. */
  lemma {:induction false} MeltColumnsAges<Id>(t: WideTable<Id>, n: nat)
    requires Rectangular(t) && n <= |t.headers|
    ensures forall i :: 0 <= i < |MeltColumns(t, n)| ==> MeltColumns(t, n)[i].age in t.headers[..n]
  {
    if n > 0 {
      MeltColumnsAges(t, n - 1);
      var prev := MeltColumns(t, n - 1);
      var r := MeltColumns(t, n);
      assert r == prev + Column(t, n - 1);
      forall i | 0 <= i < |r| ensures r[i].age in t.headers[..n] {
        if i < |prev| {
          assert r[i] == prev[i];
          assert t.headers[..n - 1] <= t.headers[..n];
        } else {
          assert r[i].age == t.headers[n - 1] == t.headers[..n][n - 1];
        }
      }
    }
  }

  /** Long row Offset(k, R) + j of the first n melted columns is wide row j's cell under header k. */
  lemma {:induction false} MeltColumnsAt<Id>(t: WideTable<Id>, n: nat, k: nat, j: nat)
    requires Rectangular(t) && k < n <= |t.headers| && j < |t.rows|
    ensures Offset(k, |t.rows|) + j < |MeltColumns(t, n)|
    ensures MeltColumns(t, n)[Offset(k, |t.rows|) + j] == LongRow(t.rows[j].ids, t.headers[k], t.rows[j].cells[k])
  {
    OffsetBelow(k, n, |t.rows|);
    var prev := MeltColumns(t, n - 1);
    assert MeltColumns(t, n) == prev + Column(t, n - 1);
    if k < n - 1 {
      MeltColumnsAt(t, n - 1, k, j);
    }
  }

  /** `melt`: with R rows and K value columns, value column k becomes the R long rows from
      Offset(k, R) (that is, k*R, see OffsetIsProduct) on, and row Offset(k, R) + j carries wide
      row j's identifying columns, header k as its Age and cell (j, k) as its value, missing or
      not. */
  function Melt<Id>(t: WideTable<Id>): (r: seq<LongRow<Id>>)
    requires Rectangular(t)
    ensures |r| == Offset(|t.headers|, |t.rows|)
    ensures forall k: nat :: k < |t.headers| ==> Offset(k, |t.rows|) + |t.rows| <= |r|
    ensures forall k: nat, j: nat :: k < |t.headers| && j < |t.rows| ==>
              r[Offset(k, |t.rows|) + j] == LongRow(t.rows[j].ids, t.headers[k], t.rows[j].cells[k])
  {
    var r := MeltColumns(t, |t.headers|);
    forall k: nat | k < |t.headers| ensures Offset(k, |t.rows|) + |t.rows| <= |r| {
      OffsetBelow(k, |t.headers|, |t.rows|);
    }
    forall k: nat, j: nat | k < |t.headers| && j < |t.rows|
      ensures r[Offset(k, |t.rows|) + j] == LongRow(t.rows[j].ids, t.headers[k], t.rows[j].cells[k])
    {
      MeltColumnsAt(t, |t.headers|, k, j);
    }
    r
  }

  /** Every long row takes its Age from one of the headers. */
  lemma MeltAges<Id>(t: WideTable<Id>)
    requires Rectangular(t)
    ensures forall i :: 0 <= i < |Melt(t)| ==> Melt(t)[i].age in t.headers
  {
    MeltColumnsAges(t, |t.headers|);
    assert t.headers[..|t.headers|] == t.headers;
  }

  /** A table with R rows and K value columns melts into exactly K * R long rows. */
  lemma MeltLength<Id>(t: WideTable<Id>)
    requires Rectangular(t)
    ensures |Melt(t)| == |t.headers| * |t.rows|
  {
    OffsetIsProduct(|t.headers|, |t.rows|);
  }

  /** Distinct rows by id and distinct headers give long rows with distinct (ids, Age) pairs:
      a wide table keyed by its identifying columns melts to a long table keyed by them and Age. */
  lemma {:induction false} MeltColumnsUnique<Id>(t: WideTable<Id>, n: nat)
    requires Rectangular(t) && n <= |t.headers|
    requires forall a, b :: 0 <= a < b < |t.rows| ==> t.rows[a].ids != t.rows[b].ids
    requires forall a, b :: 0 <= a < b < |t.headers| ==> t.headers[a] != t.headers[b]
    ensures forall a, b :: 0 <= a < b < |MeltColumns(t, n)| ==>
      (MeltColumns(t, n)[a].ids, MeltColumns(t, n)[a].age) != (MeltColumns(t, n)[b].ids, MeltColumns(t, n)[b].age)
  {
    if n > 0 {
      MeltColumnsUnique(t, n - 1);
      MeltColumnsAges(t, n - 1);
      var prev := MeltColumns(t, n - 1);
      var col := Column(t, n - 1);
      var r := MeltColumns(t, n);
      assert r == prev + col;
      forall a, b | 0 <= a < b < |r|
        ensures (r[a].ids, r[a].age) != (r[b].ids, r[b].age)
      {
        if b < |prev| {
          assert r[a] == prev[a] && r[b] == prev[b];
        } else if a < |prev| {
          assert r[a].age in t.headers[..n - 1];
          assert r[b].age == t.headers[n - 1];
        } else {
          assert r[a] == col[a - |prev|] && r[b] == col[b - |prev|];
        }
      }
    }
  }

  lemma MeltUnique<Id>(t: WideTable<Id>)
    requires Rectangular(t)
    requires forall a, b :: 0 <= a < b < |t.rows| ==> t.rows[a].ids != t.rows[b].ids
    requires forall a, b :: 0 <= a < b < |t.headers| ==> t.headers[a] != t.headers[b]
    ensures forall a, b :: 0 <= a < b < |Melt(t)| ==> (Melt(t)[a].ids, Melt(t)[a].age) != (Melt(t)[b].ids, Melt(t)[b].age)
  {
    MeltColumnsUnique(t, |t.headers|);
  }
}
