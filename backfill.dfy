/** The grouped backfill of the Pop column:
    `df.groupby(["Country", "Sex", "Age"])["Pop"].fillna(method="bfill")`. */
module Backfill {
  import opened Tables
  import opened Records

  /** The backfill groups: rows sharing Country, Sex and Age, whatever their Year. */
  datatype GroupKey = GroupKey(country: string, sex: string, age: string)

  function GroupOf(r: Row): GroupKey
  {
    GroupKey(r.country, r.sex, r.age)
  }

  /** The first present Pop at or after row i among the rows of group g, scanning in row order. */
  function NextPop(rows: seq<Row>, g: GroupKey, i: nat): Option<nat>
    requires i <= |rows|
    decreases |rows| - i
  {
    if i == |rows| then None
    else if GroupOf(rows[i]) == g && rows[i].pop.Some? then rows[i].pop
    else NextPop(rows, g, i + 1)
  }

  /** The backfilled table: each row's Pop becomes the first present Pop at or after it in its
      group. Row count, row order and every other column are unchanged, and a present Pop is
      left as it is. */
  function Backfilled(rows: seq<Row>): (r: seq<Row>)
    ensures |r| == |rows|
    ensures forall i :: 0 <= i < |r| ==> r[i].(pop := rows[i].pop) == rows[i]
    ensures forall i :: 0 <= i < |r| && rows[i].pop.Some? ==> r[i] == rows[i]
  {
    seq(|rows|, i requires 0 <= i < |rows| => rows[i].(pop := NextPop(rows, GroupOf(rows[i]), i)))
  }

  /** NextPop is missing exactly when no row of the group at or after i has a Pop; otherwise it
      is the Pop of such a row j, and no row of the group between i and j has one. */
  lemma {:induction false} NextPopSpec(rows: seq<Row>, g: GroupKey, i: nat)
    requires i <= |rows|
    ensures NextPop(rows, g, i).None? <==>
              forall j :: i <= j < |rows| && GroupOf(rows[j]) == g ==> rows[j].pop.None?
    ensures NextPop(rows, g, i).Some? ==>
              exists j :: i <= j < |rows| && GroupOf(rows[j]) == g && rows[j].pop == NextPop(rows, g, i)
                && forall k :: i <= k < j && GroupOf(rows[k]) == g ==> rows[k].pop.None?
    decreases |rows| - i
  {
    if i < |rows| && !(GroupOf(rows[i]) == g && rows[i].pop.Some?) {
      NextPopSpec(rows, g, i + 1);
    }
  }

  /** A missing Pop becomes the Pop of the first later row of the same (Country, Sex, Age) group
      that has one, in row order; it stays missing when no later row of the group has one. */
  lemma BackfillTakesNextPresent(rows: seq<Row>, i: nat)
    requires i < |rows| && rows[i].pop.None?
    ensures Backfilled(rows)[i].pop.None? <==>
              forall j :: i < j < |rows| && GroupOf(rows[j]) == GroupOf(rows[i]) ==> rows[j].pop.None?
    ensures Backfilled(rows)[i].pop.Some? ==>
              exists j :: i < j < |rows| && GroupOf(rows[j]) == GroupOf(rows[i])
                && rows[j].pop == Backfilled(rows)[i].pop
                && forall k :: i < k < j && GroupOf(rows[k]) == GroupOf(rows[i]) ==> rows[k].pop.None?
  {
    NextPopSpec(rows, GroupOf(rows[i]), i);
  }

  /** Backfilling the backfilled table changes nothing. */
  lemma {:induction false} NextPopOfBackfilled(rows: seq<Row>, g: GroupKey, i: nat)
    requires i <= |rows|
    ensures NextPop(Backfilled(rows), g, i) == NextPop(rows, g, i)
    decreases |rows| - i
  {
    if i < |rows| {
      var r := Backfilled(rows);
      NextPopOfBackfilled(rows, g, i + 1);
      if GroupOf(rows[i]) == g && rows[i].pop.None? && r[i].pop.None? {
        assert NextPop(rows, g, i) == NextPop(rows, g, i + 1);
      }
    }
  }

  lemma BackfillIdempotent(rows: seq<Row>)
    ensures Backfilled(Backfilled(rows)) == Backfilled(rows)
  {
    var r := Backfilled(rows);
    forall i | 0 <= i < |rows| ensures Backfilled(r)[i] == r[i] {
      NextPopOfBackfilled(rows, GroupOf(rows[i]), i);
    }
  }

  /** One (Country, Sex, Age) group with Pop [missing, 50, missing] in row order is filled to
      [50, 50, missing]: the fill looks forward only. A row of another group in between neither
      gives nor takes a value. */
  lemma BackfillExample()
    ensures var rows := [
              Row("X", 2000, "C", "M", "Age <5", Some(1), None),
              Row("X", 2000, "C", "F", "Age <5", Some(1), Some(7)),
              Row("X", 2001, "C", "M", "Age <5", Some(1), Some(50)),
              Row("X", 2002, "C", "M", "Age <5", Some(1), None)];
            Backfilled(rows) == [
              Row("X", 2000, "C", "M", "Age <5", Some(1), Some(50)),
              Row("X", 2000, "C", "F", "Age <5", Some(1), Some(7)),
              Row("X", 2001, "C", "M", "Age <5", Some(1), Some(50)),
              Row("X", 2002, "C", "M", "Age <5", Some(1), None)]
  {
    var rows := [
      Row("X", 2000, "C", "M", "Age <5", Some(1), None),
      Row("X", 2000, "C", "F", "Age <5", Some(1), Some(7)),
      Row("X", 2001, "C", "M", "Age <5", Some(1), Some(50)),
      Row("X", 2002, "C", "M", "Age <5", Some(1), None)];
    var g := GroupKey("X", "M", "Age <5");
    assert GroupOf(rows[1]) != g by { assert rows[1].sex[0] != g.sex[0]; }
    assert NextPop(rows, g, 3) == None;
    assert NextPop(rows, g, 0) == Some(50);
  }
}
