/** Generic table helpers: a missing cell, and row selection by a boolean mask. */
module Tables {

  /** A table cell that may be empty (pandas' NaN). */
  datatype Option<+T> = None | Some(value: T)

  /** The rows of `s` for which `p` holds, in their original order: the model of `df[mask]`
      and of `dropna`. */
  function Where<T>(s: seq<T>, p: T -> bool): (r: seq<T>)
    ensures |r| <= |s|
    ensures forall i :: 0 <= i < |r| ==> p(r[i])
    ensures forall i :: 0 <= i < |r| ==> r[i] in s
    ensures forall i :: 0 <= i < |s| && p(s[i]) ==> s[i] in r
    decreases |s|
  {
    if s == [] then []
    else
      var n := |s| - 1;
      assert s == s[..n] + [s[n]];
      Where(s[..n], p) + (if p(s[n]) then [s[n]] else [])
  }

  /** Selection distributes over concatenation: kept rows stay in their original relative order. */
  lemma {:induction false} WhereAppend<T>(a: seq<T>, b: seq<T>, p: T -> bool)
    ensures Where(a + b, p) == Where(a, p) + Where(b, p)
    decreases |b|
  {
    if b == [] {
      assert a + b == a;
    } else {
      var n := |b| - 1;
      assert (a + b)[..|a + b| - 1] == a + b[..n];
      WhereAppend(a, b[..n], p);
    }
  }

  /** Every row that satisfies `p` is kept as often as it occurs, and no other row is kept. */
  lemma {:induction false} WhereCount<T>(s: seq<T>, p: T -> bool, x: T)
    ensures multiset(Where(s, p))[x] == if p(x) then multiset(s)[x] else 0
    decreases |s|
  {
    if s != [] {
      var n := |s| - 1;
      assert s == s[..n] + [s[n]];
      WhereCount(s[..n], p, x);
    }
  }

  /** When every row satisfies `p`, the selection keeps the whole table. */
  lemma {:induction false} WhereAll<T>(s: seq<T>, p: T -> bool)
    requires forall i :: 0 <= i < |s| ==> p(s[i])
    ensures Where(s, p) == s
    decreases |s|
  {
    if s != [] {
      var n := |s| - 1;
      assert s == s[..n] + [s[n]];
      WhereAll(s[..n], p);
    }
  }

  /** Two selections in a row equal one selection by the conjunction of their masks. */
  lemma {:induction false} WhereWhere<T>(s: seq<T>, p: T -> bool, q: T -> bool, pq: T -> bool)
    requires forall x :: pq(x) == (p(x) && q(x))
    ensures Where(Where(s, p), q) == Where(s, pq)
    decreases |s|
  {
    if s != [] {
      var n := |s| - 1;
      WhereWhere(s[..n], p, q, pq);
      if p(s[n]) {
        WhereAppend(Where(s[..n], p), [s[n]], q);
        assert Where([s[n]], q) == if q(s[n]) then [s[n]] else [] by {
          assert [s[n]][..0] == [];
        }
      } else {
        assert Where(s, p) == Where(s[..n], p);
      }
    }
  }
}
