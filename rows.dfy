/**
  The two query shapes the routes chain together: a `.filter(...)` that keeps
  the rows satisfying a condition, in scan order, and a projection that turns
  each kept row into one result element.
 */
module Rows {

  /** The rows of `rows` that satisfy `keep`, in their original order, one per row. */
  function Where<T>(rows: seq<T>, keep: T -> bool): (r: seq<T>)
    ensures |r| <= |rows|
  {
    if |rows| == 0 then []
    else (if keep(rows[0]) then [rows[0]] else []) + Where(rows[1..], keep)
  }

  /** Each kept row occurs in the result as often as in the input; no other value occurs. */
  lemma {:induction false} WhereCounts<T(!new)>(rows: seq<T>, keep: T -> bool)
    ensures forall x :: multiset(Where(rows, keep))[x] == if keep(x) then multiset(rows)[x] else 0
  {
    if |rows| > 0 {
      assert rows == [rows[0]] + rows[1..];
      WhereCounts(rows[1..], keep);
    }
  }

  /** A value is in the result exactly when it is a row that satisfies the condition. */
  lemma WhereMembers<T(!new)>(rows: seq<T>, keep: T -> bool)
    ensures forall x :: x in Where(rows, keep) <==> x in rows && keep(x)
  {
    WhereCounts(rows, keep);
    forall x
      ensures x in Where(rows, keep) <==> x in rows && keep(x)
    {
      assert x in Where(rows, keep) <==> multiset(Where(rows, keep))[x] > 0;
      assert x in rows <==> multiset(rows)[x] > 0;
    }
  }

  /** Filtering a concatenation filters each part and keeps them in order. */
  lemma {:induction false} WhereAppend<T>(a: seq<T>, b: seq<T>, keep: T -> bool)
    ensures Where(a + b, keep) == Where(a, keep) + Where(b, keep)
  {
    if |a| == 0 {
      assert a + b == b;
    } else {
      var head := if keep(a[0]) then [a[0]] else [];
      assert (a + b)[0] == a[0];
      assert (a + b)[1..] == a[1..] + b;
      WhereAppend(a[1..], b, keep);
      assert Where(a + b, keep) == head + Where(a[1..] + b, keep);
      assert Where(a, keep) == head + Where(a[1..], keep);
      assert head + (Where(a[1..], keep) + Where(b, keep)) == (head + Where(a[1..], keep)) + Where(b, keep);
    }
  }

  /** A single row survives exactly when it satisfies the condition. */
  lemma WhereSingle<T>(x: T, keep: T -> bool)
    ensures Where([x], keep) == if keep(x) then [x] else []
  {
    assert [x][1..] == [];
  }

  /** One output element per input row, in the same order. */
  function Select<T, U>(rows: seq<T>, f: T -> U): (r: seq<U>)
    ensures |r| == |rows|
    ensures forall i | 0 <= i < |rows| :: r[i] == f(rows[i])
  {
    seq(|rows|, i requires 0 <= i < |rows| => f(rows[i]))
  }

  lemma SelectAppend<T, U>(a: seq<T>, b: seq<T>, f: T -> U)
    ensures Select(a + b, f) == Select(a, f) + Select(b, f)
  {
  }

  /**
    `idx` lists, in increasing order, exactly the positions of the rows that
    satisfy `keep`.
   */
  ghost predicate IsSelection<T>(rows: seq<T>, keep: T -> bool, idx: seq<int>)
  {
    && (forall k | 0 <= k < |idx| :: 0 <= idx[k] < |rows| && keep(rows[idx[k]]))
    && (forall k, l | 0 <= k < l < |idx| :: idx[k] < idx[l])
    && (forall i | 0 <= i < |rows| && keep(rows[i]) :: i in idx)
  }

  /** A kept row after the `i`-th selected one is selected at a later place. */
  lemma KeptLaterIsSelectedLater<T>(rows: seq<T>, keep: T -> bool, idx: seq<int>, i: int, j: int)
    requires IsSelection(rows, keep, idx) && 0 <= i < |idx| && idx[i] < j < |rows| && keep(rows[j])
    ensures exists l | i < l < |idx| :: idx[l] == j
  {
    var l :| 0 <= l < |idx| && idx[l] == j;
    assert i < l;
  }

  /** The positions of the rows that satisfy `keep`, in scan order. */
  function KeptIndices<T>(rows: seq<T>, keep: T -> bool): (idx: seq<int>)
    ensures forall k | 0 <= k < |idx| :: 0 <= idx[k] < |rows|
  {
    if |rows| == 0 then []
    else
      var front := KeptIndices(rows[..|rows| - 1], keep);
      if keep(rows[|rows| - 1]) then front + [|rows| - 1] else front
  }

  lemma {:induction false} KeptIndicesSelect<T>(rows: seq<T>, keep: T -> bool)
    ensures IsSelection(rows, keep, KeptIndices(rows, keep))
  {
    if |rows| > 0 {
      var front, last := rows[..|rows| - 1], rows[|rows| - 1];
      KeptIndicesSelect(front, keep);
      var before, idx := KeptIndices(front, keep), KeptIndices(rows, keep);
      assert forall k | 0 <= k < |before| :: rows[before[k]] == front[before[k]];
      if keep(last) {
        assert idx == before + [|rows| - 1];
        assert forall k | 0 <= k < |before| :: before[k] < |rows| - 1;
      } else {
        assert idx == before;
      }
      forall i | 0 <= i < |rows| && keep(rows[i])
        ensures i in idx
      {
        if i < |front| {
          assert front[i] == rows[i];
          assert i in before;
        }
      }
    }
  }

  lemma {:induction false} WhereAtKeptIndices<T>(rows: seq<T>, keep: T -> bool)
    ensures |Where(rows, keep)| == |KeptIndices(rows, keep)|
    ensures forall k | 0 <= k < |KeptIndices(rows, keep)| :: Where(rows, keep)[k] == rows[KeptIndices(rows, keep)[k]]
  {
    if |rows| > 0 {
      var front, last := rows[..|rows| - 1], rows[|rows| - 1];
      assert rows == front + [last];
      WhereAtKeptIndices(front, keep);
      WhereAppend(front, [last], keep);
      WhereSingle(last, keep);
      var before := KeptIndices(front, keep);
      assert forall k | 0 <= k < |before| :: rows[before[k]] == front[before[k]];
    }
  }

  /**
    Filtering keeps exactly the satisfying rows, each once, in scan order:
    the k-th result row is the row at the k-th satisfying position.
   */
  lemma WhereIsSelection<T>(rows: seq<T>, keep: T -> bool)
    ensures IsSelection(rows, keep, KeptIndices(rows, keep))
    ensures |Where(rows, keep)| == |KeptIndices(rows, keep)|
    ensures forall k | 0 <= k < |KeptIndices(rows, keep)| :: Where(rows, keep)[k] == rows[KeptIndices(rows, keep)[k]]
  {
    KeptIndicesSelect(rows, keep);
    WhereAtKeptIndices(rows, keep);
  }
}
