/**
  SQL's MIN, AVG and MAX over a column of temperatures. Each is NULL (here
  None) over an empty set of rows; the average is the exact quotient.
 */
module Aggregates {

  import opened Outcomes

  function Min(s: seq<real>): (m: real)
    requires |s| > 0
    ensures m in s
    ensures forall x | x in s :: m <= x
  {
    if |s| == 1 then s[0]
    else
      var rest := Min(s[1..]);
      assert forall x | x in s :: x == s[0] || x in s[1..];
      if s[0] <= rest then s[0] else rest
  }

  function Max(s: seq<real>): (m: real)
    requires |s| > 0
    ensures m in s
    ensures forall x | x in s :: x <= m
  {
    if |s| == 1 then s[0]
    else
      var rest := Max(s[1..]);
      assert forall x | x in s :: x == s[0] || x in s[1..];
      if rest <= s[0] then s[0] else rest
  }

  function Sum(s: seq<real>): real
  {
    if |s| == 0 then 0.0 else s[0] + Sum(s[1..])
  }

  /** Every element is at least `lo` and at most `hi`, so the sum lies between |s|*lo and |s|*hi. */
  lemma {:induction false} SumBetween(s: seq<real>, lo: real, hi: real)
    requires forall x | x in s :: lo <= x <= hi
    ensures (|s| as real) * lo <= Sum(s) <= (|s| as real) * hi
  {
    if |s| > 0 {
      assert s[0] in s;
      assert forall x | x in s[1..] :: x in s;
      SumBetween(s[1..], lo, hi);
      assert (|s| as real) * lo == lo + ((|s| - 1) as real) * lo;
      assert (|s| as real) * hi == hi + ((|s| - 1) as real) * hi;
    }
  }

  /** A quotient of a total lying between n*lo and n*hi lies between lo and hi. */
  lemma MeanBetween(total: real, n: real, lo: real, hi: real)
    requires n > 0.0 && n * lo <= total <= n * hi
    ensures lo <= total / n <= hi
  {
    assert total == (total / n) * n;
  }

  /** The row of the `temp_stats` result: TMIN, TAVG and TMAX. */
  datatype Summary = Summary(tmin: Option<real>, tavg: Option<real>, tmax: Option<real>)

  /**
    MIN, AVG and MAX together: all null over no rows; otherwise the smallest
    and largest values, which occur among the rows, and the mean between them.
   */
  function Summarise(s: seq<real>): (r: Summary)
    ensures |s| == 0 <==> r == Summary(None, None, None)
    ensures |s| > 0 ==> r.tmin.Some? && r.tavg.Some? && r.tmax.Some?
    ensures |s| > 0 ==> r.tmin.value in s && r.tmax.value in s
    ensures |s| > 0 ==> forall x | x in s :: r.tmin.value <= x <= r.tmax.value
    ensures |s| > 0 ==> r.tmin.value <= r.tavg.value <= r.tmax.value
    ensures |s| > 0 ==> r.tavg.value * (|s| as real) == Sum(s)
  {
    if |s| == 0 then Summary(None, None, None)
    else
      var lo, hi := Min(s), Max(s);
      SumBetween(s, lo, hi);
      MeanBetween(Sum(s), |s| as real, lo, hi);
      Summary(Some(lo), Some(Sum(s) / (|s| as real)), Some(hi))
  }

  /** AVG is the sum over the count, whichever way the values are counted and summed. */
  lemma MeanIsQuotient(s: seq<real>, n: nat, total: real)
    requires |s| > 0 && |s| == n && Sum(s) == total
    ensures Summarise(s).tavg == Some(total / (n as real))
  {
  }
}
