/**
  The ordering SQLite uses for TEXT values under its default BINARY collation:
  strings are compared character by character (UTF-8 byte order is code-point
  order), and a proper prefix sorts before every longer string that extends it.
  Python's `<=` on `str` is the same order.
 */
module TextOrder {

  /** `a <= b` in lexicographic order. */
  predicate LexLe(a: string, b: string)
  {
    |a| == 0 || (|b| > 0 && (a[0] < b[0] || (a[0] == b[0] && LexLe(a[1..], b[1..]))))
  }

  /** `a < b` in lexicographic order. */
  predicate LexLt(a: string, b: string)
  {
    LexLe(a, b) && a != b
  }

  lemma {:induction false} LexLeReflexive(a: string)
    ensures LexLe(a, a)
  {
    if |a| > 0 {
      LexLeReflexive(a[1..]);
    }
  }

  lemma {:induction false} LexLeAntisymmetric(a: string, b: string)
    requires LexLe(a, b) && LexLe(b, a)
    ensures a == b
  {
    if |a| > 0 {
      LexLeAntisymmetric(a[1..], b[1..]);
      assert a == [a[0]] + a[1..];
      assert b == [b[0]] + b[1..];
    }
  }

  lemma {:induction false} LexLeTransitive(a: string, b: string, c: string)
    requires LexLe(a, b) && LexLe(b, c)
    ensures LexLe(a, c)
  {
    if |a| > 0 && a[0] == b[0] && b[0] == c[0] {
      LexLeTransitive(a[1..], b[1..], c[1..]);
    }
  }

  lemma {:induction false} LexLeTotal(a: string, b: string)
    ensures LexLe(a, b) || LexLe(b, a)
  {
    if |a| > 0 && |b| > 0 && a[0] == b[0] {
      LexLeTotal(a[1..], b[1..]);
    }
  }

  /** Strict order is the complement of the reverse non-strict order. */
  lemma LexLtIffNotLe(a: string, b: string)
    ensures LexLt(a, b) <==> !LexLe(b, a)
  {
    LexLeTotal(a, b);
    if LexLe(a, b) && LexLe(b, a) {
      LexLeAntisymmetric(a, b);
    }
    if a == b {
      LexLeReflexive(a);
    }
  }

  /** Strings that share a prefix compare as their remainders do. */
  lemma {:induction false} LexLeCommonPrefix(p: string, a: string, b: string)
    ensures LexLe(p + a, p + b) <==> LexLe(a, b)
  {
    if |p| > 0 {
      assert (p + a)[1..] == p[1..] + a;
      assert (p + b)[1..] == p[1..] + b;
      LexLeCommonPrefix(p[1..], a, b);
    } else {
      assert p + a == a && p + b == b;
    }
  }

  /**
    Comparing two concatenations whose first parts have equal length
    compares the first parts, and the second parts only on a tie.
   */
  lemma {:induction false} LexLeConcat(p: string, a: string, q: string, b: string)
    requires |p| == |q|
    ensures LexLe(p + a, q + b) <==> LexLt(p, q) || (p == q && LexLe(a, b))
  {
    if |p| == 0 {
      assert p + a == a && q + b == b && p == q;
    } else {
      assert (p + a)[0] == p[0] && (q + b)[0] == q[0];
      assert (p + a)[1..] == p[1..] + a;
      assert (q + b)[1..] == q[1..] + b;
      LexLeConcat(p[1..], a, q[1..], b);
      if p[0] == q[0] && p[1..] == q[1..] {
        assert p == [p[0]] + p[1..] && q == [q[0]] + q[1..];
      }
      if p == q {
        assert p[1..] == q[1..];
      }
    }
  }

  /** If `hi` is above the head of `s` and above a bound of its tail, it bounds all of `s`. */
  lemma UpperBoundOfCons(s: seq<string>, rest: string, hi: string)
    requires |s| > 0 && LexLe(s[0], hi) && LexLe(rest, hi)
    requires forall x | x in s[1..] :: LexLe(x, rest)
    ensures forall x | x in s :: LexLe(x, hi)
  {
    forall x | x in s
      ensures LexLe(x, hi)
    {
      if x != s[0] {
        assert x in s[1..];
        LexLeTransitive(x, rest, hi);
      }
    }
  }

  /** SQL's MAX over a TEXT column: the greatest value under the order above. */
  function LexMax(s: seq<string>): (m: string)
    requires |s| > 0
    ensures m in s
    ensures forall x | x in s :: LexLe(x, m)
  {
    if |s| == 1 then
      LexLeReflexive(s[0]);
      s[0]
    else
      var rest := LexMax(s[1..]);
      LexLeTotal(s[0], rest);
      LexLeReflexive(s[0]);
      LexLeReflexive(rest);
      if LexLe(s[0], rest) then
        UpperBoundOfCons(s, rest, rest);
        rest
      else
        UpperBoundOfCons(s, rest, s[0]);
        s[0]
  }
}
