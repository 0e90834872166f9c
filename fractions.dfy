/** Exact fractions, unit-fraction sums and the orderings on term sequences
    shared by all the expanders. Arithmetic is over Dafny's exact `real`. */
module Fractions {
  import opened Arith

  /** The rational number n/d. */
  function Q(n: int, d: int): real
    requires d != 0
  {
    (n as real) / (d as real)
  }

  /** The unit fraction 1/t. */
  function Recip(t: int): real
    requires t != 0
  {
    1.0 / (t as real)
  }

  predicate AllPositive(s: seq<int>) {
    forall i :: 0 <= i < |s| ==> s[i] > 0
  }

  /** Strictly increasing denominators: t1 < t2 < ... < tk. */
  predicate Increasing(s: seq<int>) {
    forall i, j :: 0 <= i < j < |s| ==> s[i] < s[j]
  }

  /** 1/s[0] + 1/s[1] + ... */
  function RecipSum(s: seq<int>): real
    requires AllPositive(s)
  {
    if s == [] then 0.0 else Recip(s[0]) + RecipSum(s[1..])
  }

  /** s is a strictly increasing expansion of n/d into unit fractions. */
  predicate IsExpansion(s: seq<int>, n: int, d: int)
    requires d != 0
  {
    AllPositive(s) && Increasing(s) && RecipSum(s) == Q(n, d)
  }

  /** The remainder r is a unit fraction 1/m with m > b. */
  ghost predicate IsUnitAbove(r: real, b: int) {
    exists m: int :: m > b && m > 0 && r == Recip(m)
  }

  /** ceil(x / c), computed as the source does with `(x + c - 1) // c`. */
  function CeilDiv(x: int, c: int): (r: int)
    requires c > 0
    ensures c * r >= x && c * (r - 1) < x
  {
    CeilByOffset(x, c);
    (x + c - 1) / c
  }

  /** CeilDiv is the least t with c * t >= x. */
  lemma CeilDivLeast(x: int, c: int, t: int)
    requires c > 0 && c * t >= x
    ensures CeilDiv(x, c) <= t
  {
    var r := CeilDiv(x, c);
    if t < r {
      MulMono(t, r - 1, c);
    }
  }

  // ----- facts about Q and Recip -----

  lemma QUnit(d: int)
    requires d != 0
    ensures Q(1, d) == Recip(d)
  {
  }

  /** n/d - 1/t = (n*t - d)/(d*t). */
  lemma SubRecip(n: int, d: int, t: int)
    requires d > 0 && t > 0
    ensures Q(n * t - d, d * t) == Q(n, d) - Recip(t)
  {
    var N, D, T := n as real, d as real, t as real;
    assert ((n * t - d) as real) == N * T - D;
    assert ((d * t) as real) == D * T;
    assert (N * T - D) / (D * T) == N / D - 1.0 / T;
  }

  /** The same fraction with numerator and denominator scaled by g. */
  lemma QScale(n: int, d: int, g: int)
    requires d != 0 && g > 0
    ensures Q(g * n, g * d) == Q(n, d)
  {
    var N, D, G := n as real, d as real, g as real;
    assert ((g * n) as real) == G * N;
    assert ((g * d) as real) == G * D;
    assert (G * N) / (G * D) == N / D;
  }

  /** Comparing fractions by cross-multiplication. */
  lemma QLess(a: int, b: int, c: int, e: int)
    requires b > 0 && e > 0
    ensures Q(a, b) < Q(c, e) <==> a * e < c * b
  {
    var A, B, C, E := a as real, b as real, c as real, e as real;
    assert ((a * e) as real) == A * E;
    assert ((c * b) as real) == C * B;
    assert A / B < C / E <==> A * E < C * B by {
      assert A / B * (B * E) == A * E;
      assert C / E * (B * E) == C * B;
    }
  }

  lemma QEq(a: int, b: int, c: int, e: int)
    requires b > 0 && e > 0
    ensures Q(a, b) == Q(c, e) <==> a * e == c * b
  {
    QLess(a, b, c, e);
    QLess(c, e, a, b);
  }

  lemma QPositive(a: int, b: int)
    requires b > 0
    ensures Q(a, b) > 0.0 <==> a > 0
  {
    QLess(0, 1, a, b);
  }

  lemma RecipLess(s: int, t: int)
    requires 0 < s && 0 < t
    ensures s < t <==> Recip(t) < Recip(s)
  {
    QLess(1, t, 1, s);
  }

  // ----- facts about RecipSum -----

  lemma {:induction false} RecipSumPositive(s: seq<int>)
    requires AllPositive(s) && s != []
    ensures RecipSum(s) >= Recip(s[0]) > 0.0
    ensures |s| > 1 ==> RecipSum(s) > Recip(s[0])
  {
    if |s| > 1 {
      RecipSumPositive(s[1..]);
    } else {
      assert s[1..] == [];
    }
  }

  /** Fractions over the same denominator add their numerators. */
  lemma QAdd(a: int, b: int, t: int)
    requires t > 0
    ensures Q(a, t) + Q(b, t) == Q(a + b, t)
  {
    var A, B, T := a as real, b as real, t as real;
    assert ((a + b) as real) == A + B;
    assert A / T + B / T == (A + B) / T;
  }

  /** k increasing denominators that are all at least t sum to at most k/t,
      and to strictly less when there are at least two of them. */
  lemma {:induction false} RecipSumBound(s: seq<int>, t: int)
    requires t > 0 && AllPositive(s) && Increasing(s) && s != [] && s[0] >= t
    ensures RecipSum(s) <= Q(|s|, t)
    ensures |s| > 1 ==> RecipSum(s) < Q(|s|, t)
  {
    QUnit(t);
    assert Recip(s[0]) <= Q(1, t) by {
      if s[0] > t {
        RecipLess(t, s[0]);
      }
    }
    if |s| == 1 {
      assert s[1..] == [];
    } else {
      var tail := s[1..];
      assert AllPositive(tail) && Increasing(tail) && tail != [] && tail[0] >= t + 1;
      var k := |tail|;
      RecipSumBound(tail, t + 1);
      QLess(k, t + 1, k, t);
      assert RecipSum(s) == Recip(s[0]) + RecipSum(tail);
      QAdd(1, k, t);
    }
  }

  /** A loop over candidates t for the first of at most k increasing
      denominators can stop once k/t <= n/d: while an expansion with first
      term at least t remains (with fewer than k terms, or with at least
      two), k * d > n * t. */
  lemma GuardBound(s: seq<int>, n: int, d: int, k: int, t: int)
    requires d > 0 && t > 0 && IsExpansion(s, n, d) && 1 <= |s| <= k && t <= s[0]
    requires |s| < k || |s| >= 2
    ensures k * d > n * t
  {
    RecipSumBound(s, t);
    if |s| < k {
      MulStrict(|s|, k, t);
      QLess(|s|, t, k, t);
    }
    QLess(n, d, k, t);
  }

  /** Putting t in front of s. */
  lemma Cons(t: int, s: seq<int>)
    requires t > 0
    ensures ([t] + s)[0] == t && ([t] + s)[1..] == s
    ensures AllPositive([t] + s) <==> AllPositive(s)
    ensures Increasing([t] + s) <==> Increasing(s) && (s == [] || t < s[0])
    ensures AllPositive(s) ==> RecipSum([t] + s) == Recip(t) + RecipSum(s)
  {
    var c := [t] + s;
    assert c[1..] == s;
    if Increasing(s) && (s == [] || t < s[0]) {
      forall i, j | 0 <= i < j < |c|
        ensures c[i] < c[j]
      {
        if i > 0 {
          assert c[i] == s[i - 1] && c[j] == s[j - 1];
        } else {
          assert c[j] == s[j - 1];
        }
      }
    }
    if Increasing(c) {
      forall i, j | 0 <= i < j < |s|
        ensures s[i] < s[j]
      {
        assert s[i] == c[i + 1] && s[j] == c[j + 1];
      }
    }
  }

  /** The sum of a single term. */
  lemma SingleSum(s: seq<int>)
    requires AllPositive(s)
    ensures |s| == 1 ==> RecipSum(s) == Recip(s[0])
  {
    if |s| == 1 {
      assert s[1..] == [];
    }
  }

  /** The sum of a prefix that is one longer peels its first element. */
  lemma PrefixPeel(s: seq<int>, j: nat)
    requires AllPositive(s) && j < |s|
    ensures RecipSum(s[..j + 1]) == Recip(s[0]) + RecipSum(s[1..][..j])
  {
    assert s[..j + 1][1..] == s[1..][..j];
  }

  lemma {:induction false} RecipSumAppend(s: seq<int>, t: int)
    requires AllPositive(s) && t > 0
    ensures AllPositive(s + [t]) && RecipSum(s + [t]) == RecipSum(s) + Recip(t)
  {
    if s != [] {
      assert (s + [t])[1..] == s[1..] + [t];
      RecipSumAppend(s[1..], t);
    } else {
      assert ([] + [t])[1..] == [];
    }
  }

  // ----- lexicographic order on term sequences -----

  /** a comes strictly before b in dictionary order (a proper prefix first). */
  predicate LexLess(a: seq<int>, b: seq<int>) {
    if a == [] then b != []
    else b != [] && (a[0] < b[0] || (a[0] == b[0] && LexLess(a[1..], b[1..])))
  }

  predicate LexSorted(l: seq<seq<int>>) {
    forall i, j :: 0 <= i < j < |l| ==> LexLess(l[i], l[j])
  }

  lemma {:induction false} LexIrreflexive(a: seq<int>)
    ensures !LexLess(a, a)
  {
    if a != [] {
      LexIrreflexive(a[1..]);
    }
  }

  lemma {:induction false} LexTransitive(a: seq<int>, b: seq<int>, c: seq<int>)
    requires LexLess(a, b) && LexLess(b, c)
    ensures LexLess(a, c)
  {
    if a != [] && a[0] == b[0] && b[0] == c[0] {
      LexTransitive(a[1..], b[1..], c[1..]);
    }
  }

  lemma {:induction false} LexTotal(a: seq<int>, b: seq<int>)
    ensures a == b || LexLess(a, b) || LexLess(b, a)
  {
    if a != [] && b != [] && a[0] == b[0] {
      LexTotal(a[1..], b[1..]);
      if a[1..] == b[1..] {
        assert a == [a[0]] + a[1..] && b == [b[0]] + b[1..];
      }
    }
  }

  /** A lexicographically sorted list has no duplicates. */
  lemma LexSortedDistinct(l: seq<seq<int>>)
    requires LexSorted(l)
    ensures forall i, j :: 0 <= i < j < |l| ==> l[i] != l[j]
  {
    forall i, j | 0 <= i < j < |l|
      ensures l[i] != l[j]
    {
      if l[i] == l[j] {
        LexIrreflexive(l[i]);
      }
    }
  }

  /** Two sorted lists with the same members are the same list. */
  lemma {:induction false} LexSortedUnique(l1: seq<seq<int>>, l2: seq<seq<int>>)
    requires LexSorted(l1) && LexSorted(l2)
    requires forall s :: s in l1 <==> s in l2
    ensures l1 == l2
    decreases |l1|
  {
    assert l1 != [] ==> l1[0] in l2;
    assert l2 != [] ==> l2[0] in l1;
    if l1 != [] && l2 != [] {
      var a, b := l1[0], l2[0];
      // the first element is the least member of both
      var j :| 0 <= j < |l2| && l2[j] == a;
      var i :| 0 <= i < |l1| && l1[i] == b;
      if j > 0 && i > 0 {
        LexTransitive(a, b, a);
        LexIrreflexive(a);
      }
      assert a == b;
      forall s
        ensures s in l1[1..] <==> s in l2[1..]
      {
        if s in l1[1..] {
          var i' :| 1 <= i' < |l1| && l1[i'] == s;
          if s == a {
            LexIrreflexive(a);
          }
          assert s in l2;
          assert l2 == [b] + l2[1..];
        }
        if s in l2[1..] {
          var j' :| 1 <= j' < |l2| && l2[j'] == s;
          if s == b {
            LexIrreflexive(b);
          }
          assert s in l1;
          assert l1 == [a] + l1[1..];
        }
      }
      LexSortedUnique(l1[1..], l2[1..]);
      assert l1 == [a] + l1[1..];
      assert l2 == [b] + l2[1..];
    }
  }

  /** Prefixing every list of l with t. */
  function Prepend(t: int, l: seq<seq<int>>): (r: seq<seq<int>>)
    ensures |r| == |l|
    ensures forall i :: 0 <= i < |l| ==> r[i] == [t] + l[i]
  {
    seq(|l|, i requires 0 <= i < |l| => [t] + l[i])
  }

  lemma PrependConcat(t: int, a: seq<seq<int>>, b: seq<seq<int>>)
    ensures Prepend(t, a + b) == Prepend(t, a) + Prepend(t, b)
  {
  }

  lemma PrependSorted(t: int, l: seq<seq<int>>)
    requires LexSorted(l)
    ensures LexSorted(Prepend(t, l))
  {
    forall i, j | 0 <= i < j < |l|
      ensures LexLess(Prepend(t, l)[i], Prepend(t, l)[j])
    {
      var a, b := [t] + l[i], [t] + l[j];
      assert a[1..] == l[i] && b[1..] == l[j];
    }
  }

  /** Concatenating sorted lists whose every element of the first comes
      before every element of the second. */
  lemma ConcatSorted(l1: seq<seq<int>>, l2: seq<seq<int>>)
    requires LexSorted(l1) && LexSorted(l2)
    requires forall i, j :: 0 <= i < |l1| && 0 <= j < |l2| ==> LexLess(l1[i], l2[j])
    ensures LexSorted(l1 + l2)
  {
  }
}
