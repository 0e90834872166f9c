/** The hand-unrolled enumeration `listTerms(n, d)` of all expansions of
    n/d into one, two or three distinct unit fractions.

    The outer loop runs t1 from ceil(d/n) while 3/t1 > n/d; the remainder
    n/d - 1/t1 = n2/d2 is either zero (a one-term expansion is printed) or
    handed to the inner loop, which runs t2 from max(t1 + 1, ceil(d2/n2))
    while 2/t2 > n2/d2 and prints (t1, t2) when the next remainder n3/d3
    is zero, or (t1, t2, d3/n3) when it is a unit fraction.  `Outer` and
    `Inner` below are the lists the two loops print, in order; `Listing`
    is the whole output, and the lemmas characterise it. */
module ThreeTerms {
  import opened Arith
  import opened Fractions

  /** t1 = d // n, bumped by one when n * t1 < d. */
  function FirstStart(n: int, d: int): int
    requires n > 0
  {
    var t := d / n;
    if n * t < d then t + 1 else t
  }

  /** The correction makes the first candidate exactly ceil(d / n). */
  lemma FirstStartIs(n: int, d: int)
    requires n > 0
    ensures FirstStart(n, d) == CeilDiv(d, n)
    ensures d > 0 ==> FirstStart(n, d) > 0
  {
    var t := d / n;
    assert d == n * t + d % n;
    assert n * (t + 1) == n * t + n;
    assert n * (t - 1) == n * t - n;
    CeilUnique(d, n, FirstStart(n, d), CeilDiv(d, n));
    if d > 0 {
      MulPosFactor(n, CeilDiv(d, n));
    }
  }

  /** t2 = max(t1 + 1, d2 // n2), bumped by one when n2 * t2 < d2. */
  function SecondStart(t1: int, n2: int, d2: int): int
    requires n2 > 0
  {
    var t := Max(t1 + 1, d2 / n2);
    if n2 * t < d2 then t + 1 else t
  }

  /** The second candidate is exactly max(t1 + 1, ceil(d2 / n2)), so the
      remainder after it is never negative. */
  lemma SecondStartIs(t1: int, n2: int, d2: int)
    requires n2 > 0
    ensures SecondStart(t1, n2, d2) == Max(t1 + 1, CeilDiv(d2, n2))
    ensures SecondStart(t1, n2, d2) > t1 && n2 * SecondStart(t1, n2, d2) >= d2
  {
    FirstStartIs(n2, d2);
    var c, t := CeilDiv(d2, n2), SecondStart(t1, n2, d2);
    if t1 + 1 >= c {
      MulMono(c, t1 + 1, n2);
    }
    MulMono(c, t, n2);
  }

  /** What the inner loop prints at candidate t2, without t1 in front. */
  function InnerCell(n2: int, d2: int, t2: int): seq<seq<int>>
    requires n2 > 0 && d2 > 0 && t2 > 0 && n2 * t2 >= d2
  {
    var n3, d3 := n2 * t2 - d2, d2 * t2;
    if n3 == 0 then [[t2]]
    else if d3 % n3 == 0 then [[t2, d3 / n3]]
    else []
  }

  /** What the inner loop prints from candidate t2 on. */
  function Inner(n2: int, d2: int, t2: int): seq<seq<int>>
    requires n2 > 0 && d2 > 0 && t2 > 0 && n2 * t2 >= d2
    decreases 2 * d2 - n2 * t2
  {
    if 2 * d2 > n2 * t2 then
      MulSucc(n2, t2);
      InnerCell(n2, d2, t2) + Inner(n2, d2, t2 + 1)
    else []
  }

  /** What the outer loop prints at candidate t1. */
  function OuterCell(n: int, d: int, t1: int): seq<seq<int>>
    requires n > 0 && d > 0 && t1 > 0 && n * t1 >= d
  {
    var n2, d2 := n * t1 - d, d * t1;
    if n2 == 0 then [[t1]]
    else
      MulStrict(0, t1, d);
      SecondStartIs(t1, n2, d2);
      Prepend(t1, Inner(n2, d2, SecondStart(t1, n2, d2)))
  }

  /** What the outer loop prints from candidate t1 on. */
  function Outer(n: int, d: int, t1: int): seq<seq<int>>
    requires n > 0 && d > 0 && t1 > 0 && n * t1 >= d
    decreases 3 * d - n * t1
  {
    if 3 * d > n * t1 then
      MulSucc(n, t1);
      OuterCell(n, d, t1) + Outer(n, d, t1 + 1)
    else []
  }

  /** Everything `listTerms(n, d)` prints, in order. */
  function Listing(n: int, d: int): seq<seq<int>>
    requires n > 0 && d > 0
  {
    FirstStartIs(n, d);
    Outer(n, d, FirstStart(n, d))
  }

  // ----- soundness: every printed tuple is an expansion -----

  /** A one-term expansion. */
  lemma One(t: int)
    requires t > 0
    ensures IsExpansion([t], 1, t)
  {
    assert [t][1..] == [];
  }

  /** When the remainder n3/d3 after t2 divides out, its denominator
      d3/n3 is a third term above t2, since the guard 2 * d2 > n2 * t2
      makes n3 < d2. */
  lemma ThirdTerm(n2: int, d2: int, t2: int)
    requires n2 > 0 && d2 > 0 && t2 > 0 && 2 * d2 > n2 * t2
    requires n2 * t2 - d2 > 0 && (d2 * t2) % (n2 * t2 - d2) == 0
    ensures var n3, d3 := n2 * t2 - d2, d2 * t2;
            d3 / n3 > t2 && Q(n3, d3) == Recip(d3 / n3)
  {
    var n3, d3 := n2 * t2 - d2, d2 * t2;
    var t3 := d3 / n3;
    assert d3 == n3 * t3;
    MulStrict(n3, d2, t2);
    if t3 <= t2 {
      MulMono(t3, t2, n3);
    }
    QEq(n3, d3, 1, t3);
    QUnit(t3);
  }

  lemma InnerCellSound(n2: int, d2: int, t2: int, s: seq<int>)
    requires n2 > 0 && d2 > 0 && t2 > 0 && n2 * t2 >= d2 && 2 * d2 > n2 * t2
    requires s in InnerCell(n2, d2, t2)
    ensures 1 <= |s| <= 2 && s[0] == t2 && IsExpansion(s, n2, d2)
  {
    var n3, d3 := n2 * t2 - d2, d2 * t2;
    MulStrict(0, t2, d2);
    SubRecip(n2, d2, t2);
    QUnit(t2);
    One(t2);
    if n3 == 0 {
      assert s == [t2];
      QPositive(0, d3);
    } else {
      ThirdTerm(n2, d2, t2);
      var t3 := d3 / n3;
      assert s == [t2, t3];
      One(t3);
      Cons(t2, [t3]);
    }
  }

  lemma {:induction false} InnerSound(n2: int, d2: int, t2: int, s: seq<int>)
    requires n2 > 0 && d2 > 0 && t2 > 0 && n2 * t2 >= d2
    requires s in Inner(n2, d2, t2)
    ensures 1 <= |s| <= 2 && s[0] >= t2 && IsExpansion(s, n2, d2)
    decreases 2 * d2 - n2 * t2
  {
    assert 2 * d2 > n2 * t2;
    MulSucc(n2, t2);
    if s in Inner(n2, d2, t2 + 1) {
      InnerSound(n2, d2, t2 + 1, s);
    } else {
      InnerCellSound(n2, d2, t2, s);
    }
  }

  lemma OuterCellSound(n: int, d: int, t1: int, s: seq<int>)
    requires n > 0 && d > 0 && t1 > 0 && n * t1 >= d
    requires s in OuterCell(n, d, t1)
    ensures 1 <= |s| <= 3 && s[0] == t1 && IsExpansion(s, n, d)
  {
    var n2, d2 := n * t1 - d, d * t1;
    MulStrict(0, t1, d);
    SubRecip(n, d, t1);
    if n2 == 0 {
      assert s == [t1];
      One(t1);
      QEq(n, d, 1, t1);
    } else {
      SecondStartIs(t1, n2, d2);
      var t2 := SecondStart(t1, n2, d2);
      var sub := Inner(n2, d2, t2);
      var i :| 0 <= i < |sub| && Prepend(t1, sub)[i] == s;
      InnerSound(n2, d2, t2, sub[i]);
      Cons(t1, sub[i]);
    }
  }

  lemma {:induction false} OuterSound(n: int, d: int, t1: int, s: seq<int>)
    requires n > 0 && d > 0 && t1 > 0 && n * t1 >= d
    requires s in Outer(n, d, t1)
    ensures 1 <= |s| <= 3 && s[0] >= t1 && IsExpansion(s, n, d)
    decreases 3 * d - n * t1
  {
    assert 3 * d > n * t1;
    MulSucc(n, t1);
    if s in Outer(n, d, t1 + 1) {
      OuterSound(n, d, t1 + 1, s);
    } else {
      OuterCellSound(n, d, t1, s);
    }
  }

  // ----- completeness: every expansion is printed -----

  /** An expansion whose first term is t leaves the remainder
      (n*t - d)/(d*t) for the rest of it. */
  lemma Remainder(s: seq<int>, n: int, d: int)
    requires d > 0 && IsExpansion(s, n, d) && s != []
    ensures d * s[0] > 0
    ensures IsExpansion(s[1..], n * s[0] - d, d * s[0])
    ensures |s| == 1 <==> n * s[0] - d == 0
  {
    var t, s' := s[0], s[1..];
    assert s == [t] + s';
    Cons(t, s');
    MulStrict(0, t, d);
    SubRecip(n, d, t);
    QEq(n * t - d, d * t, 0, 1);
    if s' != [] {
      RecipSumPositive(s');
    }
  }

  /** The first term t of an expansion of n/d satisfies n * t >= d. */
  lemma FirstTermFeasible(s: seq<int>, n: int, d: int)
    requires d > 0 && n > 0 && IsExpansion(s, n, d) && s != []
    ensures n * s[0] >= d
  {
    RecipSumPositive(s);
    QUnit(s[0]);
    QLess(n, d, 1, s[0]);
  }

  lemma InnerCellComplete(n2: int, d2: int, t2: int, s: seq<int>)
    requires n2 > 0 && d2 > 0 && t2 > 0 && n2 * t2 >= d2
    requires 1 <= |s| <= 2 && IsExpansion(s, n2, d2) && s[0] == t2
    ensures s in InnerCell(n2, d2, t2)
  {
    var n3, d3 := n2 * t2 - d2, d2 * t2;
    Remainder(s, n2, d2);
    if |s| == 2 {
      var t3 := s[1];
      assert s[1..] == [t3];
      RecipSumPositive(s[1..]);
      SingleSum(s[1..]);
      QUnit(t3);
      QEq(n3, d3, 1, t3);
      MulDiv(n3, t3);
      assert s == [t2, t3];
    } else {
      assert s == [t2];
    }
  }

  lemma {:induction false} InnerComplete(n2: int, d2: int, t2: int, s: seq<int>)
    requires n2 > 0 && d2 > 0 && t2 > 0 && n2 * t2 >= d2
    requires 1 <= |s| <= 2 && IsExpansion(s, n2, d2) && t2 <= s[0]
    ensures s in Inner(n2, d2, t2)
    decreases 2 * d2 - n2 * t2
  {
    GuardBound(s, n2, d2, 2, t2);
    MulSucc(n2, t2);
    if t2 == s[0] {
      InnerCellComplete(n2, d2, t2, s);
    } else {
      InnerComplete(n2, d2, t2 + 1, s);
    }
  }

  lemma OuterCellComplete(n: int, d: int, t1: int, s: seq<int>)
    requires n > 0 && d > 0 && t1 > 0 && n * t1 >= d
    requires 1 <= |s| <= 3 && IsExpansion(s, n, d) && s[0] == t1
    ensures s in OuterCell(n, d, t1)
  {
    var n2, d2 := n * t1 - d, d * t1;
    Remainder(s, n, d);
    if |s| == 1 {
      assert s == [t1];
    } else {
      var s' := s[1..];
      assert s == [t1] + s';
      RecipSumPositive(s');
      QPositive(n2, d2);
      FirstTermFeasible(s', n2, d2);
      CeilDivLeast(d2, n2, s'[0]);
      SecondStartIs(t1, n2, d2);
      var t2 := SecondStart(t1, n2, d2);
      InnerComplete(n2, d2, t2, s');
      var sub := Inner(n2, d2, t2);
      var i :| 0 <= i < |sub| && sub[i] == s';
      assert Prepend(t1, sub)[i] == s;
    }
  }

  lemma {:induction false} OuterComplete(n: int, d: int, t1: int, s: seq<int>)
    requires n > 0 && d > 0 && t1 > 0 && n * t1 >= d
    requires 1 <= |s| <= 3 && IsExpansion(s, n, d) && t1 <= s[0]
    ensures s in Outer(n, d, t1)
    decreases 3 * d - n * t1
  {
    GuardBound(s, n, d, 3, t1);
    MulSucc(n, t1);
    if t1 == s[0] {
      OuterCellComplete(n, d, t1, s);
    } else {
      OuterComplete(n, d, t1 + 1, s);
    }
  }

  /** The output is exactly the expansions of n/d into one to three
      distinct unit fractions; the unit remainders are split too. */
  lemma ListingIs(n: int, d: int, s: seq<int>)
    requires n > 0 && d > 0
    ensures s in Listing(n, d) <==> 1 <= |s| <= 3 && IsExpansion(s, n, d)
  {
    FirstStartIs(n, d);
    var t1 := FirstStart(n, d);
    if s in Listing(n, d) {
      OuterSound(n, d, t1, s);
    }
    if 1 <= |s| <= 3 && IsExpansion(s, n, d) {
      FirstTermFeasible(s, n, d);
      CeilDivLeast(d, n, s[0]);
      OuterComplete(n, d, t1, s);
    }
  }

  // ----- order: the tuples come out in increasing lexicographic order -----

  lemma {:induction false} InnerSorted(n2: int, d2: int, t2: int)
    requires n2 > 0 && d2 > 0 && t2 > 0 && n2 * t2 >= d2
    ensures LexSorted(Inner(n2, d2, t2))
    decreases 2 * d2 - n2 * t2
  {
    if 2 * d2 > n2 * t2 {
      MulSucc(n2, t2);
      var cell, rest := InnerCell(n2, d2, t2), Inner(n2, d2, t2 + 1);
      InnerSorted(n2, d2, t2 + 1);
      forall i, j | 0 <= i < |cell| && 0 <= j < |rest|
        ensures LexLess(cell[i], rest[j])
      {
        InnerCellSound(n2, d2, t2, cell[i]);
        InnerSound(n2, d2, t2 + 1, rest[j]);
      }
      ConcatSorted(cell, rest);
    }
  }

  lemma {:induction false} OuterSorted(n: int, d: int, t1: int)
    requires n > 0 && d > 0 && t1 > 0 && n * t1 >= d
    ensures LexSorted(Outer(n, d, t1))
    decreases 3 * d - n * t1
  {
    if 3 * d > n * t1 {
      MulSucc(n, t1);
      var cell, rest := OuterCell(n, d, t1), Outer(n, d, t1 + 1);
      OuterSorted(n, d, t1 + 1);
      var n2, d2 := n * t1 - d, d * t1;
      if n2 != 0 {
        MulStrict(0, t1, d);
        SecondStartIs(t1, n2, d2);
        InnerSorted(n2, d2, SecondStart(t1, n2, d2));
        PrependSorted(t1, Inner(n2, d2, SecondStart(t1, n2, d2)));
      }
      forall i, j | 0 <= i < |cell| && 0 <= j < |rest|
        ensures LexLess(cell[i], rest[j])
      {
        OuterCellSound(n, d, t1, cell[i]);
        OuterSound(n, d, t1 + 1, rest[j]);
      }
      ConcatSorted(cell, rest);
    }
  }

  lemma ListingSorted(n: int, d: int)
    requires n > 0 && d > 0
    ensures LexSorted(Listing(n, d))
    ensures forall i, j :: 0 <= i < j < |Listing(n, d)| ==> Listing(n, d)[i] != Listing(n, d)[j]
  {
    FirstStartIs(n, d);
    OuterSorted(n, d, FirstStart(n, d));
    LexSortedDistinct(Listing(n, d));
  }

  /** The remainders are never reduced by their gcd, and need not be:
      scaling n and d by a common factor prints the same tuples. */
  lemma ListingScale(n: int, d: int, c: int)
    requires n > 0 && d > 0 && c > 0
    ensures Listing(c * n, c * d) == Listing(n, d)
  {
    MulStrict(0, n, c);
    MulStrict(0, d, c);
    QScale(n, d, c);
    forall s
      ensures s in Listing(c * n, c * d) <==> s in Listing(n, d)
    {
      ListingIs(n, d, s);
      ListingIs(c * n, c * d, s);
    }
    ListingSorted(n, d);
    ListingSorted(c * n, c * d);
    LexSortedUnique(Listing(c * n, c * d), Listing(n, d));
  }

  // ----- the enumeration itself -----

  /** `listTerms(n, d)`: each printed tuple is appended to `out`. */
  method ListTerms(n: int, d: int) returns (out: seq<seq<int>>)
    requires n > 0 && d > 0
    ensures out == Listing(n, d)
    ensures forall s :: s in out <==> 1 <= |s| <= 3 && IsExpansion(s, n, d)
    ensures LexSorted(out)
  {
    var n1, d1 := n, d;
    var t1 := d1 / n1;
    if n1 * t1 < d1 {
      t1 := t1 + 1;
    }
    FirstStartIs(n, d);
    out := [];
    while 3 * d1 > n1 * t1
      invariant t1 > 0 && n1 * t1 >= d1
      invariant out + Outer(n1, d1, t1) == Listing(n, d)
      decreases 3 * d1 - n1 * t1
    {
      OuterCellIs(n1, d1, t1);
      ghost var before := out;
      var n2, d2 := n1 * t1 - d1, d1 * t1;
      if n2 == 0 {
        out := out + [[t1]];
        OuterAdvance(before, out, n1, d1, t1, Listing(n, d));
        t1 := t1 + 1;
        continue;
      }
      var row := ListTails(t1, n2, d2);
      out := out + row;
      OuterAdvance(before, out, n1, d1, t1, Listing(n, d));
      t1 := t1 + 1;
    }
    forall s
      ensures s in out <==> 1 <= |s| <= 3 && IsExpansion(s, n, d)
    {
      ListingIs(n, d, s);
    }
    ListingSorted(n, d);
  }

  /** The inner loop of `listTerms` for the remainder n2/d2 left by t1:
      the tuples it prints, each starting with t1. */
  method ListTails(t1: int, n2: int, d2: int) returns (row: seq<seq<int>>)
    requires t1 > 0 && n2 > 0 && d2 > 0
    ensures SecondStart(t1, n2, d2) > t1 && n2 * SecondStart(t1, n2, d2) >= d2
    ensures row == Prepend(t1, Inner(n2, d2, SecondStart(t1, n2, d2)))
  {
    var t2 := Max(t1 + 1, d2 / n2);
    if n2 * t2 < d2 {
      t2 := t2 + 1;
    }
    SecondStartIs(t1, n2, d2);
    ghost var all := Prepend(t1, Inner(n2, d2, t2));
    row := [];
    while 2 * d2 > n2 * t2
      invariant t2 > 0 && n2 * t2 >= d2
      invariant row + Prepend(t1, Inner(n2, d2, t2)) == all
      decreases 2 * d2 - n2 * t2
    {
      MulSucc(n2, t2);
      ghost var before := row;
      var n3, d3 := n2 * t2 - d2, d2 * t2;
      if n3 == 0 {
        row := row + [[t1, t2]];
        InnerStep(before, row, t1, n2, d2, t2, all);
        t2 := t2 + 1;
        continue;
      }
      if d3 % n3 == 0 {
        var t3 := d3 / n3;
        row := row + [[t1, t2, t3]];
      }
      InnerStep(before, row, t1, n2, d2, t2, all);
      t2 := t2 + 1;
    }
    InnerDone(row, t1, n2, d2, t2);
  }

  /** What candidate t1 of the outer loop prints. */
  lemma OuterCellIs(n: int, d: int, t1: int)
    requires n > 0 && d > 0 && t1 > 0 && n * t1 >= d
    ensures d * t1 > 0
    ensures n * t1 - d == 0 ==> OuterCell(n, d, t1) == [[t1]]
    ensures n * t1 - d != 0 ==>
              n * t1 - d > 0 &&
              OuterCell(n, d, t1) == Prepend(t1, Inner(n * t1 - d, d * t1, SecondStart(t1, n * t1 - d, d * t1)))
  {
    MulStrict(0, t1, d);
  }

  /** The outer loop's invariant carried over one candidate t1. */
  lemma OuterAdvance(before: seq<seq<int>>, after: seq<seq<int>>, n: int, d: int, t1: int, all: seq<seq<int>>)
    requires n > 0 && d > 0 && t1 > 0 && n * t1 >= d && 3 * d > n * t1
    requires before + Outer(n, d, t1) == all
    requires after == before + OuterCell(n, d, t1)
    ensures n * (t1 + 1) >= d && 3 * d - n * (t1 + 1) < 3 * d - n * t1
    ensures after + Outer(n, d, t1 + 1) == all
  {
    MulSucc(n, t1);
    Chain(before, after, OuterCell(n, d, t1), Outer(n, d, t1 + 1), Outer(n, d, t1), all);
  }

  /** Moving the first part of what is still to be printed into what has
      been printed. */
  lemma Chain(before: seq<seq<int>>, after: seq<seq<int>>, cell: seq<seq<int>>,
              rest: seq<seq<int>>, todo: seq<seq<int>>, all: seq<seq<int>>)
    requires before + todo == all && todo == cell + rest && after == before + cell
    ensures after + rest == all
  {
    assert after + rest == before + (cell + rest);
  }

  /** Once the inner loop's guard fails it has nothing more to print. */
  lemma InnerDone(row: seq<seq<int>>, t1: int, n2: int, d2: int, t2: int)
    requires n2 > 0 && d2 > 0 && t2 > 0 && n2 * t2 >= d2 && 2 * d2 <= n2 * t2
    ensures row + Prepend(t1, Inner(n2, d2, t2)) == row
  {
    assert Prepend(t1, Inner(n2, d2, t2)) == [];
  }

  /** The inner loop's invariant carried over one candidate t2. */
  lemma InnerStep(before: seq<seq<int>>, after: seq<seq<int>>, t1: int,
                  n2: int, d2: int, t2: int, all: seq<seq<int>>)
    requires n2 > 0 && d2 > 0 && t2 > 0 && n2 * t2 >= d2 && 2 * d2 > n2 * t2
    requires before + Prepend(t1, Inner(n2, d2, t2)) == all
    requires var n3, d3 := n2 * t2 - d2, d2 * t2;
             after == before + (if n3 == 0 then [[t1, t2]]
                                else if d3 % n3 == 0 then [[t1, t2, d3 / n3]]
                                else [])
    ensures n2 * (t2 + 1) >= d2
    ensures after + Prepend(t1, Inner(n2, d2, t2 + 1)) == all
  {
    MulSucc(n2, t2);
    var cell, tail := InnerCell(n2, d2, t2), Inner(n2, d2, t2 + 1);
    PrependConcat(t1, cell, tail);
    InnerCellPrinted(t1, n2, d2, t2);
    Chain(before, after, Prepend(t1, cell), Prepend(t1, tail), Prepend(t1, Inner(n2, d2, t2)), all);
  }

  /** The inner cell with t1 in front is the tuple the loop prints. */
  lemma InnerCellPrinted(t1: int, n2: int, d2: int, t2: int)
    requires n2 > 0 && d2 > 0 && t2 > 0 && n2 * t2 >= d2
    ensures var n3, d3 := n2 * t2 - d2, d2 * t2;
            Prepend(t1, InnerCell(n2, d2, t2)) ==
            (if n3 == 0 then [[t1, t2]] else if d3 % n3 == 0 then [[t1, t2, d3 / n3]] else [])
  {
    var cell := InnerCell(n2, d2, t2);
    var n3, d3 := n2 * t2 - d2, d2 * t2;
    if n3 == 0 {
      assert [t1] + [t2] == [t1, t2];
    } else if d3 % n3 == 0 {
      var t3 := d3 / n3;
      assert [t1] + [t2, t3] == [t1, t2, t3];
    }
  }
}
