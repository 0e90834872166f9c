/** The bounded depth-first search `nextTerm(n, d, k, pd)` for expansions of
    n/d into at most k unit fractions with denominators above pd.

    The search itself is the method `Searcher.NextTerm`, which writes the
    shared buffer `terms` and appends to `sols`.  `Found` below is the list
    of term suffixes one call appends, in discovery order; what that list
    contains is characterised by `Admissible` (lemmas `FoundSound`,
    `FoundComplete`) and its order by `FoundSorted`. */
module Search {
  import opened Arith
  import opened Divisibility
  import opened Fractions
  import Report

  /** The first candidate, max(pd + 1, ceil(d1 / n)), taken with the
      numerator n the call received, not the reduced one. */
  function Start(n: int, d1: int, pd: int): (t: int)
    requires n > 0
    ensures t > pd && n * t >= d1
  {
    Max(pd + 1, CeilDiv(d1, n))
  }

  /** The first candidate is the least one above pd with n * t >= d1. */
  lemma StartLeast(n: int, d1: int, pd: int, u: int)
    requires n > 0 && u > pd && n * u >= d1
    ensures Start(n, d1, pd) <= u
  {
    CeilDivLeast(d1, n, u);
  }

  function LastOr(pd: int, p: seq<int>): int {
    if p == [] then pd else p[|p| - 1]
  }

  /** The suffixes one call `nextTerm(n, d, k, pd)` appends, in order. */
  ghost function Found(n: int, d: int, k: int, pd: int): seq<seq<int>>
    requires n > 0 && d > 0 && k >= 1 && pd >= 0
    decreases k, 1
  {
    ReducePositive(n, d);
    var g := Gcd(n, d);
    var n1, d1 := n / g, d / g;
    if n1 == 1 && d1 > pd then [[d1]]
    else FoundFrom(n1, d1, k, Start(n, d1, pd))
  }

  /** The suffixes appended by the candidate loop from candidate t on. */
  ghost function FoundFrom(n1: int, d1: int, k: int, t: int): seq<seq<int>>
    requires n1 > 0 && d1 > 0 && k >= 1 && t > 0
    decreases k, 0, k * d1 - n1 * t
  {
    if k * d1 > n1 * t then Candidate(n1, d1, k, t) + FoundFrom(n1, d1, k, t + 1)
    else []
  }

  /** What candidate t contributes: the solutions of the remainder
      n1/d1 - 1/t with budget k - 1, each behind t; nothing when that
      remainder is not positive. */
  ghost function Candidate(n1: int, d1: int, k: int, t: int): seq<seq<int>>
    requires n1 > 0 && d1 > 0 && k >= 1 && t > 0 && k * d1 > n1 * t
    decreases k, 0, 0
  {
    var n2 := n1 * t - d1;
    if n2 > 0 then
      RecursesWithBudget(n1, d1, k, t);
      Prepend(t, Found(n2, d1 * t, k - 1, t))
    else []
  }

  lemma CandidateIs(n1: int, d1: int, k: int, t: int)
    requires n1 > 0 && d1 > 0 && k >= 1 && t > 0 && k * d1 > n1 * t
    ensures n1 * t - d1 > 0 ==>
              k >= 2 && d1 * t > 0 &&
              Candidate(n1, d1, k, t) == Prepend(t, Found(n1 * t - d1, d1 * t, k - 1, t))
    ensures n1 * t - d1 <= 0 ==> Candidate(n1, d1, k, t) == []
  {
    if n1 * t - d1 > 0 {
      RecursesWithBudget(n1, d1, k, t);
    }
  }

  /** The loop only recurses with budget k - 1 >= 1: at k = 1 the guard
      d1 > n1 * t already forces n1 * t - d1 < 0. */
  lemma RecursesWithBudget(n1: int, d1: int, k: int, t: int)
    requires n1 > 0 && d1 > 0 && t > 0
    requires k * d1 > n1 * t && n1 * t - d1 > 0
    ensures k >= 2 && d1 * t > 0
  {
    if k <= 1 {
      MulMono(k, 1, d1);
    }
  }

  /** The characterisation of what the search reports: a strictly increasing
      expansion of n/d above pd, with at most k terms, such that no proper
      prefix leaves a remainder 1/m with m above the prefix's last term
      (at such a prefix the search records [m] and does not look further). */
  ghost predicate Admissible(s: seq<int>, n: int, d: int, k: int, pd: int)
    requires d > 0
  {
    1 <= |s| <= k && s[0] > pd && IsExpansion(s, n, d) && NoEarlyUnit(s, Q(n, d), pd)
  }

  /** No proper prefix of s leaves, out of r, a unit fraction 1/m with m
      above the prefix's last term (pd for the empty prefix). */
  ghost predicate NoEarlyUnit(s: seq<int>, r: real, pd: int)
    requires AllPositive(s)
  {
    forall j :: 0 <= j < |s| - 1 ==>
      !IsUnitAbove(r - RecipSum(s[..j]), LastOr(pd, s[..j]))
  }

  // ----- arithmetic facts of the search -----

  /** A fraction in lowest terms that equals 1/m is 1/m. */
  lemma UnitForm(n1: int, d1: int, m: int)
    requires n1 > 0 && d1 > 0 && m > 0 && Gcd(n1, d1) == 1
    requires Q(n1, d1) == Recip(m)
    ensures n1 == 1 && d1 == m
  {
    QUnit(m);
    QEq(n1, d1, 1, m);
    assert d1 == n1 * m;
    DividesMul(n1, m);
    CoprimeDivisor(n1, d1);
  }

  /** Outside the leaf case a reduced remainder is not a unit fraction above pd. */
  lemma NotUnitAbove(n1: int, d1: int, pd: int)
    requires n1 > 0 && d1 > 0 && Gcd(n1, d1) == 1 && !(n1 == 1 && d1 > pd)
    ensures !IsUnitAbove(Q(n1, d1), pd)
  {
    forall m | m > pd && m > 0
      ensures Q(n1, d1) != Recip(m)
    {
      if Q(n1, d1) == Recip(m) {
        UnitForm(n1, d1, m);
      }
    }
  }

  /** The remainder n1*t - d1 is never exactly 0 in the loop: n1/d1 is in
      lowest terms and the unit case already returned. */
  lemma NoZeroRemainder(n1: int, d1: int, pd: int, t: int)
    requires n1 > 0 && d1 > 0 && Gcd(n1, d1) == 1 && !(n1 == 1 && d1 > pd)
    requires t > pd && t > 0
    ensures n1 * t - d1 != 0
  {
    CoprimeMultiple(n1, t);
    assert n1 * t == d1 ==> n1 == 1;
  }

  /** Candidates below ceil(d1/n1) leave a negative remainder, and the
      first candidate, computed with the unreduced n >= n1, is at most
      ceil(d1/n1) unless pd + 1 is larger. */
  lemma CandidateBounds(n: int, n1: int, d1: int, pd: int, t: int)
    requires n >= n1 > 0 && d1 > 0 && pd >= 0
    ensures t < CeilDiv(d1, n1) ==> n1 * t - d1 < 0
    ensures Start(n, d1, pd) <= Max(pd + 1, CeilDiv(d1, n1))
  {
    if t < CeilDiv(d1, n1) {
      MulMono(t, CeilDiv(d1, n1) - 1, n1);
    }
    var c := CeilDiv(d1, n1);
    MulMono(n1, n, c);
    CeilDivLeast(d1, n, c);
  }

  /** The reduced fraction of the entry of `nextTerm`. */
  lemma ReducePositive(n: int, d: int)
    requires n > 0 && d > 0
    ensures Gcd(n, d) > 0 && n / Gcd(n, d) > 0 && d / Gcd(n, d) > 0
  {
    Reduce(n, d);
  }

  lemma Reduce(n: int, d: int)
    requires n > 0 && d > 0
    ensures Gcd(n, d) > 0
    ensures n / Gcd(n, d) > 0 && d / Gcd(n, d) > 0 && n / Gcd(n, d) <= n
    ensures Gcd(n / Gcd(n, d), d / Gcd(n, d)) == 1
    ensures Q(n / Gcd(n, d), d / Gcd(n, d)) == Q(n, d)
  {
    ReducedCoprime(n, d);
    var g := Gcd(n, d);
    var n1, d1 := n / g, d / g;
    MulPosFactor(g, n1);
    MulPosFactor(g, d1);
    MulMono(1, g, n1);
    QScale(n1, d1, g);
  }

  // ----- one step of the search on the characterisation -----

  /** The prefix of [t] + s' of length j + 1 against the prefix of s' of
      length j. */
  lemma PrefixShift(t: int, s': seq<int>, r: real, pd: int, j: int)
    requires t > 0 && AllPositive(s') && 0 <= j < |s'|
    ensures AllPositive([t] + s')
    ensures r - RecipSum(([t] + s')[..j + 1]) == (r - Recip(t)) - RecipSum(s'[..j])
    ensures LastOr(pd, ([t] + s')[..j + 1]) == LastOr(t, s'[..j])
  {
    Cons(t, s');
    var s := [t] + s';
    PrefixPeel(s, j);
    assert s[1..][..j] == s'[..j];
  }

  lemma NoEarlyUnitTail(t: int, s': seq<int>, r: real, pd: int)
    requires t > 0 && AllPositive(s') && AllPositive([t] + s')
    requires NoEarlyUnit([t] + s', r, pd)
    ensures NoEarlyUnit(s', r - Recip(t), t)
  {
    var s := [t] + s';
    forall j | 0 <= j < |s'| - 1
      ensures !IsUnitAbove((r - Recip(t)) - RecipSum(s'[..j]), LastOr(t, s'[..j]))
    {
      PrefixShift(t, s', r, pd, j);
      assert 0 <= j + 1 < |s| - 1;
    }
  }

  lemma NoEarlyUnitHead(t: int, s': seq<int>, r: real, pd: int)
    requires t > 0 && AllPositive(s') && AllPositive([t] + s')
    requires !IsUnitAbove(r, pd) && NoEarlyUnit(s', r - Recip(t), t)
    ensures NoEarlyUnit([t] + s', r, pd)
  {
    var s := [t] + s';
    forall j | 0 <= j < |s| - 1
      ensures !IsUnitAbove(r - RecipSum(s[..j]), LastOr(pd, s[..j]))
    {
      if j == 0 {
        assert s[..0] == [];
      } else {
        PrefixShift(t, s', r, pd, j - 1);
        assert 0 <= j - 1 < |s'| - 1;
      }
    }
  }

  /** Peeling the first term t off s = [t] + s' moves the prefix condition
      from r and pd to r - 1/t and t. */
  lemma NoEarlyUnitCons(t: int, s': seq<int>, r: real, pd: int)
    requires t > 0 && AllPositive(s') && s' != []
    ensures AllPositive([t] + s')
    ensures NoEarlyUnit([t] + s', r, pd) <==>
            !IsUnitAbove(r, pd) && NoEarlyUnit(s', r - Recip(t), t)
  {
    Cons(t, s');
    FirstPrefix([t] + s', r, pd);
    if NoEarlyUnit([t] + s', r, pd) {
      NoEarlyUnitTail(t, s', r, pd);
    }
    if !IsUnitAbove(r, pd) && NoEarlyUnit(s', r - Recip(t), t) {
      NoEarlyUnitHead(t, s', r, pd);
    }
  }

  /** s = [t] + s' is reported by the call (n1/d1, k, pd) exactly when s' is
      reported by the child call (n1*t - d1)/(d1*t), k - 1, t. */
  lemma AdmissibleStep(n1: int, d1: int, k: int, pd: int, t: int, s': seq<int>)
    requires n1 > 0 && d1 > 0 && k >= 1 && pd >= 0 && t > pd
    requires !IsUnitAbove(Q(n1, d1), pd) && s' != []
    ensures d1 * t > 0
    ensures Admissible([t] + s', n1, d1, k, pd) <==>
            Admissible(s', n1 * t - d1, d1 * t, k - 1, t)
  {
    MulStrict(0, t, d1);
    SubRecip(n1, d1, t);
    Cons(t, s');
    if AllPositive(s') {
      NoEarlyUnitCons(t, s', Q(n1, d1), pd);
    }
  }

  /** The unit case already returned, so a reported list from the loop has
      at least two terms. */
  lemma AdmissibleLong(s: seq<int>, n1: int, d1: int, k: int, pd: int)
    requires d1 > 0 && Admissible(s, n1, d1, k, pd) && !IsUnitAbove(Q(n1, d1), pd)
    ensures |s| >= 2
  {
    SingleIsUnit(s, Q(n1, d1), pd);
  }

  /** A one-term expansion of r above pd makes r a unit fraction above pd. */
  lemma SingleIsUnit(s: seq<int>, r: real, pd: int)
    requires AllPositive(s)
    ensures |s| == 1 && s[0] > pd && RecipSum(s) == r ==> IsUnitAbove(r, pd)
  {
    SingleSum(s);
  }

  /** The pruning guard k * d1 > n1 * t holds while a reported list with
      first term at least t still lies ahead. */
  lemma GuardHolds(s: seq<int>, n1: int, d1: int, k: int, pd: int, t: int)
    requires d1 > 0 && t > 0 && Admissible(s, n1, d1, k, pd) && |s| >= 2 && t <= s[0]
    ensures k * d1 > n1 * t
  {
    GuardBound(s, n1, d1, k, t);
  }

  /** When n/d is the unit fraction 1/m with m > pd, the only report is [m]. */
  lemma LeafOnly(s: seq<int>, n: int, d: int, k: int, pd: int, m: int)
    requires d > 0 && m > pd && m > 0 && Q(n, d) == Recip(m)
    requires Admissible(s, n, d, k, pd)
    ensures s == [m]
  {
    assert IsUnitAbove(Q(n, d), pd);
    FirstPrefix(s, Q(n, d), pd);
    SingleSum(s);
    RecipLess(s[0], m);
    RecipLess(m, s[0]);
    assert s == [s[0]];
  }

  lemma FirstPrefix(s: seq<int>, r: real, pd: int)
    requires AllPositive(s)
    ensures |s| >= 2 && NoEarlyUnit(s, r, pd) ==> !IsUnitAbove(r, pd)
  {
    assert s[..0] == [];
  }

  // ----- soundness: every reported list is admissible -----

  lemma {:induction false} FoundSound(n: int, d: int, k: int, pd: int, s: seq<int>)
    requires n > 0 && d > 0 && k >= 1 && pd >= 0
    requires s in Found(n, d, k, pd)
    ensures Admissible(s, n, d, k, pd)
    decreases k, 1
  {
    Reduce(n, d);
    var g := Gcd(n, d);
    var n1, d1 := n / g, d / g;
    if n1 == 1 && d1 > pd {
      assert s == [d1];
      SingleSum(s);
      QUnit(d1);
    } else {
      FoundFromSound(n1, d1, k, pd, Start(n, d1, pd), s);
    }
  }

  lemma {:induction false} FoundFromSound(n1: int, d1: int, k: int, pd: int, t: int, s: seq<int>)
    requires n1 > 0 && d1 > 0 && k >= 1 && pd >= 0 && t > pd
    requires Gcd(n1, d1) == 1 && !(n1 == 1 && d1 > pd)
    requires s in FoundFrom(n1, d1, k, t)
    ensures Admissible(s, n1, d1, k, pd)
    decreases k, 0, k * d1 - n1 * t
  {
    assert k * d1 > n1 * t;
    var rest := FoundFrom(n1, d1, k, t + 1);
    if s in rest {
      FoundFromSound(n1, d1, k, pd, t + 1, s);
    } else {
      CandidateSound(n1, d1, k, pd, t, s);
    }
  }

  lemma {:induction false} CandidateSound(n1: int, d1: int, k: int, pd: int, t: int, s: seq<int>)
    requires n1 > 0 && d1 > 0 && k >= 1 && pd >= 0 && t > pd && k * d1 > n1 * t
    requires Gcd(n1, d1) == 1 && !(n1 == 1 && d1 > pd)
    requires s in Candidate(n1, d1, k, t)
    ensures Admissible(s, n1, d1, k, pd)
    decreases k, 0, 0
  {
    CandidateIs(n1, d1, k, t);
    var n2 := n1 * t - d1;
    assert n2 > 0;
    var sub := Found(n2, d1 * t, k - 1, t);
    var i :| 0 <= i < |sub| && Prepend(t, sub)[i] == s;
    FoundSound(n2, d1 * t, k - 1, t, sub[i]);
    NotUnitAbove(n1, d1, pd);
    AdmissibleStep(n1, d1, k, pd, t, sub[i]);
  }

  // ----- completeness: every admissible list is reported -----

  lemma {:induction false} FoundComplete(n: int, d: int, k: int, pd: int, s: seq<int>)
    requires n > 0 && d > 0 && k >= 1 && pd >= 0
    requires Admissible(s, n, d, k, pd)
    ensures s in Found(n, d, k, pd)
    decreases k, 1
  {
    Reduce(n, d);
    var g := Gcd(n, d);
    var n1, d1 := n / g, d / g;
    if n1 == 1 && d1 > pd {
      QUnit(d1);
      LeafOnly(s, n, d, k, pd, d1);
    } else {
      assert Admissible(s, n1, d1, k, pd);
      RecipSumPositive(s);
      QUnit(s[0]);
      QLess(n1, d1, 1, s[0]);
      MulMono(n1, n, s[0]);
      StartLeast(n, d1, pd, s[0]);
      FoundFromComplete(n1, d1, k, pd, Start(n, d1, pd), s);
    }
  }

  lemma {:induction false} FoundFromComplete(n1: int, d1: int, k: int, pd: int, t: int, s: seq<int>)
    requires n1 > 0 && d1 > 0 && k >= 1 && pd >= 0 && t > pd
    requires Gcd(n1, d1) == 1 && !(n1 == 1 && d1 > pd)
    requires Admissible(s, n1, d1, k, pd) && t <= s[0]
    ensures s in FoundFrom(n1, d1, k, t)
    decreases k, 0, k * d1 - n1 * t
  {
    NotUnitAbove(n1, d1, pd);
    AdmissibleLong(s, n1, d1, k, pd);
    GuardHolds(s, n1, d1, k, pd, t);
    if t == s[0] {
      CandidateComplete(n1, d1, k, pd, t, s);
    } else {
      FoundFromComplete(n1, d1, k, pd, t + 1, s);
    }
  }

  lemma {:induction false} CandidateComplete(n1: int, d1: int, k: int, pd: int, t: int, s: seq<int>)
    requires n1 > 0 && d1 > 0 && k >= 1 && pd >= 0 && t > pd && k * d1 > n1 * t
    requires !IsUnitAbove(Q(n1, d1), pd)
    requires Admissible(s, n1, d1, k, pd) && |s| >= 2 && t == s[0]
    ensures s in Candidate(n1, d1, k, t)
    decreases k, 0, 0
  {
    CandidateIs(n1, d1, k, t);
    var n2 := n1 * t - d1;
    var s' := s[1..];
    assert s == [t] + s';
    AdmissibleStep(n1, d1, k, pd, t, s');
    ChildPositive(n1, d1, t, s');
    FoundComplete(n2, d1 * t, k - 1, t, s');
    var sub := Found(n2, d1 * t, k - 1, t);
    var i :| 0 <= i < |sub| && sub[i] == s';
    assert Prepend(t, sub)[i] == s;
  }

  /** A non-empty expansion of the child remainder makes it positive. */
  lemma ChildPositive(n1: int, d1: int, t: int, s': seq<int>)
    requires d1 > 0 && t > 0 && s' != [] && d1 * t > 0
    requires IsExpansion(s', n1 * t - d1, d1 * t)
    ensures n1 * t - d1 > 0
  {
    RecipSumPositive(s');
    QPositive(n1 * t - d1, d1 * t);
  }

  // ----- order: depth first with increasing candidates -----

  lemma {:induction false} FoundSorted(n: int, d: int, k: int, pd: int)
    requires n > 0 && d > 0 && k >= 1 && pd >= 0
    ensures LexSorted(Found(n, d, k, pd))
    ensures forall s :: s in Found(n, d, k, pd) ==> s != [] && s[0] > pd
    decreases k, 1
  {
    Reduce(n, d);
    var g := Gcd(n, d);
    var n1, d1 := n / g, d / g;
    if !(n1 == 1 && d1 > pd) {
      FoundFromSorted(n1, d1, k, Start(n, d1, pd));
    }
  }

  lemma {:induction false} FoundFromSorted(n1: int, d1: int, k: int, t: int)
    requires n1 > 0 && d1 > 0 && k >= 1 && t > 0
    ensures LexSorted(FoundFrom(n1, d1, k, t))
    ensures forall s :: s in FoundFrom(n1, d1, k, t) ==> s != [] && s[0] >= t
    decreases k, 0, k * d1 - n1 * t
  {
    if k * d1 > n1 * t {
      var n2 := n1 * t - d1;
      var rest := FoundFrom(n1, d1, k, t + 1);
      FoundFromSorted(n1, d1, k, t + 1);
      CandidateIs(n1, d1, k, t);
      var chunk := Candidate(n1, d1, k, t);
      if n2 > 0 {
        FoundSorted(n2, d1 * t, k - 1, t);
        PrependSorted(t, Found(n2, d1 * t, k - 1, t));
      }
      assert forall s :: s in chunk ==> s != [] && s[0] == t;
      ConcatSorted(chunk, rest);
    }
  }

  // ----- the search state -----

  /** Each list of l with the same prefix p in front. */
  function Attach(p: seq<int>, l: seq<seq<int>>): seq<seq<int>> {
    seq(|l|, i requires 0 <= i < |l| => p + l[i])
  }

  lemma AttachConcat(p: seq<int>, a: seq<seq<int>>, b: seq<seq<int>>)
    ensures Attach(p, a + b) == Attach(p, a) + Attach(p, b)
  {
  }

  lemma AttachPrepend(p: seq<int>, t: int, l: seq<seq<int>>)
    ensures Attach(p + [t], l) == Attach(p, Prepend(t, l))
  {
    forall i | 0 <= i < |l|
      ensures Attach(p + [t], l)[i] == Attach(p, Prepend(t, l))[i]
    {
      assert (p + [t]) + l[i] == p + ([t] + l[i]);
    }
  }

  /** Nothing attached to no lists. */
  lemma AttachNone(p: seq<int>)
    ensures Attach(p, []) == []
  {
  }

  /** The loop invariant of `NextTerm` carried over one candidate. */
  lemma AttachStep(o: seq<seq<int>>, all: seq<seq<int>>, before: seq<seq<int>>, after: seq<seq<int>>,
                   p: seq<int>, chunk: seq<seq<int>>, rest: seq<seq<int>>)
    requires o + Attach(p, all) == before + Attach(p, chunk + rest)
    requires after == before + Attach(p, chunk)
    ensures o + Attach(p, all) == after + Attach(p, rest)
  {
    AttachConcat(p, chunk, rest);
  }

  lemma AttachEmpty(l: seq<seq<int>>)
    ensures Attach([], l) == l
  {
    forall i | 0 <= i < |l|
      ensures Attach([], l)[i] == l[i]
    {
      assert [] + l[i] == l[i];
    }
  }

  /** The working buffer `terms` (kHi slots) and the solution list `sols`. */
  class Searcher {
    var terms: array<int>
    var sols: seq<seq<int>>

    constructor (kHi: nat)
      ensures fresh(terms) && terms.Length == kHi && sols == []
      ensures forall i :: 0 <= i < kHi ==> terms[i] == 0
    {
      terms := new int[kHi](_ => 0);
      sols := [];
    }

    /** `nextTerm(n, d, k, pd)`: the call with budget k owns slot
        terms.Length - k and appends each solution as a copy of the buffer
        up to that slot. */
    method NextTerm(n: int, d: int, k: int, pd: int)
      requires n > 0 && d > 0 && 1 <= k <= terms.Length && pd >= 0
      modifies this`sols, terms
      ensures sols == old(sols) + Attach(old(terms[..terms.Length - k]), Found(n, d, k, pd))
      ensures terms[..terms.Length - k] == old(terms[..terms.Length - k])
      decreases k, 1
    {
      var g := Euclid(n, d);
      ReducePositive(n, d);
      var n1, d1 := n / g, d / g;
      var slot := terms.Length - k;
      ghost var prefix := terms[..slot];
      if n1 == 1 && d1 > pd {
        terms[slot] := d1;
        assert terms[..slot + 1] == prefix + [d1];
        sols := sols + [terms[..slot + 1]];
        return;
      }
      var t1 := Max(pd + 1, (d1 + n - 1) / n);
      assert t1 == Start(n, d1, pd);
      ghost var all := FoundFrom(n1, d1, k, t1);
      while k * d1 > n1 * t1
        invariant t1 > pd
        invariant terms[..slot] == prefix
        invariant old(sols) + Attach(prefix, all) == sols + Attach(prefix, FoundFrom(n1, d1, k, t1))
        decreases k * d1 - n1 * t1
      {
        ghost var before := sols;
        TryCandidate(n1, d1, k, t1);
        AttachStep(old(sols), all, before, sols, prefix, Candidate(n1, d1, k, t1), FoundFrom(n1, d1, k, t1 + 1));
        MulSucc(n1, t1);
        t1 := t1 + 1;
      }
    }

    /** One pass of the candidate loop: t goes into the slot and, when the
        remainder n1/d1 - 1/t is positive, the search continues on it with
        one slot fewer. */
    method TryCandidate(n1: int, d1: int, k: int, t: int)
      requires n1 > 0 && d1 > 0 && 1 <= k <= terms.Length && t > 0 && k * d1 > n1 * t
      modifies this`sols, terms
      ensures sols == old(sols) + Attach(old(terms[..terms.Length - k]), Candidate(n1, d1, k, t))
      ensures terms[..terms.Length - k] == old(terms[..terms.Length - k])
      decreases k, 0
    {
      var slot := terms.Length - k;
      ghost var prefix := terms[..slot];
      terms[slot] := t;
      var n2 := n1 * t - d1;
      CandidateIs(n1, d1, k, t);
      if n2 > 0 {
        assert terms[..slot + 1] == prefix + [t];
        NextTerm(n2, d1 * t, k - 1, t);
        assert terms[..slot] == terms[..slot + 1][..slot];
        AttachPrepend(prefix, t, Found(n2, d1 * t, k - 1, t));
      } else {
        AttachNone(prefix);
      }
    }
  }

  /** One query: a fresh buffer, the search from the top, and the report
      sorted by the sum of denominators. */
  method Solve(n: int, d: int, kHi: int) returns (ss: seq<seq<int>>)
    requires n > 0 && d > 0 && kHi >= 1
    ensures forall s :: s in ss <==> Admissible(s, n, d, kHi, 0)
    ensures multiset(ss) == multiset(Found(n, d, kHi, 0))
    ensures Report.SumSorted(ss)
  {
    var searcher := new Searcher(kHi);
    searcher.NextTerm(n, d, kHi, 0);
    assert searcher.sols == Found(n, d, kHi, 0) by {
      assert searcher.terms[..0] == [];
      AttachEmpty(Found(n, d, kHi, 0));
    }
    ss := Report.SortBySum(searcher.sols);
    Report.SortBySumSorted(searcher.sols);
    forall s
      ensures s in ss <==> Admissible(s, n, d, kHi, 0)
    {
      assert s in ss <==> s in multiset(ss);
      assert s in searcher.sols <==> s in multiset(searcher.sols);
      if s in searcher.sols {
        FoundSound(n, d, kHi, 0, s);
      }
      if Admissible(s, n, d, kHi, 0) {
        FoundComplete(n, d, kHi, 0, s);
      }
    }
  }
}
