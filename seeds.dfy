/** The two one-answer expanders of gterms.py: the Engel expansion and the
    greedy (Fibonacci / Sylvester) expansion of n/d. */
module Seeds {
  import opened Arith
  import opened Divisibility
  import opened Fractions

  // ----- Engel expansion -----

  /** The Engel series of un/ud: a = ceil(ud/un), then continue with
      (un*a - ud)/ud, until the numerator reaches 0. */
  function EngelSeries(un: int, ud: int): seq<int>
    requires ud > 0
    decreases if un > 0 then un else 0
  {
    if un <= 0 then []
    else
      EngelStep(un, ud);
      var a := (ud + un - 1) / un;
      [a] + EngelSeries(un * a - ud, ud)
  }

  /** One Engel step: the new numerator lies in [0, un - 1], the series
      term is at least 1, and at least 2 while un < ud. */
  lemma EngelStep(un: int, ud: int)
    requires un > 0 && ud > 0
    ensures var a := (ud + un - 1) / un;
            a == CeilDiv(ud, un) && a >= 1 && 0 <= un * a - ud <= un - 1 &&
            (un < ud ==> a >= 2)
  {
    var a := CeilDiv(ud, un);
    if a < 1 {
      MulMono(a, 0, un);
    }
    if un < ud && a < 2 {
      MulMono(a, 1, un);
    }
  }

  /** Running products c*s[0], c*s[0]*s[1], ... */
  function Ladder(c: int, s: seq<int>): (r: seq<int>)
    ensures |r| == |s|
    decreases |s|
  {
    if s == [] then [] else [c * s[0]] + Ladder(c * s[0], s[1..])
  }

  /** Each ladder element after the first is the previous one times the
      next factor. */
  lemma {:induction false} LadderStep(c: int, s: seq<int>, i: int)
    requires 0 < i < |s|
    ensures Ladder(c, s)[i] == s[i] * Ladder(c, s)[i - 1]
    decreases i
  {
    var rest := Ladder(c * s[0], s[1..]);
    assert Ladder(c, s) == [c * s[0]] + rest;
    if i > 1 {
      LadderStep(c * s[0], s[1..], i - 1);
    }
  }

  /** The ladder over an Engel series starts with c * a, a = ceil(ud/un),
      followed by the ladder over the series of the remainder un2/ud. */
  lemma EngelHead(c: int, un: int, ud: int) returns (a: int, un2: int, rest: seq<int>)
    requires c > 0 && un > 0 && ud > 0
    ensures a == (ud + un - 1) / un && a >= 1 && c * a > 0
    ensures un2 == un * a - ud && 0 <= un2 < un
    ensures rest == Ladder(c * a, EngelSeries(un2, ud))
    ensures AllPositive(rest) ==>
              AllPositive(Ladder(c, EngelSeries(un, ud))) &&
              RecipSum(Ladder(c, EngelSeries(un, ud))) == Recip(c * a) + RecipSum(rest)
  {
    EngelStep(un, ud);
    a := (ud + un - 1) / un;
    MulStrict(0, a, c);
    un2 := un * a - ud;
    rest := Ladder(c * a, EngelSeries(un2, ud));
    assert Ladder(c, EngelSeries(un, ud)) == [c * a] + rest;
    Cons(c * a, rest);
  }

  /** The reciprocal sum of the ladder from c over the Engel series of
      un/ud is un/(c*ud). */
  lemma {:induction false} EngelSum(c: int, un: int, ud: int)
    requires c > 0 && un >= 0 && ud > 0
    ensures AllPositive(Ladder(c, EngelSeries(un, ud)))
    ensures RecipSum(Ladder(c, EngelSeries(un, ud))) == Q(un, c * ud)
    decreases un
  {
    if un > 0 {
      var a, un2, rest := EngelHead(c, un, ud);
      EngelSum(c * a, un2, ud);
      EngelNext(c, a, un, ud);
    } else {
      QPositive(0, c * ud);
      assert Q(0, c * ud) == 0.0;
    }
  }

  /** 1/(c*a) + (un*a - ud)/(c*a*ud) == un/(c*ud). */
  lemma EngelNext(c: int, a: int, un: int, ud: int)
    requires c > 0 && a > 0 && ud > 0
    ensures Recip(c * a) + Q(un * a - ud, (c * a) * ud) == Q(un, c * ud)
  {
    var C, A, U, D := c as real, a as real, un as real, ud as real;
    assert (c * a) as real == C * A;
    assert ((c * a) * ud) as real == C * A * D;
    assert (c * ud) as real == C * D;
    assert (un * a - ud) as real == U * A - D;
    assert 1.0 / (C * A) == D / (C * A * D);
    assert D / (C * A * D) + (U * A - D) / (C * A * D) == (U * A) / (C * A * D);
    assert (U * A) / (C * A * D) == U / (C * D);
  }

  /** A ladder with factors of at least 1 is positive, and with factors of
      at least 2 it grows strictly from above c. */
  lemma {:induction false} LadderShape(c: int, s: seq<int>)
    requires c > 0 && forall i :: 0 <= i < |s| ==> s[i] >= 1
    ensures AllPositive(Ladder(c, s))
    ensures (forall i :: 0 <= i < |s| ==> s[i] >= 2) ==>
              Increasing(Ladder(c, s)) && (s != [] ==> Ladder(c, s)[0] > c)
    decreases |s|
  {
    if s != [] {
      MulGe(c, s[0]);
      LadderShape(c * s[0], s[1..]);
      var rest := Ladder(c * s[0], s[1..]);
      assert Ladder(c, s) == [c * s[0]] + rest;
      Cons(c * s[0], rest);
      if forall i :: 0 <= i < |s| ==> s[i] >= 2 {
        MulStrict(1, s[0], c);
        assert forall i :: 0 <= i < |s[1..]| ==> s[1..][i] >= 2;
      }
    }
  }

  /** While 0 < un < ud, every Engel series term is at least 2; in general
      every term is at least 1. */
  lemma {:induction false} EngelTerms(un: int, ud: int)
    requires un >= 0 && ud > 0
    ensures forall i :: 0 <= i < |EngelSeries(un, ud)| ==> EngelSeries(un, ud)[i] >= 1
    ensures un < ud ==> forall i :: 0 <= i < |EngelSeries(un, ud)| ==> EngelSeries(un, ud)[i] >= 2
    decreases un
  {
    if un > 0 {
      var a := (ud + un - 1) / un;
      EngelStep(un, ud);
      EngelTerms(un * a - ud, ud);
      assert EngelSeries(un, ud) == [a] + EngelSeries(un * a - ud, ud);
    }
  }

  /** The Engel expansion of n/d: the running products of its Engel
      series. */
  function EngelDens(n: int, d: int): seq<int>
    requires d > 0
  {
    Ladder(1, EngelSeries(n, d))
  }

  /** What the Engel expansion promises: an expansion of n/d in which every
      denominator divides the next, starting at ceil(d/n), strictly
      increasing for 0 < n < d. */
  lemma EngelFacts(n: int, d: int)
    requires d > 0
    ensures var dens := EngelDens(n, d);
            (n <= 0 <==> dens == []) &&
            (n >= 0 ==> AllPositive(dens) && RecipSum(dens) == Q(n, d)) &&
            (n > 0 ==> forall i :: 0 < i < |dens| ==> Divides(dens[i - 1], dens[i])) &&
            (n > 0 ==> dens[0] == CeilDiv(d, n)) &&
            (0 < n < d ==> Increasing(dens))
  {
    var series := EngelSeries(n, d);
    var dens := EngelDens(n, d);
    if n >= 0 {
      EngelSum(1, n, d);
      EngelTerms(n, d);
      LadderShape(1, series);
      if n > 0 {
        forall i | 0 < i < |dens|
          ensures Divides(dens[i - 1], dens[i])
        {
          LadderStep(1, series, i);
          DividesMul(dens[i - 1], series[i]);
        }
      }
    }
  }

  /** `engel(n, d)`: the series loop, then the in-place running product. */
  method Engel(n: int, d: int) returns (dens: seq<int>)
    requires d > 0
    ensures dens == EngelDens(n, d)
    ensures n >= 0 ==> AllPositive(dens) && RecipSum(dens) == Q(n, d)
    ensures n > 0 ==> forall i :: 0 < i < |dens| ==> Divides(dens[i - 1], dens[i])
    ensures 0 < n < d ==> Increasing(dens)
  {
    var un, ud := n, d;
    var series: seq<int> := [];
    while un > 0
      invariant series + EngelSeries(un, ud) == EngelSeries(n, d)
      invariant ud == d
      decreases if un > 0 then un else 0
    {
      EngelStep(un, ud);
      var ak := (ud + un - 1) / un;
      series := series + [ak];
      un, ud := un * ak - ud, ud;
    }
    assert series == EngelSeries(n, d);
    ghost var ladder := Ladder(1, series);
    dens := series;
    var k := 1;
    while k < |dens|
      invariant |dens| == |series| == |ladder|
      invariant forall i :: 0 <= i < k && i < |dens| ==> dens[i] == ladder[i]
      invariant forall i :: k <= i < |dens| ==> dens[i] == series[i]
    {
      LadderStep(1, series, k);
      dens := dens[k := dens[k] * dens[k - 1]];
      k := k + 1;
    }
    assert dens == ladder;
    EngelFacts(n, d);
  }

  // ----- greedy expansion -----

  /** x/y in lowest terms: divide both by their gcd. */
  lemma Lowest(x: int, y: int)
    requires x >= 0 && y > 0
    ensures var g := Gcd(x, y);
            g > 0 && x == g * (x / g) && y == g * (y / g) &&
            0 <= x / g <= x && y / g > 0 &&
            Gcd(x / g, y / g) == 1 && Q(x / g, y / g) == Q(x, y)
  {
    ReducedCoprime(x, y);
    var g := Gcd(x, y);
    var a, b := x / g, y / g;
    MulPosFactor(g, b);
    if a < 0 {
      MulStrict(a, 0, g);
    }
    if a > x {
      MulMono(1, g, a);
    }
    QScale(a, b, g);
  }

  /** The greedy expansion: take den = ceil(ud/un), subtract 1/den and
      reduce the remainder to lowest terms. */
  function GreedyDens(un: int, ud: int): seq<int>
    requires ud > 0
    decreases if un > 0 then un else 0
  {
    if un <= 0 then []
    else
      EngelStep(un, ud);
      var den := (ud + un - 1) / un;
      var un2, ud2 := un * den - ud, den * ud;
      MulStrict(0, den, ud);
      Lowest(un2, ud2);
      var c := Gcd(un2, ud2);
      [den] + GreedyDens(un2 / c, ud2 / c)
  }

  /** One greedy step: with den = ceil(ud/un), the reduced remainder
      a/b = (un*den - ud)/(den*ud) equals un/ud - 1/den, is in lowest terms
      and has a numerator below un; while un < ud it is below 1/den and
      den is at least 2. */
  lemma GreedyStep(un: int, ud: int) returns (den: int, a: int, b: int)
    requires un > 0 && ud > 0
    ensures den == (ud + un - 1) / un && den == CeilDiv(ud, un) && den >= 1
    ensures var un2, ud2 := un * den - ud, den * ud;
            un2 >= 0 && ud2 > 0 && Gcd(un2, ud2) > 0 && a == un2 / Gcd(un2, ud2) && b == ud2 / Gcd(un2, ud2)
    ensures 0 <= a < un && b > 0 && Gcd(a, b) == 1
    ensures Q(a, b) == Q(un, ud) - Recip(den)
    ensures un < ud ==> den >= 2 && a < b && den * a < b
  {
    EngelStep(un, ud);
    den := (ud + un - 1) / un;
    var un2, ud2 := un * den - ud, den * ud;
    MulStrict(0, den, ud);
    Lowest(un2, ud2);
    var g := Gcd(un2, ud2);
    a, b := un2 / g, ud2 / g;
    SubRecip(un, ud, den);
    assert ud * den == ud2;
    if un < ud {
      GreedyShrinks(un, ud, den, g, a, b);
    }
  }

  /** While un < ud the reduced remainder a/b stays below 1/den. */
  lemma GreedyShrinks(un: int, ud: int, den: int, g: int, a: int, b: int)
    requires 0 < un < ud && den >= 1 && g > 0
    requires un * den >= ud && un * (den - 1) < ud
    requires un * den - ud == g * a && den * ud == g * b
    ensures den >= 2 && a < b && den * a < b
  {
    if den < 2 {
      MulMono(den, 1, un);
    }
    // den * (un*den - ud) < den * ud, because un*den < un + ud < 2*ud
    assert un * den - ud < ud;
    MulStrict(un * den - ud, ud, den);
    assert den * (g * a) < g * b;
    assert g * (den * a) < g * b;
    if den * a >= b {
      MulMono(b, den * a, g);
    }
    if a >= b {
      MulMono(b, a, den);
      MulMono(1, den, b);
    }
  }

  /** The greedy expansion of un/ud is den followed by the greedy expansion
      of the reduced remainder a/b. */
  lemma GreedyUnfold(un: int, ud: int) returns (den: int, a: int, b: int)
    requires un > 0 && ud > 0
    ensures den == (ud + un - 1) / un && den == CeilDiv(ud, un) && den >= 1
    ensures var un2, ud2 := un * den - ud, den * ud;
            un2 >= 0 && ud2 > 0 && Gcd(un2, ud2) > 0 &&
            a == un2 / Gcd(un2, ud2) && b == ud2 / Gcd(un2, ud2)
    ensures 0 <= a < un && b > 0
    ensures Gcd(a, b) == 1 && Q(a, b) == Q(un, ud) - Recip(den)
    ensures un < ud ==> den >= 2 && a < b && den * a < b
    ensures GreedyDens(un, ud) == [den] + GreedyDens(a, b)
  {
    den, a, b := GreedyStep(un, ud);
  }

  /** Greedy denominators are positive and sum to un/ud. */
  lemma {:induction false} GreedySum(un: int, ud: int)
    requires un >= 0 && ud > 0
    ensures AllPositive(GreedyDens(un, ud))
    ensures RecipSum(GreedyDens(un, ud)) == Q(un, ud)
    decreases un
  {
    if un > 0 {
      var den, a, b := GreedyUnfold(un, ud);
      GreedySum(a, b);
      Cons(den, GreedyDens(a, b));
    } else {
      QPositive(0, ud);
    }
  }

  /** den * a < b, so den falls short of ceil(b/a). */
  lemma CeilAbove(den: int, a: int, b: int)
    requires a > 0 && den * a < b
    ensures den < CeilDiv(b, a)
  {
    var next := CeilDiv(b, a);
    if next <= den {
      MulMono(next, den, a);
    }
  }

  /** For 0 <= un < ud the greedy denominators strictly increase, and the
      first one is ceil(ud/un). */
  lemma {:induction false} GreedyIncreasing(un: int, ud: int)
    requires 0 <= un < ud
    ensures Increasing(GreedyDens(un, ud))
    ensures un > 0 ==> GreedyDens(un, ud) != [] && GreedyDens(un, ud)[0] == CeilDiv(ud, un)
    decreases un
  {
    if un > 0 {
      var den, a, b := GreedyUnfold(un, ud);
      GreedyIncreasing(a, b);
      if a > 0 {
        CeilAbove(den, a, b);
      }
      Cons(den, GreedyDens(a, b));
    }
  }

  /** What the greedy expansion promises: an expansion of n/d starting at
      ceil(d/n), strictly increasing for 0 < n < d. */
  lemma GreedyFacts(n: int, d: int)
    requires d > 0
    ensures var dens := GreedyDens(n, d);
            (n <= 0 <==> dens == []) &&
            (n >= 0 ==> AllPositive(dens) && RecipSum(dens) == Q(n, d)) &&
            (n > 0 ==> dens[0] == CeilDiv(d, n)) &&
            (0 < n < d ==> Increasing(dens))
  {
    if n >= 0 {
      GreedySum(n, d);
    }
    if 0 < n < d {
      GreedyIncreasing(n, d);
    }
    if n > 0 {
      var den, a, b := GreedyUnfold(n, d);
    }
  }

  /** `greedy(n, d)`: the remainder un/ud stays non-negative and, after the
      first step, in lowest terms. */
  method Greedy(n: int, d: int) returns (dens: seq<int>)
    requires d > 0
    ensures dens == GreedyDens(n, d)
    ensures n >= 0 ==> AllPositive(dens) && RecipSum(dens) == Q(n, d)
    ensures 0 < n < d ==> Increasing(dens)
  {
    var un, ud := n, d;
    dens := [];
    while un > 0
      invariant ud > 0
      invariant dens + GreedyDens(un, ud) == GreedyDens(n, d)
      decreases if un > 0 then un else 0
    {
      ghost var den0, a, b := GreedyUnfold(un, ud);
      var den := (ud + un - 1) / un;
      dens := dens + [den];
      un, ud := un * den - ud, den * ud;
      var c := Euclid(un, ud);
      un, ud := un / c, ud / c;
      assert un == a && ud == b;
    }
    GreedyFacts(n, d);
  }
}
