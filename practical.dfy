/** The practical-number helper of pracfracs.py: the prime-factor table
    `sfn` (entry j is the last sieving prime dividing j, or j itself), the
    search `nextPrac` for a practical multiplier and the driver
    `findSols`. */
module Practical {
  import opened Arith
  import opened Divisibility
  import opened Fractions
  import opened Report

  // ---------------------------------------------------------------------
  // Primes

  /** p is a prime: at least 2 and without a divisor strictly between. */
  ghost predicate IsPrime(p: int) {
    p >= 2 && forall a :: 2 <= a < p ==> !Divides(a, p)
  }

  /** A least divisor above 1 of j, found by counting up from a. */
  lemma {:induction false} LeastDivisorFrom(j: int, a: int) returns (q: int)
    requires 2 <= a <= j
    requires forall b :: 2 <= b < a ==> !Divides(b, j)
    ensures a <= q <= j && Divides(q, j)
    ensures forall b :: 2 <= b < q ==> !Divides(b, j)
    decreases j - a
  {
    if Divides(a, j) {
      q := a;
    } else {
      assert a < j by {
        if a == j {
          DividesMul(j, 1);
        }
      }
      q := LeastDivisorFrom(j, a + 1);
    }
  }

  /** Every j >= 2 is a prime or has a prime factor q with q * q <= j. */
  lemma SmallPrimeFactor(j: int) returns (q: int)
    requires j >= 2
    ensures IsPrime(q) && Divides(q, j) && q <= j
    ensures q == j || q * q <= j
  {
    q := LeastDivisorFrom(j, 2);
    forall b | 2 <= b < q
      ensures !Divides(b, q)
    {
      if Divides(b, q) {
        DividesTrans(b, q, j);
      }
    }
    if q < j && q * q > j {
      var c := j / q;
      assert j == q * c;
      assert c >= 2 by {
        if c <= 1 {
          MulMono(c, 1, q);
        }
      }
      assert c < q by {
        if c >= q {
          MulMono(q, c, q);
        }
      }
      assert j == c * q;
      DividesMul(c, q);
    }
  }

  // ---------------------------------------------------------------------
  // The sieve of lines 92-95

  /** The number of primes the sieve uses: the index of the first prime of
      prl[i..] whose square exceeds fHi (where the loop breaks), or |prl|. */
  function Processed(prl: seq<int>, fHi: int, i: nat): (c: nat)
    requires i <= |prl|
    ensures i <= c <= |prl|
    ensures forall k :: i <= k < c ==> prl[k] * prl[k] <= fHi
    ensures c < |prl| ==> prl[c] * prl[c] > fHi
    decreases |prl| - i
  {
    if i == |prl| || prl[i] * prl[i] > fHi then i else Processed(prl, fHi, i + 1)
  }

  /** The entry for j once the first c primes of prl have been sieved: the
      last of them that is a factor of j (not above j itself), or j. */
  function Entry(prl: seq<int>, c: nat, j: int): int
    requires c <= |prl|
  {
    if c == 0 then j
    else if prl[c - 1] <= j && Divides(prl[c - 1], j) then prl[c - 1]
    else Entry(prl, c - 1, j)
  }

  /** `sfn = [j for j in range(fHi)]`, then for every prime p of prl up to
      the break, `sfn[j] = p` for j = p, 2p, ... below fHi. */
  method Sieve(prl: seq<int>, fHi: nat) returns (sfn: array<int>)
    requires forall k :: 0 <= k < |prl| ==> prl[k] >= 2
    ensures sfn.Length == fHi
    ensures forall j :: 0 <= j < fHi ==> sfn[j] == Entry(prl, Processed(prl, fHi, 0), j)
  {
    sfn := new int[fHi](j => j);
    var i := 0;
    while i < |prl|
      invariant 0 <= i <= |prl|
      invariant forall k :: 0 <= k < i ==> prl[k] * prl[k] <= fHi
      invariant forall j :: 0 <= j < fHi ==> sfn[j] == Entry(prl, i, j)
    {
      var p := prl[i];
      if p * p > fHi {
        break;
      }
      Strike(sfn, p);
      i := i + 1;
    }
  }

  /** The inner loop of the sieve: `for j in range(p, fHi, p): sfn[j] = p`. */
  method Strike(sfn: array<int>, p: int)
    requires p >= 2
    modifies sfn
    ensures forall x :: 0 <= x < sfn.Length ==>
      sfn[x] == if p <= x && Divides(p, x) then p else old(sfn[x])
  {
    var j := p;
    while j < sfn.Length
      invariant p <= j && j % p == 0
      invariant forall x :: 0 <= x < sfn.Length ==>
        sfn[x] == if p <= x < j && Divides(p, x) then p else old(sfn[x])
      decreases sfn.Length - j
    {
      sfn[j] := p;
      StrikeNext(p, j);
      j := j + p;
    }
  }

  /** No multiple of p lies strictly between j and j + p. */
  lemma StrikeNext(p: int, j: int)
    requires p >= 2 && j % p == 0
    ensures (j + p) % p == 0
    ensures forall x :: j < x < j + p ==> !Divides(p, x)
  {
    MulDiv(p, j / p + 1);
    assert j + p == p * (j / p + 1);
    forall x | j < x < j + p
      ensures !Divides(p, x)
    {
      DivUnique(x, p, j / p, x - j);
    }
  }

  /** Every entry at j >= 2 is a factor of j between 2 and j. */
  lemma {:induction false} EntryDivides(prl: seq<int>, c: nat, j: int)
    requires c <= |prl| && j >= 2
    requires forall k :: 0 <= k < |prl| ==> prl[k] >= 2
    ensures 2 <= Entry(prl, c, j) <= j && Divides(Entry(prl, c, j), j)
  {
    if c == 0 {
      DividesMul(j, 1);
    } else if !(prl[c - 1] <= j && Divides(prl[c - 1], j)) {
      EntryDivides(prl, c - 1, j);
    }
  }

  /** The entry e of j also heads j / e when e divides j / e: the factors
      read off the table come in runs of equal primes. */
  lemma {:induction false} EntryRuns(prl: seq<int>, c: nat, j: int)
    requires c <= |prl| && j >= 2
    requires forall k :: 0 <= k < |prl| ==> prl[k] >= 2
    ensures Entry(prl, c, j) >= 2
    ensures Divides(Entry(prl, c, j), j / Entry(prl, c, j)) ==>
      Entry(prl, c, j / Entry(prl, c, j)) == Entry(prl, c, j)
  {
    EntryDivides(prl, c, j);
    var e := Entry(prl, c, j);
    var w := j / e;
    if Divides(e, w) {
      CofactorBelow(e, j);
      if c == 0 {
        assert e == j;
        MulDiv(j, 1);
      } else {
        var p := prl[c - 1];
        if p <= j && Divides(p, j) {
          DivisorBound(p, w);
        } else {
          EntryRuns(prl, c - 1, j);
          if p <= w && Divides(p, w) {
            DividesTrans(p, w, j);
          }
        }
      }
    }
  }

  /** The cofactor of a divisor e of j > 0 is a positive divisor of j, at most j. */
  lemma CofactorBelow(e: int, j: int)
    requires j > 0 && Divides(e, j)
    ensures j / e >= 1 && Divides(j / e, j) && j / e <= j
  {
    var w := j / e;
    assert j == e * w;
    MulPosFactor(e, w);
    assert j == w * e;
    DividesMul(w, e);
    DivisorBound(w, j);
  }

  /** An entry is the first prime sieve value it met, or j itself. */
  lemma {:induction false} EntryFrom(prl: seq<int>, c: nat, j: int) returns (k: int)
    requires c <= |prl|
    ensures -1 <= k < c
    ensures k == -1 ==> Entry(prl, c, j) == j
    ensures k == -1 ==> forall i :: 0 <= i < c ==> !(prl[i] <= j && Divides(prl[i], j))
    ensures k >= 0 ==> Entry(prl, c, j) == prl[k]
  {
    if c == 0 {
      k := -1;
    } else if prl[c - 1] <= j && Divides(prl[c - 1], j) {
      k := c - 1;
    } else {
      k := EntryFrom(prl, c - 1, j);
    }
  }

  /** What the table needs from prl: its members are increasing primes, and
      every prime whose square is below fHi is among them. */
  ghost predicate SievePrimes(prl: seq<int>, fHi: int) {
    (forall k :: 0 <= k < |prl| ==> IsPrime(prl[k])) &&
    (forall a, b :: 0 <= a < b < |prl| ==> prl[a] < prl[b]) &&
    (forall q :: IsPrime(q) && q * q < fHi ==> q in prl)
  }

  /** Every entry of the sieved table below fHi is a prime. */
  lemma EntryPrime(prl: seq<int>, fHi: int, j: int)
    requires SievePrimes(prl, fHi) && 2 <= j < fHi
    ensures IsPrime(Entry(prl, Processed(prl, fHi, 0), j))
  {
    var c := Processed(prl, fHi, 0);
    var k := EntryFrom(prl, c, j);
    if k == -1 {
      var q := SmallPrimeFactor(j);
      if q != j {
        assert q in prl;
        var i :| 0 <= i < |prl| && prl[i] == q;
        if i >= c {
          var r := prl[c];
          assert r <= q;
          MulMono(r, q, r);
          MulMono(r, q, q);
          assert false;
        }
        assert false;
      }
    }
  }

  /** The entry at j (2 <= j < |sfn|) of a factor table. */
  ghost predicate TableAt(sfn: seq<int>, j: int)
    requires 2 <= j < |sfn|
  {
    IsPrime(sfn[j]) && sfn[j] <= j && Divides(sfn[j], j) &&
    (Divides(sfn[j], j / sfn[j]) ==> sfn[j / sfn[j]] == sfn[j])
  }

  /** A table of prime factors: sfn[j] is a prime factor of j for 2 <= j,
      and when it divides j / sfn[j] again it is also the entry there. */
  ghost predicate FactorTable(sfn: seq<int>) {
    forall j :: 2 <= j < |sfn| ==> TableAt(sfn, j)
  }

  /** The sieve builds a factor table. */
  lemma SieveTable(prl: seq<int>, fHi: int, sfn: seq<int>)
    requires SievePrimes(prl, fHi) && |sfn| == fHi
    requires forall j :: 0 <= j < fHi ==> sfn[j] == Entry(prl, Processed(prl, fHi, 0), j)
    ensures FactorTable(sfn)
  {
    var c := Processed(prl, fHi, 0);
    forall j | 2 <= j < fHi
      ensures TableAt(sfn, j)
    {
      EntryDivides(prl, c, j);
      EntryRuns(prl, c, j);
      EntryPrime(prl, fHi, j);
      CofactorBelow(sfn[j], j);
    }
  }

  // ---------------------------------------------------------------------
  // Factoring by table lookup, lines 52-61

  /** `p ** e`. */
  function Pow(p: int, e: nat): int {
    if e == 0 then 1 else p * Pow(p, e - 1)
  }

  /** The number whose factorisation is facs, a list of (prime, exponent). */
  function FacProd(facs: seq<(int, nat)>): int {
    if facs == [] then 1 else Pow(facs[0].0, facs[0].1) * FacProd(facs[1..])
  }

  /** facs lists distinct primes, each with a positive exponent. */
  ghost predicate PrimeFactors(facs: seq<(int, nat)>) {
    (forall i :: 0 <= i < |facs| ==> IsPrime(facs[i].0) && facs[i].1 >= 1) &&
    (forall i, j :: 0 <= i < j < |facs| ==> facs[i].0 != facs[j].0)
  }

  lemma {:induction false} FacProdAppend(facs: seq<(int, nat)>, f: (int, nat))
    ensures FacProd(facs + [f]) == FacProd(facs) * Pow(f.0, f.1)
  {
    if facs != [] {
      assert (facs + [f])[1..] == facs[1..] + [f];
      FacProdAppend(facs[1..], f);
    }
  }

  /** The loop state of the factoring: facs, then bf ** enpow, then v
      multiply to m; the closed primes are distinct, do not divide v and
      differ from bf; and bf is the table entry of v whenever it divides v. */
  ghost predicate Factoring(sfn: seq<int>, m: int, facs: seq<(int, nat)>, enpow: nat, bf: int, v: int) {
    1 <= v <= m < |sfn| &&
    FacProd(facs) * Pow(bf, enpow) * v == m &&
    (bf == 0 ==> facs == [] && enpow == 0 && v == m) &&
    (bf != 0 ==> IsPrime(bf) && enpow >= 1) &&
    (bf != 0 && v >= 2 && Divides(bf, v) ==> sfn[v] == bf) &&
    PrimeFactors(facs) &&
    forall i :: 0 <= i < |facs| ==> !Divides(facs[i].0, v) && facs[i].0 != bf
  }

  /** `facs=[]; enpow=bf=0; v=m`, then divide v by `pf = sfn[v]` until it
      reaches 1, closing the run of bf whenever a new prime appears. */
  method Factor(sfn: seq<int>, m: int) returns (facs: seq<(int, nat)>)
    requires FactorTable(sfn) && 2 <= m < |sfn|
    ensures FacProd(facs) == m
    ensures PrimeFactors(facs)
  {
    facs := [];
    var enpow: nat, bf := 0, 0;
    var v := m;
    while v > 1
      invariant Factoring(sfn, m, facs, enpow, bf, v)
      decreases v
    {
      assert TableAt(sfn, v);
      var pf := sfn[v];
      CofactorBelow(pf, v);
      DivCofactor(pf, v);
      assert v / pf < v by {
        MulStrict(1, pf, v / pf);
      }
      if pf != bf && bf > 0 {
        NewPrime(sfn, m, facs, enpow, bf, v, pf, v / pf);
      } else {
        SamePrime(sfn, m, facs, enpow, bf, v, pf, v / pf);
      }
      v := v / pf;
      enpow := enpow + 1;
      if pf != bf && bf > 0 {
        facs := facs + [(bf, enpow - 1)];
        enpow := 1;
      }
      bf := pf;
    }
    FacProdAppend(facs, (bf, enpow));
    facs := facs + [(bf, enpow)];
  }

  /** Regrouping a product of four factors. */
  lemma Regroup(a: int, b: int, p: int, w: int)
    ensures a * (p * b) * w == a * b * (p * w)
    ensures a * b * p * w == a * b * (p * w)
  {
  }

  /** Dividing v = p * w by p, the closed primes do not divide w or equal p. */
  lemma ClosedPrimes(facs: seq<(int, nat)>, v: int, p: int, w: int)
    requires v == p * w && Divides(p, v) && w >= 1
    requires forall i :: 0 <= i < |facs| ==> !Divides(facs[i].0, v)
    ensures forall i :: 0 <= i < |facs| ==> !Divides(facs[i].0, w) && facs[i].0 != p
  {
    assert v == w * p;
    DividesMul(w, p);
    forall i | 0 <= i < |facs|
      ensures !Divides(facs[i].0, w)
    {
      if Divides(facs[i].0, w) {
        DividesTrans(facs[i].0, w, v);
      }
    }
  }

  /** A step of the factoring that divides v by a new prime p = sfn[v]. */
  lemma NewPrime(sfn: seq<int>, m: int, facs: seq<(int, nat)>, enpow: nat, bf: int, v: int, p: int, w: int)
    requires Factoring(sfn, m, facs, enpow, bf, v) && v >= 2
    requires p == sfn[v] && IsPrime(p) && Divides(p, v) && v == p * w && w == v / p && 1 <= w < v
    requires TableAt(sfn, v) && p != bf && bf > 0
    ensures Factoring(sfn, m, facs + [(bf, enpow)], 1, p, w)
  {
    FacProdAppend(facs, (bf, enpow));
    var f := facs + [(bf, enpow)];
    assert Pow(p, 1) == p;
    Regroup(FacProd(facs), Pow(bf, enpow), p, w);
    assert !Divides(bf, v);
    ClosedPrimes(f, v, p, w);
  }

  /** A step of the factoring that divides v by the current prime p = sfn[v]
      again, or by the first prime. */
  lemma SamePrime(sfn: seq<int>, m: int, facs: seq<(int, nat)>, enpow: nat, bf: int, v: int, p: int, w: int)
    requires Factoring(sfn, m, facs, enpow, bf, v) && v >= 2
    requires p == sfn[v] && IsPrime(p) && Divides(p, v) && v == p * w && w == v / p && 1 <= w < v
    requires TableAt(sfn, v) && (p == bf || bf <= 0)
    ensures Factoring(sfn, m, facs, enpow + 1, p, w)
  {
    if bf == 0 {
      assert Pow(p, 1) == p;
    } else {
      assert Pow(p, enpow + 1) == p * Pow(p, enpow);
      Regroup(FacProd(facs), Pow(bf, enpow), p, w);
    }
    ClosedPrimes(facs, v, p, w);
  }

  // ---------------------------------------------------------------------
  // Powers and prime factorisations

  lemma {:induction false} PowPositive(p: int, e: nat)
    requires p >= 1
    ensures Pow(p, e) >= 1
  {
    if e > 0 {
      PowPositive(p, e - 1);
      MulMono(1, p, Pow(p, e - 1));
    }
  }

  lemma {:induction false} PowAdd(p: int, i: nat, j: nat)
    ensures Pow(p, i + j) == Pow(p, i) * Pow(p, j)
  {
    if i > 0 {
      PowAdd(p, i - 1, j);
      assert Pow(p, i + j) == p * Pow(p, i - 1 + j);
    }
  }

  /** a * c divides b * d when a divides b and c divides d. */
  lemma MulDivides(a: int, b: int, c: int, d: int)
    requires Divides(a, b) && Divides(c, d)
    ensures Divides(a * c, b * d)
  {
    var q, r := b / a, d / c;
    assert b == a * q && d == c * r;
    assert b * d == (a * c) * (q * r);
    MulStrict(0, a, c);
    DividesMul(a * c, q * r);
  }

  /** Cancellation: p * a divides p * b only if a divides b. */
  lemma CancelDivides(p: int, a: int, b: int)
    requires p > 0 && a > 0 && Divides(p * a, p * b)
    ensures Divides(a, b)
  {
    var q := (p * b) / (p * a);
    assert p * b == (p * a) * q;
    assert p * (b - a * q) == 0;
    assert b == a * q;
    DividesMul(a, q);
  }

  /** A prime that does not divide a is coprime to it. */
  lemma PrimeCoprime(p: int, a: nat)
    requires IsPrime(p) && !Divides(p, a)
    ensures Gcd(p, a) == 1
  {
    GcdIsGcd(p, a);
    GcdZero(p, a);
    var g := Gcd(p, a);
    DivisorBound(g, p);
  }

  /** A prime dividing a power of a prime q is q. */
  lemma {:induction false} PrimeDividesPow(p: int, q: int, f: nat)
    requires IsPrime(p) && IsPrime(q) && Divides(p, Pow(q, f))
    ensures p == q
  {
    if f == 0 {
      DivisorBound(p, 1);
    } else if Divides(p, q) {
      DivisorBound(p, q);
    } else {
      PowPositive(q, f - 1);
      PrimeCoprime(p, q);
      Gauss(p, q, Pow(q, f - 1));
      PrimeDividesPow(p, q, f - 1);
    }
  }

  lemma {:induction false} FacProdPositive(facs: seq<(int, nat)>)
    requires forall i :: 0 <= i < |facs| ==> facs[i].0 >= 1
    ensures FacProd(facs) >= 1
  {
    if facs != [] {
      FacProdPositive(facs[1..]);
      PowPositive(facs[0].0, facs[0].1);
      MulMono(1, Pow(facs[0].0, facs[0].1), FacProd(facs[1..]));
    }
  }

  /** A prime that is none of the primes of facs does not divide their product. */
  lemma {:induction false} PrimeNotDividesProd(p: int, facs: seq<(int, nat)>)
    requires IsPrime(p) && PrimeFactors(facs)
    requires forall i :: 0 <= i < |facs| ==> facs[i].0 != p
    ensures !Divides(p, FacProd(facs))
  {
    if facs == [] {
      if Divides(p, 1) {
        DivisorBound(p, 1);
      }
    } else {
      var q, f, rest := facs[0].0, facs[0].1, facs[1..];
      PrimeNotDividesProd(p, rest);
      PowPositive(q, f);
      FacProdPositive(rest);
      if Divides(p, FacProd(facs)) {
        if Divides(p, Pow(q, f)) {
          PrimeDividesPow(p, q, f);
        } else {
          PrimeCoprime(p, Pow(q, f));
          Gauss(p, Pow(q, f), FacProd(rest));
        }
      }
    }
  }

  /** A divisor of p ** e * r, for a prime p not dividing r, is p ** i times
      a divisor of r, with i <= e. */
  lemma {:induction false} DivisorSplit(p: int, e: nat, r: int, x: int) returns (i: nat, y: int)
    requires IsPrime(p) && r >= 1 && !Divides(p, r) && x >= 1 && Divides(x, Pow(p, e) * r)
    ensures i <= e && y >= 1 && Divides(y, r) && x == Pow(p, i) * y
  {
    if e == 0 {
      i, y := 0, x;
    } else {
      PowPositive(p, e - 1);
      var s := Pow(p, e - 1) * r;
      MulMono(1, Pow(p, e - 1), r);
      assert Pow(p, e) * r == p * s;
      if Divides(p, x) {
        var x1 := x / p;
        assert x == p * x1;
        MulPosFactor(p, x1);
        CancelDivides(p, x1, s);
        var i1;
        i1, y := DivisorSplit(p, e - 1, r, x1);
        i := i1 + 1;
        assert Pow(p, i) == p * Pow(p, i1);
      } else {
        PrimeCoprime(p, x);
        GcdSymmetric(p, x);
        Gauss(x, p, s);
        i, y := DivisorSplit(p, e - 1, r, x);
      }
    }
  }

  // ---------------------------------------------------------------------
  // The divisor list of line 63-64

  /** One row of `pows`: `[p**j for j in range(e+1)]`. */
  function PowRow(p: int, e: nat): seq<int> {
    seq(e + 1, j requires 0 <= j => Pow(p, j))
  }

  /** `pows = [[p**j for j in range(e+1)] for p,e in facs]`. */
  function Pows(facs: seq<(int, nat)>): seq<seq<int>> {
    seq(|facs|, i requires 0 <= i < |facs| => PowRow(facs[i].0, facs[i].1))
  }

  /** Every element of l multiplied by x. */
  function Scale(x: int, l: seq<int>): seq<int> {
    seq(|l|, i requires 0 <= i < |l| => x * l[i])
  }

  /** The products row[i] * tail[k], row entry by row entry. */
  function Cross(row: seq<int>, tail: seq<int>): seq<int> {
    if row == [] then [] else Scale(row[0], tail) + Cross(row[1..], tail)
  }

  /** `map(prod, product(*pows))`: one product per choice of an entry from
      each row; only the contents matter, since the list is sorted next. */
  function Products(pows: seq<seq<int>>): seq<int> {
    if pows == [] then [1] else Cross(pows[0], Products(pows[1..]))
  }

  lemma {:induction false} CrossIn(row: seq<int>, tail: seq<int>, i: int, k: int)
    requires 0 <= i < |row| && 0 <= k < |tail|
    ensures row[i] * tail[k] in Cross(row, tail)
  {
    if i > 0 {
      CrossIn(row[1..], tail, i - 1, k);
    } else {
      assert Scale(row[0], tail)[k] == row[i] * tail[k];
    }
  }

  lemma {:induction false} CrossOut(row: seq<int>, tail: seq<int>, x: int) returns (i: int, k: int)
    requires x in Cross(row, tail)
    ensures 0 <= i < |row| && 0 <= k < |tail| && x == row[i] * tail[k]
  {
    if x in Scale(row[0], tail) {
      i :| 0 <= i < |tail| && Scale(row[0], tail)[i] == x;
      k := i;
      i := 0;
    } else {
      i, k := CrossOut(row[1..], tail, x);
      i := i + 1;
    }
  }

  lemma PowsTail(facs: seq<(int, nat)>)
    requires facs != []
    ensures Pows(facs)[0] == PowRow(facs[0].0, facs[0].1)
    ensures Pows(facs)[1..] == Pows(facs[1..])
  {
  }

  /** Every product is a positive divisor of the number factored. */
  lemma {:induction false} ProductsDivide(facs: seq<(int, nat)>, x: int)
    requires forall i :: 0 <= i < |facs| ==> facs[i].0 >= 1
    requires x in Products(Pows(facs))
    ensures x >= 1 && Divides(x, FacProd(facs))
  {
    if facs == [] {
      DividesMul(1, 1);
    } else {
      var p, e, rest := facs[0].0, facs[0].1, facs[1..];
      PowsTail(facs);
      var i, k := CrossOut(PowRow(p, e), Products(Pows(rest)), x);
      var y := Products(Pows(rest))[k];
      ProductsDivide(rest, y);
      PowPositive(p, i);
      PowAdd(p, i, e - i);
      PowPositive(p, e - i);
      DividesMul(Pow(p, i), Pow(p, e - i));
      MulDivides(Pow(p, i), Pow(p, e), y, FacProd(rest));
      MulMono(1, Pow(p, i), y);
    }
  }

  /** Every positive divisor of the number factored is a product. */
  lemma {:induction false} DivisorsAreProducts(facs: seq<(int, nat)>, x: int)
    requires PrimeFactors(facs)
    requires x >= 1 && Divides(x, FacProd(facs))
    ensures x in Products(Pows(facs))
  {
    if facs == [] {
      DivisorBound(x, 1);
    } else {
      var p, e, rest := facs[0].0, facs[0].1, facs[1..];
      PowsTail(facs);
      assert PrimeFactors(rest);
      PrimeNotDividesProd(p, rest);
      FacProdPositive(rest);
      var i, y := DivisorSplit(p, e, FacProd(rest), x);
      DivisorsAreProducts(rest, y);
      var k :| 0 <= k < |Products(Pows(rest))| && Products(Pows(rest))[k] == y;
      CrossIn(PowRow(p, e), Products(Pows(rest)), i, k);
    }
  }

  /** The elements of l that are at most b, in order (`if x <= m*n`). */
  function Filter(l: seq<int>, b: int): (r: seq<int>)
    ensures forall x :: x in r <==> x in l && x <= b
  {
    if l == [] then []
    else
      assert l == [l[0]] + l[1..];
      (if l[0] <= b then [l[0]] else []) + Filter(l[1..], b)
  }

  predicate Ascending(l: seq<int>) {
    forall i, j :: 0 <= i < j < |l| ==> l[i] <= l[j]
  }

  /** Insert x before the first element not smaller than x. */
  function InsertAsc(x: int, l: seq<int>): (r: seq<int>)
    ensures multiset(r) == multiset(l) + multiset{x}
  {
    if l == [] || x <= l[0] then [x] + l
    else
      assert l == [l[0]] + l[1..];
      [l[0]] + InsertAsc(x, l[1..])
  }

  /** `sorted` on integers, as an insertion sort. */
  function SortAsc(l: seq<int>): (r: seq<int>)
    ensures multiset(r) == multiset(l)
  {
    if l == [] then []
    else
      assert l == [l[0]] + l[1..];
      InsertAsc(l[0], SortAsc(l[1..]))
  }

  lemma {:induction false} InsertAscSorted(x: int, l: seq<int>)
    requires Ascending(l)
    ensures Ascending(InsertAsc(x, l))
  {
    if l != [] && x > l[0] {
      InsertAscSorted(x, l[1..]);
      var r := InsertAsc(x, l);
      assert r == [l[0]] + InsertAsc(x, l[1..]);
      forall k | 0 <= k < |r|
        ensures l[0] <= r[k]
      {
        if k > 0 {
          assert r[k] in multiset(InsertAsc(x, l[1..]));
          assert r[k] in multiset(l[1..]) || r[k] == x;
        }
      }
    }
  }

  lemma {:induction false} SortAscSorted(l: seq<int>)
    ensures Ascending(SortAsc(l))
  {
    if l != [] {
      SortAscSorted(l[1..]);
      InsertAscSorted(l[0], SortAsc(l[1..]));
    }
  }

  /** `divs`: the products of the prime powers that are at most b, sorted. */
  function Divisors(facs: seq<(int, nat)>, b: int): seq<int> {
    SortAsc(Filter(Products(Pows(facs)), b))
  }

  /** For a prime factorisation of m, `divs` is the ascending list of the
      divisors of m that are at most b. */
  lemma DivisorsAre(facs: seq<(int, nat)>, m: int, b: int)
    requires PrimeFactors(facs) && FacProd(facs) == m
    ensures Ascending(Divisors(facs, b))
    ensures forall x :: x in Divisors(facs, b) <==> 1 <= x <= b && Divides(x, m)
  {
    var l := Products(Pows(facs));
    SortAscSorted(Filter(l, b));
    forall x
      ensures x in Divisors(facs, b) <==> 1 <= x <= b && Divides(x, m)
    {
      assert x in Divisors(facs, b) <==> x in multiset(Filter(l, b));
      if x in l {
        ProductsDivide(facs, x);
      }
      if 1 <= x && Divides(x, m) {
        DivisorsAreProducts(facs, x);
      }
    }
  }

  // ---------------------------------------------------------------------
  // The divisor list is the ascending list of divisors

  /** No value occurs twice in l. */
  predicate NoDup(l: seq<int>) {
    forall i, j :: 0 <= i < j < |l| ==> l[i] != l[j]
  }

  lemma NoDupCons(a: int, l: seq<int>)
    ensures NoDup([a] + l) <==> a !in l && NoDup(l)
  {
    var r := [a] + l;
    if a in l {
      var k :| 0 <= k < |l| && l[k] == a;
      assert r[0] == r[k + 1];
    }
    if a !in l && NoDup(l) {
      forall i, j | 0 <= i < j < |r|
        ensures r[i] != r[j]
      {
        if i > 0 {
          assert r[i] == l[i - 1] && r[j] == l[j - 1];
        } else {
          assert r[j] == l[j - 1];
        }
      }
    }
    if NoDup(r) {
      forall i, j | 0 <= i < j < |l|
        ensures l[i] != l[j]
      {
        assert l[i] == r[i + 1] && l[j] == r[j + 1];
      }
    }
  }

  lemma NoDupConcat(a: seq<int>, b: seq<int>)
    requires NoDup(a) && NoDup(b) && forall x :: x in a ==> x !in b
    ensures NoDup(a + b)
  {
    var r := a + b;
    forall i, j | 0 <= i < j < |r|
      ensures r[i] != r[j]
    {
      if j >= |a| && i < |a| {
        assert r[i] in a && r[j] == b[j - |a|];
      } else if i >= |a| {
        assert r[i] == b[i - |a|] && r[j] == b[j - |a|];
      }
    }
  }

  lemma ScaleDistinct(c: int, l: seq<int>)
    requires c != 0 && NoDup(l)
    ensures NoDup(Scale(c, l))
  {
    var r := Scale(c, l);
    forall i, j | 0 <= i < j < |r|
      ensures r[i] != r[j]
    {
      Cancel(c, l[i], l[j]);
    }
  }

  /** Multiplication by a non-zero number is injective. */
  lemma Cancel(c: int, y: int, w: int)
    requires c != 0
    ensures c * y == c * w ==> y == w
  {
    assert c * y - c * w == c * (y - w);
  }

  /** p ** lo * y never equals p ** (lo + 1 + i) * z when p does not divide y. */
  lemma PowersApart(p: int, lo: nat, i: nat, y: int, z: int)
    requires IsPrime(p) && !Divides(p, y)
    ensures Pow(p, lo) * y != Pow(p, lo + 1 + i) * z
  {
    PowPositive(p, lo);
    PowAdd(p, lo, 1 + i);
    var a, c, w := Pow(p, lo), Pow(p, 1 + i), Pow(p, i) * z;
    assert c == p * Pow(p, i);
    assert c * z == p * w;
    assert a * c * z == a * (c * z);
    Cancel(a, y, c * z);
    DividesMul(p, w);
  }

  /** The products with a row p ** lo, p ** (lo + 1), ... are distinct when
      the tail is, and p divides none of the tail. */
  lemma {:induction false} CrossDistinct(row: seq<int>, tail: seq<int>, p: int, lo: nat)
    requires IsPrime(p) && NoDup(tail)
    requires forall k :: 0 <= k < |tail| ==> !Divides(p, tail[k])
    requires forall i :: 0 <= i < |row| ==> row[i] == Pow(p, lo + i)
    ensures NoDup(Cross(row, tail))
    decreases |row|
  {
    if row != [] {
      var a, b := Scale(row[0], tail), Cross(row[1..], tail);
      CrossDistinct(row[1..], tail, p, lo + 1);
      PowPositive(p, lo);
      ScaleDistinct(row[0], tail);
      forall x | x in a
        ensures x !in b
      {
        var k :| 0 <= k < |a| && a[k] == x;
        if x in b {
          var i, k1 := CrossOut(row[1..], tail, x);
          assert row[1..][i] == Pow(p, lo + 1 + i);
          PowersApart(p, lo, i, tail[k], tail[k1]);
        }
      }
      NoDupConcat(a, b);
    }
  }

  /** The products of a prime factorisation are distinct. */
  lemma {:induction false} ProductsDistinct(facs: seq<(int, nat)>)
    requires PrimeFactors(facs)
    ensures NoDup(Products(Pows(facs)))
  {
    if facs != [] {
      var p, e, rest := facs[0].0, facs[0].1, facs[1..];
      PowsTail(facs);
      assert PrimeFactors(rest);
      ProductsDistinct(rest);
      var tail := Products(Pows(rest));
      PrimeNotDividesProd(p, rest);
      forall k | 0 <= k < |tail|
        ensures !Divides(p, tail[k])
      {
        ProductsDivide(rest, tail[k]);
        if Divides(p, tail[k]) {
          DividesTrans(p, tail[k], FacProd(rest));
        }
      }
      CrossDistinct(PowRow(p, e), tail, p, 0);
    }
  }

  lemma {:induction false} FilterDistinct(l: seq<int>, b: int)
    requires NoDup(l)
    ensures NoDup(Filter(l, b))
  {
    if l != [] {
      assert l == [l[0]] + l[1..];
      NoDupCons(l[0], l[1..]);
      FilterDistinct(l[1..], b);
      if l[0] <= b {
        NoDupCons(l[0], Filter(l[1..], b));
      }
    }
  }

  lemma {:induction false} InsertAscDistinct(x: int, l: seq<int>)
    requires NoDup(l) && x !in l
    ensures NoDup(InsertAsc(x, l))
  {
    if l == [] || x <= l[0] {
      NoDupCons(x, l);
    } else {
      assert l == [l[0]] + l[1..];
      NoDupCons(l[0], l[1..]);
      InsertAscDistinct(x, l[1..]);
      assert l[0] !in multiset(InsertAsc(x, l[1..]));
      NoDupCons(l[0], InsertAsc(x, l[1..]));
    }
  }

  lemma {:induction false} SortAscDistinct(l: seq<int>)
    requires NoDup(l)
    ensures NoDup(SortAsc(l))
  {
    if l != [] {
      assert l == [l[0]] + l[1..];
      NoDupCons(l[0], l[1..]);
      SortAscDistinct(l[1..]);
      assert l[0] !in multiset(SortAsc(l[1..]));
      InsertAscDistinct(l[0], SortAsc(l[1..]));
    }
  }

  /** The divisors of m from lo to hi, in ascending order: the reference
      definition of the divisor list. */
  function DivisorsIn(m: int, lo: int, hi: int): seq<int>
    decreases hi - lo
  {
    if lo > hi then [] else (if Divides(lo, m) then [lo] else []) + DivisorsIn(m, lo + 1, hi)
  }

  lemma {:induction false} DivisorsInIs(m: int, lo: int, hi: int)
    ensures Increasing(DivisorsIn(m, lo, hi))
    ensures forall x :: x in DivisorsIn(m, lo, hi) <==> lo <= x <= hi && Divides(x, m)
    decreases hi - lo
  {
    if lo <= hi {
      DivisorsInIs(m, lo + 1, hi);
      var rest := DivisorsIn(m, lo + 1, hi);
      forall k | 0 <= k < |rest|
        ensures lo < rest[k]
      {
        assert rest[k] in rest;
      }
    }
  }

  /** Two increasing lists with the same elements are equal. */
  lemma {:induction false} IncreasingUnique(a: seq<int>, b: seq<int>)
    requires Increasing(a) && Increasing(b)
    requires forall x :: x in a <==> x in b
    ensures a == b
  {
    assert a != [] ==> a[0] in a && a[0] in b;
    assert b != [] ==> b[0] in b && b[0] in a;
    if a != [] && b != [] {
      if a[0] != b[0] {
        assert false;
      }
      forall x
        ensures x in a[1..] <==> x in b[1..]
      {
        if x in a[1..] {
          var i :| 1 <= i < |a| && a[i] == x;
          assert x != b[0] && x in b;
        }
        if x in b[1..] {
          var i :| 1 <= i < |b| && b[i] == x;
          assert x != a[0] && x in a;
        }
      }
      IncreasingUnique(a[1..], b[1..]);
      assert a == [a[0]] + a[1..] && b == [b[0]] + b[1..];
    }
  }

  /** For a prime factorisation of m, `divs` is exactly the ascending list
      of the divisors of m up to b. */
  lemma DivisorsExact(facs: seq<(int, nat)>, m: int, b: int)
    requires PrimeFactors(facs) && FacProd(facs) == m
    ensures Divisors(facs, b) == DivisorsIn(m, 1, b)
  {
    var l := Divisors(facs, b);
    DivisorsAre(facs, m, b);
    ProductsDistinct(facs);
    FilterDistinct(Products(Pows(facs)), b);
    SortAscDistinct(Filter(Products(Pows(facs)), b));
    DivisorsInIs(m, 1, b);
    IncreasingUnique(l, DivisorsIn(m, 1, b));
  }

  // ---------------------------------------------------------------------
  // The test of lines 67-73

  /** Each divisor after the first is at most one more than the sum of the
      divisors before it in the list. */
  predicate PrefixOk(divs: seq<int>) {
    forall j :: 1 <= j < |divs| ==> divs[j] - 1 <= Sum(divs[..j])
  }

  /** `fsum = divs[0]`, then for each later divisor: fail if
      `fsum < divs[j]-1`, else add it to fsum. */
  method PrefixTest(divs: seq<int>) returns (prac: bool)
    requires |divs| > 0
    ensures prac <==> PrefixOk(divs)
  {
    var fsum := divs[0];
    assert divs[..1] == [divs[0]];
    prac := true;
    var j := 1;
    while j < |divs|
      invariant 1 <= j <= |divs|
      invariant fsum == Sum(divs[..j])
      invariant forall i :: 1 <= i < j ==> divs[i] - 1 <= Sum(divs[..i])
    {
      if fsum < divs[j] - 1 {
        prac := false;
        break;
      }
      assert divs[..j + 1] == divs[..j] + [divs[j]];
      SumSnoc(divs[..j], divs[j]);
      fsum := fsum + divs[j];
      j := j + 1;
    }
  }

  // ---------------------------------------------------------------------
  // nextPrac, lines 43-74

  /** `max(2*(d//4), 2+((u-2)&(~1)), 6)`: clearing the low bit rounds u - 2
      down to an even number. */
  function Start(d: int, u: int): int {
    Max(Max(2 * (d / 4), 2 + ((u - 2) - (u - 2) % 2)), 6)
  }

  /** The start is even, at least 6 and at least u - 1 (u itself when u is
      even); twice it exceeds d - 4. */
  lemma StartBounds(d: int, u: int)
    ensures Start(d, u) % 2 == 0 && Start(d, u) >= 6
    ensures Start(d, u) >= u - 1 && (u % 2 == 0 ==> Start(d, u) >= u)
    ensures 2 * Start(d, u) > d - 4
  {
    var a, b := 2 * (d / 4), 2 + ((u - 2) - (u - 2) % 2);
    DivUnique(a, 2, d / 4, 0);
    DivUnique(b, 2, 1 + (u - 2) / 2, 0);
    DivUnique(6, 2, 3, 0);
  }

  /** The filter of line 49: m is a multiple of 4 or 6 and coprime to d. */
  predicate Candidate(m: nat, d: nat) {
    (m % 4 == 0 || m % 6 == 0) && Gcd(m, d) == 1
  }

  /** 2 is coprime to an odd number. */
  lemma TwoCoprime(d: nat)
    requires d % 2 == 1
    ensures Gcd(2, d) == 1
  {
    assert Gcd(2, d) == GcdStep(2, d) == Gcd(1, 2);
    assert Gcd(1, 2) == GcdStep(1, 2) == Gcd(0, 1);
  }

  /** A power of two at least m: it passes the filter for odd d, so the
      loop of line 49 stops at the latest there. */
  lemma {:induction false} PowerAbove(p: int, m: int, d: int) returns (top: int)
    requires p >= 4 && p % 4 == 0 && d > 0 && d % 2 == 1 && Gcd(p, d) == 1
    ensures top >= m && top >= p && top % 4 == 0 && Gcd(top, d) == 1
    decreases m - p
  {
    if p >= m {
      top := p;
    } else {
      TwoCoprime(d);
      CoprimeMul(2, p, d);
      top := PowerAbove(2 * p, m, d);
    }
  }

  /** The outcome of `nextPrac`: m with its divisor list, or the IndexError
      of a lookup past the end of the table or into an empty list. */
  datatype Next = Next(m: int, divs: seq<int>) | IndexError(m: int)

  /** The m that `nextPrac` accepts: a candidate whose divisor list up to
      m * n passes the prefix-sum test. */
  ghost predicate Accepted(m: int, d: int, n: int) {
    m >= 0 && d >= 0 && Candidate(m, d) && PrefixOk(DivisorsIn(m, 1, m * n))
  }

  /** No even number in [lo, hi) is accepted. */
  ghost predicate Rejected(d: int, n: int, lo: int, hi: int) {
    forall x :: lo <= x < hi && x % 2 == 0 ==> !Accepted(x, d, n)
  }

  /** Rejected ranges grow by the even numbers that are no candidates, and
      by one even number that fails the test. */
  lemma RejectedGrow(d: int, n: int, lo: int, mid: int, hi: int)
    requires Rejected(d, n, lo, mid) && 0 <= mid <= hi && d >= 0
    requires forall x :: mid <= x < hi && x % 2 == 0 ==> !Candidate(x, d)
    ensures Rejected(d, n, lo, hi)
  {
  }

  lemma RejectedStep(d: int, n: int, lo: int, m: int)
    requires Rejected(d, n, lo, m) && m % 2 == 0 && !Accepted(m, d, n)
    ensures Rejected(d, n, lo, m + 2)
  {
    DivUnique(m + 1, 2, m / 2, 1);
  }

  /** 1 is always in the divisor list when n is positive. */
  lemma DivisorsNonEmpty(m: int, n: int)
    requires m >= 1
    ensures n >= 1 ==> DivisorsIn(m, 1, m * n) != []
  {
    if n >= 1 {
      MulMono(1, n, m);
      DividesMul(1, m);
    }
  }

  /** From `Start(d, u)` upwards through even numbers: skip to the next
      candidate, list its divisors up to m * n, and stop at the first one
      that passes the prefix-sum test. */
  method NextPrac(sfn: seq<int>, d: int, u: int, n: int) returns (r: Next)
    requires FactorTable(sfn) && d > 0 && d % 2 == 1
    ensures Start(d, u) <= r.m && r.m % 2 == 0 && Rejected(d, n, Start(d, u), r.m)
    ensures r.Next? ==> r.m < |sfn| && Accepted(r.m, d, n) && r.divs == DivisorsIn(r.m, 1, r.m * n)
    ensures r.IndexError? ==> r.m >= |sfn| || n < 1
  {
    var m := Start(d, u);
    StartBounds(d, u);
    while true
      invariant Start(d, u) <= m && m % 2 == 0 && Rejected(d, n, Start(d, u), m)
      decreases |sfn| + 2 - m
    {
      ghost var m0 := m;
      m := SkipToCandidate(d, m);
      RejectedGrow(d, n, Start(d, u), m0, m);
      if m >= |sfn| {
        return IndexError(m);
      }
      var divs, prac := Examine(sfn, m, n);
      if divs == [] {
        return IndexError(m);
      }
      if prac {
        return Next(m, divs);
      }
      RejectedStep(d, n, Start(d, u), m);
      m := m + 2;
    }
  }

  /** Lines 52-73 for one candidate m: its divisor list, and whether the
      list passes the prefix-sum test (the list is empty only for n < 1,
      where `divs[0]` raises). */
  method Examine(sfn: seq<int>, m: int, n: int) returns (divs: seq<int>, prac: bool)
    requires FactorTable(sfn) && 2 <= m < |sfn|
    ensures divs == DivisorsIn(m, 1, m * n)
    ensures divs == [] ==> n < 1
    ensures divs != [] ==> (prac <==> PrefixOk(divs))
  {
    divs := ListDivisors(sfn, m, m * n);
    DivisorsNonEmpty(m, n);
    if divs == [] {
      return divs, false;
    }
    prac := PrefixTest(divs);
  }

  /** Line 49-50: `while (m%4>0 and m%6>0) or (gcd(m,d) > 1): m += 2`. */
  method SkipToCandidate(d: int, m0: int) returns (m: int)
    requires d > 0 && d % 2 == 1 && m0 >= 0 && m0 % 2 == 0
    ensures m0 <= m && m % 2 == 0 && Candidate(m, d)
    ensures forall x :: m0 <= x < m && x % 2 == 0 ==> !Candidate(x, d)
  {
    TwoCoprime(d);
    CoprimeMul(2, 2, d);
    ghost var top := PowerAbove(4, m0, d);
    m := m0;
    while (m % 4 > 0 && m % 6 > 0) || Gcd(m, d) > 1
      invariant m0 <= m <= top && m % 2 == 0
      invariant forall x :: m0 <= x < m && x % 2 == 0 ==> !Candidate(x, d)
      decreases top - m
    {
      EvenStep(m, top);
      SkipStep(d, m0, m);
      m := m + 2;
    }
    GcdZero(m, d);
  }

  /** Skipping the even number m that is no candidate. */
  lemma SkipStep(d: int, m0: int, m: int)
    requires d > 0 && 0 <= m0 <= m && m % 2 == 0 && !Candidate(m, d)
    requires forall x :: m0 <= x < m && x % 2 == 0 ==> !Candidate(x, d)
    ensures forall x :: m0 <= x < m + 2 && x % 2 == 0 ==> !Candidate(x, d)
  {
    DivUnique(m + 1, 2, m / 2, 1);
  }

  /** An even number below a multiple of 4 is at least 2 below it. */
  lemma EvenStep(m: int, top: int)
    requires m % 2 == 0 && top % 4 == 0 && m < top
    ensures (m + 2) % 2 == 0 && m + 2 <= top
  {
    DivUnique(m + 2, 2, m / 2 + 1, 0);
    DivUnique(top, 2, 2 * (top / 4), 0);
  }

  /** Lines 52-64: factor m with the table and list its divisors up to b. */
  method ListDivisors(sfn: seq<int>, m: int, b: int) returns (divs: seq<int>)
    requires FactorTable(sfn) && 2 <= m < |sfn|
    ensures divs == DivisorsIn(m, 1, b)
  {
    var facs := Factor(sfn, m);
    divs := Divisors(facs, b);
    DivisorsExact(facs, m, b);
  }

  // ---------------------------------------------------------------------
  // findSols, lines 76-85

  /** The outcome of `findSols`: its (always empty) solution list together
      with the multipliers m it reported, or the IndexError of `nextPrac`. */
  datatype Run = Run(sols: seq<seq<int>>, ms: seq<int>) | Aborted(m: int)

  /** The multiplier reported before the i-th one (4 before the first). */
  function Previous(ms: seq<int>, i: int): int
    requires 0 <= i <= |ms|
  {
    if i == 0 then 4 else ms[i - 1]
  }

  /** Each m reported is the least even number accepted from
      `Start(d, previous + 2)` on, and lies inside the table. */
  ghost predicate Multipliers(ms: seq<int>, d: int, n: int, size: int) {
    forall i {:trigger Previous(ms, i)} :: 0 <= i < |ms| ==>
      Start(d, Previous(ms, i) + 2) <= ms[i] < size && ms[i] % 2 == 0 &&
      Accepted(ms[i], d, n) && Rejected(d, n, Start(d, Previous(ms, i) + 2), ms[i])
  }

  lemma MultipliersSnoc(ms: seq<int>, d: int, n: int, size: int, x: int)
    requires Multipliers(ms, d, n, size)
    requires Start(d, Previous(ms, |ms|) + 2) <= x < size && x % 2 == 0
    requires Accepted(x, d, n) && Rejected(d, n, Start(d, Previous(ms, |ms|) + 2), x)
    ensures Multipliers(ms + [x], d, n, size)
  {
    var l := ms + [x];
    forall i | 0 <= i < |l|
      ensures Start(d, Previous(l, i) + 2) <= l[i] < size && l[i] % 2 == 0
      ensures Accepted(l[i], d, n) && Rejected(d, n, Start(d, Previous(l, i) + 2), l[i])
    {
      if i < |ms| {
        assert Previous(l, i) == Previous(ms, i) && l[i] == ms[i];
      }
    }
  }

  /** The multipliers reported increase strictly. */
  lemma MultipliersIncrease(ms: seq<int>, d: int, n: int, size: int)
    requires Multipliers(ms, d, n, size)
    ensures Increasing(ms)
  {
    forall i | 0 <= i < |ms| - 1
      ensures ms[i] < ms[i + 1]
    {
      assert Previous(ms, i + 1) == ms[i] && Previous(ms, i) <= ms[i];
      DivUnique(ms[i] + 2, 2, ms[i] / 2 + 1, 0);
      StartBounds(d, ms[i] + 2);
    }
    forall i, j | 0 <= i < j < |ms|
      ensures ms[i] < ms[j]
    {
      var k := i + 1;
      while k < j
        invariant i < k <= j && ms[i] < ms[k]
      {
        k := k + 1;
      }
    }
  }

  /** Reduce n/d to lowest terms, then ask `nextPrac` 11 times for the next
      multiplier, each time above the previous one (k is not used). */
  method FindSols(sfn: seq<int>, n: int, d: int, k: int) returns (r: Run)
    requires FactorTable(sfn) && n > 0 && d > 0
    requires Gcd(n, d) > 0 && (d / Gcd(n, d)) % 2 == 1
    ensures r.Run? ==> r.sols == [] && |r.ms| == 11
    ensures r.Run? ==> Multipliers(r.ms, d / Gcd(n, d), n / Gcd(n, d), |sfn|)
    ensures r.Run? ==> Increasing(r.ms)
    ensures r.Aborted? ==> r.m >= |sfn|
  {
    var g := Euclid(n, d);
    ReducedCoprime(n, d);
    var n1, d1 := n / g, d / g;
    MulPosFactor(g, n1);
    var m := 4;
    var ms := [];
    var j := 0;
    while j < 11
      invariant 0 <= j <= 11 && |ms| == j
      invariant m == Previous(ms, j)
      invariant Multipliers(ms, d1, n1, |sfn|)
    {
      var next := NextPrac(sfn, d1, m + 2, n1);
      if next.IndexError? {
        return Aborted(next.m);
      }
      MultipliersSnoc(ms, d1, n1, |sfn|, next.m);
      m := next.m;
      ms := ms + [m];
      j := j + 1;
    }
    MultipliersIncrease(ms, d1, n1, |sfn|);
    return Run([], ms);
  }
}
