/** Euclid's algorithm on non-negative integers, as used by the search,
    the greedy expander and the practical-number helper. */
module Divisibility {
  import opened Arith

  /** c is a positive divisor of x. */
  predicate Divides(c: int, x: int) {
    c > 0 && x % c == 0
  }

  /** The recursive definition of Euclid's algorithm: gcd(0, b) = b. */
  function Gcd(a: nat, b: nat): nat
    decreases a, 1
  {
    if a == 0 then b else GcdStep(a, b)
  }

  /** One step of Euclid's algorithm: gcd(a, b) = gcd(b mod a, a). */
  function GcdStep(a: nat, b: nat): nat
    requires a > 0
    decreases a, 0
  {
    Gcd(b % a, a)
  }

  /** g is the greatest common divisor of a and b in the divisibility order. */
  ghost predicate IsGcd(g: int, a: int, b: int) {
    Divides(g, a) && Divides(g, b) &&
    forall c: int :: Divides(c, a) && Divides(c, b) ==> Divides(c, g)
  }

  /** The iterative form: `while a: a, b = b % a, a`. */
  method Euclid(a0: nat, b0: nat) returns (g: nat)
    ensures g == Gcd(a0, b0)
    ensures a0 == 0 ==> g == b0
    ensures g == 0 <==> a0 == 0 && b0 == 0
  {
    var a, b := a0, b0;
    while a != 0
      invariant Gcd(a, b) == Gcd(a0, b0)
      decreases a
    {
      a, b := b % a, a;
    }
    g := b;
    GcdZero(a0, b0);
  }

  /** A positive multiple of c is divisible by c. */
  lemma DividesMul(c: int, k: int)
    requires c > 0
    ensures Divides(c, c * k)
  {
    MulDiv(c, k);
  }

  /** If c divides x, then x / c is the exact cofactor. */
  lemma DivCofactor(c: int, x: int)
    requires Divides(c, x)
    ensures x == c * (x / c)
  {
  }

  /** Divisibility by c is closed under x - m * y. */
  lemma DividesLinear(c: int, x: int, y: int, m: int)
    requires Divides(c, x) && Divides(c, y)
    ensures Divides(c, x - m * y) && Divides(c, x + m * y)
  {
    var qx, qy := x / c, y / c;
    assert x == c * qx;
    assert y == c * qy;
    assert x - m * y == c * (qx - m * qy);
    assert x + m * y == c * (qx + m * qy);
    DividesMul(c, qx - m * qy);
    DividesMul(c, qx + m * qy);
  }

  /** The common divisors of (a, b) and of (b % a, a) are the same. */
  lemma CommonDivisorsOfStep(c: int, a: nat, b: nat)
    requires a > 0
    ensures Divides(c, a) && Divides(c, b) <==> Divides(c, b % a) && Divides(c, a)
  {
    var m := b / a;
    assert b % a == b - m * a;
    if Divides(c, a) && Divides(c, b) {
      DividesLinear(c, b, a, m);
    }
    if Divides(c, b % a) && Divides(c, a) {
      DividesLinear(c, b % a, a, m);
    }
  }

  /** Gcd(a, b) divides both arguments and every common divisor divides it. */
  lemma {:induction false} GcdIsGcd(a: nat, b: nat)
    requires a > 0 || b > 0
    ensures IsGcd(Gcd(a, b), a, b)
    decreases a
  {
    if a == 0 {
      assert Divides(b, 0);
    } else {
      GcdIsGcd(b % a, a);
      var g := Gcd(a, b);
      assert g == GcdStep(a, b) == Gcd(b % a, a);
      CommonDivisorsOfStep(g, a, b);
      forall c: int | Divides(c, a) && Divides(c, b)
        ensures Divides(c, g)
      {
        CommonDivisorsOfStep(c, a, b);
      }
    }
  }

  lemma {:induction false} GcdZero(a: nat, b: nat)
    ensures Gcd(a, b) == 0 <==> a == 0 && b == 0
    decreases a
  {
    if a != 0 {
      GcdZero(b % a, a);
    }
  }

  /** A divisor of a positive number is at most that number. */
  lemma DivisorBound(c: int, x: int)
    requires x > 0 && Divides(c, x)
    ensures c <= x
  {
    var q := x / c;
    assert x == c * q;
    if q <= 0 {
      MulMono(q, 0, c);
    } else {
      MulGe(c, q);
    }
  }

  /** Dividing a and b by their gcd leaves coprime numbers. */
  lemma ReducedCoprime(a: nat, b: nat)
    requires a > 0 || b > 0
    ensures Gcd(a, b) > 0
    ensures a % Gcd(a, b) == 0 && b % Gcd(a, b) == 0
    ensures a == Gcd(a, b) * (a / Gcd(a, b)) && b == Gcd(a, b) * (b / Gcd(a, b))
    ensures Gcd(a / Gcd(a, b), b / Gcd(a, b)) == 1
  {
    GcdZero(a, b);
    GcdIsGcd(a, b);
    var g := Gcd(a, b);
    var a1: nat, b1: nat := a / g, b / g;
    assert a == g * a1 && b == g * b1;
    GcdZero(a1, b1);
    GcdIsGcd(a1, b1);
    var h := Gcd(a1, b1);
    ScaledDivisor(h, g, a1);
    ScaledDivisor(h, g, b1);
    assert Divides(h * g, g);
    DivisorBound(h * g, g);
    if h > 1 {
      MulStrict(1, h, g);
    }
  }

  /** If h divides y, then h * g divides g * y. */
  lemma ScaledDivisor(h: int, g: int, y: int)
    requires g > 0 && Divides(h, y)
    ensures Divides(h * g, g * y)
  {
    var q := y / h;
    assert y == h * q;
    assert g * y == (h * g) * q;
    DividesMul(h * g, q);
  }

  /** a and a * t are coprime only when a is 1. */
  lemma CoprimeMultiple(a: nat, t: int)
    requires a > 0
    ensures a * t >= 0 && Gcd(a, a * t) == 1 ==> a == 1
  {
    if a * t >= 0 && Gcd(a, a * t) == 1 {
      DividesMul(a, t);
      CoprimeDivisor(a, a * t);
    }
  }

  /** In lowest terms a/b, a divides b only when a is 1. */
  lemma CoprimeDivisor(a: nat, b: nat)
    requires a > 0 && Gcd(a, b) == 1 && Divides(a, b)
    ensures a == 1
  {
    GcdIsGcd(a, b);
    assert Divides(a, a);
    assert Divides(a, 1);
    DivisorBound(a, 1);
  }

  lemma DividesTrans(a: int, b: int, c: int)
    requires Divides(a, b) && Divides(b, c)
    ensures Divides(a, c)
  {
    var q, r := b / a, c / b;
    assert b == a * q && c == b * r;
    assert c == a * (q * r);
    DividesMul(a, q * r);
  }

  /** Euclid's algorithm commutes with scaling: gcd(k*a, k*b) = k * gcd(a, b). */
  lemma {:induction false} GcdScale(k: nat, a: nat, b: nat)
    requires k > 0
    ensures Gcd(k * a, k * b) == k * Gcd(a, b)
    decreases a
  {
    if a > 0 {
      var q, r := b / a, b % a;
      MulStrict(0, a, k);
      assert k * b == (k * a) * q + k * r;
      MulStrict(r, a, k);
      DivUnique(k * b, k * a, q, k * r);
      GcdScale(k, r, a);
      assert Gcd(k * a, k * b) == GcdStep(k * a, k * b) == Gcd(k * r, k * a);
      assert Gcd(a, b) == GcdStep(a, b) == Gcd(r, a);
    }
  }

  /** Gauss's lemma: a divisor of b * c that is coprime to b divides c. */
  lemma Gauss(a: nat, b: nat, c: nat)
    requires a > 0 && Gcd(a, b) == 1 && Divides(a, b * c)
    ensures Divides(a, c)
  {
    if c > 0 {
      var x, y := c * a, c * b;
      assert y == b * c;
      MulStrict(0, a, c);
      GcdScale(c, a, b);
      assert Gcd(x, y) == c;
      GcdIsGcd(x, y);
      DividesMul(a, c);
      assert x == a * c;
      assert Divides(a, x) && Divides(a, y);
    }
  }

  /** Gcd is symmetric. */
  lemma GcdSymmetric(a: nat, b: nat)
    requires a > 0 || b > 0
    ensures Gcd(a, b) == Gcd(b, a)
  {
    GcdIsGcd(a, b);
    GcdIsGcd(b, a);
    GcdZero(a, b);
    GcdZero(b, a);
    var g, h := Gcd(a, b), Gcd(b, a);
    assert Divides(g, h) && Divides(h, g);
    DivisorBound(g, h);
    DivisorBound(h, g);
  }

  /** A product of two numbers coprime to d is coprime to d. */
  lemma CoprimeMul(a: nat, b: nat, d: nat)
    requires a > 0 && b > 0 && d > 0 && Gcd(a, d) == 1 && Gcd(b, d) == 1
    ensures Gcd(a * b, d) == 1
  {
    MulStrict(0, a, b);
    GcdIsGcd(a * b, d);
    GcdZero(a * b, d);
    var g := Gcd(a * b, d);
    GcdIsGcd(g, a);
    GcdZero(g, a);
    var h := Gcd(g, a);
    DividesTrans(h, g, d);
    GcdIsGcd(a, d);
    assert Divides(h, 1);
    DivisorBound(h, 1);
    Gauss(g, a, b);
    GcdIsGcd(b, d);
    assert Divides(g, 1);
    DivisorBound(g, 1);
  }
}
