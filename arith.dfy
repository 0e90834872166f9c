/** Small facts about integer multiplication and Euclidean division that
    the solver does not find on its own. */
module Arith {

  function Max(a: int, b: int): int {
    if a >= b then a else b
  }

  lemma MulGe(c: int, q: int)
    requires c > 0 && q >= 1
    ensures c * q >= c
  {
  }

  lemma MulPosFactor(c: int, q: int)
    requires c > 0 && c * q > 0
    ensures q > 0
  {
  }

  lemma MulMono(a: int, b: int, c: int)
    requires c >= 0 && a <= b
    ensures a * c <= b * c
  {
  }

  lemma MulStrict(a: int, b: int, c: int)
    requires c > 0 && a < b
    ensures a * c < b * c
  {
  }

  lemma MulSucc(a: int, t: int)
    ensures a * (t + 1) == a * t + a
  {
  }

  /** Division is determined by quotient and remainder. */
  lemma DivUnique(x: int, c: int, q: int, r: int)
    requires c > 0 && 0 <= r < c && x == c * q + r
    ensures x / c == q && x % c == r
  {
    var q0, r0 := x / c, x % c;
    assert x == c * q0 + r0;
    assert c * (q - q0) == r0 - r;
    if q > q0 {
      MulGe(c, q - q0);
    } else if q < q0 {
      MulGe(c, q0 - q);
    }
  }

  lemma MulDiv(c: int, k: int)
    requires c > 0
    ensures (c * k) % c == 0 && (c * k) / c == k
  {
    DivUnique(c * k, c, k, 0);
  }

  /** Ceiling of x / c by the `(x + c - 1) // c` formula. */
  lemma CeilByOffset(x: int, c: int)
    requires c > 0
    ensures c * ((x + c - 1) / c) >= x
    ensures c * ((x + c - 1) / c - 1) < x
  {
    var q := (x + c - 1) / c;
    assert x + c - 1 == c * q + (x + c - 1) % c;
    assert c * (q - 1) == c * q - c;
  }

  /** The least t with c * t >= x is unique. */
  lemma CeilUnique(x: int, c: int, t: int, u: int)
    requires c > 0
    requires c * t >= x && c * (t - 1) < x
    requires c * u >= x && c * (u - 1) < x
    ensures t == u
  {
    if t < u {
      MulMono(t, u - 1, c);
    } else if u < t {
      MulMono(u, t - 1, c);
    }
  }
}
