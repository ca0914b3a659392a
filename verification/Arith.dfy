/** Powers of two, and division and rounding by a variable divisor. */
module Arith {
  function Pow2(n: nat): (p: nat)
    ensures p >= 1
  {
    if n == 0 then 1 else 2 * Pow2(n - 1)
  }

  /** A nonzero multiple of `d` is at least `d` away from zero. */
  lemma MultipleGap(m: int, d: nat)
    ensures m >= 1 ==> m * d >= d
    ensures m <= -1 ==> m * d + d <= 0
  {
    if m >= 1 { assert m * d == (m - 1) * d + d; }
    if m <= -1 { assert m * d + d == (m + 1) * d; }
  }

  lemma DivUnique(x: nat, d: nat, k: nat, r: nat)
    requires r < d && x == k * d + r
    ensures x / d == k && x % d == r
  {
    var m := x / d - k;
    assert x == x / d * d + x % d;
    assert m * d == x / d * d - k * d;
    MultipleGap(m, d);
  }

  /** `x` with its remainder taken off: the multiple of `q` at or below it. */
  function AlignDown(x: nat, q: nat): (r: nat)
    requires q >= 1
    ensures r <= x < r + q
  {
    x - x % q
  }

  lemma AlignDownQuotient(x: nat, q: nat)
    requires q >= 1
    ensures AlignDown(x, q) == x / q * q
  {
  }

  /** Two numbers round down alike exactly when one lies in the other's interval. */
  lemma SameAlignment(x: nat, y: nat, q: nat)
    requires q >= 1
    ensures AlignDown(x, q) == AlignDown(y, q) <==> AlignDown(y, q) <= x < AlignDown(y, q) + q
  {
    var m := x / q - y / q;
    AlignDownQuotient(x, q);
    AlignDownQuotient(y, q);
    assert m * q == x / q * q - y / q * q;
    MultipleGap(m, q);
  }

  lemma Distribute(d: nat, r: nat, e: nat, q: nat)
    ensures (d * r + e) * q == d * (q * r) + e * q
  {
    assert (d * r + e) * q == d * r * q + e * q;
    assert d * r * q == d * (r * q);
    assert r * q == q * r;
  }

  lemma LessThanProduct(e: nat, r: nat, q: nat, s: nat)
    requires e < r && s < q
    ensures e * q + s < q * r
  {
    MulMonotone(e + 1, r, q);
    assert (e + 1) * q == e * q + q;
    assert r * q == q * r;
  }

  lemma SameQuotient(a: nat, x: nat, w: nat, d: nat, rest: nat, s: nat)
    requires a == d * w + rest && x == a + s && rest + s < w
    ensures AlignDown(a, w) == AlignDown(x, w)
  {
    DivUnique(a, w, d, rest);
    DivUnique(x, w, d, rest + s);
  }

  /** Rounding to a multiple of `q` first does not change the rounding to a multiple of `q * r`. */
  lemma AlignTwice(x: nat, q: nat, r: nat)
    requires q >= 1 && r >= 1
    ensures q * r >= 1 && AlignDown(AlignDown(x, q), q * r) == AlignDown(x, q * r)
  {
    var k, s := x / q, x % q;
    var d, e := k / r, k % r;
    LessThanProduct(e, r, q, 0);
    LessThanProduct(e, r, q, s);
    AlignDownQuotient(x, q);
    Distribute(d, r, e, q);
    SameQuotient(AlignDown(x, q), x, q * r, d, e * q, s);
  }

  lemma MulMonotone(a: nat, b: nat, q: nat)
    requires a <= b
    ensures a * q <= b * q
  {
    assert b * q == a * q + (b - a) * q;
  }

  lemma Pow2Add(a: nat, b: nat)
    ensures Pow2(a + b) == Pow2(a) * Pow2(b)
  {
    if a != 0 {
      Pow2Add(a - 1, b);
      assert Pow2(a + b) == 2 * Pow2(a - 1 + b);
      assert 2 * (Pow2(a - 1) * Pow2(b)) == 2 * Pow2(a - 1) * Pow2(b);
    }
  }

  lemma Pow2Monotone(a: nat, b: nat)
    requires a <= b
    ensures Pow2(a) <= Pow2(b)
  {
    if a < b { Pow2Monotone(a, b - 1); }
  }
}
