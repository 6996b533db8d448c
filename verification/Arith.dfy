/** Powers of two and the few division facts that the bounded-arithmetic models share. */
module Arith {

  function Pow2(n: nat): (r: nat)
    ensures r > 0
  {
    if n == 0 then 1 else 2 * Pow2(n - 1)
  }

  lemma {:induction false} Pow2Add(a: nat, b: nat)
    ensures Pow2(a + b) == Pow2(a) * Pow2(b)
  {
    if a == 0 {
    } else {
      Pow2Add(a - 1, b);
      MulAssoc(2, Pow2(a - 1), Pow2(b));
    }
  }

  lemma {:induction false} Pow2Mono(a: nat, b: nat)
    requires a <= b
    ensures Pow2(a) <= Pow2(b)
  {
    if a < b {
      Pow2Mono(a, b - 1);
    }
  }

  lemma {:induction false} Pow2StrictMono(a: nat, b: nat)
    requires a < b
    ensures Pow2(a) < Pow2(b)
  {
    Pow2Mono(a, b - 1);
  }

  lemma MulAssoc(a: int, b: int, c: int)
    ensures a * b * c == a * (b * c)
  {
  }

  lemma MulMono(a: int, b: int, c: int)
    requires a <= b && 0 <= c
    ensures a * c <= b * c
  {
  }

  /** A quotient and remainder in range are the quotient and the remainder. */
  lemma DivModUnique(x: int, d: int, q: int, r: int)
    requires 0 < d && 0 <= r < d && x == q * d + r
    ensures x / d == q && x % d == r
  {
    var q', r' := x / d, x % d;
    assert x == q' * d + r';
    if q' < q {
      assert (q' + 1) * d == q' * d + d;
      MulMono(q' + 1, q, d);
    } else if q < q' {
      assert (q + 1) * d == q * d + d;
      MulMono(q + 1, q', d);
    }
  }

  /** Reducing a multiple of g modulo a multiple of g reduces the cofactor. */
  lemma ModMulCommonFactor(d: nat, g: nat, q: nat)
    requires 0 < g && 0 < q
    ensures g * q > 0
    ensures (d * g) % (g * q) == (d % q) * g
    ensures (d % q) * g <= g * q - g
  {
    var k, r := d / q, d % q;
    assert d == k * q + r;
    assert d * g == k * (g * q) + r * g by {
      assert (k * q + r) * g == (k * q) * g + r * g;
      assert (k * q) * g == k * (g * q) by { MulAssoc(k, q, g); }
    }
    MulMono(r, q - 1, g);
    assert (q - 1) * g == g * q - g;
    assert 0 <= r * g;
    DivModUnique(d * g, g * q, k, r * g);
  }

  lemma ModAddMultiple(x: int, k: int, m: int)
    requires 0 < m
    ensures (x + k * m) % m == x % m
  {
    var q, r := x / m, x % m;
    assert x + k * m == (q + k) * m + r by {
      assert (q + k) * m == q * m + k * m;
    }
    DivModUnique(x + k * m, m, q + k, r);
  }

  lemma ModAdd(x: int, y: int, m: int)
    requires 0 < m
    ensures (x % m + y) % m == (x + y) % m
  {
    assert x == (x / m) * m + x % m;
    ModAddMultiple(x % m + y, x / m, m);
  }

  /** Adding below a gap that the remainder leaves does not wrap. */
  lemma ModAddSmall(s: nat, x: nat, m: nat)
    requires 0 < m && s + x % m < m
    ensures s + x % m == (s + x) % m
  {
    var q := x / m;
    assert x == q * m + x % m;
    DivModUnique(s + x, m, q, s + x % m);
  }

  lemma ModAddBelowFactor(s: nat, d: nat, g: nat, q: nat, m: nat)
    requires s < g && 0 < q && m == g * q
    ensures m > 0
    ensures s + d * g % m == (s + d * g) % m
  {
    ModMulCommonFactor(d, g, q);
    ModAddSmall(s, d * g, m);
  }

  lemma ModSmall(x: int, m: int)
    requires 0 <= x < m
    ensures x % m == x && x / m == 0
  {
    DivModUnique(x, m, 0, x);
  }

  /** Dividing in two steps. */
  lemma DivModSplit(x: int, a: int, b: int)
    requires 0 < a && 0 < b
    ensures a * b > 0
    ensures (x / a) / b == x / (a * b)
    ensures x % (a * b) == x % a + ((x / a) % b) * a
  {
    var y, r := x / a, x % a;
    var q, s := y / b, y % b;
    DivMod(x, a);
    DivMod(y, b);
    Recomposed(q, b, s, a);
    InnerRemainder(s, r, a, b);
    DivModUnique(x, a * b, q, s * a + r);
  }

  lemma DivMod(x: int, d: int)
    requires 0 < d
    ensures x == x / d * d + x % d && 0 <= x % d < d
  {
  }

  lemma Recomposed(q: int, b: int, s: int, a: int)
    ensures (q * b + s) * a == q * (a * b) + s * a
  {
    MulAssoc(q, b, a);
  }

  lemma InnerRemainder(s: int, r: int, a: int, b: int)
    requires 0 <= r < a && 0 <= s < b
    ensures 0 < a * b && 0 <= s * a + r < a * b
  {
    MulMono(s + 1, b, a);
    assert (s + 1) * a == s * a + a;
    MulMono(0, s, a);
  }

  lemma DivNonNegative(x: int, d: int)
    requires 0 <= x && 0 < d
    ensures 0 <= x / d <= x
  {
    var q, r := x / d, x % d;
    assert x == q * d + r;
    assert (q + 1) * d == q * d + d;
    if q < 0 {
      MulMono(q + 1, 0, d);
    } else {
      MulMono(1, d, q);
      assert d * q == q * d;
    }
  }
}
