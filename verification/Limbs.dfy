/** Numbers as little-endian 32-bit limbs, of any length. */
module Limbs {
  import opened Arith

  const BASE: int := 0x1_0000_0000

  type limb = x: int | 0 <= x < BASE
  type u64 = x: int | 0 <= x < 0x1_0000_0000_0000_0000

  function PowB(n: nat): (r: nat)
    ensures r > 0
  {
    if n == 0 then 1 else BASE * PowB(n - 1)
  }

  function Value(s: seq<limb>): nat {
    if s == [] then 0 else Value(s[..|s| - 1]) + s[|s| - 1] * PowB(|s| - 1)
  }

  lemma BaseIsPow2()
    ensures Pow2(32) == BASE
  {
    hide Pow2;
    Pow2Add(16, 16);
    Pow2Add(8, 8);
    Pow2Of8();
  }

  lemma Pow2Of8()
    ensures Pow2(8) == 256
  {
    hide Pow2;
    Pow2Add(4, 4);
    Pow2Of4();
  }

  lemma Pow2Of4()
    ensures Pow2(4) == 16
  {
  }

  lemma {:induction false} PowBIsPow2(n: nat)
    ensures PowB(n) == Pow2(32 * n)
  {
    hide Pow2;
    if n == 0 {
      One();
    } else {
      PowBIsPow2(n - 1);
      BaseIsPow2();
      Pow2Add(32, 32 * (n - 1));
    }
  }

  lemma One()
    ensures Pow2(0) == 1
  {
  }

  lemma {:induction false} PowBAdd(a: nat, b: nat)
    ensures PowB(a + b) == PowB(a) * PowB(b)
  {
    if a > 0 {
      PowBAdd(a - 1, b);
      MulAssoc(BASE, PowB(a - 1), PowB(b));
    }
  }

  lemma ValueSnoc(s: seq<limb>, k: nat)
    requires k < |s|
    ensures Value(s[..k + 1]) == Value(s[..k]) + s[k] * PowB(k)
  {
    assert s[..k + 1][..k] == s[..k];
  }

  lemma {:induction false} ValueBound(s: seq<limb>)
    ensures Value(s) < PowB(|s|)
  {
    if s != [] {
      var n := |s| - 1;
      ValueBound(s[..n]);
      MulMono(s[n], BASE - 1, PowB(n));
    }
  }

  lemma {:induction false} ValueZero(s: seq<limb>)
    requires forall i :: 0 <= i < |s| ==> s[i] == 0
    ensures Value(s) == 0
  {
    if s != [] {
      ValueZero(s[..|s| - 1]);
    }
  }

  lemma {:induction false} ValueUpdate(s: seq<limb>, j: nat, x: limb)
    requires j < |s|
    ensures Value(s[j := x]) == Value(s) + (x - s[j]) * PowB(j)
  {
    var n := |s| - 1;
    if j == n {
      assert s[j := x][..n] == s[..n];
      Difference(x, s[j], PowB(j));
    } else {
      ValueUpdate(s[..n], j, x);
      assert s[j := x][..n] == s[..n][j := x];
    }
  }

  lemma Difference(x: int, y: int, p: int)
    ensures (x - y) * p == x * p - y * p
  {
  }

  /** The high part counts in units of the low part's range. */
  lemma {:induction false} ValueSplit(s: seq<limb>, k: nat)
    requires k <= |s|
    ensures Value(s) == Value(s[..k]) + PowB(k) * Value(s[k..])
  {
    if k == |s| {
      assert s[..k] == s;
    } else {
      var n := |s| - 1;
      ValueSplit(s[..n], k);
      assert s[..n][..k] == s[..k] && s[..n][k..] == s[k..][..n - k];
      PowBAdd(k, n - k);
      SplitTop(PowB(k), Value(s[..n][k..]), s[n], PowB(n - k));
    }
  }

  lemma SplitTop(p: int, v: int, x: int, q: int)
    ensures p * (v + x * q) == p * v + x * (p * q)
  {
    MulAssoc(x, p, q);
    assert x * p == p * x;
    MulAssoc(p, x, q);
  }

  /** A sum is its low limb and its carry. */
  lemma Recombine(n: nat, p: nat)
    ensures (n % BASE) * p + (n / BASE) * (BASE * p) == n * p
  {
    var q, r := n / BASE, n % BASE;
    assert n == q * BASE + r;
    MulAssoc(q, BASE, p);
    assert (q * BASE + r) * p == (q * BASE) * p + r * p;
  }

  lemma Distribute(a: int, b: int, p: int)
    ensures (a + b) * p == a * p + b * p
  {
  }

  lemma ProductFits(x: limb, y: limb)
    ensures 0 <= x * y <= (BASE - 1) * (BASE - 1)
  {
    ProductBound(x, y, BASE - 1);
  }

  lemma ProductBound(x: nat, y: nat, m: nat)
    requires x <= m && y <= m
    ensures 0 <= x * y <= m * m
  {
    MulMono(x, m, y);
    MulMono(y, m, m);
  }

  /** What is below the modulus after taking out multiples of it is the remainder. */
  lemma Remainder(v: nat, k: int, m: nat, x: int)
    requires v < m && v + k * m == x
    ensures x % m == v
  {
    DivModUnique(x, m, k, v);
  }

  // ----- Order -----

  /** The highest differing limb decides. */
  lemma HighestDecides(a: seq<limb>, b: seq<limb>, k: nat)
    requires |a| == |b| && k < |a| && a[k] < b[k] && a[k + 1..] == b[k + 1..]
    ensures Value(a) < Value(b)
  {
    hide Value;
    ValueSplit(a, k + 1);
    ValueSplit(b, k + 1);
    ValueSnoc(a, k);
    ValueSnoc(b, k);
    ValueBound(a[..k]);
    MulMono(a[k] + 1, b[k], PowB(k));
    Distribute(a[k], 1, PowB(k));
  }
}
