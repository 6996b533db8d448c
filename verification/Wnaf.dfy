/** Window NAF recoding of a scalar: signed odd digits below 2^w at bit positions at least w + 1 apart. */
module Wnaf {
  import opened Arith

  const BITS: nat := 256

  // ----- Scalars as words -----

  function Value(d: seq<nat>, b: nat): nat {
    if d == [] then 0 else d[0] + Pow2(b) * Value(d[1..], b)
  }

  ghost predicate IsScalar(d: seq<nat>, b: nat) {
    b > 0 && |d| * b == BITS && forall i :: 0 <= i < |d| ==> d[i] < Pow2(b)
  }

  /** Bits i .. i + n of the scalar, taken from one word. */
  function Portion(d: seq<nat>, b: nat, i: nat, n: nat): nat
    requires b > 0 && i / b < |d|
  {
    (d[i / b] / Pow2(i % b)) % Pow2(n)
  }

  lemma {:induction false} WordOf(d: seq<nat>, b: nat, j: nat)
    requires b > 0 && j < |d| && forall i :: 0 <= i < |d| ==> d[i] < Pow2(b)
    ensures d[j] == (Value(d, b) / Pow2(b * j)) % Pow2(b)
    decreases j
  {
    var rest := Value(d[1..], b);
    var p := Pow2(b);
    assert Value(d, b) == rest * p + d[0];
    DivModUnique(Value(d, b), p, rest, d[0]);
    if j == 0 {
      assert Pow2(b * 0) == 1;
    } else {
      WordOf(d[1..], b, j - 1);
      assert b * j == b + b * (j - 1);
      Pow2Add(b, b * (j - 1));
      DivModSplit(Value(d, b), p, Pow2(b * (j - 1)));
    }
  }

  /** Reading from one word reads the scalar when the portion does not cross a word boundary. */
  lemma PortionOf(d: seq<nat>, b: nat, i: nat, n: nat)
    requires IsScalar(d, b) && i / b < |d| && i % b + n <= b
    ensures Portion(d, b, i, n) == (Value(d, b) / Pow2(i)) % Pow2(n)
  {
    hide Pow2, Value, IsScalar;
    WordsBelow(d, b);
    var j, r := i / b, i % b;
    assert b * j + r == i;
    WordOf(d, b, j);
    InWord(Value(d, b), b, b * j, r, n);
  }

  lemma WordsBelow(d: seq<nat>, b: nat)
    requires IsScalar(d, b)
    ensures b > 0 && forall i :: 0 <= i < |d| ==> d[i] < Pow2(b)
  {
  }

  lemma InWord(v: nat, b: nat, at: nat, r: nat, n: nat)
    requires r + n <= b
    ensures (((v / Pow2(at)) % Pow2(b)) / Pow2(r)) % Pow2(n) == (v / Pow2(at + r)) % Pow2(n)
  {
    hide Pow2;
    var x := v / Pow2(at);
    Pow2Add(at, r);
    DivModSplit(v, Pow2(at), Pow2(r));
    Pow2Add(n, b - r - n);
    Pow2Add(r, b - r);
    assert r + (b - r) == b && n + (b - r - n) == b - r;
    Window(x, Pow2(r), Pow2(n), Pow2(b - r - n));
  }

  lemma Window(x: nat, r: nat, n: nat, h: nat)
    requires r > 0 && n > 0 && h > 0
    ensures r * (n * h) > 0
    ensures ((x % (r * (n * h))) / r) % n == (x / r) % n
  {
    assert n * h > 0;
    DivModSplit(x, r, n * h);
    var y := x / r;
    var m := x % (r * (n * h));
    assert m == (y % (n * h)) * r + x % r;
    DivModUnique(m, r, y % (n * h), x % r);
    DivModSplit(y, n, h);
    ModAddMultiple(y % n, (y / n) % h, n);
    ModSmall(y % n, n);
  }

  lemma {:induction false} ValueBound(d: seq<nat>, b: nat)
    requires forall i :: 0 <= i < |d| ==> d[i] < Pow2(b)
    ensures Value(d, b) < Pow2(|d| * b)
  {
    if d != [] {
      hide Pow2;
      ValueBound(d[1..], b);
      var n := |d| - 1;
      assert (n + 1) * b == b + n * b;
      Pow2Add(b, n * b);
      OneMoreWord(d[0], Pow2(b), Value(d[1..], b), Pow2(n * b));
    }
  }

  lemma OneMoreWord(a: nat, p: nat, v: nat, q: nat)
    requires a < p && v < q
    ensures a + p * v < p * q
  {
    MulMono(v + 1, q, p);
    assert (v + 1) * p == p * v + p && q * p == p * q;
  }

  /** Below the top of the scalar, bit i is in some word. */
  lemma BitInWord(d: seq<nat>, b: nat, i: nat)
    requires IsScalar(d, b) && i < BITS
    ensures b > 0 && i / b < |d|
  {
    assert i / b * b <= i;
    if i / b >= |d| {
      MulMono(|d|, i / b, b);
    }
  }

  // ----- The bit scanner -----

  /** What is left of a scalar from bit i on, with a pending carry. */
  function Rest(k: nat, i: nat, carry: nat): nat {
    DivNonNegative(k, Pow2(i));
    k / Pow2(i) + carry
  }

  lemma RestStep(k: nat, i: nat)
    ensures k / Pow2(i + 1) == (k / Pow2(i)) / 2
  {
    DivModSplit(k, Pow2(i), 2);
    assert Pow2(i + 1) == Pow2(i) * 2;
  }

  lemma RestAbove(k: nat, i: nat)
    requires k < Pow2(BITS) && i >= BITS
    ensures k / Pow2(i) == 0
  {
    Pow2Mono(BITS, i);
    ModSmall(k, Pow2(i));
  }

  /** The lowest z bits of v are zero and the next one is set. */
  ghost predicate LowestAt(v: nat, z: nat) {
    v % Pow2(z) == 0 && (v / Pow2(z)) % 2 == 1
  }

  lemma ZerosStep(v: nat, j: nat)
    ensures v / Pow2(j + 1) == (v / Pow2(j)) / 2
    ensures v % Pow2(j + 1) == v % Pow2(j) + (v / Pow2(j)) % 2 * Pow2(j)
  {
    DivModSplit(v, Pow2(j), 2);
    assert Pow2(j + 1) == Pow2(j) * 2;
  }

  /** A bit pushed in at the top of the shift register. */
  lemma Pushed(u: nat, m: nat, w: nat, bit: nat)
    requires m < w && bit == (u / Pow2(m)) % 2
    ensures ((u % Pow2(m)) * Pow2(w - m) + bit * Pow2(w)) / 2 == (u % Pow2(m + 1)) * Pow2(w - (m + 1))
    ensures ((u % Pow2(m)) * Pow2(w - m) + bit * Pow2(w)) % 2 == 0
  {
    ZerosStep(u, m);
    var h := Pow2(w - m - 1);
    assert Pow2(w - m) == 2 * h;
    Pow2Add(m, w - m);
    Halved(u % Pow2(m), bit, Pow2(m), h);
  }

  lemma Halved(a: nat, bit: nat, p: nat, h: nat)
    ensures a * (2 * h) + bit * (p * (2 * h)) == 2 * ((a + bit * p) * h)
  {
    assert a * (2 * h) == 2 * (a * h);
    assert bit * (p * (2 * h)) == 2 * (bit * p * h);
    assert (a + bit * p) * h == a * h + bit * p * h;
  }

  lemma RegisterBound(u: nat, m: nat, w: nat)
    requires m <= w
    ensures (u % Pow2(m)) * Pow2(w - m) <= Pow2(w) - Pow2(w - m)
  {
    Pow2Add(m, w - m);
    MulMono(u % Pow2(m), Pow2(m) - 1, Pow2(w - m));
    assert (Pow2(m) - 1) * Pow2(w - m) == Pow2(m) * Pow2(w - m) - Pow2(w - m);
  }

  /** State of the scan of v: z zero bits passed, and m bits of the window in the top of the w-bit register. */
  ghost predicate Scanning(k: nat, i0: nat, v: nat, w: nat, iBit: nat, carry: nat, res: nat, z: nat, m: nat) {
    if m == 0 then
      res == 0 && carry <= 1 && iBit == i0 + z && v % Pow2(z) == 0 && v / Pow2(z) == Rest(k, iBit, carry)
    else
      && LowestAt(v, z) && iBit == i0 + z + m && carry == 0 && m <= w
      && res == (v / Pow2(z)) % Pow2(m) * Pow2(w - m)
      && (v / Pow2(z)) / Pow2(m) == k / Pow2(iBit)
  }

  lemma ScanZero(k: nat, i0: nat, v: nat, w: nat, iBit: nat, carry: nat, z: nat)
    requires w > 0 && Scanning(k, i0, v, w, iBit, carry, 0, z, 0) && (k / Pow2(iBit)) % 2 == carry
    ensures Scanning(k, i0, v, w, iBit + 1, carry, 0, z + 1, 0)
  {
    hide Pow2;
    ZerosStep(v, z);
    RestStep(k, iBit);
  }

  lemma ScanFirst(k: nat, i0: nat, v: nat, w: nat, iBit: nat, carry: nat, z: nat)
    requires w > 0 && Scanning(k, i0, v, w, iBit, carry, 0, z, 0) && (k / Pow2(iBit)) % 2 != carry
    ensures Scanning(k, i0, v, w, iBit + 1, 0, Pow2(w) / 2, z, 1) && Pow2(w) % 2 == 0
  {
    var u := v / Pow2(z);
    assert Pow2(1) == 2 && Pow2(w) == 2 * Pow2(w - 1);
    hide Pow2;
    RestStep(k, iBit);
    assert u % 2 == 1;
  }

  lemma ScanMore(k: nat, i0: nat, v: nat, w: nat, iBit: nat, res: nat, z: nat, m: nat)
    requires 0 < m < w && Scanning(k, i0, v, w, iBit, 0, res, z, m)
    ensures
      var r := res + (k / Pow2(iBit)) % 2 * Pow2(w);
      Scanning(k, i0, v, w, iBit + 1, 0, r / 2, z, m + 1)
  {
    hide Pow2;
    RestStep(k, iBit);
    DivNonNegative(v, Pow2(z));
    var u := v / Pow2(z);
    ZerosStep(u, m);
    Pushed(u, m, w, (u / Pow2(m)) % 2);
  }

  /** The register shows an odd number exactly when the window is complete. */
  lemma ScanOdd(k: nat, i0: nat, v: nat, w: nat, iBit: nat, carry: nat, res: nat, z: nat, m: nat)
    requires w > 0 && Scanning(k, i0, v, w, iBit, carry, res, z, m)
    ensures res < Pow2(w)
    ensures res % 2 == 1 <==> m == w
    ensures m > 0 <==> res > 0
    ensures m == w ==> res == (v / Pow2(z)) % Pow2(w)
  {
    hide Pow2;
    if m > 0 {
      DivNonNegative(v, Pow2(z));
      RegisterOdd(v / Pow2(z), m, w);
    }
  }

  lemma RegisterOdd(u: nat, m: nat, w: nat)
    requires 0 < m <= w && u % 2 == 1
    ensures
      var res := u % Pow2(m) * Pow2(w - m);
      0 < res < Pow2(w) && (res % 2 == 1 <==> m == w) && (m == w ==> res == u % Pow2(w))
  {
    RegisterBound(u, m, w);
    OddWindow(u, m);
    var x := u % Pow2(m);
    if m < w {
      assert Pow2(w - m) == 2 * Pow2(w - m - 1);
      Even(x, Pow2(w - m - 1));
    } else {
      assert Pow2(w - m) == 1;
    }
  }

  lemma Even(x: nat, h: nat)
    requires x > 0 && h > 0
    ensures x * (2 * h) > 0 && (x * (2 * h)) % 2 == 0
  {
    MulMono(1, x, h);
    Doubles(x, h);
  }

  lemma Doubles(x: nat, h: nat)
    ensures x * (2 * h) == 2 * (x * h)
  {
  }

  lemma OddWindow(u: nat, m: nat)
    requires m > 0 && u % 2 == 1
    ensures (u % Pow2(m)) % 2 == 1
  {
    var h := Pow2(m - 1);
    DivModSplit(u, 2, h);
  }

  class Context {
    const d: seq<nat>
    const b: nat
    const flag: nat
    ghost const w: nat
    var iBit: nat
    var carry: nat

    ghost predicate Valid()
      reads this
    {
      IsScalar(d, b) && w > 0 && flag == Pow2(w) && carry <= 1
    }

    constructor (d: seq<nat>, b: nat, w: nat)
      requires IsScalar(d, b) && w > 0
      ensures Valid() && this.d == d && this.b == b && this.w == w && iBit == 0 && carry == 0
    {
      this.d, this.b, this.flag, this.w, iBit, carry := d, b, Pow2(w), w, 0, 0;
    }

    /** A set bit enters the register above its w bits and absorbs the carry. */
    method OnBit(res: nat, x: bool) returns (r: nat)
      requires Valid() && res < flag
      modifies this`carry
      ensures r == (if x then res + flag else res) && carry == if x then 0 else old(carry)
    {
      r := res;
      if x {
        r := res + flag;
        carry := 0;
      }
    }

    /** `NextOdd`: the lowest window of w bits that starts at a set bit of what is left, or 0 when nothing is left. */
    method NextOdd() returns (res: nat, ghost z: nat)
      requires Valid()
      modifies this`iBit, this`carry
      ensures Valid() && carry == 0
      ensures
        var v := Rest(Value(d, b), old(iBit), old(carry));
        if v == 0 then res == 0
        else
          && LowestAt(v, z) && iBit == old(iBit) + z + w && res == (v / Pow2(z)) % Pow2(w) && res % 2 == 1
          && (v / Pow2(z)) / Pow2(w) == Value(d, b) / Pow2(iBit)
    {
      hide Pow2, IsScalar, Scanning, LowestAt, Portion, Rest;
      ghost var k := Value(d, b);
      ghost var i0, v := iBit, Rest(k, iBit, carry);
      ghost var m: nat := 0;
      ScalarBound(d, b);
      res, z := 0, 0;
      ScanStart(k, i0, v, w, carry);
      while true
        invariant Valid() && m < w && Scanning(k, i0, v, w, iBit, carry, res, z, m)
        decreases if m == 0 then 1 else 0, if m == 0 then BITS - iBit else w - m
      {
        ScanOdd(k, i0, v, w, iBit, carry, res, z, m);
        ghost var z', m' := ScanNext(k, i0, v, w, iBit, carry, res, z, m);
        var x: bool;
        if iBit >= BITS {
          RestAbove(k, iBit);
          x := carry != 0;
          if m == 0 && !x {
            ScanEnd(k, i0, v, w, iBit, carry, z);
          }
        } else {
          BitInWord(d, b, iBit);
          BitOf(d, b, iBit);
          x := Portion(d, b, iBit, 1) != carry;
        }
        res := OnBit(res, x);
        if iBit >= BITS && res == 0 {
          break;
        }
        iBit := iBit + 1;
        res := res / 2;
        z, m := z', m';
        ScanOdd(k, i0, v, w, iBit, carry, res, z, m);
        if res % 2 == 1 {
          ScanFound(k, i0, v, w, iBit, carry, res, z);
          break;
        }
      }
    }
  }

  lemma ScalarBound(d: seq<nat>, b: nat)
    requires IsScalar(d, b)
    ensures Value(d, b) < Pow2(BITS)
  {
    hide Pow2;
    ValueBound(d, b);
  }

  lemma BitOf(d: seq<nat>, b: nat, i: nat)
    requires IsScalar(d, b) && i < BITS && b > 0 && i / b < |d|
    ensures Portion(d, b, i, 1) == (Value(d, b) / Pow2(i)) % 2
  {
    hide IsScalar, Value;
    WordsBelow(d, b);
    PortionOf(d, b, i, 1);
    assert Pow2(1) == 2;
  }

  lemma ScanStart(k: nat, i0: nat, v: nat, w: nat, carry: nat)
    requires carry <= 1 && v == Rest(k, i0, carry)
    ensures Scanning(k, i0, v, w, i0, carry, 0, 0, 0)
  {
    assert Pow2(0) == 1;
  }

  lemma ScanNext(k: nat, i0: nat, v: nat, w: nat, iBit: nat, carry: nat, res: nat, z: nat, m: nat) returns (z': nat, m': nat)
    requires w > 0 && m < w && Scanning(k, i0, v, w, iBit, carry, res, z, m)
    ensures
      var x := (k / Pow2(iBit)) % 2 != carry;
      && Scanning(k, i0, v, w, iBit + 1, if x then 0 else carry, (if x then res + Pow2(w) else res) / 2, z', m')
      && (if m > 0 then z' == z && m' == m + 1 else if x then z' == z && m' == 1 else z' == z + 1 && m' == 0)
  {
    hide Pow2, LowestAt;
    var x := (k / Pow2(iBit)) % 2 != carry;
    if m > 0 {
      z', m' := z, m + 1;
      ScanMore(k, i0, v, w, iBit, res, z, m);
    } else if x {
      z', m' := z, 1;
      ScanFirst(k, i0, v, w, iBit, carry, z);
    } else {
      z', m' := z + 1, 0;
      ScanZero(k, i0, v, w, iBit, carry, z);
    }
  }

  lemma ScanEnd(k: nat, i0: nat, v: nat, w: nat, iBit: nat, carry: nat, z: nat)
    requires Scanning(k, i0, v, w, iBit, carry, 0, z, 0) && carry == 0 && k / Pow2(iBit) == 0
    ensures v == 0
  {
    assert v == v / Pow2(z) * Pow2(z) + v % Pow2(z);
  }

  lemma ScanFound(k: nat, i0: nat, v: nat, w: nat, iBit: nat, carry: nat, res: nat, z: nat)
    requires w > 0 && Scanning(k, i0, v, w, iBit, carry, res, z, w)
    ensures LowestAt(v, z) && iBit == i0 + z + w && carry == 0 && v > 0 && (v / Pow2(z)) / Pow2(w) == k / Pow2(iBit)
  {
    if v == 0 {
      ModSmall(0, Pow2(z));
      assert false;
    }
  }

  // ----- Recoding -----

  datatype Entry = Entry(odd: nat, neg: bool, bit: nat) {
    function Digit(): int {
      if neg then -(odd as int) else odd as int
    }
  }

  function Sum(es: seq<Entry>): int {
    if es == [] then 0 else Sum(es[..|es| - 1]) + es[|es| - 1].Digit() * Pow2(es[|es| - 1].bit)
  }

  ghost predicate Spaced(es: seq<Entry>, w: nat) {
    forall i, j :: 0 <= i < j < |es| ==> es[i].bit + w <= es[j].bit
  }

  /** Odd digits below 2^wnd, wide apart, within the bits of a scalar and the extra one. */
  ghost predicate Digits(es: seq<Entry>, wnd: nat) {
    && Spaced(es, wnd + 1)
    && forall i :: 0 <= i < |es| ==> es[i].odd % 2 == 1 && es[i].odd < Pow2(wnd) && es[i].bit <= BITS
  }

  /** The room `Wnaf_T` has for entries. */
  function MaxEntries(wnd: nat): nat {
    BITS / (wnd + 1) + 1
  }

  lemma {:induction false} SpacedCount(es: seq<Entry>, w: nat, n: nat)
    requires w > 0 && Spaced(es, w) && n < |es|
    ensures n * w <= es[n].bit
    decreases n
  {
    if n > 0 {
      SpacedCount(es, w, n - 1);
      assert es[n - 1].bit + w <= es[n].bit;
      assert n * w == (n - 1) * w + w;
    }
  }

  lemma EntriesFit(es: seq<Entry>, wnd: nat)
    requires Digits(es, wnd)
    ensures |es| <= MaxEntries(wnd)
  {
    if es != [] {
      var n, w := |es| - 1, wnd + 1;
      SpacedCount(es, w, n);
      var q := BITS / w;
      assert BITS < (q + 1) * w;
      if q + 1 <= n {
        MulMono(q + 1, n, w);
      }
    }
  }

  /** Exclusive or, bit by bit. */
  function Xor(a: nat, b: nat): nat {
    if a == 0 && b == 0 then 0 else (if a % 2 != b % 2 then 1 else 0) + 2 * Xor(a / 2, b / 2)
  }

  lemma {:induction false} XorAllOnes(n: nat, m: nat)
    requires n < Pow2(m)
    ensures Xor(n, Pow2(m) - 1) == Pow2(m) - 1 - n
  {
    if m > 0 {
      var h := Pow2(m - 1);
      assert Pow2(m) == 2 * h;
      hide Pow2;
      OnesHalved(n, h);
      XorAllOnes(n / 2, m - 1);
    }
  }

  lemma OnesHalved(n: nat, h: nat)
    requires n < 2 * h
    ensures (2 * h - 1) / 2 == h - 1 && (2 * h - 1) % 2 == 1 && n / 2 < h && n == n / 2 * 2 + n % 2
  {
  }

  /** Flipping all bits of an odd number but the lowest. */
  lemma FlippedBits(n: nat, w: nat)
    requires w > 0 && n % 2 == 1 && n < Pow2(w)
    ensures Pow2(w) >= 2 && Xor(n, Pow2(w) - 2) == Pow2(w) - n
  {
    var h := Pow2(w - 1);
    assert Pow2(w) == 2 * h;
    XorAllOnes(n / 2, w - 1);
    assert (2 * h - 2) / 2 == h - 1 && (2 * h - 2) % 2 == 0;
  }

  lemma RestBound(k: nat, i: nat, carry: nat)
    requires k < Pow2(BITS) && carry <= 1 && (carry == 1 ==> i <= BITS)
    ensures i <= BITS ==> Rest(k, i, carry) <= Pow2(BITS - i)
    ensures i > BITS ==> Rest(k, i, carry) == 0
  {
    hide Pow2;
    if i <= BITS {
      Pow2Add(i, BITS - i);
      assert i + (BITS - i) == BITS;
      Quotient(k, Pow2(i), Pow2(BITS - i));
    } else {
      RestAbove(k, i);
    }
  }

  lemma Quotient(k: nat, a: nat, b: nat)
    requires 0 < a && k < a * b
    ensures k / a < b
  {
    assert k == k / a * a + k % a;
    if k / a >= b {
      MulMono(b, k / a, a);
    }
  }

  lemma LowestBound(v: nat, z: nat, e: nat)
    requires LowestAt(v, z) && v <= Pow2(e)
    ensures z <= e
  {
    hide Pow2;
    DivMod(v, Pow2(z));
    DivNonNegative(v, Pow2(z));
    MulMono(1, v / Pow2(z), Pow2(z));
    if z > e {
      Pow2StrictMono(e, z);
    }
  }

  /** A window with its top bit set ends within the scalar. */
  lemma NegativeBound(v: nat, z: nat, wnd: nat, e: nat)
    requires wnd > 0 && LowestAt(v, z) && v <= Pow2(e) && (v / Pow2(z)) % Pow2(wnd + 1) >= Pow2(wnd)
    ensures z + wnd + 1 <= e
  {
    DivNonNegative(v, Pow2(z));
    var u := v / Pow2(z);
    assert Pow2(wnd) == 2 * Pow2(wnd - 1);
    hide Pow2;
    ModAtMost(u, Pow2(wnd + 1));
    assert u >= Pow2(wnd) + 1;
    Multiple(v, u, Pow2(z), Pow2(wnd) + 1);
    Pow2Add(wnd, z);
    if z + wnd >= e {
      Pow2Mono(e, z + wnd);
    }
  }

  lemma ModAtMost(u: nat, m: nat)
    requires m > 0
    ensures u % m <= u
  {
  }

  lemma Multiple(v: nat, u: nat, p: nat, a: nat)
    requires p > 0 && v % p == 0 && u == v / p && u >= a && a > 0
    ensures v >= (a - 1) * p + p
  {
    assert v == u * p;
    MulMono(a, u, p);
    assert a * p == (a - 1) * p + p;
  }

  /** One digit and the rest after it make up the rest before it. */
  lemma OneDigit(v: nat, z: nat, i: nat, w: nat, kRest: nat)
    requires LowestAt(v, z) && (v / Pow2(z)) / Pow2(w) == kRest
    ensures
      var odd := (v / Pow2(z)) % Pow2(w);
      && Pow2(i) * v == odd * Pow2(i + z) + Pow2(i + z + w) * kRest
      && Pow2(i) * v == (odd - Pow2(w)) * Pow2(i + z) + Pow2(i + z + w) * (kRest + 1)
  {
    hide Pow2;
    var u := v / Pow2(z);
    Pow2Add(i, z);
    Pow2Add(i + z, w);
    Recombined(v, u, Pow2(z), Pow2(i), Pow2(w), kRest);
  }

  lemma Recombined(v: nat, u: nat, pz: nat, pi: nat, pw: nat, r: nat)
    requires pz > 0 && pw > 0 && v % pz == 0 && u == v / pz && r == u / pw
    ensures
      var odd := u % pw;
      var p := pi * pz;
      && pi * v == odd * p + (p * pw) * r
      && pi * v == (odd - pw) * p + (p * pw) * (r + 1)
  {
    var odd := u % pw;
    var p := pi * pz;
    assert v == u * pz;
    assert pi * (u * pz) == p * u;
    assert u == r * pw + odd;
    assert p * (r * pw + odd) == p * (r * pw) + p * odd;
    assert p * (r * pw) == (p * pw) * r;
    assert p * odd == odd * p;
    assert (odd - pw) * p == odd * p - pw * p;
    assert (p * pw) * (r + 1) == (p * pw) * r + p * pw;
  }

  lemma SumSnoc(es: seq<Entry>, e: Entry)
    ensures Sum(es + [e]) == Sum(es) + e.Digit() * Pow2(e.bit)
  {
    assert (es + [e])[..|es|] == es;
  }

  /** The recoding loop of `Shared::Add`: the digits sum up to the scalar and fit the room for them. */
  method Recode(d: seq<nat>, b: nat, wnd: nat) returns (es: seq<Entry>)
    requires IsScalar(d, b) && wnd > 0
    ensures Digits(es, wnd) && Sum(es) == Value(d, b) && |es| <= MaxEntries(wnd)
  {
    hide Pow2, IsScalar, Rest, LowestAt, Value, Digits, Sum, Xor;
    var w := wnd + 1;
    var ctx := new Context(d, b, w);
    ghost var k := Value(d, b);
    ScalarBound(d, b);
    es := [];
    RestWhole(k);
    NoDigits(wnd);
    while true
      invariant fresh(ctx) && ctx.Valid() && ctx.d == d && ctx.b == b && ctx.w == w
      invariant ctx.carry == 1 ==> ctx.iBit <= BITS
      invariant Sum(es) + Pow2(ctx.iBit) * Rest(k, ctx.iBit, ctx.carry) == k
      invariant Digits(es, wnd)
      invariant es != [] ==> es[|es| - 1].bit + w == ctx.iBit
      invariant ctx.iBit <= BITS + w
      decreases BITS + w - ctx.iBit
    {
      ghost var i0, v := ctx.iBit, Rest(k, ctx.iBit, ctx.carry);
      RestBound(k, i0, ctx.carry);
      var odd, z := ctx.NextOdd();
      if odd == 0 {
        break;
      }
      LowestBound(v, z, BITS - i0);
      var bit := ctx.iBit - w;
      NextRest(k, v, z, i0, w);
      var e;
      if odd >= Pow2(wnd) {
        NegativeBound(v, z, wnd, BITS - i0);
        Complement(odd, wnd, v / Pow2(z));
        FlippedBits(odd, w);
        e := Entry(Xor(odd, Pow2(w) - 2), true, bit);
        ctx.carry := 1;
      } else {
        e := Entry(odd, false, bit);
      }
      SumSnoc(es, e);
      Appended(es, e, wnd);
      es := es + [e];
    }
    EntriesFit(es, wnd);
  }

  lemma NextRest(k: nat, v: nat, z: nat, i: nat, w: nat)
    requires LowestAt(v, z) && (v / Pow2(z)) / Pow2(w) == k / Pow2(i + z + w)
    ensures
      var odd := (v / Pow2(z)) % Pow2(w);
      && Pow2(i) * v == odd * Pow2(i + z) + Pow2(i + z + w) * Rest(k, i + z + w, 0)
      && Pow2(i) * v == (odd - Pow2(w)) * Pow2(i + z) + Pow2(i + z + w) * Rest(k, i + z + w, 1)
  {
    hide Pow2, LowestAt;
    DivNonNegative(k, Pow2(i + z + w));
    OneDigit(v, z, i, w, k / Pow2(i + z + w));
  }

  lemma NoDigits(wnd: nat)
    ensures Digits([], wnd) && Sum([]) == 0
  {
  }

  lemma RestWhole(k: nat)
    ensures Pow2(0) * Rest(k, 0, 0) == k
  {
  }

  lemma Complement(odd: nat, wnd: nat, u: nat)
    requires wnd > 0 && Pow2(wnd) <= odd && odd == u % Pow2(wnd + 1) && odd % 2 == 1
    ensures 0 < Pow2(wnd + 1) - odd < Pow2(wnd) && (Pow2(wnd + 1) - odd) % 2 == 1
  {
    assert Pow2(wnd + 1) == 2 * Pow2(wnd) && Pow2(wnd) == 2 * Pow2(wnd - 1);
  }

  lemma Appended(es: seq<Entry>, e: Entry, wnd: nat)
    requires Digits(es, wnd) && e.odd % 2 == 1 && e.odd < Pow2(wnd) && e.bit <= BITS
    requires es != [] ==> es[|es| - 1].bit + (wnd + 1) <= e.bit
    ensures Digits(es + [e], wnd)
  {
    hide Pow2;
    var t := es + [e];
    forall i, j | 0 <= i < j < |t| ensures t[i].bit + (wnd + 1) <= t[j].bit {
      if j == |es| && i < |es| - 1 {
        assert es[i].bit + (wnd + 1) <= es[|es| - 1].bit;
      }
    }
  }
}
