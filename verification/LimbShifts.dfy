/** Bits of a number held as limbs: shifts, the highest bit, and single bits. */
module LimbShifts {
  import opened Arith
  import opened Limbs

  // ----- Words -----

  /** Bits of two words that share none: the first below bit b, the second from it on. */
  function Or(x: limb, y: limb, b: nat): limb
    requires b <= 32 && x < Pow2(b) && y % Pow2(b) == 0
  {
    OrFits(x, y, b);
    x + y
  }

  lemma OrFits(x: limb, y: limb, b: nat)
    requires b <= 32 && x < Pow2(b) && y % Pow2(b) == 0
    ensures x + y < BASE
  {
    hide Pow2;
    BaseIsPow2();
    Pow2Add(b, 32 - b);
    DivMod(y, Pow2(b));
    FitsAbove(x, y, Pow2(b), Pow2(32 - b), y / Pow2(b));
  }

  lemma FitsAbove(x: nat, y: nat, p: nat, q: nat, k: int)
    requires x < p && y == k * p && y < p * q
    ensures x + y < p * q
  {
    assert p * q == q * p;
    if k >= q {
      MulMono(q, k, p);
    } else {
      MulMono(k + 1, q, p);
      Distribute(k, 1, p);
    }
  }

  lemma OrNothing(y: limb)
    ensures 0 < Pow2(0) && y % Pow2(0) == 0 && Or(0, y, 0) == y
  {
  }

  /** The index of the highest bit of a word. */
  method TopBit(x: limb) returns (b: nat)
    requires x != 0
    ensures b < 32 && Pow2(b) <= x < Pow2(b + 1)
  {
    hide Pow2;
    BaseIsPow2();
    b := 31;
    while b > 0
      invariant 0 <= b < 32 && x < Pow2(b + 1)
    {
      BitTest(x, b);
      if x / Pow2(b) % 2 != 0 {
        return;
      }
      b := b - 1;
    }
    One();
  }

  lemma BitTest(x: nat, b: nat)
    requires x < Pow2(b + 1)
    ensures x / Pow2(b) % 2 != 0 <==> Pow2(b) <= x
  {
    var p := Pow2(b);
    if x < p {
      ModSmall(x, p);
    } else {
      DivModUnique(x, p, 1, x - p);
    }
  }

  lemma TopLimb(s: seq<limb>, pos: nat, b: nat)
    requires pos < |s| && Pow2(b) <= s[pos] < Pow2(b + 1) && forall k :: pos < k < |s| ==> s[k] == 0
    ensures Pow2(32 * pos + b) <= Value(s) < Pow2(32 * pos + b + 1)
  {
    hide Value, Pow2;
    ValueSplit(s, pos + 1);
    ValueZero(s[pos + 1..]);
    ValueSnoc(s, pos);
    ValueBound(s[..pos]);
    PowBIsPow2(pos);
    Pow2Add(b, 32 * pos);
    Pow2Add(b + 1, 32 * pos);
    MulMono(Pow2(b), s[pos], PowB(pos));
    var x: int := s[pos];
    MulMono(x + 1, Pow2(b + 1), PowB(pos));
    Distribute(x, 1, PowB(pos));
  }

  lemma QuotientBelow(x: nat, q: nat, p: nat)
    requires q > 0 && x < p * q
    ensures 0 <= x / q < p
  {
    DivMod(x, q);
    DivNonNegative(x, q);
    if x / q >= p {
      MulMono(p, x / q, q);
    }
  }

  /** A word moved up by a bits, across the boundary between limbs: what stays is above bit a, what crosses is below it. */
  lemma Moved(x: limb, a: nat, p: nat, q: nat)
    requires a <= 32 && p == Pow2(a) && q == Pow2(32 - a)
    ensures (x * p) % BASE % p == 0
    ensures 0 <= x / q < p
    ensures x / q * BASE + (x * p) % BASE == x * p
  {
    hide Pow2;
    BaseIsPow2();
    Pow2Add(a, 32 - a);
    ModMulCommonFactor(x, p, q);
    DivMod(x, q);
    QuotientBelow(x, q, p);
    Rejoined(x / q, x % q, q, p);
    DivModUnique(x % q * p, p, x % q, 0);
  }

  lemma Rejoined(u: int, v: int, q: int, p: int)
    ensures u * (p * q) + v * p == (u * q + v) * p
  {
    MulAssoc(u, q, p);
    assert q * p == p * q;
    Distribute(u * q, v, p);
  }

  lemma Bounded(s: nat)
    ensures 0 < Pow2(s)
  {
  }

  // ----- Left -----

  /** The limbs after one limb of the operand has been moved up to position p and s bits further. */
  function LeftWritten(z: seq<limb>, x: limb, p: nat, s: nat): seq<limb>
    requires s < 32 && (p < |z| ==> z[p] < Pow2(s)) && (p + 1 < |z| ==> z[p + 1] == 0)
  {
    Moved(x, s, Pow2(s), Pow2(32 - s));
    var up := if p + 1 < |z| && s != 0 then OrNothing(x / Pow2(32 - s)); z[p + 1 := Or(z[p + 1], x / Pow2(32 - s), 0)] else z;
    if p < |z| then up[p := Or(up[p], (x * Pow2(s)) % BASE, s)] else up
  }

  lemma NoneCross(x: limb)
    ensures x / Pow2(32) == 0
  {
    hide Pow2;
    BaseIsPow2();
  }

  /** Two neighbouring limbs grow by a two-limb number. */
  lemma TwoLimbs(z: seq<limb>, p: nat, lo: int, hi: limb)
    requires p + 1 < |z| && z[p + 1] == 0 && 0 <= z[p] + lo < BASE
    ensures Value(z[p := z[p] + lo][p + 1 := hi]) == Value(z) + (hi * BASE + lo) * PowB(p)
  {
    hide Value, PowB;
    ValueUpdate(z, p, z[p] + lo);
    ValueUpdate(z[p := z[p] + lo], p + 1, hi);
    Carried(hi, lo, PowB(p));
    NextPower(p);
  }

  lemma LeftIs(z: seq<limb>, x: limb, p: nat, s: nat, lo: int, hi: int)
    requires s < 32 && p + 1 < |z| && z[p] < Pow2(s) && z[p + 1] == 0
    requires lo == (x * Pow2(s)) % BASE && hi == x / Pow2(32 - s)
    ensures 0 <= hi < BASE && 0 <= z[p] + lo < BASE
    ensures LeftWritten(z, x, p, s) == z[p := z[p] + lo][p + 1 := hi]
  {
    hide Pow2;
    Moved(x, s, Pow2(s), Pow2(32 - s));
    OrNothing(hi);
    OrFits(z[p], lo, s);
    if s == 0 {
      NoneCross(x);
      assert z[p := z[p] + lo][p + 1 := hi] == z[p := z[p] + lo];
    } else {
      assert z[p := z[p] + lo][p + 1 := hi] == z[p + 1 := hi][p := z[p] + lo];
    }
  }

  lemma LeftTop(z: seq<limb>, x: limb, p: nat, s: nat, lo: int)
    requires s < 32 && p + 1 == |z| && z[p] < Pow2(s) && lo == (x * Pow2(s)) % BASE
    ensures 0 <= z[p] + lo < BASE
    ensures LeftWritten(z, x, p, s) == z[p := z[p] + lo]
  {
    hide Pow2;
    Moved(x, s, Pow2(s), Pow2(32 - s));
    OrFits(z[p], lo, s);
  }

  lemma LeftClears(z: seq<limb>, x: limb, p: nat, s: nat)
    requires s < 32 && (p < |z| ==> z[p] < Pow2(s)) && forall j :: p < j < |z| ==> z[j] == 0
    ensures
      var z' := LeftWritten(z, x, p, s);
      |z'| == |z| && (p + 1 < |z| ==> z'[p + 1] < Pow2(s)) && forall j :: p + 1 < j < |z| ==> z'[j] == 0
  {
    hide Pow2;
    Moved(x, s, Pow2(s), Pow2(32 - s));
    if p + 1 < |z| {
      LeftIs(z, x, p, s, (x * Pow2(s)) % BASE, x / Pow2(32 - s));
    }
  }

  /** Apart from multiples of the modulus, the number grows by the limb at its new place. */
  lemma LeftValue(z: seq<limb>, x: limb, p: nat, s: nat) returns (top: nat)
    requires s < 32 && (p < |z| ==> z[p] < Pow2(s)) && forall j :: p < j < |z| ==> z[j] == 0
    ensures Value(LeftWritten(z, x, p, s)) + top * PowB(|z|) == Value(z) + x * Pow2(s) * PowB(p)
  {
    hide Value, PowB, Pow2, LeftWritten;
    var lo, hi := (x * Pow2(s)) % BASE, x / Pow2(32 - s);
    Moved(x, s, Pow2(s), Pow2(32 - s));
    if p >= |z| {
      Outside(z, x, p, s);
      PowBAdd(p - |z|, |z|);
      MulAssoc(x * Pow2(s), PowB(p - |z|), PowB(|z|));
      top := x * Pow2(s) * PowB(p - |z|);
    } else if p + 1 == |z| {
      LeftTop(z, x, p, s, lo);
      ValueUpdate(z, p, z[p] + lo);
      Carried(hi, lo, PowB(p));
      NextPower(p);
      top := hi;
    } else {
      LeftIs(z, x, p, s, lo, hi);
      TwoLimbs(z, p, lo, hi);
      top := 0;
    }
  }

  lemma Outside(z: seq<limb>, x: limb, p: nat, s: nat)
    requires s < 32 && p >= |z|
    ensures LeftWritten(z, x, p, s) == z
  {
  }

  lemma NextPower(p: nat)
    ensures PowB(p + 1) == BASE * PowB(p)
  {
  }

  lemma Carried(hi: int, lo: int, p: int)
    ensures hi * (BASE * p) + lo * p == (hi * BASE + lo) * p
  {
    MulAssoc(hi, BASE, p);
    Distribute(hi * BASE, lo, p);
  }

  lemma {:induction false} LeftStep(z: seq<limb>, x: seq<limb>, i: nat, k: nat, s: nat)
    requires i < |x| && s < 32 && (i + k < |z| ==> z[i + k] < Pow2(s)) && forall j :: i + k < j < |z| ==> z[j] == 0
    requires Value(z) == (Value(x[..i]) * Pow2(32 * k + s)) % PowB(|z|)
    ensures
      var z' := LeftWritten(z, x[i], i + k, s);
      |z'| == |z| && (i + k + 1 < |z| ==> z'[i + k + 1] < Pow2(s)) && (forall j :: i + k + 1 < j < |z| ==> z'[j] == 0) &&
      Value(z') == (Value(x[..i + 1]) * Pow2(32 * k + s)) % PowB(|z|)
  {
    hide Value, PowB, Pow2, LeftWritten;
    var top := LeftValue(z, x[i], i + k, s);
    LeftClears(z, x[i], i + k, s);
    var z' := LeftWritten(z, x[i], i + k, s);
    ValueBound(z');
    ValueSnoc(x, i);
    ShiftedPlace(i, k, s);
    Placed(Value(x[..i]), x[i], PowB(i), Pow2(32 * k + s), Pow2(s), PowB(i + k));
    Grown(Value(z'), top, Value(z), x[i] * Pow2(s) * PowB(i + k), Value(x[..i]) * Pow2(32 * k + s), PowB(|z|));
  }

  lemma ShiftedPlace(i: nat, k: nat, s: nat)
    ensures PowB(i) * Pow2(32 * k + s) == Pow2(s) * PowB(i + k)
  {
    hide PowB, Pow2;
    PowBAdd(i, k);
    PowBIsPow2(k);
    Pow2Add(32 * k, s);
    MulAssoc(PowB(i), PowB(k), Pow2(s));
  }

  lemma Placed(v: int, x: int, b: int, t: int, u: int, w: int)
    requires b * t == u * w
    ensures (v + x * b) * t == v * t + x * u * w
  {
    Distribute(v, x * b, t);
    MulAssoc(x, b, t);
    MulAssoc(x, u, w);
  }

  lemma Grown(v': nat, top: int, v: int, w: int, u: int, m: nat)
    requires v' < m && v == u % m && v' + top * m == v + w
    ensures v' == (u + w) % m
  {
    Remainder(v', top, m, v + w);
    ModAdd(u, w, m);
  }

  // ----- Right -----

  /** The limbs after one limb of the operand, at position i, has been moved down k limbs and s bits further. */
  function RightWritten(z: seq<limb>, x: limb, i: nat, k: nat, s: nat): seq<limb>
    requires s < 32 && i < |z| && (i >= k + 1 ==> z[i - k - 1] < Pow2(32 - s)) && (i >= k ==> z[i - k] == 0)
  {
    Moved(x, 32 - s, Pow2(32 - s), Pow2(s));
    var down :=
      if i >= k + 1 && s != 0 then z[i - k - 1 := Or(z[i - k - 1], (x * Pow2(32 - s)) % BASE, 32 - s)] else z;
    if i >= k then OrNothing(x / Pow2(s)); down[i - k := Or(down[i - k], x / Pow2(s), 0)] else down
  }

  lemma RightValue(z: seq<limb>, x: limb, i: nat, k: nat, s: nat)
    requires s < 32 && k < i < |z| && z[i - k - 1] < Pow2(32 - s) && forall j :: 0 <= j < |z| && i - k <= j ==> z[j] == 0
    ensures Value(RightWritten(z, x, i, k, s)) == Value(z) + x * Pow2(32 - s) * PowB(i - k - 1)
  {
    hide Value, PowB, Pow2, RightWritten;
    var lo, hi := (x * Pow2(32 - s)) % BASE, x / Pow2(s);
    Moved(x, 32 - s, Pow2(32 - s), Pow2(s));
    RightIs(z, x, i, k, s, lo, hi);
    TwoLimbs(z, i - k - 1, lo, hi);
  }

  lemma RightIs(z: seq<limb>, x: limb, i: nat, k: nat, s: nat, lo: int, hi: int)
    requires s < 32 && k < i < |z| && z[i - k - 1] < Pow2(32 - s) && z[i - k] == 0
    requires lo == (x * Pow2(32 - s)) % BASE && hi == x / Pow2(s)
    ensures 0 <= hi < BASE && 0 <= z[i - k - 1] + lo < BASE
    ensures RightWritten(z, x, i, k, s) == z[i - k - 1 := z[i - k - 1] + lo][i - k := hi]
  {
    hide Pow2;
    Moved(x, 32 - s, Pow2(32 - s), Pow2(s));
    OrNothing(hi);
    OrFits(z[i - k - 1], lo, 32 - s);
    if s == 0 {
      NoneLeft(x);
      assert z[i - k - 1 := z[i - k - 1] + lo] == z;
    }
  }

  lemma NoneLeft(x: limb)
    ensures (x * Pow2(32)) % BASE == 0
  {
    hide Pow2;
    BaseIsPow2();
    DivModUnique(x * BASE, BASE, x, 0);
  }

  lemma RightClears(z: seq<limb>, x: limb, i: nat, k: nat, s: nat)
    requires s < 32 && i < |z| && (i >= k + 1 ==> z[i - k - 1] < Pow2(32 - s))
    requires forall j :: 0 <= j < |z| && i - k <= j ==> z[j] == 0
    ensures
      var z' := RightWritten(z, x, i, k, s);
      |z'| == |z| && (i >= k ==> z'[i - k] < Pow2(32 - s)) && forall j :: 0 <= j < |z| && i + 1 - k <= j ==> z'[j] == 0
  {
    hide Pow2;
    Moved(x, 32 - s, Pow2(32 - s), Pow2(s));
    OrNothing(x / Pow2(s));
    Bounded(32 - s);
  }

  lemma RightStep(z: seq<limb>, x: seq<limb>, i: nat, k: nat, s: nat)
    requires i < |x| == |z| && s < 32 && (i >= k + 1 ==> z[i - k - 1] < Pow2(32 - s))
    requires forall j :: 0 <= j < |z| && i - k <= j ==> z[j] == 0
    requires Value(z) == Value(x[..i]) / Pow2(32 * k + s)
    ensures
      var z' := RightWritten(z, x[i], i, k, s);
      |z'| == |z| && (i >= k ==> z'[i - k] < Pow2(32 - s)) && (forall j :: 0 <= j < |z| && i + 1 - k <= j ==> z'[j] == 0) &&
      Value(z') == Value(x[..i + 1]) / Pow2(32 * k + s)
  {
    hide Value, PowB, Pow2, RightWritten;
    RightClears(z, x[i], i, k, s);
    ValueSnoc(x, i);
    ValueBound(x[..i]);
    if i > k {
      RightValue(z, x[i], i, k, s);
      RightPlace(i, k, s);
      Lowered(Value(x[..i]), x[i], PowB(i), Pow2(32 - s), PowB(i - k - 1), Pow2(32 * k + s));
    } else if i == k {
      RightFirst(z, x[i], k, s);
      PowBIsPow2(k);
      Pow2Add(32 * k, s);
      FirstLowered(Value(x[..i]), x[i], PowB(k), Pow2(s));
    } else {
      RightBefore(z, x[i], i, k, s);
      ValueBound(x[..i + 1]);
      PowBIsPow2(i + 1);
      Pow2Mono(32 * (i + 1), 32 * k + s);
      ValueZero(z);
      ModSmall(Value(x[..i + 1]), Pow2(32 * k + s));
    }
  }

  lemma RightFirst(z: seq<limb>, x: limb, k: nat, s: nat)
    requires s < 32 && k < |z| && forall j :: 0 <= j < |z| ==> z[j] == 0
    ensures Value(RightWritten(z, x, k, k, s)) == x / Pow2(s)
  {
    hide Value, Pow2;
    OrNothing(x / Pow2(s));
    Moved(x, 32 - s, Pow2(32 - s), Pow2(s));
    ValueUpdate(z, 0, x / Pow2(s));
    ValueZero(z);
  }

  lemma RightBefore(z: seq<limb>, x: limb, i: nat, k: nat, s: nat)
    requires s < 32 && i < k && i < |z|
    ensures RightWritten(z, x, i, k, s) == z
  {
  }

  lemma RightPlace(i: nat, k: nat, s: nat)
    requires i > k && s < 32
    ensures PowB(i) == Pow2(32 - s) * PowB(i - k - 1) * Pow2(32 * k + s)
  {
    hide PowB, Pow2;
    PowBIsPow2(i);
    PowBIsPow2(i - k - 1);
    Pow2Add(32 - s, 32 * (i - k - 1));
    Pow2Add(32 - s + 32 * (i - k - 1), 32 * k + s);
  }

  lemma Lowered(v: nat, x: int, b: int, u: int, w: int, t: nat)
    requires t > 0 && b == u * w * t
    ensures (v + x * b) / t == v / t + x * u * w
  {
    DivMod(v, t);
    MulAssoc(x, u * w, t);
    MulAssoc(x, u, w);
    Distribute(v / t, x * u * w, t);
    DivModUnique(v + x * b, t, v / t + x * u * w, v % t);
  }

  lemma FirstLowered(v: nat, x: nat, b: nat, u: nat)
    requires v < b && u > 0
    ensures b * u > 0 && (v + x * b) / (b * u) == x / u
  {
    DivModSplit(v + x * b, b, u);
    DivModUnique(v + x * b, b, x, v);
  }

  // ----- Single bits -----

  /** A bit of a word that has none from it down. */
  function OrBit(x: limb, b: nat): limb
    requires b < 32 && x % Pow2(b + 1) == 0
  {
    OrBitFits(x, b);
    x + Pow2(b)
  }

  lemma OrBitFits(x: limb, b: nat)
    requires b < 32 && x % Pow2(b + 1) == 0
    ensures x + Pow2(b) < BASE
  {
    hide Pow2;
    Pow2StrictMono(b, 32);
    BaseIsPow2();
    Pow2StrictMono(b, b + 1);
    OrFits(Pow2(b), x, b + 1);
  }

  /** Nothing below bit m. */
  predicate ClearBelow(x: limb, m: int) {
    (m >= 32 ==> x == 0) && (0 < m < 32 ==> x % Pow2(m) == 0)
  }

  predicate BitsClear(s: seq<limb>, n: int) {
    forall j :: 0 <= j < |s| ==> ClearBelow(s[j], n - 32 * j)
  }

  lemma AllClear(s: seq<limb>, n: int)
    requires forall j :: 0 <= j < |s| ==> s[j] == 0
    ensures BitsClear(s, n)
  {
    hide Pow2;
    forall j | 0 <= j < |s|
      ensures ClearBelow(s[j], n - 32 * j)
    {
      if 0 < n - 32 * j {
        ModSmall(0, Pow2(n - 32 * j));
      }
    }
  }

  lemma BitFree(s: seq<limb>, shift: nat)
    requires BitsClear(s, shift + 1) && shift / 32 < |s|
    ensures s[shift / 32] % Pow2(shift % 32 + 1) == 0
  {
    hide Pow2;
    var j := shift / 32;
    assert ClearBelow(s[j], shift + 1 - 32 * j);
    ModSmall(0, Pow2(shift % 32 + 1));
  }

  lemma FewerClear(x: limb, m: int)
    requires ClearBelow(x, m + 1)
    ensures ClearBelow(x, m)
  {
    hide Pow2;
    if m == 31 {
      ModSmall(0, Pow2(m));
    } else if 0 < m < 31 {
      DivMod(x, Pow2(m + 1));
      Pow2Add(m, 1);
      Pow2Of1();
      MulAssoc(x / Pow2(m + 1), 2, Pow2(m));
      DivModUnique(x, Pow2(m), x / Pow2(m + 1) * 2, 0);
    }
  }

  lemma Pow2Of1()
    ensures Pow2(1) == 2
  {
  }

  lemma StaysClear(s: seq<limb>, shift: int)
    requires BitsClear(s, shift + 1)
    ensures BitsClear(s, shift)
  {
    hide ClearBelow;
    forall j | 0 <= j < |s|
      ensures ClearBelow(s[j], shift - 32 * j)
    {
      FewerClear(s[j], shift - 32 * j);
    }
  }

  /** Setting the bit adds its weight, and leaves the bits below it clear. */
  lemma BitSet(s: seq<limb>, shift: nat, x: limb)
    requires BitsClear(s, shift + 1) && shift / 32 < |s| && x == s[shift / 32] + Pow2(shift % 32)
    ensures Value(s[shift / 32 := x]) == Value(s) + Pow2(shift)
    ensures BitsClear(s[shift / 32 := x], shift)
  {
    hide Value, PowB, Pow2;
    var k, b := shift / 32, shift % 32;
    ValueUpdate(s, k, x);
    PowBIsPow2(k);
    Pow2Add(b, 32 * k);
    forall j | 0 <= j < |s|
      ensures ClearBelow(s[k := x][j], shift - 32 * j)
    {
      FewerClear(s[j], shift - 32 * j);
      if j == k && b > 0 {
        DivMod(s[k], Pow2(b));
        Distribute(s[k] / Pow2(b), 1, Pow2(b));
        DivModUnique(x, Pow2(b), s[k] / Pow2(b) + 1, 0);
      }
    }
  }

  // ----- Division -----

  lemma DivStep(q: int, d: nat, m: int, shift: nat)
    requires m < d * Pow2(shift + 1)
    ensures m >= d * Pow2(shift) ==>
      (q + Pow2(shift)) * d + (m - d * Pow2(shift)) == q * d + m && m - d * Pow2(shift) < d * Pow2(shift)
  {
    var p := Pow2(shift);
    Distribute(q, p, d);
    Twice(d, p);
  }

  lemma Twice(d: int, p: int)
    ensures d * (2 * p) == d * p + d * p
  {
  }

  lemma HalfShift(d: nat, shift: nat)
    requires shift > 0
    ensures d * Pow2(shift) / Pow2(1) == d * Pow2(shift - 1)
  {
    Twice(d, Pow2(shift - 1));
    Pow2Of1();
  }

  lemma DivEnd(n: nat, d: nat, q: int, r: nat)
    requires n == q * d + r && r < d * Pow2(0)
    ensures d > 0 && q == n / d
  {
    DivModUnique(n, d, q, r);
  }

  lemma Smaller(n: nat, d: nat, nb: nat, db: nat)
    requires nb < db && (nb == 0 ==> n == 0) && (nb > 0 ==> n < Pow2(nb)) && Pow2(db - 1) <= d
    ensures d > 0 && n / d == 0
  {
    hide Pow2;
    Pow2Mono(nb, db - 1);
    ModSmall(n, d);
  }

  lemma Aligned(n: nat, d: nat, nb: nat, db: nat, w: nat)
    requires 0 < db <= nb && Pow2(nb - 1) <= n < Pow2(nb) && Pow2(db - 1) <= d < Pow2(db) && n < PowB(w)
    ensures nb <= 32 * w && n < d * Pow2(nb - db + 1)
    ensures (d * Pow2(nb - db)) % PowB(w) == d * Pow2(nb - db)
  {
    hide Pow2;
    PowBIsPow2(w);
    if nb > 32 * w {
      Pow2Mono(32 * w, nb - 1);
    }
    Pow2Mono(nb, 32 * w);
    Pow2Add(db - 1, nb - db + 1);
    MulMono(Pow2(db - 1), d, Pow2(nb - db + 1));
    Pow2Add(db, nb - db);
    BelowProduct(d, Pow2(db), Pow2(nb - db));
    ModSmall(d * Pow2(nb - db), PowB(w));
  }

  lemma BelowProduct(a: nat, b: nat, c: nat)
    requires a < b && c > 0
    ensures 0 <= a * c < b * c
  {
    MulMono(a + 1, b, c);
    Distribute(a, 1, c);
  }
}
