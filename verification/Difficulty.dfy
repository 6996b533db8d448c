/** Difficulty as a packed floating-point number of 24 mantissa bits: the target it sets, and its adjustment. */
module Difficulty {
  import opened Arith

  const MANTISSA_BITS: nat := 24
  const RAW_BITS: nat := 256
  const MAX_ORDER: nat := 231
  /** 2^24 */
  const LEADING: nat := 0x100_0000
  const INF: nat := 232 * LEADING

  // ----- Packed and raw -----

  function Order(packed: nat): nat {
    packed / LEADING
  }

  function Mantissa(packed: nat): nat {
    LEADING + packed % LEADING
  }

  function Unpack(packed: nat): nat {
    if packed < INF then Mantissa(packed) * Pow2(Order(packed)) else Pow2(RAW_BITS) - 1
  }

  /** The leading bit of the mantissa is implied. */
  function Pack(order: nat, mantissa: nat): nat {
    if order <= MAX_ORDER then mantissa % LEADING + order * LEADING else INF
  }

  lemma PackThenUnpack(order: nat, mantissa: nat)
    requires order <= MAX_ORDER && LEADING <= mantissa < 2 * LEADING
    ensures Pack(order, mantissa) < INF && Unpack(Pack(order, mantissa)) == mantissa * Pow2(order)
  {
    hide Pow2;
    var p := Pack(order, mantissa);
    DivModUnique(p, LEADING, order, mantissa - LEADING);
  }

  lemma UnpackThenPack(packed: nat)
    requires packed < INF
    ensures Pack(Order(packed), Mantissa(packed)) == packed
  {
  }

  // ----- Targets -----

  /** The product with the raw difficulty has its upper 232 of 512 bits clear. */
  predicate IsTargetReached(packed: nat, hv: nat) {
    packed <= INF && hv * Unpack(packed) < Pow2(RAW_BITS + MANTISSA_BITS)
  }

  function Target(packed: nat): nat
    requires Unpack(packed) > 0
  {
    DivNonNegative(Pow2(RAW_BITS + MANTISSA_BITS) - 1, Unpack(packed));
    (Pow2(RAW_BITS + MANTISSA_BITS) - 1) / Unpack(packed)
  }

  lemma UnpackPositive(packed: nat)
    ensures Unpack(packed) >= LEADING
  {
    hide Pow2;
    if packed < INF {
      MulMono(1, Pow2(Order(packed)), Mantissa(packed));
    } else {
      Pow2Mono(25, RAW_BITS);
      Powers();
    }
  }

  lemma Powers()
    ensures Pow2(7) == 128 && Pow2(24) == LEADING && Pow2(25) == 2 * LEADING
    ensures Pow2(31) == 128 * LEADING && Pow2(32) == 256 * LEADING
  {
    assert Pow2(8) == 256;
    assert Pow2(16) == 65536;
    assert Pow2(24) == LEADING;
    assert Pow2(31) == 128 * LEADING;
  }

  lemma QuotientBound(h: nat, v: nat, m: nat)
    requires v > 0
    ensures h * v <= m <==> h <= m / v
  {
    assert m == m / v * v + m % v;
    if h <= m / v {
      MulMono(h, m / v, v);
    } else {
      MulMono(m / v + 1, h, v);
      assert (m / v + 1) * v == m / v * v + v;
    }
  }

  /** A hash reaches the target exactly when it is at most the target value, which is itself a hash value. */
  lemma ReachedIffAtMostTarget(packed: nat, hv: nat)
    requires packed <= INF
    ensures Unpack(packed) > 0
    ensures IsTargetReached(packed, hv) <==> hv <= Target(packed)
    ensures Target(packed) < Pow2(RAW_BITS)
  {
    hide Pow2, Unpack;
    UnpackPositive(packed);
    var v, m := Unpack(packed), Pow2(RAW_BITS + MANTISSA_BITS) - 1;
    QuotientBound(hv, v, m);
    Pow2Add(RAW_BITS, MANTISSA_BITS);
    Powers();
    QuotientBound(Pow2(RAW_BITS), v, m);
    MulMono(LEADING, v, Pow2(RAW_BITS));
    assert LEADING * Pow2(RAW_BITS) == Pow2(RAW_BITS) * LEADING && v * Pow2(RAW_BITS) == Pow2(RAW_BITS) * v;
  }

  // ----- Order -----

  lemma MantissaBelow(packed: nat)
    requires packed < INF
    ensures Order(packed) <= MAX_ORDER && Mantissa(packed) < 2 * LEADING
    ensures Unpack(packed) + Pow2(Order(packed)) <= 2 * LEADING * Pow2(Order(packed))
  {
    hide Pow2;
    var o := Pow2(Order(packed));
    MulMono(Mantissa(packed) + 1, 2 * LEADING, o);
    assert (Mantissa(packed) + 1) * o == Mantissa(packed) * o + o;
  }

  /** Packed values differ by at least the weight of the last bit of the smaller one. */
  lemma Gap(a: nat, b: nat)
    requires a < b < INF
    ensures Unpack(a) + Pow2(Order(a)) <= Unpack(b)
  {
    hide Pow2;
    var p, q := Order(a), Order(b);
    OrdersRise(a, b);
    if p == q {
      MulMono(Mantissa(a) + 1, Mantissa(b), Pow2(p));
      assert (Mantissa(a) + 1) * Pow2(p) == Mantissa(a) * Pow2(p) + Pow2(p);
    } else {
      MantissaBelow(a);
      Pow2Mono(p + 1, q);
      assert Pow2(p + 1) == 2 * Pow2(p) by { Pow2Double(p); }
      MulMono(2 * Pow2(p), Pow2(q), LEADING);
      MulMono(LEADING, Mantissa(b), Pow2(q));
      assert 2 * LEADING * Pow2(p) == 2 * Pow2(p) * LEADING && LEADING * Pow2(q) == Pow2(q) * LEADING;
    }
  }

  lemma OrdersRise(a: nat, b: nat)
    requires a < b
    ensures Order(a) <= Order(b) && (Order(a) == Order(b) ==> Mantissa(a) < Mantissa(b))
  {
    DivMod(a, LEADING);
    DivMod(b, LEADING);
  }

  lemma Pow2Double(n: nat)
    ensures Pow2(n + 1) == 2 * Pow2(n)
  {
  }

  lemma Pow2One()
    ensures Pow2(1) == 2
  {
  }

  /** All values below infinity are below 2^256 by at least the last bit of the largest. */
  lemma BelowTop(packed: nat)
    requires packed < INF
    ensures Unpack(packed) + Pow2(MAX_ORDER) <= Pow2(RAW_BITS)
    ensures Order(packed) < MAX_ORDER ==> Unpack(packed) < Pow2(RAW_BITS - 1)
  {
    hide Pow2, Unpack;
    var o := Order(packed);
    MantissaBelow(packed);
    Powers();
    Pow2Add(25, o);
    Pow2Mono(o, MAX_ORDER);
    if o < MAX_ORDER {
      Pow2Mono(25 + o, RAW_BITS - 1);
      Pow2Double(RAW_BITS - 1);
      Pow2Mono(MAX_ORDER, RAW_BITS - 1);
    }
  }

  /** Packed values are ordered as the difficulties they stand for. */
  lemma OrderKept(a: nat, b: nat)
    requires a < b <= INF
    ensures Unpack(a) < Unpack(b)
  {
    hide Pow2;
    if b < INF {
      Gap(a, b);
    } else {
      BelowTop(a);
      Pow2Mono(1, MAX_ORDER);
      Pow2One();
    }
  }

  /** The larger difficulty has the smaller target, and a strictly smaller one below the largest order. */
  lemma TargetFalls(a: nat, b: nat)
    requires a < b <= INF
    ensures Unpack(a) > 0 && Unpack(b) > 0 && Target(b) <= Target(a)
    ensures Order(b) < MAX_ORDER ==> Target(b) < Target(a)
  {
    hide Pow2, Unpack;
    UnpackPositive(a);
    UnpackPositive(b);
    OrderKept(a, b);
    var va, vb, m := Unpack(a), Unpack(b), Pow2(RAW_BITS + MANTISSA_BITS) - 1;
    var t := m / vb;
    QuotientBound(t, vb, m);
    MulMono(va, vb, t);
    assert va * t == t * va && vb * t == t * vb;
    QuotientBound(t, va, m);
    if Order(b) < MAX_ORDER {
      OrderOfInf(b);
      StrictlyBelow(a, b, m, t);
    }
  }

  lemma OrderOfInf(b: nat)
    requires b <= INF && Order(b) < MAX_ORDER
    ensures b < INF
  {
  }

  lemma StrictlyBelow(a: nat, b: nat, m: nat, t: nat)
    requires a < b < INF && Order(b) < MAX_ORDER && m == Pow2(RAW_BITS + MANTISSA_BITS) - 1
    requires Unpack(a) > 0 && Unpack(b) > 0 && t == m / Unpack(b)
    ensures t < m / Unpack(a)
  {
    hide Pow2, Unpack;
    var va, vb, w := Unpack(a), Unpack(b), Pow2(Order(a));
    Gap(a, b);
    MantissaBelow(a);
    BelowTop(b);
    Powers();
    Pow2Add(25, RAW_BITS - 1);
    QuotientBound(2 * LEADING, vb, m);
    MulMono(vb, Pow2(RAW_BITS - 1) - 1, 2 * LEADING);
    assert vb * (2 * LEADING) == 2 * LEADING * vb;
    QuotientBound(t, vb, m);
    OneMore(t, va, vb, w, m);
    QuotientBound(t + 1, va, m);
  }

  lemma OneMore(t: nat, va: nat, vb: nat, w: nat, m: nat)
    requires t * vb <= m && va + w <= vb && va <= 2 * LEADING * w && 2 * LEADING <= t
    ensures (t + 1) * va <= m
  {
    MulMono(va + w, vb, t);
    assert (va + w) * t == va * t + w * t && vb * t == t * vb;
    MulMono(2 * LEADING, t, w);
    assert (t + 1) * va == va * t + va && w * t == t * w;
  }

  /** At the very top the target no longer moves. */
  lemma LastTargets()
    ensures Unpack(INF - 1) > 0 && Unpack(INF) > 0 && Target(INF - 1) == Target(INF) == LEADING
  {
    hide Pow2;
    Powers();
    var top, m := Pow2(RAW_BITS), Pow2(RAW_BITS + MANTISSA_BITS) - 1;
    Pow2Add(MANTISSA_BITS, RAW_BITS);
    Pow2Mono(25, RAW_BITS);
    DivModUnique(m, top - 1, LEADING, LEADING - 1);
    Pow2Add(25, MAX_ORDER);
    Pow2Double(RAW_BITS - 1);
    var va := (2 * LEADING - 1) * Pow2(MAX_ORDER);
    assert Unpack(INF - 1) == va;
    assert va == top - Pow2(MAX_ORDER);
    Pow2Add(24, MAX_ORDER);
    Pow2Mono(MAX_ORDER, RAW_BITS - 1);
    DivModUnique(m, va, LEADING, Pow2(RAW_BITS - 1) - 1);
  }

  // ----- Powers of two with any exponent -----

  function P2(n: int): (r: real)
    ensures r > 0.0
  {
    if n >= 0 then Pow2(n) as real else 1.0 / (Pow2(-n) as real)
  }

  lemma P2Next(n: int)
    ensures P2(n + 1) == 2.0 * P2(n)
  {
    if n < -1 {
      assert Pow2(-n) == 2 * Pow2(-n - 1);
      Inverted(Pow2(-n - 1) as real);
    }
  }

  lemma Inverted(p: real)
    requires p > 0.0
    ensures 1.0 / p == 2.0 * (1.0 / (2.0 * p))
  {
  }

  lemma {:induction false} P2Add(a: int, b: int)
    ensures P2(a + b) == P2(a) * P2(b)
    decreases if b < 0 then -b else b
  {
    hide P2;
    if b == 0 {
      P2Zero();
    } else if b > 0 {
      P2Add(a, b - 1);
      P2Next(a + b - 1);
      P2Next(b - 1);
      assert P2(a) * (2.0 * P2(b - 1)) == 2.0 * (P2(a) * P2(b - 1));
    } else {
      P2Add(a, b + 1);
      P2Next(a + b);
      P2Next(b);
      assert P2(a) * (2.0 * P2(b)) == 2.0 * (P2(a) * P2(b));
    }
  }

  lemma P2Zero()
    ensures P2(0) == 1.0
  {
  }

  // ----- Floating point of 32 bits -----

  datatype BigFloat = BigFloat(order: int, value: nat)

  ghost function Val(x: BigFloat): real {
    x.value as real * P2(x.order)
  }

  const HALF: nat := 128 * LEADING
  const WORD: nat := 256 * LEADING

  /** 2^-31 */
  const E: real := 1.0 / 2147483648.0

  predicate Normal(x: BigFloat) {
    HALF <= x.value < WORD
  }

  function BitLen(n: nat): nat {
    if n == 0 then 0 else 1 + BitLen(n / 2)
  }

  lemma {:induction false} BitLenIs(n: nat)
    requires n > 0
    ensures BitLen(n) > 0 && Pow2(BitLen(n) - 1) <= n < Pow2(BitLen(n))
  {
    if n / 2 > 0 {
      BitLenIs(n / 2);
    } else {
      assert n == 1 && BitLen(0) == 0;
    }
  }

  /** Assignment from an integer: the top 32 bits. */
  function Normalize(n: nat): BigFloat {
    if n == 0 then BigFloat(0, 0)
    else
      var o := BitLen(n) - 32;
      DivNonNegative(n, Pow2(if o > 0 then o else 0));
      if o > 0 then BigFloat(o, n / Pow2(o)) else BigFloat(o, n * Pow2(-o))
  }

  /** Truncation loses less than one part in 2^31. */
  lemma NormalizeIs(n: nat)
    requires n > 0
    ensures Normal(Normalize(n)) && Val(Normalize(n)) <= n as real < Val(Normalize(n)) * (1.0 + E)
  {
    var o := BitLen(n) - 32;
    hide Pow2, BitLen;
    if o > 0 {
      NormalizeDown(n, o);
    } else {
      NormalizeUp(n, o);
    }
  }

  lemma NormalizeDown(n: nat, o: int)
    requires n > 0 && o == BitLen(n) - 32 && o > 0
    ensures
      var x := BigFloat(o, n / Pow2(o));
      Normal(x) && Val(x) <= n as real < Val(x) * (1.0 + E)
  {
    hide Pow2, P2, BitLen, Val;
    TopOf(n, o);
    P2Positive(o);
    ValOfTop(o, n / Pow2(o), Pow2(o), n);
  }

  lemma ValOfTop(o: int, v: nat, p: nat, n: nat)
    requires P2(o) == p as real && HALF <= v && p > 0 && v * p <= n < (v + 1) * p
    ensures Val(BigFloat(o, v)) <= n as real < Val(BigFloat(o, v)) * (1.0 + E)
  {
    hide P2;
    Truncated(v, p, n);
  }

  lemma TopOf(n: nat, o: int)
    requires n > 0 && o == BitLen(n) - 32 && o > 0
    ensures HALF <= n / Pow2(o) < WORD && n / Pow2(o) * Pow2(o) <= n < (n / Pow2(o) + 1) * Pow2(o)
  {
    hide Pow2;
    BitLenIs(n);
    Powers();
    Pow2Add(31, o);
    Pow2Add(32, o);
    TopBits(n, Pow2(o));
  }

  lemma NormalizeUp(n: nat, o: int)
    requires n > 0 && o == BitLen(n) - 32 && o <= 0
    ensures
      var x := BigFloat(o, n * Pow2(-o));
      Normal(x) && Val(x) <= n as real < Val(x) * (1.0 + E)
  {
    hide Pow2, P2, BitLen, Val;
    ShiftedUp(n, o);
    Opposite(o);
    ValOfShifted(o, n, Pow2(-o));
  }

  lemma ValOfShifted(o: int, n: nat, p: nat)
    requires p as real * P2(o) == 1.0 && n > 0
    ensures Val(BigFloat(o, n * p)) <= n as real < Val(BigFloat(o, n * p)) * (1.0 + E)
  {
    hide P2;
    CastMul(n, p);
    Unshifted(n as real, p as real, P2(o));
  }

  lemma Opposite(o: int)
    requires o <= 0
    ensures Pow2(-o) as real * P2(o) == 1.0
  {
    hide Pow2, P2;
    P2Add(-o, o);
    P2Zero();
    P2Positive(-o);
  }

  lemma P2Positive(o: int)
    requires o >= 0
    ensures P2(o) == Pow2(o) as real
  {
  }

  lemma TopBits(n: nat, p: nat)
    requires p > 0 && HALF * p <= n < WORD * p
    ensures HALF <= n / p < WORD && n / p * p <= n < (n / p + 1) * p
  {
    assert n == n / p * p + n % p;
    assert (n / p + 1) * p == n / p * p + p;
    if n / p < HALF {
      MulMono(n / p + 1, HALF, p);
    }
    if n / p >= WORD {
      MulMono(WORD, n / p, p);
    }
  }

  /** v·p and (v + 1)·p differ by less than one part in 2^31 when v has 32 bits. */
  lemma Truncated(v: nat, p: nat, n: nat)
    requires HALF <= v && p > 0 && v * p <= n < (v + 1) * p
    ensures v as real * p as real <= n as real < v as real * p as real * (1.0 + E)
  {
    CastMul(v, p);
    assert (v + 1) * p == v * p + p;
    RelativeUnit(v as real, p as real);
  }

  lemma {:induction false} CastMul(a: nat, b: nat)
    ensures (a * b) as real == a as real * b as real
  {
    if b > 0 {
      CastMul(a, b - 1);
      assert a * b == a * (b - 1) + a;
      CastStep(a as real, b as real);
    }
  }

  lemma CastStep(a: real, b: real)
    ensures a * b == a * (b - 1.0) + a
  {
  }

  lemma RelativeUnit(v: real, p: real)
    requires v >= HALF as real && p > 0.0
    ensures v * p + p <= v * p * (1.0 + E)
  {
    assert v * E >= 1.0;
    ScaleUp(1.0, v * E, p);
    assert v * E * p == v * p * E;
    assert v * p * (1.0 + E) == v * p + v * p * E;
  }

  lemma ScaleUp(a: real, b: real, p: real)
    requires a <= b && p > 0.0
    ensures a * p <= b * p
  {
  }

  lemma ShiftedUp(n: nat, o: int)
    requires n > 0 && o <= 0 && o == BitLen(n) - 32
    ensures HALF <= n * Pow2(-o) < WORD
  {
    hide Pow2;
    BitLenIs(n);
    var k := BitLen(n);
    Powers();
    Pow2Add(k - 1, -o);
    Pow2Add(k, -o);
    MulMono(Pow2(k - 1), n, Pow2(-o));
    MulMono(n + 1, Pow2(k), Pow2(-o));
    assert (n + 1) * Pow2(-o) == n * Pow2(-o) + Pow2(-o);
  }

  lemma Unshifted(n: real, p: real, q: real)
    requires n > 0.0 && p * q == 1.0
    ensures n * p * q == n && n < n * p * q * (1.0 + E)
  {
    assert n * p * q == n * (p * q);
  }

  // ----- Products and quotients -----

  function Times(a: BigFloat, b: BigFloat): BigFloat {
    var x := Normalize(a.value * b.value);
    BigFloat(x.order + a.order + b.order, x.value)
  }

  function Over(a: BigFloat, b: BigFloat): BigFloat
    requires b.value > 0
  {
    DivNonNegative(a.value * WORD, b.value);
    var x := Normalize(a.value * WORD / b.value);
    BigFloat(x.order + a.order - (b.order + 32), x.value)
  }

  /** x approximates r from below within the given factor. */
  ghost predicate Approx(x: BigFloat, r: real, f: real) {
    Normal(x) && Val(x) <= r < Val(x) * f
  }

  lemma TimesIs(a: BigFloat, b: BigFloat)
    requires Normal(a) && Normal(b)
    ensures Approx(Times(a, b), Val(a) * Val(b), 1.0 + E)
  {
    hide P2, Val, Normalize;
    var p := a.value * b.value;
    MulMono(1, a.value, b.value);
    NormalizeIs(p);
    var x := Normalize(p);
    P2Add(x.order, a.order + b.order);
    assert x.order + (a.order + b.order) == x.order + a.order + b.order;
    ProductValue(a, b);
    ValIs(x);
    ValIs(Times(a, b));
    Rescale(x.value as real, P2(x.order), p as real, P2(a.order + b.order), 1.0 + E);
  }

  lemma ProductValue(a: BigFloat, b: BigFloat)
    ensures Val(a) * Val(b) == (a.value * b.value) as real * P2(a.order + b.order)
  {
    hide P2;
    P2Add(a.order, b.order);
    CastMul(a.value, b.value);
    FourFactors(a.value as real, P2(a.order), b.value as real, P2(b.order));
  }

  lemma FourFactors(a: real, p: real, b: real, q: real)
    ensures (a * p) * (b * q) == (a * b) * (p * q)
  {
    assert (a * p) * (b * q) == a * (p * (b * q));
    assert p * (b * q) == b * (p * q);
  }

  lemma Rescale(v: real, p: real, n: real, s: real, f: real)
    requires s > 0.0 && v * p <= n < v * p * f
    ensures v * (p * s) <= n * s < v * (p * s) * f
  {
    assert v * (p * s) == v * p * s;
    ScaleUp(v * p, n, s);
    assert n * s < v * p * f * s;
    assert v * p * f * s == v * p * s * f;
  }

  lemma OverIs(a: BigFloat, b: BigFloat)
    requires Normal(a) && Normal(b)
    ensures Approx(Over(a, b), Val(a) / Val(b), (1.0 + E) * (1.0 + E))
  {
    hide P2;
    var q := a.value * WORD / b.value;
    QuotientSize(a.value, b.value);
    NormalizeIs(q);
    var x := Normalize(q);
    var s := P2(a.order - (b.order + 32));
    P2Add(x.order, a.order - (b.order + 32));
    assert x.order + (a.order - (b.order + 32)) == x.order + a.order - (b.order + 32);
    hide Normalize, Val;
    OverQuotient(a, b, q, s);
    ValIs(x);
    OverGlue(x.value as real, P2(x.order), q as real, Val(a) / Val(b), s);
    ValIs(Over(a, b));
  }

  lemma ValIs(x: BigFloat)
    ensures Val(x) == x.value as real * P2(x.order)
  {
  }

  lemma OverGlue(v: real, p: real, q: real, r: real, s: real)
    requires s > 0.0 && 0.0 < v * p <= q < v * p * (1.0 + E) && q <= r / s < q * (1.0 + E)
    ensures v * (p * s) <= r < v * (p * s) * ((1.0 + E) * (1.0 + E))
  {
    Chain(v * p, q, r / s);
    Rescale(v, p, r / s, s, (1.0 + E) * (1.0 + E));
    assert r / s * s == r;
  }

  /** The integer quotient against the real one. */
  lemma OverQuotient(a: BigFloat, b: BigFloat, q: nat, s: real)
    requires Normal(a) && Normal(b) && s == P2(a.order - (b.order + 32)) && q == a.value * WORD / b.value && q >= HALF
    ensures Val(b) > 0.0 && q as real <= Val(a) / Val(b) / s < q as real * (1.0 + E) && Val(a) / Val(b) / s * s == Val(a) / Val(b)
  {
    hide P2;
    FloorBound(a.value * WORD, b.value, q);
    CastMul(a.value, WORD);
    OverValue(a, b, s);
    Undivided(a.value as real * WORD as real / b.value as real, s);
  }

  lemma Undivided(r: real, s: real)
    requires s > 0.0
    ensures r * s / s == r
  {
  }

  lemma QuotientSize(a: nat, b: nat)
    requires HALF <= a < WORD && HALF <= b < WORD
    ensures HALF <= a * WORD / b && a * WORD / b > 0
  {
    var q := a * WORD / b;
    assert a * WORD == q * b + a * WORD % b;
    assert (q + 1) * b == q * b + b;
    if q < HALF {
      MulMono(q + 1, HALF, b);
    }
  }

  lemma FloorBound(n: nat, b: nat, q: nat)
    requires b > 0 && q == n / b && q >= HALF
    ensures q as real <= n as real / b as real < q as real * (1.0 + E)
  {
    assert n == q * b + n % b;
    assert (q + 1) * b == q * b + b;
    CastMul(q, b);
    CastMul(q + 1, b);
    DivideReal(n as real, b as real, q as real);
    RelativeUnit(q as real, 1.0);
  }

  lemma DivideReal(n: real, b: real, q: real)
    requires b > 0.0 && q * b <= n < (q + 1.0) * b
    ensures q <= n / b < q + 1.0
  {
    var d := n / b;
    assert d * b == n;
    if d < q {
      LessTimes(d, q, b);
    }
    if d >= q + 1.0 {
      ScaleUp(q + 1.0, d, b);
    }
  }

  lemma LessTimes(a: real, b: real, p: real)
    requires a < b && p > 0.0
    ensures a * p < b * p
  {
  }

  lemma Chain(x: real, q: real, r: real)
    requires 0.0 < x <= q < x * (1.0 + E) && q <= r < q * (1.0 + E)
    ensures x <= r < x * ((1.0 + E) * (1.0 + E))
  {
    LessTimes(q, x * (1.0 + E), 1.0 + E);
    assert x * (1.0 + E) * (1.0 + E) == x * ((1.0 + E) * (1.0 + E));
  }

  lemma OverValue(a: BigFloat, b: BigFloat, s: real)
    requires Normal(a) && Normal(b) && s == P2(a.order - (b.order + 32))
    ensures Val(b) > 0.0 && Val(a) / Val(b) == a.value as real * WORD as real / b.value as real * s
  {
    hide P2;
    P2Add(a.order - (b.order + 32), b.order + 32);
    P2Add(b.order, 32);
    WordIsPower();
    // s * (P2(b.order) * WORD) == P2(a.order)
    RatioOf(a.value as real, P2(a.order), b.value as real, P2(b.order), WORD as real, s);
  }

  lemma WordIsPower()
    ensures P2(32) == WORD as real
  {
    hide Pow2;
    Powers();
  }

  lemma RatioOf(a: real, pa: real, b: real, pb: real, w: real, s: real)
    requires b > 0.0 && pb > 0.0 && w > 0.0 && pa == s * (pb * w)
    ensures b * pb > 0.0 && (a * pa) / (b * pb) == a * w / b * s
  {
    var q := a * w / b * s;
    assert a * w / b * b == a * w;
    assert q * (b * pb) == (a * w / b * b) * (s * pb);
    assert (a * w) * (s * pb) == a * (s * (pb * w));
    assert q * (b * pb) == a * pa;
  }

  // ----- Adjustment -----

  /** The quotient before it is packed. */
  function Scaled(ref: nat, dh: nat, dtTrg: nat, dtSrc: nat): BigFloat
    requires dtSrc * dh > 0
  {
    NormalizeIs(dtSrc * dh);
    Over(Times(Normalize(ref), Normalize(dtTrg)), Normalize(dtSrc * dh))
  }

  function Calculate(ref: nat, dh: nat, dtTrg: nat, dtSrc: nat): nat
    requires dtSrc * dh > 0
  {
    var x := Scaled(ref, dh, dtTrg, dtSrc);
    if x.value == 0 then 0
    else if x.order + 7 >= 0 then Pack(x.order + 7, x.value / 128)
    else 0
  }

  /** The exponent is representable: neither too small nor too large for a packed value. */
  predicate Unclamped(ref: nat, dh: nat, dtTrg: nat, dtSrc: nat)
    requires dtSrc * dh > 0
  {
    0 <= Scaled(ref, dh, dtTrg, dtSrc).order + 7 <= MAX_ORDER
  }

  ghost function Prod(a: real, b: real): real {
    a * b
  }

  ghost function Quot(a: real, b: real): real
    requires b != 0.0
  {
    a / b
  }

  /** x is positive and below r by a factor less than f. */
  ghost predicate Near(x: real, r: real, f: real) {
    0.0 < x <= r < x * f
  }

  /** v·n is q up to the rounding errors of a product and a quotient of rounded values. */
  ghost predicate Bounded(v: real, n: real, q: real) {
    v * n < q * (1.0 + E) && q < v * n * ((1.0 + E) * (1.0 + E) * (1.0 + E) * (1.0 + E) * (1.0 + E))
  }

  lemma NearNormalize(n: nat)
    requires n > 0
    ensures Normal(Normalize(n)) && Near(Val(Normalize(n)), n as real, 1.0 + E)
  {
    hide Val, Normalize;
    NormalizeIs(n);
    ValPositive(Normalize(n));
  }

  lemma NearTimes(a: BigFloat, b: BigFloat)
    requires Normal(a) && Normal(b)
    ensures Normal(Times(a, b)) && Near(Val(Times(a, b)), Prod(Val(a), Val(b)), 1.0 + E)
  {
    hide Val, Times;
    TimesIs(a, b);
    ValPositive(Times(a, b));
  }

  lemma NearOver(a: BigFloat, b: BigFloat)
    requires Normal(a) && Normal(b)
    ensures Normal(Over(a, b)) && Val(b) > 0.0 && Near(Val(Over(a, b)), Quot(Val(a), Val(b)), (1.0 + E) * (1.0 + E))
  {
    hide Val, Over;
    OverIs(a, b);
    ValPositive(b);
    ValPositive(Over(a, b));
  }

  lemma ScaledBounds(ref: nat, dh: nat, dtTrg: nat, dtSrc: nat)
    requires ref > 0 && dtTrg > 0 && dtSrc * dh > 0
    ensures
      var x := Scaled(ref, dh, dtTrg, dtSrc);
      Normal(x) && Bounded(Val(x), (dtSrc * dh) as real, Prod(ref as real, dtTrg as real))
  {
    hide Val, Normalize, Times, Over, Near, Bounded, Prod, Quot;
    var n := dtSrc * dh;
    var a, t, d := Normalize(ref), Normalize(dtTrg), Normalize(n);
    NearNormalize(ref);
    NearNormalize(dtTrg);
    NearNormalize(n);
    var p := Times(a, t);
    NearTimes(a, t);
    NearOver(p, d);
    Errors(Val(Over(p, d)), Val(p), Val(a), Val(t), Val(d), ref as real, dtTrg as real, n as real);
  }

  lemma ValPositive(x: BigFloat)
    requires Normal(x)
    ensures Val(x) > 0.0
  {
  }

  lemma Errors(v: real, p: real, a: real, t: real, d: real, r: real, s: real, n: real)
    requires Near(a, r, 1.0 + E) && Near(t, s, 1.0 + E) && Near(d, n, 1.0 + E)
    requires Near(p, Prod(a, t), 1.0 + E) && d > 0.0 && Near(v, Quot(p, d), (1.0 + E) * (1.0 + E))
    ensures Bounded(v, n, Prod(r, s))
  {
    var k := 1.0 + E;
    Undivide(v, p, d, k);
    UpperError(v, p, a, t, d, r, s, n, k);
    LowerError(v, p, a, t, d, r, s, n, k);
  }

  lemma Undivide(v: real, p: real, d: real, k: real)
    requires d > 0.0 && v <= p / d < v * (k * k)
    ensures v * d <= p < v * d * (k * k)
  {
    assert p / d * d == p;
    ScaleUp(v, p / d, d);
    LessTimes(p / d, v * (k * k), d);
    assert v * (k * k) * d == v * d * (k * k);
  }

  lemma UpperError(v: real, p: real, a: real, t: real, d: real, r: real, s: real, n: real, k: real)
    requires v > 0.0 && k > 1.0 && v * d <= p <= a * t && 0.0 < a <= r && 0.0 < t <= s && n < d * k
    ensures v * n < r * s * k
  {
    Product2(a, r, t, s);
    LessTimes(n, d * k, v);
    assert d * k * v == v * d * k && n * v == v * n;
    ScaleUp(v * d, r * s, k);
  }

  lemma LowerError(v: real, p: real, a: real, t: real, d: real, r: real, s: real, n: real, k: real)
    requires v > 0.0 && k > 1.0 && 0.0 < d <= n && 0.0 < a <= r < a * k && 0.0 < t <= s < t * k
    requires a * t < p * k && p < v * d * (k * k)
    ensures r * s < v * n * (k * k * k * k * k)
  {
    Product2Less(r, a * k, s, t * k);
    assert a * k * (t * k) == a * t * (k * k);
    Cubes(k);
    LessTimes(a * t, p * k, k * k);
    assert p * k * (k * k) == p * (k * k * k);
    LessTimes(p, v * d * (k * k), k * k * k);
    assert v * d * (k * k) * (k * k * k) == v * d * (k * k * k * k * k);
    ScaleUp(d, n, v);
    assert d * v == v * d && n * v == v * n;
    ScaleUp(v * d, v * n, k * k * k * k * k);
  }

  lemma Cubes(k: real)
    requires k > 1.0
    ensures k * k > 1.0 && k * k * k > 1.0 && k * k * k * k > 1.0 && k * k * k * k * k > 1.0
  {
    LessTimes(1.0, k, k);
    LessTimes(1.0, k * k, k);
    LessTimes(1.0, k * k * k, k);
    LessTimes(1.0, k * k * k * k, k);
  }

  lemma Product2(a: real, r: real, t: real, s: real)
    requires 0.0 < a <= r && 0.0 < t <= s
    ensures a * t <= r * s
  {
    ScaleUp(a, r, t);
    ScaleUp(t, s, r);
    assert t * r == r * t && s * r == r * s;
  }

  lemma Product2Less(r: real, a: real, s: real, t: real)
    requires 0.0 < r < a && 0.0 < s < t
    ensures r * s < a * t
  {
    LessTimes(r, a, s);
    LessTimes(s, t, a);
    assert s * a == a * s && t * a == a * t;
  }

  lemma PackedBounds(x: BigFloat)
    requires Normal(x)
    ensures LEADING <= x.value / 128 < 2 * LEADING
    ensures
      var f := (x.value / 128) as real * P2(x.order + 7);
      f <= Val(x) < f * (1.0 + 1.0 / 16777216.0)
  {
    hide P2;
    var m := x.value / 128;
    P2Add(x.order, 7);
    SevenBits();
    LastBits(m as real, x.value as real, P2(x.order));
  }

  lemma SevenBits()
    ensures P2(7) == 128.0
  {
    hide Pow2;
    Powers();
  }

  lemma LastBits(m: real, v: real, p: real)
    requires m >= 16777216.0 && p > 0.0 && m * 128.0 <= v < m * 128.0 + 128.0
    ensures m * (p * 128.0) <= v * p < m * (p * 128.0) * (1.0 + 1.0 / 16777216.0)
  {
    ScaleUp(m * 128.0, v, p);
    LessTimes(v, m * 128.0 + 128.0, p);
    assert m * 128.0 * p == m * (p * 128.0);
    assert (m * 128.0 + 128.0) * p == m * (p * 128.0) + 128.0 * p;
    ScaleUp(1.0, m * (1.0 / 16777216.0), 128.0 * p);
    assert m * (1.0 / 16777216.0) * (128.0 * p) == m * (p * 128.0) * (1.0 / 16777216.0);
  }

  /** When the exponent is representable, the new difficulty is strictly between 1 - 2^-23 and 1 + 2^-30 times
      ref·dtTrg / (dtSrc·dh), both sides multiplied by the divisor. */
  lemma CalculateAccuracy(ref: nat, dh: nat, dtTrg: nat, dtSrc: nat)
    requires ref > 0 && dtTrg > 0 && dtSrc * dh > 0 && Unclamped(ref, dh, dtTrg, dtSrc)
    ensures
      var u := Unpack(Calculate(ref, dh, dtTrg, dtSrc)) as real;
      var exact := ref as real * dtTrg as real;
      var d := (dtSrc * dh) as real;
      exact * (1.0 - 1.0 / 8388608.0) < u * d < exact * (1.0 + 1.0 / 1073741824.0)
  {
    hide Pow2, P2, Scaled, Val, Unpack, Bounded;
    var x := Scaled(ref, dh, dtTrg, dtSrc);
    ScaledBounds(ref, dh, dtTrg, dtSrc);
    PackedBounds(x);
    var o, m := x.order + 7, x.value / 128;
    PackThenUnpack(o, m);
    P2Positive(o);
    CastMul(m, Pow2(o));
    var exact := ref as real * dtTrg as real;
    Positive2(ref as real, dtTrg as real);
    FinalBounds((m * Pow2(o)) as real, Val(x), (dtSrc * dh) as real, exact);
  }

  lemma Positive2(a: real, b: real)
    requires a > 0.0 && b > 0.0
    ensures a * b > 0.0
  {
  }

  lemma FinalBounds(f: real, v: real, d: real, q: real)
    requires 0.0 < f <= v < f * (1.0 + 1.0 / 16777216.0) && d > 0.0 && q > 0.0
    requires Bounded(v, d, q)
    ensures q * (1.0 - 1.0 / 8388608.0) < f * d < q * (1.0 + 1.0 / 1073741824.0)
  {
    ScaleUp(f, v, d);
    ScaleUp(1.0 + E, 1.0 + 1.0 / 1073741824.0, q);
    assert q * (1.0 + E) == (1.0 + E) * q;
    var k := (1.0 + E) * (1.0 + E) * (1.0 + E) * (1.0 + E) * (1.0 + E);
    var e := 1.0 + 1.0 / 16777216.0;
    var c := 1.0 - 1.0 / 8388608.0;
    LessTimes(v, f * e, d);
    LessTimes(v * d, f * e * d, k);
    assert f * e * d * k == f * d * (e * k);
    LessTimes(q, f * d * (e * k), c);
    assert f * d * (e * k) * c == f * d * (e * k * c);
    assert e * k * c < 1.0;
    Positive2(f, d);
    LessTimes(e * k * c, 1.0, f * d);
    assert e * k * c * (f * d) == f * d * (e * k * c);
  }

  // ----- Which quotients are representable -----

  lemma {:induction false} P2Mono(a: int, b: int)
    requires a <= b
    ensures P2(a) <= P2(b)
    decreases b - a
  {
    hide P2;
    if a < b {
      P2Mono(a, b - 1);
      P2Next(b - 1);
    }
  }

  lemma ValRange(x: BigFloat)
    requires Normal(x)
    ensures P2(x.order + 31) <= Val(x) < P2(x.order + 32)
  {
    hide P2;
    HalfIsPower();
    WordIsPower();
    P2Add(x.order, 31);
    P2Add(x.order, 32);
    ScaleUp(HALF as real, x.value as real, P2(x.order));
    LessTimes(x.value as real, WORD as real, P2(x.order));
  }

  lemma HalfIsPower()
    ensures P2(31) == HALF as real
  {
    hide Pow2;
    Powers();
  }

  const K5: real := (1.0 + E) * (1.0 + E) * (1.0 + E) * (1.0 + E) * (1.0 + E)

  lemma Constants()
    ensures 1.0 < K5 && 16777216.0 * K5 < 16777217.0 && 16777215.0 * (1.0 + E) < 16777216.0
    ensures 2147483648.0 * K5 < 2147483654.0 && 2147483647.0 * (1.0 + E) < 2147483648.0
  {
  }

  /** In terms of the quotient itself: from 2^24 + 1 to 2^256 - 2^225 the exponent is representable, at most 2^24 - 1 or from
      2^256 + 6 * 2^225 on it is not. */
  lemma RepresentableQuotients(ref: nat, dh: nat, dtTrg: nat, dtSrc: nat)
    requires ref > 0 && dtTrg > 0 && dtSrc * dh > 0
    ensures
      var n, q := dtSrc * dh, ref * dtTrg;
      && ((LEADING + 1) * n <= q <= (HALF - 1) * (Pow2(225) * n) ==> Unclamped(ref, dh, dtTrg, dtSrc))
      && (Unclamped(ref, dh, dtTrg, dtSrc) ==> (LEADING - 1) * n < q < (HALF + 6) * (Pow2(225) * n))
  {
    hide Pow2, P2, Scaled, Val, Bounded;
    var x := Scaled(ref, dh, dtTrg, dtSrc);
    var n, q := dtSrc * dh, ref * dtTrg;
    ScaledBounds(ref, dh, dtTrg, dtSrc);
    CastMul(ref, dtTrg);
    MulMono(1, ref, dtTrg);
    ValPositive(x);
    ValRange(x);
    OrderFromQuotient(x.order, Val(x), n, q);
  }

  lemma OrderFromQuotient(order: int, v: real, n: nat, q: nat)
    requires n > 0 && q > 0 && P2(order + 31) <= v < P2(order + 32) && Bounded(v, n as real, q as real)
    ensures (LEADING + 1) * n <= q ==> order >= -7
    ensures q <= (HALF - 1) * (Pow2(225) * n) ==> order <= 224
    ensures order >= -7 ==> (LEADING - 1) * n < q
    ensures order <= 224 ==> q < (HALF + 6) * (Pow2(225) * n)
  {
    hide Pow2, P2, Bounded;
    LowerEnd(order, v, n, q);
    UpperEnd(order, v, n, q);
  }

  lemma LowerEnd(order: int, v: real, n: nat, q: nat)
    requires n > 0 && q > 0 && P2(order + 31) <= v < P2(order + 32) && Bounded(v, n as real, q as real)
    ensures (LEADING + 1) * n <= q ==> order >= -7
    ensures order >= -7 ==> (LEADING - 1) * n < q
  {
    hide Pow2, P2, Bounded;
    Anchors();
    var d := n as real;
    if order < -7 {
      P2Mono(order + 32, 24);
      Below(v, d, q as real, LEADING as real, 1.0);
      LessWhole(LEADING + 1, n, q);
    } else {
      P2Mono(24, order + 31);
      Above(v, d, q as real, LEADING as real, 1.0);
      MoreWhole(LEADING - 1, n, q);
    }
  }

  lemma UpperEnd(order: int, v: real, n: nat, q: nat)
    requires n > 0 && q > 0 && P2(order + 31) <= v < P2(order + 32) && Bounded(v, n as real, q as real)
    ensures q <= (HALF - 1) * (Pow2(225) * n) ==> order <= 224
    ensures order <= 224 ==> q < (HALF + 6) * (Pow2(225) * n)
  {
    hide Pow2, P2, Bounded;
    Anchors();
    CastMul(Pow2(225), n);
    var d := n as real;
    if order > 224 {
      P2Mono(256, order + 31);
      Above(v, d, q as real, HALF as real, P2(225));
      MoreWhole(HALF - 1, Pow2(225) * n, q);
    } else {
      P2Mono(order + 32, 256);
      Below(v, d, q as real, HALF as real, P2(225));
      LessWhole(HALF + 6, Pow2(225) * n, q);
    }
  }

  lemma LessWhole(k: nat, c: nat, q: nat)
    requires q as real < k as real * c as real
    ensures q < k * c
  {
    CastMul(k, c);
  }

  lemma MoreWhole(k: nat, c: nat, q: nat)
    requires k as real * c as real < q as real
    ensures k * c < q
  {
    CastMul(k, c);
  }

  lemma Anchors()
    ensures P2(24) == LEADING as real && P2(256) == HALF as real * P2(225) && P2(225) == Pow2(225) as real
  {
    hide Pow2;
    Powers();
    HalfIsPower();
    hide P2;
    P2Add(31, 225);
    P2Positive(225);
    P2Positive(24);
  }

  /** A value below k units makes the product smaller than k units and a little. */
  lemma Below(v: real, n: real, q: real, k: real, u: real)
    requires n > 0.0 && u > 0.0 && q > 0.0 && v < k * u && Bounded(v, n, q) && k > 0.0
    ensures k == LEADING as real ==> q < (LEADING as real + 1.0) * (u * n)
    ensures k == HALF as real ==> q < (HALF as real + 6.0) * (u * n)
  {
    Constants();
    hide K5;
    LessTimes(v, k * u, n);
    BoundedBelow(v, n, q);
    LessTimes(v * n, k * u * n, K5);
    assert k * u * n * K5 == k * K5 * (u * n);
    Positive2(u, n);
    if k == LEADING as real {
      LessTimes(k * K5, LEADING as real + 1.0, u * n);
    }
    if k == HALF as real {
      LessTimes(k * K5, HALF as real + 6.0, u * n);
    }
  }

  lemma BoundedBelow(v: real, n: real, q: real)
    requires Bounded(v, n, q)
    ensures q < v * n * K5 && v * n < q * (1.0 + E)
  {
  }

  /** A value of at least k units makes the product larger than k units less a little. */
  lemma Above(v: real, n: real, q: real, k: real, u: real)
    requires n > 0.0 && u > 0.0 && q > 0.0 && k * u <= v && Bounded(v, n, q)
    ensures k == LEADING as real ==> (LEADING as real - 1.0) * (u * n) < q
    ensures k == HALF as real ==> (HALF as real - 1.0) * (u * n) < q
  {
    Constants();
    hide K5;
    ScaleUp(k * u, v, n);
    BoundedBelow(v, n, q);
    assert k * u * n == k * (u * n);
    Positive2(u, n);
    if k == LEADING as real {
      NotMore(q, LEADING as real, u * n);
    }
    if k == HALF as real {
      NotMore(q, HALF as real, u * n);
    }
  }

  lemma NotMore(q: real, k: real, c: real)
    requires c > 0.0 && k * c < q * (1.0 + E) && (k - 1.0) * (1.0 + E) < k
    ensures (k - 1.0) * c < q
  {
    LessTimes((k - 1.0) * (1.0 + E), k, c);
    assert (k - 1.0) * c * (1.0 + E) == (k - 1.0) * (1.0 + E) * c;
    if q <= (k - 1.0) * c {
      ScaleUp(q, (k - 1.0) * c, 1.0 + E);
    }
  }

  // ----- The packed value as an object -----

  class Difficulty {
    var packed: nat

    constructor (d: nat)
      ensures packed == d
    {
      packed := d;
    }

    /** `Pack` of a mantissa with its leading bit set. */
    method SetPacked(order: nat, mantissa: nat)
      requires LEADING <= mantissa < 2 * LEADING
      modifies this
      ensures packed == Pack(order, mantissa)
      ensures order <= MAX_ORDER ==> Unpack(packed) == mantissa * Pow2(order)
    {
      if order <= MAX_ORDER {
        packed := mantissa % LEADING + order * LEADING;
        PackThenUnpack(order, mantissa);
      } else {
        packed := INF;
      }
    }

    /** `Calculate` */
    method Adjust(ref: nat, dh: nat, dtTrg: nat, dtSrc: nat)
      requires dtSrc * dh > 0
      modifies this
      ensures packed == Calculate(ref, dh, dtTrg, dtSrc)
    {
      hide Unpack, Pow2;
      var x := Scaled(ref, dh, dtTrg, dtSrc);
      packed := 0;
      if x.value != 0 {
        ScaledNormal(ref, dh, dtTrg, dtSrc);
        var order := x.order + 7;
        if order >= 0 {
          PackedBounds(x);
          SetPacked(order, x.value / 128);
        }
      }
    }
  }

  lemma ScaledNormal(ref: nat, dh: nat, dtTrg: nat, dtSrc: nat)
    requires dtSrc * dh > 0 && Scaled(ref, dh, dtTrg, dtSrc).value != 0
    ensures Normal(Scaled(ref, dh, dtTrg, dtSrc))
  {
    hide Pow2, BitLen;
    if ref > 0 && dtTrg > 0 {
      ScaledBounds(ref, dh, dtTrg, dtSrc);
    } else {
      NoWork(ref, dtTrg);
      NormalizeIs(dtSrc * dh);
      hide Normalize, Times;
      OverZero(Times(Normalize(ref), Normalize(dtTrg)), Normalize(dtSrc * dh));
    }
  }

  lemma OverZero(a: BigFloat, b: BigFloat)
    requires a.value == 0 && b.value > 0
    ensures Over(a, b).value == 0
  {
    hide Pow2, BitLen;
    ModSmall(0, b.value);
  }

  lemma NoWork(ref: nat, dtTrg: nat)
    requires ref == 0 || dtTrg == 0
    ensures Times(Normalize(ref), Normalize(dtTrg)).value == 0
  {
    hide Pow2, BitLen;
    assert Normalize(0) == BigFloat(0, 0);
  }
}
