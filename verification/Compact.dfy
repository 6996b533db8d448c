/** The compact form of a 256-bit number: 23 bits of mantissa, a sign, and a size in bytes. */
module Compact {
  import opened Arith
  import opened Limbs
  import opened WideInt

  // ----- On numbers -----

  /** How many bytes a number takes. */
  function Size(v: nat): nat
    decreases v
  {
    if v == 0 then 0 else 1 + Size(v / 256)
  }

  function Scale(k: nat): (r: nat)
    ensures r > 0
  {
    Pow2(8 * k)
  }

  lemma Natural(a: nat, b: nat)
    requires b > 0
    ensures 0 <= a * b && 0 <= a / b
  {
    MulMono(0, a, b);
    DivNonNegative(a, b);
  }

  lemma ScaleAdd(a: nat, b: nat)
    ensures Scale(a + b) == Scale(a) * Scale(b)
  {
    Pow2Add(8 * a, 8 * b);
  }

  lemma ScaleSmall()
    ensures Scale(0) == 1 && Scale(1) == 256 && Scale(2) == 0x1_0000 && Scale(3) == 0x100_0000
  {
    hide Pow2;
    One();
    Pow2Of8();
    ScaleAdd(1, 1);
    ScaleAdd(2, 1);
  }

  lemma ScaleMono(a: nat, b: nat)
    requires a <= b
    ensures 0 < Scale(a) <= Scale(b)
  {
    Pow2Mono(8 * a, 8 * b);
  }

  lemma {:induction false} SizeBounds(v: nat)
    ensures v < Scale(Size(v)) && (v > 0 ==> Size(v) > 0 && Scale(Size(v) - 1) <= v)
  {
    hide Scale;
    ScaleSmall();
    if v > 0 {
      var n := Size(v / 256);
      SizeBounds(v / 256);
      ScaleAdd(1, n);
      if n > 0 {
        ScaleAdd(1, n - 1);
      }
    }
  }

  lemma SizeUnique(v: nat, n: nat)
    requires n > 0 && Scale(n - 1) <= v < Scale(n)
    ensures Size(v) == n
  {
    hide Scale, Size;
    SizeBounds(v);
    ScaleMono(0, n - 1);
    NoSize(v);
    if Size(v) < n {
      ScaleMono(Size(v), n - 1);
    } else if Size(v) > n {
      ScaleMono(n, Size(v) - 1);
    }
  }

  lemma NoSize(v: nat)
    ensures v > 0 ==> Size(v) > 0
    ensures v == 0 ==> Size(v) == 0
  {
  }

  /** The leading three bytes. */
  function Leading(v: nat, n: nat): nat {
    Natural(v, Scale(if n <= 3 then 3 - n else n - 3));
    if n <= 3 then v * Scale(3 - n) else v / Scale(n - 3)
  }

  /** Mantissa and size: one byte less of mantissa where the top bit would read as a sign. */
  function Parts(v: nat): (nat, nat) {
    var n := Size(v);
    var m := Leading(v, n);
    if m >= 0x80_0000 then (m / 256, n + 1) else (m, n)
  }

  /** The number that mantissa and size stand for. */
  function Expand(word: nat, size: nat): nat {
    Natural(word, Scale(if size <= 3 then 3 - size else size - 3));
    if size <= 3 then word / Scale(3 - size) else word * Scale(size - 3)
  }

  lemma LeadingBounds(v: nat, n: nat)
    requires n == Size(v) && v > 0
    ensures 0x1_0000 <= Leading(v, n) < 0x100_0000
  {
    hide Scale, Size;
    SizeBounds(v);
    NoSize(v);
    ScaleSmall();
    if n <= 3 {
      ScaleAdd(n, 3 - n);
      ScaleAdd(n - 1, 3 - n);
      ScaleMono(0, 3 - n);
      BelowScaled(v, Scale(n - 1), Scale(n), Scale(3 - n));
    } else {
      ScaleAdd(3, n - 3);
      ScaleAdd(2, n - 3);
      ScaleMono(0, n - 3);
      QuotientWithin(v, Scale(n - 3), 0x1_0000, 0x100_0000);
    }
  }

  lemma BelowScaled(v: nat, lo: nat, hi: nat, c: nat)
    requires lo <= v < hi && c > 0
    ensures lo * c <= v * c < hi * c
  {
    MulMono(lo, v, c);
    MulMono(v + 1, hi, c);
    Distribute(v, 1, c);
  }

  lemma QuotientWithin(v: nat, p: nat, lo: nat, hi: nat)
    requires p > 0 && lo * p <= v < hi * p
    ensures lo <= v / p < hi
  {
    DivMod(v, p);
    if v / p < lo {
      MulMono(v / p + 1, lo, p);
      Distribute(v / p, 1, p);
    }
    if v / p >= hi {
      MulMono(hi, v / p, p);
    }
  }

  /** Numbers of one or two bytes are kept whole. */
  lemma SmallKept(v: nat)
    requires 0 < v && Size(v) < 3
    ensures Parts(v).0 < 0x80_0000 && Expand(Parts(v).0, Parts(v).1) == v
  {
    hide Scale, Size;
    NoSize(v);
    ScaleSmall();
    var n := Size(v);
    SizeBounds(v);
    if n == 1 {
      assert Leading(v, n) == v * 0x1_0000;
    } else {
      assert Leading(v, n) == v * 256;
    }
  }

  lemma LeadingIs(v: nat, n: nat)
    requires n >= 3
    ensures Scale(n - 3) > 0 && Leading(v, n) == v / Scale(n - 3)
  {
    hide Scale;
    ScaleSmall();
    ScaleMono(0, n - 3);
  }

  /** Three leading bytes and a unit make a number of that size with those leading bytes. */
  lemma Rebuilt(l: nat, n: nat)
    requires n >= 3 && 0x1_0000 <= l < 0x100_0000
    ensures Size(l * Scale(n - 3)) == n && Leading(l * Scale(n - 3), n) == l
  {
    hide Scale, Size, Leading;
    var p := Scale(n - 3);
    LeadingIs(l * p, n);
    ScaleSmall();
    ScaleAdd(2, n - 3);
    ScaleAdd(3, n - 3);
    BelowScaled(l, 0x1_0000, 0x100_0000, p);
    SizeUnique(l * p, n);
    DivModUnique(l * p, p, l, 0);
  }

  /** Cutting off at a unit a number that is at least 2^15 units is within one part in 2^15. */
  lemma CutOff(v: nat, u: nat, m: nat)
    requires u > 0 && m == v / u && m >= 0x8000
    ensures m * u <= v && (v - m * u) * 0x8000 < v
  {
    DivMod(v, u);
    MulMono(0x8000, m, u);
  }

  /** The leading bytes the mantissa keeps: all three, or the upper two. */
  function KeptBytes(l: nat): nat {
    if l >= 0x80_0000 then l / 256 * 256 else l
  }

  lemma ExpandIs(l: nat, n: nat)
    requires n >= 3 && l < 0x100_0000
    ensures
      var (m, k) := if l >= 0x80_0000 then (l / 256, n + 1) else (l, n);
      m < 0x80_0000 && Expand(m, k) == KeptBytes(l) * Scale(n - 3)
  {
    hide Scale;
    ScaleSmall();
    if l >= 0x80_0000 {
      ScaleAdd(1, n - 3);
      MulAssoc(l / 256, 256, Scale(n - 3));
    } else if n == 3 {
      assert Expand(l, n) == l / 1;
    }
  }

  /** Encoding a number and expanding it again cuts it off with a relative error below 2^-15; the result is encoded the same
      way. */
  lemma Truncates(v: nat)
    ensures
      var (m, k) := Parts(v);
      var t := Expand(m, k);
      m < 0x80_0000 && t <= v && (v > 0 ==> 0 < t && (v - t) * 0x8000 < v) && Parts(t) == Parts(v)
  {
    hide Scale, Expand, Size, Leading;
    var n := Size(v);
    NoSize(v);
    if v == 0 {
      ZeroParts();
    } else if n < 3 {
      SmallKept(v);
    } else {
      var l := Leading(v, n);
      LeadingBounds(v, n);
      LeadingIs(v, n);
      ExpandIs(l, n);
      Rebuilt(KeptBytes(l), n);
      KeptIsCut(v, Scale(n - 3), l);
    }
  }

  lemma ZeroParts()
    ensures Parts(0) == (0, 0) && Expand(0, 0) == 0
  {
    hide Scale;
    ScaleSmall();
  }

  lemma KeptIsCut(v: nat, p: nat, l: nat)
    requires p > 0 && l == v / p && 0x1_0000 <= l < 0x100_0000
    ensures 0 < KeptBytes(l) * p <= v && (v - KeptBytes(l) * p) * 0x8000 < v
  {
    if l >= 0x80_0000 {
      DivModSplit(v, p, 256);
      MulAssoc(l / 256, 256, p);
      CutOff(v, p * 256, l / 256);
      MulMono(1, l / 256, 256 * p);
    } else {
      CutOff(v, p, l);
      MulMono(1, l, p);
    }
  }

  // ----- The flags -----

  /** The flag says exactly that the number does not fit 256 bits. */
  lemma OverflowIff(word: nat, size: nat)
    requires word < 0x80_0000 && size > 3
    ensures Overflows(word, size) <==> Expand(word, size) >= Scale(32)
  {
    hide Scale;
    ScaleSmall();
    if word == 0 {
      assert Expand(word, size) == 0 * Scale(size - 3);
    } else if size > 34 {
      ScaleMono(32, size - 3);
      MulMono(1, word, Scale(size - 3));
    } else if size == 34 {
      ScaleAdd(1, 31);
      CompareScaled(word, 256, Scale(31));
    } else if size == 33 {
      ScaleAdd(2, 30);
      CompareScaled(word, 0x1_0000, Scale(30));
    } else {
      ScaleAdd(3, 29);
      ScaleMono(size - 3, 29);
      CompareScaled(word, 0x100_0000, Scale(29));
      Scaling(word, Scale(size - 3), Scale(29));
    }
  }

  lemma CompareScaled(a: nat, b: nat, p: nat)
    requires p > 0
    ensures a * p >= b * p <==> a >= b
  {
    if a >= b {
      MulMono(b, a, p);
    } else {
      MulMono(a + 1, b, p);
      Distribute(a, 1, p);
    }
  }

  lemma Scaling(m: nat, p: nat, q: nat)
    requires p <= q
    ensures m * p <= m * q
  {
    MulMono(p, q, m);
  }

  predicate Overflows(word: nat, size: nat) {
    word != 0 && (size > 34 || (word > 0xff && size > 33) || (word > 0xffff && size > 32))
  }

  /** An encoded 256-bit number has a size of at most 33 bytes, and does not overflow. */
  lemma PartsFit(v: nat)
    requires v < Scale(32)
    ensures Parts(v).1 <= 33 && !Overflows(Parts(v).0, Parts(v).1)
  {
    hide Scale, Expand, Leading, Size;
    SizeBounds(v);
    NoSize(v);
    var n := Size(v);
    if n > 32 {
      ScaleMono(32, n - 1);
    } else if v == 0 {
      ZeroParts();
    } else {
      LeadingBounds(v, n);
    }
  }

  /** The 32 bits: size, sign, mantissa. */
  function Packed(v: nat, negative: bool): nat {
    var (m, k) := Parts(v);
    m + (if negative && m != 0 then 0x80_0000 else 0) + k * 0x100_0000
  }

  // ----- The operations -----

  method Assign(x: Uint, b: u64)
    requires x.pn.Length >= 2
    modifies x.pn
    ensures x.Number() == b
  {
    hide Value;
    x.Clear();
    ghost var z: seq<limb> := x.pn[..];
    var lo: limb, hi: limb := b % BASE, b / BASE;
    x.pn[0] := lo;
    x.pn[1] := hi;
    ghost var w: seq<limb> := z[0 := lo];
    assert x.pn[..] == w[1 := hi];
    ValueUpdate(z, 0, lo);
    ValueUpdate(w, 1, hi);
    SmallPowers();
  }

  lemma SmallPowers()
    ensures PowB(0) == 1 && PowB(1) == BASE && PowB(2) == BASE * BASE
  {
  }

  /** `GetLow64` */
  method GetLow64(x: Uint) returns (r: u64)
    requires x.pn.Length >= 2
    ensures x.Number() < BASE * BASE ==> r == x.Number()
  {
    hide Value, PowB;
    r := x.pn[0] + x.pn[1] * BASE;
    ghost var s := x.pn[..];
    SmallPowers();
    ValueSplit(s, 2);
    ValueSnoc(s, 1);
    ValueSnoc(s, 0);
    EmptyValues(s[..0], [], []);
    if Value(s[2..]) > 0 {
      MulMono(1, Value(s[2..]), BASE * BASE);
    }
  }

  /** `GetCompact` */
  method GetCompact(x: Uint, negative: bool) returns (c: nat)
    requires x.pn.Length == 8
    ensures c == Packed(x.Number(), negative) < 0x1_0000_0000
  {
    hide Value, PowB, Pow2, Scale, Expand, Leading, Size;
    ghost var v := x.Number();
    x.NumberFits();
    FitsBytes();
    PartsFit(v);
    Truncates(v);
    var bits := x.Bits();
    var size := (bits + 7) / 8;
    SizeFromBits(v, bits);
    LeadingFits(v, size);
    if size <= 3 {
      var low := GetLow64(x);
      c := low * Pow2(8 * (3 - size));
    } else {
      var bn := new Uint.Copy(x);
      bn.ShiftRight(8 * (size - 3));
      c := GetLow64(bn);
    }
    assert c == Leading(v, size);
    if c >= 0x80_0000 {
      c := c / 256;
      size := size + 1;
    }
    var word := c;
    c := c + size * 0x100_0000;
    if negative && word != 0 {
      c := c + 0x80_0000;
    }
  }

  lemma FitsBytes()
    ensures PowB(8) == Scale(32)
  {
    PowBIsPow2(8);
  }

  lemma SizeFromBits(v: nat, bits: nat)
    requires bits == 0 <==> v == 0
    requires bits > 0 ==> Pow2(bits - 1) <= v < Pow2(bits)
    ensures Size(v) == (bits + 7) / 8
  {
    hide Pow2, Size;
    NoSize(v);
    if bits > 0 {
      var n := (bits + 7) / 8;
      Pow2Mono(8 * (n - 1), bits - 1);
      Pow2Mono(bits, 8 * n);
      SizeUnique(v, n);
    }
  }

  lemma LeadingFits(v: nat, n: nat)
    requires n == Size(v)
    ensures n <= 3 ==> v < BASE * BASE && v * Pow2(8 * (3 - n)) == Leading(v, n)
    ensures n > 3 ==> v / Pow2(8 * (n - 3)) == Leading(v, n) < BASE * BASE
  {
    hide Pow2, Size;
    SizeBounds(v);
    if n <= 3 {
      ScaleMono(n, 3);
      ScaleSmall();
    } else {
      NoSize(v);
      LeadingBounds(v, n);
    }
  }

  /** `SetCompact`: the number modulo 2^256, and what the flags mean. */
  method SetCompact(x: Uint, c: nat) returns (negative: bool, overflow: bool)
    requires x.pn.Length == 8 && c < 0x1_0000_0000
    modifies x.pn
    ensures
      var size, word := c / 0x100_0000, c % 0x80_0000;
      x.Number() == Expand(word, size) % Scale(32)
      && (negative <==> (c / 0x80_0000) % 2 != 0 && (if size <= 3 then Expand(word, size) else word) != 0)
      && (overflow <==> Expand(word, size) >= Scale(32))
  {
    hide Value, PowB, Pow2, Scale, Expand;
    FitsBytes();
    var size := c / 0x100_0000;
    var word: nat := c % 0x80_0000;
    ghost var word0 := word;
    ExpandIsShift(word, size);
    if size <= 3 {
      word := word / Pow2(8 * (3 - size));
      Assign(x, word);
      ModSmall(word, Scale(32));
    } else {
      Assign(x, word);
      x.ShiftLeft(8 * (size - 3));
      OverflowIff(word, size);
    }
    negative := word != 0 && c / 0x80_0000 % 2 != 0;
    overflow := word != 0 && (size > 34 || (word > 0xff && size > 33) || (word > 0xffff && size > 32));
  }

  lemma ExpandIsShift(word: nat, size: nat)
    requires word < 0x80_0000
    ensures size <= 3 ==> 0 <= word / Pow2(8 * (3 - size)) == Expand(word, size) < 0x80_0000
    ensures size > 3 ==> word * Pow2(8 * (size - 3)) == Expand(word, size)
    ensures 0x80_0000 <= Scale(32)
  {
    hide Pow2;
    ScaleSmall();
    ScaleMono(3, 32);
    if size <= 3 {
      DivNonNegative(word, Scale(3 - size));
    }
  }

  /** A 256-bit number, encoded and decoded: never an overflow, the sign kept, the number cut off with a relative error below
      2^-15, and encoded again to the same bits. */
  method CompactRoundTrip(x: Uint, negative: bool) returns (c: nat, sign: bool, overflow: bool)
    requires x.pn.Length == 8
    modifies x.pn
    ensures !overflow && (sign <==> negative && x.Number() != 0)
    ensures x.Number() <= old(x.Number()) && (old(x.Number()) > 0 ==> 0 < x.Number())
    ensures old(x.Number()) > 0 ==> (old(x.Number()) - x.Number()) * 0x8000 < old(x.Number())
    ensures c == Packed(old(x.Number()), negative) == Packed(x.Number(), negative)
  {
    hide Value, PowB, Pow2, Scale, Expand, Parts;
    ghost var v := x.Number();
    x.NumberFits();
    FitsBytes();
    c := GetCompact(x, negative);
    ghost var (m, k) := Parts(v);
    Truncates(v);
    PartsFit(v);
    Unpacked(m, k, negative && m != 0, c);
    sign, overflow := SetCompact(x, c);
    ModSmall(Expand(m, k), Scale(32));
    NonZeroWord(m, k);
  }

  lemma Unpacked(m: nat, k: nat, sign: bool, c: nat)
    requires m < 0x80_0000 && k < 256 && c == m + (if sign then 0x80_0000 else 0) + k * 0x100_0000
    ensures c / 0x100_0000 == k && c % 0x80_0000 == m && (c / 0x80_0000 % 2 != 0 <==> sign)
  {
    if sign {
      DivModUnique(c, 0x80_0000, 2 * k + 1, m);
    } else {
      DivModUnique(c, 0x80_0000, 2 * k, m);
    }
  }

  lemma NonZeroWord(m: nat, k: nat)
    ensures Expand(m, k) != 0 ==> m != 0
    ensures k > 3 ==> (Expand(m, k) != 0 <==> m != 0)
  {
    hide Scale;
    if k > 3 {
      if m > 0 {
        MulMono(1, m, Scale(k - 3));
      }
    } else {
      ModSmall(0, Scale(3 - k));
    }
  }
}
