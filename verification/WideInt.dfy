/** The wide unsigned integer: limbs updated in place, each operator against the number it stands for. */
module WideInt {
  import opened Arith
  import opened Limbs
  import opened LimbShifts

  class Uint {
    const pn: array<limb>

    constructor (width: nat)
      ensures fresh(pn) && pn.Length == width && Number() == 0
    {
      pn := new limb[width](i => 0);
      new;
      ValueZero(pn[..]);
    }

    ghost function Number(): nat
      reads pn
    {
      Value(pn[..])
    }

    ghost function Modulus(): nat {
      PowB(pn.Length)
    }

    lemma NumberFits()
      ensures Number() < Modulus()
    {
      ValueBound(pn[..]);
    }

    constructor Copy(b: Uint)
      ensures fresh(pn) && pn[..] == b.pn[..]
    {
      pn := new limb[b.pn.Length](i reads b.pn => if 0 <= i < b.pn.Length then b.pn[i] else 0);
      new;
      assert pn[..] == b.pn[..];
    }

    /** `operator+=`, also with itself. */
    method AddAssign(b: Uint)
      requires b.pn.Length == pn.Length
      modifies pn
      ensures Number() == (old(Number()) + old(b.Number())) % Modulus()
    {
      hide Value, PowB;
      ghost var x, y := pn[..], b.pn[..];
      var carry: u64 := 0;
      var i := 0;
      EmptyValues(pn[..i], x[..i], y[..i]);
      while i < pn.Length
        invariant 0 <= i <= pn.Length && carry <= 1
        invariant pn[i..] == x[i..] && b.pn[i..] == y[i..]
        invariant Value(pn[..i]) + carry * PowB(i) == Value(x[..i]) + Value(y[..i])
      {
        assert pn[i] == x[i] && b.pn[i] == y[i];
        var n: u64 := carry + pn[i] + b.pn[i];
        ghost var before := pn[..i];
        pn[i] := n % BASE;
        assert pn[..i] == before && pn[i + 1..] == x[i + 1..];
        AddStep(pn[..], x, y, i, carry, n);
        carry := n / BASE;
        i := i + 1;
      }
      Whole(pn[..], x, y);
      NumberFits();
      Remainder(Number(), carry, Modulus(), Value(x) + Value(y));
    }

    /** `operator++` */
    method Increment()
      requires pn.Length > 0
      modifies pn
      ensures Number() == (old(Number()) + 1) % Modulus()
    {
      hide Value, PowB;
      ghost var x := pn[..];
      var i := 0;
      NothingBelow(pn[..0], x[..0]);
      pn[i] := (pn[i] + 1) % BASE;
      assert pn[..0] == [] && pn[1..] == x[1..];
      while pn[i] == 0 && i < pn.Length - 1
        invariant 0 <= i < pn.Length && pn[i + 1..] == x[i + 1..]
        invariant pn[i] == (x[i] + 1) % BASE
        invariant Value(pn[..i]) + PowB(i) == Value(x[..i]) + 1
      {
        CarryOn(pn[..], x, i);
        i := i + 1;
        ghost var before := pn[..i];
        assert pn[i] == x[i];
        pn[i] := (pn[i] + 1) % BASE;
        assert pn[..i] == before && pn[i + 1..] == x[i + 1..];
      }
      CarryEnds(pn[..], x, i);
      NumberFits();
      if pn[i] == 0 {
        Remainder(Number(), 1, Modulus(), Value(x) + 1);
      } else {
        Remainder(Number(), 0, Modulus(), Value(x) + 1);
      }
    }

    /** `operator-` */
    method Negated() returns (r: Uint)
      requires pn.Length > 0
      ensures fresh(r) && fresh(r.pn) && r.pn.Length == pn.Length
      ensures r.Number() == (Modulus() - Number()) % Modulus()
    {
      hide Value, PowB;
      r := new Uint(pn.Length);
      var i := 0;
      while i < pn.Length
        invariant 0 <= i <= pn.Length && pn[..] == old(pn[..])
        invariant forall k :: 0 <= k < i ==> r.pn[k] == BASE - 1 - pn[k]
      {
        r.pn[i] := BASE - 1 - pn[i];
        i := i + 1;
      }
      Complement(r.pn[..], pn[..]);
      r.Increment();
    }

    /** `operator-=`, also of itself. */
    method SubAssign(b: Uint)
      requires b.pn.Length == pn.Length > 0
      modifies pn
      ensures Number() == (old(Number()) - old(b.Number())) % Modulus()
      ensures old(b.Number()) <= old(Number()) ==> Number() == old(Number()) - old(b.Number())
    {
      hide Value, PowB;
      ghost var x: int, y: int := Number(), b.Number();
      NumberFits();
      b.NumberFits();
      var r := b.Negated();
      AddAssign(r);
      ModAdd(Modulus() - y, x, Modulus());
      ModAddMultiple(x - y, 1, Modulus());
      if y <= x {
        ModSmall(x - y, Modulus());
      }
    }

    /** `operator*=` by one limb. */
    method MulAssignLimb(b32: limb)
      modifies pn
      ensures Number() == (old(Number()) * b32) % Modulus()
    {
      hide Value, PowB;
      ghost var x := pn[..];
      var carry: u64 := 0;
      var i := 0;
      EmptyValues(pn[..i], x[..i], []);
      while i < pn.Length
        invariant 0 <= i <= pn.Length && carry < BASE && pn[i..] == x[i..]
        invariant Value(pn[..i]) + carry * PowB(i) == Value(x[..i]) * b32
      {
        assert pn[i] == x[i];
        ProductFits(b32, pn[i]);
        var n: u64 := carry + b32 * pn[i];
        ghost var before := pn[..i];
        pn[i] := n % BASE;
        assert pn[..i] == before && pn[i + 1..] == x[i + 1..];
        MulStep(pn[..], x, i, b32, carry, n);
        carry := n / BASE;
        i := i + 1;
      }
      Whole(pn[..], x, x);
      NumberFits();
      Remainder(Number(), carry, Modulus(), Value(x) * b32);
    }

    method Clear()
      modifies pn
      ensures Number() == 0 && forall k :: 0 <= k < pn.Length ==> pn[k] == 0
    {
      var i := 0;
      while i < pn.Length
        invariant 0 <= i <= pn.Length && forall k :: 0 <= k < i ==> pn[k] == 0
      {
        pn[i] := 0;
        i := i + 1;
      }
      ValueZero(pn[..]);
    }

    /** One row of the schoolbook product: the limbs of b, times one limb, from limb j on. */
    method AddRow(aj: limb, b: Uint, j: nat)
      requires b.pn.Length == pn.Length && j < pn.Length
      modifies pn
      ensures b.pn != pn ==> Number() == (old(Number()) + aj * (PowB(j) * b.Number())) % Modulus()
      ensures b.pn == pn && old(AllZero(pn[..])) ==> AllZero(pn[..])
    {
      hide Value, PowB;
      ghost var z, y := pn[..], b.pn[..];
      var carry: u64 := 0;
      var i := 0;
      NoLimbs(aj, PowB(j), y[..0]);
      CarryNothing(PowB(j));
      while i + j < pn.Length
        invariant 0 <= i <= pn.Length - j && carry < BASE
        invariant pn[i + j..] == z[i + j..]
        invariant b.pn != pn ==> b.pn[..] == y
        invariant b.pn != pn ==>
          Value(pn[..i + j]) + carry * PowB(i + j) == Value(z[..i + j]) + aj * (PowB(j) * Value(y[..i]))
        invariant b.pn == pn && AllZero(z) ==> AllZero(pn[..]) && carry == 0
      {
        ProductFits(aj, b.pn[i]);
        assert pn[i + j] == z[i + j];
        var n: u64 := carry + pn[i + j] + aj * b.pn[i];
        ghost var before := pn[..i + j];
        pn[i + j] := n % BASE;
        assert pn[..i + j] == before && pn[i + j + 1..] == z[i + j + 1..];
        if b.pn != pn {
          RowStep(pn[..], z, y, aj, i, j, carry, n);
        }
        carry := n / BASE;
        i := i + 1;
      }
      if b.pn != pn {
        RowEnd(pn[..], z, y, aj, j, carry);
      }
    }

    /** `operator*=`: the product, unless the operand is the number itself, which is cleared first. */
    method MulAssign(b: Uint)
      requires b.pn.Length == pn.Length
      modifies pn
      ensures b.pn != pn ==> Number() == (old(Number()) * b.Number()) % Modulus()
      ensures b.pn == pn ==> Number() == 0
    {
      hide Value, PowB, AllZero;
      ghost var x, y := pn[..], b.Number();
      var a := new Uint.Copy(this);
      Clear();
      Cleared(pn[..], x[..0], y);
      var j := 0;
      while j < pn.Length
        invariant 0 <= j <= pn.Length && a.pn[..] == x
        invariant b.pn != pn ==> b.Number() == y && Number() == (Value(x[..j]) * y) % Modulus()
        invariant b.pn == pn ==> AllZero(pn[..])
      {
        ghost var was := Number();
        AddRow(a.pn[j], b, j);
        RowAdds(x, j, y, Modulus());
        j := j + 1;
      }
      Whole(x, x, x);
      AllZeroValue(pn[..]);
    }

    /** `CompareTo` */
    method CompareTo(b: Uint) returns (r: int)
      requires b.pn.Length == pn.Length
      ensures r == if Number() < b.Number() then -1 else if Number() > b.Number() then 1 else 0
    {
      hide Value;
      var i := pn.Length - 1;
      while i >= 0
        invariant -1 <= i < pn.Length
        invariant forall k :: i < k < pn.Length ==> pn[k] == b.pn[k]
      {
        if pn[i] < b.pn[i] {
          FirstDifference(pn[..], b.pn[..], i);
          return -1;
        }
        if pn[i] > b.pn[i] {
          FirstDifference(b.pn[..], pn[..], i);
          return 1;
        }
        i := i - 1;
      }
      assert pn[..] == b.pn[..];
      return 0;
    }

    /** `bits`: the position of the highest bit set plus one, or zero. */
    method Bits() returns (r: nat)
      ensures r == 0 <==> Number() == 0
      ensures r > 0 ==> Pow2(r - 1) <= Number() < Pow2(r)
    {
      hide Value, Pow2;
      var pos := pn.Length - 1;
      while pos >= 0
        invariant -1 <= pos < pn.Length
        invariant forall k :: pos < k < pn.Length ==> pn[k] == 0
      {
        if pn[pos] != 0 {
          var bits := TopBit(pn[pos]);
          TopLimb(pn[..], pos, bits);
          return 32 * pos + bits + 1;
        }
        pos := pos - 1;
      }
      ValueZero(pn[..]);
      return 0;
    }

    /** `operator<<=` */
    method ShiftLeft(shift: nat)
      modifies pn
      ensures Number() == (old(Number()) * Pow2(shift)) % Modulus()
    {
      hide Value, PowB, Pow2;
      ghost var x := pn[..];
      var a := new Uint.Copy(this);
      Clear();
      var k, s := shift / 32, shift % 32;
      Cleared(pn[..], x[..0], Pow2(shift));
      Bounded(s);
      var i := 0;
      while i < pn.Length
        invariant 0 <= i <= pn.Length && a.pn[..] == x
        invariant i + k < pn.Length ==> pn[i + k] < Pow2(s)
        invariant forall j :: i + k < j < pn.Length ==> pn[j] == 0
        invariant Number() == (Value(x[..i]) * Pow2(shift)) % Modulus()
      {
        ghost var z := pn[..];
        LeftStep(z, x, i, k, s);
        Moved(a.pn[i], s, Pow2(s), Pow2(32 - s));
        if i + k + 1 < pn.Length && s != 0 {
          OrNothing(a.pn[i] / Pow2(32 - s));
          pn[i + k + 1] := Or(pn[i + k + 1], a.pn[i] / Pow2(32 - s), 0);
        }
        if i + k < pn.Length {
          pn[i + k] := Or(pn[i + k], (a.pn[i] * Pow2(s)) % BASE, s);
        }
        assert pn[..] == LeftWritten(z, x[i], i + k, s);
        i := i + 1;
      }
      Whole(x, x, x);
    }

    /** `operator>>=` */
    method ShiftRight(shift: nat)
      modifies pn
      ensures Number() == old(Number()) / Pow2(shift)
    {
      hide Value, PowB, Pow2;
      ghost var x := pn[..];
      var a := new Uint.Copy(this);
      Clear();
      var k, s := shift / 32, shift % 32;
      NothingShifted(x[..0], shift);
      var i := 0;
      while i < pn.Length
        invariant 0 <= i <= pn.Length && a.pn[..] == x
        invariant i - k - 1 >= 0 ==> pn[i - k - 1] < Pow2(32 - s)
        invariant forall j :: 0 <= j < pn.Length && i - k <= j ==> pn[j] == 0
        invariant Number() == Value(x[..i]) / Pow2(shift)
      {
        ghost var z := pn[..];
        RightStep(z, x, i, k, s);
        Moved(a.pn[i], 32 - s, Pow2(32 - s), Pow2(s));
        if i - k - 1 >= 0 && s != 0 {
          pn[i - k - 1] := Or(pn[i - k - 1], (a.pn[i] * Pow2(32 - s)) % BASE, 32 - s);
        }
        if i - k >= 0 {
          OrNothing(a.pn[i] / Pow2(s));
          pn[i - k] := Or(pn[i - k], a.pn[i] / Pow2(s), 0);
        }
        assert pn[..] == RightWritten(z, x[i], i, k, s);
        i := i + 1;
      }
      Whole(x, x, x);
    }

    method SetBit(i: nat)
      requires i < 32 * pn.Length && BitsClear(pn[..], i + 1)
      modifies pn
      ensures Number() == old(Number()) + Pow2(i) && BitsClear(pn[..], i)
    {
      hide Value, PowB, Pow2, BitsClear;
      ghost var z := pn[..];
      BitFree(pn[..], i);
      pn[i / 32] := OrBit(pn[i / 32], i % 32);
      BitSet(z, i, pn[i / 32]);
      assert pn[..] == z[i / 32 := pn[i / 32]];
    }

    /** One bit of the quotient: the divisor is taken off where it fits, and moves down. */
    method DivBit(num: Uint, div: Uint, shift: nat, ghost n: nat, ghost d: nat)
      requires num.pn.Length == div.pn.Length == pn.Length && shift < 32 * pn.Length && Apart3(pn, num.pn, div.pn)
      requires Dividing(n, d, Number(), num.Number(), shift + 1) && div.Number() == d * Pow2(shift) && BitsClear(pn[..], shift + 1)
      modifies pn, num.pn, div.pn
      ensures Dividing(n, d, Number(), num.Number(), shift) && BitsClear(pn[..], shift)
      ensures shift > 0 ==> div.Number() == d * Pow2(shift - 1)
    {
      hide Value, PowB, Pow2, BitsClear;
      ghost var q, m := Number(), num.Number();
      var c := num.CompareTo(div);
      if c >= 0 {
        num.SubAssign(div);
        SetBit(shift);
      } else {
        StaysClear(pn[..], shift);
      }
      DivStep(q, d, m, shift);
      div.ShiftRight(1);
      if shift > 0 {
        HalfShift(d, shift);
      }
    }

    /** `operator/=`: floor division, or false where the source throws. */
    method DivAssign(b: Uint) returns (ok: bool)
      requires b.pn.Length == pn.Length > 0
      modifies pn
      ensures ok <==> old(b.Number()) != 0
      ensures Number() == if ok then old(Number()) / old(b.Number()) else 0
    {
      hide Value, PowB, Pow2, BitsClear, Dividing;
      ghost var n, d := Number(), b.Number();
      var div := new Uint.Copy(b);
      var num := new Uint.Copy(this);
      Clear();
      var numBits := num.Bits();
      var divBits := div.Bits();
      if divBits == 0 {
        return false;
      }
      if divBits > numBits {
        Smaller(n, d, numBits, divBits);
        return true;
      }
      var shift: int := numBits - divBits;
      num.NumberFits();
      Aligned(n, d, numBits, divBits, pn.Length);
      div.ShiftLeft(shift);
      AllClear(pn[..], shift + 1);
      StartsDividing(n, d, shift + 1);
      while shift >= 0
        invariant -1 <= shift < 32 * pn.Length && num.pn.Length == div.pn.Length == pn.Length && Apart3(pn, num.pn, div.pn)
        invariant Dividing(n, d, Number(), num.Number(), shift + 1)
        invariant shift >= 0 ==> div.Number() == d * Pow2(shift)
        invariant BitsClear(pn[..], shift + 1)
      {
        DivBit(num, div, shift, n, d);
        shift := shift - 1;
      }
      DividingEnds(n, d, Number(), num.Number());
      ok := true;
    }
  }

  predicate Apart3(a: array<limb>, b: array<limb>, c: array<limb>) {
    a != b && b != c && a != c
  }

  /** q divisors and the remainder m, which is below the divisor at the place of bit i, make up n. */
  ghost predicate Dividing(n: nat, d: nat, q: nat, m: nat, i: nat) {
    n == q * d + m && m < d * Pow2(i)
  }

  lemma StartsDividing(n: nat, d: nat, i: nat)
    requires n < d * Pow2(i)
    ensures Dividing(n, d, 0, n, i)
  {
    hide Pow2;
  }

  lemma DividingEnds(n: nat, d: nat, q: nat, m: nat)
    requires Dividing(n, d, q, m, 0) && d > 0
    ensures n / d == q
  {
    DivEnd(n, d, q, m);
  }

  lemma EmptyValues(a: seq<limb>, b: seq<limb>, c: seq<limb>)
    ensures PowB(0) == 1
    ensures a == [] ==> Value(a) == 0
    ensures b == [] ==> Value(b) == 0
    ensures c == [] ==> Value(c) == 0
  {
  }

  lemma NothingBelow(a: seq<limb>, b: seq<limb>)
    requires a == [] && b == []
    ensures Value(a) + PowB(0) == Value(b) + 1
  {
  }

  lemma Whole(a: seq<limb>, b: seq<limb>, c: seq<limb>)
    ensures a[..|a|] == a && b[..|b|] == b && c[..|c|] == c
  {
  }

  lemma AddStep(z: seq<limb>, x: seq<limb>, y: seq<limb>, i: nat, carry: nat, n: nat)
    requires i < |x| && |x| == |y| == |z| && n == carry + x[i] + y[i] && z[i] == n % BASE
    requires Value(z[..i]) + carry * PowB(i) == Value(x[..i]) + Value(y[..i])
    ensures Value(z[..i + 1]) + n / BASE * PowB(i + 1) == Value(x[..i + 1]) + Value(y[..i + 1])
  {
    hide Value;
    ValueSnoc(z, i);
    ValueSnoc(x, i);
    ValueSnoc(y, i);
    Recombine(n, PowB(i));
    Distribute(carry + x[i], y[i], PowB(i));
    Distribute(carry, x[i], PowB(i));
  }

  lemma CarryOn(z: seq<limb>, x: seq<limb>, i: nat)
    requires i < |x| == |z| && z[i] == 0 == (x[i] + 1) % BASE
    requires Value(z[..i]) + PowB(i) == Value(x[..i]) + 1
    ensures Value(z[..i + 1]) + PowB(i + 1) == Value(x[..i + 1]) + 1
  {
    hide Value;
    ValueSnoc(z, i);
    ValueSnoc(x, i);
    assert x[i] == BASE - 1;
    Difference(BASE, 1, PowB(i));
  }

  lemma CarryEnds(z: seq<limb>, x: seq<limb>, i: nat)
    requires i < |x| == |z| && z[i] == (x[i] + 1) % BASE && z[i + 1..] == x[i + 1..]
    requires z[i] == 0 ==> i == |x| - 1
    requires Value(z[..i]) + PowB(i) == Value(x[..i]) + 1
    ensures Value(z) + (if z[i] == 0 then PowB(|x|) else 0) == Value(x) + 1
  {
    hide Value, PowB;
    if z[i] == 0 {
      CarryOn(z, x, i);
      Whole(z, x, x);
    } else {
      assert z[i] == x[i] + 1;
      ValueSnoc(z, i);
      ValueSnoc(x, i);
      Distribute(x[i], 1, PowB(i));
      SameAbove(z, x, i + 1);
    }
  }

  lemma SameAbove(z: seq<limb>, x: seq<limb>, k: nat)
    requires k <= |x| == |z| && z[k..] == x[k..]
    ensures Value(z) - Value(x) == Value(z[..k]) - Value(x[..k])
  {
    ValueSplit(z, k);
    ValueSplit(x, k);
  }

  lemma {:induction false} Complement(z: seq<limb>, x: seq<limb>)
    requires |z| == |x| && forall k :: 0 <= k < |x| ==> z[k] == BASE - 1 - x[k]
    ensures Value(z) + Value(x) + 1 == PowB(|x|)
  {
    if x != [] {
      var n := |x| - 1;
      Complement(z[..n], x[..n]);
      Difference(BASE - 1, x[n], PowB(n));
      Difference(BASE, 1, PowB(n));
    }
  }

  lemma MulStep(z: seq<limb>, x: seq<limb>, i: nat, b: nat, carry: nat, n: nat)
    requires i < |x| == |z| && n == carry + b * x[i] && z[i] == n % BASE
    requires Value(z[..i]) + carry * PowB(i) == Value(x[..i]) * b
    ensures n / BASE < BASE || b >= BASE || carry >= BASE
    ensures Value(z[..i + 1]) + n / BASE * PowB(i + 1) == Value(x[..i + 1]) * b
  {
    hide Value;
    ValueSnoc(z, i);
    ValueSnoc(x, i);
    Recombine(n, PowB(i));
    Distribute(carry, b * x[i], PowB(i));
    Distribute(Value(x[..i]), x[i] * PowB(i), b);
    Rotate(x[i], PowB(i), b);
    if b < BASE && carry < BASE {
      ProductFits(b, x[i]);
    }
  }

  lemma Rotate(x: int, p: int, b: int)
    ensures x * p * b == b * x * p
  {
    MulAssoc(b, x, p);
    assert x * p * b == b * (x * p);
  }

  // ----- Product -----

  predicate AllZero(s: seq<limb>) {
    forall k :: 0 <= k < |s| ==> s[k] == 0
  }

  lemma AllZeroValue(s: seq<limb>)
    ensures AllZero(s) ==> Value(s) == 0
  {
    if AllZero(s) {
      ValueZero(s);
    }
  }

  lemma NoLimbs(a: int, p: int, y: seq<limb>)
    requires y == []
    ensures a * (p * Value(y)) == 0
  {
  }

  lemma CarryNothing(p: int)
    ensures 0 * p == 0
  {
  }

  lemma RowStep(z': seq<limb>, z: seq<limb>, y: seq<limb>, a: limb, i: nat, j: nat, carry: nat, n: nat)
    requires i + j < |z| == |z'| == |y| && n == carry + z[i + j] + a * y[i] && z'[i + j] == n % BASE
    requires Value(z'[..i + j]) + carry * PowB(i + j) == Value(z[..i + j]) + a * (PowB(j) * Value(y[..i]))
    ensures Value(z'[..i + j + 1]) + n / BASE * PowB(i + j + 1) == Value(z[..i + j + 1]) + a * (PowB(j) * Value(y[..i + 1]))
  {
    hide Value;
    ValueSnoc(z', i + j);
    ValueSnoc(z, i + j);
    ValueSnoc(y, i);
    Recombine(n, PowB(i + j));
    PowBAdd(j, i);
    Distribute(carry + z[i + j], a * y[i], PowB(i + j));
    Distribute(carry, z[i + j], PowB(i + j));
    RowTerm(a, PowB(j), Value(y[..i]), y[i], PowB(i));
  }

  lemma RowTerm(a: int, p: int, v: int, y: int, q: int)
    ensures a * (p * (v + y * q)) == a * (p * v) + a * y * (p * q)
  {
    SplitTop(p, v, y, q);
    MulAssoc(a, y, p * q);
    Distribute(p * v, y * (p * q), a);
  }

  lemma RowEnd(z': seq<limb>, z: seq<limb>, y: seq<limb>, a: limb, j: nat, carry: nat)
    requires j <= |z| == |z'| == |y|
    requires var i := |z| - j; Value(z'[..|z|]) + carry * PowB(|z|) == Value(z[..|z|]) + a * (PowB(j) * Value(y[..i]))
    ensures Value(z') == (Value(z) + a * (PowB(j) * Value(y))) % PowB(|z|)
  {
    hide Value, PowB;
    var i := |z| - j;
    Whole(z, z', y);
    ValueSplit(y, i);
    PowBAdd(j, i);
    ValueBound(z');
    Truncated(Value(z'), carry, PowB(j), PowB(i), Value(z), a, Value(y[..i]), Value(y[i..]));
  }

  /** What a row would add above the top limb is a multiple of the modulus. */
  lemma Truncated(v': nat, carry: int, p: nat, q: nat, v: nat, a: int, low: int, top: int)
    requires v' < p * q && v' + carry * (p * q) == v + a * (p * low)
    ensures v' == (v + a * (p * (low + q * top))) % (p * q)
  {
    assert q * top == top * q;
    RowTerm(a, p, low, top, q);
    Distribute(carry, a * top, p * q);
    Remainder(v', carry + a * top, p * q, v + a * (p * (low + q * top)));
  }

  lemma Cleared(z: seq<limb>, x: seq<limb>, y: nat)
    requires x == [] && forall k :: 0 <= k < |z| ==> z[k] == 0
    ensures AllZero(z) && (Value(x) * y) % PowB(|z|) == 0
  {
    ModSmall(0, PowB(|z|));
  }

  lemma RowAdds(x: seq<limb>, j: nat, y: int, m: nat)
    requires j < |x| && m > 0
    ensures ((Value(x[..j]) * y) % m + x[j] * (PowB(j) * y)) % m == (Value(x[..j + 1]) * y) % m
  {
    hide Value, PowB;
    ValueSnoc(x, j);
    RowSum(Value(x[..j]), x[j], PowB(j), y, m);
  }

  lemma RowSum(v: int, x: int, p: int, y: int, m: nat)
    requires m > 0
    ensures ((v * y) % m + x * (p * y)) % m == ((v + x * p) * y) % m
  {
    MulAssoc(x, p, y);
    Distribute(v, x * p, y);
    ModAdd(v * y, x * (p * y), m);
  }

  lemma FirstDifference(a: seq<limb>, b: seq<limb>, k: nat)
    requires |a| == |b| && k < |a| && a[k] < b[k] && forall i :: k < i < |a| ==> a[i] == b[i]
    ensures Value(a) < Value(b)
  {
    hide Value;
    assert a[k + 1..] == b[k + 1..];
    HighestDecides(a, b, k);
  }

  lemma NothingShifted(x: seq<limb>, shift: nat)
    requires x == []
    ensures Value(x) / Pow2(shift) == 0
  {
    ModSmall(0, Pow2(shift));
  }
}
