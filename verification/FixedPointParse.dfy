/** The decimal parser: its single pass over the text, and exactly which numbers it takes. */
module FixedPointParse {
  import Arith
  import opened Words
  import opened FixedPoint

  // ----- What a number is worth -----

  function ExponentValue(x: Exponent): int {
    if x.Absent? then 0 else if x.sign.Minus? then -(Value(x.digits) as int) else Value(x.digits)
  }

  /** A single zero before the point is passed over. */
  function Significant(whole: string): string {
    if whole == "0" then "" else whole
  }

  function Digits(n: Number): string {
    Significant(n.whole) + n.fraction
  }

  /** The power of ten that the mantissa is to be multiplied by. */
  function Power(n: Number, decimals: int): int {
    ExponentValue(n.exponent) - |n.fraction| + Zeros(Digits(n)) + decimals
  }

  predicate Accepts(n: Number, decimals: int) {
    0 <= Power(n, decimals) < 18 && Mantissa(Digits(n)) * Pow10(Power(n, decimals)) < LIMIT
  }

  function Amount(n: Number, decimals: int): int
    requires Accepts(n, decimals)
  {
    var m := Mantissa(Digits(n)) * Pow10(Power(n, decimals));
    if n.negative then -m else m
  }

  /** The natural number a is v * 10^k. */
  predicate Scaled(v: nat, k: int, a: nat) {
    if k >= 0 then a == v * Pow10(k) else a * Pow10(-k) == v
  }

  lemma ScaledUnique(v: nat, k: int, a: nat, b: nat)
    requires Scaled(v, k, a) && Scaled(v, k, b)
    ensures a == b
  {
    if k < 0 {
      CancelRight(a, b, Pow10(-k));
    }
  }

  lemma CancelRight(a: nat, b: nat, p: nat)
    requires a * p == b * p && p > 0
    ensures a == b
  {
    if a < b {
      Arith.MulMono(a + 1, b, p);
    } else if b < a {
      Arith.MulMono(b + 1, a, p);
    }
  }

  /** The digits of the text, without the sign and the point, as one integer. */
  function Whole(n: Number): nat {
    Value(n.whole + n.fraction)
  }

  /** The number times 10^decimals is Whole * 10^Shift. */
  function Shift(n: Number, decimals: int): int {
    ExponentValue(n.exponent) - |n.fraction| + decimals
  }

  lemma WholeIs(n: Number)
    ensures Whole(n) == Value(Digits(n))
  {
    if n.whole == "0" {
      ZeroFirst(n.fraction);
      assert "" + n.fraction == n.fraction;
    }
  }

  lemma ScaledMantissa(m: nat, z: nat, k: int)
    requires z + k >= 0
    ensures Scaled(m * Pow10(z), k, m * Pow10(z + k))
  {
    if k >= 0 {
      Pow10Add(z, k);
      Arith.MulAssoc(m, Pow10(z), Pow10(k));
    } else {
      Pow10Add(z + k, -k);
      Arith.MulAssoc(m, Pow10(z + k), Pow10(-k));
    }
  }

  /** A mantissa without trailing zero cannot be scaled below its own unit. */
  lemma ScaledMeansWhole(m: nat, z: nat, k: int, a: nat)
    requires m % 10 != 0 && Scaled(m * Pow10(z), k, a)
    ensures z + k >= 0 && a == m * Pow10(z + k)
  {
    if z + k < 0 {
      var q: nat := -k - z;
      Pow10Add(q, z);
      Arith.MulAssoc(a, Pow10(q), Pow10(z));
      CancelRight(a * Pow10(q), m, Pow10(z));
      Arith.MulAssoc(a, 10, Pow10(q - 1));
      TenDivides(a, Pow10(q - 1), m);
      assert false;
    }
    ScaledMantissa(m, z, k);
    ScaledUnique(m * Pow10(z), k, a, m * Pow10(z + k));
  }

  lemma TenDivides(a: nat, p: nat, m: nat)
    requires m == a * (10 * p)
    ensures m % 10 == 0
  {
    Tenfold(a, p);
    assert m == 10 * (a * p);
  }

  lemma AtLeastPower(m: nat, e: nat)
    requires m > 0 && m * Pow10(e) < LIMIT
    ensures e < 18
  {
    if e >= 18 {
      Pow18();
      Pow10Mono(18, e);
      Arith.MulMono(1, m, Pow10(e));
      assert false;
    }
  }

  /** A number other than zero is taken exactly when, times 10^decimals, it is an integer of magnitude below 10^18; and that
      integer is the amount. */
  lemma AcceptsIff(n: Number, decimals: int)
    requires Whole(n) > 0
    ensures Accepts(n, decimals) <==> exists a: nat :: a < LIMIT && Scaled(Whole(n), Shift(n, decimals), a)
    ensures Accepts(n, decimals) ==>
      Scaled(Whole(n), Shift(n, decimals), if n.negative then -Amount(n, decimals) else Amount(n, decimals))
  {
    hide Mantissa, Value, Zeros, Pow10, Scaled;
    var d, k := Digits(n), Shift(n, decimals);
    WholeIs(n);
    MantissaTimes(d);
    MantissaEnds(d);
    if Accepts(n, decimals) {
      ScaledMantissa(Mantissa(d), Zeros(d), k);
    }
    if a: nat :| a < LIMIT && Scaled(Whole(n), k, a) {
      ScaledMeansWhole(Mantissa(d), Zeros(d), k, a);
      AtLeastPower(Mantissa(d), Zeros(d) + k);
    }
  }

  /** Zero is taken exactly when its exponent and the decimals add to less than 18 and not less than nothing. */
  lemma ZeroAcceptsIff(n: Number, decimals: int)
    requires Whole(n) == 0 && WellFormed(n)
    ensures Accepts(n, decimals) <==> 0 <= ExponentValue(n.exponent) + decimals < 18
    ensures Accepts(n, decimals) ==> Amount(n, decimals) == 0
  {
    hide Mantissa, Zeros, Pow10;
    WholeIs(n);
    AllZeros(Digits(n));
    assert n.whole == "0" by {
      LeadingDigit(n.whole, n.fraction);
    }
  }

  lemma LeadingDigit(w: string, f: string)
    requires Value(w + f) == 0 && (w == "0" || (w != "" && AllDigits(w) && w[0] != '0'))
    ensures w == "0"
  {
    var c := w[0];
    assert w + f == [c] + (w[1..] + f);
    assert [c] == "" + [c];
    ValueSnoc("", c);
    MoreDigits([c], w[1..] + f);
  }

  /** So zero written with a small exponent is refused, although it is an integer at any scale. */
  lemma ZeroRefused()
    ensures
      var n := Number(false, "0", "", Given('e', Minus, "9"));
      Scan("0e-9") == Some(n) && !Accepts(n, 8) && Scaled(Whole(n), Shift(n, 8), 0)
  {
    var n := Number(false, "0", "", Given('e', Minus, "9"));
    assert Render(n) == "0e-9";
    ScanRender(n);
    ValueSnoc("", '9');
    assert "" + "9" == "9";
    assert "0" + "" == "0";
    ZeroFirst("");
    ZeroAcceptsIff(n, 8);
  }

  // ----- The pass -----

  /** One digit joins the mantissa, unless that would reach 10^18. */
  method ProcessMantissaDigit(ch: char, mantissa: int64, zeros: int32, ghost s: string) returns (ok: bool, m: int64,
                              z: int32)
    requires IsDigit(ch) && zeros + 1 < 0x8000_0000
    requires mantissa == Mantissa(s) < LIMIT && zeros == Zeros(s)
    ensures ok <==> Mantissa(s + [ch]) < LIMIT
    ensures ok ==> m == Mantissa(s + [ch]) && z == Zeros(s + [ch])
  {
    hide Mantissa, Zeros, Value;
    MantissaSnoc(s, ch);
    m, z := mantissa, zeros;
    if ch == '0' {
      z := z + 1;
      return true, m, z;
    }
    ValueSnoc(s, ch);
    MantissaTimes(s);
    var i := 0;
    while i <= zeros
      invariant 0 <= i <= zeros + 1
      invariant m == Mantissa(s) * Pow10(i)
      invariant i <= zeros ==> m < LIMIT
      invariant m + 9 < LIMIT || i == 0
    {
      if m > (LIMIT - 1) / 10 {
        TooLong(Mantissa(s), i, zeros);
        return false, m, z;
      }
      assert Mantissa(s) * (10 * Pow10(i)) == 10 * m by {
        Tenfold(Mantissa(s), Pow10(i));
      }
      m := m * 10;
      i := i + 1;
    }
    Tenfold(Mantissa(s), Pow10(zeros));
    m := m + (ch - '0') as int;
    z := 0;
    ok := true;
  }

  lemma TooLong(m: nat, i: nat, z: nat)
    requires i <= z && m * Pow10(i) > (LIMIT - 1) / 10
    ensures 10 * (m * Pow10(z)) >= LIMIT
  {
    Pow10Mono(i, z);
    Scaling(m, Pow10(i), Pow10(z));
  }

  lemma Scaling(m: nat, p: nat, q: nat)
    requires p <= q
    ensures m * p <= m * q
  {
    Arith.MulMono(p, q, m);
  }

  /** A run of digits joins the mantissa. */
  method TakeDigits(val: string, ptr: nat, mantissa: int64, zeros: int32, ghost s: string)
    returns (ok: bool, end: nat, m: int64, z: int32)
    requires ptr <= |val| && zeros as int + |val| - ptr < 0x8000_0000
    requires mantissa == Mantissa(s) < LIMIT && zeros == Zeros(s)
    ensures ok <==> Mantissa(s + val[ptr..][..Run(val[ptr..])]) < LIMIT
    ensures ok ==> end == ptr + Run(val[ptr..])
    ensures ok ==> m == Mantissa(s + val[ptr..][..Run(val[ptr..])]) && z == Zeros(s + val[ptr..][..Run(val[ptr..])])
  {
    hide Mantissa, Zeros, Run;
    m, z, end := mantissa, zeros, ptr;
    ghost var run := Run(val[ptr..]);
    ghost var all := val[ptr..][..run];
    RunIs(val[ptr..]);
    assert s + all[..0] == s;
    while end < |val| && IsDigit(val[end])
      invariant ptr <= end <= ptr + run && z as int + |val| - end < 0x8000_0000
      invariant m == Mantissa(s + all[..end - ptr]) < LIMIT && z == Zeros(s + all[..end - ptr])
    {
      assert end < ptr + run by {
        assert run < |val[ptr..]| ==> val[ptr..][run] == val[ptr + run];
      }
      ghost var k := end - ptr;
      assert all[k] == val[end];
      assert (s + all[..k]) + [val[end]] == s + all[..k + 1];
      Joined(s, all, k);
      ZerosGrow(s + all[..k], val[end]);
      ok, m, z := ProcessMantissaDigit(val[end], m, z, s + all[..k]);
      if !ok {
        return false, end, m, z;
      }
      end := end + 1;
    }
    RunEnds(val, ptr, end);
    assert all[..run] == all;
    ok := true;
  }

  lemma RunEnds(val: string, ptr: nat, end: nat)
    requires ptr <= end <= |val| && end <= ptr + Run(val[ptr..])
    requires end == |val| || !IsDigit(val[end])
    ensures end == ptr + Run(val[ptr..])
  {
    hide Run;
    var all := val[ptr..][..Run(val[ptr..])];
    RunIs(val[ptr..]);
  }

  lemma ZerosGrow(s: string, c: char)
    ensures Zeros(s + [c]) <= Zeros(s) + 1
  {
    MantissaSnoc(s, c);
  }

  lemma Joined(s: string, all: string, k: nat)
    requires k < |all|
    ensures Mantissa(s + all[..k + 1]) <= Mantissa(s + all)
  {
    hide Mantissa, Value;
    assert (s + all[..k + 1]) + all[k + 1..] == s + all;
    MoreDigits(s + all[..k + 1], all[k + 1..]);
  }

  /** The integer part. */
  method ParseWhole(val: string, ptr: nat) returns (ok: bool, end: nat, m: int64, z: int32)
    requires ptr <= |val| < 0x8000_0000
    ensures ok <==> WholeLength(val[ptr..]) > 0 && Mantissa(Significant(val[ptr..][..WholeLength(val[ptr..])])) < LIMIT
    ensures ok ==> end == ptr + WholeLength(val[ptr..])
    ensures ok ==> m == Mantissa(Significant(val[ptr..end])) && z == Zeros(Significant(val[ptr..end]))
  {
    hide Mantissa, Zeros, Run;
    NoMantissa();
    m, z, end := 0, 0, ptr;
    ghost var t := val[ptr..];
    if ptr < |val| {
      if val[ptr] == '0' {
        assert t[..1] == "0" && val[ptr..ptr + 1] == "0";
        return true, ptr + 1, m, z;
      } else if '1' <= val[ptr] <= '9' {
        RunStarts(t);
        ok, end, m, z := TakeDigits(val, ptr, 0, 0, "");
        ghost var w := t[..Run(t)];
        assert "" + w == w && w[0] != '0';
        assert Significant(w) == w;
        if ok {
          assert val[ptr..end] == w;
        }
        return;
      }
      RunStarts(t);
    } else {
      RunStarts(t);
    }
    ok := false;
  }

  lemma NoMantissa()
    ensures Mantissa("") == 0 && Zeros("") == 0
  {
  }

  lemma RunStarts(t: string)
    ensures Run(t) > 0 <==> t != "" && IsDigit(t[0])
  {
  }

  predicate MissingFraction(s: string) { Starts(s, '.') && Run(s[1..]) == 0 }

  /** The digits after the point, none if there is no point. */
  function Fraction(s: string): string {
    if Starts(s, '.') then s[1..][..Run(s[1..])] else ""
  }

  /** Where the fraction ends. */
  function FractionLength(s: string): (r: nat)
    ensures r <= |s|
  {
    if Starts(s, '.') then 1 + Run(s[1..]) else 0
  }

  lemma FractionScan(s: string)
    ensures ScanFraction(s).Some? <==> !MissingFraction(s) && ScanExponent(s[FractionLength(s)..]).Some?
    ensures ScanFraction(s).Some? ==> ScanFraction(s).value == (Fraction(s), ScanExponent(s[FractionLength(s)..]).value)
  {
    hide ScanExponent;
    if Starts(s, '.') {
      assert s[1..][Run(s[1..])..] == s[1 + Run(s[1..])..];
    } else {
      assert s[0..] == s;
    }
  }

  method ParseFraction(val: string, ptr: nat, mantissa: int64, zeros: int32, ghost s: string)
    returns (ok: bool, end: nat, m: int64, z: int32, point: int32)
    requires ptr <= |val| < 0x8000_0000 && zeros as int + |val| - ptr < 0x8000_0000
    requires mantissa == Mantissa(s) < LIMIT && zeros == Zeros(s)
    ensures ok <==> !MissingFraction(val[ptr..]) && Mantissa(s + Fraction(val[ptr..])) < LIMIT
    ensures ok ==> end == ptr + FractionLength(val[ptr..]) && point == |Fraction(val[ptr..])|
    ensures ok ==> m == Mantissa(s + Fraction(val[ptr..])) && z == Zeros(s + Fraction(val[ptr..]))
  {
    hide Mantissa, Zeros, Run;
    m, z, end, point := mantissa, zeros, ptr, 0;
    if end < |val| && val[end] == '.' {
      end := end + 1;
      assert val[ptr..][1..] == val[end..];
      RunStarts(val[end..]);
      if end < |val| && IsDigit(val[end]) {
        var start := end;
        ok, end, m, z := TakeDigits(val, start, m, z, s);
        if ok {
          point := end - start;
        }
      } else {
        ok := false;
      }
    } else {
      assert s + "" == s;
      ok := true;
    }
  }

  /** The exponent, and nothing after it. */
  method ParseExponent(val: string, ptr: nat) returns (ok: bool, exponent: int64)
    requires ptr <= |val| < 0x8000_0000
    ensures ok <==> ScanExponent(val[ptr..]).Some? && -LIMIT < ExponentValue(ScanExponent(val[ptr..]).value) < LIMIT
    ensures ok ==> exponent == ExponentValue(ScanExponent(val[ptr..]).value)
  {
    hide Value, Run;
    exponent := 0;
    var end, negative := ptr, false;
    ghost var s := val[ptr..];
    if end < |val| && (val[end] == 'e' || val[end] == 'E') {
      end := end + 1;
      ghost var t := val[end..];
      assert s[1..] == t;
      if end < |val| && val[end] == '+' {
        end := end + 1;
        assert t[1..] == val[end..];
      } else if end < |val| && val[end] == '-' {
        negative := true;
        end := end + 1;
        assert t[1..] == val[end..];
      }
      RunStarts(val[end..]);
      if end < |val| && IsDigit(val[end]) {
        var fits, e, p := TakeExponent(val, end);
        assert val[end..][..|val| - end] == val[end..];
        if !fits || p != |val| {
          return false, 0;
        }
        exponent := if negative then -e else e;
        return true, exponent;
      }
      return false, 0;
    }
    ok := end == |val|;
    assert end == |val| ==> s == "";
  }

  /** A run of digits as a number, unless it reaches 10^18: then nothing is promised of where it stopped. */
  method TakeExponent(val: string, ptr: nat) returns (ok: bool, e: int64, end: nat)
    requires ptr < |val| < 0x8000_0000
    ensures ok <==> Value(val[ptr..][..Run(val[ptr..])]) < LIMIT
    ensures ok ==> end == ptr + Run(val[ptr..]) && e == Value(val[ptr..][..Run(val[ptr..])])
    ensures ok && end == |val| ==> val[ptr..][..Run(val[ptr..])] == val[ptr..]
  {
    hide Value, Run;
    e, end := 0, ptr;
    ghost var run := Run(val[ptr..]);
    ghost var all := val[ptr..][..run];
    RunIs(val[ptr..]);
    NoValue();
    while end < |val| && IsDigit(val[end])
      invariant ptr <= end <= ptr + run
      invariant e == Value(all[..end - ptr]) < LIMIT
    {
      assert end < ptr + run by {
        assert run < |val[ptr..]| ==> val[ptr..][run] == val[ptr + run];
      }
      ghost var k := end - ptr;
      assert all[k] == val[end];
      assert all[..k] + [val[end]] == all[..k + 1];
      ValueSnoc(all[..k], val[end]);
      if e > (LIMIT - 1) / 10 {
        assert all[..k + 1] + all[k + 1..] == all;
        MoreDigits(all[..k + 1], all[k + 1..]);
        return false, e, end;
      }
      e := e * 10 + (val[end] - '0') as int;
      end := end + 1;
    }
    RunEnds(val, ptr, end);
    assert all[..run] == all;
    ok := true;
  }

  lemma NoValue()
    ensures Value("") == 0
  {
  }

  function Abs(x: int): nat { if x < 0 then -x else x }

  /** The mantissa times a power of ten, unless that reaches 10^18. */
  method Scale(mantissa: int64, exponent: nat) returns (ok: bool, r: int64)
    requires Abs(mantissa) < LIMIT && exponent < 18
    ensures ok <==> Abs(mantissa) * Pow10(exponent) < LIMIT
    ensures ok ==> r == mantissa * Pow10(exponent)
  {
    r := mantissa;
    var i := 0;
    while i < exponent
      invariant 0 <= i <= exponent
      invariant r == mantissa * Pow10(i) && Abs(r) == Abs(mantissa) * Pow10(i) && Abs(r) < LIMIT
    {
      if r > (LIMIT - 1) / 10 || r < -((LIMIT - 1) / 10) {
        TooLong(Abs(mantissa), i, exponent - 1);
        Tenfold(Abs(mantissa), Pow10(exponent - 1));
        return false, r;
      }
      TenTimes(mantissa, Pow10(i));
      TenTimes(Abs(mantissa), Pow10(i));
      r := r * 10;
      i := i + 1;
    }
    if r > LIMIT - 1 || r < -(LIMIT - 1) {
      return false, r;
    }
    ok := true;
  }

  lemma TenTimes(m: int, p: int)
    ensures m * (10 * p) == m * p * 10
  {
  }

  /** `ParseFixedPoint` takes exactly the numbers of the grammar that `Accepts` describes, and every value it computes on the
      way fits 64 bits. */
  method ParseFixedPoint(val: string, decimals: int32) returns (ok: bool, amount: int64)
    requires |val| < 0x8000_0000
    ensures ok <==> Scan(val).Some? && Accepts(Scan(val).value, decimals)
    ensures ok ==> amount == Amount(Scan(val).value, decimals)
  {
    hide Mantissa, Zeros, Run, Value, Pow10, ScanFraction, ScanExponent, WholeLength;
    amount := 0;
    var ptr, negative := 0, false;
    if ptr < |val| && val[ptr] == '-' {
      negative := true;
      ptr := ptr + 1;
    }
    ghost var t := val[ptr..];
    var fits, end, mantissa, zeros := ParseWhole(val, ptr);
    ghost var w := Significant(t[..WholeLength(t)]);
    ScanIs(val, t);
    if !fits {
      LongMantissa(val, decimals, w);
      return false, 0;
    }
    assert t[..WholeLength(t)] == val[ptr..end] && t[WholeLength(t)..] == val[end..];
    ghost var u := val[end..];
    ZerosFit(w);
    var point: int32;
    fits, end, mantissa, zeros, point := ParseFraction(val, end, mantissa, zeros, w);
    FractionScan(u);
    if !fits {
      LongMantissa(val, decimals, w + Fraction(u));
      return false, 0;
    }
    ghost var d := w + Fraction(u);
    assert u[FractionLength(u)..] == val[end..];
    var exponent: int64;
    fits, exponent := ParseExponent(val, end);
    if !fits {
      ZerosFit(d);
      return false, 0;
    }
    ZerosFit(d);
    exponent := exponent - point + zeros + decimals;
    ghost var n := Scan(val).value;
    assert Digits(n) == d && Power(n, decimals) == exponent;
    if negative {
      mantissa := -mantissa;
    }
    if exponent < 0 || exponent >= 18 {
      return false, 0;
    }
    fits, amount := Scale(mantissa, exponent);
    if negative {
      Negated(Mantissa(d), Pow10(exponent));
    }
    ok := fits;
  }

  lemma {:induction false} ZerosFit(s: string)
    ensures Zeros(s) <= |s|
  {
    MantissaTimes(s);
  }

  lemma Negated(m: int, p: int)
    ensures (-m) * p == -(m * p)
  {
  }

  /** The scan, after an optional minus. */
  lemma ScanIs(val: string, t: string)
    requires t == if Starts(val, '-') then val[1..] else val
    ensures Scan(val).Some? <==> WholeLength(t) > 0 && ScanFraction(t[WholeLength(t)..]).Some?
    ensures Scan(val).Some? ==>
      Scan(val).value.negative == Starts(val, '-') && Scan(val).value.whole == t[..WholeLength(t)]
      && (Scan(val).value.fraction, Scan(val).value.exponent) == ScanFraction(t[WholeLength(t)..]).value
  {
  }

  /** A mantissa that is too long at some point stays so. */
  lemma LongMantissa(val: string, decimals: int, s: string)
    requires Scan(val).Some? ==> s <= Digits(Scan(val).value) && Mantissa(s) >= LIMIT
    ensures !(Scan(val).Some? && Accepts(Scan(val).value, decimals))
  {
    hide Mantissa, Zeros, Value;
    if Scan(val).Some? {
      var d := Digits(Scan(val).value);
      assert s + d[|s|..] == d;
      MoreDigits(s, d[|s|..]);
      if Accepts(Scan(val).value, decimals) {
        Scaling(Mantissa(d), 1, Pow10(Power(Scan(val).value, decimals)));
        assert false;
      }
    }
  }
}
