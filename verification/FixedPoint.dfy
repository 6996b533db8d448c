/** Decimal amounts: the number grammar of section 6 of RFC 8259, what a number is worth at a given number of decimals, and
    when the parser takes it. */
module FixedPoint {
  import Arith
  import opened Words

  const LIMIT: int := 1_000_000_000_000_000_000

  type int64 = x: int | -0x8000_0000_0000_0000 <= x < 0x8000_0000_0000_0000
  type int32 = x: int | -0x8000_0000 <= x < 0x8000_0000

  function Pow10(k: nat): (r: nat)
    ensures r >= 1
  {
    if k == 0 then 1 else 10 * Pow10(k - 1)
  }

  lemma {:induction false} Pow10Add(a: nat, b: nat)
    ensures Pow10(a + b) == Pow10(a) * Pow10(b)
  {
    if a > 0 {
      Pow10Add(a - 1, b);
      Arith.MulAssoc(10, Pow10(a - 1), Pow10(b));
    }
  }

  lemma {:induction false} Pow10Mono(a: nat, b: nat)
    requires a <= b
    ensures Pow10(a) <= Pow10(b)
  {
    if a < b {
      Pow10Mono(a, b - 1);
    }
  }

  lemma Pow18()
    ensures Pow10(18) == LIMIT
  {
    Pow10Add(9, 9);
    Pow10Add(3, 3);
    Pow10Add(6, 3);
    assert Pow10(3) == 1000;
    assert Pow10(6) == 1_000_000;
    assert Pow10(9) == 1_000_000_000;
  }

  // ----- Digits -----

  predicate IsDigit(c: char) { '0' <= c <= '9' }

  function DigitOf(c: char): (r: nat)
    ensures r < 10
  {
    if IsDigit(c) then (c - '0') as int else 0
  }

  predicate AllDigits(s: string) { forall i :: 0 <= i < |s| ==> IsDigit(s[i]) }

  /** The integer a string of digits spells. */
  function Value(s: string): nat {
    if s == "" then 0 else 10 * Value(s[..|s| - 1]) + DigitOf(s[|s| - 1])
  }

  /** How many zeros it ends in. */
  function Zeros(s: string): nat {
    if s == "" then 0 else if DigitOf(s[|s| - 1]) == 0 then 1 + Zeros(s[..|s| - 1]) else 0
  }

  /** What it spells without them. */
  function Mantissa(s: string): nat {
    if s == "" then 0 else if DigitOf(s[|s| - 1]) == 0 then Mantissa(s[..|s| - 1]) else Value(s)
  }

  lemma ValueSnoc(s: string, c: char)
    ensures Value(s + [c]) == 10 * Value(s) + DigitOf(c)
  {
    assert (s + [c])[..|s|] == s;
  }

  lemma MantissaSnoc(s: string, c: char)
    ensures Mantissa(s + [c]) == if DigitOf(c) == 0 then Mantissa(s) else Value(s + [c])
    ensures Zeros(s + [c]) == if DigitOf(c) == 0 then Zeros(s) + 1 else 0
  {
    assert (s + [c])[..|s|] == s;
  }

  lemma {:induction false} MantissaTimes(s: string)
    ensures Value(s) == Mantissa(s) * Pow10(Zeros(s)) && Zeros(s) <= |s|
  {
    if s != "" {
      var front := s[..|s| - 1];
      MantissaTimes(front);
      if DigitOf(s[|s| - 1]) == 0 {
        Tenfold(Mantissa(front), Pow10(Zeros(front)));
      }
    }
  }

  lemma Tenfold(m: nat, p: nat)
    ensures m * (10 * p) == 10 * (m * p)
  {
  }

  lemma {:induction false} MantissaEnds(s: string)
    requires Value(s) > 0
    ensures Mantissa(s) % 10 != 0
  {
    if DigitOf(s[|s| - 1]) == 0 {
      MantissaEnds(s[..|s| - 1]);
    }
  }

  lemma {:induction false} MantissaAtMost(s: string)
    ensures Mantissa(s) <= Value(s)
  {
    if s != "" && DigitOf(s[|s| - 1]) == 0 {
      MantissaAtMost(s[..|s| - 1]);
    }
  }

  /** More digits never make either smaller. */
  lemma {:induction false} MoreDigits(s: string, t: string)
    ensures Mantissa(s) <= Mantissa(s + t) && Value(s) <= Value(s + t)
    decreases |t|
  {
    if t == "" {
      assert s + t == s;
    } else {
      var front, c := t[..|t| - 1], t[|t| - 1];
      MoreDigits(s, front);
      assert s + t == (s + front) + [c];
      ValueSnoc(s + front, c);
      MantissaSnoc(s + front, c);
      MantissaAtMost(s + front);
    }
  }

  lemma {:induction false} ZeroFirst(s: string)
    ensures Value("0" + s) == Value(s)
  {
    if s == "" {
      assert "0" + s == "" + "0";
      ValueSnoc("", '0');
    } else {
      var front, c := s[..|s| - 1], s[|s| - 1];
      ZeroFirst(front);
      assert "0" + s == ("0" + front) + [c];
      ValueSnoc("0" + front, c);
      assert s == front + [c];
      ValueSnoc(front, c);
    }
  }

  lemma {:induction false} AllZeros(s: string)
    requires Value(s) == 0
    ensures Zeros(s) == |s| && Mantissa(s) == 0
  {
    if s != "" {
      AllZeros(s[..|s| - 1]);
    }
  }

  // ----- Grammar -----

  datatype Sign = Unsigned | Plus | Minus

  datatype Exponent = Absent | Given(letter: char, sign: Sign, digits: string)

  /** An empty fraction is an absent one. */
  datatype Number = Number(negative: bool, whole: string, fraction: string, exponent: Exponent)

  predicate WellFormed(n: Number) {
    (n.whole == "0" || (n.whole != "" && AllDigits(n.whole) && n.whole[0] != '0'))
    && AllDigits(n.fraction)
    && WellFormedExponent(n.exponent)
  }

  predicate WellFormedExponent(x: Exponent) {
    x.Given? ==> (x.letter == 'e' || x.letter == 'E') && x.digits != "" && AllDigits(x.digits)
  }

  function SignText(s: Sign): string {
    if s.Unsigned? then "" else if s.Plus? then "+" else "-"
  }

  function ExponentText(x: Exponent): string {
    if x.Absent? then "" else [x.letter] + (SignText(x.sign) + x.digits)
  }

  function FractionText(f: string): string {
    if f == "" then "" else "." + f
  }

  function Render(n: Number): string {
    (if n.negative then "-" else "") + (n.whole + (FractionText(n.fraction) + ExponentText(n.exponent)))
  }

  predicate Starts(s: string, c: char) { s != "" && s[0] == c }

  /** How many digits a text starts with. */
  function Run(s: string): (r: nat)
    ensures r <= |s|
  {
    if s == "" || !IsDigit(s[0]) then 0 else 1 + Run(s[1..])
  }

  function ScanExponent(s: string): Option<Exponent> {
    if s == "" then Some(Absent)
    else if s[0] != 'e' && s[0] != 'E' then None
    else
      var t := s[1..];
      var sign := if Starts(t, '+') then Plus else if Starts(t, '-') then Minus else Unsigned;
      var u := if sign.Unsigned? then t else t[1..];
      if u == "" || Run(u) != |u| then None else Some(Given(s[0], sign, u))
  }

  function ScanFraction(s: string): Option<(string, Exponent)> {
    if Starts(s, '.') then
      var k := Run(s[1..]);
      if k == 0 then None
      else
        var x := ScanExponent(s[1..][k..]);
        if x.None? then None else Some((s[1..][..k], x.value))
    else
      var x := ScanExponent(s);
      if x.None? then None else Some(("", x.value))
  }

  /** How long the integer part is: a single zero, or a run that starts with another digit. */
  function WholeLength(s: string): (r: nat)
    ensures r <= |s|
  {
    if Starts(s, '0') then 1 else Run(s)
  }

  function Scan(s: string): Option<Number> {
    var negative := Starts(s, '-');
    var t := if negative then s[1..] else s;
    var k := WholeLength(t);
    if k == 0 then None
    else
      var f := ScanFraction(t[k..]);
      if f.None? then None else Some(Number(negative, t[..k], f.value.0, f.value.1))
  }

  lemma {:induction false} RunIs(s: string)
    ensures AllDigits(s[..Run(s)])
    ensures Run(s) < |s| ==> !IsDigit(s[Run(s)])
  {
    if s != "" && IsDigit(s[0]) {
      RunIs(s[1..]);
      assert s[..Run(s)] == [s[0]] + s[1..][..Run(s) - 1];
    }
  }

  lemma {:induction false} RunOf(d: string, s: string)
    requires AllDigits(d) && (s == "" || !IsDigit(s[0]))
    ensures Run(d + s) == |d|
  {
    if d == "" {
      assert d + s == s;
    } else {
      assert (d + s)[1..] == d[1..] + s;
      RunOf(d[1..], s);
    }
  }

  lemma ExponentRoundTrip(x: Exponent)
    requires WellFormedExponent(x)
    ensures ScanExponent(ExponentText(x)) == Some(x)
  {
    if x.Given? {
      var s := ExponentText(x);
      assert s[1..] == SignText(x.sign) + x.digits;
      RunOf(x.digits, "");
      assert x.digits + "" == x.digits;
      assert x.digits[0] != '+' && x.digits[0] != '-';
      if x.sign.Unsigned? {
        assert s[1..] == x.digits;
      } else {
        assert s[1..][1..] == x.digits;
      }
    }
  }

  lemma ExponentStarts(x: Exponent)
    requires WellFormedExponent(x)
    ensures var e := ExponentText(x); e == "" || (!IsDigit(e[0]) && e[0] != '.')
  {
  }

  lemma FractionRoundTrip(f: string, x: Exponent)
    requires AllDigits(f)
    requires WellFormedExponent(x)
    ensures ScanFraction(FractionText(f) + ExponentText(x)) == Some((f, x))
  {
    hide ScanExponent, ExponentText, AllDigits, Run, WellFormedExponent;
    ExponentRoundTrip(x);
    ExponentStarts(x);
    var e := ExponentText(x);
    var s := FractionText(f) + e;
    if f == "" {
      assert s == e;
    } else {
      assert s[1..] == f + e;
      RunOf(f, e);
      assert (f + e)[..|f|] == f && (f + e)[|f|..] == e;
    }
  }

  /** Every number of the grammar is read back as itself. */
  lemma ScanRender(n: Number)
    requires WellFormed(n)
    ensures Scan(Render(n)) == Some(n)
  {
    hide ScanFraction, AllDigits;
    var rest := FractionText(n.fraction) + ExponentText(n.exponent);
    var t := n.whole + rest;
    var s := Render(n);
    FractionRoundTrip(n.fraction, n.exponent);
    assert n.whole != "" && IsDigit(n.whole[0]) by {
      FirstDigit(n.whole);
    }
    assert t[0] == n.whole[0];
    assert n.negative ==> s[1..] == t;
    assert !n.negative ==> s == t;
    assert WholeLength(t) == |n.whole| by {
      WholeOf(n.whole, rest);
    }
    assert t[..|n.whole|] == n.whole && t[|n.whole|..] == rest;
  }

  lemma FirstDigit(w: string)
    requires w == "0" || (w != "" && AllDigits(w))
    ensures w != "" && IsDigit(w[0])
  {
  }

  lemma WholeOf(w: string, rest: string)
    requires w == "0" || (w != "" && AllDigits(w) && w[0] != '0')
    requires rest == "" || !IsDigit(rest[0])
    ensures WholeLength(w + rest) == |w|
  {
    if w != "0" {
      RunOf(w, rest);
    }
  }

  lemma ExponentScanned(s: string)
    requires ScanExponent(s).Some?
    ensures ExponentText(ScanExponent(s).value) == s && WellFormedExponent(ScanExponent(s).value)
  {
    if s != "" {
      var x := ScanExponent(s).value;
      RunIs(x.digits);
      assert x.digits[..|x.digits|] == x.digits;
      assert s[1..] == SignText(x.sign) + x.digits;
      assert s == [s[0]] + s[1..];
    }
  }

  lemma FractionScanned(s: string)
    requires ScanFraction(s).Some?
    ensures
      var (f, x) := ScanFraction(s).value;
      FractionText(f) + ExponentText(x) == s && AllDigits(f) && WellFormedExponent(x)
  {
    hide ScanExponent, ExponentText, AllDigits;
    var (f, x) := ScanFraction(s).value;
    if Starts(s, '.') {
      var k := Run(s[1..]);
      RunIs(s[1..]);
      ExponentScanned(s[1..][k..]);
      assert s == "." + (s[1..][..k] + s[1..][k..]);
      assert ("." + f) + ExponentText(x) == "." + (f + ExponentText(x));
    } else {
      ExponentScanned(s);
      NoDigits();
      assert "" + ExponentText(x) == ExponentText(x);
    }
  }

  lemma NoDigits()
    ensures AllDigits("")
  {
  }

  /** Whatever is read is a number of the grammar, and the whole text. */
  lemma RenderScan(s: string)
    requires Scan(s).Some?
    ensures WellFormed(Scan(s).value) && Render(Scan(s).value) == s
  {
    hide ScanFraction, AllDigits, FractionText, ExponentText;
    var n := Scan(s).value;
    var t := if Starts(s, '-') then s[1..] else s;
    var k := WholeLength(t);
    FractionScanned(t[k..]);
    assert t == t[..k] + t[k..];
    WholeScanned(t);
    if n.negative {
      assert s == "-" + t;
    } else {
      assert "" + t == t;
    }
  }

  lemma WholeScanned(t: string)
    requires WholeLength(t) > 0
    ensures var w := t[..WholeLength(t)]; w == "0" || (w != "" && AllDigits(w) && w[0] != '0')
  {
    if !Starts(t, '0') {
      RunIs(t);
    } else {
      assert t[..1] == "0";
    }
  }
}
