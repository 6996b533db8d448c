/** The emission schedule: per-height subsidies that halve in steps, and their sum over a range of heights by segments. */
module Emission {
  import opened Arith

  const GENESIS: nat := 1
  const AMOUNT_BITS: nat := 64

  /** First drop and length of the later segments, in blocks. */
  datatype Schedule = Schedule(drop0: nat, drop1: nat)

  /** The segment a height is in: 0 up to the first drop, then 1, 2, … */
  function Segment(s: Schedule, h: nat): nat
    requires s.drop1 > 0 && h >= GENESIS
  {
    if h - GENESIS < s.drop0 then 0
    else
      DivNonNegative(h - GENESIS - s.drop0, s.drop1);
      1 + (h - GENESIS - s.drop0) / s.drop1
  }

  /** Subsidy in a segment: halved at the first drop, 5/16 at the second, halved at each further one. */
  function Subsidy(n: nat, base: nat): nat {
    if n == 0 then base
    else if n >= AMOUNT_BITS then 0
    else
      var b := if n >= 2 then base + base / 4 else base;
      DivNonNegative(b, Pow2(n));
      b / Pow2(n)
  }

  /** `get_Emission` of one height. */
  function At(s: Schedule, h: nat, base: nat): nat
    requires s.drop1 > 0 && h >= GENESIS
  {
    Subsidy(Segment(s, h), base)
  }

  /** The first height after a segment. */
  function SegmentEnd(s: Schedule, n: nat): nat {
    GENESIS + s.drop0 + n * s.drop1
  }

  lemma SegmentBounds(s: Schedule, h: nat)
    requires s.drop1 > 0 && h >= GENESIS
    ensures h < SegmentEnd(s, Segment(s, h))
    ensures Segment(s, h) > 0 ==> SegmentEnd(s, Segment(s, h) - 1) <= h
  {
    if h - GENESIS >= s.drop0 {
      var x := h - GENESIS - s.drop0;
      assert x == x / s.drop1 * s.drop1 + x % s.drop1;
      assert (1 + x / s.drop1) * s.drop1 == s.drop1 + x / s.drop1 * s.drop1;
    }
  }

  /** All heights up to the end of a segment, from one in it, are in it. */
  lemma SameSegment(s: Schedule, h: nat, h': nat)
    requires s.drop1 > 0 && GENESIS <= h <= h' < SegmentEnd(s, Segment(s, h))
    ensures Segment(s, h') == Segment(s, h)
  {
    var n := Segment(s, h);
    if n > 0 {
      SegmentBounds(s, h);
      var x := h' - GENESIS - s.drop0;
      assert n * s.drop1 == (n - 1) * s.drop1 + s.drop1;
      DivModUnique(x, s.drop1, n - 1, x - (n - 1) * s.drop1);
    }
  }

  lemma SegmentGrows(s: Schedule, h: nat, h': nat)
    requires s.drop1 > 0 && GENESIS <= h <= h'
    ensures Segment(s, h) <= Segment(s, h')
  {
    SegmentBounds(s, h);
    SegmentBounds(s, h');
    var n, m := Segment(s, h), Segment(s, h');
    if m < n {
      MulMono(m, n - 1, s.drop1);
    }
  }

  /** Once the subsidy is zero it stays zero. */
  lemma {:induction false} ZeroStays(n: nat, m: nat, base: nat)
    requires n <= m && Subsidy(n, base) == 0
    ensures Subsidy(m, base) == 0
    decreases m
  {
    if n < m {
      ZeroStays(n, m - 1, base);
      ZeroNext(m - 1, base);
    }
  }

  lemma ZeroNext(n: nat, base: nat)
    requires Subsidy(n, base) == 0
    ensures Subsidy(n + 1, base) == 0
  {
    if n + 1 < AMOUNT_BITS {
      if n == 0 {
        assert base == 0;
        ModSmall(0, Pow2(1));
      } else {
        var b := if n >= 2 then base + base / 4 else base;
        BelowIfZero(b, Pow2(n));
        if n == 1 {
          assert Pow2(1) == 2 && Pow2(2) == 4;
          assert base <= 1;
        }
        ModSmall(if n + 1 >= 2 then base + base / 4 else base, Pow2(n + 1));
      }
    }
  }

  lemma BelowIfZero(b: nat, p: nat)
    requires p > 0 && b / p == 0
    ensures b < p
  {
  }

  // ----- Sums over heights -----

  function SumUpTo(s: Schedule, lo: nat, hi: nat, base: nat): nat
    requires s.drop1 > 0 && lo >= GENESIS
    decreases hi
  {
    if hi < lo then 0 else SumUpTo(s, lo, hi - 1, base) + At(s, hi, base)
  }

  lemma {:induction false} SumSplit(s: Schedule, lo: nat, mid: nat, hi: nat, base: nat)
    requires s.drop1 > 0 && GENESIS <= lo <= mid <= hi + 1
    ensures SumUpTo(s, lo, hi, base) == SumUpTo(s, lo, mid - 1, base) + SumUpTo(s, mid, hi, base)
    decreases hi
  {
    if mid <= hi {
      SumSplit(s, lo, mid, hi - 1, base);
    }
  }

  /** Within one segment the sum is a product. */
  lemma {:induction false} SumInSegment(s: Schedule, lo: nat, hi: nat, base: nat)
    requires s.drop1 > 0 && GENESIS <= lo <= hi + 1 <= SegmentEnd(s, Segment(s, lo))
    ensures SumUpTo(s, lo, hi, base) == At(s, lo, base) * (hi + 1 - lo)
    decreases hi
  {
    if hi >= lo {
      SumInSegment(s, lo, hi - 1, base);
      SameSegment(s, lo, hi);
      assert At(s, lo, base) * (hi - lo) + At(s, lo, base) == At(s, lo, base) * (hi + 1 - lo);
    }
  }

  lemma {:induction false} SumZero(s: Schedule, lo: nat, hi: nat, base: nat)
    requires s.drop1 > 0 && lo >= GENESIS && At(s, lo, base) == 0
    ensures SumUpTo(s, lo, hi, base) == 0
    decreases hi
  {
    if hi >= lo {
      SumZero(s, lo, hi - 1, base);
      SegmentGrows(s, lo, hi);
      ZeroStays(Segment(s, lo), Segment(s, hi), base);
    }
  }

  /** `get_Emission` of a range: by segments, up to the first one without a subsidy. It is the sum over the heights. */
  method OfRange(s: Schedule, lo: nat, hi: nat, base: nat) returns (res: nat)
    requires s.drop1 > 0 && lo >= GENESIS
    ensures res == SumUpTo(s, lo, hi, base)
  {
    hide SumUpTo, Subsidy;
    res := 0;
    SumNone(s, lo, hi, base);
    if lo > hi {
      return;
    }
    var pos := lo;
    while true
      invariant lo <= pos <= hi && res == SumUpTo(s, lo, pos - 1, base)
      decreases hi - pos
    {
      var n := Segment(s, pos);
      var current := Subsidy(n, base);
      SumSplit(s, lo, pos, hi, base);
      if current == 0 {
        SumZero(s, pos, hi, base);
        break;
      }
      var end := SegmentEnd(s, n);
      SegmentBounds(s, pos);
      if hi < end {
        SumInSegment(s, pos, hi, base);
        res := res + current * (hi - pos + 1);
        break;
      }
      SumInSegment(s, pos, end - 1, base);
      SumSplit(s, lo, pos, end - 1, base);
      res := res + current * (end - pos);
      pos := end;
    }
  }

  lemma SumNone(s: Schedule, lo: nat, hi: nat, base: nat)
    requires s.drop1 > 0 && lo >= GENESIS
    ensures SumUpTo(s, lo, lo - 1, base) == 0 && (lo > hi ==> SumUpTo(s, lo, hi, base) == 0)
  {
  }

  // ----- Total supply -----

  /** Subsidies of the segments 1 .. n. */
  function Steps(n: nat, base: nat): nat {
    if n == 0 then 0 else Steps(n - 1, base) + Subsidy(n, base)
  }

  /** From the second drop on: a geometric series. */
  lemma {:induction false} StepsBound(n: nat, base: nat)
    requires n >= 1
    ensures 4 * (Steps(n, base) - Subsidy(1, base)) * Pow2(n) <= (base + base / 4) * (2 * Pow2(n) - 4)
  {
    if n == 1 {
      assert Steps(1, base) == Steps(0, base) + Subsidy(1, base);
      assert Pow2(1) == 2;
    } else {
      StepsBound(n - 1, base);
      var b, d, p := base + base / 4, Steps(n - 1, base) - Subsidy(1, base), Pow2(n - 1);
      SubsidyBound(n, base);
      SeriesStep(b, d, Subsidy(n, base), p);
    }
  }

  lemma SubsidyBound(n: nat, base: nat)
    requires n >= 2
    ensures Subsidy(n, base) * Pow2(n) <= base + base / 4
  {
    if n < AMOUNT_BITS {
      var b := base + base / 4;
      assert b == b / Pow2(n) * Pow2(n) + b % Pow2(n);
    }
  }

  lemma SeriesStep(b: nat, d: int, x: nat, p: nat)
    requires 4 * d * p <= b * (2 * p - 4) && x * (2 * p) <= b
    ensures 4 * (d + x) * (2 * p) <= b * (2 * (2 * p) - 4)
  {
    assert 4 * (d + x) * (2 * p) == 2 * (4 * d * p) + 4 * (x * (2 * p));
    assert b * (2 * (2 * p) - 4) == 2 * (b * (2 * p - 4)) + 4 * b;
  }

  lemma StepsTotal(n: nat, base: nat)
    ensures 8 * Steps(n, base) <= 9 * base
  {
    if n >= 1 {
      StepsBound(n, base);
      var b, d, p := base + base / 4, Steps(n, base) - Subsidy(1, base), Pow2(n);
      HalfSeries(b, d, p);
      assert Pow2(1) == 2;
      assert Subsidy(1, base) == base / 2;
    } else {
      assert Steps(0, base) == 0;
    }
  }

  lemma HalfSeries(b: nat, d: int, p: nat)
    requires p > 0 && 4 * d * p <= b * (2 * p - 4)
    ensures 2 * d <= b
  {
    assert (b + 1) * (2 * p) == b * (2 * p) + 2 * p;
    assert 2 * d * (2 * p) == 4 * d * p;
    assert b * (2 * p - 4) == b * (2 * p) - 4 * b;
    if 2 * d > b {
      MulMono(b + 1, 2 * d, 2 * p);
    }
  }

  lemma {:induction false} SumOfSegments(s: Schedule, n: nat, base: nat)
    requires s.drop1 > 0
    ensures SumUpTo(s, GENESIS, SegmentEnd(s, n) - 1, base) == base * s.drop0 + Steps(n, base) * s.drop1
  {
    hide SumUpTo, Subsidy;
    if n == 0 {
      FirstSegment(s, base);
    } else {
      SumOfSegments(s, n - 1, base);
      OneSegment(s, n, base);
      Another(Steps(n - 1, base), Subsidy(n, base), s.drop1);
    }
  }

  lemma Another(a: nat, b: nat, d: nat)
    ensures (a + b) * d == a * d + b * d
  {
  }

  lemma FirstSegment(s: Schedule, base: nat)
    requires s.drop1 > 0
    ensures SumUpTo(s, GENESIS, SegmentEnd(s, 0) - 1, base) == base * s.drop0 + Steps(0, base) * s.drop1
  {
    assert Steps(0, base) * s.drop1 == 0;
    if s.drop0 > 0 {
      SumInSegment(s, GENESIS, SegmentEnd(s, 0) - 1, base);
    } else {
      SumNone(s, GENESIS, 0, base);
    }
  }

  lemma OneSegment(s: Schedule, n: nat, base: nat)
    requires s.drop1 > 0 && n > 0
    ensures SumUpTo(s, GENESIS, SegmentEnd(s, n) - 1, base) ==
      SumUpTo(s, GENESIS, SegmentEnd(s, n - 1) - 1, base) + Subsidy(n, base) * s.drop1
  {
    hide SumUpTo, Subsidy;
    FirstOf(s, n);
    var lo, hi := SegmentEnd(s, n - 1), SegmentEnd(s, n) - 1;
    assert n * s.drop1 == (n - 1) * s.drop1 + s.drop1;
    assert lo <= hi + 1 && hi + 1 - lo == s.drop1;
    hide Segment;
    SumSplit(s, GENESIS, lo, hi, base);
    SumInSegment(s, lo, hi, base);
  }

  lemma FirstOf(s: Schedule, n: nat)
    requires s.drop1 > 0 && n > 0
    ensures Segment(s, SegmentEnd(s, n - 1)) == n
  {
    DivModUnique((n - 1) * s.drop1, s.drop1, n - 1, 0);
  }

  lemma {:induction false} SumGrows(s: Schedule, lo: nat, hi: nat, hi': nat, base: nat)
    requires s.drop1 > 0 && lo >= GENESIS && hi <= hi'
    ensures SumUpTo(s, lo, hi, base) <= SumUpTo(s, lo, hi', base)
    decreases hi'
  {
    if hi < hi' {
      SumGrows(s, lo, hi, hi' - 1, base);
    }
  }

  /** Up to any height the supply is at most base·drop0 + 9/8·base·drop1. */
  lemma SupplyBound(s: Schedule, hi: nat, base: nat)
    requires s.drop1 > 0
    ensures 8 * SumUpTo(s, GENESIS, hi, base) <= 8 * (base * s.drop0) + 9 * (base * s.drop1)
  {
    hide SumUpTo, Steps, Segment, SegmentEnd;
    var h := if hi < GENESIS then GENESIS else hi;
    SumGrows(s, GENESIS, hi, h, base);
    var n := Segment(s, h);
    SegmentBounds(s, h);
    SumGrows(s, GENESIS, h, SegmentEnd(s, n) - 1, base);
    SumOfSegments(s, n, base);
    StepsTotal(n, base);
    MulMono(8 * Steps(n, base), 9 * base, s.drop1);
    assert 8 * Steps(n, base) * s.drop1 == 8 * (Steps(n, base) * s.drop1);
    assert 9 * base * s.drop1 == 9 * (base * s.drop1);
  }
}
