/** The batch of verification equations: terms on fresh points in a bounded buffer, terms on fixed generators as one
    coefficient each, every equation under its own multiplier. */
module InnerProductBatch {
  import opened Words
  import opened Arith
  import opened Group
  import opened Linear
  import opened InnerProduct
  import opened InnerProductRun

  /** Generators A at 0, B at DIM, the dot generator after them. */
  const GEN_DOT: nat := 2 * DIM

  class Batch<P(!new, ==)> {
    const g: Group<P>
    const prepared: seq<P>
    const capacity: nat
    var casual: seq<(int, P)>
    var coefs: array<int>
    var sum: P
    var multiplier: int
    var dirty: bool

    constructor (g: Group<P>, prepared: seq<P>, capacity: nat)
      requires Abelian(g) && |prepared| > GEN_DOT && capacity > 0
      ensures Valid() && fresh(coefs) && !dirty && this.g == g && this.prepared == prepared
    {
      this.g, this.prepared, this.capacity := g, prepared, capacity;
      casual, coefs, sum, multiplier, dirty := [], new int[|prepared|], g.zero, 0, false;
    }

    ghost predicate Valid()
      reads this, coefs
    {
      Abelian(g) && |prepared| == coefs.Length > GEN_DOT && capacity > 0 && |casual| <= capacity
    }

    /** All terms added since the batch was last empty. */
    ghost function Total(): P
      requires Valid()
      reads this, coefs
    {
      g.add(g.add(sum, Gather(g, casual)), Comb(g, coefs[..], prepared))
    }

    /** `AddCasual`; a full buffer is summed up first, without the generators. */
    method AddCasual(p: P, k: int)
      requires Valid()
      modifies this`casual, this`sum
      ensures Valid() && Total() == g.add(old(Total()), Mul(g, k * multiplier, p))
    {
      hide Abelian, Mul, Comb;
      if |casual| == capacity {
        var s := Gather(g, casual);
        sum := g.add(sum, s);
        casual := [];
        Zero(g, sum);
      }
      ghost var before := casual;
      casual := casual + [(k * multiplier, p)];
      assert casual[..|before|] == before;
      Assoc(g, sum, Gather(g, before), Mul(g, k * multiplier, p));
      Shift(g, g.add(sum, Gather(g, before)), Mul(g, k * multiplier, p), Comb(g, coefs[..], prepared));
    }

    /** `AddPreparedM` */
    method AddPreparedM(i: nat, k: int)
      requires Valid() && i < coefs.Length
      modifies coefs
      ensures Valid() && Total() == g.add(old(Total()), Mul(g, k, prepared[i]))
    {
      hide Abelian, Mul, Comb;
      CombUpdate(g, coefs[..], prepared, i, k);
      Assoc(g, g.add(sum, Gather(g, casual)), Comb(g, coefs[..], prepared), Mul(g, k, prepared[i]));
      coefs[i] := coefs[i] + k;
      assert coefs[..] == old(coefs[..])[i := old(coefs[i]) + k];
    }

    method AddPrepared(i: nat, k: int)
      requires Valid() && i < coefs.Length
      modifies coefs
      ensures Valid() && Total() == g.add(old(Total()), Mul(g, k * multiplier, prepared[i]))
    {
      hide Abelian, Mul, Comb, Gather;
      AddPreparedM(i, k * multiplier);
    }

    /** `EquationBegin`; the next multiplier is an oracle's or a random non-zero scalar. */
    method EquationBegin(next: int)
      requires Valid()
      modifies this`casual, this`sum, this`multiplier, this`dirty, coefs
      ensures Valid() && dirty && multiplier == next
      ensures Total() == if old(dirty) then old(Total()) else g.zero
    {
      hide Abelian, Mul, Comb;
      if !dirty {
        dirty := true;
        sum := g.zero;
        casual := [];
        var i := 0;
        while i < coefs.Length
          invariant 0 <= i <= coefs.Length && |prepared| == coefs.Length
          invariant forall k :: 0 <= k < i ==> coefs[k] == 0
          modifies coefs
        {
          coefs[i] := 0;
          i := i + 1;
        }
        CombZeros(g, coefs[..], prepared);
        Zero(g, g.zero);
      }
      multiplier := next;
    }

    /** `Flush` */
    method Flush() returns (ok: bool)
      requires Valid()
      modifies this`sum, this`dirty
      ensures !dirty && ok == (old(dirty) ==> old(Total()) == g.zero)
    {
      if !dirty {
        return true;
      }
      dirty := false;
      var s := g.add(Gather(g, casual), Comb(g, coefs[..], prepared));
      Assoc(g, sum, Gather(g, casual), Comb(g, coefs[..], prepared));
      sum := g.add(sum, s);
      return sum == g.zero;
    }

    /** `Aggregator::Proceed` in batch mode: a missing set of challenges stands for factors already multiplied in. */
    method Proceed(lo: Option<seq<int>>, hi: Option<seq<int>>, n: nat, mod: Channel, base: nat, pos: nat, c: nat, k: int)
      requires Valid() && Covers(lo, n) && Covers(hi, n) && Covers(mod, DIM)
      requires base + DIM <= coefs.Length && c <= n && pos + Pow2(c) < DIM + 1
      modifies coefs
      ensures Valid()
      ensures Total() == g.add(old(Total()),
        Aggregate(g, Factors(lo, hi, n), Modified(g, mod, prepared[base..base + DIM]), pos, c, 0, k))
      decreases c
    {
      hide Abelian, Mul, Comb, Modified, Gather;
      if c != 0 {
        var i := n - c;
        Proceed(lo, hi, n, mod, base, pos, c - 1, Adjusted(lo, k, i));
        Proceed(lo, hi, n, mod, base, pos + Pow2(c - 1), c - 1, Adjusted(hi, k, i));
        FactorsAt(lo, hi, n, i, k);
        ghost var m := Modified(g, mod, prepared[base..base + DIM]);
        Assoc(g, old(Total()), Aggregate(g, Factors(lo, hi, n), m, pos, c - 1, 0, Adjusted(lo, k, i)),
              Aggregate(g, Factors(lo, hi, n), m, pos + Pow2(c - 1), c - 1, 0, Adjusted(hi, k, i)));
      } else {
        AdjustedTerm(g, mod, k, prepared[base..base + DIM], pos);
        AddPreparedM(pos + base, Adjusted(mod, k, pos));
      }
    }
  }

  function Factors(lo: Option<seq<int>>, hi: Option<seq<int>>, n: nat): (r: seq<(int, int)>)
    requires Covers(lo, n) && Covers(hi, n)
    ensures |r| == n
  {
    seq(n, i requires 0 <= i < n => (Adjusted(lo, 1, i), Adjusted(hi, 1, i)))
  }

  lemma FactorsAt(lo: Option<seq<int>>, hi: Option<seq<int>>, n: nat, i: nat, k: int)
    requires Covers(lo, n) && Covers(hi, n) && i < n
    ensures Adjusted(lo, k, i) == k * Factors(lo, hi, n)[i].0 && Adjusted(hi, k, i) == k * Factors(lo, hi, n)[i].1
  {
  }

  // ----- Challenges and their products -----

  /** `Challenges::Init`: the dot multiplier, the squared challenges and their products. */
  method Init<P(!new)>(o: Oracle<P>, tr0: seq<Message<P>>, dot: int, lr: seq<(P, P)>)
    returns (mu: int, sq: seq<int>, mul1: int, mul2: int)
    ensures
      var tr := tr0 + [ScalarMessage(dot)];
      var ks := Challenges(o, tr + [Draw], lr);
      mu == o(tr) && sq == Squares(ks) && mul1 == Product(ks) && mul2 == mul1 * mul1
  {
    hide Product, Squares, Challenges;
    var tr := tr0 + [ScalarMessage(dot)];
    mu := o(tr);
    tr := tr + [Draw];
    ghost var all := Challenges(o, tr, lr);
    ghost var ks: seq<int> := [];
    sq, mul1 := [], 1;
    ProductSmall(1);
    SquaresNone();
    assert lr[0..] == lr;
    var i := 0;
    while i < |lr|
      invariant 0 <= i <= |lr| && |ks| == i
      invariant all == ks + Challenges(o, tr, lr[i..])
      invariant sq == Squares(ks) && mul1 == Product(ks)
    {
      var x := o(tr);
      OneMore(o, tr, lr, i, ks);
      mul1 := mul1 * x;
      sq := sq + [x * x];
      tr := tr + [Draw, PointMessage(lr[i].0), PointMessage(lr[i].1)];
      ks := ks + [x];
      i := i + 1;
    }
    assert all == ks;
    mul2 := mul1 * mul1;
  }

  lemma OneMore<P(!new)>(o: Oracle<P>, tr: seq<Message<P>>, lr: seq<(P, P)>, i: nat, ks: seq<int>)
    requires i < |lr|
    ensures
      var x := o(tr);
      var tr' := tr + [Draw, PointMessage(lr[i].0), PointMessage(lr[i].1)];
      && ks + Challenges(o, tr, lr[i..]) == (ks + [x]) + Challenges(o, tr', lr[i + 1..])
      && Product(ks + [x]) == Product(ks) * x
      && Squares(ks + [x]) == Squares(ks) + [x * x]
  {
    ProductSplit(ks, [o(tr)]);
    ProductSmall(o(tr));
    assert lr[i..][1..] == lr[i + 1..];
  }

  lemma SquaresNone()
    ensures Squares([]) == []
  {
  }

  lemma ProductSmall(x: int)
    ensures Product([]) == 1 && Product([x]) == x
  {
    assert [x][1..] == [];
  }

  /** The product of the pairs below p, without pair h, as a product of single entries. */
  function PairsBelow(sq: seq<int>, h: nat, p: nat): int
    requires 2 * p <= |sq|
  {
    if p <= h then Product(sq[..2 * p]) else Product(sq[..2 * h]) * Product(sq[2 * h + 2..2 * p])
  }

  lemma PairsStep(sq: seq<int>, h: nat, p: nat)
    requires 2 * p + 2 <= |sq|
    ensures PairsBelow(sq, h, p + 1) ==
      if p == h then PairsBelow(sq, h, p) else PairsBelow(sq, h, p) * (sq[2 * p] * sq[2 * p + 1])
  {
    hide Product;
    if p < h {
      assert sq[0..2 * p] == sq[..2 * p] && sq[0..2 * p + 2] == sq[..2 * p + 2];
      PairOnEnd(sq, 0, 2 * p);
    } else if p == h {
      ProductSmall(0);
      assert sq[2 * h + 2..2 * (p + 1)] == [];
    } else {
      PairOnEnd(sq, 2 * h + 2, 2 * p);
      MulAssoc(Product(sq[..2 * h]), Product(sq[2 * h + 2..2 * p]), sq[2 * p] * sq[2 * p + 1]);
    }
  }

  /** The product of all the squares but one, from products of neighbours. */
  method AllExcept(sq: seq<int>, pairs: seq<int>, i: nat) returns (k: int)
    requires |sq| == 2 * |pairs| && i < |sq|
    requires forall p :: 0 <= p < |pairs| ==> pairs[p] == sq[2 * p] * sq[2 * p + 1]
    ensures k == Except(sq, i)
  {
    hide PairsBelow, Except;
    var h := i / 2;
    var other := sq[if i % 2 == 0 then i + 1 else i - 1];
    k := other;
    PairsNone(sq, h);
    var p := 0;
    while p < |pairs|
      invariant 0 <= p <= |pairs|
      invariant k == other * PairsBelow(sq, h, p)
    {
      PairsStep(sq, h, p);
      if p != h {
        MulAssoc(other, PairsBelow(sq, h, p), pairs[p]);
        k := k * pairs[p];
      }
      p := p + 1;
    }
    Reassemble(sq, i);
  }

  lemma PairsNone(sq: seq<int>, h: nat)
    ensures PairsBelow(sq, h, 0) == 1
  {
    ProductSmall(0);
    assert sq[..0] == [];
  }

  lemma PairOnEnd(sq: seq<int>, from: nat, at: nat)
    requires from <= at && at + 2 <= |sq|
    ensures Product(sq[from..at + 2]) == Product(sq[from..at]) * (sq[at] * sq[at + 1])
  {
    assert sq[from..at + 2] == sq[from..at] + [sq[at], sq[at + 1]];
    ProductSplit(sq[from..at], [sq[at], sq[at + 1]]);
    assert [sq[at], sq[at + 1]][1..] == [sq[at + 1]];
    ProductSmall(sq[at + 1]);
  }

  lemma Reassemble(sq: seq<int>, i: nat)
    requires i < |sq| && |sq| % 2 == 0
    ensures
      var h := i / 2;
      var other := sq[if i % 2 == 0 then i + 1 else i - 1];
      Except(sq, i) == other * PairsBelow(sq, h, |sq| / 2)
  {
    hide Product;
    assert sq[2 * (i / 2) + 2..2 * (|sq| / 2)] == sq[2 * (i / 2) + 2..];
    var h := i / 2;
    var a, b := Product(sq[..2 * h]), Product(sq[2 * h + 2..]);
    if i % 2 == 0 {
      assert sq[i + 1..] == [sq[i + 1]] + sq[2 * h + 2..];
      ProductSplit([sq[i + 1]], sq[2 * h + 2..]);
      ProductSmall(sq[i + 1]);
      Rotated(a, sq[i + 1], b);
    } else {
      assert sq[..i] == sq[..2 * h] + [sq[i - 1]];
      ProductSplit(sq[..2 * h], [sq[i - 1]]);
      ProductSmall(sq[i - 1]);
      Rotated(a, sq[i - 1], b);
    }
  }

  lemma Rotated(a: int, x: int, b: int)
    ensures a * (x * b) == x * (a * b) && (a * x) * b == x * (a * b)
  {
    MulAssoc(a, x, b);
    MulAssoc(x, a, b);
  }

  // ----- Verification -----

  /** What verification adds to the batch: the sum over fresh points and the dot generator under one multiplier, the two
      generator sums under their own. */
  function Summed<P(!new)>(g: Group<P>, d: P, mu: int, comm: P, dot: int, ga: seq<P>, gb: seq<P>, ks: seq<int>,
                           p: Proof<P>, m: int, mB: int): P
    requires |ga| == |gb| == Pow2(|ks|) && |p.lr| == |ks|
  {
    var m1 := Product(ks);
    var w := Mul(g, m, Weighted(g, Mul(g, m1 * m1, comm), p.lr, Weights(ks)));
    var a := Mul(g, -p.a * m * m1, FoldAll(g, ga, HalvesA(ks), 0)[0]);
    var b := Mul(g, -p.b * mB * m1, FoldAll(g, gb, HalvesB(ks), 0)[0]);
    g.add(g.add(g.add(w, a), b), Mul(g, (dot - p.a * p.b) * mu * (m1 * m1) * m, d))
  }

  /** With an ambient multiplier already inside the second generators, verification adds a multiple of the equation. */
  lemma SummedIsBatched<P(!new)>(g: Group<P>, d: P, mu: int, comm: P, dot: int, ga: seq<P>, gb: seq<P>, ks: seq<int>,
                                 p: Proof<P>, m: int, amb: int)
    requires Abelian(g) && |ga| == |gb| == Pow2(|ks|) && |p.lr| == |ks|
    ensures Summed(g, d, mu, comm, dot, ga, PMul(g, amb, gb), ks, p, m * amb, m) ==
      Mul(g, m * amb, Batched(g, d, mu, comm, dot, ga, gb, ks, p))
  {
    hide Abelian, Mul, Product, FoldAll, Weighted, Weights, PMul;
    var m1 := Product(ks);
    var w := Weighted(g, Mul(g, m1 * m1, comm), p.lr, Weights(ks));
    var fa, fb := FoldAll(g, ga, HalvesA(ks), 0)[0], FoldAll(g, gb, HalvesB(ks), 0)[0];
    var a, b := Mul(g, -p.a * m1, fa), Mul(g, -p.b * m1, fb);
    var k := (dot - p.a * p.b) * mu * (m1 * m1);
    var n := m * amb;
    MulSum(g, n, g.add(g.add(w, a), b), Mul(g, k, d));
    MulSum(g, n, g.add(w, a), b);
    MulSum(g, n, w, a);
    MulMul(g, n, -p.a * m1, fa);
    MulMul(g, n, -p.b * m1, fb);
    MulMul(g, n, k, d);
    assert n * k == k * n;
    assert n * (-p.a * m1) == -p.a * n * m1;
    FoldAllMul(g, amb, gb, HalvesB(ks), 0);
    PMulAt(g, amb, FoldAll(g, gb, HalvesB(ks), 0));
    MulMul(g, -p.b * m * m1, amb, fb);
    Ambient(p.b, m, m1, amb);
  }

  lemma PMulAt<P(!new)>(g: Group<P>, k: int, w: seq<P>)
    requires |w| > 0
    ensures PMul(g, k, w)[0] == Mul(g, k, w[0])
  {
  }

  lemma Ambient(b: int, m: int, m1: int, amb: int)
    ensures (-b * m * m1) * amb == (m * amb) * (-b * m1)
  {
    assert (-b * m * m1) * amb == -b * (m * (m1 * amb));
    assert (m * amb) * (-b * m1) == -b * (m * (amb * m1));
  }

  lemma Accumulated<P(!new)>(g: Group<P>, t: P, m: int, w: P, k: int, p: P)
    requires Abelian(g)
    ensures g.add(g.add(t, Mul(g, m, w)), Mul(g, k * m, p)) == g.add(t, Mul(g, m, g.add(w, Mul(g, k, p))))
  {
    hide Abelian, Mul;
    Assoc(g, t, Mul(g, m, w), Mul(g, k * m, p));
    MulSum(g, m, w, Mul(g, k, p));
    MulMul(g, m, k, p);
    assert m * k == k * m;
  }

  lemma {:induction false} WeightedSnoc<P(!new)>(g: Group<P>, base: P, lr: seq<(P, P)>, ws: seq<(int, int)>, i: nat)
    requires |lr| == |ws| && i < |lr|
    ensures Weighted(g, base, lr[..i + 1], ws[..i + 1]) ==
      g.add(g.add(Weighted(g, base, lr[..i], ws[..i]), Mul(g, ws[i].0, lr[i].0)), Mul(g, ws[i].1, lr[i].1))
    decreases i
  {
    hide Mul;
    assert lr[..i + 1][1..] == lr[1..][..i] && ws[..i + 1][1..] == ws[1..][..i];
    if i > 0 {
      assert lr[..i][1..] == lr[1..][..i - 1] && ws[..i][1..] == ws[1..][..i - 1];
      WeightedSnoc(g, g.add(g.add(base, Mul(g, ws[0].0, lr[0].0)), Mul(g, ws[0].1, lr[0].1)), lr[1..], ws[1..], i - 1);
    }
  }

  /** The part of `IsValid` on the cross commitments. */
  method AddCross<P(!new, ==)>(bc: Batch<P>, lr: seq<(P, P)>, ghost ks: seq<int>, sq: seq<int>, mul2: int,
                               ghost t: P, ghost base: P)
    requires bc.Valid() && |lr| == |ks| && |ks| % 2 == 0 && sq == Squares(ks) && mul2 == Product(ks) * Product(ks)
    requires bc.Total() == bc.g.add(t, Mul(bc.g, bc.multiplier, base))
    modifies bc`casual, bc`sum
    ensures bc.Valid() && bc.Total() == bc.g.add(t, Mul(bc.g, bc.multiplier, Weighted(bc.g, base, lr, Weights(ks))))
  {
    hide Abelian, Mul, Product, Except, Comb, Gather, Weighted;
    ghost var g, m := bc.g, bc.multiplier;
    ghost var ws := Weights(ks);
    var pairs := seq(|sq| / 2, p requires 0 <= p < |sq| / 2 => sq[2 * p] * sq[2 * p + 1]);
    var i := 0;
    WeightedNone(g, base, lr, ws);
    while i < |lr|
      invariant 0 <= i <= |lr| && bc.Valid()
      invariant bc.Total() == g.add(t, Mul(g, m, Weighted(g, base, lr[..i], ws[..i])))
    {
      ghost var w := Weighted(g, base, lr[..i], ws[..i]);
      var k := mul2 * sq[i];
      Accumulated(g, t, m, w, k, lr[i].0);
      bc.AddCasual(lr[i].0, k);
      ghost var w' := g.add(w, Mul(g, k, lr[i].0));
      k := AllExcept(sq, pairs, i);
      Accumulated(g, t, m, w', k, lr[i].1);
      bc.AddCasual(lr[i].1, k);
      WeightedSnoc(g, base, lr, ws, i);
      i := i + 1;
    }
    assert lr[..i] == lr && ws[..i] == ws;
  }

  lemma WeightedNone<P(!new)>(g: Group<P>, base: P, lr: seq<(P, P)>, ws: seq<(int, int)>)
    ensures Weighted(g, base, lr[..0], ws[..0]) == base
  {
  }

  /** One generator sum: the expansion in batch mode is the folding without inverses. */
  lemma ExpandedIsFolded<P(!new)>(g: Group<P>, ks: seq<int>, sq: seq<int>, n: nat, w: seq<P>, k: int)
    requires Abelian(g) && n == |ks| && sq == Squares(ks) && |w| == Pow2(n)
    ensures Aggregate(g, Factors(None, Some(sq), n), w, 0, n, 0, k) == Mul(g, k, FoldAll(g, w, HalvesA(ks), 0)[0])
    ensures Aggregate(g, Factors(Some(sq), None, n), w, 0, n, 0, k) == Mul(g, k, FoldAll(g, w, HalvesB(ks), 0)[0])
  {
    hide Abelian, Mul, Aggregate, FoldAll;
    var fa, fb := Factors(None, Some(sq), n), Factors(Some(sq), None, n);
    assert fa == HalvesA(ks) && fb == HalvesB(ks);
    assert fa[0..n] == fa && fb[0..n] == fb && w[0..0 + Pow2(n)] == w;
    AggregateIsFold(g, fa, w, 0, 0, n, 0, k);
    AggregateIsFold(g, fb, w, 0, 0, n, 0, k);
  }

  /** `IsValid` on challenges already drawn. */
  method Verify<P(!new, ==)>(bc: Batch<P>, p: Proof<P>, mu: int, ghost ks: seq<int>, sq: seq<int>, mul1: int, mul2: int,
                             dot: int, modA: Channel, modB: Channel, ambient: Option<int>)
    requires bc.Valid() && |p.lr| == |ks| == CYCLES && Covers(modA, DIM) && Covers(modB, DIM)
    requires sq == Squares(ks) && mul1 == Product(ks) && mul2 == mul1 * mul1
    modifies bc`casual, bc`sum, bc`multiplier, bc.coefs
    ensures bc.Valid() && bc.multiplier == old(bc.multiplier) && Pow2(CYCLES) == DIM
    ensures bc.Total() == bc.g.add(old(bc.Total()),
      Summed(bc.g, bc.prepared[GEN_DOT], mu, bc.g.zero, dot, Modified(bc.g, modA, bc.prepared[..DIM]),
             Modified(bc.g, modB, bc.prepared[DIM..2 * DIM]), ks, p,
             if ambient.Some? then old(bc.multiplier) * ambient.value else old(bc.multiplier), old(bc.multiplier)))
  {
    hide Abelian, Mul, Product, Comb, Gather, Weighted, Weights, Aggregate, FoldAll, Modified, Except, Covers, Factors, Pow2,
         HalvesA, HalvesB, Squares;
    ghost var g, t := bc.g, bc.Total();
    var mul0 := bc.multiplier;
    if ambient.Some? {
      bc.multiplier := bc.multiplier * ambient.value;
    }
    var m := bc.multiplier;
    MulZero(g, m);
    MulZero(g, Product(ks) * Product(ks));
    Zero(g, t);
    AddCross(bc, p.lr, ks, sq, mul2, t, g.zero);
    ghost var w := Mul(g, m, Weighted(g, g.zero, p.lr, Weights(ks)));
    AddGenerators(bc, ks, sq, modA, modB, -p.a * m * mul1, -p.b * (if ambient.Some? then mul0 else m) * mul1);
    ghost var a := GeneratorA(bc.g, bc.prepared, ks, modA, -p.a * m * mul1);
    ghost var b := GeneratorB(bc.g, bc.prepared, ks, modB, -p.b * mul0 * mul1);
    var k := (dot - p.a * p.b) * mu * mul2;
    bc.AddPrepared(GEN_DOT, k);
    Collect(g, t, w, a, b, Mul(g, k * m, bc.prepared[GEN_DOT]));
    bc.multiplier := mul0;
    Dimension();
  }

  ghost function GeneratorA<P(!new)>(g: Group<P>, prepared: seq<P>, ks: seq<int>, mod: Channel, k: int): P
    requires |prepared| > GEN_DOT && |ks| == CYCLES && Covers(mod, DIM)
  {
    Dimension();
    Mul(g, k, FoldAll(g, Modified(g, mod, prepared[..DIM]), HalvesA(ks), 0)[0])
  }

  ghost function GeneratorB<P(!new)>(g: Group<P>, prepared: seq<P>, ks: seq<int>, mod: Channel, k: int): P
    requires |prepared| > GEN_DOT && |ks| == CYCLES && Covers(mod, DIM)
  {
    Dimension();
    Mul(g, k, FoldAll(g, Modified(g, mod, prepared[DIM..2 * DIM]), HalvesB(ks), 0)[0])
  }

  /** The part of `IsValid` on the generators. */
  method AddGenerators<P(!new, ==)>(bc: Batch<P>, ghost ks: seq<int>, sq: seq<int>, modA: Channel, modB: Channel,
                                    kA: int, kB: int)
    requires bc.Valid() && |ks| == CYCLES && sq == Squares(ks) && Covers(modA, DIM) && Covers(modB, DIM)
    modifies bc.coefs
    ensures bc.Valid()
    ensures bc.Total() == bc.g.add(bc.g.add(old(bc.Total()), GeneratorA(bc.g, bc.prepared, ks, modA, kA)),
                                   GeneratorB(bc.g, bc.prepared, ks, modB, kB))
  {
    hide Abelian, Mul, Comb, Gather, Aggregate, FoldAll, Modified, Covers, Factors, Pow2, HalvesA, HalvesB, Squares;
    Dimension();
    CoversChallenges(sq, CYCLES);
    assert bc.prepared[0..0 + DIM] == bc.prepared[..DIM];
    ExpandedIsFolded(bc.g, ks, sq, CYCLES, Modified(bc.g, modA, bc.prepared[..DIM]), kA);
    bc.Proceed(None, Some(sq), CYCLES, modA, 0, 0, CYCLES, kA);
    assert bc.prepared[DIM..DIM + DIM] == bc.prepared[DIM..2 * DIM];
    ExpandedIsFolded(bc.g, ks, sq, CYCLES, Modified(bc.g, modB, bc.prepared[DIM..2 * DIM]), kB);
    bc.Proceed(Some(sq), None, CYCLES, modB, DIM, 0, CYCLES, kB);
  }

  lemma CoversChallenges(sq: seq<int>, n: nat)
    requires |sq| == n
    ensures Covers(Some(sq), n) && Covers(None, n)
  {
  }

  lemma Collect<P(!new)>(g: Group<P>, t: P, w: P, a: P, b: P, d: P)
    requires Abelian(g)
    ensures g.add(g.add(g.add(g.add(t, w), a), b), d) == g.add(t, g.add(g.add(g.add(w, a), b), d))
  {
    hide Abelian;
    Assoc(g, t, w, a);
    Assoc(g, t, g.add(w, a), b);
    Assoc(g, t, g.add(g.add(w, a), b), d);
  }

  /** `IsValid` with a commitment: one equation more in the batch, under a new multiplier. */
  method IsValid<P(!new, ==)>(bc: Batch<P>, o: Oracle<P>, p: Proof<P>, comm: P, dot: int, modA: Channel,
                              modB: Channel, next: int)
    requires bc.Valid() && |p.lr| == CYCLES && Covers(modA, DIM) && Covers(modB, DIM)
    modifies bc, bc.coefs
    ensures bc.Valid() && bc.dirty && Pow2(CYCLES) == DIM && bc.coefs == old(bc.coefs)
    ensures
      var tr := [PointMessage(comm), ScalarMessage(dot)];
      bc.Total() == bc.g.add(if old(bc.dirty) then old(bc.Total()) else bc.g.zero,
        Mul(bc.g, next, Batched(bc.g, bc.prepared[GEN_DOT], o(tr), comm, dot, Modified(bc.g, modA, bc.prepared[..DIM]),
                                Modified(bc.g, modB, bc.prepared[DIM..2 * DIM]), Challenges(o, tr + [Draw], p.lr), p)))
  {
    hide Abelian, Mul, Product, Comb, Gather, Modified, Covers, Batched, Summed, Squares;
    ghost var g := bc.g;
    ghost var tr := [PointMessage(comm), ScalarMessage(dot)];
    assert [PointMessage(comm)] + [ScalarMessage(dot)] == tr;
    var mu, sq, mul1, mul2 := Init(o, [PointMessage(comm)], dot, p.lr);
    ghost var ks := Challenges(o, tr + [Draw], p.lr);
    bc.EquationBegin(next);
    ghost var t := bc.Total();
    bc.AddCasual(comm, mul2);
    Verify(bc, p, mu, ks, sq, mul1, mul2, dot, modA, modB, None);
    ghost var ga, gb := Modified(g, modA, bc.prepared[..DIM]), Modified(g, modB, bc.prepared[DIM..2 * DIM]);
    Assoc(g, t, Mul(g, mul2 * next, comm), Summed(g, bc.prepared[GEN_DOT], mu, g.zero, dot, ga, gb, ks, p, next, next));
    SummedWithCommitment(g, bc.prepared[GEN_DOT], mu, comm, dot, ga, gb, ks, p, next);
  }

  lemma SummedWithCommitment<P(!new)>(g: Group<P>, d: P, mu: int, comm: P, dot: int, ga: seq<P>, gb: seq<P>, ks: seq<int>,
                                      p: Proof<P>, m: int)
    requires Abelian(g) && |ga| == |gb| == Pow2(|ks|) && |p.lr| == |ks|
    ensures g.add(Mul(g, Product(ks) * Product(ks) * m, comm), Summed(g, d, mu, g.zero, dot, ga, gb, ks, p, m, m)) ==
      Mul(g, m, Batched(g, d, mu, comm, dot, ga, gb, ks, p))
  {
    hide Abelian, Mul, Product, Weighted, Weights, FoldAll;
    var m2 := Product(ks) * Product(ks);
    var c := Mul(g, m2, comm);
    var w := Weighted(g, g.zero, p.lr, Weights(ks));
    MulZero(g, m2);
    Zero(g, c);
    WeightedShift(g, g.zero, c, p.lr, Weights(ks));
    MulSum(g, m, w, c);
    MulMul(g, m, m2, comm);
    assert m * m2 == m2 * m;
    var a := Mul(g, -p.a * m * Product(ks), FoldAll(g, ga, HalvesA(ks), 0)[0]);
    var b := Mul(g, -p.b * m * Product(ks), FoldAll(g, gb, HalvesB(ks), 0)[0]);
    var e := Mul(g, (dot - p.a * p.b) * mu * m2 * m, d);
    Collect(g, Mul(g, m2 * m, comm), Mul(g, m, w), a, b, e);
    Comm(g, Mul(g, m, w), Mul(g, m2 * m, comm));
    SummedIsBatched(g, d, mu, comm, dot, ga, gb, ks, p, m, 1);
    PMulOne(g, gb);
    assert m * 1 == m;
  }

  // ----- Completeness -----

  /** Every challenge the verifier draws has an inverse. */
  ghost predicate Invertible(q: nat, inv: int -> int, ks: seq<int>) {
    forall i :: 0 <= i < |ks| ==> Same(q, ks[i] * inv(ks[i]), 1)
  }

  /** A proof by the prover adds nothing to the batch, whatever the vectors, modifiers, oracle and multiplier. */
  lemma HonestEquationIsZero<P(!new)>(g: Group<P>, q: nat, d: P, s: Instance<P>, o: Oracle<P>, inv: int -> int, n: nat)
    requires Abelian(g) && HasOrder(g, q) && s.Sized(Pow2(n))
    requires
      var tr := [PointMessage(Commit(g, s)), ScalarMessage(Dot(s.a, s.b))];
      Invertible(q, inv, Challenges(o, tr + [Draw], ProveWith(g, d, o(tr), s, o, inv, tr + [Draw], n).lr))
    ensures
      var comm, dot := Commit(g, s), Dot(s.a, s.b);
      var tr := [PointMessage(comm), ScalarMessage(dot)];
      var p := ProveWith(g, d, o(tr), s, o, inv, tr + [Draw], n);
      Batched(g, d, o(tr), comm, dot, s.ga, s.gb, Challenges(o, tr + [Draw], p.lr), p) == g.zero
  {
    hide Abelian, HasOrder, Mul, Same, Commit, Dot, Batched, Prove, ProveWith, Challenges;
    var comm, dot := Commit(g, s), Dot(s.a, s.b);
    var tr := [PointMessage(comm), ScalarMessage(dot)];
    var p := ProveWith(g, d, o(tr), s, o, inv, tr + [Draw], n);
    var ks := Challenges(o, tr + [Draw], p.lr);
    var xs := Paired(ks, inv);
    SameChallenges(g, d, o(tr), s, o, inv, tr + [Draw], n);
    assert Inverses(q, xs);
    ProveIsBatched(g, q, d, o(tr), s, xs);
    assert Firsts(xs) == ks;
  }

  // ----- The public entry points -----

  /** `Create` with a commitment. */
  method CreateCommitted<P(!new)>(g: Group<P>, d: P, genA: seq<P>, genB: seq<P>, modA: Channel, modB: Channel, o: Oracle<P>,
                                  inv: int -> int, dot: int, a: array<int>, b: array<int>)
    returns (comm: P, p: Proof<P>)
    requires Abelian(g) && |genA| == |genB| == a.Length == b.Length == DIM && Covers(modA, DIM) && Covers(modB, DIM)
    ensures Pow2(CYCLES) == DIM
    ensures
      var s := Instance(a[..], b[..], Modified(g, modA, genA), Modified(g, modB, genB));
      var tr := [PointMessage(comm), ScalarMessage(dot)];
      comm == Commit(g, s) && p == ProveWith(g, d, o(tr), s, o, inv, tr + [Draw], CYCLES)
  {
    hide Abelian, Mul, Modified, Covers, Comb, ProveWith, Gather;
    var mm := new Mac<P>(g);
    AddVector(mm, modA, genA, a);
    AddVector(mm, modB, genB, b);
    Zero(g, Comb(g, a[..], Modified(g, modA, genA)));
    comm := Calculate(mm);
    assert [PointMessage(comm)] + [ScalarMessage(dot)] == [PointMessage(comm), ScalarMessage(dot)];
    p := Create(g, d, genA, genB, modA, modB, o, inv, [PointMessage(comm)], dot, a, b);
  }

  method AddVector<P(!new)>(mm: Mac<P>, mod: Channel, w: seq<P>, v: array<int>)
    requires Abelian(mm.g) && |w| == v.Length && Covers(mod, |w|)
    modifies mm
    ensures mm.Value() == mm.g.add(old(mm.Value()), Comb(mm.g, v[..], Modified(mm.g, mod, w)))
  {
    hide Abelian, Mul, Modified, Covers, Gather;
    ghost var g := mm.g;
    ghost var t, z := mm.Value(), Modified(g, mod, w);
    Zero(g, t);
    var i := 0;
    assert v[..0] == [] && z[..0] == [];
    while i < v.Length
      invariant 0 <= i <= v.Length
      invariant mm.Value() == g.add(t, Comb(g, v[..i], z[..i]))
    {
      AdjustedTerm(g, mod, v[i], w, i);
      CoversOne(mod, i, v.Length);
      mm.Add(Adjusted(mod, v[i], i), w[i]);
      Assoc(g, t, Comb(g, v[..i], z[..i]), Mul(g, v[i], z[i]));
      assert v[..i + 1][..i] == v[..i] && z[..i + 1][..i] == z[..i];
      i := i + 1;
    }
    assert v[..i] == v[..] && z[..i] == z;
  }

  lemma CoversOne(mod: Channel, i: nat, n: nat)
    requires Covers(mod, n) && i < n
    ensures Covers(mod, i + 1)
  {
  }

  /** `IsValid` outside of a batch: a batch of one equation. */
  method IsValidAlone<P(!new, ==)>(g: Group<P>, prepared: seq<P>, capacity: nat, o: Oracle<P>, p: Proof<P>, comm: P,
                                   dot: int,
                                   modA: Channel, modB: Channel, next: int)
    returns (ok: bool)
    requires Abelian(g) && |prepared| > GEN_DOT && capacity > 0
    requires |p.lr| == CYCLES && Covers(modA, DIM) && Covers(modB, DIM)
    ensures Pow2(CYCLES) == DIM
    ensures
      var tr := [PointMessage(comm), ScalarMessage(dot)];
      ok <==> Mul(g, next, Batched(g, prepared[GEN_DOT], o(tr), comm, dot, Modified(g, modA, prepared[..DIM]),
                                   Modified(g, modB, prepared[DIM..2 * DIM]), Challenges(o, tr + [Draw], p.lr), p)) == g.zero
  {
    hide Abelian, Mul, Comb, Gather, Modified, Covers, Batched, Challenges;
    var bc := new Batch<P>(g, prepared, capacity);
    IsValid(bc, o, p, comm, dot, modA, modB, next);
    ghost var tr := [PointMessage(comm), ScalarMessage(dot)];
    Zero(g, Mul(g, next, Batched(g, prepared[GEN_DOT], o(tr), comm, dot, Modified(g, modA, prepared[..DIM]),
                                 Modified(g, modB, prepared[DIM..2 * DIM]), Challenges(o, tr + [Draw], p.lr), p)));
    ok := bc.Flush();
  }

  /** What is created from vectors and their product is accepted. */
  method CreateThenVerify<P(!new, ==)>(g: Group<P>, ghost q: nat, prepared: seq<P>, capacity: nat, o: Oracle<P>,
                                       inv: int -> int, dot: int, a: array<int>, b: array<int>, modA: Channel, modB: Channel,
                                       next: int)
    returns (ok: bool)
    requires Abelian(g) && HasOrder(g, q) && |prepared| > GEN_DOT && capacity > 0
    requires a.Length == b.Length == DIM && Covers(modA, DIM) && Covers(modB, DIM) && dot == Dot(a[..], b[..])
    requires forall tr: seq<Message<P>> :: Same(q, o(tr) * inv(o(tr)), 1)
    ensures ok
  {
    hide Abelian, HasOrder, Same, Mul, Modified, Covers, Batched, ProveWith, Commit, Dot;
    var d, genA, genB := prepared[GEN_DOT], prepared[..DIM], prepared[DIM..2 * DIM];
    var comm, p := CreateCommitted(g, d, genA, genB, modA, modB, o, inv, dot, a, b);
    ok := IsValidAlone(g, prepared, capacity, o, p, comm, dot, modA, modB, next);
    ghost var s := Instance(a[..], b[..], Modified(g, modA, genA), Modified(g, modB, genB));
    ghost var tr := [PointMessage(comm), ScalarMessage(dot)];
    DrawnInvertible(q, o, inv, tr + [Draw], p.lr);
    HonestEquationIsZero(g, q, d, s, o, inv, CYCLES);
    MulZero(g, next);
  }

  lemma {:induction false} DrawnInvertible<P(!new)>(q: nat, o: Oracle<P>, inv: int -> int, tr: seq<Message<P>>,
                                                    lr: seq<(P, P)>)
    requires forall tr: seq<Message<P>> :: Same(q, o(tr) * inv(o(tr)), 1)
    ensures Invertible(q, inv, Challenges(o, tr, lr))
    decreases |lr|
  {
    hide Same;
    if lr != [] {
      var tr' := tr + [Draw, PointMessage(lr[0].0), PointMessage(lr[0].1)];
      DrawnInvertible(q, o, inv, tr', lr[1..]);
      var ks, rest := Challenges(o, tr, lr), Challenges(o, tr', lr[1..]);
      forall i | 0 <= i < |ks| ensures Same(q, ks[i] * inv(ks[i]), 1) {
        if i > 0 {
          assert ks[i] == rest[i - 1];
        }
      }
    }
  }
}
