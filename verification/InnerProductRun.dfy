/** The inner-product argument as it is run: vectors folded in place, generators expanded lazily, challenges drawn from an
    oracle, and verification terms collected in a batch. */
module InnerProductRun {
  import opened Words
  import opened Arith
  import opened Group
  import opened Linear
  import opened InnerProduct

  const CYCLES: nat := 6
  const DIM: nat := 64
  const CONDENSE_AT: nat := 2

  lemma Dimension()
    ensures Pow2(CYCLES) == DIM && Pow2(5) == 32 && Pow2(4) == 16 && Pow2(3) == 8 && Pow2(2) == 4 && Pow2(1) == 2
  {
    assert Pow2(1) == 2;
    assert Pow2(2) == 4;
    assert Pow2(3) == 8;
    assert Pow2(4) == 16;
    assert Pow2(5) == 32;
    assert Pow2(6) == 64;
  }

  // ----- Lazy expansion of folded generators -----

  /** `Aggregator::Proceed`: the point at `pos` of the generators folded from order c down to order t, times k, summed over
      the generators themselves. */
  function Aggregate<P(!new)>(g: Group<P>, fs: seq<(int, int)>, w: seq<P>, pos: nat, c: nat, t: nat, k: int): P
    requires t <= c <= |fs| && pos + Pow2(c) < |w| + Pow2(t)
    decreases c
  {
    if c == t then Mul(g, k, w[pos])
    else
      Pow2Mono(t, c - 1);
      g.add(Aggregate(g, fs, w, pos, c - 1, t, k * fs[|fs| - c].0),
            Aggregate(g, fs, w, pos + Pow2(c - 1), c - 1, t, k * fs[|fs| - c].1))
  }

  /** The challenges from the c-th last to the t-th last. */
  function Chosen(fs: seq<(int, int)>, c: nat, t: nat): (r: seq<(int, int)>)
    requires t <= c <= |fs|
    ensures |r| == c - t
  {
    fs[|fs| - c..|fs| - t]
  }

  lemma ChosenCons(fs: seq<(int, int)>, c: nat, t: nat)
    requires t < c <= |fs|
    ensures Chosen(fs, c, t) == [fs[|fs| - c]] + Chosen(fs, c - 1, t)
  {
  }

  lemma ChosenNone(fs: seq<(int, int)>, c: nat)
    requires c <= |fs|
    ensures Chosen(fs, c, c) == []
  {
  }

  /** The generators of one block. */
  function Stretch<T>(w: seq<T>, base: nat, n: nat): (r: seq<T>)
    requires base + n <= |w|
    ensures |r| == n
  {
    w[base..base + n]
  }

  lemma StretchHalves<T>(w: seq<T>, base: nat, h: nat)
    requires base + 2 * h <= |w|
    ensures Lo(Stretch(w, base, 2 * h)) == Stretch(w, base, h) && Hi(Stretch(w, base, 2 * h)) == Stretch(w, base + h, h)
  {
  }

  /** The expansion applies the challenges first to last, folding applies them innermost first; they agree. */
  lemma {:induction false} AggregateIsFold<P(!new)>(g: Group<P>, fs: seq<(int, int)>, w: seq<P>, base: nat, i: nat, c: nat,
                                                    t: nat, k: int)
    requires Abelian(g) && t <= c <= |fs| && i < Pow2(t) && base + Pow2(c) <= |w|
    ensures base + i + Pow2(c) < |w| + Pow2(t)
    ensures Aggregate(g, fs, w, base + i, c, t, k) == Mul(g, k, FoldAll(g, Stretch(w, base, Pow2(c)), Chosen(fs, c, t), t)[i])
    decreases c
  {
    hide Abelian, Mul, FoldAll, Aggregate, Pow2, Lo, Hi, Stretch, Chosen;
    Pow2Mono(t, c);
    if c == t {
      AggregateEnd(g, fs, w, base, i, t, k);
      ChosenNone(fs, c);
      FoldAllNone(g, Stretch(w, base, Pow2(c)), t);
    } else {
      var h := Pow2(c - 1);
      Pow2Mono(t, c - 1);
      Pow2Next(c - 1);
      var f := fs[|fs| - c];
      ChosenCons(fs, c, t);
      AggregateIsFold(g, fs, w, base, i, c - 1, t, k * f.0);
      AggregateIsFold(g, fs, w, base + h, i, c - 1, t, k * f.1);
      AggregateMore(g, fs, w, base, i, c, t, k);
      StretchHalves(w, base, h);
      FoldAllAt(g, Stretch(w, base, h), Stretch(w, base + h, h), Stretch(w, base, Pow2(c)), f, Chosen(fs, c - 1, t), t, i, k);
    }
  }

  lemma FoldAllAt<P(!new)>(g: Group<P>, lo: seq<P>, hi: seq<P>, v: seq<P>, f: (int, int), rest: seq<(int, int)>,
                           t: nat, i: nat,
                           k: int)
    requires Abelian(g) && |lo| == |hi| == Pow2(|rest| + t) && |v| == Pow2(|rest| + 1 + t) && Lo(v) == lo && Hi(v) == hi
    requires i < Pow2(t)
    ensures |[f] + rest| + t == |rest| + 1 + t
    ensures Mul(g, k, FoldAll(g, v, [f] + rest, t)[i]) ==
      g.add(Mul(g, k * f.0, FoldAll(g, lo, rest, t)[i]), Mul(g, k * f.1, FoldAll(g, hi, rest, t)[i]))
  {
    hide Abelian, Mul, FoldAll, Pow2;
    FoldAllStep(g, lo, hi, v, f, rest, t);
    ScaledSum(g, k, f.0, f.1, FoldAll(g, lo, rest, t)[i], FoldAll(g, hi, rest, t)[i]);
  }

  lemma Pow2Next(n: nat)
    ensures Pow2(n + 1) == 2 * Pow2(n)
  {
  }

  lemma AggregateEnd<P(!new)>(g: Group<P>, fs: seq<(int, int)>, w: seq<P>, base: nat, i: nat, t: nat, k: int)
    requires t <= |fs| && i < Pow2(t) && base + Pow2(t) <= |w|
    ensures Aggregate(g, fs, w, base + i, t, t, k) == Mul(g, k, Stretch(w, base, Pow2(t))[i])
  {
    hide Pow2, Mul;
  }

  lemma AggregateMore<P(!new)>(g: Group<P>, fs: seq<(int, int)>, w: seq<P>, base: nat, i: nat, c: nat, t: nat, k: int)
    requires t < c <= |fs| && i < Pow2(t) && base + Pow2(c) <= |w| && Pow2(c) == 2 * Pow2(c - 1)
    ensures base + i + Pow2(c) < |w| + Pow2(t)
    ensures base + i + Pow2(c - 1) < |w| + Pow2(t) && base + Pow2(c - 1) + i + Pow2(c - 1) < |w| + Pow2(t)
    ensures Aggregate(g, fs, w, base + i, c, t, k) ==
      g.add(Aggregate(g, fs, w, base + i, c - 1, t, k * fs[|fs| - c].0),
            Aggregate(g, fs, w, base + Pow2(c - 1) + i, c - 1, t, k * fs[|fs| - c].1))
  {
    hide Mul, Pow2;
    assert base + i + Pow2(c - 1) == base + Pow2(c - 1) + i;
  }

  lemma FoldAllNone<P(!new)>(g: Group<P>, w: seq<P>, t: nat)
    requires |w| == Pow2(t)
    ensures FoldAll(g, w, [], t) == w
  {
  }

  lemma FoldAllStep<P(!new)>(g: Group<P>, lo: seq<P>, hi: seq<P>, v: seq<P>, f: (int, int), rest: seq<(int, int)>, t: nat)
    requires Abelian(g) && |lo| == |hi| == Pow2(|rest| + t) && |v| == Pow2(|rest| + 1 + t) && Lo(v) == lo && Hi(v) == hi
    ensures |[f] + rest| + t == |rest| + 1 + t
    ensures FoldAll(g, v, [f] + rest, t) ==
      PAdd(g, PMul(g, f.0, FoldAll(g, lo, rest, t)), PMul(g, f.1, FoldAll(g, hi, rest, t)))
  {
    hide Abelian, PAdd, PMul;
    assert ([f] + rest)[1..] == rest;
    HalfOfPow2(|rest| + 1 + t);
    FoldAllAdd(g, PMul(g, f.0, lo), PMul(g, f.1, hi), rest, t);
    FoldAllMul(g, f.0, lo, rest, t);
    FoldAllMul(g, f.1, hi, rest, t);
  }

  lemma ScaledSum<P(!new)>(g: Group<P>, k: int, f0: int, f1: int, a: P, b: P)
    requires Abelian(g)
    ensures Mul(g, k, g.add(Mul(g, f0, a), Mul(g, f1, b))) == g.add(Mul(g, k * f0, a), Mul(g, k * f1, b))
  {
    hide Abelian, Mul;
    MulSum(g, k, Mul(g, f0, a), Mul(g, f1, b));
    MulMul(g, k, f0, a);
    MulMul(g, k, f1, b);
  }

  /** Folding in two stages. */
  lemma {:induction false} FoldAllSplit<P(!new)>(g: Group<P>, w: seq<P>, fs: seq<(int, int)>, fs': seq<(int, int)>, t: nat)
    requires |w| == Pow2(|fs| + (|fs'| + t))
    ensures |fs + fs'| + t == |fs| + (|fs'| + t)
    ensures FoldAll(g, w, fs + fs', t) == FoldAll(g, FoldAll(g, w, fs, |fs'| + t), fs', t)
    decreases |fs|
  {
    hide FoldPoints;
    if fs == [] {
      assert fs + fs' == fs';
    } else {
      HalfOfPow2(|fs| + (|fs'| + t));
      assert (fs + fs')[1..] == fs[1..] + fs';
      FoldAllSplit(g, FoldPoints(g, w, fs[0].0, fs[0].1), fs[1..], fs', t);
    }
  }

  // ----- The oracle -----

  /** What has been fed to the oracle, and the draws made from it. */
  datatype Message<!P(!new)> = PointMessage(p: P) | ScalarMessage(k: int) | Draw

  type Oracle<!P(!new)> = seq<Message<P>> -> int

  /** The challenges a verifier draws while it feeds the cross commitments. */
  function Challenges<P(!new)>(o: Oracle<P>, tr: seq<Message<P>>, lr: seq<(P, P)>): (r: seq<int>)
    ensures |r| == |lr|
    decreases |lr|
  {
    if lr == [] then []
    else [o(tr)] + Challenges(o, tr + [Draw, PointMessage(lr[0].0), PointMessage(lr[0].1)], lr[1..])
  }

  /** The prover that draws each challenge before it makes the cross commitments of the round. */
  function ProveWith<P(!new)>(g: Group<P>, d: P, mu: int, s: Instance<P>, o: Oracle<P>, inv: int -> int,
                              tr: seq<Message<P>>, n: nat): (p: Proof<P>)
    requires s.Sized(Pow2(n))
    ensures |p.lr| == n
    decreases n
  {
    if n == 0 then Proof([], s.a[0], s.b[0])
    else
      HalfOfPow2(n);
      var x := o(tr);
      var (l, r) := (Left(g, d, mu, s), Right(g, d, mu, s));
      var rest := ProveWith(g, d, mu, Next(g, s, x, inv(x)), o, inv, tr + [Draw, PointMessage(l), PointMessage(r)], n - 1);
      Proof([(l, r)] + rest.lr, rest.a, rest.b)
  }

  function Paired(ks: seq<int>, inv: int -> int): (r: seq<(int, int)>)
    ensures |r| == |ks|
  {
    seq(|ks|, i requires 0 <= i < |ks| => (ks[i], inv(ks[i])))
  }

  /** The verifier draws the challenges the prover used. */
  lemma {:induction false} SameChallenges<P(!new)>(g: Group<P>, d: P, mu: int, s: Instance<P>, o: Oracle<P>,
                                                   inv: int -> int, tr: seq<Message<P>>, n: nat)
    requires s.Sized(Pow2(n))
    ensures
      var p := ProveWith(g, d, mu, s, o, inv, tr, n);
      p == Prove(g, d, mu, s, Paired(Challenges(o, tr, p.lr), inv))
    decreases n
  {
    hide Left, Right, Next;
    var p := ProveWith(g, d, mu, s, o, inv, tr, n);
    var xs := Paired(Challenges(o, tr, p.lr), inv);
    if n == 0 {
      assert xs == [];
    } else {
      HalfOfPow2(n);
      var x := o(tr);
      var tr' := tr + [Draw, PointMessage(p.lr[0].0), PointMessage(p.lr[0].1)];
      var s' := Next(g, s, x, inv(x));
      NextSized(g, s, x, inv(x));
      SameChallenges(g, d, mu, s', o, inv, tr', n - 1);
      assert p.lr[1..] == ProveWith(g, d, mu, s', o, inv, tr', n - 1).lr;
      assert xs[1..] == Paired(Challenges(o, tr', p.lr[1..]), inv);
      assert xs[0] == (x, inv(x));
    }
  }

  lemma NextSized<P(!new)>(g: Group<P>, s: Instance<P>, x: int, y: int)
    requires s.Sized(|s.a|) && |s.a| % 2 == 0
    ensures Next(g, s, x, y).Sized(|s.a| / 2)
  {
  }

  // ----- Folding in place -----

  /** `CondenseBase` for one vector. The destination may be the source itself. */
  method CondenseBase(dst: array<int>, src: array<int>, n: nat, x: int, y: int)
    requires n <= dst.Length && 2 * n <= src.Length
    modifies dst
    ensures dst[..n] == Fold(old(src[..2 * n]), x, y)
    ensures forall i :: n <= i < dst.Length ==> dst[i] == old(dst[i])
  {
    ghost var v := src[..2 * n];
    var i := 0;
    while i < n
      invariant 0 <= i <= n
      invariant forall k :: 0 <= k < i ==> dst[k] == v[k] * x + v[n + k] * y
      invariant forall k :: i <= k < dst.Length ==> dst[k] == old(dst[k])
      invariant forall k :: i <= k < 2 * n ==> src[k] == v[k]
    {
      dst[i] := src[i] * x;
      dst[i] := dst[i] + src[n + i] * y;
      i := i + 1;
    }
    assert Lo(v) == v[..n] && Hi(v) == v[n..];
    assert forall k :: 0 <= k < n ==> dst[k] == x * v[k] + y * v[n + k];
  }

  // ----- Generators with modifiers -----

  /** `Modifier::Channel`: an optional multiplier for each generator. */
  type Channel = Option<seq<int>>

  predicate Covers(mod: Channel, n: nat) {
    mod.Some? ==> |mod.value| >= n
  }

  /** `Modifier::Set` */
  function Adjusted(mod: Channel, k: int, i: nat): int
    requires Covers(mod, i + 1)
  {
    if mod.Some? then k * mod.value[i] else k
  }

  function Modified<P(!new)>(g: Group<P>, mod: Channel, w: seq<P>): (r: seq<P>)
    requires Covers(mod, |w|)
    ensures |r| == |w|
  {
    seq(|w|, i requires 0 <= i < |w| => Mul(g, Adjusted(mod, 1, i), w[i]))
  }

  lemma AdjustedTerm<P(!new)>(g: Group<P>, mod: Channel, k: int, w: seq<P>, i: nat)
    requires Abelian(g) && Covers(mod, |w|) && i < |w|
    ensures Mul(g, Adjusted(mod, k, i), w[i]) == Mul(g, k, Modified(g, mod, w)[i])
  {
    hide Abelian, Mul;
    MulMul(g, k, Adjusted(mod, 1, i), w[i]);
    assert Adjusted(mod, k, i) == k * Adjusted(mod, 1, i);
  }

  lemma Unmodified<P(!new)>(g: Group<P>, w: seq<P>)
    requires Abelian(g)
    ensures Modified(g, None, w) == w
  {
    hide Abelian, Mul;
    forall i | 0 <= i < |w| ensures Modified(g, None, w)[i] == w[i] {
      MulSmall(g, w[i]);
    }
  }

  // ----- Collected terms -----

  function Gather<P(!new)>(g: Group<P>, terms: seq<(int, P)>): P {
    if terms == [] then g.zero
    else g.add(Gather(g, terms[..|terms| - 1]), Mul(g, terms[|terms| - 1].0, terms[|terms| - 1].1))
  }

  function Zip(lo: seq<int>, hi: seq<int>): (r: seq<(int, int)>)
    requires |lo| == |hi|
    ensures |r| == |lo|
  {
    seq(|lo|, i requires 0 <= i < |lo| => (lo[i], hi[i]))
  }

  /** The terms of one multi-scalar multiplication. */
  class Mac<P(!new)> {
    const g: Group<P>
    var terms: seq<(int, P)>

    ghost function Value(): P
      reads this
    {
      Gather(g, terms)
    }

    constructor (g: Group<P>)
      ensures this.g == g && terms == [] && Value() == g.zero
    {
      this.g, terms := g, [];
    }

    method Reset()
      modifies this
      ensures Value() == g.zero
    {
      terms := [];
    }

    method Add(k: int, p: P)
      modifies this
      ensures Value() == g.add(old(Value()), Mul(g, k, p))
    {
      ghost var before := terms;
      terms := terms + [(k, p)];
      assert terms[..|before|] == before;
    }

    /** `Aggregator::Proceed` on the generators w. */
    method Proceed(lo: seq<int>, hi: seq<int>, mod: Channel, w: seq<P>, pos: nat, c: nat, t: nat, k: int)
      requires Abelian(g) && Covers(mod, |w|) && |lo| == |hi|
      requires t <= c <= |lo| && pos + Pow2(c) < |w| + Pow2(t)
      modifies this
      ensures Value() == g.add(old(Value()), Aggregate(g, Zip(lo, hi), Modified(g, mod, w), pos, c, t, k))
      decreases c
    {
      hide Abelian, Mul, Modified, Gather;
      if c != t {
        Pow2Mono(t, c - 1);
        Proceed(lo, hi, mod, w, pos, c - 1, t, k * lo[|lo| - c]);
        ghost var mid := Value();
        Proceed(lo, hi, mod, w, pos + Pow2(c - 1), c - 1, t, k * hi[|lo| - c]);
        Assoc(g, old(Value()),
              Aggregate(g, Zip(lo, hi), Modified(g, mod, w), pos, c - 1, t, k * lo[|lo| - c]),
              Aggregate(g, Zip(lo, hi), Modified(g, mod, w), pos + Pow2(c - 1), c - 1, t, k * hi[|lo| - c]));
      } else {
        AdjustedTerm(g, mod, k, w, pos);
        Add(Adjusted(mod, k, pos), w[pos]);
      }
    }

    /** One half of a vector against one half of the folded generators. */
    method AddHalf(v: array<int>, off0: nat, off1: nat, n: nat, lo: seq<int>, hi: seq<int>, mod: Channel, w: seq<P>, c: nat,
                   t: nat)
      requires Abelian(g) && Covers(mod, |w|) && |lo| == |hi| && t <= c <= |lo| && |w| == Pow2(c)
      requires off0 + n <= v.Length && off1 + n <= Pow2(t)
      modifies this
      ensures Value() == g.add(old(Value()), Comb(g, v[off0..off0 + n], Folded(g, lo, hi, mod, w, c, t)[off1..off1 + n]))
    {
      hide Abelian, Mul, Modified, Gather, Aggregate, FoldAll, Folded;
      ghost var folded := Folded(g, lo, hi, mod, w, c, t);
      ghost var u, z := v[off0..off0 + n], folded[off1..off1 + n];
      var i := 0;
      Zero(g, Value());
      assert Comb(g, u[..0], z[..0]) == g.zero;
      while i < n
        invariant 0 <= i <= n
        invariant Value() == g.add(old(Value()), Comb(g, u[..i], z[..i]))
      {
        FoldedAt(g, lo, hi, mod, w, c, t, i + off1, v[i + off0]);
        Assoc(g, old(Value()), Comb(g, u[..i], z[..i]), Mul(g, u[i], z[i]));
        Pow2Mono(t, c);
        Proceed(lo, hi, mod, w, i + off1, c, t, v[i + off0]);
        assert u[..i + 1][..i] == u[..i] && z[..i + 1][..i] == z[..i];
        i := i + 1;
      }
      assert u[..n] == u && z[..n] == z;
    }
  }

  /** The modified generators of order c, folded to order t by the challenges in between. */
  function Folded<P(!new)>(g: Group<P>, lo: seq<int>, hi: seq<int>, mod: Channel, w: seq<P>, c: nat, t: nat): (r: seq<P>)
    requires Covers(mod, |w|) && |lo| == |hi| && t <= c <= |lo| && |w| == Pow2(c)
    ensures |r| == Pow2(t)
  {
    assert (c - t) + t == c;
    FoldAll(g, Modified(g, mod, w), Zip(lo, hi)[|lo| - c..|lo| - t], t)
  }

  lemma FoldedAt<P(!new)>(g: Group<P>, lo: seq<int>, hi: seq<int>, mod: Channel, w: seq<P>, c: nat, t: nat, i: nat, k: int)
    requires Abelian(g) && Covers(mod, |w|) && |lo| == |hi| && t <= c <= |lo| && |w| == Pow2(c) && i < Pow2(t)
    ensures i + Pow2(c) < |w| + Pow2(t)
    ensures Aggregate(g, Zip(lo, hi), Modified(g, mod, w), i, c, t, k) == Mul(g, k, Folded(g, lo, hi, mod, w, c, t)[i])
  {
    hide Abelian, Mul, Modified, Aggregate, FoldAll;
    var m := Modified(g, mod, w);
    AggregateIsFold(g, Zip(lo, hi), m, 0, i, c, t, k);
    assert m[0..0 + Pow2(c)] == m;
  }

  // ----- The prover -----

  /** The state of the prover between rounds: challenges drawn so far, the generators in use and their order. */
  datatype Setup<!P(!new)> = Setup(xs: seq<int>, ys: seq<int>, modA: Channel, modB: Channel, wa: seq<P>, wb: seq<P>,
                                   order: nat)
  {
    predicate Ok(t: nat) {
      && |xs| == |ys| == CYCLES && t <= order <= CYCLES
      && |wa| == |wb| == Pow2(order) && Covers(modA, |wa|) && Covers(modB, |wb|)
    }
  }

  /** The generators the lazy expansion stands for at order t. */
  function CurrentA<P(!new)>(g: Group<P>, u: Setup<P>, t: nat): (r: seq<P>)
    requires u.Ok(t)
    ensures |r| == Pow2(t)
  {
    Folded(g, u.ys, u.xs, u.modA, u.wa, u.order, t)
  }

  function CurrentB<P(!new)>(g: Group<P>, u: Setup<P>, t: nat): (r: seq<P>)
    requires u.Ok(t)
    ensures |r| == Pow2(t)
  {
    Folded(g, u.xs, u.ys, u.modB, u.wb, u.order, t)
  }

  method CrossTerm(p: array<int>, q: array<int>, n: nat) returns (r: int)
    requires n <= p.Length && 2 * n <= q.Length
    ensures r == Dot(p[..n], q[n..2 * n])
  {
    r := 0;
    var i := 0;
    while i < n
      invariant 0 <= i <= n
      invariant r == Dot(p[..i], q[n..n + i])
    {
      assert p[..i + 1][..i] == p[..i] && q[n..n + (i + 1)][..i] == q[n..n + i];
      r := r + p[i] * q[n + i];
      i := i + 1;
    }
  }

  lemma {:induction false} DotComm(u: seq<int>, v: seq<int>)
    requires |u| == |v|
    ensures Dot(u, v) == Dot(v, u)
  {
    if u != [] {
      DotComm(u[..|u| - 1], v[..|u| - 1]);
    }
  }

  /** `ExtractLR`: the collected terms are the left cross commitment for j = 0 and the right one for j = 1. */
  method ExtractLR<P(!new)>(mm: Mac<P>, j: nat, srcA: array<int>, srcB: array<int>, n: nat, t: nat, mu: int, d: P,
                            u: Setup<P>)
    requires Abelian(mm.g) && j < 2 && u.Ok(t) && Pow2(t) == 2 * n
    requires 2 * n <= srcA.Length && 2 * n <= srcB.Length
    modifies mm
    ensures
      var s := Instance(srcA[..2 * n], srcB[..2 * n], CurrentA(mm.g, u, t), CurrentB(mm.g, u, t));
      mm.Value() == if j == 0 then Left(mm.g, d, mu, s) else Right(mm.g, d, mu, s)
  {
    hide Abelian, Mul, Gather, Comb, Dot, Folded, Covers;
    ghost var g := mm.g;
    ghost var s := Instance(srcA[..2 * n], srcB[..2 * n], CurrentA(g, u, t), CurrentB(g, u, t));
    mm.Reset();
    var cross;
    if j == 0 {
      cross := CrossTerm(srcA, srcB, n);
    } else {
      cross := CrossTerm(srcB, srcA, n);
      DotComm(srcB[..n], srcA[n..2 * n]);
    }
    HalvesAt(srcA[..], s.a, n);
    HalvesAt(srcB[..], s.b, n);
    HalvesAt(s.ga, s.ga, n);
    HalvesAt(s.gb, s.gb, n);
    assert srcA[..][0..0 + n] == srcA[0..0 + n] && srcA[..][n..n + n] == srcA[n..n + n];
    assert srcB[..][0..0 + n] == srcB[0..0 + n] && srcB[..][n..n + n] == srcB[n..n + n];
    hide Lo, Hi;
    mm.Add(cross * mu, d);
    assert cross * mu == mu * cross;
    ghost var x := Mul(g, mu * cross, d);
    Zero(g, x);
    if j == 0 {
      mm.AddHalf(srcA, 0, n, n, u.ys, u.xs, u.modA, u.wa, u.order, t);
      mm.AddHalf(srcB, n, 0, n, u.xs, u.ys, u.modB, u.wb, u.order, t);
      Rotate(g, x, Comb(g, Lo(s.a), Hi(s.ga)), Comb(g, Hi(s.b), Lo(s.gb)));
    } else {
      mm.AddHalf(srcA, n, 0, n, u.ys, u.xs, u.modA, u.wa, u.order, t);
      mm.AddHalf(srcB, 0, n, n, u.xs, u.ys, u.modB, u.wb, u.order, t);
      Rotate(g, x, Comb(g, Hi(s.a), Lo(s.ga)), Comb(g, Lo(s.b), Hi(s.gb)));
    }
  }

  lemma HalvesAt<T>(all: seq<T>, s: seq<T>, n: nat)
    requires s <= all && |s| == 2 * n
    ensures all[0..0 + n] == Lo(s) && all[n..n + n] == Hi(s)
  {
  }

  lemma Rotate<P(!new)>(g: Group<P>, x: P, a: P, b: P)
    requires Abelian(g)
    ensures g.add(g.add(x, a), b) == g.add(g.add(a, b), x)
  {
    hide Abelian;
    Assoc(g, x, a, b);
    Comm(g, x, g.add(a, b));
  }

  /** The point part of `Condense`: the generators themselves, folded to order t. */
  method CondensePoints<P(!new)>(mm: Mac<P>, lo: seq<int>, hi: seq<int>, mod: Channel, w: seq<P>, c: nat, t: nat)
    returns (r: seq<P>)
    requires Abelian(mm.g) && Covers(mod, |w|) && |lo| == |hi| && t <= c <= |lo| && |w| == Pow2(c)
    modifies mm
    ensures r == Folded(mm.g, lo, hi, mod, w, c, t)
  {
    hide Abelian, Mul, Gather, Folded, Modified, Aggregate, Covers;
    ghost var g := mm.g;
    ghost var f := Folded(g, lo, hi, mod, w, c, t);
    r := [];
    var i := 0;
    while i < Pow2(t)
      invariant 0 <= i <= Pow2(t)
      invariant r == f[..i]
    {
      mm.Reset();
      FoldedAt(g, lo, hi, mod, w, c, t, i, 1);
      MulSmall(g, f[i]);
      Zero(g, f[i]);
      mm.Proceed(lo, hi, mod, w, i, c, t, 1);
      var p := Calculate(mm);
      r := r + [p];
      i := i + 1;
    }
  }

  /** The sum of the collected terms; how it is computed fast is the subject of MultiMac. */
  method Calculate<P(!new)>(mm: Mac<P>) returns (p: P)
    ensures p == mm.Value()
  {
    p := mm.g.zero;
    var i := 0;
    while i < |mm.terms|
      invariant 0 <= i <= |mm.terms|
      invariant p == Gather(mm.g, mm.terms[..i])
    {
      assert mm.terms[..i + 1][..i] == mm.terms[..i];
      p := mm.g.add(p, Mul(mm.g, mm.terms[i].0, mm.terms[i].1));
      i := i + 1;
    }
    assert mm.terms[..i] == mm.terms;
  }

  /** Drawing one more challenge folds the generators once more. */
  lemma FoldedNext<P(!new)>(g: Group<P>, lo: seq<int>, hi: seq<int>, mod: Channel, w: seq<P>, c: nat, t: nat,
                            f0: int, f1: int)
    requires Covers(mod, |w|) && |lo| == |hi| && 0 < t <= c <= |lo| && |w| == Pow2(c)
    ensures Pow2(t) % 2 == 0
    ensures
      var i := |lo| - t;
      Folded(g, lo[i := f0], hi[i := f1], mod, w, c, t - 1) == FoldPoints(g, Folded(g, lo, hi, mod, w, c, t), f0, f1)
  {
    hide Modified, FoldPoints, Covers, FoldAll, Pow2, Zip;
    var i := |lo| - t;
    var m := Modified(g, mod, w);
    HalfOfPow2(t);
    var head, last := Zip(lo, hi)[|lo| - c..i], [(f0, f1)];
    ZipNext(lo, hi, |lo| - c, i, f0, f1);
    FoldAllSplit(g, m, head, last, t - 1);
    FoldAllOne(g, FoldAll(g, m, head, t), (f0, f1), t - 1);
  }

  lemma ZipNext(lo: seq<int>, hi: seq<int>, a: nat, i: nat, f0: int, f1: int)
    requires |lo| == |hi| && a <= i < |lo|
    ensures Zip(lo[i := f0], hi[i := f1])[a..i + 1] == Zip(lo, hi)[a..i] + [(f0, f1)]
  {
  }

  lemma FoldAllOne<P(!new)>(g: Group<P>, v: seq<P>, f: (int, int), t: nat)
    requires |v| == Pow2(t + 1)
    ensures |[f]| + t == t + 1
    ensures Pow2(t + 1) % 2 == 0
    ensures FoldAll(g, v, [f], t) == FoldPoints(g, v, f.0, f.1)
  {
    HalfOfPow2(t + 1);
    assert [f][1..] == [];
  }

  lemma FoldedNone<P(!new)>(g: Group<P>, lo: seq<int>, hi: seq<int>, w: seq<P>, c: nat)
    requires Abelian(g) && |lo| == |hi| && c <= |lo| && |w| == Pow2(c)
    ensures Folded(g, lo, hi, None, w, c, c) == w
  {
    Unmodified(g, w);
    assert Zip(lo, hi)[|lo| - c..|lo| - c] == [];
  }

  function WithChallenge<P(!new)>(u: Setup<P>, t: nat, x: int, y: int): Setup<P>
    requires 0 < t && u.Ok(t)
  {
    u.(xs := u.xs[CYCLES - t := x], ys := u.ys[CYCLES - t := y])
  }

  lemma CurrentNext<P(!new)>(g: Group<P>, u: Setup<P>, t: nat, x: int, y: int, s: Instance<P>)
    requires 0 < t && u.Ok(t) && s.Sized(Pow2(t)) && s.ga == CurrentA(g, u, t) && s.gb == CurrentB(g, u, t)
    ensures Pow2(t) % 2 == 0
    ensures
      var u' := WithChallenge(u, t, x, y);
      && u'.Ok(t - 1) && u'.Ok(t) && CurrentA(g, u', t) == s.ga && CurrentB(g, u', t) == s.gb
      && CurrentA(g, u', t - 1) == Next(g, s, x, y).ga && CurrentB(g, u', t - 1) == Next(g, s, x, y).gb
  {
    hide Folded, FoldPoints, Fold, Covers;
    HalfOfPow2(t);
    var u' := WithChallenge(u, t, x, y);
    FoldedNext(g, u.ys, u.xs, u.modA, u.wa, u.order, t, y, x);
    FoldedNext(g, u.xs, u.ys, u.modB, u.wb, u.order, t, x, y);
    FoldedSame(g, u.ys, u.xs, u.modA, u.wa, u.order, t, y, x);
    FoldedSame(g, u.xs, u.ys, u.modB, u.wb, u.order, t, x, y);
  }

  lemma FoldedSame<P(!new)>(g: Group<P>, lo: seq<int>, hi: seq<int>, mod: Channel, w: seq<P>, c: nat, t: nat,
                            f0: int, f1: int)
    requires Covers(mod, |w|) && |lo| == |hi| && 0 < t <= c <= |lo| && |w| == Pow2(c)
    ensures
      var i := |lo| - t;
      Folded(g, lo[i := f0], hi[i := f1], mod, w, c, t) == Folded(g, lo, hi, mod, w, c, t)
  {
    hide Modified, FoldAll, Covers;
    var i := |lo| - t;
    assert Zip(lo[i := f0], hi[i := f1])[|lo| - c..i] == Zip(lo, hi)[|lo| - c..i];
  }

  /** `Calculator::Condense` for the points: after the cycle CONDENSE_AT the folded generators become the generators. */
  method CondenseSetup<P(!new)>(mm: Mac<P>, u: Setup<P>, t: nat) returns (u': Setup<P>)
    requires Abelian(mm.g) && u.Ok(t)
    modifies mm
    ensures u'.Ok(t) && CurrentA(mm.g, u', t) == CurrentA(mm.g, u, t) && CurrentB(mm.g, u', t) == CurrentB(mm.g, u, t)
  {
    hide Abelian, Folded, Covers;
    if CYCLES - t != CONDENSE_AT + 1 {
      return u;
    }
    var wa := CondensePoints(mm, u.ys, u.xs, u.modA, u.wa, u.order, t);
    var wb := CondensePoints(mm, u.xs, u.ys, u.modB, u.wb, u.order, t);
    CoversNone(|wa|);
    FoldedNone(mm.g, u.ys, u.xs, wa, t);
    FoldedNone(mm.g, u.xs, u.ys, wb, t);
    u' := Setup(u.xs, u.ys, None, None, wa, wb, t);
  }

  /** One cycle of `Create`, at order t. */
  method Cycle<P(!new)>(mm: Mac<P>, srcA: array<int>, srcB: array<int>, vA: array<int>, vB: array<int>, t: nat,
                        mu: int, d: P,
                        x: int, y: int, u: Setup<P>, ghost s: Instance<P>)
    returns (l: P, r: P, u': Setup<P>)
    requires Abelian(mm.g) && 0 < t && u.Ok(t) && s.Sized(Pow2(t))
    requires Pow2(t) <= srcA.Length && Pow2(t) <= srcB.Length && Pow2(t - 1) <= vA.Length && Pow2(t - 1) <= vB.Length
    requires vA != vB && srcB != vA
    requires s == Instance(srcA[..Pow2(t)], srcB[..Pow2(t)], CurrentA(mm.g, u, t), CurrentB(mm.g, u, t))
    modifies mm, vA, vB
    ensures Pow2(t) % 2 == 0 && u'.Ok(t - 1)
    ensures l == Left(mm.g, d, mu, s) && r == Right(mm.g, d, mu, s)
    ensures Next(mm.g, s, x, y) ==
      Instance(vA[..Pow2(t - 1)], vB[..Pow2(t - 1)], CurrentA(mm.g, u', t - 1), CurrentB(mm.g, u', t - 1))
  {
    hide Abelian, Folded, Covers, Fold, FoldPoints, Left, Right, CurrentA, CurrentB;
    HalfOfPow2(t);
    var n := Pow2(t - 1);
    CurrentNext(mm.g, u, t, x, y, s);
    u' := WithChallenge(u, t, x, y);
    ExtractLR(mm, 0, srcA, srcB, n, t, mu, d, u');
    l := Calculate(mm);
    ExtractLR(mm, 1, srcA, srcB, n, t, mu, d, u');
    r := Calculate(mm);
    CondenseBase(vA, srcA, n, x, y);
    CondenseBase(vB, srcB, n, y, x);
    u' := CondenseSetup(mm, u', t - 1);
  }

  /** `InnerProduct::Create` with a given oracle: the proof is the one of the folding prover, although generators are
      expanded lazily and turned into points only once. */
  method Create<P(!new)>(g: Group<P>, d: P, genA: seq<P>, genB: seq<P>, modA: Channel, modB: Channel, o: Oracle<P>,
                         inv: int -> int, tr0: seq<Message<P>>, dot: int, a: array<int>, b: array<int>)
    returns (p: Proof<P>)
    requires Abelian(g) && |genA| == |genB| == a.Length == b.Length == DIM && Covers(modA, DIM) && Covers(modB, DIM)
    ensures Pow2(CYCLES) == DIM
    ensures
      var tr := tr0 + [ScalarMessage(dot)];
      p == ProveWith(g, d, o(tr), Instance(a[..], b[..], Modified(g, modA, genA), Modified(g, modB, genB)), o, inv,
                     tr + [Draw], CYCLES)
  {
    hide Abelian, Folded, Modified, Covers, Next, Left, Right, ProveWith, CurrentA, CurrentB;
    Dimension();
    var mm := new Mac<P>(g);
    var tr := tr0 + [ScalarMessage(dot)];
    var mu := o(tr);
    tr := tr + [Draw];
    var u := Setup(seq(CYCLES, _ => 0), seq(CYCLES, _ => 0), modA, modB, genA, genB, CYCLES);
    ghost var s := Instance(a[..], b[..], Modified(g, modA, genA), Modified(g, modB, genB));
    ghost var whole := ProveWith(g, d, mu, s, o, inv, tr, CYCLES);
    CurrentWhole(g, u);
    var vA, vB := new int[DIM / 2], new int[DIM / 2];
    var srcA, srcB := a, b;
    var lr: seq<(P, P)> := [];
    var t := CYCLES;
    assert a[..DIM] == a[..] && b[..DIM] == b[..];
    while t > 0
      invariant 0 <= t <= CYCLES && mm.g == g && fresh(mm) && fresh(vA) && fresh(vB) && vA != vB
      invariant vA.Length == vB.Length == DIM / 2 && Pow2(t) <= srcA.Length && Pow2(t) <= srcB.Length
      invariant if t == CYCLES then srcA == a && srcB == b else srcA == vA && srcB == vB
      invariant u.Ok(t) && s.Sized(Pow2(t))
      invariant s == Instance(srcA[..Pow2(t)], srcB[..Pow2(t)], CurrentA(g, u, t), CurrentB(g, u, t))
      invariant
        var rest := ProveWith(g, d, mu, s, o, inv, tr, t);
        whole == Proof(lr + rest.lr, rest.a, rest.b)
    {
      Pow2Mono(t - 1, 5);
      var x := o(tr);
      var y := inv(x);
      ProveWithStep(g, d, mu, s, o, inv, tr, t);
      var l, r;
      l, r, u := Cycle(mm, srcA, srcB, vA, vB, t, mu, d, x, y, u, s);
      s := Next(g, s, x, y);
      tr := tr + [Draw] + [PointMessage(l), PointMessage(r)];
      Snoc(lr, (l, r), ProveWith(g, d, mu, s, o, inv, tr, t - 1).lr);
      lr := lr + [(l, r)];
      srcA, srcB := vA, vB;
      t := t - 1;
    }
    ProveWithEnd(g, d, mu, s, o, inv, tr);
    assert lr + [] == lr;
    p := Proof(lr, srcA[0], srcB[0]);
  }

  lemma Snoc<T>(u: seq<T>, x: T, v: seq<T>)
    ensures u + ([x] + v) == (u + [x]) + v
  {
  }

  lemma CurrentWhole<P(!new)>(g: Group<P>, u: Setup<P>)
    requires u.Ok(CYCLES)
    ensures CurrentA(g, u, CYCLES) == Modified(g, u.modA, u.wa) && CurrentB(g, u, CYCLES) == Modified(g, u.modB, u.wb)
  {
    hide Folded, Modified;
    FoldedWhole(g, u.ys, u.xs, u.modA, u.wa, CYCLES);
    FoldedWhole(g, u.xs, u.ys, u.modB, u.wb, CYCLES);
  }

  lemma CoversNone(n: nat)
    ensures Covers(None, n)
  {
  }

  lemma FoldedWhole<P(!new)>(g: Group<P>, lo: seq<int>, hi: seq<int>, mod: Channel, w: seq<P>, c: nat)
    requires |lo| == |hi| && c == |lo| && |w| == Pow2(c) && Covers(mod, |w|)
    ensures Folded(g, lo, hi, mod, w, c, c) == Modified(g, mod, w)
  {
    assert Zip(lo, hi)[|lo| - c..|lo| - c] == [];
  }

  lemma ProveWithStep<P(!new)>(g: Group<P>, d: P, mu: int, s: Instance<P>, o: Oracle<P>, inv: int -> int,
                               tr: seq<Message<P>>, n: nat)
    requires s.Sized(Pow2(n)) && n > 0
    ensures Pow2(n) % 2 == 0 && Pow2(n) / 2 == Pow2(n - 1)
    ensures
      var x := o(tr);
      var (l, r) := (Left(g, d, mu, s), Right(g, d, mu, s));
      var rest := ProveWith(g, d, mu, Next(g, s, x, inv(x)), o, inv, tr + [Draw] + [PointMessage(l), PointMessage(r)], n - 1);
      ProveWith(g, d, mu, s, o, inv, tr, n) == Proof([(l, r)] + rest.lr, rest.a, rest.b)
  {
    hide Left, Right, Next;
    HalfOfPow2(n);
    NextSized(g, s, o(tr), inv(o(tr)));
    var (l, r) := (Left(g, d, mu, s), Right(g, d, mu, s));
    assert tr + [Draw] + [PointMessage(l), PointMessage(r)] == tr + [Draw, PointMessage(l), PointMessage(r)];
  }

  lemma ProveWithEnd<P(!new)>(g: Group<P>, d: P, mu: int, s: Instance<P>, o: Oracle<P>, inv: int -> int,
                              tr: seq<Message<P>>)
    requires s.Sized(Pow2(0))
    ensures ProveWith(g, d, mu, s, o, inv, tr, 0) == Proof([], s.a[0], s.b[0])
  {
  }
}
