/** The inner-product argument: the folding prover, the plain verification equation with inverses, and the batched
    equation without them. A scalar is any integer that stands for its residue class modulo the group order. */
module InnerProduct {
  import opened Arith
  import opened Group
  import opened Linear

  // ----- Folding -----

  function Lo<T>(v: seq<T>): seq<T> {
    v[..|v| / 2]
  }

  function Hi<T>(v: seq<T>): seq<T> {
    v[|v| / 2..]
  }

  function Fold(v: seq<int>, x: int, y: int): (r: seq<int>)
    requires |v| % 2 == 0
    ensures |r| == |v| / 2
  {
    VAdd(VMul(x, Lo(v)), VMul(y, Hi(v)))
  }

  function FoldPoints<P(!new)>(g: Group<P>, v: seq<P>, x: int, y: int): (r: seq<P>)
    requires |v| % 2 == 0
    ensures |r| == |v| / 2
  {
    PAdd(g, PMul(g, x, Lo(v)), PMul(g, y, Hi(v)))
  }

  /** Folding scalars by (x, y) and points by (y, x), with x and y inverse, keeps the pairing up to the two cross
      pairings. */
  lemma FoldPairing<P(!new)>(g: Group<P>, q: nat, v: seq<int>, w: seq<P>, x: int, y: int)
    requires Abelian(g) && HasOrder(g, q) && Same(q, x * y, 1)
    requires |v| == |w| && |v| % 2 == 0
    ensures Comb(g, Fold(v, x, y), FoldPoints(g, w, y, x)) ==
      g.add(Comb(g, v, w), g.add(Mul(g, x * x, Comb(g, Lo(v), Hi(w))), Mul(g, y * y, Comb(g, Hi(v), Lo(w)))))
  {
    hide Abelian, HasOrder, Same, Mul, Comb, FoldPoints, Fold;
    ExpandedPairing(g, v, w, x, y);
    Halves(v);
    Halves(w);
    hide Lo, Hi;
    var a, b := Comb(g, Lo(v), Lo(w)), Comb(g, Hi(v), Hi(w));
    MulSame(g, q, x * y, 1, a);
    MulSame(g, q, x * y, 1, b);
    MulSmall(g, a);
    MulSmall(g, b);
    var c, d := Mul(g, x * x, Comb(g, Lo(v), Hi(w))), Mul(g, y * y, Comb(g, Hi(v), Lo(w)));
    Comm(g, d, b);
    Swap(g, a, c, b, d);
    CombSplit(g, Lo(v), Lo(w), Hi(v), Hi(w));
  }

  lemma Halves<T>(s: seq<T>)
    requires |s| % 2 == 0
    ensures Lo(s) + Hi(s) == s && |Lo(s)| == |Hi(s)|
  {
  }

  /** The pairing of folded halves, term by term. */
  lemma ExpandedPairing<P(!new)>(g: Group<P>, v: seq<int>, w: seq<P>, x: int, y: int)
    requires Abelian(g) && |v| == |w| && |v| % 2 == 0
    ensures |Lo(v)| == |Lo(w)| == |Hi(v)| == |Hi(w)|
    ensures Comb(g, Fold(v, x, y), FoldPoints(g, w, y, x)) ==
      g.add(g.add(Mul(g, x * y, Comb(g, Lo(v), Lo(w))), Mul(g, x * x, Comb(g, Lo(v), Hi(w)))),
            g.add(Mul(g, y * y, Comb(g, Hi(v), Lo(w))), Mul(g, x * y, Comb(g, Hi(v), Hi(w)))))
  {
    hide Abelian, Mul, Comb, VAdd, VMul, PAdd, PMul;
    var u1, u2, w1, w2 := VMul(x, Lo(v)), VMul(y, Hi(v)), PMul(g, y, Lo(w)), PMul(g, x, Hi(w));
    CombAddScalars(g, u1, u2, PAdd(g, w1, w2));
    CombAddPoints(g, u1, w1, w2);
    CombAddPoints(g, u2, w1, w2);
    ScaledPairing(g, x, y, Lo(v), Lo(w));
    ScaledPairing(g, x, x, Lo(v), Hi(w));
    ScaledPairing(g, y, y, Hi(v), Lo(w));
    ScaledPairing(g, y, x, Hi(v), Hi(w));
    assert y * x == x * y;
  }

  lemma ScaledPairing<P(!new)>(g: Group<P>, s: int, t: int, u: seq<int>, w: seq<P>)
    requires Abelian(g) && |u| == |w|
    ensures Comb(g, VMul(s, u), PMul(g, t, w)) == Mul(g, s * t, Comb(g, u, w))
  {
    hide Abelian, Mul, Comb, VMul, PMul;
    CombMul(g, s, u, PMul(g, t, w));
    CombMul(g, t, u, w);
    MulMul(g, s, t, Comb(g, u, w));
  }

  lemma FoldDot(q: nat, a: seq<int>, b: seq<int>, x: int, y: int)
    requires Same(q, x * y, 1) && |a| == |b| && |a| % 2 == 0
    ensures Same(q, Dot(Fold(a, x, y), Fold(b, y, x)),
                    Dot(a, b) + x * x * Dot(Lo(a), Hi(b)) + y * y * Dot(Hi(a), Lo(b)))
  {
    hide Same, Dot, VAdd, VMul;
    var u1, u2, w1, w2 := VMul(x, Lo(a)), VMul(y, Hi(a)), VMul(y, Lo(b)), VMul(x, Hi(b));
    DotAdd(u1, u2, VAdd(w1, w2));
    DotAdd(w1, w2, u1);
    DotAdd(w1, w2, u2);
    ScaledDot(x, y, Lo(a), Lo(b));
    ScaledDot(x, x, Lo(a), Hi(b));
    ScaledDot(y, y, Hi(a), Lo(b));
    ScaledDot(y, x, Hi(a), Hi(b));
    DotSplit(Lo(a), Lo(b), Hi(a), Hi(b));
    assert Lo(a) + Hi(a) == a && Lo(b) + Hi(b) == b;
    var d, e := Dot(Lo(a), Lo(b)), Dot(Hi(a), Hi(b));
    assert y * x == x * y;
    SameScaled(q, x * y, 1, d + e);
    assert x * y * d + x * y * e == x * y * (d + e);
    SameShift(q, x * y * (d + e), 1 * (d + e), x * x * Dot(Lo(a), Hi(b)) + y * y * Dot(Hi(a), Lo(b)));
  }

  lemma ScaledDot(s: int, t: int, u: seq<int>, w: seq<int>)
    requires |u| == |w|
    ensures Dot(VMul(s, u), VMul(t, w)) == s * t * Dot(u, w)
  {
    hide Dot, VMul;
    DotMul(s, u, VMul(t, w));
    DotMul(t, w, u);
    assert s * (t * Dot(u, w)) == s * t * Dot(u, w);
  }

  lemma SameScaled(q: nat, a: int, b: int, k: int)
    requires Same(q, a, b)
    ensures Same(q, a * k, b * k)
  {
    var t :| a == b + t * q;
    assert a * k == b * k + (t * k) * q;
  }

  lemma SameShift(q: nat, a: int, b: int, k: int)
    requires Same(q, a, b)
    ensures Same(q, a + k, b + k)
  {
    var t :| a == b + t * q;
    assert a + k == b + k + t * q;
  }

  lemma SameTrans(q: nat, a: int, b: int, c: int)
    requires Same(q, a, b) && Same(q, b, c)
    ensures Same(q, a, c)
  {
    var t :| a == b + t * q;
    var s :| b == c + s * q;
    assert a == c + (t + s) * q;
  }

  lemma SameRefl(q: nat, a: int)
    ensures Same(q, a, a)
  {
    assert a == a + 0 * q;
  }

  // ----- One round -----

  /** The two vectors and the generators they are committed with. */
  datatype Instance<!P(!new)> = Instance(a: seq<int>, b: seq<int>, ga: seq<P>, gb: seq<P>) {
    predicate Sized(n: nat) {
      |a| == |b| == |ga| == |gb| == n
    }
  }

  /** Commitment to both vectors, and to their product on the generator `d` with multiplier `mu`. */
  function Commit<P(!new)>(g: Group<P>, s: Instance<P>): P
    requires s.Sized(|s.a|)
  {
    g.add(Comb(g, s.a, s.ga), Comb(g, s.b, s.gb))
  }

  function Full<P(!new)>(g: Group<P>, d: P, mu: int, s: Instance<P>): P
    requires s.Sized(|s.a|)
  {
    g.add(Commit(g, s), Mul(g, mu * Dot(s.a, s.b), d))
  }

  /** `ExtractLR`: the left (j = 0) and the right (j = 1) cross commitments. */
  function Left<P(!new)>(g: Group<P>, d: P, mu: int, s: Instance<P>): P
    requires s.Sized(|s.a|) && |s.a| % 2 == 0
  {
    g.add(g.add(Comb(g, Lo(s.a), Hi(s.ga)), Comb(g, Hi(s.b), Lo(s.gb))), Mul(g, mu * Dot(Lo(s.a), Hi(s.b)), d))
  }

  function Right<P(!new)>(g: Group<P>, d: P, mu: int, s: Instance<P>): P
    requires s.Sized(|s.a|) && |s.a| % 2 == 0
  {
    g.add(g.add(Comb(g, Hi(s.a), Lo(s.ga)), Comb(g, Lo(s.b), Hi(s.gb))), Mul(g, mu * Dot(Hi(s.a), Lo(s.b)), d))
  }

  function Next<P(!new)>(g: Group<P>, s: Instance<P>, x: int, y: int): (s': Instance<P>)
    requires s.Sized(|s.a|) && |s.a| % 2 == 0
    ensures s'.Sized(|s.a| / 2)
  {
    Instance(Fold(s.a, x, y), Fold(s.b, y, x), FoldPoints(g, s.ga, y, x), FoldPoints(g, s.gb, x, y))
  }

  /** base + x²·l + y²·r */
  function Corrected<P(!new)>(g: Group<P>, base: P, x: int, y: int, l: P, r: P): P {
    g.add(base, g.add(Mul(g, x * x, l), Mul(g, y * y, r)))
  }

  lemma CorrectedSum<P(!new)>(g: Group<P>, x: int, y: int, b: P, l: P, r: P, b': P, l': P, r': P)
    requires Abelian(g)
    ensures g.add(Corrected(g, b, x, y, l, r), Corrected(g, b', x, y, l', r')) ==
      Corrected(g, g.add(b, b'), x, y, g.add(l, l'), g.add(r, r'))
  {
    hide Abelian, Mul;
    var p, p' := Mul(g, x * x, l), Mul(g, x * x, l');
    var s, s' := Mul(g, y * y, r), Mul(g, y * y, r');
    Swap(g, b, g.add(p, s), b', g.add(p', s'));
    Swap(g, p, s, p', s');
    MulSum(g, x * x, l, l');
    MulSum(g, y * y, r, r');
  }

  /** One fold turns the full commitment into commitment + x²·L + x⁻²·R. */
  lemma FoldStep<P(!new)>(g: Group<P>, q: nat, d: P, mu: int, s: Instance<P>, x: int, y: int)
    requires Abelian(g) && HasOrder(g, q) && Same(q, x * y, 1)
    requires s.Sized(|s.a|) && |s.a| % 2 == 0
    ensures Full(g, d, mu, Next(g, s, x, y)) ==
      Corrected(g, Full(g, d, mu, s), x, y, Left(g, d, mu, s), Right(g, d, mu, s))
  {
    hide Abelian, HasOrder, Same, Mul, Comb, Dot, Fold, FoldPoints, Corrected;
    FoldA(g, q, s.a, s.ga, x, y);
    FoldB(g, q, s.b, s.gb, x, y);
    FoldD(g, q, d, mu, s.a, s.b, x, y);
    CorrectedSum(g, x, y, Comb(g, s.a, s.ga), Comb(g, Lo(s.a), Hi(s.ga)), Comb(g, Hi(s.a), Lo(s.ga)),
                          Comb(g, s.b, s.gb), Comb(g, Hi(s.b), Lo(s.gb)), Comb(g, Lo(s.b), Hi(s.gb)));
    CorrectedSum(g, x, y, Commit(g, s), g.add(Comb(g, Lo(s.a), Hi(s.ga)), Comb(g, Hi(s.b), Lo(s.gb))),
                          g.add(Comb(g, Hi(s.a), Lo(s.ga)), Comb(g, Lo(s.b), Hi(s.gb))),
                          Mul(g, mu * Dot(s.a, s.b), d), Mul(g, mu * Dot(Lo(s.a), Hi(s.b)), d),
                          Mul(g, mu * Dot(Hi(s.a), Lo(s.b)), d));
  }

  lemma FoldA<P(!new)>(g: Group<P>, q: nat, a: seq<int>, w: seq<P>, x: int, y: int)
    requires Abelian(g) && HasOrder(g, q) && Same(q, x * y, 1) && |a| == |w| && |a| % 2 == 0
    ensures Comb(g, Fold(a, x, y), FoldPoints(g, w, y, x)) ==
      Corrected(g, Comb(g, a, w), x, y, Comb(g, Lo(a), Hi(w)), Comb(g, Hi(a), Lo(w)))
  {
    hide Abelian, HasOrder, Same, Mul, Comb, Fold, FoldPoints;
    FoldPairing(g, q, a, w, x, y);
  }

  lemma FoldB<P(!new)>(g: Group<P>, q: nat, b: seq<int>, w: seq<P>, x: int, y: int)
    requires Abelian(g) && HasOrder(g, q) && Same(q, x * y, 1) && |b| == |w| && |b| % 2 == 0
    ensures Comb(g, Fold(b, y, x), FoldPoints(g, w, x, y)) ==
      Corrected(g, Comb(g, b, w), x, y, Comb(g, Hi(b), Lo(w)), Comb(g, Lo(b), Hi(w)))
  {
    hide Abelian, HasOrder, Same, Mul, Comb, Fold, FoldPoints;
    assert y * x == x * y;
    FoldPairing(g, q, b, w, y, x);
    Comm(g, Mul(g, x * x, Comb(g, Hi(b), Lo(w))), Mul(g, y * y, Comb(g, Lo(b), Hi(w))));
  }

  lemma FoldD<P(!new)>(g: Group<P>, q: nat, d: P, mu: int, a: seq<int>, b: seq<int>, x: int, y: int)
    requires Abelian(g) && HasOrder(g, q) && Same(q, x * y, 1) && |a| == |b| && |a| % 2 == 0
    ensures Mul(g, mu * Dot(Fold(a, x, y), Fold(b, y, x)), d) ==
      Corrected(g, Mul(g, mu * Dot(a, b), d), x, y, Mul(g, mu * Dot(Lo(a), Hi(b)), d), Mul(g, mu * Dot(Hi(a), Lo(b)), d))
  {
    hide Abelian, HasOrder, Same, Mul, Dot, Fold;
    var e, l, r := Dot(a, b), Dot(Lo(a), Hi(b)), Dot(Hi(a), Lo(b));
    FoldDot(q, a, b, x, y);
    var f := Dot(Fold(a, x, y), Fold(b, y, x));
    SameScaled(q, f, e + x * x * l + y * y * r, mu);
    Factored(mu, e, x, l, y, r);
    MulSame(g, q, f * mu, (e + x * x * l + y * y * r) * mu, d);
    MulAdd(g, mu * e, (x * x) * (mu * l) + (y * y) * (mu * r), d);
    MulAdd(g, (x * x) * (mu * l), (y * y) * (mu * r), d);
    MulMul(g, x * x, mu * l, d);
    MulMul(g, y * y, mu * r, d);
    assert f * mu == mu * f;
  }

  lemma Factored(mu: int, e: int, x: int, l: int, y: int, r: int)
    ensures (e + x * x * l + y * y * r) * mu == mu * e + ((x * x) * (mu * l) + (y * y) * (mu * r))
  {
    assert (x * x * l) * mu == (x * x) * (mu * l);
    assert (y * y * r) * mu == (y * y) * (mu * r);
  }

  // ----- All rounds -----

  datatype Proof<!P(!new)> = Proof(lr: seq<(P, P)>, a: int, b: int)

  /** Each challenge comes with its inverse. */
  ghost predicate Inverses(q: nat, xs: seq<(int, int)>) {
    forall i :: 0 <= i < |xs| ==> Same(q, xs[i].0 * xs[i].1, 1)
  }

  lemma HalfOfPow2(n: nat)
    requires n > 0
    ensures Pow2(n) % 2 == 0 && Pow2(n) / 2 == Pow2(n - 1)
  {
  }

  /** The prover for given challenges, with the generators folded in every round. */
  function Prove<P(!new)>(g: Group<P>, d: P, mu: int, s: Instance<P>, xs: seq<(int, int)>): (p: Proof<P>)
    requires s.Sized(Pow2(|xs|))
    ensures |p.lr| == |xs|
    decreases |xs|
  {
    if xs == [] then Proof([], s.a[0], s.b[0])
    else
      HalfOfPow2(|xs|);
      var rest := Prove(g, d, mu, Next(g, s, xs[0].0, xs[0].1), xs[1..]);
      Proof([(Left(g, d, mu, s), Right(g, d, mu, s))] + rest.lr, rest.a, rest.b)
  }

  /** Repeated folding of generators, down to 2^t of them. */
  function FoldAll<P(!new)>(g: Group<P>, w: seq<P>, fs: seq<(int, int)>, t: nat): (r: seq<P>)
    requires |w| == Pow2(|fs| + t)
    ensures |r| == Pow2(t)
    decreases |fs|
  {
    if fs == [] then w
    else
      HalfOfPow2(|fs| + t);
      FoldAll(g, FoldPoints(g, w, fs[0].0, fs[0].1), fs[1..], t)
  }

  /** Factors of the two halves of the first generators; the second generators use the challenges as they are. */
  function Flipped(xs: seq<(int, int)>): (r: seq<(int, int)>)
    ensures |r| == |xs|
  {
    seq(|xs|, i requires 0 <= i < |xs| => (xs[i].1, xs[i].0))
  }

  /** Σ x²·L + x⁻²·R, on top of a base point. */
  function Corrections<P(!new)>(g: Group<P>, base: P, lr: seq<(P, P)>, xs: seq<(int, int)>): P
    requires |lr| == |xs|
    decreases |xs|
  {
    if xs == [] then base
    else Corrections(g, Corrected(g, base, xs[0].0, xs[0].1, lr[0].0, lr[0].1), lr[1..], xs[1..])
  }

  /** What the condensed values commit to. */
  function Final<P(!new)>(g: Group<P>, d: P, mu: int, a: int, b: int, ga: P, gb: P): P {
    g.add(g.add(Mul(g, a, ga), Mul(g, b, gb)), Mul(g, mu * (a * b), d))
  }

  function FinalGenerators<P(!new)>(g: Group<P>, ga: seq<P>, gb: seq<P>, xs: seq<(int, int)>): (P, P)
    requires |ga| == |gb| == Pow2(|xs|)
  {
    (FoldAll(g, ga, Flipped(xs), 0)[0], FoldAll(g, gb, xs, 0)[0])
  }

  /** The verification equation as it is written with inverses. */
  ghost predicate Plain<P(!new)>(g: Group<P>, d: P, mu: int, comm: P, dot: int, ga: seq<P>, gb: seq<P>,
                                 xs: seq<(int, int)>, p: Proof<P>)
    requires |ga| == |gb| == Pow2(|xs|) && |p.lr| == |xs|
  {
    var (fa, fb) := FinalGenerators(g, ga, gb, xs);
    Final(g, d, mu, p.a, p.b, fa, fb) == Corrections(g, g.add(comm, Mul(g, mu * dot, d)), p.lr, xs)
  }

  lemma FlippedTail(xs: seq<(int, int)>)
    requires xs != []
    ensures Flipped(xs)[1..] == Flipped(xs[1..]) && Flipped(xs)[0] == (xs[0].1, xs[0].0)
  {
  }

  lemma FullOfOne<P(!new)>(g: Group<P>, d: P, mu: int, s: Instance<P>)
    requires Abelian(g) && s.Sized(1)
    ensures Full(g, d, mu, s) == Final(g, d, mu, s.a[0], s.b[0], s.ga[0], s.gb[0])
  {
    hide Abelian, Mul;
    assert s.a == [s.a[0]] && s.b == [s.b[0]] && s.ga == [s.ga[0]] && s.gb == [s.gb[0]];
    CombOne(g, s.a[0], s.ga[0]);
    CombOne(g, s.b[0], s.gb[0]);
    assert Dot(s.a[..0], s.b[..0]) == 0;
    assert Dot(s.a, s.b) == s.a[0] * s.b[0];
  }

  /** Completeness of the plain equation: each fold preserves commitment + x²·L + x⁻²·R. */
  lemma {:induction false} ProveIsPlain<P(!new)>(g: Group<P>, q: nat, d: P, mu: int, s: Instance<P>, xs: seq<(int, int)>)
    requires Abelian(g) && HasOrder(g, q) && Inverses(q, xs) && s.Sized(Pow2(|xs|))
    ensures
      var p := Prove(g, d, mu, s, xs);
      var (fa, fb) := FinalGenerators(g, s.ga, s.gb, xs);
      Final(g, d, mu, p.a, p.b, fa, fb) == Corrections(g, Full(g, d, mu, s), p.lr, xs)
    decreases |xs|
  {
    hide Abelian, HasOrder, Same, Mul, Corrected, Full, Left, Right, Final, FoldPoints, Fold;
    if xs == [] {
      assert Flipped(xs) == [];
      FullOfOne(g, d, mu, s);
    } else {
      HalfOfPow2(|xs|);
      var s' := Next(g, s, xs[0].0, xs[0].1);
      assert Inverses(q, xs[1..]);
      ProveIsPlain(g, q, d, mu, s', xs[1..]);
      FoldStep(g, q, d, mu, s, xs[0].0, xs[0].1);
      FlippedTail(xs);
      var p := Prove(g, d, mu, s, xs);
      assert p.lr[1..] == Prove(g, d, mu, s', xs[1..]).lr;
    }
  }

  // ----- Folding is linear -----

  lemma FoldPointsMul<P(!new)>(g: Group<P>, k: int, w: seq<P>, x: int, y: int)
    requires Abelian(g) && |w| % 2 == 0
    ensures FoldPoints(g, PMul(g, k, w), x, y) == PMul(g, k, FoldPoints(g, w, x, y))
  {
    hide Abelian, Mul;
    var n := |w| / 2;
    var l, r := FoldPoints(g, PMul(g, k, w), x, y), PMul(g, k, FoldPoints(g, w, x, y));
    forall i | 0 <= i < n ensures l[i] == r[i] {
      MulSum(g, k, Mul(g, x, w[i]), Mul(g, y, w[n + i]));
      MulSwap(g, k, x, w[i]);
      MulSwap(g, k, y, w[n + i]);
    }
  }

  lemma MulSwap<P(!new)>(g: Group<P>, a: int, b: int, p: P)
    requires Abelian(g)
    ensures Mul(g, a, Mul(g, b, p)) == Mul(g, b, Mul(g, a, p)) == Mul(g, a * b, p)
  {
    hide Abelian, Mul;
    MulMul(g, a, b, p);
    MulMul(g, b, a, p);
    assert a * b == b * a;
  }

  lemma FoldPointsAdd<P(!new)>(g: Group<P>, u: seq<P>, v: seq<P>, x: int, y: int)
    requires Abelian(g) && |u| == |v| && |u| % 2 == 0
    ensures FoldPoints(g, PAdd(g, u, v), x, y) == PAdd(g, FoldPoints(g, u, x, y), FoldPoints(g, v, x, y))
  {
    hide Abelian, Mul;
    var n := |u| / 2;
    var l, r := FoldPoints(g, PAdd(g, u, v), x, y), PAdd(g, FoldPoints(g, u, x, y), FoldPoints(g, v, x, y));
    forall i | 0 <= i < n ensures l[i] == r[i] {
      MulSum(g, x, u[i], v[i]);
      MulSum(g, y, u[n + i], v[n + i]);
      Swap(g, Mul(g, x, u[i]), Mul(g, x, v[i]), Mul(g, y, u[n + i]), Mul(g, y, v[n + i]));
    }
  }

  lemma {:induction false} FoldAllMul<P(!new)>(g: Group<P>, k: int, w: seq<P>, fs: seq<(int, int)>, t: nat)
    requires Abelian(g) && |w| == Pow2(|fs| + t)
    ensures FoldAll(g, PMul(g, k, w), fs, t) == PMul(g, k, FoldAll(g, w, fs, t))
    decreases |fs|
  {
    hide Abelian, FoldPoints, PMul;
    if fs != [] {
      HalfOfPow2(|fs| + t);
      FoldPointsMul(g, k, w, fs[0].0, fs[0].1);
      FoldAllMul(g, k, FoldPoints(g, w, fs[0].0, fs[0].1), fs[1..], t);
    }
  }

  lemma {:induction false} FoldAllAdd<P(!new)>(g: Group<P>, u: seq<P>, v: seq<P>, fs: seq<(int, int)>, t: nat)
    requires Abelian(g) && |u| == |v| == Pow2(|fs| + t)
    ensures FoldAll(g, PAdd(g, u, v), fs, t) == PAdd(g, FoldAll(g, u, fs, t), FoldAll(g, v, fs, t))
    decreases |fs|
  {
    hide Abelian, FoldPoints, PAdd;
    if fs != [] {
      HalfOfPow2(|fs| + t);
      FoldPointsAdd(g, u, v, fs[0].0, fs[0].1);
      FoldAllAdd(g, FoldPoints(g, u, fs[0].0, fs[0].1), FoldPoints(g, v, fs[0].0, fs[0].1), fs[1..], t);
    }
  }

  // ----- Folding without inverses -----

  function Product(ks: seq<int>): int {
    if ks == [] then 1 else ks[0] * Product(ks[1..])
  }

  /** fs' is fs with the i-th pair multiplied by ks[i]. */
  ghost predicate Multiplied(q: nat, ks: seq<int>, fs: seq<(int, int)>, fs': seq<(int, int)>) {
    && |ks| == |fs| == |fs'|
    && forall i :: 0 <= i < |fs| ==> Same(q, fs'[i].0, ks[i] * fs[i].0) && Same(q, fs'[i].1, ks[i] * fs[i].1)
  }

  lemma FoldPointsMultiplied<P(!new)>(g: Group<P>, q: nat, w: seq<P>, k: int, f: (int, int), f': (int, int))
    requires Abelian(g) && HasOrder(g, q) && |w| % 2 == 0
    requires Same(q, f'.0, k * f.0) && Same(q, f'.1, k * f.1)
    ensures FoldPoints(g, w, f'.0, f'.1) == PMul(g, k, FoldPoints(g, w, f.0, f.1))
  {
    hide Abelian, Mul, HasOrder, Same;
    var n := |w| / 2;
    var l, r := FoldPoints(g, w, f'.0, f'.1), PMul(g, k, FoldPoints(g, w, f.0, f.1));
    forall i | 0 <= i < n ensures l[i] == r[i] {
      MulSum(g, k, Mul(g, f.0, w[i]), Mul(g, f.1, w[n + i]));
      MulMul(g, k, f.0, w[i]);
      MulMul(g, k, f.1, w[n + i]);
      MulSame(g, q, f'.0, k * f.0, w[i]);
      MulSame(g, q, f'.1, k * f.1, w[n + i]);
    }
  }

  /** Multiplying each pair of factors multiplies the folded generators by the product. */
  lemma {:induction false} FoldAllMultiplied<P(!new)>(g: Group<P>, q: nat, w: seq<P>, ks: seq<int>, fs: seq<(int, int)>,
                                                      fs': seq<(int, int)>, t: nat)
    requires Abelian(g) && HasOrder(g, q) && Multiplied(q, ks, fs, fs') && |w| == Pow2(|fs| + t)
    ensures FoldAll(g, w, fs', t) == PMul(g, Product(ks), FoldAll(g, w, fs, t))
    decreases |fs|
  {
    hide Abelian, Mul, HasOrder, FoldPoints, Same, PMul;
    if fs == [] {
      PMulOne(g, w);
    } else {
      HalfOfPow2(|fs| + t);
      var v, v' := FoldPoints(g, w, fs[0].0, fs[0].1), FoldPoints(g, w, fs'[0].0, fs'[0].1);
      FoldPointsMultiplied(g, q, w, ks[0], fs[0], fs'[0]);
      assert Multiplied(q, ks[1..], fs[1..], fs'[1..]);
      FoldAllMultiplied(g, q, v', ks[1..], fs[1..], fs'[1..], t);
      FoldAllMul(g, ks[0], v, fs[1..], t);
      PMulPMul(g, Product(ks[1..]), ks[0], FoldAll(g, v, fs[1..], t));
      assert Product(ks[1..]) * ks[0] == ks[0] * Product(ks[1..]);
    }
  }

  lemma PMulOne<P(!new)>(g: Group<P>, w: seq<P>)
    requires Abelian(g)
    ensures PMul(g, 1, w) == w
  {
    hide Abelian, Mul;
    forall i | 0 <= i < |w| ensures PMul(g, 1, w)[i] == w[i] {
      MulSmall(g, w[i]);
    }
  }

  lemma PMulPMul<P(!new)>(g: Group<P>, a: int, b: int, w: seq<P>)
    requires Abelian(g)
    ensures PMul(g, a, PMul(g, b, w)) == PMul(g, a * b, w)
  {
    hide Abelian, Mul;
    forall i | 0 <= i < |w| ensures PMul(g, a, PMul(g, b, w))[i] == PMul(g, a * b, w)[i] {
      MulMul(g, a, b, w[i]);
    }
  }

  // ----- The batched equation -----

  function Firsts(xs: seq<(int, int)>): (r: seq<int>)
    ensures |r| == |xs|
  {
    seq(|xs|, i requires 0 <= i < |xs| => xs[i].0)
  }

  function Squares(ks: seq<int>): (r: seq<int>)
    ensures |r| == |ks|
  {
    seq(|ks|, i requires 0 <= i < |ks| => ks[i] * ks[i])
  }

  /** The product of all entries but one. */
  function Except(ks: seq<int>, i: nat): int
    requires i < |ks|
  {
    Product(ks[..i]) * Product(ks[i + 1..])
  }

  /** The multipliers of the cross commitments: Mul2·x² for L, and for R all the squares but its own. */
  function Weights(ks: seq<int>): (r: seq<(int, int)>)
    ensures |r| == |ks|
  {
    var m2 := Product(ks) * Product(ks);
    seq(|ks|, i requires 0 <= i < |ks| => (m2 * (ks[i] * ks[i]), Except(Squares(ks), i)))
  }

  /** Factors for the halves of the generators, with the inverses multiplied out. */
  function HalvesA(ks: seq<int>): (r: seq<(int, int)>)
    ensures |r| == |ks|
  {
    seq(|ks|, i requires 0 <= i < |ks| => (1, ks[i] * ks[i]))
  }

  function HalvesB(ks: seq<int>): (r: seq<(int, int)>)
    ensures |r| == |ks|
  {
    seq(|ks|, i requires 0 <= i < |ks| => (ks[i] * ks[i], 1))
  }

  function Weighted<P(!new)>(g: Group<P>, base: P, lr: seq<(P, P)>, ws: seq<(int, int)>): P
    requires |lr| == |ws|
    decreases |ws|
  {
    if ws == [] then base
    else Weighted(g, g.add(g.add(base, Mul(g, ws[0].0, lr[0].0)), Mul(g, ws[0].1, lr[0].1)), lr[1..], ws[1..])
  }

  /** What the batched verifier sums up for one proof. */
  function Batched<P(!new)>(g: Group<P>, d: P, mu: int, comm: P, dot: int, ga: seq<P>, gb: seq<P>, ks: seq<int>,
                            p: Proof<P>): P
    requires |ga| == |gb| == Pow2(|ks|) && |p.lr| == |ks|
  {
    var m1 := Product(ks);
    var w := Weighted(g, Mul(g, m1 * m1, comm), p.lr, Weights(ks));
    var a := Mul(g, -p.a * m1, FoldAll(g, ga, HalvesA(ks), 0)[0]);
    var b := Mul(g, -p.b * m1, FoldAll(g, gb, HalvesB(ks), 0)[0]);
    g.add(g.add(g.add(w, a), b), Mul(g, (dot - p.a * p.b) * mu * (m1 * m1), d))
  }

  // ----- Products of challenges -----

  lemma {:induction false} ProductSplit(u: seq<int>, v: seq<int>)
    ensures Product(u + v) == Product(u) * Product(v)
  {
    if u == [] {
      assert u + v == v;
    } else {
      assert (u + v)[1..] == u[1..] + v;
      ProductSplit(u[1..], v);
      MulAssoc(u[0], Product(u[1..]), Product(v));
    }
  }

  lemma {:induction false} ProductOfSquares(ks: seq<int>)
    ensures Product(Squares(ks)) == Product(ks) * Product(ks)
  {
    if ks != [] {
      ProductOfSquares(ks[1..]);
      assert Squares(ks)[1..] == Squares(ks[1..]);
      SquareOfProduct(ks[0], Product(ks[1..]));
    }
  }

  lemma SquareOfProduct(a: int, b: int)
    ensures (a * b) * (a * b) == (a * a) * (b * b)
  {
    assert (a * b) * (a * b) == a * (b * (a * b));
    assert b * (a * b) == a * (b * b);
  }

  lemma ExceptTimes(ks: seq<int>, i: nat)
    requires i < |ks|
    ensures Except(ks, i) * ks[i] == Product(ks)
  {
    assert ks == ks[..i] + ([ks[i]] + ks[i + 1..]);
    ProductSplit(ks[..i], [ks[i]] + ks[i + 1..]);
    assert ([ks[i]] + ks[i + 1..])[1..] == ks[i + 1..];
    Reorder(Product(ks[..i]), Product(ks[i + 1..]), ks[i]);
  }

  lemma Reorder(a: int, b: int, c: int)
    ensures (a * b) * c == a * (c * b)
  {
  }

  lemma SameProduct(q: nat, a: int, b: int, c: int, d: int)
    requires Same(q, a, b) && Same(q, c, d)
    ensures Same(q, a * c, b * d)
  {
    SameScaled(q, a, b, c);
    SameScaled(q, c, d, b);
    assert c * b == b * c && d * b == b * d;
    SameTrans(q, a * c, b * c, b * d);
  }

  lemma SquareInverse(q: nat, x: int, y: int)
    requires Same(q, x * y, 1)
    ensures Same(q, (x * x) * (y * y), 1)
  {
    SameProduct(q, x * y, 1, x * y, 1);
    SquareOfProduct(x, y);
  }

  lemma SameSym(q: nat, a: int, b: int)
    requires Same(q, a, b)
    ensures Same(q, b, a)
  {
    var t :| a == b + t * q;
    assert b == a + (-t) * q;
  }

  /** All the squares but one, for Mul2 divided by that one. */
  lemma ExceptIsQuotient(q: nat, xs: seq<(int, int)>, i: nat)
    requires Inverses(q, xs) && i < |xs|
    ensures
      var ks := Firsts(xs);
      Same(q, Except(Squares(ks), i), (Product(ks) * Product(ks)) * (xs[i].1 * xs[i].1))
  {
    hide Same, Product, Except;
    var ks := Firsts(xs);
    var (x, y) := xs[i];
    var e := Except(Squares(ks), i);
    ExceptTimes(Squares(ks), i);
    ProductOfSquares(ks);
    SquareInverse(q, x, y);
    SameScaled(q, (x * x) * (y * y), 1, e);
    Unscaled(e, x * x, y * y);
    SameSym(q, ((x * x) * (y * y)) * e, e);
  }

  lemma Unscaled(e: int, s: int, t: int)
    ensures (s * t) * e == (e * s) * t && 1 * e == e
  {
    assert (s * t) * e == s * (t * e);
    assert (e * s) * t == s * (e * t);
  }

  lemma {:induction false} ProductInverse(q: nat, xs: seq<(int, int)>) returns (r: int)
    requires Inverses(q, xs)
    ensures Same(q, Product(Firsts(xs)) * r, 1)
  {
    if xs == [] {
      r := 1;
      SameRefl(q, 1);
    } else {
      assert Firsts(xs)[1..] == Firsts(xs[1..]);
      assert Inverses(q, xs[1..]);
      var r' := ProductInverse(q, xs[1..]);
      r := xs[0].1 * r';
      hide Same;
      var p := Product(Firsts(xs[1..]));
      SameProduct(q, xs[0].0 * xs[0].1, 1, p * r', 1);
      Interleave(xs[0].0, xs[0].1, p, r');
    }
  }

  lemma Interleave(a: int, b: int, c: int, d: int)
    ensures (a * b) * (c * d) == (a * c) * (b * d)
  {
    assert (a * b) * (c * d) == a * (b * (c * d));
    assert b * (c * d) == c * (b * d);
    assert a * (c * (b * d)) == (a * c) * (b * d);
  }

  // ----- Batched against plain -----

  lemma {:induction false} WeightedShift<P(!new)>(g: Group<P>, base: P, c: P, lr: seq<(P, P)>, ws: seq<(int, int)>)
    requires Abelian(g) && |lr| == |ws|
    ensures Weighted(g, g.add(base, c), lr, ws) == g.add(Weighted(g, base, lr, ws), c)
    decreases |ws|
  {
    hide Abelian, Mul;
    if ws != [] {
      var l, r := Mul(g, ws[0].0, lr[0].0), Mul(g, ws[0].1, lr[0].1);
      Shift(g, base, c, l);
      Shift(g, g.add(base, l), c, r);
      WeightedShift(g, g.add(g.add(base, l), r), c, lr[1..], ws[1..]);
    }
  }

  /** The i-th weights are m·x² and m·x⁻². */
  ghost predicate WeightsFor(q: nat, m: int, xs: seq<(int, int)>, ws: seq<(int, int)>) {
    && |ws| == |xs|
    && forall i :: 0 <= i < |xs| ==>
         Same(q, ws[i].0, m * (xs[i].0 * xs[i].0)) && Same(q, ws[i].1, m * (xs[i].1 * xs[i].1))
  }

  lemma {:induction false} WeightedIsScaled<P(!new)>(g: Group<P>, q: nat, m: int, base: P, lr: seq<(P, P)>,
                                                     xs: seq<(int, int)>, ws: seq<(int, int)>)
    requires Abelian(g) && HasOrder(g, q) && WeightsFor(q, m, xs, ws) && |lr| == |xs|
    ensures Weighted(g, Mul(g, m, base), lr, ws) == Mul(g, m, Corrections(g, base, lr, xs))
    decreases |xs|
  {
    hide Abelian, HasOrder, Mul, Same;
    if xs != [] {
      var (l, r) := lr[0];
      var (x, y) := xs[0];
      var base' := Corrected(g, base, x, y, l, r);
      ScaledCorrected(g, q, m, base, x, y, l, r, ws[0]);
      assert WeightsFor(q, m, xs[1..], ws[1..]);
      WeightedIsScaled(g, q, m, base', lr[1..], xs[1..], ws[1..]);
    }
  }

  lemma ScaledCorrected<P(!new)>(g: Group<P>, q: nat, m: int, base: P, x: int, y: int, l: P, r: P, w: (int, int))
    requires Abelian(g) && HasOrder(g, q) && Same(q, w.0, m * (x * x)) && Same(q, w.1, m * (y * y))
    ensures g.add(g.add(Mul(g, m, base), Mul(g, w.0, l)), Mul(g, w.1, r)) == Mul(g, m, Corrected(g, base, x, y, l, r))
  {
    hide Abelian, HasOrder, Mul, Same;
    MulSame(g, q, w.0, m * (x * x), l);
    MulSame(g, q, w.1, m * (y * y), r);
    MulMul(g, m, x * x, l);
    MulMul(g, m, y * y, r);
    MulSum(g, m, base, g.add(Mul(g, x * x, l), Mul(g, y * y, r)));
    MulSum(g, m, Mul(g, x * x, l), Mul(g, y * y, r));
    Assoc(g, Mul(g, m, base), Mul(g, w.0, l), Mul(g, w.1, r));
  }

  lemma WeightsAreFor(q: nat, xs: seq<(int, int)>)
    requires Inverses(q, xs)
    ensures var ks := Firsts(xs); WeightsFor(q, Product(ks) * Product(ks), xs, Weights(ks))
  {
    hide Same, Product, Except;
    var ks := Firsts(xs);
    forall i | 0 <= i < |xs|
      ensures
        var m := Product(ks) * Product(ks);
        Same(q, Weights(ks)[i].0, m * (xs[i].0 * xs[i].0)) && Same(q, Weights(ks)[i].1, m * (xs[i].1 * xs[i].1))
    {
      SameRefl(q, Weights(ks)[i].0);
      ExceptIsQuotient(q, xs, i);
    }
  }

  lemma HalvesAreMultiplied(q: nat, xs: seq<(int, int)>)
    requires Inverses(q, xs)
    ensures Multiplied(q, Firsts(xs), Flipped(xs), HalvesA(Firsts(xs)))
    ensures Multiplied(q, Firsts(xs), xs, HalvesB(Firsts(xs)))
  {
    hide Same;
    forall i | 0 <= i < |xs|
      ensures
        var (x, y) := xs[i];
        Same(q, 1, x * y) && Same(q, x * x, x * x)
    {
      SameSym(q, xs[i].0 * xs[i].1, 1);
      SameRefl(q, xs[i].0 * xs[i].0);
    }
  }

  /** The batched folding of the generators is Mul1 times the plain one. */
  lemma BatchedGenerators<P(!new)>(g: Group<P>, q: nat, ga: seq<P>, gb: seq<P>, xs: seq<(int, int)>)
    requires Abelian(g) && HasOrder(g, q) && Inverses(q, xs) && |ga| == |gb| == Pow2(|xs|)
    ensures
      var ks := Firsts(xs);
      var (fa, fb) := FinalGenerators(g, ga, gb, xs);
      && FoldAll(g, ga, HalvesA(ks), 0)[0] == Mul(g, Product(ks), fa)
      && FoldAll(g, gb, HalvesB(ks), 0)[0] == Mul(g, Product(ks), fb)
  {
    hide Abelian, HasOrder, Same, Mul, Product, FoldAll, Multiplied;
    var ks := Firsts(xs);
    HalvesAreMultiplied(q, xs);
    FoldAllMultiplied(g, q, ga, ks, Flipped(xs), HalvesA(ks), 0);
    FoldAllMultiplied(g, q, gb, ks, xs, HalvesB(ks), 0);
  }

  /** For every proof, honest or not, the batched sum and Mul2 times the right side differ by Mul2 times the left side. */
  lemma BatchedIsScaledPlain<P(!new)>(g: Group<P>, q: nat, d: P, mu: int, comm: P, dot: int, ga: seq<P>, gb: seq<P>,
                                      xs: seq<(int, int)>, p: Proof<P>)
    requires Abelian(g) && HasOrder(g, q) && Inverses(q, xs)
    requires |ga| == |gb| == Pow2(|xs|) && |p.lr| == |xs|
    ensures
      var ks := Firsts(xs);
      var m2 := Product(ks) * Product(ks);
      var (fa, fb) := FinalGenerators(g, ga, gb, xs);
      g.add(Batched(g, d, mu, comm, dot, ga, gb, ks, p), Mul(g, m2, Final(g, d, mu, p.a, p.b, fa, fb))) ==
        Mul(g, m2, Corrections(g, g.add(comm, Mul(g, mu * dot, d)), p.lr, xs))
  {
    hide Abelian, HasOrder, Same, Mul, Product, FoldAll, FinalGenerators, Weights, Weighted, Corrections;
    var ks := Firsts(xs);
    var m1 := Product(ks);
    var m2 := m1 * m1;
    var (fa, fb) := FinalGenerators(g, ga, gb, xs);
    BatchedGenerators(g, q, ga, gb, xs);
    WeightsAreFor(q, xs);
    WeightedIsScaled(g, q, m2, g.add(comm, Mul(g, mu * dot, d)), p.lr, xs, Weights(ks));
    MulSum(g, m2, comm, Mul(g, mu * dot, d));
    MulMul(g, m2, mu * dot, d);
    WeightedShift(g, Mul(g, m2, comm), Mul(g, m2 * (mu * dot), d), p.lr, Weights(ks));
    var w := Weighted(g, Mul(g, m2, comm), p.lr, Weights(ks));
    MulMul(g, -p.a * m1, m1, fa);
    MulMul(g, -p.b * m1, m1, fb);
    Balance(g, m1, mu, dot, p.a, p.b, w, fa, fb, d);
  }

  lemma Balance<P(!new)>(g: Group<P>, m1: int, mu: int, dot: int, a: int, b: int, w: P, fa: P, fb: P, d: P)
    requires Abelian(g)
    ensures
      var m2 := m1 * m1;
      g.add(g.add(g.add(g.add(w, Mul(g, (-a * m1) * m1, fa)), Mul(g, (-b * m1) * m1, fb)), Mul(g, (dot - a * b) * mu * m2, d)),
            Mul(g, m2, Final(g, d, mu, a, b, fa, fb))) == g.add(w, Mul(g, m2 * (mu * dot), d))
  {
    hide Abelian, Mul;
    var m2 := m1 * m1;
    var ta, tb, td := Mul(g, (-a * m1) * m1, fa), Mul(g, (-b * m1) * m1, fb), Mul(g, (dot - a * b) * mu * m2, d);
    MulSum(g, m2, g.add(Mul(g, a, fa), Mul(g, b, fb)), Mul(g, mu * (a * b), d));
    MulSum(g, m2, Mul(g, a, fa), Mul(g, b, fb));
    Cancels(g, m1, a, fa);
    Cancels(g, m1, b, fb);
    MulMul(g, m2, mu * (a * b), d);
    var ua, ub, ud := Mul(g, m2, Mul(g, a, fa)), Mul(g, m2, Mul(g, b, fb)), Mul(g, m2 * (mu * (a * b)), d);
    // ((w + ta + tb) + td) + ((ua + ub) + ud)
    Swap(g, g.add(g.add(w, ta), tb), td, g.add(ua, ub), ud);
    Assoc(g, w, ta, tb);
    Assoc(g, w, g.add(ta, tb), g.add(ua, ub));
    Swap(g, ta, tb, ua, ub);
    Zero(g, g.zero);
    Zero(g, w);
    MulAdd(g, (dot - a * b) * mu * m2, m2 * (mu * (a * b)), d);
    DotTerms(dot, a * b, mu, m2);
  }

  lemma Cancels<P(!new)>(g: Group<P>, m1: int, a: int, f: P)
    requires Abelian(g)
    ensures g.add(Mul(g, (-a * m1) * m1, f), Mul(g, m1 * m1, Mul(g, a, f))) == g.zero
  {
    hide Abelian, Mul;
    MulMul(g, m1 * m1, a, f);
    assert (-a * m1) * m1 == -((m1 * m1) * a);
    MulNeg(g, (m1 * m1) * a, f);
    Comm(g, Mul(g, (-a * m1) * m1, f), Mul(g, (m1 * m1) * a, f));
  }

  lemma DotTerms(dot: int, ab: int, mu: int, m2: int)
    ensures (dot - ab) * mu * m2 + m2 * (mu * ab) == m2 * (mu * dot)
  {
    assert (dot - ab) * mu == dot * mu - ab * mu;
    assert (dot * mu - ab * mu) * m2 == m2 * (mu * dot) - m2 * (mu * ab);
  }

  lemma CancelFactor<P(!new)>(g: Group<P>, q: nat, m: int, r: int, a: P, b: P)
    requires Abelian(g) && HasOrder(g, q) && Same(q, m * r, 1) && Mul(g, m, a) == Mul(g, m, b)
    ensures a == b
  {
    hide Abelian, Mul, HasOrder, Same;
    assert m * r == r * m;
    MulMul(g, r, m, a);
    MulMul(g, r, m, b);
    MulSame(g, q, r * m, 1, a);
    MulSame(g, q, r * m, 1, b);
    MulSmall(g, a);
    MulSmall(g, b);
  }

  /** The inverse-free batched sum is zero exactly when the plain equation holds, for every proof. */
  lemma BatchedIffPlain<P(!new)>(g: Group<P>, q: nat, d: P, mu: int, comm: P, dot: int, ga: seq<P>, gb: seq<P>,
                                 xs: seq<(int, int)>, p: Proof<P>)
    requires Abelian(g) && HasOrder(g, q) && Inverses(q, xs)
    requires |ga| == |gb| == Pow2(|xs|) && |p.lr| == |xs|
    ensures Batched(g, d, mu, comm, dot, ga, gb, Firsts(xs), p) == g.zero <==> Plain(g, d, mu, comm, dot, ga, gb, xs, p)
  {
    hide Abelian, HasOrder, Same, Mul, Product, FinalGenerators, Batched, Corrections, Final;
    BatchedIsScaledPlain(g, q, d, mu, comm, dot, ga, gb, xs, p);
    var ks := Firsts(xs);
    var m1 := Product(ks);
    var (fa, fb) := FinalGenerators(g, ga, gb, xs);
    var left, right := Final(g, d, mu, p.a, p.b, fa, fb), Corrections(g, g.add(comm, Mul(g, mu * dot, d)), p.lr, xs);
    var sum := Batched(g, d, mu, comm, dot, ga, gb, ks, p);
    var r := ProductInverse(q, xs);
    SquareInverse(q, m1, r);
    Zero(g, Mul(g, m1 * m1, left));
    if sum == g.zero {
      CancelFactor(g, q, m1 * m1, r * r, left, right);
    }
    if left == right {
      Cancel(g, sum, g.zero, Mul(g, m1 * m1, left));
    }
  }

  /** A proof made from the vectors themselves satisfies the batched equation. */
  lemma ProveIsBatched<P(!new)>(g: Group<P>, q: nat, d: P, mu: int, s: Instance<P>, xs: seq<(int, int)>)
    requires Abelian(g) && HasOrder(g, q) && Inverses(q, xs) && s.Sized(Pow2(|xs|))
    ensures Batched(g, d, mu, Commit(g, s), Dot(s.a, s.b), s.ga, s.gb, Firsts(xs), Prove(g, d, mu, s, xs)) == g.zero
  {
    hide Abelian, HasOrder, Same, Mul, FinalGenerators, Batched, Corrections, Final, Commit, Dot, Prove;
    ProveIsPlain(g, q, d, mu, s, xs);
    BatchedIffPlain(g, q, d, mu, Commit(g, s), Dot(s.a, s.b), s.ga, s.gb, xs, Prove(g, d, mu, s, xs));
  }
}
