/** The tables and compensations that multi-scalar multiplication works from, made from the points, and the whole way from points
    and scalars to the sum in both modes. */
module MultiMacInit {
  import opened Arith
  import opened Group
  import opened Linear
  import opened MultiMac
  import opened MultiMacSecure
  import opened Wnaf
  import opened Words

  // ----- One prepared point -----

  /** What is kept of a prepared point. */
  datatype Kept<!P(!new)> = Kept(fast: seq<P>, secure: seq<P>, comp: P, scalar: nat)

  /** A blinding point and a secret scalar drawn from the oracle. */
  datatype Draw<!P(!new)> = Draw(nums: P, scalar: nat)

  /** What the compensation takes off. */
  ghost function Extra<P(!new)>(g: Group<P>, p: P, d: Draw<P>): P {
    g.add(Mul(g, d.scalar, p), Mul(g, Blinds(0), d.nums))
  }

  /** A draw with which no table entry and not the compensation is zero. */
  ghost predicate Usable<P(!new)>(g: Group<P>, p: P, d: Draw<P>) {
    (forall i :: 0 <= i < 16 ==> g.add(d.nums, Mul(g, i, p)) != g.zero) && Extra(g, p, d) != g.zero
  }

  ghost predicate Holds<P(!new)>(g: Group<P>, p: P, d: Draw<P>, x: Kept<P>) {
    && PreparedTables(g, [p], [x.fast]) && Blinded(g, p, d.nums, x.secure)
    && x.scalar == d.scalar && x.comp == g.neg(Extra(g, p, d))
  }

  ghost predicate SmallDraws<P(!new)>(ds: seq<Draw<P>>) {
    forall i :: 0 <= i < |ds| ==> ds[i].scalar < Pow2(BITS)
  }

  method FastTable<P(!new)>(g: Group<P>, p: P) returns (tbl: seq<P>)
    requires Abelian(g)
    ensures PreparedTables(g, [p], [tbl])
  {
    hide Abelian, Mul, OddMultiples;
    HalfWindow();
    tbl := MakeOdd(g, p, 128);
    hide Pow2;
  }

  lemma HalfWindow()
    ensures Pow2(PREPARED_WINDOW) / 2 == 128
  {
    Pow2Add(4, 4);
    assert Pow2(3) == 8 && Pow2(4) == 16;
  }

  method HasZero<P(!new, ==)>(g: Group<P>, tbl: seq<P>) returns (z: bool)
    ensures z <==> exists i :: 0 <= i < |tbl| && tbl[i] == g.zero
  {
    z := false;
    var i := 0;
    while i < |tbl|
      invariant 0 <= i <= |tbl| && (z <==> exists j :: 0 <= j < i && tbl[j] == g.zero)
    {
      if tbl[i] == g.zero {
        z := true;
      }
      i := i + 1;
    }
  }

  /** `Prepared::Initialize`: the fast table, then draws until one is usable. It fails only when the draws run out. */
  method Initialize<P(!new, ==)>(g: Group<P>, p: P, draws: seq<Draw<P>>) returns (r: Option<Kept<P>>, i: nat)
    requires Abelian(g) && SmallDraws(draws)
    ensures i <= |draws| && (r.Some? <==> i < |draws|) && forall j :: 0 <= j < i ==> !Usable(g, p, draws[j])
    ensures r.Some? ==> Usable(g, p, draws[i]) && Holds(g, p, draws[i], r.value)
  {
    hide Abelian, Mul, Blinds, Pow2, PreparedTables, Usable, Blinded;
    var fast := FastTable(g, p);
    i := 0;
    while i < |draws|
      invariant 0 <= i <= |draws| && forall j :: 0 <= j < i ==> !Usable(g, p, draws[j])
    {
      var d := draws[i];
      var secure := MakeBlinded(g, p, d.nums);
      var z := HasZero(g, secure);
      var npos := Offset(g, p, fast, d.scalar, d.nums);
      Tested(g, p, d, secure);
      if !z && npos != g.zero {
        return Some(Kept(fast, secure, g.neg(npos), d.scalar)), i;
      }
      i := i + 1;
    }
    r := None;
  }

  lemma Tested<P(!new)>(g: Group<P>, p: P, d: Draw<P>, secure: seq<P>)
    requires Blinded(g, p, d.nums, secure)
    ensures Usable(g, p, d) <==> !(exists i :: 0 <= i < |secure| && secure[i] == g.zero) && Extra(g, p, d) != g.zero
  {
    hide Mul, Blinds;
    if Usable(g, p, d) {
      forall i | 0 <= i < |secure| ensures secure[i] != g.zero {
        assert g.add(d.nums, Mul(g, i, p)) != g.zero;
      }
    } else if !(exists i :: 0 <= i < |secure| && secure[i] == g.zero) {
      forall i | 0 <= i < 16 ensures g.add(d.nums, Mul(g, i, p)) != g.zero {
        assert secure[i] != g.zero;
      }
    }
  }

  // ----- All prepared points -----

  ghost predicate AnyUsable<P(!new)>(g: Group<P>, p: P, draws: seq<Draw<P>>) {
    exists i :: 0 <= i < |draws| && Usable(g, p, draws[i])
  }

  ghost predicate AllUsable<P(!new)>(g: Group<P>, ps: seq<P>, draws: seq<seq<Draw<P>>>)
    requires |ps| == |draws|
  {
    forall e :: 0 <= e < |ps| ==> AnyUsable(g, ps[e], draws[e])
  }

  /** Both kinds of tables of all the prepared points, unless the draws for one of them run out. */
  method InitAll<P(!new, ==)>(g: Group<P>, ps: seq<P>, draws: seq<seq<Draw<P>>>) returns (ok: bool, tbls: seq<seq<P>>, z: Blinding<P>)
    requires Abelian(g) && |ps| == |draws| && forall e :: 0 <= e < |ps| ==> SmallDraws(draws[e])
    ensures ok <==> AllUsable(g, ps, draws)
    ensures ok ==> PreparedTables(g, ps, tbls) && Prepared(g, ps, z)
  {
    hide Abelian, Mul, Blinds, Pow2, PreparedTables, Prepared, Usable, SmallDraws, Holds;
    tbls, z := [], Blinding([], [], [], []);
    InitNone(g);
    var e := 0;
    while e < |ps|
      invariant 0 <= e <= |ps| && PreparedTables(g, ps[..e], tbls) && Prepared(g, ps[..e], z)
      invariant forall k :: 0 <= k < e ==> AnyUsable(g, ps[k], draws[k])
    {
      var x, i := Initialize(g, ps[e], draws[e]);
      if x.None? {
        ok := false;
        assert !AnyUsable(g, ps[e], draws[e]);
        return;
      }
      assert AnyUsable(g, ps[e], draws[e]);
      var d, y := draws[e][i], x.value;
      InitOne(g, ps[..e], tbls, z, ps[e], d, y);
      assert ps[..e] + [ps[e]] == ps[..e + 1];
      tbls := tbls + [y.fast];
      z := Blinding(z.nums + [d.nums], z.tbls + [y.secure], z.comps + [y.comp], z.ss + [y.scalar]);
      e := e + 1;
    }
    assert ps[..e] == ps;
    ok := true;
  }

  lemma InitNone<P(!new)>(g: Group<P>)
    ensures PreparedTables(g, [], []) && Prepared(g, [], Blinding([], [], [], []))
  {
  }

  lemma InitOne<P(!new)>(g: Group<P>, ps: seq<P>, tbls: seq<seq<P>>, z: Blinding<P>, p: P, d: Draw<P>, x: Kept<P>)
    requires PreparedTables(g, ps, tbls) && Prepared(g, ps, z) && Holds(g, p, d, x)
    ensures PreparedTables(g, ps + [p], tbls + [x.fast])
    ensures Prepared(g, ps + [p],
                     Blinding(z.nums + [d.nums], z.tbls + [x.secure], z.comps + [x.comp], z.ss + [x.scalar]))
  {
    hide Mul, Blinds, Pow2, OddMultiples, Blinded;
    assert OddMultiples(g, [p][0], [x.fast][0]) && |[x.fast][0]| == Pow2(PREPARED_WINDOW) / 2;
  }

  // ----- Casual points -----

  /** The compensation shared by all casual points, from the blinding point's own fast table. */
  method CasualComp<P(!new, ==)>(g: Group<P>, q: nat, nums: P, fast: seq<P>) returns (comp: P)
    requires Abelian(g) && HasOrder(g, q) && 0 < q <= Pow2(BITS) && PreparedTables(g, [nums], [fast])
    ensures comp == Mul(g, -(Blinds(0) as int), nums)
  {
    hide Abelian, HasOrder, Mul, Blinds, Pow2, PreparedTables, Comb, Same;
    var k := CasualScalar(q);
    var m: nat := if k == 0 then 0 else q - k;
    comp := Fast(g, [], [], [m], [nums], [fast]);
    CombSingle(g, m, nums);
    Negated(Blinds(0), q, k, m);
    MulSame(g, q, m, -(Blinds(0) as int), nums);
  }

  lemma Negated(x: nat, q: nat, k: nat, m: nat)
    requires q > 0 && k == x % q && m == if k == 0 then 0 else q - k
    ensures Same(q, m, -(x as int))
  {
    DivMod(x, q);
    var t := x / q + if k == 0 then 0 else 1;
    assert t * q == x / q * q + if k == 0 then 0 else q;
    assert m == -(x as int) + t * q;
  }

  /** `Casual::Init` of all the casual points: one blinding point and one compensation for all. */
  method InitCasual<P(!new, ==)>(g: Group<P>, q: nat, ps: seq<P>, nums: P) returns (z: Blinding<P>)
    requires Abelian(g) && HasOrder(g, q) && 0 < q <= Pow2(BITS)
    ensures Prepared(g, ps, z) && forall e :: 0 <= e < |z.ss| ==> z.ss[e] == 0
  {
    hide Abelian, HasOrder, Mul, Blinds, Pow2, PreparedTables, Prepared;
    var fast := FastTable(g, nums);
    var comp := CasualComp(g, q, nums, fast);
    z := Blinding([], [], [], []);
    InitNone(g);
    var e := 0;
    while e < |ps|
      invariant 0 <= e <= |ps| && Prepared(g, ps[..e], z) && forall k :: 0 <= k < |z.ss| ==> z.ss[k] == 0
    {
      var secure := MakeBlinded(g, ps[e], nums);
      CasualCompensation(g, ps[e], nums);
      CasualOne(g, ps[..e], z, ps[e], nums, secure, comp);
      assert ps[..e] + [ps[e]] == ps[..e + 1];
      z := Blinding(z.nums + [nums], z.tbls + [secure], z.comps + [comp], z.ss + [0]);
      e := e + 1;
    }
    assert ps[..e] == ps;
  }

  lemma CasualOne<P(!new)>(g: Group<P>, ps: seq<P>, z: Blinding<P>, p: P, nums: P, secure: seq<P>, comp: P)
    requires Prepared(g, ps, z) && Blinded(g, p, nums, secure)
    requires comp == g.neg(g.add(Mul(g, 0, p), Mul(g, Blinds(0), nums)))
    ensures Prepared(g, ps + [p], Blinding(z.nums + [nums], z.tbls + [secure], z.comps + [comp], z.ss + [0]))
  {
    hide Mul, Blinds, Blinded;
  }

  // ----- From points and scalars to the sum -----

  /** Everything from the points: tables and compensations are made, then either mode gives the sum of the multiples. It fails only
      when the draws for a prepared point run out. */
  method FromPoints<P(!new, ==)>(g: Group<P>, fast: bool, q: nat, nums: P, ksC: seq<nat>, psC: seq<P>, ksP: seq<nat>, psP: seq<P>,
                                 draws: seq<seq<Draw<P>>>)
    returns (res: Option<P>)
    requires Abelian(g) && HasOrder(g, q) && 0 < q <= Pow2(BITS) && Scalars(ksC) && Scalars(ksP)
    requires |ksC| == |psC| && |ksP| == |psP| == |draws| && forall e :: 0 <= e < |psP| ==> SmallDraws(draws[e])
    ensures res.Some? <==> AllUsable(g, psP, draws)
    ensures res.Some? ==> res.value == g.add(Comb(g, ksC, psC), Comb(g, ksP, psP))
  {
    hide Abelian, HasOrder, Mul, Comb, Pow2, Scalars, PreparedTables, Prepared, SmallDraws, AllUsable;
    var ok, tbls, zP := InitAll(g, psP, draws);
    if !ok {
      return None;
    }
    var zC := InitCasual(g, q, psC, nums);
    var x := Calculate(g, fast, q, ksC, psC, zC, ksP, psP, tbls, zP);
    res := Some(x);
  }
}
