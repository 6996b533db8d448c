/** Multi-scalar multiplication in secure mode: fixed windows of four bits over tables shifted by blinding points, which the
    compensations take off again. */
module MultiMacSecure {
  import opened Arith
  import opened Group
  import opened Linear
  import opened Wnaf
  import opened MultiMac

  const WINDOW: nat := 4

  // ----- Windows of a scalar -----

  /** What doubling and adding windows from the top makes of a scalar down to bit n. */
  function Windows(k: nat, n: nat): nat
    requires n <= BITS
    decreases BITS - n
  {
    if n == BITS then 0 else 2 * Windows(k, n + 1) + (if n % WINDOW == 0 then (k / Pow2(n)) % 16 else 0)
  }

  /** How often a blinding point is in the result down to bit n. */
  function Blinds(n: nat): nat
    requires n <= BITS
    decreases BITS - n
  {
    if n == BITS then 0 else 2 * Blinds(n + 1) + (if n % WINDOW == 0 then 1 else 0)
  }

  lemma WindowsStep(k: nat, n: nat)
    requires n < BITS
    ensures Windows(k, n) == 2 * Windows(k, n + 1) + (if n % WINDOW == 0 then (k / Pow2(n)) % 16 else 0)
  {
  }

  lemma BlindsStep(n: nat)
    requires n < BITS
    ensures Blinds(n) == 2 * Blinds(n + 1) + (if n % WINDOW == 0 then 1 else 0)
  {
  }

  lemma Residues(n: nat)
    requires n % WINDOW == 0
    ensures (n + 1) % WINDOW == 1 && (n + 2) % WINDOW == 2 && (n + 3) % WINDOW == 3
  {
  }

  lemma OneWindow(k: nat, n: nat)
    requires n % WINDOW == 0 && n + 4 <= BITS
    ensures Windows(k, n) == 16 * Windows(k, n + 4) + (k / Pow2(n)) % 16
  {
    hide Windows, Pow2;
    Residues(n);
    WindowsStep(k, n + 3);
    WindowsStep(k, n + 2);
    WindowsStep(k, n + 1);
    WindowsStep(k, n);
  }

  lemma OneBlind(n: nat)
    requires n % WINDOW == 0 && n + 4 <= BITS
    ensures Blinds(n) == 16 * Blinds(n + 4) + 1
  {
    hide Blinds;
    Residues(n);
    BlindsStep(n + 3);
    BlindsStep(n + 2);
    BlindsStep(n + 1);
    BlindsStep(n);
  }

  lemma {:induction false} WindowsAre(k: nat, n: nat)
    requires n <= BITS && n % WINDOW == 0 && k < Pow2(BITS)
    ensures Windows(k, n) == k / Pow2(n)
    decreases BITS - n
  {
    if n == BITS {
      hide Pow2;
      RestAbove(k, BITS);
    } else {
      hide Windows, Pow2;
      WindowsAre(k, n + 4);
      OneWindow(k, n);
      Pow2Add(n, 4);
      Sixteen();
      DivModSplit(k, Pow2(n), 16);
    }
  }

  lemma WindowsAll(k: nat)
    requires k < Pow2(BITS)
    ensures Windows(k, 0) == k
  {
    hide Windows;
    WindowsAre(k, 0);
    assert Pow2(0) == 1;
  }

  /** `GetPortion` at a window boundary. */
  lemma PortionAt(k: nat, n: nat)
    requires k < Pow2(BITS) && n < BITS && n % WINDOW == 0
    ensures n / WORD < |Words(k)| && Portion(Words(k), WORD, n, WINDOW) == (k / Pow2(n)) % 16
  {
    hide Pow2, Split, Value;
    WordsAre(k);
    BitInWord(Words(k), WORD, n);
    hide IsScalar, Words;
    PortionOf(Words(k), WORD, n, WINDOW);
    Sixteen();
  }

  lemma Sixteen()
    ensures Pow2(WINDOW) == 16
  {
    assert Pow2(3) == 8;
  }

  // ----- Blinded tables -----

  ghost predicate Blinded<P(!new)>(g: Group<P>, p: P, nums: P, tbl: seq<P>) {
    |tbl| == 16 && forall i :: 0 <= i < 16 ==> tbl[i] == g.add(nums, Mul(g, i, p))
  }

  /** `Casual::Init` in secure mode. */
  method MakeBlinded<P(!new)>(g: Group<P>, p: P, nums: P) returns (tbl: seq<P>)
    requires Abelian(g)
    ensures Blinded(g, p, nums, tbl)
  {
    hide Abelian, Mul;
    MulSmall(g, p);
    Zero(g, nums);
    tbl := [nums];
    while |tbl| < 16
      invariant 1 <= |tbl| <= 16
      invariant forall i :: 0 <= i < |tbl| ==> tbl[i] == g.add(nums, Mul(g, i, p))
    {
      var i := |tbl|;
      MulNext(g, i - 1, p);
      Assoc(g, nums, Mul(g, i - 1, p), p);
      tbl := tbl + [g.add(tbl[i - 1], p)];
    }
  }

  /** How often the blinding point is in the result of one casual element, modulo the order. */
  method CasualScalar(q: nat) returns (k: nat)
    requires q > 0
    ensures k == Blinds(0) % q
  {
    k := 0;
    var i := BITS;
    hide Blinds;
    NoWindows();
    while i > 0
      invariant 0 <= i <= BITS && k == Blinds(i) % q
    {
      i := i - 1;
      BlindsStep(i);
      ModTwice(Blinds(i + 1), q);
      k := (k + k) % q;
      if i % WINDOW == 0 {
        k := (k + 1) % q;
      }
    }
  }

  lemma ModTwice(x: nat, q: nat)
    requires q > 0
    ensures (x % q + x % q) % q == (2 * x) % q && ((2 * x) % q + 1) % q == (2 * x + 1) % q
  {
    ModAdd(x, x % q, q);
    ModAdd(x, x, q);
    ModAdd(2 * x, 1, q);
  }

  /** Blinding points of the windows 0 .. j, at their weights. */
  function Powers(j: nat): nat {
    if j == 0 then 0 else Powers(j - 1) + Pow2(4 * (j - 1))
  }

  lemma {:induction false} PowersStep(j: nat)
    ensures Powers(j + 1) == 16 * Powers(j) + 1
  {
    hide Pow2;
    if j == 0 {
      FirstPower();
    } else {
      PowersStep(j - 1);
      Pow2Add(4, 4 * (j - 1));
      assert 4 * j == 4 + 4 * (j - 1);
      Sixteen();
    }
  }

  lemma {:induction false} PowersAre(j: nat)
    requires 4 * j <= BITS
    ensures Powers(j) == Blinds(BITS - 4 * j)
  {
    hide Blinds, Powers;
    NoWindows();
    if j > 0 {
      PowersAre(j - 1);
      PowersStep(j - 1);
      OneBlind(BITS - 4 * j);
    }
  }

  lemma NoWindows()
    ensures Blinds(BITS) == 0 && Powers(0) == 0
  {
  }

  /** `Prepared::Initialize`, the sum that the compensation takes off: the secret multiple, by the fast mode, and the blinding
      points at the weights of all windows. */
  method Offset<P(!new, ==)>(g: Group<P>, p: P, fast: seq<P>, s: nat, nums0: P) returns (npos: P)
    requires Abelian(g) && PreparedTables(g, [p], [fast]) && s < Pow2(BITS)
    ensures npos == g.add(Mul(g, s, p), Mul(g, Blinds(0), nums0))
  {
    hide Abelian, Mul, Blinds, Pow2, Comb, PreparedTables;
    npos := Fast(g, [], [], [s], [p], [fast]);
    CombSingle(g, s, p);
    ghost var scaled := Mul(g, s, p);
    var nums := nums0;
    npos := g.add(npos, nums);
    MulSmall(g, nums0);
    FirstPower();
    var j := 1;
    while j < BITS / WINDOW
      invariant 1 <= j <= BITS / WINDOW
      invariant nums == Mul(g, Pow2(4 * (j - 1)), nums0)
      invariant npos == g.add(scaled, Mul(g, Powers(j), nums0))
    {
      ghost var w := Pow2(4 * (j - 1));
      nums := g.add(nums, nums);
      MulAdd(g, w, w, nums0);
      nums := g.add(nums, nums);
      MulAdd(g, 2 * w, 2 * w, nums0);
      nums := g.add(nums, nums);
      MulAdd(g, 4 * w, 4 * w, nums0);
      nums := g.add(nums, nums);
      MulAdd(g, 8 * w, 8 * w, nums0);
      Pow2Add(4, 4 * (j - 1));
      Sixteen();
      MulAdd(g, Powers(j), Pow2(4 * j), nums0);
      Assoc(g, scaled, Mul(g, Powers(j), nums0), nums);
      npos := g.add(npos, nums);
      j := j + 1;
    }
    PowersAre(BITS / WINDOW);
  }

  lemma CombSingle<P(!new)>(g: Group<P>, k: int, p: P)
    requires Abelian(g)
    ensures g.add(Comb(g, [], []), Comb(g, [k], [p])) == Mul(g, k, p)
  {
    hide Abelian, Mul;
    assert [k][..0] == [] && [p][..0] == [];
    Zero(g, Mul(g, k, p));
  }

  lemma FirstPower()
    ensures Pow2(0) == 1 && Powers(1) == 1
  {
    assert Powers(1) == Powers(0) + Pow2(0);
  }

  // ----- One window step -----

  function Mixed(u: seq<int>, v: seq<int>, i: nat): (r: seq<int>)
    requires i <= |u| == |v|
    ensures |r| == |u|
  {
    u[..i] + v[i..]
  }

  lemma MixedStep(u: seq<int>, v: seq<int>, i: nat, d: int)
    requires i < |u| == |v| && u[i] == v[i] + d
    ensures var m := Mixed(u, v, i); m[i := m[i] + d] == Mixed(u, v, i + 1)
  {
  }

  lemma MixedEnds(u: seq<int>, v: seq<int>)
    requires |u| == |v|
    ensures Mixed(u, v, 0) == v && Mixed(u, v, |u|) == u
  {
  }

  /** Both linear combinations: of the points, and of their blinding points. */
  ghost function Sum2<P(!new)>(g: Group<P>, u: seq<int>, ps: seq<P>, v: seq<int>, nums: seq<P>): P
    requires |u| == |ps| == |v| == |nums|
  {
    g.add(Comb(g, u, ps), Comb(g, v, nums))
  }

  lemma Sum2Update<P(!new)>(g: Group<P>, other: P, u: seq<int>, ps: seq<P>, v: seq<int>, nums: seq<P>, i: nat,
                            d: int, c: int)
    requires Abelian(g) && i < |u| == |ps| == |v| == |nums|
    ensures g.add(g.add(other, Sum2(g, u, ps, v, nums)), g.add(Mul(g, c, nums[i]), Mul(g, d, ps[i]))) ==
      g.add(other, Sum2(g, u[i := u[i] + d], ps, v[i := v[i] + c], nums))
  {
    hide Abelian, Mul, Comb;
    CombUpdate(g, u, ps, i, d);
    CombUpdate(g, v, nums, i, c);
    var a, b, x, y := Comb(g, u, ps), Comb(g, v, nums), Mul(g, d, ps[i]), Mul(g, c, nums[i]);
    Comm(g, y, x);
    Assoc(g, other, g.add(a, b), g.add(x, y));
    Swap(g, a, b, x, y);
  }

  function AllWindows(ks: seq<nat>, n: nat): (r: seq<int>)
    requires n <= BITS
    ensures |r| == |ks|
  {
    seq(|ks|, e requires 0 <= e < |ks| => Windows(ks[e], n))
  }

  function AllBlinds(m: nat, n: nat): (r: seq<int>)
    requires n <= BITS
    ensures |r| == m
  {
    seq(m, e requires 0 <= e < m => Blinds(n))
  }

  ghost predicate Tables<P(!new)>(g: Group<P>, ps: seq<P>, nums: seq<P>, tbls: seq<seq<P>>) {
    |ps| == |nums| == |tbls| && forall e :: 0 <= e < |ps| ==> Blinded(g, ps[e], nums[e], tbls[e])
  }

  /** The windows of all scalars at one boundary. */
  method AddWindows<P(!new)>(g: Group<P>, ks: seq<nat>, ghost ps: seq<P>, ghost nums: seq<P>, tbls: seq<seq<P>>,
                             n: nat, res0: P,
                             ghost other: P)
    returns (res: P)
    requires Abelian(g) && Scalars(ks) && |ks| == |ps| && Tables(g, ps, nums, tbls) && n < BITS && n % WINDOW == 0
    requires res0 == g.add(other, Sum2(g, VMul(2, AllWindows(ks, n + 1)), ps, VMul(2, AllBlinds(|ps|, n + 1)), nums))
    ensures res == g.add(other, Sum2(g, AllWindows(ks, n), ps, AllBlinds(|ps|, n), nums))
  {
    hide Abelian, Mul, Comb, Sum2, Pow2, Portion, Words, Mixed, Windows, Blinds;
    ghost var u', v' := VMul(2, AllWindows(ks, n + 1)), VMul(2, AllBlinds(|ps|, n + 1));
    ghost var u, v := AllWindows(ks, n), AllBlinds(|ps|, n);
    MixedEnds(u, u');
    MixedEnds(v, v');
    res := res0;
    var e := 0;
    while e < |ks|
      invariant 0 <= e <= |ks|
      invariant res == g.add(other, Sum2(g, Mixed(u, u', e), ps, Mixed(v, v', e), nums))
    {
      PortionAt(ks[e], n);
      WindowsStep(ks[e], n);
      BlindsStep(n);
      var val := Portion(Words(ks[e]), WORD, n, WINDOW);
      ghost var d := (ks[e] / Pow2(n)) % 16;
      assert Blinded(g, ps[e], nums[e], tbls[e]);
      MulSmall(g, nums[e]);
      Sum2Update(g, other, Mixed(u, u', e), ps, Mixed(v, v', e), nums, e, d, 1);
      MixedStep(u, u', e, d);
      MixedStep(v, v', e, 1);
      res := g.add(res, tbls[e][val]);
      e := e + 1;
    }
  }

  // ----- Compensation -----

  ghost predicate Compensations<P(!new)>(g: Group<P>, ps: seq<P>, ss: seq<nat>, nums: seq<P>, comps: seq<P>) {
    && |ps| == |ss| == |nums| == |comps|
    && forall e :: 0 <= e < |ps| ==> comps[e] == g.neg(g.add(Mul(g, ss[e], ps[e]), Mul(g, Blinds(0), nums[e])))
  }

  function Minus(u: seq<int>, ss: seq<nat>): (r: seq<int>)
    requires |u| == |ss|
    ensures |r| == |u|
  {
    seq(|u|, e requires 0 <= e < |u| => u[e] - ss[e])
  }

  lemma NegOfSum<P(!new)>(g: Group<P>, a: int, p: P, b: int, q: P)
    requires Abelian(g)
    ensures g.neg(g.add(Mul(g, a, p), Mul(g, b, q))) == g.add(Mul(g, -b, q), Mul(g, -a, p))
  {
    hide Abelian, Mul;
    var x, y := Mul(g, a, p), Mul(g, b, q);
    MulNeg(g, a, p);
    MulNeg(g, b, q);
    Comm(g, Mul(g, -b, q), Mul(g, -a, p));
    Swap(g, x, y, Mul(g, -a, p), Mul(g, -b, q));
    Zero(g, g.zero);
    Inverse(g, g.add(x, y));
    Comm(g, g.add(x, y), g.neg(g.add(x, y)));
    Comm(g, g.add(x, y), g.add(Mul(g, -b, q), Mul(g, -a, p)));
    Cancel(g, g.neg(g.add(x, y)), g.add(Mul(g, -b, q), Mul(g, -a, p)), g.add(x, y));
  }

  /** Adding the compensations takes off the blinding points and the secret scalars. */
  method Compensate<P(!new)>(g: Group<P>, ghost ks: seq<int>, ghost ps: seq<P>, ghost ss: seq<nat>,
                             ghost nums: seq<P>, comps: seq<P>,
                             res0: P, ghost other: P)
    returns (res: P)
    requires Abelian(g) && |ks| == |ps| && Compensations(g, ps, ss, nums, comps)
    requires res0 == g.add(other, Sum2(g, ks, ps, AllBlinds(|ps|, 0), nums))
    ensures res == g.add(other, Comb(g, Minus(ks, ss), ps))
  {
    hide Abelian, Mul, Comb, Sum2, Blinds, Mixed;
    ghost var v := AllBlinds(|ps|, 0);
    ghost var u', v' := Minus(ks, ss), seq(|ps|, _ => 0);
    MixedEnds(u', ks);
    MixedEnds(v', v);
    res := res0;
    var e := 0;
    while e < |comps|
      invariant 0 <= e <= |comps|
      invariant res == g.add(other, Sum2(g, Mixed(u', ks, e), ps, Mixed(v', v, e), nums))
    {
      ghost var s: int, c: int := ss[e], Blinds(0);
      NegOfSum(g, s, ps[e], c, nums[e]);
      Sum2Update(g, other, Mixed(u', ks, e), ps, Mixed(v', v, e), nums, e, -s, -c);
      MixedStep(u', ks, e, -s);
      MixedStep(v', v, e, -c);
      res := g.add(res, comps[e]);
      e := e + 1;
    }
    Sum2Unblinded(g, u', ps, v', nums);
  }

  lemma Sum2Unblinded<P(!new)>(g: Group<P>, u: seq<int>, ps: seq<P>, v: seq<int>, nums: seq<P>)
    requires Abelian(g) && |u| == |ps| == |v| == |nums| && forall e :: 0 <= e < |v| ==> v[e] == 0
    ensures Sum2(g, u, ps, v, nums) == Comb(g, u, ps)
  {
    hide Abelian, Mul, Comb;
    CombZeros(g, v, nums);
    Zero(g, Comb(g, u, ps));
  }

  // ----- The whole multiplication -----

  /** Blinding, tables and compensations of one set of points. */
  datatype Blinding<!P(!new)> = Blinding(nums: seq<P>, tbls: seq<seq<P>>, comps: seq<P>, ss: seq<nat>)

  ghost predicate Prepared<P(!new)>(g: Group<P>, ps: seq<P>, z: Blinding<P>) {
    Tables(g, ps, z.nums, z.tbls) && Compensations(g, ps, z.ss, z.nums, z.comps)
  }

  ghost function Progress<P(!new)>(g: Group<P>, ks: seq<nat>, ps: seq<P>, nums: seq<P>, n: nat): P
    requires |ks| == |ps| == |nums| && n <= BITS
  {
    Sum2(g, AllWindows(ks, n), ps, AllBlinds(|ps|, n), nums)
  }

  lemma ProgressStart<P(!new)>(g: Group<P>, ks: seq<nat>, ps: seq<P>, nums: seq<P>)
    requires Abelian(g) && |ks| == |ps| == |nums|
    ensures Progress(g, ks, ps, nums, BITS) == g.zero
  {
    NoWindows();
    CombZeros(g, AllWindows(ks, BITS), ps);
    CombZeros(g, AllBlinds(|ps|, BITS), nums);
    Zero(g, g.zero);
  }

  lemma Sum2Double<P(!new)>(g: Group<P>, u: seq<int>, ps: seq<P>, v: seq<int>, nums: seq<P>)
    requires Abelian(g) && |u| == |ps| == |v| == |nums|
    ensures Sum2(g, VMul(2, u), ps, VMul(2, v), nums) == Mul(g, 2, Sum2(g, u, ps, v, nums))
  {
    hide Abelian, Mul, Comb;
    CombMul(g, 2, u, ps);
    CombMul(g, 2, v, nums);
    MulSum(g, 2, Comb(g, u, ps), Comb(g, v, nums));
  }

  lemma NotBoundary(ks: seq<nat>, m: nat, n: nat)
    requires n < BITS && n % WINDOW != 0
    ensures AllWindows(ks, n) == VMul(2, AllWindows(ks, n + 1)) && AllBlinds(m, n) == VMul(2, AllBlinds(m, n + 1))
  {
    hide Windows, Blinds, Pow2;
    BlindsStep(n);
    forall e | 0 <= e < |ks| ensures Windows(ks[e], n) == 2 * Windows(ks[e], n + 1) {
      WindowsStep(ks[e], n);
    }
  }

  /** One bit of one set of points. */
  method Step<P(!new)>(g: Group<P>, ks: seq<nat>, ghost ps: seq<P>, ghost nums: seq<P>, tbls: seq<seq<P>>, n: nat, res0: P,
                       ghost other: P)
    returns (res: P)
    requires Abelian(g) && Scalars(ks) && |ks| == |ps| && Tables(g, ps, nums, tbls) && n < BITS
    requires res0 == g.add(other, Mul(g, 2, Progress(g, ks, ps, nums, n + 1)))
    ensures res == g.add(other, Progress(g, ks, ps, nums, n))
  {
    hide Abelian, Mul, Comb, Sum2, AllWindows, AllBlinds, VMul, Scalars;
    Sum2Double(g, AllWindows(ks, n + 1), ps, AllBlinds(|ps|, n + 1), nums);
    if n % WINDOW == 0 {
      res := AddWindows(g, ks, ps, nums, tbls, n, res0, other);
    } else {
      NotBoundary(ks, |ps|, n);
      res := res0;
    }
  }

  /** k + s modulo the order, as the secret scalars are added to the prepared ones. */
  function Shifted(ks: seq<nat>, ss: seq<nat>, q: nat): (r: seq<nat>)
    requires |ks| == |ss| && q > 0
    ensures |r| == |ks|
  {
    seq(|ks|, e requires 0 <= e < |ks| => (ks[e] + ss[e]) % q)
  }

  lemma {:induction false} CombSame<P(!new)>(g: Group<P>, q: nat, u: seq<int>, v: seq<int>, ps: seq<P>)
    requires Abelian(g) && HasOrder(g, q) && |u| == |v| == |ps| && forall e :: 0 <= e < |ps| ==> Same(q, u[e], v[e])
    ensures Comb(g, u, ps) == Comb(g, v, ps)
  {
    hide Abelian, HasOrder, Mul, Same;
    if u != [] {
      var n := |u| - 1;
      CombSame(g, q, u[..n], v[..n], ps[..n]);
      MulSame(g, q, u[n], v[n], ps[n]);
    }
  }

  lemma ShiftedBack(ks: seq<nat>, ss: seq<nat>, q: nat)
    requires |ks| == |ss| && q > 0
    ensures forall e :: 0 <= e < |ks| ==> Same(q, Minus(Shifted(ks, ss, q), ss)[e], ks[e])
  {
    forall e | 0 <= e < |ks| ensures Same(q, Minus(Shifted(ks, ss, q), ss)[e], ks[e]) {
      var x := ks[e] + ss[e];
      assert x % q - ss[e] == ks[e] + (-(x / q)) * q;
    }
  }

  /** `Calculate` in secure mode. The casual points share one blinding point and have no secret scalars. */
  method Secure<P(!new, ==)>(g: Group<P>, q: nat, ksC: seq<nat>, ghost psC: seq<P>, zC: Blinding<P>, ksP: seq<nat>,
                             ghost psP: seq<P>,
                             zP: Blinding<P>)
    returns (res: P)
    requires Abelian(g) && HasOrder(g, q) && 0 < q <= Pow2(BITS) && Scalars(ksC) && |ksC| == |psC| && |ksP| == |psP|
    requires Prepared(g, psC, zC) && Prepared(g, psP, zP) && forall e :: 0 <= e < |zC.ss| ==> zC.ss[e] == 0
    ensures res == g.add(Comb(g, ksC, psC), Comb(g, ksP, psP))
  {
    hide Abelian, HasOrder, Mul, Comb, Progress, Tables, Compensations, Pow2, Scalars, Same;
    ghost var nC, nP := zC.nums, zP.nums;
    PreparedShape(g, psC, zC);
    PreparedShape(g, psP, zP);
    var kk := Shifted(ksP, zP.ss, q);
    ShiftedScalars(kk, q);
    ProgressStart(g, ksC, psC, nC);
    ProgressStart(g, kk, psP, nP);
    Zero(g, g.zero);
    res := g.zero;
    var iBit := BITS;
    while iBit > 0
      invariant 0 <= iBit <= BITS
      invariant res == g.add(Progress(g, ksC, psC, nC, iBit), Progress(g, kk, psP, nP, iBit))
    {
      iBit := iBit - 1;
      ghost var a, b := Progress(g, ksC, psC, nC, iBit + 1), Progress(g, kk, psP, nP, iBit + 1);
      Doubled(g, res, a, b);
      if res != g.zero {
        res := g.add(res, res);
      }
      Comm(g, Mul(g, 2, a), Mul(g, 2, b));
      res := Step(g, ksC, psC, nC, zC.tbls, iBit, res, Mul(g, 2, b));
      Comm(g, Mul(g, 2, b), Progress(g, ksC, psC, nC, iBit));
      res := Step(g, kk, psP, nP, zP.tbls, iBit, res, Progress(g, ksC, psC, nC, iBit));
    }
    ProgressEnd(g, ksC, psC, nC);
    ProgressEnd(g, kk, psP, nP);
    ghost var a := Progress(g, ksC, psC, nC, 0);
    res := Compensate(g, kk, psP, zP.ss, nP, zP.comps, res, a);
    ghost var b := Comb(g, Minus(kk, zP.ss), psP);
    Comm(g, a, b);
    res := Compensate(g, ksC, psC, zC.ss, nC, zC.comps, res, b);
    Comm(g, b, Comb(g, Minus(ksC, zC.ss), psC));
    ShiftedBack(ksP, zP.ss, q);
    CombSame(g, q, Minus(kk, zP.ss), ksP, psP);
    assert Minus(ksC, zC.ss) == ksC;
  }

  lemma PreparedShape<P(!new)>(g: Group<P>, ps: seq<P>, z: Blinding<P>)
    requires Prepared(g, ps, z)
    ensures |ps| == |z.nums| == |z.tbls| == |z.comps| == |z.ss|
  {
  }

  lemma ShiftedScalars(kk: seq<nat>, q: nat)
    requires 0 < q <= Pow2(BITS) && forall e :: 0 <= e < |kk| ==> kk[e] < q
    ensures Scalars(kk)
  {
    hide Pow2;
  }

  lemma ProgressEnd<P(!new)>(g: Group<P>, ks: seq<nat>, ps: seq<P>, nums: seq<P>)
    requires Scalars(ks) && |ks| == |ps| == |nums|
    ensures Progress(g, ks, ps, nums, 0) == Sum2(g, ks, ps, AllBlinds(|ps|, 0), nums)
  {
    hide Windows, Blinds, Pow2, Comb;
    forall e | 0 <= e < |ks| ensures AllWindows(ks, 0)[e] == ks[e] {
      WindowsAll(ks[e]);
    }
    assert AllWindows(ks, 0) == ks;
  }

  /** The compensation of a casual point, which has no secret scalar. */
  lemma CasualCompensation<P(!new)>(g: Group<P>, p: P, nums: P)
    requires Abelian(g)
    ensures g.neg(g.add(Mul(g, 0, p), Mul(g, Blinds(0), nums))) == Mul(g, -(Blinds(0) as int), nums)
  {
    hide Abelian, Mul, Blinds;
    NegOfSum(g, 0, p, Blinds(0), nums);
    MulSmall(g, p);
    Zero(g, Mul(g, -(Blinds(0) as int), nums));
  }

  /** `Calculate`: both modes compute the sum of the scalar multiples. */
  method Calculate<P(!new, ==)>(g: Group<P>, fast: bool, q: nat, ksC: seq<nat>, psC: seq<P>, zC: Blinding<P>, ksP: seq<nat>,
                                psP: seq<P>, tblsP: seq<seq<P>>, zP: Blinding<P>)
    returns (res: P)
    requires Abelian(g) && HasOrder(g, q) && 0 < q <= Pow2(BITS)
    requires Scalars(ksC) && Scalars(ksP) && |ksC| == |psC| && |ksP| == |psP| && PreparedTables(g, psP, tblsP)
    requires Prepared(g, psC, zC) && Prepared(g, psP, zP) && forall e :: 0 <= e < |zC.ss| ==> zC.ss[e] == 0
    ensures res == g.add(Comb(g, ksC, psC), Comb(g, ksP, psP))
  {
    if fast {
      res := Fast(g, ksC, psC, ksP, psP, tblsP);
    } else {
      res := Secure(g, q, ksC, psC, zC, ksP, psP, zP);
    }
  }
}
