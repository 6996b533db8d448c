/** Validation of a transaction body by several verifiers, each taking every n-th element, against one verifier. */
module TxValidation {
  import opened Words
  import opened Group

  const MAX_HEIGHT: nat := 0xFFFF_FFFF_FFFF_FFFF

  // ----- Elements -----

  datatype Input = Input(commit: nat, id: nat)
  /** `key` orders outputs of one commitment. */
  datatype Output = Output(commit: nat, key: nat, signed: bool, id: nat)
  datatype Kernel = Kernel(id: nat, lo: nat, hi: nat)
  datatype Item = In(i: Input) | Out(o: Output) | Krn(k: Kernel)

  datatype Tx = Tx(ins: seq<Input>, outs: seq<Output>, krns: seq<Kernel>, offset: int)

  /** Point import and element validity come from elsewhere: the point an element contributes, if it is valid. */
  datatype Rules<!P(!new)> = Rules(g: Group<P>, gen: P, forks: seq<nat>, maxDh: nat, allowUnsigned: bool,
                                   imported: nat -> Option<P>, outValid: (Output, nat) -> Option<P>,
                                   krnValid: (Kernel, nat) -> Option<P>, krnAbove: (Kernel, Kernel) -> bool)

  predicate OutAbove(a: Output, b: Output) {
    a.commit > b.commit || (a.commit == b.commit && a.key > b.key)
  }

  // ----- Forks -----

  function FindFork(forks: seq<nat>, h: nat, i: nat): nat
    requires i <= |forks|
  {
    if i == 0 then 0
    else if h >= forks[i - 1] then i - 1
    else FindFork(forks, h, i - 1)
  }

  function ForkOf(forks: seq<nat>, h: nat): nat {
    FindFork(forks, h, |forks|)
  }

  function ForkMax(forks: seq<nat>, i: nat): nat {
    if i + 1 < |forks| && 0 < forks[i + 1] < MAX_HEIGHT then forks[i + 1] - 1 else MAX_HEIGHT
  }

  ghost predicate Ascending(forks: seq<nat>) {
    && forks != [] && forks[0] == 0 && (forall i :: 0 < i < |forks| ==> forks[i] > 0)
    && forall i, j :: 0 <= i < j < |forks| ==> forks[i] <= forks[j]
  }

  lemma {:induction false} FindForkIs(forks: seq<nat>, h: nat, i: nat)
    requires Ascending(forks) && 0 < i <= |forks| && (i < |forks| ==> h < forks[i])
    ensures
      var f := FindFork(forks, h, i);
      f < |forks| && forks[f] <= h && (f + 1 < |forks| ==> h < forks[f + 1])
  {
    if h < forks[i - 1] {
      FindForkIs(forks, h, i - 1);
    }
  }

  lemma {:induction false} FindForkUnique(forks: seq<nat>, h: nat, i: nat, f: nat)
    requires Ascending(forks) && f < i <= |forks| && forks[f] <= h && (f + 1 < |forks| ==> h < forks[f + 1])
    ensures FindFork(forks, h, i) == f
  {
    if i > f + 1 {
      assert forks[f + 1] <= forks[i - 1];
      FindForkUnique(forks, h, i - 1, f);
    }
  }

  /** Heights up to the end of a fork belong to it. */
  lemma SameFork(forks: seq<nat>, lo: nat, h: nat)
    requires Ascending(forks) && lo <= h <= ForkMax(forks, ForkOf(forks, lo)) && h < MAX_HEIGHT
    ensures ForkOf(forks, h) == ForkOf(forks, lo)
  {
    FindForkIs(forks, lo, |forks|);
    FindForkUnique(forks, h, |forks|, ForkOf(forks, lo));
  }

  // ----- What verification accumulates -----

  datatype Heights = All | Between(lo: nat, hi: nat)

  function Intersect(a: Heights, b: Heights): Heights {
    if a.All? then b
    else if b.All? then a
    else Between(if a.lo < b.lo then b.lo else a.lo, if a.hi < b.hi then a.hi else b.hi)
  }

  predicate Empty(h: Heights) {
    h.Between? && h.lo > h.hi
  }

  /** Sigma, the elements counted in the statistics, and the heights that fit. */
  datatype Sum<!P(!new)> = Sum(sigma: P, stats: multiset<Item>, h: Heights)

  function Plus<P(!new)>(g: Group<P>, a: Sum<P>, b: Sum<P>): Sum<P> {
    Sum(g.add(a.sigma, b.sigma), a.stats + b.stats, Intersect(a.h, b.h))
  }

  function Nothing<P(!new)>(g: Group<P>): Sum<P> {
    Sum(g.zero, multiset{}, All)
  }

  lemma PlusComm<P(!new)>(g: Group<P>, a: Sum<P>, b: Sum<P>)
    requires Abelian(g)
    ensures Plus(g, a, b) == Plus(g, b, a)
  {
    hide Abelian;
    Comm(g, a.sigma, b.sigma);
  }

  lemma PlusAssoc<P(!new)>(g: Group<P>, a: Sum<P>, b: Sum<P>, c: Sum<P>)
    requires Abelian(g)
    ensures Plus(g, Plus(g, a, b), c) == Plus(g, a, Plus(g, b, c))
  {
    hide Abelian;
    Assoc(g, a.sigma, b.sigma, c.sigma);
    assert (a.stats + b.stats) + c.stats == a.stats + (b.stats + c.stats);
  }

  lemma PlusNothing<P(!new)>(g: Group<P>, a: Sum<P>)
    requires Abelian(g)
    ensures Plus(g, a, Nothing(g)) == a && Plus(g, Nothing(g), a) == a
  {
    hide Abelian;
    Zero(g, a.sigma);
  }

  // ----- Sums over the elements of one verifier -----

  /** The sum of every n-th part, from part v on. */
  function Share<P(!new)>(g: Group<P>, parts: seq<Sum<P>>, n: nat, v: nat): Sum<P>
    requires n > 0
  {
    if parts == [] then Nothing(g)
    else
      var rest := Share(g, parts[..|parts| - 1], n, v);
      if (|parts| - 1) % n == v then Plus(g, rest, parts[|parts| - 1]) else rest
  }

  /** The shares of the verifiers below k, merged. */
  function Merged<P(!new)>(g: Group<P>, parts: seq<Sum<P>>, n: nat, k: nat): Sum<P>
    requires n > 0
  {
    if k == 0 then Nothing(g) else Plus(g, Merged(g, parts, n, k - 1), Share(g, parts, n, k - 1))
  }

  lemma {:induction false} MergedNone<P(!new)>(g: Group<P>, n: nat, k: nat)
    requires Abelian(g) && n > 0
    ensures Merged(g, [], n, k) == Nothing(g)
  {
    if k > 0 {
      MergedNone(g, n, k - 1);
      PlusNothing(g, Nothing(g));
    }
  }

  /** One more part goes to exactly one share. */
  lemma {:induction false} MergedSnoc<P(!new)>(g: Group<P>, parts: seq<Sum<P>>, x: Sum<P>, n: nat, k: nat)
    requires Abelian(g) && n > 0 && k <= n
    ensures Merged(g, parts + [x], n, k) ==
      if |parts| % n < k then Plus(g, Merged(g, parts, n, k), x) else Merged(g, parts, n, k)
  {
    hide Abelian;
    if k > 0 {
      MergedSnoc(g, parts, x, n, k - 1);
      assert (parts + [x])[..|parts|] == parts;
      var m, s := Merged(g, parts, n, k - 1), Share(g, parts, n, k - 1);
      PlusAssoc(g, m, s, x);
      PlusAssoc(g, m, x, s);
      PlusComm(g, x, s);
    }
  }

  /** All shares together are the share of a single verifier. */
  lemma {:induction false} SharesMakeWhole<P(!new)>(g: Group<P>, parts: seq<Sum<P>>, n: nat)
    requires Abelian(g) && n > 0
    ensures Merged(g, parts, n, n) == Share(g, parts, 1, 0)
  {
    hide Abelian;
    if parts == [] {
      MergedNone(g, n, n);
    } else {
      var init, x := parts[..|parts| - 1], parts[|parts| - 1];
      assert parts == init + [x];
      SharesMakeWhole(g, init, n);
      MergedSnoc(g, init, x, n, n);
      assert |init| % n < n && |init| % 1 == 0;
    }
  }

  // ----- One verifier -----

  /** Which elements are taken: a counter down to zero. */
  function ShouldVerify(iV: nat, n: nat): (bool, nat)
    requires n > 0
  {
    if iV > 0 then (false, iV - 1) else (true, n - 1)
  }

  /** State between elements: the counter, the output last compared with an input, and the sums. */
  datatype Ctx<!P(!new)> = Ctx(iV: nat, out: nat, sum: Sum<P>)

  /** Outputs below the input are skipped; an equal one makes the input redundant. */
  function SkipBelow(commit: nat, outs: seq<Output>, j: nat): Option<nat>
    decreases |outs| - j
  {
    if j >= |outs| || commit < outs[j].commit then Some(j)
    else if commit == outs[j].commit then None
    else SkipBelow(commit, outs, j + 1)
  }

  function TakeInput<P(!new)>(r: Rules<P>, tx: Tx, i: nat, out: nat): Option<(Sum<P>, nat)>
    requires i < |tx.ins|
  {
    var x := tx.ins[i];
    if i > 0 && tx.ins[i - 1].commit > x.commit then None
    else
      var j := SkipBelow(x.commit, tx.outs, out);
      if j.None? || r.imported(x.commit).None? then None
      else Some((Sum(r.g.neg(r.imported(x.commit).value), multiset{In(x)}, All), j.value))
  }

  function TakeOutput<P(!new)>(r: Rules<P>, tx: Tx, i: nat, h: nat): Option<Sum<P>>
    requires i < |tx.outs|
  {
    var x := tx.outs[i];
    if i > 0 && OutAbove(tx.outs[i - 1], x) && (!r.allowUnsigned || tx.outs[i - 1].commit != x.commit) then None
    else
      var p := if x.signed then r.outValid(x, h) else if r.allowUnsigned then r.imported(x.commit) else None;
      if p.None? then None else Some(Sum(p.value, multiset{Out(x)}, All))
  }

  /** From the second fork on a kernel is valid for a limited time. */
  function KernelHeights<P(!new)>(r: Rules<P>, fork: nat, k: Kernel): Heights {
    if fork >= 2 && k.lo <= k.hi && k.hi - k.lo > r.maxDh then Between(k.lo, k.lo + r.maxDh) else Between(k.lo, k.hi)
  }

  function TakeKernel<P(!new)>(r: Rules<P>, tx: Tx, i: nat, h: nat, fork: nat): Option<Sum<P>>
    requires i < |tx.krns|
  {
    var x := tx.krns[i];
    if i > 0 && r.krnAbove(tx.krns[i - 1], x) then None
    else if r.krnValid(x, h).None? then None
    else Some(Sum(r.krnValid(x, h).value, multiset{Krn(x)}, KernelHeights(r, fork, x)))
  }

  function Total(tx: Tx): nat {
    |tx.ins| + |tx.outs| + |tx.krns| + 1
  }

  /** Element t of inputs, outputs, kernels and the offset, by a verifier in a given state. */
  function TakeAt<P(!new)>(r: Rules<P>, tx: Tx, fork: nat, t: nat, c: Ctx<P>): Option<Ctx<P>>
    requires t < Total(tx) && c.sum.h.Between?
  {
    if t < |tx.ins| then
      var x := TakeInput(r, tx, t, c.out);
      if x.None? then None else Some(c.(sum := Plus(r.g, c.sum, x.value.0), out := x.value.1))
    else if t < |tx.ins| + |tx.outs| then
      var x := TakeOutput(r, tx, t - |tx.ins|, c.sum.h.lo);
      if x.None? then None else Some(c.(sum := Plus(r.g, c.sum, x.value)))
    else if t < Total(tx) - 1 then
      var x := TakeKernel(r, tx, t - |tx.ins| - |tx.outs|, c.sum.h.lo, fork);
      if x.None? || Empty(Intersect(c.sum.h, x.value.h)) then None else Some(c.(sum := Plus(r.g, c.sum, x.value)))
    else
      Some(c.(sum := Plus(r.g, c.sum, Sum(Mul(r.g, tx.offset, r.gen), multiset{}, All))))
  }

  lemma TakeKeepsRange<P(!new)>(r: Rules<P>, tx: Tx, fork: nat, t: nat, c: Ctx<P>)
    requires t < Total(tx) && c.sum.h.Between? && TakeAt(r, tx, fork, t, c).Some?
    ensures TakeAt(r, tx, fork, t, c).value.sum.h.Between?
  {
  }

  /** All elements from t on. */
  function Run<P(!new)>(r: Rules<P>, tx: Tx, fork: nat, n: nat, t: nat, c: Ctx<P>): Option<Ctx<P>>
    requires t <= Total(tx) && c.sum.h.Between? && n > 0
    decreases Total(tx) - t
  {
    if t == Total(tx) then Some(c)
    else
      var (take, iV) := ShouldVerify(c.iV, n);
      if !take then Run(r, tx, fork, n, t + 1, c.(iV := iV))
      else
        var c' := TakeAt(r, tx, fork, t, c);
        if c'.None? then None else Run(r, tx, fork, n, t + 1, c'.value.(iV := iV))
  }

  /** `ValidateAndSummarize` of verifier v of n, for a range of heights. */
  function Validate<P(!new)>(r: Rules<P>, tx: Tx, n: nat, v: nat, lo: nat, hi: nat): Option<Sum<P>>
    requires n > 0
  {
    if lo > hi then None
    else
      var fork := ForkOf(r.forks, lo);
      var max := ForkMax(r.forks, fork);
      var c := Ctx(v, 0, Sum(r.g.zero, multiset{}, Between(lo, if max < hi then max else hi)));
      var c' := Run(r, tx, fork, n, 0, c);
      if c'.None? then None else Some(c'.value.sum)
  }
}
