/** Any number of verifiers that share the elements of a transaction accept, together, exactly when a single one does. */
module TxParallel {
  import opened Arith
  import opened Words
  import opened Group
  import opened TxValidation

  // ----- What each element needs, by itself -----

  predicate NoneEqual(commit: nat, outs: seq<Output>) {
    forall j :: 0 <= j < |outs| ==> outs[j].commit != commit
  }

  /** The element is in order with the one before it, valid, and, for an input, not also an output. */
  predicate Good<P(!new)>(r: Rules<P>, tx: Tx, fork: nat, h: nat, t: nat)
    requires t < Total(tx)
  {
    if t < |tx.ins| then
      && (t > 0 ==> tx.ins[t - 1].commit <= tx.ins[t].commit)
      && NoneEqual(tx.ins[t].commit, tx.outs) && r.imported(tx.ins[t].commit).Some?
    else if t < |tx.ins| + |tx.outs| then TakeOutput(r, tx, t - |tx.ins|, h).Some?
    else if t < Total(tx) - 1 then TakeKernel(r, tx, t - |tx.ins| - |tx.outs|, h, fork).Some?
    else true
  }

  function Value<T>(o: Option<T>, d: T): T {
    if o.Some? then o.value else d
  }

  /** What the element adds to the sums. */
  function Part<P(!new)>(r: Rules<P>, tx: Tx, fork: nat, h: nat, t: nat): Sum<P>
    requires t < Total(tx)
  {
    if t < |tx.ins| then
      Sum(r.g.neg(Value(r.imported(tx.ins[t].commit), r.g.zero)), multiset{In(tx.ins[t])}, All)
    else if t < |tx.ins| + |tx.outs| then Value(TakeOutput(r, tx, t - |tx.ins|, h), Nothing(r.g))
    else if t < Total(tx) - 1 then Value(TakeKernel(r, tx, t - |tx.ins| - |tx.outs|, h, fork), Nothing(r.g))
    else Sum(Mul(r.g, tx.offset, r.gen), multiset{}, All)
  }

  // ----- The height an element is seen at -----

  predicate IsKernel(tx: Tx, t: nat) {
    |tx.ins| + |tx.outs| <= t < Total(tx) - 1
  }

  function KernelAt(tx: Tx, t: nat): Kernel
    requires IsKernel(tx, t)
  {
    tx.krns[t - |tx.ins| - |tx.outs|]
  }

  /** Before element t, verifier v of n has taken a kernel that starts at the largest height. */
  ghost predicate Narrowed(tx: Tx, n: nat, v: nat, t: nat)
    requires n > 0
  {
    exists s :: 0 <= s < t && IsKernel(tx, s) && s % n == v && KernelAt(tx, s).lo >= MAX_HEIGHT
  }

  lemma NarrowedStep(tx: Tx, n: nat, v: nat, t: nat)
    requires n > 0
    ensures Narrowed(tx, n, v, t + 1) <==>
      Narrowed(tx, n, v, t) || (IsKernel(tx, t) && t % n == v && KernelAt(tx, t).lo >= MAX_HEIGHT)
  {
    if Narrowed(tx, n, v, t) {
      var s :| 0 <= s < t && IsKernel(tx, s) && s % n == v && KernelAt(tx, s).lo >= MAX_HEIGHT;
      assert s < t + 1;
    }
  }

  /** The height at which the verifier that takes element t sees it, as far as the fork goes: the first of the range, unless the
      verifier has narrowed it to the largest height. Forks that are not in use begin there. */
  ghost function SeenAt(tx: Tx, n: nat, lo: nat, t: nat): nat
    requires n > 0
  {
    if Narrowed(tx, n, t % n, t) then MAX_HEIGHT else lo
  }

  ghost function Parts<P(!new)>(r: Rules<P>, tx: Tx, fork: nat, n: nat, lo: nat): (ps: seq<Sum<P>>)
    requires n > 0
    ensures |ps| == Total(tx)
  {
    seq(Total(tx), t requires 0 <= t < Total(tx) => Part(r, tx, fork, SeenAt(tx, n, lo, t), t))
  }

  /** Commitments in ascending order on both sides. */
  ghost predicate Sorted(tx: Tx) {
    && (forall i :: 0 < i < |tx.ins| ==> tx.ins[i - 1].commit <= tx.ins[i].commit)
    && (forall i :: 0 < i < |tx.outs| ==> tx.outs[i - 1].commit <= tx.outs[i].commit)
  }

  /** Validity depends on the height only through the fork. */
  ghost predicate ForkOnly<P(!new)>(r: Rules<P>) {
    forall k, h, h' :: ForkOf(r.forks, h) == ForkOf(r.forks, h') ==> r.krnValid(k, h) == r.krnValid(k, h')
  }

  ghost predicate Setting<P(!new)>(r: Rules<P>) {
    Abelian(r.g) && Ascending(r.forks) && ForkOnly(r)
  }

  /** Forks that are not in use have the largest height. So heights that were narrowed to it belong to another fork; nothing
      comes of that when the range does not reach it, or when no kernel follows one that starts there. */
  predicate Steady(forks: seq<nat>, tx: Tx, h0: nat, top: nat) {
    || ForkOf(forks, MAX_HEIGHT) == ForkOf(forks, h0)
    || top < MAX_HEIGHT
    || forall i :: 0 <= i < |tx.krns| - 1 ==> tx.krns[i].lo < MAX_HEIGHT
  }

  // ----- The counter -----

  ghost predicate Counter(iV: nat, t: nat, n: nat, v: nat) {
    n > 0 && iV < n && (t + iV) % n == v
  }

  lemma CounterStart(n: nat, v: nat)
    requires v < n
    ensures Counter(v, 0, n, v)
  {
  }

  lemma CounterStep(iV: nat, t: nat, n: nat, v: nat)
    requires Counter(iV, t, n, v)
    ensures iV == 0 <==> t % n == v
    ensures Counter(ShouldVerify(iV, n).1, t + 1, n, v)
  {
    var q, m := t / n, t % n;
    assert t == q * n + m;
    assert (q + 1) * n == q * n + n;
    if iV == 0 {
      DivModUnique(t + n, n, q + 1, m);
    } else if m + iV < n {
      DivModUnique(t + iV, n, q, m + iV);
    } else {
      DivModUnique(t + iV, n, q + 1, m + iV - n);
    }
  }

  // ----- Redundant outputs -----

  lemma {:induction false} OutsSorted(tx: Tx, i: nat, j: nat)
    requires Sorted(tx) && i <= j < |tx.outs|
    ensures tx.outs[i].commit <= tx.outs[j].commit
    decreases j
  {
    if i < j {
      OutsSorted(tx, i, j - 1);
    }
  }

  lemma {:induction false} InsSorted(tx: Tx, i: nat, j: nat)
    requires Sorted(tx) && i <= j < |tx.ins|
    ensures tx.ins[i].commit <= tx.ins[j].commit
    decreases j
  {
    if i < j {
      InsSorted(tx, i, j - 1);
    }
  }

  ghost predicate Below(outs: seq<Output>, j: nat, commit: nat) {
    j <= |outs| && forall q :: 0 <= q < j ==> outs[q].commit < commit
  }

  /** With the outputs in order, skipping finds an equal output exactly when there is one. */
  lemma {:induction false} SkipFinds(tx: Tx, commit: nat, j: nat)
    requires Sorted(tx) && Below(tx.outs, j, commit)
    ensures SkipBelow(commit, tx.outs, j).Some? <==> NoneEqual(commit, tx.outs)
    ensures SkipBelow(commit, tx.outs, j).Some? ==> Below(tx.outs, SkipBelow(commit, tx.outs, j).value, commit)
    decreases |tx.outs| - j
  {
    if j < |tx.outs| {
      if commit < tx.outs[j].commit {
        forall q | j <= q < |tx.outs| ensures tx.outs[q].commit != commit {
          OutsSorted(tx, j, q);
        }
      } else if commit > tx.outs[j].commit {
        SkipFinds(tx, commit, j + 1);
      }
    }
  }

  // ----- Heights -----

  /** The range that is left is not empty, within the fork, and starts at a height of the fork. */
  ghost predicate Within<P(!new)>(r: Rules<P>, h0: nat, h: Heights) {
    h.Between? && h0 <= h.lo && h.hi <= ForkMax(r.forks, ForkOf(r.forks, h0))
  }

  /** A verifier that has not narrowed its range to the largest height is still in the fork it started in. */
  lemma SameValidity<P(!new)>(r: Rules<P>, h0: nat, h: Heights, k: Kernel)
    requires Setting(r) && Within(r, h0, h) && !Empty(h) && (h.lo == h0 || h.lo < MAX_HEIGHT)
    ensures r.krnValid(k, h.lo) == r.krnValid(k, h0)
  {
    hide Abelian, ForkOf;
    if h.lo != h0 {
      SameFork(r.forks, h0, h.lo);
    }
  }

  /** Where a range begins that was narrowed by the kernels taken before element t. */
  ghost predicate Beginning(tx: Tx, n: nat, v: nat, t: nat, h0: nat, lo: nat)
    requires n > 0
  {
    if Narrowed(tx, n, v, t) then lo >= MAX_HEIGHT else lo == h0 || lo < MAX_HEIGHT
  }

  /** So each kernel is seen as `SeenAt` says. */
  lemma SeenRight<P(!new)>(r: Rules<P>, tx: Tx, n: nat, t: nat, h0: nat, h: Heights, k: Kernel)
    requires n > 0 && Setting(r) && Within(r, h0, h) && !Empty(h) && Beginning(tx, n, t % n, t, h0, h.lo)
    ensures r.krnValid(k, h.lo) == r.krnValid(k, SeenAt(tx, n, h0, t))
  {
    hide Setting, Narrowed, ForkOf;
    if !Narrowed(tx, n, t % n, t) {
      SameValidity(r, h0, h, k);
    }
  }

  lemma NothingNarrowed(tx: Tx, n: nat, v: nat, t: nat)
    requires n > 0 && t <= |tx.ins| + |tx.outs|
    ensures !Narrowed(tx, n, v, t)
  {
  }

  lemma {:induction false} EmptyStays<P(!new)>(g: Group<P>, base: Sum<P>, parts: seq<Sum<P>>, n: nat, v: nat, t: nat)
    requires n > 0 && t <= |parts| && base.h.Between? && Empty(Plus(g, base, Share(g, parts[..t], n, v)).h)
    ensures Empty(Plus(g, base, Share(g, parts, n, v)).h)
    decreases |parts| - t
  {
    if t == |parts| {
      assert parts[..t] == parts;
    } else {
      assert parts[..t + 1][..t] == parts[..t];
      var x := parts[t].h;
      var s := Share(g, parts[..t], n, v).h;
      assert Intersect(base.h, Intersect(s, x)) == Intersect(Intersect(base.h, s), x);
      EmptyStays(g, base, parts, n, v, t + 1);
    }
  }

  // ----- One verifier on a sorted transaction -----

  /** All elements from t on that verifier v of n takes are good. */
  ghost predicate GoodFrom<P(!new)>(r: Rules<P>, tx: Tx, fork: nat, h: nat, n: nat, v: nat, t: nat)
    requires n > 0
  {
    forall s :: t <= s < Total(tx) && s % n == v ==> Good(r, tx, fork, SeenAt(tx, n, h, s), s)
  }

  /** What holds of the state before element t. */
  ghost predicate Before<P(!new)>(r: Rules<P>, tx: Tx, h0: nat, base: Sum<P>, n: nat, v: nat, t: nat, c: Ctx<P>)
    requires t <= Total(tx)
  {
    var fork := ForkOf(r.forks, h0);
    && Counter(c.iV, t, n, v) && base.h.Between? && Within(r, h0, c.sum.h) && !Empty(c.sum.h)
    && (t < |tx.ins| ==> Below(tx.outs, c.out, tx.ins[t].commit))
    && c.sum == Plus(r.g, base, Share(r.g, Parts(r, tx, fork, n, h0)[..t], n, v))
    && (t <= |tx.ins| + |tx.outs| ==> c.sum.h.lo == h0) && Beginning(tx, n, v, t, h0, c.sum.h.lo)
  }

  lemma ShareNext<P(!new)>(g: Group<P>, parts: seq<Sum<P>>, n: nat, v: nat, t: nat)
    requires n > 0 && t < |parts|
    ensures Share(g, parts[..t + 1], n, v) ==
      if t % n == v then Plus(g, Share(g, parts[..t], n, v), parts[t]) else Share(g, parts[..t], n, v)
  {
    assert parts[..t + 1][..t] == parts[..t];
  }

  /** An element not taken leaves the state as it is, but for the counter. */
  lemma SkipElement<P(!new)>(r: Rules<P>, tx: Tx, h0: nat, base: Sum<P>, n: nat, v: nat, t: nat, c: Ctx<P>)
    requires base.h.Between? && Setting(r) && Sorted(tx)
    requires t < Total(tx) && Before(r, tx, h0, base, n, v, t, c) && c.iV > 0
    ensures t % n != v && Before(r, tx, h0, base, n, v, t + 1, c.(iV := c.iV - 1))
  {
    hide Setting, ForkMax, ForkOf, Part, Parts, Share, Narrowed;
    CounterStep(c.iV, t, n, v);
    NarrowedStep(tx, n, v, t);
    ShareNext(r.g, Parts(r, tx, ForkOf(r.forks, h0), n, h0), n, v, t);
  }

  /** An element taken: it passes exactly when it is good and the heights left are not empty. */
  ghost predicate Taken<P(!new)>(r: Rules<P>, tx: Tx, h0: nat, base: Sum<P>, n: nat, v: nat, t: nat, c: Ctx<P>)
    requires n > 0 && base.h.Between? && t < Total(tx) && c.sum.h.Between?
  {
    var fork := ForkOf(r.forks, h0);
    var x := TakeAt(r, tx, fork, t, c);
    var sum := Plus(r.g, base, Share(r.g, Parts(r, tx, fork, n, h0)[..t + 1], n, v));
    && (x.Some? <==> Good(r, tx, fork, SeenAt(tx, n, h0, t), t) && !Empty(sum.h))
    && (x.Some? ==> Before(r, tx, h0, base, n, v, t + 1, x.value.(iV := n - 1)))
  }

  lemma TakeElement<P(!new)>(r: Rules<P>, tx: Tx, h0: nat, base: Sum<P>, n: nat, v: nat, t: nat, c: Ctx<P>)
    requires base.h.Between? && Setting(r) && Sorted(tx)
    requires t < Total(tx) && Before(r, tx, h0, base, n, v, t, c) && c.iV == 0
    ensures t % n == v && Taken(r, tx, h0, base, n, v, t, c)
  {
    hide Taken, Parts, Part, Share, Plus, Narrowed, Sorted, Setting, ForkOf, SeenAt, Beginning;
    CounterStep(c.iV, t, n, v);
    SettingAbelian(r);
    NarrowedStep(tx, n, v, t);
    SumNext(r, tx, h0, base, n, v, t, c);
    if IsKernel(tx, t) {
      TakeKernelElement(r, tx, h0, base, n, v, t, c);
    } else {
      TakeOtherElement(r, tx, h0, base, n, v, t, c);
    }
  }

  /** The sum with one more part. */
  lemma SumNext<P(!new)>(r: Rules<P>, tx: Tx, h0: nat, base: Sum<P>, n: nat, v: nat, t: nat, c: Ctx<P>)
    requires n > 0 && t < Total(tx) && t % n == v && Abelian(r.g)
    requires c.sum == Plus(r.g, base, Share(r.g, Parts(r, tx, ForkOf(r.forks, h0), n, h0)[..t], n, v))
    ensures
      var fork := ForkOf(r.forks, h0);
      Plus(r.g, base, Share(r.g, Parts(r, tx, fork, n, h0)[..t + 1], n, v)) ==
      Plus(r.g, c.sum, Part(r, tx, fork, SeenAt(tx, n, h0, t), t))
  {
    hide Abelian, ForkOf, Part, Share, Plus, Narrowed;
    var parts := Parts(r, tx, ForkOf(r.forks, h0), n, h0);
    ShareNext(r.g, parts, n, v, t);
    PlusAssoc(r.g, base, Share(r.g, parts[..t], n, v), parts[t]);
  }

  lemma TakeKernelElement<P(!new)>(r: Rules<P>, tx: Tx, h0: nat, base: Sum<P>, n: nat, v: nat, t: nat, c: Ctx<P>)
    requires base.h.Between? && Setting(r) && IsKernel(tx, t) && Before(r, tx, h0, base, n, v, t, c) && c.iV == 0 && t % n == v
    requires Counter(n - 1, t + 1, n, v)
    requires Narrowed(tx, n, v, t + 1) <==> Narrowed(tx, n, v, t) || KernelAt(tx, t).lo >= MAX_HEIGHT
    requires
      var fork := ForkOf(r.forks, h0);
      Plus(r.g, base, Share(r.g, Parts(r, tx, fork, n, h0)[..t + 1], n, v)) ==
      Plus(r.g, c.sum, Part(r, tx, fork, SeenAt(tx, n, h0, t), t))
    ensures Taken(r, tx, h0, base, n, v, t, c)
  {
    hide ForkMax, ForkOf, Share, Setting, Parts, Narrowed;
    SeenRight(r, tx, n, t, h0, c.sum.h, KernelAt(tx, t));
  }

  lemma TakeOtherElement<P(!new)>(r: Rules<P>, tx: Tx, h0: nat, base: Sum<P>, n: nat, v: nat, t: nat, c: Ctx<P>)
    requires base.h.Between? && Sorted(tx) && t < Total(tx) && !IsKernel(tx, t)
    requires Before(r, tx, h0, base, n, v, t, c) && c.iV == 0 && t % n == v && Counter(n - 1, t + 1, n, v)
    requires Narrowed(tx, n, v, t + 1) <==> Narrowed(tx, n, v, t)
    requires
      var fork := ForkOf(r.forks, h0);
      Plus(r.g, base, Share(r.g, Parts(r, tx, fork, n, h0)[..t + 1], n, v)) ==
      Plus(r.g, c.sum, Part(r, tx, fork, SeenAt(tx, n, h0, t), t))
    ensures Taken(r, tx, h0, base, n, v, t, c)
  {
    hide Taken, Before, Parts, Part, Share, Plus, Narrowed, Sorted, SeenAt;
    if t < |tx.ins| {
      TakeInputElement(r, tx, h0, base, n, v, t, c);
    } else if t < |tx.ins| + |tx.outs| {
      TakeOutputElement(r, tx, h0, base, n, v, t, c);
    } else {
      TakeOffset(r, tx, h0, base, n, v, t, c);
    }
  }

  lemma TakeInputElement<P(!new)>(r: Rules<P>, tx: Tx, h0: nat, base: Sum<P>, n: nat, v: nat, t: nat, c: Ctx<P>)
    requires base.h.Between? && Sorted(tx) && t < |tx.ins|
    requires Before(r, tx, h0, base, n, v, t, c) && c.iV == 0 && t % n == v && Counter(n - 1, t + 1, n, v)
    requires Narrowed(tx, n, v, t + 1) <==> Narrowed(tx, n, v, t)
    requires
      var fork := ForkOf(r.forks, h0);
      Plus(r.g, base, Share(r.g, Parts(r, tx, fork, n, h0)[..t + 1], n, v)) ==
      Plus(r.g, c.sum, Part(r, tx, fork, SeenAt(tx, n, h0, t), t))
    ensures Taken(r, tx, h0, base, n, v, t, c)
  {
    hide ForkMax, ForkOf, Share, Parts, Narrowed, SkipBelow, NoneEqual, Sorted;
    TakeIn(r, tx, t, c);
  }

  lemma TakeOutputElement<P(!new)>(r: Rules<P>, tx: Tx, h0: nat, base: Sum<P>, n: nat, v: nat, t: nat, c: Ctx<P>)
    requires base.h.Between? && Sorted(tx) && |tx.ins| <= t < |tx.ins| + |tx.outs|
    requires Before(r, tx, h0, base, n, v, t, c) && c.iV == 0 && t % n == v && Counter(n - 1, t + 1, n, v)
    requires Narrowed(tx, n, v, t + 1) <==> Narrowed(tx, n, v, t)
    requires
      var fork := ForkOf(r.forks, h0);
      Plus(r.g, base, Share(r.g, Parts(r, tx, fork, n, h0)[..t + 1], n, v)) ==
      Plus(r.g, c.sum, Part(r, tx, fork, SeenAt(tx, n, h0, t), t))
    ensures Taken(r, tx, h0, base, n, v, t, c)
  {
    hide ForkMax, ForkOf, Share, Parts, Narrowed, SkipBelow, NoneEqual, Sorted;
    NothingNarrowed(tx, n, v, t);
  }

  lemma TakeOffset<P(!new)>(r: Rules<P>, tx: Tx, h0: nat, base: Sum<P>, n: nat, v: nat, t: nat, c: Ctx<P>)
    requires base.h.Between? && Sorted(tx) && t == Total(tx) - 1
    requires Before(r, tx, h0, base, n, v, t, c) && c.iV == 0 && t % n == v && Counter(n - 1, t + 1, n, v)
    requires Narrowed(tx, n, v, t + 1) <==> Narrowed(tx, n, v, t)
    requires
      var fork := ForkOf(r.forks, h0);
      Plus(r.g, base, Share(r.g, Parts(r, tx, fork, n, h0)[..t + 1], n, v)) ==
      Plus(r.g, c.sum, Part(r, tx, fork, SeenAt(tx, n, h0, t), t))
    ensures Taken(r, tx, h0, base, n, v, t, c)
  {
    hide ForkMax, ForkOf, Share, Parts, Narrowed, SkipBelow, NoneEqual, Sorted;
  }

  lemma TakeIn<P(!new)>(r: Rules<P>, tx: Tx, t: nat, c: Ctx<P>)
    requires Sorted(tx) && t < |tx.ins| && Below(tx.outs, c.out, tx.ins[t].commit)
    ensures TakeInput(r, tx, t, c.out).Some? <==> NoneEqual(tx.ins[t].commit, tx.outs) && r.imported(tx.ins[t].commit).Some?
    ensures TakeInput(r, tx, t, c.out).Some? ==>
      && Below(tx.outs, TakeInput(r, tx, t, c.out).value.1, tx.ins[t].commit)
      && (t + 1 < |tx.ins| ==> Below(tx.outs, TakeInput(r, tx, t, c.out).value.1, tx.ins[t + 1].commit))
  {
    SkipFinds(tx, tx.ins[t].commit, c.out);
  }

  /** On a sorted transaction a verifier accepts exactly when its elements are good and heights are left; its sums are then
      those of its share. */
  lemma {:induction false} RunIsShare<P(!new)>(r: Rules<P>, tx: Tx, h0: nat, base: Sum<P>, n: nat, v: nat, t: nat, c: Ctx<P>)
    requires base.h.Between? && Setting(r) && Sorted(tx)
    requires t <= Total(tx) && Before(r, tx, h0, base, n, v, t, c)
    ensures
      var fork := ForkOf(r.forks, h0);
      var x := Run(r, tx, fork, n, t, c);
      var sum := Plus(r.g, base, Share(r.g, Parts(r, tx, fork, n, h0), n, v));
      && (x.Some? <==> GoodFrom(r, tx, fork, h0, n, v, t) && !Empty(sum.h))
      && (x.Some? ==> x.value.sum == sum)
    decreases Total(tx) - t
  {
    hide Setting, Sorted, Before, TakeAt, Share, Parts, Good, Plus, SeenAt;
    BeforeSum(r, tx, h0, base, n, v, t, c);
    var fork := ForkOf(r.forks, h0);
    var parts := Parts(r, tx, fork, n, h0);
    if t == Total(tx) {
      assert parts[..t] == parts;
    } else if c.iV > 0 {
      SkipElement(r, tx, h0, base, n, v, t, c);
      RunIsShare(r, tx, h0, base, n, v, t + 1, c.(iV := c.iV - 1));
      assert GoodFrom(r, tx, fork, h0, n, v, t) <==> GoodFrom(r, tx, fork, h0, n, v, t + 1);
    } else {
      TakeElement(r, tx, h0, base, n, v, t, c);
      var x := TakeAt(r, tx, fork, t, c);
      if x.Some? {
        RunIsShare(r, tx, h0, base, n, v, t + 1, x.value.(iV := n - 1));
        assert GoodFrom(r, tx, fork, h0, n, v, t) <==> GoodFrom(r, tx, fork, h0, n, v, t + 1);
      } else if Good(r, tx, fork, SeenAt(tx, n, h0, t), t) {
        EmptyStays(r.g, base, parts, n, v, t + 1);
      }
    }
  }

  lemma BeforeSum<P(!new)>(r: Rules<P>, tx: Tx, h0: nat, base: Sum<P>, n: nat, v: nat, t: nat, c: Ctx<P>)
    requires t <= Total(tx) && Before(r, tx, h0, base, n, v, t, c)
    ensures n > 0 && c.sum.h.Between? && base.h.Between? && !Empty(c.sum.h) && c.iV < n
    ensures c.sum == Plus(r.g, base, Share(r.g, Parts(r, tx, ForkOf(r.forks, h0), n, h0)[..t], n, v))
  {
  }

  // ----- Order is checked whatever else -----

  predicate OrderOk(tx: Tx, t: nat)
    requires t < Total(tx)
  {
    if 0 < t < |tx.ins| then tx.ins[t - 1].commit <= tx.ins[t].commit
    else if |tx.ins| < t < |tx.ins| + |tx.outs| then
      tx.outs[t - |tx.ins| - 1].commit <= tx.outs[t - |tx.ins|].commit
    else true
  }

  lemma {:induction false} RunChecksOrder<P(!new)>(r: Rules<P>, tx: Tx, fork: nat, n: nat, v: nat, t: nat, c: Ctx<P>)
    requires t <= Total(tx) && c.sum.h.Between? && Counter(c.iV, t, n, v) && Run(r, tx, fork, n, t, c).Some?
    ensures forall s :: t <= s < Total(tx) && s % n == v ==> OrderOk(tx, s)
    decreases Total(tx) - t
  {
    hide Plus;
    if t < Total(tx) {
      CounterStep(c.iV, t, n, v);
      if c.iV > 0 {
        RunChecksOrder(r, tx, fork, n, v, t + 1, c.(iV := c.iV - 1));
      } else {
        TakeChecksOrder(r, tx, fork, t, c);
        hide TakeAt, OrderOk;
        RunChecksOrder(r, tx, fork, n, v, t + 1, TakeAt(r, tx, fork, t, c).value.(iV := n - 1));
      }
    }
  }

  lemma TakeChecksOrder<P(!new)>(r: Rules<P>, tx: Tx, fork: nat, t: nat, c: Ctx<P>)
    requires t < Total(tx) && c.sum.h.Between? && TakeAt(r, tx, fork, t, c).Some?
    ensures OrderOk(tx, t) && TakeAt(r, tx, fork, t, c).value.sum.h.Between?
  {
  }

  lemma SortedIfOrderOk(tx: Tx)
    requires forall t :: 0 <= t < Total(tx) ==> OrderOk(tx, t)
    ensures Sorted(tx)
  {
    forall i | 0 < i < |tx.ins| ensures tx.ins[i - 1].commit <= tx.ins[i].commit {
      assert OrderOk(tx, i);
    }
    forall i | 0 < i < |tx.outs| ensures tx.outs[i - 1].commit <= tx.outs[i].commit {
      assert OrderOk(tx, |tx.ins| + i);
    }
  }

  // ----- Together -----

  /** The clipped range every verifier starts from. */
  function Base<P(!new)>(r: Rules<P>, lo: nat, hi: nat): (s: Sum<P>)
    ensures s.h.Between? && s.h.hi == Top(r.forks, lo, hi)
  {
    Sum(r.g.zero, multiset{}, Between(lo, Top(r.forks, lo, hi)))
  }

  function Top(forks: seq<nat>, lo: nat, hi: nat): nat {
    var max := ForkMax(forks, ForkOf(forks, lo));
    if max < hi then max else hi
  }

  /** The results of the verifiers below k, merged in turn into a fresh context. */
  function MergeAll<P(!new)>(r: Rules<P>, tx: Tx, n: nat, lo: nat, hi: nat, k: nat): Option<Sum<P>>
    requires n > 0
  {
    if k == 0 then Some(Sum(r.g.zero, multiset{}, Between(lo, hi)))
    else
      var m := MergeAll(r, tx, n, lo, hi, k - 1);
      var x := Validate(r, tx, n, k - 1, lo, hi);
      if m.None? || x.None? || Empty(Intersect(m.value.h, x.value.h)) then None
      else Some(Plus(r.g, m.value, x.value))
  }

  lemma BaseWithin<P(!new)>(r: Rules<P>, lo: nat, hi: nat)
    requires Ascending(r.forks) && lo <= hi <= MAX_HEIGHT
    ensures Within(r, lo, Base(r, lo, hi).h) && !Empty(Base(r, lo, hi).h)
  {
    FindForkIs(r.forks, lo, |r.forks|);
  }

  lemma StartsBefore<P(!new)>(r: Rules<P>, tx: Tx, n: nat, v: nat, lo: nat, hi: nat)
    requires Setting(r) && v < n && lo <= hi <= MAX_HEIGHT
    ensures Before(r, tx, lo, Base(r, lo, hi), n, v, 0, Ctx(v, 0, Base(r, lo, hi)))
  {
    hide Abelian, ForkOnly, ForkMax, ForkOf;
    CounterStart(n, v);
    BaseWithin(r, lo, hi);
    PlusNothing(r.g, Base(r, lo, hi));
    assert Parts(r, tx, ForkOf(r.forks, lo), n, lo)[..0] == [];
  }

  /** On a sorted transaction, in terms of shares. */
  lemma ValidateIsShare<P(!new)>(r: Rules<P>, tx: Tx, n: nat, v: nat, lo: nat, hi: nat)
    requires Setting(r) && Sorted(tx) && v < n && lo <= hi <= MAX_HEIGHT
    ensures
      var fork := ForkOf(r.forks, lo);
      var x := Validate(r, tx, n, v, lo, hi);
      var sum := Plus(r.g, Base(r, lo, hi), Share(r.g, Parts(r, tx, fork, n, lo), n, v));
      && (x.Some? <==> GoodFrom(r, tx, fork, lo, n, v, 0) && !Empty(sum.h))
      && (x.Some? ==> x.value == sum)
  {
    hide Setting, Before, GoodFrom, Share, Parts, Run, Plus, ForkMax, ForkOf;
    StartsBefore(r, tx, n, v, lo, hi);
    RunIsShare(r, tx, lo, Base(r, lo, hi), n, v, 0, Ctx(v, 0, Base(r, lo, hi)));
  }

  lemma ValidateChecksOrder<P(!new)>(r: Rules<P>, tx: Tx, n: nat, v: nat, lo: nat, hi: nat)
    requires v < n && Validate(r, tx, n, v, lo, hi).Some?
    ensures forall s :: 0 <= s < Total(tx) && s % n == v ==> OrderOk(tx, s)
  {
    hide OrderOk, Run;
    CounterStart(n, v);
    RunChecksOrder(r, tx, ForkOf(r.forks, lo), n, v, 0, Ctx(v, 0, Base(r, lo, hi)));
  }

  lemma {:induction false} MergeNeedsAll<P(!new)>(r: Rules<P>, tx: Tx, n: nat, lo: nat, hi: nat, k: nat)
    requires n > 0 && MergeAll(r, tx, n, lo, hi, k).Some?
    ensures forall v :: 0 <= v < k ==> Validate(r, tx, n, v, lo, hi).Some?
  {
    if k > 0 {
      MergeNeedsAll(r, tx, n, lo, hi, k - 1);
    }
  }

  lemma SortedIfMerged<P(!new)>(r: Rules<P>, tx: Tx, n: nat, lo: nat, hi: nat)
    requires n > 0 && MergeAll(r, tx, n, lo, hi, n).Some?
    ensures Sorted(tx)
  {
    hide Validate, MergeAll, OrderOk;
    MergeNeedsAll(r, tx, n, lo, hi, n);
    forall t | 0 <= t < Total(tx) ensures OrderOk(tx, t) {
      ValidateChecksOrder(r, tx, n, t % n, lo, hi);
    }
    SortedIfOrderOk(tx);
  }

  lemma SortedIfAccepted<P(!new)>(r: Rules<P>, tx: Tx, lo: nat, hi: nat)
    requires Validate(r, tx, 1, 0, lo, hi).Some?
    ensures Sorted(tx)
  {
    hide Validate, OrderOk;
    ValidateChecksOrder(r, tx, 1, 0, lo, hi);
    forall t | 0 <= t < Total(tx) ensures OrderOk(tx, t) {
      assert t % 1 == 0;
    }
    SortedIfOrderOk(tx);
  }

  /** Merging shares over a common base counts the base once. */
  lemma BaseOnce<P(!new)>(g: Group<P>, base: Sum<P>, a: Sum<P>, b: Sum<P>)
    requires Abelian(g) && base.sigma == g.zero && base.stats == multiset{} && base.h.Between?
    ensures Plus(g, Plus(g, base, a), Plus(g, base, b)) == Plus(g, base, Plus(g, a, b))
  {
    hide Abelian;
    Swap(g, base.sigma, a.sigma, base.sigma, b.sigma);
    Zero(g, g.zero);
  }

  lemma Widened<P(!new)>(g: Group<P>, base: Sum<P>, wide: Sum<P>, b: Sum<P>)
    requires Abelian(g) && base.sigma == g.zero == wide.sigma && base.stats == multiset{} == wide.stats
    requires base.h.Between? && wide.h.Between? && wide.h.lo == base.h.lo && base.h.hi <= wide.h.hi
    ensures Plus(g, wide, Plus(g, base, b)) == Plus(g, base, b)
  {
    hide Abelian;
    Zero(g, g.add(g.zero, b.sigma));
  }

  /** What the merged verifiers have, on a sorted transaction. */
  lemma {:induction false} MergeIsMerged<P(!new)>(r: Rules<P>, tx: Tx, n: nat, lo: nat, hi: nat, k: nat)
    requires Setting(r) && Sorted(tx) && lo <= hi <= MAX_HEIGHT && 0 < k <= n
    ensures
      var fork := ForkOf(r.forks, lo);
      var parts := Parts(r, tx, fork, n, lo);
      var sum := Plus(r.g, Base(r, lo, hi), Merged(r.g, parts, n, k));
      var x := MergeAll(r, tx, n, lo, hi, k);
      && (x.Some? <==> (forall v :: 0 <= v < k ==> GoodFrom(r, tx, fork, lo, n, v, 0)) && !Empty(sum.h))
      && (x.Some? ==> x.value == sum)
  {
    hide Setting, GoodFrom, Parts, Validate, Sorted, ForkOf, ForkMax, Share, Merged, MergeAll, Plus, Base, Empty;
    var fork := ForkOf(r.forks, lo);
    var parts := Parts(r, tx, fork, n, lo);
    var base := Base(r, lo, hi);
    var s := Share(r.g, parts, n, k - 1);
    ValidateIsShare(r, tx, n, k - 1, lo, hi);
    MergeOne(r, tx, n, lo, hi, k);
    MergedOne(r.g, parts, n, k);
    if k == 1 {
      MergeFirst(r, tx, lo, hi, s);
    } else {
      MergeIsMerged(r, tx, n, lo, hi, k - 1);
      MergeMore(r, tx, lo, hi, Merged(r.g, parts, n, k - 1), s);
    }
  }

  lemma MergeOne<P(!new)>(r: Rules<P>, tx: Tx, n: nat, lo: nat, hi: nat, k: nat)
    requires n > 0 && k > 0
    ensures
      var m := MergeAll(r, tx, n, lo, hi, k - 1);
      var x := Validate(r, tx, n, k - 1, lo, hi);
      MergeAll(r, tx, n, lo, hi, k) ==
        if m.None? || x.None? || Empty(Plus(r.g, m.value, x.value).h) then None else Some(Plus(r.g, m.value, x.value))
    ensures MergeAll(r, tx, n, lo, hi, 0) == Some(Sum(r.g.zero, multiset{}, Between(lo, hi)))
  {
    hide Validate;
  }

  lemma MergedOne<P(!new)>(g: Group<P>, parts: seq<Sum<P>>, n: nat, k: nat)
    requires n > 0 && k > 0
    ensures Merged(g, parts, n, k) == Plus(g, Merged(g, parts, n, k - 1), Share(g, parts, n, k - 1))
    ensures Merged(g, parts, n, 0) == Nothing(g)
  {
  }

  lemma MergeFirst<P(!new)>(r: Rules<P>, tx: Tx, lo: nat, hi: nat, s: Sum<P>)
    requires Setting(r)
    ensures
      var base := Base(r, lo, hi);
      && Plus(r.g, Nothing(r.g), s) == s
      && Plus(r.g, Sum(r.g.zero, multiset{}, Between(lo, hi)), Plus(r.g, base, s)) == Plus(r.g, base, s)
  {
    hide Abelian, ForkOnly, ForkMax, ForkOf;
    PlusNothing(r.g, s);
    Widened(r.g, Base(r, lo, hi), Sum(r.g.zero, multiset{}, Between(lo, hi)), s);
  }

  lemma MergeMore<P(!new)>(r: Rules<P>, tx: Tx, lo: nat, hi: nat, m: Sum<P>, s: Sum<P>)
    requires Setting(r)
    ensures
      var base := Base(r, lo, hi);
      var sum := Plus(r.g, base, Plus(r.g, m, s));
      && Plus(r.g, Plus(r.g, base, m), Plus(r.g, base, s)) == sum
      && (Empty(Plus(r.g, base, m).h) ==> Empty(sum.h)) && (Empty(Plus(r.g, base, s).h) ==> Empty(sum.h))
  {
    hide Abelian, ForkOnly, ForkMax, ForkOf;
    BaseOnce(r.g, Base(r, lo, hi), m, s);
    EmptyEither(r.g, Base(r, lo, hi), m, s);
  }

  lemma EmptyEither<P(!new)>(g: Group<P>, base: Sum<P>, a: Sum<P>, b: Sum<P>)
    requires base.h.Between?
    ensures Empty(Plus(g, base, a).h) ==> Empty(Plus(g, base, Plus(g, a, b)).h)
    ensures Empty(Plus(g, base, b).h) ==> Empty(Plus(g, base, Plus(g, a, b)).h)
  {
  }

  // ----- What any number of verifiers comes to -----

  /** Every element is good at the height it is seen at among n verifiers. */
  ghost predicate AllGood<P(!new)>(r: Rules<P>, tx: Tx, fork: nat, n: nat, lo: nat)
    requires n > 0
  {
    forall s :: 0 <= s < Total(tx) ==> Good(r, tx, fork, SeenAt(tx, n, lo, s), s)
  }

  ghost function Whole<P(!new)>(r: Rules<P>, tx: Tx, n: nat, lo: nat, hi: nat): Sum<P>
    requires n > 0
  {
    Plus(r.g, Base(r, lo, hi), Share(r.g, Parts(r, tx, ForkOf(r.forks, lo), n, lo), 1, 0))
  }

  /** Without verifiers: all elements good, in order, with heights left; and the sum of all. How many verifiers there are matters only
      for the height a kernel is seen at. */
  ghost function Outcome<P(!new)>(r: Rules<P>, tx: Tx, n: nat, lo: nat, hi: nat): Option<Sum<P>>
    requires n > 0
  {
    if lo <= hi && Sorted(tx) && AllGood(r, tx, ForkOf(r.forks, lo), n, lo) && !Empty(Whole(r, tx, n, lo, hi).h)
    then Some(Whole(r, tx, n, lo, hi)) else None
  }

  lemma GoodForAll<P(!new)>(r: Rules<P>, tx: Tx, fork: nat, h: nat, n: nat)
    requires n > 0
    ensures (forall v :: 0 <= v < n ==> GoodFrom(r, tx, fork, h, n, v, 0)) <==> AllGood(r, tx, fork, n, h)
  {
    hide Good, SeenAt;
    if forall v :: 0 <= v < n ==> GoodFrom(r, tx, fork, h, n, v, 0) {
      forall s | 0 <= s < Total(tx) ensures Good(r, tx, fork, SeenAt(tx, n, h, s), s) {
        assert GoodFrom(r, tx, fork, h, n, s % n, 0);
      }
    }
  }

  /** For every transaction and every number of verifiers, merged in turn. */
  lemma MergedOutcome<P(!new)>(r: Rules<P>, tx: Tx, n: nat, lo: nat, hi: nat)
    requires Setting(r) && n > 0 && hi <= MAX_HEIGHT
    ensures MergeAll(r, tx, n, lo, hi, n) == Outcome(r, tx, n, lo, hi)
  {
    hide Validate, MergeAll, GoodFrom, Share, Merged, Plus, Parts, ForkOf, ForkMax, AllGood, Setting, Sorted;
    if lo > hi {
      EmptyRange(r, tx, n, lo, hi);
    } else {
      if MergeAll(r, tx, n, lo, hi, n).Some? {
        SortedIfMerged(r, tx, n, lo, hi);
      }
      if Sorted(tx) {
        MergeIsMerged(r, tx, n, lo, hi, n);
        SettingAbelian(r);
        SharesMakeWhole(r.g, Parts(r, tx, ForkOf(r.forks, lo), n, lo), n);
        GoodForAll(r, tx, ForkOf(r.forks, lo), lo, n);
      }
    }
  }

  lemma SettingAbelian<P(!new)>(r: Rules<P>)
    requires Setting(r)
    ensures Abelian(r.g)
  {
    hide Abelian;
  }

  /** And for a single one. */
  lemma SingleOutcome<P(!new)>(r: Rules<P>, tx: Tx, lo: nat, hi: nat)
    requires Setting(r) && hi <= MAX_HEIGHT
    ensures Validate(r, tx, 1, 0, lo, hi) == Outcome(r, tx, 1, lo, hi)
  {
    hide Validate, GoodFrom, Share, Plus, Parts, ForkOf, ForkMax, AllGood, Setting, Sorted;
    if lo > hi {
      EmptyRange(r, tx, 1, lo, hi);
    } else {
      if Validate(r, tx, 1, 0, lo, hi).Some? {
        SortedIfAccepted(r, tx, lo, hi);
      }
      if Sorted(tx) {
        ValidateIsShare(r, tx, 1, 0, lo, hi);
        GoodForAll(r, tx, ForkOf(r.forks, lo), lo, 1);
        assert (forall v :: 0 <= v < 1 ==> GoodFrom(r, tx, ForkOf(r.forks, lo), lo, 1, v, 0)) <==>
          GoodFrom(r, tx, ForkOf(r.forks, lo), lo, 1, 0, 0);
      }
    }
  }

  /** An element is the same at two heights, where its kernel is valid with the same point at both. */
  lemma SameElement<P(!new)>(r: Rules<P>, tx: Tx, fork: nat, h: nat, h': nat, t: nat)
    requires t < Total(tx) && (t < |tx.ins| + |tx.outs| ==> h == h')
    requires IsKernel(tx, t) ==> r.krnValid(KernelAt(tx, t), h) == r.krnValid(KernelAt(tx, t), h')
    ensures Good(r, tx, fork, h, t) == Good(r, tx, fork, h', t) && Part(r, tx, fork, h, t) == Part(r, tx, fork, h', t)
  {
  }

  /** Two numbers of verifiers come to the same where each kernel is seen with the same validity. */
  lemma SameOutcome<P(!new)>(r: Rules<P>, tx: Tx, n: nat, m: nat, lo: nat, hi: nat)
    requires n > 0 && m > 0
    requires forall t :: 0 <= t < Total(tx) && IsKernel(tx, t) ==>
      r.krnValid(KernelAt(tx, t), SeenAt(tx, n, lo, t)) == r.krnValid(KernelAt(tx, t), SeenAt(tx, m, lo, t))
    ensures Outcome(r, tx, n, lo, hi) == Outcome(r, tx, m, lo, hi)
  {
    hide Good, Part, Narrowed, Share, Plus, ForkOf, Sorted;
    var fork := ForkOf(r.forks, lo);
    forall t | 0 <= t < Total(tx)
      ensures Good(r, tx, fork, SeenAt(tx, n, lo, t), t) == Good(r, tx, fork, SeenAt(tx, m, lo, t), t)
      ensures Part(r, tx, fork, SeenAt(tx, n, lo, t), t) == Part(r, tx, fork, SeenAt(tx, m, lo, t), t)
    {
      if t < |tx.ins| + |tx.outs| {
        NothingNarrowed(tx, n, t % n, t);
        NothingNarrowed(tx, m, t % m, t);
      }
      SameElement(r, tx, fork, SeenAt(tx, n, lo, t), SeenAt(tx, m, lo, t), t);
    }
    assert Parts(r, tx, fork, n, lo) == Parts(r, tx, fork, m, lo);
  }

  /** A part beyond the range leaves no heights. */
  lemma PartBeyond<P(!new)>(g: Group<P>, base: Sum<P>, parts: seq<Sum<P>>, t: nat)
    requires base.h.Between? && t < |parts| && parts[t].h.Between? && base.h.hi < parts[t].h.lo
    ensures Empty(Plus(g, base, Share(g, parts, 1, 0)).h)
  {
    assert t % 1 == 0;
    ShareNext(g, parts, 1, 0, t);
    var s := Share(g, parts[..t], 1, 0).h;
    assert Empty(Intersect(base.h, Intersect(s, parts[t].h)));
    EmptyStays(g, base, parts, 1, 0, t + 1);
  }

  lemma KernelBeyond<P(!new)>(r: Rules<P>, tx: Tx, n: nat, lo: nat, hi: nat, t: nat)
    requires n > 0 && IsKernel(tx, t) && Top(r.forks, lo, hi) < KernelAt(tx, t).lo
    ensures Outcome(r, tx, n, lo, hi).None?
  {
    hide Share, ForkOf, ForkMax, Narrowed, Sorted;
    var fork := ForkOf(r.forks, lo);
    if AllGood(r, tx, fork, n, lo) {
      assert Good(r, tx, fork, SeenAt(tx, n, lo, t), t);
      PartBeyond(r.g, Base(r, lo, hi), Parts(r, tx, fork, n, lo), t);
    }
  }

  /** For every number of verifiers: all accept and merge exactly when a single verifier accepts, with the same sigma,
      statistics and heights. */
  lemma ParallelIsSequential<P(!new)>(r: Rules<P>, tx: Tx, n: nat, lo: nat, hi: nat)
    requires Setting(r) && Steady(r.forks, tx, lo, Top(r.forks, lo, hi)) && n > 0 && hi <= MAX_HEIGHT
    ensures MergeAll(r, tx, n, lo, hi, n) == Validate(r, tx, 1, 0, lo, hi)
  {
    hide Validate, MergeAll, Outcome, ForkOf, Top;
    MergedOutcome(r, tx, n, lo, hi);
    SingleOutcome(r, tx, lo, hi);
    if s: nat :| s < |tx.krns| - 1 && tx.krns[s].lo >= MAX_HEIGHT && Top(r.forks, lo, hi) < MAX_HEIGHT {
      var t := |tx.ins| + |tx.outs| + s;
      assert KernelAt(tx, t) == tx.krns[s];
      KernelBeyond(r, tx, n, lo, hi, t);
      KernelBeyond(r, tx, 1, lo, hi, t);
    } else {
      forall t | 0 <= t < Total(tx) && IsKernel(tx, t)
        ensures r.krnValid(KernelAt(tx, t), SeenAt(tx, n, lo, t)) == r.krnValid(KernelAt(tx, t), SeenAt(tx, 1, lo, t))
      {
        SteadySeen(r, tx, n, lo, Top(r.forks, lo, hi), t);
        SteadySeen(r, tx, 1, lo, Top(r.forks, lo, hi), t);
      }
      SameOutcome(r, tx, n, 1, lo, hi);
    }
  }

  lemma SteadySeen<P(!new)>(r: Rules<P>, tx: Tx, n: nat, lo: nat, top: nat, t: nat)
    requires n > 0 && Setting(r) && Steady(r.forks, tx, lo, top) && IsKernel(tx, t)
    requires top < MAX_HEIGHT ==> forall s: nat :: s < |tx.krns| - 1 ==> tx.krns[s].lo < MAX_HEIGHT
    ensures r.krnValid(KernelAt(tx, t), SeenAt(tx, n, lo, t)) == r.krnValid(KernelAt(tx, t), lo)
  {
    hide ForkOf, Abelian, Ascending;
    if Narrowed(tx, n, t % n, t) {
      var s :| 0 <= s < t && IsKernel(tx, s) && s % n == t % n && KernelAt(tx, s).lo >= MAX_HEIGHT;
      assert KernelAt(tx, s) == tx.krns[s - |tx.ins| - |tx.outs|];
    }
  }

  lemma EmptyRange<P(!new)>(r: Rules<P>, tx: Tx, n: nat, lo: nat, hi: nat)
    requires n > 0 && lo > hi
    ensures MergeAll(r, tx, n, lo, hi, n).None? && Validate(r, tx, 1, 0, lo, hi).None?
  {
    assert Validate(r, tx, n, n - 1, lo, hi).None?;
  }
}
