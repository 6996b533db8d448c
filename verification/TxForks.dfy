/** Exactly when verifiers that share a transaction agree with a single one: the case of a kernel that starts at the largest
    height, where forks that are not in use begin. */
module TxForks {
  import opened Words
  import opened Group
  import opened TxValidation
  import opened TxParallel

  /** No input is also an output. */
  ghost predicate Separate(tx: Tx) {
    forall i :: 0 <= i < |tx.ins| ==> NoneEqual(tx.ins[i].commit, tx.outs)
  }

  /** Heights are 64-bit numbers. */
  predicate HeightsFit(tx: Tx) {
    forall i :: 0 <= i < |tx.krns| ==> tx.krns[i].lo <= MAX_HEIGHT && tx.krns[i].hi <= MAX_HEIGHT
  }

  /** A transaction that could pass, with a kernel that starts at the largest height before another kernel, for heights that
      reach it from a fork that it does not belong to. */
  ghost predicate Broken(forks: seq<nat>, tx: Tx, lo: nat, hi: nat) {
    && lo <= hi && !Steady(forks, tx, lo, Top(forks, lo, hi)) && Sorted(tx) && Separate(tx)
    && forall i :: 0 <= i < |tx.krns| ==> tx.krns[i].hi == MAX_HEIGHT
  }

  // ----- What an accepted run shows, whatever the heights -----

  /** The range h lies within the heights of all kernels before element s that verifier v of n takes. */
  ghost predicate Inside(tx: Tx, n: nat, v: nat, t: nat, s: nat, h: Heights)
    requires n > 0
  {
    h.Between? && forall q :: t <= q < s && IsKernel(tx, q) && q % n == v ==>
      KernelAt(tx, q).lo <= h.lo && h.hi <= KernelAt(tx, q).hi
  }

  lemma TakeNarrows<P(!new)>(r: Rules<P>, tx: Tx, fork: nat, t: nat, c: Ctx<P>)
    requires t < Total(tx) && c.sum.h.Between? && !Empty(c.sum.h) && TakeAt(r, tx, fork, t, c).Some?
    ensures
      var h := TakeAt(r, tx, fork, t, c).value.sum.h;
      && h.Between? && !Empty(h) && c.sum.h.lo <= h.lo && h.hi <= c.sum.h.hi
      && (IsKernel(tx, t) ==> KernelAt(tx, t).lo <= h.lo && h.hi <= KernelAt(tx, t).hi)
  {
  }

  lemma {:induction false} RunNarrows<P(!new)>(r: Rules<P>, tx: Tx, fork: nat, n: nat, v: nat, t: nat, c: Ctx<P>)
    requires t <= Total(tx) && c.sum.h.Between? && !Empty(c.sum.h) && Counter(c.iV, t, n, v) && Run(r, tx, fork, n, t, c).Some?
    ensures
      var h := Run(r, tx, fork, n, t, c).value.sum.h;
      !Empty(h) && Inside(tx, n, v, t, Total(tx), h) && c.sum.h.lo <= h.lo && h.hi <= c.sum.h.hi
    decreases Total(tx) - t
  {
    hide Plus, TakeAt;
    if t < Total(tx) {
      CounterStep(c.iV, t, n, v);
      if c.iV > 0 {
        RunNarrows(r, tx, fork, n, v, t + 1, c.(iV := c.iV - 1));
      } else {
        TakeNarrows(r, tx, fork, t, c);
        RunNarrows(r, tx, fork, n, v, t + 1, TakeAt(r, tx, fork, t, c).value.(iV := n - 1));
      }
    }
  }

  lemma ValidateNarrows<P(!new)>(r: Rules<P>, tx: Tx, n: nat, v: nat, lo: nat, hi: nat)
    requires v < n && hi <= MAX_HEIGHT && Ascending(r.forks) && Validate(r, tx, n, v, lo, hi).Some?
    ensures
      var h := Validate(r, tx, n, v, lo, hi).value.h;
      !Empty(h) && Inside(tx, n, v, 0, Total(tx), h) && h.hi <= MAX_HEIGHT
  {
    hide Run;
    CounterStart(n, v);
    BaseWithin(r, lo, hi);
    RunNarrows(r, tx, ForkOf(r.forks, lo), n, v, 0, Ctx(v, 0, Base(r, lo, hi)));
  }

  lemma {:induction false} MergeNarrows<P(!new)>(r: Rules<P>, tx: Tx, n: nat, lo: nat, hi: nat, k: nat)
    requires k <= n && n > 0 && hi <= MAX_HEIGHT && Ascending(r.forks) && MergeAll(r, tx, n, lo, hi, k).Some?
    ensures
      var h := MergeAll(r, tx, n, lo, hi, k).value.h;
      h.Between? && (k > 0 ==> !Empty(h)) && h.hi <= MAX_HEIGHT && forall v :: 0 <= v < k ==> Inside(tx, n, v, 0, Total(tx), h)
  {
    hide Validate;
    if k > 0 {
      MergeNarrows(r, tx, n, lo, hi, k - 1);
      ValidateNarrows(r, tx, n, k - 1, lo, hi);
      var m, x := MergeAll(r, tx, n, lo, hi, k - 1).value.h, Validate(r, tx, n, k - 1, lo, hi).value.h;
      var h := MergeAll(r, tx, n, lo, hi, k).value.h;
      forall v | 0 <= v < k
        ensures Inside(tx, n, v, 0, Total(tx), h)
      {
        Narrower(tx, n, v, if v < k - 1 then m else x, h);
      }
    }
  }

  lemma Narrower(tx: Tx, n: nat, v: nat, a: Heights, b: Heights)
    requires n > 0 && Inside(tx, n, v, 0, Total(tx), a) && b.Between? && a.lo <= b.lo && b.hi <= a.hi
    ensures Inside(tx, n, v, 0, Total(tx), b)
  {
  }

  /** All kernels fit the heights that are left, however many verifiers there are. */
  lemma AllInside<P(!new)>(r: Rules<P>, tx: Tx, n: nat, lo: nat, hi: nat, h: Heights, q: nat)
    requires n > 0 && q < |tx.krns| && forall v :: 0 <= v < n ==> Inside(tx, n, v, 0, Total(tx), h)
    ensures h.Between? && tx.krns[q].lo <= h.lo && h.hi <= tx.krns[q].hi
  {
    var s := |tx.ins| + |tx.outs| + q;
    assert Inside(tx, n, s % n, 0, Total(tx), h);
    assert KernelAt(tx, s) == tx.krns[q];
  }

  // ----- Inputs -----

  lemma {:induction false} RunSeparates<P(!new)>(r: Rules<P>, tx: Tx, fork: nat, n: nat, v: nat, t: nat, c: Ctx<P>)
    requires Sorted(tx) && t <= Total(tx) && c.sum.h.Between? && Counter(c.iV, t, n, v) && Run(r, tx, fork, n, t, c).Some?
    requires t < |tx.ins| ==> Below(tx.outs, c.out, tx.ins[t].commit)
    ensures forall s :: t <= s < |tx.ins| && s % n == v ==> NoneEqual(tx.ins[s].commit, tx.outs)
    decreases Total(tx) - t
  {
    if t < |tx.ins| {
      hide Plus, SkipBelow, NoneEqual;
      CounterStep(c.iV, t, n, v);
      if c.iV > 0 {
        RunSeparates(r, tx, fork, n, v, t + 1, c.(iV := c.iV - 1));
      } else {
        TakeIn(r, tx, t, c);
        RunSeparates(r, tx, fork, n, v, t + 1, TakeAt(r, tx, fork, t, c).value.(iV := n - 1));
      }
    }
  }

  lemma ValidateSeparates<P(!new)>(r: Rules<P>, tx: Tx, n: nat, v: nat, lo: nat, hi: nat)
    requires Sorted(tx) && v < n && Validate(r, tx, n, v, lo, hi).Some?
    ensures forall s :: 0 <= s < |tx.ins| && s % n == v ==> NoneEqual(tx.ins[s].commit, tx.outs)
  {
    hide Run;
    CounterStart(n, v);
    RunSeparates(r, tx, ForkOf(r.forks, lo), n, v, 0, Ctx(v, 0, Base(r, lo, hi)));
  }

  lemma SeparateIfMerged<P(!new)>(r: Rules<P>, tx: Tx, n: nat, lo: nat, hi: nat)
    requires Sorted(tx) && n > 0 && MergeAll(r, tx, n, lo, hi, n).Some?
    ensures Separate(tx)
  {
    hide Validate, MergeAll, NoneEqual;
    MergeNeedsAll(r, tx, n, lo, hi, n);
    forall i | 0 <= i < |tx.ins| ensures NoneEqual(tx.ins[i].commit, tx.outs) {
      ValidateSeparates(r, tx, n, i % n, lo, hi);
    }
  }

  // ----- Where they agree -----

  /** What is not broken but unsteady is refused by any number of verifiers. */
  lemma RefusedByAll<P(!new)>(r: Rules<P>, tx: Tx, n: nat, lo: nat, hi: nat)
    requires Setting(r) && n > 0 && hi <= MAX_HEIGHT && HeightsFit(tx)
    requires !Steady(r.forks, tx, lo, Top(r.forks, lo, hi)) && !Broken(r.forks, tx, lo, hi)
    ensures MergeAll(r, tx, n, lo, hi, n).None?
  {
    hide Validate, MergeAll, Inside, ForkOf, ForkMax, Sorted, Separate, Top, Setting;
    if lo > hi {
      EmptyRange(r, tx, n, lo, hi);
    } else if MergeAll(r, tx, n, lo, hi, n).Some? {
      SortedIfMerged(r, tx, n, lo, hi);
      SeparateIfMerged(r, tx, n, lo, hi);
      SettingAscends(r);
      MergeNarrows(r, tx, n, lo, hi, n);
      var h := MergeAll(r, tx, n, lo, hi, n).value.h;
      var i :| 0 <= i < |tx.krns| - 1 && tx.krns[i].lo >= MAX_HEIGHT;
      AllInside(r, tx, n, lo, hi, h, i);
      var q :| 0 <= q < |tx.krns| && tx.krns[q].hi != MAX_HEIGHT;
      AllInside(r, tx, n, lo, hi, h, q);
      assert false;
    }
  }

  lemma SettingAscends<P(!new)>(r: Rules<P>)
    requires Setting(r)
    ensures Ascending(r.forks)
  {
    hide Ascending;
  }

  /** A single verifier merged with none. */
  lemma MergeSingle<P(!new)>(r: Rules<P>, tx: Tx, lo: nat, hi: nat)
    requires Ascending(r.forks) && hi <= MAX_HEIGHT && Validate(r, tx, 1, 0, lo, hi).Some?
    ensures MergeAll(r, tx, 1, lo, hi, 1).Some?
  {
    ValidateNarrows(r, tx, 1, 0, lo, hi);
    var h := Validate(r, tx, 1, 0, lo, hi).value.h;
    assert lo <= h.lo && h.hi <= hi by {
      CounterStart(1, 0);
      BaseWithin(r, lo, hi);
      hide Run;
      RunNarrows(r, tx, ForkOf(r.forks, lo), 1, 0, 0, Ctx(0, 0, Base(r, lo, hi)));
    }
    hide Validate;
    assert MergeAll(r, tx, 1, lo, hi, 0) == Some(Sum(r.g.zero, multiset{}, Between(lo, hi)));
  }

  /** For every number of verifiers, on every transaction that is not broken. */
  lemma ParallelUnlessBroken<P(!new)>(r: Rules<P>, tx: Tx, n: nat, lo: nat, hi: nat)
    requires Setting(r) && n > 0 && hi <= MAX_HEIGHT && HeightsFit(tx) && !Broken(r.forks, tx, lo, hi)
    ensures MergeAll(r, tx, n, lo, hi, n) == Validate(r, tx, 1, 0, lo, hi)
  {
    hide Setting, MergeAll, Validate, Top, Sorted, Separate, HeightsFit, Broken, Steady;
    if Steady(r.forks, tx, lo, Top(r.forks, lo, hi)) {
      ParallelIsSequential(r, tx, n, lo, hi);
    } else {
      RefusedByAll(r, tx, n, lo, hi);
      RefusedByAll(r, tx, 1, lo, hi);
      if Validate(r, tx, 1, 0, lo, hi).Some? {
        SettingAscends(r);
        MergeSingle(r, tx, lo, hi);
      }
    }
  }

  // ----- Where they do not -----

  /** Rules that accept everything, but the given kernel only in the fork of a given height. */
  function Picky<P(!new)>(g: Group<P>, forks: seq<nat>, bad: Kernel, h0: nat): Rules<P> {
    Rules(g, g.zero, forks, MAX_HEIGHT, true, (c: nat) => Some(g.zero), (o: Output, h: nat) => Some(g.zero),
          (k: Kernel, h: nat) => if k == bad && ForkOf(forks, h) != ForkOf(forks, h0) then None else Some(g.zero),
          (a: Kernel, b: Kernel) => false)
  }

  lemma PickySetting<P(!new)>(g: Group<P>, forks: seq<nat>, bad: Kernel, h0: nat)
    requires Abelian(g) && Ascending(forks)
    ensures Setting(Picky(g, forks, bad, h0))
  {
    hide Abelian, Ascending, ForkOf;
  }

  /** A verifier that passes over all that is left. */
  lemma {:induction false} PassesOver<P(!new)>(r: Rules<P>, tx: Tx, fork: nat, n: nat, t: nat, c: Ctx<P>)
    requires n > 0 && t <= Total(tx) && c.sum.h.Between? && c.iV >= Total(tx) - t
    ensures Run(r, tx, fork, n, t, c) == Some(c.(iV := c.iV - (Total(tx) - t)))
    decreases Total(tx) - t
  {
    hide TakeAt;
    if t < Total(tx) {
      PassesOver(r, tx, fork, n, t + 1, c.(iV := c.iV - 1));
    }
  }

  /** With as many verifiers as elements, each takes one element, from the state it starts in. */
  lemma {:induction false} TakesOne<P(!new)>(r: Rules<P>, tx: Tx, fork: nat, t: nat, v: nat, c: Ctx<P>)
    requires t <= v < Total(tx) && c.sum.h.Between? && c.iV == v - t && TakeAt(r, tx, fork, v, c.(iV := 0)).Some?
    ensures Run(r, tx, fork, Total(tx), t, c).Some?
    ensures Run(r, tx, fork, Total(tx), t, c).value.sum == TakeAt(r, tx, fork, v, c.(iV := 0)).value.sum
    decreases v - t
  {
    hide TakeAt;
    if t < v {
      TakesOne(r, tx, fork, t + 1, v, c.(iV := c.iV - 1));
    } else {
      assert c.(iV := 0) == c;
      var c' := TakeAt(r, tx, fork, t, c).value.(iV := Total(tx) - 1);
      TakeKeepsRange(r, tx, fork, t, c);
      PassesOver(r, tx, fork, Total(tx), t + 1, c');
    }
  }

  /** From the start, each element of a broken transaction passes by itself. */
  lemma FirstPasses<P(!new)>(g: Group<P>, forks: seq<nat>, tx: Tx, bad: Kernel, lo: nat, v: nat)
    requires Sorted(tx) && Separate(tx) && HeightsFit(tx) && v < Total(tx) && lo <= MAX_HEIGHT
    requires forall i :: 0 <= i < |tx.krns| ==> tx.krns[i].hi == MAX_HEIGHT
    ensures
      var x := TakeAt(Picky(g, forks, bad, lo), tx, ForkOf(forks, lo), v, Ctx(0, 0, Sum(g.zero, multiset{}, Between(lo, MAX_HEIGHT))));
      x.Some? && x.value.sum.h.Between? && x.value.sum.h.lo <= MAX_HEIGHT == x.value.sum.h.hi
  {
    if v < |tx.ins| {
      var r := Picky(g, forks, bad, lo);
      TakeIn(r, tx, v, Ctx(0, 0, Nothing(g)));
    }
  }

  lemma AlonePasses<P(!new)>(g: Group<P>, forks: seq<nat>, tx: Tx, bad: Kernel, lo: nat, v: nat)
    requires Ascending(forks) && Broken(forks, tx, lo, MAX_HEIGHT) && HeightsFit(tx) && v < Total(tx)
    ensures
      var x := Validate(Picky(g, forks, bad, lo), tx, Total(tx), v, lo, MAX_HEIGHT);
      x.Some? && x.value.h.Between? && x.value.h.lo <= MAX_HEIGHT == x.value.h.hi
  {
    var r := Picky(g, forks, bad, lo);
    assert Top(forks, lo, MAX_HEIGHT) == MAX_HEIGHT;
    hide Run, TakeAt, Sorted, Separate, HeightsFit, Steady, ForkOf, Picky;
    FirstPasses(g, forks, tx, bad, lo, v);
    PickyGroup(g, forks, bad, lo);
    var c := Ctx(v, 0, Sum(g.zero, multiset{}, Between(lo, MAX_HEIGHT)));
    assert c.(iV := 0) == Ctx(0, 0, c.sum);
    TakesOne(r, tx, ForkOf(forks, lo), 0, v, c);
  }

  lemma PickyGroup<P(!new)>(g: Group<P>, forks: seq<nat>, bad: Kernel, h0: nat)
    ensures Picky(g, forks, bad, h0).g == g && Picky(g, forks, bad, h0).forks == forks
  {
  }

  lemma {:induction false} TogetherPass<P(!new)>(g: Group<P>, forks: seq<nat>, tx: Tx, bad: Kernel, lo: nat, k: nat)
    requires Ascending(forks) && Broken(forks, tx, lo, MAX_HEIGHT) && HeightsFit(tx) && k <= Total(tx)
    ensures
      var x := MergeAll(Picky(g, forks, bad, lo), tx, Total(tx), lo, MAX_HEIGHT, k);
      x.Some? && x.value.h.Between? && x.value.h.lo <= MAX_HEIGHT == x.value.h.hi
  {
    hide Validate, Broken, HeightsFit, Picky;
    if k > 0 {
      AlonePasses(g, forks, tx, bad, lo, k - 1);
      TogetherPass(g, forks, tx, bad, lo, k - 1);
    } else {
      assert lo <= MAX_HEIGHT by { BrokenRange(forks, tx, lo, MAX_HEIGHT); }
    }
  }

  lemma BrokenRange(forks: seq<nat>, tx: Tx, lo: nat, hi: nat)
    requires Broken(forks, tx, lo, hi)
    ensures lo <= hi
  {
  }

  /** The state in which a single verifier that accepts takes element s. */
  lemma {:induction false} Reaches<P(!new)>(r: Rules<P>, tx: Tx, fork: nat, t: nat, s: nat, c: Ctx<P>) returns (c': Ctx<P>)
    requires t <= s < Total(tx) && c.sum.h.Between? && !Empty(c.sum.h) && c.iV == 0 && Run(r, tx, fork, 1, t, c).Some?
    ensures c'.sum.h.Between? && !Empty(c'.sum.h) && c'.sum.h.hi <= c.sum.h.hi && c.sum.h.lo <= c'.sum.h.lo
    ensures Inside(tx, 1, 0, t, s, c'.sum.h) && TakeAt(r, tx, fork, s, c').Some?
    decreases s - t
  {
    hide TakeAt;
    if t < s {
      TakeNarrows(r, tx, fork, t, c);
      c' := Reaches(r, tx, fork, t + 1, s, TakeAt(r, tx, fork, t, c).value.(iV := 0));
    } else {
      c' := c;
    }
  }

  /** A single verifier comes to the last kernel with the largest height, and refuses it. */
  lemma SingleRefuses<P(!new)>(g: Group<P>, forks: seq<nat>, tx: Tx, lo: nat)
    requires Ascending(forks) && Broken(forks, tx, lo, MAX_HEIGHT)
    ensures Validate(Picky(g, forks, tx.krns[|tx.krns| - 1], lo), tx, 1, 0, lo, MAX_HEIGHT).None?
  {
    var bad := tx.krns[|tx.krns| - 1];
    var r := Picky(g, forks, bad, lo);
    if Validate(r, tx, 1, 0, lo, MAX_HEIGHT).Some? {
      assert Top(forks, lo, MAX_HEIGHT) == MAX_HEIGHT;
      var i :| 0 <= i < |tx.krns| - 1 && tx.krns[i].lo >= MAX_HEIGHT;
      hide Run, Sorted, Separate;
      var s := Total(tx) - 2;
      var c := Reaches(r, tx, ForkOf(forks, lo), 0, s, Ctx(0, 0, Sum(g.zero, multiset{}, Between(lo, MAX_HEIGHT))));
      AtTheTop(tx, c.sum.h, i);
      assert false;
    }
  }

  lemma AtTheTop(tx: Tx, h: Heights, i: nat)
    requires i < |tx.krns| - 1 && Inside(tx, 1, 0, 0, Total(tx) - 2, h) && !Empty(h) && h.hi <= MAX_HEIGHT <= tx.krns[i].lo
    ensures h.lo == MAX_HEIGHT
  {
    var q := |tx.ins| + |tx.outs| + i;
    assert KernelAt(tx, q) == tx.krns[i] && q % 1 == 0;
  }

  /** On every broken transaction there are rules under which several verifiers accept what a single one refuses. */
  lemma BrokenDiffers<P(!new)>(g: Group<P>, forks: seq<nat>, tx: Tx, lo: nat)
    requires Abelian(g) && Ascending(forks) && Broken(forks, tx, lo, MAX_HEIGHT) && HeightsFit(tx)
    ensures
      var r := Picky(g, forks, tx.krns[|tx.krns| - 1], lo);
      && Setting(r) && Validate(r, tx, 1, 0, lo, MAX_HEIGHT).None?
      && MergeAll(r, tx, Total(tx), lo, MAX_HEIGHT, Total(tx)).Some?
  {
    var bad := tx.krns[|tx.krns| - 1];
    hide Validate, Broken, HeightsFit, Picky, MergeAll, Setting;
    PickySetting(g, forks, bad, lo);
    SingleRefuses(g, forks, tx, lo);
    TogetherPass(g, forks, tx, bad, lo, Total(tx));
  }

  /** The result of any number of verifiers is that of one, whatever the rules with these forks and this group. */
  ghost predicate AlwaysSame<P(!new)>(g: Group<P>, forks: seq<nat>, tx: Tx, lo: nat, hi: nat) {
    forall r: Rules<P>, n: nat :: Setting(r) && r.g == g && r.forks == forks && n > 0 ==>
      MergeAll(r, tx, n, lo, hi, n) == Validate(r, tx, 1, 0, lo, hi)
  }

  /** Verifiers that share a transaction agree with a single one exactly when it is not broken. */
  lemma ParallelIff<P(!new)>(g: Group<P>, forks: seq<nat>, tx: Tx, lo: nat, hi: nat)
    requires Abelian(g) && Ascending(forks) && HeightsFit(tx) && hi <= MAX_HEIGHT
    ensures AlwaysSame(g, forks, tx, lo, hi) <==> !Broken(forks, tx, lo, hi)
  {
    if Broken(forks, tx, lo, hi) {
      BrokenTop(forks, tx, lo, hi);
      BrokenDiffers(g, forks, tx, lo);
      var r := Picky(g, forks, tx.krns[|tx.krns| - 1], lo);
      hide Validate, Broken, HeightsFit, MergeAll, Setting, Abelian, Ascending;
      assert MergeAll(r, tx, Total(tx), lo, hi, Total(tx)) != Validate(r, tx, 1, 0, lo, hi);
    } else {
      hide Validate, Broken, HeightsFit, MergeAll, Setting, Abelian, Ascending;
      forall r: Rules<P>, n: nat | Setting(r) && r.g == g && r.forks == forks && n > 0
        ensures MergeAll(r, tx, n, lo, hi, n) == Validate(r, tx, 1, 0, lo, hi)
      {
        ParallelUnlessBroken(r, tx, n, lo, hi);
      }
    }
  }

  lemma BrokenTop(forks: seq<nat>, tx: Tx, lo: nat, hi: nat)
    requires Broken(forks, tx, lo, hi) && hi <= MAX_HEIGHT
    ensures hi == MAX_HEIGHT && tx.krns != []
  {
  }

  /** Two kernels, the first from the largest height on, with a fork that is not in use. */
  lemma BrokenExample()
    ensures Broken([0, MAX_HEIGHT], Tx([], [], [Kernel(1, MAX_HEIGHT, MAX_HEIGHT), Kernel(2, 0, MAX_HEIGHT)], 0), 0, MAX_HEIGHT)
  {
    var tx := Tx([], [], [Kernel(1, MAX_HEIGHT, MAX_HEIGHT), Kernel(2, 0, MAX_HEIGHT)], 0);
    var forks := [0, MAX_HEIGHT];
    assert FindFork(forks, 0, 1) == 0;
    assert ForkOf(forks, 0) == 0 && ForkOf(forks, MAX_HEIGHT) == 1;
    assert tx.krns[0].lo >= MAX_HEIGHT;
  }
}
