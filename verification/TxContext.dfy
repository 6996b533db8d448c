/** The validation context as an object that one verifier updates element by element. */
module TxContext {
  import opened Words
  import opened Group
  import opened TxValidation

  // ----- Sums that a context already holds -----

  function Onto<P(!new)>(g: Group<P>, sigma: P, stats: multiset<Item>, x: Sum<P>): Sum<P> {
    Sum(g.add(sigma, x.sigma), stats + x.stats, x.h)
  }

  lemma OntoPlus<P(!new)>(g: Group<P>, sigma: P, stats: multiset<Item>, x: Sum<P>, y: Sum<P>)
    requires Abelian(g)
    ensures Plus(g, Onto(g, sigma, stats, x), y) == Onto(g, sigma, stats, Plus(g, x, y))
  {
    hide Abelian;
    Assoc(g, sigma, x.sigma, y.sigma);
    assert (stats + x.stats) + y.stats == stats + (x.stats + y.stats);
  }

  lemma TakeOnto<P(!new)>(r: Rules<P>, tx: Tx, fork: nat, t: nat, c: Ctx<P>, sigma: P, stats: multiset<Item>)
    requires Abelian(r.g) && t < Total(tx) && c.sum.h.Between?
    ensures
      var x := TakeAt(r, tx, fork, t, c);
      TakeAt(r, tx, fork, t, c.(sum := Onto(r.g, sigma, stats, c.sum))) ==
      if x.None? then None else Some(x.value.(sum := Onto(r.g, sigma, stats, x.value.sum)))
  {
    hide Abelian, Plus, Mul, TakeInput, TakeOutput, TakeKernel;
    forall y: Sum<P> {
      OntoPlus(r.g, sigma, stats, c.sum, y);
    }
    if TakeAt(r, tx, fork, t, c).Some? {
      TakeKeepsRange(r, tx, fork, t, c);
    }
  }

  /** Validation adds to what is there and does not look at it. */
  lemma {:induction false} RunOnto<P(!new)>(r: Rules<P>, tx: Tx, fork: nat, n: nat, t: nat, c: Ctx<P>, sigma: P,
                                            stats: multiset<Item>)
    requires Abelian(r.g) && n > 0 && t <= Total(tx) && c.sum.h.Between?
    ensures
      var x := Run(r, tx, fork, n, t, c);
      Run(r, tx, fork, n, t, c.(sum := Onto(r.g, sigma, stats, c.sum))) ==
      if x.None? then None else Some(x.value.(sum := Onto(r.g, sigma, stats, x.value.sum)))
    decreases Total(tx) - t
  {
    hide Abelian, TakeAt;
    if t < Total(tx) {
      TakeOnto(r, tx, fork, t, c, sigma, stats);
      if c.iV > 0 {
        RunOnto(r, tx, fork, n, t + 1, c.(iV := c.iV - 1), sigma, stats);
      } else if TakeAt(r, tx, fork, t, c).Some? {
        TakeKeepsRange(r, tx, fork, t, c);
        RunOnto(r, tx, fork, n, t + 1, TakeAt(r, tx, fork, t, c).value.(iV := n - 1), sigma, stats);
      }
    }
  }

  class Context<P(!new)> {
    const r: Rules<P>
    const verifiers: nat
    const me: nat
    var sigma: P
    var stats: multiset<Item>
    var lo: nat
    var hi: nat

    ghost function Value(): Sum<P>
      reads this
    {
      Sum(sigma, stats, Between(lo, hi))
    }

    constructor (r: Rules<P>, verifiers: nat, me: nat, lo: nat, hi: nat)
      requires me < verifiers
      ensures this.r == r && this.verifiers == verifiers && this.me == me
      ensures Value() == Sum(r.g.zero, multiset{}, Between(lo, hi))
    {
      this.r, this.verifiers, this.me, sigma, stats, this.lo, this.hi := r, verifiers, me, r.g.zero, multiset{}, lo, hi;
    }

    /** `HandleElementHeight` */
    method HandleElementHeight(from: nat, to: nat) returns (ok: bool)
      modifies this`lo, this`hi
      ensures Between(lo, hi) == Intersect(old(Between(lo, hi)), Between(from, to))
      ensures ok == !Empty(Between(lo, hi))
    {
      if lo < from {
        lo := from;
      }
      if to < hi {
        hi := to;
      }
      ok := lo <= hi;
    }

    /** `Merge` */
    method Merge(x: Sum<P>) returns (ok: bool)
      requires x.h.Between?
      modifies this
      ensures ok == !Empty(Intersect(old(Value()).h, x.h))
      ensures ok ==> Value() == Plus(r.g, old(Value()), x)
    {
      ok := HandleElementHeight(x.h.lo, x.h.hi);
      if ok {
        sigma := r.g.add(sigma, x.sigma);
        stats := stats + x.stats;
      }
    }

    /** `ValidateAndSummarize`: what the elements sum up to is added to what the context already holds. */
    method ValidateAndSummarize(tx: Tx) returns (ok: bool)
      requires Abelian(r.g) && me < verifiers
      modifies this
      ensures
        var x := Validate(r, tx, verifiers, me, old(lo), old(hi));
        ok == x.Some? && (ok ==> Value() == Onto(r.g, old(sigma), old(stats), x.value))
    {
      hide Abelian, Run, Mul;
      if lo > hi {
        return false;
      }
      var fork := ForkOf(r.forks, lo);
      if ForkMax(r.forks, fork) < hi {
        hi := ForkMax(r.forks, fork);
      }
      hide ForkOf, ForkMax;
      ghost var all := Run(r, tx, fork, verifiers, 0, Ctx(me, 0, Value()));
      var iV: nat := me;
      StartsOnto(tx, fork, lo, hi, sigma, stats);
      NegNeg(r.g, sigma);
      sigma := r.g.neg(sigma);
      var out;
      ok, iV, out := Inputs(tx, fork, iV, all);
      if !ok {
        return;
      }
      sigma := r.g.neg(sigma);
      ok, iV := Outputs(tx, fork, iV, out, all);
      if !ok {
        return;
      }
      ok, iV := Kernels(tx, fork, iV, out, all);
      if !ok {
        return;
      }
      LastElement(tx, fork, iV, out, Value());
      if iV == 0 {
        if tx.offset != 0 {
          sigma := r.g.add(sigma, Mul(r.g, tx.offset, r.gen));
        } else {
          Zero(r.g, sigma);
          MulSmall(r.g, r.gen);
        }
      }
    }

    lemma StartsOnto(tx: Tx, fork: nat, lo: nat, hi: nat, sigma: P, stats: multiset<Item>)
      requires Abelian(r.g) && verifiers > 0
      ensures
        var x := Run(r, tx, fork, verifiers, 0, Ctx(me, 0, Sum(r.g.zero, multiset{}, Between(lo, hi))));
        Run(r, tx, fork, verifiers, 0, Ctx(me, 0, Sum(sigma, stats, Between(lo, hi)))) ==
        if x.None? then None else Some(x.value.(sum := Onto(r.g, sigma, stats, x.value.sum)))
    {
      hide Run, Abelian;
      var c := Ctx(me, 0, Sum(r.g.zero, multiset{}, Between(lo, hi)));
      RunOnto(r, tx, fork, verifiers, 0, c, sigma, stats);
      Zero(r.g, sigma);
      assert stats + multiset{} == stats;
    }

    ghost predicate Rest(tx: Tx, fork: nat, t: nat, iV: nat, out: nat, sum: Sum<P>, all: Option<Ctx<P>>)
      requires t <= Total(tx) && sum.h.Between? && verifiers > 0
    {
      Run(r, tx, fork, verifiers, t, Ctx(iV, out, sum)) == all
    }

    /** The offset is the last element. */
    lemma LastElement(tx: Tx, fork: nat, iV: nat, out: nat, sum: Sum<P>)
      requires verifiers > 0 && sum.h.Between?
      ensures
        var x := Run(r, tx, fork, verifiers, Total(tx) - 1, Ctx(iV, out, sum));
        && x.Some?
        && x.value.sum == if iV == 0 then sum.(sigma := r.g.add(sum.sigma, Mul(r.g, tx.offset, r.gen))) else sum
    {
      hide Mul;
    }

    method Inputs(tx: Tx, fork: nat, iV0: nat, ghost all: Option<Ctx<P>>) returns (ok: bool, iV: nat, out: nat)
      requires Abelian(r.g) && verifiers > 0
      requires Rest(tx, fork, 0, iV0, 0, Sum(r.g.neg(sigma), stats, Between(lo, hi)), all)
      modifies this`sigma, this`stats
      ensures !ok ==> all.None?
      ensures ok ==> Rest(tx, fork, |tx.ins|, iV, out, Sum(r.g.neg(sigma), stats, Between(lo, hi)), all)
    {
      hide Abelian, SkipBelow;
      iV, out := iV0, 0;
      var i := 0;
      while i < |tx.ins|
        invariant 0 <= i <= |tx.ins|
        invariant Rest(tx, fork, i, iV, out, Sum(r.g.neg(sigma), stats, Between(lo, hi)), all)
      {
        var take, next := ShouldVerify(iV, verifiers).0, ShouldVerify(iV, verifiers).1;
        if take {
          var x := tx.ins[i];
          if i > 0 && tx.ins[i - 1].commit > x.commit {
            return false, iV, out;
          }
          var found;
          found, out := SkipOutputs(x.commit, tx.outs, out);
          if found {
            return false, iV, out;
          }
          var pt := r.imported(x.commit);
          if pt.None? {
            return false, iV, out;
          }
          NegPlus(r.g, sigma, pt.value);
          stats := stats + multiset{In(x)};
          sigma := r.g.add(sigma, pt.value);
        }
        iV := next;
        i := i + 1;
      }
      ok := true;
    }

    method Outputs(tx: Tx, fork: nat, iV0: nat, ghost out: nat, ghost all: Option<Ctx<P>>) returns (ok: bool, iV: nat)
      requires verifiers > 0 && Rest(tx, fork, |tx.ins|, iV0, out, Value(), all)
      modifies this`sigma, this`stats
      ensures !ok ==> all.None?
      ensures ok ==> Rest(tx, fork, |tx.ins| + |tx.outs|, iV, out, Value(), all)
    {
      iV := iV0;
      var i := 0;
      while i < |tx.outs|
        invariant 0 <= i <= |tx.outs|
        invariant Rest(tx, fork, |tx.ins| + i, iV, out, Value(), all)
      {
        var take, next := ShouldVerify(iV, verifiers).0, ShouldVerify(iV, verifiers).1;
        if take {
          var x := TakeOutput(r, tx, i, lo);
          if x.None? {
            return false, iV;
          }
          stats := stats + x.value.stats;
          sigma := r.g.add(sigma, x.value.sigma);
        }
        iV := next;
        i := i + 1;
      }
      ok := true;
    }

    method Kernels(tx: Tx, fork: nat, iV0: nat, ghost out: nat, ghost all: Option<Ctx<P>>) returns (ok: bool, iV: nat)
      requires verifiers > 0 && Rest(tx, fork, |tx.ins| + |tx.outs|, iV0, out, Value(), all)
      modifies this`sigma, this`stats, this`lo, this`hi
      ensures !ok ==> all.None?
      ensures ok ==> Rest(tx, fork, Total(tx) - 1, iV, out, Value(), all)
    {
      iV := iV0;
      var i := 0;
      while i < |tx.krns|
        invariant 0 <= i <= |tx.krns|
        invariant Rest(tx, fork, |tx.ins| + |tx.outs| + i, iV, out, Value(), all)
      {
        var take, next := ShouldVerify(iV, verifiers).0, ShouldVerify(iV, verifiers).1;
        if take {
          var x := TakeKernel(r, tx, i, lo, fork);
          if x.None? {
            return false, iV;
          }
          var fits := HandleElementHeight(x.value.h.lo, x.value.h.hi);
          if !fits {
            return false, iV;
          }
          stats := stats + x.value.stats;
          sigma := r.g.add(sigma, x.value.sigma);
        }
        iV := next;
        i := i + 1;
      }
      ok := true;
    }
  }

  /** The inner loop over outputs. */
  method SkipOutputs(commit: nat, outs: seq<Output>, from: nat) returns (found: bool, j: nat)
    ensures SkipBelow(commit, outs, from) == if found then None else Some(j)
  {
    j := from;
    while j < |outs|
      invariant SkipBelow(commit, outs, from) == SkipBelow(commit, outs, j)
    {
      if commit < outs[j].commit {
        break;
      }
      if commit == outs[j].commit {
        return true, j;
      }
      j := j + 1;
    }
    found := false;
  }
}
