/** For given rules: exactly when verifiers that share a transaction agree with a single one. */
module TxRules {
  import Arith
  import opened Words
  import opened Group
  import opened TxValidation
  import opened TxParallel

  /** The kernel is valid at the largest height as it is at the first height of the range, with the same point. */
  ghost predicate SameBoth<P(!new)>(r: Rules<P>, k: Kernel, lo: nat) {
    r.krnValid(k, lo) == r.krnValid(k, MAX_HEIGHT)
  }

  /** So is every kernel after one that starts at the largest height. */
  ghost predicate LaterSame<P(!new)>(r: Rules<P>, tx: Tx, lo: nat) {
    forall i, j :: 0 <= i < j < |tx.krns| && tx.krns[i].lo >= MAX_HEIGHT ==> SameBoth(r, tx.krns[j], lo)
  }

  /** The result of any number of verifiers is that of one. */
  ghost predicate SameForAll<P(!new)>(r: Rules<P>, tx: Tx, lo: nat, hi: nat) {
    forall n: nat :: n > 0 ==> MergeAll(r, tx, n, lo, hi, n) == Validate(r, tx, 1, 0, lo, hi)
  }

  // ----- Where they agree -----

  lemma LaterSameSeen<P(!new)>(r: Rules<P>, tx: Tx, n: nat, lo: nat, t: nat)
    requires n > 0 && LaterSame(r, tx, lo) && IsKernel(tx, t)
    ensures r.krnValid(KernelAt(tx, t), SeenAt(tx, n, lo, t)) == r.krnValid(KernelAt(tx, t), lo)
  {
    if Narrowed(tx, n, t % n, t) {
      var s :| 0 <= s < t && IsKernel(tx, s) && s % n == t % n && KernelAt(tx, s).lo >= MAX_HEIGHT;
      var first := |tx.ins| + |tx.outs|;
      assert tx.krns[s - first].lo >= MAX_HEIGHT;
      assert SameBoth(r, tx.krns[t - first], lo);
    }
  }

  lemma SameIfLaterSame<P(!new)>(r: Rules<P>, tx: Tx, lo: nat, hi: nat, n: nat)
    requires Setting(r) && hi <= MAX_HEIGHT && LaterSame(r, tx, lo) && n > 0
    ensures MergeAll(r, tx, n, lo, hi, n) == Validate(r, tx, 1, 0, lo, hi)
  {
    hide Validate, MergeAll, Outcome, LaterSame, SeenAt, Setting;
    MergedOutcome(r, tx, n, lo, hi);
    SingleOutcome(r, tx, lo, hi);
    forall t | 0 <= t < Total(tx) && IsKernel(tx, t)
      ensures r.krnValid(KernelAt(tx, t), SeenAt(tx, n, lo, t)) == r.krnValid(KernelAt(tx, t), SeenAt(tx, 1, lo, t))
    {
      LaterSameSeen(r, tx, n, lo, t);
      LaterSameSeen(r, tx, 1, lo, t);
    }
    SameOutcome(r, tx, n, 1, lo, hi);
  }

  // ----- Where they do not -----

  /** With one element each, no verifier has narrowed anything before. */
  lemma AloneSeen(tx: Tx, lo: nat, t: nat)
    requires t < Total(tx)
    ensures SeenAt(tx, Total(tx), lo, t) == lo
  {
    forall s | 0 <= s < t ensures s % Total(tx) != t % Total(tx) {
      Arith.ModSmall(s, Total(tx));
      Arith.ModSmall(t, Total(tx));
    }
  }

  lemma {:induction false} FirstAtTop(tx: Tx, k: nat) returns (i: nat)
    requires k < |tx.krns| && tx.krns[k].lo >= MAX_HEIGHT
    ensures i <= k && tx.krns[i].lo >= MAX_HEIGHT && forall q :: 0 <= q < i ==> tx.krns[q].lo < MAX_HEIGHT
    decreases k
  {
    if q: nat :| q < k && tx.krns[q].lo >= MAX_HEIGHT {
      i := FirstAtTop(tx, q);
    } else {
      i := k;
    }
  }

  lemma {:induction false} LastDifferent<P(!new)>(r: Rules<P>, tx: Tx, lo: nat, k: nat) returns (j: nat)
    requires k < |tx.krns| && !SameBoth(r, tx.krns[k], lo)
    ensures k <= j < |tx.krns| && !SameBoth(r, tx.krns[j], lo) && forall q :: j < q < |tx.krns| ==> SameBoth(r, tx.krns[q], lo)
    decreases |tx.krns| - k
  {
    if q: nat :| k < q < |tx.krns| && !SameBoth(r, tx.krns[q], lo) {
      j := LastDifferent(r, tx, lo, q);
    } else {
      j := k;
    }
  }

  /** With a verifier for every step from the first kernel at the top to the last one that differs, that one alone is seen otherwise. */
  lemma OnlyOneSeen<P(!new)>(r: Rules<P>, tx: Tx, lo: nat, i: nat, j: nat, t: nat)
    requires i < j < |tx.krns| && (forall q :: 0 <= q < i ==> tx.krns[q].lo < MAX_HEIGHT) && tx.krns[i].lo >= MAX_HEIGHT
    requires (forall q :: j < q < |tx.krns| ==> SameBoth(r, tx.krns[q], lo)) && IsKernel(tx, t)
    ensures
      var at := |tx.ins| + |tx.outs| + j;
      if t == at then SeenAt(tx, j - i, lo, t) == MAX_HEIGHT
      else r.krnValid(KernelAt(tx, t), SeenAt(tx, j - i, lo, t)) == r.krnValid(KernelAt(tx, t), lo)
  {
    var first, n := |tx.ins| + |tx.outs|, j - i;
    if t == first + j {
      var s := first + i;
      assert KernelAt(tx, s) == tx.krns[i];
      Arith.ModAddMultiple(s, 1, n);
      assert s % n == t % n;
    } else if Narrowed(tx, n, t % n, t) {
      var s :| 0 <= s < t && IsKernel(tx, s) && s % n == t % n && KernelAt(tx, s).lo >= MAX_HEIGHT;
      assert tx.krns[s - first].lo >= MAX_HEIGHT;
      StepsApart(s, t, n);
      assert SameBoth(r, tx.krns[t - first], lo);
    }
  }

  lemma StepsApart(s: nat, t: nat, n: nat)
    requires n > 0 && s < t && s % n == t % n
    ensures s + n <= t
  {
    Arith.DivMod(s, n);
    Arith.DivMod(t, n);
    if t / n <= s / n {
      Arith.MulMono(t / n, s / n, n);
    } else {
      Arith.MulMono(s / n + 1, t / n, n);
      assert (s / n + 1) * n == s / n * n + n;
    }
  }

  /** One part exchanged for another. */
  lemma {:induction false} ShareChanged<P(!new)>(g: Group<P>, parts: seq<Sum<P>>, t: nat, x: Sum<P>)
    requires Abelian(g) && t < |parts|
    ensures g.add(Share(g, parts[t := x], 1, 0).sigma, parts[t].sigma) == g.add(Share(g, parts, 1, 0).sigma, x.sigma)
  {
    hide Abelian;
    var n := |parts| - 1;
    var init, last := parts[..n], parts[n];
    assert n % 1 == 0;
    if t == n {
      assert parts[t := x][..n] == init;
      var a := Share(g, init, 1, 0).sigma;
      Exchanged(g, a, x.sigma, last.sigma);
    } else {
      assert parts[t := x][..n] == init[t := x];
      ShareChanged(g, init, t, x);
      var a, a' := Share(g, init, 1, 0).sigma, Share(g, init[t := x], 1, 0).sigma;
      Exchanged(g, a', last.sigma, parts[t].sigma);
      Exchanged(g, a, last.sigma, x.sigma);
    }
  }

  lemma Exchanged<P(!new)>(g: Group<P>, a: P, b: P, c: P)
    requires Abelian(g)
    ensures g.add(g.add(a, b), c) == g.add(g.add(a, c), b)
  {
    hide Abelian;
    Assoc(g, a, b, c);
    Comm(g, b, c);
    Assoc(g, a, c, b);
  }

  lemma DifferentSums<P(!new)>(g: Group<P>, base: Sum<P>, parts: seq<Sum<P>>, t: nat, x: Sum<P>)
    requires Abelian(g) && t < |parts| && x.sigma != parts[t].sigma
    ensures Plus(g, base, Share(g, parts[t := x], 1, 0)) != Plus(g, base, Share(g, parts, 1, 0))
  {
    hide Abelian, Share;
    var a, b := Share(g, parts[t := x], 1, 0).sigma, Share(g, parts, 1, 0).sigma;
    ShareChanged(g, parts, t, x);
    if g.add(base.sigma, a) == g.add(base.sigma, b) {
      Comm(g, base.sigma, a);
      Comm(g, base.sigma, b);
      Cancel(g, a, b, base.sigma);
      Comm(g, a, parts[t].sigma);
      Comm(g, b, x.sigma);
      Cancel(g, parts[t].sigma, x.sigma, a);
    }
  }

  /** Where all elements pass one by one, that number of verifiers comes to something else. */
  lemma DiffersAt<P(!new)>(r: Rules<P>, tx: Tx, lo: nat, hi: nat, i: nat, j: nat)
    requires Abelian(r.g) && Outcome(r, tx, Total(tx), lo, hi).Some?
    requires i < j < |tx.krns| && (forall q :: 0 <= q < i ==> tx.krns[q].lo < MAX_HEIGHT) && tx.krns[i].lo >= MAX_HEIGHT
    requires !SameBoth(r, tx.krns[j], lo) && forall q :: j < q < |tx.krns| ==> SameBoth(r, tx.krns[q], lo)
    ensures Outcome(r, tx, j - i, lo, hi) != Outcome(r, tx, Total(tx), lo, hi)
  {
    hide Abelian, ForkOf, Sorted, Share, Good, Part, SeenAt, Plus, SameBoth;
    var fork, n, at := ForkOf(r.forks, lo), j - i, |tx.ins| + |tx.outs| + j;
    var parts, parts' := Parts(r, tx, fork, Total(tx), lo), Parts(r, tx, fork, n, lo);
    forall t | 0 <= t < Total(tx) && t != at ensures parts'[t] == parts[t] {
      AloneSeen(tx, lo, t);
      SeenElsewhere(r, tx, fork, lo, i, j, t);
    }
    assert parts' == parts[at := parts'[at]];
    AloneSeen(tx, lo, at);
    OnlyOneSeen(r, tx, lo, i, j, at);
    assert Good(r, tx, fork, SeenAt(tx, Total(tx), lo, at), at);
    if AllGood(r, tx, fork, n, lo) {
      assert Good(r, tx, fork, SeenAt(tx, n, lo, at), at);
      KernelPoints(r, tx, fork, lo, j);
      DifferentSums(r.g, Base(r, lo, hi), parts, at, parts'[at]);
    }
  }

  lemma SeenElsewhere<P(!new)>(r: Rules<P>, tx: Tx, fork: nat, lo: nat, i: nat, j: nat, t: nat)
    requires i < j < |tx.krns| && (forall q :: 0 <= q < i ==> tx.krns[q].lo < MAX_HEIGHT) && tx.krns[i].lo >= MAX_HEIGHT
    requires (forall q :: j < q < |tx.krns| ==> SameBoth(r, tx.krns[q], lo)) && t < Total(tx) && t != |tx.ins| + |tx.outs| + j
    ensures Part(r, tx, fork, SeenAt(tx, j - i, lo, t), t) == Part(r, tx, fork, lo, t)
  {
    hide Part, Good, Narrowed, SameBoth;
    if IsKernel(tx, t) {
      OnlyOneSeen(r, tx, lo, i, j, t);
    } else if t < |tx.ins| + |tx.outs| {
      NothingNarrowed(tx, j - i, t % (j - i), t);
    }
    SameElement(r, tx, fork, SeenAt(tx, j - i, lo, t), lo, t);
  }

  lemma KernelPoints<P(!new)>(r: Rules<P>, tx: Tx, fork: nat, lo: nat, j: nat)
    requires j < |tx.krns| && !SameBoth(r, tx.krns[j], lo)
    ensures
      var at := |tx.ins| + |tx.outs| + j;
      Good(r, tx, fork, lo, at) && Good(r, tx, fork, MAX_HEIGHT, at) ==>
        Part(r, tx, fork, MAX_HEIGHT, at).sigma != Part(r, tx, fork, lo, at).sigma
  {
  }

  lemma NotSameIfNot<P(!new)>(r: Rules<P>, tx: Tx, lo: nat, hi: nat)
    requires Setting(r) && hi <= MAX_HEIGHT && Outcome(r, tx, Total(tx), lo, hi).Some? && !LaterSame(r, tx, lo)
    ensures !SameForAll(r, tx, lo, hi)
  {
    hide Validate, MergeAll, Outcome, Setting;
    SettingAbelian(r);
    var i0, j0 :| 0 <= i0 < j0 < |tx.krns| && tx.krns[i0].lo >= MAX_HEIGHT && !SameBoth(r, tx.krns[j0], lo);
    hide SameBoth;
    var i := FirstAtTop(tx, i0);
    var j := LastDifferent(r, tx, lo, j0);
    DiffersAt(r, tx, lo, hi, i, j);
    MergedOutcome(r, tx, j - i, lo, hi);
    MergedOutcome(r, tx, Total(tx), lo, hi);
    assert MergeAll(r, tx, j - i, lo, hi, j - i) != MergeAll(r, tx, Total(tx), lo, hi, Total(tx));
  }

  // ----- Exactly -----

  /** If all elements pass one by one, any number of verifiers agrees with one exactly when every kernel after one that starts at the
      largest height is the same there; if not, exactly when no number of verifiers lets the transaction pass. */
  lemma ParallelIffGiven<P(!new)>(r: Rules<P>, tx: Tx, lo: nat, hi: nat)
    requires Setting(r) && hi <= MAX_HEIGHT
    ensures Outcome(r, tx, Total(tx), lo, hi).Some? ==> (SameForAll(r, tx, lo, hi) <==> LaterSame(r, tx, lo))
    ensures Outcome(r, tx, Total(tx), lo, hi).None? ==>
      (SameForAll(r, tx, lo, hi) <==> forall n: nat :: n > 0 ==> Outcome(r, tx, n, lo, hi).None?)
  {
    hide Validate, MergeAll, Outcome, Setting, LaterSame;
    forall n: nat | n > 0 ensures MergeAll(r, tx, n, lo, hi, n) == Outcome(r, tx, n, lo, hi) {
      MergedOutcome(r, tx, n, lo, hi);
    }
    SingleOutcome(r, tx, lo, hi);
    if LaterSame(r, tx, lo) {
      forall n: nat | n > 0 ensures MergeAll(r, tx, n, lo, hi, n) == Validate(r, tx, 1, 0, lo, hi) {
        SameIfLaterSame(r, tx, lo, hi, n);
      }
    } else if Outcome(r, tx, Total(tx), lo, hi).Some? {
      NotSameIfNot(r, tx, lo, hi);
    }
  }
}
