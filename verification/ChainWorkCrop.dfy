/** Cutting a proof of chain work down to a higher lower bound. */
module ChainWorkCrop {
  import opened Words
  import opened ChainWork

  ghost predicate Merkle(env: Network) {
    PrefixConsumer(env) && Local(env)
  }

  // ----- The loop only moves forward -----

  lemma TurnForward(env: Network, p: WorkProof, tip: SystemState, lower: nat, l: Loop)
    requires Merkle(env) && l.used <= |p.hashes| && Turn(env, p, tip, lower, l).Continue?
    ensures
      var next := Turn(env, p, tip, lower, l).next;
      next.i == l.i + 1 && l.used <= next.used <= |p.hashes| && l.i < |p.elements| + |p.arbitrary|
  {
    hide Sample, Local;
  }

  lemma {:induction false} StepsForward(env: Network, p: WorkProof, tip: SystemState, lower: nat, l: Loop)
    requires Fair(env) && Merkle(env) && l.samp.begin < TOP && l.used <= |p.hashes| && Steps(env, p, tip, lower, l).Some?
    requires l.i <= |p.elements| + |p.arbitrary|
    ensures
      var (n, h) := Steps(env, p, tip, lower, l).value;
      l.i <= n <= |p.elements| + |p.arbitrary| && l.used <= h <= |p.hashes|
    decreases l.samp.begin
  {
    hide Turn, Fair, Merkle;
    TurnDescends(env, p, tip, lower, l);
    match Turn(env, p, tip, lower, l)
    case Continue(next, _) =>
      TurnForward(env, p, tip, lower, l);
      StepsForward(env, p, tip, lower, next);
    case Finish(_, _) =>
      FinishHere(env, p, tip, lower, l);
    case Reject =>
  }

  lemma FinishHere(env: Network, p: WorkProof, tip: SystemState, lower: nat, l: Loop)
    requires Turn(env, p, tip, lower, l).Finish?
    ensures Turn(env, p, tip, lower, l) == Finish(l.i, l.used)
  {
  }

  // ----- The cropped proof -----

  /** `Crop` after a check that took n states and h hashes: states and hashes beyond are dropped; when the heading gets
      shorter its new lowest state is rebuilt first. */
  function Cropped(env: Network, p: WorkProof, n: nat, h: nat): WorkProof
    requires 0 < n && h <= |p.hashes| && n <= |p.elements| + |p.arbitrary|
  {
    if n >= |p.elements| then p.(arbitrary := p.arbitrary[..n - |p.elements|], hashes := p.hashes[..h])
    else
      var s := Heading(env, p, n - 1);
      WorkProof(s.height, s.prev, s.work, p.elements[..n], [], p.hashes[..h])
  }

  /** The headings agree as far as they go. */
  lemma {:induction false} CroppedHeading(env: Network, p: WorkProof, n: nat, h: nat, i: nat)
    requires 0 < n && h <= |p.hashes| && n <= |p.elements| + |p.arbitrary|
    requires i < |Cropped(env, p, n, h).elements|
    ensures i < |p.elements| && Heading(env, Cropped(env, p, n, h), i) == Heading(env, p, i)
    decreases |p.elements| - i
  {
    var c := Cropped(env, p, n, h);
    if i < |c.elements| - 1 {
      CroppedHeading(env, p, n, h, i + 1);
    }
  }

  /** A turn that does not go beyond the cut is the same on the cropped proof. */
  lemma TurnCropped(env: Network, p: WorkProof, tip: SystemState, lower: nat, l: Loop, n: nat, h: nat)
    requires Merkle(env) && 0 < n && h <= |p.hashes| && n <= |p.elements| + |p.arbitrary|
    requires l.used <= h
    requires
      var t := Turn(env, p, tip, lower, l);
      t.Finish? || (t.Continue? && t.next.i <= n && t.next.used <= h)
    ensures Turn(env, Cropped(env, p, n, h), tip, lower, l) == Turn(env, p, tip, lower, l)
  {
    hide Sample, Heading, Local;
    var c := Cropped(env, p, n, h);
    var t := Turn(env, p, tip, lower, l);
    if t.Continue? {
      assert NextState(c, l) == NextState(p, l);
      FollowCropped(env, p, tip, l, NextState(p, l).value, n, h);
    }
  }

  lemma FollowCropped(env: Network, p: WorkProof, tip: SystemState, l: Loop, s': SystemState, n: nat, h: nat)
    requires Merkle(env) && 0 < n && h <= |p.hashes| && n <= |p.elements| + |p.arbitrary| && l.i < n && l.used <= h
    requires Follow(env, p, tip, l, s').Some? && Follow(env, p, tip, l, s').value.1 <= h
    ensures Follow(env, Cropped(env, p, n, h), tip, l, s') == Follow(env, p, tip, l, s')
  {
    hide Heading, Local;
    var c := Cropped(env, p, n, h);
    if l.i >= |p.elements| && s'.height + 1 != l.s.height {
      var leaf := Leaf(s'.height - FIRST_HEIGHT, env.hash(s'));
      var data, data' := p.hashes[l.used..], c.hashes[l.used..];
      var before := p.hashes[..l.used];
      assert c.hashes[..l.used] == before;
      var taken := env.check(tip, l.done, before, leaf, data);
      assert data[..taken.value] == data'[..taken.value];
      CheckLocal(env, tip, l.done, before, leaf, data, data');
    }
  }

  lemma CheckLocal(env: Network, tip: SystemState, done: seq<Leaf>, taken: seq<nat>, leaf: Leaf, data: seq<nat>,
                   data': seq<nat>)
    requires Local(env) && Agrees(env.check(tip, done, taken, leaf, data), data, data')
    ensures env.check(tip, done, taken, leaf, data') == env.check(tip, done, taken, leaf, data)
  {
  }

  lemma {:induction false} StepsCropped(env: Network, p: WorkProof, tip: SystemState, lower: nat, l: Loop, n: nat, h: nat)
    requires Fair(env) && Merkle(env) && l.samp.begin < TOP && l.used <= |p.hashes| && 0 < l.i <= |p.elements| + |p.arbitrary|
    requires Steps(env, p, tip, lower, l) == Some((n, h))
    ensures 0 < n <= |p.elements| + |p.arbitrary| && h <= |p.hashes|
    ensures Steps(env, Cropped(env, p, n, h), tip, lower, l) == Some((n, h))
    decreases l.samp.begin
  {
    hide Turn, Fair, Merkle, Cropped;
    StepsForward(env, p, tip, lower, l);
    TurnDescends(env, p, tip, lower, l);
    TurnDescends(env, Cropped(env, p, n, h), tip, lower, l);
    match Turn(env, p, tip, lower, l)
    case Continue(next, _) =>
      TurnForward(env, p, tip, lower, l);
      StepsForward(env, p, tip, lower, next);
      StepsCropped(env, p, tip, lower, next, n, h);
      TurnCropped(env, p, tip, lower, l, n, h);
    case Finish(_, _) =>
      TurnCropped(env, p, tip, lower, l, n, h);
    case Reject =>
  }

  /** Whenever a check for a bound succeeds, the proof cropped to it is valid for that bound, with the same tip and the
      same heading states as far as they are kept. */
  lemma CropIsValid(env: Network, p: WorkProof, lower: nat)
    requires Fair(env) && Merkle(env) && Check(env, p, lower).Some?
    ensures
      var (n, h) := Check(env, p, lower).value;
      && 0 < n <= |p.elements| + |p.arbitrary| && h <= |p.hashes|
      && var c := Cropped(env, p, n, h);
      && IsValid(env, c, lower)
      && 0 < |c.elements| <= |p.elements|
      && (forall i :: 0 <= i < |c.elements| ==> Heading(env, c, i) == Heading(env, p, i))
      && c.arbitrary <= p.arbitrary
  {
    hide Steps, Fair, Merkle, Heading;
    var (n, h) := Check(env, p, lower).value;
    var tip := Heading(env, p, 0);
    var l := FirstLoop(env, tip);
    StepsCropped(env, p, tip, lower, l, n, h);
    var c := Cropped(env, p, n, h);
    forall i | 0 <= i < |c.elements| ensures Heading(env, c, i) == Heading(env, p, i) {
      CroppedHeading(env, p, n, h, i);
    }
    assert Heading(env, c, 0) == tip;
    assert AllSane(env, c);
  }
}
