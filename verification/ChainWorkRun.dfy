/** The sampler, verifier, prover and cropping of chain work proofs as loops over mutable state. */
module ChainWorkRun {
  import opened Words
  import opened ChainWork
  import opened ChainWorkCrop
  import opened ChainWorkCreate

  class SamplerObject {
    const env: Network
    const end: nat
    var oracle: nat
    var begin: nat

    function Value(): Sampler
      reads this
    {
      Sampler(oracle, begin, end)
    }

    constructor (env: Network, tip: SystemState)
      ensures this.env == env && Value() == Start(env, tip)
    {
      this.env, end, oracle, begin := env, tip.work, env.hash(tip), Sub(tip.work, tip.elem.difficulty);
    }

    /** `SamplePoint` */
    method SamplePoint(lower: nat) returns (ok: bool, out: nat)
      modifies this
      ensures (if ok then Some(out) else None, Value()) == Sample(env, old(Value()), lower)
    {
      var range := Sub(end, begin);
      range := range * 635 / 65536;
      if range == 0 {
        range := 1;
      }
      var allCovered := range >= begin;
      var (r, next) := env.draw(oracle, range);
      oracle := next;
      out := r;
      out := (out + begin - range) % TOP;
      if out < lower || out >= begin {
        return false, out;
      }
      if allCovered {
        begin := 0;
      } else {
        begin := begin - range;
      }
      ok := true;
    }

    method Lower(d: nat)
      modifies this`begin
      ensures Value() == Lowered(old(Value()), d)
    {
      if begin > d {
        begin := d;
      }
    }
  }

  /** `EnumStates` with the testing walker: states below the heading from the last one up, then the heading, rebuilt. */
  method EnumStates(env: Network, p: WorkProof) returns (ok: bool, tip: SystemState)
    ensures ok <==> p.elements != [] && AllSane(env, p)
    ensures ok ==> tip == Heading(env, p, 0)
  {
    tip := SystemState(0, 0, 0, Element(0, 0));
    var i := |p.arbitrary|;
    while i > 0
      invariant 0 <= i <= |p.arbitrary|
      invariant forall j :: i <= j < |p.arbitrary| ==> env.sane(p.arbitrary[j])
    {
      i := i - 1;
      if !env.sane(p.arbitrary[i]) {
        return false, tip;
      }
    }
    if p.elements == [] {
      return false, tip;
    }
    var first := true;
    i := |p.elements|;
    while i > 0
      invariant 0 <= i <= |p.elements| && first == (i == |p.elements|)
      invariant !first ==> tip == Heading(env, p, i)
      invariant forall j :: i <= j < |p.elements| ==> env.sane(Heading(env, p, j))
    {
      i := i - 1;
      if first {
        tip := SystemState(p.height, p.prev, p.work, p.elements[i]);
        first := false;
      } else {
        tip := SystemState(tip.height + 1, env.hash(tip), (tip.work + p.elements[i].difficulty) % TOP, p.elements[i]);
      }
      assert tip == Heading(env, p, i);
      if !env.sane(tip) {
        return false, tip;
      }
    }
    ok := true;
  }

  /** `IsValidInternal` */
  method IsValidInternal(env: Network, p: WorkProof, lower: nat) returns (r: Option<(nat, nat)>)
    requires Fair(env)
    ensures r == Check(env, p, lower)
  {
    hide Fair, AllSane, Heading;
    var ok, s := EnumStates(env, p);
    if !ok {
      return None;
    }
    var tip := s;
    var samp := new SamplerObject(env, s);
    if samp.begin >= samp.end {
      return None;
    }
    var lo := s.Lo();
    var i, used := 1, 0;
    var done: seq<Leaf> := [];
    ghost var all := Steps(env, p, tip, lower, FirstLoop(env, tip));
    while true
      invariant fresh(samp) && samp.env == env && samp.begin < TOP && i > 0
      invariant Steps(env, p, tip, lower, Loop(samp.Value(), s, lo, i, done, used)) == all
      decreases samp.begin
    {
      var l := Loop(samp.Value(), s, lo, i, done, used);
      TurnDescends(env, p, tip, lower, l);
      StepsOnce(env, p, tip, lower, l);
      hide Steps, Turn;
      TurnIs(env, p, tip, lower, l);
      hide Sample;
      var found, point := samp.SamplePoint(lower);
      if !found {
        return Some((i, used));
      }
      var next := NextState(p, l);
      if next.None? || point >= next.value.work || point < next.value.Lo() {
        return None;
      }
      var s' := next.value;
      var follow := Follow(env, p, tip, l, s');
      if follow.None? {
        return None;
      }
      done, used := follow.value.0, follow.value.1;
      s, lo := s', s'.Lo();
      samp.Lower(lo);
      i := i + 1;
    }
  }

  lemma StepsOnce(env: Network, p: WorkProof, tip: SystemState, lower: nat, l: Loop)
    requires Fair(env) && l.samp.begin < TOP
    ensures
      var turn := Turn(env, p, tip, lower, l);
      var all := Steps(env, p, tip, lower, l);
      if turn.Reject? then all == None
      else if turn.Finish? then all == Some((turn.states, turn.hashes))
      else turn.next.samp.begin < l.samp.begin && all == Steps(env, p, tip, lower, turn.next)
  {
    hide Turn, Fair;
    TurnDescends(env, p, tip, lower, l);
  }

  lemma TurnIs(env: Network, p: WorkProof, tip: SystemState, lower: nat, l: Loop)
    ensures
      var (d, samp) := Sample(env, l.samp, lower);
      var s' := NextState(p, l);
      var turn := Turn(env, p, tip, lower, l);
      if d.None? then turn == Finish(l.i, l.used)
      else if s'.None? || d.value >= s'.value.work || d.value < s'.value.Lo() then turn == Reject
      else
        var follow := Follow(env, p, tip, l, s'.value);
        if follow.None? then turn == Reject
        else
          && turn.Continue?
          && turn.next == Loop(Lowered(samp, s'.value.Lo()), s'.value, s'.value.Lo(), l.i + 1, follow.value.0, follow.value.1)
  {
    hide Sample;
  }

  /** `IsValid` */
  method Validate(env: Network, p: WorkProof, lower: nat) returns (ok: bool)
    requires Fair(env)
    ensures ok <==> IsValid(env, p, lower)
  {
    hide Check;
    var r := IsValidInternal(env, p, lower);
    ok := r.Some? && |p.arbitrary| + |p.elements| == r.value.0 && |p.hashes| == r.value.1;
  }

  /** `Crop`: it fails when the check for the bound fails, and gives a valid proof otherwise. */
  method Crop(env: Network, p: WorkProof, lower: nat) returns (c: Option<WorkProof>)
    requires Fair(env) && Merkle(env)
    ensures c.Some? <==> Check(env, p, lower).Some?
    ensures c.Some? ==>
      && IsValid(env, c.value, lower) && 0 < |c.value.elements| <= |p.elements|
      && forall i :: 0 <= i < |c.value.elements| ==> Heading(env, c.value, i) == Heading(env, p, i)
  {
    hide Check, Fair, Merkle, Heading;
    var r := IsValidInternal(env, p, lower);
    if r.None? {
      return None;
    }
    CropIsValid(env, p, lower);
    var n, h := r.value.0, r.value.1;
    if n >= |p.elements| {
      return Some(p.(arbitrary := p.arbitrary[..n - |p.elements|], hashes := p.hashes[..h]));
    }
    var s := HeadingAt(env, p, n - 1);
    return Some(WorkProof(s.height, s.prev, s.work, p.elements[..n], [], p.hashes[..h]));
  }

  /** The walk up the heading to one of its states. */
  method HeadingAt(env: Network, p: WorkProof, k: nat) returns (s: SystemState)
    requires k < |p.elements|
    ensures s == Heading(env, p, k)
  {
    var i := |p.elements| - 1;
    s := SystemState(p.height, p.prev, p.work, p.elements[i]);
    while i > k
      invariant k <= i < |p.elements| && s == Heading(env, p, i)
    {
      i := i - 1;
      s := SystemState(s.height + 1, env.hash(s), (s.work + p.elements[i].difficulty) % TOP, p.elements[i]);
    }
  }

  /** `Create` */
  method CreateProof(env: Network, chain: seq<SystemState>, bld: Builder, lower: nat) returns (p: WorkProof)
    requires Fair(env) && Chain(env, chain)
    ensures p == Create(env, chain, bld, lower)
  {
    hide Fair, Chain, Collect, Find, Partial;
    ChainSane(env, chain);
    StartReady(env, chain);
    var k := |chain| - 1;
    var samp := new SamplerObject(env, chain[k]);
    ghost var first := chain[k].elem;
    var low := chain[k];
    var elements: seq<Element> := [];
    var arbitrary: seq<SystemState> := [];
    var hashes: seq<nat> := [];
    var done: seq<int> := [];
    ghost var whole := Collect(env, chain, bld, lower, samp.Value(), k, true, []);
    PartialStart(whole, first, low);
    while true
      invariant fresh(samp) && samp.env == env && 0 <= k < |chain| && samp.begin < TOP && Ready(env, chain, samp.Value(), k)
      invariant Partial(whole, first, if arbitrary == [] then elements + [chain[k].elem] else elements, low, arbitrary, hashes,
                        Collect(env, chain, bld, lower, samp.Value(), k, arbitrary == [], done))
      decreases samp.begin
    {
      if arbitrary == [] {
        PartialLow(whole, first, elements + [chain[k].elem], low, chain[k], hashes,
                   Collect(env, chain, bld, lower, samp.Value(), k, true, done));
        low := chain[k];
        elements := elements + [chain[k].elem];
      }
      ghost var before := samp.Value();
      ghost var r := Collect(env, chain, bld, lower, before, k, arbitrary == [], done);
      CollectNone(env, chain, bld, lower, before, k, arbitrary == [], done);
      var found, d := samp.SamplePoint(lower);
      if !found {
        PartialEnd(whole, first, elements, low, arbitrary, hashes, chain[k]);
        break;
      }
      CollectStep(env, chain, bld, lower, before, k, arbitrary == [], done);
      var j := Find(chain, d, 0);
      hide Sample;
      samp.Lower(chain[j].Lo());
      ghost var jump := j + 1 != k;
      ghost var rest := Collect(env, chain, bld, lower, samp.Value(), j, arbitrary == [] && !jump,
                                if jump then done + [j] else done);
      PartialStep(whole, first, elements, low, arbitrary, hashes, chain[k], chain[j], jump, if jump then bld(done, j) else [],
                  rest);
      assert hashes + [] == hashes;
      if j + 1 != k {
        hashes := hashes + bld(done, j);
        done := done + [j];
      }
      if j + 1 != k || arbitrary != [] {
        arbitrary := arbitrary + [chain[j]];
      }
      k := j;
    }
    p := WorkProof(low.height, low.prev, low.work, elements, arbitrary, hashes);
  }

  /** What has been collected and what is still to come make up the whole. */
  ghost predicate Partial(whole: Suffix, first: Element, elements: seq<Element>, low: SystemState,
                          arbitrary: seq<SystemState>,
                          hashes: seq<nat>, r: Suffix)
  {
    && whole.hashes == hashes + r.hashes && whole.arbitrary == arbitrary + r.arbitrary
    && [first] + whole.elements == elements + (if arbitrary == [] then r.elements else [])
    && whole.low == if arbitrary == [] then r.low else low
  }

  lemma PartialStart(whole: Suffix, first: Element, low: SystemState)
    ensures Partial(whole, first, [] + [first], low, [], [], whole)
  {
  }

  /** The lowest heading state is settled only when the heading ends. */
  lemma PartialLow(whole: Suffix, first: Element, elements: seq<Element>, low: SystemState, low': SystemState,
                   hashes: seq<nat>, r: Suffix)
    requires Partial(whole, first, elements, low, [], hashes, r)
    ensures Partial(whole, first, elements, low', [], hashes, r)
  {
  }

  lemma PartialEnd(whole: Suffix, first: Element, elements: seq<Element>, low: SystemState,
                   arbitrary: seq<SystemState>, hashes: seq<nat>, s: SystemState)
    requires Partial(whole, first, elements, low, arbitrary, hashes, Suffix([], s, [], [])) && (arbitrary == [] ==> low == s)
    ensures [first] + whole.elements == elements && whole.low == low && whole.arbitrary == arbitrary && whole.hashes == hashes
  {
  }

  lemma PartialStep(whole: Suffix, first: Element, elements: seq<Element>, low: SystemState,
                    arbitrary: seq<SystemState>, hashes: seq<nat>,
                    s: SystemState, s': SystemState, jump: bool, hs: seq<nat>, rest: Suffix)
    requires arbitrary == [] ==> low == s
    requires
      var head := arbitrary == [] && !jump;
      Partial(whole, first, elements, low, arbitrary, hashes,
              Suffix(if head then [s'.elem] + rest.elements else [], if head then rest.low else s,
                     if head then rest.arbitrary else [s'] + rest.arbitrary, hs + rest.hashes))
    ensures
      var head := arbitrary == [] && !jump;
      Partial(whole, first, if head then elements + [s'.elem] else elements, low,
              if head then arbitrary else arbitrary + [s'], hashes + hs, rest)
  {
    var head := arbitrary == [] && !jump;
    if head {
      Regroup(elements, [s'.elem], rest.elements);
    } else {
      Regroup(arbitrary, [s'], rest.arbitrary);
    }
    Regroup(hashes, hs, rest.hashes);
  }

  lemma Regroup<T>(a: seq<T>, b: seq<T>, c: seq<T>)
    ensures a + (b + c) == (a + b) + c
  {
  }

  lemma CollectNone(env: Network, chain: seq<SystemState>, bld: Builder, lower: nat, samp: Sampler, k: nat,
                    heading: bool, done: seq<int>)
    requires Ready(env, chain, samp, k)
    ensures Sample(env, samp, lower).0.None? ==>
      Collect(env, chain, bld, lower, samp, k, heading, done) == Suffix([], chain[k], [], [])
  {
    hide Sample;
  }
}
