/** Proofs of chain work: points sampled down the axis of cumulative work, states that cover them, and a Merkle proof for
    the states that do not follow one another. Hashes, state checks, the oracle and the Merkle proof are parameters. */
module ChainWork {
  import Arith
  import opened Words

  /** 2^256 */
  const TOP: nat := 0x1_0000_0000_0000_0000_0000_0000_0000_0000_0000_0000_0000_0000_0000_0000_0000_0000
  const FIRST_HEIGHT: int := 1

  function Sub(a: nat, b: nat): (r: nat)
    ensures r < TOP
  {
    (a - b) % TOP
  }

  // ----- States and proofs -----

  datatype Element = Element(id: nat, difficulty: nat)

  datatype SystemState = SystemState(height: int, prev: nat, work: nat, elem: Element) {
    /** Where the work of the state begins on the axis. */
    function Lo(): nat {
      Sub(work, elem.difficulty)
    }
  }

  /** Heading states from the tip down, by element, with the rest of the lowest one; states below them; Merkle data. */
  datatype WorkProof = WorkProof(height: int, prev: nat, work: nat, elements: seq<Element>,
                                 arbitrary: seq<SystemState>, hashes: seq<nat>)

  /** A leaf of the history by position and hash. */
  datatype Leaf = Leaf(pos: int, hash: nat)

  /** What the protocol takes from elsewhere. `draw` takes a number below a threshold from an oracle in some state, which rejects as
      many of the oracle's numbers as it has to, and leaves the oracle in another state. `check` is the Merkle verifier for a tip: from the leaves processed so far and the
      data they took, the next leaf and the data left, it says how much data the leaf takes, if it is proven. */
  datatype Network = Network(hash: SystemState -> nat, sane: SystemState -> bool, draw: (nat, nat) -> (nat, nat),
                             check: (SystemState, seq<Leaf>, seq<nat>, Leaf, seq<nat>) -> Option<nat>)

  /** Draws are below their threshold. */
  ghost predicate Fair(env: Network) {
    forall oracle, t :: t > 0 ==> env.draw(oracle, t).0 < t
  }

  /** The Merkle verifier looks at nothing beyond the data it takes. */
  ghost predicate PrefixConsumer(env: Network) {
    forall tip, done, taken, leaf, data :: env.check(tip, done, taken, leaf, data).Some? ==>
      env.check(tip, done, taken, leaf, data).value <= |data|
  }

  ghost predicate Local(env: Network) {
    forall tip, done, taken, leaf, data, data' :: Agrees(env.check(tip, done, taken, leaf, data), data, data') ==>
      env.check(tip, done, taken, leaf, data') == env.check(tip, done, taken, leaf, data)
  }

  predicate Agrees(r: Option<nat>, data: seq<nat>, data': seq<nat>) {
    r.Some? && r.value <= |data| && r.value <= |data'| && data[..r.value] == data'[..r.value]
  }

  // ----- The sampler -----

  datatype Sampler = Sampler(oracle: nat, begin: nat, end: nat)

  function Start(env: Network, tip: SystemState): Sampler {
    Sampler(env.hash(tip), tip.Lo(), tip.work)
  }

  /** 635 / 65536 of the suffix, at least 1. */
  function Range(s: Sampler): (r: nat)
    ensures r > 0
  {
    var f := Sub(s.end, s.begin) * 635 / 65536;
    if f == 0 then 1 else f
  }

  function Sample(env: Network, s: Sampler, lower: nat): (Option<nat>, Sampler) {
    var range := Range(s);
    var (r, oracle) := env.draw(s.oracle, range);
    var out := (r + s.begin - range) % TOP;
    if out < lower || out >= s.begin then (None, s.(oracle := oracle))
    else (Some(out), s.(oracle := oracle, begin := if range >= s.begin then 0 else s.begin - range))
  }

  /** A successful draw lowers the begin strictly, to a point between it and where it was. */
  lemma SampleDescends(env: Network, s: Sampler, lower: nat)
    requires Fair(env) && s.begin < TOP
    ensures
      var (d, s') := Sample(env, s, lower);
      d.Some? ==> lower <= d.value && s'.begin <= d.value < s.begin && s'.end == s.end
  {
    var range := Range(s);
    var r := env.draw(s.oracle, range).0;
    if r + s.begin >= range {
      assert (r + s.begin - range) % TOP == r + s.begin - range;
    } else {
      Wrapped(r + s.begin - range, range);
    }
  }

  lemma Wrapped(x: int, range: nat)
    requires 0 <= x + range && x < 0 && range < TOP
    ensures x % TOP == x + TOP
  {
  }

  // ----- The verifier -----

  /** The heading state with element i, rebuilt from the lowest one. */
  function Heading(env: Network, p: WorkProof, i: nat): SystemState
    requires i < |p.elements|
    decreases |p.elements| - i
  {
    if i == |p.elements| - 1 then SystemState(p.height, p.prev, p.work, p.elements[i])
    else
      var s := Heading(env, p, i + 1);
      SystemState(s.height + 1, env.hash(s), (s.work + p.elements[i].difficulty) % TOP, p.elements[i])
  }

  /** `EnumStates` with a walker that tests the states. */
  ghost predicate AllSane(env: Network, p: WorkProof) {
    && (forall i :: 0 <= i < |p.arbitrary| ==> env.sane(p.arbitrary[i]))
    && (forall i :: 0 <= i < |p.elements| ==> env.sane(Heading(env, p, i)))
  }

  function Lowered(s: Sampler, d: nat): Sampler {
    if s.begin > d then s.(begin := d) else s
  }

  /** State of the verification loop: sampler, last state, begin of its work, number of states, leaves and data taken. */
  datatype Loop = Loop(samp: Sampler, s: SystemState, lo: nat, i: nat, done: seq<Leaf>, used: nat)

  datatype TurnResult = Reject | Finish(states: nat, hashes: nat) | Continue(next: Loop, visit: Visit)

  /** A visited state by the interval of its work, and the sampled point. */
  datatype Visit = Visit(lo: nat, hi: nat, point: nat)

  /** The state for the next point: by height, work and difficulty only while within the heading. */
  function NextState(p: WorkProof, l: Loop): Option<SystemState> {
    if l.i < |p.elements| then
      Some(SystemState(l.s.height - 1, l.s.prev, l.lo, l.s.elem.(difficulty := p.elements[l.i].difficulty)))
    else if l.i - |p.elements| < |p.arbitrary| then Some(p.arbitrary[l.i - |p.elements|])
    else None
  }

  /** How a state below the heading follows the last one: as its parent, or by a Merkle proof. */
  function Follow(env: Network, p: WorkProof, tip: SystemState, l: Loop, s': SystemState): Option<(seq<Leaf>, nat)> {
    if l.i < |p.elements| then Some((l.done, l.used))
    else if s'.height + 1 == l.s.height then
      if l.s.prev == env.hash(s') && s'.work == l.lo then Some((l.done, l.used)) else None
    else if s'.height >= l.s.height || s'.work >= l.lo || l.used > |p.hashes| then None
    else
      var leaf := Leaf(s'.height - FIRST_HEIGHT, env.hash(s'));
      var taken := env.check(tip, l.done, p.hashes[..l.used], leaf, p.hashes[l.used..]);
      if taken.None? then None else Some((l.done + [leaf], l.used + taken.value))
  }

  /** One turn of the verification loop. */
  function Turn(env: Network, p: WorkProof, tip: SystemState, lower: nat, l: Loop): TurnResult {
    var (d, samp) := Sample(env, l.samp, lower);
    if d.None? then Finish(l.i, l.used)
    else
      var next := NextState(p, l);
      if next.None? || d.value >= next.value.work || d.value < next.value.Lo() then Reject
      else
        var s' := next.value;
        match Follow(env, p, tip, l, s')
        case None => Reject
        case Some((done, used)) =>
          Continue(Loop(Lowered(samp, s'.Lo()), s', s'.Lo(), l.i + 1, done, used), Visit(s'.Lo(), s'.work, d.value))
  }

  lemma TurnDescends(env: Network, p: WorkProof, tip: SystemState, lower: nat, l: Loop)
    requires Fair(env) && l.samp.begin < TOP
    ensures Turn(env, p, tip, lower, l).Continue? ==> Turn(env, p, tip, lower, l).next.samp.begin < l.samp.begin
  {
    SampleDescends(env, l.samp, lower);
  }

  /** The loop: number of states and of hashes it took, if it accepts. */
  function Steps(env: Network, p: WorkProof, tip: SystemState, lower: nat, l: Loop): Option<(nat, nat)>
    requires Fair(env) && l.samp.begin < TOP
    decreases l.samp.begin
  {
    TurnDescends(env, p, tip, lower, l);
    match Turn(env, p, tip, lower, l)
    case Reject => None
    case Finish(n, h) => Some((n, h))
    case Continue(next, _) => Steps(env, p, tip, lower, next)
  }

  function Visits(env: Network, p: WorkProof, tip: SystemState, lower: nat, l: Loop): seq<Visit>
    requires Fair(env) && l.samp.begin < TOP
    decreases l.samp.begin
  {
    TurnDescends(env, p, tip, lower, l);
    match Turn(env, p, tip, lower, l)
    case Continue(next, v) => [v] + Visits(env, p, tip, lower, next)
    case _ => []
  }

  function FirstLoop(env: Network, tip: SystemState): (l: Loop)
    ensures l.samp.begin < TOP
  {
    Loop(Start(env, tip), tip, tip.Lo(), 1, [], 0)
  }

  /** `IsValidInternal` */
  ghost function Check(env: Network, p: WorkProof, lower: nat): Option<(nat, nat)>
    requires Fair(env)
  {
    if p.elements == [] || !AllSane(env, p) then None
    else
      var tip := Heading(env, p, 0);
      if tip.Lo() >= tip.work then None else Steps(env, p, tip, lower, FirstLoop(env, tip))
  }

  /** `IsValid`: nothing is left over. */
  ghost predicate IsValid(env: Network, p: WorkProof, lower: nat)
    requires Fair(env)
  {
    Check(env, p, lower) == Some((|p.arbitrary| + |p.elements|, |p.hashes|))
  }

  // ----- What acceptance means -----

  /** Intervals of work that hold their points, each below the ones before. */
  ghost predicate Descending(vs: seq<Visit>, below: nat) {
    && (forall i :: 0 <= i < |vs| ==> vs[i].lo <= vs[i].point < vs[i].hi <= below)
    && (forall i, j :: 0 <= i < j < |vs| ==> vs[j].hi <= vs[i].lo)
  }

  lemma {:induction false} AcceptedDescends(env: Network, p: WorkProof, tip: SystemState, lower: nat, l: Loop)
    requires Fair(env) && l.samp.begin < TOP && Steps(env, p, tip, lower, l).Some?
    ensures Descending(Visits(env, p, tip, lower, l), l.lo)
    decreases l.samp.begin
  {
    hide Sample, Fair;
    TurnDescends(env, p, tip, lower, l);
    match Turn(env, p, tip, lower, l)
    case Continue(next, v) =>
      AcceptedDescends(env, p, tip, lower, next);
      DescendingCons(v, Visits(env, p, tip, lower, next), l.lo);
    case _ =>
  }

  lemma DescendingCons(v: Visit, vs: seq<Visit>, below: nat)
    requires Descending(vs, v.lo) && v.lo <= v.point < v.hi <= below
    ensures Descending([v] + vs, below)
  {
  }

  /** The states of a proof from the tip down: the heading, rebuilt, and the ones below it. */
  function StateAt(env: Network, p: WorkProof, i: nat): SystemState
    requires i < |p.elements| + |p.arbitrary|
  {
    if i < |p.elements| then Heading(env, p, i) else p.arbitrary[i - |p.elements|]
  }

  /** What the loop keeps of the last state is that of the proof. */
  ghost predicate AtState(env: Network, p: WorkProof, l: Loop) {
    && 0 < l.i <= |p.elements| + |p.arbitrary|
    && var s := StateAt(env, p, l.i - 1);
    && l.s.height == s.height && l.s.work == s.work && l.s.elem.difficulty == s.elem.difficulty && l.lo == s.Lo()
  }

  /** Going down the heading takes off what going up had added. */
  lemma HeadingDown(env: Network, p: WorkProof, i: nat)
    requires i + 1 < |p.elements| && p.work < TOP
    ensures Heading(env, p, i).Lo() == Heading(env, p, i + 1).work && Heading(env, p, i).height == Heading(env, p, i + 1).height + 1
  {
    HeadingReduced(env, p, i + 1);
    var w, d := Heading(env, p, i + 1).work, p.elements[i].difficulty;
    TakenOff(w, d);
  }

  lemma HeadingReduced(env: Network, p: WorkProof, i: nat)
    requires i < |p.elements| && p.work < TOP
    ensures Heading(env, p, i).work < TOP
  {
  }

  lemma TakenOff(w: nat, d: nat)
    requires w < TOP
    ensures Sub((w + d) % TOP, d) == w
  {
    Arith.ModAdd(w + d, -(d as int), TOP);
    Arith.ModSmall(w, TOP);
  }

  lemma TurnAtState(env: Network, p: WorkProof, tip: SystemState, lower: nat, l: Loop)
    requires p.work < TOP && AtState(env, p, l) && Turn(env, p, tip, lower, l).Continue?
    ensures
      var t, k := Turn(env, p, tip, lower, l), l.i;
      && t.next.i == k + 1 && AtState(env, p, t.next)
      && t.visit.lo == StateAt(env, p, k).Lo() && t.visit.hi == StateAt(env, p, k).work
  {
    hide Sample, Heading, Follow;
    var k := l.i;
    if k < |p.elements| {
      HeadingDown(env, p, k - 1);
      HeadingElement(env, p, k);
    }
  }

  lemma HeadingElement(env: Network, p: WorkProof, i: nat)
    requires i < |p.elements|
    ensures Heading(env, p, i).elem == p.elements[i]
  {
  }

  lemma {:induction false} VisitsAreStates(env: Network, p: WorkProof, tip: SystemState, lower: nat, l: Loop)
    requires Fair(env) && l.samp.begin < TOP && p.work < TOP && AtState(env, p, l)
    ensures
      var vs := Visits(env, p, tip, lower, l);
      && l.i + |vs| <= |p.elements| + |p.arbitrary|
      && forall i :: 0 <= i < |vs| ==>
           vs[i].lo == StateAt(env, p, l.i + i).Lo() && vs[i].hi == StateAt(env, p, l.i + i).work
    decreases l.samp.begin
  {
    hide Fair, Turn, StateAt, AtState;
    TurnDescends(env, p, tip, lower, l);
    match Turn(env, p, tip, lower, l)
    case Continue(next, v) =>
      TurnAtState(env, p, tip, lower, l);
      VisitsAreStates(env, p, tip, lower, next);
      var vs, rest := Visits(env, p, tip, lower, l), Visits(env, p, tip, lower, next);
      assert vs == [v] + rest;
      forall i | 0 <= i < |vs|
        ensures vs[i].lo == StateAt(env, p, l.i + i).Lo() && vs[i].hi == StateAt(env, p, l.i + i).work
      {
        if i > 0 {
          assert vs[i] == rest[i - 1] && l.i + i == next.i + (i - 1);
        }
      }
    case _ => WithinProof(env, p, l);
  }

  lemma WithinProof(env: Network, p: WorkProof, l: Loop)
    requires AtState(env, p, l)
    ensures l.i <= |p.elements| + |p.arbitrary|
  {
  }

  /** An accepted proof shows the works of its states, from the tip down, as non-empty, disjoint and strictly descending
      intervals, each with its sampled point. */
  lemma AcceptedIntervals(env: Network, p: WorkProof, lower: nat)
    requires Fair(env) && p.work < TOP && Check(env, p, lower).Some?
    ensures p.elements != []
    ensures
      var tip := Heading(env, p, 0);
      var vs := Visits(env, p, tip, lower, FirstLoop(env, tip));
      && tip.Lo() < tip.work && Descending(vs, tip.Lo())
      && |vs| < |p.elements| + |p.arbitrary|
      && forall i :: 0 <= i < |vs| ==>
           && lower <= vs[i].point
           && vs[i].lo == StateAt(env, p, i + 1).Lo() && vs[i].hi == StateAt(env, p, i + 1).work
  {
    hide Heading, Steps, Visits;
    var tip := Heading(env, p, 0);
    AcceptedDescends(env, p, tip, lower, FirstLoop(env, tip));
    VisitsAbove(env, p, tip, lower, FirstLoop(env, tip));
    VisitsAreStates(env, p, tip, lower, FirstLoop(env, tip));
  }

  lemma {:induction false} VisitsAbove(env: Network, p: WorkProof, tip: SystemState, lower: nat, l: Loop)
    requires Fair(env) && l.samp.begin < TOP
    ensures forall i :: 0 <= i < |Visits(env, p, tip, lower, l)| ==> lower <= Visits(env, p, tip, lower, l)[i].point
    decreases l.samp.begin
  {
    hide Fair;
    TurnDescends(env, p, tip, lower, l);
    match Turn(env, p, tip, lower, l)
    case Continue(next, v) =>
      VisitsAbove(env, p, tip, lower, next);
    case _ =>
  }
}
