/** Building a proof of chain work from a chain, and its acceptance. */
module ChainWorkCreate {
  import opened Words
  import opened ChainWork

  /** States by height, each bound to the one before, whose works cover the axis from zero without a gap. */
  ghost predicate Chain(env: Network, chain: seq<SystemState>) {
    && chain != [] && chain[0].work == chain[0].elem.difficulty
    && (forall i :: 0 <= i < |chain| ==>
          && chain[i].height == FIRST_HEIGHT + i && chain[i].elem.difficulty > 0 && chain[i].work < TOP && env.sane(chain[i]))
    && (forall i :: 0 < i < |chain| ==>
          && chain[i].prev == env.hash(chain[i - 1]) && chain[i].work == chain[i - 1].work + chain[i].elem.difficulty)
  }

  lemma ChainLo(env: Network, chain: seq<SystemState>, i: nat)
    requires Chain(env, chain) && i < |chain|
    ensures chain[i].Lo() == (if i == 0 then 0 else chain[i - 1].work) < chain[i].work
  {
    var s := chain[i];
    var d := s.work - s.elem.difficulty;
    assert 0 <= d < TOP;
    Reduced(d);
  }

  lemma Reduced(d: int)
    requires 0 <= d < TOP
    ensures d % TOP == d
  {
  }

  lemma {:induction false} WorkGrows(env: Network, chain: seq<SystemState>, i: nat, j: nat)
    requires Chain(env, chain) && i <= j < |chain|
    ensures chain[i].work <= chain[j].work
    decreases j
  {
    if i < j {
      WorkGrows(env, chain, i, j - 1);
    }
  }

  /** `get_StateAt`: the state whose work holds a point. */
  function Find(chain: seq<SystemState>, d: nat, from: nat): (k: nat)
    requires from < |chain|
    ensures k < |chain|
    decreases |chain| - from
  {
    if d < chain[from].work || from == |chain| - 1 then from else Find(chain, d, from + 1)
  }

  lemma {:induction false} FindCovers(env: Network, chain: seq<SystemState>, d: nat, from: nat)
    requires Chain(env, chain) && from < |chain| && d < chain[|chain| - 1].work && chain[from].Lo() <= d
    ensures
      var k := Find(chain, d, from);
      from <= k < |chain| && chain[k].Lo() <= d < chain[k].work
    decreases |chain| - from
  {
    ChainLo(env, chain, from);
    if !(d < chain[from].work || from == |chain| - 1) {
      ChainLo(env, chain, from + 1);
      FindCovers(env, chain, d, from + 1);
    }
  }

  /** The state found is below any state that begins above the point. */
  lemma FindBelow(env: Network, chain: seq<SystemState>, d: nat, k: nat)
    requires Chain(env, chain) && k < |chain| && d < chain[k].Lo()
    ensures
      var j := Find(chain, d, 0);
      j < k && chain[j].Lo() <= d < chain[j].work <= chain[k].Lo() && (j + 1 != k ==> chain[j].work < chain[k].Lo())
  {
    hide Find;
    ChainLo(env, chain, k);
    ChainLo(env, chain, 0);
    WorkGrows(env, chain, k, |chain| - 1);
    FindCovers(env, chain, d, 0);
    var j := Find(chain, d, 0);
    ChainLo(env, chain, j);
    if k <= j {
      if k < j {
        WorkGrows(env, chain, k, j - 1);
      }
      assert false;
    }
    WorkGrows(env, chain, j, k - 1);
    if j + 1 != k {
      WorkGrows(env, chain, j + 1, k - 1);
    }
  }

  // ----- The prover -----

  /** The Merkle builder: the data it adds for a position, after the positions before. */
  type Builder = (seq<int>, int) -> seq<nat>

  /** What the prover collects from some state on; `low` is the lowest heading state. */
  datatype Suffix = Suffix(elements: seq<Element>, low: SystemState, arbitrary: seq<SystemState>, hashes: seq<nat>)

  ghost predicate Ready(env: Network, chain: seq<SystemState>, samp: Sampler, k: nat) {
    Fair(env) && Chain(env, chain) && k < |chain| && samp.begin <= chain[k].Lo()
  }

  function Collect(env: Network, chain: seq<SystemState>, bld: Builder, lower: nat, samp: Sampler, k: nat, heading: bool,
                   done: seq<int>): Suffix
    requires Ready(env, chain, samp, k)
    decreases samp.begin
  {
    var (d, samp') := Sample(env, samp, lower);
    if d.None? then Suffix([], chain[k], [], [])
    else
      SampleDescends(env, samp, lower);
      FindBelow(env, chain, d.value, k);
      var j := Find(chain, d.value, 0);
      var jump := j + 1 != k;
      var head' := heading && !jump;
      var done' := if jump then done + [j] else done;
      var rest := Collect(env, chain, bld, lower, Lowered(samp', chain[j].Lo()), j, head', done');
      Suffix(if head' then [chain[j].elem] + rest.elements else [],
             if head' then rest.low else chain[k],
             if head' then rest.arbitrary else [chain[j]] + rest.arbitrary,
             (if jump then bld(done, j) else []) + rest.hashes)
  }

  lemma StartReady(env: Network, chain: seq<SystemState>)
    requires Fair(env) && Chain(env, chain)
    ensures Ready(env, chain, Start(env, chain[|chain| - 1]), |chain| - 1)
  {
  }

  /** `Create` */
  function Create(env: Network, chain: seq<SystemState>, bld: Builder, lower: nat): WorkProof
    requires Fair(env) && Chain(env, chain)
  {
    var top := |chain| - 1;
    StartReady(env, chain);
    var r := Collect(env, chain, bld, lower, Start(env, chain[top]), top, true, []);
    WorkProof(r.low.height, r.low.prev, r.low.work, [chain[top].elem] + r.elements, r.arbitrary, r.hashes)
  }

  // ----- The heading -----

  lemma {:induction false} CollectHeading(env: Network, chain: seq<SystemState>, bld: Builder, lower: nat,
                                          samp: Sampler, k: nat,
                                          done: seq<int>)
    requires Ready(env, chain, samp, k)
    ensures
      var r := Collect(env, chain, bld, lower, samp, k, true, done);
      && |r.elements| <= k && r.low == chain[k - |r.elements|]
      && forall i :: 0 <= i < |r.elements| ==> r.elements[i] == chain[k - 1 - i].elem
    decreases samp.begin
  {
    hide Sample, Find, Chain, Collect;
    var (d, samp') := Sample(env, samp, lower);
    HeadingOnce(env, chain, bld, lower, samp, k, done);
    if d.Some? {
      SampleDescends(env, samp, lower);
      FindBelow(env, chain, d.value, k);
      var j := Find(chain, d.value, 0);
      if j + 1 == k {
        CollectHeading(env, chain, bld, lower, Lowered(samp', chain[j].Lo()), j, done);
      }
    }
  }

  lemma HeadingOnce(env: Network, chain: seq<SystemState>, bld: Builder, lower: nat, samp: Sampler, k: nat, done: seq<int>)
    requires Ready(env, chain, samp, k)
    ensures
      var r := Collect(env, chain, bld, lower, samp, k, true, done);
      var (d, samp') := Sample(env, samp, lower);
      if d.None? then r.elements == [] && r.low == chain[k]
      else
        var j := Find(chain, d.value, 0);
        j < k && Ready(env, chain, Lowered(samp', chain[j].Lo()), j)
        && if j + 1 != k then r.elements == [] && r.low == chain[k]
           else
             var rest := Collect(env, chain, bld, lower, Lowered(samp', chain[j].Lo()), j, true, done);
             r.elements == [chain[j].elem] + rest.elements && r.low == rest.low
  {
    hide Sample, Find, Chain;
    var (d, samp') := Sample(env, samp, lower);
    if d.Some? {
      SampleDescends(env, samp, lower);
      FindBelow(env, chain, d.value, k);
    }
  }

  lemma {:induction false} HeadingIsChain(env: Network, chain: seq<SystemState>, p: WorkProof, top: nat, i: nat)
    requires Chain(env, chain) && top < |chain| && 0 < |p.elements| <= top + 1 && i < |p.elements|
    requires forall j :: 0 <= j < |p.elements| ==> p.elements[j] == chain[top - j].elem
    requires
      var low := chain[top + 1 - |p.elements|];
      p.height == low.height && p.prev == low.prev && p.work == low.work
    ensures Heading(env, p, i) == chain[top - i]
    decreases |p.elements| - i
  {
    if i < |p.elements| - 1 {
      HeadingIsChain(env, chain, p, top, i + 1);
      Reduced(chain[top - i].work);
    }
  }

  // ----- Acceptance -----

  function Leaves(env: Network, chain: seq<SystemState>, done: seq<int>): seq<Leaf>
    requires forall i :: 0 <= i < |done| ==> 0 <= done[i] < |chain|
  {
    seq(|done|, i requires 0 <= i < |done| => Leaf(done[i], env.hash(chain[done[i]])))
  }

  ghost predicate InChain(chain: seq<SystemState>, done: seq<int>) {
    forall i :: 0 <= i < |done| ==> 0 <= done[i] < |chain|
  }

  /** Positions below the tip, in strictly descending order, none below k. */
  ghost predicate Above(chain: seq<SystemState>, done: seq<int>, k: nat) {
    && (forall i :: 0 <= i < |done| ==> k <= done[i] < |chain| - 1)
    && (forall i, j :: 0 <= i < j < |done| ==> done[j] < done[i])
  }

  /** All the data the builder adds for the given positions. */
  function DataOf(bld: Builder, done: seq<int>): seq<nat> {
    if done == [] then [] else DataOf(bld, done[..|done| - 1]) + bld(done[..|done| - 1], done[|done| - 1])
  }

  lemma DataSnoc(bld: Builder, done: seq<int>, k: int)
    ensures DataOf(bld, done + [k]) == DataOf(bld, done) + bld(done, k)
  {
    assert (done + [k])[..|done|] == done;
  }

  ghost predicate ProvenAt(env: Network, chain: seq<SystemState>, bld: Builder, done: seq<int>, k: nat, rest: seq<nat>)
    requires InChain(chain, done) && k < |chain|
  {
    env.check(chain[|chain| - 1], Leaves(env, chain, done), DataOf(bld, done), Leaf(k, env.hash(chain[k])), bld(done, k) + rest)
      == Some(|bld(done, k)|)
  }

  /** The Merkle verifier accepts what the builder adds for states below the tip, given in descending order, and takes just
      that. */
  ghost predicate Honest(env: Network, chain: seq<SystemState>, bld: Builder) {
    forall done, k: nat, rest :: k < |chain| - 1 && Above(chain, done, k + 1) ==> ProvenAt(env, chain, bld, done, k, rest)
  }

  /** The verifier, at the same point as the prover, has what the prover collects from here on still ahead. */
  ghost predicate InStep(env: Network, chain: seq<SystemState>, bld: Builder, p: WorkProof, samp: Sampler, k: nat, heading: bool,
                         done: seq<int>, r: Suffix, l: Loop)
    requires k < |chain|
  {
    && Above(chain, done, k) && l.samp == samp && l.lo == chain[k].Lo() && l.s.height == chain[k].height
    && (!heading ==> l.s == chain[k])
    && l.done == Leaves(env, chain, done)
    && l.used <= |p.hashes| && p.hashes[..l.used] == DataOf(bld, done) && p.hashes[l.used..] == r.hashes
    && (if heading then
          l.i <= |p.elements| && p.elements[l.i..] == r.elements && p.arbitrary == r.arbitrary
        else
          0 <= l.i - |p.elements| <= |p.arbitrary| && p.arbitrary[l.i - |p.elements|..] == r.arbitrary)
  }

  lemma {:induction false} CollectAccepted(env: Network, chain: seq<SystemState>, bld: Builder, lower: nat,
                                           samp: Sampler, k: nat,
                                           heading: bool, done: seq<int>, p: WorkProof, l: Loop)
    requires Ready(env, chain, samp, k) && Honest(env, chain, bld) && samp.begin < TOP
    requires InStep(env, chain, bld, p, samp, k, heading, done, Collect(env, chain, bld, lower, samp, k, heading, done), l)
    ensures l.samp.begin < TOP
    ensures Steps(env, p, chain[|chain| - 1], lower, l) == Some((|p.elements| + |p.arbitrary|, |p.hashes|))
    decreases samp.begin
  {
    hide Sample, Find, Chain, Honest, Turn, InStep, Collect;
    var tip := chain[|chain| - 1];
    var r := Collect(env, chain, bld, lower, samp, k, heading, done);
    var (d, samp') := Sample(env, samp, lower);
    InStepLoop(env, chain, bld, p, samp, k, heading, done, r, l);
    TurnDescends(env, p, tip, lower, l);
    if d.None? {
      CollectEnds(env, chain, bld, lower, samp, k, heading, done, p, l);
    } else {
      SampleDescends(env, samp, lower);
      FindBelow(env, chain, d.value, k);
      var j := Find(chain, d.value, 0);
      var jump := j + 1 != k;
      var next := OneTurn(env, chain, bld, lower, samp, k, heading, done, p, l);
      CollectAccepted(env, chain, bld, lower, Lowered(samp', chain[j].Lo()), j, heading && !jump,
                      if jump then done + [j] else done, p, next);
    }
  }

  lemma InStepLoop(env: Network, chain: seq<SystemState>, bld: Builder, p: WorkProof, samp: Sampler, k: nat, heading: bool,
                   done: seq<int>, r: Suffix, l: Loop)
    requires k < |chain| && InStep(env, chain, bld, p, samp, k, heading, done, r, l)
    ensures l.samp == samp
  {
  }

  lemma CollectEnds(env: Network, chain: seq<SystemState>, bld: Builder, lower: nat, samp: Sampler, k: nat,
                    heading: bool, done: seq<int>,
                    p: WorkProof, l: Loop)
    requires Ready(env, chain, samp, k) && Sample(env, samp, lower).0.None?
    requires InStep(env, chain, bld, p, samp, k, heading, done, Collect(env, chain, bld, lower, samp, k, heading, done), l)
    ensures Turn(env, p, chain[|chain| - 1], lower, l) == Finish(|p.elements| + |p.arbitrary|, |p.hashes|)
  {
    hide Sample, Chain;
  }

  lemma LeavesSnoc(env: Network, chain: seq<SystemState>, done: seq<int>, j: nat)
    requires Above(chain, done, j + 1) && j < |chain| - 1
    ensures Above(chain, done + [j], j) && InChain(chain, done)
    ensures Leaves(env, chain, done + [j]) == Leaves(env, chain, done) + [Leaf(j, env.hash(chain[j]))]
  {
  }

  /** One turn of the verifier follows one turn of the prover. */
  lemma OneTurn(env: Network, chain: seq<SystemState>, bld: Builder, lower: nat, samp: Sampler, k: nat,
                heading: bool, done: seq<int>,
                p: WorkProof, l: Loop) returns (next: Loop)
    requires Ready(env, chain, samp, k) && Honest(env, chain, bld) && Sample(env, samp, lower).0.Some? && samp.begin < TOP
    requires InStep(env, chain, bld, p, samp, k, heading, done, Collect(env, chain, bld, lower, samp, k, heading, done), l)
    ensures
      var (d, samp') := Sample(env, samp, lower);
      var j := Find(chain, d.value, 0);
      var jump := j + 1 != k;
      var samp'' := Lowered(samp', chain[j].Lo());
      var done' := if jump then done + [j] else done;
      && j < k && Ready(env, chain, samp'', j) && samp''.begin < samp.begin
      && Turn(env, p, chain[|chain| - 1], lower, l).Continue? && Turn(env, p, chain[|chain| - 1], lower, l).next == next
      && InStep(env, chain, bld, p, samp'', j, heading && !jump, done',
                Collect(env, chain, bld, lower, samp'', j, heading && !jump, done'), next)
  {
    hide Sample, Find, Honest, Chain, Follow, Collect, InStep, NextState, TurnsTo;
    var tip := chain[|chain| - 1];
    var (d, samp') := Sample(env, samp, lower);
    SampleDescends(env, samp, lower);
    FindBelow(env, chain, d.value, k);
    var j := Find(chain, d.value, 0);
    var jump := j + 1 != k;
    var samp'' := Lowered(samp', chain[j].Lo());
    var done' := if jump then done + [j] else done;
    var rest := Collect(env, chain, bld, lower, samp'', j, heading && !jump, done');
    CollectStep(env, chain, bld, lower, samp, k, heading, done);
    ChainAt(env, chain, j, k);
    InStepLoop(env, chain, bld, p, samp, k, heading, done, Collect(env, chain, bld, lower, samp, k, heading, done), l);
    if jump {
      JumpTurn(env, chain, bld, p, samp, k, heading, done, l, samp'', j, rest);
    } else {
      assert [] + rest.hashes == rest.hashes;
      ParentTurn(env, chain, bld, p, samp, k, heading, done, l, samp'', j, rest);
    }
    TurnNext(env, chain, bld, p, lower, l, samp'', j, heading && !jump, done', rest);
    next := Turn(env, p, tip, lower, l).next;
  }

  /** The verifier's next state stands for state j of the chain, and the loop goes on in step with the rest of the proof. */
  ghost predicate TurnsTo(env: Network, chain: seq<SystemState>, bld: Builder, p: WorkProof, l: Loop, samp: Sampler, j: nat,
                          heading: bool, done: seq<int>, rest: Suffix)
    requires j < |chain|
  {
    var next := NextState(p, l);
    && next.Some? && next.value.Lo() == chain[j].Lo() && next.value.work == chain[j].work
    && var f := Follow(env, p, chain[|chain| - 1], l, next.value);
    f.Some? && InStep(env, chain, bld, p, samp, j, heading, done, rest,
                      Loop(samp, next.value, next.value.Lo(), l.i + 1, f.value.0, f.value.1))
  }

  lemma TurnNext(env: Network, chain: seq<SystemState>, bld: Builder, p: WorkProof, lower: nat, l: Loop, samp: Sampler, j: nat,
                 heading: bool, done: seq<int>, rest: Suffix)
    requires j < |chain| && TurnsTo(env, chain, bld, p, l, samp, j, heading, done, rest)
    requires Sample(env, l.samp, lower).0.Some? && samp == Lowered(Sample(env, l.samp, lower).1, chain[j].Lo())
    requires chain[j].Lo() <= Sample(env, l.samp, lower).0.value < chain[j].work
    ensures Turn(env, p, chain[|chain| - 1], lower, l).Continue?
    ensures InStep(env, chain, bld, p, samp, j, heading, done, rest, Turn(env, p, chain[|chain| - 1], lower, l).next)
  {
    hide Sample, NextState, Follow, InStep;
  }

  lemma JumpTurn(env: Network, chain: seq<SystemState>, bld: Builder, p: WorkProof, samp: Sampler, k: nat, heading: bool,
                 done: seq<int>, l: Loop, samp': Sampler, j: nat, rest: Suffix)
    requires Honest(env, chain, bld) && j < k < |chain| && j + 1 != k
    requires chain[j].height == FIRST_HEIGHT + j && chain[k].height == FIRST_HEIGHT + k && chain[j].work < chain[k].Lo()
    requires InStep(env, chain, bld, p, samp, k, heading, done,
                    Suffix([], chain[k], [chain[j]] + rest.arbitrary, bld(done, j) + rest.hashes), l)
    ensures TurnsTo(env, chain, bld, p, l, samp', j, false, done + [j], rest)
  {
    hide Honest, Follow, DataOf, Leaves;
    var at := l.i - |p.elements|;
    assert at >= 0 && p.arbitrary[at..] == [chain[j]] + rest.arbitrary;
    assert p.arbitrary[at] == chain[j] && p.arbitrary[at + 1..] == rest.arbitrary;
    AboveLess(chain, done, j + 1, k);
    LeavesSnoc(env, chain, done, j);
    DataSnoc(bld, done, j);
    FollowJump(env, chain, bld, p, done, l, j, k, rest.hashes);
  }

  lemma AboveLess(chain: seq<SystemState>, done: seq<int>, j: nat, k: nat)
    requires Above(chain, done, k) && j <= k
    ensures Above(chain, done, j)
  {
  }

  lemma ParentTurn(env: Network, chain: seq<SystemState>, bld: Builder, p: WorkProof, samp: Sampler, k: nat, heading: bool,
                   done: seq<int>, l: Loop, samp': Sampler, j: nat, rest: Suffix)
    requires j + 1 == k < |chain| && chain[k].prev == env.hash(chain[j]) && chain[k].Lo() == chain[j].work
    requires chain[j].height + 1 == chain[k].height
    requires InStep(env, chain, bld, p, samp, k, heading, done,
                    Suffix(if heading then [chain[j].elem] + rest.elements else [], if heading then rest.low else chain[k],
                           if heading then rest.arbitrary else [chain[j]] + rest.arbitrary, rest.hashes), l)
    ensures TurnsTo(env, chain, bld, p, l, samp', j, heading, done, rest)
  {
    hide Follow, DataOf, Leaves;
    AboveLess(chain, done, j, k);
    if heading {
      assert p.elements[l.i..] == [chain[j].elem] + rest.elements;
      assert p.elements[l.i] == chain[j].elem && p.elements[l.i + 1..] == rest.elements;
    } else {
      var at := l.i - |p.elements|;
      assert p.arbitrary[at..] == [chain[j]] + rest.arbitrary;
      assert p.arbitrary[at] == chain[j] && p.arbitrary[at + 1..] == rest.arbitrary;
    }
    FollowParent(env, chain, p, l, NextState(p, l).value, heading, j, k);
  }

  /** `Collect` unfolded once. */
  lemma CollectStep(env: Network, chain: seq<SystemState>, bld: Builder, lower: nat, samp: Sampler, k: nat,
                    heading: bool, done: seq<int>)
    requires Ready(env, chain, samp, k) && Sample(env, samp, lower).0.Some? && samp.begin < TOP
    ensures
      var (d, samp') := Sample(env, samp, lower);
      var j := Find(chain, d.value, 0);
      var jump := j + 1 != k;
      var samp'' := Lowered(samp', chain[j].Lo());
      && j < k && Ready(env, chain, samp'', j) && samp''.begin < samp.begin
      && var rest := Collect(env, chain, bld, lower, samp'', j, heading && !jump, if jump then done + [j] else done);
      Collect(env, chain, bld, lower, samp, k, heading, done) ==
        Suffix(if heading && !jump then [chain[j].elem] + rest.elements else [],
               if heading && !jump then rest.low else chain[k],
               if heading && !jump then rest.arbitrary else [chain[j]] + rest.arbitrary,
               (if jump then bld(done, j) else []) + rest.hashes)
  {
    hide Sample, Find, Chain;
    var (d, samp') := Sample(env, samp, lower);
    SampleDescends(env, samp, lower);
    FindBelow(env, chain, d.value, k);
  }

  lemma ChainAt(env: Network, chain: seq<SystemState>, j: nat, k: nat)
    requires Chain(env, chain) && j < k < |chain|
    ensures chain[j].height == FIRST_HEIGHT + j && chain[k].height == FIRST_HEIGHT + k
    ensures j + 1 == k ==> chain[k].prev == env.hash(chain[j]) && chain[k].Lo() == chain[j].work
  {
    ChainLo(env, chain, k);
  }

  lemma FollowJump(env: Network, chain: seq<SystemState>, bld: Builder, p: WorkProof, done: seq<int>, l: Loop,
                   j: nat, k: nat, rest: seq<nat>)
    requires Honest(env, chain, bld) && Above(chain, done, k) && j < k < |chain| && j + 1 != k
    requires chain[j].height == FIRST_HEIGHT + j && l.s.height == FIRST_HEIGHT + k && chain[j].work < l.lo
    requires l.i >= |p.elements| && l.done == Leaves(env, chain, done) && l.used <= |p.hashes|
    requires p.hashes[..l.used] == DataOf(bld, done) && p.hashes[l.used..] == bld(done, j) + rest
    ensures Follow(env, p, chain[|chain| - 1], l, chain[j]) ==
      Some((l.done + [Leaf(j, env.hash(chain[j]))], l.used + |bld(done, j)|))
    ensures l.used + |bld(done, j)| <= |p.hashes| && p.hashes[l.used + |bld(done, j)|..] == rest
    ensures p.hashes[..l.used + |bld(done, j)|] == DataOf(bld, done) + bld(done, j)
  {
    hide DataOf;
    assert ProvenAt(env, chain, bld, done, j, rest);
    hide Honest;
    assert p.hashes[l.used + |bld(done, j)|..] == p.hashes[l.used..][|bld(done, j)|..];
    assert p.hashes[..l.used + |bld(done, j)|] == p.hashes[..l.used] + p.hashes[l.used..][..|bld(done, j)|];
  }

  lemma FollowParent(env: Network, chain: seq<SystemState>, p: WorkProof, l: Loop, s': SystemState, heading: bool,
                     j: nat, k: nat)
    requires j + 1 == k < |chain| && chain[k].prev == env.hash(chain[j]) && chain[k].Lo() == chain[j].work
    requires l.lo == chain[k].Lo() && chain[j].height + 1 == chain[k].height
    requires if heading then l.i < |p.elements| else l.i >= |p.elements| && s' == chain[j] && l.s == chain[k]
    ensures Follow(env, p, chain[|chain| - 1], l, s') == Some((l.done, l.used))
  {
  }

  /** A proof created from a consistent chain is accepted, for any lower bound and any oracle, and its tip is the chain's. */
  lemma CreateIsValid(env: Network, chain: seq<SystemState>, bld: Builder, lower: nat)
    requires Fair(env) && Chain(env, chain) && Honest(env, chain, bld)
    ensures
      var p := Create(env, chain, bld, lower);
      && p.elements != [] && Heading(env, p, 0) == chain[|chain| - 1]
      && IsValid(env, p, lower)
  {
    hide Chain, Honest, Collect, Steps;
    ChainSane(env, chain);
    var top := |chain| - 1;
    var tip := chain[top];
    var p := Create(env, chain, bld, lower);
    StartReady(env, chain);
    var samp := Start(env, tip);
    var r := Collect(env, chain, bld, lower, samp, top, true, []);
    CollectHeading(env, chain, bld, lower, samp, top, []);
    ElementsAre(chain, top, r, p);
    forall i | 0 <= i < |p.elements| ensures Heading(env, p, i) == chain[top - i] {
      HeadingIsChain(env, chain, p, top, i);
    }
    CollectedSane(env, chain, bld, lower, samp, top, true, []);
    ChainLo(env, chain, top);
    hide Heading;
    var l := FirstLoop(env, tip);
    assert InStep(env, chain, bld, p, samp, top, true, [], r, l);
    CollectAccepted(env, chain, bld, lower, samp, top, true, [], p, l);
    assert AllSane(env, p);
  }

  lemma ElementsAre(chain: seq<SystemState>, top: nat, r: Suffix, p: WorkProof)
    requires top < |chain| && |r.elements| <= top && p.elements == [chain[top].elem] + r.elements
    requires forall i :: 0 <= i < |r.elements| ==> r.elements[i] == chain[top - 1 - i].elem
    ensures forall j :: 0 <= j < |p.elements| ==> p.elements[j] == chain[top - j].elem
  {
  }

  lemma ChainSane(env: Network, chain: seq<SystemState>)
    requires Chain(env, chain)
    ensures chain != [] && forall i :: 0 <= i < |chain| ==> env.sane(chain[i])
  {
  }

  lemma {:induction false} CollectedSane(env: Network, chain: seq<SystemState>, bld: Builder, lower: nat,
                                         samp: Sampler, k: nat,
                                         heading: bool, done: seq<int>)
    requires Ready(env, chain, samp, k) && samp.begin < TOP
    ensures
      var r := Collect(env, chain, bld, lower, samp, k, heading, done);
      forall i :: 0 <= i < |r.arbitrary| ==> env.sane(r.arbitrary[i])
    decreases samp.begin
  {
    hide Sample, Find, Chain;
    var (d, samp') := Sample(env, samp, lower);
    if d.Some? {
      CollectStep(env, chain, bld, lower, samp, k, heading, done);
      var j := Find(chain, d.value, 0);
      var jump := j + 1 != k;
      ChainSane(env, chain);
      CollectedSane(env, chain, bld, lower, Lowered(samp', chain[j].Lo()), j, heading && !jump,
                    if jump then done + [j] else done);
    }
  }
}
