/** The emitted code simulates the structured program: same values in the same places, same calls, same traps. */
module WasmSimulation {
  import opened Words
  import opened WasmCode
  import opened WasmCompiler
  import opened WasmSource
  import opened WasmMachine
  import opened WasmLayout
  import opened WasmLink

  // ----- Words of values -----

  lemma {:induction false} FlatAppend(a: seq<Value>, b: seq<Value>)
    ensures Flat(a + b) == Flat(a) + Flat(b)
    decreases |b|
  {
    if b == [] {
      assert a + b == a;
    } else {
      var n := |b| - 1;
      assert (a + b)[..|a| + n] == a + b[..n];
      FlatAppend(a, b[..n]);
    }
  }

  lemma {:induction false} FlatLength(vs: seq<Value>)
    requires AllValid(vs)
    ensures |Flat(vs)| == SizeWords(Types(vs))
  {
    if vs != [] {
      var n := |vs| - 1;
      FlatLength(vs[..n]);
      assert Types(vs)[..n] == Types(vs[..n]);
    }
  }

  lemma {:induction false} UnflatFlat(vs: seq<Value>)
    requires AllValid(vs)
    ensures |Flat(vs)| == SizeWords(Types(vs))
    ensures Unflat(Flat(vs), Types(vs)) == vs
  {
    hide Types, SizeWords;
    FlatLength(vs);
    if vs != [] {
      var n := |vs| - 1;
      UnflatFlat(vs[..n]);
      assert Types(vs)[..n] == Types(vs[..n]);
      Rejoined(Flat(vs[..n]), vs[n].ws);
      assert vs == vs[..n] + [vs[n]];
    }
  }

  lemma Rejoined<T>(a: seq<T>, b: seq<T>)
    ensures (a + b)[..|a + b| - |b|] == a && (a + b)[|a + b| - |b|..] == b
  {
  }

  lemma FlatOne(v: Value)
    ensures Flat([v]) == v.ws
  {
    assert [v][..0] == [];
  }

  // ----- The simulation relation -----

  ghost predicate LabelOk(m: Module, hdr: nat, f: nat, scopes: seq<Scope>, k: nat, lab: Label)
    requires Accepted(m, hdr) && f < |m.funcs| && k + 1 < |scopes|
  {
    var sc := scopes[k + 1];
    && lab.height == |sc.exit|
    && lab.cont < |m.funcs[f].body|
    && sc.lbl < |Final(m, hdr).labels|
    && Final(m, hdr).labels[sc.lbl] == Addr(m, hdr, f, lab.cont)
    && var t := At(m, hdr, f, lab.cont);
    && t.scopes == scopes[..k + 1] && t.ops == sc.exit && !t.dead
  }

  /** A frame agrees with the compiler's state at its position; `pending` are the results of a call in progress. */
  ghost predicate FrameOk(m: Module, hdr: nat, fr: Frame, pending: seq<ValType>)
    requires Accepted(m, hdr)
  {
    && fr.f < |m.funcs| && fr.pc < |m.funcs[fr.f].body|
    && var c := At(m, hdr, fr.f, fr.pc);
    && !c.dead
    && Types(fr.ops) + pending == c.ops && AllValid(fr.ops)
    && Types(fr.locals) == m.funcs[fr.f].Locals() && AllValid(fr.locals)
    && |fr.labels| + 1 == |c.scopes|
    && (forall k :: 0 <= k < |fr.labels| ==> LabelOk(m, hdr, fr.f, c.scopes, k, fr.labels[k]))
    && Kept(fr.ops, fr.labels, c.scopes)
  }

  /** The operands that were there when each open block was entered are still there. */
  ghost predicate Kept(ops: seq<Value>, labels: seq<Label>, scopes: seq<Scope>)
    requires |labels| + 1 == |scopes|
  {
    && (forall j, k :: 0 <= j < k < |labels| ==> labels[j].height <= labels[k].height)
    && (forall k :: 0 <= k < |labels| ==>
          labels[k].height <= |ops| && Types(ops)[..labels[k].height] == scopes[k + 1].exit)
  }

  ghost predicate FramesOk(m: Module, hdr: nat, frames: seq<Frame>, pending: seq<ValType>)
    requires Accepted(m, hdr)
  {
    && frames != []
    && var n := |frames| - 1;
    && FrameOk(m, hdr, frames[n], pending)
    && (n > 0 ==> FramesOk(m, hdr, frames[..n], m.funcs[frames[n].f].tp.rets))
  }

  function RetWord(a: nat): Word {
    if a < W32 then ToWord(a) else ZERO_WORD
  }

  /** Arguments, return address and locals of a frame. */
  function FrameBase(m: Module, fr: Frame, ret: nat): seq<Word> {
    var n := if fr.f < |m.funcs| && |m.funcs[fr.f].tp.args| <= |fr.locals| then |m.funcs[fr.f].tp.args| else 0;
    Flat(fr.locals[..n]) + [RetWord(ret)] + Flat(fr.locals[n..])
  }

  ghost function RetAddr(m: Module, hdr: nat, rest: seq<Frame>): nat
    requires Accepted(m, hdr)
  {
    if rest == [] then 0
    else
      var fr := rest[|rest| - 1];
      if fr.f < |m.funcs| && fr.pc <= |m.funcs[fr.f].body| then Addr(m, hdr, fr.f, fr.pc) else 0
  }

  ghost function StackOf(m: Module, hdr: nat, frames: seq<Frame>): seq<Word>
    requires Accepted(m, hdr)
  {
    if frames == [] then []
    else
      var n := |frames| - 1;
      StackOf(m, hdr, frames[..n]) + FrameBase(m, frames[n], RetAddr(m, hdr, frames[..n])) + Flat(frames[n].ops)
  }

  /** Everything below the operands of the top frame. */
  ghost function Under(m: Module, hdr: nat, rest: seq<Frame>, fr: Frame): seq<Word>
    requires Accepted(m, hdr)
  {
    StackOf(m, hdr, rest) + FrameBase(m, fr, RetAddr(m, hdr, rest))
  }

  ghost predicate Rel<H>(m: Module, hdr: nat, frames: seq<Frame>, h: H, s: Machine<H>)
    requires Accepted(m, hdr)
  {
    && FramesOk(m, hdr, frames, [])
    && var fr := frames[|frames| - 1];
    && s.ip == Addr(m, hdr, fr.f, fr.pc)
    && s.stk == StackOf(m, hdr, frames)
    && s.host == h
  }

  /** The flat machine is where the structured one is. */
  ghost predicate Agrees<H>(m: Module, hdr: nat, c: Config<H>, o: Outcome<H>)
    requires Accepted(m, hdr)
  {
    match c
    case Running(frames, h) => o.Go? && Rel(m, hdr, frames, h, o.s)
    case Finished(rets, h) => o == Go(Machine(0, Flat(rets), h))
    case Trapped => o.Fault?
    case Aborted => false
    case OutOfBlock => false
    case Stuck => false
  }

  /** The same, for programs that need not be valid: nothing is said once one has aborted or has taken an operand of an
      enclosing block. `WasmValid.Soundness` shows that valid ones do neither. */
  ghost predicate Match<H>(m: Module, hdr: nat, c: Config<H>, o: Outcome<H>)
    requires Accepted(m, hdr)
  {
    c.Aborted? || c.OutOfBlock? || Agrees(m, hdr, c, o)
  }

  /** In one or two instructions the flat machine either runs out of stack or catches up with configuration c. */
  ghost predicate Catches<H>(env: Env<H>, m: Module, hdr: seq<byte>, tail: seq<byte>, s: Machine<H>, c: Config<H>)
    requires Fits(m, |hdr|)
  {
    exists k: nat :: 1 <= k <= 2 &&
      (TickN(env, Image(m, hdr, tail), s, k).Overflow? || Match(m, |hdr|, c, TickN(env, Image(m, hdr, tail), s, k)))
  }

  // ----- Side conditions -----

  /** The host functions behind the bindings have the declared types. */
  ghost predicate BindingsOk<H>(env: Env<H>, m: Module) {
    && (forall i :: 0 <= i < |m.imports| && m.imports[i].binding.Some? ==>
          env.extSig(0xF3, m.imports[i].binding.value) == Sig(m.imports[i].tp.args, m.imports[i].tp.rets))
    && (forall i :: 0 <= i < |m.globals| && m.globals[i].binding.Some? ==>
          && env.extSig(0xF8, m.globals[i].binding.value) == Sig([], [m.globals[i].t])
          && env.extSig(0xF9, m.globals[i].binding.value) == Sig([m.globals[i].t], []))
  }

  // ----- Moving along -----

  lemma Rejoin(m: Module, hdr: nat, rest: seq<Frame>, fr: Frame)
    requires Accepted(m, hdr) && FrameOk(m, hdr, fr, [])
    requires rest != [] ==> FramesOk(m, hdr, rest, m.funcs[fr.f].tp.rets)
    ensures FramesOk(m, hdr, rest + [fr], [])
    ensures StackOf(m, hdr, rest + [fr]) == Under(m, hdr, rest, fr) + Flat(fr.ops)
  {
    hide FrameOk, FrameBase, RetAddr, Accepted;
    assert (rest + [fr])[..|rest|] == rest;
  }

  /** A frame that advanced past an instruction that opens or closes no block. */
  lemma NextFrame(m: Module, hdr: nat, fr: Frame, fr': Frame)
    requires Accepted(m, hdr) && FrameOk(m, hdr, fr, [])
    requires fr'.f == fr.f && fr'.pc == fr.pc + 1 && fr'.labels == fr.labels
    requires Types(fr'.locals) == Types(fr.locals) && AllValid(fr'.locals) && AllValid(fr'.ops)
    requires
      var c, c' := At(m, hdr, fr.f, fr.pc), At(m, hdr, fr.f, fr.pc + 1);
      c'.scopes == c.scopes && !c'.dead && Types(fr'.ops) == c'.ops
    requires fr.Floor() <= |fr'.ops| && fr.Floor() <= |fr.ops| && fr'.ops[..fr.Floor()] == fr.ops[..fr.Floor()]
    ensures FrameOk(m, hdr, fr', [])
  {
    hide At, LabelOk, Accepted, Kept;
    AtInv(m, hdr, fr.f, fr.pc + 1);
    KeptBelowFloor(fr.ops, fr'.ops, fr.labels, At(m, hdr, fr.f, fr.pc).scopes, fr.Floor());
  }

  lemma KeptBelowFloor(a: seq<Value>, b: seq<Value>, labels: seq<Label>, scopes: seq<Scope>, floor: nat)
    requires |labels| + 1 == |scopes| && Kept(a, labels, scopes)
    requires floor == if labels == [] then 0 else labels[|labels| - 1].height
    requires floor <= |b| && floor <= |a| && b[..floor] == a[..floor]
    ensures Kept(b, labels, scopes)
  {
    hide Types;
    forall k | 0 <= k < |labels| ensures labels[k].height <= |b| && Types(b)[..labels[k].height] == scopes[k + 1].exit {
      var n := labels[k].height;
      assert n <= floor;
      TypesPrefix(a, n);
      TypesPrefix(b, n);
      assert a[..n] == a[..floor][..n] && b[..n] == b[..floor][..n];
    }
  }

  /** What a frame's labels say about its operand height. */
  lemma FloorBelow(m: Module, hdr: nat, fr: Frame, pending: seq<ValType>)
    requires Accepted(m, hdr) && FrameOk(m, hdr, fr, pending)
    ensures fr.Floor() <= |fr.ops|
  {
    hide At, LabelOk, Accepted;
  }

  /** No claim is made about programs that validation would have refused. */
  lemma OutOfBlockIsFree<H>(env: Env<H>, m: Module, hdr: seq<byte>, tail: seq<byte>, s: Machine<H>)
    requires Fits(m, |hdr|)
    ensures Catches(env, m, hdr, tail, s, OutOfBlock)
  {
    hide Image;
    CatchesAfter(env, m, hdr, tail, s, OutOfBlock, 1);
  }

  /** Executing where instruction i of function f was emitted executes the instruction emitted for it. */
  lemma TickAt<H>(env: Env<H>, m: Module, hdr: seq<byte>, tail: seq<byte>, f: nat, i: nat, op: FlatOp, s: Machine<H>)
    requires Fits(m, |hdr|) && f < |m.funcs| && i < |m.funcs[f].body|
    requires At(m, |hdr|, f, i + 1).out == At(m, |hdr|, f, i).out + [op]
    requires s.ip == Addr(m, |hdr|, f, i)
    ensures
      var code, u := Image(m, hdr, tail), Final(m, |hdr|);
      && TickN(env, code, s, 1) == ExecOp(env, |code|, s, Resolve(op, u.labels), Addr(m, |hdr|, f, i + 1))
      && Addr(m, |hdr|, f, i + 1) < W32
  {
    hide Build, ExecOp, Image, Decode, At, CodeSize, InRange;
    var n := |hdr|;
    var u, code := Final(m, n), Image(m, hdr, tail);
    var k := |At(m, n, f, i).out|;
    AtFinal(m, n, f, i + 1, 0);
    assert u.out[..k] == At(m, n, f, i).out;
    assert u.out[..k + 1] == At(m, n, f, i + 1).out;
    assert u.out[k] == op;
    FetchAt(m, hdr, tail, k);
    CodeSizeMono(u.out, k + 1);
    assert TickN(env, code, s, 0) == Go(s);
  }

  /** Addresses reached by jumps lie inside the code. */
  lemma AddrInCode(m: Module, hdr: seq<byte>, tail: seq<byte>, f: nat, i: nat)
    requires Fits(m, |hdr|) && f < |m.funcs| && i < |m.funcs[f].body|
    ensures Addr(m, |hdr|, f, i) < |Image(m, hdr, tail)| && Addr(m, |hdr|, f, i) < W32
  {
    hide Build, At, InRange, Resolve, CodeSize, EncodeAll, ResolveAll;
    var n, fn := |hdr|, m.funcs[f];
    LastAt(m, n, f);
    OutGrows(m, n, f, i, |fn.body| - 1);
    AtFinal(m, n, f, |fn.body|, 0);
    var u := Final(m, n);
    PrefixSmaller(At(m, n, f, i).out, u.out);
    FitsAddresses(m, n);
    ResolveKeepsSize(u.out, u.labels);
  }

  lemma PrefixSmaller(a: seq<FlatOp>, b: seq<FlatOp>)
    requires a < b
    ensures CodeSize(a) < CodeSize(b)
  {
    var k := |a|;
    assert b[..k] == a;
    assert b[..k + 1][..k] == a;
    CodeSizeMono(b, k + 1);
  }

  lemma LastAt(m: Module, hdr: nat, f: nat)
    requires Accepted(m, hdr) && f < |m.funcs|
    ensures |m.funcs[f].body| > 0
    ensures At(m, hdr, f, |m.funcs[f].body|).out == At(m, hdr, f, |m.funcs[f].body| - 1).out + [m.funcs[f].RetOp()]
  {
    hide Build, Run;
    CompiledFunc(m, hdr, f);
    LastEmits(m, hdr, m.funcs[f], StartOf(m, hdr, f));
  }

  lemma OutGrows(m: Module, hdr: nat, f: nat, i: nat, k: nat)
    requires Accepted(m, hdr) && f < |m.funcs| && i <= k <= |m.funcs[f].body|
    ensures At(m, hdr, f, i).out <= At(m, hdr, f, k).out
  {
    hide Build, Run;
    CompiledFunc(m, hdr, f);
    StartInv(m, hdr, f);
    RunPrefix(m, hdr, m.funcs[f], StartOf(m, hdr, f), k, |m.funcs[f].body|);
    RunGrows(m, hdr, m.funcs[f], StartOf(m, hdr, f), i, k, 0);
  }

  // ----- One instruction at a time -----

  /** The flat machine stands at frame fr on top of rest. */
  ghost predicate Ready<H>(m: Module, hdr: nat, rest: seq<Frame>, fr: Frame, h: H, s: Machine<H>)
    requires Accepted(m, hdr)
  {
    && FrameOk(m, hdr, fr, [])
    && (rest != [] ==> FramesOk(m, hdr, rest, m.funcs[fr.f].tp.rets))
    && s.ip == Addr(m, hdr, fr.f, fr.pc)
    && s.stk == Under(m, hdr, rest, fr) + Flat(fr.ops)
    && s.host == h
  }

  lemma ReadyIsRel<H>(m: Module, hdr: nat, rest: seq<Frame>, fr: Frame, h: H, s: Machine<H>)
    requires Accepted(m, hdr) && Ready(m, hdr, rest, fr, h, s)
    ensures Rel(m, hdr, rest + [fr], h, s)
  {
    hide FrameOk, FramesOk, StackOf, Under, Addr;
    Rejoin(m, hdr, rest, fr);
    FramesTop(m, hdr, rest, fr);
  }

  lemma FramesTop(m: Module, hdr: nat, rest: seq<Frame>, fr: Frame)
    requires Accepted(m, hdr) && FrameOk(m, hdr, fr, [])
    ensures fr.f < |m.funcs| && fr.pc < |m.funcs[fr.f].body|
  {
  }

  lemma CatchesAfter<H>(env: Env<H>, m: Module, hdr: seq<byte>, tail: seq<byte>, s: Machine<H>, c: Config<H>, k: nat)
    requires Fits(m, |hdr|) && 1 <= k <= 2
    requires var o := TickN(env, Image(m, hdr, tail), s, k); o.Overflow? || Match(m, |hdr|, c, o)
    ensures Catches(env, m, hdr, tail, s, c)
  {
    hide TickN, Match, Image;
  }

  /** Instructions that emit nothing: the flat machine is already there. */
  lemma Silent<H>(m: Module, hdr: nat, rest: seq<Frame>, fr: Frame, fr': Frame, h: H, s: Machine<H>)
    requires Accepted(m, hdr) && Ready(m, hdr, rest, fr, h, s)
    requires FrameOk(m, hdr, fr', []) && fr'.f == fr.f && fr'.locals == fr.locals && fr'.ops == fr.ops
    requires Addr(m, hdr, fr'.f, fr'.pc) == Addr(m, hdr, fr.f, fr.pc)
    ensures Agrees(m, hdr, Running(rest + [fr'], h), Go(s))
  {
    hide FrameOk, FramesOk, StackOf, Addr, Flat, RetAddr, Accepted;
    assert Ready(m, hdr, rest, fr', h, s);
    ReadyIsRel(m, hdr, rest, fr', h, s);
  }

  lemma SimNop<H>(m: Module, hdr: nat, rest: seq<Frame>, fr: Frame, h: H, s: Machine<H>)
    requires Accepted(m, hdr) && Ready(m, hdr, rest, fr, h, s) && m.funcs[fr.f].body[fr.pc].Nop?
    ensures Agrees(m, hdr, Running(rest + [fr.(pc := fr.pc + 1)], h), Go(s))
  {
    hide At, Agrees, Accepted;
    AtNext(m, hdr, fr.f, fr.pc);
    FloorBelow(m, hdr, fr, []);
    NextFrame(m, hdr, fr, fr.(pc := fr.pc + 1));
    Silent(m, hdr, rest, fr, fr.(pc := fr.pc + 1), h, s);
  }

  /** Entering a block records where a branch out of it will land, in both machines. */
  lemma EnterBlock(m: Module, hdr: nat, fr: Frame)
    requires Accepted(m, hdr) && FrameOk(m, hdr, fr, [])
    requires m.funcs[fr.f].body[fr.pc].Block? || m.funcs[fr.f].body[fr.pc].Loop?
    ensures
      var body := m.funcs[fr.f].body;
      var cont := if body[fr.pc].Block? then FindEnd(body, fr.pc + 1, 0) + 1 else fr.pc;
      && fr.pc + 1 < |body|
      && Addr(m, hdr, fr.f, fr.pc + 1) == Addr(m, hdr, fr.f, fr.pc)
      && FrameOk(m, hdr, fr.(pc := fr.pc + 1, labels := fr.labels + [Label(cont, |fr.ops|)]), [])
  {
    hide At, LabelOk, FindEnd, CodeSize, Accepted;
    var f, i, fn := fr.f, fr.pc, m.funcs[fr.f];
    var c, c' := At(m, hdr, f, i), At(m, hdr, f, i + 1);
    AtNext(m, hdr, f, i);
    AtInv(m, hdr, f, i);
    AtInv(m, hdr, f, i + 1);
    assert c' == Open(hdr, c, fn.body[i].Loop?);
    var n := |c.scopes|;
    var cont := if fn.body[i].Block? then FindEnd(fn.body, i + 1, 0) + 1 else i;
    NewLabel(m, hdr, f, i, |fr.ops|);
    forall k | 0 <= k <= |fr.labels|
      ensures LabelOk(m, hdr, f, c'.scopes, k, (fr.labels + [Label(cont, |fr.ops|)])[k])
    {
      if k < |fr.labels| {
        LabelPrefix(m, hdr, f, c.scopes, c'.scopes, k, fr.labels[k]);
      }
    }
    assert Types(fr.ops)[..|fr.ops|] == c.ops;
  }

  lemma LabelPrefix(m: Module, hdr: nat, f: nat, a: seq<Scope>, b: seq<Scope>, k: nat, lab: Label)
    requires Accepted(m, hdr) && f < |m.funcs| && k + 1 < |a| && k + 1 < |b|
    requires a[..k + 2] == b[..k + 2] && LabelOk(m, hdr, f, a, k, lab)
    ensures LabelOk(m, hdr, f, b, k, lab)
  {
    hide At, Addr, Accepted, Build;
    assert a[..k + 2][k + 1] == b[..k + 2][k + 1];
    assert a[..k + 1] == a[..k + 2][..k + 1];
    assert b[..k + 1] == b[..k + 2][..k + 1];
  }

  lemma NewLabel(m: Module, hdr: nat, f: nat, i: nat, height: nat)
    requires Accepted(m, hdr) && f < |m.funcs| && i < |m.funcs[f].body|
    requires m.funcs[f].body[i].Block? || m.funcs[f].body[i].Loop?
    requires !At(m, hdr, f, i).dead && height == |At(m, hdr, f, i).ops| && At(m, hdr, f, i).scopes != []
    ensures
      var body := m.funcs[f].body;
      var c' := At(m, hdr, f, i + 1);
      && c' == Open(hdr, At(m, hdr, f, i), body[i].Loop?)
      && LabelOk(m, hdr, f, c'.scopes, |c'.scopes| - 2,
                 Label(if body[i].Block? then FindEnd(body, i + 1, 0) + 1 else i, height))
  {
    hide At, FindEnd, CodeSize, Accepted, Build;
    var body := m.funcs[f].body;
    var c, c' := At(m, hdr, f, i), At(m, hdr, f, i + 1);
    AtNext(m, hdr, f, i);
    AtInv(m, hdr, f, i);
    assert c' == Open(hdr, c, body[i].Loop?);
    var l := |c.labels|;
    assert c'.scopes[..|c.scopes|] == c.scopes;
    if body[i].Loop? {
      assert Settled(c', l);
      AtFinal(m, hdr, f, i + 1, l);
    } else {
      ClosingEnd(m, hdr, f, i + 1, 0, c'.scopes);
      var j := FindEnd(body, i + 1, 0);
      AtFinal(m, hdr, f, j + 1, l);
    }
  }

  lemma SimEnter<H>(m: Module, hdr: nat, rest: seq<Frame>, fr: Frame, h: H, s: Machine<H>)
    requires Accepted(m, hdr) && Ready(m, hdr, rest, fr, h, s)
    requires m.funcs[fr.f].body[fr.pc].Block? || m.funcs[fr.f].body[fr.pc].Loop?
    ensures
      var body := m.funcs[fr.f].body;
      var cont := if body[fr.pc].Block? then FindEnd(body, fr.pc + 1, 0) + 1 else fr.pc;
      Agrees(m, hdr, Running(rest + [fr.(pc := fr.pc + 1, labels := fr.labels + [Label(cont, |fr.ops|)])], h), Go(s))
  {
    hide Agrees, Accepted, FindEnd, Addr, FrameOk;
    FramesTop(m, hdr, rest, fr);
    var body := m.funcs[fr.f].body;
    var cont := if body[fr.pc].Block? then FindEnd(body, fr.pc + 1, 0) + 1 else fr.pc;
    EnterBlock(m, hdr, fr);
    Silent(m, hdr, rest, fr, fr.(pc := fr.pc + 1, labels := fr.labels + [Label(cont, |fr.ops|)]), h, s);
  }

  lemma LeaveBlock(m: Module, hdr: nat, fr: Frame)
    requires Accepted(m, hdr) && FrameOk(m, hdr, fr, []) && m.funcs[fr.f].body[fr.pc].End? && fr.labels != []
    ensures
      && fr.pc + 1 < |m.funcs[fr.f].body|
      && Addr(m, hdr, fr.f, fr.pc + 1) == Addr(m, hdr, fr.f, fr.pc)
      && FrameOk(m, hdr, fr.(pc := fr.pc + 1, labels := fr.labels[..|fr.labels| - 1]), [])
  {
    hide At, LabelOk, CodeSize, Accepted, Close;
    var f, i, fn := fr.f, fr.pc, m.funcs[fr.f];
    var c, c' := At(m, hdr, f, i), At(m, hdr, f, i + 1);
    AtNext(m, hdr, f, i);
    AtInv(m, hdr, f, i);
    AtInv(m, hdr, f, i + 1);
    CloseNested(m, hdr, fn, c);
    CloseChecks(hdr, fn, c);
    forall k | 0 <= k < |fr.labels| - 1
      ensures LabelOk(m, hdr, f, c'.scopes, k, fr.labels[k])
    {
      LabelPrefix(m, hdr, f, c.scopes, c'.scopes, k, fr.labels[k]);
    }
  }

  lemma CloseChecks(hdr: nat, fn: Func, c: State)
    requires c.scopes != [] && Close(hdr, fn, c).Some? && !c.dead
    ensures c.ops == c.scopes[|c.scopes| - 1].exit
  {
  }

  lemma SimLeave<H>(m: Module, hdr: nat, rest: seq<Frame>, fr: Frame, h: H, s: Machine<H>)
    requires Accepted(m, hdr) && Ready(m, hdr, rest, fr, h, s)
    requires m.funcs[fr.f].body[fr.pc].End? && fr.labels != []
    ensures Agrees(m, hdr, Running(rest + [fr.(pc := fr.pc + 1, labels := fr.labels[..|fr.labels| - 1])], h), Go(s))
  {
    hide Agrees, Accepted, Addr, FrameOk;
    FramesTop(m, hdr, rest, fr);
    LeaveBlock(m, hdr, fr);
    Silent(m, hdr, rest, fr, fr.(pc := fr.pc + 1, labels := fr.labels[..|fr.labels| - 1]), h, s);
  }

  /** The machine stands at a frame after one instruction. */
  lemma OneTick<H>(env: Env<H>, m: Module, hdr: seq<byte>, tail: seq<byte>,
                   rest: seq<Frame>, fr: Frame, h: H, s: Machine<H>, s': Machine<H>)
    requires Fits(m, |hdr|) && TickN(env, Image(m, hdr, tail), s, 1) == Go(s')
    requires Ready(m, |hdr|, rest, fr, h, s')
    ensures Catches(env, m, hdr, tail, s, Running(rest + [fr], h))
  {
    hide TickN, Image, FrameOk, FramesOk, StackOf, Addr, Ready, Rel;
    ReadyIsRel(m, |hdr|, rest, fr, h, s');
    CatchesAfter(env, m, hdr, tail, s, Running(rest + [fr], h), 1);
  }

  // ----- Branches -----

  /** Unwound to label k, the frame agrees with the compiler's state where label number l of the code leads. */
  ghost predicate Lands(m: Module, hdr: nat, fr: Frame, k: nat, l: nat)
    requires Accepted(m, hdr) && fr.f < |m.funcs| && k < |fr.labels|
  {
    var lab := fr.labels[k];
    && lab.height == |fr.ops|
    && lab.cont < |m.funcs[fr.f].body|
    && l < |Final(m, hdr).labels| && Final(m, hdr).labels[l] == Addr(m, hdr, fr.f, lab.cont)
    && FrameOk(m, hdr, fr.(pc := lab.cont, labels := fr.labels[..k]), [])
  }

  /** A branch leaves a frame that agrees with the compiler's state at its destination. */
  lemma TakeBranch(m: Module, hdr: nat, fr: Frame, scopes: seq<Scope>, d: nat)
    requires Accepted(m, hdr) && fr.f < |m.funcs| && d < |fr.labels| && |fr.labels| + 1 == |scopes|
    requires forall k :: 0 <= k < |fr.labels| ==> LabelOk(m, hdr, fr.f, scopes, k, fr.labels[k])
    requires |fr.ops| == |scopes[|scopes| - 1 - d].exit| && AllValid(fr.ops) && Kept(fr.ops, fr.labels, scopes)
    requires Types(fr.locals) == m.funcs[fr.f].Locals() && AllValid(fr.locals)
    ensures Lands(m, hdr, fr, |fr.labels| - 1 - d, scopes[|scopes| - 1 - d].lbl)
  {
    hide At, CodeSize, Accepted, Build;
    var k := |fr.labels| - 1 - d;
    var lab := fr.labels[k];
    assert LabelOk(m, hdr, fr.f, scopes, k, lab);
    assert Types(fr.ops)[..lab.height] == Types(fr.ops);
    var t := At(m, hdr, fr.f, lab.cont);
    forall j | 0 <= j < k ensures LabelOk(m, hdr, fr.f, t.scopes, j, fr.labels[..k][j]) {
      assert LabelOk(m, hdr, fr.f, scopes, j, fr.labels[j]);
      LabelPrefix(m, hdr, fr.f, scopes, t.scopes, j, fr.labels[j]);
    }
  }

  lemma JumpTo<H>(env: Env<H>, m: Module, hdr: seq<byte>, tail: seq<byte>,
                  rest: seq<Frame>, fr: Frame, scopes: seq<Scope>, d: nat, h: H, s: Machine<H>, s': Machine<H>)
    requires Fits(m, |hdr|) && fr.f < |m.funcs| && d < |fr.labels| && |fr.labels| + 1 == |scopes|
    requires forall k :: 0 <= k < |fr.labels| ==> LabelOk(m, |hdr|, fr.f, scopes, k, fr.labels[k])
    requires |fr.ops| == |scopes[|scopes| - 1 - d].exit| && AllValid(fr.ops) && Kept(fr.ops, fr.labels, scopes)
    requires Types(fr.locals) == m.funcs[fr.f].Locals() && AllValid(fr.locals)
    requires rest != [] ==> FramesOk(m, |hdr|, rest, m.funcs[fr.f].tp.rets)
    requires s'.stk == Under(m, |hdr|, rest, fr) + Flat(fr.ops) && s'.host == h
    requires TickN(env, Image(m, hdr, tail), s, 1)
             == Jump(|Image(m, hdr, tail)|, s', Lookup(Final(m, |hdr|).labels, scopes[|scopes| - 1 - d].lbl))
    ensures Catches(env, m, hdr, tail, s, DoBranch(m.funcs[fr.f], rest, fr, h, d))
  {
    hide At, Addr, CodeSize, Accepted, Build, Image, TickN, Catches, LabelOk, FrameOk, FramesOk, StackOf, Flat, RetAddr, Kept;
    TakeBranch(m, |hdr|, fr, scopes, d);
    var k := |fr.labels| - 1 - d;
    var lab := fr.labels[k];
    AddrInCode(m, hdr, tail, fr.f, lab.cont);
    var fr' := fr.(pc := lab.cont, labels := fr.labels[..k]);
    assert fr.ops[..lab.height] == fr.ops;
    var t := s'.(ip := Addr(m, |hdr|, fr.f, lab.cont));
    assert Ready(m, |hdr|, rest, fr', h, t);
    OneTick(env, m, hdr, tail, rest, fr', h, s, t);
  }

  lemma SimBranch<H>(env: Env<H>, m: Module, hdr: seq<byte>, tail: seq<byte>,
                     rest: seq<Frame>, fr: Frame, h: H, s: Machine<H>)
    requires Fits(m, |hdr|) && Ready(m, |hdr|, rest, fr, h, s)
    requires m.funcs[fr.f].body[fr.pc].Branch?
    ensures Catches(env, m, hdr, tail, s,
                    DoBranch(m.funcs[fr.f], rest, fr, h, m.funcs[fr.f].body[fr.pc].depth))
  {
    hide At, Addr, CodeSize, Accepted, Build, Image, TickN, Catches, LabelOk, FramesOk, StackOf, Flat, RetAddr, Under;
    var d := m.funcs[fr.f].body[fr.pc].depth;
    var c := At(m, |hdr|, fr.f, fr.pc);
    AtNext(m, |hdr|, fr.f, fr.pc);
    TickAt(env, m, hdr, tail, fr.f, fr.pc, FlatOp.Br(Target(c, d).value), s);
    JumpTo(env, m, hdr, tail, rest, fr, c.scopes, d, h, s, s);
  }

  /** The top operand of type i32 is one word, on top of the stack. */
  lemma TopWord(under: seq<Word>, ops: seq<Value>)
    requires ops != [] && AllValid(ops) && ops[|ops| - 1].t == I32
    ensures
      var n := |ops| - 1;
      var stk := under + Flat(ops);
      && |ops[n].ws| == 1 && |stk| > 0
      && stk[|stk| - 1] == ops[n].ws[0]
      && stk[..|stk| - 1] == under + Flat(ops[..n])
  {
    var n := |ops| - 1;
    assert ops[n].Valid();
    assert Flat(ops) == Flat(ops[..n]) + ops[n].ws;
  }

  lemma TypesPrefix(vs: seq<Value>, n: nat)
    requires n <= |vs|
    ensures Types(vs[..n]) == Types(vs)[..n] && Types(vs[n..]) == Types(vs)[n..]
  {
    hide Types;
  }

  /** What the compiler knows at a conditional branch: an i32 on top, and under it as many operands as each target
      expects. */
  lemma ConditionalShape(m: Module, hdr: nat, fr: Frame, d: nat)
    requires Accepted(m, hdr) && FrameOk(m, hdr, fr, []) && |fr.ops| >= 1 + fr.Floor()
    requires
      var ins := m.funcs[fr.f].body[fr.pc];
      (ins.BranchIf? && d == ins.depth) || (ins.BranchTable? && d in ins.depths)
    ensures
      var ins := m.funcs[fr.f].body[fr.pc];
      var c, c' := At(m, hdr, fr.f, fr.pc), At(m, hdr, fr.f, fr.pc + 1);
      var n := |fr.ops| - 1;
      && n >= 0 && fr.ops[n].t == I32
      && d < |fr.labels|
      && n == |c.scopes[|c.scopes| - 1 - d].exit|
      && Kept(fr.ops[..n], fr.labels, c.scopes)
      && c'.scopes == c.scopes && c'.dead == c.dead && c'.ops == Types(fr.ops[..n])
      && (ins.BranchIf? ==> c'.out == c.out + [FlatOp.BrIf(c.scopes[|c.scopes| - 1 - d].lbl)])
  {
    hide At, LabelOk, Accepted, Types, Kept;
    var ins := m.funcs[fr.f].body[fr.pc];
    var c := At(m, hdr, fr.f, fr.pc);
    AtNext(m, hdr, fr.f, fr.pc);
    var n := |fr.ops| - 1;
    assert c.ops == Types(fr.ops);
    assert c.ops[|c.ops| - 1..] == [I32];
    assert fr.ops[n].t == c.ops[n] == I32;
    TypesPrefix(fr.ops, n);
    KeptBelowFloor(fr.ops, fr.ops[..n], fr.labels, c.scopes, fr.Floor());
  }

  lemma SimConditional<H>(env: Env<H>, m: Module, hdr: seq<byte>, tail: seq<byte>,
                          rest: seq<Frame>, fr: Frame, h: H, s: Machine<H>)
    requires Fits(m, |hdr|) && Ready(m, |hdr|, rest, fr, h, s)
    requires m.funcs[fr.f].body[fr.pc].BranchIf?
    ensures Catches(env, m, hdr, tail, s, DoConditional(m.funcs[fr.f], rest, fr, h, m.funcs[fr.f].body[fr.pc]))
  {
    hide At, Addr, CodeSize, Accepted, Build, Image, TickN, Catches, LabelOk, FramesOk, StackOf, Flat, RetAddr, DoBranch,
      Types, Kept;
    if |fr.ops| < 1 + fr.Floor() {
      OutOfBlockIsFree(env, m, hdr, tail, s);
      return;
    }
    var d := m.funcs[fr.f].body[fr.pc].depth;
    var c := At(m, |hdr|, fr.f, fr.pc);
    var n := |fr.ops| - 1;
    ConditionalShape(m, |hdr|, fr, d);
    TopWord(Under(m, |hdr|, rest, fr), fr.ops);
    var fr1 := fr.(ops := fr.ops[..n]);
    var s1 := s.(stk := s.stk[..|s.stk| - 1]);
    TickAt(env, m, hdr, tail, fr.f, fr.pc, FlatOp.BrIf(c.scopes[|c.scopes| - 1 - d].lbl), s);
    if IsTrue(fr.ops[n]) {
      JumpTo(env, m, hdr, tail, rest, fr1, c.scopes, d, h, s, s1);
    } else {
      var fr2 := fr1.(pc := fr.pc + 1);
      NextFrame(m, |hdr|, fr, fr2);
      OneTick(env, m, hdr, tail, rest, fr2, h, s, s1.(ip := Addr(m, |hdr|, fr.f, fr.pc + 1)));
    }
  }

  lemma TableShape(m: Module, hdr: nat, fr: Frame)
    requires Accepted(m, hdr) && FrameOk(m, hdr, fr, []) && m.funcs[fr.f].body[fr.pc].BranchTable?
    ensures
      var ds := m.funcs[fr.f].body[fr.pc].depths;
      var c, c' := At(m, hdr, fr.f, fr.pc), At(m, hdr, fr.f, fr.pc + 1);
      && ds != []
      && |c'.out| == |c.out| + 1 && c'.out == c.out + [c'.out[|c.out|]]
      && var op := c'.out[|c.out|];
      && op.BrTable? && |op.lbls| == |ds|
      && forall i :: 0 <= i < |ds| ==> ds[i] < |c.scopes| && op.lbls[i] == c.scopes[|c.scopes| - 1 - ds[i]].lbl
  {
    hide At, LabelOk, Accepted, Types;
    AtNext(m, hdr, fr.f, fr.pc);
    var c := At(m, hdr, fr.f, fr.pc);
    var ds := m.funcs[fr.f].body[fr.pc].depths;
    var c1 := c.(ops := Pop(c.ops, [I32]).value);
    var ls := Targets(c1, ds).value;
    forall i | 0 <= i < |ds| ensures ds[i] < |c.scopes| && ls[i] == c.scopes[|c.scopes| - 1 - ds[i]].lbl {
      assert Target(c1, ds[i]) == Some(ls[i]);
    }
  }

  lemma SimTable<H>(env: Env<H>, m: Module, hdr: seq<byte>, tail: seq<byte>,
                    rest: seq<Frame>, fr: Frame, h: H, s: Machine<H>)
    requires Fits(m, |hdr|) && Ready(m, |hdr|, rest, fr, h, s)
    requires m.funcs[fr.f].body[fr.pc].BranchTable?
    ensures Catches(env, m, hdr, tail, s, DoConditional(m.funcs[fr.f], rest, fr, h, m.funcs[fr.f].body[fr.pc]))
  {
    hide At, Addr, CodeSize, Accepted, Build, Image, TickN, Catches, LabelOk, FramesOk, StackOf, Flat, RetAddr,
      DoBranch, FromWord, Types, Kept;
    if |fr.ops| < 1 + fr.Floor() {
      OutOfBlockIsFree(env, m, hdr, tail, s);
      return;
    }
    var ds := m.funcs[fr.f].body[fr.pc].depths;
    var c := At(m, |hdr|, fr.f, fr.pc);
    var n := |fr.ops| - 1;
    TableShape(m, |hdr|, fr);
    ConditionalShape(m, |hdr|, fr, ds[0]);
    TopWord(Under(m, |hdr|, rest, fr), fr.ops);
    var i := Index(fr.ops[n], |ds|);
    ConditionalShape(m, |hdr|, fr, ds[i]);
    var op := At(m, |hdr|, fr.f, fr.pc + 1).out[|c.out|];
    TickAt(env, m, hdr, tail, fr.f, fr.pc, op, s);
    JumpTo(env, m, hdr, tail, rest, fr.(ops := fr.ops[..n]), c.scopes, ds[i], h, s, s.(stk := s.stk[..|s.stk| - 1]));
  }
}
