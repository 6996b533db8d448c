/** Simulation of calls and returns between functions of the module, and the simulation theorem for whole runs. */
module WasmCalls {
  import opened Words
  import opened WasmCode
  import opened WasmCompiler
  import opened WasmSource
  import opened WasmMachine
  import opened WasmLayout
  import opened WasmLink
  import opened WasmSimulation
  import WasmValid
  import opened WasmOperands
  import opened WasmLocals

  // ----- Return -----

  lemma ExecRetOnWords<H>(n: nat, b: seq<Word>, a: seq<Word>, r: Word, e: seq<Word>, v: seq<Word>, ip: nat, h: H)
    ensures ExecRet(n, Machine(ip, b + (a + [r] + e) + v, h), |v|, |e|, |a|)
            == Jump(n, Machine(ip, b + v, h), FromWord(r))
  {
    hide FromWord, Jump;
    var stk := b + (a + [r] + e) + v;
    assert stk[..|b|] == b;
    assert stk[|stk| - |v|..] == v;
    assert stk[|b| + |a|] == r;
  }

  lemma ExecRetOnFrame<H>(n: nat, m: Module, b: seq<Word>, ret: nat, fr: Frame, ip: nat, h: H)
    requires fr.f < |m.funcs| && Types(fr.locals) == m.funcs[fr.f].Locals() && AllValid(fr.locals)
    requires Types(fr.ops) == m.funcs[fr.f].tp.rets && AllValid(fr.ops)
    ensures
      var op := m.funcs[fr.f].RetOp();
      ExecRet(n, Machine(ip, b + FrameBase(m, fr, ret) + Flat(fr.ops), h), op.rets, op.locals, op.args)
        == Jump(n, Machine(ip, b + Flat(fr.ops), h), FromWord(RetWord(ret)))
  {
    hide Flat, Types, ExecRet, RetWord, FromWord, Jump;
    var k := |m.funcs[fr.f].tp.args|;
    FlatLength(fr.ops);
    FlatLength(fr.locals[..k]);
    FlatLength(fr.locals[k..]);
    TypesPrefix(fr.locals, k);
    assert Types(fr.locals)[..k] == m.funcs[fr.f].tp.args && Types(fr.locals)[k..] == m.funcs[fr.f].extra;
    ExecRetOnWords(n, b, Flat(fr.locals[..k]), RetWord(ret), Flat(fr.locals[k..]), Flat(fr.ops), ip, h);
  }

  /** At a return the operands are exactly the results, and the return instruction was emitted. */
  lemma ReturnShape(m: Module, hdr: nat, fr: Frame)
    requires Accepted(m, hdr) && FrameOk(m, hdr, fr, [])
    requires
      var ins := m.funcs[fr.f].body[fr.pc];
      ins.Return? || (ins.End? && fr.labels == [])
    ensures
      var c, c' := At(m, hdr, fr.f, fr.pc), At(m, hdr, fr.f, fr.pc + 1);
      && Types(fr.ops) == m.funcs[fr.f].tp.rets
      && c'.out == c.out + [m.funcs[fr.f].RetOp()]
  {
    hide At, Accepted, LabelOk, Types, Func.RetOp;
    AtNext(m, hdr, fr.f, fr.pc);
    AtInv(m, hdr, fr.f, fr.pc);
    assert Types(fr.ops) + [] == Types(fr.ops);
  }

  /** The caller, given the results, agrees with the compiler's state after its call. */
  lemma Resume(m: Module, hdr: nat, rest: seq<Frame>, vs: seq<Value>)
    requires Accepted(m, hdr) && rest != [] && FramesOk(m, hdr, rest, Types(vs)) && AllValid(vs)
    ensures
      var n := |rest| - 1;
      var caller := rest[n].(ops := rest[n].ops + vs);
      && FrameOk(m, hdr, caller, [])
      && (n > 0 ==> FramesOk(m, hdr, rest[..n], m.funcs[caller.f].tp.rets))
      && Under(m, hdr, rest[..n], caller) + Flat(caller.ops) == StackOf(m, hdr, rest) + Flat(vs)
      && RetAddr(m, hdr, rest) == Addr(m, hdr, caller.f, caller.pc)
      && caller.pc < |m.funcs[caller.f].body|
  {
    hide At, Accepted, LabelOk, Types, Flat, FrameBase, Addr, Kept;
    var n := |rest| - 1;
    var fr := rest[n];
    var caller := fr.(ops := fr.ops + vs);
    FloorBelow(m, hdr, fr, Types(vs));
    KeptBelowFloor(fr.ops, caller.ops, fr.labels, At(m, hdr, fr.f, fr.pc).scopes, fr.Floor());
    FlatAppend(fr.ops, vs);
    SameBase(m, fr, caller, RetAddr(m, hdr, rest[..n]));
    assert Types(fr.ops + vs) == Types(fr.ops) + Types(vs) by {
      TypesPrefix(fr.ops + vs, |fr.ops|);
      assert (fr.ops + vs)[..|fr.ops|] == fr.ops && (fr.ops + vs)[|fr.ops|..] == vs;
      assert Types(fr.ops + vs) == Types(fr.ops + vs)[..|fr.ops|] + Types(fr.ops + vs)[|fr.ops|..];
    }
    assert Types(caller.ops) + [] == Types(caller.ops);
    ResumeStack(StackOf(m, hdr, rest[..n]), FrameBase(m, fr, RetAddr(m, hdr, rest[..n])), Flat(fr.ops), Flat(vs));
  }

  lemma ResumeStack(b: seq<Word>, f: seq<Word>, o: seq<Word>, v: seq<Word>)
    ensures b + f + (o + v) == b + f + o + v
  {
  }

  lemma SimReturn<H>(env: Env<H>, m: Module, hdr: seq<byte>, tail: seq<byte>,
                     rest: seq<Frame>, fr: Frame, h: H, s: Machine<H>)
    requires Fits(m, |hdr|) && Ready(m, |hdr|, rest, fr, h, s)
    requires
      var ins := m.funcs[fr.f].body[fr.pc];
      ins.Return? || (ins.End? && fr.labels == [])
    ensures Catches(env, m, hdr, tail, s, DoReturn(m.funcs[fr.f], rest, fr, h))
  {
    hide At, Addr, CodeSize, Accepted, Build, Image, TickN, Catches, LabelOk, FramesOk, StackOf, Flat, RetAddr, Types,
      ExecRet, FrameBase, FromWord, ToWord;
    var n, fn := |hdr|, m.funcs[fr.f];
    if |fr.ops| < |fn.tp.rets| + fr.Floor() {
      OutOfBlockIsFree(env, m, hdr, tail, s);
      return;
    }
    ReturnShape(m, n, fr);
    TickAt(env, m, hdr, tail, fr.f, fr.pc, fn.RetOp(), s);
    var ret, code := RetAddr(m, n, rest), Image(m, hdr, tail);
    ExecRetOnFrame(|code|, m, StackOf(m, n, rest), ret, fr, s.ip, h);
    AddrInCode(m, hdr, tail, fr.f, fr.pc);
    assert |fn.tp.rets| == |fr.ops| && fr.ops[0..] == fr.ops;
    if rest == [] {
      Bottom(m, n);
      CatchesAfter(env, m, hdr, tail, s, Finished(fr.ops, h), 1);
    } else {
      var k := |rest| - 1;
      Resume(m, n, rest, fr.ops);
      var caller := rest[k].(ops := rest[k].ops + fr.ops);
      AddrInCode(m, hdr, tail, caller.f, caller.pc);
      WordRoundTrip(ret);
      OneTick(env, m, hdr, tail, rest[..k], caller, h, s,
              Machine(ret, Under(m, n, rest[..k], caller) + Flat(caller.ops), h));
    }
  }

  lemma Bottom(m: Module, hdr: nat)
    requires Accepted(m, hdr)
    ensures RetAddr(m, hdr, []) == 0 && StackOf(m, hdr, []) == [] && FromWord(RetWord(0)) == 0
  {
  }

  // ----- Call -----

  lemma {:induction false} FlatZeros(ts: seq<ValType>)
    ensures Flat(Zeros(ts)) == seq(SizeWords(ts), _ => ZERO_WORD)
  {
    if ts != [] {
      var n := |ts| - 1;
      FlatZeros(ts[..n]);
      FlatAppend(Zeros(ts[..n]), [Zero(ts[n])]);
      FlatOne(Zero(ts[n]));
    }
  }

  /** Executing at the start of the k-th emitted instruction. */
  lemma TickIndex<H>(env: Env<H>, m: Module, hdr: seq<byte>, tail: seq<byte>, k: nat, s: Machine<H>)
    requires Fits(m, |hdr|) && k < |Final(m, |hdr|).out|
    requires s.ip == |hdr| + CodeSize(Final(m, |hdr|).out[..k])
    ensures
      var code, u := Image(m, hdr, tail), Final(m, |hdr|);
      Tick(env, code, s) == ExecOp(env, |code|, s, Resolve(u.out[k], u.labels), |hdr| + CodeSize(u.out[..k + 1]))
  {
    hide Build, ExecOp, Image, Decode, CodeSize, InRange;
    FetchAt(m, hdr, tail, k);
  }

  /** Going through the prologue of function f leaves its zeroed locals on the stack. */
  lemma SimPrologue<H>(env: Env<H>, m: Module, hdr: seq<byte>, tail: seq<byte>, f: nat, s: Machine<H>)
    requires Fits(m, |hdr|) && f < |m.funcs|
    requires s.ip == Final(m, |hdr|).labels[f]
    ensures
      var s' := Machine(Addr(m, |hdr|, f, 0), s.stk + Flat(Zeros(m.funcs[f].extra)), s.host);
      var o := Tick(env, Image(m, hdr, tail), s);
      if m.funcs[f].extra == [] then s' == s else o == Go(s') || o == Overflow
  {
    hide Build, Image, At, InRange, Tick, Zeros, Flat, CodeSize, ExecOp, Resolve, Accepted, AllInRange;
    var n, fn := |hdr|, m.funcs[f];
    var u := Final(m, n);
    EntryLabel(m, n, f);
    var out := Build(m, n, f).value.out;
    if fn.extra == [] {
      NoZeros(out, s.stk);
    } else {
      var op := FlatOp.Prolog(SizeWords(fn.extra));
      AtFinal(m, n, f, 0, 0);
      assert Prologue(fn) == [op];
      NextInOut(out, op, u.out);
      TickIndex(env, m, hdr, tail, |out|, s);
      ExecProlog(env, |Image(m, hdr, tail)|, s, u.labels, fn.extra, Addr(m, n, f, 0));
    }
  }

  lemma NoZeros(out: seq<FlatOp>, stk: seq<Word>)
    ensures out + [] == out && stk + Flat(Zeros([])) == stk
  {
  }

  lemma ExecProlog<H>(env: Env<H>, n: nat, s: Machine<H>, labels: seq<nat>, extra: seq<ValType>, next: nat)
    ensures
      var o := ExecOp(env, n, s, Resolve(FlatOp.Prolog(SizeWords(extra)), labels), next);
      o == Go(Machine(next, s.stk + Flat(Zeros(extra)), s.host)) || o == Overflow
  {
    hide Zeros, Flat, SizeWords;
    FlatZeros(extra);
  }

  lemma NextInOut(out: seq<FlatOp>, op: FlatOp, all: seq<FlatOp>)
    requires out + [op] <= all
    ensures all[..|out|] == out && all[..|out| + 1] == out + [op] && all[|out|] == op
  {
  }

  /** The callee's first frame. */
  lemma EntryFrame(m: Module, hdr: nat, f: nat, args: seq<Value>)
    requires Accepted(m, hdr) && f < |m.funcs| && Types(args) == m.funcs[f].tp.args && AllValid(args)
    ensures FrameOk(m, hdr, Frame(f, 0, args + Zeros(m.funcs[f].extra), [], []), [])
  {
    hide Accepted, LabelOk, Types, Zeros, Build, CodeSize, Prologue;
    var fn := m.funcs[f];
    LastAt(m, hdr, f);
    assert At(m, hdr, f, 0) == StartOf(m, hdr, f) by { RunZero(m, hdr, fn, StartOf(m, hdr, f)); }
    var vs := args + Zeros(fn.extra);
    FirstLocals(args, fn);
    assert Types([]) == [];
  }

  lemma FirstLocals(args: seq<Value>, fn: Func)
    requires Types(args) == fn.tp.args && AllValid(args)
    ensures Types(args + Zeros(fn.extra)) == fn.Locals() && AllValid(args + Zeros(fn.extra))
  {
    hide Types, Zeros;
    var vs := args + Zeros(fn.extra);
    TypesPrefix(vs, |args|);
    assert vs[..|args|] == args && vs[|args|..] == Zeros(fn.extra);
    assert Types(vs) == Types(vs)[..|args|] + Types(vs)[|args|..];
  }

  lemma CallShape(m: Module, hdr: nat, fr: Frame)
    requires Accepted(m, hdr) && FrameOk(m, hdr, fr, [])
    requires m.funcs[fr.f].body[fr.pc].Invoke? && m.funcs[fr.f].body[fr.pc].f >= |m.imports|
    ensures m.funcs[fr.f].body[fr.pc].f - |m.imports| < |m.funcs|
    ensures
      |m.funcs[m.funcs[fr.f].body[fr.pc].f - |m.imports|].tp.args| + fr.Floor() <= |fr.ops| ==>
      var g := m.funcs[fr.f].body[fr.pc].f - |m.imports|;
      var tp := m.funcs[g].tp;
      var c, c' := At(m, hdr, fr.f, fr.pc), At(m, hdr, fr.f, fr.pc + 1);
      && c'.out == c.out + [FlatOp.Call(g)]
      && |tp.args| <= |fr.ops|
      && Types(fr.ops[|fr.ops| - |tp.args|..]) == tp.args
      && FrameOk(m, hdr, fr.(pc := fr.pc + 1, ops := fr.ops[..|fr.ops| - |tp.args|]), tp.rets)
  {
    hide At, Accepted, LabelOk, Types, Kept;
    AtNext(m, hdr, fr.f, fr.pc);
    AtInv(m, hdr, fr.f, fr.pc + 1);
    assert Types(fr.ops) + [] == Types(fr.ops);
    var g := m.funcs[fr.f].body[fr.pc].f - |m.imports|;
    var k := |fr.ops| - |m.funcs[g].tp.args|;
    if fr.Floor() <= k {
      TypesPrefix(fr.ops, k);
      assert fr.ops[..k][..fr.Floor()] == fr.ops[..fr.Floor()];
      KeptBelowFloor(fr.ops, fr.ops[..k], fr.labels, At(m, hdr, fr.f, fr.pc).scopes, fr.Floor());
    }
  }

  /** The stack with the callee's frame on top. */
  lemma CalleeStack(m: Module, hdr: nat, rest: seq<Frame>, caller: Frame, g: nat, args: seq<Value>)
    requires Accepted(m, hdr) && g < |m.funcs| && |args| == |m.funcs[g].tp.args|
    requires caller.f < |m.funcs| && caller.pc < |m.funcs[caller.f].body|
    ensures
      var callee := Frame(g, 0, args + Zeros(m.funcs[g].extra), [], []);
      Under(m, hdr, rest + [caller], callee) + Flat([]) ==
        Under(m, hdr, rest, caller) + Flat(caller.ops + args)
          + [RetWord(Addr(m, hdr, caller.f, caller.pc))] + Flat(Zeros(m.funcs[g].extra))
  {
    hide Accepted, Addr, RetWord, Zeros;
    var vs := args + Zeros(m.funcs[g].extra);
    assert vs[..|args|] == args && vs[|args|..] == Zeros(m.funcs[g].extra);
    assert (rest + [caller])[..|rest|] == rest;
    hide Flat;
    FlatAppend(caller.ops, args);
    var w := [RetWord(Addr(m, hdr, caller.f, caller.pc))];
    CallRegroup(StackOf(m, hdr, rest), FrameBase(m, caller, RetAddr(m, hdr, rest)), Flat(caller.ops), Flat(args), w,
                Flat(Zeros(m.funcs[g].extra)));
    FlatNone();
  }

  lemma FlatNone()
    ensures Flat([]) == []
  {
  }

  lemma CallRegroup(b: seq<Word>, f: seq<Word>, o: seq<Word>, a: seq<Word>, r: seq<Word>, e: seq<Word>)
    ensures b + f + o + (a + r + e) + [] == b + f + (o + a) + r + e
  {
  }

  lemma EntryInCode(m: Module, hdr: seq<byte>, tail: seq<byte>, g: nat)
    requires Fits(m, |hdr|) && g < |m.funcs|
    ensures g < |Final(m, |hdr|).labels| && Final(m, |hdr|).labels[g] < |Image(m, hdr, tail)|
  {
    hide Build, Image, At, InRange;
    EntryLabel(m, |hdr|, g);
    LastAt(m, |hdr|, g);
    AddrInCode(m, hdr, tail, g, 0);
    var out, out0 := Build(m, |hdr|, g).value.out, At(m, |hdr|, g, 0).out;
    assert out0[..|out|] == out;
    CodeSizeMono(out0, |out|);
  }

  lemma TickTwo<H>(env: Env<H>, code: seq<byte>, s: Machine<H>, s1: Machine<H>)
    requires TickN(env, code, s, 1) == Go(s1)
    ensures TickN(env, code, s, 2) == Tick(env, code, s1)
  {
    hide Tick;
  }

  lemma SimInvoke<H>(env: Env<H>, m: Module, hdr: seq<byte>, tail: seq<byte>,
                     rest: seq<Frame>, fr: Frame, h: H, s: Machine<H>)
    requires Fits(m, |hdr|) && Ready(m, |hdr|, rest, fr, h, s)
    requires m.funcs[fr.f].body[fr.pc].Invoke? && m.funcs[fr.f].body[fr.pc].f >= |m.imports|
    ensures Catches(env, m, hdr, tail, s, DoInvoke(env, m, rest, fr, h, m.funcs[fr.f].body[fr.pc].f))
  {
    hide At, Addr, CodeSize, Accepted, Build, Image, TickN, Tick, Catches, LabelOk, FramesOk, StackOf, Flat, RetAddr, Types,
      FrameBase, FrameOk, ToWord, Zeros, Under;
    var n, code := |hdr|, Image(m, hdr, tail);
    FramesTop(m, n, rest, fr);
    CallShape(m, n, fr);
    var g := m.funcs[fr.f].body[fr.pc].f - |m.imports|;
    if |fr.ops| < |m.funcs[g].tp.args| + fr.Floor() {
      OutOfBlockIsFree(env, m, hdr, tail, s);
      return;
    }
    var j := |fr.ops| - |m.funcs[g].tp.args|;
    var caller, args := fr.(pc := fr.pc + 1, ops := fr.ops[..j]), fr.ops[j..];
    FrameFacts(m, n, fr, []);
    FrameFacts(m, n, caller, m.funcs[g].tp.rets);
    var callee := Frame(g, 0, args + Zeros(m.funcs[g].extra), [], []);
    var c' := Running(rest + [caller, callee], h);
    EntryInCode(m, hdr, tail, g);
    TickAt(env, m, hdr, tail, fr.f, fr.pc, FlatOp.Call(g), s);
    var s1 := Machine(Final(m, n).labels[g], s.stk + [RetWord(Addr(m, n, fr.f, fr.pc + 1))], h);
    if |s1.stk| > env.cap(h) {
      CatchesAfter(env, m, hdr, tail, s, c', 1);
    } else {
      assert TickN(env, code, s, 1) == Go(s1);
      EntryFrame(m, n, g, args);
      CalleeStack(m, n, rest, caller, g, args);
      assert caller.ops + args == fr.ops;
      SameFrameBase(m, n, rest, fr, caller);
      SimPrologue(env, m, hdr, tail, g, s1);
      Pushing(m, n, rest, caller, m.funcs[g].tp.rets);
      assert (rest + [caller]) + [callee] == rest + [caller, callee];
      var s2 := Machine(Addr(m, n, g, 0), s1.stk + Flat(Zeros(m.funcs[g].extra)), h);
      assert Ready(m, n, rest + [caller], callee, h, s2);
      if m.funcs[g].extra == [] {
        OneTick(env, m, hdr, tail, rest + [caller], callee, h, s, s2);
      } else {
        TickTwo(env, code, s, s1);
        if TickN(env, code, s, 2) == Go(s2) {
          ReadyIsRel(m, n, rest + [caller], callee, h, s2);
        }
        CatchesAfter(env, m, hdr, tail, s, c', 2);
      }
    }
  }

  lemma FrameFacts(m: Module, hdr: nat, fr: Frame, pending: seq<ValType>)
    requires Accepted(m, hdr) && FrameOk(m, hdr, fr, pending)
    ensures fr.f < |m.funcs| && fr.pc < |m.funcs[fr.f].body| && AllValid(fr.ops)
  {
  }

  lemma Pushing(m: Module, hdr: nat, rest: seq<Frame>, fr: Frame, pending: seq<ValType>)
    requires Accepted(m, hdr) && FrameOk(m, hdr, fr, pending)
    requires rest != [] ==> FramesOk(m, hdr, rest, m.funcs[fr.f].tp.rets)
    ensures FramesOk(m, hdr, rest + [fr], pending)
  {
    hide FrameOk, Accepted;
    assert (rest + [fr])[..|rest|] == rest;
  }

  // ----- Whole runs -----

  /** Instructions for which the compiler emits nothing. */
  predicate IsSilent(m: Module, fr: Frame)
    requires fr.f < |m.funcs| && fr.pc < |m.funcs[fr.f].body|
  {
    var ins := m.funcs[fr.f].body[fr.pc];
    ins.Block? || ins.Loop? || ins.Nop? || (ins.End? && fr.labels != [])
  }

  /** One structured step is matched by one or two flat ones; or by none, if the compiler emitted nothing for it, and then it
      moves on by one instruction. */
  lemma SimStep<H>(env: Env<H>, m: Module, hdr: seq<byte>, tail: seq<byte>, frames: seq<Frame>, h: H, s: Machine<H>)
    requires Fits(m, |hdr|) && BindingsOk(env, m)
    requires Rel(m, |hdr|, frames, h, s)
    ensures
      var fr, c := frames[|frames| - 1], Advance(env, m, Running(frames, h));
      if IsSilent(m, fr) then Agrees(m, |hdr|, c, Go(s)) && c.Running? && TopPc(c) == fr.pc + 1
      else Catches(env, m, hdr, tail, s, c)
  {
    hide At, Addr, Accepted, Build, Catches, FrameOk, FramesOk, Agrees, Execute, TopPc, IsSilent, Ready, BindingsOk;
    var n := |frames| - 1;
    RelReady(m, |hdr|, frames, h, s);
    if IsSilent(m, frames[n]) {
      SilentStep(env, m, |hdr|, frames[..n], frames[n], h, s);
    } else {
      LoudStep(env, m, hdr, tail, frames[..n], frames[n], h, s);
    }
  }

  lemma RelReady<H>(m: Module, hdr: nat, frames: seq<Frame>, h: H, s: Machine<H>)
    requires Accepted(m, hdr) && Rel(m, hdr, frames, h, s)
    ensures frames != []
    ensures var fr := frames[|frames| - 1]; fr.f < |m.funcs| && fr.pc < |m.funcs[fr.f].body|
    ensures Ready(m, hdr, frames[..|frames| - 1], frames[|frames| - 1], h, s)
  {
    hide At, Addr, Accepted, FrameOk, Flat;
    FrameFacts(m, hdr, frames[|frames| - 1], []);
  }

  lemma SilentStep<H>(env: Env<H>, m: Module, hdr: nat, rest: seq<Frame>, fr: Frame, h: H, s: Machine<H>)
    requires Accepted(m, hdr) && Ready(m, hdr, rest, fr, h, s) && fr.f < |m.funcs| && fr.pc < |m.funcs[fr.f].body|
    requires IsSilent(m, fr)
    ensures
      var c := Execute(env, m, m.funcs[fr.f], rest, fr, h, m.funcs[fr.f].body[fr.pc]);
      Agrees(m, hdr, c, Go(s)) && c.Running? && TopPc(c) == fr.pc + 1
  {
    hide At, Accepted, Agrees, FrameOk, Ready, FindEnd;
    match m.funcs[fr.f].body[fr.pc]
    case Block => SimEnter(m, hdr, rest, fr, h, s);
    case Loop => SimEnter(m, hdr, rest, fr, h, s);
    case End => SimLeave(m, hdr, rest, fr, h, s);
    case Nop => SimNop(m, hdr, rest, fr, h, s);
  }

  lemma LoudStep<H>(env: Env<H>, m: Module, hdr: seq<byte>, tail: seq<byte>, rest: seq<Frame>, fr: Frame, h: H, s: Machine<H>)
    requires Fits(m, |hdr|) && BindingsOk(env, m) && Ready(m, |hdr|, rest, fr, h, s)
    requires fr.f < |m.funcs| && fr.pc < |m.funcs[fr.f].body| && !IsSilent(m, fr)
    ensures Catches(env, m, hdr, tail, s, Execute(env, m, m.funcs[fr.f], rest, fr, h, m.funcs[fr.f].body[fr.pc]))
  {
    hide At, Addr, Accepted, Build, Catches, FrameOk, Flat, DoReturn, DoBranch, DoCall, DoInvoke, DoLocal, DoGlobal, DoTop,
      DoConditional, FindEnd, SimpleSig, IsSimple, BindingsOk, Ready;
    match m.funcs[fr.f].body[fr.pc]
    case End => SimReturn(env, m, hdr, tail, rest, fr, h, s);
    case Unreachable => CatchesAfter(env, m, hdr, tail, s, Aborted, 1);
    case Branch(_) => SimBranch(env, m, hdr, tail, rest, fr, h, s);
    case BranchIf(_) => SimConditional(env, m, hdr, tail, rest, fr, h, s);
    case BranchTable(_) => SimTable(env, m, hdr, tail, rest, fr, h, s);
    case Return => SimReturn(env, m, hdr, tail, rest, fr, h, s);
    case Invoke(f) =>
      if f < |m.imports| { SimImport(env, m, hdr, tail, rest, fr, h, s); } else { SimInvoke(env, m, hdr, tail, rest, fr, h, s); }
    case GetLocal(_) => SimGet(env, m, hdr, tail, rest, fr, h, s);
    case SetLocal(_) => SimSet(env, m, hdr, tail, rest, fr, h, s);
    case TeeLocal(_) => SimSet(env, m, hdr, tail, rest, fr, h, s);
    case GetGlobal(_) => SimGlobal(env, m, hdr, tail, rest, fr, h, s);
    case SetGlobal(_) => SimGlobal(env, m, hdr, tail, rest, fr, h, s);
    case DropTop => SimDrop(env, m, hdr, tail, rest, fr, h, s);
    case SelectTop => SimSelect(env, m, hdr, tail, rest, fr, h, s);
    case Plain(_, _) => SimPlain(env, m, hdr, tail, rest, fr, h, s);
  }

  /** The position of a running program in its current function. */
  function TopPc<H>(c: Config<H>): nat {
    if c.Running? && c.frames != [] then c.frames[|c.frames| - 1].pc else 0
  }

  /** The length of the longest function body. */
  function Longest(funcs: seq<Func>): (r: nat)
    ensures forall f :: 0 <= f < |funcs| ==> |funcs[f].body| <= r
  {
    if funcs == [] then 0
    else
      var n := Longest(funcs[..|funcs| - 1]);
      if n < |funcs[|funcs| - 1].body| then |funcs[|funcs| - 1].body| else n
  }

  lemma {:induction false} TickNAdd<H>(env: Env<H>, code: seq<byte>, s: Machine<H>, a: nat, b: nat)
    ensures TickN(env, code, s, a + b) ==
            match TickN(env, code, s, a)
            case Go(s') => TickN(env, code, s', b)
            case x => x
    decreases b
  {
    hide Tick;
    if b > 0 {
      TickNAdd(env, code, s, a, b - 1);
      assert a + b - 1 == a + (b - 1);
    }
  }

  /** How a call starts: arguments and a zero return address on the stack, at the function's entry. */
  ghost function Entry<H>(m: Module, hdr: nat, f: nat, args: seq<Value>, h: H): Machine<H>
    requires Accepted(m, hdr) && f < |m.funcs|
  {
    EntryLabel(m, hdr, f);
    Machine(Final(m, hdr).labels[f], Flat(args) + [ZERO_WORD], h)
  }

  lemma SimEntry<H>(env: Env<H>, m: Module, hdr: seq<byte>, tail: seq<byte>, f: nat, args: seq<Value>, h: H)
    returns (k: nat)
    requires Fits(m, |hdr|) && f < |m.funcs| && Types(args) == m.funcs[f].tp.args && AllValid(args)
    ensures k <= 1
    ensures
      var o := TickN(env, Image(m, hdr, tail), Entry(m, |hdr|, f, args, h), k);
      o.Overflow? || Agrees(m, |hdr|, Initial(m, f, args, h), o)
  {
    hide Addr, Accepted, Build, Image, Tick, Types, FrameOk, Zeros, At;
    var n, fn := |hdr|, m.funcs[f];
    var s := Entry(m, n, f, args, h);
    var fr := Frame(f, 0, args + Zeros(fn.extra), [], []);
    EntryFrame(m, n, f, args);
    SimPrologue(env, m, hdr, tail, f, s);
    var s' := Machine(Addr(m, n, f, 0), s.stk + Flat(Zeros(fn.extra)), h);
    assert Ready(m, n, [], fr, h, s') by {
      var vs := args + Zeros(fn.extra);
      assert vs[..|args|] == args && vs[|args|..] == Zeros(fn.extra);
      assert RetWord(0) == ZERO_WORD;
      assert StackOf(m, n, []) == [];
      hide Flat;
      FlatNone();
      var e := Flat(Zeros(fn.extra));
      assert s.stk + e == [] + (Flat(args) + [ZERO_WORD] + e) + [];
    }
    ReadyIsRel(m, n, [], fr, h, s');
    assert [] + [fr] == [fr];
    assert TickN(env, Image(m, hdr, tail), s, 0) == Go(s);
    k := if fn.extra == [] then 0 else 1;
  }

  /** Silent steps cannot go on for longer than a function body. */
  lemma StepCount(steps: nat, ticks: nat, k: nat, pc: nat, pc': nat, n: nat)
    requires steps <= ticks * (n + 1) + pc && pc <= n
    requires if k == 0 then pc' == pc + 1 else true
    ensures steps + 1 <= (ticks + k) * (n + 1) + pc'
  {
    assert (ticks + k) * (n + 1) == ticks * (n + 1) + k * (n + 1);
    if k > 0 {
      assert k * (n + 1) >= n + 1;
    }
  }

  /** Whatever module the compiler accepts: the flat machine follows the structured run step by step, and does not fall
      behind, up to the point where the run aborts or takes an operand of an enclosing block. */
  lemma {:induction false} Follows<H>(env: Env<H>, m: Module, hdr: seq<byte>, tail: seq<byte>,
                                      f: nat, args: seq<Value>, h: H, steps: nat) returns (ticks: nat)
    requires Fits(m, |hdr|) && BindingsOk(env, m)
    requires f < |m.funcs| && Types(args) == m.funcs[f].tp.args && AllValid(args)
    ensures ticks <= 2 * steps + 1
    ensures
      var c := AdvanceN(env, m, Initial(m, f, args, h), steps);
      var o := TickN(env, Image(m, hdr, tail), Entry(m, |hdr|, f, args, h), ticks);
      || o.Overflow?
      || (Match(m, |hdr|, c, o) && (c.Running? ==> steps <= ticks * (Longest(m.funcs) + 1) + TopPc(c)))
    decreases steps
  {
    hide Accepted, Build, Image, Tick, Types, At, Entry, BindingsOk, Rel, Execute, Longest, IsSilent;
    var code, s := Image(m, hdr, tail), Entry(m, |hdr|, f, args, h);
    if steps == 0 {
      ticks := SimEntry(env, m, hdr, tail, f, args, h);
      NonNegative(ticks, Longest(m.funcs) + 1);
    } else {
      ticks := Follows(env, m, hdr, tail, f, args, h, steps - 1);
      var o, c := TickN(env, code, s, ticks), AdvanceN(env, m, Initial(m, f, args, h), steps - 1);
      if o.Go? && c.Running? {
        SimStep(env, m, hdr, tail, c.frames, c.host, o.s);
        var k: nat := 0;
        RelTop(m, |hdr|, c.frames, c.host, o.s);
        if !IsSilent(m, c.frames[|c.frames| - 1]) {
          k :| 1 <= k <= 2 && (TickN(env, code, o.s, k).Overflow?
                               || Match(m, |hdr|, Advance(env, m, c), TickN(env, code, o.s, k)));
        }
        TickNAdd(env, code, s, ticks, k);
        StepCount(steps - 1, ticks, k, TopPc(c), TopPc(Advance(env, m, c)), Longest(m.funcs));
        ticks := ticks + k;
      }
    }
  }

  lemma NonNegative(a: nat, b: nat)
    ensures 0 <= a * b
  {
  }

  lemma RelTop<H>(m: Module, hdr: nat, frames: seq<Frame>, h: H, s: Machine<H>)
    requires Accepted(m, hdr) && Rel(m, hdr, frames, h, s)
    ensures frames != []
    ensures
      var fr := frames[|frames| - 1];
      fr.f < |m.funcs| && fr.pc < |m.funcs[fr.f].body| && fr.pc <= Longest(m.funcs)
  {
    hide At, Addr, StackOf, LabelOk, Kept, Types;
  }

  /** The simulation theorem. Call any function of a valid module that the compiler accepts. However many steps the structured
      program takes, some number of flat instructions either exhausts the operand stack or reaches the corresponding point:
      the same frames laid out as words, the same results at the return address, or a fault where the program traps. And the
      flat machine keeps going: a program that is still running after enough steps has made any number of flat ones. */
  lemma Simulation<H>(env: Env<H>, m: Module, hdr: seq<byte>, tail: seq<byte>,
                      f: nat, args: seq<Value>, h: H, steps: nat) returns (ticks: nat)
    requires Fits(m, |hdr|) && BindingsOk(env, m) && WasmValid.ValidModule(m) && WasmValid.NeverAborts(m)
    requires f < |m.funcs| && Types(args) == m.funcs[f].tp.args && AllValid(args)
    ensures ticks <= 2 * steps + 1
    ensures
      var c := AdvanceN(env, m, Initial(m, f, args, h), steps);
      var o := TickN(env, Image(m, hdr, tail), Entry(m, |hdr|, f, args, h), ticks);
      || o.Overflow?
      || (Agrees(m, |hdr|, c, o) && (c.Running? ==> steps <= ticks * (Longest(m.funcs) + 1) + TopPc(c)))
  {
    hide Accepted, Build, Image, Tick, Types, At, Entry, BindingsOk, Agrees, AdvanceN, WasmValid.ValidModule, WasmValid.NeverAborts,
      WasmValid.FramesTyped;
    ticks := Follows(env, m, hdr, tail, f, args, h, steps);
    WasmValid.Soundness(env, m, f, args, h, steps);
  }
}
