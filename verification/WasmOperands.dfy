/** Simulation of the instructions that move values: operators and host calls, drop and select, locals. */
module WasmOperands {
  import Leb128
  import opened Words
  import opened WasmCode
  import opened WasmCompiler
  import opened WasmSource
  import opened WasmMachine
  import opened WasmLayout
  import opened WasmLink
  import opened WasmSimulation

  // ----- Operators and host calls -----

  /** Popping typed words and pushing result words is popping and pushing values. */
  lemma ExecCallOnValues<H>(env: Env<H>, under: seq<Word>, a: seq<Value>, b: seq<Value>, h: H, ip: nat, next: nat,
                            call: seq<Value> -> Option<(H, seq<Value>)>)
    requires AllValid(b)
    ensures
      var o := ExecCall(env, Machine(ip, under + Flat(a + b), h), Types(b), next, call);
      && (call(b).None? ==> o == Fault)
      && (call(b).Some? ==> o == Pushed(env, Machine(next, under + Flat(a + call(b).value.1), call(b).value.0)))
  {
    hide Types, Unflat, Flat, SizeWords, Pushed;
    FlatAppend(a, b);
    UnflatFlat(b);
    SplitTop(under, Flat(a), Flat(b));
    if call(b).Some? {
      var rets := call(b).value.1;
      FlatAppend(a, rets);
      assert under + Flat(a) + Flat(rets) == under + (Flat(a) + Flat(rets));
    }
  }

  lemma SplitTop(u: seq<Word>, a: seq<Word>, b: seq<Word>)
    ensures
      var stk := u + (a + b);
      && |stk| - |b| >= 0
      && stk[|stk| - |b|..] == b
      && stk[..|stk| - |b|] == u + a
  {
    assert u + (a + b) == (u + a) + b;
  }

  /** An instruction that the compiler models as "pop these types, push those" and the machines as a call. */
  lemma SimCall<H>(env: Env<H>, m: Module, hdr: seq<byte>, tail: seq<byte>, rest: seq<Frame>, fr: Frame, h: H, s: Machine<H>,
                   args: seq<ValType>, rets: seq<ValType>, op: FlatOp, call: seq<Value> -> Option<(H, seq<Value>)>)
    requires Fits(m, |hdr|) && Ready(m, |hdr|, rest, fr, h, s)
    requires Apply(At(m, |hdr|, fr.f, fr.pc), args, rets, op) == Some(At(m, |hdr|, fr.f, fr.pc + 1))
    requires forall vs :: call(vs).Some? ==> Types(call(vs).value.1) == rets && AllValid(call(vs).value.1)
    requires Resolve(op, Final(m, |hdr|).labels) == op
    requires forall n, next :: ExecOp(env, n, s, op, next) == ExecCall(env, s, args, next, call)
    ensures Catches(env, m, hdr, tail, s, DoCall(rest, fr, |args|, call))
  {
    hide At, Addr, CodeSize, Accepted, Build, Image, TickN, Catches, LabelOk, FramesOk, StackOf, Flat, RetAddr, Types,
      ExecOp, ExecCall, Resolve;
    if |fr.ops| < |args| + fr.Floor() {
      OutOfBlockIsFree(env, m, hdr, tail, s);
      return;
    }
    var n := |hdr|;
    var c := At(m, n, fr.f, fr.pc);
    var under := Under(m, n, rest, fr);
    assert Types(fr.ops) == c.ops by { assert Types(fr.ops) + [] == Types(fr.ops); }
    TickAt(env, m, hdr, tail, fr.f, fr.pc, op, s);
    var next := Addr(m, n, fr.f, fr.pc + 1);
    assert s == Machine(s.ip, under + Flat(fr.ops), h);
    var k := |fr.ops| - |args|;
    TypesPrefix(fr.ops, k);
    assert fr.ops == fr.ops[..k] + fr.ops[k..];
    ExecCallOnValues(env, under, fr.ops[..k], fr.ops[k..], h, s.ip, next, call);
    match call(fr.ops[k..])
    case None =>
      CatchesAfter(env, m, hdr, tail, s, Trapped, 1);
    case Some((h', vs)) =>
      var fr' := fr.(pc := fr.pc + 1, ops := fr.ops[..k] + vs);
      var s' := Machine(next, under + Flat(fr.ops[..k] + vs), h');
      if Pushed(env, s').Go? {
        CallResult(m, n, fr, vs, args, rets, op);
        OneTick(env, m, hdr, tail, rest, fr', h', s, s');
      } else {
        CatchesAfter(env, m, hdr, tail, s, Running(rest + [fr'], h'), 1);
      }
  }

  lemma CallResult(m: Module, hdr: nat, fr: Frame, vs: seq<Value>, args: seq<ValType>, rets: seq<ValType>, op: FlatOp)
    requires Accepted(m, hdr) && FrameOk(m, hdr, fr, [])
    requires Apply(At(m, hdr, fr.f, fr.pc), args, rets, op) == Some(At(m, hdr, fr.f, fr.pc + 1))
    requires Types(vs) == rets && AllValid(vs) && |args| + fr.Floor() <= |fr.ops|
    ensures FrameOk(m, hdr, fr.(pc := fr.pc + 1, ops := fr.ops[..|fr.ops| - |args|] + vs), [])
  {
    hide At, Accepted, LabelOk, Types, Kept;
    var k := |fr.ops| - |args|;
    assert Types(fr.ops) + [] == Types(fr.ops);
    TopReplaced(fr.ops, k, vs, fr.Floor());
    NextFrame(m, hdr, fr, fr.(pc := fr.pc + 1, ops := fr.ops[..k] + vs));
  }

  lemma TopReplaced(ops: seq<Value>, k: nat, vs: seq<Value>, floor: nat)
    requires floor <= k <= |ops| && AllValid(ops) && AllValid(vs)
    ensures Types(ops[..k] + vs) == Types(ops)[..k] + Types(vs) && AllValid(ops[..k] + vs)
    ensures (ops[..k] + vs)[..floor] == ops[..floor]
  {
    hide Types;
    var all := ops[..k] + vs;
    TypesPrefix(ops, k);
    TypesPrefix(all, k);
    assert all[..k] == ops[..k] && all[k..] == vs;
    assert Types(all) == Types(all)[..k] + Types(all)[k..];
  }

  lemma SimPlain<H>(env: Env<H>, m: Module, hdr: seq<byte>, tail: seq<byte>,
                    rest: seq<Frame>, fr: Frame, h: H, s: Machine<H>)
    requires Fits(m, |hdr|) && Ready(m, |hdr|, rest, fr, h, s) && m.funcs[fr.f].body[fr.pc].Plain?
    ensures Catches(env, m, hdr, tail, s,
                    Execute(env, m, m.funcs[fr.f], rest, fr, h, m.funcs[fr.f].body[fr.pc]))
  {
    hide At, Addr, Accepted, Build, Image, Catches, LabelOk, FramesOk, StackOf, Flat, ImmediateOk, SimpleSig, DoCall,
      ExecCall, CallSimple, IsSimple;
    var ins := m.funcs[fr.f].body[fr.pc];
    AtNext(m, |hdr|, fr.f, fr.pc);
    assert ImmediateOk(ins.opcode, ins.imm) && IsSimple(ins.opcode) by { ImmediateSimple(ins.opcode, ins.imm); }
    var sig := SimpleSig(ins.opcode);
    var imm, x := Cleared(ins.opcode, ins.imm), Decoded(Leb128.Standard, ins.opcode, ins.imm);
    ConstantKept(ins.opcode, ins.imm);
    hide Cleared, Decoded;
    var call := args => CallSimple(env, h, ins.opcode, x, args);
    forall vs ensures call(vs).Some? ==> Types(call(vs).value.1) == sig.rets && AllValid(call(vs).value.1) {
      SimpleFits(env, h, ins.opcode, x, vs);
    }
    SimCall(env, m, hdr, tail, rest, fr, h, s, sig.args, sig.rets, FlatOp.Simple(ins.opcode, imm), call);
  }

  /** The machine, which reads with the unfixed padding, gets from the bytes written out the number that the source's bytes stand
      for. */
  lemma ConstantKept(op: byte, imm: seq<byte>)
    requires ImmediateOk(op, imm)
    ensures Decoded(Leb128.EmulateX86, op, Cleared(op, imm)) == Decoded(Leb128.Standard, op, imm)
  {
    hide Leb128.Read;
    if op == 0x41 || op == 0x42 {
      Leb128.WorkAroundIsStandard(if op == 0x41 then 32 else 64, imm, Leb128.EmulateX86);
    }
  }

  lemma SimpleFits<H>(env: Env<H>, h: H, op: byte, x: Immediate, vs: seq<Value>)
    requires IsSimple(op)
    ensures
      var r := CallSimple(env, h, op, x, vs);
      r.Some? ==> Types(r.value.1) == SimpleSig(op).rets && AllValid(r.value.1)
  {
  }

  lemma ExtFits<H>(env: Env<H>, h: H, op: byte, b: nat, vs: seq<Value>)
    ensures
      var r := CallExt(env, h, op, b, vs);
      r.Some? ==> Types(r.value.1) == env.extSig(op, b).rets && AllValid(r.value.1)
  {
  }

  /** Calls through a binding: imported functions and imported variables. */
  lemma SimExt<H>(env: Env<H>, m: Module, hdr: seq<byte>, tail: seq<byte>,
                  rest: seq<Frame>, fr: Frame, h: H, s: Machine<H>, op: byte, b: nat)
    requires Fits(m, |hdr|) && Ready(m, |hdr|, rest, fr, h, s)
    requires
      var sig := env.extSig(op, b);
      Apply(At(m, |hdr|, fr.f, fr.pc), sig.args, sig.rets, FlatOp.Ext(op, b)) == Some(At(m, |hdr|, fr.f, fr.pc + 1))
    ensures Catches(env, m, hdr, tail, s, DoExt(env, rest, fr, h, op, b, |env.extSig(op, b).args|))
  {
    hide At, Addr, Accepted, Build, Image, Catches, LabelOk, FramesOk, StackOf, Flat, DoCall, ExecCall, CallExt;
    var sig := env.extSig(op, b);
    var call := args => CallExt(env, h, op, b, args);
    forall vs ensures call(vs).Some? ==> Types(call(vs).value.1) == sig.rets && AllValid(call(vs).value.1) {
      ExtFits(env, h, op, b, vs);
    }
    SimCall(env, m, hdr, tail, rest, fr, h, s, sig.args, sig.rets, FlatOp.Ext(op, b), call);
  }

  lemma SimGlobal<H>(env: Env<H>, m: Module, hdr: seq<byte>, tail: seq<byte>,
                     rest: seq<Frame>, fr: Frame, h: H, s: Machine<H>)
    requires Fits(m, |hdr|) && Ready(m, |hdr|, rest, fr, h, s) && BindingsOk(env, m)
    requires m.funcs[fr.f].body[fr.pc].GetGlobal? || m.funcs[fr.f].body[fr.pc].SetGlobal?
    ensures Catches(env, m, hdr, tail, s,
                    Execute(env, m, m.funcs[fr.f], rest, fr, h, m.funcs[fr.f].body[fr.pc]))
  {
    hide At, Addr, Accepted, Build, Image, Catches, LabelOk, FramesOk, StackOf, Flat, DoExt, Apply;
    var ins := m.funcs[fr.f].body[fr.pc];
    AtNext(m, |hdr|, fr.f, fr.pc);
    SimExt(env, m, hdr, tail, rest, fr, h, s, if ins.GetGlobal? then 0xF8 else 0xF9, m.globals[ins.i].binding.value);
  }

  lemma SimImport<H>(env: Env<H>, m: Module, hdr: seq<byte>, tail: seq<byte>,
                     rest: seq<Frame>, fr: Frame, h: H, s: Machine<H>)
    requires Fits(m, |hdr|) && Ready(m, |hdr|, rest, fr, h, s) && BindingsOk(env, m)
    requires m.funcs[fr.f].body[fr.pc].Invoke? && m.funcs[fr.f].body[fr.pc].f < |m.imports|
    ensures Catches(env, m, hdr, tail, s,
                    Execute(env, m, m.funcs[fr.f], rest, fr, h, m.funcs[fr.f].body[fr.pc]))
  {
    hide At, Addr, Accepted, Build, Image, Catches, LabelOk, FramesOk, StackOf, Flat, DoExt, Apply;
    var ins := m.funcs[fr.f].body[fr.pc];
    AtNext(m, |hdr|, fr.f, fr.pc);
    SimExt(env, m, hdr, tail, rest, fr, h, s, 0xF3, m.imports[ins.f].binding.value);
  }

  // ----- Drop and select -----

  /** The words of the top value. */
  lemma TopValue(under: seq<Word>, ops: seq<Value>)
    requires ops != [] && AllValid(ops)
    ensures
      var n := |ops| - 1;
      var stk, w := under + Flat(ops), WordsOf(ops[n].t);
      && |stk| >= w
      && stk[|stk| - w..] == ops[n].ws
      && stk[..|stk| - w] == under + Flat(ops[..n])
  {
    var n := |ops| - 1;
    assert ops[n].Valid();
    SplitTop(under, Flat(ops[..n]), ops[n].ws);
  }

  lemma SimDrop<H>(env: Env<H>, m: Module, hdr: seq<byte>, tail: seq<byte>,
                   rest: seq<Frame>, fr: Frame, h: H, s: Machine<H>)
    requires Fits(m, |hdr|) && Ready(m, |hdr|, rest, fr, h, s) && m.funcs[fr.f].body[fr.pc].DropTop?
    ensures Catches(env, m, hdr, tail, s, DoTop(rest, fr, h, m.funcs[fr.f].body[fr.pc]))
  {
    hide At, Addr, CodeSize, Accepted, Build, Image, TickN, Catches, LabelOk, FramesOk, StackOf, Flat, RetAddr, Types;
    if |fr.ops| < 1 + fr.Floor() {
      OutOfBlockIsFree(env, m, hdr, tail, s);
      return;
    }
    var c := At(m, |hdr|, fr.f, fr.pc);
    AtNext(m, |hdr|, fr.f, fr.pc);
    assert Types(fr.ops) == c.ops by { assert Types(fr.ops) + [] == Types(fr.ops); }
    var n := |fr.ops| - 1;
    TypesPrefix(fr.ops, n);
    TickAt(env, m, hdr, tail, fr.f, fr.pc, FlatOp.Drop(c.ops[n]), s);
    TopValue(Under(m, |hdr|, rest, fr), fr.ops);
    var fr' := fr.(pc := fr.pc + 1, ops := fr.ops[..n]);
    NextFrame(m, |hdr|, fr, fr');
    OneTick(env, m, hdr, tail, rest, fr', h, s,
            Machine(Addr(m, |hdr|, fr.f, fr.pc + 1), s.stk[..|s.stk| - WordsOf(c.ops[n])], h));
  }

  lemma ExecSelectOnValues<H>(under: seq<Word>, ops: seq<Value>, h: H, ip: nat, next: nat)
    requires |ops| >= 3 && AllValid(ops)
    requires ops[|ops| - 1].t == I32 && ops[|ops| - 2].t == ops[|ops| - 3].t
    ensures
      var n := |ops|;
      var v := if IsTrue(ops[n - 1]) then ops[n - 3] else ops[n - 2];
      ExecSelect(Machine(ip, under + Flat(ops), h), ops[n - 2].t, next)
        == Go(Machine(next, under + Flat(ops[..n - 3] + [v]), h))
  {
    hide Flat, ExecSelect;
    var n := |ops|;
    var a, x, y, z := ops[..n - 3], ops[n - 3], ops[n - 2], ops[n - 1];
    assert x.Valid() && y.Valid() && z.Valid();
    FlatTopThree(ops);
    ExecSelectOnWords(under + Flat(a), x.ws, y.ws, z.ws[0], h, ip, y.t, next);
    var v := if IsTrue(z) then x else y;
    FlatOne(v);
    FlatAppend(a, [v]);
    assert z.ws == [z.ws[0]];
    Regroup(under, Flat(a), x.ws, y.ws, z.ws);
    Regroup(under, Flat(a), v.ws, [], []);
  }

  lemma Regroup(u: seq<Word>, a: seq<Word>, x: seq<Word>, y: seq<Word>, z: seq<Word>)
    ensures u + (a + x + y + z) == u + a + x + y + z
    ensures u + (a + x) == u + a + x
  {
  }

  lemma FlatTopThree(ops: seq<Value>)
    requires |ops| >= 3
    ensures
      var n := |ops|;
      Flat(ops) == Flat(ops[..n - 3]) + ops[n - 3].ws + ops[n - 2].ws + ops[n - 1].ws
  {
    var n := |ops|;
    assert ops[..n - 1][..n - 2] == ops[..n - 2];
    assert ops[..n - 2][..n - 3] == ops[..n - 3];
  }

  lemma ExecSelectOnWords<H>(u: seq<Word>, x: seq<Word>, y: seq<Word>, z: Word, h: H, ip: nat, t: ValType, next: nat)
    requires |x| == |y| == WordsOf(t)
    ensures ExecSelect(Machine(ip, u + x + y + [z], h), t, next)
            == Go(Machine(next, u + (if z != ZERO_WORD then x else y), h))
  {
    SelectWords(u, x, y, z);
  }

  lemma SelectWords(u: seq<Word>, x: seq<Word>, y: seq<Word>, z: Word)
    requires |x| == |y|
    ensures
      var stk, w := u + x + y + [z], |x|;
      var top := |stk| - 1;
      && top - 2 * w == |u|
      && stk[top] == z
      && stk[top - 2 * w..top - w] == x
      && stk[top - w..top] == y
      && stk[..top - 2 * w] == u
  {
  }

  lemma SelectShape(m: Module, hdr: nat, fr: Frame)
    requires Accepted(m, hdr) && FrameOk(m, hdr, fr, []) && m.funcs[fr.f].body[fr.pc].SelectTop? && |fr.ops| >= 3
    ensures
      var n, t := |fr.ops|, fr.ops[|fr.ops| - 2].t;
      var c, c' := At(m, hdr, fr.f, fr.pc), At(m, hdr, fr.f, fr.pc + 1);
      && fr.ops[n - 3].t == t && fr.ops[n - 1].t == I32
      && c'.out == c.out + [FlatOp.Select(t)]
      && Apply(c, [t, t, I32], [t], FlatOp.Select(t)) == Some(c')
  {
    hide At, Accepted, LabelOk, Kept, Types;
    var c := At(m, hdr, fr.f, fr.pc);
    AtNext(m, hdr, fr.f, fr.pc);
    assert Types(fr.ops) == c.ops by { assert Types(fr.ops) + [] == Types(fr.ops); }
    var n := |fr.ops|;
    var t := c.ops[n - 2];
    assert c.ops[n - 3..] == [t, t, I32];
    assert c.ops[n - 3] == c.ops[n - 3..][0] && c.ops[n - 1] == c.ops[n - 3..][2];
  }

  lemma SimSelect<H>(env: Env<H>, m: Module, hdr: seq<byte>, tail: seq<byte>,
                     rest: seq<Frame>, fr: Frame, h: H, s: Machine<H>)
    requires Fits(m, |hdr|) && Ready(m, |hdr|, rest, fr, h, s) && m.funcs[fr.f].body[fr.pc].SelectTop?
    ensures Catches(env, m, hdr, tail, s, DoTop(rest, fr, h, m.funcs[fr.f].body[fr.pc]))
  {
    hide At, Addr, CodeSize, Accepted, Build, Image, TickN, Catches, LabelOk, FramesOk, StackOf, Flat, RetAddr, Types,
      ExecSelect, Apply, FrameOk, FrameBase;
    FramesTop(m, |hdr|, rest, fr);
    if |fr.ops| < 3 + fr.Floor() {
      OutOfBlockIsFree(env, m, hdr, tail, s);
      return;
    }
    SelectShape(m, |hdr|, fr);
    var n, t := |fr.ops|, fr.ops[|fr.ops| - 2].t;
    TickAt(env, m, hdr, tail, fr.f, fr.pc, FlatOp.Select(t), s);
    var next := Addr(m, |hdr|, fr.f, fr.pc + 1);
    OperandsValid(m, |hdr|, fr);
    ExecSelectOnValues(Under(m, |hdr|, rest, fr), fr.ops, h, s.ip, next);
    assert s == Machine(s.ip, Under(m, |hdr|, rest, fr) + Flat(fr.ops), h);
    var v := if IsTrue(fr.ops[n - 1]) then fr.ops[n - 3] else fr.ops[n - 2];
    assert Types([v]) == [t];
    CallResult(m, |hdr|, fr, [v], [t, t, I32], [t], FlatOp.Select(t));
    var fr' := fr.(pc := fr.pc + 1, ops := fr.ops[..n - 3] + [v]);
    SameFrameBase(m, |hdr|, rest, fr, fr');
    OneTick(env, m, hdr, tail, rest, fr', h, s, Machine(next, Under(m, |hdr|, rest, fr) + Flat(fr'.ops), h));
  }

  lemma OperandsValid(m: Module, hdr: nat, fr: Frame)
    requires Accepted(m, hdr) && FrameOk(m, hdr, fr, [])
    ensures AllValid(fr.ops)
  {
  }

  lemma SameFrameBase(m: Module, hdr: nat, rest: seq<Frame>, a: Frame, b: Frame)
    requires Accepted(m, hdr) && a.f == b.f && a.locals == b.locals
    ensures Under(m, hdr, rest, a) == Under(m, hdr, rest, b)
  {
  }
}
