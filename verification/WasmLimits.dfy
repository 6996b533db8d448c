/** Where the simulation theorem stops: programs that the compiler accepts and the theorem leaves out, and what they do. */
module WasmLimits {
  import opened Arith
  import opened Words
  import opened WasmCode
  import opened WasmCompiler
  import opened WasmSource
  import opened WasmMachine
  import opened WasmLayout
  import opened WasmLink
  import WasmCalls
  import WasmValid
  import Leb128

  const C32 := Plain(0x41, [0])
  const C64 := Plain(0x42, [0])

  /** A single zero byte reads as zero, in every mode and width. */
  lemma ZeroByte(bits: nat, mode: Leb128.Mode)
    requires Leb128.Width(bits)
    ensures Leb128.Read(bits, true, mode, [0]) == Leb128.Done(0, 1, false)
  {
    hide Pow2;
  }

  lemma ConstantsOk()
    ensures ImmediateOk(0x41, [0]) && ImmediateOk(0x42, [0])
    ensures InRange(Simple(0x41, [0])) && InRange(Simple(0x42, [0]))
  {
    hide Leb128.Read;
    ZeroByte(32, Leb128.AutoWorkAround);
    ZeroByte(64, Leb128.AutoWorkAround);
    assert Leb128.Length([0]) == Some(1);
    assert [0][1..] == [];
  }

  lemma ConstantsAre(mode: Leb128.Mode)
    ensures Cleared(0x41, [0]) == [0] && Cleared(0x42, [0]) == [0]
    ensures Decoded(mode, 0x41, [0]) == Number(0) && Decoded(mode, 0x42, [0]) == Number(0)
  {
    hide Leb128.Read;
    ZeroByte(32, mode);
    ZeroByte(64, mode);
    ZeroByte(32, Leb128.AutoWorkAround);
    ZeroByte(64, Leb128.AutoWorkAround);
  }

  // ----- A branch with operands of the wrong width -----

  /** A block that drops an i32 it did not push, and branches out of itself with an i64 instead. */
  const LOPSIDED: seq<Instr> := [C32, Block, DropTop, C64, Branch(0), DropTop, C32, End, DropTop, End]

  const LOPSIDED_MODULE := Module([], [], [Func(FuncType([], []), [], LOPSIDED)])

  const FN := LOPSIDED_MODULE.funcs[0]
  const OUTER := Scope([], 0, false)
  const INNER := Scope([I32], 1, false)

  /** What the compiler emits for it. */
  const CODE: seq<FlatOp> :=
    [Simple(0x41, [0]), FlatOp.Drop(I32), Simple(0x42, [0]), FlatOp.Br(1), FlatOp.Drop(I64), Simple(0x41, [0]), FlatOp.Drop(I32),
     FlatOp.Ret(0, 0, 0)]

  /** The compiler's state after k instructions, j of them emitted. */
  ghost predicate Reached(k: nat, j: nat, scopes: seq<Scope>, ops: seq<ValType>, labels: seq<nat>)
    requires k <= |LOPSIDED| && j <= |CODE|
  {
    Run(LOPSIDED_MODULE, 0, FN, State([OUTER], [], false, [0], []), k) == Some(State(scopes, ops, false, labels, CODE[..j]))
  }

  lemma Next(k: nat, j: nat, scopes: seq<Scope>, ops: seq<ValType>, labels: seq<nat>, j': nat, scopes': seq<Scope>,
             ops': seq<ValType>, labels': seq<nat>)
    requires k < |LOPSIDED| && j <= |CODE| && j' <= |CODE| && scopes != [] && Reached(k, j, scopes, ops, labels)
    requires Step(LOPSIDED_MODULE, 0, FN, State(scopes, ops, false, labels, CODE[..j]), LOPSIDED[k]) ==
      Some(State(scopes', ops', false, labels', CODE[..j']))
    ensures Reached(k + 1, j', scopes', ops', labels')
  {
    hide Step;
  }

  lemma Emitted(j: nat)
    requires j < |CODE|
    ensures CODE[..j] + [CODE[j]] == CODE[..j + 1]
  {
  }

  lemma AfterConst(k: nat, j: nat, scopes: seq<Scope>, ops: seq<ValType>, labels: seq<nat>, wide: bool)
    requires k < |LOPSIDED| && j < |CODE| && scopes != [] && LOPSIDED[k] == (if wide then C64 else C32)
    requires CODE[j] == Simple(if wide then 0x42 else 0x41, [0]) && Reached(k, j, scopes, ops, labels)
    ensures Reached(k + 1, j + 1, scopes, ops + [if wide then I64 else I32], labels)
  {
    hide ImmediateOk, Run, InRange, Cleared;
    ConstantsOk();
    ConstantsAre(Leb128.Standard);
    Emitted(j);
    assert ops[..|ops|] == ops;
    Next(k, j, scopes, ops, labels, j + 1, scopes, ops + [if wide then I64 else I32], labels);
  }

  lemma AfterDrop(k: nat, j: nat, scopes: seq<Scope>, labels: seq<nat>, t: ValType)
    requires k < |LOPSIDED| && j < |CODE| && scopes != [] && LOPSIDED[k] == DropTop && CODE[j] == FlatOp.Drop(t)
    requires Reached(k, j, scopes, [t], labels)
    ensures Reached(k + 1, j + 1, scopes, [], labels)
  {
    hide Run;
    Emitted(j);
    assert [t][..0] == [];
    Next(k, j, scopes, [t], labels, j + 1, scopes, [], labels);
  }

  lemma AfterBlock()
    requires Reached(1, 1, [OUTER], [I32], [0])
    ensures Reached(2, 1, [OUTER, INNER], [I32], [0, 0])
  {
    hide Run;
    assert [OUTER] + [INNER] == [OUTER, INNER] && [0] + [0] == [0, 0];
    Next(1, 1, [OUTER], [I32], [0], 1, [OUTER, INNER], [I32], [0, 0]);
  }

  lemma AfterBranch()
    requires Reached(4, 3, [OUTER, INNER], [I64], [0, 0])
    ensures Reached(5, 4, [OUTER, INNER], [I64], [0, 0])
  {
    hide Run;
    Emitted(3);
    Next(4, 3, [OUTER, INNER], [I64], [0, 0], 4, [OUTER, INNER], [I64], [0, 0]);
  }

  lemma AfterInnerEnd()
    requires Reached(7, 6, [OUTER, INNER], [I32], [0, 0])
    ensures Reached(8, 6, [OUTER], [I32], [0, CodeSize(CODE[..6])])
  {
    hide Run, CodeSize;
    assert [OUTER, INNER][..1] == [OUTER] && [0, 0][1 := CodeSize(CODE[..6])] == [0, CodeSize(CODE[..6])];
    Next(7, 6, [OUTER, INNER], [I32], [0, 0], 6, [OUTER], [I32], [0, CodeSize(CODE[..6])]);
  }

  lemma AfterOuterEnd(l: nat)
    requires Reached(9, 7, [OUTER], [], [0, l])
    ensures Reached(10, 8, [], [], [0, l])
  {
    hide Run;
    Emitted(7);
    assert FN.RetOp() == FlatOp.Ret(0, 0, 0);
    Next(9, 7, [OUTER], [], [0, l], 8, [], [], [0, l]);
  }

  /** The body is accepted, and this is the code. */
  lemma Compiled()
    ensures Accepted(LOPSIDED_MODULE, 0)
    ensures Final(LOPSIDED_MODULE, 0) == Unit([0, CodeSize(CODE[..6])], CODE)
  {
    hide Reached, CodeSize;
    var l := CodeSize(CODE[..6]);
    assert Reached(0, 0, [OUTER], [], [0]) by { Begins(); }
    assert [] + [I32] == [I32] && [] + [I64] == [I64];
    AfterConst(0, 0, [OUTER], [], [0], false);
    AfterBlock();
    AfterDrop(2, 1, [OUTER, INNER], [0, 0], I32);
    AfterConst(3, 2, [OUTER, INNER], [], [0, 0], true);
    AfterBranch();
    AfterDrop(5, 4, [OUTER, INNER], [0, 0], I64);
    AfterConst(6, 5, [OUTER, INNER], [], [0, 0], false);
    AfterInnerEnd();
    AfterDrop(8, 6, [OUTER], [0, l], I32);
    AfterOuterEnd(l);
    Ends(l);
  }

  lemma Begins()
    ensures Reached(0, 0, [OUTER], [], [0])
  {
    assert CODE[..0] == [];
  }

  lemma Ends(l: nat)
    requires Reached(10, 8, [], [], [0, l])
    ensures Accepted(LOPSIDED_MODULE, 0) && Final(LOPSIDED_MODULE, 0) == Unit([0, l], CODE)
  {
    hide Run;
    assert CODE[..8] == CODE && seq(1, _ => 0) == [0];
    assert Start(LOPSIDED_MODULE, 0, 0, [0], []) == State([OUTER], [], false, [0], []) by {
      assert CodeSize([]) == 0;
    }
    assert Build(LOPSIDED_MODULE, 0, 0) == Some(Unit([0], []));
  }

  lemma {:induction false} CodeSizeBound(fs: seq<FlatOp>)
    requires forall i :: 0 <= i < |fs| ==> Size(fs[i]) <= 5
    ensures CodeSize(fs) <= 5 * |fs|
  {
    if fs != [] {
      CodeSizeBound(fs[..|fs| - 1]);
    }
  }

  lemma CodeInRange()
    ensures AllInRange(CODE) && forall i :: 0 <= i < |CODE| ==> Size(CODE[i]) <= 5
  {
    hide IsImmediate;
    ConstantsOk();
    assert |Leb128.WriteU(0)| == 1;
  }

  lemma LopsidedFits()
    ensures Accepted(LOPSIDED_MODULE, 0) && Fits(LOPSIDED_MODULE, 0)
    ensures Final(LOPSIDED_MODULE, 0) == Unit([0, CodeSize(CODE[..6])], CODE)
  {
    hide CodeSize, Accepted, Final;
    Compiled();
    CodeInRange();
    CodeSizeBound(CODE);
  }

  /** Section 3.3 of the WebAssembly Core Specification refuses the body at the operand that the block drops. */
  lemma LopsidedIsInvalid()
    ensures !WasmValid.ValidModule(LOPSIDED_MODULE)
  {
    hide WasmValid.TypeAt, WasmValid.Check;
    var m := LOPSIDED_MODULE;
    assert WasmValid.TypeAt(m, FN, 3) == None by {
      LopsidedTypes(m);
    }
    if WasmValid.ValidModule(m) {
      assert WasmValid.ValidFunc(m, m.funcs[0]);
      WasmValid.TypedBefore(m, FN, 3, |FN.body|);
    }
  }

  lemma LopsidedTypes(m: Module)
    ensures WasmValid.TypeAt(m, FN, 3) == None
  {
    hide WasmValid.TypeAt, WasmValid.Check;
    var v0, v1, v2 := WasmValid.Typing([], [0], 0), WasmValid.Typing([I32], [0], 0), WasmValid.Typing([I32], [0, 1], 0);
    TypeNext(m, FN, 0);
    assert FN.body[0] == C32 && FN.body[1] == Block && FN.body[2] == DropTop;
    ConstChecked(m, v0);
    TypeNext(m, FN, 1);
    BlockChecked(m, v1);
    TypeNext(m, FN, 2);
    DropRefused(m, v2);
  }

  lemma TypeNext(m: Module, fn: Func, k: nat)
    requires k < |fn.body|
    ensures WasmValid.TypeAt(m, fn, 0) == Some(WasmValid.Typing([], [0], 0))
    ensures WasmValid.TypeAt(m, fn, k).Some? ==>
      WasmValid.TypeAt(m, fn, k + 1) == WasmValid.Check(m, fn, WasmValid.TypeAt(m, fn, k).value, fn.body[k])
  {
    hide WasmValid.Check;
  }

  lemma ConstChecked(m: Module, v: WasmValid.Typing)
    requires v == WasmValid.Typing([], [0], 0)
    ensures WasmValid.Check(m, FN, v, C32) == Some(WasmValid.Typing([I32], [0], 0))
  {
    hide WasmValid.Check, SimpleSig, IsSimple;
    ConstSig();
    PlainChecked(m, v, 0x41, [0]);
    assert v.ops[0..] == [] && v.ops[..0] + [I32] == [I32];
  }

  lemma ConstSig()
    ensures IsSimple(0x41) && SimpleSig(0x41) == Sig([], [I32])
  {
  }

  lemma PlainChecked(m: Module, v: WasmValid.Typing, op: byte, imm: seq<byte>)
    requires v.heights != [] && v.dead == 0 && IsSimple(op)
    ensures WasmValid.Check(m, FN, v, Plain(op, imm)) == WasmValid.Effect(v, SimpleSig(op).args, SimpleSig(op).rets)
  {
    hide WasmValid.Effect, SimpleSig, IsSimple;
  }

  lemma BlockChecked(m: Module, v: WasmValid.Typing)
    requires v == WasmValid.Typing([I32], [0], 0)
    ensures WasmValid.Check(m, FN, v, Block) == Some(WasmValid.Typing([I32], [0, 1], 0))
  {
    assert [0] + [1] == [0, 1];
  }

  lemma DropRefused(m: Module, v: WasmValid.Typing)
    requires v == WasmValid.Typing([I32], [0, 1], 0)
    ensures WasmValid.Check(m, FN, v, DropTop) == None
  {
  }

  /** An environment whose constants are zero, and that leaves room for four words. */
  ghost predicate Plainly<H>(env: Env<H>, h: H) {
    && env.simple(h, 0x41, Number(0), []) == Some((h, [Zero(I32)])) && env.simple(h, 0x42, Number(0), []) == Some((h, [Zero(I64)]))
    && env.cap(h) >= 4
  }

  /** One flat instruction of the code, from position j with the given words. */
  lemma At<H>(env: Env<H>, h: H, j: nat, stk: seq<Word>)
    requires j < |CODE| && Fits(LOPSIDED_MODULE, 0) && Final(LOPSIDED_MODULE, 0) == Unit([0, CodeSize(CODE[..6])], CODE)
    ensures
      var code := Image(LOPSIDED_MODULE, [], []);
      Tick(env, code, Machine(CodeSize(CODE[..j]), stk, h)) ==
        ExecOp(env, |code|, Machine(CodeSize(CODE[..j]), stk, h), Resolve(CODE[j], [0, CodeSize(CODE[..6])]), CodeSize(CODE[..j + 1]))
  {
    hide Fits, CodeSize, Image, ExecOp, Tick, Resolve;
    WasmCalls.TickIndex(env, LOPSIDED_MODULE, [], [], j, Machine(CodeSize(CODE[..j]), stk, h));
  }

  lemma ConstTick<H>(env: Env<H>, h: H, n: nat, ip: nat, stk: seq<Word>, wide: bool, next: nat)
    requires Plainly(env, h) && |stk| <= 1
    ensures ExecOp(env, n, Machine(ip, stk, h), Simple(if wide then 0x42 else 0x41, [0]), next) ==
      Go(Machine(next, stk + seq(if wide then 2 else 1, _ => ZERO_WORD), h))
  {
    hide CallSimple, Pushed, Unflat, IsSimple, SimpleSig, Decoded;
    ConstantsAre(Leb128.EmulateX86);
    var op: byte, v := if wide then 0x42 else 0x41, if wide then Zero(I64) else Zero(I32);
    ConstCall(env, h, wide);
    assert stk[|stk|..] == [] && stk[..|stk|] == stk;
    assert Unflat([], []) == [] by { NoneCut(); }
    assert Flat([v]) == v.ws by { assert [v][..0] == []; }
    assert Pushed(env, Machine(next, stk + v.ws, h)) == Go(Machine(next, stk + v.ws, h)) by { RoomFor(env, next, stk + v.ws, h); }
  }

  lemma NoneCut()
    ensures Unflat([], []) == []
  {
  }

  lemma RoomFor<H>(env: Env<H>, next: nat, stk: seq<Word>, h: H)
    requires Plainly(env, h) && |stk| <= 4
    ensures Pushed(env, Machine(next, stk, h)) == Go(Machine(next, stk, h))
  {
  }

  lemma ConstCall<H>(env: Env<H>, h: H, wide: bool)
    requires Plainly(env, h)
    ensures
      var op: byte, v := if wide then 0x42 else 0x41, if wide then Zero(I64) else Zero(I32);
      IsSimple(op) && SimpleSig(op).args == [] && CallSimple(env, h, op, Number(0), []) == Some((h, [v]))
  {
    var v := if wide then Zero(I64) else Zero(I32);
    assert Types([v]) == [v.t] by { assert [v][..0] == []; }
  }

  lemma DropTick<H>(env: Env<H>, h: H, n: nat, ip: nat, stk: seq<Word>, next: nat)
    requires |stk| >= 1
    ensures ExecOp(env, n, Machine(ip, stk, h), FlatOp.Drop(I32), next) == Go(Machine(next, stk[..|stk| - 1], h))
  {
  }

  /** The flat machine before the j-th instruction of the code. */
  ghost function Before<H>(j: nat, stk: seq<Word>, h: H): Machine<H>
    requires j <= |CODE|
  {
    Machine(CodeSize(CODE[..j]), stk, h)
  }

  /** The finished code. */
  ghost predicate Linked(code: seq<byte>) {
    && Fits(LOPSIDED_MODULE, 0) && Final(LOPSIDED_MODULE, 0) == Unit([0, CodeSize(CODE[..6])], CODE)
    && code == Image(LOPSIDED_MODULE, [], [])
  }

  lemma PushHop<H>(env: Env<H>, h: H, code: seq<byte>, j: nat, stk: seq<Word>, wide: bool)
    requires Linked(code) && Plainly(env, h) && |stk| <= 1 && j < |CODE| && CODE[j] == Simple(if wide then 0x42 else 0x41, [0])
    ensures Tick(env, code, Before(j, stk, h)) == Go(Before(j + 1, stk + seq(if wide then 2 else 1, _ => ZERO_WORD), h))
  {
    hide Fits, Image, Tick, Plainly, ExecOp, CodeSize;
    At(env, h, j, stk);
    ConstTick(env, h, |code|, CodeSize(CODE[..j]), stk, wide, CodeSize(CODE[..j + 1]));
  }

  lemma DropHop<H>(env: Env<H>, h: H, code: seq<byte>, j: nat, stk: seq<Word>)
    requires Linked(code) && |stk| >= 1 && j < |CODE| && CODE[j] == FlatOp.Drop(I32)
    ensures Tick(env, code, Before(j, stk, h)) == Go(Before(j + 1, stk[..|stk| - 1], h))
  {
    hide Fits, Image, Tick, ExecOp, CodeSize;
    At(env, h, j, stk);
    DropTick(env, h, |code|, CodeSize(CODE[..j]), stk, CodeSize(CODE[..j + 1]));
  }

  lemma BranchHop<H>(env: Env<H>, h: H, code: seq<byte>, stk: seq<Word>)
    requires Linked(code)
    ensures Tick(env, code, Before(3, stk, h)) == Go(Before(6, stk, h))
  {
    hide Fits, Image, Tick, ExecOp, CodeSize;
    Offsets(code);
    At(env, h, 3, stk);
    JumpTick(env, h, |code|, CodeSize(CODE[..3]), stk, CodeSize(CODE[..6]), CodeSize(CODE[..4]));
  }

  lemma RetHop<H>(env: Env<H>, h: H, code: seq<byte>, stk: seq<Word>)
    requires Linked(code) && |stk| >= 1 && stk[|stk| - 1] == ZERO_WORD
    ensures Tick(env, code, Before(7, stk, h)) == Go(Machine(0, stk[..|stk| - 1], h))
  {
    hide Fits, Image, Tick, ExecOp, CodeSize;
    Offsets(code);
    At(env, h, 7, stk);
    RetTick(env, h, |code|, CodeSize(CODE[..7]), stk, CodeSize(CODE[..8]));
  }

  /** The flat run: the two words of the i64 are dropped as one, and `ret` takes the other for the return address. */
  lemma LopsidedRun<H>(env: Env<H>, h: H, code: seq<byte>)
    requires Plainly(env, h) && Linked(code)
    ensures TickN(env, code, Machine(0, [ZERO_WORD], h), 6) == Go(Machine(0, [ZERO_WORD], h))
  {
    hide Tick, Plainly, Before, Linked;
    var z := ZERO_WORD;
    assert Before(0, [z], h) == Machine(0, [z], h) by { Starts(h); }
    assert [z] + seq(1, _ => z) == [z, z] && [z] + seq(2, _ => z) == [z, z, z];
    assert [z, z][..1] == [z] && [z, z, z][..2] == [z, z];
    PushHop(env, h, code, 0, [z], false);
    DropHop(env, h, code, 1, [z, z]);
    PushHop(env, h, code, 2, [z], true);
    BranchHop(env, h, code, [z, z, z]);
    DropHop(env, h, code, 6, [z, z, z]);
    RetHop(env, h, code, [z, z]);
    SixTicks(env, code, [Before(0, [z], h), Before(1, [z, z], h), Before(2, [z], h), Before(3, [z, z, z], h),
                         Before(6, [z, z, z], h), Before(7, [z, z], h), Machine(0, [z], h)]);
  }

  lemma Starts<H>(h: H)
    ensures Before(0, [ZERO_WORD], h) == Machine(0, [ZERO_WORD], h)
  {
    assert CODE[..0] == [];
  }

  lemma {:induction false} Chained<H>(env: Env<H>, code: seq<byte>, ms: seq<Machine<H>>, n: nat)
    requires n < |ms| && forall i :: 0 <= i < n ==> Tick(env, code, ms[i]) == Go(ms[i + 1])
    ensures TickN(env, code, ms[0], n) == Go(ms[n])
  {
    hide Tick;
    if n > 0 {
      Chained(env, code, ms, n - 1);
    }
  }

  lemma SixTicks<H>(env: Env<H>, code: seq<byte>, ms: seq<Machine<H>>)
    requires |ms| == 7
    requires Tick(env, code, ms[0]) == Go(ms[1]) && Tick(env, code, ms[1]) == Go(ms[2]) && Tick(env, code, ms[2]) == Go(ms[3])
    requires Tick(env, code, ms[3]) == Go(ms[4]) && Tick(env, code, ms[4]) == Go(ms[5]) && Tick(env, code, ms[5]) == Go(ms[6])
    ensures TickN(env, code, ms[0], 6) == Go(ms[6])
  {
    hide Tick, TickN;
    Chained(env, code, ms, 6);
  }

  lemma JumpTick<H>(env: Env<H>, h: H, n: nat, ip: nat, stk: seq<Word>, a: nat, next: nat)
    requires a < n
    ensures ExecOp(env, n, Machine(ip, stk, h), FlatOp.Br(a), next) == Go(Machine(a, stk, h))
  {
  }

  lemma RetTick<H>(env: Env<H>, h: H, n: nat, ip: nat, stk: seq<Word>, next: nat)
    requires |stk| >= 1 && stk[|stk| - 1] == ZERO_WORD && n > 0
    ensures ExecOp(env, n, Machine(ip, stk, h), FlatOp.Ret(0, 0, 0), next) == Go(Machine(0, stk[..|stk| - 1], h))
  {
    assert stk[|stk|..] == [] && stk[..|stk| - 1] + [] == stk[..|stk| - 1];
  }

  lemma Offsets(code: seq<byte>)
    requires Fits(LOPSIDED_MODULE, 0) && code == Image(LOPSIDED_MODULE, [], [])
    requires Final(LOPSIDED_MODULE, 0) == Unit([0, CodeSize(CODE[..6])], CODE)
    ensures CodeSize(CODE[..0]) == 0 && CodeSize(CODE[..6]) < |code|
  {
    hide Fits, Image;
    FetchAt(LOPSIDED_MODULE, [], [], 6);
  }

  /** The branch check compares operand counts and not types. This module is accepted and not valid. A structured run takes an
      operand of the enclosing block at its third step; the flat machine runs on, and returns with a data word for its return
      address while the real one stays behind on the stack. */
  lemma BranchMayUnbalance<H>(env: Env<H>, h: H)
    requires Plainly(env, h)
    ensures Fits(LOPSIDED_MODULE, 0) && !WasmValid.ValidModule(LOPSIDED_MODULE)
    ensures AdvanceN(env, LOPSIDED_MODULE, Initial(LOPSIDED_MODULE, 0, [], h), 3) == OutOfBlock
    ensures
      var o := TickN(env, Image(LOPSIDED_MODULE, [], []), WasmCalls.Entry(LOPSIDED_MODULE, 0, 0, [], h), 6);
      o == Go(Machine(0, [ZERO_WORD], h)) && o != Go(Machine(0, Flat([]), h))
  {
    hide Plainly, TickN, CodeSize, Fits, Accepted, Final, Image, AdvanceN, Initial, WasmCalls.Entry, WasmValid.ValidModule;
    LopsidedFits();
    LopsidedIsInvalid();
    assert Linked(Image(LOPSIDED_MODULE, [], []));
    LopsidedRun(env, h, Image(LOPSIDED_MODULE, [], []));
    EntryIs<H>(h);
    StructuredRun(env, h);
  }

  lemma EntryIs<H>(h: H)
    requires Accepted(LOPSIDED_MODULE, 0) && Final(LOPSIDED_MODULE, 0) == Unit([0, CodeSize(CODE[..6])], CODE)
    ensures WasmCalls.Entry(LOPSIDED_MODULE, 0, 0, [], h) == Machine(0, [ZERO_WORD], h)
  {
    hide Build, CodeSize;
    EntryLabel(LOPSIDED_MODULE, 0, 0);
    assert Flat([]) + [ZERO_WORD] == [ZERO_WORD];
  }

  lemma StructuredRun<H>(env: Env<H>, h: H)
    requires Plainly(env, h)
    ensures AdvanceN(env, LOPSIDED_MODULE, Initial(LOPSIDED_MODULE, 0, [], h), 3) == OutOfBlock
  {
    hide FindEnd, AdvanceN, Advance, Plainly, Zero;
    var m, v, e := LOPSIDED_MODULE, Zero(I32), FindEnd(LOPSIDED, 2, 0) + 1;
    var c0, c1, c2 := Initial(m, 0, [], h), Running([Frame(0, 1, [], [v], [])], h), Running([Frame(0, 2, [], [v], [Label(e, 1)])], h);
    assert [] + Zeros([]) == [];
    PushStep(env, h);
    BlockStep(env, h, v);
    DropStep(env, h, v, e);
    ThreeSteps(env, m, c0, c1, c2, OutOfBlock);
  }

  lemma PushStep<H>(env: Env<H>, h: H)
    requires Plainly(env, h)
    ensures Advance(env, LOPSIDED_MODULE, Running([Frame(0, 0, [], [], [])], h)) == Running([Frame(0, 1, [], [Zero(I32)], [])], h)
  {
    hide CallSimple, Zero, IsSimple, SimpleSig, Decoded, Plainly, DoCall;
    ConstantsAre(Leb128.Standard);
    ConstCall(env, h, false);
    var fr := Frame(0, 0, [], [], []);
    assert [fr][..0] == [];
    assert LOPSIDED[0] == C32;
    PushedBy(fr, h, Zero(I32), args => CallSimple(env, h, 0x41, Number(0), args));
  }

  lemma PushedBy<H>(fr: Frame, h: H, v: Value, call: seq<Value> -> Option<(H, seq<Value>)>)
    requires fr == Frame(0, 0, [], [], []) && call([]) == Some((h, [v]))
    ensures DoCall([], fr, 0, call) == Running([Frame(0, 1, [], [v], [])], h)
  {
    assert fr.ops[0..] == [] && fr.ops[..0] + [v] == [v];
  }

  lemma BlockStep<H>(env: Env<H>, h: H, v: Value)
    ensures Advance(env, LOPSIDED_MODULE, Running([Frame(0, 1, [], [v], [])], h)) ==
      Running([Frame(0, 2, [], [v], [Label(FindEnd(LOPSIDED, 2, 0) + 1, 1)])], h)
  {
    hide FindEnd;
    var fr := Frame(0, 1, [], [v], []);
    var l := Label(FindEnd(LOPSIDED, 2, 0) + 1, 1);
    assert [fr][..0] == [] && LOPSIDED[1] == Block && [] + [l] == [l];
    assert [] + [fr.(pc := 2, labels := [l])] == [Frame(0, 2, [], [v], [l])];
  }

  lemma DropStep<H>(env: Env<H>, h: H, v: Value, e: nat)
    ensures Advance(env, LOPSIDED_MODULE, Running([Frame(0, 2, [], [v], [Label(e, 1)])], h)) == OutOfBlock
  {
    assert LOPSIDED[2] == DropTop;
  }

  lemma ThreeSteps<H>(env: Env<H>, m: Module, c0: Config<H>, c1: Config<H>, c2: Config<H>, c3: Config<H>)
    requires Advance(env, m, c0) == c1 && Advance(env, m, c1) == c2 && Advance(env, m, c2) == c3
    ensures AdvanceN(env, m, c0, 3) == c3
  {
    hide Advance;
    assert AdvanceN(env, m, c0, 0) == c0;
    assert AdvanceN(env, m, c0, 1) == c1;
    assert AdvanceN(env, m, c0, 2) == c2;
  }

  // ----- `unreachable` -----

  const ABORTING: seq<Instr> := [Unreachable, End]

  const ABORTING_MODULE := Module([], [], [Func(FuncType([], []), [], ABORTING)])

  const ABORTING_FN := ABORTING_MODULE.funcs[0]

  lemma AbortingSteps(c: State)
    requires c == State([OUTER], [], false, [0], [])
    ensures Step(ABORTING_MODULE, 0, ABORTING_FN, c, Unreachable) == Some(c.(dead := true))
    ensures Step(ABORTING_MODULE, 0, ABORTING_FN, c.(dead := true), End) == Some(State([], [], false, [0], [FlatOp.Ret(0, 0, 0)]))
  {
    assert ABORTING_FN.RetOp() == FlatOp.Ret(0, 0, 0);
    assert [] + [FlatOp.Ret(0, 0, 0)] == [FlatOp.Ret(0, 0, 0)] && [OUTER][..0] == [];
  }

  lemma AbortingCompiled()
    ensures Build(ABORTING_MODULE, 0, 1) == Some(Unit([0], [FlatOp.Ret(0, 0, 0)]))
  {
    hide Step;
    var m, fn := ABORTING_MODULE, ABORTING_FN;
    assert seq(1, _ => 0) == [0];
    var c0 := State([OUTER], [], false, [0], []);
    assert Start(m, 0, 0, [0], []) == c0;
    AbortingSteps(c0);
    assert Run(m, 0, fn, c0, 0) == Some(c0);
    assert Run(m, 0, fn, c0, 1) == Some(c0.(dead := true));
    assert Run(m, 0, fn, c0, 2) == Some(State([], [], false, [0], [FlatOp.Ret(0, 0, 0)]));
    assert Build(m, 0, 0) == Some(Unit([0], []));
  }

  lemma AbortingFits()
    ensures Accepted(ABORTING_MODULE, 0) && Fits(ABORTING_MODULE, 0)
    ensures Final(ABORTING_MODULE, 0) == Unit([0], [FlatOp.Ret(0, 0, 0)])
  {
    hide Build;
    AbortingCompiled();
    assert |Leb128.WriteU(0)| == 1;
    CodeSizeBound([FlatOp.Ret(0, 0, 0)]);
  }

  lemma AbortingIsValid()
    ensures WasmValid.ValidModule(ABORTING_MODULE) && !WasmValid.NeverAborts(ABORTING_MODULE)
  {
    hide WasmValid.TypeAt;
    var m, fn := ABORTING_MODULE, ABORTING_FN;
    TypeNext(m, fn, 0);
    TypeNext(m, fn, 1);
    assert [0][..0] == [];
    assert WasmValid.ValidFunc(m, fn);
    assert m.funcs[0].body[0].Unreachable?;
  }

  /** The compiler emits nothing for `unreachable`: where the structured program aborts, the flat one falls through and
      returns. */
  lemma UnreachableFallsThrough<H>(env: Env<H>, h: H)
    ensures Fits(ABORTING_MODULE, 0) && WasmValid.ValidModule(ABORTING_MODULE) && !WasmValid.NeverAborts(ABORTING_MODULE)
    ensures AdvanceN(env, ABORTING_MODULE, Initial(ABORTING_MODULE, 0, [], h), 1) == Aborted
    ensures TickN(env, Image(ABORTING_MODULE, [], []), WasmCalls.Entry(ABORTING_MODULE, 0, 0, [], h), 1) == Go(Machine(0, [], h))
  {
    hide Fits, Accepted, Final, Image, TickN, AdvanceN, Initial, WasmCalls.Entry, WasmValid.ValidModule, WasmValid.NeverAborts;
    AbortingFits();
    AbortingIsValid();
    AbortingRun(env, h);
    AbortStep(env, h);
  }

  lemma AbortStep<H>(env: Env<H>, h: H)
    ensures AdvanceN(env, ABORTING_MODULE, Initial(ABORTING_MODULE, 0, [], h), 1) == Aborted
  {
    var m := ABORTING_MODULE;
    assert AdvanceN(env, m, Initial(m, 0, [], h), 0) == Initial(m, 0, [], h);
  }

  lemma AbortingRun<H>(env: Env<H>, h: H)
    requires Accepted(ABORTING_MODULE, 0) && Fits(ABORTING_MODULE, 0)
    requires Final(ABORTING_MODULE, 0) == Unit([0], [FlatOp.Ret(0, 0, 0)])
    ensures TickN(env, Image(ABORTING_MODULE, [], []), WasmCalls.Entry(ABORTING_MODULE, 0, 0, [], h), 1) == Go(Machine(0, [], h))
  {
    hide Fits, Accepted, Final, Image, Tick, ExecOp, TickN, Size;
    var m, code, s := ABORTING_MODULE, Image(ABORTING_MODULE, [], []), Machine(0, [ZERO_WORD], h);
    assert WasmCalls.Entry(m, 0, 0, [], h) == s by {
      EntryLabel(m, 0, 0);
      assert Flat([]) + [ZERO_WORD] == [ZERO_WORD];
    }
    var out := [FlatOp.Ret(0, 0, 0)];
    assert out[..0] == [] && CodeSize([]) == 0;
    FetchAt(m, [], [], 0);
    WasmCalls.TickIndex(env, m, [], [], 0, s);
    RetTick(env, h, |code|, 0, [ZERO_WORD], CodeSize(out[..1]));
    assert [ZERO_WORD][..0] == [];
    Chained(env, code, [s, Machine(0, [], h)], 1);
  }
}
