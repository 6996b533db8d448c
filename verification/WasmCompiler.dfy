/** The contract compiler: structured WASM in, flat bytecode with stack-relative locals and absolute jumps out.

    The functions here are the compiler's step on its own state (operand types, open blocks, labels, emitted
    instructions); `WasmContext.Context` is the object that performs the same steps in place on bytes. */
module WasmCompiler {
  import opened Words
  import opened WasmCode
  import Leb128

  datatype FuncType = FuncType(args: seq<ValType>, rets: seq<ValType>)

  datatype Instr =
    | Block
    | Loop
    | End
    | Nop
    | Unreachable
    | Branch(depth: nat)
    | BranchIf(depth: nat)
    | BranchTable(depths: seq<nat>)
    | Return
    | Invoke(f: nat)
    | GetLocal(i: nat)
    | SetLocal(i: nat)
    | TeeLocal(i: nat)
    | GetGlobal(i: nat)
    | SetGlobal(i: nat)
    | DropTop
    | SelectTop
    | Plain(opcode: byte, imm: seq<byte>)

  datatype Func = Func(tp: FuncType, extra: seq<ValType>, body: seq<Instr>) {
    function Locals(): seq<ValType> {
      tp.args + extra
    }

    function ArgWords(): nat {
      SizeWords(tp.args)
    }

    function RetOp(): FlatOp {
      FlatOp.Ret(SizeWords(tp.rets), SizeWords(extra), ArgWords())
    }

    /** Distance in words from the top of the stack to local i, under the given operands. */
    function Offset(ops: seq<ValType>, i: nat): nat
      requires i < |Locals()|
    {
      SizeWordsSplit(Locals(), i);
      SizeWords(ops) + (SizeWords(Locals()) - SizeWords(Locals()[..i])) + if i < |tp.args| then 1 else 0
    }

    function LocalOp(opcode: byte, ops: seq<ValType>, i: nat): FlatOp
      requires i < |Locals()|
    {
      FlatOp.Local(opcode, 4 * Offset(ops, i) + (TypeCode(Locals()[i]) - 0x7C))
    }
  }

  datatype Import = Import(tp: FuncType, binding: Option<nat>)
  datatype Global = Global(t: ValType, binding: Option<nat>)
  datatype Module = Module(imports: seq<Import>, globals: seq<Global>, funcs: seq<Func>)

  lemma {:induction false} SizeWordsSplit(ts: seq<ValType>, i: nat)
    requires i <= |ts|
    ensures SizeWords(ts) == SizeWords(ts[..i]) + SizeWords(ts[i..])
    decreases |ts|
  {
    if i == |ts| {
      assert ts[..i] == ts;
    } else {
      var n := |ts| - 1;
      SizeWordsSplit(ts[..n], i);
      assert ts[..n][..i] == ts[..i];
      assert ts[..n][i..] == ts[i..][..|ts| - i - 1];
    }
  }

  // ----- Compiler state -----

  /** An open block: operands required at its end, its label, and whether a branch goes to its start. */
  datatype Scope = Scope(exit: seq<ValType>, lbl: nat, isLoop: bool)

  datatype State = State(scopes: seq<Scope>, ops: seq<ValType>, dead: bool, labels: seq<nat>, out: seq<FlatOp>) {
    function Emit(f: FlatOp): State {
      this.(out := out + [f])
    }
  }

  /** Immediates that the compiler's reader accepts: readable numbers, and an alignment power of at most 4. */
  predicate ImmediateOk(op: byte, imm: seq<byte>) {
    && IsSimple(op)
    && IsImmediate(imm, Immediates(op))
    && (op == 0x41 ==> Leb128.Read(32, true, Leb128.AutoWorkAround, imm).Done?)
    && (op == 0x42 ==> Leb128.Read(64, true, Leb128.AutoWorkAround, imm).Done?)
    && (IsLoad(op) || IsStore(op) ==>
          var a := Leb128.Read(32, false, Leb128.AutoWorkAround, imm);
          && a.Done? && a.v <= 4 && a.len <= |imm|
          && Leb128.Read(32, false, Leb128.AutoWorkAround, imm[a.len..]).Done?)
  }

  lemma ImmediateSimple(op: byte, imm: seq<byte>)
    ensures ImmediateOk(op, imm) ==> IsSimple(op)
  {
  }

  /** A constant as its reader leaves it in the buffer, which is what is written out: a conflicting sign flag is cleared. */
  function Cleared(op: byte, imm: seq<byte>): (r: seq<byte>)
    ensures |r| == |imm|
  {
    if op != 0x41 && op != 0x42 then imm
    else
      var bits := if op == 0x41 then 32 else 64;
      var x := Leb128.Read(bits, true, Leb128.AutoWorkAround, imm);
      if x.Fail? || !x.triggered then imm
      else
        Leb128.WorkAroundIsStandard(bits, imm, Leb128.Standard);
        Leb128.Rewritten(imm, x.len)
  }

  function Pop(ops: seq<ValType>, ts: seq<ValType>): Option<seq<ValType>> {
    if |ts| <= |ops| && ops[|ops| - |ts|..] == ts then Some(ops[..|ops| - |ts|]) else None
  }

  function Open(hdr: nat, c: State, isLoop: bool): State {
    c.(scopes := c.scopes + [Scope(c.ops, |c.labels|, isLoop)],
       labels := c.labels + [if isLoop then hdr + CodeSize(c.out) else 0])
  }

  function Close(hdr: nat, fn: Func, c: State): Option<State>
    requires c.scopes != []
  {
    var n := |c.scopes| - 1;
    var top := c.scopes[n];
    if !c.dead && c.ops != top.exit then None
    else
      var c' := c.(scopes := c.scopes[..n], ops := top.exit, dead := false);
      if n == 0 then Some(c'.Emit(fn.RetOp()))
      else if top.isLoop || top.lbl >= |c.labels| then Some(c')
      else Some(c'.(labels := c.labels[top.lbl := hdr + CodeSize(c.out)]))
  }

  /** The label of the enclosing block at the given depth; the function's own block cannot be a target. */
  function Target(c: State, depth: nat): Option<nat> {
    if depth + 1 < |c.scopes| && |c.ops| == |c.scopes[|c.scopes| - 1 - depth].exit|
    then Some(c.scopes[|c.scopes| - 1 - depth].lbl)
    else None
  }

  function Targets(c: State, depths: seq<nat>): (r: Option<seq<nat>>)
    ensures r.Some? ==> |r.value| == |depths|
    ensures r.Some? <==> forall i :: 0 <= i < |depths| ==> Target(c, depths[i]).Some?
    ensures r.Some? ==> forall i :: 0 <= i < |depths| ==> Target(c, depths[i]) == Some(r.value[i])
  {
    if depths == [] then Some([])
    else
      match Target(c, depths[0])
      case None => None
      case Some(l) =>
        match Targets(c, depths[1..])
        case None => None
        case Some(ls) =>
          assert forall i :: 1 <= i < |depths| ==> depths[i] == depths[1..][i - 1];
          Some([l] + ls)
  }

  function StepBranch(c: State, ins: Instr): Option<State>
    requires ins.Branch? || ins.BranchIf? || ins.BranchTable?
  {
    match ins
    case Branch(d) =>
      (match Target(c, d)
       case None => None
       case Some(l) => Some(c.Emit(FlatOp.Br(l))))
    case BranchIf(d) =>
      (match Pop(c.ops, [I32])
       case None => None
       case Some(ops) =>
         match Target(c.(ops := ops), d)
         case None => None
         case Some(l) => Some(c.(ops := ops).Emit(FlatOp.BrIf(l))))
    case BranchTable(ds) =>
      match Pop(c.ops, [I32])
      case None => None
      case Some(ops) =>
        if ds == [] then None
        else
          match Targets(c.(ops := ops), ds)
          case None => None
          case Some(ls) => Some(c.(ops := ops).Emit(FlatOp.BrTable(ls)))
  }

  function StepLocal(fn: Func, c: State, ins: Instr): Option<State>
    requires ins.GetLocal? || ins.SetLocal? || ins.TeeLocal?
  {
    if ins.i >= |fn.Locals()| then None
    else
      var t := fn.Locals()[ins.i];
      match ins
      case GetLocal(i) => Some(c.(ops := c.ops + [t]).Emit(fn.LocalOp(0x20, c.ops, i)))
      case SetLocal(i) =>
        (match Pop(c.ops, [t])
         case None => None
         case Some(ops) => Some(c.(ops := ops).Emit(fn.LocalOp(0x21, c.ops, i))))
      case TeeLocal(i) =>
        match Pop(c.ops, [t])
        case None => None
        case Some(_) => Some(c.Emit(fn.LocalOp(0x22, c.ops, i)))
  }

  /** Pop the arguments, push the results and emit one instruction. */
  function Apply(c: State, args: seq<ValType>, rets: seq<ValType>, f: FlatOp): Option<State> {
    match Pop(c.ops, args)
    case None => None
    case Some(ops) => Some(c.(ops := ops + rets).Emit(f))
  }

  function StepInvoke(m: Module, c: State, f: nat): Option<State> {
    if f < |m.imports| then
      match m.imports[f].binding
      case None => None
      case Some(b) => Apply(c, m.imports[f].tp.args, m.imports[f].tp.rets, FlatOp.Ext(0xF3, b))
    else if f - |m.imports| < |m.funcs| then
      var tp := m.funcs[f - |m.imports|].tp;
      Apply(c, tp.args, tp.rets, FlatOp.Call(f - |m.imports|))
    else None
  }

  function StepGlobal(m: Module, c: State, i: nat, get: bool): Option<State> {
    if i >= |m.globals| then None
    else
      match m.globals[i].binding
      case None => None
      case Some(b) =>
        if get then Apply(c, [], [m.globals[i].t], FlatOp.Ext(0xF8, b))
        else Apply(c, [m.globals[i].t], [], FlatOp.Ext(0xF9, b))
  }

  function StepTop(c: State, ins: Instr): Option<State>
    requires ins.DropTop? || ins.SelectTop?
  {
    if ins.DropTop? then
      if c.ops == [] then None
      else Some(c.(ops := c.ops[..|c.ops| - 1]).Emit(FlatOp.Drop(c.ops[|c.ops| - 1])))
    else if |c.ops| < 3 then None
    else
      var t := c.ops[|c.ops| - 2];
      Apply(c, [t, t, I32], [t], FlatOp.Select(t))
  }

  /** One instruction of `CompileFunc`; None where the compiler fails. */
  function Step(m: Module, hdr: nat, fn: Func, c: State, ins: Instr): (r: Option<State>)
    requires c.scopes != []
    ensures r.Some? ==> |c.labels| <= |r.value.labels|
  {
    match ins
    case Block => Some(Open(hdr, c, false))
    case Loop => Some(Open(hdr, c, true))
    case End => Close(hdr, fn, c)
    case Nop => Some(c)
    case Unreachable => Some(c.(dead := true))
    case Branch(_) => StepBranch(c, ins)
    case BranchIf(_) => StepBranch(c, ins)
    case BranchTable(_) => StepBranch(c, ins)
    case Return => if c.ops != c.scopes[0].exit then None else Some(c.(dead := true).Emit(fn.RetOp()))
    case Invoke(f) => StepInvoke(m, c, f)
    case GetLocal(_) => StepLocal(fn, c, ins)
    case SetLocal(_) => StepLocal(fn, c, ins)
    case TeeLocal(_) => StepLocal(fn, c, ins)
    case GetGlobal(i) => StepGlobal(m, c, i, true)
    case SetGlobal(i) => StepGlobal(m, c, i, false)
    case DropTop => StepTop(c, ins)
    case SelectTop => StepTop(c, ins)
    case Plain(op, imm) =>
      if ImmediateOk(op, imm) then Apply(c, SimpleSig(op).args, SimpleSig(op).rets, FlatOp.Simple(op, Cleared(op, imm)))
      else None
  }

  // ----- Whole functions and modules -----

  function Prologue(fn: Func): seq<FlatOp> {
    if fn.extra == [] then [] else [FlatOp.Prolog(SizeWords(fn.extra))]
  }

  function Start(m: Module, hdr: nat, f: nat, labels: seq<nat>, out: seq<FlatOp>): State
    requires f < |m.funcs| && f < |labels|
  {
    var fn := m.funcs[f];
    State([Scope(fn.tp.rets, f, false)], [], false, labels[f := hdr + CodeSize(out)], out + Prologue(fn))
  }

  /** The state after the first k instructions of the body. */
  function Run(m: Module, hdr: nat, fn: Func, c: State, k: nat): (r: Option<State>)
    requires k <= |fn.body|
    ensures r.Some? ==> |c.labels| <= |r.value.labels|
    decreases k
  {
    if k == 0 then Some(c)
    else
      match Run(m, hdr, fn, c, k - 1)
      case None => None
      case Some(c') => if c'.scopes == [] then None else Step(m, hdr, fn, c', fn.body[k - 1])
  }

  datatype Unit = Unit(labels: seq<nat>, out: seq<FlatOp>)

  function CompileFunc(m: Module, hdr: nat, f: nat, u: Unit): Option<Unit>
    requires f < |m.funcs| && f < |u.labels|
  {
    var fn := m.funcs[f];
    match Run(m, hdr, fn, Start(m, hdr, f, u.labels, u.out), |fn.body|)
    case None => None
    case Some(c) => if c.scopes == [] then Some(Unit(c.labels, c.out)) else None
  }

  /** Labels and code after compiling the first k functions. */
  function Build(m: Module, hdr: nat, k: nat): (r: Option<Unit>)
    requires k <= |m.funcs|
    ensures r.Some? ==> |m.funcs| <= |r.value.labels|
    decreases k
  {
    if k == 0 then Some(Unit(seq(|m.funcs|, _ => 0), []))
    else
      match Build(m, hdr, k - 1)
      case None => None
      case Some(u) => CompileFunc(m, hdr, k - 1, u)
  }
}
