/** Structured WASM execution (section 4.4 of the WebAssembly Core Specification), restricted to what the
    contract compiler takes: typed values, nested labels, one operand stack and one set of locals per frame. */
module WasmSource {
  import opened Words
  import opened WasmCode
  import opened WasmCompiler
  import Leb128

  /** What an instruction gets besides its operands: the number of a constant, the bytes of other immediates. */
  datatype Immediate = Number(v: nat) | Bytes(bytes: seq<byte>)

  /** Constants are read as numbers, in the given mode of the reader. */
  function Decoded(mode: Leb128.Mode, op: byte, imm: seq<byte>): Immediate {
    if op != 0x41 && op != 0x42 then Bytes(imm)
    else
      var x := Leb128.Read(if op == 0x41 then 32 else 64, true, mode, imm);
      if x.Done? then Number(x.v) else Bytes(imm)
  }

  /** Everything outside the operand stack: the numeric operators, linear memory and the host functions.
      Both the structured and the flat machine call the same environment. `cap` is the number of words the
      operand stack may hold. */
  datatype Env<!H> = Env(
    simple: (H, byte, Immediate, seq<Value>) -> Option<(H, seq<Value>)>,
    ext: (H, byte, nat, seq<Value>) -> Option<(H, seq<Value>)>,
    extSig: (byte, nat) -> Sig,
    cap: H -> nat)

  /** A result that does not fit the signature is a trap, like a host failure. */
  function Fit<H>(r: Option<(H, seq<Value>)>, rets: seq<ValType>): (q: Option<(H, seq<Value>)>)
    ensures q.Some? ==> Types(q.value.1) == rets && AllValid(q.value.1)
  {
    if r.Some? && Types(r.value.1) == rets
       && (forall i :: 0 <= i < |r.value.1| ==> |r.value.1[i].ws| == WordsOf(r.value.1[i].t))
    then r else None
  }

  function CallSimple<H>(env: Env<H>, h: H, op: byte, x: Immediate, args: seq<Value>): Option<(H, seq<Value>)>
    requires IsSimple(op)
  {
    Fit(env.simple(h, op, x, args), SimpleSig(op).rets)
  }

  function CallExt<H>(env: Env<H>, h: H, op: byte, b: nat, args: seq<Value>): Option<(H, seq<Value>)> {
    Fit(env.ext(h, op, b, args), env.extSig(op, b).rets)
  }

  /** Where a branch to an enclosing block continues, and the operand height it unwinds to. */
  datatype Label = Label(cont: nat, height: nat)

  datatype Frame = Frame(f: nat, pc: nat, locals: seq<Value>, ops: seq<Value>, labels: seq<Label>) {
    /** Operands below this height belong to an enclosing block, out of reach of the current one. */
    function Floor(): nat {
      if labels == [] then 0 else labels[|labels| - 1].height
    }
  }

  datatype Config<H> =
    | Running(frames: seq<Frame>, host: H)
    | Finished(rets: seq<Value>, final: H)
    | Trapped      // a numeric operator or the host refused
    | Aborted      // `unreachable` was executed
    | OutOfBlock   // an operand of an enclosing block was needed, which validation forbids
    | Stuck        // no such local, function or target

  /** Position of the `end` that closes the block whose body starts at k, d inner blocks being open. */
  function FindEnd(body: seq<Instr>, k: nat, d: nat): (j: nat)
    ensures k <= |body| ==> k <= j <= |body|
    decreases |body| - k
  {
    if k >= |body| then |body|
    else
      match body[k]
      case Block => FindEnd(body, k + 1, d + 1)
      case Loop => FindEnd(body, k + 1, d + 1)
      case End => if d == 0 then k else FindEnd(body, k + 1, d - 1)
      case _ => FindEnd(body, k + 1, d)
  }

  function IsTrue(v: Value): bool {
    v.ws != [ZERO_WORD]
  }

  function Index(v: Value, n: nat): (i: nat)
    requires n > 0
    ensures i < n
  {
    if |v.ws| == 1 && FromWord(v.ws[0]) < n then FromWord(v.ws[0]) else n - 1
  }

  function DoReturn<H>(fn: Func, rest: seq<Frame>, fr: Frame, h: H): Config<H> {
    var n := |fn.tp.rets|;
    if |fr.ops| < n + fr.Floor() then OutOfBlock
    else
      var rets := fr.ops[|fr.ops| - n..];
      if rest == [] then Finished(rets, h)
      else
        var caller := rest[|rest| - 1];
        Running(rest[..|rest| - 1] + [caller.(ops := caller.ops + rets)], h)
  }

  function DoBranch<H>(fn: Func, rest: seq<Frame>, fr: Frame, h: H, d: nat): Config<H> {
    if d < |fr.labels| then
      var k := |fr.labels| - 1 - d;
      var l := fr.labels[k];
      if l.height > |fr.ops| then Stuck
      else Running(rest + [fr.(pc := l.cont, ops := fr.ops[..l.height], labels := fr.labels[..k])], h)
    else if d == |fr.labels| then DoReturn(fn, rest, fr, h)
    else Stuck
  }

  /** Pop n operands and hand them to the environment. */
  function DoCall<H>(rest: seq<Frame>, fr: Frame, n: nat, call: seq<Value> -> Option<(H, seq<Value>)>): Config<H> {
    if |fr.ops| < n + fr.Floor() then OutOfBlock
    else
      match call(fr.ops[|fr.ops| - n..])
      case None => Trapped
      case Some((h, rets)) => Running(rest + [fr.(pc := fr.pc + 1, ops := fr.ops[..|fr.ops| - n] + rets)], h)
  }

  function DoExt<H>(env: Env<H>, rest: seq<Frame>, fr: Frame, h: H, op: byte, b: nat, n: nat): Config<H> {
    DoCall(rest, fr, n, args => CallExt(env, h, op, b, args))
  }

  function DoInvoke<H>(env: Env<H>, m: Module, rest: seq<Frame>, fr: Frame, h: H, f: nat): Config<H> {
    if f < |m.imports| then
      if m.imports[f].binding.None? then Stuck
      else DoExt(env, rest, fr, h, 0xF3, m.imports[f].binding.value, |m.imports[f].tp.args|)
    else if f - |m.imports| >= |m.funcs| then Stuck
    else
      var fn := m.funcs[f - |m.imports|];
      var n := |fn.tp.args|;
      if |fr.ops| < n + fr.Floor() then OutOfBlock
      else
        Running(rest + [fr.(pc := fr.pc + 1, ops := fr.ops[..|fr.ops| - n]),
                        Frame(f - |m.imports|, 0, fr.ops[|fr.ops| - n..] + Zeros(fn.extra), [], [])], h)
  }

  function DoLocal<H>(rest: seq<Frame>, fr: Frame, h: H, ins: Instr): Config<H>
    requires ins.GetLocal? || ins.SetLocal? || ins.TeeLocal?
  {
    if ins.i >= |fr.locals| then Stuck
    else if ins.GetLocal? then Running(rest + [fr.(pc := fr.pc + 1, ops := fr.ops + [fr.locals[ins.i]])], h)
    else if |fr.ops| < 1 + fr.Floor() then OutOfBlock
    else
      var n := |fr.ops| - 1;
      var fr' := fr.(pc := fr.pc + 1, locals := fr.locals[ins.i := fr.ops[n]]);
      Running(rest + [if ins.SetLocal? then fr'.(ops := fr.ops[..n]) else fr'], h)
  }

  function DoGlobal<H>(env: Env<H>, m: Module, rest: seq<Frame>, fr: Frame, h: H, i: nat, get: bool): Config<H> {
    if i >= |m.globals| || m.globals[i].binding.None? then Stuck
    else if get then DoExt(env, rest, fr, h, 0xF8, m.globals[i].binding.value, 0)
    else DoExt(env, rest, fr, h, 0xF9, m.globals[i].binding.value, 1)
  }

  function DoTop<H>(rest: seq<Frame>, fr: Frame, h: H, ins: Instr): Config<H>
    requires ins.DropTop? || ins.SelectTop?
  {
    var n := |fr.ops|;
    if ins.DropTop? then
      if n < 1 + fr.Floor() then OutOfBlock else Running(rest + [fr.(pc := fr.pc + 1, ops := fr.ops[..n - 1])], h)
    else if n < 3 + fr.Floor() then OutOfBlock
    else
      var v := if IsTrue(fr.ops[n - 1]) then fr.ops[n - 3] else fr.ops[n - 2];
      Running(rest + [fr.(pc := fr.pc + 1, ops := fr.ops[..n - 3] + [v])], h)
  }

  function DoConditional<H>(fn: Func, rest: seq<Frame>, fr: Frame, h: H, ins: Instr): Config<H>
    requires ins.BranchIf? || ins.BranchTable?
  {
    if |fr.ops| < 1 + fr.Floor() then OutOfBlock
    else
      var n := |fr.ops| - 1;
      var v, fr' := fr.ops[n], fr.(ops := fr.ops[..n]);
      match ins
      case BranchIf(d) =>
        if IsTrue(v) then DoBranch(fn, rest, fr', h, d) else Running(rest + [fr'.(pc := fr.pc + 1)], h)
      case BranchTable(ds) =>
        if ds == [] then Stuck else DoBranch(fn, rest, fr', h, ds[Index(v, |ds|)])
  }

  function Execute<H>(env: Env<H>, m: Module, fn: Func, rest: seq<Frame>, fr: Frame, h: H, ins: Instr): Config<H> {
    match ins
    case Block =>
      Running(rest + [fr.(pc := fr.pc + 1,
                          labels := fr.labels + [Label(FindEnd(fn.body, fr.pc + 1, 0) + 1, |fr.ops|)])], h)
    case Loop =>
      Running(rest + [fr.(pc := fr.pc + 1, labels := fr.labels + [Label(fr.pc, |fr.ops|)])], h)
    case End =>
      if fr.labels == [] then DoReturn(fn, rest, fr, h)
      else Running(rest + [fr.(pc := fr.pc + 1, labels := fr.labels[..|fr.labels| - 1])], h)
    case Nop => Running(rest + [fr.(pc := fr.pc + 1)], h)
    case Unreachable => Aborted
    case Branch(d) => DoBranch(fn, rest, fr, h, d)
    case BranchIf(_) => DoConditional(fn, rest, fr, h, ins)
    case BranchTable(_) => DoConditional(fn, rest, fr, h, ins)
    case Return => DoReturn(fn, rest, fr, h)
    case Invoke(f) => DoInvoke(env, m, rest, fr, h, f)
    case GetLocal(_) => DoLocal(rest, fr, h, ins)
    case SetLocal(_) => DoLocal(rest, fr, h, ins)
    case TeeLocal(_) => DoLocal(rest, fr, h, ins)
    case GetGlobal(i) => DoGlobal(env, m, rest, fr, h, i, true)
    case SetGlobal(i) => DoGlobal(env, m, rest, fr, h, i, false)
    case DropTop => DoTop(rest, fr, h, ins)
    case SelectTop => DoTop(rest, fr, h, ins)
    case Plain(op, imm) =>
      if !IsSimple(op) then Stuck
      else
        var x := Decoded(Leb128.Standard, op, imm);
        DoCall(rest, fr, |SimpleSig(op).args|, args => CallSimple(env, h, op, x, args))
  }

  function Advance<H>(env: Env<H>, m: Module, c: Config<H>): Config<H> {
    match c
    case Running(frames, h) =>
      if frames == [] then Stuck
      else
        var n := |frames| - 1;
        var fr := frames[n];
        if fr.f >= |m.funcs| || fr.pc >= |m.funcs[fr.f].body| then Stuck
        else Execute(env, m, m.funcs[fr.f], frames[..n], fr, h, m.funcs[fr.f].body[fr.pc])
    case _ => c
  }

  function AdvanceN<H>(env: Env<H>, m: Module, c: Config<H>, n: nat): Config<H>
    decreases n
  {
    if n == 0 then c else Advance(env, m, AdvanceN(env, m, c, n - 1))
  }

  /** The first configuration of a call to function f. */
  function Initial<H>(m: Module, f: nat, args: seq<Value>, h: H): Config<H>
    requires f < |m.funcs|
  {
    Running([Frame(f, 0, args + Zeros(m.funcs[f].extra), [], [])], h)
  }
}
