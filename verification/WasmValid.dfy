/** Validation of function bodies (section 3.3 of the WebAssembly Core Specification), for the instructions the contract
    compiler takes, and its soundness: a valid program never reaches for an operand of an enclosing block. Code that cannot be
    reached is not constrained at all, so every module that the specification calls valid is valid here. */
module WasmValid {
  import Leb128
  import opened Words
  import opened WasmCode
  import opened WasmCompiler
  import opened WasmSource
  import WasmSimulation

  // ----- Validation -----

  /** Operand types; the operand height at which each open block was entered, the function's own first; and, in code that
      cannot be reached, one more than the number of blocks opened there. */
  datatype Typing = Typing(ops: seq<ValType>, heights: seq<nat>, dead: nat) {
    function Floor(): nat {
      if heights == [] then 0 else heights[|heights| - 1]
    }

    /** The types are on top of the stack, and belong to the innermost block. */
    predicate Has(ts: seq<ValType>) {
      |ts| + Floor() <= |ops| && ops[|ops| - |ts|..] == ts
    }

    function Put(n: nat, ts: seq<ValType>): Typing {
      if n <= |ops| then this.(ops := ops[..|ops| - n] + ts) else this
    }

    function Kill(): Typing {
      if Floor() <= |ops| then this.(ops := ops[..Floor()], dead := 1) else this.(dead := 1)
    }

    function Closed(): Typing {
      if heights == [] || Floor() > |ops| then this else Typing(ops[..Floor()], heights[..|heights| - 1], 0)
    }

    /** What a branch of depth d needs: the results when it leaves the function, nothing when it leaves a block. */
    predicate Reaches(d: nat, rets: seq<ValType>) {
      d < |heights| && (d + 1 == |heights| ==> Has(rets))
    }
  }

  function Effect(v: Typing, args: seq<ValType>, rets: seq<ValType>): Option<Typing> {
    if v.Has(args) then Some(v.Put(|args|, rets)) else None
  }

  function CheckBranch(fn: Func, v: Typing, ins: Instr): Option<Typing>
    requires ins.Branch? || ins.BranchIf? || ins.BranchTable?
  {
    match ins
    case Branch(d) => if v.Reaches(d, fn.tp.rets) then Some(v.Kill()) else None
    case BranchIf(d) =>
      if v.Has([I32]) && v.Put(1, []).Reaches(d, fn.tp.rets) then Some(v.Put(1, [])) else None
    case BranchTable(ds) =>
      if v.Has([I32]) && ds != [] && (forall d :: d in ds ==> v.Put(1, []).Reaches(d, fn.tp.rets))
      then Some(v.Put(1, []).Kill()) else None
  }

  function CheckLocal(fn: Func, v: Typing, ins: Instr): Option<Typing>
    requires ins.GetLocal? || ins.SetLocal? || ins.TeeLocal?
  {
    if ins.i >= |fn.Locals()| then None
    else
      var t := fn.Locals()[ins.i];
      match ins
      case GetLocal(_) => Effect(v, [], [t])
      case SetLocal(_) => Effect(v, [t], [])
      case TeeLocal(_) => Effect(v, [t], [t])
  }

  function CheckInvoke(m: Module, v: Typing, f: nat): Option<Typing> {
    if f < |m.imports| then Effect(v, m.imports[f].tp.args, m.imports[f].tp.rets)
    else if f - |m.imports| < |m.funcs| then
      Effect(v, m.funcs[f - |m.imports|].tp.args, m.funcs[f - |m.imports|].tp.rets)
    else None
  }

  function CheckGlobal(m: Module, v: Typing, i: nat, get: bool): Option<Typing> {
    if i >= |m.globals| then None
    else if get then Effect(v, [], [m.globals[i].t]) else Effect(v, [m.globals[i].t], [])
  }

  function CheckTop(v: Typing, ins: Instr): Option<Typing>
    requires ins.DropTop? || ins.SelectTop?
  {
    var n := |v.ops|;
    if ins.DropTop? then
      if n > v.Floor() then Some(v.Put(1, [])) else None
    else if n >= 3 then Effect(v, [v.ops[n - 2], v.ops[n - 2], I32], [v.ops[n - 2]])
    else None
  }

  function CheckDead(v: Typing, ins: Instr): Typing {
    match ins
    case Block => v.(dead := v.dead + 1)
    case Loop => v.(dead := v.dead + 1)
    case End => if v.dead <= 1 then v.Closed() else v.(dead := v.dead - 1)
    case _ => v
  }

  /** One instruction; None where validation fails. */
  function Check(m: Module, fn: Func, v: Typing, ins: Instr): Option<Typing> {
    if v.heights == [] then None
    else if v.dead > 0 then Some(CheckDead(v, ins))
    else
      match ins
      case Block => Some(v.(heights := v.heights + [|v.ops|]))
      case Loop => Some(v.(heights := v.heights + [|v.ops|]))
      case End =>
        if (if |v.heights| == 1 then v.ops == fn.tp.rets else |v.ops| == v.Floor()) then Some(v.Closed()) else None
      case Nop => Some(v)
      case Unreachable => Some(v.Kill())
      case Branch(_) => CheckBranch(fn, v, ins)
      case BranchIf(_) => CheckBranch(fn, v, ins)
      case BranchTable(_) => CheckBranch(fn, v, ins)
      case Return => if v.Has(fn.tp.rets) then Some(v.Kill()) else None
      case Invoke(f) => CheckInvoke(m, v, f)
      case GetLocal(_) => CheckLocal(fn, v, ins)
      case SetLocal(_) => CheckLocal(fn, v, ins)
      case TeeLocal(_) => CheckLocal(fn, v, ins)
      case GetGlobal(i) => CheckGlobal(m, v, i, true)
      case SetGlobal(i) => CheckGlobal(m, v, i, false)
      case DropTop => CheckTop(v, ins)
      case SelectTop => CheckTop(v, ins)
      case Plain(op, _) =>
        if IsSimple(op) then Effect(v, SimpleSig(op).args, SimpleSig(op).rets) else None
  }

  /** The typing before instruction k. */
  function TypeAt(m: Module, fn: Func, k: nat): Option<Typing>
    requires k <= |fn.body|
    decreases k
  {
    if k == 0 then Some(Typing([], [0], 0))
    else
      match TypeAt(m, fn, k - 1)
      case None => None
      case Some(v) => Check(m, fn, v, fn.body[k - 1])
  }

  /** A valid body ends exactly where the function's own block does. */
  predicate ValidFunc(m: Module, fn: Func) {
    var r := TypeAt(m, fn, |fn.body|);
    r.Some? && r.value.heights == []
  }

  predicate ValidModule(m: Module) {
    forall f :: 0 <= f < |m.funcs| ==> ValidFunc(m, m.funcs[f])
  }

  /** `unreachable`, for which the compiler emits nothing, stands only where it cannot be reached. */
  predicate NeverAborts(m: Module) {
    forall f, i :: 0 <= f < |m.funcs| && 0 <= i < |m.funcs[f].body| && m.funcs[f].body[i].Unreachable? ==>
      var r := TypeAt(m, m.funcs[f], i); r.Some? ==> r.value.dead > 0
  }

  // ----- Soundness -----

  /** Blocks are entered at growing heights, within the operands. */
  ghost predicate Sane(v: Typing) {
    && (forall j, k :: 0 <= j < k < |v.heights| ==> v.heights[j] <= v.heights[k])
    && (forall j :: 0 <= j < |v.heights| ==> v.heights[j] <= |v.ops|)
  }

  /** A branch to the label continues where the typing is that of its block's surroundings. */
  ghost predicate LabelTyped(m: Module, fn: Func, v: Typing, k: nat, lab: Label)
    requires k + 1 < |v.heights|
  {
    && lab.height == v.heights[k + 1] <= |v.ops| && lab.cont < |fn.body|
    && TypeAt(m, fn, lab.cont) == Some(Typing(v.ops[..lab.height], v.heights[..k + 1], 0))
  }

  ghost predicate LabelsTyped(m: Module, fn: Func, v: Typing, labels: seq<Label>) {
    |labels| + 1 == |v.heights| && forall k :: 0 <= k < |labels| ==> LabelTyped(m, fn, v, k, labels[k])
  }

  /** A frame is as the typing before its next instruction says; `pending` are the results of a call in progress. */
  ghost predicate FrameTyped(m: Module, fr: Frame, pending: seq<ValType>) {
    && fr.f < |m.funcs| && fr.pc < |m.funcs[fr.f].body|
    && var fn, r := m.funcs[fr.f], TypeAt(m, m.funcs[fr.f], fr.pc);
    && r.Some? && Sane(r.value) && r.value.dead == 0 && LabelsTyped(m, fn, r.value, fr.labels)
    && Types(fr.ops) + pending == r.value.ops && r.value.Floor() <= |fr.ops|
    && Types(fr.locals) == fn.Locals()
  }

  ghost predicate FramesTyped(m: Module, frames: seq<Frame>, pending: seq<ValType>) {
    && frames != []
    && var n := |frames| - 1;
    && FrameTyped(m, frames[n], pending)
    && (n > 0 ==> FramesTyped(m, frames[..n], m.funcs[frames[n].f].tp.rets))
  }

  ghost predicate Safe<H>(m: Module, c: Config<H>) {
    !c.OutOfBlock? && !c.Aborted? && (c.Running? ==> FramesTyped(m, c.frames, []))
  }

  /** Frame fr runs on top of rest. */
  ghost predicate Top(m: Module, rest: seq<Frame>, fr: Frame) {
    FrameTyped(m, fr, []) && (rest != [] ==> FramesTyped(m, rest, m.funcs[fr.f].tp.rets))
  }

  lemma TopIsTyped(m: Module, rest: seq<Frame>, fr: Frame)
    requires Top(m, rest, fr)
    ensures FramesTyped(m, rest + [fr], [])
  {
    hide FrameTyped;
    assert (rest + [fr])[..|rest|] == rest;
  }

  lemma TypesAppend(a: seq<Value>, b: seq<Value>)
    ensures Types(a + b) == Types(a) + Types(b)
  {
    hide Types;
  }

  lemma TypesUpdate(a: seq<Value>, i: nat, v: Value)
    requires i < |a| && v.t == Types(a)[i]
    ensures Types(a[i := v]) == Types(a)
  {
    hide Types;
  }

  /** A typing with open blocks is not the one at the end of the body. */
  lemma NotAtEnd(m: Module, fn: Func, k: nat)
    requires ValidFunc(m, fn) && k <= |fn.body| && TypeAt(m, fn, k).Some? && TypeAt(m, fn, k).value.heights != []
    ensures k < |fn.body|
  {
    hide Check;
  }

  lemma {:induction false} TypedBefore(m: Module, fn: Func, k: nat, n: nat)
    requires k <= n <= |fn.body| && TypeAt(m, fn, n).Some?
    ensures TypeAt(m, fn, k).Some?
    decreases n
  {
    hide Check;
    if k < n {
      TypedBefore(m, fn, k, n - 1);
    }
  }

  /** The typing after the instruction at k of a valid body. */
  lemma Next(m: Module, fn: Func, k: nat)
    requires ValidFunc(m, fn) && k < |fn.body|
    ensures TypeAt(m, fn, k).Some? && TypeAt(m, fn, k + 1).Some?
    ensures TypeAt(m, fn, k + 1) == Check(m, fn, TypeAt(m, fn, k).value, fn.body[k])
    ensures TypeAt(m, fn, k).value.heights != []
  {
    hide Check;
    TypedBefore(m, fn, k, |fn.body|);
    TypedBefore(m, fn, k + 1, |fn.body|);
    NoneAfterEnd(m, fn, TypeAt(m, fn, k).value, fn.body[k]);
  }

  lemma NoneAfterEnd(m: Module, fn: Func, v: Typing, ins: Instr)
    ensures v.heights == [] ==> Check(m, fn, v, ins).None?
  {
  }

  /** Labels stay typed while nothing below the innermost block changes. */
  lemma LabelsKept(m: Module, fn: Func, v: Typing, v': Typing, labels: seq<Label>)
    requires LabelsTyped(m, fn, v, labels) && Sane(v) && v'.heights == v.heights
    requires v.Floor() <= |v'.ops| && v'.ops[..v.Floor()] == v.ops[..v.Floor()]
    ensures Sane(v') && LabelsTyped(m, fn, v', labels)
  {
    hide TypeAt;
    var n := v.Floor();
    forall k | 0 <= k < |labels|
      ensures LabelTyped(m, fn, v', k, labels[k])
    {
      var h := labels[k].height;
      assert LabelTyped(m, fn, v, k, labels[k]);
      assert h <= n;
      assert v'.ops[..h] == v'.ops[..n][..h] && v.ops[..h] == v.ops[..n][..h];
    }
  }

  /** A frame past an instruction that opens and closes no block. */
  lemma Moved(m: Module, fr: Frame, fr': Frame, v': Typing, pending: seq<ValType>)
    requires ValidModule(m) && FrameTyped(m, fr, [])
    requires fr'.f == fr.f && fr'.pc == fr.pc + 1 && fr'.labels == fr.labels && Types(fr'.locals) == Types(fr.locals)
    requires
      var fn, v := m.funcs[fr.f], TypeAt(m, m.funcs[fr.f], fr.pc).value;
      && Check(m, fn, v, fn.body[fr.pc]) == Some(v') && v'.heights == v.heights && v'.dead == 0
      && Types(fr'.ops) + pending == v'.ops
      && v.Floor() <= |fr'.ops| && v.Floor() <= |v'.ops| && v'.ops[..v.Floor()] == v.ops[..v.Floor()]
    ensures FrameTyped(m, fr', pending)
  {
    hide TypeAt, Check, LabelsTyped, Sane, ValidFunc, Types;
    var fn, v := m.funcs[fr.f], TypeAt(m, m.funcs[fr.f], fr.pc).value;
    Next(m, fn, fr.pc);
    LabelsKept(m, fn, v, v', fr.labels);
    NotAtEnd(m, fn, fr.pc + 1);
  }

  // ----- Blocks -----

  lemma PutKeeps(v: Typing, n: nat, ts: seq<ValType>)
    requires Sane(v) && v.heights != [] && n + v.Floor() <= |v.ops|
    ensures
      var v', f := v.Put(n, ts), v.Floor();
      && v'.heights == v.heights && v'.dead == v.dead && v'.ops == v.ops[..|v.ops| - n] + ts
      && f <= |v'.ops| && v'.ops[..f] == v.ops[..f] && Sane(v')
  {
    var v', f := v.Put(n, ts), v.Floor();
    assert v'.ops[..f] == v.ops[..f];
  }

  lemma KillKeeps(v: Typing)
    requires Sane(v) && v.heights != []
    ensures
      var v', f := v.Kill(), v.Floor();
      v'.heights == v.heights && v'.dead == 1 && f <= |v'.ops| && v'.ops[..f] == v.ops[..f] && Sane(v')
  {
  }

  lemma EffectKeeps(v: Typing, args: seq<ValType>, rets: seq<ValType>)
    requires Sane(v) && v.heights != [] && Effect(v, args, rets).Some?
    ensures
      var v', f := Effect(v, args, rets).value, v.Floor();
      && v'.heights == v.heights && v'.dead == v.dead && v'.ops == v.ops[..|v.ops| - |args|] + rets
      && f <= |v'.ops| && v'.ops[..f] == v.ops[..f] && Sane(v')
  {
    hide Sane;
    PutKeeps(v, |args|, rets);
  }

  /** Instructions other than block delimiters leave open blocks and what lies below them alone. */
  lemma CheckKeeps(m: Module, fn: Func, v: Typing, ins: Instr)
    requires Sane(v) && v.heights != [] && Check(m, fn, v, ins).Some? && !ins.Block? && !ins.Loop? && !ins.End?
    ensures
      var v', f := Check(m, fn, v, ins).value, v.Floor();
      && v'.heights == v.heights && f <= |v'.ops| && v'.ops[..f] == v.ops[..f] && Sane(v')
      && (v.dead > 0 ==> v' == v) && (v.dead == 0 ==> v'.dead <= 1)
  {
    hide Sane, SimpleSig;
    if v.dead == 0 {
      KillKeeps(v);
      CheckKeepsLive(m, fn, v, ins);
    } else {
      FloorWithin(v);
    }
  }

  lemma FloorWithin(v: Typing)
    requires Sane(v)
    ensures v.Floor() <= |v.ops|
  {
  }

  lemma VariableKeepsLive(m: Module, fn: Func, v: Typing, ins: Instr)
    requires ins.GetLocal? || ins.SetLocal? || ins.TeeLocal? || ins.GetGlobal? || ins.SetGlobal?
    requires Sane(v) && v.heights != [] && v.dead == 0 && Check(m, fn, v, ins).Some?
    ensures
      var v', f := Check(m, fn, v, ins).value, v.Floor();
      && v'.heights == v.heights && f <= |v'.ops| && v'.ops[..f] == v.ops[..f] && Sane(v') && v'.dead <= 1
  {
    hide Sane, SimpleSig, Effect;
    FloorWithin(v);
    match ins
    case GetLocal(i) => EffectKeeps(v, [], [fn.Locals()[i]]);
    case SetLocal(i) => EffectKeeps(v, [fn.Locals()[i]], []);
    case TeeLocal(i) => EffectKeeps(v, [fn.Locals()[i]], [fn.Locals()[i]]);
    case GetGlobal(i) => EffectKeeps(v, [], [m.globals[i].t]);
    case SetGlobal(i) => EffectKeeps(v, [m.globals[i].t], []);
  }

  lemma CheckKeepsLive(m: Module, fn: Func, v: Typing, ins: Instr)
    requires Sane(v) && v.heights != [] && v.dead == 0 && Check(m, fn, v, ins).Some? && !ins.Block? && !ins.Loop? && !ins.End?
    ensures
      var v', f := Check(m, fn, v, ins).value, v.Floor();
      && v'.heights == v.heights && f <= |v'.ops| && v'.ops[..f] == v.ops[..f] && Sane(v') && v'.dead <= 1
  {
    hide Sane, SimpleSig, Effect;
    FloorWithin(v);
    KillKeeps(v);
    match ins
    case Nop =>
    case Unreachable =>
    case Branch(_) =>
    case BranchIf(_) => PutKeeps(v, 1, []);
    case BranchTable(_) =>
      PutKeeps(v, 1, []);
      KillKeeps(v.Put(1, []));
    case Return =>
    case Invoke(f) =>
      if f < |m.imports| {
        EffectKeeps(v, m.imports[f].tp.args, m.imports[f].tp.rets);
      } else {
        EffectKeeps(v, m.funcs[f - |m.imports|].tp.args, m.funcs[f - |m.imports|].tp.rets);
      }
    case GetLocal(_) => VariableKeepsLive(m, fn, v, ins);
    case SetLocal(_) => VariableKeepsLive(m, fn, v, ins);
    case TeeLocal(_) => VariableKeepsLive(m, fn, v, ins);
    case GetGlobal(_) => VariableKeepsLive(m, fn, v, ins);
    case SetGlobal(_) => VariableKeepsLive(m, fn, v, ins);
    case DropTop => PutKeeps(v, 1, []);
    case SelectTop =>
      var t := v.ops[|v.ops| - 2];
      EffectKeeps(v, [t, t, I32], [t]);
    case Plain(op, _) => EffectKeeps(v, SimpleSig(op).args, SimpleSig(op).rets);
  }

  /** How many blocks are open inside the one whose heights are the first n. */
  function Inside(v: Typing, n: nat): int {
    |v.heights| - n + if v.dead > 0 then v.dead - 1 else 0
  }

  /** The typing is inside a block that was entered at the last of the heights hs with operands ps. */
  ghost predicate Within(v: Typing, hs: seq<nat>, ps: seq<ValType>) {
    && Sane(v) && |hs| >= 2 && |hs| <= |v.heights| && v.heights[..|hs|] == hs
    && hs[|hs| - 1] == |ps| <= |v.ops| && v.ops[..|ps|] == ps
  }

  lemma StaysWithin(m: Module, fn: Func, v: Typing, ins: Instr, hs: seq<nat>, ps: seq<ValType>)
    requires Within(v, hs, ps) && Check(m, fn, v, ins).Some? && !ins.Block? && !ins.Loop? && !ins.End?
    ensures
      var v' := Check(m, fn, v, ins).value;
      Within(v', hs, ps) && Inside(v', |hs|) == Inside(v, |hs|)
  {
    hide Check;
    CheckKeeps(m, fn, v, ins);
    var v', f := Check(m, fn, v, ins).value, v.Floor();
    assert |ps| <= f by {
      assert v.heights[|hs| - 1] == hs[|hs| - 1];
    }
    assert v'.ops[..|ps|] == v'.ops[..f][..|ps|] == v.ops[..f][..|ps|] == v.ops[..|ps|];
  }

  lemma OpensWithin(m: Module, fn: Func, v: Typing, ins: Instr, hs: seq<nat>, ps: seq<ValType>)
    requires Within(v, hs, ps) && (ins.Block? || ins.Loop?)
    ensures
      var r := Check(m, fn, v, ins);
      r.Some? && Within(r.value, hs, ps) && Inside(r.value, |hs|) == Inside(v, |hs|) + 1
  {
    var v' := Check(m, fn, v, ins).value;
    assert v'.heights[..|hs|] == hs;
  }

  lemma ClosesWithin(m: Module, fn: Func, v: Typing, hs: seq<nat>, ps: seq<ValType>)
    requires Within(v, hs, ps) && Check(m, fn, v, End).Some?
    ensures
      var v', n := Check(m, fn, v, End).value, |hs| - 1;
      if Inside(v, |hs|) == 0 then v' == Typing(ps, hs[..n], 0)
      else Within(v', hs, ps) && Inside(v', |hs|) == Inside(v, |hs|) - 1
  {
    var v', n := Check(m, fn, v, End).value, |hs| - 1;
    if v.dead <= 1 {
      assert v.heights[|hs| - 1] == hs[|hs| - 1];
      if |v.heights| == |hs| {
        assert v.heights == hs;
        assert v.ops[..|ps|] == ps;
      } else {
        assert v'.heights[..|hs|] == hs;
        assert v'.ops[..|ps|] == ps;
      }
    }
  }

  /** Scanning forward from inside a block finds the `end` that closes it; there the typing is the one before the block. */
  lemma {:induction false} TypedEnd(m: Module, fn: Func, k: nat, d: nat, hs: seq<nat>, ps: seq<ValType>)
    requires ValidFunc(m, fn) && k <= |fn.body| && TypeAt(m, fn, k).Some?
    requires Within(TypeAt(m, fn, k).value, hs, ps) && Inside(TypeAt(m, fn, k).value, |hs|) == d
    ensures
      var j := FindEnd(fn.body, k, d);
      j + 1 < |fn.body| && TypeAt(m, fn, j + 1) == Some(Typing(ps, hs[..|hs| - 1], 0))
    decreases |fn.body| - k
  {
    hide TypeAt, Check, Within, ValidFunc, Inside;
    var v := TypeAt(m, fn, k).value;
    WithinFacts(v, hs, ps);
    NotAtEnd(m, fn, k);
    Next(m, fn, k);
    var ins := fn.body[k];
    if ins.Block? || ins.Loop? {
      OpensWithin(m, fn, v, ins, hs, ps);
      TypedEnd(m, fn, k + 1, d + 1, hs, ps);
    } else if ins.End? {
      ClosesWithin(m, fn, v, hs, ps);
      if d == 0 {
        NotAtEnd(m, fn, k + 1);
      } else {
        TypedEnd(m, fn, k + 1, d - 1, hs, ps);
      }
    } else {
      StaysWithin(m, fn, v, ins, hs, ps);
      TypedEnd(m, fn, k + 1, d, hs, ps);
    }
  }

  lemma WithinFacts(v: Typing, hs: seq<nat>, ps: seq<ValType>)
    requires Within(v, hs, ps)
    ensures |hs| >= 2 && v.heights != [] && Inside(v, |hs|) >= 0
  {
  }

  // ----- One instruction at a time -----

  lemma SafeTop<H>(m: Module, rest: seq<Frame>, fr: Frame, h: H)
    requires Top(m, rest, fr)
    ensures Safe(m, Running(rest + [fr], h))
  {
    hide Top, FramesTyped;
    TopIsTyped(m, rest, fr);
  }

  lemma Opened(m: Module, fn: Func, v: Typing, labels: seq<Label>, cont: nat)
    requires LabelsTyped(m, fn, v, labels) && Sane(v) && v.dead == 0 && v.heights != [] && cont < |fn.body|
    requires TypeAt(m, fn, cont) == Some(v)
    ensures
      var v' := v.(heights := v.heights + [|v.ops|]);
      Sane(v') && LabelsTyped(m, fn, v', labels + [Label(cont, |v.ops|)])
  {
    hide TypeAt;
    var v' := v.(heights := v.heights + [|v.ops|]);
    var ls := labels + [Label(cont, |v.ops|)];
    assert v.ops[..|v.ops|] == v.ops && v'.heights[..|v.heights|] == v.heights;
    forall k | 0 <= k < |ls|
      ensures LabelTyped(m, fn, v', k, ls[k])
    {
      if k < |labels| {
        assert LabelTyped(m, fn, v, k, labels[k]);
        assert v'.heights[..k + 1] == v.heights[..k + 1];
      }
    }
  }

  /** Where a branch to the block opened at pc continues, the typing is the one at pc. */
  lemma ContinuesTyped(m: Module, fn: Func, pc: nat)
    requires ValidFunc(m, fn) && pc < |fn.body| && (fn.body[pc].Block? || fn.body[pc].Loop?)
    requires TypeAt(m, fn, pc).Some? && TypeAt(m, fn, pc).value.dead == 0 && Sane(TypeAt(m, fn, pc).value)
    ensures
      var cont := if fn.body[pc].Block? then FindEnd(fn.body, pc + 1, 0) + 1 else pc;
      cont < |fn.body| && TypeAt(m, fn, cont) == TypeAt(m, fn, pc)
  {
    hide TypeAt, ValidFunc, FindEnd;
    var v := TypeAt(m, fn, pc).value;
    Next(m, fn, pc);
    if fn.body[pc].Block? {
      var v' := v.(heights := v.heights + [|v.ops|]);
      assert v.ops[..|v.ops|] == v.ops && v'.heights[..|v'.heights|] == v'.heights;
      assert v'.heights[..|v.heights|] == v.heights;
      TypedEnd(m, fn, pc + 1, 0, v'.heights, v.ops);
    }
  }

  lemma SafeEnter<H>(env: Env<H>, m: Module, rest: seq<Frame>, fr: Frame, h: H)
    requires ValidModule(m) && Top(m, rest, fr)
    requires var ins := m.funcs[fr.f].body[fr.pc]; ins.Block? || ins.Loop?
    ensures Safe(m, Execute(env, m, m.funcs[fr.f], rest, fr, h, m.funcs[fr.f].body[fr.pc]))
  {
    hide TypeAt, Safe, FramesTyped, ValidFunc, FindEnd, LabelsTyped, Sane, Types;
    var fn := m.funcs[fr.f];
    var v, ins := TypeAt(m, fn, fr.pc).value, fn.body[fr.pc];
    var cont := if ins.Block? then FindEnd(fn.body, fr.pc + 1, 0) + 1 else fr.pc;
    ContinuesTyped(m, fn, fr.pc);
    Next(m, fn, fr.pc);
    var v' := v.(heights := v.heights + [|v.ops|]);
    NotAtEnd(m, fn, fr.pc + 1);
    Opened(m, fn, v, fr.labels, cont);
    NothingPending(fr.ops, v.ops);
    var fr' := fr.(pc := fr.pc + 1, labels := fr.labels + [Label(cont, |fr.ops|)]);
    assert FrameTyped(m, fr', []);
    SafeTop(m, rest, fr', h);
  }

  lemma NothingPending(vs: seq<Value>, ts: seq<ValType>)
    requires Types(vs) + [] == ts
    ensures Types(vs) == ts && |vs| == |ts|
  {
  }

  lemma Shut(m: Module, fn: Func, v: Typing, labels: seq<Label>)
    requires LabelsTyped(m, fn, v, labels) && Sane(v) && labels != [] && |v.ops| == v.Floor()
    ensures
      var n := |labels| - 1;
      && v.Closed() == Typing(v.ops, v.heights[..n + 1], 0)
      && Sane(v.Closed()) && LabelsTyped(m, fn, v.Closed(), labels[..n]) && v.Closed().Floor() <= |v.ops|
  {
    hide TypeAt;
    var n, v' := |labels| - 1, v.Closed();
    assert v.ops[..|v.ops|] == v.ops;
    forall k | 0 <= k < n
      ensures LabelTyped(m, fn, v', k, labels[..n][k])
    {
      assert LabelTyped(m, fn, v, k, labels[k]);
      assert v'.heights[..k + 1] == v.heights[..k + 1];
    }
  }

  lemma SafeLeave<H>(env: Env<H>, m: Module, rest: seq<Frame>, fr: Frame, h: H)
    requires ValidModule(m) && Top(m, rest, fr) && m.funcs[fr.f].body[fr.pc].End? && fr.labels != []
    ensures Safe(m, Execute(env, m, m.funcs[fr.f], rest, fr, h, End))
  {
    hide TypeAt, Safe, FramesTyped, ValidFunc, Sane, Types;
    var fn := m.funcs[fr.f];
    var v := TypeAt(m, fn, fr.pc).value;
    Next(m, fn, fr.pc);
    NothingPending(fr.ops, v.ops);
    Shut(m, fn, v, fr.labels);
    NotAtEnd(m, fn, fr.pc + 1);
    var fr' := fr.(pc := fr.pc + 1, labels := fr.labels[..|fr.labels| - 1]);
    assert FrameTyped(m, fr', []);
    SafeTop(m, rest, fr', h);
  }

  /** Leaving k labels open: the rest of them is typed where the branch continues. */
  lemma Unwound(m: Module, fn: Func, v: Typing, labels: seq<Label>, k: nat)
    requires LabelsTyped(m, fn, v, labels) && Sane(v) && k < |labels|
    ensures
      var v' := Typing(v.ops[..labels[k].height], v.heights[..k + 1], 0);
      labels[k].height <= |v.ops| && TypeAt(m, fn, labels[k].cont) == Some(v') && labels[k].cont < |fn.body|
      && Sane(v') && LabelsTyped(m, fn, v', labels[..k]) && v'.Floor() <= labels[k].height
  {
    hide TypeAt;
    assert LabelTyped(m, fn, v, k, labels[k]);
    var h := labels[k].height;
    var v' := Typing(v.ops[..h], v.heights[..k + 1], 0);
    assert forall j :: 0 <= j <= k ==> v.heights[j] <= v.heights[k + 1];
    forall j | 0 <= j < k
      ensures LabelTyped(m, fn, v', j, labels[..k][j])
    {
      assert LabelTyped(m, fn, v, j, labels[j]);
      assert v'.heights[..j + 1] == v.heights[..j + 1];
      assert v'.ops[..labels[j].height] == v.ops[..labels[j].height];
    }
  }

  /** The frame's operands, possibly less than at the last instruction, under the typing v. */
  ghost predicate Typed(m: Module, rest: seq<Frame>, fr: Frame, v: Typing) {
    && fr.f < |m.funcs| && Sane(v) && v.heights != [] && LabelsTyped(m, m.funcs[fr.f], v, fr.labels) && v.dead == 0
    && Types(fr.ops) == v.ops && Types(fr.locals) == m.funcs[fr.f].Locals()
    && (rest != [] ==> FramesTyped(m, rest, m.funcs[fr.f].tp.rets))
  }

  lemma FloorIsFloor(m: Module, fn: Func, v: Typing, fr: Frame)
    requires LabelsTyped(m, fn, v, fr.labels) && (v.heights != [] ==> v.heights[0] == 0)
    ensures fr.Floor() == v.Floor()
  {
    hide TypeAt;
    if fr.labels != [] {
      var k := |fr.labels| - 1;
      assert LabelTyped(m, fn, v, k, fr.labels[k]);
    }
  }

  /** The function's own block is entered with no operands. */
  lemma {:induction false} StartsAtZero(m: Module, fn: Func, k: nat)
    requires k <= |fn.body| && TypeAt(m, fn, k).Some?
    ensures var v := TypeAt(m, fn, k).value; v.heights != [] ==> v.heights[0] == 0 && Sane(v)
  {
    hide Check;
    if k > 0 {
      TypedBefore(m, fn, k - 1, k);
      StartsAtZero(m, fn, k - 1);
      var v := TypeAt(m, fn, k - 1).value;
      NoneAfterEnd(m, fn, v, fn.body[k - 1]);
      HeightsGrow(m, fn, v, fn.body[k - 1]);
    }
  }

  lemma HeightsGrow(m: Module, fn: Func, v: Typing, ins: Instr)
    requires Sane(v) && v.heights != [] && v.heights[0] == 0 && Check(m, fn, v, ins).Some?
    ensures var v' := Check(m, fn, v, ins).value; v'.heights != [] ==> v'.heights[0] == 0 && Sane(v')
  {
    if ins.Block? || ins.Loop? || ins.End? {
    } else {
      hide Check, Sane;
      CheckKeeps(m, fn, v, ins);
    }
  }

  lemma SafeReturn<H>(m: Module, rest: seq<Frame>, fr: Frame, h: H, v: Typing)
    requires Typed(m, rest, fr, v) && v.heights[0] == 0 && v.Has(m.funcs[fr.f].tp.rets)
    ensures Safe(m, DoReturn(m.funcs[fr.f], rest, fr, h))
  {
    hide TypeAt, LabelsTyped, Sane, Types;
    var fn := m.funcs[fr.f];
    FloorIsFloor(m, fn, v, fr);
    var n := |fn.tp.rets|;
    if rest != [] {
      var k := |rest| - 1;
      var caller := rest[k];
      WasmSimulation.TypesPrefix(fr.ops, |fr.ops| - n);
      var back := fr.ops[|fr.ops| - n..];
      TypesAppend(caller.ops, back);
      var caller' := caller.(ops := caller.ops + back);
      Answered(m, caller, caller', fn.tp.rets);
      assert Top(m, rest[..k], caller');
      SafeTop(m, rest[..k], caller', h);
    }
  }

  lemma Answered(m: Module, fr: Frame, fr': Frame, rets: seq<ValType>)
    requires FrameTyped(m, fr, rets) && fr' == fr.(ops := fr'.ops) && Types(fr'.ops) == Types(fr.ops) + rets
    ensures FrameTyped(m, fr', [])
  {
    hide TypeAt, LabelsTyped, Sane, Types;
    assert Types(fr'.ops) + [] == Types(fr'.ops);
  }

  lemma SafeBranch<H>(m: Module, rest: seq<Frame>, fr: Frame, h: H, v: Typing, d: nat)
    requires Typed(m, rest, fr, v) && v.heights[0] == 0 && v.Reaches(d, m.funcs[fr.f].tp.rets)
    ensures Safe(m, DoBranch(m.funcs[fr.f], rest, fr, h, d))
  {
    hide TypeAt, Sane, Types, FramesTyped, DoReturn, Safe;
    var fn := m.funcs[fr.f];
    if d < |fr.labels| {
      var k := |fr.labels| - 1 - d;
      Unwound(m, fn, v, fr.labels, k);
      var l := fr.labels[k];
      WasmSimulation.TypesPrefix(fr.ops, l.height);
      var fr' := fr.(pc := l.cont, ops := fr.ops[..l.height], labels := fr.labels[..k]);
      assert Types(fr'.ops) + [] == Types(fr'.ops);
      assert FrameTyped(m, fr', []);
      SafeTop(m, rest, fr', h);
    } else {
      SafeReturn(m, rest, fr, h, v);
    }
  }

  // ----- Operands -----

  /** The top frame, as far as an instruction that works on its operands is concerned. */
  lemma TopTyped(m: Module, rest: seq<Frame>, fr: Frame)
    requires ValidModule(m) && Top(m, rest, fr)
    ensures fr.f < |m.funcs| && fr.pc < |m.funcs[fr.f].body| && TypeAt(m, m.funcs[fr.f], fr.pc).Some?
    ensures
      var v := TypeAt(m, m.funcs[fr.f], fr.pc).value;
      && Typed(m, rest, fr, v) && v.heights[0] == 0 && fr.Floor() == v.Floor() <= |fr.ops|
      && Check(m, m.funcs[fr.f], v, m.funcs[fr.f].body[fr.pc]).Some?
  {
    hide TypeAt, Check, FramesTyped, ValidFunc, LabelsTyped, Sane, Types;
    var fn := m.funcs[fr.f];
    var v := TypeAt(m, fn, fr.pc).value;
    Next(m, fn, fr.pc);
    StartsAtZero(m, fn, fr.pc);
    NothingPending(fr.ops, v.ops);
    FloorIsFloor(m, fn, v, fr);
  }

  /** The frame after an instruction that takes n operands and gives others. */
  lemma Given(m: Module, rest: seq<Frame>, fr: Frame, n: nat, locals: seq<Value>, back: seq<Value>, pending: seq<ValType>)
    requires ValidModule(m) && Top(m, rest, fr) && n + fr.Floor() <= |fr.ops| && Types(locals) == Types(fr.locals)
    requires
      var fn, v := m.funcs[fr.f], TypeAt(m, m.funcs[fr.f], fr.pc).value;
      n + v.Floor() <= |v.ops| && Check(m, fn, v, fn.body[fr.pc]) == Some(v.Put(n, Types(back) + pending))
    ensures FrameTyped(m, fr.(pc := fr.pc + 1, locals := locals, ops := fr.ops[..|fr.ops| - n] + back), pending)
  {
    hide TypeAt, Check, FramesTyped, ValidFunc, LabelsTyped, Sane, Types;
    TopTyped(m, rest, fr);
    var fn := m.funcs[fr.f];
    var v := TypeAt(m, fn, fr.pc).value;
    PutKeeps(v, n, Types(back) + pending);
    var low := fr.ops[..|fr.ops| - n];
    WasmSimulation.TypesPrefix(fr.ops, |fr.ops| - n);
    TypesAppend(low, back);
    assert Types(low + back) + pending == v.ops[..|v.ops| - n] + (Types(back) + pending);
    Moved(m, fr, fr.(pc := fr.pc + 1, locals := locals, ops := low + back), v.Put(n, Types(back) + pending), pending);
  }

  lemma SafeGiven<H>(m: Module, rest: seq<Frame>, fr: Frame, n: nat, locals: seq<Value>, back: seq<Value>, h: H)
    requires ValidModule(m) && Top(m, rest, fr) && n + fr.Floor() <= |fr.ops| && Types(locals) == Types(fr.locals)
    requires
      var fn, v := m.funcs[fr.f], TypeAt(m, m.funcs[fr.f], fr.pc).value;
      n + v.Floor() <= |v.ops| && Check(m, fn, v, fn.body[fr.pc]) == Some(v.Put(n, Types(back)))
    ensures Safe(m, Running(rest + [fr.(pc := fr.pc + 1, locals := locals, ops := fr.ops[..|fr.ops| - n] + back)], h))
  {
    hide TypeAt, Check, FramesTyped, ValidFunc, FrameTyped, Safe, Types;
    var fr' := fr.(pc := fr.pc + 1, locals := locals, ops := fr.ops[..|fr.ops| - n] + back);
    assert Types(back) + [] == Types(back);
    Given(m, rest, fr, n, locals, back, []);
    SafeTop(m, rest, fr', h);
  }

  /** An instruction that hands operands to the environment. */
  lemma SafeCall<H>(m: Module, rest: seq<Frame>, fr: Frame, args: seq<ValType>, rets: seq<ValType>,
                    call: seq<Value> -> Option<(H, seq<Value>)>)
    requires ValidModule(m) && Top(m, rest, fr)
    requires forall vs :: call(vs).Some? ==> Types(call(vs).value.1) == rets
    requires
      var fn, v := m.funcs[fr.f], TypeAt(m, m.funcs[fr.f], fr.pc).value;
      Check(m, fn, v, fn.body[fr.pc]) == Effect(v, args, rets)
    ensures Safe(m, DoCall(rest, fr, |args|, call))
  {
    hide TypeAt, Check, FramesTyped, ValidFunc, FrameTyped, Safe, Types;
    TopTyped(m, rest, fr);
    var back := call(fr.ops[|fr.ops| - |args|..]);
    if back.Some? {
      SafeGiven(m, rest, fr, |args|, fr.locals, back.value.1, back.value.0);
    } else {
      TrapIsSafe<H>(m);
    }
  }

  lemma TrapIsSafe<H>(m: Module)
    ensures Safe<H>(m, Trapped) && Safe<H>(m, Stuck)
  {
  }

  lemma SafeLocal<H>(m: Module, rest: seq<Frame>, fr: Frame, h: H)
    requires ValidModule(m) && Top(m, rest, fr)
    requires var ins := m.funcs[fr.f].body[fr.pc]; ins.GetLocal? || ins.SetLocal? || ins.TeeLocal?
    ensures Safe(m, DoLocal(rest, fr, h, m.funcs[fr.f].body[fr.pc]))
  {
    hide TypeAt, FramesTyped, ValidFunc, FrameTyped, Safe, Types, Sane, LabelsTyped;
    TopTyped(m, rest, fr);
    var fn := m.funcs[fr.f];
    var v, ins, n := TypeAt(m, fn, fr.pc).value, fn.body[fr.pc], |fr.ops|;
    if ins.i < |fr.locals| {
      if ins.GetLocal? {
        TypesOfOne(fr.locals, ins.i);
        assert fr.ops[..n - 0] == fr.ops;
        SafeGiven(m, rest, fr, 0, fr.locals, [fr.locals[ins.i]], h);
      } else {
        TypesOfOne(fr.ops, n - 1);
        TypesUpdate(fr.locals, ins.i, fr.ops[n - 1]);
        var locals := fr.locals[ins.i := fr.ops[n - 1]];
        NoValues();
        assert fr.ops[..n - 1] + [] == fr.ops[..n - 1] && fr.ops[..n - 1] + [fr.ops[n - 1]] == fr.ops;
        SafeGiven(m, rest, fr, 1, locals, if ins.SetLocal? then [] else [fr.ops[n - 1]], h);
      }
    } else {
      TrapIsSafe<H>(m);
    }
  }

  lemma NoValues()
    ensures Types([]) == []
  {
  }

  lemma TypesOfOne(vs: seq<Value>, i: nat)
    requires i < |vs|
    ensures Types([vs[i]]) == [Types(vs)[i]]
  {
    hide Types;
  }

  lemma SafeDropSelect<H>(m: Module, rest: seq<Frame>, fr: Frame, h: H)
    requires ValidModule(m) && Top(m, rest, fr)
    requires var ins := m.funcs[fr.f].body[fr.pc]; ins.DropTop? || ins.SelectTop?
    ensures Safe(m, DoTop(rest, fr, h, m.funcs[fr.f].body[fr.pc]))
  {
    hide TypeAt, FramesTyped, ValidFunc, FrameTyped, Safe, Types, Sane, LabelsTyped;
    TopTyped(m, rest, fr);
    var fn := m.funcs[fr.f];
    var v, ins, n := TypeAt(m, fn, fr.pc).value, fn.body[fr.pc], |fr.ops|;
    if ins.DropTop? {
      NoValues();
      assert fr.ops[..n - 1] + [] == fr.ops[..n - 1];
      SafeGiven(m, rest, fr, 1, fr.locals, [], h);
    } else {
      var i := if IsTrue(fr.ops[n - 1]) then n - 3 else n - 2;
      TypesOfOne(fr.ops, i);
      assert v.ops[n - 3..] == [v.ops[n - 2], v.ops[n - 2], I32];
      assert v.ops[i] == v.ops[n - 3..][i - (n - 3)];
      SafeGiven(m, rest, fr, 3, fr.locals, [fr.ops[i]], h);
    }
  }

  lemma SafeConditional<H>(m: Module, rest: seq<Frame>, fr: Frame, h: H)
    requires ValidModule(m) && Top(m, rest, fr)
    requires var ins := m.funcs[fr.f].body[fr.pc]; ins.BranchIf? || ins.BranchTable?
    ensures Safe(m, DoConditional(m.funcs[fr.f], rest, fr, h, m.funcs[fr.f].body[fr.pc]))
  {
    hide TypeAt, FramesTyped, ValidFunc, FrameTyped, Safe, Types, LabelsTyped, Sane, DoBranch, Index;
    TopTyped(m, rest, fr);
    var fn := m.funcs[fr.f];
    var v, ins, n := TypeAt(m, fn, fr.pc).value, fn.body[fr.pc], |fr.ops| - 1;
    var fr', v' := fr.(ops := fr.ops[..n]), v.Put(1, []);
    PutKeeps(v, 1, []);
    LabelsKept(m, fn, v, v', fr.labels);
    WasmSimulation.TypesPrefix(fr.ops, n);
    assert v.ops[..n] + [] == v.ops[..n];
    assert Typed(m, rest, fr', v');
    if ins.BranchIf? {
      if IsTrue(fr.ops[n]) {
        SafeBranch(m, rest, fr', h, v', ins.depth);
      } else {
        NoValues();
        assert fr.ops[..n] + [] == fr.ops[..n];
        SafeGiven(m, rest, fr, 1, fr.locals, [], h);
      }
    } else {
      var d := ins.depths[Index(fr.ops[n], |ins.depths|)];
      assert d in ins.depths;
      SafeBranch(m, rest, fr', h, v', d);
    }
  }

  /** A call to a function of the module: the caller waits for its results, the callee starts typed. */
  lemma SafeInvoke<H>(env: Env<H>, m: Module, rest: seq<Frame>, fr: Frame, h: H, f: nat)
    requires ValidModule(m) && Top(m, rest, fr) && m.funcs[fr.f].body[fr.pc] == Invoke(f + |m.imports|) && f < |m.funcs|
    ensures Safe(m, DoInvoke(env, m, rest, fr, h, f + |m.imports|))
  {
    hide TypeAt, FramesTyped, FrameTyped, Types, LabelsTyped, Sane, Zeros, ValidFunc;
    TopTyped(m, rest, fr);
    var fn := m.funcs[f];
    var n := |fn.tp.args|;
    NoValues();
    assert [] + fn.tp.rets == fn.tp.rets;
    assert fr.ops[..|fr.ops| - n] + [] == fr.ops[..|fr.ops| - n];
    Given(m, rest, fr, n, fr.locals, [], fn.tp.rets);
    var caller := fr.(pc := fr.pc + 1, ops := fr.ops[..|fr.ops| - n]);
    var args := fr.ops[|fr.ops| - n..];
    WasmSimulation.TypesPrefix(fr.ops, |fr.ops| - n);
    var callee := Frame(f, 0, args + Zeros(fn.extra), [], []);
    StartTyped(m, f, args);
    Stacked(m, rest, caller, fr.f, fn.tp.rets);
    assert Top(m, rest + [caller], callee);
    TopIsTyped(m, rest + [caller], callee);
    assert rest + [caller, callee] == rest + [caller] + [callee];
  }

  lemma Stacked(m: Module, rest: seq<Frame>, fr: Frame, f: nat, pending: seq<ValType>)
    requires fr.f == f < |m.funcs| && FrameTyped(m, fr, pending) && (rest != [] ==> FramesTyped(m, rest, m.funcs[f].tp.rets))
    ensures FramesTyped(m, rest + [fr], pending)
  {
    hide FrameTyped;
    assert (rest + [fr])[..|rest|] == rest;
  }

  /** A function starts typed. */
  lemma StartTyped(m: Module, f: nat, args: seq<Value>)
    requires ValidModule(m) && f < |m.funcs| && Types(args) == m.funcs[f].tp.args
    ensures FrameTyped(m, Frame(f, 0, args + Zeros(m.funcs[f].extra), [], []), [])
  {
    hide Types, Zeros, Check;
    TypesAppend(args, Zeros(m.funcs[f].extra));
    NoValues();
    NotAtEnd(m, m.funcs[f], 0);
  }

  // ----- Whole runs -----

  /** One step of a valid program that does not execute `unreachable` stays typed, and needs no operand of an enclosing
      block. */
  lemma SafeStep<H>(env: Env<H>, m: Module, frames: seq<Frame>, h: H)
    requires ValidModule(m) && NeverAborts(m) && WasmSimulation.BindingsOk(env, m) && FramesTyped(m, frames, [])
    ensures Safe(m, Advance(env, m, Running(frames, h)))
  {
    hide TypeAt, FrameTyped, Safe, Types, ValidFunc, DoReturn, DoBranch, DoCall, DoInvoke, DoLocal, DoGlobal, DoTop, DoConditional,
      FindEnd, SimpleSig, IsSimple;
    var n := |frames| - 1;
    var rest, fr := frames[..n], frames[n];
    assert Top(m, rest, fr);
    TopTyped(m, rest, fr);
    var fn := m.funcs[fr.f];
    var v, ins := TypeAt(m, fn, fr.pc).value, fn.body[fr.pc];
    match ins
    case Block => SafeEnter(env, m, rest, fr, h);
    case Loop => SafeEnter(env, m, rest, fr, h);
    case End => SafeEnd(env, m, rest, fr, h);
    case Nop => SafeNop(m, rest, fr, h);
    case Unreachable =>
    case Branch(d) => SafeBranch(m, rest, fr, h, v, d);
    case BranchIf(_) => SafeConditional(m, rest, fr, h);
    case BranchTable(_) => SafeConditional(m, rest, fr, h);
    case Return => SafeReturn(m, rest, fr, h, v);
    case Invoke(f) => SafeAnyInvoke(env, m, rest, fr, h);
    case GetLocal(_) => SafeLocal(m, rest, fr, h);
    case SetLocal(_) => SafeLocal(m, rest, fr, h);
    case TeeLocal(_) => SafeLocal(m, rest, fr, h);
    case GetGlobal(i) => SafeGlobal(env, m, rest, fr, h);
    case SetGlobal(i) => SafeGlobal(env, m, rest, fr, h);
    case DropTop => SafeDropSelect(m, rest, fr, h);
    case SelectTop => SafeDropSelect(m, rest, fr, h);
    case Plain(op, imm) =>
      var x := Decoded(Leb128.Standard, op, imm);
      SafeCall(m, rest, fr, SimpleSig(op).args, SimpleSig(op).rets, args => CallSimple(env, h, op, x, args));
  }

  lemma SafeEnd<H>(env: Env<H>, m: Module, rest: seq<Frame>, fr: Frame, h: H)
    requires ValidModule(m) && Top(m, rest, fr) && m.funcs[fr.f].body[fr.pc].End?
    ensures Safe(m, Execute(env, m, m.funcs[fr.f], rest, fr, h, End))
  {
    hide TypeAt, FramesTyped, FrameTyped, Safe, Types, ValidFunc, DoReturn, Sane;
    TopTyped(m, rest, fr);
    var v := TypeAt(m, m.funcs[fr.f], fr.pc).value;
    if fr.labels == [] {
      assert v.ops[|v.ops| - |v.ops|..] == v.ops;
      SafeReturn(m, rest, fr, h, v);
    } else {
      SafeLeave(env, m, rest, fr, h);
    }
  }

  lemma SafeNop<H>(m: Module, rest: seq<Frame>, fr: Frame, h: H)
    requires ValidModule(m) && Top(m, rest, fr) && m.funcs[fr.f].body[fr.pc].Nop?
    ensures Safe(m, Running(rest + [fr.(pc := fr.pc + 1)], h))
  {
    hide TypeAt, FramesTyped, FrameTyped, Safe, Types, ValidFunc, Sane, LabelsTyped;
    TopTyped(m, rest, fr);
    NoValues();
    var v := TypeAt(m, m.funcs[fr.f], fr.pc).value;
    assert fr.ops[..|fr.ops| - 0] + [] == fr.ops && v.ops[..|v.ops| - 0] + [] == v.ops;
    SafeGiven(m, rest, fr, 0, fr.locals, [], h);
  }

  lemma SafeAnyInvoke<H>(env: Env<H>, m: Module, rest: seq<Frame>, fr: Frame, h: H)
    requires ValidModule(m) && Top(m, rest, fr) && m.funcs[fr.f].body[fr.pc].Invoke? && WasmSimulation.BindingsOk(env, m)
    ensures Safe(m, DoInvoke(env, m, rest, fr, h, m.funcs[fr.f].body[fr.pc].f))
  {
    hide TypeAt, FramesTyped, FrameTyped, Safe, Types, ValidFunc, DoCall;
    TrapIsSafe<H>(m);
    TopTyped(m, rest, fr);
    var f := m.funcs[fr.f].body[fr.pc].f;
    if f >= |m.imports| {
      if f - |m.imports| < |m.funcs| {
        SafeInvoke(env, m, rest, fr, h, f - |m.imports|);
      }
    } else if m.imports[f].binding.Some? {
      var b := m.imports[f].binding.value;
      SafeCall(m, rest, fr, m.imports[f].tp.args, m.imports[f].tp.rets, args => CallExt(env, h, 0xF3, b, args));
    }
  }

  lemma SafeGlobal<H>(env: Env<H>, m: Module, rest: seq<Frame>, fr: Frame, h: H)
    requires ValidModule(m) && Top(m, rest, fr) && WasmSimulation.BindingsOk(env, m)
    requires var ins := m.funcs[fr.f].body[fr.pc]; ins.GetGlobal? || ins.SetGlobal?
    ensures
      var ins := m.funcs[fr.f].body[fr.pc];
      Safe(m, DoGlobal(env, m, rest, fr, h, ins.i, ins.GetGlobal?))
  {
    hide TypeAt, FramesTyped, FrameTyped, Safe, Types, ValidFunc, DoCall;
    TrapIsSafe<H>(m);
    TopTyped(m, rest, fr);
    var ins := m.funcs[fr.f].body[fr.pc];
    if ins.i < |m.globals| && m.globals[ins.i].binding.Some? {
      var b, t := m.globals[ins.i].binding.value, m.globals[ins.i].t;
      if ins.GetGlobal? {
        SafeCall(m, rest, fr, [], [t], args => CallExt(env, h, 0xF8, b, args));
      } else {
        SafeCall(m, rest, fr, [t], [], args => CallExt(env, h, 0xF9, b, args));
      }
    }
  }

  /** Soundness: a valid program, called with arguments of the right types, never needs an operand of an enclosing block, and
      never aborts unless it can reach an `unreachable`. */
  lemma {:induction false} Soundness<H>(env: Env<H>, m: Module, f: nat, args: seq<Value>, h: H, steps: nat)
    requires ValidModule(m) && NeverAborts(m) && WasmSimulation.BindingsOk(env, m)
    requires f < |m.funcs| && Types(args) == m.funcs[f].tp.args
    ensures Safe(m, AdvanceN(env, m, Initial(m, f, args, h), steps))
  {
    hide FrameTyped, Types, ValidFunc, Advance, NeverAborts, ValidModule;
    if steps == 0 {
      StartTyped(m, f, args);
      var fr := Frame(f, 0, args + Zeros(m.funcs[f].extra), [], []);
      assert Top(m, [], fr);
      TopIsTyped(m, [], fr);
      assert [] + [fr] == [fr];
    } else {
      Soundness(env, m, f, args, h, steps - 1);
      var c := AdvanceN(env, m, Initial(m, f, args, h), steps - 1);
      if c.Running? {
        SafeStep(env, m, c.frames, c.host);
      } else {
        Stays(env, m, c);
      }
    }
  }

  lemma Stays<H>(env: Env<H>, m: Module, c: Config<H>)
    requires !c.Running?
    ensures Advance(env, m, c) == c
  {
  }
}
