/** The compiler object: operand types, open blocks, labels and the byte buffer, all updated in place.
    Every method is tied to the compiler's step function; the ghost list of emitted instructions says what the
    bytes mean. */
module WasmContext {
  import opened Words
  import opened WasmCode
  import opened WasmCompiler
  import opened WasmLayout
  import opened WasmLink
  import Leb128

  // ----- Bytes of an instruction, 32-bit fields truncated as the writer does -----

  function Field(l: nat): seq<byte> {
    Le32(ToWord(l % W32))
  }

  function Fields(ls: seq<nat>): seq<byte> {
    if ls == [] then [] else Fields(ls[..|ls| - 1]) + Field(ls[|ls| - 1])
  }

  function Raw(f: FlatOp): seq<byte> {
    match f
    case Simple(op, imm) => [op] + imm
    case Ext(op, b) => [op] + Leb128.WriteU(b)
    case Local(op, a) => [op] + Leb128.WriteU(a)
    case Drop(t) => [0x1A, TypeCode(t)]
    case Select(t) => [0x1B, TypeCode(t)]
    case Br(l) => [0x0C] + Field(l)
    case BrIf(l) => [0x0D] + Field(l)
    case BrTable(ls) => [0x0E] + Leb128.WriteU(if ls == [] then 0 else |ls| - 1) + Fields(ls)
    case Call(l) => [0x10] + Field(l)
    case Prolog(n) => [0xF1] + Leb128.WriteU(n)
    case Ret(r, l, a) => [0x0F] + Leb128.WriteU(r) + Leb128.WriteU(l) + Leb128.WriteU(a)
  }

  function RawAll(fs: seq<FlatOp>): seq<byte> {
    if fs == [] then [] else RawAll(fs[..|fs| - 1]) + Raw(fs[|fs| - 1])
  }

  lemma {:induction false} FieldsAreAddrs(ls: seq<nat>)
    requires forall i :: 0 <= i < |ls| ==> ls[i] < W32
    ensures Fields(ls) == Addrs(ls)
  {
    hide ToWord, Le32;
    if ls != [] {
      var n := |ls| - 1;
      FieldsAreAddrs(ls[..n]);
      assert ls == ls[..n] + [ls[n]];
      AddrsAppend(ls[..n], ls[n]);
    }
  }

  lemma {:induction false} AddrsAppend(ls: seq<nat>, l: nat)
    requires l < W32 && forall i :: 0 <= i < |ls| ==> ls[i] < W32
    ensures Addrs(ls + [l]) == Addrs(ls) + Le32(ToWord(l))
  {
    hide ToWord, Le32;
    if ls == [] {
      assert ls + [l] == [l];
      assert [l][1..] == [];
    } else {
      AddrsAppend(ls[1..], l);
      assert (ls + [l])[1..] == ls[1..] + [l];
    }
  }

  lemma RawIsEncode(f: FlatOp)
    requires InRange(f)
    ensures Raw(f) == Encode(f)
  {
    hide Leb128.WriteU, Addrs, Fields, Field, Size, TypeCode, IsImmediate, IsSimple;
    match f
    case Br(l) => FieldIs(l);
    case BrIf(l) => FieldIs(l);
    case Call(l) => FieldIs(l);
    case BrTable(ls) => FieldsAreAddrs(ls);
    case _ =>
  }

  lemma FieldIs(l: nat)
    requires l < W32
    ensures Field(l) == Le32(ToWord(l))
  {
  }

  lemma BranchBytes(q: seq<byte>, l: nat)
    ensures q + [0x0C] + Field(l) == q + Raw(FlatOp.Br(l)) && q + [0x0D] + Field(l) == q + Raw(FlatOp.BrIf(l))
  {
    hide Field;
  }

  lemma {:induction false} RawAllIsEncodeAll(fs: seq<FlatOp>)
    requires AllInRange(fs)
    ensures RawAll(fs) == EncodeAll(fs)
  {
    hide Raw, Encode, InRange;
    if fs != [] {
      RawAllIsEncodeAll(fs[..|fs| - 1]);
      RawIsEncode(fs[|fs| - 1]);
    }
  }

  class Context {
    const m: Module
    const hdr: seq<byte>
    var labels: seq<nat>
    var targets: seq<Site>
    var result: seq<byte>
    var scopes: seq<Scope>
    var operands: seq<ValType>
    var wordsOperands: nat
    var unreachable: bool
    ghost var out: seq<FlatOp>

    constructor (m: Module, hdr: seq<byte>)
      ensures this.m == m && this.hdr == hdr && Valid()
      ensures Model() == State([], [], false, seq(|m.funcs|, _ => 0), [])
    {
      this.m, this.hdr := m, hdr;
      labels, targets, result := seq(|m.funcs|, _ => 0), [], hdr;
      scopes, operands, wordsOperands, unreachable := [], [], 0, false;
      out := [];
    }

    /** The abstract state that the step function works on. */
    ghost function Model(): State
      reads this
    {
      State(scopes, operands, unreachable, labels, out)
    }

    ghost predicate Valid()
      reads this
    {
      && result == hdr + RawAll(out)
      && |result| == |hdr| + CodeSize(out)
      && targets == Sites(out, |hdr|)
      && wordsOperands == SizeWords(operands)
    }

    // ----- Writing -----

    method WriteRes(bytes: seq<byte>)
      modifies this`result
      ensures result == old(result) + bytes
    {
      result := result + bytes;
    }

    /** `WriteResU`: seven bits at a time, lowest first. */
    method WriteResU(x: nat)
      modifies this`result
      ensures result == old(result) + Leb128.WriteU(x)
    {
      var v := x;
      ghost var done: seq<byte> := [];
      while v >= 128
        invariant result == old(result) + done
        invariant done + Leb128.WriteU(v) == Leb128.WriteU(x)
        decreases v
      {
        result := result + [v % 128 + 128];
        done := done + [v % 128 + 128];
        v := v / 128;
      }
      result := result + [v];
    }

    /** `PutLabelTrg`: four bytes to be patched later. */
    method PutLabelTrg(l: nat)
      modifies this`result, this`targets
      ensures result == old(result) + Field(l)
      ensures targets == old(targets) + [Site(|old(result)|, l)]
    {
      targets := targets + [Site(|result|, l)];
      result := result + Field(l);
    }

    /** Record that the bytes just written are the instruction f. */
    ghost method Commit(f: FlatOp)
      requires result == hdr + RawAll(out) + Raw(f)
      requires |result| == |hdr| + CodeSize(out) + Size(f)
      requires targets == Sites(out, |hdr|) + SitesOf(f, |hdr| + CodeSize(out))
      requires wordsOperands == SizeWords(operands)
      modifies this`out
      ensures Valid() && out == old(out) + [f]
    {
      hide Raw, SitesOf, Size;
      out := out + [f];
      assert out[..|out| - 1] == old(out);
      assert hdr + RawAll(old(out)) + Raw(f) == hdr + RawAll(out);
    }

    // ----- Operand types -----

    method Push(t: ValType)
      requires wordsOperands == SizeWords(operands)
      modifies this`operands, this`wordsOperands
      ensures operands == old(operands) + [t]
      ensures wordsOperands == SizeWords(operands)
    {
      operands := operands + [t];
      wordsOperands := wordsOperands + WordsOf(t);
      assert operands[..|operands| - 1] == old(operands);
    }

    method PopAny() returns (t: Option<ValType>)
      requires wordsOperands == SizeWords(operands)
      modifies this`operands, this`wordsOperands
      ensures wordsOperands == SizeWords(operands)
      ensures t.None? <==> old(operands) == []
      ensures t.Some? ==> old(operands) == operands + [t.value]
      ensures t.None? ==> operands == old(operands)
    {
      if operands == [] {
        return None;
      }
      var n := |operands| - 1;
      t := Some(operands[n]);
      wordsOperands := wordsOperands - WordsOf(operands[n]);
      operands := operands[..n];
    }

    /** Pop the given types, last first; on failure the operands are not restored (the compiler gives up). */
    method PopTypes(ts: seq<ValType>) returns (ok: bool)
      requires wordsOperands == SizeWords(operands)
      modifies this`operands, this`wordsOperands
      ensures wordsOperands == SizeWords(operands)
      ensures ok <==> Pop(old(operands), ts).Some?
      ensures ok ==> Pop(old(operands), ts) == Some(operands)
    {
      var i := |ts|;
      ghost var ops0 := operands;
      while i > 0
        invariant 0 <= i <= |ts| && wordsOperands == SizeWords(operands)
        invariant |ts| - i <= |ops0|
        invariant operands == ops0[..|ops0| - (|ts| - i)]
        invariant ops0[|ops0| - (|ts| - i)..] == ts[i..]
      {
        i := i - 1;
        var t := PopAny();
        if t.None? {
          return false;
        }
        assert ops0[|ops0| - (|ts| - i)] == t.value;
        if t.value != ts[i] {
          assert |ts| <= |ops0| ==> ops0[|ops0| - |ts|..][i] == t.value;
          return false;
        }
        assert ops0[|ops0| - (|ts| - i)..] == [t.value] + ops0[|ops0| - (|ts| - i) + 1..];
      }
      return true;
    }

    // ----- Blocks -----

    method BlockOpen(isLoop: bool)
      requires Valid()
      modifies this`scopes, this`labels
      ensures Valid() && Model() == Open(|hdr|, old(Model()), isLoop)
    {
      hide CodeSize, Sites, RawAll;
      scopes := scopes + [Scope(operands, |labels|, isLoop)];
      labels := labels + [0];
      if isLoop {
        labels := labels[|labels| - 1 := |result|];
      }
    }

    method WriteRet(fn: Func)
      requires Valid()
      modifies this`result, this`out
      ensures Valid() && out == old(out) + [fn.RetOp()]
    {
      hide Leb128.WriteU, SizeWords, CodeSize, Sites, RawAll;
      WriteRes([0x0F]);
      WriteResU(SizeWords(fn.tp.rets));
      WriteResU(SizeWords(fn.extra));
      WriteResU(fn.ArgWords());
      assert result == hdr + RawAll(out) + Raw(fn.RetOp()) by {
        RetBytes(hdr + RawAll(out), Leb128.WriteU(SizeWords(fn.tp.rets)), Leb128.WriteU(SizeWords(fn.extra)),
                 Leb128.WriteU(fn.ArgWords()));
      }
      Commit(fn.RetOp());
    }

    /** `BlockClose`; in dead code the operands are reset to what the block must leave. */
    method BlockClose(fn: Func) returns (ok: bool)
      requires Valid() && scopes != []
      modifies this
      ensures ok <==> Close(|hdr|, fn, old(Model())).Some?
      ensures ok ==> Valid() && Some(Model()) == Close(|hdr|, fn, old(Model()))
    {
      hide Func.RetOp, SizeWords, CodeSize, Sites, RawAll;
      var top := scopes[|scopes| - 1];
      if unreachable {
        if operands != top.exit {
          operands := top.exit;
          wordsOperands := SizeWords(operands);
        }
      } else if operands != top.exit {
        return false;
      }
      if |scopes| == 1 {
        WriteRet(fn);
      } else if !top.isLoop && top.lbl < |labels| {
        labels := labels[top.lbl := |result|];
      }
      scopes := scopes[..|scopes| - 1];
      unreachable := false;
      return true;
    }

    // ----- Branches -----

    /** `PutBranchLabel`: depth and operand count must suit the target. */
    method PutBranchLabel(d: nat) returns (ok: bool)
      modifies this`result, this`targets
      ensures ok <==> Target(old(Model()), d).Some?
      ensures ok ==>
        var l := Target(old(Model()), d).value;
        result == old(result) + Field(l) && targets == old(targets) + [Site(|old(result)|, l)]
      ensures !ok ==> result == old(result) && targets == old(targets)
    {
      if d + 1 >= |scopes| {
        return false;
      }
      var b := scopes[|scopes| - 1 - d];
      if |operands| != |b.exit| {
        return false;
      }
      PutLabelTrg(b.lbl);
      return true;
    }

    method OnBranch(ins: Instr) returns (ok: bool)
      requires Valid() && (ins.Branch? || ins.BranchIf?)
      modifies this
      ensures ok <==> StepBranch(old(Model()), ins).Some?
      ensures ok ==> Valid() && Some(Model()) == StepBranch(old(Model()), ins)
    {
      hide SizeWords, CodeSize, Sites, RawAll, Field, Raw, Targets, Target;
      if ins.BranchIf? {
        ok := PopTypes([I32]);
        if !ok {
          return;
        }
      }
      ghost var c := Model();
      WriteRes([if ins.Branch? then 0x0C else 0x0D]);
      ok := PutBranchLabel(ins.depth);
      if ok {
        ghost var l := Target(c, ins.depth).value;
        ghost var op := if ins.Branch? then FlatOp.Br(l) else FlatOp.BrIf(l);
        BranchBytes(hdr + RawAll(out), l);
        FieldLength(l);
        Commit(op);
      }
    }

    /** The label fields of a branch table, default label included. */
    method PutBranchLabels(ds: seq<nat>) returns (ok: bool)
      modifies this`result, this`targets
      ensures ok <==> Targets(old(Model()), ds).Some?
      ensures ok ==>
        var ls := Targets(old(Model()), ds).value;
        result == old(result) + Fields(ls) && targets == old(targets) + TableSites(ls, |old(result)|)
    {
      hide Field;
      ghost var c, q, t := Model(), result, targets;
      ghost var ls: seq<nat> := [];
      for i := 0 to |ds|
        invariant |ls| == i && Model() == c
        invariant forall j :: 0 <= j < i ==> Target(c, ds[j]) == Some(ls[j])
        invariant result == q + Fields(ls)
        invariant targets == t + TableSites(ls, |q|)
      {
        ok := PutBranchLabel(ds[i]);
        if !ok {
          return;
        }
        ghost var l := Target(c, ds[i]).value;
        FieldsAppend(ls, l);
        assert q + Fields(ls) + Field(l) == q + (Fields(ls) + Field(l));
        FieldsLength(ls);
        TableSitesAppend(ls, l, |q|);
        ls := ls + [l];
      }
      assert ls == Targets(c, ds).value;
      return true;
    }

    method OnBranchTable(ds: seq<nat>) returns (ok: bool)
      requires Valid()
      modifies this
      ensures ok <==> StepBranch(old(Model()), BranchTable(ds)).Some?
      ensures ok ==> Valid() && Some(Model()) == StepBranch(old(Model()), BranchTable(ds))
    {
      hide SizeWords, CodeSize, Sites, RawAll, Fields, Leb128.WriteU, TableSites, Targets;
      ok := PopTypes([I32]);
      if !ok {
        return;
      }
      if ds == [] {
        return false;
      }
      ghost var c, p := Model(), result;
      WriteRes([0x0E]);
      WriteResU(|ds| - 1);
      ok := PutBranchLabels(ds);
      if ok {
        ghost var ls := Targets(c, ds).value;
        FieldsLength(ls);
        TableBytes(p, Leb128.WriteU(|ds| - 1), Fields(ls));
        Commit(FlatOp.BrTable(ls));
      }
    }

    // ----- Everything else -----

    /** An opcode with one unsigned operand. */
    method WriteWithNumber(opcode: byte, x: nat, ghost f: FlatOp)
      requires Valid()
      requires Raw(f) == [opcode] + Leb128.WriteU(x) && Size(f) == 1 + |Leb128.WriteU(x)| && LabelsOf(f) == []
      modifies this`result, this`out
      ensures Valid() && out == old(out) + [f]
    {
      hide SizeWords, CodeSize, Sites, RawAll, Leb128.WriteU;
      WriteRes([opcode]);
      WriteResU(x);
      assert result == hdr + RawAll(out) + Raw(f) by {
        assert hdr + RawAll(out) + [opcode] + Leb128.WriteU(x) == hdr + RawAll(out) + ([opcode] + Leb128.WriteU(x));
      }
      assert SitesOf(f, |hdr| + CodeSize(out)) == [];
      Commit(f);
    }

    /** An instruction whose bytes are already at hand. */
    method WriteBytes(bytes: seq<byte>, ghost f: FlatOp)
      requires Valid()
      requires Raw(f) == bytes && Size(f) == |bytes| && LabelsOf(f) == []
      modifies this`result, this`out
      ensures Valid() && out == old(out) + [f]
    {
      hide SizeWords, CodeSize, Sites, RawAll, Leb128.WriteU;
      WriteRes(bytes);
      assert SitesOf(f, |hdr| + CodeSize(out)) == [];
      Commit(f);
    }

    /** The distance from the current operands to the local, and its type. */
    method WriteLocalOp(fn: Func, opcode: byte, i: nat)
      requires Valid() && i < |fn.Locals()|
      modifies this`result, this`out
      ensures Valid() && out == old(out) + [fn.LocalOp(opcode, operands, i)]
    {
      hide SizeWords, CodeSize, Sites, RawAll, Leb128.WriteU;
      var offs := wordsOperands + (SizeWords(fn.Locals()) - SizeWords(fn.Locals()[..i]));
      if i < |fn.tp.args| {
        offs := offs + 1;
      }
      SizeWordsSplit(fn.Locals(), i);
      WriteWithNumber(opcode, 4 * offs + (TypeCode(fn.Locals()[i]) - 0x7C), fn.LocalOp(opcode, operands, i));
    }

    /** `OnLocalVar`: the distance is counted before the instruction changes the operands. */
    method OnLocal(fn: Func, ins: Instr) returns (ok: bool)
      requires Valid() && (ins.GetLocal? || ins.SetLocal? || ins.TeeLocal?)
      modifies this
      ensures ok <==> StepLocal(fn, old(Model()), ins).Some?
      ensures ok ==> Valid() && Some(Model()) == StepLocal(fn, old(Model()), ins)
    {
      hide SizeWords, CodeSize, Sites, RawAll, Func.LocalOp, Pop;
      if ins.i >= |fn.Locals()| {
        return false;
      }
      var t := fn.Locals()[ins.i];
      WriteLocalOp(fn, if ins.GetLocal? then 0x20 else if ins.SetLocal? then 0x21 else 0x22, ins.i);
      if ins.GetLocal? {
        Push(t);
        return true;
      }
      PopOne(operands, t);
      ok := PopTypes([t]);
      if ok && ins.TeeLocal? {
        Push(t);
      }
    }

    /** Calls and variables: types checked first, then the instruction written. */
    method OnApply(args: seq<ValType>, rets: seq<ValType>) returns (ok: bool)
      requires Valid()
      modifies this`operands, this`wordsOperands
      ensures ok <==> Pop(old(operands), args).Some?
      ensures ok ==> Valid() && operands == Pop(old(operands), args).value + rets
    {
      hide CodeSize, Sites, RawAll, SizeWords, Pop;
      ok := PopTypes(args);
      if ok {
        PushTypes(rets);
      }
    }

    method PushTypes(ts: seq<ValType>)
      requires wordsOperands == SizeWords(operands)
      modifies this`operands, this`wordsOperands
      ensures wordsOperands == SizeWords(operands) && operands == old(operands) + ts
    {
      hide SizeWords;
      for i := 0 to |ts|
        invariant wordsOperands == SizeWords(operands) && operands == old(operands) + ts[..i]
      {
        Push(ts[i]);
        assert ts[..i + 1] == ts[..i] + [ts[i]];
      }
    }

    method OnInvoke(f: nat) returns (ok: bool)
      requires Valid()
      modifies this
      ensures ok <==> StepInvoke(m, old(Model()), f).Some?
      ensures ok ==> Valid() && Some(Model()) == StepInvoke(m, old(Model()), f)
    {
      hide SizeWords, CodeSize, Sites, RawAll, Leb128.WriteU, Field, Pop;
      if f < |m.imports| {
        ok := OnApply(m.imports[f].tp.args, m.imports[f].tp.rets);
        if !ok || m.imports[f].binding.None? {
          return false;
        }
        WriteWithNumber(0xF3, m.imports[f].binding.value, FlatOp.Ext(0xF3, m.imports[f].binding.value));
      } else if f - |m.imports| < |m.funcs| {
        var g := f - |m.imports|;
        ok := OnApply(m.funcs[g].tp.args, m.funcs[g].tp.rets);
        if !ok {
          return;
        }
        WriteRes([0x10]);
        PutLabelTrg(g);
        FieldLength(g);
        assert result == hdr + RawAll(out) + Raw(FlatOp.Call(g));
        Commit(FlatOp.Call(g));
      } else {
        return false;
      }
    }

    method OnGlobal(i: nat, get: bool) returns (ok: bool)
      requires Valid()
      modifies this
      ensures ok <==> StepGlobal(m, old(Model()), i, get).Some?
      ensures ok ==> Valid() && Some(Model()) == StepGlobal(m, old(Model()), i, get)
    {
      hide SizeWords, CodeSize, Sites, RawAll, Leb128.WriteU;
      if i >= |m.globals| {
        return false;
      }
      if get {
        assert operands[..|operands|] == operands;
        Push(m.globals[i].t);
      } else {
        ok := PopTypes([m.globals[i].t]);
        if !ok {
          return;
        }
        assert operands + [] == operands;
      }
      if m.globals[i].binding.None? {
        return false;
      }
      var b := m.globals[i].binding.value;
      WriteWithNumber(if get then 0xF8 else 0xF9, b, FlatOp.Ext(if get then 0xF8 else 0xF9, b));
      ok := true;
    }

    method OnDrop() returns (ok: bool)
      requires Valid()
      modifies this
      ensures ok <==> StepTop(old(Model()), DropTop).Some?
      ensures ok ==> Valid() && Some(Model()) == StepTop(old(Model()), DropTop)
    {
      hide SizeWords, CodeSize, Sites, RawAll;
      ghost var ops := operands;
      var t := PopAny();
      ok := t.Some?;
      if ok {
        assert ops[..|ops| - 1] == operands;
        WriteBytes([0x1A, TypeCode(t.value)], FlatOp.Drop(t.value));
      }
    }

    /** A condition and two values of one type. */
    method PopSelect() returns (t: Option<ValType>)
      requires wordsOperands == SizeWords(operands)
      modifies this`operands, this`wordsOperands
      ensures
        var ops := old(operands);
        var n := |ops|;
        && (t.Some? <==> n >= 3 && ops[n - 1] == I32 && ops[n - 2] == ops[n - 3])
        && (t.Some? ==> t.value == ops[n - 2] && operands == ops[..n - 3] && wordsOperands == SizeWords(operands))
    {
      hide SizeWords, Pop;
      ghost var ops := operands;
      PopOne(ops, I32);
      var ok := PopTypes([I32]);
      if !ok {
        return None;
      }
      t := PopAny();
      if t.None? {
        return;
      }
      assert operands == ops[..|ops| - 2];
      PopOne(operands, t.value);
      ok := PopTypes([t.value]);
      if !ok {
        return None;
      }
      assert operands == ops[..|ops| - 3];
    }

    method OnSelect() returns (ok: bool)
      requires Valid()
      modifies this
      ensures ok <==> StepTop(old(Model()), SelectTop).Some?
      ensures ok ==> Valid() && Some(Model()) == StepTop(old(Model()), SelectTop)
    {
      hide SizeWords, CodeSize, Sites, RawAll, Pop;
      if |operands| >= 2 {
        PopThree(operands, operands[|operands| - 2]);
      }
      var t := PopSelect();
      ok := t.Some?;
      if ok {
        Push(t.value);
        WriteBytes([0x1B, TypeCode(t.value)], FlatOp.Select(t.value));
      }
    }

    method OnReturn(fn: Func) returns (ok: bool)
      requires Valid() && scopes != []
      modifies this
      ensures ok <==> Step(m, |hdr|, fn, old(Model()), Return).Some?
      ensures ok ==> Valid() && Some(Model()) == Step(m, |hdr|, fn, old(Model()), Return)
    {
      hide SizeWords, CodeSize, Sites, RawAll, Func.RetOp;
      ok := operands == scopes[0].exit;
      if ok {
        WriteRet(fn);
        unreachable := true;
      }
    }

    method OnPlain(fn: Func, ins: Instr) returns (ok: bool)
      requires Valid() && scopes != [] && ins.Plain?
      modifies this
      ensures ok <==> Step(m, |hdr|, fn, old(Model()), ins).Some?
      ensures ok ==> Valid() && Some(Model()) == Step(m, |hdr|, fn, old(Model()), ins)
    {
      hide SizeWords, CodeSize, Sites, RawAll, Pop, SimpleSig, ImmediateOk, Cleared;
      var op, imm := ins.opcode, ins.imm;
      ok := ImmediateOk(op, imm);
      if ok {
        ImmediateSimple(op, imm);
        ok := OnApply(SimpleSig(op).args, SimpleSig(op).rets);
        if ok {
          WriteBytes([op] + Cleared(op, imm), FlatOp.Simple(op, Cleared(op, imm)));
        }
      }
    }

    /** One iteration of the compile loop. */
    method OnInstruction(fn: Func, ins: Instr) returns (ok: bool)
      requires Valid() && scopes != []
      modifies this
      ensures ok <==> Step(m, |hdr|, fn, old(Model()), ins).Some?
      ensures ok ==> Valid() && Some(Model()) == Step(m, |hdr|, fn, old(Model()), ins)
    {
      hide SizeWords, CodeSize, Sites, RawAll, Leb128.WriteU, StepBranch, StepLocal, StepTop, StepGlobal, StepInvoke, Close,
        Open, Pop, Func.RetOp, SimpleSig, ImmediateOk, Cleared;
      ok := true;
      match ins {
        case Block => BlockOpen(false);
        case Loop => BlockOpen(true);
        case End => ok := BlockClose(fn);
        case Nop =>
        case Unreachable => unreachable := true;
        case Branch(_) => ok := OnBranch(ins);
        case BranchIf(_) => ok := OnBranch(ins);
        case BranchTable(ds) => ok := OnBranchTable(ds);
        case Return => ok := OnReturn(fn);
        case Invoke(f) => ok := OnInvoke(f);
        case GetLocal(_) => ok := OnLocal(fn, ins);
        case SetLocal(_) => ok := OnLocal(fn, ins);
        case TeeLocal(_) => ok := OnLocal(fn, ins);
        case GetGlobal(i) => ok := OnGlobal(i, true);
        case SetGlobal(i) => ok := OnGlobal(i, false);
        case DropTop => ok := OnDrop();
        case SelectTop => ok := OnSelect();
        case Plain(_, _) => ok := OnPlain(fn, ins);
      }
    }

    /** Compile function f: entry label, prologue, then the body up to the end of its outermost block. */
    method Compile(f: nat) returns (ok: bool)
      requires Valid() && f < |m.funcs| <= |labels|
      modifies this
      ensures
        var u := CompileFunc(m, |hdr|, f, Unit(old(labels), old(out)));
        && (ok <==> u.Some?)
        && (ok ==> Valid() && u.value == Unit(labels, out) && |m.funcs| <= |labels|)
    {
      hide CodeSize, Sites, RawAll, Leb128.WriteU, Step, ImmediateOk;
      var fn := m.funcs[f];
      ghost var u := Unit(labels, out);
      labels := labels[f := |result|];
      scopes, operands, wordsOperands, unreachable := [Scope(fn.tp.rets, f, false)], [], 0, false;
      if fn.extra != [] {
        WriteWithNumber(0xF1, SizeWords(fn.extra), FlatOp.Prolog(SizeWords(fn.extra)));
      }
      ghost var c := Start(m, |hdr|, f, u.labels, u.out);
      assert Model() == c;
      var k := 0;
      while scopes != []
        invariant 0 <= k <= |fn.body| && Valid()
        invariant Run(m, |hdr|, fn, c, k) == Some(Model())
        decreases |fn.body| - k
      {
        if k == |fn.body| {
          return false;
        }
        var good := OnInstruction(fn, fn.body[k]);
        assert good ==> Run(m, |hdr|, fn, c, k + 1) == Some(Model());
        if !good {
          RunStopsAt(m, |hdr|, fn, c, k + 1);
          return false;
        }
        k := k + 1;
      }
      if k != |fn.body| {
        RunStopsAt(m, |hdr|, fn, c, k + 1);
        return false;
      }
      return true;
    }

    /** Append the table of indirect functions. */
    method WriteTable(indirect: seq<nat>)
      requires forall i :: 0 <= i < |indirect| ==> indirect[i] < |labels|
      modifies this`result
      ensures result == old(result) + Fields(LookupAll(labels, indirect))
    {
      hide Field;
      ghost var code := result;
      ghost var tail: seq<byte> := [];
      for i := 0 to |indirect|
        invariant result == code + tail && tail == Fields(LookupAll(labels, indirect[..i]))
      {
        result := result + Field(labels[indirect[i]]);
        tail := tail + Field(labels[indirect[i]]);
        FieldsAppend(LookupAll(labels, indirect[..i]), labels[indirect[i]]);
        assert LookupAll(labels, indirect[..i + 1]) == LookupAll(labels, indirect[..i]) + [labels[indirect[i]]];
      }
      assert indirect[..|indirect|] == indirect;
    }

    /** The patch loop. */
    method PatchLabels()
      modifies this`result
      ensures AddressesFit(labels) ==> result == Patch(old(result), targets, labels)
    {
      hide Patch, Write4, ToWord;
      ghost var raw := result;
      if AddressesFit(labels) {
        PatchNothing(raw, labels);
      }
      for i := 0 to |targets|
        invariant AddressesFit(labels) ==> result == Patch(raw, targets[..i], labels)
      {
        var trg := targets[i];
        result := Write4(result, trg.pos, ToWord(Lookup(labels, trg.item) % W32));
        if AddressesFit(labels) {
          PatchStep(raw, targets, i, labels);
        }
      }
      assert targets[..|targets|] == targets;
    }

    /** The whole build: all functions, the table of indirect functions, then every label field patched. */
    method Build(indirect: seq<nat>) returns (ok: bool)
      requires Valid() && Model() == State([], [], false, seq(|m.funcs|, _ => 0), [])
      requires forall i :: 0 <= i < |indirect| ==> indirect[i] < |m.funcs|
      modifies this
      ensures ok <==> Accepted(m, |hdr|)
      ensures Fits(m, |hdr|) ==> result == Image(m, hdr, Fields(LookupAll(Final(m, |hdr|).labels, indirect)))
    {
      hide CodeSize, Sites, RawAll, CompileFunc, Fits, Image, Patch, Fields;
      for k := 0 to |m.funcs|
        invariant Valid() && |m.funcs| <= |labels|
        invariant WasmCompiler.Build(m, |hdr|, k) == Some(Unit(labels, out))
      {
        var good := Compile(k);
        if !good {
          BuildStopsAt(m, |hdr|, k + 1);
          assert !Fits(m, |hdr|) by { FitsAccepted(m, |hdr|); }
          return false;
        }
      }
      WriteTable(indirect);
      PatchLabels();
      if Fits(m, |hdr|) {
        FitsAccepted(m, |hdr|);
        RawAllIsEncodeAll(out);
        PatchedImage(m, hdr, Fields(LookupAll(labels, indirect)));
      }
      return true;
    }
  }

  lemma FitsAccepted(m: Module, hdr: nat)
    ensures Fits(m, hdr) ==> Accepted(m, hdr) && AllInRange(Final(m, hdr).out) && AddressesFit(Final(m, hdr).labels)
  {
    if Fits(m, hdr) {
      FitsAddresses(m, hdr);
    }
  }

  lemma PatchStep(raw: seq<byte>, sites: seq<Site>, i: nat, labels: seq<nat>)
    requires i < |sites| && AddressesFit(labels)
    ensures Patch(raw, sites[..i + 1], labels) ==
            Write4(Patch(raw, sites[..i], labels), sites[i].pos, ToWord(Lookup(labels, sites[i].item) % W32))
  {
    hide Write4, ToWord;
    assert sites[..i + 1][..i] == sites[..i];
  }

  lemma BuildStopsAt(m: Module, hdr: nat, k: nat)
    requires k <= |m.funcs| && WasmCompiler.Build(m, hdr, k).None?
    ensures !Accepted(m, hdr)
  {
    hide CompileFunc;
    if Accepted(m, hdr) {
      BuildPrefix(m, hdr, k, |m.funcs|);
    }
  }

  lemma RunStopsAt(m: Module, hdr: nat, fn: Func, c: State, k: nat)
    requires k <= |fn.body| && Run(m, hdr, fn, c, k).None?
    ensures Run(m, hdr, fn, c, |fn.body|).None?
  {
    hide Step;
    if Run(m, hdr, fn, c, |fn.body|).Some? {
      RunPrefix(m, hdr, fn, c, k, |fn.body|);
    }
  }

  lemma PopOne(ops: seq<ValType>, t: ValType)
    ensures Pop(ops, [t]).Some? <==> |ops| >= 1 && ops[|ops| - 1] == t
    ensures Pop(ops, [t]).Some? ==> Pop(ops, [t]).value == ops[..|ops| - 1] && ops == ops[..|ops| - 1] + [t]
  {
    if |ops| >= 1 {
      assert ops[|ops| - 1..] == [ops[|ops| - 1]];
    }
  }

  lemma PopThree(ops: seq<ValType>, t: ValType)
    ensures Pop(ops, [t, t, I32]).Some? <==>
            |ops| >= 3 && ops[|ops| - 1] == I32 && ops[|ops| - 2] == t && ops[|ops| - 3] == t
    ensures Pop(ops, [t, t, I32]).Some? ==> Pop(ops, [t, t, I32]).value == ops[..|ops| - 3]
  {
    if |ops| >= 3 {
      var n := |ops|;
      assert ops[n - 3..] == [ops[n - 3], ops[n - 2], ops[n - 1]];
    }
  }

  lemma FieldLength(l: nat)
    ensures |Field(l)| == 4
  {
  }

  lemma FieldsAppend(ls: seq<nat>, l: nat)
    ensures Fields(ls + [l]) == Fields(ls) + Field(l)
  {
    assert (ls + [l])[..|ls|] == ls;
  }

  lemma {:induction false} FieldsLength(ls: seq<nat>)
    ensures |Fields(ls)| == 4 * |ls|
  {
    if ls != [] {
      FieldsLength(ls[..|ls| - 1]);
    }
  }

  lemma {:induction false} TableSitesAppend(ls: seq<nat>, l: nat, pos: nat)
    ensures TableSites(ls + [l], pos) == TableSites(ls, pos) + [Site(pos + 4 * |ls|, l)]
    decreases |ls|
  {
    if ls == [] {
      assert ls + [l] == [l];
      assert [l][1..] == [];
    } else {
      TableSitesAppend(ls[1..], l, pos + 4);
      assert (ls + [l])[1..] == ls[1..] + [l];
    }
  }

  lemma TableBytes(p: seq<byte>, a: seq<byte>, b: seq<byte>)
    ensures p + [0x0E] + a + b == p + ([0x0E] + a + b)
  {
  }

  lemma RetBytes(p: seq<byte>, a: seq<byte>, b: seq<byte>, c: seq<byte>)
    ensures p + [0x0F] + a + b + c == p + ([0x0F] + a + b + c)
  {
  }
}
