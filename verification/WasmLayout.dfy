/** What the compiler's state tells about the code it emits: where each instruction lands, what each label
    resolves to, and where the block opened by an instruction is closed. */
module WasmLayout {
  import opened Words
  import opened WasmCode
  import opened WasmCompiler
  import opened WasmSource

  /** Every instruction other than the block delimiters leaves blocks and labels alone and emits at most
      one instruction. */
  lemma StepShape(m: Module, hdr: nat, fn: Func, c: State, ins: Instr)
    requires c.scopes != [] && Step(m, hdr, fn, c, ins).Some?
    ensures
      var c' := Step(m, hdr, fn, c, ins).value;
      && (ins.Block? || ins.Loop? ==> c' == Open(hdr, c, ins.Loop?))
      && (ins.End? ==> Close(hdr, fn, c) == Some(c'))
      && (!ins.Block? && !ins.Loop? && !ins.End? ==>
            && c'.scopes == c.scopes
            && c'.labels == c.labels
            && (c'.out == c.out || (|c'.out| == |c.out| + 1 && c'.out[..|c.out|] == c.out)))
      && c.out <= c'.out
  {
    hide Func.Offset, ImmediateOk, SimpleSig, Targets, IsSimple;
  }

  ghost predicate Inv(m: Module, fn: Func, c: State) {
    && |m.funcs| <= |c.labels|
    && (c.scopes != [] ==> c.scopes[0].exit == fn.tp.rets)
    && (forall i :: 1 <= i < |c.scopes| ==> |m.funcs| <= c.scopes[i].lbl < |c.labels|)
    && (forall i, j :: 1 <= i < j < |c.scopes| ==> c.scopes[i].lbl < c.scopes[j].lbl)
  }

  /** No block still open will set label x. */
  ghost predicate Settled(c: State, x: nat) {
    && x < |c.labels|
    && forall i :: 1 <= i < |c.scopes| && c.scopes[i].lbl == x ==> c.scopes[i].isLoop
  }

  lemma StepInv(m: Module, hdr: nat, fn: Func, c: State, ins: Instr)
    requires c.scopes != [] && Step(m, hdr, fn, c, ins).Some? && Inv(m, fn, c)
    ensures Inv(m, fn, Step(m, hdr, fn, c, ins).value)
  {
    hide Step;
    StepShape(m, hdr, fn, c, ins);
  }

  lemma StepSettled(m: Module, hdr: nat, fn: Func, c: State, ins: Instr, x: nat)
    requires c.scopes != [] && Step(m, hdr, fn, c, ins).Some? && Inv(m, fn, c) && Settled(c, x)
    ensures
      var c' := Step(m, hdr, fn, c, ins).value;
      Settled(c', x) && c'.labels[x] == c.labels[x]
  {
    hide Step;
    StepShape(m, hdr, fn, c, ins);
  }

  lemma {:induction false} RunPrefix(m: Module, hdr: nat, fn: Func, c: State, i: nat, k: nat)
    requires i <= k <= |fn.body| && Run(m, hdr, fn, c, k).Some?
    ensures Run(m, hdr, fn, c, i).Some?
    ensures i < k ==> Run(m, hdr, fn, c, i).value.scopes != []
    decreases k - i
  {
    if i < k {
      RunPrefix(m, hdr, fn, c, i + 1, k);
    }
  }

  lemma {:induction false} RunInv(m: Module, hdr: nat, fn: Func, c: State, k: nat)
    requires k <= |fn.body| && Run(m, hdr, fn, c, k).Some? && Inv(m, fn, c)
    ensures Inv(m, fn, Run(m, hdr, fn, c, k).value)
  {
    hide Step, Inv;
    if k > 0 {
      RunInv(m, hdr, fn, c, k - 1);
      StepInv(m, hdr, fn, Run(m, hdr, fn, c, k - 1).value, fn.body[k - 1]);
    }
  }

  /** Between two instructions of a function: code only grows, and settled labels keep their value. */
  lemma {:induction false} RunGrows(m: Module, hdr: nat, fn: Func, c: State, i: nat, k: nat, x: nat)
    requires i <= k <= |fn.body| && Run(m, hdr, fn, c, k).Some? && Inv(m, fn, c)
    ensures Run(m, hdr, fn, c, i).Some?
    ensures
      var ci, ck := Run(m, hdr, fn, c, i).value, Run(m, hdr, fn, c, k).value;
      && ci.out <= ck.out
      && (Settled(ci, x) ==> Settled(ck, x) && ck.labels[x] == ci.labels[x])
    decreases k - i
  {
    hide Step, Inv, Settled;
    RunPrefix(m, hdr, fn, c, i, k);
    if i < k {
      RunGrows(m, hdr, fn, c, i, k - 1, x);
      RunPrefix(m, hdr, fn, c, k - 1, k);
      var c' := Run(m, hdr, fn, c, k - 1).value;
      RunInv(m, hdr, fn, c, k - 1);
      StepShape(m, hdr, fn, c', fn.body[k - 1]);
      var ci := Run(m, hdr, fn, c, i).value;
      if Settled(ci, x) {
        StepSettled(m, hdr, fn, c', fn.body[k - 1], x);
        assert x < |ci.labels| by { SettledRange(ci, x); }
        SettledRange(c', x);
      }
    }
  }

  lemma SettledRange(c: State, x: nat)
    requires Settled(c, x)
    ensures x < |c.labels|
  {
  }

  // ----- Positions in an accepted module -----

  ghost predicate Accepted(m: Module, hdr: nat) {
    Build(m, hdr, |m.funcs|).Some?
  }

  ghost function Final(m: Module, hdr: nat): Unit
    requires Accepted(m, hdr)
  {
    Build(m, hdr, |m.funcs|).value
  }

  lemma {:induction false} BuildPrefix(m: Module, hdr: nat, k: nat, n: nat)
    requires k <= n <= |m.funcs| && Build(m, hdr, n).Some?
    ensures Build(m, hdr, k).Some?
    decreases n - k
  {
    hide CompileFunc;
    if k < n {
      BuildPrefix(m, hdr, k, n - 1);
    }
  }

  ghost function StartOf(m: Module, hdr: nat, f: nat): State
    requires Accepted(m, hdr) && f < |m.funcs|
  {
    BuildPrefix(m, hdr, f, |m.funcs|);
    Start(m, hdr, f, Build(m, hdr, f).value.labels, Build(m, hdr, f).value.out)
  }

  lemma CompiledFunc(m: Module, hdr: nat, f: nat)
    requires Accepted(m, hdr) && f < |m.funcs|
    ensures Build(m, hdr, f + 1).Some?
    ensures Run(m, hdr, m.funcs[f], StartOf(m, hdr, f), |m.funcs[f].body|).Some?
    ensures
      var c := Run(m, hdr, m.funcs[f], StartOf(m, hdr, f), |m.funcs[f].body|).value;
      c.scopes == [] && Build(m, hdr, f + 1).value == Unit(c.labels, c.out)
  {
    hide Step, Run, Start;
    BuildPrefix(m, hdr, f + 1, |m.funcs|);
    BuildPrefix(m, hdr, f, f + 1);
  }

  /** The compiler's state before instruction i of function f. */
  ghost function At(m: Module, hdr: nat, f: nat, i: nat): State
    requires Accepted(m, hdr) && f < |m.funcs| && i <= |m.funcs[f].body|
  {
    CompiledFunc(m, hdr, f);
    RunPrefix(m, hdr, m.funcs[f], StartOf(m, hdr, f), i, |m.funcs[f].body|);
    Run(m, hdr, m.funcs[f], StartOf(m, hdr, f), i).value
  }

  /** The address of the code emitted for instruction i of function f. */
  ghost function Addr(m: Module, hdr: nat, f: nat, i: nat): nat
    requires Accepted(m, hdr) && f < |m.funcs| && i <= |m.funcs[f].body|
  {
    hdr + CodeSize(At(m, hdr, f, i).out)
  }

  lemma AtInv(m: Module, hdr: nat, f: nat, i: nat)
    requires Accepted(m, hdr) && f < |m.funcs| && i <= |m.funcs[f].body|
    ensures Inv(m, m.funcs[f], At(m, hdr, f, i))
    ensures At(m, hdr, f, i).scopes == [] <==> i == |m.funcs[f].body|
  {
    CompiledFunc(m, hdr, f);
    RunPrefix(m, hdr, m.funcs[f], StartOf(m, hdr, f), i, |m.funcs[f].body|);
    RunInv(m, hdr, m.funcs[f], StartOf(m, hdr, f), i);
  }

  lemma AtNext(m: Module, hdr: nat, f: nat, i: nat)
    requires Accepted(m, hdr) && f < |m.funcs| && i < |m.funcs[f].body|
    ensures At(m, hdr, f, i).scopes != []
    ensures Step(m, hdr, m.funcs[f], At(m, hdr, f, i), m.funcs[f].body[i]) == Some(At(m, hdr, f, i + 1))
  {
    hide Step;
    CompiledFunc(m, hdr, f);
    var fn, c := m.funcs[f], StartOf(m, hdr, f);
    RunPrefix(m, hdr, fn, c, i + 1, |fn.body|);
    RunPrefix(m, hdr, fn, c, i, |fn.body|);
  }

  /** A label that no later function entry resets. */
  ghost predicate Lasting(m: Module, f: nat, x: nat) {
    x < f || |m.funcs| <= x
  }

  lemma FunctionGrows(m: Module, hdr: nat, f: nat, x: nat)
    requires Accepted(m, hdr) && f < |m.funcs|
    ensures Build(m, hdr, f).Some? && Build(m, hdr, f + 1).Some?
    ensures Build(m, hdr, f).value.out <= Build(m, hdr, f + 1).value.out
    ensures x != f && x < |Build(m, hdr, f).value.labels| ==>
              && x < |Build(m, hdr, f + 1).value.labels|
              && Build(m, hdr, f + 1).value.labels[x] == Build(m, hdr, f).value.labels[x]
  {
    hide Step, Run, Build, Inv;
    BuildPrefix(m, hdr, f, |m.funcs|);
    CompiledFunc(m, hdr, f);
    var fn, c := m.funcs[f], StartOf(m, hdr, f);
    StartInv(m, hdr, f);
    RunGrows(m, hdr, fn, c, 0, |fn.body|, x);
    assert Run(m, hdr, fn, c, 0).value == c by { RunZero(m, hdr, fn, c); }
    assert Build(m, hdr, f).value.out <= c.out;
  }

  lemma RunZero(m: Module, hdr: nat, fn: Func, c: State)
    ensures Run(m, hdr, fn, c, 0) == Some(c)
  {
  }

  lemma StartInv(m: Module, hdr: nat, f: nat)
    requires Accepted(m, hdr) && f < |m.funcs|
    ensures Inv(m, m.funcs[f], StartOf(m, hdr, f))
  {
    hide Step, Run, CodeSize;
    BuildPrefix(m, hdr, f, |m.funcs|);
  }

  lemma {:induction false} BuildGrows(m: Module, hdr: nat, k: nat, n: nat, x: nat)
    requires k <= n <= |m.funcs| && Accepted(m, hdr)
    ensures Build(m, hdr, k).Some? && Build(m, hdr, n).Some?
    ensures Build(m, hdr, k).value.out <= Build(m, hdr, n).value.out
    ensures Lasting(m, k, x) && x < |Build(m, hdr, k).value.labels| ==>
              && x < |Build(m, hdr, n).value.labels|
              && Build(m, hdr, n).value.labels[x] == Build(m, hdr, k).value.labels[x]
    decreases n - k
  {
    hide Build;
    BuildPrefix(m, hdr, k, |m.funcs|);
    BuildPrefix(m, hdr, n, |m.funcs|);
    if k < n {
      BuildGrows(m, hdr, k, n - 1, x);
      FunctionGrows(m, hdr, n - 1, x);
    }
  }

  /** The code emitted so far stays, and a label already settled has its final value. */
  lemma AtFinal(m: Module, hdr: nat, f: nat, i: nat, x: nat)
    requires Accepted(m, hdr) && f < |m.funcs| && i <= |m.funcs[f].body|
    ensures At(m, hdr, f, i).out <= Final(m, hdr).out
    ensures Settled(At(m, hdr, f, i), x) && Lasting(m, f + 1, x) ==>
              && x < |Final(m, hdr).labels|
              && Final(m, hdr).labels[x] == At(m, hdr, f, i).labels[x]
  {
    var fn, c := m.funcs[f], StartOf(m, hdr, f);
    CompiledFunc(m, hdr, f);
    AtInv(m, hdr, f, 0);
    RunGrows(m, hdr, fn, c, i, |fn.body|, x);
    BuildGrows(m, hdr, f + 1, |m.funcs|, x);
  }

  /** A function's label is the address of its first instruction, prologue included. */
  lemma EntryLabel(m: Module, hdr: nat, f: nat)
    requires Accepted(m, hdr) && f < |m.funcs|
    ensures f < |Final(m, hdr).labels|
    ensures Build(m, hdr, f).Some?
    ensures Final(m, hdr).labels[f] == hdr + CodeSize(Build(m, hdr, f).value.out)
    ensures At(m, hdr, f, 0).out == Build(m, hdr, f).value.out + Prologue(m.funcs[f])
  {
    BuildPrefix(m, hdr, f, |m.funcs|);
    AtFinal(m, hdr, f, 0, f);
    assert Settled(At(m, hdr, f, 0), f);
  }

  // ----- Targets of branches -----

  /** Scanning forward from inside a block finds the instruction that closes it: there the compiler's state is
      back to what it was when the block was opened, and the block's label is set to that point. */
  lemma {:induction false} ClosingEnd(m: Module, hdr: nat, f: nat, k: nat, d: nat, open: seq<Scope>)
    requires Accepted(m, hdr) && f < |m.funcs| && k <= |m.funcs[f].body|
    requires |open| >= 2 && |At(m, hdr, f, k).scopes| == |open| + d && open <= At(m, hdr, f, k).scopes
    ensures
      var j := FindEnd(m.funcs[f].body, k, d);
      var top := open[|open| - 1];
      && j + 1 < |m.funcs[f].body|
      && var c := At(m, hdr, f, j + 1);
      && c.scopes == open[..|open| - 1]
      && c.ops == top.exit
      && !c.dead
      && (!top.isLoop ==> Settled(c, top.lbl) && c.labels[top.lbl] == Addr(m, hdr, f, j + 1))
    decreases |m.funcs[f].body| - k
  {
    hide Step, At, Open, Close, CodeSize;
    AtInv(m, hdr, f, k);
    if k < |m.funcs[f].body| {
      AtNext(m, hdr, f, k);
      var fn := m.funcs[f];
      var c, ins := At(m, hdr, f, k), fn.body[k];
      var c' := At(m, hdr, f, k + 1);
      StepShape(m, hdr, fn, c, ins);
      AtInv(m, hdr, f, k + 1);
      if ins.End? && d == 0 {
        assert c.scopes == open;
        CloseNested(m, hdr, fn, c);
      } else if ins.End? {
        CloseNested(m, hdr, fn, c);
        ClosingEnd(m, hdr, f, k + 1, d - 1, open);
      } else if ins.Block? || ins.Loop? {
        OpenScopes(hdr, c, ins.Loop?);
        ClosingEnd(m, hdr, f, k + 1, d + 1, open);
      } else {
        ClosingEnd(m, hdr, f, k + 1, d, open);
      }
    }
  }

  lemma CloseNested(m: Module, hdr: nat, fn: Func, c: State)
    requires Inv(m, fn, c) && |c.scopes| >= 2 && Close(hdr, fn, c).Some?
    ensures
      var c' := Close(hdr, fn, c).value;
      var top := c.scopes[|c.scopes| - 1];
      && c'.scopes == c.scopes[..|c.scopes| - 1]
      && c'.ops == top.exit
      && !c'.dead
      && c'.out == c.out
      && (!top.isLoop ==> Settled(c', top.lbl) && c'.labels[top.lbl] == hdr + CodeSize(c.out))
  {
    hide CodeSize;
  }

  lemma OpenScopes(hdr: nat, c: State, isLoop: bool)
    ensures Open(hdr, c, isLoop).scopes == c.scopes + [Scope(c.ops, |c.labels|, isLoop)]
  {
  }
}
