/** Simulation of reads and writes of locals, which the flat code addresses from the top of the stack. */
module WasmLocals {
  import opened Words
  import opened WasmCode
  import opened WasmCompiler
  import opened WasmSource
  import opened WasmMachine
  import opened WasmLayout
  import opened WasmLink
  import opened WasmSimulation

  lemma FlatAt(vs: seq<Value>, i: nat)
    requires i < |vs|
    ensures Flat(vs) == Flat(vs[..i]) + vs[i].ws + Flat(vs[i + 1..])
  {
    hide Flat;
    var a, b := vs[..i] + [vs[i]], vs[i + 1..];
    SplitAt(vs, i);
    FlatAppend(a, b);
    FlatAppend(vs[..i], [vs[i]]);
    FlatOne(vs[i]);
  }

  lemma SplitAt<T>(s: seq<T>, i: nat)
    requires i < |s|
    ensures s == (s[..i] + [s[i]]) + s[i + 1..]
  {
  }

  /** Splitting the frame around local i, before and after it is overwritten. */
  lemma FrameSplit(m: Module, fr: Frame, ret: nat, i: nat, v: Value) returns (x: seq<Word>, y: seq<Word>)
    requires fr.f < |m.funcs| && Types(fr.locals) == m.funcs[fr.f].Locals() && AllValid(fr.locals)
    requires i < |fr.locals|
    ensures FrameBase(m, fr, ret) == x + fr.locals[i].ws + y
    ensures FrameBase(m, fr.(locals := fr.locals[i := v]), ret) == x + v.ws + y
    ensures |x| == SizeWords(Types(fr.locals[..i])) + if i < |m.funcs[fr.f].tp.args| then 0 else 1
  {
    hide Flat, Types, RetWord;
    var n := |m.funcs[fr.f].tp.args|;
    var vs, vs' := fr.locals, fr.locals[i := v];
    FlatLength(vs[..i]);
    if i < n {
      var z := [RetWord(ret)] + Flat(vs[n..]);
      x, y := Flat(vs[..i]), Flat(vs[..n][i + 1..]) + z;
      FlatAt(vs[..n], i);
      FlatAt(vs'[..n], i);
      assert vs[..n][..i] == vs[..i] && vs'[..n][..i] == vs[..i];
      assert vs'[..n][i + 1..] == vs[..n][i + 1..] && vs'[n..] == vs[n..];
      Around(x, vs[i].ws, Flat(vs[..n][i + 1..]), [RetWord(ret)], Flat(vs[n..]));
      Around(x, v.ws, Flat(vs[..n][i + 1..]), [RetWord(ret)], Flat(vs[n..]));
    } else {
      var j := i - n;
      x := Flat(vs[..n]) + [RetWord(ret)] + Flat(vs[n..][..j]);
      y := Flat(vs[n..][j + 1..]);
      FlatAt(vs[n..], j);
      FlatAt(vs'[n..], j);
      assert vs'[..n] == vs[..n];
      assert vs'[n..][..j] == vs[n..][..j] && vs'[n..][j + 1..] == vs[n..][j + 1..];
      assert vs[..i] == vs[..n] + vs[n..][..j];
      FlatAppend(vs[..n], vs[n..][..j]);
      Around'(Flat(vs[..n]), [RetWord(ret)], Flat(vs[n..][..j]), vs[i].ws, y);
      Around'(Flat(vs[..n]), [RetWord(ret)], Flat(vs[n..][..j]), v.ws, y);
    }
  }

  lemma Around(x: seq<Word>, w: seq<Word>, y: seq<Word>, r: seq<Word>, e: seq<Word>)
    ensures x + w + y + r + e == x + w + (y + (r + e))
  {
  }

  lemma Around'(a: seq<Word>, r: seq<Word>, x: seq<Word>, w: seq<Word>, y: seq<Word>)
    ensures a + r + (x + w + y) == a + r + x + w + y
  {
  }

  /** The distance recorded by the compiler leads from the top of the stack to the local. */
  lemma OffsetIsDistance(m: Module, fr: Frame, ret: nat, i: nat, x: seq<Word>, y: seq<Word>, ops: seq<Value>)
    requires fr.f < |m.funcs| && Types(fr.locals) == m.funcs[fr.f].Locals() && AllValid(fr.locals)
    requires i < |fr.locals| && AllValid(ops)
    requires FrameBase(m, fr, ret) == x + fr.locals[i].ws + y
    requires |x| == SizeWords(Types(fr.locals[..i])) + if i < |m.funcs[fr.f].tp.args| then 0 else 1
    ensures m.funcs[fr.f].Offset(Types(ops), i) == |fr.locals[i].ws| + |y| + |Flat(ops)|
  {
    hide Flat, Types, RetWord, SizeWords;
    var fn, vs := m.funcs[fr.f], fr.locals;
    var n := |fn.tp.args|;
    FlatLength(ops);
    FlatLength(vs);
    TypesPrefix(vs, i);
    assert vs == vs[..n] + vs[n..];
    FlatAppend(vs[..n], vs[n..]);
    assert |FrameBase(m, fr, ret)| == SizeWords(fn.Locals()) + 1;
  }

  // ----- The machine on words -----

  lemma LocalArg(off: nat, t: ValType)
    ensures
      var arg := 4 * off + (TypeCode(t) - 0x7C);
      arg / 4 == off && TypeFrom(0x7C + arg % 4) == Some(t)
  {
  }

  lemma ExecGet<H>(env: Env<H>, b: seq<Word>, w: seq<Word>, z: seq<Word>, t: ValType, ip: nat, h: H, next: nat)
    requires |w| == WordsOf(t)
    ensures ExecLocal(env, Machine(ip, b + w + z, h), 0x20, 4 * (|w| + |z|) + (TypeCode(t) - 0x7C), next)
            == Pushed(env, Machine(next, b + w + z + w, h))
  {
    hide Pushed;
    LocalArg(|w| + |z|, t);
    var stk := b + w + z;
    assert stk[|b|..|b| + |w|] == w;
  }

  /** local.set and local.tee: the top value v goes into the slot of w. */
  lemma ExecSet<H>(env: Env<H>, b: seq<Word>, w: seq<Word>, y: seq<Word>, v: seq<Word>, t: ValType,
                   op: byte, ip: nat, h: H, next: nat)
    requires |w| == |v| == WordsOf(t) && (op == 0x21 || op == 0x22)
    ensures ExecLocal(env, Machine(ip, b + w + y + v, h), op, 4 * (|w| + |y| + |v|) + (TypeCode(t) - 0x7C), next)
            == Go(Machine(next, if op == 0x21 then b + v + y else b + v + y + v, h))
  {
    hide ExecLocal, TypeFrom, TypeCode, WordsOf, WriteLocal;
    var off := |w| + |y| + |v|;
    LocalArg(off, t);
    SetWords(b, w, y, v, op != 0x21);
    ExecWrite(env, Machine(ip, b + w + y + v, h), op, 4 * off + (TypeCode(t) - 0x7C), t, next);
  }

  lemma ExecWrite<H>(env: Env<H>, s: Machine<H>, op: byte, arg: nat, t: ValType, next: nat)
    requires TypeFrom(0x7C + arg % 4) == Some(t) && (op == 0x21 || op == 0x22)
    requires WordsOf(t) <= arg / 4 <= |s.stk|
    ensures ExecLocal(env, s, op, arg, next) == Go(Machine(next, WriteLocal(s.stk, arg / 4, WordsOf(t), op != 0x21), s.host))
  {
    hide WriteLocal;
  }

  lemma SetWords(b: seq<Word>, w: seq<Word>, y: seq<Word>, v: seq<Word>, keep: bool)
    requires |w| == |v|
    ensures |b + w + y + v| == |b| + |w| + |y| + |v|
    ensures WriteLocal(b + w + y + v, |w| + |y| + |v|, |w|, keep) == if keep then b + v + y + v else b + v + y
  {
    var stk, d, n := b + w + y + v, |b|, |w|;
    assert stk[..d] == b;
    assert stk[d + n..] == y + v;
    assert stk[|stk| - n..] == v;
    assert b + v + (y + v) == b + v + y + v;
    assert (b + v + y + v)[..|stk| - n] == b + v + y;
  }

  // ----- The instructions -----

  lemma SimGet<H>(env: Env<H>, m: Module, hdr: seq<byte>, tail: seq<byte>,
                  rest: seq<Frame>, fr: Frame, h: H, s: Machine<H>)
    requires Fits(m, |hdr|) && Ready(m, |hdr|, rest, fr, h, s) && m.funcs[fr.f].body[fr.pc].GetLocal?
    ensures Catches(env, m, hdr, tail, s, DoLocal(rest, fr, h, m.funcs[fr.f].body[fr.pc]))
  {
    hide At, Addr, CodeSize, Accepted, Build, Image, TickN, Catches, LabelOk, FramesOk, StackOf, Flat, RetAddr, Types,
      ExecLocal, FrameBase, Func.Offset;
    var n, i, fn := |hdr|, m.funcs[fr.f].body[fr.pc].i, m.funcs[fr.f];
    var c := At(m, n, fr.f, fr.pc);
    AtNext(m, n, fr.f, fr.pc);
    assert Types(fr.ops) == c.ops by { assert Types(fr.ops) + [] == Types(fr.ops); }
    var v, t := fr.locals[i], fn.Locals()[i];
    var op := fn.LocalOp(0x20, c.ops, i);
    TickAt(env, m, hdr, tail, fr.f, fr.pc, op, s);
    var x, y := FrameSplit(m, fr, RetAddr(m, n, rest), i, v);
    OffsetIsDistance(m, fr, RetAddr(m, n, rest), i, x, y, fr.ops);
    var b, next := StackOf(m, n, rest) + x, Addr(m, n, fr.f, fr.pc + 1);
    assert v.Valid() && v.t == t;
    GetRegroup(StackOf(m, n, rest), x, v.ws, y, Flat(fr.ops));
    ExecGet(env, b, v.ws, y + Flat(fr.ops), t, s.ip, h, next);
    FlatAppend(fr.ops, [v]);
    FlatOne(v);
    var s' := Machine(next, Under(m, n, rest, fr) + Flat(fr.ops + [v]), h);
    var fr' := fr.(pc := fr.pc + 1, ops := fr.ops + [v]);
    if Pushed(env, s').Go? {
      assert Types(fr.ops + [v]) == Types(fr.ops) + [t];
      FloorBelow(m, n, fr, []);
      NextFrame(m, n, fr, fr');
      SameBase(m, fr, fr', RetAddr(m, n, rest));
      OneTick(env, m, hdr, tail, rest, fr', h, s, s');
    } else {
      CatchesAfter(env, m, hdr, tail, s, Running(rest + [fr'], h), 1);
    }
  }

  lemma GetRegroup(b: seq<Word>, x: seq<Word>, w: seq<Word>, y: seq<Word>, o: seq<Word>)
    ensures b + (x + w + y) + o == (b + x) + w + (y + o)
    ensures b + (x + w + y) + (o + w) == (b + x) + w + (y + o) + w
  {
  }

  lemma SetRegroup(b: seq<Word>, x: seq<Word>, w: seq<Word>, y: seq<Word>, o: seq<Word>, v: seq<Word>)
    ensures b + (x + w + y) + (o + v) == (b + x) + w + (y + o) + v
    ensures b + (x + v + y) + o == (b + x) + v + (y + o)
    ensures b + (x + v + y) + (o + v) == (b + x) + v + (y + o) + v
  {
  }

  /** What the compiler checked before a write: the top operand has the type of the local. */
  lemma SetShape(m: Module, hdr: nat, fr: Frame)
    requires Accepted(m, hdr) && FrameOk(m, hdr, fr, [])
    requires m.funcs[fr.f].body[fr.pc].SetLocal? || m.funcs[fr.f].body[fr.pc].TeeLocal?
    ensures
      var fn, ins := m.funcs[fr.f], m.funcs[fr.f].body[fr.pc];
      var c, c' := At(m, hdr, fr.f, fr.pc), At(m, hdr, fr.f, fr.pc + 1);
      && ins.i < |fr.locals| && fr.ops != []
      && c.ops == Types(fr.ops)
      && fr.ops[|fr.ops| - 1].t == fr.locals[ins.i].t == fn.Locals()[ins.i]
      && c'.out == c.out + [fn.LocalOp(if ins.SetLocal? then 0x21 else 0x22, c.ops, ins.i)]
      && c'.scopes == c.scopes && !c'.dead
      && c'.ops == Types(if ins.SetLocal? then fr.ops[..|fr.ops| - 1] else fr.ops)
  {
    hide At, Accepted, LabelOk, Types, Func.Offset;
    AtNext(m, hdr, fr.f, fr.pc);
    var c, ins := At(m, hdr, fr.f, fr.pc), m.funcs[fr.f].body[fr.pc];
    assert Types(fr.ops) == c.ops by { assert Types(fr.ops) + [] == Types(fr.ops); }
    var t := m.funcs[fr.f].Locals()[ins.i];
    assert c.ops[|c.ops| - 1..] == [t];
    assert c.ops[|c.ops| - 1] == [t][0];
    TypesPrefix(fr.ops, |fr.ops| - 1);
  }

  function Written(fr: Frame, ins: Instr): Frame
    requires ins.SetLocal? || ins.TeeLocal?
    requires ins.i < |fr.locals| && fr.ops != []
  {
    var k := |fr.ops| - 1;
    var fr' := fr.(pc := fr.pc + 1, locals := fr.locals[ins.i := fr.ops[k]]);
    if ins.SetLocal? then fr'.(ops := fr.ops[..k]) else fr'
  }

  lemma ExecWriteOnValues<H>(env: Env<H>, m: Module, b: seq<Word>, ret: nat, fr: Frame, ins: Instr, ip: nat, h: H, n: nat, next: nat)
    requires ins.SetLocal? || ins.TeeLocal?
    requires fr.f < |m.funcs| && Types(fr.locals) == m.funcs[fr.f].Locals() && AllValid(fr.locals)
    requires ins.i < |fr.locals| == |m.funcs[fr.f].Locals()| && fr.ops != [] && AllValid(fr.ops)
    requires fr.ops[|fr.ops| - 1].t == fr.locals[ins.i].t
    ensures
      var op := m.funcs[fr.f].LocalOp(if ins.SetLocal? then 0x21 else 0x22, Types(fr.ops), ins.i);
      ExecOp(env, n, Machine(ip, b + FrameBase(m, fr, ret) + Flat(fr.ops), h), op, next)
        == Go(Machine(next, b + FrameBase(m, Written(fr, ins), ret) + Flat(Written(fr, ins).ops), h))
  {
    hide Flat, Types, ExecLocal, FrameBase, Func.Offset, TypeCode, WordsOf, ExecOp;
    var i, k := ins.i, |fr.ops| - 1;
    var v, w := fr.ops[k], fr.locals[i];
    var x, y := FrameSplit(m, fr, ret, i, v);
    OffsetIsDistance(m, fr, ret, i, x, y, fr.ops);
    assert v.Valid() && w.Valid();
    FlatTop(fr.ops);
    SameBase(m, fr.(locals := fr.locals[i := v]), Written(fr, ins), ret);
    WriteWords(env, b, x, w.ws, y, Flat(fr.ops[..k]), v.ws, FrameBase(m, fr, ret), FrameBase(m, Written(fr, ins), ret),
               Flat(fr.ops), w.t, ins.SetLocal?, ip, h, next);
    assert m.funcs[fr.f].Locals()[i] == w.t;
    LocalIsLocal(env, n, Machine(ip, b + FrameBase(m, fr, ret) + Flat(fr.ops), h), m.funcs[fr.f],
                 if ins.SetLocal? then 0x21 else 0x22, Types(fr.ops), i, next);
  }

  /** A write on words: base is the frame before, base' after, flat the operands. */
  lemma WriteWords<H>(env: Env<H>, b: seq<Word>, x: seq<Word>, w: seq<Word>, y: seq<Word>, o: seq<Word>, v: seq<Word>,
                      base: seq<Word>, base': seq<Word>, flat: seq<Word>, t: ValType, pops: bool, ip: nat, h: H, next: nat)
    requires base == x + w + y && base' == x + v + y && flat == o + v && |w| == |v| == WordsOf(t)
    ensures
      ExecLocal(env, Machine(ip, b + base + flat, h), if pops then 0x21 else 0x22,
                4 * (|w| + |y| + |flat|) + (TypeCode(t) - 0x7C), next)
        == Go(Machine(next, b + base' + if pops then o else flat, h))
  {
    hide ExecLocal, TypeCode;
    SetRegroup(b, x, w, y, o, v);
    ExecSet(env, b + x, w, y + o, v, t, if pops then 0x21 else 0x22, ip, h, next);
  }

  lemma SimSet<H>(env: Env<H>, m: Module, hdr: seq<byte>, tail: seq<byte>,
                  rest: seq<Frame>, fr: Frame, h: H, s: Machine<H>)
    requires Fits(m, |hdr|) && Ready(m, |hdr|, rest, fr, h, s)
    requires m.funcs[fr.f].body[fr.pc].SetLocal? || m.funcs[fr.f].body[fr.pc].TeeLocal?
    ensures Catches(env, m, hdr, tail, s, DoLocal(rest, fr, h, m.funcs[fr.f].body[fr.pc]))
  {
    hide At, Addr, CodeSize, Accepted, Build, Image, TickN, Catches, LabelOk, FramesOk, StackOf, Flat, RetAddr, Types,
      ExecLocal, FrameBase, Func.Offset;
    if |fr.ops| < 1 + fr.Floor() {
      LocalInRange(m, |hdr|, fr);
      OutOfBlockIsFree(env, m, hdr, tail, s);
      return;
    }
    hide ExecOp, Func.LocalOp;
    var n, ins, fn := |hdr|, m.funcs[fr.f].body[fr.pc], m.funcs[fr.f];
    SetShape(m, n, fr);
    WrittenOk(m, n, fr);
    hide FrameOk;
    var c, next := At(m, n, fr.f, fr.pc), Addr(m, n, fr.f, fr.pc + 1);
    TickAt(env, m, hdr, tail, fr.f, fr.pc, fn.LocalOp(if ins.SetLocal? then 0x21 else 0x22, c.ops, ins.i), s);
    var ret := RetAddr(m, n, rest);
    ExecWriteOnValues(env, m, StackOf(m, n, rest), ret, fr, ins, s.ip, h, |Image(m, hdr, tail)|, next);
    var fr' := Written(fr, ins);
    OneTick(env, m, hdr, tail, rest, fr', h, s, Machine(next, Under(m, n, rest, fr') + Flat(fr'.ops), h));
  }

  lemma LocalIsLocal<H>(env: Env<H>, n: nat, s: Machine<H>, fn: Func, op: byte, ops: seq<ValType>, i: nat, next: nat)
    requires i < |fn.Locals()|
    ensures ExecOp(env, n, s, fn.LocalOp(op, ops, i), next) ==
      ExecLocal(env, s, op, 4 * fn.Offset(ops, i) + (TypeCode(fn.Locals()[i]) - 0x7C), next)
  {
    hide ExecLocal, Func.Offset;
  }

  /** After a write the frame agrees with the compiler's state. */
  lemma WrittenOk(m: Module, hdr: nat, fr: Frame)
    requires Accepted(m, hdr) && FrameOk(m, hdr, fr, []) && 1 + fr.Floor() <= |fr.ops|
    requires m.funcs[fr.f].body[fr.pc].SetLocal? || m.funcs[fr.f].body[fr.pc].TeeLocal?
    ensures m.funcs[fr.f].body[fr.pc].i < |fr.locals| && FrameOk(m, hdr, Written(fr, m.funcs[fr.f].body[fr.pc]), [])
  {
    hide At, Accepted, LabelOk, Types, Func.Offset, Kept;
    SetShape(m, hdr, fr);
    var fr' := Written(fr, m.funcs[fr.f].body[fr.pc]);
    assert Types(fr'.locals) == Types(fr.locals);
    NextFrame(m, hdr, fr, fr');
  }

  lemma LocalInRange(m: Module, hdr: nat, fr: Frame)
    requires Accepted(m, hdr) && FrameOk(m, hdr, fr, [])
    requires m.funcs[fr.f].body[fr.pc].SetLocal? || m.funcs[fr.f].body[fr.pc].TeeLocal?
    ensures m.funcs[fr.f].body[fr.pc].i < |fr.locals|
  {
    hide At, Accepted, LabelOk, Func.Offset;
    AtNext(m, hdr, fr.f, fr.pc);
  }

  lemma SameBase(m: Module, a: Frame, b: Frame, ret: nat)
    requires a.f == b.f && a.locals == b.locals
    ensures FrameBase(m, a, ret) == FrameBase(m, b, ret)
  {
  }

  lemma FlatTop(ops: seq<Value>)
    requires ops != []
    ensures Flat(ops) == Flat(ops[..|ops| - 1]) + ops[|ops| - 1].ws
  {
  }
}
