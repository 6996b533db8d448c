/** The flat machine: what `Processor::RunOnce` does to the instruction pointer and the operand words.

    The operand stack is the sequence of words between the protected minimum and the current position; pushing
    past the capacity is `Overflow`, every other refused test is `Fault`. */
module WasmMachine {
  import Leb128
  import opened Words
  import opened WasmCode
  import opened WasmSource

  datatype Machine<H> = Machine(ip: nat, stk: seq<Word>, host: H)

  datatype Outcome<H> = Go(s: Machine<H>) | Overflow | Fault

  /** Cut words into values of the given types. */
  function Unflat(ws: seq<Word>, ts: seq<ValType>): (vs: seq<Value>)
    requires |ws| == SizeWords(ts)
    ensures Types(vs) == ts && AllValid(vs)
  {
    if ts == [] then []
    else
      var t := ts[|ts| - 1];
      var k := |ws| - WordsOf(t);
      Unflat(ws[..k], ts[..|ts| - 1]) + [Value(t, ws[k..])]
  }

  function Jump<H>(n: nat, s: Machine<H>, addr: nat): Outcome<H> {
    if addr < n then Go(s.(ip := addr)) else Fault
  }

  function Pushed<H>(env: Env<H>, s: Machine<H>): Outcome<H> {
    if |s.stk| <= env.cap(s.host) then Go(s) else Overflow
  }

  function ExecCall<H>(env: Env<H>, s: Machine<H>, args: seq<ValType>, next: nat,
                       call: seq<Value> -> Option<(H, seq<Value>)>): Outcome<H>
  {
    var n := SizeWords(args);
    if |s.stk| < n then Fault
    else
      var k := |s.stk| - n;
      match call(Unflat(s.stk[k..], args))
      case None => Fault
      case Some((h, rets)) => Pushed(env, Machine(next, s.stk[..k] + Flat(rets), h))
  }

  // What the stack instructions do to the operand words, the top of the stack being the end of the sequence.

  function ReadLocal(stk: seq<Word>, off: nat, n: nat): seq<Word>
    requires n <= off <= |stk|
  {
    stk + stk[|stk| - off..|stk| - off + n]
  }

  function WriteLocal(stk: seq<Word>, off: nat, n: nat, keep: bool): seq<Word>
    requires n <= off <= |stk|
  {
    var d := |stk| - off;
    var s := stk[..d] + stk[|stk| - n..] + stk[d + n..];
    if keep then s else s[..|s| - n]
  }

  function Selected(stk: seq<Word>, n: nat): seq<Word>
    requires 2 * n + 1 <= |stk|
  {
    var top := |stk| - 1;
    stk[..top - 2 * n] + if stk[top] != ZERO_WORD then stk[top - 2 * n..top - n] else stk[top - n..top]
  }

  function Returned(stk: seq<Word>, rets: nat, locals: nat, args: nat): seq<Word>
    requires rets + locals + 1 + args <= |stk|
  {
    stk[..|stk| - rets - locals - 1 - args] + stk[|stk| - rets..]
  }

  /** `OnLocal`: the low two bits of the operand are the type, the rest the distance from the top. */
  function ExecLocal<H>(env: Env<H>, s: Machine<H>, op: byte, arg: nat, next: nat): Outcome<H> {
    var n, off := WordsOf(TypeFrom(0x7C + arg % 4).value), arg / 4;
    if off < n || off > |s.stk| then Fault
    else if op == 0x20 then Pushed(env, Machine(next, ReadLocal(s.stk, off, n), s.host))
    else Go(Machine(next, WriteLocal(s.stk, off, n, op != 0x21), s.host))
  }

  function ExecSelect<H>(s: Machine<H>, t: ValType, next: nat): Outcome<H> {
    if |s.stk| < 2 * WordsOf(t) + 1 then Fault else Go(Machine(next, Selected(s.stk, WordsOf(t)), s.host))
  }

  function ExecBrTable<H>(n: nat, s: Machine<H>, lbls: seq<nat>): Outcome<H> {
    var top := |s.stk| - 1;
    if top < 0 || lbls == [] then Fault
    else
      var i: nat := FromWord(s.stk[top]);
      Jump(n, s.(stk := s.stk[..top]), lbls[if i < |lbls| then i else |lbls| - 1])
  }

  /** `On_ret`: move the results over arguments, return address and locals, and go back. */
  function ExecRet<H>(n: nat, s: Machine<H>, rets: nat, locals: nat, args: nat): Outcome<H> {
    if |s.stk| < rets + locals + 1 + args then Fault
    else
      Jump(n, s.(stk := Returned(s.stk, rets, locals, args)), FromWord(s.stk[|s.stk| - rets - locals - 1]))
  }

  function ExecOp<H>(env: Env<H>, n: nat, s: Machine<H>, f: FlatOp, next: nat): Outcome<H> {
    match f
    case Simple(op, imm) =>
      if !IsSimple(op) then Fault
      else
        var x := Decoded(Leb128.EmulateX86, op, imm);
        ExecCall(env, s, SimpleSig(op).args, next, args => CallSimple(env, s.host, op, x, args))
    case Ext(op, b) => ExecCall(env, s, env.extSig(op, b).args, next, args => CallExt(env, s.host, op, b, args))
    case Local(op, arg) => ExecLocal(env, s, op, arg, next)
    case Drop(t) =>
      if |s.stk| < WordsOf(t) then Fault else Go(s.(ip := next, stk := s.stk[..|s.stk| - WordsOf(t)]))
    case Select(t) => ExecSelect(s, t, next)
    case Br(a) => Jump(n, s, a)
    case BrIf(a) =>
      var top := |s.stk| - 1;
      if top < 0 then Fault
      else if s.stk[top] != ZERO_WORD then Jump(n, s.(stk := s.stk[..top]), a)
      else Go(s.(ip := next, stk := s.stk[..top]))
    case BrTable(ls) => ExecBrTable(n, s, ls)
    case Call(a) =>
      if next >= W32 then Fault
      else
        var s' := s.(stk := s.stk + [ToWord(next)]);
        if Pushed(env, s').Go? then Jump(n, s', a) else Overflow
    case Prolog(k) => Pushed(env, s.(ip := next, stk := s.stk + seq(k, _ => ZERO_WORD)))
    case Ret(r, l, a) => ExecRet(n, s, r, l, a)
  }

  /** One instruction fetched from the code and executed. */
  function Tick<H>(env: Env<H>, code: seq<byte>, s: Machine<H>): Outcome<H> {
    if s.ip >= |code| then Fault
    else
      match Decode(code[s.ip..])
      case Bad => Fault
      case Got(f, len) => ExecOp(env, |code|, s, f, s.ip + len)
  }

  function TickN<H>(env: Env<H>, code: seq<byte>, s: Machine<H>, n: nat): Outcome<H>
    decreases n
  {
    if n == 0 then Go(s)
    else
      match TickN(env, code, s, n - 1)
      case Go(s') => Tick(env, code, s')
      case x => x
  }
}
