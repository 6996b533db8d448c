/** The contract stack: operand words growing up, the aliased memory stack growing down, and the four registers that
    keep them apart, across calls from one contract into another. */
module StackFrames {
  import opened Words

  const DEPTH_MAX := 32
  const REGION: nat := 0x4000_0000
  const STACK_REGION := 2

  /** Stack memory and registers. `pos` and `posMin` count words, the other two bytes. */
  datatype Regs = Regs(mem: seq<Word>, pos: nat, posMin: nat, bytesMax: nat, bytesCurrent: nat) {
    ghost predicate Ok() {
      && posMin <= pos <= bytesCurrent / 4
      && bytesCurrent <= bytesMax <= 4 * |mem|
      && 4 * |mem| < REGION
    }

    /** The operands the running contract may touch. */
    function Operands(): seq<Word>
      requires posMin <= pos <= |mem|
    {
      mem[posMin..pos]
    }

    predicate TestSelf() {
      bytesCurrent <= bytesMax && pos <= bytesCurrent / 4
    }
  }

  function ByteOf(w: Word, i: nat): byte
    requires i < 4
  {
    if i == 0 then w.b0 else if i == 1 then w.b1 else if i == 2 then w.b2 else w.b3
  }

  function WithByte(w: Word, i: nat, b: byte): Word
    requires i < 4
  {
    if i == 0 then w.(b0 := b) else if i == 1 then w.(b1 := b) else if i == 2 then w.(b2 := b) else w.(b3 := b)
  }

  /** The same memory seen as bytes. */
  function ByteAt(mem: seq<Word>, i: nat): byte
    requires i < 4 * |mem|
  {
    ByteOf(mem[i / 4], i % 4)
  }

  // ----- Register operations, None where the processor throws -----

  function Push1(r: Regs, w: Word): Option<Regs> {
    if r.pos < r.bytesCurrent / 4 && r.pos < |r.mem|
    then Some(r.(mem := r.mem[r.pos := w], pos := r.pos + 1))
    else None
  }

  function Pop1(r: Regs): Option<(Word, Regs)> {
    if r.pos > r.posMin && r.pos <= |r.mem| then Some((r.mem[r.pos - 1], r.(pos := r.pos - 1))) else None
  }

  /** Overwrite mem from position d with the words w. */
  function Blit(mem: seq<Word>, d: nat, w: seq<Word>): (r: seq<Word>)
    requires d + |w| <= |mem|
    ensures |r| == |mem|
    ensures forall i :: 0 <= i < |mem| && (i < d || d + |w| <= i) ==> r[i] == mem[i]
  {
    mem[..d] + w + mem[d + |w|..]
  }

  function GetLocal(r: Regs, off: nat, n: nat): Option<Regs> {
    if n <= off <= r.pos - r.posMin && r.pos + n <= r.bytesCurrent / 4 && r.pos + n <= |r.mem|
    then Some(r.(mem := Blit(r.mem, r.pos, r.mem[r.pos - off..r.pos - off + n]), pos := r.pos + n))
    else None
  }

  function SetLocal(r: Regs, off: nat, n: nat, keep: bool): Option<Regs> {
    if n <= off <= r.pos - r.posMin && r.pos <= |r.mem|
    then Some(r.(mem := Blit(r.mem, r.pos - off, r.mem[r.pos - n..r.pos]), pos := if keep then r.pos else r.pos - n))
    else None
  }

  function DropWords(r: Regs, n: nat): Option<Regs> {
    if r.pos - r.posMin >= n then Some(r.(pos := r.pos - n)) else None
  }

  function SelectWords(r: Regs, n: nat): Option<Regs> {
    if r.pos <= r.posMin || r.pos > |r.mem| || r.pos - 1 - r.posMin < 2 * n then None
    else
      var top := r.pos - 1;
      Some(r.(pos := top - n,
              mem := if r.mem[top] != ZERO_WORD then r.mem else Blit(r.mem, top - 2 * n, r.mem[top - n..top])))
  }

  /** The return address and the registers after the results have been moved down. */
  function ReturnWords(r: Regs, rets: nat, locals: nat, args: nat): Option<(Word, Regs)> {
    var dst: int := r.pos - rets - locals - 1 - args;
    if dst < r.posMin || r.pos > |r.mem| then None
    else
      Some((r.mem[r.pos - rets - locals - 1],
            r.(mem := Blit(r.mem, dst, r.mem[r.pos - rets..r.pos]), pos := dst + rets)))
  }

  function AlignUp(n: nat): nat {
    var t := (n + 15) % W32;
    t - t % 16
  }

  function AliasAlloc(r: Regs, n: nat): Option<Regs> {
    var k := AlignUp(n);
    if k > r.bytesCurrent then None
    else
      var r' := r.(bytesCurrent := r.bytesCurrent - k);
      if r'.TestSelf() then Some(r') else None
  }

  function AliasFree(r: Regs, n: nat): Option<Regs> {
    var k := AlignUp(n);
    var c := (r.bytesCurrent + k) % W32;
    if k > c then None
    else
      var r' := r.(bytesCurrent := c);
      if r'.TestSelf() then Some(r') else None
  }

  /** Assigning the stack-pointer variable. */
  function SetSp(r: Regs, x: u32): Option<Regs> {
    if AlignUp(x) != x || x / REGION != STACK_REGION then None
    else
      var r' := r.(bytesCurrent := x % REGION);
      if r'.TestSelf() then Some(r') else None
  }

  /** `get_AddrExVar` for a stack address: how many bytes may be accessed from this offset on. */
  function Accessible(r: Regs, off: nat): Option<nat> {
    if off < r.bytesCurrent && r.pos > off / 4 then None
    else if off > r.bytesMax then None
    else Some(r.bytesMax - off)
  }

  /** Bytes written one by one. */
  function WriteBytes(mem: seq<Word>, off: nat, bytes: seq<byte>): (r: seq<Word>)
    requires off + |bytes| <= 4 * |mem|
    ensures |r| == |mem|
    decreases |bytes|
  {
    if bytes == [] then mem
    else
      var n := |bytes| - 1;
      var mem' := WriteBytes(mem, off, bytes[..n]);
      var i := off + n;
      mem'[i / 4 := WithByte(mem'[i / 4], i % 4, bytes[n])]
  }

  function Store(r: Regs, off: nat, bytes: seq<byte>): Option<Regs> {
    match Accessible(r, off)
    case None => None
    case Some(size) =>
      if |bytes| <= size && off + |bytes| <= 4 * |r.mem| then Some(r.(mem := WriteBytes(r.mem, off, bytes))) else None
  }

  // ----- Calls between contracts -----

  datatype FarFrame = FarFrame(posMin: nat, bytesMax: nat, bytesRet: nat)

  datatype CallState = CallState(r: Regs, frames: seq<FarFrame>)

  /** What the callee may see of the stack: up to the end of its arguments. None where the arguments are refused. */
  function CalleeMax(r: Regs, pArgs: u32, nArgs: u32): Option<nat> {
    if nArgs == 0 then Some(r.bytesCurrent)
    else if pArgs / REGION != STACK_REGION then None
    else
      var off := pArgs % REGION;
      match Accessible(r, off)
      case None => None
      case Some(size) =>
        if off < r.bytesCurrent then None else Some(off + if nArgs < size then nArgs else size)
  }

  function CallFar(s: CallState, pArgs: u32, nArgs: u32, inherit: bool): Option<CallState> {
    var lim := if inherit then Some(s.r.bytesMax) else CalleeMax(s.r, pArgs, nArgs);
    if lim.None? || |s.frames| >= DEPTH_MAX then None
    else
      var fr := FarFrame(s.r.posMin, s.r.bytesMax, s.r.bytesCurrent);
      var arg := if inherit || nArgs > 0 then ToWord(pArgs) else ToWord(STACK_REGION * REGION + s.r.bytesCurrent % REGION);
      match Push1(s.r.(posMin := s.r.pos), arg)
      case None => None
      case Some(r1) =>
        match Push1(r1, ZERO_WORD)
        case None => None
        case Some(r2) => Some(CallState(r2.(bytesMax := lim.value), s.frames + [fr]))
  }

  /** `OnRetFar`: the callee must have left the operand stack and the memory stack as it found them. */
  function RetFar(s: CallState): Option<CallState> {
    if s.frames == [] || s.r.pos != s.r.posMin then None
    else
      var n := |s.frames| - 1;
      var fr := s.frames[n];
      if s.r.bytesCurrent != fr.bytesRet then None
      else Some(CallState(s.r.(posMin := fr.posMin, bytesMax := fr.bytesMax), s.frames[..n]))
  }

  /** Everything an instruction or a host function can do to the stack. */
  datatype Action =
    | DoPush(w: Word)
    | DoPop
    | DoGet(off: nat, n: nat)
    | DoSet(off: nat, n: nat, keep: bool)
    | DoDrop(n: nat)
    | DoSelect(n: nat)
    | DoReturn(rets: nat, locals: nat, args: nat)
    | DoStore(off: nat, bytes: seq<byte>)
    | DoSetSp(x: u32)
    | DoAlloc(size: nat)
    | DoFree(size: nat)
    | DoCallFar(pArgs: u32, nArgs: u32, inherit: bool)

  function Lift(s: CallState, r: Option<Regs>): Option<CallState> {
    if r.Some? then Some(s.(r := r.value)) else None
  }

  function Act(s: CallState, a: Action): Option<CallState> {
    match a
    case DoPush(w) => Lift(s, Push1(s.r, w))
    case DoPop => if Pop1(s.r).Some? then Some(s.(r := Pop1(s.r).value.1)) else None
    case DoGet(off, n) => Lift(s, GetLocal(s.r, off, n))
    case DoSet(off, n, keep) => Lift(s, SetLocal(s.r, off, n, keep))
    case DoDrop(n) => Lift(s, DropWords(s.r, n))
    case DoSelect(n) => Lift(s, SelectWords(s.r, n))
    case DoReturn(x, l, y) =>
      (match ReturnWords(s.r, x, l, y)
       case None => None
       case Some((w, r)) => if w == ZERO_WORD then RetFar(s.(r := r)) else Some(s.(r := r)))
    case DoStore(off, bytes) => Lift(s, Store(s.r, off, bytes))
    case DoSetSp(x) => Lift(s, SetSp(s.r, x))
    case DoAlloc(n) => Lift(s, AliasAlloc(s.r, n))
    case DoFree(n) => Lift(s, AliasFree(s.r, n))
    case DoCallFar(p, n, inherit) => CallFar(s, p, n, inherit)
  }

  function ActAll(s: CallState, acts: seq<Action>): Option<CallState> {
    if acts == [] then Some(s)
    else
      match ActAll(s, acts[..|acts| - 1])
      case None => None
      case Some(s') => Act(s', acts[|acts| - 1])
  }

  // ----- What one operation may change -----

  /** Nothing below the protected operands, nothing at or above the end of the visible stack. */
  ghost predicate Confined(mem: seq<Word>, mem': seq<Word>, posMin: nat, bytesMax: nat) {
    && |mem'| == |mem|
    && (forall i :: 0 <= i < posMin && i < |mem| ==> mem'[i] == mem[i])
    && (forall i :: bytesMax <= i < 4 * |mem| ==> ByteAt(mem', i) == ByteAt(mem, i))
  }

  lemma BlitConfined(mem: seq<Word>, d: nat, w: seq<Word>, posMin: nat, bytesMax: nat)
    requires d + |w| <= |mem| && posMin <= d && 4 * (d + |w|) <= bytesMax
    ensures Confined(mem, Blit(mem, d, w), posMin, bytesMax)
  {
    hide ByteOf;
    var mem' := Blit(mem, d, w);
    forall i | bytesMax <= i < 4 * |mem| ensures ByteAt(mem', i) == ByteAt(mem, i) {
      assert i / 4 >= d + |w|;
    }
  }

  lemma {:induction false} WriteBytesAt(mem: seq<Word>, off: nat, bytes: seq<byte>, i: nat)
    requires off + |bytes| <= 4 * |mem| && i < 4 * |mem|
    ensures ByteAt(WriteBytes(mem, off, bytes), i) ==
            if off <= i < off + |bytes| then bytes[i - off] else ByteAt(mem, i)
    ensures i / 4 < off / 4 ==> WriteBytes(mem, off, bytes)[i / 4] == mem[i / 4]
    decreases |bytes|
  {
    if bytes != [] {
      WriteBytesAt(mem, off, bytes[..|bytes| - 1], i);
    }
  }

  lemma StoreConfined(mem: seq<Word>, off: nat, bytes: seq<byte>, posMin: nat, bytesMax: nat)
    requires off + |bytes| <= 4 * |mem| && posMin <= off / 4 && off + |bytes| <= bytesMax
    ensures Confined(mem, WriteBytes(mem, off, bytes), posMin, bytesMax)
  {
    hide WriteBytes, ByteAt;
    var mem' := WriteBytes(mem, off, bytes);
    forall i | 0 <= i < posMin && i < |mem| ensures mem'[i] == mem[i] {
      WriteBytesAt(mem, off, bytes, 4 * i);
      assert 4 * i / 4 == i;
    }
    forall i | bytesMax <= i < 4 * |mem| ensures ByteAt(mem', i) == ByteAt(mem, i) {
      WriteBytesAt(mem, off, bytes, i);
    }
  }

  /** An operation that stays inside one contract's part of the stack. */
  ghost predicate Contained(r: Regs, r': Regs) {
    && r'.Ok()
    && r'.posMin == r.posMin && r'.bytesMax == r.bytesMax
    && Confined(r.mem, r'.mem, r.posMin, r.bytesMax)
  }

  lemma PushContained(r: Regs, w: Word)
    requires r.Ok() && Push1(r, w).Some?
    ensures Contained(r, Push1(r, w).value)
  {
    assert r.mem[r.pos := w] == Blit(r.mem, r.pos, [w]);
    BlitConfined(r.mem, r.pos, [w], r.posMin, r.bytesMax);
  }

  lemma LocalsContained(r: Regs, off: nat, n: nat, keep: bool)
    requires r.Ok()
    ensures GetLocal(r, off, n).Some? ==> Contained(r, GetLocal(r, off, n).value)
    ensures SetLocal(r, off, n, keep).Some? ==> Contained(r, SetLocal(r, off, n, keep).value)
  {
    hide Confined, Blit;
    if GetLocal(r, off, n).Some? {
      BlitConfined(r.mem, r.pos, r.mem[r.pos - off..r.pos - off + n], r.posMin, r.bytesMax);
    }
    if SetLocal(r, off, n, keep).Some? {
      BlitConfined(r.mem, r.pos - off, r.mem[r.pos - n..r.pos], r.posMin, r.bytesMax);
    }
  }

  lemma SelectContained(r: Regs, n: nat)
    requires r.Ok() && SelectWords(r, n).Some?
    ensures Contained(r, SelectWords(r, n).value)
  {
    hide Confined, Blit;
    var top := r.pos - 1;
    BlitConfined(r.mem, top - 2 * n, r.mem[top - n..top], r.posMin, r.bytesMax);
    Unconfined(r.mem, r.posMin, r.bytesMax);
  }

  lemma Unconfined(mem: seq<Word>, posMin: nat, bytesMax: nat)
    ensures Confined(mem, mem, posMin, bytesMax)
  {
  }

  lemma ReturnContained(r: Regs, rets: nat, locals: nat, args: nat)
    requires r.Ok() && ReturnWords(r, rets, locals, args).Some?
    ensures Contained(r, ReturnWords(r, rets, locals, args).value.1)
  {
    hide Confined, Blit;
    var dst := r.pos - rets - locals - 1 - args;
    BlitConfined(r.mem, dst, r.mem[r.pos - rets..r.pos], r.posMin, r.bytesMax);
  }

  lemma StoreContained(r: Regs, off: nat, bytes: seq<byte>)
    requires r.Ok() && Store(r, off, bytes).Some?
    ensures Contained(r, Store(r, off, bytes).value)
  {
    hide Confined, WriteBytes;
    StoreConfined(r.mem, off, bytes, r.posMin, r.bytesMax);
  }

  lemma SpContained(r: Regs, n: nat, x: u32)
    requires r.Ok()
    ensures AliasAlloc(r, n).Some? ==> Contained(r, AliasAlloc(r, n).value)
    ensures AliasFree(r, n).Some? ==> Contained(r, AliasFree(r, n).value)
    ensures SetSp(r, x).Some? ==> Contained(r, SetSp(r, x).value)
  {
    hide Confined;
    Unconfined(r.mem, r.posMin, r.bytesMax);
  }

  // ----- Invariants of nested calls -----

  function LevelMin(s: CallState, j: nat): nat
    requires j <= |s.frames|
  {
    if j == |s.frames| then s.r.posMin else s.frames[j].posMin
  }

  function LevelMax(s: CallState, j: nat): nat
    requires j <= |s.frames|
  {
    if j == |s.frames| then s.r.bytesMax else s.frames[j].bytesMax
  }

  /** Each contract's part of the stack lies inside its caller's. */
  ghost predicate Nested(s: CallState) {
    && s.r.Ok()
    && (forall j, k :: 0 <= j <= k <= |s.frames| ==> LevelMin(s, j) <= LevelMin(s, k) && LevelMax(s, k) <= LevelMax(s, j))
    && (forall j :: 0 <= j <= |s.frames| ==> LevelMax(s, j) <= 4 * |s.r.mem|)
  }

  lemma InsideNested(s: CallState, r': Regs)
    requires Nested(s) && Contained(s.r, r')
    ensures Nested(s.(r := r'))
  {
    hide Confined;
    var s' := s.(r := r');
    assert forall j :: 0 <= j <= |s.frames| ==> LevelMin(s', j) == LevelMin(s, j) && LevelMax(s', j) == LevelMax(s, j);
    assert |r'.mem| == |s.r.mem| by { ConfinedLength(s.r, r'); }
  }

  lemma ConfinedLength(r: Regs, r': Regs)
    requires Contained(r, r')
    ensures |r'.mem| == |r.mem|
  {
  }

  /** A call enters a nested part: it starts where the caller's operands end. */
  lemma CallNested(s: CallState, pArgs: u32, nArgs: u32, inherit: bool)
    requires Nested(s) && CallFar(s, pArgs, nArgs, inherit).Some?
    ensures
      var s' := CallFar(s, pArgs, nArgs, inherit).value;
      && Nested(s')
      && s'.frames == s.frames + [FarFrame(s.r.posMin, s.r.bytesMax, s.r.bytesCurrent)]
      && s'.r.posMin == s.r.pos && s'.r.bytesMax <= s.r.bytesMax && s'.r.bytesCurrent == s.r.bytesCurrent
      && Confined(s.r.mem, s'.r.mem, s.r.pos, s.r.bytesCurrent)
  {
    hide ToWord, ByteAt;
    var s' := CallFar(s, pArgs, nArgs, inherit).value;
    var r0 := s.r.(posMin := s.r.pos);
    var arg := if inherit || nArgs > 0 then ToWord(pArgs) else ToWord(STACK_REGION * REGION + s.r.bytesCurrent % REGION);
    var r1 := Push1(r0, arg).value;
    assert r1.mem[r1.pos := ZERO_WORD] == Blit(s.r.mem, s.r.pos, [arg, ZERO_WORD]);
    BlitConfined(s.r.mem, s.r.pos, [arg, ZERO_WORD], s.r.pos, s.r.bytesCurrent);
    forall j, k | 0 <= j <= k <= |s'.frames|
      ensures LevelMin(s', j) <= LevelMin(s', k) && LevelMax(s', k) <= LevelMax(s', j)
    {
      if j < |s'.frames| {
        assert LevelMin(s', j) == LevelMin(s, j) && LevelMax(s', j) == LevelMax(s, j);
        var k' := if k < |s'.frames| then k else |s.frames|;
        assert LevelMin(s, j) <= LevelMin(s, k') && LevelMax(s, k') <= LevelMax(s, j);
      }
    }
    assert forall j :: 0 <= j < |s'.frames| ==> LevelMax(s', j) == LevelMax(s, j);
  }

  lemma RetNested(s: CallState)
    requires Nested(s) && RetFar(s).Some?
    ensures
      var s' := RetFar(s).value;
      && Nested(s')
      && s'.frames == s.frames[..|s.frames| - 1] && s'.r.mem == s.r.mem && s'.r.pos == s.r.posMin
  {
    var s', n := RetFar(s).value, |s.frames| - 1;
    assert forall j :: 0 <= j <= n ==> LevelMin(s', j) == LevelMin(s, j) && LevelMax(s', j) == LevelMax(s, j);
    assert LevelMin(s, n) <= LevelMin(s, n + 1) && LevelMax(s, n + 1) <= LevelMax(s, n);
  }

  /** What one step does, whatever the bytecode: it stays inside the running contract's part, enters a nested part, or
      leaves for the caller's. */
  lemma ActCases(s: CallState, a: Action)
    requires Nested(s) && Act(s, a).Some?
    ensures
      var s' := Act(s, a).value;
      || (s'.frames == s.frames && Contained(s.r, s'.r))
      || (a.DoCallFar? && CallFar(s, a.pArgs, a.nArgs, a.inherit) == Some(s'))
      || (exists r :: Contained(s.r, r) && RetFar(s.(r := r)) == Some(s'))
  {
    hide Contained, CallFar, RetFar, Push1, GetLocal, SetLocal, SelectWords, ReturnWords, Store, SetSp, AliasAlloc, AliasFree;
    match a
    case DoPush(w) => PushContained(s.r, w);
    case DoPop => PopContained(s.r, 0);
    case DoGet(off, n) => LocalsContained(s.r, off, n, true);
    case DoSet(off, n, keep) => LocalsContained(s.r, off, n, keep);
    case DoDrop(n) => PopContained(s.r, n);
    case DoSelect(n) => SelectContained(s.r, n);
    case DoReturn(x, l, y) => ReturnContained(s.r, x, l, y);
    case DoStore(off, bytes) => StoreContained(s.r, off, bytes);
    case DoSetSp(x) => SpContained(s.r, 0, x);
    case DoAlloc(n) => SpContained(s.r, n, 0);
    case DoFree(n) => SpContained(s.r, n, 0);
    case DoCallFar(p, n, inherit) =>
  }

  lemma PopContained(r: Regs, n: nat)
    requires r.Ok()
    ensures Pop1(r).Some? ==> Contained(r, Pop1(r).value.1)
    ensures DropWords(r, n).Some? ==> Contained(r, DropWords(r, n).value)
  {
    hide Confined;
    Unconfined(r.mem, r.posMin, r.bytesMax);
  }

  /** Every step of every bytecode keeps the registers in order and the parts nested. */
  lemma ActKeepsNested(s: CallState, a: Action)
    requires Nested(s) && Act(s, a).Some?
    ensures Nested(Act(s, a).value)
  {
    hide Act, Contained, RetFar, CallFar, Nested;
    ActCases(s, a);
    var s' := Act(s, a).value;
    if s'.frames == s.frames && Contained(s.r, s'.r) {
      InsideNested(s, s'.r);
    } else if a.DoCallFar? && CallFar(s, a.pArgs, a.nArgs, a.inherit) == Some(s') {
      CallNested(s, a.pArgs, a.nArgs, a.inherit);
    } else {
      var r :| Contained(s.r, r) && RetFar(s.(r := r)) == Some(s');
      InsideNested(s, r);
      RetNested(s.(r := r));
    }
  }

  lemma {:induction false} RunKeepsNested(s: CallState, acts: seq<Action>)
    requires Nested(s) && ActAll(s, acts).Some?
    ensures Nested(ActAll(s, acts).value)
  {
    hide Act, Nested;
    if acts != [] {
      RunKeepsNested(s, acts[..|acts| - 1]);
      ActKeepsNested(ActAll(s, acts[..|acts| - 1]).value, acts[|acts| - 1]);
    }
  }

  // ----- Isolation of the caller -----

  /** The run stays at call depth greater than d. */
  ghost predicate StaysInside(s: CallState, acts: seq<Action>, d: nat) {
    forall k :: 0 <= k <= |acts| ==> ActAll(s, acts[..k]).Some? && |ActAll(s, acts[..k]).value.frames| > d
  }

  /** While level d + 1 or deeper runs, its own bounds and everything saved below it stay as they were. */
  ghost predicate Guarded(s0: CallState, s: CallState, d: nat) {
    && d < |s0.frames| && d < |s.frames|
    && s.frames[..d + 1] == s0.frames[..d + 1]
    && LevelMin(s, d + 1) == LevelMin(s0, d + 1)
    && LevelMax(s, d + 1) == LevelMax(s0, d + 1)
    && Confined(s0.r.mem, s.r.mem, LevelMin(s0, d + 1), LevelMax(s0, d + 1))
  }

  lemma ConfinedTrans(a: seq<Word>, b: seq<Word>, c: seq<Word>, p: nat, q: nat, p': nat, q': nat)
    requires Confined(a, b, p, q) && Confined(b, c, p', q') && p <= p' && q' <= q
    ensures Confined(a, c, p, q)
  {
  }

  lemma ActGuarded(s0: CallState, s: CallState, a: Action, d: nat)
    requires Nested(s) && Guarded(s0, s, d) && Act(s, a).Some? && |Act(s, a).value.frames| > d
    ensures Guarded(s0, Act(s, a).value, d)
  {
    hide Act, Contained, RetFar, CallFar, Confined, Nested;
    ActCases(s, a);
    var s' := Act(s, a).value;
    var p, q := LevelMin(s0, d + 1), LevelMax(s0, d + 1);
    LevelBounds(s, d + 1);
    if s'.frames == s.frames && Contained(s.r, s'.r) {
      ContainedParts(s.r, s'.r);
      ConfinedTrans(s0.r.mem, s.r.mem, s'.r.mem, p, q, s.r.posMin, s.r.bytesMax);
    } else if a.DoCallFar? && CallFar(s, a.pArgs, a.nArgs, a.inherit) == Some(s') {
      CallNested(s, a.pArgs, a.nArgs, a.inherit);
      NestedOk(s);
      ConfinedTrans(s0.r.mem, s.r.mem, s'.r.mem, p, q, s.r.pos, s.r.bytesCurrent);
    } else {
      var r :| Contained(s.r, r) && RetFar(s.(r := r)) == Some(s');
      ContainedParts(s.r, r);
      InsideNested(s, r);
      RetNested(s.(r := r));
      RetLevels(s.(r := r), d + 1);
      ConfinedTrans(s0.r.mem, s.r.mem, r.mem, p, q, s.r.posMin, s.r.bytesMax);
    }
  }

  lemma RetLevels(s: CallState, j: nat)
    requires RetFar(s).Some? && j < |s.frames|
    ensures LevelMin(RetFar(s).value, j) == LevelMin(s, j) && LevelMax(RetFar(s).value, j) == LevelMax(s, j)
  {
  }

  lemma ContainedParts(r: Regs, r': Regs)
    requires Contained(r, r')
    ensures r'.posMin == r.posMin && r'.bytesMax == r.bytesMax && Confined(r.mem, r'.mem, r.posMin, r.bytesMax)
  {
  }

  lemma NestedOk(s: CallState)
    requires Nested(s)
    ensures s.r.posMin <= s.r.pos && s.r.bytesCurrent <= s.r.bytesMax
  {
  }

  lemma LevelBounds(s: CallState, j: nat)
    requires Nested(s) && j <= |s.frames|
    ensures LevelMin(s, j) <= s.r.posMin && s.r.bytesMax <= LevelMax(s, j)
  {
    assert LevelMin(s, j) <= LevelMin(s, |s.frames|) && LevelMax(s, |s.frames|) <= LevelMax(s, j);
  }

  lemma {:induction false} RunGuarded(s0: CallState, acts: seq<Action>, d: nat)
    requires Nested(s0) && d < |s0.frames| && StaysInside(s0, acts, d)
    ensures ActAll(s0, acts).Some? && Guarded(s0, ActAll(s0, acts).value, d)
    decreases |acts|
  {
    hide Act, Nested, Confined;
    if acts == [] {
      Unconfined(s0.r.mem, LevelMin(s0, d + 1), LevelMax(s0, d + 1));
    } else {
      var n := |acts| - 1;
      var init := acts[..n];
      assert StaysInside(s0, init, d) by {
        forall k | 0 <= k <= n ensures ActAll(s0, init[..k]).Some? && |ActAll(s0, init[..k]).value.frames| > d {
          assert init[..k] == acts[..k];
        }
      }
      RunGuarded(s0, init, d);
      RunKeepsNested(s0, init);
      assert acts[..|acts|] == acts;
      ActGuarded(s0, ActAll(s0, init).value, acts[n], d);
    }
  }

  /** A far call and its matching return, with arbitrary bytecode in between (including further far calls): the caller's
      four registers are restored, its operand words are untouched, and so is every stack byte beyond what it exposed. */
  lemma FarCallIsolation(s0: CallState, pArgs: u32, nArgs: u32, inherit: bool, acts: seq<Action>, last: Action)
    requires Nested(s0) && CallFar(s0, pArgs, nArgs, inherit).Some?
    requires
      var s1 := CallFar(s0, pArgs, nArgs, inherit).value;
      && StaysInside(s1, acts, |s0.frames|)
      && ActAll(s1, acts).Some?
      && Act(ActAll(s1, acts).value, last).Some?
      && |Act(ActAll(s1, acts).value, last).value.frames| == |s0.frames|
    ensures
      var s1 := CallFar(s0, pArgs, nArgs, inherit).value;
      var s2 := Act(ActAll(s1, acts).value, last).value;
      && s2.frames == s0.frames
      && s2.r.pos == s0.r.pos && s2.r.posMin == s0.r.posMin
      && s2.r.bytesMax == s0.r.bytesMax && s2.r.bytesCurrent == s0.r.bytesCurrent
      && |s2.r.mem| == |s0.r.mem|
      && s2.r.Operands() == s0.r.Operands()
      && (forall i :: 0 <= i < s0.r.pos ==> s2.r.mem[i] == s0.r.mem[i])
      && (forall i :: s1.r.bytesMax <= i < 4 * |s0.r.mem| ==> ByteAt(s2.r.mem, i) == ByteAt(s0.r.mem, i))
  {
    hide Act, Contained, CallFar, Confined, Nested, ByteAt;
    var d := |s0.frames|;
    var s1 := CallFar(s0, pArgs, nArgs, inherit).value;
    CallNested(s0, pArgs, nArgs, inherit);
    RunGuarded(s1, acts, d);
    RunKeepsNested(s1, acts);
    var s := ActAll(s1, acts).value;
    ActCases(s, last);
    var s2 := Act(s, last).value;
    assert |s2.frames| < |s.frames|;
    CallDeepens(s, last);
    var r :| Contained(s.r, r) && RetFar(s.(r := r)) == Some(s2);
    ContainedParts(s.r, r);
    InsideNested(s, r);
    RetNested(s.(r := r));
    ReturnRestores(s0, s1, s, r, s2);
    var p, q := s0.r.pos, s1.r.bytesMax;
    ConfinedTrans(s1.r.mem, s.r.mem, r.mem, p, q, s.r.posMin, s.r.bytesMax);
    CallBounds(s0, s1);
    WidenConfined(s0.r.mem, s1.r.mem, p, s0.r.bytesCurrent, q);
    ConfinedTrans(s0.r.mem, s1.r.mem, r.mem, p, q, p, q);
    Untouched(s0, s2, p, q);
  }

  lemma CallDeepens(s: CallState, a: Action)
    ensures a.DoCallFar? && CallFar(s, a.pArgs, a.nArgs, a.inherit).Some? ==>
            |CallFar(s, a.pArgs, a.nArgs, a.inherit).value.frames| == |s.frames| + 1
  {
  }

  lemma ReturnRestores(s0: CallState, s1: CallState, s: CallState, r: Regs, s2: CallState)
    requires |s1.frames| == |s0.frames| + 1 && s1.frames == s0.frames + [FarFrame(s0.r.posMin, s0.r.bytesMax, s0.r.bytesCurrent)]
    requires s1.r.posMin == s0.r.pos
    requires Guarded(s1, s, |s0.frames|) && Contained(s.r, r) && RetFar(s.(r := r)) == Some(s2)
    requires |s2.frames| == |s0.frames|
    ensures s2.frames == s0.frames && s2.r.mem == r.mem
    ensures s2.r.pos == s0.r.pos && s2.r.posMin == s0.r.posMin
    ensures s2.r.bytesMax == s0.r.bytesMax && s2.r.bytesCurrent == s0.r.bytesCurrent
    ensures s.r.posMin == s0.r.pos && s.r.bytesMax == s1.r.bytesMax
  {
    hide Confined;
    assert s.frames == s.frames[..|s0.frames| + 1] == s1.frames;
  }

  lemma CallBounds(s0: CallState, s1: CallState)
    requires Nested(s0) && Nested(s1) && s1.r.bytesCurrent == s0.r.bytesCurrent
    ensures s0.r.bytesCurrent <= s1.r.bytesMax
  {
  }

  lemma WidenConfined(a: seq<Word>, b: seq<Word>, p: nat, q: nat, q': nat)
    requires Confined(a, b, p, q) && q <= q'
    ensures Confined(a, b, p, q')
  {
  }

  lemma Untouched(s0: CallState, s2: CallState, p: nat, q: nat)
    requires Nested(s0) && Confined(s0.r.mem, s2.r.mem, p, q) && p == s0.r.pos
    requires s2.r.pos == s0.r.pos && s2.r.posMin == s0.r.posMin
    ensures |s2.r.mem| == |s0.r.mem| && s0.r.posMin <= s0.r.pos <= |s0.r.mem|
    ensures s2.r.Operands() == s0.r.Operands()
    ensures forall i :: 0 <= i < s0.r.pos ==> s2.r.mem[i] == s0.r.mem[i]
    ensures forall i :: q <= i < 4 * |s0.r.mem| ==> ByteAt(s2.r.mem, i) == ByteAt(s0.r.mem, i)
  {
    hide ByteAt;
  }
}
