/** Values, types and the flat bytecode that the contract compiler emits and the processor runs. */
module WasmCode {
  import opened Words
  import Leb128
  import Arith

  datatype ValType = F64 | F32 | I64 | I32

  function WordsOf(t: ValType): (n: nat)
    ensures 1 <= n <= 2
  {
    if t == I32 || t == F32 then 1 else 2
  }

  /** Binary type code (0x7C .. 0x7F). */
  function TypeCode(t: ValType): byte {
    match t
    case F64 => 0x7C
    case F32 => 0x7D
    case I64 => 0x7E
    case I32 => 0x7F
  }

  function TypeFrom(code: byte): Option<ValType> {
    match code
    case 0x7C => Some(F64)
    case 0x7D => Some(F32)
    case 0x7E => Some(I64)
    case 0x7F => Some(I32)
    case _ => None
  }

  function SizeWords(ts: seq<ValType>): nat {
    if ts == [] then 0 else SizeWords(ts[..|ts| - 1]) + WordsOf(ts[|ts| - 1])
  }

  /** A typed value; the words of a wide one are kept in the order they are pushed (high word first). */
  datatype Value = Value(t: ValType, ws: seq<Word>) {
    ghost predicate Valid() {
      |ws| == WordsOf(t)
    }
  }

  function Types(vs: seq<Value>): (ts: seq<ValType>)
    ensures |ts| == |vs|
    ensures forall i :: 0 <= i < |vs| ==> ts[i] == vs[i].t
  {
    if vs == [] then [] else Types(vs[..|vs| - 1]) + [vs[|vs| - 1].t]
  }

  ghost predicate AllValid(vs: seq<Value>) {
    forall i :: 0 <= i < |vs| ==> vs[i].Valid()
  }

  /** The words of a list of values, bottom of the stack first. */
  function Flat(vs: seq<Value>): seq<Word> {
    if vs == [] then [] else Flat(vs[..|vs| - 1]) + vs[|vs| - 1].ws
  }

  function Zero(t: ValType): (v: Value)
    ensures v.Valid() && v.t == t
  {
    Value(t, seq(WordsOf(t), _ => ZERO_WORD))
  }

  function Zeros(ts: seq<ValType>): (vs: seq<Value>)
    ensures Types(vs) == ts && AllValid(vs)
  {
    if ts == [] then [] else Zeros(ts[..|ts| - 1]) + [Zero(ts[|ts| - 1])]
  }

  // ----- Flat instructions -----

  /** Emitted instructions. A label operand is a label index until the build patches it to an address. */
  datatype FlatOp =
    | Simple(opcode: byte, imm: seq<byte>)
    | Ext(opcode: byte, binding: nat)
    | Local(opcode: byte, arg: nat)
    | Drop(t: ValType)
    | Select(t: ValType)
    | Br(lbl: nat)
    | BrIf(lbl: nat)
    | BrTable(lbls: seq<nat>)
    | Call(lbl: nat)
    | Prolog(words: nat)
    | Ret(rets: nat, locals: nat, args: nat)

  // Signature of an opcode that is copied verbatim: operand types popped, result types pushed,
  // and the number of variable-length immediates that follow it.
  datatype Sig = Sig(args: seq<ValType>, rets: seq<ValType>)

  predicate IsNumeric(op: byte) {
    || 0x45 <= op <= 0x5A
    || 0x6A <= op <= 0x78
    || 0x7C <= op <= 0x8A
    || op == 0xA7 || op == 0xAC || op == 0xAD
  }

  predicate IsConst(op: byte) {
    op == 0x41 || op == 0x42
  }

  predicate IsLoad(op: byte) {
    op == 0x28 || op == 0x29 || 0x2C <= op <= 0x35
  }

  predicate IsStore(op: byte) {
    op == 0x36 || op == 0x37 || 0x3A <= op <= 0x3E
  }

  predicate IsSimple(op: byte) {
    IsNumeric(op) || IsConst(op) || IsLoad(op) || IsStore(op)
  }

  function Immediates(op: byte): nat {
    if IsConst(op) then 1 else if IsLoad(op) || IsStore(op) then 2 else 0
  }

  function SimpleSig(op: byte): Sig
    requires IsSimple(op)
  {
    if op == 0x45 then Sig([I32], [I32])
    else if op == 0x50 then Sig([I64], [I32])
    else if 0x46 <= op <= 0x4F || 0x6A <= op <= 0x78 then Sig([I32, I32], [I32])
    else if 0x51 <= op <= 0x5A then Sig([I64, I64], [I32])
    else if 0x7C <= op <= 0x8A then Sig([I64, I64], [I64])
    else if op == 0xA7 then Sig([I64], [I32])
    else if op == 0xAC || op == 0xAD then Sig([I32], [I64])
    else if op == 0x41 then Sig([], [I32])
    else if op == 0x42 then Sig([], [I64])
    else if op == 0x28 || 0x2C <= op <= 0x2F then Sig([I32], [I32])
    else if IsLoad(op) then Sig([I32], [I64])
    else if op == 0x36 || op == 0x3A || op == 0x3B then Sig([I32, I32], [])
    else Sig([I32, I64], [])
  }

  // ----- Encoding -----

  /** n consecutive variable-length immediates fill imm exactly. */
  predicate IsImmediate(imm: seq<byte>, n: nat)
    decreases n
  {
    if n == 0 then imm == []
    else
      match Leb128.Length(imm)
      case None => false
      case Some(k) => 1 <= k <= |imm| && IsImmediate(imm[k..], n - 1)
  }

  /** Operands fit their fields. */
  ghost predicate InRange(f: FlatOp) {
    match f
    case Simple(op, imm) => IsSimple(op) && IsImmediate(imm, Immediates(op))
    case Ext(op, b) => (op == 0xF3 || op == 0xF8 || op == 0xF9) && b < W32
    case Local(op, a) => 0x20 <= op <= 0x22 && a < W32
    case Drop(_) => true
    case Select(_) => true
    case Br(l) => l < W32
    case BrIf(l) => l < W32
    case BrTable(ls) => 1 <= |ls| <= W32 && forall i :: 0 <= i < |ls| ==> ls[i] < W32
    case Call(l) => l < W32
    case Prolog(n) => n < W32
    case Ret(r, l, a) => r < W32 && l < W32 && a < W32
  }

  function Addrs(ls: seq<nat>): (s: seq<byte>)
    requires forall i :: 0 <= i < |ls| ==> ls[i] < W32
    ensures |s| == 4 * |ls|
  {
    if ls == [] then [] else Le32(ToWord(ls[0])) + Addrs(ls[1..])
  }

  ghost function Encode(f: FlatOp): (s: seq<byte>)
    requires InRange(f)
    ensures |s| == Size(f)
  {
    match f
    case Simple(op, imm) => [op] + imm
    case Ext(op, b) => [op] + Leb128.WriteU(b)
    case Local(op, a) => [op] + Leb128.WriteU(a)
    case Drop(t) => [0x1A, TypeCode(t)]
    case Select(t) => [0x1B, TypeCode(t)]
    case Br(l) => [0x0C] + Le32(ToWord(l))
    case BrIf(l) => [0x0D] + Le32(ToWord(l))
    case BrTable(ls) => [0x0E] + Leb128.WriteU(|ls| - 1) + Addrs(ls)
    case Call(l) => [0x10] + Le32(ToWord(l))
    case Prolog(n) => [0xF1] + Leb128.WriteU(n)
    case Ret(r, l, a) => [0x0F] + Leb128.WriteU(r) + Leb128.WriteU(l) + Leb128.WriteU(a)
  }

  /** Encoded length; it does not depend on the value of a label. */
  function Size(f: FlatOp): (n: nat)
    ensures n >= 1
  {
    match f
    case Simple(_, imm) => 1 + |imm|
    case Ext(_, b) => 1 + |Leb128.WriteU(b)|
    case Local(_, a) => 1 + |Leb128.WriteU(a)|
    case Drop(_) => 2
    case Select(_) => 2
    case Br(_) => 5
    case BrIf(_) => 5
    case BrTable(ls) => 1 + |Leb128.WriteU(if ls == [] then 0 else |ls| - 1)| + 4 * |ls|
    case Call(_) => 5
    case Prolog(n) => 1 + |Leb128.WriteU(n)|
    case Ret(r, l, a) => 1 + |Leb128.WriteU(r)| + |Leb128.WriteU(l)| + |Leb128.WriteU(a)|
  }

  function CodeSize(fs: seq<FlatOp>): nat {
    if fs == [] then 0 else CodeSize(fs[..|fs| - 1]) + Size(fs[|fs| - 1])
  }

  // ----- Decoding, as the processor reads its instruction stream -----

  datatype Fetched = Bad | Got(f: FlatOp, len: nat)

  function ReadU32(s: seq<byte>): Leb128.ReadResult {
    Leb128.Read(32, false, Leb128.EmulateX86, s)
  }

  function SkipImmediates(s: seq<byte>, n: nat): (r: Option<nat>)
    ensures r.Some? ==> r.value <= |s|
    decreases n
  {
    if n == 0 then Some(0)
    else
      match Leb128.Length(s)
      case None => None
      case Some(k) =>
        Leb128.LengthProps(s, k);
        match SkipImmediates(s[k..], n - 1)
        case None => None
        case Some(m) => Some(k + m)
  }

  function ReadAddrs(s: seq<byte>, n: nat): seq<nat>
    requires 4 * n <= |s|
    decreases n
  {
    if n == 0 then [] else [FromWord(WordAt(s, 0))] + ReadAddrs(s[4..], n - 1)
  }

  function DecodeU1(op: byte, s: seq<byte>): Fetched {
    match ReadU32(s)
    case Fail => Bad
    case Done(v, k, _) =>
      if op == 0xF1 then Got(Prolog(v), k + 1)
      else if 0x20 <= op <= 0x22 then Got(Local(op, v), k + 1)
      else Got(Ext(op, v), k + 1)
  }

  function DecodeAddr(op: byte, s: seq<byte>): Fetched {
    if |s| < 4 then Bad
    else
      var a := FromWord(WordAt(s, 0));
      Got(if op == 0x0C then Br(a) else if op == 0x0D then BrIf(a) else Call(a), 5)
  }

  function DecodeTable(s: seq<byte>): Fetched {
    match ReadU32(s)
    case Fail => Bad
    case Done(v, k, _) =>
      if k + 4 * (v + 1) > |s| || 4 * (v + 1) >= W32 then Bad
      else Got(BrTable(ReadAddrs(s[k..], v + 1)), 1 + k + 4 * (v + 1))
  }

  function DecodeRet(s: seq<byte>): Fetched {
    match ReadU32(s)
    case Fail => Bad
    case Done(r, k, _) =>
      if k > |s| then Bad
      else
        match ReadU32(s[k..])
        case Fail => Bad
        case Done(l, k', _) =>
          if k + k' > |s| then Bad
          else
            match ReadU32(s[k + k'..])
            case Fail => Bad
            case Done(a, k'', _) => Got(Ret(r, l, a), 1 + k + k' + k'')
  }

  function DecodeType(op: byte, s: seq<byte>): Fetched {
    if s == [] then Bad
    else
      match TypeFrom(s[0])
      case None => Bad
      case Some(t) => Got(if op == 0x1A then Drop(t) else Select(t), 2)
  }

  function Decode(s: seq<byte>): Fetched {
    if s == [] then Bad
    else
      var op, t := s[0], s[1..];
      if IsSimple(op) then
        match SkipImmediates(t, Immediates(op))
        case None => Bad
        case Some(k) => Got(Simple(op, t[..k]), k + 1)
      else if op == 0xF1 || op == 0xF3 || op == 0xF8 || op == 0xF9 || 0x20 <= op <= 0x22 then DecodeU1(op, t)
      else if op == 0x1A || op == 0x1B then DecodeType(op, t)
      else if op == 0x0C || op == 0x0D || op == 0x10 then DecodeAddr(op, t)
      else if op == 0x0E then DecodeTable(t)
      else if op == 0x0F then DecodeRet(t)
      else Bad
  }

  // ----- Decoding inverts encoding -----

  lemma ReadU32OfWriteU(x: nat, rest: seq<byte>)
    requires x < W32
    ensures ReadU32(Leb128.WriteU(x) + rest) == Leb128.Done(x, |Leb128.WriteU(x)|, false)
  {
    assert Arith.Pow2(32) == W32 by {
      Arith.Pow2Add(16, 16);
      assert Arith.Pow2(16) == 65536 by {
        Arith.Pow2Add(8, 8);
        assert Arith.Pow2(8) == 256;
      }
    }
    Leb128.WriteURoundTrip(32, Leb128.EmulateX86, x, rest);
  }

  lemma {:induction false} ReadAddrsOfAddrs(ls: seq<nat>, rest: seq<byte>)
    requires forall i :: 0 <= i < |ls| ==> ls[i] < W32
    ensures ReadAddrs(Addrs(ls) + rest, |ls|) == ls
  {
    hide ToWord, FromWord;
    if ls == [] {
    } else {
      ReadAddrsOfAddrs(ls[1..], rest);
      WordRoundTrip(ls[0]);
      var s := Addrs(ls) + rest;
      assert s == [] + Le32(ToWord(ls[0])) + (Addrs(ls[1..]) + rest);
      WordAtLe32([], ToWord(ls[0]), Addrs(ls[1..]) + rest);
      assert s[4..] == Addrs(ls[1..]) + rest;
    }
  }

  lemma {:induction false} SkipImmediateExactly(imm: seq<byte>, n: nat, rest: seq<byte>)
    requires IsImmediate(imm, n)
    ensures SkipImmediates(imm + rest, n) == Some(|imm|)
    decreases n
  {
    if n > 0 {
      var k := Leb128.Length(imm).value;
      Leb128.LengthProps(imm, k);
      Leb128.LengthProps(imm + rest, k);
      assert (imm + rest)[k..] == imm[k..] + rest;
      SkipImmediateExactly(imm[k..], n - 1, rest);
    }
  }

  lemma DecodeTableOfEncode(ls: seq<nat>, rest: seq<byte>)
    requires InRange(BrTable(ls)) && 4 * |ls| < W32
    ensures DecodeTable(Leb128.WriteU(|ls| - 1) + Addrs(ls) + rest) == Got(BrTable(ls), |Encode(BrTable(ls))|)
  {
    hide Leb128.Read, Leb128.WriteU, ReadU32, ReadAddrs, Addrs;
    var w := Leb128.WriteU(|ls| - 1);
    var s := w + Addrs(ls) + rest;
    assert s == w + (Addrs(ls) + rest);
    ReadU32OfWriteU(|ls| - 1, Addrs(ls) + rest);
    assert s[|w|..] == Addrs(ls) + rest;
    ReadAddrsOfAddrs(ls, rest);
  }

  lemma FourParts(a: seq<byte>, b: seq<byte>, c: seq<byte>, d: seq<byte>)
    ensures a + b + c + d == a + (b + (c + d))
    ensures (a + b + c + d)[|a|..] == b + (c + d)
    ensures (a + b + c + d)[|a| + |b|..] == c + d
  {
  }

  lemma DecodeRetOfEncode(r: nat, l: nat, a: nat, rest: seq<byte>)
    requires r < W32 && l < W32 && a < W32
    ensures DecodeRet(Leb128.WriteU(r) + Leb128.WriteU(l) + Leb128.WriteU(a) + rest)
            == Got(Ret(r, l, a), 1 + |Leb128.WriteU(r)| + |Leb128.WriteU(l)| + |Leb128.WriteU(a)|)
  {
    hide Leb128.WriteU, ReadU32;
    var wr, wl, wa := Leb128.WriteU(r), Leb128.WriteU(l), Leb128.WriteU(a);
    FourParts(wr, wl, wa, rest);
    ReadU32OfWriteU(r, wl + (wa + rest));
    ReadU32OfWriteU(l, wa + rest);
    ReadU32OfWriteU(a, rest);
  }

  lemma DecodeAddrOfEncode(op: byte, l: nat, rest: seq<byte>)
    requires l < W32
    ensures DecodeAddr(op, Le32(ToWord(l)) + rest)
            == Got(if op == 0x0C then Br(l) else if op == 0x0D then BrIf(l) else Call(l), 5)
  {
    WordRoundTrip(l);
    assert Le32(ToWord(l)) + rest == [] + Le32(ToWord(l)) + rest;
    WordAtLe32([], ToWord(l), rest);
  }

  lemma DecodeU1OfEncode(op: byte, n: nat, rest: seq<byte>)
    requires n < W32
    ensures DecodeU1(op, Leb128.WriteU(n) + rest) ==
            Got(if op == 0xF1 then Prolog(n) else if 0x20 <= op <= 0x22 then Local(op, n) else Ext(op, n),
                |Leb128.WriteU(n)| + 1)
  {
    hide Leb128.Read, Leb128.WriteU, ReadU32;
    ReadU32OfWriteU(n, rest);
  }

  lemma DecodeSimple(op: byte, imm: seq<byte>, rest: seq<byte>)
    requires InRange(Simple(op, imm))
    ensures Decode([op] + imm + rest) == Got(Simple(op, imm), |imm| + 1)
  {
    hide SkipImmediates, DecodeU1, DecodeTable, DecodeRet, DecodeAddr, DecodeType;
    var s := [op] + imm + rest;
    assert s[1..] == imm + rest;
    SkipImmediateExactly(imm, Immediates(op), rest);
    assert s[1..][..|imm|] == imm;
  }

  lemma DecodeTail(op: byte, t: seq<byte>)
    requires !IsSimple(op)
    ensures Decode([op] + t) ==
            if op == 0xF1 || op == 0xF3 || op == 0xF8 || op == 0xF9 || 0x20 <= op <= 0x22 then DecodeU1(op, t)
            else if op == 0x1A || op == 0x1B then DecodeType(op, t)
            else if op == 0x0C || op == 0x0D || op == 0x10 then DecodeAddr(op, t)
            else if op == 0x0E then DecodeTable(t)
            else if op == 0x0F then DecodeRet(t)
            else Bad
  {
    hide DecodeU1, DecodeTable, DecodeRet, DecodeAddr, DecodeType;
    assert ([op] + t)[1..] == t;
  }

  /** The processor reads back exactly the instruction that was written, whatever follows it. */
  lemma DecodeOfEncode(f: FlatOp, rest: seq<byte>)
    requires InRange(f)
    requires f.BrTable? ==> 4 * |f.lbls| < W32
    ensures Decode(Encode(f) + rest) == Got(f, |Encode(f)|)
  {
    hide Leb128.WriteU, Decode, DecodeTable, DecodeRet, Addrs, IsImmediate, ToWord;
    match f
    case Simple(op, imm) => DecodeSimple(op, imm, rest);
    case Ext(op, b) => DecodeU1Op(op, b, rest);
    case Local(op, a) => DecodeU1Op(op, a, rest);
    case Drop(t) => DecodeTypeOp(0x1A, t, rest);
    case Select(t) => DecodeTypeOp(0x1B, t, rest);
    case Br(l) => DecodeAddrOp(0x0C, l, rest);
    case BrIf(l) => DecodeAddrOp(0x0D, l, rest);
    case BrTable(ls) => DecodeTableOp(ls, rest);
    case Call(l) => DecodeAddrOp(0x10, l, rest);
    case Prolog(n) => DecodeU1Op(0xF1, n, rest);
    case Ret(r, l, a) => DecodeRetOp(r, l, a, rest);
  }

  lemma DecodeU1Op(op: byte, n: nat, rest: seq<byte>)
    requires op == 0xF1 || op == 0xF3 || op == 0xF8 || op == 0xF9 || 0x20 <= op <= 0x22
    requires n < W32
    ensures Decode([op] + Leb128.WriteU(n) + rest) ==
            Got(if op == 0xF1 then Prolog(n) else if 0x20 <= op <= 0x22 then Local(op, n) else Ext(op, n),
                |Leb128.WriteU(n)| + 1)
  {
    hide Decode, DecodeU1, Leb128.WriteU;
    var t := Leb128.WriteU(n) + rest;
    assert [op] + Leb128.WriteU(n) + rest == [op] + t;
    DecodeTail(op, t);
    DecodeU1OfEncode(op, n, rest);
  }

  lemma DecodeTypeOp(op: byte, ty: ValType, rest: seq<byte>)
    requires op == 0x1A || op == 0x1B
    ensures Decode([op, TypeCode(ty)] + rest) == Got(if op == 0x1A then Drop(ty) else Select(ty), 2)
  {
    hide Decode;
    assert [op, TypeCode(ty)] + rest == [op] + ([TypeCode(ty)] + rest);
    DecodeTail(op, [TypeCode(ty)] + rest);
  }

  lemma DecodeTableOp(ls: seq<nat>, rest: seq<byte>)
    requires InRange(BrTable(ls)) && 4 * |ls| < W32
    ensures Decode(Encode(BrTable(ls)) + rest) == Got(BrTable(ls), |Encode(BrTable(ls))|)
  {
    hide Decode, DecodeTable, Leb128.WriteU, Addrs;
    var t := Leb128.WriteU(|ls| - 1) + Addrs(ls) + rest;
    assert Encode(BrTable(ls)) + rest == [0x0E] + t;
    DecodeTail(0x0E, t);
    DecodeTableOfEncode(ls, rest);
  }

  lemma DecodeRetOp(r: nat, l: nat, a: nat, rest: seq<byte>)
    requires r < W32 && l < W32 && a < W32
    ensures Decode(Encode(Ret(r, l, a)) + rest) == Got(Ret(r, l, a), |Encode(Ret(r, l, a))|)
  {
    hide Decode, DecodeRet, Leb128.WriteU;
    var t := Leb128.WriteU(r) + Leb128.WriteU(l) + Leb128.WriteU(a) + rest;
    assert Encode(Ret(r, l, a)) + rest == [0x0F] + t;
    DecodeTail(0x0F, t);
    DecodeRetOfEncode(r, l, a, rest);
  }

  lemma DecodeAddrOp(op: byte, l: nat, rest: seq<byte>)
    requires op == 0x0C || op == 0x0D || op == 0x10
    requires l < W32
    ensures Decode([op] + Le32(ToWord(l)) + rest)
            == Got(if op == 0x0C then Br(l) else if op == 0x0D then BrIf(l) else Call(l), 5)
  {
    hide Decode, DecodeAddr, ToWord, FromWord;
    var t := Le32(ToWord(l)) + rest;
    assert [op] + Le32(ToWord(l)) + rest == [op] + t;
    DecodeTail(op, t);
    DecodeAddrOfEncode(op, l, rest);
  }
}
