/** Linking: label operands are patched to absolute addresses, and the processor fetches what was emitted. */
module WasmLink {
  import opened Words
  import opened WasmCode
  import opened WasmCompiler
  import opened WasmLayout
  import Leb128

  // ----- Label operands -----

  function LabelsOf(f: FlatOp): seq<nat> {
    match f
    case Br(l) => [l]
    case BrIf(l) => [l]
    case BrTable(ls) => ls
    case Call(l) => [l]
    case _ => []
  }

  function Lookup(labels: seq<nat>, l: nat): nat {
    if l < |labels| then labels[l] else 0
  }

  function LookupAll(labels: seq<nat>, ls: seq<nat>): (r: seq<nat>)
    ensures |r| == |ls| && forall i :: 0 <= i < |ls| ==> r[i] == Lookup(labels, ls[i])
  {
    seq(|ls|, i requires 0 <= i < |ls| => Lookup(labels, ls[i]))
  }

  /** The instruction with its labels replaced by their addresses. */
  function Resolve(f: FlatOp, labels: seq<nat>): (g: FlatOp)
    ensures Size(g) == Size(f)
  {
    match f
    case Br(l) => FlatOp.Br(Lookup(labels, l))
    case BrIf(l) => FlatOp.BrIf(Lookup(labels, l))
    case BrTable(ls) => FlatOp.BrTable(LookupAll(labels, ls))
    case Call(l) => FlatOp.Call(Lookup(labels, l))
    case _ => f
  }

  ghost predicate AllInRange(fs: seq<FlatOp>) {
    forall i :: 0 <= i < |fs| ==> InRange(fs[i]) && (fs[i].BrTable? ==> 4 * |fs[i].lbls| < W32)
  }

  ghost predicate AddressesFit(labels: seq<nat>) {
    forall i :: 0 <= i < |labels| ==> labels[i] < W32
  }

  lemma ResolveInRange(f: FlatOp, labels: seq<nat>)
    requires InRange(f) && AddressesFit(labels)
    ensures InRange(Resolve(f, labels))
  {
  }

  ghost function EncodeAll(fs: seq<FlatOp>): (s: seq<byte>)
    requires AllInRange(fs)
    ensures |s| == CodeSize(fs)
  {
    if fs == [] then [] else EncodeAll(fs[..|fs| - 1]) + Encode(fs[|fs| - 1])
  }

  ghost function ResolveAll(fs: seq<FlatOp>, labels: seq<nat>): (gs: seq<FlatOp>)
    ensures |gs| == |fs| && forall i :: 0 <= i < |fs| ==> gs[i] == Resolve(fs[i], labels)
    ensures AllInRange(fs) && AddressesFit(labels) ==> AllInRange(gs)
  {
    var gs := seq(|fs|, i requires 0 <= i < |fs| => Resolve(fs[i], labels));
    assert AllInRange(fs) && AddressesFit(labels) ==> AllInRange(gs) by {
      if AllInRange(fs) && AddressesFit(labels) {
        forall i | 0 <= i < |fs| ensures InRange(gs[i]) && (gs[i].BrTable? ==> 4 * |gs[i].lbls| < W32) {
          ResolveInRange(fs[i], labels);
        }
      }
    }
    gs
  }

  lemma {:induction false} ResolveKeepsSize(fs: seq<FlatOp>, labels: seq<nat>)
    ensures CodeSize(ResolveAll(fs, labels)) == CodeSize(fs)
  {
    if fs != [] {
      var n := |fs| - 1;
      ResolveKeepsSize(fs[..n], labels);
      assert ResolveAll(fs, labels)[..n] == ResolveAll(fs[..n], labels);
    }
  }

  // ----- Patching -----

  /** A four-byte field of the code that awaits the address of a label. */
  datatype Site = Site(pos: nat, item: nat)

  function TableSites(ls: seq<nat>, pos: nat): seq<Site> {
    if ls == [] then [] else [Site(pos, ls[0])] + TableSites(ls[1..], pos + 4)
  }

  function SitesOf(f: FlatOp, pos: nat): seq<Site> {
    match f
    case Br(l) => [Site(pos + 1, l)]
    case BrIf(l) => [Site(pos + 1, l)]
    case BrTable(ls) => if ls == [] then [] else TableSites(ls, pos + 1 + |Leb128.WriteU(|ls| - 1)|)
    case Call(l) => [Site(pos + 1, l)]
    case _ => []
  }

  function Sites(fs: seq<FlatOp>, base: nat): seq<Site> {
    if fs == [] then []
    else Sites(fs[..|fs| - 1], base) + SitesOf(fs[|fs| - 1], base + CodeSize(fs[..|fs| - 1]))
  }

  function Write4(s: seq<byte>, pos: nat, w: Word): (r: seq<byte>)
    ensures |r| == |s|
  {
    if pos + 4 <= |s| then s[..pos] + Le32(w) + s[pos + 4..] else s
  }

  /** The patch loop at the end of the build. */
  function Patch(s: seq<byte>, sites: seq<Site>, labels: seq<nat>): (r: seq<byte>)
    requires forall i :: 0 <= i < |labels| ==> labels[i] < W32
    ensures |r| == |s|
  {
    if sites == [] then s
    else
      var n := |sites| - 1;
      Write4(Patch(s, sites[..n], labels), sites[n].pos, ToWord(Lookup(labels, sites[n].item)))
  }

  lemma PatchNothing(s: seq<byte>, labels: seq<nat>)
    requires AddressesFit(labels)
    ensures Patch(s, [], labels) == s
  {
  }

  lemma {:induction false} PatchAppend(s: seq<byte>, a: seq<Site>, b: seq<Site>, labels: seq<nat>)
    requires AddressesFit(labels)
    ensures Patch(s, a + b, labels) == Patch(Patch(s, a, labels), b, labels)
    decreases |b|
  {
    if b == [] {
      assert a + b == a;
    } else {
      var n := |b| - 1;
      assert (a + b)[..|a| + n] == a + b[..n];
      PatchAppend(s, a, b[..n], labels);
    }
  }

  lemma WriteInMiddle(pre: seq<byte>, w: Word, w': Word, post: seq<byte>)
    ensures Write4(pre + Le32(w) + post, |pre|, w') == pre + Le32(w') + post
  {
    var s := pre + Le32(w) + post;
    assert s[..|pre|] == pre;
    assert s[|pre| + 4..] == post;
  }

  lemma PatchOneSite(pre: seq<byte>, w: Word, post: seq<byte>, l: nat, labels: seq<nat>)
    requires AddressesFit(labels)
    ensures Patch(pre + Le32(w) + post, [Site(|pre|, l)], labels) ==
            pre + Le32(ToWord(Lookup(labels, l))) + post
  {
    hide ToWord, Le32, Write4;
    assert [Site(|pre|, l)][..0] == [];
    WriteInMiddle(pre, w, ToWord(Lookup(labels, l)), post);
  }

  lemma {:induction false} PatchTable(pre: seq<byte>, ls: seq<nat>, post: seq<byte>, labels: seq<nat>)
    requires AddressesFit(labels) && forall i :: 0 <= i < |ls| ==> ls[i] < W32
    ensures Patch(pre + Addrs(ls) + post, TableSites(ls, |pre|), labels) ==
            pre + Addrs(LookupAll(labels, ls)) + post
    decreases |ls|
  {
    hide ToWord, Le32, Patch;
    if ls == [] {
      PatchNothing(pre + Addrs(ls) + post, labels);
    } else {
      var w, w' := Le32(ToWord(ls[0])), Le32(ToWord(Lookup(labels, ls[0])));
      var t, t' := Addrs(ls[1..]), Addrs(LookupAll(labels, ls[1..]));
      assert LookupAll(labels, ls)[1..] == LookupAll(labels, ls[1..]);
      Regroup4(pre, w, t, post);
      Regroup4(pre, w', t, post);
      Regroup4(pre, w', t', post);
      PatchOneSite(pre, ToWord(ls[0]), t + post, ls[0], labels);
      PatchAppend(pre + Addrs(ls) + post, [Site(|pre|, ls[0])], TableSites(ls[1..], |pre| + 4), labels);
      PatchTable(pre + w', ls[1..], post, labels);
    }
  }

  lemma Regroup4(a: seq<byte>, b: seq<byte>, c: seq<byte>, d: seq<byte>)
    ensures a + (b + c) + d == a + b + (c + d)
    ensures a + b + (c + d) == (a + b) + c + d
  {
  }

  lemma PatchAddrOp(op: byte, pre: seq<byte>, l: nat, post: seq<byte>, labels: seq<nat>)
    requires AddressesFit(labels) && l < W32
    ensures Patch(pre + ([op] + Le32(ToWord(l))) + post, [Site(|pre| + 1, l)], labels) ==
            pre + ([op] + Le32(ToWord(Lookup(labels, l)))) + post
  {
    hide ToWord, Le32, Patch;
    var w, w' := ToWord(l), ToWord(Lookup(labels, l));
    assert pre + ([op] + Le32(w)) + post == (pre + [op]) + Le32(w) + post;
    PatchOneSite(pre + [op], w, post, l, labels);
    assert pre + ([op] + Le32(w')) + post == (pre + [op]) + Le32(w') + post;
  }

  lemma PatchTableOp(pre: seq<byte>, ls: seq<nat>, post: seq<byte>, labels: seq<nat>)
    requires AddressesFit(labels) && InRange(FlatOp.BrTable(ls)) && InRange(FlatOp.BrTable(LookupAll(labels, ls)))
    ensures Patch(pre + Encode(FlatOp.BrTable(ls)) + post, SitesOf(FlatOp.BrTable(ls), |pre|), labels) ==
            pre + Encode(FlatOp.BrTable(LookupAll(labels, ls))) + post
  {
    hide Patch, Leb128.WriteU, Addrs, TableSites, LookupAll;
    var h := [0x0E] + Leb128.WriteU(|ls| - 1);
    var ls' := LookupAll(labels, ls);
    Joined(pre, h, Addrs(ls), post);
    PatchTable(pre + h, ls, post, labels);
    Joined(pre, h, Addrs(ls'), post);
  }

  lemma Joined(a: seq<byte>, b: seq<byte>, c: seq<byte>, d: seq<byte>)
    ensures a + (b + c) + d == (a + b) + c + d
  {
  }

  lemma PatchOp(pre: seq<byte>, f: FlatOp, post: seq<byte>, labels: seq<nat>)
    requires AddressesFit(labels) && InRange(f)
    ensures InRange(Resolve(f, labels))
    ensures Patch(pre + Encode(f) + post, SitesOf(f, |pre|), labels) ==
            pre + Encode(Resolve(f, labels)) + post
  {
    ResolveInRange(f, labels);
    match f
    case Br(l) => PatchAddrOp(0x0C, pre, l, post, labels);
    case BrIf(l) => PatchAddrOp(0x0D, pre, l, post, labels);
    case Call(l) => PatchAddrOp(0x10, pre, l, post, labels);
    case BrTable(ls) => PatchTableOp(pre, ls, post, labels);
    case _ =>
  }

  /** Patching the emitted bytes gives the encoding of the resolved instructions, byte for byte. */
  lemma {:induction false} PatchIsResolve(hdr: seq<byte>, fs: seq<FlatOp>, tail: seq<byte>, labels: seq<nat>)
    requires AddressesFit(labels) && AllInRange(fs)
    ensures AllInRange(ResolveAll(fs, labels))
    ensures Patch(hdr + EncodeAll(fs) + tail, Sites(fs, |hdr|), labels) ==
            hdr + EncodeAll(ResolveAll(fs, labels)) + tail
    decreases |fs|
  {
    hide Resolve, Encode, SitesOf, InRange, Patch, Size, ResolveAll;
    if fs == [] {
      assert ResolveAll(fs, labels) == [];
      PatchNothing(hdr + EncodeAll(fs) + tail, labels);
    } else {
      var n := |fs| - 1;
      var f := fs[n];
      var a, g := EncodeAll(fs[..n]), ResolveAll(fs[..n], labels);
      Regrouped(hdr, a, Encode(f), tail);
      PatchIsResolve(hdr, fs[..n], Encode(f) + tail, labels);
      PatchAppend(hdr + EncodeAll(fs) + tail, Sites(fs[..n], |hdr|), SitesOf(f, |hdr| + CodeSize(fs[..n])), labels);
      ResolveKeepsSize(fs[..n], labels);
      Regrouped(hdr, EncodeAll(g), Encode(f), tail);
      PatchOp(hdr + EncodeAll(g), f, tail, labels);
      assert ResolveAll(fs, labels)[..n] == g;
      Regrouped(hdr, EncodeAll(g), Encode(Resolve(f, labels)), tail);
    }
  }

  lemma Regrouped(a: seq<byte>, b: seq<byte>, c: seq<byte>, d: seq<byte>)
    ensures a + (b + c) + d == a + b + (c + d) == (a + b) + c + d
  {
  }

  // ----- Fetching -----

  lemma {:induction false} EncodeAllAppend(a: seq<FlatOp>, b: seq<FlatOp>)
    requires AllInRange(a) && AllInRange(b)
    ensures AllInRange(a + b) && EncodeAll(a + b) == EncodeAll(a) + EncodeAll(b)
    decreases |b|
  {
    hide Encode, InRange, CodeSize;
    if b == [] {
      assert a + b == a;
    } else {
      var c, f := b[..|b| - 1], b[|b| - 1];
      InRangeAround(b, |b| - 1);
      EncodeAllAppend(a, c);
      hide EncodeAll, AllInRange;
      EncodeAllLast(a + c, f);
      EncodeAllLast(c, f);
      Around(b, |b| - 1);
      assert b == c + [f];
      assert a + b == a + c + [f];
    }
  }

  lemma EncodeAllLast(s: seq<FlatOp>, f: FlatOp)
    requires AllInRange(s) && InRange(f) && (f.BrTable? ==> 4 * |f.lbls| < W32)
    ensures AllInRange(s + [f]) && EncodeAll(s + [f]) == EncodeAll(s) + Encode(f)
  {
    hide Encode, InRange, CodeSize;
    assert (s + [f])[..|s|] == s;
  }

  /** At the address of the k-th instruction the processor fetches the k-th instruction, and goes on to the next. */
  lemma Fetch(hdr: seq<byte>, fs: seq<FlatOp>, tail: seq<byte>, k: nat)
    requires AllInRange(fs) && k < |fs|
    ensures
      var code, pos := hdr + EncodeAll(fs) + tail, |hdr| + CodeSize(fs[..k]);
      && pos < |code|
      && Decode(code[pos..]) == Got(fs[k], Size(fs[k]))
      && pos + Size(fs[k]) == |hdr| + CodeSize(fs[..k + 1])
  {
    hide Encode, InRange, Decode, EncodeAll, Size;
    var a, b := fs[..k], fs[k + 1..];
    assert fs[..k + 1][..k] == a;
    EncodeAllAt(fs, k);
    After(hdr, EncodeAll(a), Encode(fs[k]), EncodeAll(b), tail);
    DecodeOfEncode(fs[k], EncodeAll(b) + tail);
  }

  lemma InRangeAround(fs: seq<FlatOp>, k: nat)
    requires AllInRange(fs) && k < |fs|
    ensures AllInRange(fs[..k]) && AllInRange(fs[k + 1..])
    ensures InRange(fs[k]) && (fs[k].BrTable? ==> 4 * |fs[k].lbls| < W32)
  {
    hide InRange;
  }

  lemma EncodeAllAround(a: seq<FlatOp>, f: FlatOp, b: seq<FlatOp>)
    requires AllInRange(a) && AllInRange(b) && InRange(f) && (f.BrTable? ==> 4 * |f.lbls| < W32)
    ensures AllInRange(a + [f] + b) && EncodeAll(a + [f] + b) == EncodeAll(a) + Encode(f) + EncodeAll(b)
  {
    hide *;
    EncodeOne(f);
    EncodeAllAppend(a, [f]);
    EncodeAllAppend(a + [f], b);
  }

  lemma EncodeAllAt(fs: seq<FlatOp>, k: nat)
    requires AllInRange(fs) && k < |fs|
    ensures EncodeAll(fs) == EncodeAll(fs[..k]) + Encode(fs[k]) + EncodeAll(fs[k + 1..])
  {
    InRangeAround(fs, k);
    hide *;
    EncodeAllAround(fs[..k], fs[k], fs[k + 1..]);
    Around(fs, k);
  }

  lemma Around<T>(s: seq<T>, k: nat)
    requires k < |s|
    ensures s[..k] + [s[k]] + s[k + 1..] == s
  {
  }

  lemma After(hdr: seq<byte>, a: seq<byte>, e: seq<byte>, b: seq<byte>, tail: seq<byte>)
    ensures (hdr + (a + e + b) + tail)[|hdr| + |a|..] == e + (b + tail)
  {
  }

  lemma EncodeOne(f: FlatOp)
    requires InRange(f) && (f.BrTable? ==> 4 * |f.lbls| < W32)
    ensures AllInRange([f]) && EncodeAll([f]) == Encode(f)
  {
    assert [f][..0] == [];
  }

  // ----- Every label ends up at the start of an instruction -----

  ghost predicate Boundary(hdr: nat, out: seq<FlatOp>, addr: nat, last: nat) {
    exists k :: 0 <= k <= last && k <= |out| && addr == hdr + CodeSize(out[..k])
  }

  lemma BoundaryGrows(hdr: nat, a: seq<FlatOp>, b: seq<FlatOp>, addr: nat, last: nat, last': nat)
    requires Boundary(hdr, a, addr, last) && a <= b && last <= last'
    ensures Boundary(hdr, b, addr, last')
  {
    var k :| 0 <= k <= last && k <= |a| && addr == hdr + CodeSize(a[..k]);
    assert b[..k] == a[..k];
  }

  /** Block labels that no open block will still set. */
  ghost predicate LabelsPlaced(m: Module, hdr: nat, c: State) {
    forall x :: |m.funcs| <= x < |c.labels| && Settled(c, x) ==> Boundary(hdr, c.out, c.labels[x], |c.out|)
  }

  ghost predicate OperandsExist(out: seq<FlatOp>, n: nat) {
    forall i, j :: 0 <= i < |out| && 0 <= j < |LabelsOf(out[i])| ==> LabelsOf(out[i])[j] < n
  }

  /** Branches refer to open blocks, calls to functions; no other instruction has a label. */
  lemma EmittedLabels(m: Module, hdr: nat, fn: Func, c: State, ins: Instr, j: nat)
    requires c.scopes != [] && Step(m, hdr, fn, c, ins).Some? && Inv(m, fn, c)
    requires |Step(m, hdr, fn, c, ins).value.out| == |c.out| + 1
    requires j < |LabelsOf(Step(m, hdr, fn, c, ins).value.out[|c.out|])|
    ensures LabelsOf(Step(m, hdr, fn, c, ins).value.out[|c.out|])[j] < |c.labels|
  {
    if ins.Branch? || ins.BranchIf? || ins.BranchTable? {
      BranchLabels(m, fn, c, ins, j);
    } else {
      hide Func.Offset, ImmediateOk, SimpleSig, IsSimple, CodeSize, StepBranch;
    }
  }

  lemma BranchLabels(m: Module, fn: Func, c: State, ins: Instr, j: nat)
    requires ins.Branch? || ins.BranchIf? || ins.BranchTable?
    requires c.scopes != [] && StepBranch(c, ins).Some? && Inv(m, fn, c)
    requires |StepBranch(c, ins).value.out| == |c.out| + 1
    requires j < |LabelsOf(StepBranch(c, ins).value.out[|c.out|])|
    ensures LabelsOf(StepBranch(c, ins).value.out[|c.out|])[j] < |c.labels|
  {
  }

  lemma StepOperands(m: Module, hdr: nat, fn: Func, c: State, ins: Instr)
    requires c.scopes != [] && Step(m, hdr, fn, c, ins).Some? && Inv(m, fn, c) && OperandsExist(c.out, |c.labels|)
    ensures OperandsExist(Step(m, hdr, fn, c, ins).value.out, |Step(m, hdr, fn, c, ins).value.labels|)
  {
    hide Step, LabelsOf;
    var c' := Step(m, hdr, fn, c, ins).value;
    StepShape(m, hdr, fn, c, ins);
    forall i, j | 0 <= i < |c'.out| && 0 <= j < |LabelsOf(c'.out[i])|
      ensures LabelsOf(c'.out[i])[j] < |c'.labels|
    {
      if i < |c.out| {
        assert c'.out[i] == c.out[i];
      } else {
        EmittedLabels(m, hdr, fn, c, ins, j);
      }
    }
  }

  lemma StepPlaced(m: Module, hdr: nat, fn: Func, c: State, ins: Instr)
    requires c.scopes != [] && Step(m, hdr, fn, c, ins).Some? && Inv(m, fn, c) && LabelsPlaced(m, hdr, c)
    ensures LabelsPlaced(m, hdr, Step(m, hdr, fn, c, ins).value)
  {
    hide Step, CodeSize, Boundary;
    var c' := Step(m, hdr, fn, c, ins).value;
    StepShape(m, hdr, fn, c, ins);
    assert forall q :: 0 <= q < |c'.scopes| && q < |c.scopes| ==> c'.scopes[q] == c.scopes[q];
    forall x | |m.funcs| <= x < |c'.labels| && Settled(c', x)
      ensures Boundary(hdr, c'.out, c'.labels[x], |c'.out|)
    {
      if x < |c.labels| && Settled(c, x) {
        StepSettled(m, hdr, fn, c, ins, x);
        BoundaryGrows(hdr, c.out, c'.out, c.labels[x], |c.out|, |c'.out|);
      } else {
        SetHere(hdr, c.out);
        if x < |c.labels| {
          var i :| 1 <= i < |c.scopes| && c.scopes[i].lbl == x && !c.scopes[i].isLoop;
          assert i == |c.scopes| - 1;
        } else {
          assert c'.scopes[|c.scopes|].lbl == x;
        }
        assert c'.labels[x] == hdr + CodeSize(c.out);
        BoundaryGrows(hdr, c.out, c'.out, hdr + CodeSize(c.out), |c.out|, |c'.out|);
      }
    }
  }

  lemma SetHere(hdr: nat, out: seq<FlatOp>)
    ensures Boundary(hdr, out, hdr + CodeSize(out), |out|)
  {
    assert out[..|out|] == out;
  }

  lemma {:induction false} RunPlaced(m: Module, hdr: nat, fn: Func, c: State, k: nat)
    requires k <= |fn.body| && Run(m, hdr, fn, c, k).Some? && Inv(m, fn, c)
    requires LabelsPlaced(m, hdr, c) && OperandsExist(c.out, |c.labels|)
    ensures
      var c' := Run(m, hdr, fn, c, k).value;
      LabelsPlaced(m, hdr, c') && OperandsExist(c'.out, |c'.labels|)
  {
    hide Step, Inv, LabelsPlaced, OperandsExist;
    if k > 0 {
      RunPlaced(m, hdr, fn, c, k - 1);
      RunInv(m, hdr, fn, c, k - 1);
      var c' := Run(m, hdr, fn, c, k - 1).value;
      StepPlaced(m, hdr, fn, c', fn.body[k - 1]);
      StepOperands(m, hdr, fn, c', fn.body[k - 1]);
    }
  }

  /** After compiling k functions, every label that has been given a value is the start of an emitted instruction. */
  ghost predicate Placed(m: Module, hdr: nat, u: Unit, k: nat) {
    && OperandsExist(u.out, |u.labels|)
    && |m.funcs| <= |u.labels|
    && (forall x :: 0 <= x < |u.labels| && (x < k || |m.funcs| <= x) ==>
          |u.out| > 0 && Boundary(hdr, u.out, u.labels[x], |u.out| - 1))
  }

  lemma StartPlaced(m: Module, hdr: nat, f: nat, u: Unit)
    requires f < |m.funcs| && Placed(m, hdr, u, f)
    ensures
      var c := Start(m, hdr, f, u.labels, u.out);
      && Inv(m, m.funcs[f], c) && LabelsPlaced(m, hdr, c) && OperandsExist(c.out, |c.labels|)
      && u.out <= c.out && Boundary(hdr, c.out, c.labels[f], |c.out|)
      && forall x :: 0 <= x < |u.labels| && (x < f || |m.funcs| <= x) ==> Boundary(hdr, c.out, c.labels[x], |c.out|)
  {
    hide CodeSize, Boundary;
    var c := Start(m, hdr, f, u.labels, u.out);
    SetHere(hdr, u.out);
    BoundaryGrows(hdr, u.out, c.out, hdr + CodeSize(u.out), |u.out|, |c.out|);
    forall x | 0 <= x < |u.labels| && (x < f || |m.funcs| <= x)
      ensures Boundary(hdr, c.out, c.labels[x], |c.out|)
    {
      BoundaryGrows(hdr, u.out, c.out, u.labels[x], |u.out| - 1, |c.out|);
    }
  }

  lemma FunctionPlaced(m: Module, hdr: nat, f: nat, u: Unit)
    requires f < |m.funcs| && Placed(m, hdr, u, f) && CompileFunc(m, hdr, f, u).Some?
    ensures Placed(m, hdr, CompileFunc(m, hdr, f, u).value, f + 1)
  {
    hide Step, CodeSize, Boundary, Run, Start, OperandsExist;
    var fn, c := m.funcs[f], Start(m, hdr, f, u.labels, u.out);
    var n := |fn.body|;
    var e := Run(m, hdr, fn, c, n).value;
    StartPlaced(m, hdr, f, u);
    StartShape(m, hdr, f, u);
    RunPlaced(m, hdr, fn, c, n);
    LastEmits(m, hdr, fn, c);
    forall x | 0 <= x < |e.labels| && (x < f + 1 || |m.funcs| <= x)
      ensures Boundary(hdr, e.out, e.labels[x], |e.out| - 1)
    {
      var q := Run(m, hdr, fn, c, n - 1).value;
      RunInv(m, hdr, fn, c, n - 1);
      RunPlaced(m, hdr, fn, c, n - 1);
      if x < |c.labels| {
        RunGrows(m, hdr, fn, c, 0, n - 1, x);
        assert Run(m, hdr, fn, c, 0) == Some(c) by { RunZero(m, hdr, fn, c); }
        BoundaryGrows(hdr, c.out, e.out, c.labels[x], |c.out|, |e.out| - 1);
      } else {
        BoundaryGrows(hdr, q.out, e.out, q.labels[x], |q.out|, |e.out| - 1);
      }
    }
  }

  lemma StartShape(m: Module, hdr: nat, f: nat, u: Unit)
    requires f < |m.funcs| && f < |u.labels|
    ensures
      var c := Start(m, hdr, f, u.labels, u.out);
      |c.scopes| == 1 && |c.labels| == |u.labels|
  {
  }

  /** The last instruction of a body closes the function's block and emits its return. */
  lemma LastEmits(m: Module, hdr: nat, fn: Func, c: State)
    requires Run(m, hdr, fn, c, |fn.body|).Some? && Run(m, hdr, fn, c, |fn.body|).value.scopes == []
    requires |c.scopes| == 1
    ensures |fn.body| > 0
    ensures
      var q, e := Run(m, hdr, fn, c, |fn.body| - 1), Run(m, hdr, fn, c, |fn.body|).value;
      && q.Some? && |q.value.scopes| == 1
      && e.labels == q.value.labels && e.out == q.value.out + [fn.RetOp()]
  {
    hide Step, Func.RetOp;
    var n := |fn.body|;
    RunPrefix(m, hdr, fn, c, n - 1, n);
    StepShape(m, hdr, fn, Run(m, hdr, fn, c, n - 1).value, fn.body[n - 1]);
  }

  lemma {:induction false} BuildPlaced(m: Module, hdr: nat, k: nat)
    requires k <= |m.funcs| && Build(m, hdr, k).Some?
    ensures Placed(m, hdr, Build(m, hdr, k).value, k)
  {
    hide Placed, CompileFunc;
    if k == 0 {
      assert Placed(m, hdr, Build(m, hdr, 0).value, 0) by { InitialPlaced(m, hdr); }
    } else {
      BuildPlaced(m, hdr, k - 1);
      FunctionPlaced(m, hdr, k - 1, Build(m, hdr, k - 1).value);
    }
  }

  lemma InitialPlaced(m: Module, hdr: nat)
    ensures Placed(m, hdr, Unit(seq(|m.funcs|, _ => 0), []), 0)
  {
  }

  /** Every label operand of the finished code resolves to the address where some instruction starts. */
  lemma EveryTargetIsAnInstruction(m: Module, hdr: nat, i: nat, j: nat)
    requires Accepted(m, hdr) && i < |Final(m, hdr).out| && j < |LabelsOf(Final(m, hdr).out[i])|
    ensures
      var u := Final(m, hdr);
      var l := LabelsOf(u.out[i])[j];
      l < |u.labels| && exists k :: 0 <= k < |u.out| && u.labels[l] == hdr + CodeSize(u.out[..k])
  {
    hide Build;
    BuildPlaced(m, hdr, |m.funcs|);
    var u := Final(m, hdr);
    var l := LabelsOf(u.out[i])[j];
    assert Boundary(hdr, u.out, u.labels[l], |u.out| - 1);
  }

  lemma {:induction false} CodeSizeMono(fs: seq<FlatOp>, k: nat)
    requires k <= |fs|
    ensures CodeSize(fs[..k]) <= CodeSize(fs)
    decreases |fs| - k
  {
    if k == |fs| {
      assert fs[..k] == fs;
    } else {
      assert fs[..k + 1][..k] == fs[..k];
      CodeSizeMono(fs, k + 1);
    }
  }

  lemma LabelsBelowEnd(m: Module, hdr: nat)
    requires Accepted(m, hdr)
    ensures
      var u := Final(m, hdr);
      forall x :: 0 <= x < |u.labels| ==> u.labels[x] <= hdr + CodeSize(u.out)
  {
    hide Build;
    BuildPlaced(m, hdr, |m.funcs|);
    var u := Final(m, hdr);
    forall x | 0 <= x < |u.labels| ensures u.labels[x] <= hdr + CodeSize(u.out) {
      assert Boundary(hdr, u.out, u.labels[x], |u.out| - 1);
      var k :| 0 <= k <= |u.out| - 1 && k <= |u.out| && u.labels[x] == hdr + CodeSize(u.out[..k]);
      CodeSizeMono(u.out, k);
    }
  }

  // ----- The finished image -----

  /** Accepted, and every operand and address fits its 32-bit field. */
  ghost predicate Fits(m: Module, hdr: nat) {
    && Accepted(m, hdr)
    && AllInRange(Final(m, hdr).out)
    && hdr + CodeSize(Final(m, hdr).out) < W32
  }

  lemma FitsAddresses(m: Module, hdr: nat)
    requires Fits(m, hdr)
    ensures AddressesFit(Final(m, hdr).labels)
  {
    hide Build;
    LabelsBelowEnd(m, hdr);
  }

  ghost function Resolved(m: Module, hdr: nat): (fs: seq<FlatOp>)
    requires Fits(m, hdr)
    ensures AllInRange(fs)
  {
    FitsAddresses(m, hdr);
    ResolveAll(Final(m, hdr).out, Final(m, hdr).labels)
  }

  /** Header, linked code, and whatever follows it (the table of indirect functions). */
  ghost function Image(m: Module, hdr: seq<byte>, tail: seq<byte>): seq<byte>
    requires Fits(m, |hdr|)
  {
    hdr + EncodeAll(Resolved(m, |hdr|)) + tail
  }

  /** What the build writes and then patches is the image. */
  lemma PatchedImage(m: Module, hdr: seq<byte>, tail: seq<byte>)
    requires Fits(m, |hdr|)
    ensures AddressesFit(Final(m, |hdr|).labels)
    ensures
      var u := Final(m, |hdr|);
      Patch(hdr + EncodeAll(u.out) + tail, Sites(u.out, |hdr|), u.labels) == Image(m, hdr, tail)
  {
    hide Build, Patch;
    FitsAddresses(m, |hdr|);
    PatchIsResolve(hdr, Final(m, |hdr|).out, tail, Final(m, |hdr|).labels);
  }

  /** Executing at the address of an emitted instruction executes that instruction, with its labels resolved. */
  lemma FetchAt(m: Module, hdr: seq<byte>, tail: seq<byte>, k: nat)
    requires Fits(m, |hdr|) && k < |Final(m, |hdr|).out|
    ensures
      var u, code := Final(m, |hdr|), Image(m, hdr, tail);
      var pos := |hdr| + CodeSize(u.out[..k]);
      && pos < |code|
      && Decode(code[pos..]) == Got(Resolve(u.out[k], u.labels), Size(u.out[k]))
      && pos + Size(u.out[k]) == |hdr| + CodeSize(u.out[..k + 1])
  {
    hide Build, Decode, Encode, InRange, EncodeAll, CodeSize, Resolve, Size;
    var u := Final(m, |hdr|);
    FitsAddresses(m, |hdr|);
    var fs := Resolved(m, |hdr|);
    Fetch(hdr, fs, tail, k);
    ResolveSize(u.out[k], u.labels);
    ResolvedPrefix(u.out, u.labels, k);
    ResolvedPrefix(u.out, u.labels, k + 1);
    hide ResolveAll;
    ResolveKeepsSize(u.out[..k], u.labels);
    ResolveKeepsSize(u.out[..k + 1], u.labels);
  }

  lemma ResolveSize(f: FlatOp, labels: seq<nat>)
    ensures Size(Resolve(f, labels)) == Size(f)
  {
  }

  lemma ResolvedPrefix(fs: seq<FlatOp>, labels: seq<nat>, k: nat)
    requires k <= |fs|
    ensures ResolveAll(fs, labels)[..k] == ResolveAll(fs[..k], labels)
  {
    hide Resolve;
  }
}
