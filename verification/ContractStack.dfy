/** The processor's stack object, with its word buffer updated in place. Every method performs the register operation of
    the same name, and on operands does what the flat machine of the compiler's simulation theorem does. */
module ContractStack {
  import opened Words
  import opened WasmMachine
  import opened StackFrames

  // ----- The register operations, seen from the operands -----

  lemma PushOperands(r: Regs, w: Word)
    requires r.Ok() && Push1(r, w).Some?
    ensures Push1(r, w).value.Ok() && Push1(r, w).value.Operands() == r.Operands() + [w]
  {
    PushContained(r, w);
  }

  lemma BlitAt(mem: seq<Word>, d: nat, w: seq<Word>, i: nat)
    requires d + |w| <= |mem| && i < |mem|
    ensures Blit(mem, d, w)[i] == if d <= i < d + |w| then w[i - d] else mem[i]
  {
  }

  lemma ReadLocalAt(stk: seq<Word>, off: nat, n: nat, i: nat)
    requires n <= off <= |stk| && i < |stk| + n
    ensures |ReadLocal(stk, off, n)| == |stk| + n
    ensures ReadLocal(stk, off, n)[i] == if i < |stk| then stk[i] else stk[i - off]
  {
  }

  lemma WriteLocalAt(stk: seq<Word>, off: nat, n: nat, keep: bool, i: nat)
    requires n <= off <= |stk| && i < |stk| - if keep then 0 else n
    ensures |WriteLocal(stk, off, n, keep)| == |stk| - if keep then 0 else n
    ensures WriteLocal(stk, off, n, keep)[i] ==
            if |stk| - off <= i < |stk| - off + n then stk[i + off - n] else stk[i]
  {
    var d := |stk| - off;
    var s := stk[..d] + stk[|stk| - n..] + stk[d + n..];
    assert |s| == |stk|;
    assert s[i] == if d <= i < d + n then stk[i + off - n] else stk[i];
  }

  lemma SelectedAt(stk: seq<Word>, n: nat, i: nat)
    requires 2 * n + 1 <= |stk| && i < |stk| - 1 - n
    ensures |Selected(stk, n)| == |stk| - 1 - n
    ensures
      var top := |stk| - 1;
      Selected(stk, n)[i] == if i < top - 2 * n || stk[top] != ZERO_WORD then stk[i] else stk[i + n]
  {
  }

  lemma ReturnedAt(stk: seq<Word>, rets: nat, k: nat, i: nat)
    requires rets + k <= |stk| && i < |stk| - k
    ensures
      var t := stk[..|stk| - rets - k] + stk[|stk| - rets..];
      |t| == |stk| - k && t[i] == if i < |stk| - rets - k then stk[i] else stk[i + k]
  {
  }

  lemma GetOperands(r: Regs, off: nat, n: nat)
    requires r.Ok() && n <= off <= |r.Operands()| && GetLocal(r, off, n).Some?
    ensures GetLocal(r, off, n).value.Ok()
    ensures GetLocal(r, off, n).value.Operands() == ReadLocal(r.Operands(), off, n)
  {
    hide Blit, ReadLocal;
    LocalsContained(r, off, n, true);
    var r', d := GetLocal(r, off, n).value, r.pos - off;
    var l, t := r'.Operands(), ReadLocal(r.Operands(), off, n);
    assert |t| == |l| by { ReadLength(r.Operands(), off, n); }
    forall i | 0 <= i < |l| ensures l[i] == t[i] {
      ReadLocalAt(r.Operands(), off, n, i);
      BlitAt(r.mem, r.pos, r.mem[d..d + n], r.posMin + i);
    }
  }

  lemma SetOperands(r: Regs, off: nat, n: nat, keep: bool)
    requires r.Ok() && n <= off <= |r.Operands()|
    ensures SetLocal(r, off, n, keep).Some? && SetLocal(r, off, n, keep).value.Ok()
    ensures SetLocal(r, off, n, keep).value.Operands() == WriteLocal(r.Operands(), off, n, keep)
  {
    hide Blit, WriteLocal;
    LocalsContained(r, off, n, keep);
    var r', d := SetLocal(r, off, n, keep).value, r.pos - off;
    var l, t := r'.Operands(), WriteLocal(r.Operands(), off, n, keep);
    assert |t| == |l| by { WriteLength(r.Operands(), off, n, keep); }
    forall i | 0 <= i < |l| ensures l[i] == t[i] {
      WriteLocalAt(r.Operands(), off, n, keep, i);
      BlitAt(r.mem, d, r.mem[r.pos - n..r.pos], r.posMin + i);
    }
  }

  lemma ReadLength(stk: seq<Word>, off: nat, n: nat)
    requires n <= off <= |stk|
    ensures |ReadLocal(stk, off, n)| == |stk| + n
  {
  }

  lemma WriteLength(stk: seq<Word>, off: nat, n: nat, keep: bool)
    requires n <= off <= |stk|
    ensures |WriteLocal(stk, off, n, keep)| == |stk| - if keep then 0 else n
  {
  }

  lemma SelectOperands(r: Regs, n: nat)
    requires r.Ok() && 2 * n + 1 <= |r.Operands()|
    ensures SelectWords(r, n).Some? && SelectWords(r, n).value.Ok()
    ensures SelectWords(r, n).value.Operands() == Selected(r.Operands(), n)
  {
    hide Blit, Selected, Contained;
    assert SelectWords(r, n).Some?;
    SelectContained(r, n);
    assert SelectWords(r, n).value.Ok() by { ContainedOk(r, SelectWords(r, n).value); }
    SelectCore(r.mem, r.posMin, r.pos, n);
  }

  lemma ContainedOk(r: Regs, r': Regs)
    requires Contained(r, r')
    ensures r'.Ok()
  {
  }

  lemma SelectCore(mem: seq<Word>, p: nat, q: nat, n: nat)
    requires p + 2 * n + 1 <= q <= |mem|
    ensures
      var top := q - 1;
      var mem' := if mem[top] != ZERO_WORD then mem else Blit(mem, top - 2 * n, mem[top - n..top]);
      mem'[p..top - n] == Selected(mem[p..q], n)
  {
    hide Blit, Selected;
    var top, stk := q - 1, mem[p..q];
    var mem' := if mem[top] != ZERO_WORD then mem else Blit(mem, top - 2 * n, mem[top - n..top]);
    var l, t := mem'[p..top - n], Selected(stk, n);
    SelectLength(stk, n);
    forall i | 0 <= i < |l| ensures l[i] == t[i] {
      SelectedAt(stk, n, i);
      BlitAt(mem, top - 2 * n, mem[top - n..top], p + i);
    }
  }

  lemma SelectLength(stk: seq<Word>, n: nat)
    requires 2 * n + 1 <= |stk|
    ensures |Selected(stk, n)| == |stk| - 1 - n
  {
  }

  lemma ReturnOperands(r: Regs, rets: nat, locals: nat, args: nat)
    requires r.Ok() && rets + locals + 1 + args <= |r.Operands()|
    ensures ReturnWords(r, rets, locals, args).Some? && ReturnWords(r, rets, locals, args).value.1.Ok()
    ensures
      var stk := r.Operands();
      var (w, r') := ReturnWords(r, rets, locals, args).value;
      w == stk[|stk| - rets - locals - 1] && r'.Operands() == Returned(stk, rets, locals, args)
  {
    hide Blit, Contained, Returned;
    ReturnContained(r, rets, locals, args);
    var (w, r') := ReturnWords(r, rets, locals, args).value;
    assert r'.Ok() by { ContainedOk(r, r'); }
    ReturnCore(r.mem, r.posMin, r.pos, rets, locals, args);
  }

  lemma Bounds(r: Regs)
    requires r.Ok()
    ensures r.posMin <= r.pos <= |r.mem| && r.pos < W32 && |r.Operands()| == r.pos - r.posMin
  {
  }

  lemma ReturnWordsSome(r: Regs, rets: nat, locals: nat, args: nat)
    requires r.posMin <= r.pos <= |r.mem|
    ensures ReturnWords(r, rets, locals, args).Some? <==> r.posMin + rets + locals + 1 + args <= r.pos
    ensures ReturnWords(r, rets, locals, args).Some? ==>
      var dst := r.pos - rets - locals - 1 - args;
      ReturnWords(r, rets, locals, args).value ==
        (r.mem[r.pos - rets - locals - 1], r.(mem := Blit(r.mem, dst, r.mem[r.pos - rets..r.pos]), pos := dst + rets))
  {
    hide Blit;
  }

  /** The tests after each 32-bit subtraction pass exactly when none of them wraps. */
  lemma RetWrap(pos: nat, posMin: nat, rets: nat, locals: nat, args: nat)
    requires pos < W32 && rets < W32 && locals < W32 && args < W32
    ensures
      var src := (pos - rets) % W32;
      var addr := (src - (locals + 1) % W32) % W32;
      var dst := (addr - args) % W32;
      && (src <= pos && addr < src && dst <= addr && dst >= posMin <==> posMin + rets + locals + 1 + args <= pos)
      && (posMin + rets + locals + 1 + args <= pos ==>
            src == pos - rets && addr == pos - rets - locals - 1 && dst == pos - rets - locals - 1 - args)
  {
    SubWrap(pos, rets);
    var src := (pos - rets) % W32;
    SubWrap(src, (locals + 1) % W32);
    var addr := (src - (locals + 1) % W32) % W32;
    SubWrap(addr, args);
  }

  lemma SubWrap(a: nat, b: nat)
    requires a < W32 && b < W32
    ensures (a - b) % W32 == if b <= a then a - b else a - b + W32
  {
  }

  lemma ReturnCore(mem: seq<Word>, p: nat, q: nat, rets: nat, locals: nat, args: nat)
    requires p + rets + locals + 1 + args <= q <= |mem|
    ensures
      var dst := q - rets - locals - 1 - args;
      Blit(mem, dst, mem[q - rets..q])[p..dst + rets] == Returned(mem[p..q], rets, locals, args)
  {
    hide Blit;
    var dst, stk := q - rets - locals - 1 - args, mem[p..q];
    var l, t := Blit(mem, dst, mem[q - rets..q])[p..dst + rets], Returned(stk, rets, locals, args);
    forall i | 0 <= i < |l| ensures l[i] == t[i] {
      ReturnedAt(stk, rets, locals + 1 + args, i);
      BlitAt(mem, dst, mem[q - rets..q], p + i);
    }
  }

  lemma BlitByIndex(mem: seq<Word>, mem': seq<Word>, dst: nat, src: nat, n: nat)
    requires |mem'| == |mem| && dst + n <= |mem| && src + n <= |mem|
    requires forall k :: dst <= k < dst + n ==> mem'[k] == mem[k - dst + src]
    requires forall k :: 0 <= k < |mem| && (k < dst || dst + n <= k) ==> mem'[k] == mem[k]
    ensures mem' == Blit(mem, dst, mem[src..src + n])
  {
    var b := Blit(mem, dst, mem[src..src + n]);
    forall k | 0 <= k < |mem| ensures mem'[k] == b[k] {
    }
  }

  // ----- The object -----

  class Stack {
    var ptr: array<Word>
    var pos: nat
    var posMin: nat
    var bytesMax: nat
    var bytesCurrent: nat

    ghost function Model(): Regs
      reads this, ptr
    {
      Regs(ptr[..], pos, posMin, bytesMax, bytesCurrent)
    }

    ghost predicate Valid()
      reads this, ptr
    {
      Model().Ok()
    }

    /** `InitBase`: an empty stack of n bytes. */
    constructor (n: nat)
      requires n + 3 < REGION
      ensures Valid() && fresh(ptr) && pos == posMin == 0 && bytesMax == bytesCurrent == n
    {
      ptr := new Word[(n + 3) / 4](_ => ZERO_WORD);
      pos, posMin, bytesMax, bytesCurrent := 0, 0, n, n;
    }

    method Pop() returns (w: Option<Word>)
      requires Valid()
      modifies this`pos
      ensures Valid()
      ensures w.Some? <==> Pop1(old(Model())).Some?
      ensures w.Some? ==> Pop1(old(Model())) == Some((w.value, Model()))
      ensures w.None? ==> pos == old(pos)
    {
      if pos <= posMin {
        return None;
      }
      pos := pos - 1;
      return Some(ptr[pos]);
    }

    method Push(w: Word) returns (ok: bool)
      requires Valid()
      modifies this`pos, ptr
      ensures Valid()
      ensures ok <==> Push1(old(Model()), w).Some?
      ensures ok ==> Push1(old(Model()), w) == Some(Model()) && Model().Operands() == old(Model().Operands()) + [w]
      ensures !ok ==> Model() == old(Model())
    {
      if pos >= bytesCurrent / 4 {
        return false;
      }
      PushContained(Model(), w);
      PushOperands(Model(), w);
      ptr[pos] := w;
      pos := pos + 1;
      assert ptr[..] == old(ptr[..])[old(pos) := w];
      return true;
    }

    /** Copy n words within the buffer, lowest first; the destination does not lie above the source, or lies past it. */
    method Copy(dst: nat, src: nat, n: nat)
      requires dst + n <= ptr.Length && src + n <= ptr.Length
      requires dst <= src || src + n <= dst
      modifies ptr
      ensures ptr[..] == Blit(old(ptr[..]), dst, old(ptr[src..src + n]))
    {
      hide Blit;
      ghost var was := ptr[..];
      for i := 0 to n
        invariant forall k :: dst <= k < dst + i ==> ptr[k] == was[k - dst + src]
        invariant forall k :: src + i <= k < src + n ==> ptr[k] == was[k]
        invariant forall k :: 0 <= k < ptr.Length && (k < dst || dst + n <= k) ==> ptr[k] == was[k]
      {
        ptr[dst + i] := ptr[src + i];
      }
      BlitByIndex(was, ptr[..], dst, src, n);
    }

    /** `OnLocal`: read, write or tee a local of n words at the given distance. */
    method OnLocal(off: nat, n: nat, bSet: bool, bGet: bool) returns (ok: bool)
      requires Valid() && (bSet || bGet)
      modifies this`pos, ptr
      ensures Valid()
      ensures
        var s := if bSet then SetLocal(old(Model()), off, n, bGet) else GetLocal(old(Model()), off, n);
        (ok <==> s.Some?) && (ok ==> s == Some(Model()))
      ensures ok && bSet ==> Model().Operands() == WriteLocal(old(Model().Operands()), off, n, bGet)
      ensures ok && !bSet ==> Model().Operands() == ReadLocal(old(Model().Operands()), off, n)
      ensures !ok ==> Model() == old(Model())
    {
      hide Blit, ReadLocal, WriteLocal;
      if off < n || off > pos - posMin {
        return false;
      }
      if bSet {
        SetOperands(Model(), off, n, bGet);
        Copy(pos - off, pos - n, n);
        if !bGet {
          pos := pos - n;
        }
      } else {
        if pos + n > bytesCurrent / 4 {
          return false;
        }
        GetOperands(Model(), off, n);
        Copy(pos, pos - off, n);
        pos := pos + n;
      }
      return true;
    }

    method OnSelect(n: nat) returns (ok: bool)
      requires Valid()
      modifies this`pos, ptr
      ensures Valid() || !ok
      ensures ok <==> SelectWords(old(Model()), n).Some?
      ensures ok ==> SelectWords(old(Model()), n) == Some(Model())
      ensures ok ==> Model().Operands() == Selected(old(Model().Operands()), n)
    {
      hide Blit, Selected;
      ghost var r := Model();
      var sel := Pop();
      if sel.None? || pos - posMin < 2 * n {
        return false;
      }
      SelectOperands(r, n);
      pos := pos - n;
      if sel.value == ZERO_WORD {
        Copy(pos - n, pos, n);
      }
      return true;
    }

    /** `On_ret`, with the 32-bit subtractions and the tests that catch their wrap-around. */
    method OnRet(rets: u32, locals: u32, args: u32) returns (w: Option<Word>)
      requires Valid()
      modifies this`pos, ptr
      ensures Valid()
      ensures w.Some? <==> ReturnWords(old(Model()), rets, locals, args).Some?
      ensures w.Some? ==> ReturnWords(old(Model()), rets, locals, args) == Some((w.value, Model()))
      ensures w.Some? ==> Model().Operands() == Returned(old(Model().Operands()), rets, locals, args)
      ensures w.None? ==> Model() == old(Model())
    {
      hide Blit, Returned, Regs.Ok, Regs.Operands;
      Bounds(Model());
      ReturnWordsSome(Model(), rets, locals, args);
      RetWrap(pos, posMin, rets, locals, args);
      hide ReturnWords;
      var src := (pos - rets) % W32;
      if src > pos {
        return None;
      }
      var addr := (src - (locals + 1) % W32) % W32;
      if addr >= src {
        return None;
      }
      var dst := (addr - args) % W32;
      if dst > addr || dst < posMin {
        return None;
      }
      ReturnOperands(Model(), rets, locals, args);
      w := Some(ptr[addr]);
      Copy(dst, src, rets);
      pos := dst + rets;
    }

    /** The memory stack: allocation, release and direct assignment of its pointer. */
    method MoveSp(a: Action) returns (ok: bool)
      requires Valid() && (a.DoAlloc? || a.DoFree? || a.DoSetSp?)
      modifies this`bytesCurrent
      ensures
        var r := if a.DoAlloc? then AliasAlloc(old(Model()), a.size)
                 else if a.DoFree? then AliasFree(old(Model()), a.size) else SetSp(old(Model()), a.x);
        (ok <==> r.Some?) && (ok ==> Valid() && r == Some(Model()))
    {
      match a {
        case DoAlloc(n) =>
          SpContained(Model(), n, 0);
          if AlignUp(n) > bytesCurrent {
            return false;
          }
          bytesCurrent := bytesCurrent - AlignUp(n);
        case DoFree(n) =>
          SpContained(Model(), n, 0);
          bytesCurrent := (bytesCurrent + AlignUp(n)) % W32;
          if AlignUp(n) > bytesCurrent {
            return false;
          }
        case DoSetSp(x) =>
          SpContained(Model(), 0, x);
          if AlignUp(x) != x || x / REGION != STACK_REGION {
            return false;
          }
          bytesCurrent := x % REGION;
      }
      return bytesCurrent <= bytesMax && pos <= bytesCurrent / 4;
    }

    /** A memory store that lands on the stack. */
    method StoreStack(off: nat, bytes: seq<byte>) returns (ok: bool)
      requires Valid()
      modifies ptr
      ensures Valid()
      ensures ok <==> Store(old(Model()), off, bytes).Some?
      ensures ok ==> Store(old(Model()), off, bytes) == Some(Model())
      ensures !ok ==> Model() == old(Model())
    {
      if off < bytesCurrent && pos > off / 4 {
        return false;
      }
      if off > bytesMax || |bytes| > bytesMax - off {
        return false;
      }
      StoreContained(Model(), off, bytes);
      ghost var was := ptr[..];
      for i := 0 to |bytes|
        invariant ptr[..] == WriteBytes(was, off, bytes[..i])
      {
        var k := off + i;
        ptr[k / 4] := WithByte(ptr[k / 4], k % 4, bytes[i]);
        assert bytes[..i + 1][..i] == bytes[..i];
      }
      assert bytes[..|bytes|] == bytes;
      return true;
    }
  }
}
