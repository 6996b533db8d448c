/** References between contracts: each contract counts its references to a target, and the target counts the contracts that
    hold any. */
module RefsLedger {
  import opened Words
  import opened FundsLedger

  /** Per contract: references by target. Per target: number of referring contracts. Contracts that exist. */
  datatype Refs = Refs(held: seq<map<nat, nat>>, totals: map<nat, nat>, live: set<nat>) {
    /** Counters are 32-bit, and each total is exact. */
    ghost predicate Valid() {
      && (forall i, t :: 0 <= i < |held| && t in held[i] ==> 0 < held[i][t] < W32)
      && (forall t: nat :: Load(totals, t) == Holders(held, t))
    }
  }

  /** How many contracts hold a reference to t. */
  function Holders(held: seq<map<nat, nat>>, t: nat): nat {
    if held == [] then 0 else Holders(held[..|held| - 1], t) + if Load(held[|held| - 1], t) > 0 then 1 else 0
  }

  /** `HandleRefRaw` on one counter: the new value and whether it became or ceased to be zero; none if a test fails. */
  function Raw(refs: nat, add: bool): Option<(nat, bool)> {
    if add then
      var r := (refs + 1) % W32;
      if r == 0 then None else Some((r, refs == 0))
    else if refs == 0 then None
    else Some((refs - 1, refs - 1 == 0))
  }

  /** `HandleRef` of contract c on target t: the result, or none if a test fails. */
  function Handle(s: Refs, c: nat, t: nat, add: bool): Option<(Refs, nat)>
    requires c < |s.held|
  {
    var x := Raw(Load(s.held[c], t), add);
    if x.None? then None
    else
      var s1 := s.(held := s.held[c := Save(s.held[c], t, x.value.0)]);
      if !x.value.1 then Some((s1, 1))
      else if add && t !in s.live then
        var y := Raw(Load(s1.held[c], t), false);
        if y.None? then None else Some((s1.(held := s1.held[c := Save(s1.held[c], t, y.value.0)]), 0))
      else
        var y := Raw(Load(s1.totals, t), add);
        if y.None? then None else Some((s1.(totals := Save(s1.totals, t, y.value.0)), 1))
  }

  lemma {:induction false} HoldersUpdate(held: seq<map<nat, nat>>, t: nat, c: nat, m: map<nat, nat>)
    requires c < |held|
    ensures Holders(held[c := m], t) ==
      Holders(held, t) - (if Load(held[c], t) > 0 then 1 else 0) + if Load(m, t) > 0 then 1 else 0
  {
    var n := |held| - 1;
    if c == n {
      assert held[c := m][..n] == held[..n];
    } else {
      HoldersUpdate(held[..n], t, c, m);
      assert held[c := m][..n] == held[..n][c := m];
    }
  }

  lemma {:induction false} HoldersBound(held: seq<map<nat, nat>>, t: nat)
    ensures Holders(held, t) <= |held|
    ensures forall c :: 0 <= c < |held| && Load(held[c], t) > 0 ==> Holders(held, t) > 0
  {
    if held != [] {
      HoldersBound(held[..|held| - 1], t);
    }
  }

  lemma SaveValid(m: map<nat, nat>, t: nat, v: nat)
    requires v < W32 && forall k :: k in m ==> 0 < m[k] < W32
    ensures forall k :: k in Save(m, t, v) ==> 0 < Save(m, t, v)[k] < W32
  {
  }

  /** Every operation that does not stop keeps the totals exact. */
  lemma HandleKeepsExact(s: Refs, c: nat, t: nat, add: bool)
    requires s.Valid() && c < |s.held| && |s.held| < W32 && Handle(s, c, t, add).Some?
    ensures
      var (s', r) := Handle(s, c, t, add).value;
      s'.Valid() && |s'.held| == |s.held| && s'.live == s.live
  {
    hide Holders, Save, Load;
    var refs := Load(s.held[c], t);
    LoadBound(s.held[c], t);
    var x := Raw(refs, add);
    var m := Save(s.held[c], t, x.value.0);
    SaveValid(s.held[c], t, x.value.0);
    var (s', r) := Handle(s, c, t, add).value;
    SavedLoad(s.held[c], t, x.value.0, t);
    if x.value.1 && add && t !in s.live {
      Undone(s.held[c], t);
      assert s'.held == s.held;
    } else {
      forall k: nat ensures Load(s'.totals, k) == Holders(s'.held, k) {
        HoldersUpdate(s.held, k, c, m);
        SavedLoad(s.held[c], t, x.value.0, k);
        HoldersBound(s.held, k);
        if x.value.1 {
          SavedLoad(s.totals, t, Raw(Load(s.totals, t), add).value.0, k);
        }
      }
    }
  }

  lemma LoadBound(m: map<nat, nat>, t: nat)
    requires forall k :: k in m ==> 0 < m[k] < W32
    ensures Load(m, t) < W32
  {
  }

  lemma Undone(m: map<nat, nat>, t: nat)
    requires Load(m, t) == 0 && forall k :: k in m ==> m[k] > 0
    ensures Save(Save(m, t, 1), t, 0) == m
  {
  }

  /** A reference to a contract that does not exist is refused and leaves no trace. */
  lemma FailedAddLeavesNoTrace(s: Refs, c: nat, t: nat)
    requires s.Valid() && c < |s.held| && t !in s.live && Load(s.held[c], t) == 0
    ensures Handle(s, c, t, true) == Some((s, 0))
  {
    hide Holders;
    SavedLoad(s.held[c], t, 1, t);
    Undone(s.held[c], t);
    var h := s.held[c := Save(s.held[c], t, 1)];
    assert h[c := s.held[c]] == s.held;
  }

  /** A release stops only when the contract holds no reference: the total of the target is never short. */
  lemma ReleaseStopsIff(s: Refs, c: nat, t: nat)
    requires s.Valid() && c < |s.held|
    ensures Handle(s, c, t, false).None? <==> Load(s.held[c], t) == 0
  {
    hide Holders;
    HoldersBound(s.held, t);
  }

  datatype RefOp = RefOp(c: nat, t: nat, add: bool) | Live(live: set<nat>)

  /** A run of reference operations, between which contracts may come and go. */
  ghost predicate Runs(s: Refs, ops: seq<RefOp>, s': Refs)
    decreases |ops|
  {
    if ops == [] then s' == s
    else
      match ops[0]
      case Live(live) => Runs(s.(live := live), ops[1..], s')
      case RefOp(c, t, add) =>
        c < |s.held| && Handle(s, c, t, add).Some? && Runs(Handle(s, c, t, add).value.0, ops[1..], s')
  }

  /** Over every run each total is the number of contracts that hold a reference. */
  lemma {:induction false} RunKeepsExact(s: Refs, ops: seq<RefOp>, s': Refs)
    requires s.Valid() && |s.held| < W32 && Runs(s, ops, s')
    ensures s'.Valid() && forall t: nat :: Load(s'.totals, t) == Holders(s'.held, t)
    decreases |ops|
  {
    hide Handle;
    if ops != [] {
      match ops[0]
      case Live(live) =>
        RunKeepsExact(s.(live := live), ops[1..], s');
      case RefOp(c, t, add) =>
        HandleKeepsExact(s, c, t, add);
        RunKeepsExact(Handle(s, c, t, add).value.0, ops[1..], s');
    }
  }

  class Processor {
    var held: seq<map<nat, nat>>
    var totals: map<nat, nat>
    var live: set<nat>

    function Value(): Refs
      reads this
    {
      Refs(held, totals, live)
    }

    /** `HandleRefRaw` on a stored counter. */
    method HandleRefRaw(refs: nat, add: bool) returns (ok: bool, r: nat, changed: bool)
      ensures match Raw(refs, add)
              case None => !ok
              case Some(x) => ok && (r, changed) == x
    {
      r, changed := refs, false;
      if add {
        changed := r == 0;
        r := (r + 1) % W32;
        return r != 0, r, changed;
      }
      if r == 0 {
        return false, r, changed;
      }
      r := r - 1;
      return true, r, r == 0;
    }

    method HandleRef(c: nat, t: nat, add: bool) returns (ok: bool, res: nat)
      requires c < |held|
      modifies this
      ensures match Handle(old(Value()), c, t, add)
              case None => !ok
              case Some(x) => ok && (Value(), res) == x
    {
      hide Raw, Save, Load;
      res := 1;
      var refs, changed;
      ok, refs, changed := HandleRefRaw(Load(held[c], t), add);
      if !ok {
        return;
      }
      held := held[c := Save(held[c], t, refs)];
      if changed {
        if add && t !in live {
          ok, refs, changed := HandleRefRaw(Load(held[c], t), false);
          if ok {
            held := held[c := Save(held[c], t, refs)];
          }
          return ok, 0;
        }
        ok, refs, changed := HandleRefRaw(Load(totals, t), add);
        if ok {
          totals := Save(totals, t, refs);
        }
      }
    }
  }
}
