/** The funds of contracts: amounts locked per contract and asset, the net flow of a transaction, asset deposits. */
module FundsLedger {
  import opened Words

  /** Amounts are 64-bit, sums of them 128-bit. */
  const W64: nat := 0x1_0000_0000_0000_0000
  const W128: nat := 0x1_0000_0000_0000_0000_0000_0000_0000_0000

  type Amount = x: nat | x < W64

  /** Deposit for an asset in the list, in the base asset 0. */
  const DEPOSIT: nat := 3000 * 100_000_000

  // ----- Maps without zero entries -----

  function Load(m: map<nat, nat>, k: nat): nat {
    if k in m then m[k] else 0
  }

  /** A zero value is stored as no entry. */
  function Save(m: map<nat, nat>, k: nat, v: nat): map<nat, nat> {
    if v == 0 then m - {k} else m[k := v]
  }

  lemma SavedLoad(m: map<nat, nat>, k: nat, v: nat, k': nat)
    ensures Load(Save(m, k, v), k') == if k' == k then v else Load(m, k')
  {
  }

  // ----- State and operations -----

  /** Per contract: locked amounts by asset, and assets owned. For the transaction: net flow by asset, modulo 2^128. */
  datatype Ledger = Ledger(locked: seq<map<nat, nat>>, owned: seq<set<nat>>, funds: map<nat, nat>) {
    ghost predicate Valid() {
      && |locked| == |owned|
      && (forall i, a :: 0 <= i < |locked| && a in locked[i] ==> 0 < locked[i][a] < W128)
      && (forall a :: a in funds ==> 0 < funds[a] < W128)
    }
  }

  /** `HandleAmountInner`; a failed test stops the contract. */
  function Inner(s: Ledger, c: nat, amount: nat, aid: nat, lock: bool): Option<Ledger>
    requires c < |s.locked|
  {
    var val0 := Load(s.locked[c], aid);
    if lock then
      var val := (val0 + amount) % W128;
      if val < amount then None else Some(s.(locked := s.locked[c := Save(s.locked[c], aid, val)]))
    else if val0 < amount then None
    else Some(s.(locked := s.locked[c := Save(s.locked[c], aid, val0 - amount)]))
  }

  /** `FundsChangeMap::Add` */
  function Flow(m: map<nat, nat>, amount: nat, aid: nat, spend: bool): map<nat, nat> {
    if amount == 0 then m
    else
      var v := if spend then W128 - amount % W128 else amount;
      Save(m, aid, (Load(m, aid) + v) % W128)
  }

  /** `HandleAmountOuter`: flows count only where a transaction is validated or built. */
  function Outer(s: Ledger, tracked: bool, amount: nat, aid: nat, lock: bool): Ledger {
    if tracked then s.(funds := Flow(s.funds, amount, aid, lock)) else s
  }

  /** Operations of contract c, with what the host answered: the new asset, whether an emission or removal went through. */
  datatype Op =
    | Funds(c: nat, amount: nat, aid: nat, lock: bool)
    | AssetCreate(c: nat, aid: nat)
    | AssetEmit(c: nat, amount: nat, aid: nat, emit: bool, done: bool)
    | AssetDestroy(c: nat, aid: nat, done: bool)

  /** What callers and the host keep to: 64-bit amounts, no asset given out twice. */
  ghost predicate Proper(s: Ledger, op: Op) {
    && op.c < |s.locked|
    && ((op.Funds? || op.AssetEmit?) ==> op.amount < W64)
    && (op.AssetCreate? ==> forall i :: 0 <= i < |s.owned| ==> op.aid !in s.owned[i])
  }

  function Apply(s: Ledger, tracked: bool, op: Op): Option<Ledger>
    requires op.c < |s.locked| == |s.owned|
  {
    match op
    case Funds(c, amount, aid, lock) =>
      var x := Inner(s, c, amount, aid, lock);
      if x.None? then None else Some(Outer(x.value, tracked, amount, aid, lock))
    case AssetCreate(c, aid) =>
      if aid == 0 then Some(s)
      else
        var x := Outer(s, tracked, DEPOSIT, 0, true);
        Some(x.(owned := x.owned[c := x.owned[c] + {aid}]))
    case AssetEmit(c, amount, aid, emit, done) =>
      if aid !in s.owned[c] || amount >= W64 / 2 then None
      else if !done then Some(s)
      else Inner(s, c, amount, aid, emit)
    case AssetDestroy(c, aid, done) =>
      if aid !in s.owned[c] then None
      else if !done then Some(s)
      else
        var x := Outer(s, tracked, DEPOSIT, 0, false);
        Some(x.(owned := x.owned[c := x.owned[c] - {aid}]))
  }

  // ----- Totals -----

  function TotalLocked(locked: seq<map<nat, nat>>, aid: nat): nat {
    if locked == [] then 0 else TotalLocked(locked[..|locked| - 1], aid) + Load(locked[|locked| - 1], aid)
  }

  function TotalOwned(owned: seq<set<nat>>): nat {
    if owned == [] then 0 else TotalOwned(owned[..|owned| - 1]) + |owned[|owned| - 1]|
  }

  lemma {:induction false} TotalLockedUpdate(locked: seq<map<nat, nat>>, aid: nat, c: nat, m: map<nat, nat>)
    requires c < |locked|
    ensures TotalLocked(locked[c := m], aid) == TotalLocked(locked, aid) - Load(locked[c], aid) + Load(m, aid)
  {
    var n := |locked| - 1;
    if c == n {
      assert locked[c := m][..n] == locked[..n];
    } else {
      TotalLockedUpdate(locked[..n], aid, c, m);
      assert locked[c := m][..n] == locked[..n][c := m];
    }
  }

  lemma {:induction false} TotalOwnedUpdate(owned: seq<set<nat>>, c: nat, m: set<nat>)
    requires c < |owned|
    ensures TotalOwned(owned[c := m]) == TotalOwned(owned) - |owned[c]| + |m|
  {
    var n := |owned| - 1;
    if c == n {
      assert owned[c := m][..n] == owned[..n];
    } else {
      TotalOwnedUpdate(owned[..n], c, m);
      assert owned[c := m][..n] == owned[..n][c := m];
    }
  }

  /** Locked in all contracts, in the flow, and for the base asset in deposits. */
  function Holdings(s: Ledger, aid: nat): nat {
    TotalLocked(s.locked, aid) + Load(s.funds, aid) + if aid == 0 then DEPOSIT * TotalOwned(s.owned) else 0
  }

  /** What an operation emits of an asset. */
  function Emission(op: Op, aid: nat): int {
    if op.AssetEmit? && op.done && op.aid == aid then (if op.emit then op.amount else -(op.amount as int)) else 0
  }

  // ----- Conservation -----

  /** x and y agree modulo 2^128. */
  ghost predicate Same(x: int, y: int) {
    exists t: int :: x == y + t * W128
  }

  lemma SameAs(x: int, y: int, t: int)
    requires x == y + t * W128
    ensures Same(x, y)
  {
  }

  lemma SameChain(x: int, y: int, z: int, d: int)
    requires Same(x, y + d) && Same(y, z)
    ensures Same(x, z + d)
  {
    var t :| x == y + d + t * W128;
    var u :| y == z + u * W128;
    SameAs(x, z + d, t + u);
  }

  lemma Reduced(x: nat) returns (t: int)
    ensures x % W128 == x + t * W128
  {
    t := -((x / W128) as int);
  }

  lemma FlowChange(m: map<nat, nat>, amount: nat, aid: nat, spend: bool, k: nat) returns (t: int)
    requires amount < W128
    ensures Load(Flow(m, amount, aid, spend), k) ==
      Load(m, k) + (if k == aid then (if spend then -(amount as int) else amount) else 0) + t * W128
  {
    t := 0;
    if amount != 0 {
      var v := if spend then W128 - amount % W128 else amount;
      var sum := (Load(m, aid) + v) % W128;
      SavedLoad(m, aid, sum, k);
      if k == aid {
        t := Reduced(Load(m, aid) + v);
        if spend {
          t := t + 1;
        }
      }
    }
  }

  lemma InnerChange(s: Ledger, c: nat, amount: nat, aid: nat, lock: bool, k: nat)
    requires s.Valid() && c < |s.locked| && amount < W64 && Inner(s, c, amount, aid, lock).Some?
    ensures
      var s' := Inner(s, c, amount, aid, lock).value;
      && s'.Valid() && s'.owned == s.owned && s'.funds == s.funds && |s'.locked| == |s.locked|
      && TotalLocked(s'.locked, k) ==
           TotalLocked(s.locked, k) + if k == aid then (if lock then amount else -(amount as int)) else 0
  {
    hide TotalLocked, Load, Save;
    var val0 := Load(s.locked[c], aid);
    LoadFits(s.locked[c], aid);
    var v := if lock then (val0 + amount) % W128 else val0 - amount;
    if lock {
      Unwrapped(val0, amount);
    }
    var m := Save(s.locked[c], aid, v);
    SaveFits(s.locked[c], aid, v);
    SavedLoad(s.locked[c], aid, v, k);
    TotalLockedUpdate(s.locked, k, c, m);
  }

  lemma LoadFits(m: map<nat, nat>, k: nat)
    requires forall a :: a in m ==> 0 < m[a] < W128
    ensures Load(m, k) < W128
  {
  }

  lemma SaveFits(m: map<nat, nat>, k: nat, v: nat)
    requires (forall a :: a in m ==> 0 < m[a] < W128) && v < W128
    ensures var m' := Save(m, k, v); forall a :: a in m' ==> 0 < m'[a] < W128
  {
  }

  /** The overflow test catches every wrap. */
  lemma Unwrapped(val0: nat, amount: nat)
    requires val0 < W128 && amount < W64 && (val0 + amount) % W128 >= amount
    ensures (val0 + amount) % W128 == val0 + amount
  {
  }

  lemma OuterChange(s: Ledger, amount: nat, aid: nat, lock: bool, k: nat) returns (t: int)
    requires s.Valid() && amount < W64
    ensures
      var s' := Outer(s, true, amount, aid, lock);
      && s'.Valid() && s'.locked == s.locked && s'.owned == s.owned
      && Load(s'.funds, k) == Load(s.funds, k) + (if k == aid then (if lock then -(amount as int) else amount) else 0) + t * W128
  {
    t := FlowChange(s.funds, amount, aid, lock, k);
    FlowValid(s.funds, amount, aid, lock);
  }

  lemma FlowValid(m: map<nat, nat>, amount: nat, aid: nat, spend: bool)
    requires forall a :: a in m ==> 0 < m[a] < W128
    ensures var m' := Flow(m, amount, aid, spend); forall a :: a in m' ==> 0 < m'[a] < W128
  {
  }

  /** One operation changes the holdings of an asset by what it emits, modulo 2^128. */
  lemma ApplyConserves(s: Ledger, op: Op, k: nat)
    requires s.Valid() && Proper(s, op) && Apply(s, true, op).Some?
    ensures
      var s' := Apply(s, true, op).value;
      s'.Valid() && |s'.locked| == |s.locked| && Same(Holdings(s', k), Holdings(s, k) + Emission(op, k))
  {
    hide Inner, Outer, Load, TotalLocked, TotalOwned;
    var s' := Apply(s, true, op).value;
    match op {
      case Funds(c, amount, aid, lock) =>
        InnerChange(s, c, amount, aid, lock, k);
        var t := OuterChange(Inner(s, c, amount, aid, lock).value, amount, aid, lock, k);
        SameAs(Holdings(s', k), Holdings(s, k), t);
      case AssetCreate(c, aid) =>
        if aid == 0 {
          SameAs(Holdings(s', k), Holdings(s, k), 0);
        } else {
          var t := OuterChange(s, DEPOSIT, 0, true, k);
          TotalOwnedUpdate(s.owned, c, s.owned[c] + {aid});
          SameAs(Holdings(s', k), Holdings(s, k), t);
        }
      case AssetEmit(c, amount, aid, emit, done) =>
        if done {
          InnerChange(s, c, amount, aid, emit, k);
        }
        SameAs(Holdings(s', k), Holdings(s, k) + Emission(op, k), 0);
      case AssetDestroy(c, aid, done) =>
        if !done {
          SameAs(Holdings(s', k), Holdings(s, k), 0);
        } else {
          var t := OuterChange(s, DEPOSIT, 0, false, k);
          TotalOwnedUpdate(s.owned, c, s.owned[c] - {aid});
          SameAs(Holdings(s', k), Holdings(s, k), t);
        }
    }
  }

  /** A run of operations from s to s', each of them proper. */
  ghost predicate Runs(s: Ledger, tracked: bool, ops: seq<Op>, s': Ledger)
    decreases |ops|
  {
    if ops == [] then s' == s
    else
      && |s.locked| == |s.owned| && Proper(s, ops[0])
      && Apply(s, tracked, ops[0]).Some?
      && Runs(Apply(s, tracked, ops[0]).value, tracked, ops[1..], s')
  }

  function NetEmission(ops: seq<Op>, aid: nat): int {
    if ops == [] then 0 else Emission(ops[0], aid) + NetEmission(ops[1..], aid)
  }

  /** Over every run, locked amounts, the flow of the transaction and deposits change together only by net emission. */
  lemma {:induction false} RunConserves(s: Ledger, ops: seq<Op>, s': Ledger, k: nat)
    requires s.Valid() && Runs(s, true, ops, s')
    ensures s'.Valid() && Same(Holdings(s', k), Holdings(s, k) + NetEmission(ops, k))
    decreases |ops|
  {
    hide Apply, Holdings, Emission;
    if ops == [] {
      SameAs(Holdings(s', k), Holdings(s, k), 0);
    } else {
      var s1 := Apply(s, true, ops[0]).value;
      ApplyConserves(s, ops[0], k);
      RunConserves(s1, ops[1..], s', k);
      SameStep(Holdings(s', k), Holdings(s1, k), Holdings(s, k), NetEmission(ops[1..], k), Emission(ops[0], k));
    }
  }

  lemma SameStep(x: int, y: int, z: int, d: int, e: int)
    requires Same(x, y + d) && Same(y, z + e)
    ensures Same(x, z + (e + d))
  {
    SameChain(x, y, z + e, d);
  }

  // ----- Where flows are not counted -----

  /** What an operation puts into the ledger, of an asset, that the flow would have to give. */
  function Unbooked(op: Op, k: nat): int {
    match op
    case Funds(_, amount, aid, lock) => if aid == k then (if lock then amount else -(amount as int)) else 0
    case AssetCreate(_, aid) => if aid != 0 && k == 0 then DEPOSIT else 0
    case AssetEmit(_, _, _, _, _) => 0
    case AssetDestroy(_, _, done) => if done && k == 0 then -(DEPOSIT as int) else 0
  }

  /** Operations without a flow of the asset. */
  predicate NoFlow(op: Op, k: nat) {
    match op
    case Funds(_, amount, aid, _) => aid != k || amount == 0
    case AssetCreate(_, aid) => aid == 0 || k != 0
    case AssetEmit(_, _, _, _, _) => true
    case AssetDestroy(_, _, done) => !done || k != 0
  }

  /** Holdings change by what is emitted and, besides, by what is not booked; so they are kept, even modulo 2^128, exactly by the
      operations without a flow. */
  lemma UntrackedApply(s: Ledger, op: Op, k: nat)
    requires s.Valid() && Proper(s, op) && Apply(s, false, op).Some?
    ensures
      var s' := Apply(s, false, op).value;
      && s'.Valid() && |s'.locked| == |s.locked|
      && Holdings(s', k) == Holdings(s, k) + Emission(op, k) + Unbooked(op, k)
      && (Same(Holdings(s', k), Holdings(s, k) + Emission(op, k)) <==> NoFlow(op, k))
  {
    hide Inner, Load, TotalLocked, TotalOwned;
    var s' := Apply(s, false, op).value;
    match op {
      case Funds(c, amount, aid, lock) =>
        InnerChange(s, c, amount, aid, lock, k);
      case AssetCreate(c, aid) =>
        if aid != 0 {
          TotalOwnedUpdate(s.owned, c, s.owned[c] + {aid});
        }
      case AssetEmit(c, amount, aid, emit, done) =>
        if done {
          InnerChange(s, c, amount, aid, emit, k);
        }
      case AssetDestroy(c, aid, done) =>
        if done {
          TotalOwnedUpdate(s.owned, c, s.owned[c] - {aid});
        }
    }
    hide Apply, Holdings;
    SameOffset(Holdings(s', k), Holdings(s, k) + Emission(op, k), Unbooked(op, k));
    SmallIsZero(op, k);
  }

  lemma SameOffset(x: int, y: int, d: int)
    requires x == y + d
    ensures Same(x, y) <==> Same(d, 0)
  {
    if Same(x, y) {
      var t :| x == y + t * W128;
      SameAs(d, 0, t);
    }
    if Same(d, 0) {
      var t :| d == 0 + t * W128;
      SameAs(x, y, t);
    }
  }

  lemma SmallIsZero(op: Op, k: nat)
    requires op.Funds? ==> op.amount < W64
    ensures Same(Unbooked(op, k), 0) <==> NoFlow(op, k)
  {
    var d := Unbooked(op, k);
    assert NoFlow(op, k) <==> d == 0;
    assert -(W64 as int) < d < W64;
    if d == 0 {
      SameAs(d, 0, 0);
    }
    if Same(d, 0) {
      var t :| d == 0 + t * W128;
      assert t == 0;
    }
  }

  function NetUnbooked(ops: seq<Op>, k: nat): int {
    if ops == [] then 0 else Unbooked(ops[0], k) + NetUnbooked(ops[1..], k)
  }

  /** Over every run: holdings change by net emission and what is not booked, so they are kept exactly when that comes to nothing. */
  lemma {:induction false} UntrackedRun(s: Ledger, ops: seq<Op>, s': Ledger, k: nat)
    requires s.Valid() && Runs(s, false, ops, s')
    ensures s'.Valid() && Holdings(s', k) == Holdings(s, k) + NetEmission(ops, k) + NetUnbooked(ops, k)
    ensures Same(Holdings(s', k), Holdings(s, k) + NetEmission(ops, k)) <==> Same(NetUnbooked(ops, k), 0)
    decreases |ops|
  {
    hide Apply, Holdings, Emission, Unbooked, Same;
    if ops != [] {
      UntrackedApply(s, ops[0], k);
      UntrackedRun(Apply(s, false, ops[0]).value, ops[1..], s', k);
    }
    SameOffset(Holdings(s', k), Holdings(s, k) + NetEmission(ops, k), NetUnbooked(ops, k));
  }

  // ----- The processor's part of it -----

  class Processor {
    var locked: seq<map<nat, nat>>
    var owned: seq<set<nat>>
    var funds: map<nat, nat>
    const tracked: bool

    function Value(): Ledger
      reads this
    {
      Ledger(locked, owned, funds)
    }

    method HandleAmountInner(c: nat, amount: Amount, aid: nat, lock: bool) returns (ok: bool)
      requires c < |locked|
      modifies this`locked
      ensures match Inner(old(Value()), c, amount, aid, lock)
              case None => !ok && Value() == old(Value())
              case Some(s') => ok && Value() == s'
    {
      var val0 := Load(locked[c], aid);
      if lock {
        val0 := (val0 + amount) % W128;
        if val0 < amount {
          return false;
        }
      } else {
        if val0 < amount {
          return false;
        }
        val0 := val0 - amount;
      }
      locked := locked[c := Save(locked[c], aid, val0)];
      ok := true;
    }

    method HandleAmountOuter(amount: Amount, aid: nat, lock: bool)
      modifies this`funds
      ensures Value() == Outer(old(Value()), tracked, amount, aid, lock)
    {
      if tracked {
        FundsAdd(amount, aid, lock);
      }
    }

    /** `FundsChangeMap::Add` of an amount: what is spent is negated. */
    method FundsAdd(amount: Amount, aid: nat, spend: bool)
      modifies this`funds
      ensures funds == Flow(old(funds), amount, aid, spend)
    {
      if amount == 0 {
        return;
      }
      var val: nat := amount;
      if spend {
        val := W128 - val;
      }
      FundsAddBig(val, aid);
    }

    /** `FundsChangeMap::Add` of a 128-bit number: a new entry, or the sum in the old one, which goes when the sum is zero. */
    method FundsAddBig(val: nat, aid: nat)
      requires 0 < val < W128
      modifies this`funds
      ensures forall k :: Load(funds, k) == if k == aid then (Load(old(funds), k) + val) % W128 else Load(old(funds), k)
      ensures funds == Save(old(funds), aid, Load(funds, aid))
    {
      if aid !in funds {
        funds := funds[aid := val];
      } else {
        var dst := (funds[aid] + val) % W128;
        funds := funds[aid := dst];
        if dst == 0 {
          funds := funds - {aid};
        }
      }
    }

    method HandleAmount(c: nat, amount: Amount, aid: nat, lock: bool) returns (ok: bool)
      requires c < |locked| == |owned|
      modifies this
      ensures match Apply(old(Value()), tracked, Funds(c, amount, aid, lock))
              case None => !ok && Value() == old(Value())
              case Some(s') => ok && Value() == s'
    {
      ok := HandleAmountInner(c, amount, aid, lock);
      if ok {
        HandleAmountOuter(amount, aid, lock);
      }
    }

    method OnAssetCreate(c: nat, aid: nat)
      requires c < |locked| == |owned|
      modifies this
      ensures Apply(old(Value()), tracked, AssetCreate(c, aid)) == Some(Value())
    {
      if aid != 0 {
        HandleAmountOuter(DEPOSIT, 0, true);
        owned := owned[c := owned[c] + {aid}];
      }
    }

    method OnAssetEmit(c: nat, amount: Amount, aid: nat, emit: bool, done: bool) returns (ok: bool)
      requires c < |locked| == |owned|
      modifies this
      ensures match Apply(old(Value()), tracked, AssetEmit(c, amount, aid, emit, done))
              case None => !ok && Value() == old(Value())
              case Some(s') => ok && Value() == s'
    {
      if aid !in owned[c] || amount >= W64 / 2 {
        return false;
      }
      ok := true;
      if done {
        ok := HandleAmountInner(c, amount, aid, emit);
      }
    }

    method OnAssetDestroy(c: nat, aid: nat, done: bool) returns (ok: bool)
      requires c < |locked| == |owned|
      modifies this
      ensures match Apply(old(Value()), tracked, AssetDestroy(c, aid, done))
              case None => !ok && Value() == old(Value())
              case Some(s') => ok && Value() == s'
    {
      if aid !in owned[c] {
        return false;
      }
      if done {
        HandleAmountOuter(DEPOSIT, 0, false);
        owned := owned[c := owned[c] - {aid}];
      }
      ok := true;
    }
  }
}
