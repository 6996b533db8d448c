/** Multi-scalar multiplication: interleaved window NAF (fast mode) and blinded fixed windows (secure mode), both equal to
    the sum of the scalar multiples. */
module MultiMac {
  import opened Arith
  import opened Group
  import opened Linear
  import opened Wnaf
  import opened WnafLists

  // ----- Tables of odd multiples -----

  ghost predicate OddMultiples<P(!new)>(g: Group<P>, p: P, tbl: seq<P>) {
    forall i :: 0 <= i < |tbl| ==> tbl[i] == Mul(g, 2 * i + 1, p)
  }

  /** The table p, 3p, 5p, … by adding 2p. */
  method MakeOdd<P(!new)>(g: Group<P>, p: P, n: nat) returns (tbl: seq<P>)
    requires Abelian(g) && n > 0
    ensures |tbl| == n && OddMultiples(g, p, tbl)
  {
    hide Abelian, Mul;
    tbl := [p];
    MulSmall(g, p);
    var twice := g.add(p, p);
    var i := 1;
    while i < n
      invariant 1 <= i == |tbl| <= n && OddMultiples(g, p, tbl)
    {
      MulAdd(g, 2 * (i - 1) + 1, 2, p);
      assert tbl[i - 1] == Mul(g, 2 * (i - 1) + 1, p);
      tbl := tbl + [g.add(tbl[i - 1], twice)];
      i := i + 1;
    }
  }

  /** Every digit of an element has its multiple in the table. */
  ghost predicate TableFor<P(!new)>(g: Group<P>, p: P, tbl: seq<P>, es: seq<Entry>) {
    OddMultiples(g, p, tbl) && forall j :: 0 <= j < |es| ==> es[j].odd % 2 == 1 && es[j].odd / 2 < |tbl|
  }

  /** `Casual::Fast`: the multiples up to the highest one needed. */
  method Needed<P(!new)>(g: Group<P>, p: P, es: seq<Entry>, wnd: nat) returns (tbl: seq<P>)
    requires Abelian(g) && Digits(es, wnd)
    ensures TableFor(g, p, tbl, es)
  {
    hide Abelian, Mul, Pow2;
    var n := 1;
    var i := 0;
    while i < |es|
      invariant 0 <= i <= |es| && n >= 1
      invariant forall j :: 0 <= j < i ==> es[j].odd / 2 < n
    {
      var elem := es[i].odd / 2;
      if n < elem + 1 {
        n := elem + 1;
      }
      i := i + 1;
    }
    tbl := MakeOdd(g, p, n);
  }

  /** `Prepared::Fast`: all the multiples a window of wnd bits can need. */
  lemma FullTable<P(!new)>(g: Group<P>, p: P, tbl: seq<P>, es: seq<Entry>, wnd: nat)
    requires OddMultiples(g, p, tbl) && Digits(es, wnd) && wnd > 0 && |tbl| == Pow2(wnd) / 2
    ensures TableFor(g, p, tbl, es)
  {
    assert Pow2(wnd) == 2 * Pow2(wnd - 1);
  }

  function Signed<P(!new)>(g: Group<P>, x: Entry, tbl: seq<P>): P
    requires x.odd / 2 < |tbl|
  {
    if x.neg then g.neg(tbl[x.odd / 2]) else tbl[x.odd / 2]
  }

  lemma SignedIsDigit<P(!new)>(g: Group<P>, p: P, x: Entry, tbl: seq<P>)
    requires Abelian(g) && OddMultiples(g, p, tbl) && x.odd % 2 == 1 && x.odd / 2 < |tbl|
    ensures Signed(g, x, tbl) == Mul(g, x.Digit(), p)
  {
    hide Abelian, Mul;
    assert 2 * (x.odd / 2) + 1 == x.odd;
    MulNeg(g, x.odd, p);
  }

  // ----- One set of lists against its points -----

  /** The part of each scalar taken so far, relative to bit b. */
  ghost function Taken(entries: seq<seq<Entry>>, cur: seq<int>, b: nat): (r: seq<int>)
    requires |entries| == |cur| && forall e :: 0 <= e < |cur| ==> -1 <= cur[e] < |entries[e]|
    ensures |r| == |cur|
  {
    seq(|cur|, e requires 0 <= e < |cur| => TailSum(entries[e], cur[e] + 1, b))
  }

  /** Digits taken are at bit b or above, digits to come at `below` or below. */
  ghost predicate Cut(entries: seq<seq<Entry>>, cur: seq<int>, b: nat, below: int)
    requires |entries| == |cur| && forall e :: 0 <= e < |cur| ==> -1 <= cur[e] < |entries[e]|
  {
    forall e, j :: 0 <= e < |cur| && 0 <= j < |entries[e]| ==>
      if j <= cur[e] then entries[e][j].bit <= below else entries[e][j].bit >= b
  }

  function Pending(cur: seq<int>): int {
    if cur == [] then 0 else Pending(cur[..|cur| - 1]) + cur[|cur| - 1] + 1
  }

  lemma {:induction false} PendingLess(cur: seq<int>, e: nat)
    requires e < |cur|
    ensures Pending(cur[e := cur[e] - 1]) == Pending(cur) - 1
  {
    var n := |cur| - 1;
    if e == n {
      assert cur[e := cur[e] - 1][..n] == cur[..n];
    } else {
      PendingLess(cur[..n], e);
      assert cur[e := cur[e] - 1][..n] == cur[..n][e := cur[e] - 1];
    }
  }

  lemma {:induction false} PendingNonNegative(cur: seq<int>)
    requires forall e :: 0 <= e < |cur| ==> cur[e] >= -1
    ensures Pending(cur) >= 0
  {
    if cur != [] {
      PendingNonNegative(cur[..|cur| - 1]);
    }
  }

  ghost predicate Shape<P(!new)>(ws: Shared, ps: seq<P>)
    reads ws
  {
    |ps| == |ws.entries| == |ws.cur| && forall e :: 0 <= e < |ws.cur| ==> -1 <= ws.cur[e] < |ws.entries[e]|
  }

  /** The state of one set of lists while bits from b on are being taken. */
  ghost predicate Running<P(!new)>(g: Group<P>, ws: Shared, ps: seq<P>, tbls: seq<seq<P>>, b: nat, below: int)
    reads ws
  {
    && ws.Valid() && Shape(ws, ps) && |tbls| == |ps| && |ws.table| == SLOTS
    && Cut(ws.entries, ws.cur, b, below)
    && forall e :: 0 <= e < |ps| ==> TableFor(g, ps[e], tbls[e], ws.entries[e])
  }

  ghost function Accumulated<P(!new)>(g: Group<P>, ws: Shared, ps: seq<P>, b: nat): P
    requires Shape(ws, ps)
    reads ws
  {
    Comb(g, Taken(ws.entries, ws.cur, b), ps)
  }

  lemma TakenStep(entries: seq<seq<Entry>>, cur: seq<int>, e: nat, b: nat)
    requires |entries| == |cur| && (forall e :: 0 <= e < |cur| ==> -1 <= cur[e] < |entries[e]|)
    requires e < |cur| && cur[e] >= 0 && entries[e][cur[e]].bit == b
    ensures
      var t := Taken(entries, cur, b);
      Taken(entries, cur[e := cur[e] - 1], b) == t[e := t[e] + entries[e][cur[e]].Digit()]
  {
    assert Pow2(0) == 1;
  }

  /** Take all the digits at bit b. */
  method Drain<P(!new)>(g: Group<P>, ws: Shared, ghost ps: seq<P>, tbls: seq<seq<P>>, b: nat, res0: P, ghost other: P)
    returns (res: P)
    requires Abelian(g) && b < SLOTS && Running(g, ws, ps, tbls, b, b)
    requires Shape(ws, ps) && res0 == g.add(other, Accumulated(g, ws, ps, b))
    modifies ws
    ensures Running(g, ws, ps, tbls, b, b - 1) && Shape(ws, ps) && ws.entries == old(ws.entries)
    ensures res == g.add(other, Accumulated(g, ws, ps, b))
  {
    hide Abelian, Mul, Comb, Linked, Digits, OddMultiples, Taken;
    res := res0;
    while ws.table[b].elem != 0
      invariant Running(g, ws, ps, tbls, b, b) && ws.entries == old(ws.entries)
      invariant res == g.add(other, Accumulated(g, ws, ps, b))
      decreases Pending(ws.cur)
    {
      ghost var cur := ws.cur;
      ghost var t := Taken(ws.entries, cur, b);
      PendingNonNegative(cur);
      var e, x := ws.Fetch(b);
      PendingLess(cur, e);
      TakenStep(ws.entries, cur, e, b);
      SignedIsDigit(g, ps[e], x, tbls[e]);
      CombUpdate(g, t, ps, e, x.Digit());
      Assoc(g, other, Comb(g, t, ps), Mul(g, x.Digit(), ps[e]));
      res := g.add(res, Signed(g, x, tbls[e]));
      Lengths(ws.table, ws.next, ws.cur, ws.lists, ws.entries);
    }
    NothingAt(ws.table, ws.next, ws.cur, ws.lists, ws.entries, b);
    CutDrained(ws.entries, ws.cur, ws.wnd, b);
  }

  lemma CutDrained(entries: seq<seq<Entry>>, cur: seq<int>, wnd: nat, b: nat)
    requires |entries| == |cur| && (forall e :: 0 <= e < |cur| ==> -1 <= cur[e] < |entries[e]|)
    requires Cut(entries, cur, b, b) && forall e :: 0 <= e < |entries| ==> Digits(entries[e], wnd)
    requires forall e :: 0 <= e < |cur| && cur[e] >= 0 ==> PendingBit(entries, cur, e) != b
    ensures Cut(entries, cur, b, b - 1)
  {
    hide Pow2;
    forall e, j | 0 <= e < |cur| && 0 <= j < |entries[e]|
      ensures if j <= cur[e] then entries[e][j].bit <= b - 1 else entries[e][j].bit >= b
    {
      assert Digits(entries[e], wnd);
      if j <= cur[e] {
        assert PendingBit(entries, cur, e) != b;
        assert entries[e][cur[e]].bit <= b;
        if j < cur[e] {
          assert entries[e][j].bit + (wnd + 1) <= entries[e][cur[e]].bit;
        }
      }
    }
  }

  /** Moving on to the next lower bit doubles what was taken. */
  lemma TakenDouble(entries: seq<seq<Entry>>, cur: seq<int>, b: nat)
    requires |entries| == |cur| && (forall e :: 0 <= e < |cur| ==> -1 <= cur[e] < |entries[e]|)
    requires Cut(entries, cur, b + 1, b)
    ensures Taken(entries, cur, b) == VMul(2, Taken(entries, cur, b + 1)) && Cut(entries, cur, b, b)
  {
    forall e | 0 <= e < |cur| ensures TailSum(entries[e], cur[e] + 1, b) == 2 * TailSum(entries[e], cur[e] + 1, b + 1) {
      TailSumDouble(entries[e], cur[e] + 1, b);
    }
  }

  lemma AccumulatedDouble<P(!new)>(g: Group<P>, ws: Shared, ps: seq<P>, tbls: seq<seq<P>>, b: nat)
    requires Abelian(g) && Running(g, ws, ps, tbls, b + 1, b)
    ensures Running(g, ws, ps, tbls, b, b) && Accumulated(g, ws, ps, b) == Mul(g, 2, Accumulated(g, ws, ps, b + 1))
  {
    hide Abelian, Mul, Comb, Linked, Digits, Taken, TableFor;
    TakenDouble(ws.entries, ws.cur, b);
    CombMul(g, 2, Taken(ws.entries, ws.cur, b + 1), ps);
  }

  /** Nothing taken yet. */
  lemma AccumulatedNone<P(!new)>(g: Group<P>, ws: Shared, ps: seq<P>, b: nat)
    requires Abelian(g) && Shape(ws, ps)
    requires forall e :: 0 <= e < |ws.cur| ==> ws.cur[e] == |ws.entries[e]| - 1
    ensures Accumulated(g, ws, ps, b) == g.zero
  {
    CombZeros(g, Taken(ws.entries, ws.cur, b), ps);
  }

  function Sums(entries: seq<seq<Entry>>): (r: seq<int>)
    ensures |r| == |entries|
  {
    seq(|entries|, e requires 0 <= e < |entries| => Sum(entries[e]))
  }

  /** Everything taken. */
  lemma AccumulatedAll<P(!new)>(g: Group<P>, ws: Shared, ps: seq<P>, tbls: seq<seq<P>>)
    requires Abelian(g) && Running(g, ws, ps, tbls, 0, -1)
    ensures Accumulated(g, ws, ps, 0) == Comb(g, Sums(ws.entries), ps)
  {
    hide Abelian, Mul, Comb, Linked, Digits, TableFor;
    var t := Taken(ws.entries, ws.cur, 0);
    forall e | 0 <= e < |ws.cur| ensures t[e] == Sum(ws.entries[e]) {
      var es := ws.entries[e];
      TailSumAll(es, 0);
      assert es[..0] == [];
    }
    assert t == Sums(ws.entries);
  }

  /** The doubling loop over all bits, with the digits of two sets of scalars interleaved. */
  method Interleave<P(!new, ==)>(g: Group<P>, wsC: Shared, psC: seq<P>, tblsC: seq<seq<P>>, wsP: Shared, ghost psP: seq<P>,
                                 tblsP: seq<seq<P>>)
    returns (res: P)
    requires Abelian(g) && wsC != wsP
    requires Running(g, wsC, psC, tblsC, SLOTS, SLOTS - 1) && Running(g, wsP, psP, tblsP, SLOTS, SLOTS - 1)
    requires Shape(wsC, psC) && Shape(wsP, psP)
    requires forall e :: 0 <= e < |wsC.cur| ==> wsC.cur[e] == |wsC.entries[e]| - 1
    requires forall e :: 0 <= e < |wsP.cur| ==> wsP.cur[e] == |wsP.entries[e]| - 1
    modifies wsC, wsP
    ensures wsC.entries == old(wsC.entries) && wsP.entries == old(wsP.entries)
    ensures |psC| == |wsC.entries| && |psP| == |wsP.entries|
    ensures res == g.add(Comb(g, Sums(wsC.entries), psC), Comb(g, Sums(wsP.entries), psP))
  {
    hide Abelian, Mul, Comb, Running, Accumulated, Sums, Shape;
    RunningShape(g, wsC, psC, tblsC, SLOTS, SLOTS - 1);
    RunningShape(g, wsP, psP, tblsP, SLOTS, SLOTS - 1);
    AccumulatedNone(g, wsC, psC, SLOTS);
    AccumulatedNone(g, wsP, psP, SLOTS);
    Zero(g, g.zero);
    res := g.zero;
    var iBit := SLOTS;
    while iBit > 0
      invariant 0 <= iBit <= SLOTS && wsC.entries == old(wsC.entries) && wsP.entries == old(wsP.entries)
      invariant Running(g, wsC, psC, tblsC, iBit, iBit - 1) && Running(g, wsP, psP, tblsP, iBit, iBit - 1)
      invariant Shape(wsC, psC) && Shape(wsP, psP)
      invariant res == g.add(Accumulated(g, wsC, psC, iBit), Accumulated(g, wsP, psP, iBit))
    {
      iBit := iBit - 1;
      AccumulatedDouble(g, wsC, psC, tblsC, iBit);
      AccumulatedDouble(g, wsP, psP, tblsP, iBit);
      Doubled(g, res, Accumulated(g, wsC, psC, iBit + 1), Accumulated(g, wsP, psP, iBit + 1));
      if res != g.zero {
        res := g.add(res, res);
      }
      Comm(g, Accumulated(g, wsC, psC, iBit), Accumulated(g, wsP, psP, iBit));
      res := Drain(g, wsC, psC, tblsC, iBit, res, Accumulated(g, wsP, psP, iBit));
      RunningShape(g, wsC, psC, tblsC, iBit, iBit - 1);
      Comm(g, Accumulated(g, wsC, psC, iBit), Accumulated(g, wsP, psP, iBit));
      res := Drain(g, wsP, psP, tblsP, iBit, res, Accumulated(g, wsC, psC, iBit));
    }
    AccumulatedAll(g, wsC, psC, tblsC);
    AccumulatedAll(g, wsP, psP, tblsP);
  }

  lemma RunningShape<P(!new)>(g: Group<P>, ws: Shared, ps: seq<P>, tbls: seq<seq<P>>, b: nat, below: int)
    requires Running(g, ws, ps, tbls, b, below)
    ensures Shape(ws, ps)
  {
  }

  lemma Doubled<P(!new)>(g: Group<P>, res: P, a: P, b: P)
    requires Abelian(g) && res == g.add(a, b)
    ensures g.add(Mul(g, 2, a), Mul(g, 2, b)) == g.add(res, res)
    ensures res == g.zero ==> g.add(res, res) == res
  {
    hide Abelian, Mul;
    MulSmall(g, a);
    MulSmall(g, b);
    Swap(g, a, b, a, b);
    Swap(g, a, a, b, b);
    Zero(g, g.zero);
  }

  // ----- Fast mode -----

  /** The words of a scalar, lowest first. */
  function Split(k: nat, b: nat, n: nat): seq<nat>
    requires b > 0
  {
    if n == 0 then []
    else
      DivNonNegative(k, Pow2(b));
      [k % Pow2(b)] + Split(k / Pow2(b), b, n - 1)
  }

  lemma {:induction false} SplitValue(k: nat, b: nat, n: nat)
    requires b > 0 && k < Pow2(n * b)
    ensures |Split(k, b, n)| == n && Value(Split(k, b, n), b) == k
    ensures forall i :: 0 <= i < n ==> Split(k, b, n)[i] < Pow2(b)
  {
    if n > 0 {
      hide Pow2;
      var p, q := Pow2(b), k / Pow2(b);
      DivNonNegative(k, p);
      DivMod(k, p);
      WordCount(n, b);
      Pow2Add(b, (n - 1) * b);
      Quotient(k, p, Pow2((n - 1) * b));
      SplitValue(q, b, n - 1);
      assert Split(k, b, n) == [k % p] + Split(q, b, n - 1);
      assert Split(k, b, n)[1..] == Split(q, b, n - 1);
      assert p * q == q * p;
    }
  }

  lemma WordCount(n: nat, b: nat)
    requires n > 0
    ensures n * b == b + (n - 1) * b
  {
  }

  const WORD: nat := 64

  /** A scalar as the code holds it. */
  function Words(k: nat): seq<nat> {
    Split(k, WORD, BITS / WORD)
  }

  lemma WordsAre(k: nat)
    requires k < Pow2(BITS)
    ensures IsScalar(Words(k), WORD) && Value(Words(k), WORD) == k
  {
    hide Pow2, Split, Value;
    SplitValue(k, WORD, BITS / WORD);
  }

  ghost predicate Scalars(ks: seq<nat>) {
    forall e :: 0 <= e < |ks| ==> ks[e] < Pow2(BITS)
  }

  const CASUAL_WINDOW: nat := 4
  const PREPARED_WINDOW: nat := 8

  lemma {:induction false} CombAgrees<P(!new)>(g: Group<P>, u: seq<int>, v: seq<int>, ps: seq<P>)
    requires Abelian(g) && |u| == |v| == |ps| && forall e :: 0 <= e < |ps| ==> u[e] == v[e] || ps[e] == g.zero
    ensures Comb(g, u, ps) == Comb(g, v, ps)
  {
    hide Abelian, Mul;
    if u != [] {
      var n := |u| - 1;
      CombAgrees(g, u[..n], v[..n], ps[..n]);
      MulZero(g, u[n]);
      MulZero(g, v[n]);
    }
  }

  /** All scalars recoded; elements with a zero point are left out. */
  method Enlist<P(!new, ==)>(g: Group<P>, ws: Shared, ks: seq<nat>, ps: seq<P>, skipZero: bool)
    requires Abelian(g) && Scalars(ks) && |ks| == |ps| == |ws.entries| && ws.Valid() && |ws.cur| == |ws.entries|
    requires forall e :: 0 <= e < |ks| ==> ws.entries[e] == [] && ws.cur[e] == -1
    modifies ws
    ensures ws.Valid() && Shape(ws, ps)
    ensures forall e :: 0 <= e < |ks| ==> ws.cur[e] == |ws.entries[e]| - 1
    ensures forall e :: 0 <= e < |ks| ==> Sum(ws.entries[e]) == ks[e] || ps[e] == g.zero
  {
    hide Abelian, Linked, Digits, IsScalar, Sum, Value, Words, Pow2;
    var i := 0;
    while i < |ks|
      invariant 0 <= i <= |ks| && ws.Valid() && |ws.entries| == |ws.cur| == |ks|
      invariant forall e :: 0 <= e < |ks| ==> ws.cur[e] == |ws.entries[e]| - 1
      invariant forall e :: i <= e < |ks| ==> ws.entries[e] == []
      invariant forall e :: 0 <= e < i ==> Sum(ws.entries[e]) == ks[e] || ps[e] == g.zero
    {
      if !(skipZero && ps[i] == g.zero) {
        WordsAre(ks[i]);
        ws.Add(i, Words(ks[i]), WORD);
      }
      i := i + 1;
    }
  }

  lemma RunningAtStart<P(!new)>(g: Group<P>, ws: Shared, ps: seq<P>, tbls: seq<seq<P>>)
    requires ws.Valid() && Shape(ws, ps) && |tbls| == |ps|
    requires forall e :: 0 <= e < |ps| ==> ws.cur[e] == |ws.entries[e]| - 1 && TableFor(g, ps[e], tbls[e], ws.entries[e])
    ensures Running(g, ws, ps, tbls, SLOTS, SLOTS - 1)
  {
    hide TableFor, Chain, Placed, Pow2;
  }

  ghost predicate PreparedTables<P(!new)>(g: Group<P>, ps: seq<P>, tbls: seq<seq<P>>) {
    |tbls| == |ps| && forall e :: 0 <= e < |ps| ==> |tbls[e]| == Pow2(PREPARED_WINDOW) / 2 && OddMultiples(g, ps[e], tbls[e])
  }

  /** `Calculate` in fast mode. */
  method Fast<P(!new, ==)>(g: Group<P>, ksC: seq<nat>, psC: seq<P>, ksP: seq<nat>, psP: seq<P>, tblsP: seq<seq<P>>)
    returns (res: P)
    requires Abelian(g) && Scalars(ksC) && Scalars(ksP) && |ksC| == |psC| && |ksP| == |psP| && PreparedTables(g, psP, tblsP)
    ensures res == g.add(Comb(g, ksC, psC), Comb(g, ksP, psP))
  {
    hide Abelian, Mul, Comb, Linked, Digits, Sum, Pow2, OddMultiples, TableFor, Running, Scalars;
    var wsP := new Shared(PREPARED_WINDOW, |ksP|);
    NewShape(wsP);
    Enlist(g, wsP, ksP, psP, false);
    forall e | 0 <= e < |psP| ensures TableFor(g, psP[e], tblsP[e], wsP.entries[e]) {
      FullTable(g, psP[e], tblsP[e], wsP.entries[e], PREPARED_WINDOW);
    }
    var wsC := new Shared(CASUAL_WINDOW, |ksC|);
    NewShape(wsC);
    Enlist(g, wsC, ksC, psC, true);
    var tblsC: seq<seq<P>> := [];
    while |tblsC| < |psC|
      invariant |tblsC| <= |psC|
      invariant forall e :: 0 <= e < |tblsC| ==> TableFor(g, psC[e], tblsC[e], wsC.entries[e])
      modifies {}
    {
      var tbl := Needed(g, psC[|tblsC|], wsC.entries[|tblsC|], CASUAL_WINDOW);
      tblsC := tblsC + [tbl];
    }
    RunningAtStart(g, wsP, psP, tblsP);
    RunningAtStart(g, wsC, psC, tblsC);
    res := Interleave(g, wsC, psC, tblsC, wsP, psP, tblsP);
    CombAgrees(g, Sums(wsC.entries), ksC, psC);
    CombAgrees(g, Sums(wsP.entries), ksP, psP);
  }

  lemma NewShape(ws: Shared)
    requires ws.Valid()
    ensures |ws.cur| == |ws.entries|
  {
  }
}
