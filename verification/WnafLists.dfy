/** The pending digits of many scalars, on one linked list per bit, held in a table of heads and one link per element. */
module WnafLists {
  import opened Arith
  import opened Wnaf

  const SLOTS: nat := BITS + 1

  /** An element by its number from 1 on, and the entry of it that is pending; zero for the end of a list. */
  datatype Link = Link(elem: nat, entry: nat)

  const NONE := Link(0, 0)

  /** The list that starts at a link: its elements, each linked with its pending entry. */
  ghost predicate Chain(link: Link, list: seq<nat>, next: seq<Link>, cur: seq<int>)
    requires |next| == |cur|
    decreases |list|
  {
    if list == [] then link == NONE
    else
      && list[0] < |next| && cur[list[0]] >= 0
      && link == Link(list[0] + 1, cur[list[0]])
      && Chain(next[list[0]], list[1..], next, cur)
  }

  lemma {:induction false} ChainFrame(link: Link, list: seq<nat>, next: seq<Link>, cur: seq<int>, e: nat, l: Link, c: int)
    requires |next| == |cur| && e < |next| && Chain(link, list, next, cur) && e !in list
    ensures Chain(link, list, next[e := l], cur[e := c])
    decreases |list|
  {
    if list != [] {
      ChainFrame(next[list[0]], list[1..], next, cur, e, l, c);
    }
  }

  function PendingBit(entries: seq<seq<Entry>>, cur: seq<int>, e: nat): nat
    requires e < |entries| == |cur| && 0 <= cur[e] < |entries[e]|
  {
    entries[e][cur[e]].bit
  }

  ghost predicate Shaped(table: seq<Link>, next: seq<Link>, cur: seq<int>, lists: seq<seq<nat>>, entries: seq<seq<Entry>>) {
    && |table| == |lists| == SLOTS && |next| == |cur| == |entries|
    && forall e :: 0 <= e < |cur| ==> -1 <= cur[e] < |entries[e]|
  }

  ghost predicate Unique(list: seq<nat>) {
    forall i, j :: 0 <= i < j < |list| ==> list[i] != list[j]
  }

  /** Element e is on the list of bit b exactly when its pending entry is at bit b. */
  ghost predicate Placed(cur: seq<int>, lists: seq<seq<nat>>, entries: seq<seq<Entry>>, b: nat)
    requires |cur| == |entries| && b < |lists| && forall e :: 0 <= e < |cur| ==> -1 <= cur[e] < |entries[e]|
  {
    forall e: nat :: e in lists[b] <==> e < |cur| && cur[e] >= 0 && PendingBit(entries, cur, e) == b
  }

  /** Every element with a pending entry is on the list of that entry's bit, once, and on no other. */
  ghost predicate Linked(table: seq<Link>, next: seq<Link>, cur: seq<int>, lists: seq<seq<nat>>, entries: seq<seq<Entry>>) {
    && Shaped(table, next, cur, lists, entries)
    && forall b :: 0 <= b < SLOTS ==>
         Chain(table[b], lists[b], next, cur) && Unique(lists[b]) && Placed(cur, lists, entries, b)
  }

  lemma EmptyLinked(n: nat, entries: seq<seq<Entry>>, next: seq<Link>)
    requires |entries| == |next| == n
    ensures Linked(seq(SLOTS, _ => NONE), next, seq(n, _ => -1), seq(SLOTS, _ => []), entries)
  {
  }

  /** Putting an element with a pending entry in front of the list of its bit. */
  lemma PushKeeps(table: seq<Link>, next: seq<Link>, cur: seq<int>, lists: seq<seq<nat>>, entries: seq<seq<Entry>>, e: nat,
                  c: nat)
    requires Linked(table, next, cur, lists, entries)
    requires e < |cur| && cur[e] == -1 && c < |entries[e]| && entries[e][c].bit < SLOTS
    ensures
      var b := entries[e][c].bit;
      Linked(table[b := Link(e + 1, c)], next[e := table[b]], cur[e := c], lists[b := [e] + lists[b]], entries)
  {
    hide Chain;
    var b := entries[e][c].bit;
    var table', next', cur', lists' := table[b := Link(e + 1, c)], next[e := table[b]], cur[e := c], lists[b := [e] + lists[b]];
    forall i | 0 <= i < SLOTS
      ensures Chain(table'[i], lists'[i], next', cur') && Unique(lists'[i]) && Placed(cur', lists', entries, i)
    {
      assert Placed(cur, lists, entries, i);
      assert e !in lists[i];
      ChainFrame(table[i], lists[i], next, cur, e, table[b], c);
      if i == b {
        ChainCons(e, c, lists[b], next', cur');
      }
    }
  }

  lemma ChainCons(e: nat, c: nat, list: seq<nat>, next: seq<Link>, cur: seq<int>)
    requires |next| == |cur| && e < |next| && cur[e] == c && Chain(next[e], list, next, cur)
    ensures Chain(Link(e + 1, c), [e] + list, next, cur)
  {
    assert ([e] + list)[1..] == list;
  }

  /** Taking the first element off the list of a bit. */
  lemma PopKeeps(table: seq<Link>, next: seq<Link>, cur: seq<int>, lists: seq<seq<nat>>, entries: seq<seq<Entry>>, b: nat)
    requires Linked(table, next, cur, lists, entries) && b < SLOTS && table[b].elem != 0
    ensures
      var e := table[b].elem - 1;
      && lists[b] != [] && e == lists[b][0] && e < |cur| && cur[e] == table[b].entry >= 0 && PendingBit(entries, cur, e) == b
      && Linked(table[b := next[e]], next, cur[e := -1], lists[b := lists[b][1..]], entries)
  {
    assert Chain(table[b], lists[b], next, cur) && Placed(cur, lists, entries, b) && Unique(lists[b]);
    assert lists[b] != [];
    var e := table[b].elem - 1;
    assert e in lists[b];
    var rest := lists[b][1..];
    assert e !in rest;
    hide Chain;
    var table', cur', lists' := table[b := next[e]], cur[e := -1], lists[b := rest];
    forall i | 0 <= i < SLOTS
      ensures Chain(table'[i], lists'[i], next, cur') && Unique(lists'[i]) && Placed(cur', lists', entries, i)
    {
      assert Placed(cur, lists, entries, i);
      assert next[e := next[e]] == next;
      assert forall x :: x in lists[b] <==> x == e || x in rest;
      if i == b {
        ChainFrame(next[e], rest, next, cur, e, next[e], -1);
      } else {
        ChainFrame(table[i], lists[i], next, cur, e, next[e], -1);
      }
    }
  }

  /** An empty list means no entry pending at its bit. */
  lemma NothingAt(table: seq<Link>, next: seq<Link>, cur: seq<int>, lists: seq<seq<nat>>, entries: seq<seq<Entry>>, b: nat)
    requires Linked(table, next, cur, lists, entries) && b < SLOTS && table[b].elem == 0
    ensures forall e :: 0 <= e < |cur| && cur[e] >= 0 ==> PendingBit(entries, cur, e) != b
  {
    assert Chain(table[b], lists[b], next, cur) && Placed(cur, lists, entries, b);
    assert lists[b] == [];
  }

  /** The entries of an element that is on no list may be replaced. */
  lemma EntriesFrame(table: seq<Link>, next: seq<Link>, cur: seq<int>, lists: seq<seq<nat>>,
                     entries: seq<seq<Entry>>, e: nat,
                     es: seq<Entry>)
    requires Linked(table, next, cur, lists, entries) && e < |cur| && cur[e] == -1
    ensures Linked(table, next, cur, lists, entries[e := es])
  {
    hide Chain;
    var entries' := entries[e := es];
    forall b | 0 <= b < SLOTS ensures Placed(cur, lists, entries', b) {
      assert Placed(cur, lists, entries, b);
    }
  }

  // ----- Digits still to come and digits taken -----

  /** The digits from entry i on, weighted relative to bit b. */
  function TailSum(es: seq<Entry>, i: nat, b: nat): int
    requires i <= |es|
    decreases |es| - i
  {
    if i == |es| then 0
    else (if es[i].bit >= b then es[i].Digit() * Pow2(es[i].bit - b) else 0) + TailSum(es, i + 1, b)
  }

  lemma {:induction false} TailSumDouble(es: seq<Entry>, i: nat, b: nat)
    requires i <= |es| && forall j :: i <= j < |es| ==> es[j].bit > b
    ensures TailSum(es, i, b) == 2 * TailSum(es, i, b + 1)
    decreases |es| - i
  {
    if i < |es| {
      TailSumDouble(es, i + 1, b);
      assert Pow2(es[i].bit - b) == 2 * Pow2(es[i].bit - (b + 1));
      Twice(es[i].Digit(), Pow2(es[i].bit - (b + 1)), TailSum(es, i + 1, b + 1));
    }
  }

  lemma Twice(d: int, p: int, t: int)
    ensures d * (2 * p) + 2 * t == 2 * (d * p + t)
  {
  }

  lemma {:induction false} TailSumAll(es: seq<Entry>, i: nat)
    requires i <= |es|
    ensures Sum(es[..i]) + TailSum(es, i, 0) == Sum(es)
    decreases |es| - i
  {
    if i == |es| {
      assert es[..i] == es;
    } else {
      TailSumAll(es, i + 1);
      assert es[..i + 1][..i] == es[..i];
    }
  }

  // ----- The lists as an object -----

  class Shared {
    const wnd: nat
    var table: seq<Link>
    var next: seq<Link>
    var entries: seq<seq<Entry>>
    ghost var cur: seq<int>
    ghost var lists: seq<seq<nat>>

    ghost predicate Valid()
      reads this
    {
      && wnd > 0 && Linked(table, next, cur, lists, entries)
      && forall e :: 0 <= e < |entries| ==> Digits(entries[e], wnd)
    }

    constructor (wnd: nat, n: nat)
      requires wnd > 0
      ensures Valid() && this.wnd == wnd && |entries| == n
      ensures forall e :: 0 <= e < n ==> entries[e] == [] && cur[e] == -1
    {
      this.wnd := wnd;
      table, next, entries := seq(SLOTS, _ => NONE), seq(n, _ => NONE), seq(n, _ => []);
      cur, lists := seq(n, _ => -1), seq(SLOTS, _ => []);
      new;
      EmptyLinked(n, entries, next);
    }

    /** `Shared::Add`: recode the scalar and put the highest digit on its list. */
    method Add(e: nat, d: seq<nat>, b: nat)
      requires Valid() && IsScalar(d, b) && e < |entries| && cur[e] == -1
      modifies this
      ensures Valid() && |entries| == old(|entries|)
      ensures entries == old(entries)[e := entries[e]] && Sum(entries[e]) == Value(d, b)
      ensures cur == old(cur)[e := |entries[e]| - 1]
      ensures |entries[e]| <= MaxEntries(wnd)
    {
      hide Linked, IsScalar, Sum, Value;
      var es := Recode(d, b, wnd);
      Lengths(table, next, cur, lists, entries);
      EntriesFrame(table, next, cur, lists, entries, e, es);
      entries := entries[e := es];
      if |es| > 0 {
        var bit := es[|es| - 1].bit;
        PushKeeps(table, next, cur, lists, entries, e, |es| - 1);
        next := next[e := table[bit]];
        table := table[bit := Link(e + 1, |es| - 1)];
        cur, lists := cur[e := |es| - 1], lists[bit := [e] + lists[bit]];
      }
    }

    /** `Shared::Fetch`: take the first digit of a bit; the next lower digit of its element is pending then. */
    method Fetch(b: nat) returns (e: nat, x: Entry)
      requires Valid() && b < SLOTS && |table| == SLOTS && table[b].elem != 0
      modifies this
      ensures Valid() && entries == old(entries)
      ensures e < |entries| && |old(cur)| == |entries| && 0 <= old(cur)[e] < |entries[e]|
      ensures x == entries[e][old(cur)[e]] && x.bit == b
      ensures cur == old(cur)[e := old(cur)[e] - 1]
    {
      hide Linked;
      Lengths(table, next, cur, lists, entries);
      PopKeeps(table, next, cur, lists, entries, b);
      var this0 := table[b];
      e := this0.elem - 1;
      x := entries[e][this0.entry];
      table := table[b := next[e]];
      cur, lists := cur[e := -1], lists[b := lists[b][1..]];
      if this0.entry != 0 {
        var entry := this0.entry - 1;
        assert Digits(entries[e], wnd);
        var bit := entries[e][entry].bit;
        assert bit < b;
        PushKeeps(table, next, cur, lists, entries, e, entry);
        Lengths(table, next, cur, lists, entries);
        next := next[e := table[bit]];
        table := table[bit := Link(e + 1, entry)];
        cur, lists := cur[e := entry], lists[bit := [e] + lists[bit]];
      }
    }
  }

  lemma Lengths(table: seq<Link>, next: seq<Link>, cur: seq<int>, lists: seq<seq<nat>>, entries: seq<seq<Entry>>)
    requires Linked(table, next, cur, lists, entries)
    ensures Shaped(table, next, cur, lists, entries)
  {
  }
}
