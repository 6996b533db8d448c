/** Cut-through of inputs and outputs with the same commitment: in one sorted transaction, and while merging several sorted
    ones. Elements are given by their commitments. */
module CutThrough {
  import opened Words
  import opened Group

  // ----- Sorted sequences -----

  ghost predicate Ordered(s: seq<nat>) {
    forall i, j :: 0 <= i < j < |s| ==> s[i] <= s[j]
  }

  /** A sorted sequence is determined by its elements. */
  lemma {:induction false} SortedUnique(s: seq<nat>, t: seq<nat>)
    requires Ordered(s) && Ordered(t) && multiset(s) == multiset(t)
    ensures s == t
  {
    assert |s| == |multiset(s)| == |multiset(t)| == |t|;
    if s != [] {
      assert s[0] in multiset(t) && t[0] in multiset(s);
      assert s[0] == t[0];
      assert s == [s[0]] + s[1..] && t == [t[0]] + t[1..];
      assert multiset(s[1..]) == multiset(s) - multiset{s[0]};
      assert multiset(t[1..]) == multiset(t) - multiset{t[0]};
      SortedUnique(s[1..], t[1..]);
    }
  }

  function Insert(x: nat, s: seq<nat>): seq<nat> {
    if s == [] || x <= s[0] then [x] + s else [s[0]] + Insert(x, s[1..])
  }

  function Sort(s: seq<nat>): seq<nat> {
    if s == [] then [] else Insert(s[0], Sort(s[1..]))
  }

  lemma {:induction false} InsertElements(x: nat, s: seq<nat>)
    ensures multiset(Insert(x, s)) == multiset(s) + multiset{x}
  {
    if s != [] && x > s[0] {
      InsertElements(x, s[1..]);
      assert s == [s[0]] + s[1..];
    }
  }

  lemma OrderedCons(x: nat, s: seq<nat>)
    requires Ordered(s) && forall y :: y in s ==> x <= y
    ensures Ordered([x] + s)
  {
    var t := [x] + s;
    forall i, j | 0 <= i < j < |t| ensures t[i] <= t[j] {
      assert t[j] == s[j - 1] && s[j - 1] in s;
      assert i > 0 ==> t[i] == s[i - 1];
    }
  }

  lemma {:induction false} InsertOrdered(x: nat, s: seq<nat>)
    requires Ordered(s)
    ensures Ordered(Insert(x, s)) && forall y :: y in Insert(x, s) <==> y == x || y in s
  {
    if s == [] || x <= s[0] {
      OrderedCons(x, s);
    } else {
      InsertOrdered(x, s[1..]);
      assert forall y :: y in s <==> y == s[0] || y in s[1..];
      OrderedCons(s[0], Insert(x, s[1..]));
    }
  }

  lemma {:induction false} SortProps(s: seq<nat>)
    ensures Ordered(Sort(s)) && multiset(Sort(s)) == multiset(s)
  {
    if s != [] {
      SortProps(s[1..]);
      InsertElements(s[0], Sort(s[1..]));
      InsertOrdered(s[0], Sort(s[1..]));
      assert s == [s[0]] + s[1..];
    }
  }

  // ----- Cut-through of two sorted sequences -----

  /** What is left of inputs and outputs when equal commitments cancel. */
  function Cut(ins: seq<nat>, outs: seq<nat>): (seq<nat>, seq<nat>)
    decreases |ins| + |outs|
  {
    if ins == [] || outs == [] then (ins, outs)
    else if ins[0] < outs[0] then
      var (a, b) := Cut(ins[1..], outs);
      ([ins[0]] + a, b)
    else if ins[0] > outs[0] then
      var (a, b) := Cut(ins, outs[1..]);
      (a, [outs[0]] + b)
    else Cut(ins[1..], outs[1..])
  }

  function Min(a: nat, b: nat): nat {
    if a < b then a else b
  }

  lemma Head(s: seq<nat>)
    requires s != [] && Ordered(s)
    ensures Ordered(s[1..]) && multiset(s) == multiset{s[0]} + multiset(s[1..])
    ensures forall x :: x < s[0] ==> multiset(s)[x] == 0
  {
    assert s == [s[0]] + s[1..];
    assert forall x :: x in s ==> s[0] <= x;
    forall x | x < s[0] ensures multiset(s)[x] == 0 {
      assert x !in s;
    }
  }

  lemma CutCountNone(ins: seq<nat>, outs: seq<nat>, c: nat)
    requires ins == [] || outs == []
    ensures
      var (a, b) := Cut(ins, outs);
      var m := Min(multiset(ins)[c], multiset(outs)[c]);
      m == 0 && multiset(a)[c] == multiset(ins)[c] && multiset(b)[c] == multiset(outs)[c]
  {
  }

  function Count(s: seq<nat>, c: nat): nat {
    multiset(s)[c]
  }

  lemma CountHead(s: seq<nat>, c: nat)
    requires s != [] && Ordered(s)
    ensures Ordered(s[1..]) && Count(s, c) == Count(s[1..], c) + (if s[0] == c then 1 else 0) && (c < s[0] ==> Count(s, c) == 0)
  {
    Head(s);
  }

  lemma CountCons(x: nat, s: seq<nat>, c: nat)
    ensures Count([x] + s, c) == Count(s, c) + if x == c then 1 else 0
  {
  }

  lemma {:induction false} CutCount(ins: seq<nat>, outs: seq<nat>, c: nat)
    requires Ordered(ins) && Ordered(outs)
    ensures
      var (a, b) := Cut(ins, outs);
      var m := Min(Count(ins, c), Count(outs, c));
      Count(a, c) == Count(ins, c) - m && Count(b, c) == Count(outs, c) - m
    decreases |ins| + |outs|
  {
    if ins == [] || outs == [] {
      CutCountNone(ins, outs, c);
    } else {
      hide Ordered, Count;
      CountHead(ins, c);
      CountHead(outs, c);
      if ins[0] < outs[0] {
        CutCount(ins[1..], outs, c);
        CountCons(ins[0], Cut(ins[1..], outs).0, c);
      } else if ins[0] > outs[0] {
        CutCount(ins, outs[1..], c);
        CountCons(outs[0], Cut(ins, outs[1..]).1, c);
      } else {
        CutCount(ins[1..], outs[1..], c);
      }
    }
  }

  /** Each commitment is left as often as it was, less the smaller of its two counts on both sides. */
  lemma CutCounts(ins: seq<nat>, outs: seq<nat>, c: nat)
    requires Ordered(ins) && Ordered(outs)
    ensures
      var (a, b) := Cut(ins, outs);
      var m := Min(multiset(ins)[c], multiset(outs)[c]);
      multiset(a)[c] == multiset(ins)[c] - m && multiset(b)[c] == multiset(outs)[c] - m
  {
    hide Cut, Ordered;
    CutCount(ins, outs, c);
  }

  /** What is left is sorted, and comes from what was there. */
  lemma {:induction false} CutOrdered(ins: seq<nat>, outs: seq<nat>)
    requires Ordered(ins) && Ordered(outs)
    ensures
      var (a, b) := Cut(ins, outs);
      && Ordered(a) && Ordered(b)
      && (forall i :: 0 <= i < |a| ==> a[i] in ins) && (forall i :: 0 <= i < |b| ==> b[i] in outs)
    decreases |ins| + |outs|
  {
    if ins == [] || outs == [] {
    } else if ins[0] < outs[0] {
      CutOrdered(ins[1..], outs);
    } else if ins[0] > outs[0] {
      CutOrdered(ins, outs[1..]);
    } else {
      CutOrdered(ins[1..], outs[1..]);
    }
  }

  /** No commitment is left on both sides. */
  lemma CutDisjoint(ins: seq<nat>, outs: seq<nat>, c: nat)
    requires Ordered(ins) && Ordered(outs)
    ensures
      var (a, b) := Cut(ins, outs);
      !(c in a && c in b)
  {
    CutCounts(ins, outs, c);
    var (a, b) := Cut(ins, outs);
    assert c in a <==> multiset(a)[c] > 0;
    assert c in b <==> multiset(b)[c] > 0;
  }

  // ----- The balance -----

  function Points<P(!new)>(g: Group<P>, f: nat -> P, s: seq<nat>): P {
    if s == [] then g.zero else g.add(f(s[0]), Points(g, f, s[1..]))
  }

  /** Outputs less inputs. */
  function Balance<P(!new)>(g: Group<P>, f: nat -> P, ins: seq<nat>, outs: seq<nat>): P {
    g.add(Points(g, f, outs), g.neg(Points(g, f, ins)))
  }

  lemma PointsCons<P(!new)>(g: Group<P>, f: nat -> P, x: nat, s: seq<nat>)
    ensures Points(g, f, [x] + s) == g.add(f(x), Points(g, f, s))
  {
    assert ([x] + s)[1..] == s;
  }

  lemma BalanceStep<P(!new)>(g: Group<P>, o: P, i: P, x: P, o': P, i': P)
    requires Abelian(g) && g.add(o, g.neg(i)) == g.add(o', g.neg(i'))
    ensures g.add(o, g.neg(g.add(x, i))) == g.add(o', g.neg(g.add(x, i')))
    ensures g.add(g.add(x, o), g.neg(i)) == g.add(g.add(x, o'), g.neg(i'))
    ensures g.add(g.add(x, o), g.neg(g.add(x, i))) == g.add(o, g.neg(i))
  {
    hide Abelian;
    NegPlus(g, x, i);
    NegPlus(g, x, i');
    Assoc(g, x, o, g.neg(i));
    Assoc(g, x, o', g.neg(i'));
    Moved(g, o, g.neg(x), g.neg(i));
    Moved(g, o', g.neg(x), g.neg(i'));
    Swap(g, x, o, g.neg(x), g.neg(i));
    Inverse(g, x);
    Zero(g, g.add(o, g.neg(i)));
  }

  lemma Moved<P(!new)>(g: Group<P>, a: P, b: P, c: P)
    requires Abelian(g)
    ensures g.add(a, g.add(b, c)) == g.add(b, g.add(a, c))
  {
    hide Abelian;
    Assoc(g, a, b, c);
    Comm(g, a, b);
    Assoc(g, b, a, c);
  }

  /** Cut-through keeps outputs less inputs, whatever point a commitment stands for. */
  lemma {:induction false} CutKeepsBalance<P(!new)>(g: Group<P>, f: nat -> P, ins: seq<nat>, outs: seq<nat>)
    requires Abelian(g)
    ensures
      var (a, b) := Cut(ins, outs);
      Balance(g, f, a, b) == Balance(g, f, ins, outs)
    decreases |ins| + |outs|
  {
    hide Abelian;
    if ins != [] && outs != [] {
      var po, pi := Points(g, f, outs), Points(g, f, ins);
      if ins[0] < outs[0] {
        CutKeepsBalance(g, f, ins[1..], outs);
        var (a, b) := Cut(ins[1..], outs);
        PointsCons(g, f, ins[0], a);
        BalanceStep(g, Points(g, f, b), Points(g, f, a), f(ins[0]), po, Points(g, f, ins[1..]));
      } else if ins[0] > outs[0] {
        CutKeepsBalance(g, f, ins, outs[1..]);
        var (a, b) := Cut(ins, outs[1..]);
        PointsCons(g, f, outs[0], b);
        BalanceStep(g, Points(g, f, b), Points(g, f, a), f(outs[0]), Points(g, f, outs[1..]), pi);
      } else {
        CutKeepsBalance(g, f, ins[1..], outs[1..]);
        BalanceStep(g, Points(g, f, outs[1..]), Points(g, f, ins[1..]), f(ins[0]), Points(g, f, outs[1..]),
                    Points(g, f, ins[1..]));
      }
    }
  }

  /** One element taken out of any place. */
  lemma {:induction false} PointsPick<P(!new)>(g: Group<P>, f: nat -> P, s: seq<nat>, k: nat)
    requires Abelian(g) && k < |s|
    ensures Points(g, f, s) == g.add(f(s[k]), Points(g, f, s[..k] + s[k + 1..]))
  {
    hide Abelian;
    if k == 0 {
      assert s[..0] + s[1..] == s[1..];
    } else {
      PointsPick(g, f, s[1..], k - 1);
      var rest := s[1..][..k - 1] + s[1..][k..];
      assert s[..k] + s[k + 1..] == [s[0]] + rest;
      PointsCons(g, f, s[0], rest);
      Moved(g, f(s[0]), f(s[k]), Points(g, f, rest));
    }
  }

  /** The sum of the points does not depend on the order. */
  lemma {:induction false} PointsOfElements<P(!new)>(g: Group<P>, f: nat -> P, s: seq<nat>, t: seq<nat>)
    requires Abelian(g) && multiset(s) == multiset(t)
    ensures Points(g, f, s) == Points(g, f, t)
  {
    hide Abelian;
    assert |s| == |multiset(s)| == |multiset(t)| == |t|;
    if s != [] {
      assert s[0] in multiset(t);
      var k :| 0 <= k < |t| && t[k] == s[0];
      PointsPick(g, f, t, k);
      SameRest(s, t, k);
      PointsOfElements(g, f, s[1..], t[..k] + t[k + 1..]);
    }
  }

  lemma SameRest(s: seq<nat>, t: seq<nat>, k: nat)
    requires s != [] && k < |t| && t[k] == s[0] && multiset(s) == multiset(t)
    ensures multiset(s[1..]) == multiset(t[..k] + t[k + 1..])
  {
    assert s == [s[0]] + s[1..] && t == t[..k] + [t[k]] + t[k + 1..];
    assert multiset(t) == multiset(t[..k]) + multiset{t[k]} + multiset(t[k + 1..]);
    assert multiset(s[1..]) == multiset(s) - multiset{s[0]};
  }

  // ----- What cut-through leaves, whatever the order -----

  /** What is left is sorted, has nothing on both sides, and has each commitment as often as it was, less the smaller of its two
      counts. */
  ghost predicate CutOf(ins: seq<nat>, outs: seq<nat>, a: seq<nat>, b: seq<nat>) {
    && Ordered(a) && Ordered(b) && (forall c :: !(c in a && c in b))
    && forall c :: LeftOver(ins, outs, a, b, c)
  }

  ghost predicate LeftOver(ins: seq<nat>, outs: seq<nat>, a: seq<nat>, b: seq<nat>, c: nat) {
    var m := Min(multiset(ins)[c], multiset(outs)[c]);
    multiset(a)[c] == multiset(ins)[c] - m && multiset(b)[c] == multiset(outs)[c] - m
  }

  /** The walk over the sorted sides leaves the cut of the sides as they came. */
  lemma CutIsCutOf(ins: seq<nat>, outs: seq<nat>)
    ensures CutOf(ins, outs, Cut(Sort(ins), Sort(outs)).0, Cut(Sort(ins), Sort(outs)).1)
  {
    hide Cut, Sort, Ordered, Min;
    SortProps(ins);
    SortProps(outs);
    var (a, b) := Cut(Sort(ins), Sort(outs));
    CutOrdered(Sort(ins), Sort(outs));
    forall c ensures !(c in a && c in b) && LeftOver(ins, outs, a, b, c) {
      CutDisjoint(Sort(ins), Sort(outs), c);
      CutCounts(Sort(ins), Sort(outs), c);
    }
  }

  /** There is only one such result. */
  lemma CutOfUnique(ins: seq<nat>, outs: seq<nat>, a: seq<nat>, b: seq<nat>)
    requires CutOf(ins, outs, a, b)
    ensures (a, b) == Cut(Sort(ins), Sort(outs))
  {
    hide Cut, Sort, Ordered, Min;
    CutIsCutOf(ins, outs);
    var (a', b') := Cut(Sort(ins), Sort(outs));
    forall c ensures multiset(a)[c] == multiset(a')[c] && multiset(b)[c] == multiset(b')[c] {
      assert LeftOver(ins, outs, a, b, c) && LeftOver(ins, outs, a', b', c);
    }
    SortedUnique(a, a');
    SortedUnique(b, b');
  }

  /** Whatever point a commitment stands for, outputs less inputs stay what they were before sorting. */
  lemma CutOfKeepsBalance<P(!new)>(g: Group<P>, f: nat -> P, ins: seq<nat>, outs: seq<nat>, a: seq<nat>, b: seq<nat>)
    requires Abelian(g) && CutOf(ins, outs, a, b)
    ensures Balance(g, f, a, b) == Balance(g, f, ins, outs)
  {
    hide Abelian, Cut, Sort, CutOf, Points;
    CutOfUnique(ins, outs, a, b);
    CutKeepsBalance(g, f, Sort(ins), Sort(outs));
    SortProps(ins);
    SortProps(outs);
    PointsOfElements(g, f, Sort(ins), ins);
    PointsOfElements(g, f, Sort(outs), outs);
  }

  // ----- In place, on one transaction -----

  /** What is left of a vector of pointers without the nulls. */
  function Kept(v: seq<Option<nat>>): seq<nat> {
    if v == [] then []
    else Kept(v[..|v| - 1]) + if v[|v| - 1].Some? then [v[|v| - 1].value] else []
  }

  lemma {:induction false} KeptAll(v: seq<Option<nat>>, s: seq<nat>)
    requires |v| == |s| && forall i :: 0 <= i < |s| ==> v[i] == Some(s[i])
    ensures Kept(v) == s
  {
    if s != [] {
      KeptAll(v[..|s| - 1], s[..|s| - 1]);
    }
  }

  lemma {:induction false} KeptSplit(u: seq<Option<nat>>, v: seq<Option<nat>>)
    ensures Kept(u + v) == Kept(u) + Kept(v)
  {
    if v == [] {
      assert u + v == u;
    } else {
      KeptSplit(u, v[..|v| - 1]);
      assert (u + v)[..|u + v| - 1] == u + v[..|v| - 1];
    }
  }

  /** `RebuildVectorWithoutNulls` */
  method Rebuild(v: array<Option<nat>>) returns (r: seq<nat>)
    ensures r == Kept(v[..])
  {
    r := [];
    var i := 0;
    while i < v.Length
      invariant 0 <= i <= v.Length && r == Kept(v[..i])
    {
      assert v[..i + 1][..i] == v[..i];
      if v[i].Some? {
        r := r + [v[i].value];
      }
      i := i + 1;
    }
    assert v[..i] == v[..];
  }

  /** The state of the walk: what was passed and what is still ahead make up the result. */
  ghost predicate Walk(ins: seq<nat>, outs: seq<nat>, v: seq<Option<nat>>, w: seq<Option<nat>>, i: nat, j: nat) {
    && |v| == |ins| && |w| == |outs| && i <= |ins| && j <= |outs|
    && (forall k :: i <= k < |ins| ==> v[k] == Some(ins[k])) && (forall k :: j <= k < |outs| ==> w[k] == Some(outs[k]))
    && var (a, b) := Cut(ins[i..], outs[j..]);
    Cut(ins, outs) == (Kept(v[..i]) + a, Kept(w[..j]) + b)
  }

  lemma KeptNext(v: seq<Option<nat>>, i: nat)
    requires i < |v|
    ensures Kept(v[..i + 1]) == Kept(v[..i]) + if v[i].Some? then [v[i].value] else []
  {
    assert v[..i + 1][..i] == v[..i];
  }

  lemma WalkOut(ins: seq<nat>, outs: seq<nat>, v: seq<Option<nat>>, w: seq<Option<nat>>, i: nat, j: nat)
    requires Walk(ins, outs, v, w, i, j) && i < |ins| && j < |outs| && ins[i] > outs[j]
    ensures Walk(ins, outs, v, w, i, j + 1)
  {
    assert outs[j..][1..] == outs[j + 1..];
    KeptNext(w, j);
    var (a, b) := Cut(ins[i..], outs[j + 1..]);
    assert Kept(w[..j]) + ([outs[j]] + b) == (Kept(w[..j]) + [outs[j]]) + b;
  }

  lemma WalkIn(ins: seq<nat>, outs: seq<nat>, v: seq<Option<nat>>, w: seq<Option<nat>>, i: nat, j: nat)
    requires Walk(ins, outs, v, w, i, j) && i < |ins| && (j < |outs| ==> ins[i] < outs[j])
    ensures Walk(ins, outs, v, w, i + 1, j)
  {
    assert ins[i..][1..] == ins[i + 1..];
    KeptNext(v, i);
    var (a, b) := Cut(ins[i + 1..], outs[j..]);
    assert Kept(v[..i]) + ([ins[i]] + a) == (Kept(v[..i]) + [ins[i]]) + a;
    if j == |outs| {
      assert ins[i..] == [ins[i]] + ins[i + 1..];
    }
  }

  lemma WalkBoth(ins: seq<nat>, outs: seq<nat>, v: seq<Option<nat>>, w: seq<Option<nat>>, i: nat, j: nat)
    requires Walk(ins, outs, v, w, i, j) && i < |ins| && j < |outs| && ins[i] == outs[j]
    ensures Walk(ins, outs, v[i := None], w[j := None], i + 1, j + 1)
  {
    assert ins[i..][1..] == ins[i + 1..] && outs[j..][1..] == outs[j + 1..];
    KeptNext(v[i := None], i);
    KeptNext(w[j := None], j);
    assert v[i := None][..i] == v[..i] && w[j := None][..j] == w[..j];
    assert Kept(v[..i]) + [] == Kept(v[..i]) && Kept(w[..j]) + [] == Kept(w[..j]);
  }

  lemma WalkEnd(ins: seq<nat>, outs: seq<nat>, v: seq<Option<nat>>, w: seq<Option<nat>>, j: nat)
    requires Walk(ins, outs, v, w, |ins|, j)
    ensures Cut(ins, outs) == (Kept(v), Kept(w))
  {
    assert v[..|ins|] == v && ins[|ins|..] == [];
    KeptSplit(w[..j], w[j..]);
    assert w[..j] + w[j..] == w;
    KeptAll(w[j..], outs[j..]);
    assert Kept(v) + [] == Kept(v);
  }

  /** `NormalizeP`: sort both sides, null out equal pairs in one walk, drop the nulls. */
  method NormalizeP<P(!new)>(ghost g: Group<P>, ghost f: nat -> P, ins0: seq<nat>, outs0: seq<nat>)
    returns (a: seq<nat>, b: seq<nat>)
    requires Abelian(g)
    ensures CutOf(ins0, outs0, a, b) && Balance(g, f, a, b) == Balance(g, f, ins0, outs0)
  {
    hide Sort, Cut, Kept, Walk, CutOf, Balance, Abelian;
    var ins, outs := Sort(ins0), Sort(outs0);
    var v := new Option<nat>[|ins|](i requires 0 <= i < |ins| => Some(ins[i]));
    var w := new Option<nat>[|outs|](i requires 0 <= i < |outs| => Some(outs[i]));
    WalkStart(ins, outs, v[..], w[..]);
    var i, j := 0, 0;
    while i < |ins|
      invariant 0 <= i <= |ins| && 0 <= j <= |outs| && v.Length == |ins| && w.Length == |outs|
      invariant Walk(ins, outs, v[..], w[..], i, j)
    {
      while j < |outs| && ins[i] > outs[j]
        invariant 0 <= j <= |outs| && Walk(ins, outs, v[..], w[..], i, j)
      {
        WalkOut(ins, outs, v[..], w[..], i, j);
        j := j + 1;
      }
      if j < |outs| && ins[i] == outs[j] {
        WalkBoth(ins, outs, v[..], w[..], i, j);
        v[i], w[j] := None, None;
        j := j + 1;
      } else {
        WalkIn(ins, outs, v[..], w[..], i, j);
      }
      i := i + 1;
    }
    WalkEnd(ins, outs, v[..], w[..], j);
    a := Rebuild(v);
    b := Rebuild(w);
    CutIsCutOf(ins0, outs0);
    CutOfKeepsBalance(g, f, ins0, outs0, a, b);
  }

  lemma WalkStart(ins: seq<nat>, outs: seq<nat>, v: seq<Option<nat>>, w: seq<Option<nat>>)
    requires |v| == |ins| && |w| == |outs|
    requires (forall k :: 0 <= k < |ins| ==> v[k] == Some(ins[k])) && (forall k :: 0 <= k < |outs| ==> w[k] == Some(outs[k]))
    ensures Walk(ins, outs, v, w, 0, 0)
  {
    assert ins[0..] == ins && outs[0..] == outs && v[..0] == [] && w[..0] == [];
    var (a, b) := Cut(ins, outs);
    assert [] + a == a && [] + b == b;
  }

  // ----- While merging several transactions -----

  function Flat(rs: seq<seq<nat>>): seq<nat> {
    if rs == [] then [] else rs[0] + Flat(rs[1..])
  }

  lemma {:induction false} FlatDrop(rs: seq<seq<nat>>, i: nat)
    requires i < |rs| && rs[i] != []
    ensures multiset(Flat(rs)) == multiset(Flat(rs[i := rs[i][1..]])) + multiset{rs[i][0]}
  {
    var rs' := rs[i := rs[i][1..]];
    assert rs[i] == [rs[i][0]] + rs[i][1..];
    if i == 0 {
      assert rs'[1..] == rs[1..];
    } else {
      FlatDrop(rs[1..], i - 1);
      assert rs'[1..] == rs[1..][i - 1 := rs[1..][i - 1][1..]];
    }
  }

  lemma {:induction false} FlatMember(rs: seq<seq<nat>>, x: nat) returns (i: nat)
    requires x in Flat(rs)
    ensures i < |rs| && x in rs[i]
  {
    if x in rs[0] {
      i := 0;
    } else {
      i := FlatMember(rs[1..], x);
      i := i + 1;
    }
  }

  lemma {:induction false} FlatHolds(rs: seq<seq<nat>>, i: nat)
    requires i < |rs| && rs[i] != []
    ensures rs[i][0] in Flat(rs)
  {
    if i > 0 {
      FlatHolds(rs[1..], i - 1);
    }
  }

  ghost predicate AllOrdered(rs: seq<seq<nat>>) {
    forall i :: 0 <= i < |rs| ==> Ordered(rs[i])
  }

  /** Reader i has the least head, if any has one. */
  ghost predicate Least(rs: seq<seq<nat>>, i: Option<nat>) {
    if i.None? then forall k :: 0 <= k < |rs| ==> rs[k] == []
    else
      && i.value < |rs| && rs[i.value] != []
      && forall k :: 0 <= k < |rs| && rs[k] != [] ==> rs[i.value][0] <= rs[k][0]
  }

  /** The least head is the first of all the elements in order; without it the rest are in order. */
  lemma LeastIsFirst(rs: seq<seq<nat>>, i: Option<nat>)
    requires AllOrdered(rs) && Least(rs, i)
    ensures i.None? ==> Sort(Flat(rs)) == []
    ensures i.Some? ==>
      && Sort(Flat(rs)) == [rs[i.value][0]] + Sort(Flat(rs[i.value := rs[i.value][1..]]))
      && AllOrdered(rs[i.value := rs[i.value][1..]])
  {
    hide Sort, Flat;
    if i.None? {
      FlatEmpty(rs);
      SortEmpty();
    } else {
      FlatDrop(rs, i.value);
      forall y | y in Flat(rs) ensures rs[i.value][0] <= y {
        LeastBelow(rs, i.value, y);
      }
      SortHead(rs[i.value][0], Flat(rs), Flat(rs[i.value := rs[i.value][1..]]));
    }
  }

  lemma SortEmpty()
    ensures Sort([]) == []
  {
  }

  lemma LeastBelow(rs: seq<seq<nat>>, i: nat, y: nat)
    requires AllOrdered(rs) && Least(rs, Some(i)) && y in Flat(rs)
    ensures rs[i][0] <= y
  {
    hide Flat;
    var k := FlatMember(rs, y);
    var q :| 0 <= q < |rs[k]| && rs[k][q] == y;
    assert Ordered(rs[k]) && rs[i][0] <= rs[k][0];
    assert q > 0 ==> rs[k][0] <= rs[k][q];
  }

  lemma SortHead(x: nat, s: seq<nat>, s': seq<nat>)
    requires multiset(s) == multiset(s') + multiset{x} && forall y :: y in s ==> x <= y
    ensures Sort(s) == [x] + Sort(s')
  {
    hide Sort;
    SortProps(s);
    SortProps(s');
    forall y | y in Sort(s') ensures x <= y {
      assert y in multiset(Sort(s'));
      assert y in multiset(s) && y in s;
    }
    OrderedCons(x, Sort(s'));
    SortedUnique(Sort(s), [x] + Sort(s'));
  }

  lemma {:induction false} FlatEmpty(rs: seq<seq<nat>>)
    requires forall k :: 0 <= k < |rs| ==> rs[k] == []
    ensures Flat(rs) == []
  {
    if rs != [] {
      FlatEmpty(rs[1..]);
    }
  }

  /** The scan for the least head. */
  method FindLeast(rs: seq<seq<nat>>) returns (i: Option<nat>)
    ensures Least(rs, i)
  {
    i := None;
    var k := 0;
    while k < |rs|
      invariant 0 <= k <= |rs|
      invariant i.None? ==> forall q :: 0 <= q < k ==> rs[q] == []
      invariant i.Some? ==>
        && i.value < k && rs[i.value] != []
        && forall q :: 0 <= q < k && rs[q] != [] ==> rs[i.value][0] <= rs[q][0]
    {
      if rs[k] != [] && (i.None? || rs[i.value][0] > rs[k][0]) {
        i := Some(k);
      }
      k := k + 1;
    }
  }

  /** `Combine`: on any number of sorted transactions, what is written is the cut-through of all their elements. */
  method Combine<P(!new)>(ghost g: Group<P>, ghost f: nat -> P, ins0: seq<seq<nat>>, outs0: seq<seq<nat>>)
    returns (a: seq<nat>, b: seq<nat>)
    requires Abelian(g) && AllOrdered(ins0) && AllOrdered(outs0)
    ensures CutOf(Flat(ins0), Flat(outs0), a, b) && Balance(g, f, a, b) == Balance(g, f, Flat(ins0), Flat(outs0))
  {
    hide Sort, Cut, Flat, AllOrdered, Least, CutOf, Balance, Abelian;
    var ins, outs := ins0, outs0;
    a, b := [], [];
    ghost var goal := Cut(Sort(Flat(ins0)), Sort(Flat(outs0)));
    assert [] + goal.0 == goal.0 && [] + goal.1 == goal.1;
    while true
      invariant AllOrdered(ins) && AllOrdered(outs)
      invariant
        var (x, y) := Cut(Sort(Flat(ins)), Sort(Flat(outs)));
        goal == (a + x, b + y)
      decreases |Flat(ins)| + |Flat(outs)|
    {
      var i := FindLeast(ins);
      var j := FindLeast(outs);
      ghost var si, so := Sort(Flat(ins)), Sort(Flat(outs));
      LeastIsFirst(ins, i);
      LeastIsFirst(outs, j);
      LeastHead(ins, i);
      LeastHead(outs, j);
      if i.None? && j.None? {
        CutEmpty();
        assert a + [] == a && b + [] == b;
        break;
      }
      var takeIn, takeOut := i.Some?, j.Some?;
      if i.Some? && j.Some? {
        takeIn, takeOut := ins[i.value][0] <= outs[j.value][0], ins[i.value][0] >= outs[j.value][0];
      }
      ghost var ins', outs' := ins, outs;
      if takeIn {
        FlatDrop(ins, i.value);
        ins' := ins[i.value := ins[i.value][1..]];
        FlatSize(ins, ins', ins[i.value][0]);
      }
      if takeOut {
        FlatDrop(outs, j.value);
        outs' := outs[j.value := outs[j.value][1..]];
        FlatSize(outs, outs', outs[j.value][0]);
      }
      CutStep(a, b, si, so, Sort(Flat(ins')), Sort(Flat(outs')), takeIn, takeOut);
      if takeIn && !takeOut {
        a := a + [ins[i.value][0]];
      }
      if takeOut && !takeIn {
        b := b + [outs[j.value][0]];
      }
      if takeIn {
        ins := ins[i.value := ins[i.value][1..]];
      }
      if takeOut {
        outs := outs[j.value := outs[j.value][1..]];
      }
    }
    CutIsCutOf(Flat(ins0), Flat(outs0));
    CutOfKeepsBalance(g, f, Flat(ins0), Flat(outs0), a, b);
  }

  lemma LeastHead(rs: seq<seq<nat>>, i: Option<nat>)
    requires Least(rs, i)
    ensures i.Some? ==> i.value < |rs| && rs[i.value] != []
  {
  }

  lemma CutEmpty()
    ensures Cut([], []) == ([], [])
  {
  }

  lemma FlatSize(rs: seq<seq<nat>>, rs': seq<seq<nat>>, x: nat)
    requires multiset(Flat(rs)) == multiset(Flat(rs')) + multiset{x}
    ensures |Flat(rs)| == |Flat(rs')| + 1
  {
    assert |multiset(Flat(rs))| == |Flat(rs)| && |multiset(Flat(rs'))| == |Flat(rs')|;
  }

  /** One turn of the merge is one step of the cut-through. */
  lemma CutStep(a: seq<nat>, b: seq<nat>, si: seq<nat>, so: seq<nat>, si': seq<nat>, so': seq<nat>, takeIn: bool,
                takeOut: bool)
    requires takeIn || takeOut
    requires if takeIn then si != [] && si == [si[0]] + si' else si' == si
    requires if takeOut then so != [] && so == [so[0]] + so' else so' == so
    requires takeIn && !takeOut ==> so == [] || si[0] < so[0]
    requires takeOut && !takeIn ==> si == [] || so[0] < si[0]
    requires takeIn && takeOut ==> si[0] == so[0]
    ensures
      var (x, y) := Cut(si, so);
      var (x', y') := Cut(si', so');
      && a + x == (if takeIn && !takeOut then a + [si[0]] else a) + x'
      && b + y == (if takeOut && !takeIn then b + [so[0]] else b) + y'
  {
    if takeIn {
      assert si[1..] == si';
    }
    if takeOut {
      assert so[1..] == so';
    }
    var (x', y') := Cut(si', so');
    if takeIn && !takeOut {
      assert a + ([si[0]] + x') == (a + [si[0]]) + x';
    } else if takeOut && !takeIn {
      assert b + ([so[0]] + y') == (b + [so[0]]) + y';
    }
  }

  /** Merging sorted transactions and normalizing all their elements, in any order, leave the same. */
  lemma CombineIsNormalize(ins: seq<seq<nat>>, outs: seq<seq<nat>>, ins': seq<nat>, outs': seq<nat>, a: seq<nat>, b: seq<nat>,
                           a': seq<nat>, b': seq<nat>)
    requires multiset(ins') == multiset(Flat(ins)) && multiset(outs') == multiset(Flat(outs))
    requires CutOf(Flat(ins), Flat(outs), a, b) && CutOf(ins', outs', a', b')
    ensures (a, b) == (a', b')
  {
    hide Sort, Cut, Flat, Ordered, Min;
    forall c ensures LeftOver(ins', outs', a, b, c) {
      assert LeftOver(Flat(ins), Flat(outs), a, b, c);
    }
    CutOfUnique(ins', outs', a, b);
    CutOfUnique(ins', outs', a', b');
  }
}
