/** Merkle proofs for several leaves of the history at once: no node is given twice, because the nodes on the way up are kept
    from one leaf to the next. The tree is the mountain range over the leaves: rows of nodes, each made of the pairs of the row
    below, a last one without a pair being taken up as it is. */
module MultiProof {
  import opened Words
  import opened ChainWork
  import opened ChainWorkCreate
  import opened ChainWorkCrop

  type Combine = (nat, nat) -> nat

  /** Whether a tip commits to a hash of the history before it. */
  type Commitment = (SystemState, nat) -> bool

  // ----- Rows -----

  function Up(c: Combine, row: seq<nat>): (r: seq<nat>)
    ensures |r| == (|row| + 1) / 2
    ensures forall i :: 0 <= i < |r| ==> r[i] == if 2 * i + 1 < |row| then c(row[2 * i], row[2 * i + 1]) else row[2 * i]
  {
    seq((|row| + 1) / 2, i requires 0 <= i < (|row| + 1) / 2 =>
      if 2 * i + 1 < |row| then c(row[2 * i], row[2 * i + 1]) else row[2 * i])
  }

  function Row(c: Combine, leaves: seq<nat>, h: nat): seq<nat> {
    if h == 0 then leaves else Up(c, Row(c, leaves, h - 1))
  }

  /** The hash of the whole history. */
  function Root(c: Combine, row: seq<nat>): nat
    requires row != []
    decreases |row|
  {
    if |row| == 1 then row[0] else Root(c, Up(c, row))
  }

  function Sibling(x: nat): nat {
    if x % 2 == 0 then x + 1 else x - 1
  }

  /** A node joined with its sibling. */
  function Join(c: Combine, x: nat, hv: nat, sibling: nat): nat {
    if x % 2 == 0 then c(hv, sibling) else c(sibling, hv)
  }

  lemma Ascends(c: Combine, row: seq<nat>, x: nat)
    requires x < |row|
    ensures x / 2 < |Up(c, row)|
    ensures Up(c, row)[x / 2] == if Sibling(x) < |row| then Join(c, x, row[x], row[Sibling(x)]) else row[x]
    ensures Sibling(Sibling(x)) == x
  {
    assert x == if x % 2 == 0 then 2 * (x / 2) else 2 * (x / 2) + 1;
  }

  // ----- Builder -----

  /** A node on the way up, by its height and the index of its sibling. */
  datatype Place = Place(h: nat, x: nat)

  /** What is left of the kept nodes at a given place: those at or below its height go, unless it is one of them. */
  function Unwind(last: seq<Place>, at: Place): (seq<Place>, bool) {
    if last == [] || last[|last| - 1].h > at.h then (last, false)
    else if last[|last| - 1] == at then (last, true)
    else Unwind(last[..|last| - 1], at)
  }

  datatype Built = Built(data: seq<nat>, last: seq<Place>, rev: seq<Place>)

  /** The way up from node x of a row: a sibling for each step, up to a node that was kept. */
  function BuildPath(c: Combine, row: seq<nat>, x: nat, h: nat, last: seq<Place>, rev: seq<Place>): Built
    requires x < |row|
    decreases |row|
  {
    if |row| == 1 then Built([], last, rev)
    else
      var y := Sibling(x);
      if y >= |row| then BuildPath(c, Up(c, row), x / 2, h + 1, last, rev)
      else
        var (kept, hit) := Unwind(last, Place(h, y));
        if hit then Built([], kept, rev)
        else
          var b := BuildPath(c, Up(c, row), x / 2, h + 1, kept, if h > 0 then rev + [Place(h, y)] else rev);
          b.(data := [row[y]] + b.data)
  }

  function Reverse<T>(s: seq<T>): seq<T> {
    if s == [] then [] else Reverse(s[1..]) + [s[0]]
  }

  /** `Builder::Add`: the data for a leaf, and what is kept for the next. */
  function Add(c: Combine, leaves: seq<nat>, last: seq<Place>, k: nat): (seq<nat>, seq<Place>)
    requires k < |leaves|
  {
    var b := BuildPath(c, leaves, k, 0, last, []);
    (b.data, b.last + Reverse(b.rev))
  }

  /** What the builder keeps after the given leaves. */
  function KeptAfter(c: Combine, leaves: seq<nat>, done: seq<int>): seq<Place> {
    if done == [] then []
    else
      var last, k := KeptAfter(c, leaves, done[..|done| - 1]), done[|done| - 1];
      if 0 <= k < |leaves| then Add(c, leaves, last, k).1 else last
  }

  function BuilderFor(c: Combine, leaves: seq<nat>): Builder {
    (done: seq<int>, k: int) => if 0 <= k < |leaves| then Add(c, leaves, KeptAfter(c, leaves, done), k).0 else []
  }

  // ----- Verifier -----

  /** A kept node with its hash. */
  datatype Mark = Mark(at: Place, hash: nat)

  function Places(ms: seq<Mark>): (ps: seq<Place>)
    ensures |ps| == |ms| && forall i :: 0 <= i < |ms| ==> ps[i] == ms[i].at
  {
    seq(|ms|, i requires 0 <= i < |ms| => ms[i].at)
  }

  function UnwindMarks(last: seq<Mark>, at: Place): (seq<Mark>, bool) {
    if last == [] || last[|last| - 1].at.h > at.h then (last, false)
    else if last[|last| - 1].at == at then (last, true)
    else UnwindMarks(last[..|last| - 1], at)
  }

  /** Data taken, what is kept, and the hash at the top when the way up was followed to the end. */
  datatype Verified = Verified(used: nat, last: seq<Mark>, rev: seq<Mark>, top: Option<nat>)

  /** The way up from node x of a row of n, with its hash; None where the verifier fails. */
  function VerifyPath(c: Combine, n: nat, x: nat, h: nat, hv: nat, last: seq<Mark>, rev: seq<Mark>, data: seq<nat>): Option<Verified>
    requires x < n
    decreases n
  {
    if n == 1 then Some(Verified(0, last, rev, Some(hv)))
    else
      var y := Sibling(x);
      if y >= n then VerifyPath(c, (n + 1) / 2, x / 2, h + 1, hv, last, rev, data)
      else
        var (kept, hit) := UnwindMarks(last, Place(h, y));
        if hit then
          if kept != [] && kept[|kept| - 1].hash == hv then Some(Verified(0, kept, rev, None)) else None
        else if data == [] then None
        else
          var r := VerifyPath(c, (n + 1) / 2, x / 2, h + 1, Join(c, x, hv, data[0]), kept,
                              if h > 0 then rev + [Mark(Place(h, y), hv)] else rev, data[1..]);
          if r.None? then None else Some(r.value.(used := r.value.used + 1))
  }

  /** `Verifier::Process`: data taken and what is kept, or None. */
  function Process(c: Combine, tip: SystemState, rootOk: Commitment, last: seq<Mark>, leaf: Leaf, data: seq<nat>)
    : Option<(nat, seq<Mark>)>
  {
    var n := tip.height - FIRST_HEIGHT;
    if leaf.pos < 0 || leaf.pos >= n then None
    else
      var r := VerifyPath(c, n, leaf.pos, 0, leaf.hash, last, [], data);
      if r.None? || (r.value.top.Some? && !rootOk(tip, r.value.top.value)) then None
      else Some((r.value.used, r.value.last + Reverse(r.value.rev)))
  }

  /** What the verifier keeps after the given leaves, and the data left. */
  function Replay(c: Combine, tip: SystemState, rootOk: Commitment, done: seq<Leaf>, data: seq<nat>): Option<(seq<Mark>, seq<nat>)> {
    if done == [] then Some(([], data))
    else
      var r := Replay(c, tip, rootOk, done[..|done| - 1], data);
      if r.None? then None
      else
        var q := Process(c, tip, rootOk, r.value.0, done[|done| - 1], r.value.1);
        if q.None? || q.value.0 > |r.value.1| then None else Some((q.value.1, r.value.1[q.value.0..]))
  }

  /** What the verifier says of one more leaf. */
  function CheckLeaf(c: Combine, tip: SystemState, rootOk: Commitment, done: seq<Leaf>, taken: seq<nat>, leaf: Leaf, data: seq<nat>)
    : Option<nat>
  {
    var r := Replay(c, tip, rootOk, done, taken);
    if r.None? then None
    else
      var q := Process(c, tip, rootOk, r.value.0, leaf, data);
      if q.None? then None else Some(q.value.0)
  }

  // ----- The verifier follows the builder -----

  /** Every kept hash is that of the node. */
  ghost predicate Truthful(c: Combine, leaves: seq<nat>, ms: seq<Mark>) {
    forall i :: 0 <= i < |ms| ==> TrueMark(c, leaves, ms[i])
  }

  ghost predicate TrueMark(c: Combine, leaves: seq<nat>, m: Mark) {
    var row, x := Row(c, leaves, m.at.h), Sibling(m.at.x);
    x < |row| && m.hash == row[x]
  }

  lemma {:induction false} UnwindSame(last: seq<Mark>, at: Place)
    ensures
      var (a, hit) := UnwindMarks(last, at);
      Unwind(Places(last), at) == (Places(a), hit) && a <= last && (hit ==> a != [] && a[|a| - 1].at == at)
  {
    if last == [] || last[|last| - 1].at.h > at.h || last[|last| - 1].at == at {
    } else {
      UnwindSame(last[..|last| - 1], at);
      assert Places(last)[..|last| - 1] == Places(last[..|last| - 1]);
    }
  }

  lemma PlacesSnoc(ms: seq<Mark>, m: Mark)
    ensures Places(ms + [m]) == Places(ms) + [m.at]
  {
  }

  /** On the data the builder adds, the verifier goes the same way and keeps the same nodes, with their hashes. */
  ghost predicate Follows(c: Combine, leaves: seq<nat>, b: Built, r: Option<Verified>, root: nat) {
    && r.Some? && r.value.used == |b.data| && Places(r.value.last) == b.last && Places(r.value.rev) == b.rev
    && Truthful(c, leaves, r.value.last) && Truthful(c, leaves, r.value.rev)
    && (r.value.top.Some? ==> r.value.top.value == root)
  }

  lemma BuildUp(c: Combine, row: seq<nat>, x: nat, h: nat, last: seq<Place>, rev: seq<Place>)
    requires x < |row| && |row| > 1
    ensures
      var y, (kept, hit) := Sibling(x), Unwind(last, Place(h, Sibling(x)));
      BuildPath(c, row, x, h, last, rev) ==
        if y >= |row| then BuildPath(c, Up(c, row), x / 2, h + 1, last, rev)
        else if hit then Built([], kept, rev)
        else
          var b := BuildPath(c, Up(c, row), x / 2, h + 1, kept, if h > 0 then rev + [Place(h, y)] else rev);
          b.(data := [row[y]] + b.data)
  {
    hide Unwind;
  }

  lemma VerifyUp(c: Combine, n: nat, x: nat, h: nat, hv: nat, last: seq<Mark>, rev: seq<Mark>, data: seq<nat>)
    requires x < n && n > 1
    ensures
      var y, (kept, hit) := Sibling(x), UnwindMarks(last, Place(h, Sibling(x)));
      VerifyPath(c, n, x, h, hv, last, rev, data) ==
        if y >= n then VerifyPath(c, (n + 1) / 2, x / 2, h + 1, hv, last, rev, data)
        else if hit then
          if kept != [] && kept[|kept| - 1].hash == hv then Some(Verified(0, kept, rev, None)) else None
        else if data == [] then None
        else
          var r := VerifyPath(c, (n + 1) / 2, x / 2, h + 1, Join(c, x, hv, data[0]), kept,
                              if h > 0 then rev + [Mark(Place(h, y), hv)] else rev, data[1..]);
          if r.None? then None else Some(r.value.(used := r.value.used + 1))
  {
    hide UnwindMarks, Join;
  }

  lemma {:induction false} PathFollows(c: Combine, leaves: seq<nat>, row: seq<nat>, x: nat, h: nat, last: seq<Mark>, rev: seq<Mark>,
                                       rest: seq<nat>)
    requires row == Row(c, leaves, h) && x < |row| && Truthful(c, leaves, last) && Truthful(c, leaves, rev)
    ensures
      var b := BuildPath(c, row, x, h, Places(last), Places(rev));
      Follows(c, leaves, b, VerifyPath(c, |row|, x, h, row[x], last, rev, b.data + rest), Root(c, row))
    decreases |row|
  {
    hide *;
    if |row| == 1 {
      PathEnds(c, leaves, row, x, h, last, rev, rest);
    } else {
      var y, up := Sibling(x), Up(c, row);
      NextRow(c, leaves, h);
      Ascends(c, row, x);
      var (kept, hit) := UnwindMarks(last, Place(h, y));
      if y >= |row| {
        PathFollows(c, leaves, up, x / 2, h + 1, last, rev, rest);
        PathCarried(c, leaves, row, x, h, last, rev, rest);
      } else if hit {
        PathHit(c, leaves, row, x, h, last, rev, rest);
      } else {
        var m := Mark(Place(h, y), row[x]);
        UnwindSame(last, Place(h, y));
        PrefixTruthful(c, leaves, last, kept);
        MarkTruthful(c, leaves, rev, m);
        var rev' := if h > 0 then rev + [m] else rev;
        PathFollows(c, leaves, up, x / 2, h + 1, kept, rev', rest);
        PathJoined(c, leaves, row, x, h, last, rev, rest);
      }
    }
  }

  lemma NextRow(c: Combine, leaves: seq<nat>, h: nat)
    ensures Row(c, leaves, h + 1) == Up(c, Row(c, leaves, h))
  {
  }

  lemma PathEnds(c: Combine, leaves: seq<nat>, row: seq<nat>, x: nat, h: nat, last: seq<Mark>, rev: seq<Mark>, rest: seq<nat>)
    requires |row| == 1 && x == 0 && Truthful(c, leaves, last) && Truthful(c, leaves, rev)
    ensures
      var b := BuildPath(c, row, x, h, Places(last), Places(rev));
      Follows(c, leaves, b, VerifyPath(c, |row|, x, h, row[x], last, rev, b.data + rest), Root(c, row))
  {
  }

  lemma RootUp(c: Combine, row: seq<nat>)
    requires |row| > 1
    ensures Root(c, row) == Root(c, Up(c, row))
  {
  }

  lemma PathCarried(c: Combine, leaves: seq<nat>, row: seq<nat>, x: nat, h: nat, last: seq<Mark>, rev: seq<Mark>, rest: seq<nat>)
    requires x < |row| && |row| > 1 && Sibling(x) >= |row| && x / 2 < |Up(c, row)| && Up(c, row)[x / 2] == row[x]
    requires
      var b := BuildPath(c, Up(c, row), x / 2, h + 1, Places(last), Places(rev));
      Follows(c, leaves, b, VerifyPath(c, |Up(c, row)|, x / 2, h + 1, row[x], last, rev, b.data + rest), Root(c, Up(c, row)))
    ensures
      var b := BuildPath(c, row, x, h, Places(last), Places(rev));
      Follows(c, leaves, b, VerifyPath(c, |row|, x, h, row[x], last, rev, b.data + rest), Root(c, row))
  {
    hide BuildPath, VerifyPath, Root, Follows, Places, Unwind, UnwindMarks, Join;
    var b := BuildPath(c, row, x, h, Places(last), Places(rev));
    BuildUp(c, row, x, h, Places(last), Places(rev));
    VerifyUp(c, |row|, x, h, row[x], last, rev, b.data + rest);
    RootUp(c, row);
  }

  lemma PathHit(c: Combine, leaves: seq<nat>, row: seq<nat>, x: nat, h: nat, last: seq<Mark>, rev: seq<Mark>, rest: seq<nat>)
    requires row == Row(c, leaves, h) && x < |row| && |row| > 1 && Sibling(x) < |row| && Sibling(Sibling(x)) == x
    requires Truthful(c, leaves, last) && Truthful(c, leaves, rev) && UnwindMarks(last, Place(h, Sibling(x))).1
    ensures
      var b := BuildPath(c, row, x, h, Places(last), Places(rev));
      Follows(c, leaves, b, VerifyPath(c, |row|, x, h, row[x], last, rev, b.data + rest), Root(c, row))
  {
    hide BuildPath, VerifyPath, Root, Places, Unwind, UnwindMarks, Join, Truthful, Row, Sibling;
    var b := BuildPath(c, row, x, h, Places(last), Places(rev));
    BuildUp(c, row, x, h, Places(last), Places(rev));
    VerifyUp(c, |row|, x, h, row[x], last, rev, b.data + rest);
    UnwindSame(last, Place(h, Sibling(x)));
    var kept := UnwindMarks(last, Place(h, Sibling(x))).0;
    PrefixTruthful(c, leaves, last, kept);
    KeptHash(c, leaves, kept, row, x, h);
  }

  lemma PathJoined(c: Combine, leaves: seq<nat>, row: seq<nat>, x: nat, h: nat, last: seq<Mark>, rev: seq<Mark>, rest: seq<nat>)
    requires x < |row| && |row| > 1 && Sibling(x) < |row| && !UnwindMarks(last, Place(h, Sibling(x))).1
    requires x / 2 < |Up(c, row)| && Up(c, row)[x / 2] == Join(c, x, row[x], row[Sibling(x)])
    requires
      var kept, m := UnwindMarks(last, Place(h, Sibling(x))).0, Mark(Place(h, Sibling(x)), row[x]);
      var rev' := if h > 0 then rev + [m] else rev;
      var b := BuildPath(c, Up(c, row), x / 2, h + 1, Places(kept), Places(rev'));
      Follows(c, leaves, b, VerifyPath(c, |Up(c, row)|, x / 2, h + 1, Up(c, row)[x / 2], kept, rev', b.data + rest),
              Root(c, Up(c, row)))
    ensures
      var b := BuildPath(c, row, x, h, Places(last), Places(rev));
      Follows(c, leaves, b, VerifyPath(c, |row|, x, h, row[x], last, rev, b.data + rest), Root(c, row))
  {
    hide BuildPath, VerifyPath, Root, Places, Unwind, UnwindMarks, Join, Truthful, Sibling, Up;
    var y := Sibling(x);
    var kept, m := UnwindMarks(last, Place(h, y)).0, Mark(Place(h, y), row[x]);
    var rev' := if h > 0 then rev + [m] else rev;
    BuiltJoined(c, row, x, h, last, rev);
    RootUp(c, row);
    var b' := BuildPath(c, Up(c, row), x / 2, h + 1, Places(kept), Places(rev'));
    VerifiedJoined(c, row, x, h, last, rev, b'.data, rest);
  }

  lemma BuiltJoined(c: Combine, row: seq<nat>, x: nat, h: nat, last: seq<Mark>, rev: seq<Mark>)
    requires x < |row| && |row| > 1 && Sibling(x) < |row| && !UnwindMarks(last, Place(h, Sibling(x))).1
    ensures
      var kept, m := UnwindMarks(last, Place(h, Sibling(x))).0, Mark(Place(h, Sibling(x)), row[x]);
      var b := BuildPath(c, Up(c, row), x / 2, h + 1, Places(kept), Places(if h > 0 then rev + [m] else rev));
      BuildPath(c, row, x, h, Places(last), Places(rev)) == b.(data := [row[Sibling(x)]] + b.data)
  {
    hide BuildPath, Places, Unwind, UnwindMarks, Sibling, Up;
    BuildUp(c, row, x, h, Places(last), Places(rev));
    UnwindSame(last, Place(h, Sibling(x)));
    PlacesSnoc(rev, Mark(Place(h, Sibling(x)), row[x]));
  }

  lemma VerifiedJoined(c: Combine, row: seq<nat>, x: nat, h: nat, last: seq<Mark>, rev: seq<Mark>, data: seq<nat>, rest: seq<nat>)
    requires x < |row| && |row| > 1 && Sibling(x) < |row| && !UnwindMarks(last, Place(h, Sibling(x))).1
    requires x / 2 < |Up(c, row)| && Up(c, row)[x / 2] == Join(c, x, row[x], row[Sibling(x)])
    ensures
      var kept, m := UnwindMarks(last, Place(h, Sibling(x))).0, Mark(Place(h, Sibling(x)), row[x]);
      var r := VerifyPath(c, |Up(c, row)|, x / 2, h + 1, Up(c, row)[x / 2], kept, if h > 0 then rev + [m] else rev, data + rest);
      VerifyPath(c, |row|, x, h, row[x], last, rev, [row[Sibling(x)]] + data + rest) ==
      if r.None? then None else Some(r.value.(used := r.value.used + 1))
  {
    hide VerifyPath, UnwindMarks, Join, Sibling;
    VerifyUp(c, |row|, x, h, row[x], last, rev, [row[Sibling(x)]] + data + rest);
    Consumed(row[Sibling(x)], data, rest);
  }

  lemma Consumed(y: nat, data: seq<nat>, rest: seq<nat>)
    ensures [y] + data + rest != [] && ([y] + data + rest)[0] == y && ([y] + data + rest)[1..] == data + rest
  {
  }

  lemma PrefixTruthful(c: Combine, leaves: seq<nat>, ms: seq<Mark>, a: seq<Mark>)
    requires Truthful(c, leaves, ms) && a <= ms
    ensures Truthful(c, leaves, a)
  {
    hide TrueMark;
  }

  lemma KeptHash(c: Combine, leaves: seq<nat>, kept: seq<Mark>, row: seq<nat>, x: nat, h: nat)
    requires Truthful(c, leaves, kept) && kept != [] && kept[|kept| - 1].at == Place(h, Sibling(x))
    requires row == Row(c, leaves, h) && x < |row| && Sibling(Sibling(x)) == x
    ensures kept[|kept| - 1].hash == row[x]
  {
    hide Sibling, Row;
    assert TrueMark(c, leaves, kept[|kept| - 1]);
  }

  lemma MarkTruthful(c: Combine, leaves: seq<nat>, rev: seq<Mark>, m: Mark)
    requires Truthful(c, leaves, rev) && Sibling(m.at.x) < |Row(c, leaves, m.at.h)|
    requires m.hash == Row(c, leaves, m.at.h)[Sibling(m.at.x)]
    ensures Truthful(c, leaves, rev + [m])
  {
    hide Sibling, Row;
  }

  lemma {:induction false} ReversePlaces(ms: seq<Mark>)
    ensures Places(Reverse(ms)) == Reverse(Places(ms))
  {
    if ms != [] {
      ReversePlaces(ms[1..]);
      PlacesSnoc(Reverse(ms[1..]), ms[0]);
      assert Places(ms)[1..] == Places(ms[1..]);
    }
  }

  lemma {:induction false} ReverseTruthful(c: Combine, leaves: seq<nat>, ms: seq<Mark>)
    requires Truthful(c, leaves, ms)
    ensures Truthful(c, leaves, Reverse(ms))
  {
    hide TrueMark;
    if ms != [] {
      ReverseTruthful(c, leaves, ms[1..]);
    }
  }

  lemma PlacesAppend(a: seq<Mark>, b: seq<Mark>)
    ensures Places(a + b) == Places(a) + Places(b)
  {
  }

  /** The tip is the one after the given leaves, and commits to them. */
  ghost predicate Binds(c: Combine, tip: SystemState, rootOk: Commitment, leaves: seq<nat>) {
    tip.height - FIRST_HEIGHT == |leaves| > 0 && rootOk(tip, Root(c, leaves))
  }

  /** One leaf: the verifier takes what the builder added, and keeps what it keeps. */
  lemma ProcessFollows(c: Combine, leaves: seq<nat>, tip: SystemState, rootOk: Commitment, last: seq<Mark>, k: nat, rest: seq<nat>)
    requires k < |leaves| && Truthful(c, leaves, last) && Binds(c, tip, rootOk, leaves)
    ensures
      var (data, kept) := Add(c, leaves, Places(last), k);
      var q := Process(c, tip, rootOk, last, Leaf(k, leaves[k]), data + rest);
      q.Some? && q.value.0 == |data| && Places(q.value.1) == kept && Truthful(c, leaves, q.value.1)
  {
    hide VerifyPath, BuildPath, Root, TrueMark;
    assert Row(c, leaves, 0) == leaves && Places([]) == [];
    PathFollows(c, leaves, leaves, k, 0, last, [], rest);
    var b := BuildPath(c, leaves, k, 0, Places(last), []);
    var r := VerifyPath(c, |leaves|, k, 0, leaves[k], last, [], b.data + rest).value;
    ReversePlaces(r.rev);
    ReverseTruthful(c, leaves, r.rev);
    PlacesAppend(r.last, Reverse(r.rev));
    AppendTruthful(c, leaves, r.last, Reverse(r.rev));
  }

  lemma AppendTruthful(c: Combine, leaves: seq<nat>, a: seq<Mark>, b: seq<Mark>)
    requires Truthful(c, leaves, a) && Truthful(c, leaves, b)
    ensures Truthful(c, leaves, a + b)
  {
    hide TrueMark;
  }

  ghost predicate Positions(leaves: seq<nat>, done: seq<int>) {
    forall i :: 0 <= i < |done| ==> 0 <= done[i] < |leaves|
  }

  function LeavesAt(leaves: seq<nat>, done: seq<int>): (r: seq<Leaf>)
    requires Positions(leaves, done)
    ensures |r| == |done| && forall i :: 0 <= i < |r| ==> r[i] == Leaf(done[i], leaves[done[i]])
  {
    seq(|done|, i requires 0 <= i < |done| => Leaf(done[i], leaves[done[i]]))
  }

  lemma BuilderGives(c: Combine, leaves: seq<nat>, done: seq<int>, k: nat)
    requires k < |leaves|
    ensures BuilderFor(c, leaves)(done, k) == Add(c, leaves, KeptAfter(c, leaves, done), k).0
    ensures KeptAfter(c, leaves, done + [k]) == Add(c, leaves, KeptAfter(c, leaves, done), k).1
  {
    hide Add;
    assert (done + [k])[..|done|] == done;
  }

  lemma ReplaySnoc(c: Combine, tip: SystemState, rootOk: Commitment, done: seq<Leaf>, leaf: Leaf, data: seq<nat>)
    ensures
      var r := Replay(c, tip, rootOk, done, data);
      Replay(c, tip, rootOk, done + [leaf], data) ==
        if r.None? then None
        else
          var q := Process(c, tip, rootOk, r.value.0, leaf, r.value.1);
          if q.None? || q.value.0 > |r.value.1| then None else Some((q.value.1, r.value.1[q.value.0..]))
  {
    hide Process;
    assert (done + [leaf])[..|done|] == done;
  }

  /** Several leaves, in any order. */
  lemma {:induction false} ReplayFollows(c: Combine, leaves: seq<nat>, tip: SystemState, rootOk: Commitment, done: seq<int>,
                                         rest: seq<nat>)
    requires Positions(leaves, done) && Binds(c, tip, rootOk, leaves)
    ensures
      var r := Replay(c, tip, rootOk, LeavesAt(leaves, done), DataOf(BuilderFor(c, leaves), done) + rest);
      r.Some? && Places(r.value.0) == KeptAfter(c, leaves, done) && Truthful(c, leaves, r.value.0) && r.value.1 == rest
  {
    if done == [] {
      assert [] + rest == rest && Places([]) == [];
    } else {
      hide Process, Add, Truthful, Binds, KeptAfter, Replay, BuilderFor, DataOf, Places;
      var bld, n := BuilderFor(c, leaves), |done| - 1;
      var front, k := done[..n], done[n];
      assert done == front + [k];
      var data := bld(front, k);
      DataSnoc(bld, front, k);
      Regroup(DataOf(bld, front), data, rest);
      ReplayFollows(c, leaves, tip, rootOk, front, data + rest);
      assert LeavesAt(leaves, done) == LeavesAt(leaves, front) + [Leaf(k, leaves[k])];
      ReplaySnoc(c, tip, rootOk, LeavesAt(leaves, front), Leaf(k, leaves[k]), DataOf(bld, done) + rest);
      var last := Replay(c, tip, rootOk, LeavesAt(leaves, front), DataOf(bld, done) + rest).value.0;
      BuilderGives(c, leaves, front, k);
      ProcessFollows(c, leaves, tip, rootOk, last, k, rest);
      assert (data + rest)[|data|..] == rest;
    }
  }

  lemma Regroup(a: seq<nat>, b: seq<nat>, c: seq<nat>)
    ensures (a + b) + c == a + (b + c)
  {
  }

  // ----- For proofs of chain work -----

  /** The network's Merkle verifier is this one, over the states before the tip, against what the tip commits to. */
  ghost predicate Uses(env: Network, c: Combine, rootOk: Commitment) {
    forall tip, done, taken, leaf, data :: env.check(tip, done, taken, leaf, data) ==
      CheckLeaf(c, tip, rootOk, done, taken, leaf, data)
  }

  /** The hashes of the states before the tip. */
  function History(env: Network, chain: seq<SystemState>): (r: seq<nat>)
    requires chain != []
    ensures |r| == |chain| - 1 && forall i :: 0 <= i < |r| ==> r[i] == env.hash(chain[i])
  {
    seq(|chain| - 1, i requires 0 <= i < |chain| - 1 => env.hash(chain[i]))
  }

  /** The tip commits to the states before it. */
  ghost predicate Commits(env: Network, c: Combine, rootOk: Commitment, chain: seq<SystemState>)
    requires chain != []
  {
    |chain| > 1 ==> rootOk(chain[|chain| - 1], Root(c, History(env, chain)))
  }

  lemma ProvenByMultiProof(env: Network, c: Combine, rootOk: Commitment, chain: seq<SystemState>, done: seq<int>, k: nat,
                           rest: seq<nat>)
    requires Uses(env, c, rootOk) && Chain(env, chain) && Commits(env, c, rootOk, chain)
    requires k < |chain| - 1 && Above(chain, done, k + 1)
    ensures InChain(chain, done) && ProvenAt(env, chain, BuilderFor(c, History(env, chain)), done, k, rest)
  {
    hide Replay, Process, Add, KeptAfter, DataOf, Truthful, Places, Root, BuilderFor;
    var tip, hs := chain[|chain| - 1], History(env, chain);
    var bld := BuilderFor(c, hs);
    assert Binds(c, tip, rootOk, hs);
    assert Leaves(env, chain, done) == LeavesAt(hs, done);
    assert DataOf(bld, done) + [] == DataOf(bld, done);
    ReplayFollows(c, hs, tip, rootOk, done, []);
    var last := Replay(c, tip, rootOk, LeavesAt(hs, done), DataOf(bld, done)).value.0;
    BuilderGives(c, hs, done, k);
    ProcessFollows(c, hs, tip, rootOk, last, k, rest);
  }

  /** What the builder adds for the states of a chain, the verifier accepts. */
  lemma MultiProofIsHonest(env: Network, c: Combine, rootOk: Commitment, chain: seq<SystemState>)
    requires Uses(env, c, rootOk) && Chain(env, chain) && Commits(env, c, rootOk, chain)
    ensures Honest(env, chain, BuilderFor(c, History(env, chain)))
  {
    hide Uses, Commits, Above, ProvenAt, BuilderFor;
    var bld := BuilderFor(c, History(env, chain));
    forall done, k: nat, rest | k < |chain| - 1 && Above(chain, done, k + 1)
      ensures InChain(chain, done) && ProvenAt(env, chain, bld, done, k, rest)
    {
      ProvenByMultiProof(env, c, rootOk, chain, done, k, rest);
    }
  }

  // ----- Cropping -----

  /** The verifier reads no more than it takes. */
  lemma {:induction false} PathLocal(c: Combine, n: nat, x: nat, h: nat, hv: nat, last: seq<Mark>, rev: seq<Mark>, data: seq<nat>,
                                     data': seq<nat>)
    requires x < n && VerifyPath(c, n, x, h, hv, last, rev, data).Some?
    ensures VerifyPath(c, n, x, h, hv, last, rev, data).value.used <= |data|
    ensures
      var r := VerifyPath(c, n, x, h, hv, last, rev, data);
      r.value.used <= |data'| && data[..r.value.used] == data'[..r.value.used] ==>
        VerifyPath(c, n, x, h, hv, last, rev, data') == r
    decreases n
  {
    if n > 1 {
      hide UnwindMarks, Join, VerifyPath;
      var y := Sibling(x);
      VerifyUp(c, n, x, h, hv, last, rev, data);
      VerifyUp(c, n, x, h, hv, last, rev, data');
      var (kept, hit) := UnwindMarks(last, Place(h, y));
      if y >= n {
        PathLocal(c, (n + 1) / 2, x / 2, h + 1, hv, last, rev, data, data');
      } else if !hit {
        var rev' := if h > 0 then rev + [Mark(Place(h, y), hv)] else rev;
        var hv' := Join(c, x, hv, data[0]);
        PathLocal(c, (n + 1) / 2, x / 2, h + 1, hv', kept, rev', data[1..], if data' == [] then [] else data'[1..]);
        var used := VerifyPath(c, n, x, h, hv, last, rev, data).value.used;
        if used <= |data'| && data[..used] == data'[..used] {
          assert data[..used][0] == data'[..used][0];
          assert data[1..][..used - 1] == data[..used][1..] && data'[1..][..used - 1] == data'[..used][1..];
        }
      }
    }
  }

  /** So proofs over it can be cropped. */
  lemma MultiProofIsLocal(env: Network, c: Combine, rootOk: Commitment)
    requires Uses(env, c, rootOk)
    ensures Merkle(env)
  {
    hide VerifyPath, Replay;
    forall tip, done, taken, leaf, data | env.check(tip, done, taken, leaf, data).Some?
      ensures env.check(tip, done, taken, leaf, data).value <= |data|
    {
      CheckIsLocal(env, c, rootOk, tip, done, taken, leaf, data, data);
    }
    forall tip, done, taken, leaf, data, data' | Agrees(env.check(tip, done, taken, leaf, data), data, data')
      ensures env.check(tip, done, taken, leaf, data') == env.check(tip, done, taken, leaf, data)
    {
      CheckIsLocal(env, c, rootOk, tip, done, taken, leaf, data, data');
    }
  }

  lemma CheckIsLocal(env: Network, c: Combine, rootOk: Commitment, tip: SystemState, done: seq<Leaf>, taken: seq<nat>, leaf: Leaf,
                     data: seq<nat>, data': seq<nat>)
    requires Uses(env, c, rootOk) && env.check(tip, done, taken, leaf, data).Some?
    ensures env.check(tip, done, taken, leaf, data).value <= |data|
    ensures Agrees(env.check(tip, done, taken, leaf, data), data, data') ==>
      env.check(tip, done, taken, leaf, data') == env.check(tip, done, taken, leaf, data)
  {
    hide VerifyPath, Replay;
    var last := Replay(c, tip, rootOk, done, taken).value.0;
    PathLocal(c, tip.height - FIRST_HEIGHT, leaf.pos, 0, leaf.hash, last, [], data, data');
  }

  /** Proofs of chain work over the multi-proof, with no other assumption on it: what is created from a chain whose tip commits
      to the states before it is accepted, for any bound and oracle. */
  lemma CreatedIsAccepted(env: Network, c: Combine, rootOk: Commitment, chain: seq<SystemState>, lower: nat)
    requires Fair(env) && Uses(env, c, rootOk) && Chain(env, chain) && Commits(env, c, rootOk, chain)
    ensures
      var p := Create(env, chain, BuilderFor(c, History(env, chain)), lower);
      p.elements != [] && Heading(env, p, 0) == chain[|chain| - 1] && IsValid(env, p, lower)
  {
    hide Uses, Commits, Chain, BuilderFor, Honest, Create, IsValid;
    ChainSane(env, chain);
    MultiProofIsHonest(env, c, rootOk, chain);
    CreateIsValid(env, chain, BuilderFor(c, History(env, chain)), lower);
  }
}
