/** The contract heap: best-fit allocation with coalescing, held in three indexes (free blocks by position, free blocks by
    size, allocated blocks by position). */
module Heap {
  import opened Words

  datatype Block = Block(pos: nat, size: nat) {
    function End(): nat {
      pos + size
    }
  }

  /** The three indexes, in their iteration order. */
  datatype Index = Index(free: seq<Block>, sizes: seq<Block>, used: seq<Block>)

  // ----- Ordered sequences -----

  function InsertPos(s: seq<Block>, b: Block): seq<Block> {
    if s == [] then [b]
    else if b.pos < s[0].pos then [b] + s
    else [s[0]] + InsertPos(s[1..], b)
  }

  /** After the blocks of equal size, as a multiset insert does. */
  function InsertSize(s: seq<Block>, b: Block): seq<Block> {
    if s == [] then [b]
    else if b.size < s[0].size then [b] + s
    else [s[0]] + InsertSize(s[1..], b)
  }

  function Without(s: seq<Block>, b: Block): seq<Block> {
    if s == [] then []
    else if s[0] == b then s[1..]
    else [s[0]] + Without(s[1..], b)
  }

  ghost predicate ByPos(s: seq<Block>) {
    s != [] ==> (forall b :: b in s[1..] ==> s[0].pos <= b.pos) && ByPos(s[1..])
  }

  ghost predicate BySize(s: seq<Block>) {
    s != [] ==> (forall b :: b in s[1..] ==> s[0].size <= b.size) && BySize(s[1..])
  }

  lemma Counted(s: seq<Block>, t: seq<Block>, a: Block)
    requires s == [a] + t
    ensures multiset(s) == multiset{a} + multiset(t)
    ensures forall x :: x in s <==> x == a || x in t
  {
  }

  lemma {:induction false} InsertPosProps(s: seq<Block>, b: Block)
    ensures multiset(InsertPos(s, b)) == multiset(s) + multiset{b}
    ensures forall x :: x in InsertPos(s, b) <==> x in s || x == b
    ensures ByPos(s) ==> ByPos(InsertPos(s, b))
  {
    var r := InsertPos(s, b);
    if s != [] && b.pos >= s[0].pos {
      InsertPosProps(s[1..], b);
      Counted(s, s[1..], s[0]);
      Counted(r, InsertPos(s[1..], b), s[0]);
      assert r[1..] == InsertPos(s[1..], b);
    } else {
      Counted(r, s, b);
      assert r[1..] == s;
      if s != [] {
        Counted(s, s[1..], s[0]);
      }
    }
  }

  lemma {:induction false} InsertSizeProps(s: seq<Block>, b: Block)
    ensures multiset(InsertSize(s, b)) == multiset(s) + multiset{b}
    ensures forall x :: x in InsertSize(s, b) <==> x in s || x == b
    ensures BySize(s) ==> BySize(InsertSize(s, b))
  {
    var r := InsertSize(s, b);
    if s != [] && b.size >= s[0].size {
      InsertSizeProps(s[1..], b);
      Counted(s, s[1..], s[0]);
      Counted(r, InsertSize(s[1..], b), s[0]);
      assert r[1..] == InsertSize(s[1..], b);
    } else {
      Counted(r, s, b);
      assert r[1..] == s;
      if s != [] {
        Counted(s, s[1..], s[0]);
      }
    }
  }

  lemma {:induction false} WithoutProps(s: seq<Block>, b: Block)
    requires b in s
    ensures multiset(Without(s, b)) == multiset(s) - multiset{b}
    ensures forall x :: x in Without(s, b) ==> x in s
    ensures ByPos(s) ==> ByPos(Without(s, b))
    ensures BySize(s) ==> BySize(Without(s, b))
  {
    Counted(s, s[1..], s[0]);
    if s[0] != b {
      WithoutProps(s[1..], b);
      var r := Without(s, b);
      Counted(r, Without(s[1..], b), s[0]);
      assert r[1..] == Without(s[1..], b);
    }
  }

  // ----- The invariant -----

  /** Blocks cover [0, n) exactly: none empty, none outside, no two overlapping, no gap. */
  ghost predicate Tiles(blocks: multiset<Block>, n: nat) {
    && (forall b :: b in blocks ==> blocks[b] == 1 && b.size > 0 && b.End() <= n)
    && (forall a, b :: a in blocks && b in blocks && a != b ==> a.End() <= b.pos || b.End() <= a.pos)
    && (forall x: nat :: x < n ==> Covered(blocks, x))
  }

  ghost predicate Covered(blocks: multiset<Block>, x: nat) {
    exists b :: b in blocks && b.pos <= x < b.End()
  }

  ghost predicate NoneAdjacent(free: multiset<Block>) {
    forall a, b :: a in free && b in free ==> a.End() != b.pos
  }

  /** Orders and indexes agree, and all blocks together tile the memory. */
  ghost predicate Indexed(h: Index, n: nat) {
    && ByPos(h.free) && BySize(h.sizes) && ByPos(h.used)
    && multiset(h.sizes) == multiset(h.free)
    && Tiles(multiset(h.free) + multiset(h.used), n)
  }

  ghost predicate Valid(h: Index, n: nat) {
    Indexed(h, n) && NoneAdjacent(multiset(h.free))
  }

  // ----- Tilings under split, merge and growth -----

  lemma TilesSplit(m: multiset<Block>, n: nat, e: Block, k: nat)
    requires Tiles(m, n) && e in m && 0 < k < e.size
    ensures Tiles(m - multiset{e} + multiset{Block(e.pos, k)} + multiset{Block(e.pos + k, e.size - k)}, n)
  {
    var a, b := Block(e.pos, k), Block(e.pos + k, e.size - k);
    assert m[e] == 1 && a !in m && b !in m;
    SplitMembers(m, e, a, b);
    TilesSplitInto(m, m - multiset{e} + multiset{a} + multiset{b}, n, e, a, b);
  }

  lemma TilesSplitInto(m: multiset<Block>, m': multiset<Block>, n: nat, e: Block, a: Block, b: Block)
    requires Tiles(m, n) && e in m && a.pos == e.pos && a.End() == b.pos && b.End() == e.End() && a.size > 0 && b.size > 0
    requires forall c :: c in m' <==> (c in m && c != e) || c == a || c == b
    requires forall c :: c in m' ==> m'[c] == 1
    ensures Tiles(m', n)
  {
    forall x: nat | x < n ensures Covered(m', x) {
      assert Covered(m, x);
      var c :| c in m && c.pos <= x < c.End();
      assert (if c != e then c else if x < b.pos then a else b) in m';
    }
  }

  lemma SplitMembers(m: multiset<Block>, e: Block, a: Block, b: Block)
    requires m[e] == 1 && a !in m && b !in m && a != b
    ensures
      var m' := m - multiset{e} + multiset{a} + multiset{b};
      && (forall c :: c in m' <==> (c in m && c != e) || c == a || c == b)
      && (forall c :: c in m && c != e ==> m'[c] == m[c])
      && m'[a] == 1 && m'[b] == 1
  {
  }

  lemma TilesMerge(m: multiset<Block>, n: nat, a: Block, b: Block)
    requires Tiles(m, n) && a in m && b in m && a.End() == b.pos
    ensures Tiles(m - multiset{a} - multiset{b} + multiset{Block(a.pos, a.size + b.size)}, n)
  {
    var e := Block(a.pos, a.size + b.size);
    assert m[a] == 1 && m[b] == 1 && a != b && e !in m;
    MergedMembers(m, a, b, e);
    TilesMergeInto(m, m - multiset{a} - multiset{b} + multiset{e}, n, a, b, e);
  }

  lemma TilesMergeInto(m: multiset<Block>, m': multiset<Block>, n: nat, a: Block, b: Block, e: Block)
    requires Tiles(m, n) && a in m && b in m && e.pos == a.pos && a.End() == b.pos && b.End() == e.End()
    requires forall c :: c in m' <==> (c in m && c != a && c != b) || c == e
    requires forall c :: c in m' ==> m'[c] == 1
    ensures Tiles(m', n)
  {
    assert a.size > 0 && b.size > 0;
    forall x: nat | x < n ensures Covered(m', x) {
      assert Covered(m, x);
      var c :| c in m && c.pos <= x < c.End();
      assert (if c != a && c != b then c else e) in m';
    }
  }

  lemma MergedMembers(m: multiset<Block>, a: Block, b: Block, e: Block)
    requires a != b && e !in m && m[a] == 1 && m[b] == 1
    ensures
      var m' := m - multiset{a} - multiset{b} + multiset{e};
      && (forall c :: c in m' <==> (c in m && c != a && c != b) || c == e)
      && (forall c :: c in m && c != a && c != b ==> m'[c] == m[c])
      && m'[e] == 1
  {
  }

  lemma TilesGrow(m: multiset<Block>, n: nat, n': nat)
    requires Tiles(m, n) && n < n'
    ensures Tiles(m + multiset{Block(n, n' - n)}, n')
  {
    var e := Block(n, n' - n);
    var m' := m + multiset{e};
    assert e !in m;
    forall x: nat | x < n' ensures Covered(m', x) {
      if x < n {
        assert Covered(m, x);
        var c :| c in m && c.pos <= x < c.End();
        assert c in m';
      } else {
        assert e in m';
      }
    }
  }

  // ----- Moving blocks between indexes -----

  function AddFree(h: Index, b: Block): Index {
    h.(free := InsertPos(h.free, b), sizes := InsertSize(h.sizes, b))
  }

  function DropFree(h: Index, b: Block): Index {
    h.(free := Without(h.free, b), sizes := Without(h.sizes, b))
  }

  function AddUsed(h: Index, b: Block): Index {
    h.(used := InsertPos(h.used, b))
  }

  function DropUsed(h: Index, b: Block): Index {
    h.(used := Without(h.used, b))
  }

  ghost predicate Ordered(h: Index) {
    ByPos(h.free) && BySize(h.sizes) && ByPos(h.used) && multiset(h.sizes) == multiset(h.free)
  }

  lemma Moves(h: Index, b: Block)
    requires Ordered(h)
    ensures Ordered(AddFree(h, b)) && multiset(AddFree(h, b).free) == multiset(h.free) + multiset{b}
    ensures Ordered(AddUsed(h, b)) && multiset(AddUsed(h, b).used) == multiset(h.used) + multiset{b}
    ensures b in h.free ==> Ordered(DropFree(h, b)) && multiset(DropFree(h, b).free) == multiset(h.free) - multiset{b}
    ensures b in h.used ==> Ordered(DropUsed(h, b)) && multiset(DropUsed(h, b).used) == multiset(h.used) - multiset{b}
  {
    hide ByPos, BySize;
    InsertPosProps(h.free, b);
    InsertPosProps(h.used, b);
    InsertSizeProps(h.sizes, b);
    SizesAreFree(h);
    if b in h.free {
      WithoutProps(h.free, b);
      WithoutProps(h.sizes, b);
    }
    if b in h.used {
      WithoutProps(h.used, b);
    }
  }

  /** Blocks in order, none of them reaching into a later one. */
  ghost predicate Apart(s: seq<Block>) {
    forall i, j :: 0 <= i < j < |s| ==> s[i].End() <= s[j].pos
  }

  /** Moving the start of a block within the block leaves it at its place in the position order: changing the entry where it is
      and taking it out to insert it again are the same. */
  lemma KeyUpdateKeepsOrder(s: seq<Block>, i: nat, e': Block)
    requires Apart(s) && i < |s| && s[i].pos <= e'.pos < s[i].End()
    ensures InsertPos(Without(s, s[i]), e') == s[i := e']
  {
    hide InsertPos, Without;
    forall j | 0 <= j < |s| && j != i
      ensures s[j] != s[i] && if j < i then s[j].pos <= e'.pos else e'.pos < s[j].pos
    {
      assert if j < i then s[j].End() <= s[i].pos else s[i].End() <= s[j].pos;
    }
    InPlace(s, i, e');
  }

  /** The free blocks of a tiling are apart. */
  lemma FreeApart(h: Index, n: nat)
    requires Indexed(h, n)
    ensures Apart(h.free)
  {
    hide BySize, ByPos;
    forall i, j | 0 <= i < j < |h.free| ensures h.free[i].End() <= h.free[j].pos {
      Distinct(h.free, h.used, n, i, j);
      ByPosAt(h.free, i, j);
      assert h.free[i] in multiset(h.free) + multiset(h.used) && h.free[j] in multiset(h.free) + multiset(h.used);
    }
  }

  lemma Distinct(s: seq<Block>, u: seq<Block>, n: nat, i: nat, j: nat)
    requires Tiles(multiset(s) + multiset(u), n) && i < |s| && j < |s| && i != j
    ensures s[i] != s[j]
  {
    var lo, hi := if i < j then i else j, if i < j then j else i;
    assert s == s[..lo] + [s[lo]] + s[lo + 1..hi] + [s[hi]] + s[hi + 1..];
    assert multiset(s)[s[i]] <= (multiset(s) + multiset(u))[s[i]];
    assert s[i] in multiset(s) + multiset(u);
  }

  lemma {:induction false} ByPosAt(s: seq<Block>, i: nat, j: nat)
    requires ByPos(s) && i < j < |s|
    ensures s[i].pos <= s[j].pos
  {
    if i == 0 {
      assert s[j] == s[1..][j - 1];
    } else {
      ByPosAt(s[1..], i - 1, j - 1);
    }
  }

  lemma {:induction false} InPlace(s: seq<Block>, i: nat, e': Block)
    requires i < |s|
    requires forall j :: 0 <= j < |s| && j != i ==> s[j] != s[i] && if j < i then s[j].pos <= e'.pos else e'.pos < s[j].pos
    ensures InsertPos(Without(s, s[i]), e') == s[i := e']
  {
    if i > 0 {
      InPlace(s[1..], i - 1, e');
      var r := Without(s[1..], s[i]);
      assert ([s[0]] + r)[1..] == r;
      assert s[i := e'] == [s[0]] + s[1..][i - 1 := e'];
    }
  }

  // ----- Allocation -----

  /** `lower_bound` on the size index. */
  function Fit(sizes: seq<Block>, size: nat): Option<Block> {
    if sizes == [] then None
    else if sizes[0].size >= size then Some(sizes[0])
    else Fit(sizes[1..], size)
  }

  lemma {:induction false} FitIsBest(sizes: seq<Block>, size: nat)
    requires BySize(sizes)
    ensures Fit(sizes, size).Some? <==> exists b :: b in sizes && b.size >= size
    ensures Fit(sizes, size).Some? ==>
      var e := Fit(sizes, size).value;
      e in sizes && e.size >= size && forall b :: b in sizes && b.size >= size ==> e.size <= b.size
  {
    if sizes != [] && sizes[0].size < size {
      FitIsBest(sizes[1..], size);
      assert forall b :: b in sizes <==> b == sizes[0] || b in sizes[1..];
    }
  }

  function Alloc(h: Index, size: nat): Option<(nat, Index)> {
    match Fit(h.sizes, size)
    case None => None
    case Some(e) =>
      if e.size == size then Some((e.pos, AddUsed(DropFree(h, e), e)))
      else if e.size < size then None
      else
        var h' := AddUsed(h, Block(e.pos, size));
        Some((e.pos, AddFree(DropFree(h', e), Block(e.pos + size, e.size - size))))
  }

  /** Allocation succeeds exactly when some free block is large enough; it takes a smallest such block, from its start,
      adds exactly that block to the used ones, and keeps the heap valid. */
  lemma AllocCorrect(h: Index, n: nat, size: nat)
    requires Valid(h, n) && size > 0
    ensures Alloc(h, size).Some? <==> exists b :: b in h.free && b.size >= size
    ensures Alloc(h, size).Some? ==>
      var (p, h') := Alloc(h, size).value;
      && Valid(h', n)
      && multiset(h'.used) == multiset(h.used) + multiset{Block(p, size)}
      && exists e :: e in h.free && e.pos == p && e.size >= size
                     && (forall b :: b in h.free && b.size >= size ==> e.size <= b.size)
  {
    hide InsertPos, InsertSize, Without, ByPos, BySize;
    SizesAreFree(h);
    assert BySize(h.sizes);
    FitIsBest(h.sizes, size);
    if Fit(h.sizes, size).Some? {
      var e := Fit(h.sizes, size).value;
      assert e in h.free;
      AllocStep(h, n, size, e);
    }
  }

  lemma SizesAreFree(h: Index)
    requires multiset(h.sizes) == multiset(h.free)
    ensures forall b :: b in h.sizes <==> b in h.free
  {
    forall b ensures b in h.sizes <==> b in h.free {
      assert b in h.sizes <==> b in multiset(h.sizes);
      assert b in h.free <==> b in multiset(h.free);
    }
  }

  lemma AllocStep(h: Index, n: nat, size: nat, e: Block)
    requires Valid(h, n) && 0 < size <= e.size && e in h.free && Fit(h.sizes, size) == Some(e)
    ensures Alloc(h, size).Some?
    ensures
      var (p, h') := Alloc(h, size).value;
      p == e.pos && Valid(h', n) && multiset(h'.used) == multiset(h.used) + multiset{Block(e.pos, size)}
  {
    hide InsertPos, InsertSize, Without, ByPos, BySize, Tiles, NoneAdjacent, Fit, AddFree, DropFree, AddUsed;
    if e.size == size {
      TakeWhole(h, n, e);
    } else {
      TakePart(h, n, e, size);
    }
  }

  lemma TakeWhole(h: Index, n: nat, e: Block)
    requires Valid(h, n) && e in h.free
    ensures Valid(AddUsed(DropFree(h, e), e), n)
    ensures multiset(AddUsed(DropFree(h, e), e).used) == multiset(h.used) + multiset{e}
  {
    hide InsertPos, InsertSize, Without, ByPos, BySize, Tiles;
    Moves(h, e);
    Moves(DropFree(h, e), e);
    Reassigned(multiset(h.free), multiset(h.used), e);
  }

  lemma Reassigned(f: multiset<Block>, u: multiset<Block>, e: Block)
    requires e in f
    ensures (f - multiset{e}) + (u + multiset{e}) == f + u
    ensures NoneAdjacent(f) ==> NoneAdjacent(f - multiset{e})
  {
  }

  lemma TakePart(h: Index, n: nat, e: Block, size: nat)
    requires Valid(h, n) && e in h.free && 0 < size < e.size
    ensures
      var h' := AddFree(DropFree(AddUsed(h, Block(e.pos, size)), e), Block(e.pos + size, e.size - size));
      Valid(h', n) && multiset(h'.used) == multiset(h.used) + multiset{Block(e.pos, size)}
  {
    hide InsertPos, InsertSize, Without, ByPos, BySize, Tiles, NoneAdjacent;
    var f, u := multiset(h.free), multiset(h.used);
    var a, b := Block(e.pos, size), Block(e.pos + size, e.size - size);
    Moves(h, a);
    Moves(AddUsed(h, a), e);
    Moves(DropFree(AddUsed(h, a), e), b);
    assert e in f;
    TilesSplit(f + u, n, e, size);
    SplitSum(f, u, e, a, b);
    SplitKeepsApart(f, u, n, e, size);
  }

  lemma SplitSum(f: multiset<Block>, u: multiset<Block>, e: Block, a: Block, b: Block)
    requires e in f
    ensures (f - multiset{e} + multiset{b}) + (u + multiset{a}) == (f + u) - multiset{e} + multiset{a} + multiset{b}
  {
  }

  lemma SplitKeepsApart(f: multiset<Block>, u: multiset<Block>, n: nat, e: Block, k: nat)
    requires Tiles(f + u, n) && NoneAdjacent(f) && e in f && 0 < k < e.size
    ensures NoneAdjacent(f - multiset{e} + multiset{Block(e.pos + k, e.size - k)})
  {
    var b := Block(e.pos + k, e.size - k);
    var f' := f - multiset{e} + multiset{b};
    forall x, y | x in f' && y in f' ensures x.End() != y.pos {
      assert x in f + u || x == b;
      assert y in f + u || y == b;
      assert e in f + u;
    }
  }

  // ----- Release -----

  /** Lookup by position. */
  function FindPos(s: seq<Block>, pos: nat): Option<Block> {
    if s == [] then None
    else if s[0].pos == pos then Some(s[0])
    else FindPos(s[1..], pos)
  }

  lemma {:induction false} FindPosProps(s: seq<Block>, pos: nat)
    ensures FindPos(s, pos).Some? ==> FindPos(s, pos).value in s && FindPos(s, pos).value.pos == pos
    ensures FindPos(s, pos).None? ==> forall b :: b in s ==> b.pos != pos
  {
    if s != [] {
      FindPosProps(s[1..], pos);
      Counted(s, s[1..], s[0]);
    }
  }

  /** The block that precedes a position in the position order. */
  function Before(s: seq<Block>, pos: nat): Option<Block> {
    if s == [] || s[0].pos >= pos then None
    else
      var later := Before(s[1..], pos);
      if later.Some? then later else Some(s[0])
  }

  lemma {:induction false} BeforeProps(s: seq<Block>, pos: nat)
    requires ByPos(s)
    ensures Before(s, pos).Some? ==>
      var p := Before(s, pos).value;
      p in s && p.pos < pos && forall b :: b in s && b.pos < pos ==> b.pos <= p.pos
    ensures Before(s, pos).None? ==> forall b :: b in s ==> b.pos >= pos
  {
    if s != [] {
      BeforeProps(s[1..], pos);
      Counted(s, s[1..], s[0]);
    }
  }

  /** Join `e` with the free block that starts where it ends, if there is one; the block `e` became is returned too. */
  function TryMerge(h: Index, e: Block): (Index, Block) {
    match FindPos(h.free, e.End())
    case None => (h, e)
    case Some(e2) =>
      var joined := Block(e.pos, e.size + e2.size);
      (DropFree(AddFree(DropFree(h, e), joined), e2), joined)
  }

  function Free(h: Index, ptr: nat): Option<Index> {
    match FindPos(h.used, ptr)
    case None => None
    case Some(e) =>
      var (h2, e2) := TryMerge(AddFree(DropUsed(h, e), e), e);
      match Before(h2.free, e2.pos)
      case None => Some(h2)
      case Some(p) => Some(TryMerge(h2, p).0)
  }

  lemma TryMergeKeeps(h: Index, n: nat, e: Block)
    requires Indexed(h, n) && e in h.free
    ensures
      var (h', e') := TryMerge(h, e);
      && Indexed(h', n) && h'.used == h.used && e' in h'.free && e'.pos == e.pos
      && match FindPos(h.free, e.End())
         case None => h' == h && e' == e
         case Some(e2) =>
           && e2 in h.free && e2.pos == e.End() && e' == Block(e.pos, e.size + e2.size)
           && multiset(h'.free) == multiset(h.free) - multiset{e} - multiset{e2} + multiset{e'}
  {
    hide AddFree, DropFree, Indexed, FindPos;
    FindPosProps(h.free, e.End());
    if FindPos(h.free, e.End()).Some? {
      JoinKeeps(h, n, e, FindPos(h.free, e.End()).value);
    }
  }

  lemma JoinKeeps(h: Index, n: nat, e: Block, e2: Block)
    requires Indexed(h, n) && e in h.free && e2 in h.free && e2.pos == e.End()
    ensures
      var e' := Block(e.pos, e.size + e2.size);
      var h' := DropFree(AddFree(DropFree(h, e), e'), e2);
      && Indexed(h', n) && h'.used == h.used && e' in h'.free
      && multiset(h'.free) == multiset(h.free) - multiset{e} - multiset{e2} + multiset{e'}
  {
    hide InsertPos, InsertSize, Without, ByPos, BySize;
    var f, u := multiset(h.free), multiset(h.used);
    var e' := Block(e.pos, e.size + e2.size);
    assert e in f && e2 in f;
    assert e in f + u && e2 in f + u;
    assert e != e2 && e2 != e';
    TilesMerge(f + u, n, e, e2);
    hide Tiles;
    JoinSum(f, u, e, e2, e');
    var h1 := DropFree(h, e);
    Moves(h, e);
    Moves(h1, e');
    assert e2 in multiset(AddFree(h1, e').free);
    Moves(AddFree(h1, e'), e2);
    assert e' in multiset(DropFree(AddFree(h1, e'), e2).free);
  }

  lemma JoinSum(f: multiset<Block>, u: multiset<Block>, e: Block, e2: Block, e': Block)
    requires e in f && e2 in f && e != e2 && e2 != e'
    ensures f - multiset{e} + multiset{e'} - multiset{e2} == f - multiset{e} - multiset{e2} + multiset{e'}
    ensures (f - multiset{e} - multiset{e2} + multiset{e'}) + u == (f + u) - multiset{e} - multiset{e2} + multiset{e'}
    ensures e2 in f - multiset{e} + multiset{e'}
    ensures e' in f - multiset{e} + multiset{e'} - multiset{e2}
  {
  }

  /** Adjacent free blocks involve `e`. */
  ghost predicate ApartExcept(free: multiset<Block>, e: Block) {
    forall a, b :: a in free && b in free && a.End() == b.pos ==> a == e || b == e
  }

  /** Adjacent free blocks end in `e`. */
  ghost predicate ApartAfter(free: multiset<Block>, e: Block) {
    forall a, b :: a in free && b in free && a.End() == b.pos ==> b == e
  }

  lemma MergeNext(f: multiset<Block>, u: multiset<Block>, n: nat, e: Block, e2: Block)
    requires Tiles(f + u, n) && ApartExcept(f, e) && e in f && e2 in f && e2.pos == e.End()
    ensures
      var e' := Block(e.pos, e.size + e2.size);
      ApartAfter(f - multiset{e} - multiset{e2} + multiset{e'}, e')
  {
    var e' := Block(e.pos, e.size + e2.size);
    var f' := f - multiset{e} - multiset{e2} + multiset{e'};
    forall a, b | a in f' && b in f' && a.End() == b.pos ensures b == e' {
      Tiled(f, u, n, e);
      Tiled(f, u, n, e2);
      if b != e' {
        Tiled(f, u, n, b);
        if a != e' {
          Tiled(f, u, n, a);
        }
      }
    }
  }

  /** A free block's facts, from the tiling. */
  lemma Tiled(f: multiset<Block>, u: multiset<Block>, n: nat, b: Block)
    requires Tiles(f + u, n) && b in f
    ensures b.size > 0 && f[b] == 1
    ensures forall a :: a in f && a != b ==> a.End() <= b.pos || b.End() <= a.pos
  {
    assert b in f + u;
    forall a | a in f && a != b ensures a.End() <= b.pos || b.End() <= a.pos {
      assert a in f + u;
    }
  }

  lemma MergePrevious(f: multiset<Block>, u: multiset<Block>, n: nat, p: Block, e: Block)
    requires Tiles(f + u, n) && ApartAfter(f, e) && e in f && p in f && p.End() == e.pos
    ensures NoneAdjacent(f - multiset{p} - multiset{e} + multiset{Block(p.pos, p.size + e.size)})
  {
    var p' := Block(p.pos, p.size + e.size);
    var f' := f - multiset{p} - multiset{e} + multiset{p'};
    forall a, b | a in f' && b in f' ensures a.End() != b.pos {
      Tiled(f, u, n, e);
      Tiled(f, u, n, p);
      if b != p' {
        Tiled(f, u, n, b);
      }
      if a != p' {
        Tiled(f, u, n, a);
      }
    }
  }

  lemma NothingPrevious(f: multiset<Block>, u: multiset<Block>, n: nat, e: Block, prev: Option<Block>)
    requires Tiles(f + u, n) && ApartAfter(f, e) && e in f
    requires match prev
             case None => forall b :: b in f ==> b.pos >= e.pos
             case Some(p) => p in f && p.End() != e.pos && p.pos < e.pos && forall b :: b in f && b.pos < e.pos ==> b.pos <= p.pos
    ensures NoneAdjacent(f)
    ensures prev.Some? ==> forall b :: b in f ==> b.pos != prev.value.End()
  {
    forall a, b | a in f && b in f ensures a.End() != b.pos {
      Tiled(f, u, n, a);
      Tiled(f, u, n, e);
    }
  }

  /** Releasing an address succeeds exactly when a used block starts there; it removes exactly that block and leaves a
      valid heap, so neighbours are coalesced on both sides. */
  lemma FreeCorrect(h: Index, n: nat, ptr: nat)
    requires Valid(h, n)
    ensures Free(h, ptr).Some? <==> exists e :: e in h.used && e.pos == ptr
    ensures Free(h, ptr).Some? ==>
      && Valid(Free(h, ptr).value, n)
      && exists e :: e in h.used && e.pos == ptr && multiset(Free(h, ptr).value.used) == multiset(h.used) - multiset{e}
  {
    hide InsertPos, InsertSize, Without, ByPos, BySize, Tiles, NoneAdjacent, FindPos, Before, TryMerge, AddFree, DropUsed;
    FindPosProps(h.used, ptr);
    if FindPos(h.used, ptr).Some? {
      var e := FindPos(h.used, ptr).value;
      var h1 := AddFree(DropUsed(h, e), e);
      Released(h, n, e);
      var (h2, e2) := TryMerge(h1, e);
      MergedNext(h1, n, e);
      BeforeProps(h2.free, e2.pos);
      MergedPrevious(h2, n, e2);
    }
  }

  lemma Released(h: Index, n: nat, e: Block)
    requires Valid(h, n) && e in h.used
    ensures
      var h1 := AddFree(DropUsed(h, e), e);
      && Indexed(h1, n) && ApartExcept(multiset(h1.free), e) && e in h1.free
      && multiset(h1.used) == multiset(h.used) - multiset{e}
  {
    hide InsertPos, InsertSize, Without, ByPos, BySize, Tiles;
    Moves(h, e);
    var h0 := DropUsed(h, e);
    Moves(h0, e);
    InMultiset(h.used);
    InMultiset(AddFree(h0, e).free);
    Reassigned(multiset(h.used), multiset(h.free), e);
    assert (multiset(h.free) + multiset{e}) + (multiset(h.used) - multiset{e}) == multiset(h.free) + multiset(h.used);
  }

  lemma MergedNext(h1: Index, n: nat, e: Block)
    requires Indexed(h1, n) && ApartExcept(multiset(h1.free), e) && e in h1.free
    ensures
      var (h2, e2) := TryMerge(h1, e);
      Indexed(h2, n) && ApartAfter(multiset(h2.free), e2) && e2 in h2.free && h2.used == h1.used
  {
    hide Indexed, ByPos, Tiles, FindPos, TryMerge, ApartExcept, ApartAfter;
    TryMergeKeeps(h1, n, e);
    FindPosProps(h1.free, e.End());
    Parts(h1, n);
    InMultiset(h1.free);
    if FindPos(h1.free, e.End()).Some? {
      MergeNext(multiset(h1.free), multiset(h1.used), n, e, FindPos(h1.free, e.End()).value);
    } else {
      NothingNext(multiset(h1.free), e);
    }
  }

  lemma NothingNext(f: multiset<Block>, e: Block)
    requires ApartExcept(f, e) && forall b :: b in f ==> b.pos != e.End()
    ensures ApartAfter(f, e)
  {
  }

  lemma Parts(h: Index, n: nat)
    requires Indexed(h, n)
    ensures ByPos(h.free) && Tiles(multiset(h.free) + multiset(h.used), n)
  {
  }

  lemma InMultiset(s: seq<Block>)
    ensures forall b :: b in multiset(s) <==> b in s
  {
  }

  lemma MergedPrevious(h: Index, n: nat, e: Block)
    requires Indexed(h, n) && ApartAfter(multiset(h.free), e) && e in h.free
    ensures Before(h.free, e.pos).None? ==> Valid(h, n)
    ensures Before(h.free, e.pos).Some? ==>
      var h' := TryMerge(h, Before(h.free, e.pos).value).0;
      Valid(h', n) && h'.used == h.used
  {
    hide Indexed, ByPos, Tiles, FindPos, TryMerge, Before, ApartAfter, NoneAdjacent;
    var f, u := multiset(h.free), multiset(h.used);
    Parts(h, n);
    BeforeProps(h.free, e.pos);
    InMultiset(h.free);
    var prev := Before(h.free, e.pos);
    if prev.Some? {
      var p := prev.value;
      TryMergeKeeps(h, n, p);
      FindPosProps(h.free, p.End());
      if p.End() == e.pos {
        OneStart(f, u, n, e, FindPos(h.free, p.End()));
        MergePrevious(f, u, n, p, e);
      } else {
        NothingPrevious(f, u, n, e, prev);
      }
    } else {
      NothingPrevious(f, u, n, e, prev);
    }
  }

  lemma OneStart(f: multiset<Block>, u: multiset<Block>, n: nat, e: Block, found: Option<Block>)
    requires Tiles(f + u, n) && e in f
    requires found.Some? ==> found.value in f && found.value.pos == e.pos
    ensures found.Some? ==> found.value == e
  {
    if found.Some? {
      Tiled(f, u, n, e);
      Tiled(f, u, n, found.value);
    }
  }

  // ----- Growth -----

  function UnusedAtEnd(h: Index, n: nat): nat {
    if h.free != [] && h.free[|h.free| - 1].End() == n then h.free[|h.free| - 1].size else 0
  }

  function OnGrow(h: Index, n: nat, n': nat): Index
    requires n < n'
  {
    if h.free != [] && h.free[|h.free| - 1].End() == n then
      var e := h.free[|h.free| - 1];
      AddFree(DropFree(h, e), Block(e.pos, n' - e.pos))
    else
      AddFree(h, Block(n, n' - n))
  }

  lemma {:induction false} LastIsGreatest(s: seq<Block>)
    requires ByPos(s) && s != []
    ensures s[|s| - 1] in s && forall b :: b in s ==> b.pos <= s[|s| - 1].pos
  {
    Counted(s, s[1..], s[0]);
    if |s| > 1 {
      LastIsGreatest(s[1..]);
      assert s[1..][|s| - 2] == s[|s| - 1];
    }
  }

  /** The free block that ends at `n`, when there is one, is the last of the position index. */
  lemma TailIsLast(h: Index, n: nat, b: Block)
    requires Indexed(h, n) && b in h.free && b.End() == n
    ensures h.free[|h.free| - 1] == b
  {
    hide ByPos, BySize;
    LastIsGreatest(h.free);
    var last := h.free[|h.free| - 1];
    InMultiset(h.free);
    Tiled(multiset(h.free), multiset(h.used), n, b);
    Tiled(multiset(h.free), multiset(h.used), n, last);
  }

  /** Growth keeps the heap valid and the used blocks, and leaves at the end one free block that takes the old tail and all
      the new memory. */
  lemma OnGrowCorrect(h: Index, n: nat, n': nat)
    requires Valid(h, n) && n < n'
    ensures Valid(OnGrow(h, n, n'), n')
    ensures OnGrow(h, n, n').used == h.used
    ensures var k := UnusedAtEnd(h, n); Block(n - k, n' - n + k) in OnGrow(h, n, n').free
  {
    hide InsertPos, InsertSize, Without, ByPos, BySize, Tiles, NoneAdjacent;
    if h.free != [] && h.free[|h.free| - 1].End() == n {
      GrowTail(h, n, n', h.free[|h.free| - 1]);
    } else {
      GrowNew(h, n, n');
    }
  }

  lemma GrowNew(h: Index, n: nat, n': nat)
    requires Valid(h, n) && n < n'
    requires h.free != [] ==> h.free[|h.free| - 1].End() != n
    ensures Valid(AddFree(h, Block(n, n' - n)), n') && Block(n, n' - n) in AddFree(h, Block(n, n' - n)).free
  {
    hide InsertPos, InsertSize, Without, ByPos, BySize, Tiles, NoneAdjacent;
    var e := Block(n, n' - n);
    var f, u := multiset(h.free), multiset(h.used);
    TilesGrow(f + u, n, n');
    Moves(h, e);
    assert (f + multiset{e}) + u == (f + u) + multiset{e};
    InMultiset(h.free);
    InMultiset(AddFree(h, e).free);
    forall b | b in f ensures b.End() != n {
      if b.End() == n {
        TailIsLast(h, n, b);
      }
    }
    NewApart(f, u, n, e);
  }

  lemma NewApart(f: multiset<Block>, u: multiset<Block>, n: nat, e: Block)
    requires Tiles(f + u, n) && NoneAdjacent(f) && e.pos == n && e.size > 0 && forall b :: b in f ==> b.End() != n
    ensures NoneAdjacent(f + multiset{e})
  {
    forall a, b | a in f + multiset{e} && b in f + multiset{e} ensures a.End() != b.pos {
      if b in f {
        InBounds(f, u, n, b);
      }
    }
  }

  lemma GrowTail(h: Index, n: nat, n': nat, e: Block)
    requires Valid(h, n) && n < n' && e in h.free && e.End() == n
    ensures
      var e' := Block(e.pos, n' - e.pos);
      var h' := AddFree(DropFree(h, e), e');
      Valid(h', n') && e' in h'.free
  {
    hide InsertPos, InsertSize, Without, ByPos, BySize, Tiles, NoneAdjacent;
    var e' := Block(e.pos, n' - e.pos);
    var f, u := multiset(h.free), multiset(h.used);
    Moves(h, e);
    Moves(DropFree(h, e), e');
    InMultiset(h.free);
    InMultiset(AddFree(DropFree(h, e), e').free);
    TilesExtend(f, u, n, n', e);
    ExtendedApart(f, u, n, e, e');
  }

  lemma ExtendedApart(f: multiset<Block>, u: multiset<Block>, n: nat, e: Block, e': Block)
    requires Tiles(f + u, n) && NoneAdjacent(f) && e in f && e'.pos == e.pos && e'.End() > n
    ensures NoneAdjacent(f - multiset{e} + multiset{e'})
  {
    var f' := f - multiset{e} + multiset{e'};
    forall a, b | a in f' && b in f' ensures a.End() != b.pos {
      InBounds(f, u, n, e);
      if b != e' {
        InBounds(f, u, n, b);
      }
    }
  }

  lemma InBounds(f: multiset<Block>, u: multiset<Block>, n: nat, b: Block)
    requires Tiles(f + u, n) && b in f
    ensures b.pos < b.End() <= n
  {
    assert b in f + u;
  }

  lemma TilesExtend(f: multiset<Block>, u: multiset<Block>, n: nat, n': nat, e: Block)
    requires Tiles(f + u, n) && e in f && e.End() == n < n'
    ensures Tiles((f - multiset{e} + multiset{Block(e.pos, n' - e.pos)}) + u, n')
  {
    var t, e' := Block(n, n' - n), Block(e.pos, n' - e.pos);
    TilesGrow(f + u, n, n');
    assert t !in f + u && e in f + u + multiset{t} && t in f + u + multiset{t};
    hide Tiles;
    TilesMerge(f + u + multiset{t}, n', e, t);
    ExtendSum(f, u, e, t, e');
  }

  lemma ExtendSum(f: multiset<Block>, u: multiset<Block>, e: Block, t: Block, e': Block)
    requires e in f && t !in f + u
    ensures f + u + multiset{t} - multiset{e} - multiset{t} + multiset{e'} == (f - multiset{e} + multiset{e'}) + u
  {
  }

  // ----- Bounds check -----

  /** The block that starts last at or before the address decides. */
  predicate Test(h: Index, ptr: nat, size: nat) {
    var e := Before(h.used, ptr + 1);
    e.Some? && (ptr + size) % W32 >= size && (ptr + size) % W32 <= e.value.End()
  }

  /** An access passes exactly when it lies inside one used block. */
  lemma TestCorrect(h: Index, n: nat, ptr: nat, size: nat)
    requires Valid(h, n) && n < W32 && ptr < W32 && size < W32
    ensures Test(h, ptr, size) <==> exists b :: b in h.used && b.pos <= ptr && ptr + size <= b.End()
  {
    hide BySize, ByPos, NoneAdjacent, Before;
    hide Tiles;
    BeforeProps(h.used, ptr + 1);
    var f, u := multiset(h.free), multiset(h.used);
    InMultiset(h.used);
    assert u + f == f + u;
    var e := Before(h.used, ptr + 1);
    if e.Some? {
      Tiled(u, f, n, e.value);
      InBounds(u, f, n, e.value);
      NoWrap(ptr, size, e.value);
      forall b | b in h.used && b.pos <= ptr && ptr + size <= b.End() ensures ptr + size <= e.value.End() {
        if b != e.value {
          Tiled(u, f, n, b);
        }
      }
    }
  }

  /** The test for wrap-around is exact where blocks end below 2^32. */
  lemma NoWrap(ptr: nat, size: nat, e: Block)
    requires ptr < W32 && size < W32 && e.pos <= ptr && e.End() < W32
    ensures (ptr + size) % W32 >= size && (ptr + size) % W32 <= e.End() <==> ptr + size <= e.End()
  {
  }

  // ----- Allocation with growth -----

  datatype Memory = Memory(h: Index, n: nat)

  ghost predicate Sound(m: Memory) {
    Valid(m.h, m.n)
  }

  const PAGE := 0x1000

  function Max(a: nat, b: nat): nat {
    if a < b then b else a
  }

  function Min(a: nat, b: nat): nat {
    if a < b then a else b
  }

  lemma NoFit(h: Index, n: nat, size: nat)
    requires Valid(h, n) && size > 0 && Alloc(h, size).None?
    ensures UnusedAtEnd(h, n) < size && UnusedAtEnd(h, n) <= n
  {
    hide Alloc, ByPos, BySize;
    AllocCorrect(h, n, size);
    if UnusedAtEnd(h, n) > 0 {
      var last := h.free[|h.free| - 1];
      assert last in h.free;
    }
  }

  /** `HeapAllocEx`: take from the heap, or grow the memory up to the limit and take then. The source asserts that memory
      grows. */
  function AllocEx(m: Memory, size: nat, limit: nat): Option<(nat, Memory)> {
    match Alloc(m.h, size)
    case Some((p, h')) => Some((p, Memory(h', m.n)))
    case None =>
      var need := (m.n + size - UnusedAtEnd(m.h, m.n)) % W32;
      var n' := Min(Max(Max(need, PAGE), 2 * m.n % W32), limit);
      if limit < need || n' <= m.n then None
      else
        match Alloc(OnGrow(m.h, m.n, n'), size)
        case Some((p, h')) => Some((p, Memory(h', n')))
        case None => None
  }

  /** The request is served exactly when a free block fits or the limit leaves room after the free tail is used; then
      exactly one block is added to the used ones, and memory only grows, within the limit. */
  lemma AllocExCorrect(m: Memory, size: nat, limit: nat)
    requires Sound(m) && 0 < size && m.n + size < W32
    ensures AllocEx(m, size, limit).Some? <==>
      (exists b :: b in m.h.free && b.size >= size) || m.n + size - UnusedAtEnd(m.h, m.n) <= limit
    ensures AllocEx(m, size, limit).Some? ==>
      var (p, m') := AllocEx(m, size, limit).value;
      && Sound(m') && multiset(m'.h.used) == multiset(m.h.used) + multiset{Block(p, size)}
      && m.n <= m'.n && (m'.n > m.n ==> m'.n <= limit)
  {
    hide Alloc, Valid, OnGrow, UnusedAtEnd;
    AllocCorrect(m.h, m.n, size);
    if Alloc(m.h, size).None? {
      NoFit(m.h, m.n, size);
      var k := UnusedAtEnd(m.h, m.n);
      var need := m.n + size - k;
      if need <= limit {
        var n' := Min(Max(Max(need, PAGE), 2 * m.n % W32), limit);
        OnGrowCorrect(m.h, m.n, n');
        var tail := Block(m.n - k, n' - m.n + k);
        assert tail.size >= size;
        AllocCorrect(OnGrow(m.h, m.n, n'), n', size);
      }
    }
  }

  /** Exactly the requests of zero bytes break the tiling. */
  lemma AllocKeepsValidIff(h: Index, n: nat, size: nat)
    requires Valid(h, n) && Alloc(h, size).Some?
    ensures Valid(Alloc(h, size).value.1, n) <==> size > 0
  {
    hide Alloc, ByPos, BySize, NoneAdjacent, Tiles;
    if size > 0 {
      AllocCorrect(h, n, size);
    } else {
      var z := AllocOfNothing(h, n);
      var h' := Alloc(h, 0).value.1;
      NoEmptyTile(multiset(h'.free), multiset(h'.used), n, z);
    }
  }

  lemma NoEmptyTile(f: multiset<Block>, u: multiset<Block>, n: nat, z: Block)
    requires z in u && z.size == 0
    ensures !Tiles(f + u, n)
  {
    assert z in f + u;
  }

  lemma AllocOfNothing(h: Index, n: nat) returns (z: Block)
    requires Valid(h, n) && Alloc(h, 0).Some?
    ensures z.size == 0 && z in multiset(Alloc(h, 0).value.1.used)
  {
    hide InsertPos, InsertSize, Without, ByPos, BySize, NoneAdjacent, Tiles;
    SizesAreFree(h);
    FitIsBest(h.sizes, 0);
    var e := Fit(h.sizes, 0).value;
    InMultiset(h.free);
    InBounds(multiset(h.free), multiset(h.used), n, e);
    z := Block(e.pos, 0);
    Moves(h, z);
    assert Alloc(h, 0).value.1.used == AddUsed(h, z).used;
  }

  // ----- Runs -----

  /** What a caller sees: a request with the address it got, or a release of a block it holds. */
  datatype Event = Took(size: nat, at: Option<nat>) | Released(b: Block)

  function After(m: Memory, ev: Event, limit: nat): Option<Memory> {
    match ev
    case Took(size, at) =>
      (match AllocEx(m, size, limit)
       case None => if at.None? then Some(m) else None
       case Some((p, m')) => if at == Some(p) then Some(m') else None)
    case Released(b) =>
      if b !in m.h.used then None
      else
        match Free(m.h, b.pos)
        case None => None
        case Some(h') => Some(Memory(h', m.n))
  }

  /** The blocks a caller holds. */
  function Live(held: multiset<Block>, evs: seq<Event>): multiset<Block>
    decreases evs
  {
    if evs == [] then held
    else
      var next := match evs[0]
                  case Took(size, at) => if at.Some? then held + multiset{Block(at.value, size)} else held
                  case Released(b) => held - multiset{b};
      Live(next, evs[1..])
  }

  ghost predicate Runs(m: Memory, evs: seq<Event>, m': Memory, limit: nat)
    decreases evs
  {
    if evs == [] then m' == m
    else
      && (evs[0].Took? ==> 0 < evs[0].size && m.n + evs[0].size < W32)
      && After(m, evs[0], limit).Some?
      && Runs(After(m, evs[0], limit).value, evs[1..], m', limit)
  }

  lemma AfterKeeps(m: Memory, ev: Event, limit: nat)
    requires Sound(m) && (ev.Took? ==> 0 < ev.size && m.n + ev.size < W32)
    requires After(m, ev, limit).Some?
    ensures
      var m' := After(m, ev, limit).value;
      Sound(m') && m.n <= m'.n <= Max(m.n, limit) && multiset(m'.h.used) == Live(multiset(m.h.used), [ev])
  {
    hide Valid, AllocEx, Free;
    match ev {
      case Took(size, at) =>
        AllocExCorrect(m, size, limit);
      case Released(b) =>
        FreeCorrect(m.h, m.n, b.pos);
        var e :| e in m.h.used && e.pos == b.pos && multiset(Free(m.h, b.pos).value.used) == multiset(m.h.used) - multiset{e};
        UsedOneStart(m.h, m.n, e, b);
    }
  }

  lemma UsedOneStart(h: Index, n: nat, a: Block, b: Block)
    requires Valid(h, n) && a in h.used && b in h.used && a.pos == b.pos
    ensures a == b
  {
    var f, u := multiset(h.free), multiset(h.used);
    assert u + f == f + u;
    InMultiset(h.used);
    Tiled(u, f, n, a);
    Tiled(u, f, n, b);
  }

  lemma LiveCons(held: multiset<Block>, evs: seq<Event>)
    requires evs != []
    ensures Live(held, evs) == Live(Live(held, [evs[0]]), evs[1..])
  {
    assert [evs[0]][1..] == [];
  }

  /** Over any run of requests and releases the heap stays valid and its used blocks are exactly the ones the caller
      holds. */
  lemma {:induction false} RunKeepsValid(m: Memory, evs: seq<Event>, m': Memory, limit: nat)
    requires Sound(m) && m.n <= limit && Runs(m, evs, m', limit)
    ensures Sound(m') && m.n <= m'.n <= limit && multiset(m'.h.used) == Live(multiset(m.h.used), evs)
    decreases evs
  {
    hide Valid, After, Live;
    if evs == [] {
      LiveNone(multiset(m.h.used));
    } else {
      AfterKeeps(m, evs[0], limit);
      LiveCons(multiset(m.h.used), evs);
      RunKeepsValid(After(m, evs[0], limit).value, evs[1..], m', limit);
    }
  }

  lemma LiveNone(held: multiset<Block>)
    ensures Live(held, []) == held
  {
  }

  lemma EmptyIsValid()
    ensures Valid(Index([], [], []), 0)
  {
  }

  /** No two blocks a caller holds overlap, and all lie inside the memory. */
  lemma HeldBlocksAreDisjoint(evs: seq<Event>, m': Memory, limit: nat, a: Block, b: Block)
    requires Runs(Memory(Index([], [], []), 0), evs, m', limit)
    requires a in Live(multiset{}, evs) && b in Live(multiset{}, evs)
    ensures a.End() <= m'.n <= limit
    ensures a != b ==> a.End() <= b.pos || b.End() <= a.pos
    ensures Live(multiset{}, evs)[a] == 1
  {
    hide Live, Runs;
    EmptyIsValid();
    RunKeepsValid(Memory(Index([], [], []), 0), evs, m', limit);
    var f, u := multiset(m'.h.free), multiset(m'.h.used);
    assert multiset(Index([], [], []).used) == multiset{};
    assert u + f == f + u;
    Tiled(u, f, m'.n, a);
    InBounds(u, f, m'.n, a);
  }

  // ----- The heap object -----

  /** The indexes as fields, updated in place by the steps of each operation. */
  class Allocator {
    var free: seq<Block>
    var sizes: seq<Block>
    var used: seq<Block>

    function Value(): Index
      reads this
    {
      Index(free, sizes, used)
    }

    constructor ()
      ensures Value() == Index([], [], []) && Valid(Value(), 0)
    {
      free, sizes, used := [], [], [];
      new;
      EmptyIsValid();
    }

    /** Both free indexes hold the same blocks. */
    ghost predicate Paired()
      reads this
    {
      multiset(sizes) == multiset(free)
    }

    ghost function Blocks(): multiset<Block>
      reads this
    {
      multiset(free + used)
    }

    /** Sorted indexes stay sorted. */
    method Insert(e: Block, isFree: bool)
      requires Paired()
      modifies this
      ensures Value() == if isFree then AddFree(old(Value()), e) else AddUsed(old(Value()), e)
      ensures Paired() && (old(Ordered(Value())) ==> Ordered(Value()))
      ensures Blocks() == old(Blocks()) + multiset{e}
    {
      ghost var h := Value();
      InsertKeeps(h, e);
      hide InsertPos, InsertSize, ByPos, BySize;
      if isFree {
        free := InsertPos(free, e);
        sizes := InsertSize(sizes, e);
      } else {
        used := InsertPos(used, e);
      }
    }

    method Remove(e: Block, isFree: bool)
      requires Paired() && if isFree then e in free else e in used
      modifies this
      ensures Value() == if isFree then DropFree(old(Value()), e) else DropUsed(old(Value()), e)
      ensures Paired() && (old(Ordered(Value())) ==> Ordered(Value()))
      ensures Blocks() == old(Blocks()) - multiset{e}
    {
      ghost var h := Value();
      RemoveKeeps(h, e, isFree);
      hide Without, ByPos, BySize;
      if isFree {
        free := Without(free, e);
        sizes := Without(sizes, e);
      } else {
        used := Without(used, e);
      }
    }

    /** The entry is changed where it stands in the position index, and re-inserted by size. Where the free blocks are apart and
        the start stays within the block, that is the same as taking the block out and inserting the new one. */
    method Update(i: nat, e': Block)
      requires Paired() && i < |free|
      modifies this`free, this`sizes
      ensures free == old(free)[i := e'] && Paired()
      ensures old(Apart(free) && free[i].pos <= e'.pos < free[i].End()) ==>
        Value() == AddFree(DropFree(old(Value()), old(free)[i]), e')
    {
      hide InsertPos, InsertSize, Without, Apart;
      var e := free[i];
      if Apart(free) && e.pos <= e'.pos < e.End() {
        KeyUpdateKeepsOrder(free, i, e');
      }
      ChangeKeeps(free, sizes, i, e');
      free := free[i := e'];
      sizes := Without(sizes, e);
      sizes := InsertSize(sizes, e');
    }

    /** Where an entry stands. */
    method Place(e: Block) returns (i: nat)
      requires e in free
      ensures i < |free| && free[i] == e
    {
      i := 0;
      while free[i] != e
        invariant i < |free| && e in free[i..]
        decreases |free| - i
      {
        assert free[i..] == [free[i]] + free[i + 1..];
        i := i + 1;
      }
    }

    /** `Alloc` */
    method Take(size: nat) returns (r: Option<nat>)
      requires Paired()
      modifies this
      ensures Paired()
      ensures match Alloc(old(Value()), size)
              case None => r == None && Value() == old(Value())
              case Some((p, h')) => r == Some(p) && (old(Apart(free)) ==> Value() == h')
      ensures forall n :: old(Valid(Value(), n)) && size > 0 ==> Valid(Value(), n)
    {
      hide Valid, InsertPos, InsertSize, Without, Apart, Ordered, Blocks;
      ghost var h := Value();
      forall n | Valid(h, n) && size > 0 ensures Apart(free) && (Alloc(h, size).Some? ==> Valid(Alloc(h, size).value.1, n)) {
        AllocCorrect(h, n, size);
        ValidApart(h, n);
      }
      var it := Fit(sizes, size);
      if it == None {
        return None;
      }
      var e := it.value;
      FitFits(sizes, size);
      SizesAreFree(h);
      if e.size == size {
        Remove(e, true);
        Insert(e, false);
      } else {
        Insert(Block(e.pos, size), false);
        var i := Place(e);
        Update(i, Block(e.pos + size, e.size - size));
      }
      return Some(e.pos);
    }

    /** `TryMerge` */
    method Merge(e: Block) returns (e': Block)
      requires Paired() && e in free
      modifies this
      ensures Paired() && (old(Apart(free)) && e.size > 0 ==> (Value(), e') == TryMerge(old(Value()), e))
    {
      hide InsertPos, InsertSize, Without, Apart, FindPos, Ordered, AddFree, DropFree, AddUsed, DropUsed, Blocks;
      var it := FindPos(free, e.End());
      FindPosProps(free, e.End());
      if it == None {
        return e;
      }
      e' := Block(e.pos, e.size + it.value.size);
      var i := Place(e);
      StaysIn(free, i, e', it.value);
      Update(i, e');
      Remove(it.value, true);
    }

    /** `Free` */
    method Release(ptr: nat) returns (ok: bool)
      requires Paired()
      modifies this
      ensures Paired() && ok == Free(old(Value()), ptr).Some? && (!ok ==> Value() == old(Value()))
      ensures forall n :: old(Valid(Value(), n)) ==> Valid(Value(), n) && (ok ==> Value() == Free(old(Value()), ptr).value)
    {
      hide AddFree, DropFree, DropUsed, TryMerge, Before, FindPos, Valid, Apart, Ordered, Blocks;
      ghost var h := Value();
      forall n | Valid(h, n)
        ensures Free(h, ptr).Some? ==> Valid(Free(h, ptr).value, n) && MergesApart(h, FindPos(h.used, ptr).value)
      {
        FreeCorrect(h, n, ptr);
        FindPosProps(h.used, ptr);
        if Free(h, ptr).Some? {
          ReleaseApart(h, n, FindPos(h.used, ptr).value);
        }
      }
      var it := FindPos(used, ptr);
      FindPosProps(used, ptr);
      if it == None {
        return false;
      }
      var e := it.value;
      Remove(e, false);
      Insert(e, true);
      InsertedFree(DropUsed(h, e), e);
      e := Merge(e);
      var prev := Before(free, e.pos);
      BeforeIn(free, e.pos);
      if prev != None {
        var _ := Merge(prev.value);
      }
      return true;
    }

    /** `OnGrow` */
    method Grow(n: nat, n': nat)
      requires n < n' && Paired()
      modifies this
      ensures Paired() && (old(Valid(Value(), n)) ==> Valid(Value(), n') && Value() == OnGrow(old(Value()), n, n'))
    {
      hide InsertPos, InsertSize, Without, Valid, Apart, Ordered, Blocks;
      ghost var h := Value();
      if Valid(h, n) {
        OnGrowCorrect(h, n, n');
        ValidApart(h, n);
      }
      if free != [] && free[|free| - 1].End() == n {
        var e := free[|free| - 1];
        Update(|free| - 1, Block(e.pos, n' - e.pos));
      } else {
        Insert(Block(n, n' - n), true);
      }
    }
  }

  // ----- What the steps of the object keep -----

  lemma InsertKeeps(h: Index, e: Block)
    requires multiset(h.sizes) == multiset(h.free)
    ensures multiset(AddFree(h, e).sizes) == multiset(AddFree(h, e).free) == multiset(h.free) + multiset{e}
    ensures multiset(AddUsed(h, e).used) == multiset(h.used) + multiset{e}
    ensures Ordered(h) ==> Ordered(AddFree(h, e)) && Ordered(AddUsed(h, e))
    ensures multiset(AddFree(h, e).free + h.used) == multiset(h.free + h.used) + multiset{e}
    ensures multiset(h.free + AddUsed(h, e).used) == multiset(h.free + h.used) + multiset{e}
  {
    hide InsertPos, InsertSize, ByPos, BySize;
    InsertPosProps(h.free, e);
    InsertSizeProps(h.sizes, e);
    InsertPosProps(h.used, e);
  }

  lemma RemoveKeeps(h: Index, e: Block, isFree: bool)
    requires multiset(h.sizes) == multiset(h.free) && if isFree then e in h.free else e in h.used
    ensures
      var h' := if isFree then DropFree(h, e) else DropUsed(h, e);
      && multiset(h'.sizes) == multiset(h'.free) && (Ordered(h) ==> Ordered(h'))
      && multiset(h'.free + h'.used) == multiset(h.free + h.used) - multiset{e}
  {
    hide Without, ByPos, BySize;
    if isFree {
      assert e in multiset(h.sizes);
      WithoutProps(h.free, e);
      WithoutProps(h.sizes, e);
    } else {
      WithoutProps(h.used, e);
    }
  }

  lemma ChangeKeeps(free: seq<Block>, sizes: seq<Block>, i: nat, e': Block)
    requires multiset(sizes) == multiset(free) && i < |free|
    ensures multiset(InsertSize(Without(sizes, free[i]), e')) == multiset(free[i := e'])
  {
    hide Without, InsertSize, BySize, ByPos;
    assert free[i] in multiset(sizes);
    WithoutProps(sizes, free[i]);
    InsertSizeProps(Without(sizes, free[i]), e');
    assert multiset(free[i := e']) == multiset(free) - multiset{free[i]} + multiset{e'};
  }

  lemma StaysIn(free: seq<Block>, i: nat, e': Block, e2: Block)
    requires i < |free| && e2 in free && (e2 == free[i] ==> e' == e2)
    ensures e2 in free[i := e']
  {
    var j :| 0 <= j < |free| && free[j] == e2;
    assert free[i := e'][j] == e2;
  }

  lemma ValidApart(h: Index, n: nat)
    requires Valid(h, n)
    ensures Apart(h.free) && forall b :: b in h.free ==> b.size > 0
  {
    IndexedApart(h, n);
  }

  lemma IndexedApart(h: Index, n: nat)
    requires Indexed(h, n)
    ensures Apart(h.free) && forall b :: b in h.free ==> b.size > 0
  {
    hide ByPos, BySize, Tiles;
    FreeApart(h, n);
    InMultiset(h.free);
    forall b | b in h.free ensures b.size > 0 {
      Tiled(multiset(h.free), multiset(h.used), n, b);
    }
  }

  /** Both merges of a release find the free blocks apart and a block that is not empty. */
  ghost predicate MergesApart(h: Index, e: Block) {
    var h1 := AddFree(DropUsed(h, e), e);
    var (h2, e2) := TryMerge(h1, e);
    && Apart(h1.free) && e.size > 0 && Apart(h2.free)
    && (Before(h2.free, e2.pos).Some? ==> Before(h2.free, e2.pos).value.size > 0)
  }

  lemma ReleaseApart(h: Index, n: nat, e: Block)
    requires Valid(h, n) && e in h.used
    ensures MergesApart(h, e)
  {
    hide AddFree, DropUsed, TryMerge, Before, Indexed, Valid, Apart;
    Released(h, n, e);
    var h1 := AddFree(DropUsed(h, e), e);
    IndexedApart(h1, n);
    TryMergeKeeps(h1, n, e);
    var (h2, e2) := TryMerge(h1, e);
    IndexedApart(h2, n);
    BeforeIn(h2.free, e2.pos);
  }

  lemma InsertedFree(h: Index, e: Block)
    ensures e in AddFree(h, e).free
  {
    hide InsertPos;
    InsertPosProps(h.free, e);
  }

  lemma {:induction false} BeforeIn(s: seq<Block>, pos: nat)
    ensures Before(s, pos).Some? ==> Before(s, pos).value in s
  {
    if s != [] {
      BeforeIn(s[1..], pos);
    }
  }

  lemma {:induction false} FitFits(sizes: seq<Block>, size: nat)
    ensures Fit(sizes, size).Some? ==> Fit(sizes, size).value in sizes && Fit(sizes, size).value.size >= size
  {
    if sizes != [] {
      FitFits(sizes[1..], size);
    }
  }
}
