/** Vectors of integers and of group elements, and the bilinear pairing that sums the products of their entries. */
module Linear {
  import opened Group

  // ----- Vector operations -----

  function VAdd(u: seq<int>, v: seq<int>): (r: seq<int>)
    requires |u| == |v|
    ensures |r| == |u|
  {
    seq(|u|, i requires 0 <= i < |u| => u[i] + v[i])
  }

  function VMul(k: int, u: seq<int>): (r: seq<int>)
    ensures |r| == |u|
  {
    seq(|u|, i requires 0 <= i < |u| => k * u[i])
  }

  function PAdd<P(!new)>(g: Group<P>, u: seq<P>, v: seq<P>): (r: seq<P>)
    requires |u| == |v|
    ensures |r| == |u|
  {
    seq(|u|, i requires 0 <= i < |u| => g.add(u[i], v[i]))
  }

  function PMul<P(!new)>(g: Group<P>, k: int, u: seq<P>): (r: seq<P>)
    ensures |r| == |u|
  {
    seq(|u|, i requires 0 <= i < |u| => Mul(g, k, u[i]))
  }

  // ----- The pairings -----

  function Dot(u: seq<int>, v: seq<int>): int
    requires |u| == |v|
  {
    if u == [] then 0 else Dot(u[..|u| - 1], v[..|u| - 1]) + u[|u| - 1] * v[|u| - 1]
  }

  function Comb<P(!new)>(g: Group<P>, u: seq<int>, v: seq<P>): P
    requires |u| == |v|
  {
    if u == [] then g.zero else g.add(Comb(g, u[..|u| - 1], v[..|u| - 1]), Mul(g, u[|u| - 1], v[|u| - 1]))
  }

  lemma {:induction false} DotAdd(u: seq<int>, v: seq<int>, w: seq<int>)
    requires |u| == |v| == |w|
    ensures Dot(VAdd(u, v), w) == Dot(u, w) + Dot(v, w)
    ensures Dot(w, VAdd(u, v)) == Dot(w, u) + Dot(w, v)
  {
    if u != [] {
      var n := |u| - 1;
      DotAdd(u[..n], v[..n], w[..n]);
      assert VAdd(u, v)[..n] == VAdd(u[..n], v[..n]);
      assert (u[n] + v[n]) * w[n] == u[n] * w[n] + v[n] * w[n];
      assert w[n] * (u[n] + v[n]) == w[n] * u[n] + w[n] * v[n];
    }
  }

  lemma {:induction false} DotMul(k: int, u: seq<int>, w: seq<int>)
    requires |u| == |w|
    ensures Dot(VMul(k, u), w) == k * Dot(u, w)
    ensures Dot(w, VMul(k, u)) == k * Dot(w, u)
  {
    if u != [] {
      var n := |u| - 1;
      DotMul(k, u[..n], w[..n]);
      assert VMul(k, u)[..n] == VMul(k, u[..n]);
      Distribute(k, Dot(u[..n], w[..n]), u[n], w[n]);
      Distribute(k, Dot(w[..n], u[..n]), w[n], u[n]);
    }
  }

  lemma Distribute(k: int, d: int, a: int, b: int)
    ensures k * (d + a * b) == k * d + (k * a) * b
    ensures k * (d + a * b) == k * d + a * (k * b)
  {
  }

  lemma {:induction false} DotSplit(u: seq<int>, v: seq<int>, s: seq<int>, t: seq<int>)
    requires |u| == |v| && |s| == |t|
    ensures Dot(u + s, v + t) == Dot(u, v) + Dot(s, t)
  {
    if s == [] {
      assert u + s == u && v + t == v;
    } else {
      var n := |s| - 1;
      DotSplit(u, v, s[..n], t[..n]);
      assert (u + s)[..|u| + n] == u + s[..n] && (v + t)[..|u| + n] == v + t[..n];
    }
  }

  lemma {:induction false} CombAddScalars<P(!new)>(g: Group<P>, u: seq<int>, v: seq<int>, w: seq<P>)
    requires Abelian(g) && |u| == |v| == |w|
    ensures Comb(g, VAdd(u, v), w) == g.add(Comb(g, u, w), Comb(g, v, w))
  {
    hide Abelian, Mul;
    if u == [] {
      Zero(g, g.zero);
    } else {
      var n := |u| - 1;
      CombAddScalars(g, u[..n], v[..n], w[..n]);
      assert VAdd(u, v)[..n] == VAdd(u[..n], v[..n]);
      MulAdd(g, u[n], v[n], w[n]);
      Swap(g, Comb(g, u[..n], w[..n]), Comb(g, v[..n], w[..n]), Mul(g, u[n], w[n]), Mul(g, v[n], w[n]));
    }
  }

  lemma {:induction false} CombAddPoints<P(!new)>(g: Group<P>, u: seq<int>, v: seq<P>, w: seq<P>)
    requires Abelian(g) && |u| == |v| == |w|
    ensures Comb(g, u, PAdd(g, v, w)) == g.add(Comb(g, u, v), Comb(g, u, w))
  {
    hide Abelian, Mul;
    if u == [] {
      Zero(g, g.zero);
    } else {
      var n := |u| - 1;
      CombAddPoints(g, u[..n], v[..n], w[..n]);
      assert PAdd(g, v, w)[..n] == PAdd(g, v[..n], w[..n]);
      MulSum(g, u[n], v[n], w[n]);
      Swap(g, Comb(g, u[..n], v[..n]), Comb(g, u[..n], w[..n]), Mul(g, u[n], v[n]), Mul(g, u[n], w[n]));
    }
  }

  lemma {:induction false} CombMul<P(!new)>(g: Group<P>, k: int, u: seq<int>, w: seq<P>)
    requires Abelian(g) && |u| == |w|
    ensures Comb(g, VMul(k, u), w) == Mul(g, k, Comb(g, u, w))
    ensures Comb(g, u, PMul(g, k, w)) == Mul(g, k, Comb(g, u, w))
  {
    hide Abelian, Mul;
    if u == [] {
      MulZero(g, k);
    } else {
      var n := |u| - 1;
      CombMul(g, k, u[..n], w[..n]);
      assert VMul(k, u)[..n] == VMul(k, u[..n]);
      assert PMul(g, k, w)[..n] == PMul(g, k, w[..n]);
      MulSum(g, k, Comb(g, u[..n], w[..n]), Mul(g, u[n], w[n]));
      MulMul(g, k, u[n], w[n]);
      MulMul(g, u[n], k, w[n]);
    }
  }

  lemma {:induction false} CombSplit<P(!new)>(g: Group<P>, u: seq<int>, v: seq<P>, s: seq<int>, t: seq<P>)
    requires Abelian(g) && |u| == |v| && |s| == |t|
    ensures Comb(g, u + s, v + t) == g.add(Comb(g, u, v), Comb(g, s, t))
  {
    hide Abelian, Mul;
    if s == [] {
      assert u + s == u && v + t == v;
      Zero(g, Comb(g, u, v));
    } else {
      var n := |s| - 1;
      CombSplit(g, u, v, s[..n], t[..n]);
      assert (u + s)[..|u| + n] == u + s[..n] && (v + t)[..|u| + n] == v + t[..n];
      Assoc(g, Comb(g, u, v), Comb(g, s[..n], t[..n]), Mul(g, s[n], t[n]));
    }
  }

  lemma CombOne<P(!new)>(g: Group<P>, k: int, p: P)
    requires Abelian(g)
    ensures Comb(g, [k], [p]) == Mul(g, k, p)
  {
    assert [k][..0] == [] && [p][..0] == [];
    Zero(g, Mul(g, k, p));
  }

  lemma Shift<P(!new)>(g: Group<P>, a: P, c: P, l: P)
    requires Abelian(g)
    ensures g.add(g.add(a, c), l) == g.add(g.add(a, l), c)
  {
    hide Abelian;
    Assoc(g, a, c, l);
    Comm(g, c, l);
    Assoc(g, a, l, c);
  }

  lemma {:induction false} CombUpdate<P(!new)>(g: Group<P>, u: seq<int>, w: seq<P>, i: nat, k: int)
    requires Abelian(g) && |u| == |w| && i < |u|
    ensures Comb(g, u[i := u[i] + k], w) == g.add(Comb(g, u, w), Mul(g, k, w[i]))
  {
    hide Abelian, Mul;
    var n := |u| - 1;
    var u' := u[i := u[i] + k];
    if i == n {
      assert u'[..n] == u[..n];
      MulAdd(g, u[n], k, w[n]);
      Assoc(g, Comb(g, u[..n], w[..n]), Mul(g, u[n], w[n]), Mul(g, k, w[n]));
    } else {
      CombUpdate(g, u[..n], w[..n], i, k);
      assert u'[..n] == u[..n][i := u[..n][i] + k];
      Shift(g, Comb(g, u[..n], w[..n]), Mul(g, k, w[i]), Mul(g, u[n], w[n]));
    }
  }

  lemma {:induction false} CombZeros<P(!new)>(g: Group<P>, u: seq<int>, w: seq<P>)
    requires Abelian(g) && |u| == |w| && forall i :: 0 <= i < |u| ==> u[i] == 0
    ensures Comb(g, u, w) == g.zero
  {
    hide Abelian, Mul;
    if u != [] {
      CombZeros(g, u[..|u| - 1], w[..|u| - 1]);
      MulSmall(g, w[|u| - 1]);
      Zero(g, g.zero);
    }
  }
}
