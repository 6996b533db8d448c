/** Abelian groups given by their operations, integer multiples of their elements, and linear combinations. Curve points
    are used only through these laws. */
module Group {
  datatype Group<!P(!new)> = Group(zero: P, add: (P, P) -> P, neg: P -> P)

  ghost predicate Abelian<P(!new)>(g: Group<P>) {
    && (forall a, b :: g.add(a, b) == g.add(b, a))
    && (forall a, b, c :: g.add(g.add(a, b), c) == g.add(a, g.add(b, c)))
    && (forall a :: g.add(a, g.zero) == a)
    && (forall a :: g.add(a, g.neg(a)) == g.zero)
  }

  // ----- Instances of the laws -----

  lemma Comm<P(!new)>(g: Group<P>, a: P, b: P)
    requires Abelian(g)
    ensures g.add(a, b) == g.add(b, a)
  {
  }

  lemma Assoc<P(!new)>(g: Group<P>, a: P, b: P, c: P)
    requires Abelian(g)
    ensures g.add(g.add(a, b), c) == g.add(a, g.add(b, c))
  {
  }

  lemma Zero<P(!new)>(g: Group<P>, a: P)
    requires Abelian(g)
    ensures g.add(a, g.zero) == a && g.add(g.zero, a) == a
  {
  }

  lemma Inverse<P(!new)>(g: Group<P>, a: P)
    requires Abelian(g)
    ensures g.add(a, g.neg(a)) == g.zero && g.add(g.neg(a), a) == g.zero
  {
  }

  lemma Swap<P(!new)>(g: Group<P>, a: P, b: P, c: P, d: P)
    requires Abelian(g)
    ensures g.add(g.add(a, b), g.add(c, d)) == g.add(g.add(a, c), g.add(b, d))
  {
    hide Abelian;
    Assoc(g, a, b, g.add(c, d));
    Assoc(g, b, c, d);
    Comm(g, b, c);
    Assoc(g, c, b, d);
    Assoc(g, a, c, g.add(b, d));
  }

  lemma Cancel<P(!new)>(g: Group<P>, a: P, b: P, c: P)
    requires Abelian(g) && g.add(a, c) == g.add(b, c)
    ensures a == b
  {
    hide Abelian;
    Assoc(g, a, c, g.neg(c));
    Assoc(g, b, c, g.neg(c));
    Inverse(g, c);
    Zero(g, a);
    Zero(g, b);
  }

  lemma NegPlus<P(!new)>(g: Group<P>, a: P, p: P)
    requires Abelian(g)
    ensures g.neg(g.add(a, p)) == g.add(g.neg(a), g.neg(p))
  {
    hide Abelian;
    Swap(g, a, p, g.neg(a), g.neg(p));
    Inverse(g, a);
    Inverse(g, p);
    Zero(g, g.zero);
    Inverse(g, g.add(a, p));
    Comm(g, g.add(a, p), g.neg(g.add(a, p)));
    Comm(g, g.add(a, p), g.add(g.neg(a), g.neg(p)));
    Cancel(g, g.neg(g.add(a, p)), g.add(g.neg(a), g.neg(p)), g.add(a, p));
  }

  lemma NegNeg<P(!new)>(g: Group<P>, a: P)
    requires Abelian(g)
    ensures g.neg(g.neg(a)) == a && g.neg(g.zero) == g.zero
  {
    hide Abelian;
    Inverse(g, a);
    Inverse(g, g.neg(a));
    Comm(g, g.neg(a), g.neg(g.neg(a)));
    Cancel(g, g.neg(g.neg(a)), a, g.neg(a));
    Inverse(g, g.zero);
    Zero(g, g.neg(g.zero));
  }

  // ----- Integer multiples -----

  function Mul<P(!new)>(g: Group<P>, k: int, p: P): P
    decreases if k < 0 then -k else k
  {
    if k == 0 then g.zero
    else if k > 0 then g.add(Mul(g, k - 1, p), p)
    else g.add(Mul(g, k + 1, p), g.neg(p))
  }

  lemma MulNext<P(!new)>(g: Group<P>, k: int, p: P)
    requires Abelian(g)
    ensures Mul(g, k + 1, p) == g.add(Mul(g, k, p), p)
  {
    hide Abelian;
    if k < 0 {
      Assoc(g, Mul(g, k + 1, p), g.neg(p), p);
      Inverse(g, p);
      Zero(g, Mul(g, k + 1, p));
    }
  }

  lemma MulSmall<P(!new)>(g: Group<P>, p: P)
    requires Abelian(g)
    ensures Mul(g, 0, p) == g.zero && Mul(g, 1, p) == p && Mul(g, -1, p) == g.neg(p) && Mul(g, 2, p) == g.add(p, p)
  {
    hide Abelian;
    Zero(g, p);
    Zero(g, g.neg(p));
    assert Mul(g, 0, p) == g.zero;
    assert Mul(g, 1, p) == g.add(Mul(g, 0, p), p);
  }

  lemma {:induction false} MulAdd<P(!new)>(g: Group<P>, a: int, b: int, p: P)
    requires Abelian(g)
    ensures Mul(g, a + b, p) == g.add(Mul(g, a, p), Mul(g, b, p))
    decreases if b < 0 then -b else b
  {
    hide Abelian, Mul;
    if b == 0 {
      MulSmall(g, p);
      Zero(g, Mul(g, a, p));
    } else if b > 0 {
      MulAdd(g, a, b - 1, p);
      MulNext(g, a + b - 1, p);
      MulNext(g, b - 1, p);
      Assoc(g, Mul(g, a, p), Mul(g, b - 1, p), p);
    } else {
      MulAdd(g, a, b + 1, p);
      MulNext(g, a + b, p);
      MulNext(g, b, p);
      Assoc(g, Mul(g, a, p), Mul(g, b, p), p);
      Cancel(g, Mul(g, a + b, p), g.add(Mul(g, a, p), Mul(g, b, p)), p);
    }
  }

  lemma {:induction false} MulSum<P(!new)>(g: Group<P>, k: int, p: P, q: P)
    requires Abelian(g)
    ensures Mul(g, k, g.add(p, q)) == g.add(Mul(g, k, p), Mul(g, k, q))
    decreases if k < 0 then -k else k
  {
    hide Abelian, Mul;
    if k == 0 {
      MulSmall(g, p);
      MulSmall(g, q);
      MulSmall(g, g.add(p, q));
      Zero(g, g.zero);
    } else {
      var j := if k > 0 then k - 1 else k;
      MulNext(g, j, p);
      MulNext(g, j, q);
      MulNext(g, j, g.add(p, q));
      Swap(g, Mul(g, j, p), Mul(g, j, q), p, q);
      if k > 0 {
        MulSum(g, k - 1, p, q);
      } else {
        MulSum(g, k + 1, p, q);
        Cancel(g, Mul(g, k, g.add(p, q)), g.add(Mul(g, k, p), Mul(g, k, q)), g.add(p, q));
      }
    }
  }

  lemma {:induction false} MulZero<P(!new)>(g: Group<P>, k: int)
    requires Abelian(g)
    ensures Mul(g, k, g.zero) == g.zero
  {
    hide Abelian, Mul;
    MulSum(g, k, g.zero, g.zero);
    Zero(g, g.zero);
    Zero(g, Mul(g, k, g.zero));
    Cancel(g, Mul(g, k, g.zero), g.zero, Mul(g, k, g.zero));
  }

  lemma {:induction false} MulMul<P(!new)>(g: Group<P>, a: int, b: int, p: P)
    requires Abelian(g)
    ensures Mul(g, a * b, p) == Mul(g, a, Mul(g, b, p))
    decreases if a < 0 then -a else a
  {
    hide Abelian, Mul;
    if a == 0 {
      MulSmall(g, p);
      MulSmall(g, Mul(g, b, p));
    } else if a > 0 {
      MulMul(g, a - 1, b, p);
      MulNext(g, a - 1, Mul(g, b, p));
      MulAdd(g, (a - 1) * b, b, p);
      assert (a - 1) * b + b == a * b;
    } else {
      MulMul(g, a + 1, b, p);
      MulNext(g, a, Mul(g, b, p));
      MulAdd(g, a * b, b, p);
      assert (a + 1) * b == a * b + b;
      Cancel(g, Mul(g, a * b, p), Mul(g, a, Mul(g, b, p)), Mul(g, b, p));
    }
  }

  lemma MulNeg<P(!new)>(g: Group<P>, k: int, p: P)
    requires Abelian(g)
    ensures Mul(g, -k, p) == g.neg(Mul(g, k, p))
    ensures g.add(Mul(g, k, p), Mul(g, -k, p)) == g.zero
  {
    hide Abelian, Mul;
    MulAdd(g, k, -k, p);
    MulSmall(g, p);
    Inverse(g, Mul(g, k, p));
    Comm(g, Mul(g, k, p), Mul(g, -k, p));
    Comm(g, Mul(g, k, p), g.neg(Mul(g, k, p)));
    Cancel(g, Mul(g, -k, p), g.neg(Mul(g, k, p)), Mul(g, k, p));
  }

  // ----- Scalars modulo the group order -----

  ghost predicate HasOrder<P(!new)>(g: Group<P>, q: nat) {
    forall p :: Mul(g, q, p) == g.zero
  }

  /** Two integers stand for one scalar. */
  ghost predicate Same(q: nat, a: int, b: int) {
    exists t: int :: a == b + t * q
  }

  lemma MulSame<P(!new)>(g: Group<P>, q: nat, a: int, b: int, p: P)
    requires Abelian(g) && HasOrder(g, q) && Same(q, a, b)
    ensures Mul(g, a, p) == Mul(g, b, p)
  {
    hide Abelian, Mul;
    var t :| a == b + t * q;
    MulAdd(g, b, t * q, p);
    MulMul(g, t, q, p);
    MulZero(g, t);
    Zero(g, Mul(g, b, p));
  }
}
