// The point arithmetic that ECPoint provides (Add, Negate, Twice, TwicePlus,
// TimesPow2) is not part of this model: points are the elements of an
// abstract additive group, and scalar multiples are defined from the group
// operations alone.
module Groups {
  import opened Arith

  /** An additive group: the point at infinity, point addition and negation. */
  datatype Group<!T> = Group(zero: T, add: (T, T) -> T, neg: T -> T)

  /**
   * The laws of an abelian group. Each law is a predicate of its own, so
   * that it is applied only where a proof names the instance it needs.
   */
  ghost predicate IsAbelian<T(!new)>(g: Group<T>)
  {
    && (forall a, b :: CommutesAt(g, a, b))
    && (forall a, b, c :: AssociatesAt(g, a, b, c))
    && (forall a :: IdentityAt(g, a))
    && (forall a :: InverseAt(g, a))
  }

  ghost predicate CommutesAt<T(!new)>(g: Group<T>, a: T, b: T)
  {
    g.add(a, b) == g.add(b, a)
  }

  ghost predicate AssociatesAt<T(!new)>(g: Group<T>, a: T, b: T, c: T)
  {
    g.add(g.add(a, b), c) == g.add(a, g.add(b, c))
  }

  ghost predicate IdentityAt<T(!new)>(g: Group<T>, a: T)
  {
    g.add(a, g.zero) == a
  }

  ghost predicate InverseAt<T(!new)>(g: Group<T>, a: T)
  {
    g.add(a, g.neg(a)) == g.zero
  }

  lemma Comm<T(!new)>(g: Group<T>, a: T, b: T)
    requires IsAbelian(g)
    ensures g.add(a, b) == g.add(b, a)
  {
    assert CommutesAt(g, a, b);
  }

  lemma Assoc<T(!new)>(g: Group<T>, a: T, b: T, c: T)
    requires IsAbelian(g)
    ensures g.add(g.add(a, b), c) == g.add(a, g.add(b, c))
  {
    assert AssociatesAt(g, a, b, c);
  }

  lemma Ident<T(!new)>(g: Group<T>, a: T)
    requires IsAbelian(g)
    ensures g.add(a, g.zero) == a && g.add(g.zero, a) == a
  {
    assert IdentityAt(g, a);
    Comm(g, a, g.zero);
  }

  lemma Inverse<T(!new)>(g: Group<T>, a: T)
    requires IsAbelian(g)
    ensures g.add(a, g.neg(a)) == g.zero && g.add(g.neg(a), a) == g.zero
  {
    assert InverseAt(g, a);
    Comm(g, a, g.neg(a));
  }

  /** ECPoint.Twice: 2a. */
  function Twice<T(!new)>(g: Group<T>, a: T): T
  {
    g.add(a, a)
  }

  /** ECPoint.TwicePlus: 2r + x. */
  function TwicePlus<T(!new)>(g: Group<T>, r: T, x: T): T
  {
    g.add(Twice(g, r), x)
  }

  /** ECPoint.Subtract: a + (-b). */
  function Subtract<T(!new)>(g: Group<T>, a: T, b: T): T
  {
    g.add(a, g.neg(b))
  }

  /** ECPoint.TimesPow2: e successive doublings. */
  function TimesPow2<T(!new)>(g: Group<T>, r: T, e: nat): T
  {
    if e == 0 then r else TimesPow2(g, Twice(g, r), e - 1)
  }

  /** The scalar multiple k p, for any sign of k. */
  function Mul<T(!new)>(g: Group<T>, k: int, p: T): T
    decreases if k >= 0 then k else -k + 1
  {
    if k == 0 then g.zero
    else if k > 0 then g.add(Mul(g, k - 1, p), p)
    else g.neg(Mul(g, -k, p))
  }

  // ---------------------------------------------------------------------
  // Group facts

  lemma NegUnique<T(!new)>(g: Group<T>, a: T, b: T)
    requires IsAbelian(g) && g.add(a, b) == g.zero
    ensures b == g.neg(a)
  {
    calc {
      b;
      { Ident(g, b); }
      g.add(b, g.zero);
      { Inverse(g, a); }
      g.add(b, g.add(a, g.neg(a)));
      { Assoc(g, b, a, g.neg(a)); }
      g.add(g.add(b, a), g.neg(a));
      { Comm(g, b, a); }
      g.add(g.zero, g.neg(a));
      { Ident(g, g.neg(a)); }
      g.neg(a);
    }
  }

  lemma NegAdd<T(!new)>(g: Group<T>, a: T, b: T)
    requires IsAbelian(g)
    ensures g.neg(g.add(a, b)) == g.add(g.neg(a), g.neg(b))
  {
    var na, nb := g.neg(a), g.neg(b);
    calc {
      g.add(g.add(a, b), g.add(na, nb));
      { Interchange(g, a, b, na, nb); }
      g.add(g.add(a, na), g.add(b, nb));
      { Inverse(g, a); Inverse(g, b); }
      g.add(g.zero, g.zero);
      { Ident(g, g.zero); }
      g.zero;
    }
    NegUnique(g, g.add(a, b), g.add(na, nb));
  }

  lemma NegNeg<T(!new)>(g: Group<T>, a: T)
    requires IsAbelian(g)
    ensures g.neg(g.neg(a)) == a
  {
    Inverse(g, a);
    NegUnique(g, g.neg(a), a);
  }

  lemma NegZero<T(!new)>(g: Group<T>)
    requires IsAbelian(g)
    ensures g.neg(g.zero) == g.zero
  {
    Ident(g, g.zero);
    NegUnique(g, g.zero, g.zero);
  }

  /** Sums of four terms can be regrouped pairwise. */
  lemma Interchange<T(!new)>(g: Group<T>, a: T, b: T, c: T, d: T)
    requires IsAbelian(g)
    ensures g.add(g.add(a, b), g.add(c, d)) == g.add(g.add(a, c), g.add(b, d))
  {
    calc {
      g.add(g.add(a, b), g.add(c, d));
      { Assoc(g, a, b, g.add(c, d)); }
      g.add(a, g.add(b, g.add(c, d)));
      { Assoc(g, b, c, d); Comm(g, b, c); Assoc(g, c, b, d); }
      g.add(a, g.add(c, g.add(b, d)));
      { Assoc(g, a, c, g.add(b, d)); }
      g.add(g.add(a, c), g.add(b, d));
    }
  }

  // ---------------------------------------------------------------------
  // Scalar multiples

  /** Adding p steps the multiple up by one, for any sign of k. */
  lemma MulSucc<T(!new)>(g: Group<T>, k: int, p: T)
    requires IsAbelian(g)
    ensures Mul(g, k + 1, p) == g.add(Mul(g, k, p), p)
  {
    if k < 0 {
      var m := Mul(g, -k - 1, p);
      assert Mul(g, -k, p) == g.add(m, p);
      calc {
        g.add(Mul(g, k, p), p);
        { NegAdd(g, m, p); }
        g.add(g.add(g.neg(m), g.neg(p)), p);
        { Assoc(g, g.neg(m), g.neg(p), p); }
        g.add(g.neg(m), g.add(g.neg(p), p));
        { Inverse(g, p); }
        g.add(g.neg(m), g.zero);
        { Ident(g, g.neg(m)); }
        g.neg(m);
      }
      if k + 1 == 0 {
        assert m == g.zero;
        NegZero(g);
      }
    }
  }

  lemma MulPred<T(!new)>(g: Group<T>, k: int, p: T)
    requires IsAbelian(g)
    ensures Mul(g, k - 1, p) == g.add(Mul(g, k, p), g.neg(p))
  {
    MulSucc(g, k - 1, p);
    calc {
      g.add(Mul(g, k, p), g.neg(p));
      g.add(g.add(Mul(g, k - 1, p), p), g.neg(p));
      { Assoc(g, Mul(g, k - 1, p), p, g.neg(p)); }
      g.add(Mul(g, k - 1, p), g.add(p, g.neg(p)));
      { Inverse(g, p); Ident(g, Mul(g, k - 1, p)); }
      Mul(g, k - 1, p);
    }
  }

  /** (a + b) p = a p + b p. */
  lemma {:induction false} MulAdd<T(!new)>(g: Group<T>, a: int, b: int, p: T)
    requires IsAbelian(g)
    ensures Mul(g, a + b, p) == g.add(Mul(g, a, p), Mul(g, b, p))
    decreases if b >= 0 then b else -b
  {
    if b > 0 {
      MulAdd(g, a, b - 1, p);
      MulSucc(g, a + b - 1, p);
      MulSucc(g, b - 1, p);
      Assoc(g, Mul(g, a, p), Mul(g, b - 1, p), p);
    } else if b < 0 {
      MulAdd(g, a, b + 1, p);
      MulPred(g, a + b + 1, p);
      MulPred(g, b + 1, p);
      Assoc(g, Mul(g, a, p), Mul(g, b + 1, p), g.neg(p));
    } else {
      Ident(g, Mul(g, a, p));
    }
  }

  /** (-k) p = -(k p). */
  lemma MulNeg<T(!new)>(g: Group<T>, k: int, p: T)
    requires IsAbelian(g)
    ensures Mul(g, -k, p) == g.neg(Mul(g, k, p))
  {
    MulAdd(g, k, -k, p);
    assert g.add(Mul(g, k, p), Mul(g, -k, p)) == g.zero;
    NegUnique(g, Mul(g, k, p), Mul(g, -k, p));
  }

  /** 1 p = p. */
  lemma MulOne<T(!new)>(g: Group<T>, p: T)
    requires IsAbelian(g)
    ensures Mul(g, 1, p) == p
  {
    Ident(g, p);
  }

  /** Doubling k p gives (2k) p. */
  lemma TwiceMul<T(!new)>(g: Group<T>, k: int, p: T)
    requires IsAbelian(g)
    ensures Twice(g, Mul(g, k, p)) == Mul(g, 2 * k, p)
  {
    MulAdd(g, k, k, p);
  }

  /** TimesPow2 multiplies the scalar by 2^e. */
  lemma {:induction false} TimesPow2Mul<T(!new)>(g: Group<T>, k: int, p: T, e: nat)
    requires IsAbelian(g)
    ensures TimesPow2(g, Mul(g, k, p), e) == Mul(g, k * Pow2(e), p)
    decreases e
  {
    if e > 0 {
      TwiceMul(g, k, p);
      TimesPow2Mul(g, 2 * k, p, e - 1);
      assert 2 * k * Pow2(e - 1) == k * Pow2(e);
    }
  }

  /** 2 (k p) + d p = (2k + d) p. */
  lemma TwicePlusMul<T(!new)>(g: Group<T>, k: int, d: int, p: T)
    requires IsAbelian(g)
    ensures TwicePlus(g, Mul(g, k, p), Mul(g, d, p)) == Mul(g, 2 * k + d, p)
  {
    TwiceMul(g, k, p);
    MulAdd(g, 2 * k, d, p);
  }

  /** The two-base form of TwicePlusMul used by Shamir's trick. */
  lemma TwicePlusPair<T(!new)>(g: Group<T>, k: int, l: int, dk: int, dl: int, p: T, q: T)
    requires IsAbelian(g)
    ensures TwicePlus(g, g.add(Mul(g, k, p), Mul(g, l, q)), g.add(Mul(g, dk, p), Mul(g, dl, q)))
         == g.add(Mul(g, 2 * k + dk, p), Mul(g, 2 * l + dl, q))
  {
    var kp, lq := Mul(g, k, p), Mul(g, l, q);
    Interchange(g, kp, lq, kp, lq);
    TwiceMul(g, k, p);
    TwiceMul(g, l, q);
    Interchange(g, Mul(g, 2 * k, p), Mul(g, 2 * l, q), Mul(g, dk, p), Mul(g, dl, q));
    MulAdd(g, 2 * k, dk, p);
    MulAdd(g, 2 * l, dl, q);
  }

  /** Every multiple of the identity is the identity. */
  lemma {:induction false} MulOfZero<T(!new)>(g: Group<T>, k: int)
    requires IsAbelian(g)
    ensures Mul(g, k, g.zero) == g.zero
    decreases if k >= 0 then k else -k + 1
  {
    if k > 0 {
      MulOfZero(g, k - 1);
      Ident(g, g.zero);
    } else if k < 0 {
      MulOfZero(g, -k);
      NegZero(g);
    }
  }
}
