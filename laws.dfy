/** Algebraic laws of the reference derivative rules: the identities a
    user of the library relies on when rewriting an expression (x * x for
    sqr(x), a - a for zero, operand order), stated for every variable. */
module Laws {
  import opened Rules

  /** The derivative vector with every component zero, at x's width. */
  function Vanishing(x: Dual, v: real): Dual
  {
    if x.Dep? then Dep(v, Zeros(|x.d|)) else Const(v)
  }

  /** Unary plus returns its operand unchanged. */
  lemma PosIsIdentity(x: Dual)
    ensures Pos(x) == x
  {
    if x.Dep? {
      DepEq(Pos(x), x);
    }
  }

  /** Negating twice gives the operand back, derivatives included. */
  lemma NegNeg(x: Dual)
    ensures Neg(Neg(x)) == x
  {
    if x.Dep? {
      DepEq(Neg(Neg(x)), x);
    }
  }

  lemma AddCommutes(x: Dual, y: Dual)
    requires Compatible(x, y)
    ensures Add(x, y) == Add(y, x)
  {
    if x.Dep? || y.Dep? {
      DepEq(Add(x, y), Add(y, x));
    }
  }

  lemma MulCommutes(x: Dual, y: Dual)
    requires Compatible(x, y)
    ensures Mul(x, y) == Mul(y, x)
  {
    if x.Dep? || y.Dep? {
      DepEq(Mul(x, y), Mul(y, x));
    }
  }

  /** sqr(a) computes what a * a computes. */
  lemma MulSelfIsSqr(x: Dual)
    ensures Mul(x, x) == Sqr(x)
  {
    if x.Dep? {
      DepEq(Mul(x, x), Sqr(x));
    }
  }

  /** a - a is zero with zero derivatives, at a's width. */
  lemma SubSelfVanishes(x: Dual)
    ensures Sub(x, x) == Vanishing(x, 0.0)
  {
    if x.Dep? {
      DepEq(Sub(x, x), Vanishing(x, 0.0));
    }
  }

  /** a / a is one with zero derivatives, at a's width. */
  lemma DivSelfIsOne(x: Dual)
    requires x.v != 0.0
    ensures Div(x, x) == Vanishing(x, 1.0)
  {
    if x.Dep? {
      forall k | 0 <= k < |x.d|
        ensures Div(x, x).d[k] == 0.0
      {
        assert Div(x, x).d[k] == 1.0 / x.v * x.d[k] + -(x.v / x.v) / x.v * x.d[k];
        assert x.v / x.v == 1.0;
      }
      DepEq(Div(x, x), Vanishing(x, 1.0));
    }
  }

  /** Adding a constant moves the value and leaves every derivative. */
  lemma AddConstKeepsDerivatives(x: Dual, b: real)
    ensures Add(x, Const(b)) == (if x.Dep? then Dep(x.v + b, x.d) else Const(x.v + b))
  {
    if x.Dep? {
      DepEq(Add(x, Const(b)), Dep(x.v + b, x.d));
    }
  }
}
