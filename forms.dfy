/** The closed forms the implementation evaluates, one per helper and
    dependency case, each proved equal to the chain rule of module Rules.
    The numbering follows the source: 1 = constant left operand, 2 = constant
    right operand, 3 = both dependent. */
module Forms {
  import Ops
  import opened Rules

  // add1, add2, add3: the derivative is copied or summed.

  lemma Add1(a: real, y: Dual, d: seq<real>)
    requires y.Dep? && |d| == |y.d|
    requires forall k :: 0 <= k < |d| ==> d[k] == y.d[k]
    ensures Add(Const(a), y) == Dep(a + y.v, d)
  {
    DepEq(Add(Const(a), y), Dep(a + y.v, d));
  }

  lemma Add2(x: Dual, b: real, d: seq<real>)
    requires x.Dep? && |d| == |x.d|
    requires forall k :: 0 <= k < |d| ==> d[k] == x.d[k]
    ensures Add(x, Const(b)) == Dep(x.v + b, d)
  {
    DepEq(Add(x, Const(b)), Dep(x.v + b, d));
  }

  lemma Add3(x: Dual, y: Dual, d: seq<real>)
    requires x.Dep? && y.Dep? && |d| == |x.d| == |y.d|
    requires forall k :: 0 <= k < |d| ==> d[k] == x.d[k] + y.d[k]
    ensures Add(x, y) == Dep(x.v + y.v, d)
  {
    DepEq(Add(x, y), Dep(x.v + y.v, d));
  }

  // sub1, sub2, sub3

  lemma Sub1(a: real, y: Dual, d: seq<real>)
    requires y.Dep? && |d| == |y.d|
    requires forall k :: 0 <= k < |d| ==> d[k] == -y.d[k]
    ensures Sub(Const(a), y) == Dep(a - y.v, d)
  {
    DepEq(Sub(Const(a), y), Dep(a - y.v, d));
  }

  lemma Sub2(x: Dual, b: real, d: seq<real>)
    requires x.Dep? && |d| == |x.d|
    requires forall k :: 0 <= k < |d| ==> d[k] == x.d[k]
    ensures Sub(x, Const(b)) == Dep(x.v - b, d)
  {
    DepEq(Sub(x, Const(b)), Dep(x.v - b, d));
  }

  lemma Sub3(x: Dual, y: Dual, d: seq<real>)
    requires x.Dep? && y.Dep? && |d| == |x.d| == |y.d|
    requires forall k :: 0 <= k < |d| ==> d[k] == x.d[k] - y.d[k]
    ensures Sub(x, y) == Dep(x.v - y.v, d)
  {
    DepEq(Sub(x, y), Dep(x.v - y.v, d));
  }

  // mul1, mul2, mul3: the product rule.

  lemma Mul1(a: real, y: Dual, d: seq<real>)
    requires y.Dep? && |d| == |y.d|
    requires forall k :: 0 <= k < |d| ==> d[k] == y.d[k] * a
    ensures Mul(Const(a), y) == Dep(a * y.v, d)
  {
    DepEq(Mul(Const(a), y), Dep(a * y.v, d));
  }

  lemma Mul2(x: Dual, b: real, d: seq<real>)
    requires x.Dep? && |d| == |x.d|
    requires forall k :: 0 <= k < |d| ==> d[k] == x.d[k] * b
    ensures Mul(x, Const(b)) == Dep(x.v * b, d)
  {
    DepEq(Mul(x, Const(b)), Dep(x.v * b, d));
  }

  lemma Mul3(x: Dual, y: Dual, d: seq<real>)
    requires x.Dep? && y.Dep? && |d| == |x.d| == |y.d|
    requires forall k :: 0 <= k < |d| ==> d[k] == x.d[k] * y.v + y.d[k] * x.v
    ensures Mul(x, y) == Dep(x.v * y.v, d)
  {
    DepEq(Mul(x, y), Dep(x.v * y.v, d));
  }

  // div1, div2, div3: the quotient rule, evaluated through the quotient c.

  /** -(c / b) db with c = a / b is -(a / b^2) db. */
  lemma Div1(a: real, y: Dual, d: seq<real>)
    requires y.Dep? && |d| == |y.d| && y.v != 0.0
    requires forall k :: 0 <= k < |d| ==> d[k] == -((a / y.v) / y.v) * y.d[k]
    ensures Div(Const(a), y) == Dep(a / y.v, d)
  {
    DepEq(Div(Const(a), y), Dep(a / y.v, d));
  }

  lemma Div2(x: Dual, b: real, d: seq<real>)
    requires x.Dep? && |d| == |x.d| && b != 0.0
    requires forall k :: 0 <= k < |d| ==> d[k] == x.d[k] / b
    ensures Div(x, Const(b)) == Dep(x.v / b, d)
  {
    forall k | 0 <= k < |d|
      ensures d[k] == 1.0 / b * x.d[k] + -(x.v / b) / b * 0.0
    {
      DivIsScale(x.d[k], b);
    }
    DepEq(Div(x, Const(b)), Dep(x.v / b, d));
  }

  /** (da - c db) / b with c = a / b is da / b - (a / b^2) db. */
  lemma Div3(x: Dual, y: Dual, c: real, d: seq<real>)
    requires x.Dep? && y.Dep? && |d| == |x.d| == |y.d| && y.v != 0.0 && c == x.v / y.v
    requires forall k :: 0 <= k < |d| ==> d[k] == DivStep(x.d[k], c, y.d[k], y.v)
    ensures Div(x, y) == Dep(c, d)
  {
    forall k | 0 <= k < |d|
      ensures d[k] == 1.0 / y.v * x.d[k] + -(x.v / y.v) / y.v * y.d[k]
    {
      QuotientStep(x.d[k], c, y.d[k], y.v);
    }
    DepEq(Div(x, y), Dep(c, d));
  }

  /** x /= x on one object: the division runs first, so the loop sees the
      quotient c = 1 both as the new value and as the divisor, and every
      derivative becomes (da - da) / 1 = 0, which is the quotient rule's
      answer for a / a. */
  lemma DivSelf(x: Dual, c: real, d: seq<real>)
    requires x.Dep? && |d| == |x.d| && x.v != 0.0 && c == x.v / x.v
    requires forall k :: 0 <= k < |d| ==> d[k] == DivStep(x.d[k], c, x.d[k], c)
    ensures Div(x, x) == Dep(c, d)
  {
    assert c == 1.0;
    forall k | 0 <= k < |d|
      ensures d[k] == 1.0 / x.v * x.d[k] + -(x.v / x.v) / x.v * x.d[k]
    {
      DivIsScale(x.d[k], x.v);
    }
    DepEq(Div(x, x), Dep(c, d));
  }

  /** One component of a two-operand chain rule, t da + t1 db, with both
      factors formed before the loop. */
  function LinStep(t: real, u: real, t1: real, w: real): real
  {
    t * u + t1 * w
  }

  /** One component of the compound division of two dependent operands:
      (da - c db) / b, with c the already divided value. */
  function DivStep(u: real, c: real, w: real, b: real): real
    requires b != 0.0
  {
    (u - c * w) / b
  }

  /** One component of the compound division of a constant by a dependent
      operand: -(c db / b). */
  function NegDivStep(c: real, w: real, b: real): real
    requires b != 0.0
  {
    -(c * w / b)
  }

  /** The form -(c db / b) of the compound division, with c = a / b, equals
      div1's -(c / b) db. */
  lemma NegQuotient(c: real, a: real, w: real, b: real)
    requires b != 0.0 && c == a / b
    ensures NegDivStep(c, w, b) == -((a / b) / b) * w
  {
  }

  lemma DivIsScale(u: real, b: real)
    requires b != 0.0
    ensures u / b == 1.0 / b * u
  {
  }

  lemma QuotientStep(u: real, c: real, w: real, b: real)
    requires b != 0.0
    ensures (u - c * w) / b == 1.0 / b * u + -c / b * w
  {
    calc {
      (u - c * w) / b;
      u / b - (c * w) / b;
      { DivIsScale(u, b); }
      1.0 / b * u - (c * w) / b;
    }
  }

  // pow1, pow2, pow3: d(a^b) = b a^(b-1) da + a^b ln(a) db.

  lemma Pow1(op: Ops.Op, a: real, y: Dual, d: seq<real>)
    requires y.Dep? && |d| == |y.d|
    requires forall k :: 0 <= k < |d| ==> d[k] == op.pow(a, y.v) * op.log(a) * y.d[k]
    ensures Pow(op, Const(a), y) == Dep(op.pow(a, y.v), d)
  {
    DepEq(Pow(op, Const(a), y), Dep(op.pow(a, y.v), d));
  }

  lemma Pow2(op: Ops.Op, x: Dual, b: real, d: seq<real>)
    requires x.Dep? && |d| == |x.d|
    requires forall k :: 0 <= k < |d| ==> d[k] == b * op.pow(x.v, b - Ops.One()) * x.d[k]
    ensures Pow(op, x, Const(b)) == Dep(op.pow(x.v, b), d)
  {
    DepEq(Pow(op, x, Const(b)), Dep(op.pow(x.v, b), d));
  }

  lemma Pow3(op: Ops.Op, x: Dual, y: Dual, d: seq<real>)
    requires x.Dep? && y.Dep? && |d| == |x.d| == |y.d|
    requires forall k :: 0 <= k < |d| ==>
      d[k] == y.v * op.pow(x.v, y.v - Ops.One()) * x.d[k] + op.pow(x.v, y.v) * op.log(x.v) * y.d[k]
    ensures Pow(op, x, y) == Dep(op.pow(x.v, y.v), d)
  {
    DepEq(Pow(op, x, y), Dep(op.pow(x.v, y.v), d));
  }

  // The unary functions: d f(a) = f'(a) da, with f' as the source evaluates it.

  /** The chain rule for a derivative factor t: every component is scaled. */
  lemma Scaled(v: real, t: real, x: Dual, d: seq<real>)
    requires x.Dep? && |d| == |x.d|
    requires forall k :: 0 <= k < |d| ==> d[k] == x.d[k] * t
    ensures Chain(v, t, x) == Dep(v, d)
  {
    DepEq(Chain(v, t, x), Dep(v, d));
  }

  lemma Pos(x: Dual, d: seq<real>)
    requires x.Dep? && |d| == |x.d|
    requires forall k :: 0 <= k < |d| ==> d[k] == x.d[k]
    ensures Rules.Pos(x) == Dep(x.v, d)
  {
    Scaled(x.v, 1.0, x, d);
  }

  lemma Neg(x: Dual, d: seq<real>)
    requires x.Dep? && |d| == |x.d|
    requires forall k :: 0 <= k < |d| ==> d[k] == -x.d[k]
    ensures Rules.Neg(x) == Dep(-x.v, d)
  {
    Scaled(-x.v, -1.0, x, d);
  }

  lemma Sqr(x: Dual, d: seq<real>)
    requires x.Dep? && |d| == |x.d|
    requires forall k :: 0 <= k < |d| ==> d[k] == x.d[k] * (Ops.Two() * x.v)
    ensures Rules.Sqr(x) == Dep(Ops.Sqr(x.v), d)
  {
    Scaled(x.v * x.v, 2.0 * x.v, x, d);
  }

  lemma Exp(op: Ops.Op, x: Dual, d: seq<real>)
    requires x.Dep? && |d| == |x.d|
    requires forall k :: 0 <= k < |d| ==> d[k] == x.d[k] * op.exp(x.v)
    ensures Rules.Exp(op, x) == Dep(op.exp(x.v), d)
  {
    Scaled(op.exp(x.v), op.exp(x.v), x, d);
  }

  lemma Log(op: Ops.Op, x: Dual, d: seq<real>)
    requires x.Dep? && |d| == |x.d| && x.v != 0.0
    requires forall k :: 0 <= k < |d| ==> d[k] == x.d[k] / x.v
    ensures Rules.Log(op, x) == Dep(op.log(x.v), d)
  {
    forall k | 0 <= k < |d|
      ensures d[k] == x.d[k] * (1.0 / x.v)
    {
      DivIsScale(x.d[k], x.v);
    }
    Scaled(op.log(x.v), 1.0 / x.v, x, d);
  }

  /** da / (2 sqrt(a)), evaluated as da / (sqrt(a) * 2). */
  lemma Sqrt(op: Ops.Op, x: Dual, d: seq<real>)
    requires x.Dep? && |d| == |x.d| && op.sqrt(x.v) != 0.0
    requires forall k :: 0 <= k < |d| ==> d[k] == x.d[k] / (op.sqrt(x.v) * Ops.Two())
    ensures Rules.Sqrt(op, x) == Dep(op.sqrt(x.v), d)
  {
    var s := op.sqrt(x.v);
    forall k | 0 <= k < |d|
      ensures d[k] == x.d[k] * (1.0 / (2.0 * s))
    {
      DivIsScale(x.d[k], s * 2.0);
    }
    Scaled(s, 1.0 / (2.0 * s), x, d);
  }

  lemma Sin(op: Ops.Op, x: Dual, d: seq<real>)
    requires x.Dep? && |d| == |x.d|
    requires forall k :: 0 <= k < |d| ==> d[k] == x.d[k] * op.cos(x.v)
    ensures Rules.Sin(op, x) == Dep(op.sin(x.v), d)
  {
    Scaled(op.sin(x.v), op.cos(x.v), x, d);
  }

  lemma Cos(op: Ops.Op, x: Dual, d: seq<real>)
    requires x.Dep? && |d| == |x.d|
    requires forall k :: 0 <= k < |d| ==> d[k] == x.d[k] * -op.sin(x.v)
    ensures Rules.Cos(op, x) == Dep(op.cos(x.v), d)
  {
    Scaled(op.cos(x.v), -op.sin(x.v), x, d);
  }

  /** 1 + tan(a)^2, evaluated from the result c = tan(a). */
  lemma Tan(op: Ops.Op, x: Dual, d: seq<real>)
    requires x.Dep? && |d| == |x.d|
    requires forall k :: 0 <= k < |d| ==> d[k] == x.d[k] * (Ops.One() + Ops.Sqr(op.tan(x.v)))
    ensures Rules.Tan(op, x) == Dep(op.tan(x.v), d)
  {
    Scaled(op.tan(x.v), Ops.One() + Ops.Sqr(op.tan(x.v)), x, d);
  }

  lemma Asin(op: Ops.Op, x: Dual, d: seq<real>)
    requires x.Dep? && |d| == |x.d| && op.sqrt(Ops.One() - Ops.Sqr(x.v)) != 0.0
    requires forall k :: 0 <= k < |d| ==> d[k] == x.d[k] * Ops.Inv(op.sqrt(Ops.One() - Ops.Sqr(x.v)))
    ensures Rules.Asin(op, x) == Dep(op.asin(x.v), d)
  {
    Scaled(op.asin(x.v), Ops.Inv(op.sqrt(Ops.One() - Ops.Sqr(x.v))), x, d);
  }

  lemma Acos(op: Ops.Op, x: Dual, d: seq<real>)
    requires x.Dep? && |d| == |x.d| && op.sqrt(Ops.One() - Ops.Sqr(x.v)) != 0.0
    requires forall k :: 0 <= k < |d| ==> d[k] == x.d[k] * -Ops.Inv(op.sqrt(Ops.One() - Ops.Sqr(x.v)))
    ensures Rules.Acos(op, x) == Dep(op.acos(x.v), d)
  {
    Scaled(op.acos(x.v), -Ops.Inv(op.sqrt(Ops.One() - Ops.Sqr(x.v))), x, d);
  }

  lemma Atan(op: Ops.Op, x: Dual, d: seq<real>)
    requires x.Dep? && |d| == |x.d|
    requires forall k :: 0 <= k < |d| ==> d[k] == x.d[k] * Ops.Inv(Ops.One() + Ops.Sqr(x.v))
    ensures Rules.Atan(op, x) == Dep(op.atan(x.v), d)
  {
    Scaled(op.atan(x.v), Ops.Inv(Ops.One() + Ops.Sqr(x.v)), x, d);
  }
}
