/** What a forward-mode variable means, independently of how its derivative
    vector is stored, and the reference derivative of every elementary
    operation.  Both the stack variant F<T,N> and the heap variant F<T,0> are
    proved against the functions of this module. */
module Rules {
  import Ops

  /** A constant carries no derivative information; a dependent variable
      carries its value and the gradient with respect to the seeded inputs. */
  datatype Dual = Const(v: real) | Dep(v: real, d: seq<real>)

  function Zeros(n: nat): seq<real> { seq(n, _ => 0.0) }

  /** The unit vector of axis k in an n-wide seed space. */
  function Unit(n: nat, k: nat): seq<real> { seq(n, i => if i == k then 1.0 else 0.0) }

  /** size(): the width of the derivative vector, 0 for a constant. */
  function WidthOf(x: Dual): nat { if x.Dep? then |x.d| else 0 }

  /** deriv(i): the stored component of a dependent variable, zero otherwise. */
  function DerivOf(x: Dual, i: nat): real { if x.Dep? && i < |x.d| then x.d[i] else 0.0 }

  /** Two dependent operands may only be combined when their widths agree. */
  predicate Compatible(x: Dual, y: Dual) { x.Dep? && y.Dep? ==> |x.d| == |y.d| }

  /** The width of a binary result: that of whichever operand is dependent. */
  function Width(x: Dual, y: Dual): nat { if x.Dep? then |x.d| else WidthOf(y) }

  /** The derivative vector an operand contributes in an n-wide space. */
  function Tangent(x: Dual, n: nat): seq<real>
    requires x.Dep? ==> |x.d| == n
  {
    if x.Dep? then x.d else Zeros(n)
  }

  /** The chain rule for a result of value v whose partial derivatives with
      respect to the two operands are dx and dy. */
  function Lin(v: real, dx: real, x: Dual, dy: real, y: Dual): (r: Dual)
    requires Compatible(x, y)
    ensures r.v == v
    ensures r.Dep? <==> x.Dep? || y.Dep?
    ensures WidthOf(r) == Width(x, y)
    ensures r.Dep? ==> forall i :: 0 <= i < |r.d| ==>
      r.d[i] == dx * Tangent(x, |r.d|)[i] + dy * Tangent(y, |r.d|)[i]
  {
    if x.Const? && y.Const? then Const(v)
    else
      var n := Width(x, y);
      Dep(v, seq(n, i requires 0 <= i < n => dx * Tangent(x, n)[i] + dy * Tangent(y, n)[i]))
  }

  /** Two dependent results are equal when their values and all their
      derivative components agree. */
  lemma DepEq(r: Dual, s: Dual)
    requires r.Dep? && s.Dep? && r.v == s.v && |r.d| == |s.d|
    requires forall k :: 0 <= k < |r.d| ==> r.d[k] == s.d[k]
    ensures r == s
  {
    assert r.d == s.d;
  }

  /** The chain rule for a unary function with derivative dv at x.v. */
  function Chain(v: real, dv: real, x: Dual): Dual
  {
    Lin(v, dv, x, 0.0, Const(0.0))
  }

  // Binary operations: value and the two partial derivatives.

  function Add(x: Dual, y: Dual): Dual
    requires Compatible(x, y)
  {
    Lin(x.v + y.v, 1.0, x, 1.0, y)
  }

  function Sub(x: Dual, y: Dual): Dual
    requires Compatible(x, y)
  {
    Lin(x.v - y.v, 1.0, x, -1.0, y)
  }

  function Mul(x: Dual, y: Dual): Dual
    requires Compatible(x, y)
  {
    Lin(x.v * y.v, y.v, x, x.v, y)
  }

  /** d(a/b) = da / b - (a / b^2) db */
  function Div(x: Dual, y: Dual): Dual
    requires Compatible(x, y) && y.v != 0.0
  {
    Lin(x.v / y.v, 1.0 / y.v, x, -(x.v / y.v) / y.v, y)
  }

  /** d(a^b) = b a^(b-1) da + a^b ln(a) db */
  function Pow(op: Ops.Op, x: Dual, y: Dual): Dual
    requires Compatible(x, y)
  {
    Lin(op.pow(x.v, y.v), y.v * op.pow(x.v, y.v - 1.0), x, op.pow(x.v, y.v) * op.log(x.v), y)
  }

  // Unary operations: value and derivative.

  function Pos(x: Dual): Dual { Chain(x.v, 1.0, x) }

  function Neg(x: Dual): Dual { Chain(-x.v, -1.0, x) }

  function Sqr(x: Dual): Dual { Chain(x.v * x.v, 2.0 * x.v, x) }

  function Exp(op: Ops.Op, x: Dual): Dual { Chain(op.exp(x.v), op.exp(x.v), x) }

  function Log(op: Ops.Op, x: Dual): Dual
    requires x.Dep? ==> x.v != 0.0
  {
    if x.Const? then Const(op.log(x.v)) else Chain(op.log(x.v), 1.0 / x.v, x)
  }

  function Sqrt(op: Ops.Op, x: Dual): Dual
    requires x.Dep? ==> op.sqrt(x.v) != 0.0
  {
    if x.Const? then Const(op.sqrt(x.v)) else Chain(op.sqrt(x.v), 1.0 / (2.0 * op.sqrt(x.v)), x)
  }

  function Sin(op: Ops.Op, x: Dual): Dual { Chain(op.sin(x.v), op.cos(x.v), x) }

  function Cos(op: Ops.Op, x: Dual): Dual { Chain(op.cos(x.v), -op.sin(x.v), x) }

  /** d tan(a) = (1 + tan(a)^2) da */
  function Tan(op: Ops.Op, x: Dual): Dual
  {
    Chain(op.tan(x.v), Ops.One() + Ops.Sqr(op.tan(x.v)), x)
  }

  /** d asin(a) = da / sqrt(1 - a^2) */
  function Asin(op: Ops.Op, x: Dual): Dual
    requires x.Dep? ==> op.sqrt(Ops.One() - Ops.Sqr(x.v)) != 0.0
  {
    if x.Const? then Const(op.asin(x.v))
    else Chain(op.asin(x.v), Ops.Inv(op.sqrt(Ops.One() - Ops.Sqr(x.v))), x)
  }

  /** d acos(a) = -da / sqrt(1 - a^2) */
  function Acos(op: Ops.Op, x: Dual): Dual
    requires x.Dep? ==> op.sqrt(Ops.One() - Ops.Sqr(x.v)) != 0.0
  {
    if x.Const? then Const(op.acos(x.v))
    else Chain(op.acos(x.v), -Ops.Inv(op.sqrt(Ops.One() - Ops.Sqr(x.v))), x)
  }

  /** d atan(a) = da / (1 + a^2) */
  function Atan(op: Ops.Op, x: Dual): Dual
  {
    Chain(op.atan(x.v), Ops.Inv(Ops.One() + Ops.Sqr(x.v)), x)
  }
}
