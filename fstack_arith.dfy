/** The free operators on stack variables (include/fadiff.h, the stack
    overloads of add1 ... pow3, their dispatchers, and the unary and
    elementary functions).  Every helper builds a fresh result c from its
    value, and when the operand it differentiates is dependent raises c's
    flag and fills c's N derivatives in one loop. */
module FStackArith {
  import Ops
  import Rules
  import Forms
  import opened FStack

  // add1, add2, add3 and operator+

  /** add1(a, b) and operator+(U, F) */
  method Add1(a: real, b: F) returns (c: F)
    ensures c.View() == Rules.Add(Rules.Const(a), b.View()) && SameWidth(c, b)
  {
    c := Constant(|b.diff|, a + b.val);
    if !b.depend {
      return;
    }
    c := c.SetDepend();
    for i := 0 to |b.diff|
      invariant c.val == a + b.val && c.depend && |c.diff| == |b.diff|
      invariant forall k :: 0 <= k < i ==> c.diff[k] == b.diff[k]
    {
      c := c.Put(i, b.At(i));
    }
    Add1Form(a, b, c);
  }

  /** add2(a, b) and operator+(F, U) */
  method Add2(a: F, b: real) returns (c: F)
    ensures c.View() == Rules.Add(a.View(), Rules.Const(b)) && SameWidth(c, a)
  {
    c := Constant(|a.diff|, a.val + b);
    if !a.depend {
      return;
    }
    c := c.SetDepend();
    for i := 0 to |a.diff|
      invariant c.val == a.val + b && c.depend && |c.diff| == |a.diff|
      invariant forall k :: 0 <= k < i ==> c.diff[k] == a.diff[k]
    {
      c := c.Put(i, a.At(i));
    }
    Add2Form(a, b, c);
  }

  /** add3(a, b): reading a[i] and b[i] demands that both are dependent. */
  method Add3(a: F, b: F) returns (c: F)
    requires SameWidth(a, b) && a.depend && b.depend
    ensures c.View() == Rules.Add(a.View(), b.View()) && SameWidth(c, a)
  {
    c := Constant(|a.diff|, a.val + b.val).SetDepend();
    for i := 0 to |a.diff|
      invariant c.val == a.val + b.val && c.depend && |c.diff| == |a.diff|
      invariant forall k :: 0 <= k < i ==> c.diff[k] == a.diff[k] + b.diff[k]
    {
      c := c.Put(i, a.At(i) + b.At(i));
    }
    Add3Form(a, b, c);
  }

  /** operator+(F, F): dispatch on the two dependency flags. */
  method Add(a: F, b: F) returns (c: F)
    requires SameWidth(a, b)
    ensures c.View() == Rules.Add(a.View(), b.View()) && SameWidth(c, a)
  {
    if !a.depend && !b.depend {
      c := Constant(|a.diff|, a.val + b.val);
    } else if !b.depend {
      c := Add2(a, b.val);
    } else if !a.depend {
      c := Add1(a.val, b);
    } else {
      c := Add3(a, b);
    }
  }

  // sub1, sub2, sub3 and operator-

  /** sub1(a, b) and operator-(U, F) */
  method Sub1(a: real, b: F) returns (c: F)
    ensures c.View() == Rules.Sub(Rules.Const(a), b.View()) && SameWidth(c, b)
  {
    c := Constant(|b.diff|, a - b.val);
    if !b.depend {
      return;
    }
    c := c.SetDepend();
    for i := 0 to |b.diff|
      invariant c.val == a - b.val && c.depend && |c.diff| == |b.diff|
      invariant forall k :: 0 <= k < i ==> c.diff[k] == -b.diff[k]
    {
      c := c.Put(i, -b.At(i));
    }
    Sub1Form(a, b, c);
  }

  /** sub2(a, b) and operator-(F, U) */
  method Sub2(a: F, b: real) returns (c: F)
    ensures c.View() == Rules.Sub(a.View(), Rules.Const(b)) && SameWidth(c, a)
  {
    c := Constant(|a.diff|, a.val - b);
    if !a.depend {
      return;
    }
    c := c.SetDepend();
    for i := 0 to |a.diff|
      invariant c.val == a.val - b && c.depend && |c.diff| == |a.diff|
      invariant forall k :: 0 <= k < i ==> c.diff[k] == a.diff[k]
    {
      c := c.Put(i, a.At(i));
    }
    Sub2Form(a, b, c);
  }

  /** sub3(a, b) */
  method Sub3(a: F, b: F) returns (c: F)
    requires SameWidth(a, b) && a.depend && b.depend
    ensures c.View() == Rules.Sub(a.View(), b.View()) && SameWidth(c, a)
  {
    c := Constant(|a.diff|, a.val - b.val).SetDepend();
    for i := 0 to |a.diff|
      invariant c.val == a.val - b.val && c.depend && |c.diff| == |a.diff|
      invariant forall k :: 0 <= k < i ==> c.diff[k] == a.diff[k] - b.diff[k]
    {
      c := c.Put(i, a.At(i) - b.At(i));
    }
    Sub3Form(a, b, c);
  }

  /** operator-(F, F) */
  method Sub(a: F, b: F) returns (c: F)
    requires SameWidth(a, b)
    ensures c.View() == Rules.Sub(a.View(), b.View()) && SameWidth(c, a)
  {
    if !a.depend && !b.depend {
      c := Constant(|a.diff|, a.val - b.val);
    } else if !b.depend {
      c := Sub2(a, b.val);
    } else if !a.depend {
      c := Sub1(a.val, b);
    } else {
      c := Sub3(a, b);
    }
  }

  // mul1, mul2, mul3 and operator*

  /** mul1(a, b) and operator*(U, F) */
  method Mul1(a: real, b: F) returns (c: F)
    ensures c.View() == Rules.Mul(Rules.Const(a), b.View()) && SameWidth(c, b)
  {
    c := Constant(|b.diff|, a * b.val);
    if !b.depend {
      return;
    }
    c := c.SetDepend();
    for i := 0 to |b.diff|
      invariant c.val == a * b.val && c.depend && |c.diff| == |b.diff|
      invariant forall k :: 0 <= k < i ==> c.diff[k] == b.diff[k] * a
    {
      c := c.Put(i, b.At(i) * a);
    }
    Mul1Form(a, b, c);
  }

  /** mul2(a, b) and operator*(F, U) */
  method Mul2(a: F, b: real) returns (c: F)
    ensures c.View() == Rules.Mul(a.View(), Rules.Const(b)) && SameWidth(c, a)
  {
    c := Constant(|a.diff|, a.val * b);
    if !a.depend {
      return;
    }
    c := c.SetDepend();
    for i := 0 to |a.diff|
      invariant c.val == a.val * b && c.depend && |c.diff| == |a.diff|
      invariant forall k :: 0 <= k < i ==> c.diff[k] == a.diff[k] * b
    {
      c := c.Put(i, a.At(i) * b);
    }
    Mul2Form(a, b, c);
  }

  /** mul3(a, b): the product rule. */
  method Mul3(a: F, b: F) returns (c: F)
    requires SameWidth(a, b) && a.depend && b.depend
    ensures c.View() == Rules.Mul(a.View(), b.View()) && SameWidth(c, a)
  {
    c := Constant(|a.diff|, a.val * b.val).SetDepend();
    for i := 0 to |a.diff|
      invariant c.val == a.val * b.val && c.depend && |c.diff| == |a.diff|
      invariant forall k :: 0 <= k < i ==> c.diff[k] == a.diff[k] * b.val + b.diff[k] * a.val
    {
      c := c.Put(i, a.At(i) * b.val + b.At(i) * a.val);
    }
    Mul3Form(a, b, c);
  }

  /** operator*(F, F) */
  method Mul(a: F, b: F) returns (c: F)
    requires SameWidth(a, b)
    ensures c.View() == Rules.Mul(a.View(), b.View()) && SameWidth(c, a)
  {
    if !a.depend && !b.depend {
      c := Constant(|a.diff|, a.val * b.val);
    } else if !b.depend {
      c := Mul2(a, b.val);
    } else if !a.depend {
      c := Mul1(a.val, b);
    } else {
      c := Mul3(a, b);
    }
  }

  // div1, div2, div3 and operator/

  /** div1(a, b) and operator/(U, F): the factor -(c / b) is computed once
      from the quotient c. */
  method Div1(a: real, b: F) returns (c: F)
    requires b.val != 0.0
    ensures c.View() == Rules.Div(Rules.Const(a), b.View()) && SameWidth(c, b)
  {
    c := Constant(|b.diff|, a / b.val);
    if !b.depend {
      return;
    }
    var tmp := -(c.val / b.val);
    c := c.SetDepend();
    for i := 0 to |b.diff|
      invariant c.val == a / b.val && c.depend && |c.diff| == |b.diff|
      invariant forall k :: 0 <= k < i ==> c.diff[k] == tmp * b.diff[k]
    {
      c := c.Put(i, tmp * b.At(i));
    }
    Div1Form(a, b, tmp, c);
  }

  /** div2(a, b) and operator/(F, U) */
  method Div2(a: F, b: real) returns (c: F)
    requires b != 0.0
    ensures c.View() == Rules.Div(a.View(), Rules.Const(b)) && SameWidth(c, a)
  {
    c := Constant(|a.diff|, a.val / b);
    if !a.depend {
      return;
    }
    c := c.SetDepend();
    for i := 0 to |a.diff|
      invariant c.val == a.val / b && c.depend && |c.diff| == |a.diff|
      invariant forall k :: 0 <= k < i ==> c.diff[k] == a.diff[k] / b
    {
      c := c.Put(i, a.At(i) / b);
    }
    Div2Form(a, b, c);
  }

  /** div3(a, b): (da - c db) / b through the quotient c. */
  method Div3(a: F, b: F) returns (c: F)
    requires SameWidth(a, b) && a.depend && b.depend && b.val != 0.0
    ensures c.View() == Rules.Div(a.View(), b.View()) && SameWidth(c, a)
  {
    c := Constant(|a.diff|, a.val / b.val).SetDepend();
    for i := 0 to |a.diff|
      invariant c.val == a.val / b.val && c.depend && |c.diff| == |a.diff|
      invariant forall k :: 0 <= k < i ==> c.diff[k] == (a.diff[k] - c.val * b.diff[k]) / b.val
    {
      c := c.Put(i, (a.At(i) - c.val * b.At(i)) / b.val);
    }
    Div3Form(a, b, c);
  }

  /** operator/(F, F) */
  method Div(a: F, b: F) returns (c: F)
    requires SameWidth(a, b) && b.val != 0.0
    ensures c.View() == Rules.Div(a.View(), b.View()) && SameWidth(c, a)
  {
    if !a.depend && !b.depend {
      c := Constant(|a.diff|, a.val / b.val);
    } else if !b.depend {
      c := Div2(a, b.val);
    } else if !a.depend {
      c := Div1(a.val, b);
    } else {
      c := Div3(a, b);
    }
  }

  // pow1, pow2, pow3 and pow

  /** pow1(a, b): the factor c ln(a) is computed once. */
  method Pow1(op: Ops.Op, a: real, b: F) returns (c: F)
    ensures c.View() == Rules.Pow(op, Rules.Const(a), b.View()) && SameWidth(c, b)
  {
    c := Constant(|b.diff|, op.pow(a, b.val));
    if !b.depend {
      return;
    }
    var tmp := c.val * op.log(a);
    c := c.SetDepend();
    for i := 0 to |b.diff|
      invariant c.val == op.pow(a, b.val) && c.depend && |c.diff| == |b.diff|
      invariant forall k :: 0 <= k < i ==> c.diff[k] == tmp * b.diff[k]
    {
      c := c.Put(i, tmp * b.At(i));
    }
    Pow1Form(op, a, b, tmp, c);
  }

  /** pow2(a, b): the factor b a^(b-1) is computed once. */
  method Pow2(op: Ops.Op, a: F, b: real) returns (c: F)
    ensures c.View() == Rules.Pow(op, a.View(), Rules.Const(b)) && SameWidth(c, a)
  {
    c := Constant(|a.diff|, op.pow(a.val, b));
    if !a.depend {
      return;
    }
    var tmp := b * op.pow(a.val, b - Ops.One());
    c := c.SetDepend();
    for i := 0 to |a.diff|
      invariant c.val == op.pow(a.val, b) && c.depend && |c.diff| == |a.diff|
      invariant forall k :: 0 <= k < i ==> c.diff[k] == tmp * a.diff[k]
    {
      c := c.Put(i, tmp * a.At(i));
    }
    Pow2Form(op, a, b, tmp, c);
  }

  /** pow3(a, b): both factors are computed once. */
  method Pow3(op: Ops.Op, a: F, b: F) returns (c: F)
    requires SameWidth(a, b) && a.depend && b.depend
    ensures c.View() == Rules.Pow(op, a.View(), b.View()) && SameWidth(c, a)
  {
    c := Constant(|a.diff|, op.pow(a.val, b.val));
    var tmp := b.val * op.pow(a.val, b.val - Ops.One());
    var tmp1 := c.val * op.log(a.val);
    c := c.SetDepend();
    for i := 0 to |a.diff|
      invariant c.val == op.pow(a.val, b.val) && c.depend && |c.diff| == |a.diff|
      invariant forall k :: 0 <= k < i ==> c.diff[k] == tmp * a.diff[k] + tmp1 * b.diff[k]
    {
      c := c.Put(i, tmp * a.At(i) + tmp1 * b.At(i));
    }
    Pow3Form(op, a, b, tmp, tmp1, c);
  }

  /** pow(F, F) */
  method Pow(op: Ops.Op, a: F, b: F) returns (c: F)
    requires SameWidth(a, b)
    ensures c.View() == Rules.Pow(op, a.View(), b.View()) && SameWidth(c, a)
  {
    if !a.depend && !b.depend {
      c := Constant(|a.diff|, op.pow(a.val, b.val));
    } else if !b.depend {
      c := Pow2(op, a, b.val);
    } else if !a.depend {
      c := Pow1(op, a.val, b);
    } else {
      c := Pow3(op, a, b);
    }
  }

  // The unary and elementary functions: c = f(a), dc = f'(a) da.

  /** unary operator+ */
  method Plus(a: F) returns (c: F)
    ensures c.View() == Rules.Pos(a.View()) && SameWidth(c, a)
  {
    c := Constant(|a.diff|, a.val);
    if !a.depend {
      return;
    }
    c := c.SetDepend();
    for i := 0 to |a.diff|
      invariant c.val == a.val && c.depend && |c.diff| == |a.diff|
      invariant forall k :: 0 <= k < i ==> c.diff[k] == a.diff[k]
    {
      c := c.Put(i, a.At(i));
    }
    PosForm(a, c);
  }

  /** unary operator- */
  method Minus(a: F) returns (c: F)
    ensures c.View() == Rules.Neg(a.View()) && SameWidth(c, a)
  {
    c := Constant(|a.diff|, -a.val);
    if !a.depend {
      return;
    }
    c := c.SetDepend();
    for i := 0 to |a.diff|
      invariant c.val == -a.val && c.depend && |c.diff| == |a.diff|
      invariant forall k :: 0 <= k < i ==> c.diff[k] == -a.diff[k]
    {
      c := c.Put(i, -a.At(i));
    }
    NegForm(a, c);
  }

  /** sqr(a): the factor 2a is computed once. */
  method Sqr(a: F) returns (c: F)
    ensures c.View() == Rules.Sqr(a.View()) && SameWidth(c, a)
  {
    c := Constant(|a.diff|, Ops.Sqr(a.val));
    if !a.depend {
      return;
    }
    var tmp := Ops.Two() * a.val;
    c := c.SetDepend();
    for i := 0 to |a.diff|
      invariant c.val == Ops.Sqr(a.val) && c.depend && |c.diff| == |a.diff|
      invariant forall k :: 0 <= k < i ==> c.diff[k] == a.diff[k] * tmp
    {
      c := c.Put(i, a.At(i) * tmp);
    }
    SqrForm(a, tmp, c);
  }

  /** exp(a): the derivative factor is the result itself. */
  method Exp(op: Ops.Op, a: F) returns (c: F)
    ensures c.View() == Rules.Exp(op, a.View()) && SameWidth(c, a)
  {
    c := Constant(|a.diff|, op.exp(a.val));
    if !a.depend {
      return;
    }
    c := c.SetDepend();
    for i := 0 to |a.diff|
      invariant c.val == op.exp(a.val) && c.depend && |c.diff| == |a.diff|
      invariant forall k :: 0 <= k < i ==> c.diff[k] == a.diff[k] * c.val
    {
      c := c.Put(i, a.At(i) * c.val);
    }
    ExpForm(op, a, c);
  }

  /** log(a): the derivatives are divided by a, so a dependent operand must
      be non-zero. */
  method Log(op: Ops.Op, a: F) returns (c: F)
    requires a.depend ==> a.val != 0.0
    ensures c.View() == Rules.Log(op, a.View()) && SameWidth(c, a)
  {
    c := Constant(|a.diff|, op.log(a.val));
    if !a.depend {
      return;
    }
    c := c.SetDepend();
    for i := 0 to |a.diff|
      invariant c.val == op.log(a.val) && c.depend && |c.diff| == |a.diff|
      invariant forall k :: 0 <= k < i ==> c.diff[k] == a.diff[k] / a.val
    {
      c := c.Put(i, a.At(i) / a.val);
    }
    LogForm(op, a, c);
  }

  /** sqrt(a): the derivatives are divided by 2 sqrt(a), computed once from
      the result. */
  method Sqrt(op: Ops.Op, a: F) returns (c: F)
    requires a.depend ==> op.sqrt(a.val) != 0.0
    ensures c.View() == Rules.Sqrt(op, a.View()) && SameWidth(c, a)
  {
    c := Constant(|a.diff|, op.sqrt(a.val));
    if !a.depend {
      return;
    }
    var tmp := c.val * Ops.Two();
    c := c.SetDepend();
    for i := 0 to |a.diff|
      invariant c.val == op.sqrt(a.val) && c.depend && |c.diff| == |a.diff|
      invariant tmp == op.sqrt(a.val) * Ops.Two()
      invariant forall k :: 0 <= k < i ==> c.diff[k] == a.diff[k] / tmp
    {
      c := c.Put(i, a.At(i) / tmp);
    }
    SqrtForm(op, a, tmp, c);
  }

  /** sin(a) */
  method Sin(op: Ops.Op, a: F) returns (c: F)
    ensures c.View() == Rules.Sin(op, a.View()) && SameWidth(c, a)
  {
    c := Constant(|a.diff|, op.sin(a.val));
    if !a.depend {
      return;
    }
    var tmp := op.cos(a.val);
    c := c.SetDepend();
    for i := 0 to |a.diff|
      invariant c.val == op.sin(a.val) && c.depend && |c.diff| == |a.diff|
      invariant forall k :: 0 <= k < i ==> c.diff[k] == a.diff[k] * tmp
    {
      c := c.Put(i, a.At(i) * tmp);
    }
    SinForm(op, a, tmp, c);
  }

  /** cos(a) */
  method Cos(op: Ops.Op, a: F) returns (c: F)
    ensures c.View() == Rules.Cos(op, a.View()) && SameWidth(c, a)
  {
    c := Constant(|a.diff|, op.cos(a.val));
    if !a.depend {
      return;
    }
    var tmp := -op.sin(a.val);
    c := c.SetDepend();
    for i := 0 to |a.diff|
      invariant c.val == op.cos(a.val) && c.depend && |c.diff| == |a.diff|
      invariant forall k :: 0 <= k < i ==> c.diff[k] == a.diff[k] * tmp
    {
      c := c.Put(i, a.At(i) * tmp);
    }
    CosForm(op, a, tmp, c);
  }

  /** tan(a): the factor 1 + tan(a)^2 is computed from the result. */
  method Tan(op: Ops.Op, a: F) returns (c: F)
    ensures c.View() == Rules.Tan(op, a.View()) && SameWidth(c, a)
  {
    c := Constant(|a.diff|, op.tan(a.val));
    if !a.depend {
      return;
    }
    var tmp := Ops.One() + Ops.Sqr(c.val);
    c := c.SetDepend();
    for i := 0 to |a.diff|
      invariant c.val == op.tan(a.val) && c.depend && |c.diff| == |a.diff|
      invariant forall k :: 0 <= k < i ==> c.diff[k] == a.diff[k] * tmp
    {
      c := c.Put(i, a.At(i) * tmp);
    }
    TanForm(op, a, tmp, c);
  }

  /** asin(a): a dependent operand needs sqrt(1 - a^2) non-zero. */
  method Asin(op: Ops.Op, a: F) returns (c: F)
    requires a.depend ==> op.sqrt(Ops.One() - Ops.Sqr(a.val)) != 0.0
    ensures c.View() == Rules.Asin(op, a.View()) && SameWidth(c, a)
  {
    c := Constant(|a.diff|, op.asin(a.val));
    if !a.depend {
      return;
    }
    var tmp := Ops.Inv(op.sqrt(Ops.One() - Ops.Sqr(a.val)));
    c := c.SetDepend();
    for i := 0 to |a.diff|
      invariant c.val == op.asin(a.val) && c.depend && |c.diff| == |a.diff|
      invariant forall k :: 0 <= k < i ==> c.diff[k] == a.diff[k] * tmp
    {
      c := c.Put(i, a.At(i) * tmp);
    }
    AsinForm(op, a, tmp, c);
  }

  /** acos(a): a dependent operand needs sqrt(1 - a^2) non-zero. */
  method Acos(op: Ops.Op, a: F) returns (c: F)
    requires a.depend ==> op.sqrt(Ops.One() - Ops.Sqr(a.val)) != 0.0
    ensures c.View() == Rules.Acos(op, a.View()) && SameWidth(c, a)
  {
    c := Constant(|a.diff|, op.acos(a.val));
    if !a.depend {
      return;
    }
    var tmp := -Ops.Inv(op.sqrt(Ops.One() - Ops.Sqr(a.val)));
    c := c.SetDepend();
    for i := 0 to |a.diff|
      invariant c.val == op.acos(a.val) && c.depend && |c.diff| == |a.diff|
      invariant forall k :: 0 <= k < i ==> c.diff[k] == a.diff[k] * tmp
    {
      c := c.Put(i, a.At(i) * tmp);
    }
    AcosForm(op, a, tmp, c);
  }

  /** atan(a) */
  method Atan(op: Ops.Op, a: F) returns (c: F)
    ensures c.View() == Rules.Atan(op, a.View()) && SameWidth(c, a)
  {
    c := Constant(|a.diff|, op.atan(a.val));
    if !a.depend {
      return;
    }
    var tmp := Ops.Inv(Ops.One() + Ops.Sqr(a.val));
    c := c.SetDepend();
    for i := 0 to |a.diff|
      invariant c.val == op.atan(a.val) && c.depend && |c.diff| == |a.diff|
      invariant forall k :: 0 <= k < i ==> c.diff[k] == a.diff[k] * tmp
    {
      c := c.Put(i, a.At(i) * tmp);
    }
    AtanForm(op, a, tmp, c);
  }

  // What a result in each closed form stands for, with the factor the
  // helper computed once before its loop.

  lemma Div1Form(a: real, y: F, t: real, r: F)
    requires y.depend && r.depend && SameWidth(r, y) && y.val != 0.0
    requires r.val == a / y.val && t == -(r.val / y.val)
    requires forall k :: 0 <= k < |y.diff| ==> r.diff[k] == t * y.diff[k]
    ensures r.View() == Rules.Div(Rules.Const(a), y.View())
  {
    Forms.Div1(a, y.View(), r.diff);
  }

  lemma Pow1Form(op: Ops.Op, a: real, y: F, t: real, r: F)
    requires y.depend && r.depend && SameWidth(r, y)
    requires r.val == op.pow(a, y.val) && t == r.val * op.log(a)
    requires forall k :: 0 <= k < |y.diff| ==> r.diff[k] == t * y.diff[k]
    ensures r.View() == Rules.Pow(op, Rules.Const(a), y.View())
  {
    Forms.Pow1(op, a, y.View(), r.diff);
  }

  lemma Pow2Form(op: Ops.Op, x: F, b: real, t: real, r: F)
    requires x.depend && r.depend && SameWidth(r, x)
    requires r.val == op.pow(x.val, b) && t == b * op.pow(x.val, b - Ops.One())
    requires forall k :: 0 <= k < |x.diff| ==> r.diff[k] == t * x.diff[k]
    ensures r.View() == Rules.Pow(op, x.View(), Rules.Const(b))
  {
    Forms.Pow2(op, x.View(), b, r.diff);
  }

  lemma Pow3Form(op: Ops.Op, x: F, y: F, t: real, t1: real, r: F)
    requires x.depend && y.depend && r.depend && SameWidth(r, x) && SameWidth(x, y)
    requires r.val == op.pow(x.val, y.val)
    requires t == y.val * op.pow(x.val, y.val - Ops.One()) && t1 == r.val * op.log(x.val)
    requires forall k :: 0 <= k < |x.diff| ==> r.diff[k] == t * x.diff[k] + t1 * y.diff[k]
    ensures r.View() == Rules.Pow(op, x.View(), y.View())
  {
    Forms.Pow3(op, x.View(), y.View(), r.diff);
  }

  lemma PosForm(x: F, r: F)
    requires x.depend && r.depend && SameWidth(r, x) && r.val == x.val
    requires forall k :: 0 <= k < |x.diff| ==> r.diff[k] == x.diff[k]
    ensures r.View() == Rules.Pos(x.View())
  {
    Forms.Pos(x.View(), r.diff);
  }

  lemma NegForm(x: F, r: F)
    requires x.depend && r.depend && SameWidth(r, x) && r.val == -x.val
    requires forall k :: 0 <= k < |x.diff| ==> r.diff[k] == -x.diff[k]
    ensures r.View() == Rules.Neg(x.View())
  {
    Forms.Neg(x.View(), r.diff);
  }

  lemma SqrForm(x: F, t: real, r: F)
    requires x.depend && r.depend && SameWidth(r, x)
    requires r.val == Ops.Sqr(x.val) && t == Ops.Two() * x.val
    requires forall k :: 0 <= k < |x.diff| ==> r.diff[k] == x.diff[k] * t
    ensures r.View() == Rules.Sqr(x.View())
  {
    Forms.Sqr(x.View(), r.diff);
  }

  lemma ExpForm(op: Ops.Op, x: F, r: F)
    requires x.depend && r.depend && SameWidth(r, x) && r.val == op.exp(x.val)
    requires forall k :: 0 <= k < |x.diff| ==> r.diff[k] == x.diff[k] * r.val
    ensures r.View() == Rules.Exp(op, x.View())
  {
    Forms.Exp(op, x.View(), r.diff);
  }

  lemma LogForm(op: Ops.Op, x: F, r: F)
    requires x.depend && r.depend && SameWidth(r, x) && x.val != 0.0 && r.val == op.log(x.val)
    requires forall k :: 0 <= k < |x.diff| ==> r.diff[k] == x.diff[k] / x.val
    ensures r.View() == Rules.Log(op, x.View())
  {
    Forms.Log(op, x.View(), r.diff);
  }

  lemma SqrtForm(op: Ops.Op, x: F, t: real, r: F)
    requires x.depend && r.depend && SameWidth(r, x) && op.sqrt(x.val) != 0.0
    requires r.val == op.sqrt(x.val) && t == op.sqrt(x.val) * Ops.Two()
    requires forall k :: 0 <= k < |x.diff| ==> r.diff[k] == x.diff[k] / t
    ensures r.View() == Rules.Sqrt(op, x.View())
  {
    Forms.Sqrt(op, x.View(), r.diff);
  }

  lemma SinForm(op: Ops.Op, x: F, t: real, r: F)
    requires x.depend && r.depend && SameWidth(r, x)
    requires r.val == op.sin(x.val) && t == op.cos(x.val)
    requires forall k :: 0 <= k < |x.diff| ==> r.diff[k] == x.diff[k] * t
    ensures r.View() == Rules.Sin(op, x.View())
  {
    Forms.Sin(op, x.View(), r.diff);
  }

  lemma CosForm(op: Ops.Op, x: F, t: real, r: F)
    requires x.depend && r.depend && SameWidth(r, x)
    requires r.val == op.cos(x.val) && t == -op.sin(x.val)
    requires forall k :: 0 <= k < |x.diff| ==> r.diff[k] == x.diff[k] * t
    ensures r.View() == Rules.Cos(op, x.View())
  {
    Forms.Cos(op, x.View(), r.diff);
  }

  lemma TanForm(op: Ops.Op, x: F, t: real, r: F)
    requires x.depend && r.depend && SameWidth(r, x)
    requires r.val == op.tan(x.val) && t == Ops.One() + Ops.Sqr(r.val)
    requires forall k :: 0 <= k < |x.diff| ==> r.diff[k] == x.diff[k] * t
    ensures r.View() == Rules.Tan(op, x.View())
  {
    Forms.Tan(op, x.View(), r.diff);
  }

  lemma AsinForm(op: Ops.Op, x: F, t: real, r: F)
    requires x.depend && r.depend && SameWidth(r, x)
    requires op.sqrt(Ops.One() - Ops.Sqr(x.val)) != 0.0
    requires r.val == op.asin(x.val) && t == Ops.Inv(op.sqrt(Ops.One() - Ops.Sqr(x.val)))
    requires forall k :: 0 <= k < |x.diff| ==> r.diff[k] == x.diff[k] * t
    ensures r.View() == Rules.Asin(op, x.View())
  {
    Forms.Asin(op, x.View(), r.diff);
  }

  lemma AcosForm(op: Ops.Op, x: F, t: real, r: F)
    requires x.depend && r.depend && SameWidth(r, x)
    requires op.sqrt(Ops.One() - Ops.Sqr(x.val)) != 0.0
    requires r.val == op.acos(x.val) && t == -Ops.Inv(op.sqrt(Ops.One() - Ops.Sqr(x.val)))
    requires forall k :: 0 <= k < |x.diff| ==> r.diff[k] == x.diff[k] * t
    ensures r.View() == Rules.Acos(op, x.View())
  {
    Forms.Acos(op, x.View(), r.diff);
  }

  lemma AtanForm(op: Ops.Op, x: F, t: real, r: F)
    requires x.depend && r.depend && SameWidth(r, x)
    requires r.val == op.atan(x.val) && t == Ops.Inv(Ops.One() + Ops.Sqr(x.val))
    requires forall k :: 0 <= k < |x.diff| ==> r.diff[k] == x.diff[k] * t
    ensures r.View() == Rules.Atan(op, x.View())
  {
    Forms.Atan(op, x.View(), r.diff);
  }
}
