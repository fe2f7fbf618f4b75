/** The free operators on heap variables (include/fadiff.h, the heap
    overloads of add1 ... pow3 and of the unary and elementary functions, and
    the four-way dispatchers instantiated at F<T,0>).  Every helper builds a
    fresh result c from its value; when the operand it differentiates is
    dependent, c takes that operand's width through setDepend and a new
    array, which one loop fills. */
module FHeapArith {
  import Ops
  import Rules
  import Forms
  import opened FHeap

  // add1, add2, add3 and operator+

  /** add1(a, b) and operator+(U, F) */
  method Add1(a: real, b: F) returns (c: F)
    requires b.Valid()
    ensures fresh(c) && c.Valid() && c.View() == Rules.Add(Rules.Const(a), b.View())
  {
    c := new F.FromValue(a + b.val);
    if b.size == 0 {
      return;
    }
    c.SetDepend(b);
    for i := 0 to c.size
      invariant c.Valid() && c.size == b.size && fresh(c.diff) && c.val == a + b.val
      invariant forall k :: 0 <= k < i ==> c.diff[k] == b.diff[k]
    {
      c.diff[i] := b.diff[i];
    }
    Forms.Add1(a, b.View(), c.diff[..]);
  }

  /** add2(a, b) and operator+(F, U) */
  method Add2(a: F, b: real) returns (c: F)
    requires a.Valid()
    ensures fresh(c) && c.Valid() && c.View() == Rules.Add(a.View(), Rules.Const(b))
  {
    c := new F.FromValue(a.val + b);
    if a.size == 0 {
      return;
    }
    c.SetDepend(a);
    for i := 0 to c.size
      invariant c.Valid() && c.size == a.size && fresh(c.diff) && c.val == a.val + b
      invariant forall k :: 0 <= k < i ==> c.diff[k] == a.diff[k]
    {
      c.diff[i] := a.diff[i];
    }
    Forms.Add2(a.View(), b, c.diff[..]);
  }

  /** add3(a, b): setDepend(a, b) demands two dependent operands of one
      width. */
  method Add3(a: F, b: F) returns (c: F)
    requires a.Valid() && b.Valid() && a.size == b.size > 0
    ensures fresh(c) && c.Valid() && c.View() == Rules.Add(a.View(), b.View())
  {
    c := new F.FromValue(a.val + b.val);
    c.SetDepend2(a, b);
    for i := 0 to c.size
      invariant c.Valid() && c.size == a.size && fresh(c.diff) && c.val == a.val + b.val
      invariant forall k :: 0 <= k < i ==> c.diff[k] == a.diff[k] + b.diff[k]
    {
      c.diff[i] := a.diff[i] + b.diff[i];
    }
    Forms.Add3(a.View(), b.View(), c.diff[..]);
  }

  /** operator+(F, F): dispatch on the two dependency flags. */
  method Add(a: F, b: F) returns (c: F)
    requires a.Valid() && b.Valid() && Rules.Compatible(a.View(), b.View())
    ensures fresh(c) && c.Valid() && c.View() == Rules.Add(a.View(), b.View())
  {
    if a.size == 0 && b.size == 0 {
      c := new F.FromValue(a.val + b.val);
    } else if b.size == 0 {
      c := Add2(a, b.val);
    } else if a.size == 0 {
      c := Add1(a.val, b);
    } else {
      c := Add3(a, b);
    }
  }

  // sub1, sub2, sub3 and operator-

  /** sub1(a, b) and operator-(U, F) */
  method Sub1(a: real, b: F) returns (c: F)
    requires b.Valid()
    ensures fresh(c) && c.Valid() && c.View() == Rules.Sub(Rules.Const(a), b.View())
  {
    c := new F.FromValue(a - b.val);
    if b.size == 0 {
      return;
    }
    c.SetDepend(b);
    for i := 0 to c.size
      invariant c.Valid() && c.size == b.size && fresh(c.diff) && c.val == a - b.val
      invariant forall k :: 0 <= k < i ==> c.diff[k] == -b.diff[k]
    {
      c.diff[i] := -b.diff[i];
    }
    Forms.Sub1(a, b.View(), c.diff[..]);
  }

  /** sub2(a, b) and operator-(F, U) */
  method Sub2(a: F, b: real) returns (c: F)
    requires a.Valid()
    ensures fresh(c) && c.Valid() && c.View() == Rules.Sub(a.View(), Rules.Const(b))
  {
    c := new F.FromValue(a.val - b);
    if a.size == 0 {
      return;
    }
    c.SetDepend(a);
    for i := 0 to c.size
      invariant c.Valid() && c.size == a.size && fresh(c.diff) && c.val == a.val - b
      invariant forall k :: 0 <= k < i ==> c.diff[k] == a.diff[k]
    {
      c.diff[i] := a.diff[i];
    }
    Forms.Sub2(a.View(), b, c.diff[..]);
  }

  /** sub3(a, b) */
  method Sub3(a: F, b: F) returns (c: F)
    requires a.Valid() && b.Valid() && a.size == b.size > 0
    ensures fresh(c) && c.Valid() && c.View() == Rules.Sub(a.View(), b.View())
  {
    c := new F.FromValue(a.val - b.val);
    c.SetDepend2(a, b);
    for i := 0 to c.size
      invariant c.Valid() && c.size == a.size && fresh(c.diff) && c.val == a.val - b.val
      invariant forall k :: 0 <= k < i ==> c.diff[k] == a.diff[k] - b.diff[k]
    {
      c.diff[i] := a.diff[i] - b.diff[i];
    }
    Forms.Sub3(a.View(), b.View(), c.diff[..]);
  }

  /** operator-(F, F) */
  method Sub(a: F, b: F) returns (c: F)
    requires a.Valid() && b.Valid() && Rules.Compatible(a.View(), b.View())
    ensures fresh(c) && c.Valid() && c.View() == Rules.Sub(a.View(), b.View())
  {
    if a.size == 0 && b.size == 0 {
      c := new F.FromValue(a.val - b.val);
    } else if b.size == 0 {
      c := Sub2(a, b.val);
    } else if a.size == 0 {
      c := Sub1(a.val, b);
    } else {
      c := Sub3(a, b);
    }
  }

  // mul1, mul2, mul3 and operator*

  /** mul1(a, b) and operator*(U, F) */
  method Mul1(a: real, b: F) returns (c: F)
    requires b.Valid()
    ensures fresh(c) && c.Valid() && c.View() == Rules.Mul(Rules.Const(a), b.View())
  {
    c := new F.FromValue(a * b.val);
    if b.size == 0 {
      return;
    }
    c.SetDepend(b);
    for i := 0 to c.size
      invariant c.Valid() && c.size == b.size && fresh(c.diff) && c.val == a * b.val
      invariant forall k :: 0 <= k < i ==> c.diff[k] == b.diff[k] * a
    {
      c.diff[i] := b.diff[i] * a;
    }
    Forms.Mul1(a, b.View(), c.diff[..]);
  }

  /** mul2(a, b) and operator*(F, U) */
  method Mul2(a: F, b: real) returns (c: F)
    requires a.Valid()
    ensures fresh(c) && c.Valid() && c.View() == Rules.Mul(a.View(), Rules.Const(b))
  {
    c := new F.FromValue(a.val * b);
    if a.size == 0 {
      return;
    }
    c.SetDepend(a);
    for i := 0 to c.size
      invariant c.Valid() && c.size == a.size && fresh(c.diff) && c.val == a.val * b
      invariant forall k :: 0 <= k < i ==> c.diff[k] == a.diff[k] * b
    {
      c.diff[i] := a.diff[i] * b;
    }
    Forms.Mul2(a.View(), b, c.diff[..]);
  }

  /** mul3(a, b): the product rule with both operand values held aside. */
  method Mul3(a: F, b: F) returns (c: F)
    requires a.Valid() && b.Valid() && a.size == b.size > 0
    ensures fresh(c) && c.Valid() && c.View() == Rules.Mul(a.View(), b.View())
  {
    var aval, bval := a.val, b.val;
    c := new F.FromValue(aval * bval);
    c.SetDepend2(a, b);
    for i := 0 to c.size
      invariant c.Valid() && c.size == a.size && fresh(c.diff) && c.val == aval * bval
      invariant forall k :: 0 <= k < i ==> c.diff[k] == a.diff[k] * bval + b.diff[k] * aval
    {
      c.diff[i] := a.diff[i] * bval + b.diff[i] * aval;
    }
    Forms.Mul3(a.View(), b.View(), c.diff[..]);
  }

  /** operator*(F, F) */
  method Mul(a: F, b: F) returns (c: F)
    requires a.Valid() && b.Valid() && Rules.Compatible(a.View(), b.View())
    ensures fresh(c) && c.Valid() && c.View() == Rules.Mul(a.View(), b.View())
  {
    if a.size == 0 && b.size == 0 {
      c := new F.FromValue(a.val * b.val);
    } else if b.size == 0 {
      c := Mul2(a, b.val);
    } else if a.size == 0 {
      c := Mul1(a.val, b);
    } else {
      c := Mul3(a, b);
    }
  }

  // div1, div2, div3 and operator/

  /** div1(a, b) and operator/(U, F): the factor -(c / b) is formed once. */
  method Div1(a: real, b: F) returns (c: F)
    requires b.Valid() && b.val != 0.0
    ensures fresh(c) && c.Valid() && c.View() == Rules.Div(Rules.Const(a), b.View())
  {
    c := new F.FromValue(a / b.val);
    if b.size == 0 {
      return;
    }
    var tmp := -(c.val / b.val);
    c.SetDepend(b);
    for i := 0 to c.size
      invariant c.Valid() && c.size == b.size && fresh(c.diff) && c.val == a / b.val
      invariant forall k :: 0 <= k < i ==> c.diff[k] == tmp * b.diff[k]
    {
      c.diff[i] := tmp * b.diff[i];
    }
    Forms.Div1(a, b.View(), c.diff[..]);
  }

  /** div2(a, b) and operator/(F, U) */
  method Div2(a: F, b: real) returns (c: F)
    requires a.Valid() && b != 0.0
    ensures fresh(c) && c.Valid() && c.View() == Rules.Div(a.View(), Rules.Const(b))
  {
    c := new F.FromValue(a.val / b);
    if a.size == 0 {
      return;
    }
    c.SetDepend(a);
    for i := 0 to c.size
      invariant c.Valid() && c.size == a.size && fresh(c.diff) && c.val == a.val / b
      invariant forall k :: 0 <= k < i ==> c.diff[k] == a.diff[k] / b
    {
      c.diff[i] := a.diff[i] / b;
    }
    Forms.Div2(a.View(), b, c.diff[..]);
  }

  /** div3(a, b): the quotient rule through the already divided value. */
  method Div3(a: F, b: F) returns (c: F)
    requires a.Valid() && b.Valid() && a.size == b.size > 0 && b.val != 0.0
    ensures fresh(c) && c.Valid() && c.View() == Rules.Div(a.View(), b.View())
  {
    var bval := b.val;
    c := new F.FromValue(a.val / bval);
    c.SetDepend2(a, b);
    var cval := c.val;
    for i := 0 to c.size
      invariant c.Valid() && c.size == a.size && fresh(c.diff) && c.val == cval == a.val / bval
      invariant forall k :: 0 <= k < i ==> c.diff[k] == Forms.DivStep(a.diff[k], cval, b.diff[k], bval)
    {
      c.diff[i] := Forms.DivStep(a.diff[i], cval, b.diff[i], bval);
    }
    Forms.Div3(a.View(), b.View(), cval, c.diff[..]);
  }

  /** operator/(F, F): every branch divides by b's value. */
  method Div(a: F, b: F) returns (c: F)
    requires a.Valid() && b.Valid() && Rules.Compatible(a.View(), b.View()) && b.val != 0.0
    ensures fresh(c) && c.Valid() && c.View() == Rules.Div(a.View(), b.View())
  {
    if a.size == 0 && b.size == 0 {
      c := new F.FromValue(a.val / b.val);
    } else if b.size == 0 {
      c := Div2(a, b.val);
    } else if a.size == 0 {
      c := Div1(a.val, b);
    } else {
      c := Div3(a, b);
    }
  }

  // pow1, pow2, pow3 and pow

  /** pow1(a, b) and pow(U, F): d(a^b) = a^b ln(a) db. */
  method Pow1(op: Ops.Op, a: real, b: F) returns (c: F)
    requires b.Valid()
    ensures fresh(c) && c.Valid() && c.View() == Rules.Pow(op, Rules.Const(a), b.View())
  {
    c := new F.FromValue(op.pow(a, b.val));
    if b.size == 0 {
      return;
    }
    var tmp := c.val * op.log(a);
    c.SetDepend(b);
    for i := 0 to c.size
      invariant c.Valid() && c.size == b.size && fresh(c.diff) && c.val == op.pow(a, b.val)
      invariant forall k :: 0 <= k < i ==> c.diff[k] == tmp * b.diff[k]
    {
      c.diff[i] := tmp * b.diff[i];
    }
    Forms.Pow1(op, a, b.View(), c.diff[..]);
  }

  /** pow2(a, b) and pow(F, U): d(a^b) = b a^(b-1) da. */
  method Pow2(op: Ops.Op, a: F, b: real) returns (c: F)
    requires a.Valid()
    ensures fresh(c) && c.Valid() && c.View() == Rules.Pow(op, a.View(), Rules.Const(b))
  {
    c := new F.FromValue(op.pow(a.val, b));
    if a.size == 0 {
      return;
    }
    var tmp := b * op.pow(a.val, b - Ops.One());
    c.SetDepend(a);
    for i := 0 to c.size
      invariant c.Valid() && c.size == a.size && fresh(c.diff) && c.val == op.pow(a.val, b)
      invariant forall k :: 0 <= k < i ==> c.diff[k] == tmp * a.diff[k]
    {
      c.diff[i] := tmp * a.diff[i];
    }
    Forms.Pow2(op, a.View(), b, c.diff[..]);
  }

  /** pow3(a, b): both partial factors are formed before the loop. */
  method Pow3(op: Ops.Op, a: F, b: F) returns (c: F)
    requires a.Valid() && b.Valid() && a.size == b.size > 0
    ensures fresh(c) && c.Valid() && c.View() == Rules.Pow(op, a.View(), b.View())
  {
    var p := op.pow(a.val, b.val);
    c := new F.FromValue(p);
    var tmp, tmp1 := b.val * op.pow(a.val, b.val - Ops.One()), c.val * op.log(a.val);
    c.SetDepend2(a, b);
    for i := 0 to c.size
      invariant c.Valid() && c.size == a.size && fresh(c.diff) && c.val == p
      invariant forall k :: 0 <= k < i ==> c.diff[k] == Forms.LinStep(tmp, a.diff[k], tmp1, b.diff[k])
    {
      c.diff[i] := Forms.LinStep(tmp, a.diff[i], tmp1, b.diff[i]);
    }
    Forms.Pow3(op, a.View(), b.View(), c.diff[..]);
  }

  /** pow(F, F) */
  method Pow(op: Ops.Op, a: F, b: F) returns (c: F)
    requires a.Valid() && b.Valid() && Rules.Compatible(a.View(), b.View())
    ensures fresh(c) && c.Valid() && c.View() == Rules.Pow(op, a.View(), b.View())
  {
    if a.size == 0 && b.size == 0 {
      c := new F.FromValue(op.pow(a.val, b.val));
    } else if b.size == 0 {
      c := Pow2(op, a, b.val);
    } else if a.size == 0 {
      c := Pow1(op, a.val, b);
    } else {
      c := Pow3(op, a, b);
    }
  }

  // The unary and elementary functions.

  /** operator+(F) */
  method Plus(a: F) returns (c: F)
    requires a.Valid()
    ensures fresh(c) && c.Valid() && c.View() == Rules.Pos(a.View())
  {
    c := new F.FromValue(a.val);
    if a.size == 0 {
      return;
    }
    c.SetDepend(a);
    for i := 0 to c.size
      invariant c.Valid() && c.size == a.size && fresh(c.diff) && c.val == a.val
      invariant forall k :: 0 <= k < i ==> c.diff[k] == a.diff[k]
    {
      c.diff[i] := a.diff[i];
    }
    Forms.Pos(a.View(), c.diff[..]);
  }

  /** operator-(F) */
  method Minus(a: F) returns (c: F)
    requires a.Valid()
    ensures fresh(c) && c.Valid() && c.View() == Rules.Neg(a.View())
  {
    c := new F.FromValue(-a.val);
    if a.size == 0 {
      return;
    }
    c.SetDepend(a);
    for i := 0 to c.size
      invariant c.Valid() && c.size == a.size && fresh(c.diff) && c.val == -a.val
      invariant forall k :: 0 <= k < i ==> c.diff[k] == -a.diff[k]
    {
      c.diff[i] := -a.diff[i];
    }
    Forms.Neg(a.View(), c.diff[..]);
  }

  /** sqr(a): the factor 2a is formed once. */
  method Sqr(a: F) returns (c: F)
    requires a.Valid()
    ensures fresh(c) && c.Valid() && c.View() == Rules.Sqr(a.View())
  {
    c := new F.FromValue(Ops.Sqr(a.val));
    if a.size == 0 {
      return;
    }
    var tmp := Ops.Two() * a.val;
    c.SetDepend(a);
    for i := 0 to c.size
      invariant c.Valid() && c.size == a.size && fresh(c.diff) && c.val == Ops.Sqr(a.val)
      invariant forall k :: 0 <= k < i ==> c.diff[k] == a.diff[k] * tmp
    {
      c.diff[i] := a.diff[i] * tmp;
    }
    Forms.Sqr(a.View(), c.diff[..]);
  }

  /** exp(a): the derivative factor is the result's own value. */
  method Exp(op: Ops.Op, a: F) returns (c: F)
    requires a.Valid()
    ensures fresh(c) && c.Valid() && c.View() == Rules.Exp(op, a.View())
  {
    c := new F.FromValue(op.exp(a.val));
    if a.size == 0 {
      return;
    }
    c.SetDepend(a);
    var cval := c.val;
    for i := 0 to c.size
      invariant c.Valid() && c.size == a.size && fresh(c.diff) && c.val == cval == op.exp(a.val)
      invariant forall k :: 0 <= k < i ==> c.diff[k] == a.diff[k] * cval
    {
      c.diff[i] := a.diff[i] * cval;
    }
    Forms.Exp(op, a.View(), c.diff[..]);
  }

  /** log(a): each component is divided by a's value, which must not be
      zero when a is dependent. */
  method Log(op: Ops.Op, a: F) returns (c: F)
    requires a.Valid() && (a.size > 0 ==> a.val != 0.0)
    ensures fresh(c) && c.Valid() && c.View() == Rules.Log(op, a.View())
  {
    c := new F.FromValue(op.log(a.val));
    if a.size == 0 {
      return;
    }
    c.SetDepend(a);
    var aval := a.val;
    for i := 0 to c.size
      invariant c.Valid() && c.size == a.size && fresh(c.diff) && c.val == op.log(a.val)
      invariant forall k :: 0 <= k < i ==> c.diff[k] == a.diff[k] / aval
    {
      c.diff[i] := a.diff[i] / aval;
    }
    Forms.Log(op, a.View(), c.diff[..]);
  }

  /** sqrt(a): each component is divided by 2 sqrt(a), which must not be
      zero when a is dependent. */
  method Sqrt(op: Ops.Op, a: F) returns (c: F)
    requires a.Valid() && (a.size > 0 ==> op.sqrt(a.val) != 0.0)
    ensures fresh(c) && c.Valid() && c.View() == Rules.Sqrt(op, a.View())
  {
    c := new F.FromValue(op.sqrt(a.val));
    if a.size == 0 {
      return;
    }
    var tmp := c.val * Ops.Two();
    c.SetDepend(a);
    for i := 0 to c.size
      invariant c.Valid() && c.size == a.size && fresh(c.diff) && c.val == op.sqrt(a.val)
      invariant tmp == op.sqrt(a.val) * Ops.Two()
      invariant forall k :: 0 <= k < i ==> c.diff[k] == a.diff[k] / tmp
    {
      c.diff[i] := a.diff[i] / tmp;
    }
    Forms.Sqrt(op, a.View(), c.diff[..]);
  }

  /** sin(a) */
  method Sin(op: Ops.Op, a: F) returns (c: F)
    requires a.Valid()
    ensures fresh(c) && c.Valid() && c.View() == Rules.Sin(op, a.View())
  {
    c := new F.FromValue(op.sin(a.val));
    if a.size == 0 {
      return;
    }
    var tmp := op.cos(a.val);
    c.SetDepend(a);
    for i := 0 to c.size
      invariant c.Valid() && c.size == a.size && fresh(c.diff) && c.val == op.sin(a.val)
      invariant forall k :: 0 <= k < i ==> c.diff[k] == a.diff[k] * tmp
    {
      c.diff[i] := a.diff[i] * tmp;
    }
    Forms.Sin(op, a.View(), c.diff[..]);
  }

  /** cos(a) */
  method Cos(op: Ops.Op, a: F) returns (c: F)
    requires a.Valid()
    ensures fresh(c) && c.Valid() && c.View() == Rules.Cos(op, a.View())
  {
    c := new F.FromValue(op.cos(a.val));
    if a.size == 0 {
      return;
    }
    var tmp := -op.sin(a.val);
    c.SetDepend(a);
    for i := 0 to c.size
      invariant c.Valid() && c.size == a.size && fresh(c.diff) && c.val == op.cos(a.val)
      invariant forall k :: 0 <= k < i ==> c.diff[k] == a.diff[k] * tmp
    {
      c.diff[i] := a.diff[i] * tmp;
    }
    Forms.Cos(op, a.View(), c.diff[..]);
  }

  /** tan(a): the factor 1 + tan(a)^2 reuses the result's value. */
  method Tan(op: Ops.Op, a: F) returns (c: F)
    requires a.Valid()
    ensures fresh(c) && c.Valid() && c.View() == Rules.Tan(op, a.View())
  {
    c := new F.FromValue(op.tan(a.val));
    if a.size == 0 {
      return;
    }
    var tmp := Ops.One() + Ops.Sqr(c.val);
    c.SetDepend(a);
    for i := 0 to c.size
      invariant c.Valid() && c.size == a.size && fresh(c.diff) && c.val == op.tan(a.val)
      invariant forall k :: 0 <= k < i ==> c.diff[k] == a.diff[k] * tmp
    {
      c.diff[i] := a.diff[i] * tmp;
    }
    Forms.Tan(op, a.View(), c.diff[..]);
  }

  /** asin(a): the factor 1 / sqrt(1 - a^2) needs a non-zero root when a is
      dependent. */
  method Asin(op: Ops.Op, a: F) returns (c: F)
    requires a.Valid() && (a.size > 0 ==> op.sqrt(Ops.One() - Ops.Sqr(a.val)) != 0.0)
    ensures fresh(c) && c.Valid() && c.View() == Rules.Asin(op, a.View())
  {
    c := new F.FromValue(op.asin(a.val));
    if a.size == 0 {
      return;
    }
    var tmp := Ops.Inv(op.sqrt(Ops.One() - Ops.Sqr(a.val)));
    c.SetDepend(a);
    for i := 0 to c.size
      invariant c.Valid() && c.size == a.size && fresh(c.diff) && c.val == op.asin(a.val)
      invariant forall k :: 0 <= k < i ==> c.diff[k] == a.diff[k] * tmp
    {
      c.diff[i] := a.diff[i] * tmp;
    }
    Forms.Asin(op, a.View(), c.diff[..]);
  }

  /** acos(a): the negated factor of asin. */
  method Acos(op: Ops.Op, a: F) returns (c: F)
    requires a.Valid() && (a.size > 0 ==> op.sqrt(Ops.One() - Ops.Sqr(a.val)) != 0.0)
    ensures fresh(c) && c.Valid() && c.View() == Rules.Acos(op, a.View())
  {
    c := new F.FromValue(op.acos(a.val));
    if a.size == 0 {
      return;
    }
    var tmp := -Ops.Inv(op.sqrt(Ops.One() - Ops.Sqr(a.val)));
    c.SetDepend(a);
    for i := 0 to c.size
      invariant c.Valid() && c.size == a.size && fresh(c.diff) && c.val == op.acos(a.val)
      invariant forall k :: 0 <= k < i ==> c.diff[k] == a.diff[k] * tmp
    {
      c.diff[i] := a.diff[i] * tmp;
    }
    Forms.Acos(op, a.View(), c.diff[..]);
  }

  /** atan(a): the factor 1 / (1 + a^2). */
  method Atan(op: Ops.Op, a: F) returns (c: F)
    requires a.Valid()
    ensures fresh(c) && c.Valid() && c.View() == Rules.Atan(op, a.View())
  {
    c := new F.FromValue(op.atan(a.val));
    if a.size == 0 {
      return;
    }
    var tmp := Ops.Inv(Ops.One() + Ops.Sqr(a.val));
    c.SetDepend(a);
    for i := 0 to c.size
      invariant c.Valid() && c.size == a.size && fresh(c.diff) && c.val == op.atan(a.val)
      invariant forall k :: 0 <= k < i ==> c.diff[k] == a.diff[k] * tmp
    {
      c.diff[i] := a.diff[i] * tmp;
    }
    Forms.Atan(op, a.View(), c.diff[..]);
  }
}
