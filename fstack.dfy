/** F<T,N>, the stack realisation of the forward AD variable
    (include/fadiff.h:37-131 and its members at 300-429): a value, an inline
    array of N derivatives and a dependency flag.  The variable is a value
    type, so every operation returns the updated variable. */
module FStack {
  import Ops
  import Rules
  import Forms

  /** |diff| is the template width N.  While depend is false the array holds
      whatever the storage last held (possibly never written) and means
      nothing. */
  datatype F = F(val: real, diff: seq<real>, depend: bool) {

    /** What the variable stands for. */
    function View(): Rules.Dual
    {
      if depend then Rules.Dep(val, diff) else Rules.Const(val)
    }

    /** size(): N when dependent, 0 otherwise. */
    function Size(): (r: nat)
      ensures r == Rules.WidthOf(View())
    {
      if depend then |diff| else 0
    }

    /** operator[] (read): valid only on a dependent variable, index below N. */
    function At(i: nat): (r: real)
      requires i < |diff| && depend
      ensures r == Rules.DerivOf(View(), i)
    {
      diff[i]
    }

    /** deriv(i) and d(i) as a read: the stored derivative, or zero for a
        constant; the index must be below N. */
    function Deriv(i: nat): (r: real)
      requires i < |diff|
      ensures r == Rules.DerivOf(View(), i)
    {
      if depend then diff[i] else Ops.Zero()
    }

    /** operator[] (write): stores component i of a dependent variable. */
    function Put(i: nat, x: real): (r: F)
      requires i < |diff| && depend
      ensures r.depend && r.val == val && |r.diff| == |diff| && r.diff[i] == x
      ensures forall j :: 0 <= j < |diff| && j != i ==> r.diff[j] == diff[j]
    {
      this.(diff := diff[i := x])
    }

    /** setDepend(val) and setDepend(val1, val2): both only raise the flag,
        whatever the argument, so the width becomes N. */
    function SetDepend(): (r: F)
      ensures r.Size() == |diff| && r.val == val && r.diff == diff
    {
      this.(depend := true)
    }
  }

  /** Two stack variables of one template instance have the same N. */
  predicate SameWidth(a: F, b: F) { |a.diff| == |b.diff| }

  /** FTypeName(const U&) of width n: a constant. */
  function Constant(n: nat, v: real): (r: F)
    ensures r.View() == Rules.Const(v) && |r.diff| == n
  {
    F(v, Rules.Zeros(n), false)
  }

  /** operator=(const U&): the value is set and the variable becomes a
      constant; the storage is left as it was. */
  function AssignValue(x: F, v: real): (r: F)
    ensures r.View() == Rules.Const(v) && r.Size() == 0 && r.diff == x.diff
  {
    x.(val := v, depend := false)
  }

  /** operator=(const F&) and the copy constructor: the value and the flag
      are copied, the derivatives only when the source is dependent. */
  method Assign(x: F, y: F) returns (r: F)
    requires SameWidth(x, y)
    ensures r.View() == y.View() && SameWidth(r, y)
    ensures !y.depend ==> r.diff == x.diff
  {
    r := x.(val := y.val, depend := y.depend);
    if r.depend {
      for i := 0 to |y.diff|
        invariant r.val == y.val && r.depend && |r.diff| == |y.diff|
        invariant forall k :: 0 <= k < i ==> r.diff[k] == y.diff[k]
      {
        r := r.Put(i, y.At(i));
      }
    }
  }

  /** diff(idx): seeds axis idx, so component idx becomes one and every other
      component zero, and the variable becomes dependent. */
  method Diff(x: F, idx: nat) returns (r: F)
    requires idx < |x.diff|
    ensures r.View() == Rules.Dep(x.val, Rules.Unit(|x.diff|, idx)) && SameWidth(r, x)
    ensures forall j :: 0 <= j < |x.diff| ==> r.Deriv(j) == if j == idx then 1.0 else 0.0
  {
    r := x;
    var i := 0;
    while i < idx
      invariant i <= idx && r.val == x.val && |r.diff| == |x.diff|
      invariant forall k :: 0 <= k < i ==> r.diff[k] == 0.0
    {
      r := r.(diff := r.diff[i := Ops.Zero()]);
      i := i + 1;
    }
    r := r.(diff := r.diff[i := Ops.One()]);
    i := i + 1;
    while i < |x.diff|
      invariant idx < i <= |x.diff| && r.val == x.val && |r.diff| == |x.diff|
      invariant forall k :: 0 <= k < i ==> r.diff[k] == if k == idx then 1.0 else 0.0
    {
      r := r.(diff := r.diff[i := Ops.Zero()]);
      i := i + 1;
    }
    r := r.(depend := true);
  }

  /** operator+=(const F&) */
  method AddAssign(x: F, y: F) returns (r: F)
    requires SameWidth(x, y)
    ensures r.View() == Rules.Add(x.View(), y.View()) && SameWidth(r, x)
    ensures !y.depend ==> r.diff == x.diff && r.depend == x.depend
  {
    r := x.(val := x.val + y.val);
    if !y.depend {
      if r.depend {
        Add2Form(x, y.val, r);
      }
    } else if r.depend {
      for i := 0 to |y.diff|
        invariant r.val == x.val + y.val && r.depend && |r.diff| == |x.diff|
        invariant forall k :: 0 <= k < i ==> r.diff[k] == x.diff[k] + y.diff[k]
        invariant forall k :: i <= k < |x.diff| ==> r.diff[k] == x.diff[k]
      {
        r := r.Put(i, r.diff[i] + y.At(i));
      }
      Add3Form(x, y, r);
    } else {
      r := r.SetDepend();
      for i := 0 to |y.diff|
        invariant r.val == x.val + y.val && r.depend && |r.diff| == |x.diff|
        invariant forall k :: 0 <= k < i ==> r.diff[k] == y.diff[k]
      {
        r := r.Put(i, y.At(i));
      }
      Add1Form(x.val, y, r);
    }
  }

  /** operator-=(const F&) */
  method SubAssign(x: F, y: F) returns (r: F)
    requires SameWidth(x, y)
    ensures r.View() == Rules.Sub(x.View(), y.View()) && SameWidth(r, x)
    ensures !y.depend ==> r.diff == x.diff && r.depend == x.depend
  {
    r := x.(val := x.val - y.val);
    if !y.depend {
      if r.depend {
        Sub2Form(x, y.val, r);
      }
    } else if r.depend {
      for i := 0 to |y.diff|
        invariant r.val == x.val - y.val && r.depend && |r.diff| == |x.diff|
        invariant forall k :: 0 <= k < i ==> r.diff[k] == x.diff[k] - y.diff[k]
        invariant forall k :: i <= k < |x.diff| ==> r.diff[k] == x.diff[k]
      {
        r := r.Put(i, r.diff[i] - y.At(i));
      }
      Sub3Form(x, y, r);
    } else {
      r := r.SetDepend();
      for i := 0 to |y.diff|
        invariant r.val == x.val - y.val && r.depend && |r.diff| == |x.diff|
        invariant forall k :: 0 <= k < i ==> r.diff[k] == -y.diff[k]
      {
        r := r.Put(i, -y.At(i));
      }
      Sub1Form(x.val, y, r);
    }
  }

  /** operator*=(const F&) as written: the last branch is meant for a
      dependent right operand but is also taken when neither operand is
      dependent, and then marks the result dependent with derivatives made
      from the right operand's meaningless storage. */
  method MulAssign(x: F, y: F) returns (r: F)
    requires SameWidth(x, y)
    ensures SameWidth(r, x) && r.val == x.val * y.val
    ensures x.depend || y.depend ==> r.View() == Rules.Mul(x.View(), y.View())
    ensures !x.depend && !y.depend ==>
      r.depend && forall i :: 0 <= i < |r.diff| ==> r.diff[i] == y.diff[i] * x.val
  {
    if x.depend && y.depend {
      r := MulAssignBoth(x, y);
    } else if x.depend {
      r := MulAssignLeft(x, y);
    } else {
      r := MulAssignRight(x, y);
    }
  }

  /** The branch of *= for two dependent operands (product rule), followed by
      the value update. */
  method MulAssignBoth(x: F, y: F) returns (r: F)
    requires SameWidth(x, y) && x.depend && y.depend
    ensures r.View() == Rules.Mul(x.View(), y.View()) && SameWidth(r, x)
    ensures r.val == x.val * y.val
  {
    r := x;
    for i := 0 to |x.diff|
      invariant r.val == x.val && r.depend && |r.diff| == |x.diff|
      invariant forall k :: 0 <= k < i ==> r.diff[k] == x.diff[k] * y.val + y.diff[k] * x.val
      invariant forall k :: i <= k < |x.diff| ==> r.diff[k] == x.diff[k]
    {
      r := r.Put(i, r.diff[i] * y.val + y.diff[i] * r.val);
    }
    r := r.(val := x.val * y.val);
    Mul3Form(x, y, r);
  }

  /** The branch of *= for a dependent left operand: the derivatives are
      scaled by the right value. */
  method MulAssignLeft(x: F, y: F) returns (r: F)
    requires SameWidth(x, y) && x.depend && !y.depend
    ensures r.View() == Rules.Mul(x.View(), y.View()) && SameWidth(r, x)
    ensures r.val == x.val * y.val
  {
    r := x;
    for i := 0 to |x.diff|
      invariant r.val == x.val && r.depend && |r.diff| == |x.diff|
      invariant forall k :: 0 <= k < i ==> r.diff[k] == x.diff[k] * y.val
      invariant forall k :: i <= k < |x.diff| ==> r.diff[k] == x.diff[k]
    {
      r := r.Put(i, r.diff[i] * y.val);
    }
    r := r.(val := x.val * y.val);
    Mul2Form(x, y.val, r);
  }

  /** The last branch of *=, entered whenever the left operand is constant:
      the result is marked dependent and gets the right operand's stored
      derivatives scaled by the left value. */
  method MulAssignRight(x: F, y: F) returns (r: F)
    requires SameWidth(x, y) && !x.depend
    ensures SameWidth(r, x) && r.val == x.val * y.val && r.depend
    ensures forall i :: 0 <= i < |r.diff| ==> r.diff[i] == y.diff[i] * x.val
    ensures y.depend ==> r.View() == Rules.Mul(x.View(), y.View())
  {
    r := x.SetDepend();
    for i := 0 to |x.diff|
      invariant r.val == x.val && r.depend && |r.diff| == |x.diff|
      invariant forall k :: 0 <= k < i ==> r.diff[k] == y.diff[k] * x.val
    {
      r := r.Put(i, y.diff[i] * r.val);
    }
    r := r.(val := x.val * y.val);
    if y.depend {
      Mul1Form(x.val, y, r);
    }
  }

  /** operator*=(const F&) with the last branch guarded by the right
      operand's dependency: the product of two constants stays a constant. */
  method MulAssignIntended(x: F, y: F) returns (r: F)
    requires SameWidth(x, y)
    ensures r.View() == Rules.Mul(x.View(), y.View()) && SameWidth(r, x)
  {
    if x.depend || y.depend {
      r := MulAssign(x, y);
    } else {
      r := x.(val := x.val * y.val);
    }
  }

  /** operator/=(const F&) as written: as for MulAssign, two constants give a
      dependent result built from meaningless storage. */
  method DivAssign(x: F, y: F) returns (r: F)
    requires SameWidth(x, y) && y.val != 0.0
    ensures SameWidth(r, x) && r.val == x.val / y.val
    ensures x.depend || y.depend ==> r.View() == Rules.Div(x.View(), y.View())
    ensures !x.depend && !y.depend ==>
      r.depend && forall i :: 0 <= i < |r.diff| ==> r.diff[i] == Forms.NegDivStep(r.val, y.diff[i], y.val)
  {
    if x.depend && y.depend {
      r := DivAssignBoth(x, y);
    } else if x.depend {
      r := DivAssignLeft(x, y);
    } else {
      r := DivAssignRight(x, y);
    }
  }

  /** The branch of /= for two dependent operands, evaluated through the new
      value q: (da - q db) / b. */
  method DivAssignBoth(x: F, y: F) returns (r: F)
    requires SameWidth(x, y) && x.depend && y.depend && y.val != 0.0
    ensures r.View() == Rules.Div(x.View(), y.View()) && SameWidth(r, x)
    ensures r.val == x.val / y.val
  {
    r := x.(val := x.val / y.val);
    for i := 0 to |x.diff|
      invariant r.val == x.val / y.val && r.depend && |r.diff| == |x.diff|
      invariant forall k :: 0 <= k < i ==> r.diff[k] == Forms.DivStep(x.diff[k], r.val, y.diff[k], y.val)
      invariant forall k :: i <= k < |x.diff| ==> r.diff[k] == x.diff[k]
    {
      r := r.Put(i, Forms.DivStep(r.diff[i], r.val, y.diff[i], y.val));
    }
    Div3Form(x, y, r);
  }

  /** The branch of /= for a dependent left operand. */
  method DivAssignLeft(x: F, y: F) returns (r: F)
    requires SameWidth(x, y) && x.depend && !y.depend && y.val != 0.0
    ensures r.View() == Rules.Div(x.View(), y.View()) && SameWidth(r, x)
    ensures r.val == x.val / y.val
  {
    r := x.(val := x.val / y.val);
    for i := 0 to |x.diff|
      invariant r.val == x.val / y.val && r.depend && |r.diff| == |x.diff|
      invariant forall k :: 0 <= k < i ==> r.diff[k] == x.diff[k] / y.val
      invariant forall k :: i <= k < |x.diff| ==> r.diff[k] == x.diff[k]
    {
      r := r.Put(i, r.diff[i] / y.val);
    }
    Div2Form(x, y.val, r);
  }

  /** The last branch of /=, entered whenever the left operand is constant. */
  method DivAssignRight(x: F, y: F) returns (r: F)
    requires SameWidth(x, y) && !x.depend && y.val != 0.0
    ensures SameWidth(r, x) && r.val == x.val / y.val && r.depend
    ensures forall i :: 0 <= i < |r.diff| ==> r.diff[i] == Forms.NegDivStep(r.val, y.diff[i], y.val)
    ensures y.depend ==> r.View() == Rules.Div(x.View(), y.View())
  {
    r := x.(val := x.val / y.val).SetDepend();
    for i := 0 to |x.diff|
      invariant r.val == x.val / y.val && r.depend && |r.diff| == |x.diff|
      invariant forall k :: 0 <= k < i ==> r.diff[k] == Forms.NegDivStep(r.val, y.diff[k], y.val)
    {
      r := r.Put(i, Forms.NegDivStep(r.val, y.diff[i], y.val));
    }
    if y.depend {
      DivRightForm(x, y, r);
    }
  }

  /** operator/=(const F&) with the last branch guarded by the right
      operand's dependency. */
  method DivAssignIntended(x: F, y: F) returns (r: F)
    requires SameWidth(x, y) && y.val != 0.0
    ensures r.View() == Rules.Div(x.View(), y.View()) && SameWidth(r, x)
  {
    if x.depend || y.depend {
      r := DivAssign(x, y);
    } else {
      r := x.(val := x.val / y.val);
    }
  }

  /** What MulAssign gives two constants differs observably from the product
      rule: depend() holds and size() is N, where the product of two
      constants has no derivatives. */
  lemma MulAssignConstantsDiffer(x: F, y: F, r: F)
    requires SameWidth(x, y) && !x.depend && !y.depend && |x.diff| > 0
    requires SameWidth(r, x) && r.val == x.val * y.val && r.depend
    ensures r.Size() == |x.diff| && Rules.WidthOf(Rules.Mul(x.View(), y.View())) == 0
    ensures r.View() != Rules.Mul(x.View(), y.View())
  {
  }

  /** The same for DivAssign and the quotient rule. */
  lemma DivAssignConstantsDiffer(x: F, y: F, r: F)
    requires SameWidth(x, y) && !x.depend && !y.depend && |x.diff| > 0 && y.val != 0.0
    requires SameWidth(r, x) && r.val == x.val / y.val && r.depend
    ensures r.Size() == |x.diff| && Rules.WidthOf(Rules.Div(x.View(), y.View())) == 0
    ensures r.View() != Rules.Div(x.View(), y.View())
  {
  }

  /** operator+=(const V&): only the value moves. */
  function AddValue(x: F, v: real): (r: F)
    ensures r.View() == Rules.Add(x.View(), Rules.Const(v))
    ensures r.diff == x.diff && r.depend == x.depend
  {
    var r := x.(val := x.val + v);
    if r.depend then Add2Form(x, v, r); r else r
  }

  /** operator-=(const V&): only the value moves. */
  function SubValue(x: F, v: real): (r: F)
    ensures r.View() == Rules.Sub(x.View(), Rules.Const(v))
    ensures r.diff == x.diff && r.depend == x.depend
  {
    var r := x.(val := x.val - v);
    if r.depend then Sub2Form(x, v, r); r else r
  }

  /** operator*=(const V&): the value and, when dependent, every derivative
      are scaled. */
  method MulValue(x: F, v: real) returns (r: F)
    ensures r.View() == Rules.Mul(x.View(), Rules.Const(v)) && SameWidth(r, x)
    ensures !x.depend ==> r.diff == x.diff
  {
    r := x.(val := x.val * v);
    if !r.depend {
      return;
    }
    for i := 0 to |x.diff|
      invariant r.val == x.val * v && r.depend && |r.diff| == |x.diff|
      invariant forall k :: 0 <= k < i ==> r.diff[k] == x.diff[k] * v
      invariant forall k :: i <= k < |x.diff| ==> r.diff[k] == x.diff[k]
    {
      r := r.Put(i, r.diff[i] * v);
    }
    Mul2Form(x, v, r);
  }

  /** operator/=(const V&): the value and, when dependent, every derivative
      are divided. */
  method DivValue(x: F, v: real) returns (r: F)
    requires v != 0.0
    ensures r.View() == Rules.Div(x.View(), Rules.Const(v)) && SameWidth(r, x)
    ensures !x.depend ==> r.diff == x.diff
  {
    r := x.(val := x.val / v);
    if !r.depend {
      return;
    }
    for i := 0 to |x.diff|
      invariant r.val == x.val / v && r.depend && |r.diff| == |x.diff|
      invariant forall k :: 0 <= k < i ==> r.diff[k] == x.diff[k] / v
      invariant forall k :: i <= k < |x.diff| ==> r.diff[k] == x.diff[k]
    {
      r := r.Put(i, r.diff[i] / v);
    }
    Div2Form(x, v, r);
  }

  // What a stack variable in each closed form stands for: the forms of
  // module Forms, stated on stack variables.

  lemma Add1Form(a: real, y: F, r: F)
    requires y.depend && r.depend && SameWidth(r, y) && r.val == a + y.val
    requires forall k :: 0 <= k < |y.diff| ==> r.diff[k] == y.diff[k]
    ensures r.View() == Rules.Add(Rules.Const(a), y.View())
  {
    Forms.Add1(a, y.View(), r.diff);
  }

  lemma Add2Form(x: F, b: real, r: F)
    requires x.depend && r.depend && SameWidth(r, x) && r.val == x.val + b
    requires forall k :: 0 <= k < |x.diff| ==> r.diff[k] == x.diff[k]
    ensures r.View() == Rules.Add(x.View(), Rules.Const(b))
  {
    Forms.Add2(x.View(), b, r.diff);
  }

  lemma Add3Form(x: F, y: F, r: F)
    requires x.depend && y.depend && r.depend && SameWidth(r, x) && SameWidth(x, y)
    requires r.val == x.val + y.val
    requires forall k :: 0 <= k < |x.diff| ==> r.diff[k] == x.diff[k] + y.diff[k]
    ensures r.View() == Rules.Add(x.View(), y.View())
  {
    Forms.Add3(x.View(), y.View(), r.diff);
  }

  lemma Sub1Form(a: real, y: F, r: F)
    requires y.depend && r.depend && SameWidth(r, y) && r.val == a - y.val
    requires forall k :: 0 <= k < |y.diff| ==> r.diff[k] == -y.diff[k]
    ensures r.View() == Rules.Sub(Rules.Const(a), y.View())
  {
    Forms.Sub1(a, y.View(), r.diff);
  }

  lemma Sub2Form(x: F, b: real, r: F)
    requires x.depend && r.depend && SameWidth(r, x) && r.val == x.val - b
    requires forall k :: 0 <= k < |x.diff| ==> r.diff[k] == x.diff[k]
    ensures r.View() == Rules.Sub(x.View(), Rules.Const(b))
  {
    Forms.Sub2(x.View(), b, r.diff);
  }

  lemma Sub3Form(x: F, y: F, r: F)
    requires x.depend && y.depend && r.depend && SameWidth(r, x) && SameWidth(x, y)
    requires r.val == x.val - y.val
    requires forall k :: 0 <= k < |x.diff| ==> r.diff[k] == x.diff[k] - y.diff[k]
    ensures r.View() == Rules.Sub(x.View(), y.View())
  {
    Forms.Sub3(x.View(), y.View(), r.diff);
  }

  lemma Mul1Form(a: real, y: F, r: F)
    requires y.depend && r.depend && SameWidth(r, y) && r.val == a * y.val
    requires forall k :: 0 <= k < |y.diff| ==> r.diff[k] == y.diff[k] * a
    ensures r.View() == Rules.Mul(Rules.Const(a), y.View())
  {
    Forms.Mul1(a, y.View(), r.diff);
  }

  lemma Mul2Form(x: F, b: real, r: F)
    requires x.depend && r.depend && SameWidth(r, x) && r.val == x.val * b
    requires forall k :: 0 <= k < |x.diff| ==> r.diff[k] == x.diff[k] * b
    ensures r.View() == Rules.Mul(x.View(), Rules.Const(b))
  {
    Forms.Mul2(x.View(), b, r.diff);
  }

  lemma Mul3Form(x: F, y: F, r: F)
    requires x.depend && y.depend && r.depend && SameWidth(r, x) && SameWidth(x, y)
    requires r.val == x.val * y.val
    requires forall k :: 0 <= k < |x.diff| ==> r.diff[k] == x.diff[k] * y.val + y.diff[k] * x.val
    ensures r.View() == Rules.Mul(x.View(), y.View())
  {
    Forms.Mul3(x.View(), y.View(), r.diff);
  }

  /** The compound division's last branch, -(q db / b), is div1's form. */
  lemma DivRightForm(x: F, y: F, r: F)
    requires !x.depend && y.depend && r.depend && SameWidth(r, y) && y.val != 0.0
    requires r.val == x.val / y.val
    requires forall k :: 0 <= k < |r.diff| ==> r.diff[k] == Forms.NegDivStep(r.val, y.diff[k], y.val)
    ensures r.View() == Rules.Div(x.View(), y.View())
  {
    forall k | 0 <= k < |r.diff|
      ensures r.diff[k] == -((x.val / y.val) / y.val) * y.diff[k]
    {
      Forms.NegQuotient(r.val, x.val, y.diff[k], y.val);
    }
    Forms.Div1(x.val, y.View(), r.diff);
  }

  /** x /= x on one variable: the divided value is also the divisor's value,
      so the loop computes (d - 1 d) / 1; that too is the quotient rule, and
      agrees with what DivAssignBoth(x, x) computes without aliasing. */
  lemma DivSelfForm(x: F, r: F)
    requires x.depend && r.depend && SameWidth(r, x) && x.val != 0.0
    requires r.val == x.val / x.val
    requires forall k :: 0 <= k < |x.diff| ==> r.diff[k] == Forms.DivStep(x.diff[k], r.val, x.diff[k], r.val)
    ensures r.View() == Rules.Div(x.View(), x.View())
    ensures forall k :: 0 <= k < |x.diff| ==> r.diff[k] == Forms.DivStep(x.diff[k], r.val, x.diff[k], x.val)
  {
    Forms.DivSelf(x.View(), r.val, r.diff);
    assert r.val == 1.0;
    forall k | 0 <= k < |x.diff|
      ensures r.diff[k] == Forms.DivStep(x.diff[k], r.val, x.diff[k], x.val)
    {
      assert r.diff[k] == 0.0;
    }
  }

  lemma Div2Form(x: F, b: real, r: F)
    requires x.depend && r.depend && SameWidth(r, x) && b != 0.0 && r.val == x.val / b
    requires forall k :: 0 <= k < |x.diff| ==> r.diff[k] == x.diff[k] / b
    ensures r.View() == Rules.Div(x.View(), Rules.Const(b))
  {
    Forms.Div2(x.View(), b, r.diff);
  }

  lemma Div3Form(x: F, y: F, r: F)
    requires x.depend && y.depend && r.depend && SameWidth(r, x) && SameWidth(x, y)
    requires y.val != 0.0 && r.val == x.val / y.val
    requires forall k :: 0 <= k < |x.diff| ==> r.diff[k] == Forms.DivStep(x.diff[k], r.val, y.diff[k], y.val)
    ensures r.View() == Rules.Div(x.View(), y.View())
  {
    Forms.Div3(x.View(), y.View(), r.val, r.diff);
  }

  // The comparisons look at the values only.

  /** ==, !=, <, <=, >, >= between two variables */
  predicate Compare(rel: Ops.Relation, a: F, b: F)
    ensures Compare(rel, a, b) <==> Ops.Holds(rel, a.View().v, b.View().v)
    ensures Compare(rel, a, b) <==> Ops.Holds(Ops.Converse(rel), b.val, a.val)
  {
    Ops.Holds(rel, a.val, b.val)
  }

  /** the six relations with a plain value on the right */
  predicate CompareValue(rel: Ops.Relation, a: F, u: real)
    ensures CompareValue(rel, a, u) <==> Ops.Holds(rel, a.View().v, u)
    ensures CompareValue(rel, a, u) <==> Ops.Holds(Ops.Converse(rel), u, a.val)
  {
    Ops.Holds(rel, a.val, u)
  }

  /** the six relations with a plain value on the left */
  predicate CompareValueLeft(rel: Ops.Relation, u: real, b: F)
    ensures CompareValueLeft(rel, u, b) <==> Ops.Holds(rel, u, b.View().v)
    ensures CompareValueLeft(rel, u, b) <==> Ops.Holds(Ops.Converse(rel), b.val, u)
  {
    Ops.Holds(rel, u, b.val)
  }

  /** A comparison is decided by the values: variables with equal values
      compare alike whatever their derivatives and dependency, and comparing
      with a variable is comparing with its value. */
  lemma CompareIgnoresDerivatives(rel: Ops.Relation, a: F, b: F, a': F, b': F)
    requires a.val == a'.val && b.val == b'.val
    ensures Compare(rel, a, b) == Compare(rel, a', b')
    ensures Compare(rel, a, b) == CompareValue(rel, a, b.val) == CompareValueLeft(rel, a.val, b)
    ensures Compare(rel, a, b) == Ops.Holds(rel, a.View().v, b.View().v)
  {
  }
}
