/** F<T,0>, the heap realisation of the forward AD variable
    (include/fadiff.h:133-299 and its members at 431-555): a value, a width
    and a derivative array allocated on first use.  The variable is dependent
    exactly when its width is non-zero.  Operations update the object in
    place, and an operand may be the object itself (x *= x). */
module FHeap {
  import Ops
  import Rules
  import Forms

  class F {
    var val: real
    var size: nat
    /** m_diff: null until the variable first depends on something; a
        zero-length array after setDepend on a constant, which the compound
        multiplication and division reach. */
    var diff: array?<real>

    /** A dependent variable owns exactly size derivatives. */
    predicate Valid()
      reads this
    {
      if size == 0 then diff == null || diff.Length == 0
      else diff != null && diff.Length == size
    }

    /** What the variable stands for. */
    function View(): Rules.Dual
      reads this, diff
      requires Valid()
    {
      if size == 0 then Rules.Const(val) else Rules.Dep(val, diff[..])
    }

    /** Distinct variables never share a derivative array. */
    predicate Separate(y: F)
      reads this, y
    {
      this == y || diff == null || diff != y.diff
    }

    /** The default constructor: value T(), no derivatives. */
    constructor ()
      ensures Valid() && View() == Rules.Const(0.0) && diff == null
    {
      val, size, diff := 0.0, 0, null;
    }

    /** FTypeName(const U&): a constant. */
    constructor FromValue(v: real)
      ensures Valid() && View() == Rules.Const(v) && diff == null
    {
      val, size, diff := v, 0, null;
    }

    /** The copy constructor: a deep copy into a fresh array. */
    constructor Copy(y: F)
      requires y.Valid()
      ensures Valid() && View() == y.View()
      ensures diff == null || fresh(diff)
    {
      var d: array?<real> := null;
      if y.size > 0 {
        d := new real[y.size];
        for i := 0 to y.size
          invariant forall k :: 0 <= k < i ==> d[k] == y.diff[k]
        {
          d[i] := y.diff[i];
        }
      }
      val, size, diff := y.val, y.size, d;
      new;
      assert size > 0 ==> diff[..] == y.diff[..];
    }

    /** operator=(const U&): the derivatives are released. */
    method AssignValue(v: real)
      modifies this
      ensures Valid() && View() == Rules.Const(v) && diff == null
    {
      val, size, diff := v, 0, null;
    }

    /** operator=(const F&): a dependent source is copied (allocating on
        first use); a constant source zeroes the target's derivatives but
        keeps its width. */
    method Assign(y: F)
      requires Valid() && y.Valid() && Separate(y)
      requires size > 0 && y.size > 0 ==> size == y.size
      modifies this, diff
      ensures Valid() && val == old(y.val)
      ensures old(y.size) > 0 || old(size) == 0 ==> View() == old(y.View())
      ensures old(y.size) == 0 && old(size) > 0 ==>
        View() == Rules.Dep(old(y.val), Rules.Zeros(old(size)))
      ensures old(size) > 0 ==> diff == old(diff)
      ensures old(size) == 0 && old(y.size) > 0 ==> fresh(diff)
    {
      if this == y {
        return;
      }
      val := y.val;
      if y.size > 0 {
        if size == 0 {
          size := y.size;
          diff := new real[size];
        }
        for i := 0 to y.size
          invariant Valid() && size == y.size && diff != y.diff && val == y.val
          invariant old(size) > 0 ==> diff == old(diff)
          invariant old(size) == 0 ==> fresh(diff)
          invariant forall k :: 0 <= k < i ==> diff[k] == y.diff[k]
        {
          diff[i] := y.diff[i];
        }
        assert diff[..] == y.diff[..];
      } else if size > 0 {
        for i := 0 to size
          invariant Valid() && size == old(size) && diff == old(diff) && val == old(y.val)
          invariant forall k :: 0 <= k < i ==> diff[k] == 0.0
        {
          diff[i] := 0.0;
        }
        assert diff[..] == Rules.Zeros(size);
      }
    }

    /** size() */
    function Size(): (r: nat)
      reads this, diff
      requires Valid()
      ensures r == Rules.WidthOf(View())
    {
      size
    }

    /** depend(): a variable depends exactly when it has derivatives. */
    predicate Depend()
      reads this, diff
      requires Valid()
      ensures Depend() <==> View().Dep?
    {
      size != 0
    }

    /** operator[] (read): the index must be below the width. */
    function At(i: nat): (r: real)
      reads this, diff
      requires Valid() && i < size
      ensures r == Rules.DerivOf(View(), i)
    {
      diff[i]
    }

    /** deriv(i) and d(i) as a read: zero beyond the width, with no check. */
    function Deriv(i: nat): (r: real)
      reads this, diff
      requires Valid()
      ensures r == Rules.DerivOf(View(), i)
    {
      if i < size then diff[i] else Ops.Zero()
    }

    /** operator[] (write) */
    method Put(i: nat, x: real)
      requires Valid() && i < size
      modifies diff
      ensures Valid() && diff[..] == old(diff[..])[i := x]
    {
      diff[i] := x;
    }

    /** diff(idx, N): seeds axis idx of an N-wide space, allocating on first
        use; an existing width must already be N. */
    method Diff(idx: nat, n: nat)
      requires Valid() && idx < n && (size > 0 ==> size == n)
      modifies this, diff
      ensures Valid() && val == old(val) && View() == Rules.Dep(val, Rules.Unit(n, idx))
      ensures old(size) > 0 ==> diff == old(diff)
      ensures old(size) == 0 ==> fresh(diff)
    {
      if size == 0 {
        size := n;
        diff := new real[size];
      }
      var i := 0;
      while i < idx
        invariant Valid() && size == n && val == old(val) && i <= idx
        invariant old(size) > 0 ==> diff == old(diff)
        invariant old(size) == 0 ==> fresh(diff)
        invariant forall k :: 0 <= k < i ==> diff[k] == 0.0
      {
        diff[i] := Ops.Zero();
        i := i + 1;
      }
      diff[i] := Ops.One();
      i := i + 1;
      while i < n
        invariant Valid() && size == n && val == old(val) && idx < i <= n
        invariant old(size) > 0 ==> diff == old(diff)
        invariant old(size) == 0 ==> fresh(diff)
        invariant forall k :: 0 <= k < i ==> diff[k] == if k == idx then 1.0 else 0.0
      {
        diff[i] := Ops.Zero();
        i := i + 1;
      }
      assert diff[..] == Rules.Unit(n, idx);
    }

    /** setDepend(val): a constant takes the width of y and a fresh array;
        a dependent variable must already have that width.  y may be a
        constant itself, and then the array has length zero. */
    method SetDepend(y: F)
      requires Valid() && y.Valid() && (size > 0 && y.size > 0 ==> size == y.size)
      modifies this
      ensures Valid() && val == old(val)
      ensures size == if old(size) == 0 then old(y.size) else old(size)
      ensures old(size) > 0 ==> diff == old(diff)
      ensures old(size) == 0 ==> fresh(diff)
    {
      if size == 0 {
        size := y.size;
        diff := new real[size];
      }
    }

    /** setDepend(val1, val2): both operands must be dependent and of one
        width. */
    method SetDepend2(a: F, b: F)
      requires Valid() && a.Valid() && b.Valid()
      requires a.size == b.size && a.size > 0 && (size > 0 ==> size == a.size)
      modifies this
      ensures Valid() && val == old(val) && size == old(a.size)
      ensures old(size) > 0 ==> diff == old(diff)
      ensures old(size) == 0 ==> fresh(diff)
    {
      if size == 0 {
        size := a.size;
        diff := new real[size];
      }
    }

    /** operator+=(const F&).  The loop runs over this variable's width and
        reads y[i], so a dependent target may not be wider than y; a
        narrower one keeps its width and ignores y's extra components. */
    method AddAssign(y: F)
      requires Valid() && y.Valid() && Separate(y)
      requires size > 0 && y.size > 0 ==> size <= y.size
      modifies this, diff
      ensures Valid() && val == old(val) + old(y.val)
      ensures Rules.Compatible(old(View()), old(y.View())) ==>
        View() == Rules.Add(old(View()), old(y.View()))
      ensures old(size) > 0 && old(y.size) > 0 ==>
        size == old(size) && diff == old(diff) &&
        forall k :: 0 <= k < size ==> diff[k] == old(diff[k]) + old(y.diff[k])
      ensures old(y.size) == 0 ==>
        size == old(size) && diff == old(diff) && (size > 0 ==> diff[..] == old(diff[..]))
      ensures old(size) == 0 && old(y.size) > 0 ==> fresh(diff)
    {
      ghost var xv, yv := val, y.val;
      ghost var xd := if size == 0 then [] else diff[..];
      ghost var yd := if y.size == 0 then [] else y.diff[..];
      val := val + y.val;
      if y.size == 0 {
        return;
      }
      if size > 0 {
        for i := 0 to size
          invariant Valid() && size == old(size) && diff == old(diff) && val == xv + yv
          invariant y.size == old(y.size) && y.diff == old(y.diff)
          invariant forall k :: 0 <= k < i ==> diff[k] == xd[k] + yd[k]
          invariant forall k :: i <= k < size ==> diff[k] == xd[k]
          invariant forall k :: i <= k < y.size ==> y.diff[k] == yd[k]
        {
          diff[i] := diff[i] + y.At(i);
        }
        if size == y.size {
          Forms.Add3(Rules.Dep(xv, xd), Rules.Dep(yv, yd), diff[..]);
        }
      } else {
        SetDepend(y);
        for i := 0 to size
          invariant Valid() && size == y.size && diff != y.diff && fresh(diff) && val == xv + yv
          invariant forall k :: 0 <= k < i ==> diff[k] == yd[k]
        {
          diff[i] := y.At(i);
        }
        Forms.Add1(xv, Rules.Dep(yv, yd), diff[..]);
      }
    }

    /** operator-=(const F&), with the same width rule as +=. */
    method SubAssign(y: F)
      requires Valid() && y.Valid() && Separate(y)
      requires size > 0 && y.size > 0 ==> size <= y.size
      modifies this, diff
      ensures Valid() && val == old(val) - old(y.val)
      ensures Rules.Compatible(old(View()), old(y.View())) ==>
        View() == Rules.Sub(old(View()), old(y.View()))
      ensures old(size) > 0 && old(y.size) > 0 ==>
        size == old(size) && diff == old(diff) &&
        forall k :: 0 <= k < size ==> diff[k] == old(diff[k]) - old(y.diff[k])
      ensures old(y.size) == 0 ==>
        size == old(size) && diff == old(diff) && (size > 0 ==> diff[..] == old(diff[..]))
      ensures old(size) == 0 && old(y.size) > 0 ==> fresh(diff)
    {
      ghost var xv, yv := val, y.val;
      ghost var xd := if size == 0 then [] else diff[..];
      ghost var yd := if y.size == 0 then [] else y.diff[..];
      val := val - y.val;
      if y.size == 0 {
        return;
      }
      if size > 0 {
        for i := 0 to size
          invariant Valid() && size == old(size) && diff == old(diff) && val == xv - yv
          invariant y.size == old(y.size) && y.diff == old(y.diff)
          invariant forall k :: 0 <= k < i ==> diff[k] == xd[k] - yd[k]
          invariant forall k :: i <= k < size ==> diff[k] == xd[k]
          invariant forall k :: i <= k < y.size ==> y.diff[k] == yd[k]
        {
          diff[i] := diff[i] - y.At(i);
        }
        if size == y.size {
          Forms.Sub3(Rules.Dep(xv, xd), Rules.Dep(yv, yd), diff[..]);
        }
      } else {
        SetDepend(y);
        for i := 0 to size
          invariant Valid() && size == y.size && diff != y.diff && fresh(diff) && val == xv - yv
          invariant forall k :: 0 <= k < i ==> diff[k] == -yd[k]
        {
          diff[i] := -y.At(i);
        }
        Forms.Sub1(xv, Rules.Dep(yv, yd), diff[..]);
      }
    }

    /** operator*=(const F&), dispatching as the source does.  The
        both-dependent loop reads y's array at this variable's indices with
        no check, so a dependent target may not be wider than y.  Unlike the
        stack variant, two constants give a constant: setDepend then copies
        width zero. */
    method MulAssign(y: F)
      requires Valid() && y.Valid() && Separate(y)
      requires size > 0 && y.size > 0 ==> size <= y.size
      modifies this, diff
      ensures Valid() && val == old(val) * old(y.val)
      ensures Rules.Compatible(old(View()), old(y.View())) ==>
        View() == Rules.Mul(old(View()), old(y.View()))
      ensures old(size) > 0 && old(y.size) > 0 ==>
        size == old(size) && diff == old(diff) &&
        forall k :: 0 <= k < size ==> diff[k] == old(diff[k]) * old(y.val) + old(y.diff[k]) * old(val)
      ensures old(size) > 0 ==> size == old(size) && diff == old(diff)
      ensures old(size) == 0 ==> fresh(diff)
    {
      if size > 0 && y.size > 0 {
        ghost var xv, yv, xd, yd := val, y.val, diff[..], y.diff[..];
        MulAssignBoth(y);
        if size == |yd| {
          MulBothForm(diff, val, xv, xd, yv, yd);
        }
      } else if size > 0 {
        MulAssignLeft(y);
      } else {
        MulAssignRight(y);
      }
    }

    /** The branch of *= for two dependent operands; y may be this object,
        in which case each component is read before it is written. */
    method MulAssignBoth(y: F)
      requires Valid() && y.Valid() && Separate(y) && size > 0 && y.size > 0 && size <= y.size
      modifies this, diff
      ensures Valid() && size == old(size) && diff == old(diff) && val == old(val) * old(y.val)
      ensures forall k :: 0 <= k < size ==> diff[k] == old(diff[k]) * old(y.val) + old(y.diff[k]) * old(val)
    {
      ghost var xv, yv, xd, yd := val, y.val, diff[..], y.diff[..];
      for i := 0 to size
        invariant Valid() && size == old(size) && diff == old(diff) && val == xv && y.val == yv
        invariant y.size == old(y.size) && y.diff == old(y.diff)
        invariant forall k :: 0 <= k < i ==> diff[k] == xd[k] * yv + yd[k] * xv
        invariant forall k :: i <= k < size ==> diff[k] == xd[k]
        invariant forall k :: i <= k < y.size ==> y.diff[k] == yd[k]
      {
        diff[i] := diff[i] * y.val + y.diff[i] * val;
      }
      val := val * y.val;
    }

    /** The branch of *= for a dependent target and a constant y. */
    method MulAssignLeft(y: F)
      requires Valid() && y.Valid() && size > 0 && y.size == 0
      modifies this, diff
      ensures Valid() && size == old(size) && diff == old(diff) && val == old(val) * old(y.val)
      ensures View() == Rules.Mul(old(View()), old(y.View()))
    {
      ghost var xv, xd := val, diff[..];
      for i := 0 to size
        invariant Valid() && size == old(size) && diff == old(diff) && val == xv
        invariant forall k :: 0 <= k < i ==> diff[k] == xd[k] * y.val
        invariant forall k :: i <= k < size ==> diff[k] == xd[k]
      {
        diff[i] := diff[i] * y.val;
      }
      val := val * y.val;
      Forms.Mul2(Rules.Dep(xv, xd), y.val, diff[..]);
    }

    /** The last branch of *=, taken for a constant target: it takes y's
        width (zero when y is constant too) and y's derivatives scaled. */
    method MulAssignRight(y: F)
      requires Valid() && y.Valid() && size == 0
      modifies this, diff
      ensures Valid() && val == old(val) * old(y.val) && fresh(diff)
      ensures View() == Rules.Mul(old(View()), old(y.View()))
    {
      ghost var xv, yv := val, y.val;
      ghost var yd := if y.size == 0 then [] else y.diff[..];
      SetDepend(y);
      for i := 0 to size
        invariant Valid() && size == y.size && fresh(diff) && val == xv && y.val == yv
        invariant y.size > 0 ==> diff != y.diff
        invariant forall k :: 0 <= k < i ==> diff[k] == yd[k] * xv
      {
        diff[i] := y.diff[i] * val;
      }
      val := val * y.val;
      if size > 0 {
        Forms.Mul1(xv, Rules.Dep(yv, yd), diff[..]);
      }
    }

    /** operator/=(const F&).  The value is divided first, so on x /= x the
        loop sees the quotient 1 as the divisor too (and still yields the
        quotient rule's zero derivative). */
    method DivAssign(y: F)
      requires Valid() && y.Valid() && Separate(y) && y.val != 0.0
      requires size > 0 && y.size > 0 ==> size <= y.size
      modifies this, diff
      ensures Valid() && val == old(val) / old(y.val)
      ensures Rules.Compatible(old(View()), old(y.View())) ==>
        View() == Rules.Div(old(View()), old(y.View()))
      ensures old(size) > 0 && old(y.size) > 0 && this != y ==>
        size == old(size) && diff == old(diff) &&
        forall k :: 0 <= k < size ==> diff[k] == Forms.DivStep(old(diff[k]), val, old(y.diff[k]), old(y.val))
      ensures old(size) > 0 ==> size == old(size) && diff == old(diff)
      ensures old(size) == 0 ==> fresh(diff)
    {
      if size > 0 && y.size > 0 {
        ghost var xv, xd := val, diff[..];
        if this == y {
          DivAssignSelf();
          DivSelfForm(diff, val, xv, xd);
        } else {
          DivAssignBoth(y);
          if size == y.size {
            DivBothForm(diff, val, xv, xd, y.val, y.diff[..]);
          }
        }
      } else if size > 0 {
        DivAssignLeft(y);
      } else {
        ghost var xv, yv := val, y.val;
        ghost var yd := if y.size == 0 then [] else y.diff[..];
        DivAssignRight(y);
        if y.size > 0 {
          DivRightForm(diff, val, xv, yv, yd);
        }
      }
    }

    /** The branch of /= for two distinct dependent operands. */
    method DivAssignBoth(y: F)
      requires Valid() && y.Valid() && Separate(y) && this != y
      requires size > 0 && y.size > 0 && size <= y.size && y.val != 0.0
      modifies this, diff
      ensures Valid() && size == old(size) && diff == old(diff) && val == old(val) / y.val
      ensures forall k :: 0 <= k < size ==> diff[k] == Forms.DivStep(old(diff[k]), val, y.diff[k], y.val)
    {
      ghost var xd, yd := diff[..], y.diff[..];
      val := val / y.val;
      ghost var q, b := val, y.val;
      for i := 0 to size
        invariant Valid() && size == old(size) && diff == old(diff) && val == q && y.val == b
        invariant forall k :: 0 <= k < y.size ==> y.diff[k] == yd[k]
        invariant forall k :: 0 <= k < i ==> diff[k] == Forms.DivStep(xd[k], q, yd[k], b)
        invariant forall k :: i <= k < size ==> diff[k] == xd[k]
      {
        diff[i] := Forms.DivStep(diff[i], val, y.diff[i], y.val);
      }
    }

    /** The same branch on x /= x: the value is already 1 when the loop
        reads it as the divisor. */
    method DivAssignSelf()
      requires Valid() && size > 0 && val != 0.0
      modifies this, diff
      ensures Valid() && size == old(size) && diff == old(diff) && val == old(val) / old(val)
      ensures forall k :: 0 <= k < size ==> diff[k] == Forms.DivStep(old(diff[k]), val, old(diff[k]), val)
    {
      ghost var xd := diff[..];
      val := val / val;
      ghost var q := val;
      for i := 0 to size
        invariant Valid() && size == old(size) && diff == old(diff) && val == q
        invariant forall k :: 0 <= k < i ==> diff[k] == Forms.DivStep(xd[k], q, xd[k], q)
        invariant forall k :: i <= k < size ==> diff[k] == xd[k]
      {
        diff[i] := Forms.DivStep(diff[i], val, diff[i], val);
      }
    }

    /** The branch of /= for a dependent target and a constant y. */
    method DivAssignLeft(y: F)
      requires Valid() && y.Valid() && size > 0 && y.size == 0 && y.val != 0.0
      modifies this, diff
      ensures Valid() && size == old(size) && diff == old(diff) && val == old(val) / old(y.val)
      ensures View() == Rules.Div(old(View()), old(y.View()))
    {
      ghost var xv, xd := val, diff[..];
      val := val / y.val;
      for i := 0 to size
        invariant Valid() && size == old(size) && diff == old(diff) && val == xv / y.val
        invariant forall k :: 0 <= k < i ==> diff[k] == xd[k] / y.val
        invariant forall k :: i <= k < size ==> diff[k] == xd[k]
      {
        diff[i] := diff[i] / y.val;
      }
      Forms.Div2(Rules.Dep(xv, xd), y.val, diff[..]);
    }

    /** The last branch of /=, taken for a constant target. */
    method DivAssignRight(y: F)
      requires Valid() && y.Valid() && size == 0 && y.val != 0.0
      modifies this, diff
      ensures Valid() && val == old(val) / old(y.val) && size == old(y.size) && fresh(diff)
      ensures size == 0 ==> View() == Rules.Div(old(View()), old(y.View()))
      ensures size > 0 ==>
        y.diff == old(y.diff) && y.val == old(y.val) &&
        forall k :: 0 <= k < size ==> diff[k] == Forms.NegDivStep(val, old(y.diff[k]), old(y.val))
    {
      val := val / y.val;
      SetDepend(y);
      if size == 0 {
        return;
      }
      ghost var yd := y.diff[..];
      for i := 0 to size
        invariant Valid() && size == y.size && fresh(diff) && diff != y.diff
        invariant val == old(val) / old(y.val) && y.val == old(y.val) && y.diff == old(y.diff)
        invariant forall k :: 0 <= k < y.size ==> y.diff[k] == yd[k]
        invariant forall k :: 0 <= k < i ==> diff[k] == Forms.NegDivStep(val, yd[k], y.val)
      {
        diff[i] := Forms.NegDivStep(val, y.diff[i], y.val);
      }
    }

    /** operator+=(const V&): only the value moves. */
    method AddValue(v: real)
      requires Valid()
      modifies this
      ensures Valid() && val == old(val) + v && size == old(size) && diff == old(diff)
      ensures View() == Rules.Add(old(View()), Rules.Const(v))
    {
      ghost var X := View();
      val := val + v;
      if size > 0 {
        Forms.Add2(X, v, diff[..]);
      }
    }

    /** operator-=(const V&): only the value moves. */
    method SubValue(v: real)
      requires Valid()
      modifies this
      ensures Valid() && val == old(val) - v && size == old(size) && diff == old(diff)
      ensures View() == Rules.Sub(old(View()), Rules.Const(v))
    {
      ghost var X := View();
      val := val - v;
      if size > 0 {
        Forms.Sub2(X, v, diff[..]);
      }
    }

    /** operator*=(const V&): the value and every derivative are scaled. */
    method MulValue(v: real)
      requires Valid()
      modifies this, diff
      ensures Valid() && size == old(size) && diff == old(diff)
      ensures View() == Rules.Mul(old(View()), Rules.Const(v))
    {
      ghost var xv := val;
      ghost var xd := if size == 0 then [] else diff[..];
      val := val * v;
      if size == 0 {
        return;
      }
      for i := 0 to size
        invariant Valid() && size == old(size) && diff == old(diff) && val == xv * v
        invariant forall k :: 0 <= k < i ==> diff[k] == xd[k] * v
        invariant forall k :: i <= k < size ==> diff[k] == xd[k]
      {
        diff[i] := diff[i] * v;
      }
      Forms.Mul2(Rules.Dep(xv, xd), v, diff[..]);
    }

    /** operator/=(const V&): the value and every derivative are divided. */
    method DivValue(v: real)
      requires Valid() && v != 0.0
      modifies this, diff
      ensures Valid() && size == old(size) && diff == old(diff)
      ensures View() == Rules.Div(old(View()), Rules.Const(v))
    {
      ghost var xv := val;
      ghost var xd := if size == 0 then [] else diff[..];
      val := val / v;
      if size == 0 {
        return;
      }
      for i := 0 to size
        invariant Valid() && size == old(size) && diff == old(diff) && val == xv / v
        invariant forall k :: 0 <= k < i ==> diff[k] == xd[k] / v
        invariant forall k :: i <= k < size ==> diff[k] == xd[k]
      {
        diff[i] := diff[i] / v;
      }
      Forms.Div2(Rules.Dep(xv, xd), v, diff[..]);
    }
  }

  // The comparisons look at the values only.

  /** ==, !=, <, <=, >, >= between two variables */
  predicate Compare(rel: Ops.Relation, a: F, b: F)
    reads a, b
    ensures Compare(rel, a, b) <==> Ops.Holds(Ops.Converse(rel), b.val, a.val)
  {
    Ops.Holds(rel, a.val, b.val)
  }

  /** the six relations with a plain value on the right */
  predicate CompareValue(rel: Ops.Relation, a: F, u: real)
    reads a
    ensures CompareValue(rel, a, u) <==> Ops.Holds(Ops.Converse(rel), u, a.val)
  {
    Ops.Holds(rel, a.val, u)
  }

  /** the six relations with a plain value on the left */
  predicate CompareValueLeft(rel: Ops.Relation, u: real, b: F)
    reads b
    ensures CompareValueLeft(rel, u, b) <==> Ops.Holds(Ops.Converse(rel), b.val, u)
  {
    Ops.Holds(rel, u, b.val)
  }

  /** A comparison is decided by the values of what the variables stand for,
      and comparing with a variable is comparing with its value. */
  lemma CompareIgnoresDerivatives(rel: Ops.Relation, a: F, b: F)
    requires a.Valid() && b.Valid()
    ensures Compare(rel, a, b) == Ops.Holds(rel, a.View().v, b.View().v)
    ensures Compare(rel, a, b) == CompareValue(rel, a, b.val) == CompareValueLeft(rel, a.val, b)
  {
  }

  // Bridges from the loops' componentwise results to the reference rules.

  lemma MulBothForm(a: array<real>, v: real, xv: real, xd: seq<real>, yv: real, yd: seq<real>)
    requires a.Length == |xd| == |yd| && v == xv * yv
    requires forall k :: 0 <= k < a.Length ==> a[k] == xd[k] * yv + yd[k] * xv
    ensures Rules.Dep(v, a[..]) == Rules.Mul(Rules.Dep(xv, xd), Rules.Dep(yv, yd))
  {
    Forms.Mul3(Rules.Dep(xv, xd), Rules.Dep(yv, yd), a[..]);
  }

  lemma DivBothForm(a: array<real>, q: real, xv: real, xd: seq<real>, yv: real, yd: seq<real>)
    requires a.Length == |xd| == |yd| && yv != 0.0 && q == xv / yv
    requires forall k :: 0 <= k < a.Length ==> a[k] == Forms.DivStep(xd[k], q, yd[k], yv)
    ensures Rules.Dep(q, a[..]) == Rules.Div(Rules.Dep(xv, xd), Rules.Dep(yv, yd))
  {
    Forms.Div3(Rules.Dep(xv, xd), Rules.Dep(yv, yd), q, a[..]);
  }

  /** x /= x: the loop divides by the already updated value 1. */
  lemma DivSelfForm(a: array<real>, q: real, xv: real, xd: seq<real>)
    requires a.Length == |xd| && xv != 0.0 && q == xv / xv
    requires forall k :: 0 <= k < a.Length ==> a[k] == Forms.DivStep(xd[k], q, xd[k], q)
    ensures Rules.Dep(q, a[..]) == Rules.Div(Rules.Dep(xv, xd), Rules.Dep(xv, xd))
  {
    Forms.DivSelf(Rules.Dep(xv, xd), q, a[..]);
  }

  lemma DivRightForm(a: array<real>, q: real, xv: real, yv: real, yd: seq<real>)
    requires a.Length == |yd| && yv != 0.0 && q == xv / yv
    requires forall k :: 0 <= k < a.Length ==> a[k] == Forms.NegDivStep(q, yd[k], yv)
    ensures Rules.Dep(q, a[..]) == Rules.Div(Rules.Const(xv), Rules.Dep(yv, yd))
  {
    forall k | 0 <= k < a.Length
      ensures a[k] == -((xv / yv) / yv) * yd[k]
    {
      Forms.NegQuotient(q, xv, yd[k], yv);
    }
    Forms.Div1(xv, Rules.Dep(yv, yd), a[..]);
  }
}
