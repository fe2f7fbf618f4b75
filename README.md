# Forward-mode automatic differentiation variable (FADBAD++ `fadiff.h`), modelled in Dafny

`include/fadiff.h` defines `F<T,N>`, also spelled `FTypeName<T,N>`: a number that carries its value
together with its derivatives with respect to `N` seeded inputs. It comes in two realisations:

- the **stack** variant `F<T,N>`, with `N > 0` fixed at compile time. It holds a value, an inline
  array of `N` derivatives and a `depend` flag;
- the **heap** variant `F<T,0>`. It holds a value, a width `m_size` and a derivative array that is
  allocated when the variable first depends on something. It is dependent exactly when its width is
  non-zero.

Every arithmetic operator and elementary function does two things. It computes the value through
the base-type seam `Op<T>`. It propagates the derivatives by the chain rule, but only through the
operands that are dependent: a constant operand contributes no derivative work.

The model has these modules:

- **`Ops`** (`ops.dfy`) is the `Op<T>` seam.
  - `T` is `real`.
  - The elementary functions of the base type (`myPow`, `mySqrt`, `myLog`, `myExp`, `mySin`,
    `myCos`, `myTan`, `myAsin`, `myAcos`, `myAtan`) are the fields of a record `Op`. The caller
    supplies the record, so nothing is assumed about them.
  - The six comparison relations make up a `Relation` datatype.
- **`Rules`** (`rules.dfy`) is the reference meaning of a variable.
  - It is a `Dual`: either `Const(v)` or `Dep(v, d)`.
  - Each operation's reference derivative is the chain rule, written through its partial
    derivatives. `Lin` is the two-operand chain rule and `Chain` the one-operand one. A constant
    operand stands for a zero tangent. `Lin`'s result is dependent exactly when an operand is,
    and takes that operand's width.
  - Both realisations are proved against these functions.
- **`Forms`** (`forms.dfy`) holds the closed forms the source evaluates. There is one per helper
  and dependency case: `add1`/`add2`/`add3`, …, `pow3`, the unary functions, and the division forms
  that divide through the already computed quotient. Each is proved equal to the chain rule of
  `Rules`.
- **`Laws`** (`laws.dfy`) holds algebraic identities of the reference rules that users of the
  library rely on: `sqr(x)` is `x*x`, `x - x` vanishes, `+` and `*` commute, `-(-x)` is `x`, and
  `x / x` is one with zero derivatives.
- **`FStack`** and **`FStackArith`** (`fstack.dfy`, `fstack_arith.dfy`) model the stack variant.
  - It is a value datatype with `val`, `diff` (of length `N`) and `depend`.
  - The members that update `*this` become methods returning the updated variable.
  - Every loop of the source is a `for` loop with its invariants.
  - Each operation ensures that the result's `View()` is the reference rule applied to the
    operands' views.
- **`FHeap`** and **`FHeapArith`** (`fheap.dfy`, `fheap_arith.dfy`) model the heap variant.
  - It is a `class` with `val`, `size` and `diff: array?<real>`.
  - The compound assignments update the object, including the aliased case `x op= x`. A dependent
    target keeps its array. A constant target takes a fresh one from `setDepend`.
  - The free operators allocate a fresh result.

Every free operator and elementary function, in both realisations, is proved to agree with the
same reference rule. The compound assignments agree with it too, with three exceptions:

- the stack `*=` and `/=` make the result dependent when both operands are constant (see
  Findings);
- assigning a constant to a dependent heap variable zeroes its derivatives but keeps its width
  (`include/fadiff.h:180-184`). The result still has `depend()` and `size()` n, where the stack
  variant copies the flag and becomes a constant (`include/fadiff.h:66-67`). `FHeap.F.Assign`
  states this state exactly; it is not a reference rule of the source;
- the heap `+=`, `-=`, `*=` and `/=` with a dependent target narrower than a dependent `y` keep the
  target's width. They are stated componentwise only (see Left out).

## Model

| member | source | states |
|---|---|---|
| Forms.Add1 | include/fadiff.h:660-669 | copying b's derivatives into a + b is the sum rule with a constant left operand |
| Forms.Add2 | include/fadiff.h:711-720 | copying a's derivatives into a + b is the sum rule with a constant right operand |
| Forms.Add3 | include/fadiff.h:781-788 | componentwise sums are the sum rule for two dependent operands |
| Forms.Sub1 | include/fadiff.h:852-861 | negated derivatives of b are the difference rule with a constant left operand |
| Forms.Sub2 | include/fadiff.h:902-911 | copied derivatives of a are the difference rule with a constant right operand |
| Forms.Sub3 | include/fadiff.h:972-979 | componentwise differences are the difference rule |
| Forms.Mul1 | include/fadiff.h:1035-1044 | db times a is the product rule with a constant left operand |
| Forms.Mul2 | include/fadiff.h:1087-1096 | da times b is the product rule with a constant right operand |
| Forms.Mul3 | include/fadiff.h:1151-1160 | da b + db a is the product rule |
| Forms.Div1 | include/fadiff.h:1227-1237 | -(c / b) db, with c the quotient, is the quotient rule with a constant numerator |
| Forms.Div2 | include/fadiff.h:1286-1295 | da / b is the quotient rule with a constant divisor |
| Forms.Div3 | include/fadiff.h:1350-1359 | (da - c db) / b, with c the quotient, is the quotient rule |
| Forms.DivSelf | include/fadiff.h:495-515 | on x /= x the loop sees the quotient 1 as both value and divisor, and its result is still the quotient rule for x / x |
| Forms.NegQuotient | include/fadiff.h:380-385 | the compound division's -(c db / b) equals div1's -(c / b) db |
| Forms.Pow1 | include/fadiff.h:1426-1436 | a^b ln(a) db is the power rule with a constant base |
| Forms.Pow2 | include/fadiff.h:1484-1494 | b a^(b-1) da is the power rule with a constant exponent |
| Forms.Pow3 | include/fadiff.h:1558-1567 | b a^(b-1) da + a^b ln(a) db is the power rule |
| Forms.Pos | include/fadiff.h:1659-1668 | copied derivatives are the chain rule of unary plus |
| Forms.Neg | include/fadiff.h:1683-1692 | negated derivatives are the chain rule of unary minus |
| Forms.Sqr | include/fadiff.h:1733-1743 | da times 2a is the chain rule of sqr |
| Forms.Exp | include/fadiff.h:1789-1799 | da times exp(a), taken from the result, is the chain rule of exp |
| Forms.Log | include/fadiff.h:1843-1853 | da / a is the chain rule of log |
| Forms.Sqrt | include/fadiff.h:1897-1907 | da / (2 sqrt(a)), from the result, is the chain rule of sqrt |
| Forms.Sin | include/fadiff.h:1953-1963 | da cos(a) is the chain rule of sin |
| Forms.Cos | include/fadiff.h:2009-2019 | -da sin(a) is the chain rule of cos |
| Forms.Tan | include/fadiff.h:2067-2077 | da (1 + tan(a)^2), from the result, is the chain rule of tan |
| Forms.Asin | include/fadiff.h:2125-2135 | da / sqrt(1 - a^2) is the chain rule of asin |
| Forms.Acos | include/fadiff.h:2188-2198 | -da / sqrt(1 - a^2) is the chain rule of acos |
| Forms.Atan | include/fadiff.h:2252-2262 | da / (1 + a^2) is the chain rule of atan |
| Laws.PosIsIdentity | include/fadiff.h:1659-1668 | unary plus returns its operand, derivatives included |
| Laws.NegNeg | include/fadiff.h:1683-1692 | negating twice gives the operand back |
| Laws.AddCommutes | include/fadiff.h:833-845 | operator+ on variables is commutative, derivatives included |
| Laws.MulCommutes | include/fadiff.h:1209-1221 | operator* on variables is commutative, derivatives included |
| Laws.MulSelfIsSqr | include/fadiff.h:1733-1743 | sqr(a) computes exactly what a * a computes |
| Laws.SubSelfVanishes | include/fadiff.h:1016-1029 | a - a is zero with zero derivatives at a's width, and a constant for a constant |
| Laws.DivSelfIsOne | include/fadiff.h:1408-1420 | a / a, for a non-zero a, is one with zero derivatives at a's width |
| Laws.AddConstKeepsDerivatives | include/fadiff.h:711-720 | adding a constant moves only the value and keeps every derivative and the dependency |
| FStack.F.Size | include/fadiff.h:72 | size() is N when dependent and 0 when constant, i.e. the width of what the variable stands for |
| FStack.F.At | include/fadiff.h:73-77 | operator[] needs i < N and a dependent variable, and returns derivative i |
| FStack.F.Deriv | include/fadiff.h:85-102 | deriv(i) and d(i) need i < N and return derivative i, or zero for a constant |
| FStack.F.Put | include/fadiff.h:78-82 | writing through operator[] changes component i only and keeps the value and the flag |
| FStack.F.SetDepend | include/fadiff.h:117-118 | both setDepend overloads raise the flag only: the width becomes N and the storage is untouched |
| FStack.Constant | include/fadiff.h:53 | constructing from a plain value gives a constant of that value |
| FStack.AssignValue | include/fadiff.h:54-60 | assigning a plain value gives a constant of that value and leaves the storage |
| FStack.Assign | include/fadiff.h:61-71 | assignment (like the copy constructor at 47-52) makes the target stand for the source; on a constant source the storage is not copied |
| FStack.Diff | include/fadiff.h:104-115 | diff(idx) seeds unit vector idx: derivative idx is one, all others zero, and the variable becomes dependent with its value kept |
| FStack.AddAssign | include/fadiff.h:304-321 | += gives the sum rule of the two operands; with a constant right operand the derivatives and the flag are untouched |
| FStack.SubAssign | include/fadiff.h:324-341 | -= gives the difference rule; with a constant right operand the derivatives and the flag are untouched |
| FStack.MulAssign | include/fadiff.h:344-364 | *= as written: the product rule whenever an operand is dependent; for two constants a dependent result holding y's storage times x |
| FStack.MulAssignBoth | include/fadiff.h:346-350 | the both-dependent branch (loop, then value) is the product rule |
| FStack.MulAssignLeft | include/fadiff.h:351-355 | the dependent-target branch scales by y's value and is the product rule |
| FStack.MulAssignRight | include/fadiff.h:356-362 | the last branch always marks the result dependent with y's storage times x; it is the product rule when y is dependent |
| FStack.MulAssignIntended | include/fadiff.h:344-364 | *= with the last branch guarded by y's dependency is the product rule in every case |
| FStack.MulAssignConstantsDiffer | include/fadiff.h:356-361 | what MulAssign gives two constants has size N > 0, where the product of two constants has width 0, so it is not the product rule |
| FStack.DivAssign | include/fadiff.h:367-387 | /= as written: the quotient rule whenever an operand is dependent; for two constants a dependent result made of y's storage |
| FStack.DivAssignBoth | include/fadiff.h:370-374 | the both-dependent branch, evaluated through the new value, is the quotient rule |
| FStack.DivAssignLeft | include/fadiff.h:375-379 | the dependent-target branch divides by y's value and is the quotient rule |
| FStack.DivAssignRight | include/fadiff.h:380-385 | the last branch always marks the result dependent with -(q dy / y); it is the quotient rule when y is dependent |
| FStack.DivAssignIntended | include/fadiff.h:367-387 | /= with the last branch guarded by y's dependency is the quotient rule in every case |
| FStack.DivAssignConstantsDiffer | include/fadiff.h:380-385 | what DivAssign gives two constants has size N > 0, so it is not the quotient rule |
| FStack.AddValue | include/fadiff.h:394-398 | += with a plain value is the sum rule with a constant, moving only the value |
| FStack.SubValue | include/fadiff.h:401-405 | -= with a plain value is the difference rule with a constant, moving only the value |
| FStack.MulValue | include/fadiff.h:409-417 | *= with a plain value scales the value and, when dependent, every derivative (the product rule with a constant) |
| FStack.DivValue | include/fadiff.h:421-429 | /= with a non-zero plain value is the quotient rule with a constant divisor |
| FStack.DivSelfForm | include/fadiff.h:369-373 | on x /= x the value is divided first, so the loop computes (d - 1 d) / 1; that is the quotient rule for x / x and the same as the unaliased (d - 1 d) / x |
| FStack.Compare | include/fadiff.h:563-592 | the six relations between two variables are decided by the values they stand for, and a op b holds exactly when b op' a holds for the converse relation |
| FStack.CompareValue | include/fadiff.h:594-653 | the six relations with a plain value on the right compare the variable's value, and agree with the converse relation with the operands swapped |
| FStack.CompareValueLeft | include/fadiff.h:594-653 | the six relations with a plain value on the left compare against the variable's value, and agree with the converse relation with the operands swapped |
| FStack.CompareIgnoresDerivatives | include/fadiff.h:563-653 | all six relations, variable/variable and variable/value, are decided by the values alone; variables with equal values compare alike whatever their derivatives |
| FStackArith.Add1 | include/fadiff.h:660-669 | add1(a, b) is the sum rule with constant a; it is constant exactly when b is |
| FStackArith.Add2 | include/fadiff.h:711-720 | add2(a, b) is the sum rule with constant b |
| FStackArith.Add3 | include/fadiff.h:781-788 | add3 on two dependent operands is the sum rule |
| FStackArith.Add | include/fadiff.h:833-845 | operator+ dispatches on the two flags and is the sum rule in all four cases |
| FStackArith.Sub1 | include/fadiff.h:852-861 | sub1 is the difference rule with constant a |
| FStackArith.Sub2 | include/fadiff.h:902-911 | sub2 is the difference rule with constant b |
| FStackArith.Sub3 | include/fadiff.h:972-979 | sub3 is the difference rule |
| FStackArith.Sub | include/fadiff.h:1016-1029 | operator- is the difference rule in all four cases |
| FStackArith.Mul1 | include/fadiff.h:1035-1044 | mul1 is the product rule with constant a |
| FStackArith.Mul2 | include/fadiff.h:1087-1096 | mul2 is the product rule with constant b |
| FStackArith.Mul3 | include/fadiff.h:1151-1160 | mul3 is the product rule |
| FStackArith.Mul | include/fadiff.h:1209-1221 | operator* is the product rule in all four cases |
| FStackArith.Div1 | include/fadiff.h:1227-1237 | div1, through the quotient, is the quotient rule with constant numerator |
| FStackArith.Div2 | include/fadiff.h:1286-1295 | div2 is the quotient rule with a constant divisor |
| FStackArith.Div3 | include/fadiff.h:1350-1359 | div3, through the quotient, is the quotient rule |
| FStackArith.Div | include/fadiff.h:1408-1420 | operator/ with a non-zero divisor is the quotient rule in all four cases |
| FStackArith.Pow1 | include/fadiff.h:1426-1436 | pow1 is the power rule with a constant base |
| FStackArith.Pow2 | include/fadiff.h:1484-1494 | pow2 is the power rule with a constant exponent |
| FStackArith.Pow3 | include/fadiff.h:1558-1567 | pow3 is the power rule in both operands |
| FStackArith.Pow | include/fadiff.h:1626-1638 | pow(F, F) is the power rule in all four cases |
| FStackArith.Plus | include/fadiff.h:1659-1668 | unary plus is the chain rule with factor one |
| FStackArith.Minus | include/fadiff.h:1683-1692 | unary minus is the chain rule with factor minus one |
| FStackArith.Sqr | include/fadiff.h:1733-1743 | sqr is the chain rule with factor 2a |
| FStackArith.Exp | include/fadiff.h:1789-1799 | exp is the chain rule with factor exp(a) |
| FStackArith.Log | include/fadiff.h:1843-1853 | log of a dependent non-zero operand is the chain rule with factor 1/a |
| FStackArith.Sqrt | include/fadiff.h:1897-1907 | sqrt is the chain rule with factor 1/(2 sqrt(a)) |
| FStackArith.Sin | include/fadiff.h:1953-1963 | sin is the chain rule with factor cos(a) |
| FStackArith.Cos | include/fadiff.h:2009-2019 | cos is the chain rule with factor -sin(a) |
| FStackArith.Tan | include/fadiff.h:2067-2077 | tan is the chain rule with factor 1 + tan(a)^2 |
| FStackArith.Asin | include/fadiff.h:2125-2135 | asin is the chain rule with factor 1/sqrt(1 - a^2) |
| FStackArith.Acos | include/fadiff.h:2188-2198 | acos is the chain rule with factor -1/sqrt(1 - a^2) |
| FStackArith.Atan | include/fadiff.h:2252-2262 | atan is the chain rule with factor 1/(1 + a^2) |
| FHeap.F.constructor | include/fadiff.h:143 | the default constructor gives the constant 0 with no array |
| FHeap.F.FromValue | include/fadiff.h:150 | constructing from a plain value gives a constant with no array |
| FHeap.F.Copy | include/fadiff.h:144-149 | the copy constructor gives a variable standing for the source, in an array of its own |
| FHeap.F.AssignValue | include/fadiff.h:155-162 | assigning a plain value gives a constant and releases the array |
| FHeap.F.Assign | include/fadiff.h:163-186 | assignment copies a dependent source, into a fresh array when the target had none and into its own array otherwise; a constant source zeroes a dependent target's derivatives and keeps its width |
| FHeap.F.Size | include/fadiff.h:189 | size() is the width of what the variable stands for |
| FHeap.F.Depend | include/fadiff.h:253 | depend() holds exactly when the width is non-zero, i.e. the variable is dependent |
| FHeap.F.At | include/fadiff.h:192-196 | operator[] needs i below the width and returns derivative i |
| FHeap.F.Deriv | include/fadiff.h:211-227 | deriv(i) and d(i) return derivative i, or zero at or beyond the width |
| FHeap.F.Put | include/fadiff.h:198-202 | writing through operator[] changes component i only |
| FHeap.F.Diff | include/fadiff.h:230-249 | diff(idx, N) seeds unit vector idx of width N with the value kept, into a fresh array when the variable had none and into its own array otherwise |
| FHeap.F.SetDepend | include/fadiff.h:254-267 | a constant takes y's width and a fresh array; a dependent variable keeps its array |
| FHeap.F.SetDepend2 | include/fadiff.h:268-284 | with two dependent operands of one width, a constant takes that width and a fresh array |
| FHeap.F.AddAssign | include/fadiff.h:435-452 | += gives the sum rule of the two old operands, x += x included; a dependent target is updated in its own array, a constant target takes a fresh array from setDepend; with a constant y the derivatives are untouched |
| FHeap.F.SubAssign | include/fadiff.h:454-471 | -= gives the difference rule, x -= x included; a dependent target keeps its array, a constant target with a dependent y takes a fresh one; with a constant y the derivatives are untouched |
| FHeap.F.MulAssign | include/fadiff.h:473-493 | *= gives the product rule of the two old operands, x *= x included; a dependent target keeps its width and array, a constant target gets a fresh array from setDepend; two constants stay constant |
| FHeap.F.MulAssignBoth | include/fadiff.h:475-479 | the both-dependent loop writes dx y + dy x componentwise into the target's own array, aliasing allowed |
| FHeap.F.MulAssignLeft | include/fadiff.h:480-484 | the dependent-target branch scales by y's value and is the product rule |
| FHeap.F.MulAssignRight | include/fadiff.h:485-490 | the constant-target branch takes y's width in a fresh array and is the product rule |
| FHeap.F.DivAssign | include/fadiff.h:495-515 | /= gives the quotient rule of the two old operands, x /= x included; a dependent target keeps its width and array, a constant target gets a fresh array from setDepend |
| FHeap.F.DivAssignBoth | include/fadiff.h:499-503 | the both-dependent loop writes (dx - q dy) / y with the new value q |
| FHeap.F.DivAssignSelf | include/fadiff.h:499-503 | the same loop on x /= x divides by the already updated value |
| FHeap.F.DivAssignLeft | include/fadiff.h:504-508 | the dependent-target branch divides by y's value and is the quotient rule |
| FHeap.F.DivAssignRight | include/fadiff.h:509-514 | the constant-target branch takes y's width in a fresh array and writes -(q dy / y), the quotient rule |
| FHeap.F.AddValue | include/fadiff.h:522-526 | += with a plain value is the sum rule with a constant and leaves the array |
| FHeap.F.SubValue | include/fadiff.h:529-533 | -= with a plain value is the difference rule with a constant |
| FHeap.F.MulValue | include/fadiff.h:536-544 | *= with a plain value is the product rule with a constant, in place |
| FHeap.F.DivValue | include/fadiff.h:547-555 | /= with a non-zero plain value is the quotient rule with a constant, in place |
| FHeap.Compare | include/fadiff.h:563-592 | the six relations between two heap variables compare their values; a op b holds exactly when b op' a holds for the converse relation |
| FHeap.CompareValue | include/fadiff.h:594-653 | a heap variable against a plain value on the right, the same as the converse relation with the operands swapped |
| FHeap.CompareValueLeft | include/fadiff.h:594-653 | a plain value on the left against a heap variable, the same as the converse relation with the operands swapped |
| FHeap.CompareIgnoresDerivatives | include/fadiff.h:563-653 | the comparisons of heap variables are decided by the values of what they stand for |
| FHeap.MulBothForm | include/fadiff.h:475-479 | the componentwise result of the both-dependent *= loop is the product rule of the old operands |
| FHeap.DivBothForm | include/fadiff.h:499-503 | the componentwise result of the both-dependent /= loop is the quotient rule of the old operands |
| FHeap.DivSelfForm | include/fadiff.h:499-503 | on x /= x the loop's result is the quotient rule for x / x |
| FHeap.DivRightForm | include/fadiff.h:509-514 | -(q dy / y) for a constant target is the quotient rule |
| FHeapArith.Add1 | include/fadiff.h:685-694 | add1 gives a fresh variable standing for the sum rule with constant a |
| FHeapArith.Add2 | include/fadiff.h:736-745 | add2 is the sum rule with constant b |
| FHeapArith.Add3 | include/fadiff.h:805-813 | add3 on two dependent operands of one width is the sum rule |
| FHeapArith.Add | include/fadiff.h:833-845 | operator+ on heap variables of compatible width is the sum rule in all four cases |
| FHeapArith.Sub1 | include/fadiff.h:877-886 | sub1 is the difference rule with constant a |
| FHeapArith.Sub2 | include/fadiff.h:927-936 | sub2 is the difference rule with constant b |
| FHeapArith.Sub3 | include/fadiff.h:993-1000 | sub3 is the difference rule |
| FHeapArith.Sub | include/fadiff.h:1016-1029 | operator- is the difference rule in all four cases |
| FHeapArith.Mul1 | include/fadiff.h:1060-1069 | mul1 is the product rule with constant a |
| FHeapArith.Mul2 | include/fadiff.h:1112-1121 | mul2 is the product rule with constant b |
| FHeapArith.Mul3 | include/fadiff.h:1180-1189 | mul3 is the product rule |
| FHeapArith.Mul | include/fadiff.h:1209-1221 | operator* is the product rule in all four cases |
| FHeapArith.Div1 | include/fadiff.h:1256-1266 | div1 is the quotient rule with constant numerator |
| FHeapArith.Div2 | include/fadiff.h:1311-1320 | div2 is the quotient rule with a constant divisor |
| FHeapArith.Div3 | include/fadiff.h:1379-1388 | div3 is the quotient rule |
| FHeapArith.Div | include/fadiff.h:1408-1420 | operator/ with a non-zero divisor is the quotient rule in all four cases |
| FHeapArith.Pow1 | include/fadiff.h:1455-1465 | pow1 is the power rule with a constant base |
| FHeapArith.Pow2 | include/fadiff.h:1514-1524 | pow2 is the power rule with a constant exponent |
| FHeapArith.Pow3 | include/fadiff.h:1592-1601 | pow3 is the power rule in both operands |
| FHeapArith.Pow | include/fadiff.h:1626-1638 | pow(F, F) is the power rule in all four cases |
| FHeapArith.Plus | include/fadiff.h:1670-1679 | unary plus is the chain rule with factor one |
| FHeapArith.Minus | include/fadiff.h:1708-1717 | unary minus is the chain rule with factor minus one |
| FHeapArith.Sqr | include/fadiff.h:1761-1771 | sqr is the chain rule with factor 2a |
| FHeapArith.Exp | include/fadiff.h:1816-1826 | exp is the chain rule with factor exp(a) |
| FHeapArith.Log | include/fadiff.h:1870-1880 | log of a dependent non-zero operand is the chain rule with factor 1/a |
| FHeapArith.Sqrt | include/fadiff.h:1925-1935 | sqrt is the chain rule with factor 1/(2 sqrt(a)) |
| FHeapArith.Sin | include/fadiff.h:1981-1991 | sin is the chain rule with factor cos(a) |
| FHeapArith.Cos | include/fadiff.h:2038-2048 | cos is the chain rule with factor -sin(a) |
| FHeapArith.Tan | include/fadiff.h:2096-2106 | tan is the chain rule with factor 1 + tan(a)^2 |
| FHeapArith.Asin | include/fadiff.h:2156-2166 | asin is the chain rule with factor 1/sqrt(1 - a^2) |
| FHeapArith.Acos | include/fadiff.h:2220-2230 | acos is the chain rule with factor -1/sqrt(1 - a^2) |
| FHeapArith.Atan | include/fadiff.h:2282-2292 | atan is the chain rule with factor 1/(1 + a^2) |

## Left out

- Multi-precision `mpreal` overloads and their `TEMP_RESULT` scratch variable. These are the
  MPFR-specialised copies of every helper. They compute the same closed forms in place of `T`
  arithmetic, so only the generic `T` overloads are modelled.
- The generic `Op<T>` of `include/fadbad.h` is modelled over `real`. The host library's elementary
  functions are taken as arbitrary functions supplied by the caller. No property of `sqrt`, `log`
  or the others (for example `exp` being its own derivative) is assumed.
- The `Op<F<U,N>>` specialisation is not part of this model. It lets a variable serve as the base
  type of another variable.
- Floating point:
  - `T` is exact `real`, so rounding is not modelled;
  - IEEE infinities and NaN are not modelled;
  - every division, and every use of `myInv`, requires a non-zero divisor. This includes `log`,
    `sqrt`, `asin` and `acos` of a dependent operand at a point where the derivative factor
    divides by zero.
- The error reports of `USER_ASSERT` and `INTERNAL_ASSERT` (`include/fadbad.h`) are modelled as
  preconditions: width agreement, index bounds, and dependent operands for the `*3` helpers. They
  only print in the source. The one exception is `INTERNAL_ASSERT(val.m_size > 0)` in the heap
  `setDepend(val)` (`include/fadiff.h:256`). The heap `*=` and `/=` reach it with a constant
  operand, so `FHeap.F.SetDepend` accepts a constant and allocates a zero-length array.
- The debug output on `cout` in the heap `mpreal` overload of `asin` (`include/fadiff.h:2180`) is left out, as are the error messages.
- Destructors, `delete[]` and memory ownership are left out. `FHeap.F.AssignValue` sets the array
  to `null`.
- The references returned by the operators are left out. The model returns the new state instead:
  stack results, or the object updated in place on the heap.
- `d(i)` on a constant returns a reference to a shared static zero, and a caller may write through
  it. Only its read is modelled (`Deriv`).
- `x()`, the writable reference to the value, is left out. So are `val()`, which is the field
  `val`, and the `UnderlyingType` typedef.
- `FStack.Assign`, `FStack.AddAssign` and the other stack members: the stack variant is modelled as
  a value, so the aliased call `x op= x` is not represented. For `+=`, `-=` and `*=` the source's
  in-place loops read component `i` of both operands before writing it, and `*=` updates the value
  only after its loop. So the aliased results coincide with the value model's. `/=` is different:
  it divides the value first, so when aliased the loop multiplies and divides by the new value 1.
  Its result still coincides, because (d - 1 d) / 1 and (d - 1 d) / x are both zero;
  `FStack.DivSelfForm` proves this.
- The stack default constructor leaves `m_val` and `m_diff` uninitialised, so it has no model.
  `FStack.Constant` writes zeros into the storage that the source leaves uninitialised. Nothing
  reads that storage while the flag is down, except the *= and /= paths named under Findings.
- `FHeap.F.AddAssign`, `FHeap.F.SubAssign`, `FHeap.F.MulAssign` and `FHeap.F.DivAssign` only
  promise the reference rule when the widths are compatible. Each loop runs over the target's
  width. `*=` and `/=` index `val.m_diff` directly, with no check (`include/fadiff.h:478`, `489`,
  `501`, `512`). `+=` and `-=` read through `val[ i ]`, whose `USER_ASSERT(i < m_size)`
  (`include/fadiff.h:194`) reports an index beyond `y`'s width. So the requirement that the target
  be no wider than `y` is that assert for `+=`/`-=` and an in-bounds read for `*=`/`/=`. When the
  target is narrower, none of the four reports anything. The result keeps the target's width and
  the extra components of `y` are ignored. The model states this componentwise instead of as a
  reference rule. It follows the code here, not the expectation that every width mismatch is
  reported.
- `FHeap.F.Assign` requires equal widths when both sides are dependent. The source reports that
  mismatch and then copies `val.m_size` entries into the target's array.

## Findings

| source | as written | input that shows it | evidently intended | confidence | as-written member | corrected member |
|---|---|---|---|---|---|---|
| include/fadiff.h:356-361 | the last branch of the stack `operator*=` also runs when neither operand is dependent: it raises `m_depend` and fills the derivatives from `val.m_diff`, storage that was never written | stack `x = 2; y = 3; x *= y;` with N = 1: `x.depend()` holds and `x.size()` is 1 | two constants give the constant 6 (the heap variant and every other operator do) | not executed | FStack.MulAssign, FStack.MulAssignConstantsDiffer | FStack.MulAssignIntended |
| include/fadiff.h:380-385 | the last branch of the stack `operator/=` also runs for two constants, marking the quotient dependent with derivatives built from unwritten storage | stack `x = 2; y = 3; x /= y;` with N = 1: `x.depend()` holds and `x.size()` is 1 | two constants give the constant 2/3 | not executed | FStack.DivAssign, FStack.DivAssignConstantsDiffer | FStack.DivAssignIntended |
