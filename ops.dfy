/** The base-arithmetic seam Op<T> (include/fadbad.h).
    The base type T is modelled by `real`, so the constants, the compound
    operators and the comparisons are exact.  The elementary functions come
    from the host library (<math.h>, MPFR); nothing is known about them here,
    so they are the fields of a record supplied by the caller. */
module Ops {

  /** The elementary functions of the base type: myPow, mySqrt, myLog, myExp,
      mySin, myCos, myTan, myAsin, myAcos, myAtan. */
  datatype Op = Op(
    pow: (real, real) -> real,
    sqrt: real -> real,
    log: real -> real,
    exp: real -> real,
    sin: real -> real,
    cos: real -> real,
    tan: real -> real,
    asin: real -> real,
    acos: real -> real,
    atan: real -> real)

  /** myInteger and the constants built from it */
  function Integer(i: int): real { i as real }
  function Zero(): real { Integer(0) }
  function One(): real { Integer(1) }
  function Two(): real { Integer(2) }

  /** myInv: one divided by x (IEEE division by zero is not modelled) */
  function Inv(x: real): real
    requires x != 0.0
  {
    One() / x
  }

  /** mySqr */
  function Sqr(x: real): real { x * x }

  /** The six relations myEq, myNe, myLt, myLe, myGt, myGe. */
  datatype Relation = Eq | Ne | Lt | Le | Gt | Ge

  /** The relation that holds with the operands swapped: a < b is b > a. */
  function Converse(rel: Relation): Relation
  {
    match rel
    case Eq => Eq
    case Ne => Ne
    case Lt => Gt
    case Le => Ge
    case Gt => Lt
    case Ge => Le
  }

  function Holds(rel: Relation, x: real, y: real): bool
  {
    match rel
    case Eq => x == y
    case Ne => x != y
    case Lt => x < y
    case Le => x <= y
    case Gt => x > y
    case Ge => x >= y
  }
}
