/** Enough of IEEE floating point to follow the pipeline through x / 0, 0 / 0 and
    comparisons with the results: finite values, the two infinities and NaN.
    Rounding and the sign of zero are not modelled (a zero counts as +0). */
module Floats {

  datatype Float = Finite(v: real) | PosInf | NegInf | NaN

  function Neg(a: Float): Float
  {
    match a
    case Finite(v) => Finite(-v)
    case PosInf => NegInf
    case NegInf => PosInf
    case NaN => NaN
  }

  function Add(a: Float, b: Float): Float
  {
    match (a, b)
    case (NaN, _) => NaN
    case (_, NaN) => NaN
    case (Finite(x), Finite(y)) => Finite(x + y)
    case (PosInf, NegInf) => NaN
    case (NegInf, PosInf) => NaN
    case (PosInf, _) => PosInf
    case (_, PosInf) => PosInf
    case (NegInf, _) => NegInf
    case (_, NegInf) => NegInf
  }

  function Sub(a: Float, b: Float): Float
  {
    Add(a, Neg(b))
  }

  function Div(a: Float, b: Float): Float
  {
    match (a, b)
    case (NaN, _) => NaN
    case (_, NaN) => NaN
    case (Finite(x), Finite(y)) =>
      if y != 0.0 then Finite(x / y)
      else if x > 0.0 then PosInf
      else if x < 0.0 then NegInf
      else NaN
    case (Finite(_), _) => Finite(0.0)
    case (PosInf, Finite(y)) => if y < 0.0 then NegInf else PosInf
    case (NegInf, Finite(y)) => if y < 0.0 then PosInf else NegInf
    case (_, _) => NaN
  }

  /** An ordered comparison a <= b is false whenever either side is NaN. */
  function AtMost(a: Float, b: Float): bool
  {
    match (a, b)
    case (NaN, _) => false
    case (_, NaN) => false
    case (Finite(x), Finite(y)) => x <= y
    case (NegInf, _) => true
    case (_, PosInf) => true
    case (_, _) => false
  }

  /** numpy's abs. */
  function FAbs(a: Float): Float
  {
    match a
    case Finite(v) => Finite(if v < 0.0 then -v else v)
    case NegInf => PosInf
    case _ => a
  }
}
