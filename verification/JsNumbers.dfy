/** JavaScript numbers without rounding: exact reals, the infinities and NaN. */
module JsNumbers {

  datatype Number = NaN | Infinite(negative: bool) | Finite(value: real)

  /** `n / d` of two finite numbers. */
  function Divide(n: real, d: real): Number
  {
    if d != 0.0 then Finite(n / d)
    else if n == 0.0 then NaN
    else Infinite(n < 0.0)
  }

  /** `a < bound` for a finite bound; every comparison with NaN is false. */
  predicate Less(a: Number, bound: real)
  {
    match a
    case NaN => false
    case Infinite(negative) => negative
    case Finite(value) => value < bound
  }

  function Add(a: Number, b: Number): Number
  {
    match (a, b)
    case (Finite(x), Finite(y)) => Finite(x + y)
    case (Infinite(s), Infinite(t)) => if s == t then a else NaN
    case (Infinite(_), Finite(_)) => a
    case (Finite(_), Infinite(_)) => b
    case _ => NaN
  }

  /** `a / d` for a positive finite divisor. */
  function Scale(a: Number, d: real): Number
    requires d > 0.0
  {
    match a
    case Finite(value) => Finite(value / d)
    case _ => a
  }
}
