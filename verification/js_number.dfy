/**
 * The slice of JavaScript's Number semantics the reminder job relies on.
 * A Number is either a finite value or NaN; finite values are exact
 * rationals here (binary floating-point rounding is not modelled).
 * Every arithmetic operation propagates NaN and every ordered comparison
 * involving NaN is false, as in JavaScript.
 */
module JsNumber {
  import opened Wrappers

  datatype Num = Finite(v: real) | NaN

  /** `a + b` */
  function Add(a: Num, b: Num): Num {
    if a.Finite? && b.Finite? then Finite(a.v + b.v) else NaN
  }

  /** `a - b` */
  function Sub(a: Num, b: Num): Num {
    if a.Finite? && b.Finite? then Finite(a.v - b.v) else NaN
  }

  /** `a / d` for a non-zero literal divisor `d` */
  function Div(a: Num, d: real): Num
    requires d != 0.0
  {
    if a.Finite? then Finite(a.v / d) else NaN
  }

  /** `a <= b` */
  predicate LessEq(a: Num, b: Num) {
    a.Finite? && b.Finite? && a.v <= b.v
  }

  /** `a >= b` */
  predicate GreaterEq(a: Num, b: Num) {
    a.Finite? && b.Finite? && a.v >= b.v
  }

  /** `Date.prototype.getTime()`: integral milliseconds, or NaN for an Invalid Date. */
  function TimeValue(ms: Option<int>): Num {
    match ms
    case Some(k) => Finite(k as real)
    case None => NaN
  }

  /** `getTime() / 1000`: the same instant in (possibly fractional) seconds. */
  function MillisToSeconds(ms: Option<int>): Num {
    Div(TimeValue(ms), 1000.0)
  }
}
