/**
 Real numbers extended with the two infinities and "not a number", enough to model
 the reciprocal of a zero direction component.  Finite values are exact reals.
 */
module ExtReal {

  datatype Ext = Fin(v: real) | PosInf | NegInf | NaN

  /** `a < b`; false as soon as one side is not a number. */
  predicate Lt(a: Ext, b: Ext) {
    if a.NaN? || b.NaN? then false
    else if a.Fin? && b.Fin? then a.v < b.v
    else (a.NegInf? && !b.NegInf?) || (b.PosInf? && !a.PosInf?)
  }

  function Min(a: Ext, b: Ext): Ext {
    if Lt(a, b) then a else b
  }

  function Max(a: Ext, b: Ext): Ext {
    if Lt(b, a) then a else b
  }

  /** Product of a finite number and an extended one. */
  function Mul(x: real, y: Ext): Ext {
    match y
    case Fin(v) => Fin(x * v)
    case NaN => NaN
    case PosInf => if x > 0.0 then PosInf else if x < 0.0 then NegInf else NaN
    case NegInf => if x > 0.0 then NegInf else if x < 0.0 then PosInf else NaN
  }

  function Add(a: Ext, b: Ext): Ext {
    if a.NaN? || b.NaN? then NaN
    else if a.Fin? && b.Fin? then Fin(a.v + b.v)
    else if (a.PosInf? && b.NegInf?) || (a.NegInf? && b.PosInf?) then NaN
    else if a.PosInf? || b.PosInf? then PosInf
    else NegInf
  }

  /** `a` minus a finite number. */
  function SubReal(a: Ext, x: real): Ext {
    if a.Fin? then Fin(a.v - x) else a
  }

  /** The real number `s` lies at or below `a`. */
  predicate AtMost(s: real, a: Ext) {
    a.PosInf? || (a.Fin? && s <= a.v)
  }

  /** The real number `s` lies at or above `a`. */
  predicate AtLeast(s: real, a: Ext) {
    a.NegInf? || (a.Fin? && a.v <= s)
  }

  lemma AtLeastMax(s: real, a: Ext, b: Ext)
    requires !a.NaN? && !b.NaN?
    ensures AtLeast(s, Max(a, b)) <==> AtLeast(s, a) && AtLeast(s, b)
    ensures Max(a, b) in {a, b}
  {
  }

  lemma AtMostMin(s: real, a: Ext, b: Ext)
    requires !a.NaN? && !b.NaN?
    ensures AtMost(s, Min(a, b)) <==> AtMost(s, a) && AtMost(s, b)
    ensures Min(a, b) in {a, b} && (a.Fin? || b.Fin? ==> Min(a, b).Fin? || Min(a, b).NegInf?)
  {
  }
}
