/** Double-precision values seen only through their class: a finite value, one of
    the two infinities, or NaN. Rounding is not modelled: a finite value is an
    exact real. This is enough to follow the lambda and stability arithmetic of
    the density clusterer, where a zero-length edge yields an infinite lambda. */
module ExtReal {

  datatype Float = Num(v: real) | PosInf | NegInf | NaN

  function Neg(a: Float): Float
  {
    match a
    case Num(x) => Num(-x)
    case PosInf => NegInf
    case NegInf => PosInf
    case NaN => NaN
  }

  /** IEEE addition: opposite infinities and NaN give NaN. */
  function Add(a: Float, b: Float): (r: Float)
    ensures a.Num? && b.Num? ==> r == Num(a.v + b.v)
    ensures a.NaN? || b.NaN? ==> r.NaN?
  {
    match (a, b)
    case (NaN, _) => NaN
    case (_, NaN) => NaN
    case (Num(x), Num(y)) => Num(x + y)
    case (PosInf, NegInf) => NaN
    case (NegInf, PosInf) => NaN
    case (PosInf, _) => PosInf
    case (NegInf, _) => NegInf
    case (_, PosInf) => PosInf
    case (_, NegInf) => NegInf
  }

  function Sub(a: Float, b: Float): Float
  {
    Add(a, Neg(b))
  }

  /** A float times a (non-negative) Python int: an infinity times zero is NaN. */
  function MulNat(a: Float, k: nat): (r: Float)
    ensures a.Num? ==> r == Num(a.v * (k as real))
  {
    if a.Num? then Num(a.v * (k as real))
    else if a.NaN? || k == 0 then NaN
    else a
  }

  /** IEEE `a > b`: false whenever either side is NaN. */
  predicate Gt(a: Float, b: Float)
  {
    match (a, b)
    case (NaN, _) => false
    case (_, NaN) => false
    case (Num(x), Num(y)) => x > y
    case (PosInf, PosInf) => false
    case (PosInf, _) => true
    case (NegInf, _) => false
    case (_, PosInf) => false
    case (_, NegInf) => true
  }

  /** IEEE `a < b`. */
  predicate Lt(a: Float, b: Float)
  {
    Gt(b, a)
  }

  /** `a <= b` on values that are not NaN. */
  predicate Le(a: Float, b: Float)
  {
    !a.NaN? && !b.NaN? && !Gt(a, b)
  }

  /** Python's two-argument `max(a, b)`: keeps `a` unless `b > a`. */
  function PyMax(a: Float, b: Float): Float
  {
    if Gt(b, a) then b else a
  }

  /** `1.0 / d if d > 0 else inf`, the lambda of a merge at distance `d`. */
  function Recip(d: real): (r: Float)
    ensures d > 0.0 ==> r.Num? && r.v > 0.0 && r.v * d == 1.0
    ensures d <= 0.0 ==> r == PosInf
  {
    if d > 0.0 then Num(1.0 / d) else PosInf
  }

  /** A larger merge distance never gives a larger lambda. */
  lemma RecipAntitone(d1: real, d2: real)
    requires d1 <= d2
    ensures Le(Recip(d2), Recip(d1))
  {
    if d1 > 0.0 {
      var a, b := 1.0 / d1, 1.0 / d2;
      assert b * d1 <= b * d2 == 1.0 == a * d1;
      assert b <= a;
    }
  }
}
