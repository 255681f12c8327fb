/** Floating-point values beyond the reals: the infinities and NaN that the
    renderer can produce or test for, kept apart from ordinary finite values. */
module ExtendedReals {

  datatype Extended = Finite(value: real) | PositiveInfinity | NegativeInfinity | NotANumber

  /** IEEE comparison `d > e` of a finite value against an extended one:
      nothing exceeds +inf, everything finite exceeds -inf, and every
      comparison with NaN is false. */
  predicate Exceeds(d: real, e: Extended)
  {
    match e
    case Finite(v) => d > v
    case PositiveInfinity => false
    case NegativeInfinity => true
    case NotANumber => false
  }
}
