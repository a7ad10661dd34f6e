/** Facts about exact real division that the feature scaling and the noise
    schedule both lean on. */
module Reals {

  /** Dividing by a non-zero `d` and multiplying back returns `n`, and `n / d`
      is the only number that does. */
  lemma Quotient(q: real, n: real, d: real)
    requires d != 0.0
    ensures n / d * d == n
    ensures q * d == n ==> q == n / d
  {
  }
}
