/** The part of IEEE-754 binary64 arithmetic the matcher relies on: dividing
two non-negative integers and comparing the quotients with `<`.

A finite quotient is kept as the exact fraction `num / den`: the rounding of
a real double is not modelled (see README). Only non-negative values arise.
`==` on `Float` compares representations, not values (`Finite(2, 2)` and
`Finite(1, 1)` differ although both stand for 1.0); the matcher only uses
`Less`, which compares values.
 */
module Float64 {

  type Positive = x: nat | x > 0 witness 1

  datatype Float = Finite(num: nat, den: Positive) | PosInfinity | NaN

  /** The float holding the whole number `n`, as `n as f64` gives it. */
  function FromNat(n: nat): (f: Float)
    ensures f.Finite? && f.num == n * f.den
  {
    Finite(n, 1)
  }

  /** `num as f64 / den as f64`: the exact quotient, `+inf` for a positive
      numerator over zero and NaN for `0 / 0`. */
  function Divide(num: nat, den: nat): (q: Float)
    ensures den > 0 ==> q.Finite? && q.num * den == num * q.den
    ensures den == 0 ==> (q.NaN? <==> num == 0) && (q.PosInfinity? <==> num > 0)
  {
    if den > 0 then Finite(num, den)
    else if num == 0 then NaN
    else PosInfinity
  }

  /** IEEE `<`: false whenever either side is NaN, and nothing is below
      a finite value except a smaller finite value. */
  predicate Less(x: Float, y: Float)
  {
    match (x, y)
    case (Finite(a, m), Finite(b, n)) => a * n < b * m
    case (Finite(_, _), PosInfinity) => true
    case _ => false
  }

  /** Comparing `num / n` with the bound `n as f64` is the integer test
      `num < n * n`; when `n == 0` both sides are false. */
  lemma DivideBelowBound(num: nat, n: nat)
    ensures Less(Divide(num, n), FromNat(n)) <==> num < n * n
  {
  }

  /** Dividing by the same positive length preserves strict order. */
  lemma DivideMonotone(x: nat, y: nat, n: nat)
    requires n > 0
    ensures Less(Divide(x, n), Divide(y, n)) <==> x < y
  {
  }

  /** A quotient by a positive length exceeds 1 exactly when the numerator
      exceeds that length. */
  lemma DivideAboveOne(num: nat, n: nat)
    requires n > 0
    ensures Less(FromNat(1), Divide(num, n)) <==> n < num
  {
  }
}
