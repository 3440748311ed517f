/** Sediment-flux closure functions.

    A closure maps the relative sediment flux x (sediment flux divided by
    transport capacity) to a dimensionless multiplier on the detachment-limited
    erosion rate. Three families are modelled: the constant closure (plain
    stream-power erosion), the linear decline and the almost-parabolic hump.
 */
module Closures {
  import opened RealArith

  /** The closure family selected for a run. */
  datatype Closure = Constant | LinearDecline | AlmostParabolic

  /** Relative flux below which the almost-parabolic closure follows its
      straight rising segment instead of the parabola. */
  const ParabolaStart: real := 0.1

  /** The erosion multiplier of closure `c` at relative sediment flux `x`.
      On the physical range 0 <= x <= 1 every closure is a multiplier in
      [0, 1]: sediment may damp erosion but never amplifies it beyond the
      detachment-limited rate, nor reverses it. The linear decline is
      deliberately left unclamped above full saturation, so it turns
      negative for x > 1. */
  function Eval(c: Closure, x: real): (m: real)
    ensures 0.0 <= x <= 1.0 ==> 0.0 <= m <= 1.0
  {
    match c
    case Constant => 1.0
    case LinearDecline => 1.0 - x
    case AlmostParabolic =>
      SquareFacts(x - 0.5);
      if x < ParabolaStart then 2.6 * x + 0.1
      else 1.0 - 4.0 * Mul(x - 0.5, x - 0.5)
  }

  /** The constant closure ignores the sediment flux altogether. */
  lemma ConstantIgnoresFlux(x: real, y: real)
    ensures Eval(Constant, x) == Eval(Constant, y) == 1.0
  {
  }

  /** The values pinned for the three closures: the constant closure is 1 at
      0, 1 and 2; the linear decline is 1, 0.5, 0 and -1 at 0, 0.5, 1 and 2;
      the almost-parabolic closure is 0.1 at 0, peaks at 1 for half
      saturation and falls to 0 at full saturation. */
  lemma PinnedValues()
    ensures Eval(Constant, 0.0) == 1.0 && Eval(Constant, 1.0) == 1.0 && Eval(Constant, 2.0) == 1.0
    ensures Eval(LinearDecline, 0.0) == 1.0 && Eval(LinearDecline, 0.5) == 0.5
    ensures Eval(LinearDecline, 1.0) == 0.0 && Eval(LinearDecline, 2.0) == -1.0
    ensures Eval(AlmostParabolic, 0.0) == 0.1 && Eval(AlmostParabolic, 0.5) == 1.0
    ensures Eval(AlmostParabolic, 1.0) == 0.0
  {
  }

  /** Facts about the square term of the parabola. */
  lemma SquareFacts(d: real)
    ensures Mul(d, d) >= 0.0
    ensures d != 0.0 ==> Mul(d, d) > 0.0
    ensures -0.5 <= d <= 0.5 ==> Mul(d, d) <= 0.25
  {
    if d > 0.0 {
      MulPositive(d, d);
      if d <= 0.5 {
        MulMonotone(d, d, 0.5);
      }
    } else if d < 0.0 {
      MulNegatives(d, d);
      if -0.5 <= d {
        MulAntitone(d, -0.5, d);
      }
    }
  }

  /** The linear decline is strictly decreasing everywhere, including past
      full saturation where it is not clamped. */
  lemma LinearDeclineStrictlyDecreasing(x: real, y: real)
    requires x < y
    ensures Eval(LinearDecline, y) < Eval(LinearDecline, x)
  {
  }

  /** Past full saturation the unclamped linear decline goes negative. */
  lemma LinearDeclineNegativePastSaturation(x: real)
    requires x > 1.0
    ensures Eval(LinearDecline, x) < 0.0
  {
  }

  /** The almost-parabolic closure has its single maximum, 1, at half
      saturation. */
  lemma AlmostParabolicPeak(x: real)
    ensures Eval(AlmostParabolic, x) <= Eval(AlmostParabolic, 0.5) == 1.0
    ensures Eval(AlmostParabolic, x) == 1.0 ==> x == 0.5
  {
    SquareFacts(x - 0.5);
  }

  /** The two pieces of the almost-parabolic closure meet at the start of the
      parabola, so the closure has no jump there. */
  lemma AlmostParabolicContinuous()
    ensures 2.6 * ParabolaStart + 0.1 == Eval(AlmostParabolic, ParabolaStart) == 0.36
  {
  }

  /** The parabolic part is symmetric about half saturation. */
  lemma AlmostParabolicSymmetric(x: real)
    requires ParabolaStart <= x <= 1.0 - ParabolaStart
    ensures Eval(AlmostParabolic, x) == Eval(AlmostParabolic, 1.0 - x)
  {
  }
}
