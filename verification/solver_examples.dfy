/** The solver on concrete cases with the linear-decline closure. The exact
    cases use the customary budget of 50 repeats; the approximate ones hold
    for every budget from a stated minimum on. Arguments are, in order:
    influx, capacity, erosion potential and the bed-lowering conversion
    factor. */
module SolverExamples {
  import opened RealArith
  import opened Closures
  import opened NodeFluxSolver

  /** No capacity: nothing passes, nothing erodes, fully saturated. */
  lemma ZeroCapacityExample()
    ensures PseudoImplicit(1000.0, 0.0, 1.0, 1.0, LinearDecline, 50) == NodeFlux(0.0, 0.0, 1.0, 0.0)
  {
  }

  /** Influx far above capacity: exactly capacity leaves, nothing erodes
      (the linear decline is 0 at full saturation), and the error flag is 1. */
  lemma SwampedExample()
    ensures PseudoImplicit(1.0e10, 1.0, 10.0, 10.0, LinearDecline, 50) == NodeFlux(0.0, 1.0, 1.0, 1.0)
    ensures Eval(LinearDecline, 1.0) == 0.0
  {
  }

  /** Half-saturated influx with a huge potential: the first update overshoots
      capacity, so the node exports exactly capacity, erodes only the
      headroom, and reports the mean of 1/2 and 1. */
  lemma ThrottledExample()
    ensures PseudoImplicit(1.0, 2.0, 2000.0, 2.0, LinearDecline, 50) == NodeFlux(0.5, 2.0, 0.75, 0.0)
  {
    assert Div(1.0, 2.0) == 0.5;
    assert Update(1.0, 2.0, 2000.0, LinearDecline, 1.0) == 1001.0;
    DivCancel(1.0, 2.0);
    assert Div(2.0, 2.0) == 1.0;
  }

  /** No potential: the influx passes straight through at half capacity. */
  lemma NoPotentialExample(repeats: nat)
    requires repeats >= 1
    ensures PseudoImplicit(1000.0, 2000.0, 0.0, 1000.0, LinearDecline, repeats) == NodeFlux(0.0, 1000.0, 0.5, 0.0)
  {
    PassThroughAtHalf(1000.0, 1000.0, LinearDecline, repeats);
  }

  lemma PassThroughAtHalf(q: real, areaFactor: real, c: Closure, repeats: nat)
    requires q > 0.0 && areaFactor > 0.0 && repeats >= 1
    ensures PseudoImplicit(q, 2.0 * q, 0.0, areaFactor, c, repeats) == NodeFlux(0.0, q, 0.5, 0.0)
  {
    ZeroPotentialPassesThrough(q, 2.0 * q, areaFactor, c, repeats);
    DivOfProduct(0.5, 2.0 * q, q);
  }

  /** Zero influx under an effectively unlimited capacity: the node erodes at
      the full detachment-limited rate, the closure being 1 at zero flux. */
  lemma ZeroInfluxExample(repeats: nat)
    requires repeats >= 2
    ensures var r := PseudoImplicit(0.0, 1.0e10, 10.0, 10.0, LinearDecline, repeats);
            && Abs(r.erosionRate - Eval(LinearDecline, 0.0) * 1.0) <= 0.001
            && Abs(r.volumeOut - Eval(LinearDecline, 0.0) * 10.0) <= 0.001
            && r.relativeFlux <= 0.001
            && r.error < 0.001
  {
    var r := PseudoImplicit(0.0, 1.0e10, 10.0, 10.0, LinearDecline, repeats);
    LinearDeclineWithin(0.0, 1.0e10, 10.0, 10.0, repeats, 1);
    var f := LinearDeclineFixedPoint(0.0, 1.0e10, 10.0);
    assert Pow(Div(10.0, 1.0e10), 1) == 1.0e-9;
    assert 9.99 <= f <= 10.0;
    DivCancel(r.volumeOut, 1.0e10);
    assert r.erosionRate * 10.0 == r.volumeOut;
  }

  /** Low influx under an effectively unlimited capacity, with a larger
      conversion factor: the node still erodes at the full rate, here 2, and
      passes the influx plus the whole potential. */
  lemma LowInfluxExample(repeats: nat)
    requires repeats >= 2
    ensures var r := PseudoImplicit(1.0, 1.0e10, 200.0, 100.0, LinearDecline, repeats);
            && Abs(r.erosionRate - Eval(LinearDecline, 0.0) * 2.0) <= 0.001
            && Abs(r.volumeOut - (Eval(LinearDecline, 0.0) * 200.0 + 1.0)) <= 0.001
            && r.relativeFlux <= 0.001
            && r.error < 0.001
  {
    var r := PseudoImplicit(1.0, 1.0e10, 200.0, 100.0, LinearDecline, repeats);
    LinearDeclineWithin(1.0, 1.0e10, 200.0, 100.0, repeats, 1);
    var f := LinearDeclineFixedPoint(1.0, 1.0e10, 200.0);
    assert Pow(Div(200.0, 1.0e10), 1) == 2.0e-8;
    assert 200.99 <= f <= 201.0;
    DivCancel(r.volumeOut, 1.0e10);
    assert r.erosionRate * 100.0 == r.volumeOut - 1.0;
  }

  /** One half to the 32nd power, by repeated squaring. */
  lemma HalfToThe32nd()
    ensures Pow(0.5, 32) == 1.0 / 4294967296.0
  {
    assert Pow(0.5, 2) == 0.25;
    PowAdd(0.5, 2, 2);
    PowAdd(0.5, 4, 4);
    PowAdd(0.5, 8, 8);
    PowAdd(0.5, 16, 16);
  }

  /** The generic case: influx at half capacity with a contraction factor of
      one half. The outflux settles on 10000/3, so the bed lowers at 0.025
      and the relative flux is the mean of 1/2 and 2/3. The distance to the
      fixed point halves with every update, so a tolerance of 0.001 holds
      from 33 repeats on. */
  lemma InteriorExample(repeats: nat)
    requires repeats >= 33
    ensures var r := PseudoImplicit(2500.0, 5000.0, 2500.0, 100000.0 / 3.0, LinearDecline, repeats);
            && Abs(r.volumeOut - 3333.333) <= 0.001
            && Abs(r.erosionRate - 0.025) <= 0.001
            && Abs(r.relativeFlux - (1.0 / 2.0 + 2.0 / 3.0) / 2.0) <= 0.001
            && r.error < 0.001
  {
    var r := PseudoImplicit(2500.0, 5000.0, 2500.0, 100000.0 / 3.0, LinearDecline, repeats);
    LinearDeclineWithin(2500.0, 5000.0, 2500.0, 100000.0 / 3.0, repeats, 32);
    var f := LinearDeclineFixedPoint(2500.0, 5000.0, 2500.0);
    assert f == 10000.0 / 3.0;
    assert Div(2500.0, 5000.0) == 0.5;
    HalfToThe32nd();
    assert Abs(r.volumeOut - f) <= 2500.0 / 3.0 / 4294967296.0;
    DivCancel(r.volumeOut, 5000.0);
    assert r.erosionRate * (100000.0 / 3.0) == r.volumeOut - 2500.0;
  }
}
