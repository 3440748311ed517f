/** The per-node pseudo-implicit solver.

    For a single node it resolves the circular dependency between erosion and
    sediment flux: the closure damps erosion according to the relative flux
    leaving the node, and that flux in turn includes what erosion adds. The
    solver iterates the update "outflux = influx + potential * f(outflux /
    capacity)" a bounded number of times, starting from the influx, and stops
    early once the update would push the outflux to capacity, in which case
    generation is throttled to exactly the remaining headroom.

    Volumes are rates of volume per unit time; `potential` is the
    detachment-limited volumetric generation rate and `areaFactor` converts
    generated volume into a bed-lowering rate.
 */
module NodeFluxSolver {
  import opened RealArith
  import opened Closures

  /** The four outputs of the solver: the bed-lowering rate (a magnitude,
      positive for erosion), the volumetric rate passed downstream, the
      relative sediment flux and the convergence-error diagnostic. */
  datatype NodeFlux = NodeFlux(erosionRate: real, volumeOut: real, relativeFlux: real, error: real)

  /** The state of the iteration: the current outflux estimate, the change of
      the outgoing ratio in the last update, and whether the update reached
      capacity. */
  datatype Estimate = Estimate(volumeOut: real, error: real, saturated: bool)

  function Clamp01(x: real): real
  {
    if x < 0.0 then 0.0 else if x > 1.0 then 1.0 else x
  }

  /** The reported relative sediment flux: the mean of the influx and outflux
      ratios to capacity, each clamped to [0, 1]. */
  function RelativeFlux(qin: real, qout: real, cap: real): (r: real)
    requires cap > 0.0
    ensures 0.0 <= r <= 1.0
    ensures r == 1.0 <==> Clamp01(Div(qin, cap)) == 1.0 && Clamp01(Div(qout, cap)) == 1.0
  {
    (Clamp01(Div(qin, cap)) + Clamp01(Div(qout, cap))) / 2.0
  }

  /** One pseudo-implicit update: the outflux obtained when the closure is
      evaluated at the outgoing ratio of the current estimate `qout`. */
  function Update(qin: real, cap: real, potential: real, c: Closure, qout: real): real
    requires cap > 0.0
  {
    qin + Mul(potential, Eval(c, Div(qout, cap)))
  }

  /** Bounds on one update from an estimate between the influx and capacity:
      the closure adds a non-negative volume no larger than the potential. */
  lemma UpdateBounds(qin: real, cap: real, potential: real, c: Closure, qout: real)
    requires 0.0 <= qin <= qout <= cap && 0.0 < cap && 0.0 <= potential
    ensures qin <= Update(qin, cap, potential, c, qout) <= qin + potential
  {
    DivUnit(qout, cap);
    MulNonnegative(potential, Eval(c, Div(qout, cap)));
    MulMonotone(potential, Eval(c, Div(qout, cap)), 1.0);
  }

  /** Runs at most `repeats` updates from the estimate `qout`. The iteration
      keeps its estimate between the influx and capacity, never generates
      more than the potential, and when the last update changed nothing the
      estimate is an exact fixed point of the update. */
  function Iterate(qin: real, cap: real, potential: real, c: Closure, qout: real, error: real, repeats: nat): (e: Estimate)
    requires 0.0 <= qin <= qout < cap && 0.0 <= potential
    requires qout - qin <= potential
    requires 0.0 <= error <= 1.0
    requires error == 0.0 ==> Update(qin, cap, potential, c, qout) == qout
    ensures e.saturated ==> e.volumeOut == cap && e.error == 0.0
    ensures !e.saturated ==> qin <= e.volumeOut < cap && 0.0 <= e.error <= 1.0
    ensures e.volumeOut - qin <= potential
    ensures !e.saturated && e.error == 0.0 ==> Update(qin, cap, potential, c, e.volumeOut) == e.volumeOut
    decreases repeats
  {
    if repeats == 0 then Estimate(qout, error, false)
    else
      var next := Update(qin, cap, potential, c, qout);
      UpdateBounds(qin, cap, potential, c, qout);
      if next >= cap then Estimate(cap, 0.0, true)
      else
        var change := Div(Abs(next - qout), cap);
        DivUnit(Abs(next - qout), cap);
        DivZero(Abs(next - qout), cap);
        Iterate(qin, cap, potential, c, next, change, repeats - 1)
  }

  /** The solver. A node without capacity passes and generates nothing and is
      reported fully saturated; a node whose influx alone meets capacity
      exports exactly its capacity, generates nothing and reports an error of
      1; otherwise the iteration decides the outflux, and the bed-lowering
      rate is the generated volume over `areaFactor`. */
  function PseudoImplicit(qin: real, cap: real, potential: real, areaFactor: real, c: Closure, repeats: nat): (r: NodeFlux)
    requires 0.0 <= qin && 0.0 <= potential && 0.0 < areaFactor
    ensures cap <= 0.0 ==> r == NodeFlux(0.0, 0.0, 1.0, 0.0)
    ensures 0.0 < cap <= qin ==> r == NodeFlux(0.0, cap, 1.0, 1.0)
    ensures 0.0 <= r.relativeFlux <= 1.0 && 0.0 <= r.erosionRate && 0.0 <= r.error <= 1.0
    ensures 0.0 < cap ==> r.volumeOut <= cap
    ensures qin < cap ==> qin <= r.volumeOut && r.volumeOut - qin <= potential
    ensures qin < cap ==> Mul(r.erosionRate, areaFactor) == r.volumeOut - qin
    ensures qin < cap ==> r.relativeFlux == (Div(qin, cap) + Div(r.volumeOut, cap)) / 2.0
    ensures qin < cap && r.volumeOut < cap && r.error == 0.0 ==>
              Update(qin, cap, potential, c, r.volumeOut) == r.volumeOut
  {
    if cap <= 0.0 then NodeFlux(0.0, 0.0, 1.0, 0.0)
    else if qin >= cap then NodeFlux(0.0, cap, 1.0, 1.0)
    else
      var e := Iterate(qin, cap, potential, c, qin, 1.0, repeats);
      var rate := Div(e.volumeOut - qin, areaFactor);
      DivCancel(e.volumeOut - qin, areaFactor);
      DivMonotone(0.0, e.volumeOut - qin, areaFactor);
      DivUnit(qin, cap);
      DivUnit(e.volumeOut, cap);
      NodeFlux(rate, e.volumeOut, RelativeFlux(qin, e.volumeOut, cap), e.error)
  }

  /** A node is reported fully saturated exactly when it has no capacity or
      its influx alone meets its capacity. */
  lemma SaturatedIffInfluxMeetsCapacity(qin: real, cap: real, potential: real, areaFactor: real, c: Closure, repeats: nat)
    requires 0.0 <= qin && 0.0 <= potential && 0.0 < areaFactor
    ensures PseudoImplicit(qin, cap, potential, areaFactor, c, repeats).relativeFlux == 1.0
            <==> cap <= 0.0 || qin >= cap
  {
    if 0.0 < cap && qin < cap {
      DivUnit(qin, cap);
    }
  }

  /** With the constant closure the update no longer depends on the estimate,
      so the first update already lands on min(capacity, influx + potential)
      and a second update confirms it with a zero error. */
  lemma {:induction false} IterateConstant(qin: real, cap: real, potential: real, qout: real, error: real, repeats: nat)
    requires 0.0 <= qin <= qout < cap && 0.0 <= potential
    requires qout - qin <= potential
    requires 0.0 <= error <= 1.0
    requires error == 0.0 ==> Update(qin, cap, potential, Constant, qout) == qout
    requires repeats >= 1
    ensures var e := Iterate(qin, cap, potential, Constant, qout, error, repeats);
            && (e.saturated <==> qin + potential >= cap)
            && e.volumeOut == (if qin + potential >= cap then cap else qin + potential)
            && (repeats >= 2 ==> e.error == 0.0)
    decreases repeats
  {
    var next := Update(qin, cap, potential, Constant, qout);
    assert next == qin + potential;
    if next < cap && repeats >= 2 {
      var change := Div(Abs(next - qout), cap);
      DivUnit(Abs(next - qout), cap);
      DivZero(Abs(next - qout), cap);
      IterateConstant(qin, cap, potential, next, change, repeats - 1);
      assert Update(qin, cap, potential, Constant, next) == next;
      DivZero(0.0, cap);
    }
  }

  /** The solver with the constant closure agrees with the closed form: the
      outflux is the influx plus the whole potential, capped at capacity, and
      the bed lowers by the generated volume over `areaFactor`. */
  lemma ConstantClosureClosedForm(qin: real, cap: real, potential: real, areaFactor: real, repeats: nat)
    requires 0.0 <= qin < cap && 0.0 <= potential && 0.0 < areaFactor && repeats >= 1
    ensures var r := PseudoImplicit(qin, cap, potential, areaFactor, Constant, repeats);
            && r.volumeOut == (if qin + potential >= cap then cap else qin + potential)
            && Mul(r.erosionRate, areaFactor) == r.volumeOut - qin
            && (repeats >= 2 ==> r.error == 0.0)
  {
    IterateConstant(qin, cap, potential, qin, 1.0, repeats);
  }

  /** With no potential the iteration never moves: the influx passes through
      unchanged, and after one update the error is zero. */
  lemma {:induction false} IterateZeroPotential(qin: real, cap: real, c: Closure, error: real, repeats: nat)
    requires 0.0 <= qin < cap
    requires 0.0 <= error <= 1.0
    requires error == 0.0 ==> Update(qin, cap, 0.0, c, qin) == qin
    ensures var e := Iterate(qin, cap, 0.0, c, qin, error, repeats);
            && !e.saturated && e.volumeOut == qin
            && (repeats >= 1 ==> e.error == 0.0)
    decreases repeats
  {
    if repeats >= 1 {
      assert Update(qin, cap, 0.0, c, qin) == qin;
      DivZero(0.0, cap);
      IterateZeroPotential(qin, cap, c, 0.0, repeats - 1);
    }
  }

  /** A node with no erosion potential is a pure pass-through: nothing is
      generated, the influx leaves unchanged, and the relative flux is the
      influx ratio. */
  lemma ZeroPotentialPassesThrough(qin: real, cap: real, areaFactor: real, c: Closure, repeats: nat)
    requires 0.0 <= qin < cap && 0.0 < areaFactor && repeats >= 1
    ensures var r := PseudoImplicit(qin, cap, 0.0, areaFactor, c, repeats);
            && r.volumeOut == qin && r.erosionRate == 0.0
            && r.relativeFlux == Div(qin, cap) && r.error == 0.0
  {
    IterateZeroPotential(qin, cap, c, 1.0, repeats);
    var r := PseudoImplicit(qin, cap, 0.0, areaFactor, c, repeats);
    DivZero(r.erosionRate * areaFactor, areaFactor);
  }

  /** Unfolds one update of the iteration below capacity. */
  lemma IterateUnfold(qin: real, cap: real, potential: real, c: Closure, qout: real, error: real, repeats: nat)
    requires 0.0 <= qin <= qout < cap && 0.0 <= potential
    requires qout - qin <= potential
    requires 0.0 <= error <= 1.0
    requires error == 0.0 ==> Update(qin, cap, potential, c, qout) == qout
    requires repeats >= 1
    requires Update(qin, cap, potential, c, qout) < cap
    ensures var next := Update(qin, cap, potential, c, qout);
            var change := Div(Abs(next - qout), cap);
            && qin <= next && next - qin <= potential
            && 0.0 <= change <= 1.0
            && (change == 0.0 ==> Update(qin, cap, potential, c, next) == next)
            && Iterate(qin, cap, potential, c, qout, error, repeats)
               == Iterate(qin, cap, potential, c, next, change, repeats - 1)
  {
    var next := Update(qin, cap, potential, c, qout);
    UpdateBounds(qin, cap, potential, c, qout);
    DivUnit(Abs(next - qout), cap);
    DivZero(Abs(next - qout), cap);
  }

  /** The exact outflux the linear-decline iteration aims at: the solution of
      q = influx + potential * (1 - q / capacity). */
  function LinearDeclineFixedPoint(qin: real, cap: real, potential: real): real
    requires cap > 0.0 && potential >= 0.0
  {
    Div(Mul(qin + potential, cap), cap + potential)
  }

  /** The closed-form outflux solves the linear-decline update exactly and
      lies between the influx and capacity: with the linear decline, an
      unsaturated influx can never be driven to capacity at equilibrium. */
  lemma LinearDeclineFixedPointSolves(qin: real, cap: real, potential: real)
    requires 0.0 <= qin < cap && 0.0 <= potential
    ensures var f := LinearDeclineFixedPoint(qin, cap, potential);
            && qin <= f < cap
            && Update(qin, cap, potential, LinearDecline, f) == f
  {
    var f := LinearDeclineFixedPoint(qin, cap, potential);
    DivCancel(Mul(qin + potential, cap), cap + potential);
    FixedPointBounds(qin, cap, potential, f);
    FixedPointUpdate(qin, cap, potential, f);
  }

  /** A solution of f * (capacity + potential) == (influx + potential) *
      capacity lies between the influx and capacity. */
  lemma FixedPointBounds(qin: real, cap: real, potential: real, f: real)
    requires 0.0 <= qin < cap && 0.0 <= potential
    requires Mul(f, cap + potential) == Mul(qin + potential, cap)
    ensures qin <= f < cap
  {
    var s := cap + potential;
    assert Mul(qin, s) <= Mul(f, s) by {
      MulMonotone(potential, qin, cap);
      assert Mul(qin, s) == qin * cap + Mul(potential, qin);
      assert Mul(f, s) == qin * cap + Mul(potential, cap);
    }
    MulCancelLe(qin, f, s);
    assert Mul(f, s) < Mul(cap, s) by {
      MulPositive(cap, cap - qin);
      assert Mul(cap, s) - Mul(f, s) == Mul(cap, cap - qin);
    }
    if f >= cap {
      MulMonotoneLeft(cap, f, s);
    }
  }

  /** A solution of f * (capacity + potential) == (influx + potential) *
      capacity is a fixed point of the linear-decline update. */
  lemma FixedPointUpdate(qin: real, cap: real, potential: real, f: real)
    requires 0.0 < cap && 0.0 <= potential
    requires Mul(f, cap + potential) == Mul(qin + potential, cap)
    ensures Update(qin, cap, potential, LinearDecline, f) == f
  {
    var x := Div(f, cap);
    DivCancel(f, cap);
    var u := Update(qin, cap, potential, LinearDecline, f);
    assert u == qin + Mul(potential, 1.0 - x);
    assert Mul(u, cap) == qin * cap + potential * cap - potential * Mul(x, cap);
    assert Mul(u, cap) == Mul(f, cap);
    MulRightCancel(u, f, cap);
  }

  /** The linear-decline update moves the estimate to the other side of the
      fixed point, at potential / capacity times its distance. */
  lemma LinearDeclineStep(qin: real, cap: real, potential: real, q: real)
    requires 0.0 <= qin < cap && 0.0 <= potential
    ensures var f := LinearDeclineFixedPoint(qin, cap, potential);
            Update(qin, cap, potential, LinearDecline, q) - f == -Mul(Div(potential, cap), q - f)
  {
    LinearDeclineFixedPointSolves(qin, cap, potential);
    var f := LinearDeclineFixedPoint(qin, cap, potential);
    assert Update(qin, cap, potential, LinearDecline, q) - Update(qin, cap, potential, LinearDecline, f)
        == potential * (f - q) / cap;
  }

  /** When the potential is below capacity, the linear-decline update from
      an estimate at or above the influx stays strictly below capacity, so the
      iteration is never throttled. */
  lemma LinearDeclineBelowCapacity(qin: real, cap: real, potential: real, q: real)
    requires 0.0 <= qin <= q < cap && 0.0 <= potential < cap
    ensures Update(qin, cap, potential, LinearDecline, q) < cap
  {
    assert Update(qin, cap, potential, LinearDecline, q) == qin + potential * (cap - q) / cap;
    assert potential * (cap - q) / cap <= potential * (cap - qin) / cap;
    assert potential * (cap - qin) / cap < cap - qin;
  }

  lemma LinearDeclineUpdate(qin: real, cap: real, potential: real, qout: real)
    requires 0.0 <= qin <= qout < cap && 0.0 <= potential < cap
    ensures var next := Update(qin, cap, potential, LinearDecline, qout);
            var f := LinearDeclineFixedPoint(qin, cap, potential);
            && qin <= next < cap
            && next - qin <= potential
            && Abs(next - f) == Mul(Div(potential, cap), Abs(qout - f))
  {
    var f := LinearDeclineFixedPoint(qin, cap, potential);
    DivUnit(potential, cap);
    UpdateBounds(qin, cap, potential, LinearDecline, qout);
    LinearDeclineBelowCapacity(qin, cap, potential, qout);
    LinearDeclineStep(qin, cap, potential, qout);
    AbsScale(Div(potential, cap), qout - f);
  }

  /** After n unthrottled updates the linear-decline estimate is
      (potential / capacity)^n times as far from the fixed point as the
      starting estimate. */
  lemma {:induction false} LinearDeclineContracts(qin: real, cap: real, potential: real, qout: real, error: real, repeats: nat)
    requires 0.0 <= qin <= qout < cap && 0.0 <= potential < cap
    requires qout - qin <= potential
    requires 0.0 <= error <= 1.0
    requires error == 0.0 ==> Update(qin, cap, potential, LinearDecline, qout) == qout
    ensures var e := Iterate(qin, cap, potential, LinearDecline, qout, error, repeats);
            var f := LinearDeclineFixedPoint(qin, cap, potential);
            && !e.saturated
            && Abs(e.volumeOut - f) == Mul(Pow(Div(potential, cap), repeats), Abs(qout - f))
    decreases repeats
  {
    if repeats >= 1 {
      var f := LinearDeclineFixedPoint(qin, cap, potential);
      var next := Update(qin, cap, potential, LinearDecline, qout);
      LinearDeclineUpdate(qin, cap, potential, qout);
      var change := Div(Abs(next - qout), cap);
      DivUnit(Abs(next - qout), cap);
      DivZero(Abs(next - qout), cap);
      LinearDeclineContracts(qin, cap, potential, next, change, repeats - 1);
      PowStep(Div(potential, cap), repeats - 1, Abs(qout - f));
    }
  }

  lemma TriangleBound(a: real, b: real, f: real, k: real)
    requires 0.0 <= k <= 1.0 && Abs(a - f) == Mul(k, Abs(b - f))
    ensures Abs(a - b) <= 2.0 * Abs(b - f)
  {
    MulMonotone(Abs(b - f), k, 1.0);
  }

  /** The error diagnostic of the linear-decline iteration, scaled by
      capacity, is at most twice the distance to the fixed point before the
      last update. */
  lemma {:induction false} LinearDeclineErrorBound(qin: real, cap: real, potential: real, qout: real, error: real, repeats: nat)
    requires 0.0 <= qin <= qout < cap && 0.0 <= potential < cap
    requires qout - qin <= potential
    requires 0.0 <= error <= 1.0
    requires error == 0.0 ==> Update(qin, cap, potential, LinearDecline, qout) == qout
    requires repeats >= 1
    ensures var e := Iterate(qin, cap, potential, LinearDecline, qout, error, repeats);
            var f := LinearDeclineFixedPoint(qin, cap, potential);
            Mul(e.error, cap) <= 2.0 * Mul(Pow(Div(potential, cap), repeats - 1), Abs(qout - f))
    decreases repeats
  {
    var f := LinearDeclineFixedPoint(qin, cap, potential);
    var k := Div(potential, cap);
    var next := Update(qin, cap, potential, LinearDecline, qout);
    LinearDeclineUpdate(qin, cap, potential, qout);
    IterateUnfold(qin, cap, potential, LinearDecline, qout, error, repeats);
    var change := Div(Abs(next - qout), cap);
    DivUnit(potential, cap);
    if repeats == 1 {
      DivCancel(Abs(next - qout), cap);
      TriangleBound(next, qout, f, k);
    } else {
      LinearDeclineErrorBound(qin, cap, potential, next, change, repeats - 1);
      PowStep(k, repeats - 2, Abs(qout - f));
    }
  }

  /** The solver with the linear decline and a potential below capacity
      converges geometrically on the closed-form fixed point, with an error
      diagnostic that shrinks at the same rate. */
  lemma LinearDeclineConverges(qin: real, cap: real, potential: real, areaFactor: real, repeats: nat)
    requires 0.0 <= qin < cap && 0.0 <= potential < cap && 0.0 < areaFactor
    ensures var r := PseudoImplicit(qin, cap, potential, areaFactor, LinearDecline, repeats);
            var f := LinearDeclineFixedPoint(qin, cap, potential);
            var k := Div(potential, cap);
            && r.volumeOut < cap
            && Abs(r.volumeOut - f) == Mul(Pow(k, repeats), Abs(qin - f))
            && (repeats >= 1 ==> Mul(r.error, cap) <= 2.0 * Mul(Pow(k, repeats - 1), Abs(qin - f)))
  {
    LinearDeclineContracts(qin, cap, potential, qin, 1.0, repeats);
    if repeats >= 1 {
      LinearDeclineErrorBound(qin, cap, potential, qin, 1.0, repeats);
    }
  }

  /** A bound usable after any prefix of the updates: after `repeats`
      updates the outflux is at least as close to the fixed point as
      (potential / capacity)^m times the initial distance, for every
      m <= repeats, and the error diagnostic obeys the matching bound. */
  lemma LinearDeclineWithin(qin: real, cap: real, potential: real, areaFactor: real, repeats: nat, m: nat)
    requires 0.0 <= qin < cap && 0.0 <= potential < cap && 0.0 < areaFactor && m <= repeats
    ensures var r := PseudoImplicit(qin, cap, potential, areaFactor, LinearDecline, repeats);
            var f := LinearDeclineFixedPoint(qin, cap, potential);
            var k := Div(potential, cap);
            && Abs(r.volumeOut - f) <= Mul(Pow(k, m), Abs(qin - f))
            && (m < repeats ==> Mul(r.error, cap) <= 2.0 * Mul(Pow(k, m), Abs(qin - f)))
  {
    var f := LinearDeclineFixedPoint(qin, cap, potential);
    var k := Div(potential, cap);
    var d := Abs(qin - f);
    LinearDeclineConverges(qin, cap, potential, areaFactor, repeats);
    DivUnit(potential, cap);
    PowAntitone(k, m, repeats);
    MulMonotoneLeft(Pow(k, repeats), Pow(k, m), d);
    if m < repeats {
      PowAntitone(k, m, repeats - 1);
      MulMonotoneLeft(Pow(k, repeats - 1), Pow(k, m), d);
    }
  }

  /** With the linear decline and a potential at or above capacity, an
      unsaturated node is always throttled: the first update already
      reaches capacity, so the node exports exactly its capacity, erodes
      exactly the headroom, and reports a zero error. */
  lemma LinearDeclineThrottled(qin: real, cap: real, potential: real, areaFactor: real, repeats: nat)
    requires 0.0 <= qin < cap <= potential && 0.0 < areaFactor && repeats >= 1
    ensures var r := PseudoImplicit(qin, cap, potential, areaFactor, LinearDecline, repeats);
            && r.volumeOut == cap
            && r.error == 0.0
            && Mul(r.erosionRate, areaFactor) == cap - qin
            && r.relativeFlux == (Div(qin, cap) + 1.0) / 2.0
  {
    DivCancel(qin, cap);
    DivUnit(qin, cap);
    MulMonotoneLeft(cap, potential, 1.0 - Div(qin, cap));
    assert Update(qin, cap, potential, LinearDecline, qin) >= cap;
    DivOfProduct(1.0, cap, cap);
  }
}
