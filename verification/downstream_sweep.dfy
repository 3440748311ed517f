/** The downstream sweep.

    Nodes drain along a receiver forest: every node has one receiver, and a
    node that is its own receiver is an outlet. The sweep visits the nodes in
    an order listed outlet-first, consuming it from its end, so every node is
    settled after all the nodes that drain into it. At each node the river
    inflow (the sediment already routed into it) and the local channel supply
    form the supply; the per-node solver decides the export, the bed-lowering
    rate and the relative flux; the export is added to the receiver's inflow.

    Porosity converts between rock volume and bulk sediment volume: a rock
    volume V eroded from the bed becomes a bulk volume V / porosity in the
    channel, so the solver works with the bulk conversion factor
    area / porosity.
 */
module DownstreamSweep {
  import opened RealArith
  import opened Closures
  import opened NodeFluxSolver

  /** What the sweep records for one node: the bed elevation rate (negative
      for erosion), the volumetric flux recorded for the node, the relative
      sediment flux, the transport-limited flag and the deposition rate. */
  datatype NodeResult = NodeResult(
    dzdt: real,
    fluxOut: real,
    relativeFlux: real,
    transportLimited: bool,
    deposition: real)

  /** The part of a supply that a capacity cannot carry; a capacity of zero
      or below carries nothing. */
  function Excess(supply: real, cap: real): real
  {
    var carried := if cap <= 0.0 then 0.0 else cap;
    if supply > carried then supply - carried else 0.0
  }

  /** Settles one node given its river inflow.

      A non-outlet node erodes at most its detachment-limited rate, exports
      no more than its capacity, and conserves mass exactly: supply plus the
      bulk volume of eroded rock equals export plus deposition. An outlet
      erodes nothing and records its river inflow as its flux. At every node
      the deposition is exactly the supply that capacity cannot carry, and
      the node is transport-limited exactly when its supply meets its
      capacity (or it has none). */
  function Settle(riverIn: real, hillslope: real, cap: real, erosion: real, area: real,
                  porosity: real, c: Closure, repeats: nat, outlet: bool): (s: NodeResult)
    requires 0.0 <= riverIn && 0.0 <= hillslope && 0.0 <= erosion
    requires 0.0 < area && 0.0 < porosity
    ensures s.dzdt <= 0.0 && -s.dzdt <= erosion
    ensures outlet ==> s.dzdt == 0.0 && s.fluxOut == riverIn
    ensures !outlet ==> 0.0 <= s.fluxOut
    ensures !outlet && 0.0 < cap ==> s.fluxOut <= cap
    ensures !outlet ==>
              riverIn + hillslope + Mul(-s.dzdt, Div(area, porosity)) == s.fluxOut + s.deposition
    ensures s.deposition == Excess(riverIn + hillslope, cap)
    ensures s.transportLimited <==> cap <= 0.0 || riverIn + hillslope >= cap
    ensures s.transportLimited <==> s.relativeFlux == 1.0
    ensures 0.0 <= s.relativeFlux <= 1.0
  {
    var supply := riverIn + hillslope;
    var areaFactor := Div(area, porosity);
    DivMonotone(0.0, area, porosity);
    var potential := if outlet then 0.0 else Mul(erosion, areaFactor);
    MulNonnegative(erosion, areaFactor);
    var r := PseudoImplicit(supply, cap, potential, areaFactor, c, repeats);
    SaturatedIffInfluxMeetsCapacity(supply, cap, potential, areaFactor, c, repeats);
    RateBelowPotential(supply, cap, potential, areaFactor, erosion, c, repeats, outlet);
    NodeResult(
      -r.erosionRate,
      if outlet then riverIn else r.volumeOut,
      r.relativeFlux,
      r.relativeFlux == 1.0,
      if r.volumeOut < supply then supply - r.volumeOut else 0.0)
  }

  /** The solver's bed-lowering rate never exceeds the erosion rate whose
      bulk volume is the potential, and an outlet's is zero. */
  lemma RateBelowPotential(supply: real, cap: real, potential: real, areaFactor: real,
                           erosion: real, c: Closure, repeats: nat, outlet: bool)
    requires 0.0 <= supply && 0.0 < areaFactor && 0.0 <= erosion
    requires potential == if outlet then 0.0 else Mul(erosion, areaFactor)
    ensures var r := PseudoImplicit(supply, cap, potential, areaFactor, c, repeats);
            && r.erosionRate <= erosion
            && (outlet ==> r.erosionRate == 0.0)
  {
    MulNonnegative(erosion, areaFactor);
    var r := PseudoImplicit(supply, cap, potential, areaFactor, c, repeats);
    if supply < cap {
      MulCancelLe(r.erosionRate, erosion, areaFactor);
      if outlet {
        MulPositiveCancel(r.erosionRate, areaFactor);
      }
    }
  }

  /** Where capacity is never approached, the constant closure makes the
      sweep plain stream-power erosion: the bed lowers at exactly the
      detachment-limited rate and the whole bulk volume is exported. */
  lemma SettleUnlimited(riverIn: real, hillslope: real, cap: real, erosion: real, area: real,
                        porosity: real, repeats: nat)
    requires 0.0 <= riverIn && 0.0 <= hillslope && 0.0 <= erosion
    requires 0.0 < area && 0.0 < porosity && repeats >= 1
    requires riverIn + hillslope + Mul(erosion, Div(area, porosity)) < cap
    ensures var s := Settle(riverIn, hillslope, cap, erosion, area, porosity, Constant, repeats, false);
            && s.dzdt == -erosion
            && s.fluxOut == riverIn + hillslope + Mul(erosion, Div(area, porosity))
            && s.deposition == 0.0
            && !s.transportLimited
            && s.relativeFlux == (Div(riverIn + hillslope, cap) + Div(s.fluxOut, cap)) / 2.0
  {
    var areaFactor := Div(area, porosity);
    DivMonotone(0.0, area, porosity);
    MulNonnegative(erosion, areaFactor);
    var supply := riverIn + hillslope;
    var potential := Mul(erosion, areaFactor);
    ConstantClosureClosedForm(supply, cap, potential, areaFactor, repeats);
    var r := PseudoImplicit(supply, cap, potential, areaFactor, Constant, repeats);
    MulRightCancel(r.erosionRate, erosion, areaFactor);
  }

  /** With the constant closure, a node whose supply fits under capacity but
      whose full potential would not is throttled: it exports exactly its
      capacity and erodes only the headroom. */
  lemma SettleThrottled(riverIn: real, hillslope: real, cap: real, erosion: real, area: real,
                        porosity: real, repeats: nat)
    requires 0.0 <= riverIn && 0.0 <= hillslope && 0.0 <= erosion
    requires 0.0 < area && 0.0 < porosity && repeats >= 1
    requires riverIn + hillslope < cap <= riverIn + hillslope + Mul(erosion, Div(area, porosity))
    ensures var s := Settle(riverIn, hillslope, cap, erosion, area, porosity, Constant, repeats, false);
            && s.fluxOut == cap
            && Mul(-s.dzdt, Div(area, porosity)) == cap - (riverIn + hillslope)
            && s.deposition == 0.0
            && !s.transportLimited
            && s.relativeFlux == (Div(riverIn + hillslope, cap) + 1.0) / 2.0
  {
    var areaFactor := Div(area, porosity);
    DivMonotone(0.0, area, porosity);
    MulNonnegative(erosion, areaFactor);
    ConstantClosureClosedForm(riverIn + hillslope, cap, Mul(erosion, areaFactor), areaFactor, repeats);
    DivOfProduct(1.0, cap, cap);
  }

  /** A node whose supply alone meets its capacity, or which has none, is
      swamped whatever the closure: it erodes nothing, exports what capacity
      allows (an outlet records its river inflow instead), deposits the
      rest and is fully saturated. */
  lemma SettleSwamped(riverIn: real, hillslope: real, cap: real, erosion: real, area: real,
                      porosity: real, c: Closure, repeats: nat, outlet: bool)
    requires 0.0 <= riverIn && 0.0 <= hillslope && 0.0 <= erosion
    requires 0.0 < area && 0.0 < porosity
    requires cap <= 0.0 || riverIn + hillslope >= cap
    ensures var s := Settle(riverIn, hillslope, cap, erosion, area, porosity, c, repeats, outlet);
            && s.dzdt == 0.0
            && s.fluxOut == (if outlet then riverIn else if cap <= 0.0 then 0.0 else cap)
            && s.deposition == riverIn + hillslope - (if cap <= 0.0 then 0.0 else cap)
            && s.relativeFlux == 1.0
            && s.transportLimited
  {
  }

  /** An outlet below capacity passes its whole supply: nothing is eroded or
      deposited, and the relative flux is the supply ratio. */
  lemma SettleOutletBelowCapacity(riverIn: real, hillslope: real, cap: real, erosion: real, area: real,
                                  porosity: real, c: Closure, repeats: nat)
    requires 0.0 <= riverIn && 0.0 <= hillslope && 0.0 <= erosion
    requires 0.0 < area && 0.0 < porosity && repeats >= 1
    requires riverIn + hillslope < cap
    ensures var s := Settle(riverIn, hillslope, cap, erosion, area, porosity, c, repeats, true);
            && s.dzdt == 0.0
            && s.fluxOut == riverIn
            && s.deposition == 0.0
            && s.relativeFlux == Div(riverIn + hillslope, cap)
            && !s.transportLimited
  {
    var areaFactor := Div(area, porosity);
    DivMonotone(0.0, area, porosity);
    ZeroPotentialPassesThrough(riverIn + hillslope, cap, areaFactor, c, repeats);
  }

  predicate AllNonnegative(xs: seq<real>)
  {
    forall u :: 0 <= u < |xs| ==> 0.0 <= xs[u]
  }

  /** The sum of the fluxes recorded for the donors of `v` among nodes
      0 .. k-1: the nodes other than `v` whose receiver is `v`. */
  function DonorSum(receiver: seq<nat>, out: seq<real>, v: nat, k: nat): (s: real)
    requires k <= |receiver| == |out|
    ensures AllNonnegative(out) ==> 0.0 <= s
    ensures (forall u :: 0 <= u < k ==> out[u] == 0.0) ==> s == 0.0
  {
    if k == 0 then 0.0
    else DonorSum(receiver, out, v, k - 1) + (if receiver[k - 1] == v && k - 1 != v then out[k - 1] else 0.0)
  }

  /** Changing one node's recorded flux changes only its receiver's donor
      sum, and by exactly the change; an outlet's flux feeds nobody. */
  lemma {:induction false} DonorSumUpdate(receiver: seq<nat>, out: seq<real>, u: nat, x: real, v: nat, k: nat)
    requires k <= |receiver| == |out| && u < |out|
    ensures DonorSum(receiver, out[u := x], v, k)
            == DonorSum(receiver, out, v, k)
               + (if u < k && receiver[u] == v && u != v then x - out[u] else 0.0)
  {
    if k > 0 {
      DonorSumUpdate(receiver, out, u, x, v, k - 1);
    }
  }

  /** The fluxes recorded by a sweep, node by node. */
  function FluxesOut(results: seq<NodeResult>): (out: seq<real>)
    ensures |out| == |results|
    ensures forall u :: 0 <= u < |results| ==> out[u] == results[u].fluxOut
  {
    seq(|results|, u requires 0 <= u < |results| => results[u].fluxOut)
  }

  /** The visiting order lists every node exactly once, and a receiver is
      listed before each of its donors. */
  predicate ValidOrder(order: seq<nat>, receiver: seq<nat>)
  {
    && |order| == |receiver|
    && (forall i :: 0 <= i < |order| ==> order[i] < |receiver|)
    && (forall i, j :: 0 <= i < j < |order| ==> order[i] != order[j])
    && (forall v :: 0 <= v < |receiver| ==> v in order)
    && (forall i, j ::
          (0 <= i < |order| && 0 <= j < |order| && order[j] != order[i] && receiver[order[j]] == order[i]) ==> i < j)
  }

  /** The per-node inputs of one sweep, indexed by node id: receivers,
      cell areas, channel sediment supplies, transport capacities,
      detachment-limited erosion rates and the initial content of the flux
      array, plus the sediment porosity. */
  datatype Network = Network(
    receiver: seq<nat>,
    area: seq<real>,
    hillslope: seq<real>,
    cap: seq<real>,
    erosion: seq<real>,
    flux0: seq<real>,
    porosity: real)

  /** Per-node arrays of equal length, receivers in range, and the
      non-negative rates and positive areas the kernel expects. */
  predicate ValidNetwork(net: Network)
  {
    var n := |net.receiver|;
    && |net.area| == n && |net.hillslope| == n && |net.cap| == n && |net.erosion| == n && |net.flux0| == n
    && 0.0 < net.porosity
    && (forall v :: 0 <= v < n ==> net.receiver[v] < n)
    && (forall v :: 0 <= v < n ==>
          0.0 < net.area[v] && 0.0 <= net.hillslope[v] && 0.0 <= net.erosion[v] && 0.0 <= net.flux0[v])
  }

  /** Node `v` settled on its initial flux entry plus the fluxes `out`
      recorded for its donors. */
  function NodeOutcome(net: Network, c: Closure, repeats: nat, out: seq<real>, v: nat): NodeResult
    requires ValidNetwork(net) && |out| == |net.receiver| && v < |out|
    requires AllNonnegative(out)
  {
    Settle(net.flux0[v] + DonorSum(net.receiver, out, v, |out|), net.hillslope[v], net.cap[v],
           net.erosion[v], net.area[v], net.porosity, c, repeats, net.receiver[v] == v)
  }

  /** A node's outcome depends on the recorded fluxes only through its
      donor sum. */
  lemma NodeOutcomeFrame(net: Network, c: Closure, repeats: nat, a: seq<real>, b: seq<real>, v: nat)
    requires ValidNetwork(net) && |a| == |b| == |net.receiver| && v < |a|
    requires AllNonnegative(a) && AllNonnegative(b)
    requires DonorSum(net.receiver, a, v, |a|) == DonorSum(net.receiver, b, v, |b|)
    ensures NodeOutcome(net, c, repeats, a, v) == NodeOutcome(net, c, repeats, b, v)
  {
  }

  /** Settling a node on its initial flux entry plus its donor sum is its
      outcome. */
  lemma SettleOnInflow(net: Network, c: Closure, repeats: nat, out: seq<real>, v: nat, inflow: real)
    requires ValidNetwork(net) && |out| == |net.receiver| && v < |out| && AllNonnegative(out)
    requires inflow == net.flux0[v] + DonorSum(net.receiver, out, v, |out|)
    ensures Settle(inflow, net.hillslope[v], net.cap[v], net.erosion[v], net.area[v], net.porosity,
                   c, repeats, net.receiver[v] == v)
            == NodeOutcome(net, c, repeats, out, v)
  {
    assert 0.0 <= net.flux0[v] && 0.0 <= DonorSum(net.receiver, out, v, |out|);
  }

  /** The outcome of a sweep: every recorded flux is non-negative and every
      node is settled on its initial flux entry plus the fluxes of its
      donors. */
  predicate SweepOutcome(net: Network, c: Closure, repeats: nat, results: seq<NodeResult>)
    requires ValidNetwork(net)
  {
    && |results| == |net.receiver|
    && (forall v :: 0 <= v < |results| ==> 0.0 <= results[v].fluxOut)
    && (forall v :: 0 <= v < |results| ==> results[v] == NodeOutcome(net, c, repeats, FluxesOut(results), v))
  }

  /** The arrays the sweep maintains: the results recorded so far, the
      fluxes the settled nodes send on, and the flux array, which
      accumulates the river inflow of the nodes not yet settled. */
  datatype SweepState = SweepState(results: seq<NodeResult>, out: seq<real>, flux: seq<real>)

  /** Once the nodes `order[i..]` are settled, exactly they have a flux
      recorded, and it is the flux of their result. */
  predicate FluxesRecorded(order: seq<nat>, n: nat, i: nat, st: SweepState)
    requires i <= |order| == n
    requires forall j :: 0 <= j < n ==> order[j] < n
  {
    && |st.results| == n && |st.out| == n && |st.flux| == n
    && AllNonnegative(st.out)
    && (forall u :: 0 <= u < n && u !in order[i..] ==> st.out[u] == 0.0)
    && (forall j :: i <= j < n ==> st.out[order[j]] == st.results[order[j]].fluxOut)
  }

  /** The flux-array entry of every unsettled node holds its initial entry
      plus everything its settled donors have sent it. */
  predicate InflowAccumulated(order: seq<nat>, net: Network, i: nat, st: SweepState)
    requires ValidOrder(order, net.receiver) && ValidNetwork(net) && i <= |order|
    requires FluxesRecorded(order, |net.receiver|, i, st)
  {
    forall w :: 0 <= w < |net.receiver| && w !in order[i..] ==>
      st.flux[w] == net.flux0[w] + DonorSum(net.receiver, st.out, w, |net.receiver|)
  }

  /** Every settled node has the outcome its donors' fluxes determine. */
  predicate NodesSettled(order: seq<nat>, net: Network, c: Closure, repeats: nat, i: nat, st: SweepState)
    requires ValidOrder(order, net.receiver) && ValidNetwork(net) && i <= |order|
    requires FluxesRecorded(order, |net.receiver|, i, st)
  {
    forall j :: i <= j < |order| ==> st.results[order[j]] == NodeOutcome(net, c, repeats, st.out, order[j])
  }

  /** The state of the sweep once the nodes `order[i..]` are settled. */
  predicate Swept(order: seq<nat>, net: Network, c: Closure, repeats: nat, i: nat, st: SweepState)
    requires ValidOrder(order, net.receiver) && ValidNetwork(net) && i <= |order|
  {
    && FluxesRecorded(order, |net.receiver|, i, st)
    && InflowAccumulated(order, net, i, st)
    && NodesSettled(order, net, c, repeats, i, st)
  }

  /** Settles the node `order[i - 1]` on the inflow accumulated for it,
      records its result and flux, and sends the flux to its receiver
      unless it is an outlet. */
  function Advance(order: seq<nat>, net: Network, c: Closure, repeats: nat, i: nat, st: SweepState): SweepState
    requires ValidOrder(order, net.receiver) && ValidNetwork(net) && 0 < i <= |order|
    requires |st.results| == |st.out| == |st.flux| == |net.receiver|
    requires 0.0 <= st.flux[order[i - 1]]
  {
    var v := order[i - 1];
    var r := net.receiver[v];
    var s := Settle(st.flux[v], net.hillslope[v], net.cap[v], net.erosion[v], net.area[v], net.porosity,
                    c, repeats, r == v);
    SweepState(
      st.results[v := s],
      st.out[v := s.fluxOut],
      if r != v then st.flux[r := st.flux[r] + s.fluxOut] else st.flux)
  }

  /** Reads one node's settlement off a sweep outcome, given its inflow and
      parameters. */
  lemma OutcomeAt(net: Network, c: Closure, repeats: nat, results: seq<NodeResult>, v: nat,
                  inflow: real, hillslope: real, cap: real, erosion: real, area: real, outlet: bool)
    requires ValidNetwork(net) && SweepOutcome(net, c, repeats, results) && v < |results|
    requires inflow == net.flux0[v] + DonorSum(net.receiver, FluxesOut(results), v, |results|)
    requires hillslope == net.hillslope[v] && cap == net.cap[v] && erosion == net.erosion[v]
    requires area == net.area[v] && outlet == (net.receiver[v] == v)
    ensures 0.0 <= inflow && 0.0 <= hillslope && 0.0 <= erosion && 0.0 < area
    ensures results[v] == Settle(inflow, hillslope, cap, erosion, area, net.porosity, c, repeats, outlet)
  {
  }

  /** The sweep. The flux array starts as `net.flux0` and accumulates each
      node's river inflow; the order is consumed from its end. */
  method Sweep(order: seq<nat>, net: Network, c: Closure, repeats: nat) returns (results: seq<NodeResult>)
    requires ValidOrder(order, net.receiver)
    requires ValidNetwork(net)
    ensures SweepOutcome(net, c, repeats, results)
  {
    var n := |net.receiver|;
    var st := SweepState(seq(n, _ => NodeResult(0.0, 0.0, 0.0, false, 0.0)), seq(n, _ => 0.0), net.flux0);
    SweepStart(order, net, c, repeats, st);
    var i := n;
    while i > 0
      invariant 0 <= i <= n
      invariant Swept(order, net, c, repeats, i, st)
    {
      SweepAdvance(order, net, c, repeats, i, st);
      st := Advance(order, net, c, repeats, i, st);
      i := i - 1;
    }
    SweepFinish(order, net, c, repeats, st);
    results := st.results;
  }

  lemma SweepStart(order: seq<nat>, net: Network, c: Closure, repeats: nat, st: SweepState)
    requires ValidOrder(order, net.receiver) && ValidNetwork(net)
    requires |st.results| == |st.out| == |net.receiver| && st.flux == net.flux0
    requires forall u :: 0 <= u < |st.out| ==> st.out[u] == 0.0
    ensures Swept(order, net, c, repeats, |order|, st)
  {
  }

  /** The node settled next is not settled yet. */
  lemma NextUnsettled(order: seq<nat>, receiver: seq<nat>, i: nat)
    requires ValidOrder(order, receiver) && 0 < i <= |order|
    ensures order[i - 1] !in order[i..]
    ensures order[i - 1..] == [order[i - 1]] + order[i..]
  {
    forall j | i <= j < |order|
      ensures order[j] != order[i - 1]
    {
    }
  }

  /** The inflow accumulated for the next node is non-negative. */
  lemma InflowNonnegative(order: seq<nat>, net: Network, i: nat, st: SweepState)
    requires ValidOrder(order, net.receiver) && ValidNetwork(net) && 0 < i <= |order|
    requires FluxesRecorded(order, |net.receiver|, i, st)
    requires InflowAccumulated(order, net, i, st)
    ensures 0.0 <= st.flux[order[i - 1]]
  {
    NextUnsettled(order, net.receiver, i);
  }

  lemma AdvanceRecords(order: seq<nat>, net: Network, c: Closure, repeats: nat, i: nat, st: SweepState)
    requires ValidOrder(order, net.receiver) && ValidNetwork(net) && 0 < i <= |order|
    requires FluxesRecorded(order, |net.receiver|, i, st)
    requires 0.0 <= st.flux[order[i - 1]]
    ensures FluxesRecorded(order, |net.receiver|, i - 1, Advance(order, net, c, repeats, i, st))
  {
    var n := |net.receiver|;
    var v := order[i - 1];
    NextUnsettled(order, net.receiver, i);
    var st' := Advance(order, net, c, repeats, i, st);
    assert 0.0 <= st'.out[v];
    assert AllNonnegative(st'.out);
    forall u | 0 <= u < n && u !in order[i - 1..]
      ensures st'.out[u] == 0.0
    {
    }
    forall j | i - 1 <= j < n
      ensures st'.out[order[j]] == st'.results[order[j]].fluxOut
    {
    }
  }

  lemma AdvanceAccumulates(order: seq<nat>, net: Network, c: Closure, repeats: nat, i: nat, st: SweepState)
    requires ValidOrder(order, net.receiver) && ValidNetwork(net) && 0 < i <= |order|
    requires Swept(order, net, c, repeats, i, st)
    requires 0.0 <= st.flux[order[i - 1]]
    requires FluxesRecorded(order, |net.receiver|, i - 1, Advance(order, net, c, repeats, i, st))
    ensures InflowAccumulated(order, net, i - 1, Advance(order, net, c, repeats, i, st))
  {
    NextUnsettled(order, net.receiver, i);
    var st' := Advance(order, net, c, repeats, i, st);
    SweepStep(order, net.receiver, st.out, i - 1, st'.out[order[i - 1]]);
  }

  /** The node just settled has the outcome of its accumulated inflow. */
  lemma AdvanceSettlesNext(order: seq<nat>, net: Network, c: Closure, repeats: nat, i: nat, st: SweepState)
    requires ValidOrder(order, net.receiver) && ValidNetwork(net) && 0 < i <= |order|
    requires FluxesRecorded(order, |net.receiver|, i, st)
    requires InflowAccumulated(order, net, i, st)
    requires 0.0 <= st.flux[order[i - 1]]
    requires FluxesRecorded(order, |net.receiver|, i - 1, Advance(order, net, c, repeats, i, st))
    ensures var st' := Advance(order, net, c, repeats, i, st);
            st'.results[order[i - 1]] == NodeOutcome(net, c, repeats, st'.out, order[i - 1])
  {
    var v := order[i - 1];
    NextUnsettled(order, net.receiver, i);
    var n := |net.receiver|;
    var st' := Advance(order, net, c, repeats, i, st);
    SweepStep(order, net.receiver, st.out, i - 1, st'.out[v]);
    assert st.flux[v] == net.flux0[v] + DonorSum(net.receiver, st.out, v, n);
    assert DonorSum(net.receiver, st'.out, v, n) == DonorSum(net.receiver, st.out, v, n);
    SettleOnInflow(net, c, repeats, st.out, v, st.flux[v]);
    NodeOutcomeFrame(net, c, repeats, st.out, st'.out, v);
  }

  /** Nodes settled earlier keep their outcome: the node just settled is
      none of their donors. */
  lemma AdvanceKeepsSettled(order: seq<nat>, net: Network, c: Closure, repeats: nat, i: nat, st: SweepState)
    requires ValidOrder(order, net.receiver) && ValidNetwork(net) && 0 < i <= |order|
    requires FluxesRecorded(order, |net.receiver|, i, st)
    requires NodesSettled(order, net, c, repeats, i, st)
    requires 0.0 <= st.flux[order[i - 1]]
    requires FluxesRecorded(order, |net.receiver|, i - 1, Advance(order, net, c, repeats, i, st))
    ensures var st' := Advance(order, net, c, repeats, i, st);
            forall j :: i <= j < |order| ==> st'.results[order[j]] == NodeOutcome(net, c, repeats, st'.out, order[j])
  {
    var v := order[i - 1];
    NextUnsettled(order, net.receiver, i);
    var st' := Advance(order, net, c, repeats, i, st);
    SweepStep(order, net.receiver, st.out, i - 1, st'.out[v]);
    forall j | i <= j < |order|
      ensures st'.results[order[j]] == NodeOutcome(net, c, repeats, st'.out, order[j])
    {
      assert st'.results[order[j]] == st.results[order[j]];
      NodeOutcomeFrame(net, c, repeats, st.out, st'.out, order[j]);
    }
  }

  lemma AdvanceSettles(order: seq<nat>, net: Network, c: Closure, repeats: nat, i: nat, st: SweepState)
    requires ValidOrder(order, net.receiver) && ValidNetwork(net) && 0 < i <= |order|
    requires Swept(order, net, c, repeats, i, st)
    requires 0.0 <= st.flux[order[i - 1]]
    requires FluxesRecorded(order, |net.receiver|, i - 1, Advance(order, net, c, repeats, i, st))
    ensures NodesSettled(order, net, c, repeats, i - 1, Advance(order, net, c, repeats, i, st))
  {
    AdvanceSettlesNext(order, net, c, repeats, i, st);
    AdvanceKeepsSettled(order, net, c, repeats, i, st);
    var st' := Advance(order, net, c, repeats, i, st);
    forall j | i - 1 <= j < |order|
      ensures st'.results[order[j]] == NodeOutcome(net, c, repeats, st'.out, order[j])
    {
    }
  }

  /** Settling the next node keeps the sweep state. */
  lemma SweepAdvance(order: seq<nat>, net: Network, c: Closure, repeats: nat, i: nat, st: SweepState)
    requires ValidOrder(order, net.receiver) && ValidNetwork(net) && 0 < i <= |order|
    requires Swept(order, net, c, repeats, i, st)
    ensures 0.0 <= st.flux[order[i - 1]]
    ensures Swept(order, net, c, repeats, i - 1, Advance(order, net, c, repeats, i, st))
  {
    InflowNonnegative(order, net, i, st);
    AdvanceRecords(order, net, c, repeats, i, st);
    AdvanceAccumulates(order, net, c, repeats, i, st);
    AdvanceSettles(order, net, c, repeats, i, st);
  }

  /** Once every node is settled, the recorded fluxes are the results' and
      the sweep outcome holds. */
  lemma SweepFinish(order: seq<nat>, net: Network, c: Closure, repeats: nat, st: SweepState)
    requires ValidOrder(order, net.receiver) && ValidNetwork(net)
    requires Swept(order, net, c, repeats, 0, st)
    ensures SweepOutcome(net, c, repeats, st.results)
  {
    var n := |net.receiver|;
    assert order[0..] == order;
    assert st.out == FluxesOut(st.results) by {
      forall u | 0 <= u < n
        ensures st.out[u] == st.results[u].fluxOut
      {
        assert u in order;
        var j :| 0 <= j < n && order[j] == u;
      }
    }
    forall v | 0 <= v < n
      ensures st.results[v] == NodeOutcome(net, c, repeats, st.out, v)
    {
      assert v in order;
      var j :| 0 <= j < n && order[j] == v;
    }
  }

  /** Settling `order[i]` and recording flux `x` for it changes no settled
      node's donor sum, not its own, and adds `x` to the donor sum of its
      receiver when it is not an outlet. */
  lemma SweepStep(order: seq<nat>, receiver: seq<nat>, out: seq<real>, i: nat, x: real)
    requires ValidOrder(order, receiver) && |out| == |receiver| && i < |order|
    requires out[order[i]] == 0.0
    ensures forall j :: i <= j < |order| ==>
              DonorSum(receiver, out[order[i] := x], order[j], |out|) == DonorSum(receiver, out, order[j], |out|)
    ensures forall w :: 0 <= w < |out| && w !in order[i..] ==>
              DonorSum(receiver, out[order[i] := x], w, |out|)
              == DonorSum(receiver, out, w, |out|) + (if receiver[order[i]] == w then x else 0.0)
  {
    var v := order[i];
    forall j | i <= j < |order|
      ensures DonorSum(receiver, out[v := x], order[j], |out|) == DonorSum(receiver, out, order[j], |out|)
    {
      DonorSumUpdate(receiver, out, v, x, order[j], |out|);
    }
    forall w | 0 <= w < |out| && w !in order[i..]
      ensures DonorSum(receiver, out[v := x], w, |out|)
              == DonorSum(receiver, out, w, |out|) + (if receiver[v] == w then x else 0.0)
    {
      DonorSumUpdate(receiver, out, v, x, w, |out|);
      assert v == order[i..][0];
    }
  }
}
