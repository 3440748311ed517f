/** The sweep on the pinned six-node network with the constant closure.
    Nodes 0 and 1 drain to 2, then 3, then 4, then the outlet 5; the order
    is listed outlet-first. Every lemma holds for any number of repeats
    from one on. */
module SweepExamples {
  import opened RealArith
  import opened Closures
  import opened NodeFluxSolver
  import opened DownstreamSweep

  const Order: seq<nat> := [5, 4, 3, 2, 0, 1]
  const Receivers: seq<nat> := [2, 2, 3, 4, 5, 5]
  const Areas: seq<real> := [1.0, 0.1, 0.5, 1.0, 1.0, 1.0]
  const ErosionRates: seq<real> := [1.0, 2.0, 1.0, 1.0, 1.0, 1.0]
  const Zeros: seq<real> := [0.0, 0.0, 0.0, 0.0, 0.0, 0.0]

  /** The network with limited capacities and no channel supply. */
  function LimitedNetwork(): Network
  {
    Network(Receivers, Areas, Zeros, [0.0, 1.0, 1.0, 1.0, 0.9, 0.6], ErosionRates, Zeros, 1.0)
  }

  /** The same network with capacities too large to matter and porosity
      2/3. */
  function PorousNetwork(): Network
  {
    Network(Receivers, Areas, Zeros, seq(6, _ => 1.0e20), ErosionRates, Zeros, 2.0 / 3.0)
  }

  /** The network with 10 units of channel supply at every node. */
  function SwampedNetwork(): Network
  {
    Network(Receivers, Areas, seq(6, _ => 10.0), [0.0, 1.0, 1.0, 1.0, 0.9, 0.9], ErosionRates, Zeros, 1.0)
  }

  lemma OrderIsValid()
    ensures ValidOrder(Order, Receivers)
  {
    OrderPositions();
    ReceiversLater();
    assert forall v :: 0 <= v < 6 ==> Order[5 - Position(v)] == v;
  }

  /** Node Order[i] sits at position 5 - i counted from the end. */
  lemma OrderPositions()
    ensures |Order| == |Receivers| == 6
    ensures forall i :: 0 <= i < 6 ==> Order[i] < 6 && Position(Order[i]) == 5 - i
  {
  }

  /** A node's receiver, unless the node is the outlet, is consumed after it. */
  lemma ReceiversLater()
    ensures forall w :: 0 <= w < 6 && Receivers[w] != w ==> Position(w) < Position(Receivers[w])
  {
  }

  /** Where node v sits in the order, counted from the end. */
  function Position(v: nat): nat
  {
    if v == 1 then 0 else if v == 0 then 1 else if v == 2 then 2
    else if v == 3 then 3 else if v == 4 then 4 else 5
  }

  /** The donor sums of the six-node network, whatever fluxes are recorded. */
  lemma SixNodeDonors(out: seq<real>)
    requires |out| == 6
    ensures DonorSum(Receivers, out, 0, 6) == 0.0
    ensures DonorSum(Receivers, out, 1, 6) == 0.0
    ensures DonorSum(Receivers, out, 2, 6) == out[0] + out[1]
    ensures DonorSum(Receivers, out, 3, 6) == out[2]
    ensures DonorSum(Receivers, out, 4, 6) == out[3]
    ensures DonorSum(Receivers, out, 5, 6) == out[4]
  {
    forall v: nat | v < 6
      ensures DonorSum(Receivers, out, v, 6)
              == (if v == 2 then out[0] + out[1] else 0.0)
                 + (if v == 3 then out[2] else 0.0)
                 + (if v == 4 then out[3] else 0.0)
                 + (if v == 5 then out[4] else 0.0)
    {
      assert DonorSum(Receivers, out, v, 1) == (if v == 2 then out[0] else 0.0);
      assert DonorSum(Receivers, out, v, 2) == (if v == 2 then out[0] + out[1] else 0.0);
      assert DonorSum(Receivers, out, v, 3) == DonorSum(Receivers, out, v, 2) + (if v == 3 then out[2] else 0.0);
      assert DonorSum(Receivers, out, v, 4) == DonorSum(Receivers, out, v, 3) + (if v == 4 then out[3] else 0.0);
      assert DonorSum(Receivers, out, v, 5) == DonorSum(Receivers, out, v, 4) + (if v == 5 then out[4] else 0.0);
    }
  }

  /** A network on the six-node topology whose flux array starts empty. */
  predicate SixNodeChain(net: Network)
  {
    ValidNetwork(net) && net.receiver == Receivers && net.flux0 == Zeros
  }

  /** Node `v` of a six-node network settled on river inflow `inflow`;
      node 5 is the outlet. */
  function ChainNode(net: Network, c: Closure, repeats: nat, v: nat, inflow: real): NodeResult
    requires SixNodeChain(net) && v < 6 && 0.0 <= inflow
  {
    Settle(inflow, net.hillslope[v], net.cap[v], net.erosion[v], net.area[v], net.porosity, c, repeats, v == 5)
  }

  /** The recurrence of a sweep on the six-node topology at the two
      headwater nodes: they receive nothing. */
  lemma ChainHeadwaters(net: Network, c: Closure, repeats: nat, results: seq<NodeResult>)
    requires SixNodeChain(net) && SweepOutcome(net, c, repeats, results)
    ensures results[0] == ChainNode(net, c, repeats, 0, 0.0)
    ensures results[1] == ChainNode(net, c, repeats, 1, 0.0)
  {
    SixNodeDonors(FluxesOut(results));
    OutcomeAt(net, c, repeats, results, 0, 0.0, net.hillslope[0], net.cap[0], net.erosion[0], net.area[0], false);
    OutcomeAt(net, c, repeats, results, 1, 0.0, net.hillslope[1], net.cap[1], net.erosion[1], net.area[1], false);
  }

  /** At the confluence, node 2 receives the fluxes of both headwaters. */
  lemma ChainConfluence(net: Network, c: Closure, repeats: nat, results: seq<NodeResult>, inflow: real)
    requires SixNodeChain(net) && SweepOutcome(net, c, repeats, results)
    requires inflow == results[0].fluxOut + results[1].fluxOut
    ensures 0.0 <= inflow
    ensures results[2] == ChainNode(net, c, repeats, 2, inflow)
  {
    var out := FluxesOut(results);
    SixNodeDonors(out);
    assert out[0] == results[0].fluxOut && out[1] == results[1].fluxOut;
    OutcomeAt(net, c, repeats, results, 2, inflow, net.hillslope[2], net.cap[2], net.erosion[2], net.area[2], false);
  }

  /** Along the trunk each node receives the flux of the node above it, and
      the outlet 5 is its own receiver. */
  lemma ChainTrunk(net: Network, c: Closure, repeats: nat, results: seq<NodeResult>)
    requires SixNodeChain(net) && SweepOutcome(net, c, repeats, results)
    ensures 0.0 <= results[2].fluxOut && 0.0 <= results[3].fluxOut && 0.0 <= results[4].fluxOut
    ensures results[3] == ChainNode(net, c, repeats, 3, results[2].fluxOut)
    ensures results[4] == ChainNode(net, c, repeats, 4, results[3].fluxOut)
    ensures results[5] == ChainNode(net, c, repeats, 5, results[4].fluxOut)
  {
    SixNodeDonors(FluxesOut(results));
    OutcomeAt(net, c, repeats, results, 3, results[2].fluxOut, net.hillslope[3], net.cap[3], net.erosion[3], net.area[3], false);
    OutcomeAt(net, c, repeats, results, 4, results[3].fluxOut, net.hillslope[4], net.cap[4], net.erosion[4], net.area[4], false);
    OutcomeAt(net, c, repeats, results, 5, results[4].fluxOut, net.hillslope[5], net.cap[5], net.erosion[5], net.area[5], true);
  }

  lemma LimitedIsChain()
    ensures SixNodeChain(LimitedNetwork())
  {
  }

  /** The six nodes of the limited-capacity sweep, each settled on the inflow
      its donors send it: node 0 has no capacity, nodes 1 and 2 erode freely,
      node 3 is throttled to its capacity, node 4 is swamped by its inflow
      and the outlet records its inflow while depositing what its capacity
      cannot carry. */
  lemma LimitedNode0(repeats: nat)
    requires SixNodeChain(LimitedNetwork())
    ensures ChainNode(LimitedNetwork(), Constant, repeats, 0, 0.0) == NodeResult(0.0, 0.0, 1.0, true, 0.0)
  {
    SettleSwamped(0.0, 0.0, 0.0, 1.0, 1.0, 1.0, Constant, repeats, false);
  }

  lemma LimitedNode1(repeats: nat)
    requires SixNodeChain(LimitedNetwork()) && repeats >= 1
    ensures ChainNode(LimitedNetwork(), Constant, repeats, 1, 0.0) == NodeResult(-2.0, 0.2, 0.1, false, 0.0)
  {
    var s := Settle(0.0, 0.0, 1.0, 2.0, 0.1, 1.0, Constant, repeats, false);
    assert ChainNode(LimitedNetwork(), Constant, repeats, 1, 0.0) == s;
    assert Mul(2.0, Div(0.1, 1.0)) == 0.2;
    SettleUnlimited(0.0, 0.0, 1.0, 2.0, 0.1, 1.0, repeats);
    assert s.fluxOut == 0.2;
    assert Div(0.0, 1.0) == 0.0 && Div(0.2, 1.0) == 0.2;
  }

  lemma LimitedNode2(repeats: nat, inflow: real)
    requires SixNodeChain(LimitedNetwork()) && repeats >= 1 && inflow == 0.2
    ensures ChainNode(LimitedNetwork(), Constant, repeats, 2, inflow) == NodeResult(-1.0, 0.7, 0.45, false, 0.0)
  {
    var s := Settle(0.2, 0.0, 1.0, 1.0, 0.5, 1.0, Constant, repeats, false);
    assert ChainNode(LimitedNetwork(), Constant, repeats, 2, inflow) == s;
    assert Mul(1.0, Div(0.5, 1.0)) == 0.5;
    SettleUnlimited(0.2, 0.0, 1.0, 1.0, 0.5, 1.0, repeats);
    assert s.fluxOut == 0.7;
    assert Div(0.2, 1.0) == 0.2 && Div(0.7, 1.0) == 0.7;
  }

  lemma LimitedNode3(repeats: nat, inflow: real)
    requires SixNodeChain(LimitedNetwork()) && repeats >= 1 && inflow == 0.7
    ensures ChainNode(LimitedNetwork(), Constant, repeats, 3, inflow) == NodeResult(-0.3, 1.0, 0.85, false, 0.0)
  {
    var s := Settle(0.7, 0.0, 1.0, 1.0, 1.0, 1.0, Constant, repeats, false);
    assert ChainNode(LimitedNetwork(), Constant, repeats, 3, inflow) == s;
    assert Mul(1.0, Div(1.0, 1.0)) == 1.0;
    SettleThrottled(0.7, 0.0, 1.0, 1.0, 1.0, 1.0, repeats);
    assert Mul(-s.dzdt, 1.0) == 0.3;
    assert Div(0.7, 1.0) == 0.7;
  }

  lemma LimitedNode4(repeats: nat, inflow: real)
    requires SixNodeChain(LimitedNetwork()) && inflow == 1.0
    ensures ChainNode(LimitedNetwork(), Constant, repeats, 4, inflow) == NodeResult(0.0, 0.9, 1.0, true, 0.1)
  {
    SettleSwamped(1.0, 0.0, 0.9, 1.0, 1.0, 1.0, Constant, repeats, false);
  }

  lemma LimitedNode5(repeats: nat, inflow: real)
    requires SixNodeChain(LimitedNetwork()) && inflow == 0.9
    ensures ChainNode(LimitedNetwork(), Constant, repeats, 5, inflow) == NodeResult(0.0, 0.9, 1.0, true, 0.3)
  {
    SettleSwamped(0.9, 0.0, 0.6, 1.0, 1.0, 1.0, Constant, repeats, true);
  }

  /** The limited-capacity sweep: the pinned elevation rates, fluxes,
      relative fluxes, transport-limited flags and deposition rates. */
  lemma LimitedSweepExample(repeats: nat, results: seq<NodeResult>)
    requires repeats >= 1
    requires ValidNetwork(LimitedNetwork())
    requires SweepOutcome(LimitedNetwork(), Constant, repeats, results)
    ensures results == [NodeResult(0.0, 0.0, 1.0, true, 0.0), NodeResult(-2.0, 0.2, 0.1, false, 0.0),
                        NodeResult(-1.0, 0.7, 0.45, false, 0.0), NodeResult(-0.3, 1.0, 0.85, false, 0.0),
                        NodeResult(0.0, 0.9, 1.0, true, 0.1), NodeResult(0.0, 0.9, 1.0, true, 0.3)]
  {
    var net := LimitedNetwork();
    LimitedIsChain();
    ChainHeadwaters(net, Constant, repeats, results);
    LimitedNode0(repeats);
    LimitedNode1(repeats);
    ChainConfluence(net, Constant, repeats, results, results[0].fluxOut + results[1].fluxOut);
    ChainTrunk(net, Constant, repeats, results);
    LimitedNode2(repeats, results[0].fluxOut + results[1].fluxOut);
    LimitedNode3(repeats, results[2].fluxOut);
    LimitedNode4(repeats, results[3].fluxOut);
    LimitedNode5(repeats, results[4].fluxOut);
    SixEntries(results, results[0], results[1], results[2], results[3], results[4], results[5]);
  }

  /** A six-element sequence is the list of its elements. */
  lemma SixEntries<T>(s: seq<T>, a: T, b: T, c: T, d: T, e: T, f: T)
    requires |s| == 6
    requires s[0] == a && s[1] == b && s[2] == c && s[3] == d && s[4] == e && s[5] == f
    ensures s == [a, b, c, d, e, f]
  {
  }

  lemma PorousIsChain()
    ensures SixNodeChain(PorousNetwork())
  {
  }

  /** A node that erodes at its detachment-limited rate: the pinned rate of
      elevation change and outgoing flux, not transport limited, no
      deposition, and a relative flux indistinguishable from zero. */
  predicate FreelyEroding(s: NodeResult, dzdt: real, fluxOut: real)
  {
    && s.dzdt == dzdt && s.fluxOut == fluxOut
    && !s.transportLimited && s.deposition == 0.0
    && 0.0 <= s.relativeFlux <= 1.0e-10
  }

  /** The rates of elevation change pinned for the high-capacity sweep. */
  const PorousRates: seq<real> := [-1.0, -2.0, -1.0, -1.0, -1.0, 0.0]

  /** The outgoing fluxes pinned for the high-capacity sweep: the bulk
      volumes 1.5 times the rock volumes eroded upstream. */
  const PorousFluxes: seq<real> := [1.5 * 1.0, 1.5 * 0.2, 1.5 * 1.7, 1.5 * 2.7, 1.5 * 3.7, 1.5 * 3.7]

  /** A freely eroding node of the high-capacity network: the bulk volume it
      adds is its erosion rate times its area divided by the porosity. */
  lemma PorousEroding(repeats: nat, v: nat, inflow: real, added: real)
    requires SixNodeChain(PorousNetwork()) && repeats >= 1 && v < 5 && 0.0 <= inflow <= 10.0
    requires added == Mul(PorousNetwork().erosion[v], Div(PorousNetwork().area[v], 2.0 / 3.0)) <= 10.0
    ensures FreelyEroding(ChainNode(PorousNetwork(), Constant, repeats, v, inflow),
                          -PorousNetwork().erosion[v], inflow + added)
  {
    var net := PorousNetwork();
    var s := Settle(inflow, 0.0, 1.0e20, net.erosion[v], net.area[v], net.porosity, Constant, repeats, false);
    assert ChainNode(net, Constant, repeats, v, inflow) == s;
    DivMonotone(0.0, net.area[v], net.porosity);
    MulNonnegative(net.erosion[v], Div(net.area[v], net.porosity));
    SettleUnlimited(inflow, 0.0, 1.0e20, net.erosion[v], net.area[v], net.porosity, repeats);
    assert s.fluxOut == inflow + added;
    DivMonotone(0.0, inflow, 1.0e20);
    DivMonotone(inflow, 20.0, 1.0e20);
    DivMonotone(0.0, s.fluxOut, 1.0e20);
    DivMonotone(s.fluxOut, 20.0, 1.0e20);
  }

  lemma PorousNode0(repeats: nat)
    requires SixNodeChain(PorousNetwork()) && repeats >= 1
    ensures FreelyEroding(ChainNode(PorousNetwork(), Constant, repeats, 0, 0.0), PorousRates[0], PorousFluxes[0])
  {
    assert Mul(1.0, Div(1.0, 2.0 / 3.0)) == 1.5;
    PorousEroding(repeats, 0, 0.0, 1.5);
  }

  lemma PorousNode1(repeats: nat)
    requires SixNodeChain(PorousNetwork()) && repeats >= 1
    ensures FreelyEroding(ChainNode(PorousNetwork(), Constant, repeats, 1, 0.0), PorousRates[1], PorousFluxes[1])
  {
    assert Mul(2.0, Div(0.1, 2.0 / 3.0)) == 0.3;
    PorousEroding(repeats, 1, 0.0, 0.3);
  }

  lemma PorousNode2(repeats: nat, inflow: real)
    requires SixNodeChain(PorousNetwork()) && repeats >= 1 && inflow == 1.8
    ensures FreelyEroding(ChainNode(PorousNetwork(), Constant, repeats, 2, inflow), PorousRates[2], PorousFluxes[2])
  {
    assert Mul(1.0, Div(0.5, 2.0 / 3.0)) == 0.75;
    PorousEroding(repeats, 2, inflow, 0.75);
  }

  lemma PorousNode3(repeats: nat, inflow: real)
    requires SixNodeChain(PorousNetwork()) && repeats >= 1 && inflow == 2.55
    ensures FreelyEroding(ChainNode(PorousNetwork(), Constant, repeats, 3, inflow), PorousRates[3], PorousFluxes[3])
  {
    assert Mul(1.0, Div(1.0, 2.0 / 3.0)) == 1.5;
    PorousEroding(repeats, 3, inflow, 1.5);
  }

  lemma PorousNode4(repeats: nat, inflow: real)
    requires SixNodeChain(PorousNetwork()) && repeats >= 1 && inflow == 4.05
    ensures FreelyEroding(ChainNode(PorousNetwork(), Constant, repeats, 4, inflow), PorousRates[4], PorousFluxes[4])
  {
    assert Mul(1.0, Div(1.0, 2.0 / 3.0)) == 1.5;
    PorousEroding(repeats, 4, inflow, 1.5);
  }

  /** The outlet passes its inflow on and does not erode. */
  lemma PorousNode5(repeats: nat, inflow: real)
    requires SixNodeChain(PorousNetwork()) && repeats >= 1 && inflow == 5.55
    ensures FreelyEroding(ChainNode(PorousNetwork(), Constant, repeats, 5, inflow), PorousRates[5], PorousFluxes[5])
  {
    SettleOutletBelowCapacity(5.55, 0.0, 1.0e20, 1.0, 1.0, 2.0 / 3.0, Constant, repeats);
  }

  /** The high-capacity sweep with porosity 2/3: every node but the outlet
      lowers at its detachment-limited rate, nothing is transport limited
      or deposited, the relative fluxes are negligible, and each outgoing
      flux is the bulk volume 1.5 times the rock eroded upstream. */
  lemma PorousSweepExample(repeats: nat, results: seq<NodeResult>)
    requires repeats >= 1
    requires ValidNetwork(PorousNetwork())
    requires SweepOutcome(PorousNetwork(), Constant, repeats, results)
    ensures |results| == 6
    ensures forall v :: 0 <= v < 6 ==> FreelyEroding(results[v], PorousRates[v], PorousFluxes[v])
  {
    var net := PorousNetwork();
    PorousIsChain();
    ChainHeadwaters(net, Constant, repeats, results);
    PorousNode0(repeats);
    PorousNode1(repeats);
    ChainConfluence(net, Constant, repeats, results, results[0].fluxOut + results[1].fluxOut);
    ChainTrunk(net, Constant, repeats, results);
    PorousNode2(repeats, results[0].fluxOut + results[1].fluxOut);
    PorousNode3(repeats, results[2].fluxOut);
    PorousNode4(repeats, results[3].fluxOut);
    PorousNode5(repeats, results[4].fluxOut);
    AllFreelyEroding(results, PorousRates, PorousFluxes);
  }

  /** Six freely eroding nodes, gathered into one statement. */
  lemma AllFreelyEroding(results: seq<NodeResult>, rates: seq<real>, fluxes: seq<real>)
    requires |results| == |rates| == |fluxes| == 6
    requires FreelyEroding(results[0], rates[0], fluxes[0]) && FreelyEroding(results[1], rates[1], fluxes[1])
    requires FreelyEroding(results[2], rates[2], fluxes[2]) && FreelyEroding(results[3], rates[3], fluxes[3])
    requires FreelyEroding(results[4], rates[4], fluxes[4]) && FreelyEroding(results[5], rates[5], fluxes[5])
    ensures forall v :: 0 <= v < 6 ==> FreelyEroding(results[v], rates[v], fluxes[v])
  {
  }

  lemma SwampedIsChain()
    ensures SixNodeChain(SwampedNetwork())
  {
  }

  /** Each node of the swamped network receives more sediment than it can
      carry: it does not erode, passes on its capacity (the outlet its river
      inflow) and deposits the rest of its supply. */
  lemma SwampedNode(repeats: nat, v: nat, inflow: real, fluxOut: real, deposition: real)
    requires SixNodeChain(SwampedNetwork()) && v < 6 && 0.0 <= inflow
    requires var cap := SwampedNetwork().cap[v];
             var kept := if cap <= 0.0 then 0.0 else cap;
             fluxOut == (if v == 5 then inflow else kept) && deposition == inflow + 10.0 - kept
    ensures ChainNode(SwampedNetwork(), Constant, repeats, v, inflow) == NodeResult(0.0, fluxOut, 1.0, true, deposition)
  {
    var net := SwampedNetwork();
    SettleSwamped(inflow, 10.0, net.cap[v], net.erosion[v], net.area[v], 1.0, Constant, repeats, v == 5);
  }

  /** The swamped sweep: no node erodes, every node is transport limited
      with relative flux 1, the fluxes are the capacities (the outlet's its
      inflow) and the deposition rates are the supplies less the capacities. */
  lemma SwampedSweepExample(repeats: nat, results: seq<NodeResult>)
    requires ValidNetwork(SwampedNetwork())
    requires SweepOutcome(SwampedNetwork(), Constant, repeats, results)
    ensures results == [NodeResult(0.0, 0.0, 1.0, true, 10.0), NodeResult(0.0, 1.0, 1.0, true, 9.0),
                        NodeResult(0.0, 1.0, 1.0, true, 10.0), NodeResult(0.0, 1.0, 1.0, true, 10.0),
                        NodeResult(0.0, 0.9, 1.0, true, 10.1), NodeResult(0.0, 0.9, 1.0, true, 10.0)]
  {
    var net := SwampedNetwork();
    SwampedIsChain();
    ChainHeadwaters(net, Constant, repeats, results);
    SwampedNode(repeats, 0, 0.0, 0.0, 10.0);
    SwampedNode(repeats, 1, 0.0, 1.0, 9.0);
    ChainConfluence(net, Constant, repeats, results, results[0].fluxOut + results[1].fluxOut);
    SwampedNode(repeats, 2, results[0].fluxOut + results[1].fluxOut, 1.0, 10.0);
    ChainTrunk(net, Constant, repeats, results);
    SwampedNode(repeats, 3, results[2].fluxOut, 1.0, 10.0);
    SwampedNode(repeats, 4, results[3].fluxOut, 0.9, 10.1);
    SwampedNode(repeats, 5, results[4].fluxOut, 0.9, 10.0);
    SixEntries(results, results[0], results[1], results[2], results[3], results[4], results[5]);
  }

  /** Running the sweep on the three networks with the customary 50
      repeats gives the pinned outcomes. */
  method LimitedSweepRun() returns (results: seq<NodeResult>)
    ensures results == [NodeResult(0.0, 0.0, 1.0, true, 0.0), NodeResult(-2.0, 0.2, 0.1, false, 0.0),
                        NodeResult(-1.0, 0.7, 0.45, false, 0.0), NodeResult(-0.3, 1.0, 0.85, false, 0.0),
                        NodeResult(0.0, 0.9, 1.0, true, 0.1), NodeResult(0.0, 0.9, 1.0, true, 0.3)]
  {
    OrderIsValid();
    LimitedIsChain();
    results := Sweep(Order, LimitedNetwork(), Constant, 50);
    LimitedSweepExample(50, results);
  }

  method PorousSweepRun() returns (results: seq<NodeResult>)
    ensures |results| == 6
    ensures forall v :: 0 <= v < 6 ==> FreelyEroding(results[v], PorousRates[v], PorousFluxes[v])
  {
    OrderIsValid();
    PorousIsChain();
    results := Sweep(Order, PorousNetwork(), Constant, 50);
    PorousSweepExample(50, results);
  }

  method SwampedSweepRun() returns (results: seq<NodeResult>)
    ensures results == [NodeResult(0.0, 0.0, 1.0, true, 10.0), NodeResult(0.0, 1.0, 1.0, true, 9.0),
                        NodeResult(0.0, 1.0, 1.0, true, 10.0), NodeResult(0.0, 1.0, 1.0, true, 10.0),
                        NodeResult(0.0, 0.9, 1.0, true, 10.1), NodeResult(0.0, 0.9, 1.0, true, 10.0)]
  {
    OrderIsValid();
    SwampedIsChain();
    results := Sweep(Order, SwampedNetwork(), Constant, 50);
    SwampedSweepExample(50, results);
  }
}
