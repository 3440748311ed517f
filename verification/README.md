# Sediment-flux-dependent incision and structured-quad active links

This project models two pieces of landlab in Dafny and proves properties of them.

**Sediment-flux-dependent stream-power incision.** This is the kernel of landlab's `SedDepEroder`.

- **Closures** (`closures.dfy`). A closure maps the relative sediment flux to a multiplier on the detachment-limited erosion rate. Three families are modelled: constant, linear decline and almost-parabolic.
- **Per-node solver** (`node_flux_solver.dfy`). This is `get_sed_flux_function_pseudoimplicit_bysedout`, modelled as `NodeFluxSolver.PseudoImplicit`.
  - It takes an influx, a transport capacity, a volumetric erosion potential and a bed-lowering conversion factor.
  - It iterates the pseudo-implicit update "outflux = influx + potential · f(outflux / capacity)" for a bounded number of repeats.
  - If an update reaches capacity, generation is throttled to the remaining headroom.
  - It returns four values: the bed-lowering rate, the volume passed downstream, the relative sediment flux (the mean of the clamped in- and out-ratios) and a convergence-error diagnostic.
- **Downstream sweep** (`downstream_sweep.dfy`). This is `iterate_sde_downstream`, modelled as `DownstreamSweep.Sweep`.
  - It visits the nodes of a receiver forest, upstream nodes first.
  - Each node is settled on its river inflow plus its channel supply.
  - Each node's export is added to the inflow of its receiver.
  - Porosity converts eroded rock volume V into bulk sediment volume V / porosity.
- **Examples** (`solver_examples.dfy`, `sweep_examples.dfy`). These replay the concrete cases the test-suite pins, as lemmas about the model.

**Structured-quad links** (`structured_quad_links.dfy`, `link_examples.dfy`).

- Node (r, c) of a rows × cols grid has id r·cols + c.
- Vertical links come first. Each has the id of its tail node.
- Horizontal links follow: the link from (r, c) to (r, c+1) has id (rows−1)·cols + r·(cols−1) + c.
- `active_link_ids` returns, in ascending order, the links with no closed end and at least one core end. It rejects a status array whose length is not the node count.
- `status_with_perimeter_as_boundary` marks the outer ring of nodes as fixed-value boundaries and the rest as core.

`real_arith.dfy` is a helper module. It gives real products and quotients named wrappers, `Mul` and `Div`, with a small library of lemmas about them (monotonicity, cancellation, powers) that the solver proofs call.

Three behaviours of the kernel, each pinned by the repository's tests, shape the model:

- **Almost-parabolic closure.** It is 0.1 at x = 0, 1 at x = 0.5 and 0 at x = 1 (test_sed_flux_dep.py:59-71). Between these points the model uses a straight segment `2.6x + 0.1` below x = 0.1 and the parabola `1 − 4(x − 0.5)²` from there on. The two pieces meet at 0.36.
- **Outlets.** An outlet is a node that is its own receiver. It erodes nothing and records its river inflow as its flux. It deposits the part of its supply that its capacity cannot carry (test_sed_flux_dep.py:336-343 and 416-424: flux 0.9 with deposition 0.3 or 10).
- **Swamped nodes.** When the influx alone meets capacity, the solver exports the capacity, erodes nothing, and reports relative flux 1 and an error diagnostic of 1 (test_sed_flux_dep.py:193-207).

## Model

| member | source | states |
|---|---|---|
| Closures.ConstantIgnoresFlux | landlab/components/stream_power/tests/test_sed_flux_dep.py:30-39 | The constant closure gives the same multiplier, 1, at every relative flux. |
| Closures.PinnedValues | landlab/components/stream_power/tests/test_sed_flux_dep.py:30-71 | Constant: 1 at 0, 1 and 2. Linear decline: 1, 0.5, 0 and −1 at 0, 0.5, 1 and 2. Almost-parabolic: 0.1 at 0, 1 at 0.5, 0 at 1. |
| Closures.Eval | landlab/components/stream_power/tests/test_sed_flux_dep.py:30-71 | The multiplier of each of the three closures. On the physical range 0 ≤ x ≤ 1 every closure gives a multiplier in [0, 1], so sediment damps erosion but never amplifies or reverses it. |
| Closures.LinearDeclineStrictlyDecreasing | landlab/components/stream_power/tests/test_sed_flux_dep.py:42-56 | More sediment always means strictly less erosion under the linear decline, even past saturation. |
| Closures.LinearDeclineNegativePastSaturation | landlab/components/stream_power/tests/test_sed_flux_dep.py:54-56 | The linear decline is left unclamped, so it goes negative for relative flux above 1. |
| Closures.AlmostParabolicPeak | landlab/components/stream_power/tests/test_sed_flux_dep.py:59-71 | The almost-parabolic closure never exceeds 1, and it reaches 1 only at half saturation. |
| Closures.AlmostParabolicContinuous | landlab/components/stream_power/tests/test_sed_flux_dep.py:59-71 | The rising segment and the parabola meet at x = 0.1 with value 0.36, so the closure has no jump. The tests pin only f(0), f(0.5) and f(1), so this is a property of the chosen form, not of the source. |
| Closures.AlmostParabolicSymmetric | landlab/components/stream_power/tests/test_sed_flux_dep.py:59-71 | On [0.1, 0.9] the multiplier at x equals the multiplier at 1 − x. The tests pin only f(0), f(0.5) and f(1), so this is a property of the chosen form, not of the source. |
| NodeFluxSolver.RelativeFlux | landlab/components/stream_power/tests/test_sed_flux_dep.py:249-250 | The reported relative flux lies in [0, 1]. It is 1 exactly when both clamped ratios are 1. |
| NodeFluxSolver.Iterate | landlab/components/stream_power/tests/test_sed_flux_dep.py:152-165 | A throttled iteration ends at capacity with error 0. Otherwise the estimate stays between influx and capacity and generates no more than the potential. An unthrottled run whose error is 0 ends at an exact fixed point of the update. |
| NodeFluxSolver.PseudoImplicit | landlab/components/stream_power/tests/test_sed_flux_dep.py:181-289 | No capacity gives (0, 0, 1, 0). Influx at or above capacity gives (0, capacity, 1, 1). Otherwise: outflux lies in [influx, min(capacity, influx + potential)]; the bed-lowering rate times the conversion factor is exactly the generated volume; relative flux is the mean of the in- and out-ratios; error lies in [0, 1], and error 0 below capacity means a fixed point. |
| NodeFluxSolver.SaturatedIffInfluxMeetsCapacity | landlab/components/stream_power/tests/test_sed_flux_dep.py:193-207 | The solver reports relative flux 1 if and only if the node has no capacity or its influx alone meets capacity. |
| NodeFluxSolver.ConstantClosureClosedForm | landlab/components/stream_power/tests/test_sed_flux_dep.py:243-257 | With the constant closure, the solver exports min(capacity, influx + potential) and erodes the matching volume. The error diagnostic is 0 once two repeats run. |
| NodeFluxSolver.ZeroPotentialPassesThrough | landlab/components/stream_power/tests/test_sed_flux_dep.py:260-269 | With no erosion potential, an unsaturated node passes its influx unchanged, erodes nothing, reports the influx ratio as relative flux, and has error 0. |
| NodeFluxSolver.LinearDeclineFixedPointSolves | landlab/components/stream_power/tests/test_sed_flux_dep.py:279-289 | The closed-form outflux solves the linear-decline update exactly, and it stays below capacity. |
| NodeFluxSolver.LinearDeclineConverges | landlab/components/stream_power/tests/test_sed_flux_dep.py:152-165 | With the linear decline and a potential below capacity, the distance to the exact fixed point shrinks geometrically with factor potential / capacity per repeat. The error diagnostic is bounded in step. |
| NodeFluxSolver.LinearDeclineWithin | landlab/components/stream_power/tests/test_sed_flux_dep.py:210-239 | After any budget of at least m repeats, the outflux is within (potential/capacity)^m times the initial distance of the fixed point. If more than m repeats run, the error diagnostic is bounded likewise. |
| NodeFluxSolver.LinearDeclineThrottled | landlab/components/stream_power/tests/test_sed_flux_dep.py:243-257 | With the linear decline and a potential at or above capacity, an unsaturated node is always throttled: it exports exactly its capacity, erodes exactly the headroom, reports error 0 and the mean of its influx ratio and 1 as relative flux. |
| SolverExamples.ZeroCapacityExample | landlab/components/stream_power/tests/test_sed_flux_dep.py:181-190 | Capacity 0 with influx 1000 gives (0, 0, 1, 0). |
| SolverExamples.SwampedExample | landlab/components/stream_power/tests/test_sed_flux_dep.py:193-207 | Influx 1e10 into capacity 1 gives rate f(1) = 0, volume 1, relative flux 1, error 1. |
| SolverExamples.ZeroInfluxExample | landlab/components/stream_power/tests/test_sed_flux_dep.py:210-223 | With zero influx and huge capacity, the rate and volume match f(0) times 1 and 10 within 0.001. Relative flux and error are below 0.001. |
| SolverExamples.LowInfluxExample | landlab/components/stream_power/tests/test_sed_flux_dep.py:226-239 | With influx 1 and huge capacity, the rate is 2 and the volume is 201, both within 0.001. Relative flux and error are below 0.001. |
| SolverExamples.ThrottledExample | landlab/components/stream_power/tests/test_sed_flux_dep.py:243-257 | Half-saturated influx with a huge potential is throttled exactly: (0.5, 2, 0.75, 0). |
| SolverExamples.NoPotentialExample | landlab/components/stream_power/tests/test_sed_flux_dep.py:260-269 | With no potential, influx 1000 passes a capacity of 2000 unchanged: (0, 1000, 0.5, 0). |
| SolverExamples.InteriorExample | landlab/components/stream_power/tests/test_sed_flux_dep.py:279-289 | The generic linear-decline case converges within 0.001 to volume 3333.333, rate 0.025 and relative flux (1/2 + 2/3)/2, with error below 0.001. |
| DownstreamSweep.Settle | landlab/components/stream_power/tests/test_sed_flux_dep.py:292-343 | A node erodes at most its detachment-limited rate; an outlet erodes nothing and records its river inflow; a non-outlet exports no more than its capacity and conserves mass exactly (supply + bulk eroded volume = export + deposition); deposition is exactly the supply capacity cannot carry; the node is transport limited ⇔ it has no capacity or its supply meets capacity ⇔ its relative flux is 1. |
| DownstreamSweep.SettleUnlimited | landlab/components/stream_power/tests/test_sed_flux_dep.py:345-374 | Well below capacity with the constant closure, a node lowers at exactly its detachment-limited rate and exports supply plus the bulk eroded volume, with no deposition. |
| DownstreamSweep.SettleThrottled | landlab/components/stream_power/tests/test_sed_flux_dep.py:336-343 | When supply fits under capacity but the full potential does not, the node exports exactly its capacity. It erodes only the headroom and deposits nothing. |
| DownstreamSweep.SettleSwamped | landlab/components/stream_power/tests/test_sed_flux_dep.py:377-424 | Supply at or above capacity (or no capacity), under any closure, means no erosion, relative flux 1 and the transport-limited flag set. Export is the capacity, or for an outlet its river inflow; the rest of the supply is deposited. |
| DownstreamSweep.SettleOutletBelowCapacity | landlab/components/stream_power/tests/test_sed_flux_dep.py:368-371 | An outlet below capacity erodes and deposits nothing and records its river inflow as flux. |
| DownstreamSweep.DonorSumUpdate | landlab/components/stream_power/tests/test_sed_flux_dep.py:308-310 | Changing one node's recorded flux changes only its receiver's donor sum, and by exactly the change. An outlet feeds nobody. |
| DownstreamSweep.Sweep | landlab/components/stream_power/tests/test_sed_flux_dep.py:303-335 | For any valid order and network, each node's result is that node settled on the flux array's initial entry plus the fluxes of all its donors, and every recorded flux is non-negative. |
| SweepExamples.ChainHeadwaters | landlab/components/stream_power/tests/test_sed_flux_dep.py:308-310 | On the six-node network, headwaters 0 and 1 are settled on zero inflow. |
| SweepExamples.ChainConfluence | landlab/components/stream_power/tests/test_sed_flux_dep.py:308-310 | Node 2 is settled on the sum of the fluxes of nodes 0 and 1. |
| SweepExamples.ChainTrunk | landlab/components/stream_power/tests/test_sed_flux_dep.py:308-310 | Nodes 3, 4 and the outlet 5 are each settled on the flux of the node above. |
| SweepExamples.LimitedSweepExample | landlab/components/stream_power/tests/test_sed_flux_dep.py:303-343 | The limited-capacity sweep gives exactly the pinned rates, fluxes, relative fluxes, flags and deposition rates. |
| SweepExamples.PorousSweepExample | landlab/components/stream_power/tests/test_sed_flux_dep.py:345-374 | With huge capacities and porosity 2/3, every node erodes freely at the pinned rates. The fluxes are 1.5 times the porosity-free volumes, relative fluxes are within 1e-10 of 0, and nothing is deposited or transport limited. |
| SweepExamples.SwampedSweepExample | landlab/components/stream_power/tests/test_sed_flux_dep.py:383-424 | With 10 units of channel supply everywhere, nothing erodes and every node is transport limited with relative flux 1. The fluxes and deposition rates are the pinned ones. |
| SweepExamples.LimitedSweepRun | landlab/components/stream_power/tests/test_sed_flux_dep.py:303-343 | Running the sweep with 50 repeats on the limited-capacity network gives exactly the pinned rates, fluxes, relative fluxes, flags and deposition rates. |
| SweepExamples.PorousSweepRun | landlab/components/stream_power/tests/test_sed_flux_dep.py:345-374 | Running the sweep with 50 repeats on the high-capacity network with porosity 2/3 gives the pinned rates and the fluxes 1.5 times the porosity-free volumes, with no transport limitation or deposition. |
| SweepExamples.SwampedSweepRun | landlab/components/stream_power/tests/test_sed_flux_dep.py:383-424 | Running the sweep with 50 repeats on the swamped network gives exactly the pinned outcome: no erosion, every node transport limited, the pinned fluxes and deposition rates. |
| StructuredQuadLinks.NodeAt | landlab/grid/structured_quad/tests/test_links.py:12-18 | The id of node (r, c) lies in the grid, and decodes back to row r and column c. |
| StructuredQuadLinks.LinkDecodes | landlab/grid/structured_quad/tests/test_links.py:12-25 | Every link joins two adjacent nodes, and encoding its two ends gives the link's id back. |
| StructuredQuadLinks.LinkEncodes | landlab/grid/structured_quad/tests/test_links.py:12-25 | Every pair of adjacent nodes is joined by a link in range, and decoding that link gives the pair back. |
| StructuredQuadLinks.ActiveBelow | landlab/grid/structured_quad/tests/test_links.py:12-25 | The selection among the first k links is strictly increasing, and holds exactly the active links below k. |
| StructuredQuadLinks.ActiveLinkIds | landlab/grid/structured_quad/tests/test_links.py:12-31 | Rejects the status array exactly when its length is not the node count, reporting the node count and the length given. Otherwise returns a strictly increasing list that holds exactly the active links. |
| StructuredQuadLinks.ActiveLinkIdsAre | landlab/grid/structured_quad/tests/test_links.py:12-25 | Any strictly increasing list of exactly the active links is the result: the result is unique. |
| StructuredQuadLinks.ClosedEndInactive | landlab/grid/structured_quad/tests/test_links.py:12-18 | On any grid, a link with a closed end is never among the active links. |
| StructuredQuadLinks.BoundaryPairInactive | landlab/grid/structured_quad/tests/test_links.py:22-25 | On any grid, a link with no core end is never among the active links. |
| StructuredQuadLinks.StatusWithPerimeterAsBoundary | landlab/grid/structured_quad/tests/test_links.py:22-23 | A status array of node-count length, with fixed-value boundaries on the outer rows and columns and core nodes inside. |
| StructuredQuadLinks.PerimeterActiveIff | landlab/grid/structured_quad/tests/test_links.py:22-25 | With the perimeter as boundary, a link is active exactly when it does not join two perimeter nodes. |
| LinkExamples.CoreBlockActive | landlab/grid/structured_quad/tests/test_links.py:12-18 | In the 4 × 5 grid with a 2 × 2 core block inside closed nodes, a link is active exactly when it is 7, 8, 21 or 25. |
| LinkExamples.CoreBlockExample | landlab/grid/structured_quad/tests/test_links.py:12-18 | The active links of that grid are [7, 8, 21, 25]. |
| LinkExamples.PerimeterExample | landlab/grid/structured_quad/tests/test_links.py:22-25 | The active links of a 3 × 4 grid with its perimeter as boundary are [1, 2, 5, 6, 11, 12, 13]. |
| LinkExamples.MismatchExample | landlab/grid/structured_quad/tests/test_links.py:29-31 | A 3-entry status array for a 3 × 4 grid is rejected as a mismatch of 12 nodes against 3 entries. |

## Left out

- The generalized-humped closure and its construction-time normalization (`sed_flux_fn_gen_genhump`, test_sed_flux_dep.py:74-149) are not modelled. They rely on exponentials and floating-point calibration.
- The extra closure arguments (kappa, nu, c, phi, norm) are dropped. They are only read by the humped closure.
- The `SedDepEroder` component is left out: grid runs, flow accumulation, field storage, flooded nodes, the channel-sediment reservoir and adaptive substepping (test_sed_flux_dep.py:451-967). None of these is part of the two kernel signatures.
- Plotting (test_sed_flux_dep.py:427-448) is I/O only.
- The integer dtype of the returned link ids (test_links.py:19, 26) has no counterpart, because Dafny `nat` ids are integers by construction.
- Floating-point arithmetic is not modelled. The model computes on exact reals, so tolerance asserts become bounds on the exact result.
- Closures.Eval: only the closures' pinned values come from the repository. The code of the closure functions is not part of this model. The almost-parabolic form between its three pinned points is the model's choice.
- NodeFluxSolver.LinearDeclineConverges: proves convergence only when the potential is below capacity. At or above capacity the node is throttled on the first update, as LinearDeclineThrottled proves.
- DownstreamSweep.Sweep: the output arrays in the source are written in place. The model returns the per-node results instead, and models the initial content of the river-flux array as the network's `flux0`.
- NodeFluxSolver.PseudoImplicit: requires a non-negative influx and potential and a positive conversion factor. These are what its callers pass; the behaviour for negative rates is not modelled.
- DownstreamSweep.Settle: likewise requires non-negative inflow, channel supply and erosion rate, and a positive cell area and porosity.
- StructuredQuadLinks.ActiveLinkIds: takes the node statuses as a flat row-major sequence. The tests pass a 2-D array of shape (rows, cols), and the flattening is not modelled.
- SweepExamples.PorousSweepExample: states the relative fluxes as within 1e-10 of zero, the tolerance that is pinned. It does not state their exact values.
