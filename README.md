# ndlib SEIR and ICEP iteration steps in Dafny

This project models one `iteration(node_status)` call of two of ndlib's
compartmental diffusion models, and proves properties about them:

- **SEIR** (`SEIRModel`). Statuses are Susceptible 0, Infected 1, Exposed 2
  and Removed 3.
  - Every node is visited in graph order. It takes one random draw and is
    decided on the pre-sweep ledger `self.status`; the result goes into a
    working copy.
  - Susceptible becomes Exposed with probability `1-(1-beta)^k` (when
    `tp_rate` is 1) or `beta` once some contact is infected. Here `k` counts
    the infected contacts: predecessors in a directed graph, neighbours
    otherwise.
  - Exposed becomes Infected, and Infected becomes Removed, with the hazard
    `1-exp(-(t-t0)*rate)`. `t0` is read from the `progress` ledger.
  - Entering Exposed or Infected stamps `progress` with the current iteration.
  - A node that recovers is deleted from the live `self.status` during the
    sweep.
- **ICEP** (`ICEPModel`, community permeability). Statuses are Susceptible 0,
  Infected 1 and Removed 2.
  - Every node that is Infected in the pre-sweep ledger tries each neighbour
    that is still Susceptible in the evolving working copy. Each try takes one
    draw, and the neighbour is infected when `flip <= threshold`. The node is
    then Removed.
  - The threshold starts at `1/|N(u)|`.
  - For a neighbour in the same community, the threshold becomes the share of
    same-community neighbours.
  - For a neighbour in another community, it becomes the edge threshold times
    the permeability. The key `(u, v)` is looked up first, and `(v, u)` only
    in an undirected graph.
  - When no edge entry applies, the threshold keeps the value it last had.
    It is not reset for each neighbour.

Both models share a first call that only reports the seeded ledger. Every
later call returns the pre-increment counter and increments it. The report
holds the changed nodes (or everything, or nothing), the population of each
status and the change of each population.

Layout:
- `diffusion.dfy` (module `Diffusion`) holds what both models share:
  - the read-only graph, with its node order, neighbour and predecessor lists
    and directedness;
  - the report record;
  - the two base-class helpers both iterations call, `clean_initial_status`
    and `status_delta`;
  - population-count lemmas.
- `seir.dfy` (module `Seir`) and `icep.dfy` (module `Icep`) each hold one
  model.

Each model is a class whose fields are the ones the source updates:
- `status`;
- `progress` (SEIR only);
- `actualIteration`;
- `cursor`, the position in the random stream.

`Iteration` is proved against pure specification functions (`Seir.Sweep`,
`Icep.Sweep`), and the properties are lemmas about those functions. The
loops over nodes (and, in ICEP, over neighbours) are `while` loops whose
invariants tie the working copy to a prefix of the specified sweep.

How the model reads the source:
- **Random draws.** The numpy generator is a fixed stream `sample: nat -> real`
  with values in [0, 1). The field `cursor` is the index of the next draw.
  SEIR uses one draw per node per sweep. ICEP uses one draw per susceptible
  neighbour it examines.
- **`np.exp`** is a parameter `exp: real -> real`.
- **Missing keys.** Python would raise `KeyError` in some places. The model
  makes each of them a precondition of `Iteration`:
  - `Seir.ProgressCovers`: every Exposed or Infected node has a progress
    entry.
  - `Seir.NoReadAfterDelete`: no susceptible node reads the status of a
    contact that recovered earlier in the same sweep.
  - `Icep.CommunitiesKnown`: every infected node with neighbours, and each of
    those neighbours, has a community.
- **Behaviour kept as written**, and proved:
  - In SEIR, nodes seeded as Exposed or Infected get no progress entry, so a
    second call fails unless the caller supplies one
    (`Seir.SeededTimedNodeLacksProgress`).
  - `Seir.RecoveryBreaksLaterRead` exhibits a two-node graph on which the
    second precondition fails.
  - Recovering nodes are deleted from `self.status` before `status_delta`
    runs. Under the modelled `status_delta` contract (below, and its line
    under "## Left out"), they are then missing from the reported delta.
  - Under the same contract, the reported population changes of a SEIR sweep
    add up to the number of recovered nodes rather than to 0.

`DiffusionModel.py` is not part of this model. Its two helpers are modelled
as the two iterations use them:
- `clean_initial_status` resets every code that is not a status of the model
  to 0.
- `status_delta(actual)`, called while `self.status` holds the live ledger,
  returns:
  - the nodes of the live ledger whose status differs in `actual`, with
    their new status;
  - the count of each status in `actual`;
  - the difference of each count from the live ledger.

## Model

| member | source | states |
|---|---|---|
| Diffusion.CleanInitialStatus | ndlib/models/epidemics/SEIRModel.py:52 | keeps every node, keeps every valid code, resets every other code to Susceptible (0), so every resulting code is valid |
| Diffusion.StatusDelta | ndlib/models/epidemics/ICEPModel.py:97 | a node is in the delta iff it is in the live ledger and its status changed, and the delta holds the new status; the counts are the per-status populations of the new map; the count changes are new minus live |
| Diffusion.FirstResult | ndlib/models/epidemics/SEIRModel.py:56-64 | the first report has iteration 0, the full ledger or `{}`, the per-status populations and zero changes (ICEPModel.py lines 54-62 are the same) |
| Diffusion.FirstCountsAddUp | ndlib/models/epidemics/ICEPModel.py:54-62 | the first report's populations add up to the number of nodes, and its changes add up to 0 |
| Diffusion.PopulationConserved | ndlib/models/epidemics/SEIRModel.py:100 | when every node holds one of the distinct statuses, the reported populations add up to the number of nodes |
| Diffusion.DeltasAddUp | ndlib/models/epidemics/SEIRModel.py:100 | the reported population changes add up to the size of the new map minus the size of the live ledger |
| Seir.InfectedCount | ndlib/models/epidemics/SEIRModel.py:76-77 | the result is exactly the number of positions in the contact list that hold an Infected node (`len(infected_neighbors)`, repeats included); it is at most the number of contacts, and it is 0 iff no contact is Infected (the `triggered` flag) |
| Seir.InfectedCountLocal | ndlib/models/epidemics/SEIRModel.py:76 | the count depends only on the contacts' own statuses |
| Seir.Contacts | ndlib/models/epidemics/SEIRModel.py:70-72 | the body chooses predecessors in a directed graph and neighbours otherwise; the contract states that every contact is a node of the graph |
| Seir.ExposureThreshold | ndlib/models/epidemics/SEIRModel.py:79-84 | with no infected contact the exposure probability is 0 in both `tp_rate` modes, and with parameters in range it lies in [0, 1] |
| Seir.ExposureBounds | ndlib/models/epidemics/SEIRModel.py:79-81 | with parameters in [0, 1], `1 - (1 - beta)^k` lies in [0, 1] |
| Seir.ExposureThresholdMonotone | ndlib/models/epidemics/SEIRModel.py:79-84 | with parameters in [0, 1] the exposure probability lies in [0, 1] and does not decrease as more contacts are infected |
| Seir.PowBounds | ndlib/models/epidemics/SEIRModel.py:80 | `(1-beta)^k` is a probability |
| Seir.PowAntitone | ndlib/models/epidemics/SEIRModel.py:80 | `(1-beta)^k` does not grow with `k` |
| Seir.NegScaledIsProduct | ndlib/models/epidemics/SEIRModel.py:91 | the hazard's exponent is `-(t - t0) * rate` |
| Seir.Hazard | ndlib/models/epidemics/SEIRModel.py:91-96 | the probability of leaving a timed state is `1 - exp(0)` when no time has elapsed |
| Seir.HazardFormula | ndlib/models/epidemics/SEIRModel.py:91-96 | the probability of leaving a timed state is `1 - exp(-(t - t0) * rate)` for every elapsed time |
| Seir.Next | ndlib/models/epidemics/SEIRModel.py:68-98 | one node's decision on the pre-sweep ledger moves it at most one step along Susceptible, Exposed, Infected, Removed |
| Seir.Sweep | ndlib/models/epidemics/SEIRModel.py:66-98 | a sweep keeps the ledger's nodes, uses exactly one draw per node and advances the iteration by one |
| Seir.SeirModel.constructor | ndlib/models/epidemics/SEIRModel.py:11-49 | a fresh model holds the graph, parameters and seeded statuses, an empty progress ledger and counter 0 |
| Seir.SeirModel.Iteration | ndlib/models/epidemics/SEIRModel.py:51-109 | the first call cleans the ledger, applies no transition, sets the counter to 1 and reports iteration 0 with the full ledger or `{}`; a later call leaves exactly the state of one specified sweep and reports the pre-increment counter with the delta or `{}` |
| Seir.SeirModel.SweepNodes | ndlib/models/epidemics/SEIRModel.py:66-98 | after the loop the working copy is the sweep's ledger, the live ledger has lost exactly the recovered nodes, progress is stamped as specified, and one draw per node is used |
| Seir.SeirModel.Visit | ndlib/models/epidemics/SEIRModel.py:68-98 | one node's turn writes its decision into the working copy, stamps progress exactly when it enters Exposed or Infected, and deletes it from the live ledger exactly when it recovers |
| Seir.SweepDecides | ndlib/models/epidemics/SEIRModel.py:66-98 | each node's new status is its decision on the pre-sweep ledger; it is deleted iff it recovered; its progress entry is stamped iff it entered Exposed or Infected |
| Seir.SweepMovesOneStep | ndlib/models/epidemics/SEIRModel.py:66-98 | each node moves at most one step along 0 to 2 to 1 to 3 per sweep, and Removed is final |
| Seir.UnexposedStaysSusceptible | ndlib/models/epidemics/SEIRModel.py:74-86 | a susceptible node with no infected contact stays Susceptible in either `tp_rate` mode |
| Seir.SweepStampsProgress | ndlib/models/epidemics/SEIRModel.py:79-93 | on entering Exposed or Infected a node's progress becomes the current iteration; every other entry, and every absence, is unchanged |
| Seir.RecoveredAreRemoved | ndlib/models/epidemics/SEIRModel.py:96-98 | the nodes deleted from the live ledger are exactly those moved from Infected to Removed |
| Seir.SweepKeepsReady | ndlib/models/epidemics/SEIRModel.py:54-101 | after a sweep the ledger has the same nodes, and every Exposed or Infected node has a progress entry |
| Seir.SweepKeepsCodes | ndlib/models/epidemics/SEIRModel.py:17-22 | a sweep keeps every status among the four codes |
| Seir.ReportedDelta | ndlib/models/epidemics/SEIRModel.py:98-105 | the reported delta lists exactly the live nodes whose status changed, with their new status; a node recovering in this sweep is not listed |
| Seir.SweepResult | ndlib/models/epidemics/SEIRModel.py:100-109 | a later report carries the pre-increment counter, the delta or `{}`, and for each of the four statuses its population after the sweep |
| Seir.SweepCountsAddUp | ndlib/models/epidemics/SEIRModel.py:98-100 | the populations after a sweep add up to the number of nodes, and the reported changes add up to the number of recovered nodes |
| Seir.ReportAddsUp | ndlib/models/epidemics/SEIRModel.py:100 | over the four SEIR codes, a report's populations add up to the size of the new ledger and its changes to the new size minus the live size |
| Seir.Live | ndlib/models/epidemics/SEIRModel.py:96-100 | the ledger `status_delta` reads after the sweep holds exactly the pre-sweep nodes that did not recover, each with its pre-sweep status |
| Seir.SeededTimedNodeLacksProgress | ndlib/models/epidemics/SEIRModel.py:49-64 | after the first call the progress ledger is still empty, so a seed with an Exposed or Infected node breaks `ProgressCovers` for the second call |
| Seir.SweepSizes | ndlib/models/epidemics/SEIRModel.py:96-100 | the ledger after a sweep has one entry per node, and the live ledger `status_delta` reads has lost exactly the recovered nodes |
| Seir.RecoveryBreaksLaterRead | ndlib/models/epidemics/SEIRModel.py:74-98 | on the path 0 - 1 with node 0 infected, node 1 reads the status of node 0 after it was deleted, although the ledger is otherwise ready |
| Icep.SameCommunity | ndlib/models/epidemics/ICEPModel.py:69-70 | a neighbour is kept iff it shares `u`'s community, and there are at most as many as neighbours |
| Icep.SameCommunityCount | ndlib/models/epidemics/ICEPModel.py:69-70 | the filter keeps exactly as many entries as there are positions of the neighbour list holding a same-community neighbour (repeats included) |
| Icep.EmbeddednessIsFraction | ndlib/models/epidemics/ICEPModel.py:69-81 | when some neighbour shares `u`'s community, the embeddedness share lies between `1/len(neighbors)` and 1 |
| Icep.Threshold | ndlib/models/epidemics/ICEPModel.py:74-89 | a same-community neighbour's threshold lies between `1/len(neighbors)` and 1; across communities with no edge entry the previous threshold is kept |
| Icep.ThresholdAcrossCommunity | ndlib/models/epidemics/ICEPModel.py:84-89 | a neighbour in another community with an edge entry is compared with that entry times `permeability`, read under `(u, v)` or, in an undirected graph, under `(v, u)`; the previous threshold then plays no part |
| Icep.ThresholdWithinCommunity | ndlib/models/epidemics/ICEPModel.py:80-81 | a same-community neighbour is compared with `len(same_community_neighbors)/len(neighbors)`, whatever the threshold was before |
| Icep.EdgeWeight | ndlib/models/epidemics/ICEPModel.py:85-89 | an edge threshold applies iff the key `(u, v)` is present, or the graph is undirected and `(v, u)` is |
| Icep.EdgeWeightPrecedence | ndlib/models/epidemics/ICEPModel.py:86-89 | the key `(u, v)` takes precedence, and a directed graph never consults `(v, u)` |
| Icep.EdgeWeightSymmetric | ndlib/models/epidemics/ICEPModel.py:86-89 | in an undirected graph, an edge listed under one orientation only has the same threshold both ways |
| Icep.ThresholdCarriesOver | ndlib/models/epidemics/ICEPModel.py:74-89 | with neighbours 1 and 2 in `u`'s community and 3 outside it, and no edge thresholds, neighbour 3 is compared with 2/3, the value left by neighbour 2, not against 1/3 |
| Icep.FullThresholdInfects | ndlib/models/epidemics/ICEPModel.py:91-93 | a threshold of at least 1 always infects a still-susceptible neighbour |
| Icep.SingleNeighbourInfects | ndlib/models/epidemics/ICEPModel.py:73-93 | a node with one susceptible neighbour infects it whenever that neighbour shares its community or no edge threshold applies |
| Icep.ScanStep | ndlib/models/epidemics/ICEPModel.py:77-93 | one neighbour keeps the working copy's nodes; a neighbour that is not susceptible is skipped with the scan unchanged |
| Icep.ScanStepOnlyInfects | ndlib/models/epidemics/ICEPModel.py:77-93 | one neighbour changes no other node, changes that neighbour only from Susceptible to Infected, and takes a draw exactly when it is susceptible |
| Icep.ScanUpTo | ndlib/models/epidemics/ICEPModel.py:76-93 | scanning neighbours never drops a node from the working copy |
| Icep.ScanOnlyInfects | ndlib/models/epidemics/ICEPModel.py:76-93 | a scan changes a node only from Susceptible to Infected, keeps the nodes, and takes at most one draw per neighbour |
| Icep.Spread | ndlib/models/epidemics/ICEPModel.py:68-95 | an infected node's turn never drops a node from the working copy |
| Icep.SweepUpTo | ndlib/models/epidemics/ICEPModel.py:64-95 | part-way through a sweep the working copy still holds every node of the pre-sweep ledger |
| Icep.Sweep | ndlib/models/epidemics/ICEPModel.py:64-95 | a sweep never drops a node of the pre-sweep ledger from the working copy |
| Icep.SpreadChanges | ndlib/models/epidemics/ICEPModel.py:68-95 | an infected node's turn leaves it Removed, changes every other node at most from Susceptible to Infected, keeps the nodes and takes at most one draw per neighbour |
| Icep.IsolatedNodeTakesNoDraw | ndlib/models/epidemics/ICEPModel.py:73-95 | an infected node without neighbours goes to Removed without taking a draw and changes nothing else |
| Icep.SweepKeys | ndlib/models/epidemics/ICEPModel.py:64-95 | a sweep keeps exactly the ledger's nodes |
| Icep.SweepProgress | ndlib/models/epidemics/ICEPModel.py:64-95 | part-way through a sweep, every node that was Infected and has had its turn is Removed, and no node has moved other than S to I or I to R |
| Icep.SweepOutcome | ndlib/models/epidemics/ICEPModel.py:64-95 | after a sweep every pre-sweep Infected node is Removed, Removed is final, a Susceptible node is Susceptible or Infected, and a node Infected after the sweep was Susceptible before it, so it has not yet had its turn |
| Icep.SweepKeepsCodes | ndlib/models/epidemics/ICEPModel.py:24-28 | a sweep keeps the nodes and the three codes |
| Icep.SweepResult | ndlib/models/epidemics/ICEPModel.py:97-106 | a later report carries the given counter, the delta or `{}` (a node is listed iff its status changed in the sweep), and for each of the three statuses its population after the sweep |
| Icep.SweepCountsAddUp | ndlib/models/epidemics/ICEPModel.py:97 | the populations after a sweep add up to the number of nodes, and their changes add up to 0 |
| Icep.IcepModel.constructor | ndlib/models/epidemics/ICEPModel.py:17-43 | a fresh model holds the graph, a permeability in [0, 1], the community and edge-threshold tables, the seeded statuses and counter 0 |
| Icep.IcepModel.Iteration | ndlib/models/epidemics/ICEPModel.py:45-106 | the first call cleans the ledger, applies no transition, sets the counter to 1 and reports iteration 0; a later call replaces the ledger with the specified sweep's working copy, advances the draws as specified, increments the counter and reports the pre-increment counter with the delta or `{}` |
| Icep.IcepModel.SweepNodes | ndlib/models/epidemics/ICEPModel.py:64-95 | the loop over nodes gives the specified sweep: only nodes Infected in the unchanged live ledger take a turn |
| Icep.IcepModel.SpreadFrom | ndlib/models/epidemics/ICEPModel.py:68-95 | one infected node's turn, with the threshold carried from neighbour to neighbour, gives the specified turn |
| Icep.IcepModel.ChooseThreshold | ndlib/models/epidemics/ICEPModel.py:80-89 | the threshold the method picks is the specified `Threshold` for that neighbour and previous value |
| Icep.IcepModel.TryNeighbour | ndlib/models/epidemics/ICEPModel.py:77-93 | one neighbour: a susceptible one gets its threshold and one draw and is infected iff the draw does not exceed the threshold; any other is skipped without a draw |

## Left out

- The numpy random generator is not modelled. Draws are a given stream of reals in [0, 1), consumed in order. No statistical property of the draws is claimed.
- `np.exp` and floating-point rounding are not modelled: `exp` is a parameter and probabilities are exact reals.
- `DiffusionModel.py` is not part of this model. `clean_initial_status` and `status_delta` are modelled only as described above. Parameter validation, `ModelConfig` and seeding are left out.
- The networkx graph is a read-only value: node order, neighbour (successor) lists, predecessor lists and the directed flag.
- The plotting code and the `future.utils.iteritems` shim are not modelled: they hold no model state.
- A missing `'threshold'` table in the ICEP edge parameters is the empty table. Both take the same branches.
- Node keys are integers, and so are community labels.
- Seir.ExposureThreshold: `tp_rate` is compared with 1 as a real. Any other value selects the `beta * triggered` branch, as in the source.
