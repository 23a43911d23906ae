# Cascading-failure reliability of an electric network, in Dafny

This project models the core of a Monte Carlo estimator of how a hazard affects an electric power network and the consumer areas it supplies. Each trial runs these steps:

1. **Direct hazard action.** Every node fails with the probability of failure the hazard assigned to it.
2. **Network update.** Failed nodes leave the source and consumer lists. They lose their capacity, and every edge at them gets the large weight 1/EPS. Every other node has its pending damage increment applied to its capacity and reset; a failed node keeps its increment unapplied. Then every edge has its increment applied to its capacity and weight, and reset.
3. **Cascading effects.** The loop runs for at most `max_iteration` rounds, until the damage stops changing. Each round has three parts:
   - loads are recounted as the number of shortest source-to-consumer paths through each component;
   - components whose load exceeds their capacity take damage;
   - the network is updated again.
4. **State of the consumer areas.** Each area gets the mean damage of the lines at it.

The driver repeats the trial on a fresh copy of the network and collects one vector of area values per trial. Post-processing turns the vectors into two outputs:
- the affected population of each trial;
- each area's estimated probability of being affected.

The driver also covers two parts of loading the network: the weight fallback rules and the selection of the source and terminal lists. It also sets the initial capacities from the loads counted on the intact network.

## Layout

- **`seqs.dfy`, module `Seqs`.** Sequence helpers:
  - filtering a list, and Python's `list.remove`;
  - the subsequence order;
  - sums, means and maxima;
  - `AllSome`, which collects optional values.
- **`model.dfy`, module `Model`.** The attribute schema:
  - the `Node`, `Edge` and `Area` records;
  - the `Net` value of one trial's state;
  - the numerical thresholds `EPS` and `MIN_DAMAGE`;
  - the damage snapshot;
  - the class `Network`.
  A `Network` holds the graph's node and edge attribute tables as arrays updated in place, plus the source and consumer lists it shrinks. `Network.Abs()` reads the object as a `Net` value.
- **`netsim.dfy`, module `Netsim`.** Each operation of `Netsim.py` is proved against a function of the old state. The method is the in-place operation, and its postcondition is `g.Abs() == XSpec(old(g.Abs()))` for one of these functions:
  - `HazardSpec`;
  - `UpdateSpec`;
  - `LoadsSpec`;
  - `OverloadSpec`;
  - `Cascade`.
  Lemmas state what those functions guarantee.
- **`sysrel.dfy`, module `Sysrel`.** The modelled parts of `Sysrel.py`. The Monte Carlo driver is proved equal to `MonteCarloSpec`, the area vectors of all trials.

Graph nodes are numbered `0 .. n-1` and edges `0 .. m-1`. An edge record names its two endpoints. An area names the node its name refers to.

Damage, capacity, load and weight are exact reals.

## Model

Almost every member assumes valid thresholds, 0 < EPS < 1 and 0 < MIN_DAMAGE < 1 (`Thresholds.Valid`); the rows do not repeat it. Any other premise of a lemma opens its row.

| member | source | states |
|---|---|---|
| Netsim.HazardNode | Netsim.py:23-36 | One node's outcome: damage 1 when pof > 1-EPS, 0 when pof < EPS, otherwise 1 when the node's draw is below pof and unchanged when it is not. |
| Netsim.HazardSpec | Netsim.py:21-36 | Every node gets its outcome under its own draw, in node order. Edges and lists are untouched. |
| Netsim.DirectHazardAction | Netsim.py:21-36 | The node table becomes `HazardSpec` of the old one. Nothing else changes, and the structural invariant is kept. |
| Netsim.HazardEffect | Netsim.py:21-36 | Damage is set to 1 when pof > 1-EPS and to 0 when pof < EPS. Otherwise it is 1 when the draw is below pof, and unchanged when it is not. No other attribute, edge or list changes. |
| Netsim.HazardDrawIrrelevant | Netsim.py:26-30 | When pof is within EPS of 0 or 1, the draw does not affect the outcome. |
| Netsim.HazardFromIntact | Netsim.py:21-36 | An intact node ends either intact or failed. It fails exactly when pof > 1-EPS, or when pof ≥ EPS and the draw is below pof. |
| Netsim.HazardPreservesInvariants | Netsim.py:21-36 | The hazard keeps the structural invariant and the attribute ranges. |
| Netsim.UpdatedNode | Netsim.py:44-58 | A node with damage > 1-MIN_DAMAGE gets capacity 0 and keeps its increment. Any other node gets capacity - delta·capacity and delta 0. |
| Netsim.UpdatedEdge | Netsim.py:51-64 | An edge at a failed node first gets weight 1/EPS. Then every edge gets capacity - delta·capacity, weight / max(1-delta, EPS) and delta 0. |
| Netsim.UpdateSpec | Netsim.py:40-64 | The state after `update_network`: every node and edge updated, and both lists with the failed nodes removed. |
| Netsim.UpdateNetwork | Netsim.py:40-64 | The state becomes `UpdateSpec` of the old state, and the structural invariant is kept. |
| Netsim.UpdateNodes | Netsim.py:42-58 | The node pass. Each list has every failed node removed where it is listed. Each node gets its updated record. Edges at failed nodes get weight 1/EPS. |
| Netsim.UpdateNode | Netsim.py:43-58 | One node of the node pass. It extends the removals, the isolated edges and the updated records by that node. |
| Netsim.IsolateNode | Netsim.py:51-52 | Every edge at the node, and only those edges, gets weight 1/EPS. |
| Netsim.ApplyEdgeIncrements | Netsim.py:60-64 | For every edge: capacity is reduced by delta·capacity, weight is divided by max(1-delta, EPS), and delta is reset. |
| Netsim.DropCriticalWithout | Netsim.py:45-48 | On a list without repetitions, the successive `remove` calls drop exactly the failed nodes and keep the others' order. |
| Netsim.PreWeightedStep | Netsim.py:44-52 | Handling one more node isolates its edges exactly when it has failed. |
| Netsim.UpdatedEdgesSplit | Netsim.py:51-64 | The updated edge is the edge pass applied to what the node pass left. |
| Netsim.UpdateIsolatesCritical | Netsim.py:44-52 | A node with damage > 1-MIN_DAMAGE ends with capacity 0, keeps its increment, and is in neither list. Each edge at it ends with weight (1/EPS)/max(1-delta, EPS). |
| Netsim.UpdateRelaxesSurvivor | Netsim.py:55-58 | Any other node has its capacity scaled by (1-delta) and its increment reset. Its list membership is unchanged. |
| Netsim.UpdateShrinksLists | Netsim.py:45-48 | The new lists are subsequences of the old ones. A node stays listed if and only if it was listed and has not failed. |
| Netsim.UpdateEdgeEffect | Netsim.py:60-64 | With the edge's delta in [0,1]: capacity is scaled by (1-delta) and delta is reset; endpoints, damage and load are unchanged. An edge that is not isolated and has positive weight never gets a lower weight. An isolated edge ends with weight at least 1/EPS, which can be lower than its old weight. |
| Netsim.UpdatePreservesInvariants | Netsim.py:40-64 | The update keeps the structural invariant and the attribute ranges. |
| Netsim.UpdateIdempotentIff | Netsim.py:40-64 | A second update with no damage change in between changes nothing, if and only if no isolated edge had a pending increment. |
| Netsim.IsEdgeInPath | Netsim.py:167-173 | True exactly when some consecutive pair of path nodes is the edge, in either direction. |
| Netsim.EdgeOnPathHasEndpointsOnPath | Netsim.py:167-173 | Both endpoints of an edge on a path are on the path. |
| Netsim.PathsThrough | Netsim.py:84-87 | The number of path entries that contain the node. |
| Netsim.PathsAlong | Netsim.py:84-90 | The number of path entries on which `is_edge_in_path` holds for the edge. |
| Netsim.LoadsSpec | Netsim.py:74-96 | Each node and edge load becomes 1 plus its count over all shortest paths of all source/consumer pairs, taken in loop order under the current weights. Nothing else changes. |
| Netsim.EvaluateSystemLoads | Netsim.py:67-96 | The state becomes `LoadsSpec` of the old state: each component's load is 1 plus the number of shortest paths that use it, and nothing else changes. |
| Netsim.CountAllPaths | Netsim.py:79-90 | After the loops over sources, consumers and their shortest paths, each node counter and each edge counter is 1 plus the number of those paths that use it. |
| Netsim.CountPaths | Netsim.py:83-90 | One pair's shortest paths are all added to the counters. |
| Netsim.CountPath | Netsim.py:85-90 | One path adds 1 to each node on it and to each edge along it. |
| Netsim.StoreLoads | Netsim.py:93-96 | Each component's load becomes its counter. Every other attribute is unchanged. |
| Netsim.LoadsEffect | Netsim.py:74-96 | On a structurally valid network (`ValidNet`): every edge load is at least 1 and never exceeds either endpoint's load, and only the load field changes. |
| Netsim.LoadsIgnorePreviousLoads | Netsim.py:74-96 | Previous loads play no part: two states that differ only in their load fields get the same loads. |
| Netsim.PathsAlongAtMostThrough | Netsim.py:84-90 | No edge lies on more paths than either of its endpoints. |
| Netsim.PathsAlongEndpoints | Netsim.py:88-90 | Only an edge's endpoints decide which paths it lies on. |
| Netsim.LoadsIdempotent | Netsim.py:67-96 | Recounting the loads right away gives the same state. |
| Netsim.LoadsPreservesInvariants | Netsim.py:67-96 | Load counting keeps the structural invariant and the attribute ranges. |
| Netsim.Overload | Netsim.py:119-131 | With capacity > EPS and load/capacity > 1, damage becomes 1-(1-damage)/ratio. The increment becomes 1-damage when that is below EPS, and otherwise the damage gained. In every other case nothing changes. |
| Netsim.OverloadSpec | Netsim.py:117-147 | The overload rule applied to every node and to every edge, with the loads and capacities read before the pass. |
| Netsim.OverloadNodes | Netsim.py:117-131 | Every node gets the overload rule. |
| Netsim.OverloadEdges | Netsim.py:133-147 | Every edge gets the overload rule. |
| Netsim.RatioAboveOne | Netsim.py:119-121 | With capacity above zero, load/capacity > 1 if and only if load > capacity. |
| Netsim.OverloadBounds | Netsim.py:117-147 | With damage in [0,1] and EPS > 0: when capacity > EPS and load > capacity, damage rises within [damage, 1], stays below 1 if it was below 1, and the increment lies in [0, 1-damage]. In every other case damage and increment are unchanged. |
| Netsim.OverloadPreservesInvariants | Netsim.py:117-147 | The overload pass keeps the structural invariant and the attribute ranges. On a network in range (`InRange`) it never lowers any damage. |
| Netsim.Round | Netsim.py:112-148 | One iteration of the loop: loads, then the overload passes, then the update. |
| Netsim.CascadeLoop | Netsim.py:106-150 | The `while` loop. It runs a round while fewer than `max_iteration` rounds are done and the last damage snapshot differs from the one before. The snapshots start as the integers 0 and 1. |
| Netsim.Cascade | Netsim.py:101-150 | The loop started from round 0 with the two integer sentinels. |
| Netsim.SimulateCascadingEffects | Netsim.py:101-150 | The state becomes `Cascade(...).final`, the result of the bounded loop of load, overload and update rounds. |
| Netsim.CascadeLoopRounds | Netsim.py:102-150 | The loop's state after `k` rounds is `k` rounds of the step from the start. Termination also follows. |
| Netsim.CascadeRounds | Netsim.py:102-150 | The loop runs no round when `max_iteration` ≤ 0, and between 1 and `max_iteration` rounds otherwise. The final state is that many rounds applied to the start. The loop stops before `max_iteration` only after a round left the damage snapshot unchanged, and every earlier round from the second on changed it. |
| Netsim.LoadsProgress | Netsim.py:112 | Counting loads changes no damage, endpoint or list. |
| Netsim.OverloadProgress | Netsim.py:117-147 | On a network in range (`InRange`), the overload pass only raises damage. |
| Netsim.UpdateProgress | Netsim.py:148 | On a structurally valid network (`ValidNet`), the update changes no damage or endpoint and only shrinks the lists. |
| Netsim.RoundProgress | Netsim.py:112-148 | On a valid network in range (`ValidNet`, `InRange`), one round keeps both invariants, never lowers damage, and only shrinks the lists. |
| Netsim.CascadeProgress | Netsim.py:101-150 | On a valid network in range (`ValidNet`, `InRange`), over the whole cascade: damage stays in [0,1] and never decreases, capacity stays non-negative, weight stays positive, and the lists only shrink. |
| Netsim.RemovalIsPermanent | Netsim.py:106-150 | On a valid network in range (`ValidNet`, `InRange`), a node gone from a list in round `k1` is still gone in every later round `k2`. |
| Netsim.AreaDamage | Netsim.py:158-163 | The mean damage of the edges at the area's node, in edge order, and 0 when the node has no edges. Node damage is not read. |
| Netsim.SetStateConsumers | Netsim.py:155-164 | One value per area, in area order. |
| Netsim.IncidentDamagesFacts | Netsim.py:159-160 | The supply-edge damages are within the bounds of all edge damages. The list is empty if and only if no edge meets the area's node. |
| Netsim.AreaValuesInUnitInterval | Netsim.py:155-164 | With edge damage in [0,1], every area value lies in [0,1], and an area without edges gets 0. |
| Sysrel.SelectBelow | Sysrel.py:91-92 | The list is exactly the nodes whose taxonomy is in the category, in increasing node order. |
| Sysrel.SelectionExact | Sysrel.py:88-92 | The source and terminal lists hold each node of the category exactly once, in node order. |
| Sysrel.RuleWeight | Sysrel.py:73-85 | One edge's weight under one formula: L·X, L·R or L/V. It is absent when a value is missing or not a number, and when V is 0. |
| Sysrel.ApplyRule | Sysrel.py:73-85 | A weight formula yields weights if and only if it works for every edge. The weights are then that formula's values, edge by edge. |
| Sysrel.EdgeWeights | Sysrel.py:66-86 | The nested `try`/`except`: L·X for all edges, else L·R for all edges, else L/V for all edges. It is absent when the last formula also fails. |
| Sysrel.WeightFallback | Sysrel.py:66-86 | Weights exist if and only if some rule works for every edge. They are then the values of the first such rule, in the order L·X, L·R, L/V. |
| Sysrel.LoadNetworkData | Sysrel.py:66-93 | The given tables, with edge weights from the fallback and source and terminal lists by taxonomy. It is absent when the weights are. |
| Sysrel.LoadedNetworkValid | Sysrel.py:66-93 | When every edge joins two graph nodes: loading succeeds if and only if some weight rule applies, and the result then satisfies the structural invariant. |
| Sysrel.CapacitiesSpec | Sysrel.py:101-105 | Every node and edge capacity becomes alpha times its load. |
| Sysrel.AssignInitialCapacities | Sysrel.py:101-105 | Every capacity becomes alpha times the component's load. Nothing else changes. |
| Sysrel.CapacitiesInRange | Sysrel.py:101-105 | On a network in range (`InRange`) and with alpha ≥ 0, the attribute ranges are kept, and the structural invariant is unaffected. |
| Sysrel.DesignLoadNotOverloaded | Sysrel.py:101-105 | On a network in range (`InRange`) and with alpha ≥ 1, the overload rule leaves every component at its design load unchanged. |
| Sysrel.DamageTest | Sysrel.py:135 | `max` of node damage > MIN_DAMAGE `or` `max` of edge damage > MIN_DAMAGE, with the second only evaluated when the first is false. It is absent where a `max` over an empty collection raises. |
| Sysrel.DamageTestMeaning | Sysrel.py:135 | The test raises exactly on an empty node table, or on an empty edge table when no node exceeds MIN_DAMAGE. Otherwise it is true if and only if some node or edge damage exceeds MIN_DAMAGE. |
| Sysrel.TrialNet | Sysrel.py:119-144 | The network at the end of one trial: the hazard, then the update. When the damage test holds, a cascade follows if both lists are non-empty, then one more update. It is absent where the damage test raises. |
| Sysrel.TrialSpec | Sysrel.py:119-151 | The area vector of that final network. |
| Sysrel.TrialBranches | Sysrel.py:125-144 | Which steps a trial runs:<br>• Without damage above MIN_DAMAGE, it ends after the first update.<br>• With such damage, it cascades only when both lists are non-empty, then updates once more.<br>• It raises only on the cases of the damage test. |
| Sysrel.TrialNetFacts | Sysrel.py:119-144 | On a valid template in range (`ValidNet`, `InRange`), a trial ends valid and in range. It never raises on a graph with nodes and edges. |
| Sysrel.TrialShape | Sysrel.py:119-151 | On a valid template in range (`ValidNet`, `InRange`), one trial yields one value in [0,1] per area. It never raises on a graph with nodes and edges. |
| Sysrel.RunTrial | Sysrel.py:116-151 | The trial run on a fresh copy equals `TrialSpec`. |
| Sysrel.Trials | Sysrel.py:115-151 | One trial result per entry of the draws, in trial order. |
| Sysrel.TrialsAt | Sysrel.py:115-151 | Entry `k` of the trial results is the trial on the `k`-th draws. |
| Sysrel.MonteCarloSpec | Sysrel.py:108-154 | All trial vectors in order, or absent when any trial raises. |
| Sysrel.RunMonteCarloSimulation | Sysrel.py:108-154 | The result is `MonteCarloSpec`: the per-trial vectors in trial order, or failure if a trial raises. The template is not modified. |
| Sysrel.MonteCarloShape | Sysrel.py:108-154 | On a valid template in range (`ValidNet`, `InRange`): `mcs` vectors, each with one value in [0,1] per area. It never fails on a graph with nodes and edges. |
| Sysrel.NoHazardNoOutage | Sysrel.py:119-151 | With every pof below EPS and at most 1-EPS, a non-empty node table and lines with damage 0: the trial does not raise when there are lines, and every area value is 0. |
| Sysrel.Trunc | Sysrel.py:159-160 | Python's `int()` on a number: truncation toward zero, bracketed from both sides. |
| Sysrel.SampleDamageNetwork | Sysrel.py:159-160 | For each of the first `nmcs` trials: the `int()` of the sum over the first row's width of sample value times area population. |
| Sysrel.EstimatedPof | Sysrel.py:161-163 | The mean of one area's values over the first `nmcs` trials. It is NaN when `nmcs` is 0. |
| Sysrel.OutputBounds | Sysrel.py:158-163 | With samples in [0,1] and non-negative populations: each trial's affected population lies between 0 and the truncated total population, and each area estimate lies in [0,1]. The estimate is NaN exactly when `nmcs` is 0. |
| Sysrel.ComputeOutput | Sysrel.py:158-164 | Returns the per-trial affected population. Each area's estimate is written, and every other area field is unchanged. |
| Model.Network.constructor | Sysrel.py:119-122 | A fresh, independent copy of the template's node and edge tables and lists. |

## Behaviour of the source shown by the model

These are properties of the code as written, not defects claimed against it:

- **Repeating the update can change the state.** A second `update_network` with no damage change in between is a no-op only when no isolated edge had a pending increment (`Netsim.UpdateIdempotentIff`). Otherwise the second pass resets that edge's weight to 1/EPS.
- **Isolation can lower a weight.** Isolating an edge sets its weight to 1/EPS before the increment is applied, which lowers it when it was above 1/EPS. `Netsim.UpdateEdgeEffect` therefore bounds an isolated edge's weight only from below, by 1/EPS.
- **Node damage does not reach the areas.** An area's value depends only on the edge table (`Netsim.SetStateConsumers`, `Netsim.py:155-164`). A consumer node that certainly fails still reads 0 as long as its lines are intact.

## Left out

- **`Physnet.py`.** The physical power-flow variant of the network is not part of this model.
- **Network loading.**
  - Reading the GeoJSON inputs and copying node and edge properties into the graph (`Sysrel.py:26-64`, `86`) are not modelled. The model starts from the node and edge records.
  - An area is given by the index of the node its name refers to. An area name that is not a graph node is not modelled.
- **Parallel edges.** Parallel edges between the same pair of nodes are not modelled. An edge table entry is one `nx.Graph` edge.
- **Shortest paths.** `nx.all_shortest_paths` is a parameter (`PathOracle`): it receives the current weights, a source and a consumer.
  - Where no path joins a pair, the source raises `NetworkXNoPath` (`Netsim.py:81-82`) and nothing up to the Monte Carlo driver catches it. The model does not raise there: it counts an empty path list for that pair and goes on.
  - Why this is not modelled: no operation removes an edge (a failed node's edges only get weight 1/EPS), so the graph's connectivity never changes, and the lists only shrink (`Netsim.RemovalIsPermanent`). Every pair of a trial is therefore a pair of the initial lists. The capacities are sized from the loads of an initial `evaluate_system_loads` on the intact network (`Sysrel.py:97-105`), and if that run succeeded, every such pair already had a path. The driver that makes that first call is not part of this model.
- **Random draws.** `np.random.rand()` is a parameter. `draws[i]` holds one value per node for trial `i`, and node `k` reads `draws[i][k]` only when its pof is in the random band. The source calls `np.random.rand()` only for nodes in the band, so its successive values go to those nodes in node order (`Netsim.py:33`). The two agree in distribution, but under one seed they do not assign the same value to each node.
- **Side effects.** Printing and `copy.deepcopy` are not modelled. The copy is the `Network` constructor.
- **Floating point.** IEEE floating point is replaced by exact reals. NaN from the mean of no values is `None`.
- **Error paths.** `max()` on an empty collection, and a failing weight formula, raise in the source. Both are modelled as `None`, and a trial that raises makes the whole simulation `None`. `compute_output` raises `IndexError` when `nmcs` exceeds the number of samples, when the first row's width is not the number of areas, or when a later row is shorter (`Sysrel.py:159-162`). The model instead requires the non-raising shape (`Sysrel.WellShaped`). The driver's output always has that shape (`Sysrel.MonteCarloShape`).
- **Behaviour of the code kept as written.**
  - The update leaves a failed node's damage and increment as they are; it only zeroes its capacity (`Netsim.py:44-52`).
  - A node is taken out of service when its damage exceeds 1-MIN_DAMAGE (`Netsim.py:44`).
  - A trial recomputes loads only inside the cascade; it has no separate reachability step.
  - An area's value is the mean damage of the lines at its node, and 0 for a node without lines (`Netsim.py:159-163`).
  - Loads count every shortest path of every source/consumer pair (`Netsim.py:79-90`).
- Sysrel.RunMonteCarloSimulation: takes the template graph's tables as a value, read once before the trials. Each trial copies that value (`Model.Network.constructor`), not the live object.
