/** Damage propagation in the network (Netsim.py): direct hazard action, the
    network update that isolates failed nodes and applies damage increments,
    origin-destination load counting over shortest paths, the bounded
    cascading-failure loop, and the damage of each consumer area.

    Each in-place operation is a method on a `Network` whose postcondition ties
    the new state to a function of the old one (`HazardSpec`, `UpdateSpec`,
    `LoadsSpec`, `OverloadSpec`, `Cascade`); the lemmas state what those
    functions guarantee. */
module Netsim {
  import opened Seqs
  import opened Model

  // ---------------------------------------------------------------------------
  // Direct hazard action

  /** One node's Bernoulli draw; `r` is the uniform value drawn for it, read
      only when the probability of failure is not within EPS of 0 or 1. */
  function HazardNode(n: Node, r: real, t: Thresholds): Node {
    if n.pof > 1.0 - t.eps then n.(damage := 1.0)
    else if n.pof < t.eps then n.(damage := 0.0)
    else if r < n.pof then n.(damage := 1.0)
    else n
  }

  function HazardSpec(net: Net, draws: seq<real>, t: Thresholds): Net
    requires |draws| == |net.nodes|
  {
    net.(nodes := seq(|net.nodes|, i requires 0 <= i < |net.nodes| => HazardNode(net.nodes[i], draws[i], t)))
  }

  /** What the hazard does to node `i`, and that nothing else changes. */
  lemma HazardEffect(net: Net, draws: seq<real>, t: Thresholds, i: nat)
    requires |draws| == |net.nodes| && i < |net.nodes|
    ensures var h := HazardSpec(net, draws, t); var n := net.nodes[i];
      && h.edges == net.edges && h.sNodes == net.sNodes && h.cNodes == net.cNodes
      && |h.nodes| == |net.nodes|
      && h.nodes[i] == n.(damage := h.nodes[i].damage)
      && (n.pof > 1.0 - t.eps ==> h.nodes[i].damage == 1.0)
      && (n.pof < t.eps && n.pof <= 1.0 - t.eps ==> h.nodes[i].damage == 0.0)
      && (t.eps <= n.pof <= 1.0 - t.eps ==>
            h.nodes[i].damage == (if draws[i] < n.pof then 1.0 else n.damage))
  {
  }

  /** Outside the random band the draw does not matter. */
  lemma HazardDrawIrrelevant(n: Node, r1: real, r2: real, t: Thresholds)
    requires n.pof > 1.0 - t.eps || n.pof < t.eps
    ensures HazardNode(n, r1, t) == HazardNode(n, r2, t)
  {
  }

  /** Starting from an intact node, the hazard leaves it either intact or failed,
      and failed exactly when the probability is near 1 or the draw falls below it. */
  lemma HazardFromIntact(n: Node, r: real, t: Thresholds)
    requires t.Valid() && n.damage == 0.0
    ensures var d := HazardNode(n, r, t).damage;
      && (d == 0.0 || d == 1.0)
      && (d == 1.0 <==> n.pof > 1.0 - t.eps || (t.eps <= n.pof && r < n.pof))
  {
  }

  lemma HazardPreservesInvariants(net: Net, draws: seq<real>, t: Thresholds)
    requires |draws| == |net.nodes|
    ensures ValidNet(net) ==> ValidNet(HazardSpec(net, draws, t))
    ensures InRange(net) ==> InRange(HazardSpec(net, draws, t))
  {
  }

  /** `direct_hazard_action(G)`: the draws are the values `np.random.rand()`
      would return, one per node. */
  method DirectHazardAction(g: Network, draws: seq<real>, t: Thresholds)
    requires g.Valid() && |draws| == g.nodes.Length
    modifies g.nodes
    ensures g.Valid()
    ensures g.Abs() == HazardSpec(old(g.Abs()), draws, t)
  {
    ghost var net0 := g.Abs();
    for i := 0 to g.nodes.Length
      invariant forall k :: 0 <= k < i ==> g.nodes[k] == HazardNode(net0.nodes[k], draws[k], t)
      invariant forall k :: i <= k < g.nodes.Length ==> g.nodes[k] == net0.nodes[k]
    {
      var n := g.nodes[i];
      if n.pof > 1.0 - t.eps {
        g.nodes[i] := n.(damage := 1.0);
      } else if n.pof < t.eps {
        g.nodes[i] := n.(damage := 0.0);
      } else {
        var r := draws[i];
        if r < n.pof {
          g.nodes[i] := n.(damage := 1.0);
        }
      }
    }
    assert g.nodes[..] == HazardSpec(net0, draws, t).nodes;
    HazardPreservesInvariants(net0, draws, t);
  }

  // ---------------------------------------------------------------------------
  // Network update

  /** Damage close to 1: the node is taken out of service. */
  predicate Critical(n: Node, t: Thresholds) {
    n.damage > 1.0 - t.minDamage
  }

  function CriticalBelow(ns: seq<Node>, k: int, t: Thresholds): set<nat> {
    set i: nat | i < k && i < |ns| && Critical(ns[i], t)
  }

  function CriticalSet(ns: seq<Node>, t: Thresholds): set<nat> {
    CriticalBelow(ns, |ns|, t)
  }

  /** The edge has an endpoint among the nodes `0 .. k-1` that is critical. */
  predicate IsolatedBelow(ns: seq<Node>, e: Edge, k: int, t: Thresholds) {
    (e.u < k && e.u < |ns| && Critical(ns[e.u], t)) || (e.v < k && e.v < |ns| && Critical(ns[e.v], t))
  }

  predicate Isolated(ns: seq<Node>, e: Edge, t: Thresholds) {
    IsolatedBelow(ns, e, |ns|, t)
  }

  /** A critical node loses its capacity and keeps its increment; any other
      node has its capacity reduced by the increment, which is then reset. */
  function UpdatedNode(n: Node, t: Thresholds): Node {
    if Critical(n, t) then n.(capacity := 0.0)
    else n.(capacity := n.capacity - n.delta * n.capacity, delta := 0.0)
  }

  /** `max(1 - delta, EPS)`. */
  function Divisor(delta: real, eps: real): real {
    if eps > 1.0 - delta then eps else 1.0 - delta
  }

  /** The edge pass: weight divided by `max(1 - delta, EPS)`, capacity reduced
      by the increment, increment reset. */
  function RelaxEdge(e: Edge, eps: real): Edge
    requires 0.0 < eps
  {
    e.(capacity := e.capacity - e.delta * e.capacity, weight := e.weight / Divisor(e.delta, eps), delta := 0.0)
  }

  /** An edge after the update: an isolated edge's weight is first set to 1/EPS. */
  function UpdatedEdge(e: Edge, isolated: bool, t: Thresholds): Edge
    requires t.Valid()
  {
    RelaxEdge(if isolated then e.(weight := 1.0 / t.eps) else e, t.eps)
  }

  function UpdateSpec(net: Net, t: Thresholds): Net
    requires t.Valid()
  {
    var crit := CriticalSet(net.nodes, t);
    Net(seq(|net.nodes|, i requires 0 <= i < |net.nodes| => UpdatedNode(net.nodes[i], t)),
        seq(|net.edges|, j requires 0 <= j < |net.edges| =>
          UpdatedEdge(net.edges[j], Isolated(net.nodes, net.edges[j], t), t)),
        Without(net.sNodes, crit),
        Without(net.cNodes, crit))
  }

  /** A critical node ends with capacity 0, its increment untouched, out of
      both lists, and every edge at it carries weight (1/EPS) / max(1-delta, EPS). */
  lemma UpdateIsolatesCritical(net: Net, t: Thresholds, i: nat)
    requires t.Valid() && i < |net.nodes| && Critical(net.nodes[i], t)
    ensures var u := UpdateSpec(net, t);
      && u.nodes[i] == net.nodes[i].(capacity := 0.0)
      && i !in u.sNodes && i !in u.cNodes
      && forall j :: 0 <= j < |net.edges| && Incident(net.edges[j], i) ==>
           u.edges[j].weight == (1.0 / t.eps) / Divisor(net.edges[j].delta, t.eps)
  {
  }

  /** A node that is not critical keeps its place in the lists, has its capacity
      scaled by (1 - delta) and its increment reset. */
  lemma UpdateRelaxesSurvivor(net: Net, t: Thresholds, i: nat)
    requires t.Valid() && i < |net.nodes| && !Critical(net.nodes[i], t)
    ensures var u := UpdateSpec(net, t); var n := net.nodes[i];
      && u.nodes[i] == n.(capacity := n.capacity * (1.0 - n.delta), delta := 0.0)
      && (i in u.sNodes <==> i in net.sNodes)
      && (i in u.cNodes <==> i in net.cNodes)
  {
  }

  /** The lists only shrink: what remains was there before, in the same order,
      and exactly the critical nodes are gone. */
  lemma {:induction false} UpdateShrinksLists(net: Net, t: Thresholds)
    requires t.Valid()
    ensures var u := UpdateSpec(net, t);
      && Subseq(u.sNodes, net.sNodes) && Subseq(u.cNodes, net.cNodes)
      && (forall x :: x in u.sNodes <==> x in net.sNodes && !(x < |net.nodes| && Critical(net.nodes[x], t)))
      && (forall x :: x in u.cNodes <==> x in net.cNodes && !(x < |net.nodes| && Critical(net.nodes[x], t)))
  {
    var crit := CriticalSet(net.nodes, t);
    WithoutIsSubseq(net.sNodes, crit);
    WithoutIsSubseq(net.cNodes, crit);
  }

  /** The edge pass: capacity scaled by (1 - delta), the increment reset, the
      weight never below its old value (or below 1/EPS once isolated). */
  lemma UpdateEdgeEffect(net: Net, t: Thresholds, j: nat)
    requires t.Valid() && j < |net.edges| && 0.0 <= net.edges[j].delta <= 1.0
    ensures var u := UpdateSpec(net, t); var e := net.edges[j];
      && u.edges[j].u == e.u && u.edges[j].v == e.v
      && u.edges[j].capacity == e.capacity * (1.0 - e.delta)
      && u.edges[j].delta == 0.0
      && u.edges[j].damage == e.damage && u.edges[j].load == e.load
      && (!Isolated(net.nodes, e, t) && e.weight > 0.0 ==> u.edges[j].weight >= e.weight)
      && (Isolated(net.nodes, e, t) ==> u.edges[j].weight >= 1.0 / t.eps)
  {
    var e := net.edges[j];
    var dv := Divisor(e.delta, t.eps);
    assert t.eps <= dv <= 1.0;
    var w := if Isolated(net.nodes, e, t) then 1.0 / t.eps else e.weight;
    if w > 0.0 {
      DivideByAtMostOne(w, dv);
    }
  }

  lemma DivideByAtMostOne(w: real, dv: real)
    requires w > 0.0 && 0.0 < dv <= 1.0
    ensures w / dv >= w
  {
    assert (w / dv) * dv == w;
  }

  lemma UpdatedNodeInRange(n: Node, t: Thresholds)
    requires NodeInRange(n)
    ensures NodeInRange(UpdatedNode(n, t))
  {
    assert n.capacity - n.delta * n.capacity == n.capacity * (1.0 - n.delta);
    assert 0.0 <= n.capacity * (1.0 - n.delta);
  }

  lemma UpdatedEdgeInRange(e: Edge, isolated: bool, t: Thresholds)
    requires t.Valid() && EdgeInRange(e)
    ensures EdgeInRange(UpdatedEdge(e, isolated, t))
  {
    var dv := Divisor(e.delta, t.eps);
    var w := if isolated then 1.0 / t.eps else e.weight;
    assert w > 0.0;
    assert w / dv > 0.0;
    assert e.capacity - e.delta * e.capacity == e.capacity * (1.0 - e.delta);
    assert 0.0 <= e.capacity * (1.0 - e.delta);
  }

  lemma UpdatePreservesInvariants(net: Net, t: Thresholds)
    requires t.Valid()
    ensures ValidNet(net) ==> ValidNet(UpdateSpec(net, t))
    ensures InRange(net) ==> InRange(UpdateSpec(net, t))
  {
    var u := UpdateSpec(net, t);
    var crit := CriticalSet(net.nodes, t);
    if ValidNet(net) {
      WithoutDistinct(net.sNodes, crit);
      WithoutDistinct(net.cNodes, crit);
      assert forall k :: 0 <= k < |u.sNodes| ==> u.sNodes[k] in net.sNodes;
      assert forall k :: 0 <= k < |u.cNodes| ==> u.cNodes[k] in net.cNodes;
    }
    if InRange(net) {
      forall i | 0 <= i < |net.nodes| ensures NodeInRange(u.nodes[i]) {
        UpdatedNodeInRange(net.nodes[i], t);
      }
      forall j | 0 <= j < |net.edges| ensures EdgeInRange(u.edges[j]) {
        UpdatedEdgeInRange(net.edges[j], Isolated(net.nodes, net.edges[j], t), t);
      }
    }
  }

  /** Running the update a second time with no damage change in between leaves
      the state unchanged exactly when no isolated edge had a pending increment:
      otherwise the second pass resets that edge's weight to 1/EPS. */
  lemma UpdateIdempotentIff(net: Net, t: Thresholds)
    requires t.Valid()
    ensures var u := UpdateSpec(net, t);
      UpdateSpec(u, t) == u <==>
        forall j :: 0 <= j < |net.edges| && Isolated(net.nodes, net.edges[j], t) ==> net.edges[j].delta == 0.0
  {
    var u := UpdateSpec(net, t);
    var u2 := UpdateSpec(u, t);
    var crit := CriticalSet(net.nodes, t);
    assert CriticalSet(u.nodes, t) == crit;
    WithoutWithout(net.sNodes, crit, crit);
    WithoutWithout(net.cNodes, crit, crit);
    assert crit + crit == crit;
    assert u2.nodes == u.nodes;
    assert u2.sNodes == u.sNodes && u2.cNodes == u.cNodes;
    forall j | 0 <= j < |net.edges|
      ensures Isolated(u.nodes, u.edges[j], t) == Isolated(net.nodes, net.edges[j], t)
      ensures !Isolated(net.nodes, net.edges[j], t) ==> u2.edges[j] == u.edges[j]
      ensures Isolated(net.nodes, net.edges[j], t) ==> u2.edges[j] == u.edges[j].(weight := 1.0 / t.eps)
      ensures Isolated(net.nodes, net.edges[j], t) ==>
                (u2.edges[j] == u.edges[j] <==> net.edges[j].delta == 0.0)
    {
      var e := net.edges[j];
      assert Divisor(0.0, t.eps) == 1.0;
      if Isolated(net.nodes, e, t) {
        var dv := Divisor(e.delta, t.eps);
        assert u.edges[j].weight == (1.0 / t.eps) / dv;
        if e.delta != 0.0 {
          assert dv != 1.0;
          DivisionChanges(1.0 / t.eps, dv);
        }
      }
    }
    if forall j :: 0 <= j < |net.edges| && Isolated(net.nodes, net.edges[j], t) ==> net.edges[j].delta == 0.0 {
      assert u2.edges == u.edges;
    } else {
      var j :| 0 <= j < |net.edges| && Isolated(net.nodes, net.edges[j], t) && net.edges[j].delta != 0.0;
      assert u2.edges[j] != u.edges[j];
    }
  }

  lemma DivisionChanges(w: real, dv: real)
    requires w > 0.0 && dv > 0.0 && dv != 1.0
    ensures w / dv != w
  {
    var q := w / dv;
    assert q * dv == w;
    if q == w {
      calc {
        w * (dv - 1.0);
        q * dv - w;
        0.0;
      }
      assert false;
    }
  }

  /** Every edge at `i` gets weight `w`. */
  function IsolateEdges(es: seq<Edge>, i: nat, w: real): seq<Edge> {
    seq(|es|, j requires 0 <= j < |es| => if Incident(es[j], i) then es[j].(weight := w) else es[j])
  }

  /** The edge table once the node pass has handled nodes `0 .. k-1`. */
  function PreWeighted(ns: seq<Node>, es: seq<Edge>, k: int, t: Thresholds): seq<Edge>
    requires t.Valid()
  {
    seq(|es|, j requires 0 <= j < |es| =>
      if IsolatedBelow(ns, es[j], k, t) then es[j].(weight := 1.0 / t.eps) else es[j])
  }

  lemma PreWeightedStep(ns: seq<Node>, es: seq<Edge>, i: nat, t: Thresholds)
    requires t.Valid() && i < |ns|
    ensures PreWeighted(ns, es, i + 1, t) ==
      if Critical(ns[i], t) then IsolateEdges(PreWeighted(ns, es, i, t), i, 1.0 / t.eps)
      else PreWeighted(ns, es, i, t)
  {
  }

  /** The inner loop over `G.edges(node)` for a failed node. */
  method IsolateNode(g: Network, i: nat, t: Thresholds)
    requires t.Valid()
    modifies g.edges
    ensures g.edges[..] == IsolateEdges(old(g.edges[..]), i, 1.0 / t.eps)
  {
    ghost var es0 := g.edges[..];
    for j := 0 to g.edges.Length
      invariant forall k :: 0 <= k < j ==> g.edges[k] == IsolateEdges(es0, i, 1.0 / t.eps)[k]
      invariant forall k :: j <= k < g.edges.Length ==> g.edges[k] == es0[k]
    {
      if g.edges[j].u == i || g.edges[j].v == i {
        g.edges[j] := g.edges[j].(weight := 1.0 / t.eps);
      }
    }
  }

  /** The edge pass: each weight divided by `max(1 - delta, EPS)`, capacity
      reduced by the increment, increment reset. */
  method ApplyEdgeIncrements(g: Network, t: Thresholds)
    requires t.Valid()
    modifies g.edges
    ensures forall j :: 0 <= j < g.edges.Length ==> g.edges[j] == RelaxEdge(old(g.edges[j]), t.eps)
  {
    ghost var es0 := g.edges[..];
    for j := 0 to g.edges.Length
      invariant forall k :: 0 <= k < j ==> g.edges[k] == RelaxEdge(es0[k], t.eps)
      invariant forall k :: j <= k < g.edges.Length ==> g.edges[k] == es0[k]
    {
      var e := g.edges[j];
      var dv := if t.eps > 1.0 - e.delta then t.eps else 1.0 - e.delta;
      assert dv == Divisor(e.delta, t.eps);
      g.edges[j] := e.(capacity := e.capacity - e.delta * e.capacity, weight := e.weight / dv, delta := 0.0);
      assert g.edges[j] == RelaxEdge(es0[j], t.eps);
    }
  }

  /** A list after the node pass has handled nodes `0 .. k-1`: each critical
      node is removed where it is still listed. */
  function DropCritical(s: seq<nat>, ns: seq<Node>, k: nat, t: Thresholds): seq<nat>
    requires k <= |ns|
  {
    if k == 0 then s
    else
      var r := DropCritical(s, ns, k - 1, t);
      if Critical(ns[k - 1], t) then RemoveFirst(r, k - 1) else r
  }

  /** On a list without repetitions, the removals drop exactly the critical
      nodes among `0 .. k-1`, keeping the order of the others. */
  lemma {:induction false} DropCriticalWithout(s: seq<nat>, ns: seq<Node>, k: nat, t: Thresholds)
    requires Distinct(s) && k <= |ns|
    ensures DropCritical(s, ns, k, t) == Without(s, CriticalBelow(ns, k, t))
  {
    if k == 0 {
      assert CriticalBelow(ns, 0, t) == {};
      WithoutNothing(s);
    } else {
      DropCriticalWithout(s, ns, k - 1, t);
      if Critical(ns[k - 1], t) {
        assert CriticalBelow(ns, k, t) == CriticalBelow(ns, k - 1, t) + {k - 1};
        RemoveFirstWithout(s, CriticalBelow(ns, k - 1, t), k - 1);
      } else {
        assert CriticalBelow(ns, k, t) == CriticalBelow(ns, k - 1, t);
      }
    }
  }

  /** The node pass, one node: a failed node leaves the lists, loses its
      capacity and isolates its edges. */
  method UpdateNode(g: Network, i: nat, t: Thresholds, ghost ns0: seq<Node>, ghost es0: seq<Edge>,
                    ghost s0: seq<nat>, ghost c0: seq<nat>)
    requires t.Valid() && i < g.nodes.Length == |ns0| && g.nodes[i] == ns0[i]
    requires g.sNodes == DropCritical(s0, ns0, i, t) && g.cNodes == DropCritical(c0, ns0, i, t)
    requires g.edges[..] == PreWeighted(ns0, es0, i, t)
    modifies g, g.nodes, g.edges
    ensures g.sNodes == DropCritical(s0, ns0, i + 1, t) && g.cNodes == DropCritical(c0, ns0, i + 1, t)
    ensures g.edges[..] == PreWeighted(ns0, es0, i + 1, t)
    ensures g.nodes[..] == old(g.nodes[..])[i := UpdatedNode(ns0[i], t)]
  {
    var nd := g.nodes[i];
    ghost var nodes0 := g.nodes[..];
    PreWeightedStep(ns0, es0, i, t);
    if nd.damage > 1.0 - t.minDamage {
      if i in g.sNodes {
        g.sNodes := RemoveFirst(g.sNodes, i);
      } else {
        WithoutIgnoresAbsent(g.sNodes, i);
      }
      if i in g.cNodes {
        g.cNodes := RemoveFirst(g.cNodes, i);
      } else {
        WithoutIgnoresAbsent(g.cNodes, i);
      }
      // the failed node makes its edges unavailable
      IsolateNode(g, i, t);
      assert g.nodes[..] == nodes0;
      nd := nd.(capacity := 0.0);
    } else {
      nd := nd.(capacity := nd.capacity - nd.delta * nd.capacity, delta := 0.0);
    }
    assert nd == UpdatedNode(ns0[i], t);
    g.nodes[i] := nd;
  }

  /** The updated edges are the edge pass applied to the edges the node pass left. */
  lemma UpdatedEdgesSplit(net: Net, t: Thresholds)
    requires t.Valid()
    ensures var pre := PreWeighted(net.nodes, net.edges, |net.nodes|, t);
      forall j :: 0 <= j < |net.edges| ==> UpdateSpec(net, t).edges[j] == RelaxEdge(pre[j], t.eps)
  {
  }

  /** The node pass of `update_network`. */
  method UpdateNodes(g: Network, t: Thresholds)
    requires t.Valid()
    modifies g, g.nodes, g.edges
    ensures g.sNodes == DropCritical(old(g.sNodes), old(g.nodes[..]), g.nodes.Length, t)
    ensures g.cNodes == DropCritical(old(g.cNodes), old(g.nodes[..]), g.nodes.Length, t)
    ensures forall k :: 0 <= k < g.nodes.Length ==> g.nodes[k] == UpdatedNode(old(g.nodes[k]), t)
    ensures g.edges[..] == PreWeighted(old(g.nodes[..]), old(g.edges[..]), g.nodes.Length, t)
  {
    ghost var ns0, es0, s0, c0 := g.nodes[..], g.edges[..], g.sNodes, g.cNodes;
    var n := g.nodes.Length;
    assert g.edges[..] == PreWeighted(ns0, es0, 0, t);
    for i := 0 to n
      invariant g.sNodes == DropCritical(s0, ns0, i, t) && g.cNodes == DropCritical(c0, ns0, i, t)
      invariant forall k :: 0 <= k < i ==> g.nodes[k] == UpdatedNode(ns0[k], t)
      invariant forall k :: i <= k < n ==> g.nodes[k] == ns0[k]
      invariant g.edges[..] == PreWeighted(ns0, es0, i, t)
    {
      UpdateNode(g, i, t, ns0, es0, s0, c0);
    }
  }

  /** `update_network(G, s_nodes, c_nodes)`. */
  method UpdateNetwork(g: Network, t: Thresholds)
    requires g.Valid() && t.Valid()
    modifies g, g.nodes, g.edges
    ensures g.Valid()
    ensures g.Abs() == UpdateSpec(old(g.Abs()), t)
  {
    ghost var net0 := g.Abs();
    // first, reduce node capacities and isolate failed nodes
    UpdateNodes(g, t);
    DropCriticalWithout(net0.sNodes, net0.nodes, |net0.nodes|, t);
    DropCriticalWithout(net0.cNodes, net0.nodes, |net0.nodes|, t);
    assert g.nodes[..] == UpdateSpec(net0, t).nodes;
    // now, increase edge costs and reduce edge capacities
    ApplyEdgeIncrements(g, t);
    UpdatedEdgesSplit(net0, t);
    assert g.edges[..] == UpdateSpec(net0, t).edges;
    UpdatePreservesInvariants(net0, t);
  }

  // ---------------------------------------------------------------------------
  // Loads: origin-destination path counts

  /** The shortest-path search, given the current edge weights, a source and a
      consumer: all shortest paths between them, as node sequences. */
  type PathOracle = (seq<real>, nat, nat) -> seq<seq<nat>>

  function Weights(es: seq<Edge>): seq<real> {
    seq(|es|, j requires 0 <= j < |es| => es[j].weight)
  }

  /** The edge joins `a` and `b`, in either direction. */
  predicate Joins(e: Edge, a: nat, b: nat) {
    (e.u == a && e.v == b) || (e.u == b && e.v == a)
  }

  /** Step `k` of the path goes along the edge. */
  predicate JoinsAt(e: Edge, path: seq<nat>, k: int)
    requires 0 <= k < |path| - 1
  {
    Joins(e, path[k], path[k + 1])
  }

  /** The steps of a path after its first one are the steps of its tail. */
  lemma TailSteps(e: Edge, path: seq<nat>)
    requires |path| >= 2
    ensures forall k :: 1 <= k < |path| - 1 ==> (JoinsAt(e, path, k) <==> JoinsAt(e, path[1..], k - 1))
    ensures forall k :: 0 <= k < |path| - 2 ==> (JoinsAt(e, path[1..], k) <==> JoinsAt(e, path, k + 1))
  {
  }

  /** `is_edge_in_path(edge, path)`: the edge is one of the steps of the path. */
  function IsEdgeInPath(e: Edge, path: seq<nat>): (r: bool)
    ensures r <==> exists k :: 0 <= k < |path| - 1 && JoinsAt(e, path, k)
  {
    if |path| < 2 then false
    else
      TailSteps(e, path);
      assert JoinsAt(e, path, 0) == Joins(e, path[0], path[1]);
      Joins(e, path[0], path[1]) || IsEdgeInPath(e, path[1..])
  }

  /** Both endpoints of an edge on a path lie on the path. */
  lemma EdgeOnPathHasEndpointsOnPath(e: Edge, path: seq<nat>)
    requires IsEdgeInPath(e, path)
    ensures e.u in path && e.v in path
  {
    var k :| 0 <= k < |path| - 1 && JoinsAt(e, path, k);
  }

  /** The paths of one source to each consumer of `cs` in turn. */
  function PairPaths(paths: PathOracle, w: seq<real>, s: nat, cs: seq<nat>): seq<seq<nat>>
  {
    if cs == [] then []
    else PairPaths(paths, w, s, cs[..|cs| - 1]) + paths(w, s, cs[|cs| - 1])
  }

  /** Every (source, consumer, path) entry, in loop order. */
  function AllPaths(paths: PathOracle, w: seq<real>, ss: seq<nat>, cs: seq<nat>): seq<seq<nat>>
  {
    if ss == [] then []
    else AllPaths(paths, w, ss[..|ss| - 1], cs) + PairPaths(paths, w, ss[|ss| - 1], cs)
  }

  /** Number of paths that visit node `x`. */
  function PathsThrough(ps: seq<seq<nat>>, x: nat): nat
  {
    if ps == [] then 0
    else PathsThrough(ps[..|ps| - 1], x) + (if x in ps[|ps| - 1] then 1 else 0)
  }

  /** Number of paths that use edge `e`. */
  function PathsAlong(ps: seq<seq<nat>>, e: Edge): nat
  {
    if ps == [] then 0
    else PathsAlong(ps[..|ps| - 1], e) + (if IsEdgeInPath(e, ps[|ps| - 1]) then 1 else 0)
  }

  /** Loads after `evaluate_system_loads`: 1 plus the number of path entries
      through the node or along the edge; nothing else changes. */
  function LoadsSpec(net: Net, paths: PathOracle): Net {
    var ps := AllPaths(paths, Weights(net.edges), net.sNodes, net.cNodes);
    net.(nodes := seq(|net.nodes|, i requires 0 <= i < |net.nodes| =>
                    net.nodes[i].(load := (1 + PathsThrough(ps, i)) as real)),
         edges := seq(|net.edges|, j requires 0 <= j < |net.edges| =>
                    net.edges[j].(load := (1 + PathsAlong(ps, net.edges[j])) as real)))
  }

  /** An edge is never on more paths than either of its endpoints. */
  lemma {:induction false} PathsAlongAtMostThrough(ps: seq<seq<nat>>, e: Edge)
    ensures PathsAlong(ps, e) <= PathsThrough(ps, e.u)
    ensures PathsAlong(ps, e) <= PathsThrough(ps, e.v)
  {
    if ps != [] {
      PathsAlongAtMostThrough(ps[..|ps| - 1], e);
      if IsEdgeInPath(e, ps[|ps| - 1]) {
        EdgeOnPathHasEndpointsOnPath(e, ps[|ps| - 1]);
      }
    }
  }

  /** Every edge load is at least 1 and at most the loads of its endpoints,
      and only the load field changes. */
  lemma LoadsEffect(net: Net, paths: PathOracle, j: nat)
    requires ValidNet(net) && j < |net.edges|
    ensures var l := LoadsSpec(net, paths); var e := net.edges[j];
      && l.edges[j].load >= 1.0
      && l.edges[j].load <= l.nodes[e.u].load
      && l.edges[j].load <= l.nodes[e.v].load
      && l.edges[j] == e.(load := l.edges[j].load)
  {
    var ps := AllPaths(paths, Weights(net.edges), net.sNodes, net.cNodes);
    PathsAlongAtMostThrough(ps, net.edges[j]);
  }

  /** Previous loads play no part: two states that differ only in their load
      fields get the same loads. */
  lemma LoadsIgnorePreviousLoads(net: Net, other: Net, paths: PathOracle)
    requires |other.nodes| == |net.nodes| && |other.edges| == |net.edges|
    requires other.sNodes == net.sNodes && other.cNodes == net.cNodes
    requires forall i :: 0 <= i < |net.nodes| ==> other.nodes[i] == net.nodes[i].(load := other.nodes[i].load)
    requires forall j :: 0 <= j < |net.edges| ==> other.edges[j] == net.edges[j].(load := other.edges[j].load)
    ensures LoadsSpec(other, paths) == LoadsSpec(net, paths)
  {
    assert Weights(other.edges) == Weights(net.edges);
    var ps := AllPaths(paths, Weights(net.edges), net.sNodes, net.cNodes);
    forall j | 0 <= j < |net.edges| ensures PathsAlong(ps, other.edges[j]) == PathsAlong(ps, net.edges[j]) {
      PathsAlongEndpoints(ps, other.edges[j], net.edges[j]);
    }
    assert LoadsSpec(other, paths).nodes == LoadsSpec(net, paths).nodes;
    assert LoadsSpec(other, paths).edges == LoadsSpec(net, paths).edges;
  }

  /** Only an edge's endpoints decide which paths it lies on. */
  lemma {:induction false} PathsAlongEndpoints(ps: seq<seq<nat>>, e1: Edge, e2: Edge)
    requires e1.u == e2.u && e1.v == e2.v
    ensures PathsAlong(ps, e1) == PathsAlong(ps, e2)
  {
    if ps != [] {
      PathsAlongEndpoints(ps[..|ps| - 1], e1, e2);
      var p := ps[|ps| - 1];
      assert forall k :: 0 <= k < |p| - 1 ==> JoinsAt(e1, p, k) == JoinsAt(e2, p, k);
    }
  }

  /** Recomputing the loads at once gives the same loads: the result depends
      on the weights and the lists only. */
  lemma LoadsIdempotent(net: Net, paths: PathOracle)
    ensures LoadsSpec(LoadsSpec(net, paths), paths) == LoadsSpec(net, paths)
  {
    var l := LoadsSpec(net, paths);
    assert Weights(l.edges) == Weights(net.edges);
    var ps := AllPaths(paths, Weights(net.edges), net.sNodes, net.cNodes);
    forall j | 0 <= j < |net.edges| ensures PathsAlong(ps, l.edges[j]) == PathsAlong(ps, net.edges[j]) {
      PathsAlongEndpoints(ps, l.edges[j], net.edges[j]);
    }
    assert LoadsSpec(l, paths).nodes == l.nodes;
    assert LoadsSpec(l, paths).edges == l.edges;
  }

  lemma LoadsPreservesInvariants(net: Net, paths: PathOracle)
    ensures ValidNet(net) ==> ValidNet(LoadsSpec(net, paths))
    ensures InRange(net) ==> InRange(LoadsSpec(net, paths))
  {
  }

  /** The counters hold 1 plus the number of paths of `done` through each node
      and along each edge. */
  ghost predicate Counted(nodeLoads: seq<int>, edgeLoads: seq<int>, es: seq<Edge>, done: seq<seq<nat>>) {
    && |edgeLoads| == |es|
    && (forall i :: 0 <= i < |nodeLoads| ==> nodeLoads[i] == 1 + PathsThrough(done, i))
    && (forall j :: 0 <= j < |es| ==> edgeLoads[j] == 1 + PathsAlong(done, es[j]))
  }

  /** Adds one path to the node and edge counters. */
  method CountPath(nodeLoads: array<int>, edgeLoads: array<int>, es: seq<Edge>, path: seq<nat>,
                   ghost done: seq<seq<nat>>)
    requires nodeLoads != edgeLoads
    requires Counted(nodeLoads[..], edgeLoads[..], es, done)
    modifies nodeLoads, edgeLoads
    ensures Counted(nodeLoads[..], edgeLoads[..], es, done + [path])
  {
    ghost var next := done + [path];
    assert next[..|next| - 1] == done;
    for i := 0 to nodeLoads.Length
      invariant forall k :: 0 <= k < i ==> nodeLoads[k] == 1 + PathsThrough(next, k)
      invariant forall k :: i <= k < nodeLoads.Length ==> nodeLoads[k] == old(nodeLoads[k])
      invariant edgeLoads[..] == old(edgeLoads[..])
    {
      if i in path {
        nodeLoads[i] := nodeLoads[i] + 1;
      }
    }
    for j := 0 to |es|
      invariant forall k :: 0 <= k < nodeLoads.Length ==> nodeLoads[k] == 1 + PathsThrough(next, k)
      invariant forall k :: 0 <= k < j ==> edgeLoads[k] == 1 + PathsAlong(next, es[k])
      invariant forall k :: j <= k < |es| ==> edgeLoads[k] == old(edgeLoads[k])
    {
      if IsEdgeInPath(es[j], path) {
        edgeLoads[j] := edgeLoads[j] + 1;
      }
    }
  }

  /** The `if len(path_list) > 0` block: every path of one pair is counted. */
  method CountPaths(nodeLoads: array<int>, edgeLoads: array<int>, es: seq<Edge>, pathList: seq<seq<nat>>,
                    ghost done: seq<seq<nat>>)
    requires nodeLoads != edgeLoads
    requires Counted(nodeLoads[..], edgeLoads[..], es, done)
    modifies nodeLoads, edgeLoads
    ensures Counted(nodeLoads[..], edgeLoads[..], es, done + pathList)
  {
    assert done + pathList[..0] == done;
    for k := 0 to |pathList|
      invariant Counted(nodeLoads[..], edgeLoads[..], es, done + pathList[..k])
    {
      CountPath(nodeLoads, edgeLoads, es, pathList[k], done + pathList[..k]);
      assert done + pathList[..k] + [pathList[k]] == done + pathList[..k + 1];
    }
    assert pathList[..|pathList|] == pathList;
  }

  /** The nested loops over sources, consumers and their shortest paths. */
  method CountAllPaths(nodeLoads: array<int>, edgeLoads: array<int>, es: seq<Edge>,
                       paths: PathOracle, ss: seq<nat>, cs: seq<nat>)
    requires nodeLoads != edgeLoads
    requires Counted(nodeLoads[..], edgeLoads[..], es, [])
    modifies nodeLoads, edgeLoads
    ensures Counted(nodeLoads[..], edgeLoads[..], es, AllPaths(paths, Weights(es), ss, cs))
  {
    var w := Weights(es);
    for a := 0 to |ss|
      invariant Counted(nodeLoads[..], edgeLoads[..], es, AllPaths(paths, w, ss[..a], cs))
    {
      ghost var before := AllPaths(paths, w, ss[..a], cs);
      assert cs[..0] == [];
      assert before + PairPaths(paths, w, ss[a], cs[..0]) == before;
      for b := 0 to |cs|
        invariant Counted(nodeLoads[..], edgeLoads[..], es, before + PairPaths(paths, w, ss[a], cs[..b]))
      {
        var pathList := paths(w, ss[a], cs[b]);
        ghost var done := before + PairPaths(paths, w, ss[a], cs[..b]);
        if |pathList| > 0 {
          CountPaths(nodeLoads, edgeLoads, es, pathList, done);
        } else {
          assert done + pathList == done;
        }
        assert cs[..b + 1][..b] == cs[..b];
        assert before + PairPaths(paths, w, ss[a], cs[..b + 1]) == done + pathList;
      }
      assert cs[..|cs|] == cs;
      assert ss[..a + 1][..a] == ss[..a];
    }
    assert ss[..|ss|] == ss;
  }

  /** Stores the counters as the `load` attributes of the graph. */
  method StoreLoads(g: Network, nodeLoads: seq<int>, edgeLoads: seq<int>)
    requires |nodeLoads| == g.nodes.Length && |edgeLoads| == g.edges.Length
    modifies g.nodes, g.edges
    ensures forall i :: 0 <= i < g.nodes.Length ==> g.nodes[i] == old(g.nodes[i]).(load := nodeLoads[i] as real)
    ensures forall j :: 0 <= j < g.edges.Length ==> g.edges[j] == old(g.edges[j]).(load := edgeLoads[j] as real)
  {
    forall i | 0 <= i < g.nodes.Length {
      g.nodes[i] := g.nodes[i].(load := nodeLoads[i] as real);
    }
    forall j | 0 <= j < g.edges.Length {
      g.edges[j] := g.edges[j].(load := edgeLoads[j] as real);
    }
  }

  /** `evaluate_system_loads(G, s_nodes, c_nodes)`. */
  method EvaluateSystemLoads(g: Network, paths: PathOracle)
    requires g.Valid()
    modifies g.nodes, g.edges
    ensures g.Valid()
    ensures g.Abs() == LoadsSpec(old(g.Abs()), paths)
  {
    ghost var net0 := g.Abs();
    // every component starts at load 1
    var nodeLoads := new int[g.nodes.Length](_ => 1);
    var edgeLoads := new int[g.edges.Length](_ => 1);
    var es := g.edges[..];
    assert Counted(nodeLoads[..], edgeLoads[..], es, []);
    CountAllPaths(nodeLoads, edgeLoads, es, paths, g.sNodes, g.cNodes);
    StoreLoads(g, nodeLoads[..], edgeLoads[..]);
    ghost var spec := LoadsSpec(net0, paths);
    assert forall i :: 0 <= i < g.nodes.Length ==> g.nodes[i] == spec.nodes[i];
    assert forall j :: 0 <= j < g.edges.Length ==> g.edges[j] == spec.edges[j];
    assert g.nodes[..] == LoadsSpec(net0, paths).nodes;
    assert g.edges[..] == LoadsSpec(net0, paths).edges;
    LoadsPreservesInvariants(net0, paths);
  }

  // ---------------------------------------------------------------------------
  // Overload rule

  /** A component's damage and pending increment. */
  datatype Wear = Wear(damage: real, delta: real)

  /** The overload rule: with capacity above EPS and load/capacity above 1, the
      surviving fraction is divided by the ratio; the increment is the damage
      gained, or the whole surviving fraction when that was below EPS. */
  function Overload(damage: real, delta: real, load: real, capacity: real, eps: real): Wear
    requires eps > 0.0
  {
    if capacity > eps && load / capacity > 1.0 then
      var ratio := load / capacity;
      var state := 1.0 - damage;
      var d := 1.0 - (1.0 / ratio) * state;
      Wear(d, if state < eps then state else d - (1.0 - state))
    else Wear(damage, delta)
  }

  function OverloadNode(n: Node, eps: real): Node
    requires eps > 0.0
  {
    var w := Overload(n.damage, n.delta, n.load, n.capacity, eps);
    n.(damage := w.damage, delta := w.delta)
  }

  function OverloadEdge(e: Edge, eps: real): Edge
    requires eps > 0.0
  {
    var w := Overload(e.damage, e.delta, e.load, e.capacity, eps);
    e.(damage := w.damage, delta := w.delta)
  }

  function OverloadedNodes(ns: seq<Node>, eps: real): seq<Node>
    requires eps > 0.0
  {
    seq(|ns|, i requires 0 <= i < |ns| => OverloadNode(ns[i], eps))
  }

  function OverloadedEdges(es: seq<Edge>, eps: real): seq<Edge>
    requires eps > 0.0
  {
    seq(|es|, j requires 0 <= j < |es| => OverloadEdge(es[j], eps))
  }

  function OverloadSpec(net: Net, t: Thresholds): Net
    requires t.Valid()
  {
    net.(nodes := OverloadedNodes(net.nodes, t.eps), edges := OverloadedEdges(net.edges, t.eps))
  }

  /** For a positive capacity, load/capacity > 1 is load > capacity. */
  lemma RatioAboveOne(load: real, capacity: real)
    requires capacity > 0.0
    ensures load / capacity > 1.0 <==> load > capacity
  {
    var q := load / capacity;
    assert q * capacity == load;
    if q > 1.0 {
      assert (q - 1.0) * capacity > 0.0;
    } else {
      assert (1.0 - q) * capacity >= 0.0;
    }
  }

  lemma ReciprocalBelowOne(r: real)
    requires r > 1.0
    ensures 0.0 < 1.0 / r < 1.0
  {
    var q := 1.0 / r;
    assert q * r == 1.0;
  }

  lemma ScaleDown(q: real, s: real)
    requires 0.0 < q < 1.0 && 0.0 <= s
    ensures 0.0 <= q * s <= s
    ensures s > 0.0 ==> q * s > 0.0
  {
    assert (1.0 - q) * s >= 0.0;
  }

  /** The rule applies exactly when the load exceeds a capacity above EPS; then
      the damage rises within [damage, 1), staying below 1 when it was, and
      the increment lies in [0, 1 - damage]; otherwise nothing changes. */
  lemma OverloadBounds(damage: real, delta: real, load: real, capacity: real, eps: real)
    requires 0.0 <= damage <= 1.0 && 0.0 < eps
    ensures var w := Overload(damage, delta, load, capacity, eps);
      && (capacity > eps && load > capacity ==>
            && damage <= w.damage <= 1.0
            && (damage < 1.0 ==> w.damage < 1.0)
            && 0.0 <= w.delta <= 1.0 - damage)
      && (!(capacity > eps && load > capacity) ==> w == Wear(damage, delta))
  {
    if capacity > eps {
      RatioAboveOne(load, capacity);
      if load > capacity {
        var ratio := load / capacity;
        ReciprocalBelowOne(ratio);
        var q := 1.0 / ratio;
        var state := 1.0 - damage;
        ScaleDown(q, state);
        var w := Overload(damage, delta, load, capacity, eps);
        assert w.damage == 1.0 - q * state;
        assert w.delta == state || w.delta == state - q * state;
      }
    }
  }

  lemma OverloadPreservesInvariants(net: Net, t: Thresholds)
    requires t.Valid()
    ensures ValidNet(net) ==> ValidNet(OverloadSpec(net, t))
    ensures InRange(net) ==> InRange(OverloadSpec(net, t))
    ensures InRange(net) ==>
      && (forall i :: 0 <= i < |net.nodes| ==> OverloadSpec(net, t).nodes[i].damage >= net.nodes[i].damage)
      && (forall j :: 0 <= j < |net.edges| ==> OverloadSpec(net, t).edges[j].damage >= net.edges[j].damage)
  {
    var o := OverloadSpec(net, t);
    if InRange(net) {
      forall i | 0 <= i < |net.nodes| ensures NodeInRange(o.nodes[i]) && o.nodes[i].damage >= net.nodes[i].damage {
        var n := net.nodes[i];
        OverloadBounds(n.damage, n.delta, n.load, n.capacity, t.eps);
      }
      forall j | 0 <= j < |net.edges| ensures EdgeInRange(o.edges[j]) && o.edges[j].damage >= net.edges[j].damage {
        var e := net.edges[j];
        OverloadBounds(e.damage, e.delta, e.load, e.capacity, t.eps);
      }
    }
  }

  /** The node pass of one cascading round. */
  method OverloadNodes(g: Network, t: Thresholds)
    requires t.Valid()
    modifies g.nodes
    ensures g.nodes[..] == OverloadedNodes(old(g.nodes[..]), t.eps)
  {
    ghost var ns0 := g.nodes[..];
    for i := 0 to g.nodes.Length
      invariant forall k :: 0 <= k < i ==> g.nodes[k] == OverloadNode(ns0[k], t.eps)
      invariant forall k :: i <= k < g.nodes.Length ==> g.nodes[k] == ns0[k]
    {
      var n := g.nodes[i];
      if n.capacity > t.eps {
        var ratio := n.load / n.capacity;
        if ratio > 1.0 {
          var state := 1.0 - n.damage;
          var d := 1.0 - (1.0 / ratio) * state;
          var delta := if state < t.eps then state else d - (1.0 - state);
          assert Overload(n.damage, n.delta, n.load, n.capacity, t.eps) == Wear(d, delta);
          g.nodes[i] := n.(damage := d, delta := delta);
        } else {
          assert OverloadNode(n, t.eps) == n;
        }
      } else {
        assert OverloadNode(n, t.eps) == n;
      }
    }
  }

  /** The edge pass of one cascading round. */
  method OverloadEdges(g: Network, t: Thresholds)
    requires t.Valid()
    modifies g.edges
    ensures g.edges[..] == OverloadedEdges(old(g.edges[..]), t.eps)
  {
    ghost var es0 := g.edges[..];
    for j := 0 to g.edges.Length
      invariant forall k :: 0 <= k < j ==> g.edges[k] == OverloadEdge(es0[k], t.eps)
      invariant forall k :: j <= k < g.edges.Length ==> g.edges[k] == es0[k]
    {
      var e := g.edges[j];
      if e.capacity > t.eps {
        var ratio := e.load / e.capacity;
        if ratio > 1.0 {
          var state := 1.0 - e.damage;
          var d := 1.0 - (1.0 / ratio) * state;
          var delta := if state < t.eps then state else d - (1.0 - state);
          assert Overload(e.damage, e.delta, e.load, e.capacity, t.eps) == Wear(d, delta);
          g.edges[j] := e.(damage := d, delta := delta);
        } else {
          assert OverloadEdge(e, t.eps) == e;
        }
      } else {
        assert OverloadEdge(e, t.eps) == e;
      }
    }
  }

  // ---------------------------------------------------------------------------
  // Cascading effects

  /** One round: recompute loads, apply the overload rule, update the network. */
  function Round(net: Net, paths: PathOracle, t: Thresholds): Net
    requires t.Valid()
  {
    UpdateSpec(OverloadSpec(LoadsSpec(net, paths), t), t)
  }

  function RoundStep(paths: PathOracle, t: Thresholds): Net -> Net
    requires t.Valid()
  {
    net => Round(net, paths, t)
  }

  /** `k` rounds of `step`. */
  function Iterate(step: Net -> Net, net: Net, k: nat): Net {
    if k == 0 then net else step(Iterate(step, net, k - 1))
  }

  datatype Cascaded = Cascaded(final: Net, rounds: int)

  /** The `while` loop of `simulate_cascading_effects`: `prev` and `cur` are
      `component_state` and `component_state_upd`, `iter` is `iteration`. */
  function CascadeLoop(step: Net -> Net, net: Net, prev: Snapshot, cur: Snapshot,
                       iter: int, maxIteration: int): Cascaded
    decreases maxIteration - iter
  {
    if iter < maxIteration && cur != prev then
      var next := step(net);
      CascadeLoop(step, next, cur, Snap(next), iter + 1, maxIteration)
    else Cascaded(net, iter)
  }

  function Cascade(net: Net, paths: PathOracle, t: Thresholds, maxIteration: int): Cascaded
    requires t.Valid()
  {
    CascadeLoop(RoundStep(paths, t), net, Sentinel(0), Sentinel(1), 0, maxIteration)
  }

  /** The snapshot the loop holds after `k` rounds. */
  function SnapAfter(step: Net -> Net, net: Net, k: nat): Snapshot {
    if k == 0 then Sentinel(1) else Snap(Iterate(step, net, k))
  }

  lemma {:induction false} CascadeLoopRounds(step: Net -> Net, net0: Net,
                                             net: Net, prev: Snapshot, cur: Snapshot, iter: nat, maxIteration: int)
    requires net == Iterate(step, net0, iter)
    requires cur == SnapAfter(step, net0, iter)
    requires prev == (if iter == 0 then Sentinel(0) else SnapAfter(step, net0, iter - 1))
    requires iter <= maxIteration || iter == 0
    requires forall k :: 2 <= k < iter ==> SnapAfter(step, net0, k) != SnapAfter(step, net0, k - 1)
    ensures var c := CascadeLoop(step, net, prev, cur, iter, maxIteration);
      && iter <= c.rounds
      && (c.rounds <= maxIteration || c.rounds == 0)
      && (maxIteration >= 1 ==> c.rounds >= 1)
      && c.final == Iterate(step, net0, c.rounds)
      && (c.rounds < maxIteration ==>
            c.rounds >= 2 && Snap(c.final) == Snap(Iterate(step, net0, c.rounds - 1)))
      && (forall k :: 2 <= k < c.rounds ==> SnapAfter(step, net0, k) != SnapAfter(step, net0, k - 1))
    decreases maxIteration - iter
  {
    if iter < maxIteration && cur != prev {
      var next := step(net);
      assert next == Iterate(step, net0, iter + 1);
      CascadeLoopRounds(step, net0, next, cur, Snap(next), iter + 1, maxIteration);
    } else if iter < maxIteration {
      assert iter >= 2;
    }
  }

  /** The loop runs at most `maxIteration` rounds and at least one when
      `maxIteration >= 1`; it ends with the state after that many rounds; it
      ends early only once a round left the damage snapshot unchanged, and
      every earlier round changed it. */
  lemma CascadeRounds(net: Net, paths: PathOracle, t: Thresholds, maxIteration: int)
    requires t.Valid()
    ensures var c := Cascade(net, paths, t, maxIteration); var step := RoundStep(paths, t);
      && 0 <= c.rounds
      && (maxIteration <= 0 ==> c.rounds == 0)
      && (maxIteration >= 0 ==> c.rounds <= maxIteration)
      && (maxIteration >= 1 ==> c.rounds >= 1)
      && c.final == Iterate(step, net, c.rounds)
      && (c.rounds < maxIteration ==>
            c.rounds >= 2 && Snap(c.final) == Snap(Iterate(step, net, c.rounds - 1)))
      && (forall k :: 2 <= k < c.rounds ==>
            Snap(Iterate(step, net, k)) != Snap(Iterate(step, net, k - 1)))
  {
    var step := RoundStep(paths, t);
    CascadeLoopRounds(step, net, net, Sentinel(0), Sentinel(1), 0, maxIteration);
    var c := Cascade(net, paths, t, maxIteration);
    forall k | 2 <= k < c.rounds
      ensures Snap(Iterate(step, net, k)) != Snap(Iterate(step, net, k - 1))
    {
      assert SnapAfter(step, net, k) != SnapAfter(step, net, k - 1);
    }
  }

  /** Damage only grows from one state to the next, the edges keep their
      endpoints, and the lists only shrink. */
  ghost predicate Progress(before: Net, after: Net) {
    && |after.nodes| == |before.nodes| && |after.edges| == |before.edges|
    && (forall i :: 0 <= i < |before.nodes| ==> after.nodes[i].damage >= before.nodes[i].damage)
    && (forall j :: 0 <= j < |before.edges| ==>
          after.edges[j].damage >= before.edges[j].damage
          && after.edges[j].u == before.edges[j].u && after.edges[j].v == before.edges[j].v)
    && Subseq(after.sNodes, before.sNodes) && Subseq(after.cNodes, before.cNodes)
  }

  /** A step that keeps the invariants and makes progress on every valid state. */
  ghost predicate Monotone(step: Net -> Net) {
    forall net {:trigger step(net)} :: ValidNet(net) && InRange(net) ==>
      ValidNet(step(net)) && InRange(step(net)) && Progress(net, step(net))
  }

  lemma {:induction false} ProgressTrans(a: Net, b: Net, c: Net)
    requires Progress(a, b) && Progress(b, c)
    ensures Progress(a, c)
  {
    SubseqTrans(c.sNodes, b.sNodes, a.sNodes);
    SubseqTrans(c.cNodes, b.cNodes, a.cNodes);
  }

  /** Counting loads changes no damage, endpoint or list. */
  lemma LoadsProgress(net: Net, paths: PathOracle)
    ensures Progress(net, LoadsSpec(net, paths))
  {
    ProgressRefl(net);
  }

  /** The overload rule only raises damage. */
  lemma OverloadProgress(net: Net, t: Thresholds)
    requires t.Valid() && InRange(net)
    ensures Progress(net, OverloadSpec(net, t))
  {
    OverloadPreservesInvariants(net, t);
    SubseqRefl(net.sNodes);
    SubseqRefl(net.cNodes);
  }

  /** The update only shrinks the lists and changes no damage. */
  lemma UpdateProgress(net: Net, t: Thresholds)
    requires t.Valid() && ValidNet(net)
    ensures Progress(net, UpdateSpec(net, t))
  {
    UpdateShrinksLists(net, t);
  }

  lemma {:induction false} RoundProgress(net: Net, paths: PathOracle, t: Thresholds)
    requires t.Valid() && ValidNet(net) && InRange(net)
    ensures var r := Round(net, paths, t);
      ValidNet(r) && InRange(r) && Progress(net, r)
  {
    var l := LoadsSpec(net, paths);
    LoadsPreservesInvariants(net, paths);
    LoadsProgress(net, paths);
    var o := OverloadSpec(l, t);
    OverloadPreservesInvariants(l, t);
    OverloadProgress(l, t);
    ProgressTrans(net, l, o);
    var u := UpdateSpec(o, t);
    UpdatePreservesInvariants(o, t);
    UpdateProgress(o, t);
    ProgressTrans(net, o, u);
  }

  lemma RoundStepMonotone(paths: PathOracle, t: Thresholds)
    requires t.Valid()
    ensures Monotone(RoundStep(paths, t))
  {
    forall net | ValidNet(net) && InRange(net)
      ensures var r := RoundStep(paths, t)(net); ValidNet(r) && InRange(r) && Progress(net, r)
    {
      RoundProgress(net, paths, t);
    }
  }

  lemma ProgressRefl(net: Net)
    ensures Progress(net, net)
  {
    SubseqRefl(net.sNodes);
    SubseqRefl(net.cNodes);
  }

  lemma StepProgress(step: Net -> Net, net: Net)
    requires Monotone(step) && ValidNet(net) && InRange(net)
    ensures ValidNet(step(net)) && InRange(step(net)) && Progress(net, step(net))
  {
  }

  lemma {:induction false} IterateProgress(step: Net -> Net, net: Net, k: nat)
    requires Monotone(step) && ValidNet(net) && InRange(net)
    ensures var r := Iterate(step, net, k);
      ValidNet(r) && InRange(r) && Progress(net, r)
  {
    if k == 0 {
      ProgressRefl(net);
    } else {
      IterateProgress(step, net, k - 1);
      var prev := Iterate(step, net, k - 1);
      StepProgress(step, prev);
      ProgressTrans(net, prev, step(prev));
    }
  }

  /** Over the whole cascade: damage in [0,1] and never decreasing, capacity
      non-negative, weight positive, and the lists only shrinking. */
  lemma CascadeProgress(net: Net, paths: PathOracle, t: Thresholds, maxIteration: int)
    requires t.Valid() && ValidNet(net) && InRange(net)
    ensures var c := Cascade(net, paths, t, maxIteration).final;
      ValidNet(c) && InRange(c) && Progress(net, c)
  {
    CascadeRounds(net, paths, t, maxIteration);
    RoundStepMonotone(paths, t);
    IterateProgress(RoundStep(paths, t), net, Cascade(net, paths, t, maxIteration).rounds);
  }

  lemma {:induction false} IterateShift(step: Net -> Net, net: Net, k1: nat, k2: nat)
    ensures Iterate(step, Iterate(step, net, k1), k2) == Iterate(step, net, k1 + k2)
  {
    if k2 > 0 {
      IterateShift(step, net, k1, k2 - 1);
    }
  }

  lemma {:induction false} NeverReadded(step: Net -> Net, net: Net, k: nat, x: nat)
    requires Monotone(step) && ValidNet(net) && InRange(net)
    ensures x !in net.sNodes ==> x !in Iterate(step, net, k).sNodes
    ensures x !in net.cNodes ==> x !in Iterate(step, net, k).cNodes
  {
    if k > 0 {
      NeverReadded(step, net, k - 1, x);
      var prev := Iterate(step, net, k - 1);
      IterateProgress(step, net, k - 1);
      StepProgress(step, prev);
      var next := step(prev);
      if x in next.sNodes {
        SubseqElements(next.sNodes, prev.sNodes, x);
      }
      if x in next.cNodes {
        SubseqElements(next.cNodes, prev.cNodes, x);
      }
    }
  }

  lemma RemovalIsPermanentFor(step: Net -> Net, net: Net, k1: nat, k2: nat, x: nat)
    requires Monotone(step) && ValidNet(net) && InRange(net) && k1 <= k2
    ensures x !in Iterate(step, net, k1).sNodes ==> x !in Iterate(step, net, k2).sNodes
    ensures x !in Iterate(step, net, k1).cNodes ==> x !in Iterate(step, net, k2).cNodes
  {
    IterateProgress(step, net, k1);
    NeverReadded(step, Iterate(step, net, k1), k2 - k1, x);
    IterateShift(step, net, k1, k2 - k1);
  }

  /** A node removed from a list never comes back in a later round. */
  lemma RemovalIsPermanent(net: Net, paths: PathOracle, t: Thresholds, k1: nat, k2: nat, x: nat)
    requires t.Valid() && ValidNet(net) && InRange(net) && k1 <= k2
    ensures var step := RoundStep(paths, t);
      && (x !in Iterate(step, net, k1).sNodes ==> x !in Iterate(step, net, k2).sNodes)
      && (x !in Iterate(step, net, k1).cNodes ==> x !in Iterate(step, net, k2).cNodes)
  {
    RoundStepMonotone(paths, t);
    RemovalIsPermanentFor(RoundStep(paths, t), net, k1, k2, x);
  }

  /** `simulate_cascading_effects(G, s_nodes, c_nodes, max_iteration)`. */
  method SimulateCascadingEffects(g: Network, paths: PathOracle, t: Thresholds, maxIteration: int)
    requires g.Valid() && t.Valid()
    modifies g, g.nodes, g.edges
    ensures g.Valid()
    ensures g.Abs() == Cascade(old(g.Abs()), paths, t, maxIteration).final
  {
    ghost var net0 := g.Abs();
    var iteration := 0;
    var state := Sentinel(0);
    var stateUpd := Sentinel(1);
    while iteration < maxIteration && stateUpd != state
      invariant g.Valid()
      invariant CascadeLoop(RoundStep(paths, t), g.Abs(), state, stateUpd, iteration, maxIteration)
             == Cascade(net0, paths, t, maxIteration)
      decreases maxIteration - iteration
    {
      ghost var before := g.Abs();
      state := stateUpd;
      EvaluateSystemLoads(g, paths);
      OverloadNodes(g, t);
      OverloadEdges(g, t);
      assert g.Abs() == OverloadSpec(LoadsSpec(before, paths), t);
      OverloadPreservesInvariants(LoadsSpec(before, paths), t);
      UpdateNetwork(g, t);
      assert g.Abs() == RoundStep(paths, t)(before);
      stateUpd := Snap(g.Abs());
      iteration := iteration + 1;
    }
  }

  // ---------------------------------------------------------------------------
  // State of the consumer areas

  /** Damage of the edges at `node`, in edge order. */
  function IncidentDamages(es: seq<Edge>, node: nat): seq<real>
  {
    if es == [] then []
    else IncidentDamages(es[..|es| - 1], node)
         + (if Incident(es[|es| - 1], node) then [es[|es| - 1].damage] else [])
  }

  /** Mean damage of the area node's edges, 0 for a node without edges. */
  function AreaDamage(es: seq<Edge>, node: nat): real {
    var ds := IncidentDamages(es, node);
    if |ds| > 0 then Mean(ds) else 0.0
  }

  /** `set_state_consumers(ExposureConsumerAreas, Graph)`: one value per area,
      in area order. */
  function SetStateConsumers(areas: seq<Area>, es: seq<Edge>): (r: seq<real>)
    ensures |r| == |areas|
  {
    seq(|areas|, i requires 0 <= i < |areas| => AreaDamage(es, areas[i].node))
  }

  lemma {:induction false} IncidentDamagesFacts(es: seq<Edge>, node: nat, lo: real, hi: real)
    requires forall j :: 0 <= j < |es| ==> lo <= es[j].damage <= hi
    ensures var ds := IncidentDamages(es, node);
      && (forall k :: 0 <= k < |ds| ==> lo <= ds[k] <= hi)
      && (|ds| == 0 <==> forall j :: 0 <= j < |es| ==> !Incident(es[j], node))
  {
    if es != [] {
      IncidentDamagesFacts(es[..|es| - 1], node, lo, hi);
      assert forall j :: 0 <= j < |es| - 1 ==> es[..|es| - 1][j] == es[j];
    }
  }

  /** With edge damage in [0,1], every area value lies in [0,1]; an area whose
      node has no edges gets 0. */
  lemma AreaValuesInUnitInterval(areas: seq<Area>, es: seq<Edge>)
    requires forall j :: 0 <= j < |es| ==> 0.0 <= es[j].damage <= 1.0
    ensures var r := SetStateConsumers(areas, es);
      && (forall i :: 0 <= i < |areas| ==> 0.0 <= r[i] <= 1.0)
      && (forall i :: 0 <= i < |areas| && (forall j :: 0 <= j < |es| ==> !Incident(es[j], areas[i].node)) ==>
            r[i] == 0.0)
  {
    forall i | 0 <= i < |areas| ensures 0.0 <= AreaDamage(es, areas[i].node) <= 1.0 {
      var ds := IncidentDamages(es, areas[i].node);
      IncidentDamagesFacts(es, areas[i].node, 0.0, 1.0);
      if |ds| > 0 {
        MeanBounds(ds, 0.0, 1.0);
      }
    }
    forall i | 0 <= i < |areas| && (forall j :: 0 <= j < |es| ==> !Incident(es[j], areas[i].node))
      ensures SetStateConsumers(areas, es)[i] == 0.0
    {
      IncidentDamagesFacts(es, areas[i].node, 0.0, 1.0);
    }
  }
}
