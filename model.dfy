/** The attribute schema of the simulated network: node and edge records kept in
    an arena indexed by node number `0 .. n-1` and edge number `0 .. m-1`, the
    source and consumer lists of a trial, and the numerical thresholds. */
module Model {
  import opened Seqs

  /** Numerical zero `EPS` and negligible-damage threshold `MIN_DAMAGE`. */
  datatype Thresholds = Thresholds(eps: real, minDamage: real)
  {
    predicate Valid() { 0.0 < eps < 1.0 && 0.0 < minDamage < 1.0 }
  }

  /** A node's attribute record. */
  datatype Node = Node(
    taxonomy: string,   // category used to pick source and terminal nodes
    pof: real,          // probability of failure given by the hazard
    damage: real,       // 0 = working, 1 = failed
    delta: real,        // damage increment not yet applied to the capacity
    capacity: real,
    load: real)

  /** An edge (line) between nodes `u` and `v`, with its attribute record. */
  datatype Edge = Edge(
    u: nat,
    v: nat,
    damage: real,
    delta: real,
    capacity: real,
    load: real,
    weight: real)       // routing cost read by the shortest-path search

  /** `G.edges(node)` contains the edge. */
  predicate Incident(e: Edge, node: nat) {
    e.u == node || e.v == node
  }

  /** A consumer area: the graph node its name refers to, its population and
      its estimated probability of being affected (`None` until it is
      computed, and for NumPy's NaN when it is the mean of no samples). */
  datatype Area = Area(node: nat, population: real, pof: Option<real>)

  /** The whole state one trial works on, as a value: the graph's node and edge
      tables and the surviving source and consumer lists. */
  datatype Net = Net(nodes: seq<Node>, edges: seq<Edge>, sNodes: seq<nat>, cNodes: seq<nat>)

  /** Edges join graph nodes, and each list holds distinct graph nodes. */
  predicate ValidNet(net: Net) {
    && (forall j :: 0 <= j < |net.edges| ==> net.edges[j].u < |net.nodes| && net.edges[j].v < |net.nodes|)
    && (forall k :: 0 <= k < |net.sNodes| ==> net.sNodes[k] < |net.nodes|)
    && (forall k :: 0 <= k < |net.cNodes| ==> net.cNodes[k] < |net.nodes|)
    && Distinct(net.sNodes) && Distinct(net.cNodes)
  }

  predicate NodeInRange(n: Node) {
    0.0 <= n.damage <= 1.0 && 0.0 <= n.delta <= 1.0 && n.capacity >= 0.0 && n.load >= 0.0
  }

  predicate EdgeInRange(e: Edge) {
    0.0 <= e.damage <= 1.0 && 0.0 <= e.delta <= 1.0 && e.capacity >= 0.0 && e.load >= 0.0
    && e.weight > 0.0
  }

  /** The attribute invariants: damage and increments in [0,1],
      capacity and load non-negative, weight strictly positive. */
  predicate InRange(net: Net) {
    && (forall i :: 0 <= i < |net.nodes| ==> NodeInRange(net.nodes[i]))
    && (forall j :: 0 <= j < |net.edges| ==> EdgeInRange(net.edges[j]))
  }

  /** The damage snapshot compared between cascading rounds; `Sentinel` stands
      for the integers 0 and 1 the loop variables start with. */
  datatype Snapshot = Sentinel(tag: int) | Damages(nodeDamage: seq<real>, edgeDamage: seq<real>)

  function Snap(net: Net): Snapshot {
    Damages(seq(|net.nodes|, i requires 0 <= i < |net.nodes| => net.nodes[i].damage),
            seq(|net.edges|, j requires 0 <= j < |net.edges| => net.edges[j].damage))
  }

  /** A trial's mutable network: the graph's node and edge attribute tables,
      updated in place, and the source and consumer lists it shrinks. */
  class Network {
    const nodes: array<Node>
    const edges: array<Edge>
    var sNodes: seq<nat>
    var cNodes: seq<nat>

    function Abs(): Net
      reads this, nodes, edges
    {
      Net(nodes[..], edges[..], sNodes, cNodes)
    }

    ghost predicate Valid()
      reads this, nodes, edges
    {
      ValidNet(Abs())
    }

    /** An independent copy of a template network (`copy.deepcopy`). */
    constructor (template: Net)
      requires ValidNet(template)
      ensures Valid() && Abs() == template
      ensures fresh(nodes) && fresh(edges)
    {
      nodes := new Node[|template.nodes|](i requires 0 <= i < |template.nodes| => template.nodes[i]);
      edges := new Edge[|template.edges|](j requires 0 <= j < |template.edges| => template.edges[j]);
      sNodes := template.sNodes;
      cNodes := template.cNodes;
      new;
      assert nodes[..] == template.nodes;
      assert edges[..] == template.edges;
    }
  }
}
