/** The system-reliability driver (Sysrel.py): the parts of network loading
    that choose edge weights and the source and terminal lists, the initial
    capacities, the Monte Carlo trial loop and the post-processing of its
    samples into affected population and per-area probabilities. */
module Sysrel {
  import opened Seqs
  import opened Model
  import opened Netsim

  // ---------------------------------------------------------------------------
  // Source and terminal lists

  /** The nodes among `0 .. k-1` whose taxonomy is in `category`, in node order. */
  function SelectBelow(ns: seq<Node>, category: seq<string>, k: nat): (r: seq<nat>)
    requires k <= |ns|
    ensures forall x: nat :: x in r <==> x < k && ns[x].taxonomy in category
    ensures forall i, j :: 0 <= i < j < |r| ==> r[i] < r[j]
    ensures forall i :: 0 <= i < |r| ==> r[i] < k
  {
    if k == 0 then []
    else
      var rest := SelectBelow(ns, category, k - 1);
      if ns[k - 1].taxonomy in category then rest + [k - 1] else rest
  }

  /** `[nod for nod in G.nodes() if Types[nod] in category]`. */
  function SelectByTaxonomy(ns: seq<Node>, category: seq<string>): seq<nat> {
    SelectBelow(ns, category, |ns|)
  }

  /** The list holds exactly the nodes of the category, each once, in node order. */
  lemma SelectionExact(ns: seq<Node>, category: seq<string>)
    ensures var r := SelectByTaxonomy(ns, category);
      && (forall x: nat :: x in r <==> x < |ns| && ns[x].taxonomy in category)
      && (forall i, j :: 0 <= i < j < |r| ==> r[i] < r[j])
      && Distinct(r)
  {
  }

  // ---------------------------------------------------------------------------
  // Edge weights

  /** The line data an edge record may carry; `None` is a value that is missing
      or that `float` cannot convert. */
  datatype LineProps = LineProps(length: Option<real>, reactance: Option<real>,
                                 resistance: Option<real>, voltage: Option<real>)

  /** The three weight formulas, in the order they are tried. */
  datatype WeightRule = LengthTimesReactance | LengthTimesResistance | LengthOverVoltage
  {
    function Rank(): nat {
      match this
      case LengthTimesReactance => 0
      case LengthTimesResistance => 1
      case LengthOverVoltage => 2
    }
  }

  /** One edge's weight under a rule, `None` where evaluating it raises. */
  function RuleWeight(rule: WeightRule, p: LineProps): Option<real> {
    match rule
    case LengthTimesReactance =>
      if p.length.Some? && p.reactance.Some? then Some(p.length.value * p.reactance.value) else None
    case LengthTimesResistance =>
      if p.length.Some? && p.resistance.Some? then Some(p.length.value * p.resistance.value) else None
    case LengthOverVoltage =>
      if p.length.Some? && p.voltage.Some? && p.voltage.value != 0.0
      then Some(p.length.value / p.voltage.value) else None
  }

  predicate RuleApplies(rule: WeightRule, ps: seq<LineProps>) {
    forall j :: 0 <= j < |ps| ==> RuleWeight(rule, ps[j]).Some?
  }

  /** The dictionary comprehension for one rule: it fails as a whole as soon as
      one edge fails. */
  function ApplyRule(rule: WeightRule, ps: seq<LineProps>): (r: Option<seq<real>>)
    ensures r.Some? <==> RuleApplies(rule, ps)
    ensures r.Some? ==> |r.value| == |ps| && forall j :: 0 <= j < |ps| ==> RuleWeight(rule, ps[j]) == Some(r.value[j])
  {
    if ps == [] then Some([])
    else
      var init := ApplyRule(rule, ps[..|ps| - 1]);
      var last := RuleWeight(rule, ps[|ps| - 1]);
      assert forall j :: 0 <= j < |ps| - 1 ==> ps[..|ps| - 1][j] == ps[j];
      if init.Some? && last.Some? then Some(init.value + [last.value]) else None
  }

  /** The nested `try`/`except` chain: L*X, else L*R, else L/V; `None` when the
      last one raises too. */
  function EdgeWeights(ps: seq<LineProps>): Option<seq<real>> {
    var x := ApplyRule(LengthTimesReactance, ps);
    if x.Some? then x
    else
      var y := ApplyRule(LengthTimesResistance, ps);
      if y.Some? then y else ApplyRule(LengthOverVoltage, ps)
  }

  /** The fallback is all-or-nothing: weights exist exactly when some rule
      works for every edge, and then every edge is weighted by the first such
      rule. */
  lemma WeightFallback(ps: seq<LineProps>)
    ensures var r := EdgeWeights(ps);
      && (r.Some? <==> exists rule: WeightRule :: RuleApplies(rule, ps))
      && (r.Some? ==> exists rule: WeightRule ::
            && RuleApplies(rule, ps)
            && (forall other: WeightRule :: other.Rank() < rule.Rank() ==> !RuleApplies(other, ps))
            && |r.value| == |ps|
            && forall j :: 0 <= j < |ps| ==> RuleWeight(rule, ps[j]) == Some(r.value[j]))
  {
    var r := EdgeWeights(ps);
    if RuleApplies(LengthTimesReactance, ps) {
      assert RuleApplies(LengthTimesReactance, ps);
    } else if RuleApplies(LengthTimesResistance, ps) {
      assert forall other: WeightRule :: other.Rank() < 1 ==> other == LengthTimesReactance;
    } else if RuleApplies(LengthOverVoltage, ps) {
      assert forall other: WeightRule :: other.Rank() < 2 ==> other == LengthTimesReactance || other == LengthTimesResistance;
    } else {
      assert forall rule: WeightRule :: !RuleApplies(rule, ps);
    }
  }

  /** The part of `load_network_data` that is modelled: the weights and the
      source and terminal lists of the loaded graph; `None` when the weight
      computation raises. */
  function LoadNetworkData(ns: seq<Node>, es: seq<Edge>, props: seq<LineProps>,
                           source: seq<string>, terminal: seq<string>): (r: Option<Net>)
    requires |props| == |es|
  {
    match EdgeWeights(props)
    case None => None
    case Some(w) =>
      Some(Net(ns, seq(|es|, j requires 0 <= j < |es| => es[j].(weight := w[j])),
               SelectByTaxonomy(ns, source), SelectByTaxonomy(ns, terminal)))
  }

  /** A loaded network satisfies the model's structural invariant whenever
      its edges join graph nodes. */
  lemma LoadedNetworkValid(ns: seq<Node>, es: seq<Edge>, props: seq<LineProps>,
                           source: seq<string>, terminal: seq<string>)
    requires |props| == |es|
    requires forall j :: 0 <= j < |es| ==> es[j].u < |ns| && es[j].v < |ns|
    ensures var r := LoadNetworkData(ns, es, props, source, terminal);
      && (r.Some? <==> exists rule: WeightRule :: RuleApplies(rule, props))
      && (r.Some? ==> ValidNet(r.value) && r.value.nodes == ns && |r.value.edges| == |es|)
  {
    WeightFallback(props);
    SelectionExact(ns, source);
    SelectionExact(ns, terminal);
  }

  // ---------------------------------------------------------------------------
  // Initial capacities

  function CapacitiesSpec(net: Net, alpha: real): Net {
    net.(nodes := seq(|net.nodes|, i requires 0 <= i < |net.nodes| =>
                    net.nodes[i].(capacity := alpha * net.nodes[i].load)),
         edges := seq(|net.edges|, j requires 0 <= j < |net.edges| =>
                    net.edges[j].(capacity := alpha * net.edges[j].load)))
  }

  /** `assign_initial_capacities(G, alpha)`. */
  method AssignInitialCapacities(g: Network, alpha: real)
    requires g.Valid()
    modifies g.nodes, g.edges
    ensures g.Valid()
    ensures g.Abs() == CapacitiesSpec(old(g.Abs()), alpha)
  {
    ghost var net0 := g.Abs();
    forall i | 0 <= i < g.nodes.Length {
      g.nodes[i] := g.nodes[i].(capacity := alpha * g.nodes[i].load);
    }
    forall j | 0 <= j < g.edges.Length {
      g.edges[j] := g.edges[j].(capacity := alpha * g.edges[j].load);
    }
    assert forall i :: 0 <= i < g.nodes.Length ==> g.nodes[i] == CapacitiesSpec(net0, alpha).nodes[i];
    assert forall j :: 0 <= j < g.edges.Length ==> g.edges[j] == CapacitiesSpec(net0, alpha).edges[j];
    assert g.nodes[..] == CapacitiesSpec(net0, alpha).nodes;
    assert g.edges[..] == CapacitiesSpec(net0, alpha).edges;
  }

  /** With a non-negative safety factor the attribute invariants are kept. */
  lemma CapacitiesInRange(net: Net, alpha: real)
    requires InRange(net) && alpha >= 0.0
    ensures InRange(CapacitiesSpec(net, alpha)) && ValidNet(CapacitiesSpec(net, alpha)) == ValidNet(net)
  {
    var c := CapacitiesSpec(net, alpha);
    forall i | 0 <= i < |net.nodes| ensures NodeInRange(c.nodes[i]) {
      assert alpha * net.nodes[i].load >= 0.0;
    }
    forall j | 0 <= j < |net.edges| ensures EdgeInRange(c.edges[j]) {
      assert alpha * net.edges[j].load >= 0.0;
    }
    assert forall j :: 0 <= j < |net.edges| ==> c.edges[j].u == net.edges[j].u && c.edges[j].v == net.edges[j].v;
  }

  /** With a safety factor of at least 1, the loads the capacities were sized
      for overload nothing: the overload rule leaves every component as it is. */
  lemma DesignLoadNotOverloaded(net: Net, alpha: real, t: Thresholds)
    requires t.Valid() && InRange(net) && alpha >= 1.0
    ensures OverloadSpec(CapacitiesSpec(net, alpha), t) == CapacitiesSpec(net, alpha)
  {
    var c := CapacitiesSpec(net, alpha);
    forall i | 0 <= i < |c.nodes| ensures OverloadNode(c.nodes[i], t.eps) == c.nodes[i] {
      var n := c.nodes[i];
      assert n.capacity == alpha * net.nodes[i].load;
      assert (alpha - 1.0) * net.nodes[i].load >= 0.0;
      assert n.load <= n.capacity;
      OverloadUntouched(n.damage, n.delta, n.load, n.capacity, t.eps);
    }
    forall j | 0 <= j < |c.edges| ensures OverloadEdge(c.edges[j], t.eps) == c.edges[j] {
      var e := c.edges[j];
      assert e.capacity == alpha * net.edges[j].load;
      assert (alpha - 1.0) * net.edges[j].load >= 0.0;
      assert e.load <= e.capacity;
      OverloadUntouched(e.damage, e.delta, e.load, e.capacity, t.eps);
    }
    assert OverloadSpec(c, t).nodes == c.nodes;
    assert OverloadSpec(c, t).edges == c.edges;
  }

  lemma OverloadUntouched(damage: real, delta: real, load: real, capacity: real, eps: real)
    requires 0.0 < eps && load <= capacity
    ensures Overload(damage, delta, load, capacity, eps) == Wear(damage, delta)
  {
    if capacity > eps {
      RatioAboveOne(load, capacity);
    }
  }

  // ---------------------------------------------------------------------------
  // Monte Carlo simulation

  /** Bound on cascading rounds per trial. */
  const MaxIteration: int := 5

  function NodeDamages(net: Net): seq<real> {
    seq(|net.nodes|, i requires 0 <= i < |net.nodes| => net.nodes[i].damage)
  }

  function EdgeDamages(net: Net): seq<real> {
    seq(|net.edges|, j requires 0 <= j < |net.edges| => net.edges[j].damage)
  }

  /** Whether some component has damage above MIN_DAMAGE after the hazard:
      Python's `max(nodes) > MIN_DAMAGE or max(edges) > MIN_DAMAGE`, which
      raises (`None`) on an empty collection that it has to look at. */
  function DamageTest(net: Net, t: Thresholds): Option<bool> {
    if |net.nodes| == 0 then None
    else if MaxOf(NodeDamages(net)) > t.minDamage then Some(true)
    else if |net.edges| == 0 then None
    else Some(MaxOf(EdgeDamages(net)) > t.minDamage)
  }

  /** The test fails exactly on an empty node table, or on an empty edge table
      when no node is damaged; otherwise it says whether any node or edge
      damage exceeds MIN_DAMAGE. */
  lemma DamageTestMeaning(net: Net, t: Thresholds)
    ensures var d := DamageTest(net, t);
      && (d.None? <==>
            (|net.nodes| == 0 ||
             (|net.edges| == 0 && forall i :: 0 <= i < |net.nodes| ==> net.nodes[i].damage <= t.minDamage)))
      && (d.Some? ==> (d.value <==>
            (exists i :: 0 <= i < |net.nodes| && net.nodes[i].damage > t.minDamage) ||
            (exists j :: 0 <= j < |net.edges| && net.edges[j].damage > t.minDamage)))
  {
    if |net.nodes| > 0 {
      MaxAbove(NodeDamages(net), t.minDamage);
      assert forall i :: 0 <= i < |net.nodes| ==> NodeDamages(net)[i] == net.nodes[i].damage;
      if |net.edges| > 0 {
        MaxAbove(EdgeDamages(net), t.minDamage);
        assert forall j :: 0 <= j < |net.edges| ==> EdgeDamages(net)[j] == net.edges[j].damage;
      }
    }
  }

  /** The network at the end of one trial, or `None` where the trial raises. */
  function TrialNet(template: Net, draws: seq<real>, paths: PathOracle, t: Thresholds): Option<Net>
    requires t.Valid() && |draws| == |template.nodes|
  {
    var h := HazardSpec(template, draws, t);
    var u := UpdateSpec(h, t);
    match DamageTest(h, t)
    case None => None
    case Some(damaged) =>
      if !damaged then Some(u)
      else
        var c := if |u.sNodes| > 0 && |u.cNodes| > 0 then Cascade(u, paths, t, MaxIteration).final else u;
        Some(UpdateSpec(c, t))
  }

  /** The branches of a trial: it raises exactly on an empty node table, or on
      an empty edge table when the hazard damaged no node beyond MIN_DAMAGE;
      without such damage it ends after the first update; with it, it cascades
      when both lists survived the first update, and updates once more. */
  lemma TrialBranches(template: Net, draws: seq<real>, paths: PathOracle, t: Thresholds)
    requires t.Valid() && |draws| == |template.nodes|
    ensures var h := HazardSpec(template, draws, t); var u := UpdateSpec(h, t);
      var r := TrialNet(template, draws, paths, t);
      var damaged := (exists i :: 0 <= i < |h.nodes| && h.nodes[i].damage > t.minDamage)
                     || (exists j :: 0 <= j < |h.edges| && h.edges[j].damage > t.minDamage);
      && (r.None? <==> |template.nodes| == 0 || (|template.edges| == 0 && !damaged))
      && (r.Some? && !damaged ==> r.value == u)
      && (r.Some? && damaged && |u.sNodes| > 0 && |u.cNodes| > 0 ==>
            r.value == UpdateSpec(Cascade(u, paths, t, MaxIteration).final, t))
      && (r.Some? && damaged && (|u.sNodes| == 0 || |u.cNodes| == 0) ==> r.value == UpdateSpec(u, t))
  {
    var h := HazardSpec(template, draws, t);
    assert h.edges == template.edges && |h.nodes| == |template.nodes|;
    DamageTestMeaning(h, t);
  }

  /** One trial's area vector. */
  function TrialSpec(template: Net, areas: seq<Area>, draws: seq<real>, paths: PathOracle, t: Thresholds)
    : Option<seq<real>>
    requires t.Valid() && |draws| == |template.nodes|
  {
    match TrialNet(template, draws, paths, t)
    case None => None
    case Some(net) => Some(SetStateConsumers(areas, net.edges))
  }

  /** The trials for the draws `draws[0] .. draws[|draws|-1]`, in order. */
  function Trials(template: Net, areas: seq<Area>, draws: seq<seq<real>>, paths: PathOracle, t: Thresholds)
    : (r: seq<Option<seq<real>>>)
    requires t.Valid() && forall i :: 0 <= i < |draws| ==> |draws[i]| == |template.nodes|
    ensures |r| == |draws|
  {
    if draws == [] then []
    else Trials(template, areas, draws[..|draws| - 1], paths, t)
         + [TrialSpec(template, areas, draws[|draws| - 1], paths, t)]
  }

  /** Entry `k` of the trials is the trial on `draws[k]`. */
  lemma {:induction false} TrialsAt(template: Net, areas: seq<Area>, draws: seq<seq<real>>, paths: PathOracle,
                                    t: Thresholds, k: nat)
    requires t.Valid() && forall i :: 0 <= i < |draws| ==> |draws[i]| == |template.nodes|
    requires k < |draws|
    ensures Trials(template, areas, draws, paths, t)[k] == TrialSpec(template, areas, draws[k], paths, t)
  {
    if k < |draws| - 1 {
      var init := draws[..|draws| - 1];
      TrialsAt(template, areas, init, paths, t, k);
    }
  }

  /** The trials on the first `i + 1` draws extend those on the first `i`. */
  lemma TrialsPrefix(template: Net, areas: seq<Area>, draws: seq<seq<real>>, paths: PathOracle,
                     t: Thresholds, i: nat)
    requires t.Valid() && forall i :: 0 <= i < |draws| ==> |draws[i]| == |template.nodes|
    requires i < |draws|
    ensures Trials(template, areas, draws[..i + 1], paths, t)
         == Trials(template, areas, draws[..i], paths, t) + [TrialSpec(template, areas, draws[i], paths, t)]
  {
    assert draws[..i + 1][..i] == draws[..i];
  }

  /** The area vectors of all trials; `None` when one of them raises. */
  function MonteCarloSpec(template: Net, areas: seq<Area>, draws: seq<seq<real>>, paths: PathOracle,
                          t: Thresholds): Option<seq<seq<real>>>
    requires t.Valid() && forall i :: 0 <= i < |draws| ==> |draws[i]| == |template.nodes|
  {
    AllSome(Trials(template, areas, draws, paths, t))
  }

  /** A trial on a valid network ends with a valid network whose attributes
      are in range, and fails only on an empty graph. */
  lemma TrialNetFacts(template: Net, draws: seq<real>, paths: PathOracle, t: Thresholds)
    requires t.Valid() && |draws| == |template.nodes| && ValidNet(template) && InRange(template)
    ensures var r := TrialNet(template, draws, paths, t);
      && (r.Some? ==> ValidNet(r.value) && InRange(r.value))
      && (|template.nodes| > 0 && |template.edges| > 0 ==> r.Some?)
  {
    var h := HazardSpec(template, draws, t);
    HazardPreservesInvariants(template, draws, t);
    var u := UpdateSpec(h, t);
    UpdatePreservesInvariants(h, t);
    DamageTestMeaning(h, t);
    CascadeProgress(u, paths, t, MaxIteration);
    var c := if |u.sNodes| > 0 && |u.cNodes| > 0 then Cascade(u, paths, t, MaxIteration).final else u;
    UpdatePreservesInvariants(c, t);
  }

  /** One trial yields one value per area, each in [0,1], and fails only on
      an empty graph. */
  lemma TrialShape(template: Net, areas: seq<Area>, draws: seq<real>, paths: PathOracle, t: Thresholds)
    requires t.Valid() && |draws| == |template.nodes| && ValidNet(template) && InRange(template)
    ensures var r := TrialSpec(template, areas, draws, paths, t);
      && (r.Some? ==> |r.value| == |areas| && forall a :: 0 <= a < |areas| ==> 0.0 <= r.value[a] <= 1.0)
      && (|template.nodes| > 0 && |template.edges| > 0 ==> r.Some?)
  {
    TrialNetFacts(template, draws, paths, t);
    var tn := TrialNet(template, draws, paths, t);
    if tn.Some? {
      AreaValuesInUnitInterval(areas, tn.value.edges);
    }
  }

  /** The simulation yields one vector per trial, one value per area, each in
      [0,1]; with a non-empty graph it never fails. */
  lemma MonteCarloShape(template: Net, areas: seq<Area>, draws: seq<seq<real>>,
                        paths: PathOracle, t: Thresholds)
    requires t.Valid() && forall i :: 0 <= i < |draws| ==> |draws[i]| == |template.nodes|
    requires ValidNet(template) && InRange(template)
    ensures var r := MonteCarloSpec(template, areas, draws, paths, t);
      && (r.Some? ==>
            && |r.value| == |draws|
            && (forall i :: 0 <= i < |draws| ==> |r.value[i]| == |areas|)
            && (forall i, a :: 0 <= i < |draws| && 0 <= a < |areas| ==> 0.0 <= r.value[i][a] <= 1.0))
      && (|template.nodes| > 0 && |template.edges| > 0 ==> r.Some?)
  {
    forall i | 0 <= i < |draws|
      ensures var v := Trials(template, areas, draws, paths, t)[i];
        && (v.Some? ==> |v.value| == |areas| && forall a :: 0 <= a < |areas| ==> 0.0 <= v.value[a] <= 1.0)
        && (|template.nodes| > 0 && |template.edges| > 0 ==> v.Some?)
    {
      TrialsAt(template, areas, draws, paths, t, i);
      TrialShape(template, areas, draws[i], paths, t);
    }
  }

  /** Without hazard (every probability of failure below EPS) on an undamaged
      network, no area is affected in any trial. */
  lemma NoHazardNoOutage(template: Net, areas: seq<Area>, draws: seq<real>, paths: PathOracle, t: Thresholds)
    requires t.Valid() && |draws| == |template.nodes| && |template.nodes| > 0
    requires forall i :: 0 <= i < |template.nodes| ==> template.nodes[i].pof < t.eps && template.nodes[i].pof <= 1.0 - t.eps
    requires forall j :: 0 <= j < |template.edges| ==> template.edges[j].damage == 0.0
    ensures var r := TrialSpec(template, areas, draws, paths, t);
      (|template.edges| > 0 ==> r.Some?) &&
      (r.Some? ==> forall a :: 0 <= a < |areas| ==> r.value[a] == 0.0)
  {
    var h := HazardSpec(template, draws, t);
    assert h.edges == template.edges;
    assert forall i :: 0 <= i < |h.nodes| ==> h.nodes[i].damage == 0.0;
    DamageTestMeaning(h, t);
    var u := UpdateSpec(h, t);
    assert |template.edges| > 0 ==> DamageTest(h, t) == Some(false);
    assert TrialNet(template, draws, paths, t) == if |template.edges| > 0 then Some(u) else None;
    forall j | 0 <= j < |u.edges| ensures u.edges[j].damage == 0.0 {
      assert u.edges[j].damage == h.edges[j].damage;
    }
    forall a | 0 <= a < |areas| ensures AreaDamage(u.edges, areas[a].node) == 0.0 {
      ZeroDamageAreas(u.edges, areas[a].node);
    }
  }

  lemma {:induction false} ZeroDamageAreas(es: seq<Edge>, node: nat)
    requires forall j :: 0 <= j < |es| ==> es[j].damage == 0.0
    ensures AreaDamage(es, node) == 0.0
  {
    var ds := IncidentDamages(es, node);
    IncidentDamagesFacts(es, node, 0.0, 0.0);
    if |ds| > 0 {
      MeanBounds(ds, 0.0, 0.0);
    }
  }

  /** One trial on a fresh copy of the template (`copy.deepcopy`). */
  method RunTrial(template: Net, areas: seq<Area>, draws: seq<real>, paths: PathOracle, t: Thresholds)
    returns (r: Option<seq<real>>)
    requires ValidNet(template) && t.Valid() && |draws| == |template.nodes|
    ensures r == TrialSpec(template, areas, draws, paths, t)
  {
    var netG := new Network(template);
    // direct hazard action
    DirectHazardAction(netG, draws, t);
    // damage snapshot after the hazard
    var test := DamageTest(netG.Abs(), t);
    UpdateNetwork(netG, t);
    if test.None? {
      return None;
    }
    if test.value {
      if |netG.sNodes| > 0 && |netG.cNodes| > 0 {
        SimulateCascadingEffects(netG, paths, t, MaxIteration);
      }
      UpdateNetwork(netG, t);
    }
    r := Some(SetStateConsumers(areas, netG.edges[..]));
  }

  /** `run_Monte_Carlo_simulation(Graph, s_nodes0, t_nodes0, ExposureConsumerAreas, mcs)`:
      `draws[i]` holds the random values of trial `i`; the template network is
      read, never written. */
  method RunMonteCarloSimulation(graph: Network, areas: seq<Area>, mcs: nat, draws: seq<seq<real>>,
                                 paths: PathOracle, t: Thresholds)
    returns (r: Option<seq<seq<real>>>)
    requires graph.Valid() && t.Valid()
    requires |draws| == mcs && forall i :: 0 <= i < |draws| ==> |draws[i]| == graph.nodes.Length
    ensures r == MonteCarloSpec(graph.Abs(), areas, draws, paths, t)
  {
    // the template's attribute tables, copied before the trials
    var template := graph.Abs();
    var affectedAreas: seq<seq<real>> := [];
    for i := 0 to mcs
      invariant AllSome(Trials(template, areas, draws[..i], paths, t)) == Some(affectedAreas)
    {
      var iAffectedAreas := RunTrial(template, areas, draws[i], paths, t);
      TrialsPrefix(template, areas, draws, paths, t, i);
      AllSomeSnoc(Trials(template, areas, draws[..i], paths, t), iAffectedAreas);
      if iAffectedAreas.None? {
        TrialsAt(template, areas, draws, paths, t, i);
        return None;
      }
      affectedAreas := affectedAreas + [iAffectedAreas.value];
    }
    assert draws[..mcs] == draws;
    r := Some(affectedAreas);
  }

  // ---------------------------------------------------------------------------
  // Output

  /** Python's `int` on a float: truncation toward zero. */
  function Trunc(x: real): (n: int)
    ensures x >= 0.0 ==> 0 <= n && n as real <= x < n as real + 1.0
    ensures x < 0.0 ==> n <= 0 && x <= n as real && (n as real) - 1.0 < x
  {
    if x >= 0.0 then x.Floor else -((-x).Floor)
  }

  /** Sum over the first `width` areas of sample value times population. */
  function PopulationSum(row: seq<real>, areas: seq<Area>, width: nat): real
    requires width <= |row| && width <= |areas|
  {
    if width == 0 then 0.0
    else PopulationSum(row, areas, width - 1) + row[width - 1] * areas[width - 1].population
  }

  /** Total population of the first `width` areas. */
  function TotalPopulation(areas: seq<Area>, width: nat): real
    requires width <= |areas|
  {
    if width == 0 then 0.0 else TotalPopulation(areas, width - 1) + areas[width - 1].population
  }

  /** The samples `compute_output` can index without raising: the first
      `nmcs` rows, the first of them exactly one value per area (the sum runs
      over its width and reads the areas), later ones at least that many (the
      estimates read every area of every row). */
  predicate WellShaped(samples: seq<seq<real>>, areas: seq<Area>, nmcs: nat) {
    && nmcs <= |samples|
    && (nmcs > 0 ==> |samples[0]| == |areas|)
    && forall i :: 0 <= i < nmcs ==> |samples[i]| >= |areas|
  }

  /** `SampleDamageNetwork`: the affected population of each trial, summed
      over the width of the first row. */
  function SampleDamageNetwork(samples: seq<seq<real>>, areas: seq<Area>, nmcs: nat): (r: seq<int>)
    requires WellShaped(samples, areas, nmcs)
    ensures |r| == nmcs
  {
    seq(nmcs, i requires 0 <= i < nmcs => Trunc(PopulationSum(samples[i], areas, |samples[0]|)))
  }

  function AreaColumn(samples: seq<seq<real>>, a: nat, nmcs: nat): seq<real>
    requires nmcs <= |samples| && forall i :: 0 <= i < nmcs ==> a < |samples[i]|
  {
    seq(nmcs, i requires 0 <= i < nmcs => samples[i][a])
  }

  /** `np.mean` of one area's samples; NaN (`None`) for no trials. */
  function EstimatedPof(samples: seq<seq<real>>, a: nat, nmcs: nat): Option<real>
    requires nmcs <= |samples| && forall i :: 0 <= i < nmcs ==> a < |samples[i]|
  {
    if nmcs == 0 then None else Some(Mean(AreaColumn(samples, a, nmcs)))
  }

  lemma {:induction false} PopulationSumBounds(row: seq<real>, areas: seq<Area>, width: nat)
    requires width <= |row| && width <= |areas|
    requires forall a :: 0 <= a < width ==> 0.0 <= row[a] <= 1.0 && areas[a].population >= 0.0
    ensures 0.0 <= PopulationSum(row, areas, width) <= TotalPopulation(areas, width)
  {
    if width > 0 {
      PopulationSumBounds(row, areas, width - 1);
      var p := areas[width - 1].population;
      var x := row[width - 1];
      assert 0.0 <= x * p;
      assert (1.0 - x) * p >= 0.0;
    }
  }

  /** With samples in [0,1] and non-negative populations, each trial's
      affected population lies between 0 and the total population (rounded
      down), and each area's estimate lies in [0,1]. */
  lemma OutputBounds(samples: seq<seq<real>>, areas: seq<Area>, nmcs: nat)
    requires WellShaped(samples, areas, nmcs)
    requires forall i, a :: 0 <= i < nmcs && 0 <= a < |areas| ==> 0.0 <= samples[i][a] <= 1.0
    requires forall a :: 0 <= a < |areas| ==> areas[a].population >= 0.0
    ensures var r := SampleDamageNetwork(samples, areas, nmcs);
      forall i :: 0 <= i < nmcs ==> 0 <= r[i] <= Trunc(TotalPopulation(areas, |areas|))
    ensures forall a :: 0 <= a < |areas| ==>
      var p := EstimatedPof(samples, a, nmcs);
      (p.None? <==> nmcs == 0) && (p.Some? ==> 0.0 <= p.value <= 1.0)
  {
    forall i | 0 <= i < nmcs
      ensures 0 <= SampleDamageNetwork(samples, areas, nmcs)[i] <= Trunc(TotalPopulation(areas, |areas|))
    {
      PopulationSumBounds(samples[i], areas, |areas|);
    }
    forall a | 0 <= a < |areas| && nmcs > 0 ensures 0.0 <= Mean(AreaColumn(samples, a, nmcs)) <= 1.0 {
      MeanBounds(AreaColumn(samples, a, nmcs), 0.0, 1.0);
    }
  }

  /** `compute_output(SampleDamageAreas, ExposureConsumerAreas, nmcs)`: writes
      each area's estimate and returns the per-trial affected population. */
  method ComputeOutput(samples: seq<seq<real>>, areas: array<Area>, nmcs: nat) returns (totals: seq<int>)
    requires WellShaped(samples, areas[..], nmcs)
    modifies areas
    ensures totals == SampleDamageNetwork(samples, old(areas[..]), nmcs)
    ensures forall a :: 0 <= a < areas.Length ==> areas[a] == old(areas[a]).(pof := EstimatedPof(samples, a, nmcs))
  {
    totals := SampleDamageNetwork(samples, areas[..], nmcs);
    for a := 0 to areas.Length
      invariant forall k :: 0 <= k < a ==> areas[k] == old(areas[k]).(pof := EstimatedPof(samples, k, nmcs))
      invariant forall k :: a <= k < areas.Length ==> areas[k] == old(areas[k])
    {
      var estApof := if nmcs == 0 then None else Some(Mean(AreaColumn(samples, a, nmcs)));
      areas[a] := areas[a].(pof := estApof);
    }
  }
}
