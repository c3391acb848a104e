/**
 Steps 6 and 7 together: what a plan drawn from a `break_cycles` report guarantees, where the
 guarantees end, and how synthetic waves extend a plan (`graph/sequence.py`).
 */
module Sequencing {
  import opened Options
  import opened Digraph
  import opened NodeOrder
  import opened DfsClasses
  import opened FleetModel
  import opened Materialize
  import opened Components
  import opened Cycles
  import opened FleetSteps
  import opened Condense
  import opened CycleTheorems
  import opened Acyclicity
  import opened Layers
  import opened WavePlans

  // ---------------------------------------------------------------------------------------
  // A report that step 6 returns can be sequenced
  // ---------------------------------------------------------------------------------------

  lemma FinishedIsSequenceable(cfg: Config, opening: Fleet, r: Report)
    requires Acyclicity.Finished(cfg, opening, r)
    ensures Sequenceable(cfg, r) && AtomicMembersPresent(r)
  {
    forall a | a in Arcs(cfg, r.fleet)
      ensures a.src in r.fleet.nodes && a.dst in r.fleet.nodes
    {
      ArcsInside(cfg, r.fleet, a);
    }
    forall x, m | x in r.resolutions && x.strategy == AtomicWave && m in x.members
      ensures HomeOf(r.resolutions, Node(Repo, m)) == Scc(x.members) && Node(Repo, m) in r.fleet.nodes
    {
      AtomicTogether(cfg, opening, r, x, m);
      RecordedIsPresent(cfg, opening, r, x, m);
    }
  }

  lemma RecordedIsPresent(cfg: Config, opening: Fleet, r: Report, x: Resolution, m: string)
    requires Within(cfg, opening, r.fleet) && WasComponent(cfg, opening, x) && m in x.members
    ensures Node(Repo, m) in r.fleet.nodes
  {
    var c :| IsScc(opening.nodes, Arcs(cfg, opening), c) && x.members == MemberIds(c);
    var u :| u in opening.nodes && c == Component(opening.nodes, Arcs(cfg, opening), u);
  }

  /** Some atomic component is excluded as a whole. */
  ghost predicate GatesWhole(r: Report, excluded: set<string>)
  {
    exists x :: x in r.resolutions && x.strategy == AtomicWave && x.members <= excluded
  }

  /** Of a report of step 6 only the waves of atomic components can be missing. */
  lemma ReportableExactly(cfg: Config, r: Report, excluded: set<string>)
    requires forall x :: x in r.resolutions ==> |x.members| >= 2 && Sound(cfg, x)
    ensures (forall x :: x in r.resolutions ==> Reportable(x, excluded)) <==> !GatesWhole(r, excluded)
  {
  }

  lemma BreakIsSequenceable(cfg: Config, nodes: set<NodeRef>, edges: Edges, contracts: Contracts, minConsumers: nat,
      gated: set<string>)
    requires Injective(cfg) && RowsOk(edges) && ContractsOk(contracts)
    requires Acyclic(ContractArcs(DagArcs(cfg, edges))) && Break(cfg, nodes, edges, contracts, minConsumers).Ok?
    ensures
      var r := Break(cfg, nodes, edges, contracts, minConsumers).value;
      var excluded := gated + ManualMembers(r.resolutions);
      && Sequenceable(cfg, r) && AtomicMembersPresent(r) && Acyclic(CondenseFor(cfg, r, excluded).arcs)
      && ((forall x :: x in r.resolutions ==> Reportable(x, excluded)) <==> !GatesWhole(r, excluded))
  {
    var opening, r := BreakFinishes(cfg, nodes, edges, contracts, minConsumers);
    var excluded := gated + ManualMembers(r.resolutions);
    FinishedIsSequenceable(cfg, opening, r);
    StepSixGuarantee(cfg, nodes, edges, contracts, minConsumers, excluded);
    ReportableExactly(cfg, r, excluded);
  }

  /** Step 7 draws a plan from what step 6 returns unless gating takes out a whole atomic component;
      the branch for a cyclic graph, marked unreachable, is, and every edge both ends of which
      migrate is ordered. */
  method SequenceAfterBreak(cfg: Config, nodes: set<NodeRef>, edges: Edges, contracts: Contracts, minConsumers: nat,
                            gated: set<string>)
    returns (plan: Result<WavePlan>, r: Result<Report>)
    requires Injective(cfg) && RowsOk(edges) && ContractsOk(contracts)
    requires Acyclic(ContractArcs(DagArcs(cfg, edges)))
    ensures r == Break(cfg, nodes, edges, contracts, minConsumers)
    ensures plan.Ok? <==> r.Ok? && !GatesWhole(r.value, gated + ManualMembers(r.value.resolutions))
    ensures plan.Ok? ==> WellFormed(plan.value) && plan.value.excluded == gated + ManualMembers(r.value.resolutions)
    ensures plan.Ok? ==> forall a :: a in Arcs(cfg, r.value.fleet) ==> Ordered(r.value, plan.value, a)
    ensures plan.Ok? ==> forall i :: 0 <= i < |plan.value.waves| ==> WaveHolds(cfg, r.value, plan.value, i)
    ensures plan.Ok? && !Splits(r.value, plan.value.excluded) ==>
              forall n :: n in plan.value.index <==> n in r.value.fleet.nodes && n.id !in plan.value.excluded
  {
    r := BreakCycles(cfg, nodes, edges, contracts, minConsumers);
    if r.Err? {
      return Err(r.error), r;
    }
    BreakIsSequenceable(cfg, nodes, edges, contracts, minConsumers, gated);
    ghost var layered;
    plan, layered := AssignWaves(cfg, r.value, gated);
    if plan.Ok? {
      PlanGuarantees(cfg, r.value, gated, layered, plan.value);
    }
  }

  /** Kept ends: the same home means the same wave, otherwise the dependency comes first. */
  ghost predicate Ordered(r: Report, plan: WavePlan, a: Arc<NodeRef>)
  {
    a.src.id !in plan.excluded && a.dst.id !in plan.excluded ==>
      && a.src in plan.index && a.dst in plan.index
      && (HomeOf(r.resolutions, a.src) == HomeOf(r.resolutions, a.dst) ==> plan.index[a.src] == plan.index[a.dst])
      && (HomeOf(r.resolutions, a.src) != HomeOf(r.resolutions, a.dst) ==> plan.index[a.dst] < plan.index[a.src])
  }

  lemma PlanGuarantees(cfg: Config, r: Report, gated: set<string>, layered: Waves<OrderNode>, plan: WavePlan)
    requires Sequenceable(cfg, r) && AtomicMembersPresent(r) && PlanFor(cfg, r, gated, layered, plan)
    ensures WellFormed(plan)
    ensures forall a :: a in Arcs(cfg, r.fleet) ==> Ordered(r, plan, a)
    ensures forall i :: 0 <= i < |plan.waves| ==> WaveHolds(cfg, r, plan, i)
    ensures !Splits(r, plan.excluded) ==> Covers(r, plan)
  {
    WavesWellFormed(cfg, r, gated, layered, plan);
    forall a | a in Arcs(cfg, r.fleet)
      ensures Ordered(r, plan, a)
    {
      if a.src.id !in plan.excluded && a.dst.id !in plan.excluded {
        PlanOrdersEdges(cfg, r, gated, layered, plan, a);
      }
    }
    forall i | 0 <= i < |plan.waves|
      ensures WaveHolds(cfg, r, plan, i)
    {
      WavesHoldExactly(cfg, r, gated, layered, plan, i);
    }
    CoverageExact(cfg, r, gated, layered, plan);
  }

  // ---------------------------------------------------------------------------------------
  // Contract-only cycles
  // ---------------------------------------------------------------------------------------

  lemma {:induction false} SkippingChangesNothing(cfg: Config, r: Report, components: seq<set<NodeRef>>,
      contracts: Contracts, minConsumers: nat)
    requires Injective(cfg) && ContractsOk(contracts)
    requires forall c :: c in components ==> |MemberIds(c)| < 2
    ensures ResolveAll(cfg, r, components, contracts, minConsumers) == Ok(r)
    decreases |components|
  {
    if components != [] {
      assert components[0] in components;
      SkippingChangesNothing(cfg, r, components[1..], contracts, minConsumers);
    }
  }

  /** On a graph of contracts alone step 6 returns and leaves it as it was ... */
  lemma ContractsAreSkipped(cfg: Config, nodes: set<NodeRef>, edges: Edges, contracts: Contracts, minConsumers: nat)
    requires Injective(cfg) && RowsOk(edges) && ContractsOk(contracts) && Precommitted(contracts) == map[]
    requires Rebuild(nodes, edges, cfg).Ok? && forall n :: n in nodes ==> n.kind.Contract?
    ensures Break(cfg, nodes, edges, contracts, minConsumers) ==
        Ok(Report(Opening(cfg, nodes, edges, contracts), [], []))
  {
    var f := Opening(cfg, nodes, edges, contracts);
    assert f.nodes == nodes;
    forall c | c in NontrivialSccs(f.nodes, Arcs(cfg, f))
      ensures |MemberIds(c)| < 2
    {
      NontrivialSccsExact(f.nodes, Arcs(cfg, f), c);
      var u :| u in nodes && c == Component(nodes, Arcs(cfg, f), u);
      assert MemberIds(c) == {};
    }
    SkippingChangesNothing(cfg, Report(f, [], []), NontrivialSccs(f.nodes, Arcs(cfg, f)), contracts, minConsumers);
  }

  /** ... so exactly the graphs that came in acyclic can be sequenced. */
  lemma ContractsStayCyclic(cfg: Config, nodes: set<NodeRef>, edges: Edges, contracts: Contracts, minConsumers: nat)
    requires Injective(cfg) && RowsOk(edges) && ContractsOk(contracts) && Precommitted(contracts) == map[]
    requires Rebuild(nodes, edges, cfg).Ok? && forall n :: n in nodes ==> n.kind.Contract?
    ensures
      var r := Break(cfg, nodes, edges, contracts, minConsumers);
      r.Ok? && (Acyclic(CondenseFor(cfg, r.value, {}).arcs) <==> Acyclic(ContractArcs(DagArcs(cfg, edges))))
  {
    ContractsAreSkipped(cfg, nodes, edges, contracts, minConsumers);
    StepSixGuarantee(cfg, nodes, edges, contracts, minConsumers, {});
  }

  const P := Node(Contract, "p")
  const Q := Node(Contract, "q")

  function Implements(src: NodeRef, dst: NodeRef): Edge
  {
    Edge(EdgeKey(src, Contract, dst.id, ContractImpl, "api.proto", 1), dst, 1.0, false, false, None)
  }

  function TwoContracts(): Edges
  {
    map[Implements(P, Q).key := Implements(P, Q), Implements(Q, P).key := Implements(Q, P)]
  }

  lemma TwoContractsCycle(cfg: Config)
    requires CONTRACT_KINDS <= cfg.kinds && cfg.minConfidence <= 1.0
    ensures RowsOk(TwoContracts()) && Rebuild({P, Q}, TwoContracts(), cfg).Ok?
    ensures !Acyclic(ContractArcs(DagArcs(cfg, TwoContracts())))
  {
    var edges, arcs := TwoContracts(), ContractArcs(DagArcs(cfg, TwoContracts()));
    ArcOfRow(cfg, edges, Implements(P, Q).key);
    ArcOfRow(cfg, edges, Implements(Q, P).key);
    ReachesArc(arcs, Q, P);
    assert Reaches(arcs, Arc(P, Q).dst, Arc(P, Q).src);
  }

  /** Two contracts that require each other leave a cyclic condensed graph. */
  lemma ContractCycleSurvives(cfg: Config, minConsumers: nat)
    requires Injective(cfg) && CONTRACT_KINDS <= cfg.kinds && cfg.minConfidence <= 1.0
    ensures Break(cfg, {P, Q}, TwoContracts(), map[], minConsumers).Ok?
    ensures !Acyclic(CondenseFor(cfg, Break(cfg, {P, Q}, TwoContracts(), map[], minConsumers).value, {}).arcs)
  {
    TwoContractsCycle(cfg);
    ContractsStayCyclic(cfg, {P, Q}, TwoContracts(), map[], minConsumers);
  }

  // ---------------------------------------------------------------------------------------
  // append_synthetic_waves
  // ---------------------------------------------------------------------------------------

  /** The nodes to append: known to the graph and without a wave. */
  function Fresh(plan: WavePlan, nodes: set<NodeRef>, refs: set<NodeRef>): set<NodeRef>
  {
    set n | n in refs && n !in plan.index && n in nodes
  }

  function NextIndex(waves: seq<Wave>): nat
  {
    if waves == [] then 0 else
      var indices := set i | 0 <= i < |waves| :: waves[i].index;
      assert waves[0].index in indices;
      MaxOf(indices) + 1
  }

  function Lifted(w: Waves<NodeRef>, offset: nat): Waves<NodeRef>
  {
    map n | n in w :: offset + w[n]
  }

  function Outgoing(dag: Dag<NodeRef>, added: set<NodeRef>, index: Waves<NodeRef>): Dag<NodeRef>
  {
    set a | a in dag && a.src in added && a.src in index && a.dst in index && index[a.src] != index[a.dst]
  }

  method AppendSyntheticWaves(plan: WavePlan, nodes: set<NodeRef>, dag: Dag<NodeRef>, refs: set<NodeRef>)
    returns (r: Result<WavePlan>)
    requires WellFormed(plan) && Inside(nodes, dag)
    ensures r.Ok? <==> Acyclic(InnerArcs(dag, Fresh(plan, nodes, refs)))
    ensures r.Ok? ==> Appended(plan, dag, Fresh(plan, nodes, refs), r.value) && WellFormed(r.value)
    ensures r.Ok? ==> forall n :: n in r.value.index <==> n in plan.index || (n in refs && n in nodes)
  {
    var added := Fresh(plan, nodes, refs);
    var induced := InnerArcs(dag, added);
    if added == {} {
      NothingAppended(plan, dag);
      return Ok(plan);
    }
    if !IsAcyclic(induced) {
      return Err(StillCyclic);
    }
    var offset := NextIndex(plan.waves);
    var low := Layer(added, induced);
    var layered := Lifted(low, offset);
    var index := plan.index + layered;
    var depends := CollectDepends(Outgoing(dag, added, index), index);
    var appended := MaterializeWaves(layered, map[], depends, true);
    r := Ok(WavePlan(plan.waves + appended, index, plan.findings, plan.excluded));
    NextIsLength(plan);
    FreshDescend(plan, dag, added, low, index);
    ghost var k := LiftedContiguous(added, induced, low, offset);
    WavesAppended(plan, dag, added, layered, index, depends, appended, k);
    assert Appended(plan, dag, added, r.value);
  }

  /** Old waves and indices stay; fresh nodes lie above them all, and above what they require. */
  ghost predicate Appended(plan: WavePlan, dag: Dag<NodeRef>, added: set<NodeRef>, r: WavePlan)
  {
    && plan.waves <= r.waves && r.excluded == plan.excluded && r.findings == plan.findings
    && (forall i :: |plan.waves| <= i < |r.waves| ==> FreshWave(dag, added, r.index, r.waves[i], i))
    && r.index.Keys == plan.index.Keys + added
    && (forall n :: n in plan.index ==> r.index[n] == plan.index[n])
    && (forall n :: n in added ==> |plan.waves| <= r.index[n])
    && FreshOrdered(dag, added, r.index)
  }

  /** An appended wave holds exactly the fresh nodes with its index, by kind, and depends on exactly the
      other waves that an edge of them leads to. */
  ghost predicate FreshWave(dag: Dag<NodeRef>, added: set<NodeRef>, index: Waves<NodeRef>, w: Wave, i: nat)
  {
    && w.index == i && w.synthetic && w.sccs == {}
    && (forall id :: id in w.repos <==>
          Node(Repo, id) in added && Node(Repo, id) in index && index[Node(Repo, id)] == i)
    && (forall id :: id in w.contracts <==>
          Node(Contract, id) in added && Node(Contract, id) in index && index[Node(Contract, id)] == i)
    && (forall j :: j in w.dependsOn <==> j != i && FreshLeads(dag, added, index, i, j))
  }

  /** Some edge of a fresh node in wave `i` leads to wave `j`. */
  ghost predicate FreshLeads(dag: Dag<NodeRef>, added: set<NodeRef>, index: Waves<NodeRef>, i: nat, j: nat)
  {
    exists a ::
      && a in dag && a.src in added && a.src in index && a.dst in index && index[a.src] == i && index[a.dst] == j
  }

  ghost predicate FreshOrdered(dag: Dag<NodeRef>, added: set<NodeRef>, index: Waves<NodeRef>)
  {
    forall a :: a in dag && a.src in added && a.src in index && a.dst in index ==> index[a.dst] < index[a.src]
  }

  lemma NothingAppended(plan: WavePlan, dag: Dag<NodeRef>)
    ensures Appended(plan, dag, {}, plan) && Acyclic(InnerArcs(dag, {}))
  {
  }

  lemma NextIsLength(plan: WavePlan)
    requires WellFormed(plan)
    ensures NextIndex(plan.waves) == |plan.waves|
  {
    if plan.waves != [] {
      var indices := set i | 0 <= i < |plan.waves| :: plan.waves[i].index;
      var top := |plan.waves| - 1;
      assert WaveOk(plan.waves[top], top);
      assert plan.waves[top].index in indices;
      forall j | j in indices
        ensures j <= top
      {
        var i :| 0 <= i < |plan.waves| && plan.waves[i].index == j;
        assert WaveOk(plan.waves[i], i);
      }
    }
  }

  lemma FreshDescend(plan: WavePlan, dag: Dag<NodeRef>, added: set<NodeRef>, low: Waves<NodeRef>, index: Waves<NodeRef>)
    requires WellFormed(plan) && added !! plan.index.Keys && Layering(added, InnerArcs(dag, added), low)
    requires index == plan.index + Lifted(low, |plan.waves|)
    ensures FreshOrdered(dag, added, index)
  {
    forall a | a in dag && a.src in added && a.src in index && a.dst in index
      ensures index[a.dst] < index[a.src]
    {
      assert IsLayer(InnerArcs(dag, added), low, a.src);
      if a.dst in added {
        assert Arc(a.src, a.dst) in InnerArcs(dag, added);
      }
    }
  }

  lemma LiftedContiguous(added: set<NodeRef>, arcs: Dag<NodeRef>, low: Waves<NodeRef>, offset: nat) returns (k: nat)
    requires Layering(added, arcs, low)
    ensures forall i :: i in Lifted(low, offset).Values <==> offset <= i < offset + k
  {
    forall n, i | n in low && 0 <= i <= low[n]
      ensures i in low.Values
    {
      var m := LayersAreContiguous(added, arcs, low, n, i);
    }
    k := GapFree(low);
    var lifted := Lifted(low, offset);
    forall i
      ensures i in lifted.Values <==> offset <= i < offset + k
    {
      if offset <= i < offset + k {
        assert i - offset in low.Values;
        var n :| n in low && low[n] == i - offset;
        assert lifted[n] == i;
      }
      if i in lifted.Values {
        var n :| n in lifted && lifted[n] == i;
        assert low[n] in low.Values;
      }
    }
  }

  lemma WavesAppended(plan: WavePlan, dag: Dag<NodeRef>, added: set<NodeRef>, lifted: Waves<NodeRef>,
      index: Waves<NodeRef>, depends: map<nat, set<nat>>, appended: seq<Wave>, k: nat)
    requires WellFormed(plan) && index == plan.index + lifted && FreshOrdered(dag, added, index)
    requires lifted.Keys == added && added !! plan.index.Keys
    requires forall i :: i in lifted.Values <==> |plan.waves| <= i < |plan.waves| + k
    requires DependsAt(Outgoing(dag, added, index), index, depends)
    requires
      var indices := Ascending(lifted.Values);
      |appended| == |indices| && forall j :: 0 <= j < |appended| ==>
          appended[j] == WaveAt(lifted, map[], depends, indices[j], true)
    ensures WellFormed(WavePlan(plan.waves + appended, index, plan.findings, plan.excluded))
    ensures forall i :: |plan.waves| <= i < |plan.waves + appended| ==>
              FreshWave(dag, added, index, (plan.waves + appended)[i], i)
  {
    var offset, r := |plan.waves|, WavePlan(plan.waves + appended, index, plan.findings, plan.excluded);
    AscendingContiguous(lifted.Values, offset, k);
    forall i | 0 <= i < |r.waves|
      ensures WaveOk(r.waves[i], i)
    {
      if offset <= i {
        assert r.waves[i] == WaveAt(lifted, map[], depends, i, true);
        OutgoingDescend(dag, added, index, depends, i);
        WaveAtOk(lifted, map[], depends, i, true);
      } else {
        assert WaveOk(plan.waves[i], i);
      }
    }
    forall n | n in index
      ensures index[n] < |r.waves|
    {
      if n in lifted {
        assert lifted[n] in lifted.Values;
      }
    }
    forall i | offset <= i < |r.waves|
      ensures FreshWave(dag, added, index, r.waves[i], i)
    {
      assert r.waves[i] == WaveAt(lifted, map[], depends, i, true);
      WaveIsFresh(plan, dag, added, lifted, index, depends, i);
    }
  }

  lemma WaveIsFresh(plan: WavePlan, dag: Dag<NodeRef>, added: set<NodeRef>, lifted: Waves<NodeRef>,
      index: Waves<NodeRef>, depends: map<nat, set<nat>>, i: nat)
    requires index == plan.index + lifted && lifted.Keys == added && added !! plan.index.Keys
    requires DependsAt(Outgoing(dag, added, index), index, depends)
    ensures FreshWave(dag, added, index, WaveAt(lifted, map[], depends, i, true), i)
  {
    var w := WaveAt(lifted, map[], depends, i, true);
    WaveAtGathers(lifted, map[], depends, i, true);
    forall j
      ensures j in w.dependsOn <==> j != i && FreshLeads(dag, added, index, i, j)
    {
      assert j in At<nat>(depends, i) <==> Joins(Outgoing(dag, added, index), index, i, j);
      if j != i && FreshLeads(dag, added, index, i, j) {
        var a :|
          a in dag && a.src in added && a.src in index && a.dst in index && index[a.src] == i && index[a.dst] == j;
        assert a in Outgoing(dag, added, index);
      }
    }
  }

  lemma OutgoingDescend(dag: Dag<NodeRef>, added: set<NodeRef>, index: Waves<NodeRef>, depends: map<nat, set<nat>>,
      i: nat)
    requires FreshOrdered(dag, added, index) && DependsAt(Outgoing(dag, added, index), index, depends)
    ensures forall j :: j in At<nat>(depends, i) ==> j < i
  {
    forall j | j in At<nat>(depends, i)
      ensures j < i
    {
      assert Joins(Outgoing(dag, added, index), index, i, j);
    }
  }

  // ---------------------------------------------------------------------------------------
  // What step 6 keeps, from the rows it is given to the rows it returns
  // ---------------------------------------------------------------------------------------

  lemma OpeningKeeps(cfg: Config, given: Fleet, opening: Fleet, cs: Contracts)
    requires Injective(cfg) && RowsOk(given.edges)
    requires opening.nodes == given.nodes + Refs(cs) && opening.edges == Materialized(cfg, given.edges, cs)
    ensures Within(cfg, given, opening) && Keeps(given, opening)
  {
    var t := Trial(cfg, given, cs);
    TrialWithin(cfg, given, cs);
    TrialKeeps(cfg, given, cs);
    forall k | k in given.edges
      ensures exists a :: Replaced(given, opening, k, a)
    {
      var a :| Replaced(given, t, k, a);
      assert Replaced(given, opening, k, a);
    }
  }

  /** No row is lost without a contract row with the same source and evidence in its place, no
      arc between repositories is new, every reported strategy has something to show for it and
      every hoisted contract has its consumers. */
  lemma StepSixKeeps(cfg: Config, nodes: set<NodeRef>, edges: Edges, contracts: Contracts, minConsumers: nat)
    requires Injective(cfg) && RowsOk(edges) && ContractsOk(contracts)
    requires Break(cfg, nodes, edges, contracts, minConsumers).Ok?
    ensures
      var r := Break(cfg, nodes, edges, contracts, minConsumers).value;
      var given := Fleet(nodes, edges, map[]);
      && Within(cfg, given, r.fleet) && Keeps(given, r.fleet) && ContractsTrap(Arcs(cfg, r.fleet))
      && (forall x :: x in r.resolutions ==> Sound(cfg, x) && ConsumersOk(r.fleet, x, minConsumers))
  {
    var given := Fleet(nodes, edges, map[]);
    var opening, r := BreakFinishes(cfg, nodes, edges, contracts, minConsumers);
    ArcsTrap(cfg, r.fleet);
    OpeningKeeps(cfg, given, opening, Precommitted(contracts));
    WithinTransitive(cfg, given, opening, r.fleet);
    KeepsTransitive(given, opening, r.fleet);
  }
}
