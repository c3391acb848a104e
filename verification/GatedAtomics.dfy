/**
 Gating and atomic components: a fleet on which step 6 returns an atomic component, and what step 7
 makes of it when part of the component, or all of it, is gated (`graph/sequence.py`).
 */
module GatedAtomics {
  import opened Options
  import opened Digraph
  import opened NodeOrder
  import opened FleetModel
  import opened Components
  import opened Cycles
  import opened FleetSteps
  import opened BreakTheorems
  import opened CycleTheorems
  import opened Condense
  import opened Acyclicity
  import opened Layers
  import opened WavePlans
  import opened Sequencing

  const A := Node(Repo, "a")
  const B := Node(Repo, "b")
  const X := Node(Repo, "x")
  const REPOS := {A, B, X}
  const PAIR := {A, B}
  const IDS := {"a", "b"}

  function Declared(src: NodeRef, dst: NodeRef): Edge
  {
    Edge(EdgeKey(src, Repo, dst.id, DeclaredDep, "go.mod", 1), dst, 1.0, false, false, None)
  }

  /** `a` and `b` require each other, and `a` requires `x`; all of it is declared and certain. */
  function Rows(): Edges
  {
    var ab, ba, ax := Declared(A, B), Declared(B, A), Declared(A, X);
    map[ab.key := ab, ba.key := ba, ax.key := ax]
  }

  function Stage(): Fleet { Fleet(REPOS, Rows(), map[]) }

  /** Any configuration that orders declared dependencies and does not give up on two repositories. */
  ghost predicate Ordinary(cfg: Config)
  {
    && Injective(cfg) && DeclaredDep in cfg.kinds && cfg.minConfidence <= 1.0 && cfg.hardMax >= 2
    && (cfg.hoistContracts ==> CONTRACT_KINDS <= cfg.kinds)
  }

  // ---------------------------------------------------------------------------------------
  // Its graph
  // ---------------------------------------------------------------------------------------

  lemma StageIsOk(cfg: Config)
    requires Ordinary(cfg)
    ensures FleetOk(cfg, Stage()) && forall k :: k in Rows() ==> k.src.kind.Repo?
  {
  }

  lemma StageArcs(cfg: Config)
    requires Ordinary(cfg)
    ensures DagArcs(cfg, Rows()) == {Arc(A, B), Arc(B, A), Arc(A, X)}
  {
    var rows := Rows();
    ArcOfRow(cfg, rows, Declared(A, B).key);
    ArcOfRow(cfg, rows, Declared(B, A).key);
    ArcOfRow(cfg, rows, Declared(A, X).key);
  }

  lemma StageMutual(cfg: Config)
    requires Ordinary(cfg)
    ensures Mutual(DagArcs(cfg, Rows()), A, B)
  {
    StageArcs(cfg);
    ReachesArc(DagArcs(cfg, Rows()), A, B);
    ReachesArc(DagArcs(cfg, Rows()), B, A);
  }

  lemma NothingLeavesX(cfg: Config, v: NodeRef)
    requires Ordinary(cfg) && Reaches(DagArcs(cfg, Rows()), X, v)
    ensures v == X
  {
    var arcs := DagArcs(cfg, Rows());
    StageArcs(cfg);
    var n: nat :| ReachesIn(arcs, X, v, n);
    ClosedSetKeeps(arcs, {X}, X, v, n);
  }

  lemma PairIsComponent(cfg: Config, u: NodeRef)
    requires Ordinary(cfg) && u in PAIR
    ensures Component(REPOS, DagArcs(cfg, Rows()), u) == PAIR
  {
    var arcs := DagArcs(cfg, Rows());
    var c := Component(REPOS, arcs, u);
    StageMutual(cfg);
    ReachesRefl(arcs, u);
    if X in c {
      NothingLeavesX(cfg, u);
    }
    forall v | v in PAIR
      ensures v in c
    {
    }
  }

  /** The pair is listed as a component, and nothing else is. */
  lemma StageComponents(cfg: Config)
    requires Ordinary(cfg)
    ensures PAIR in NontrivialSccs(REPOS, DagArcs(cfg, Rows()))
    ensures forall c :: c in NontrivialSccs(REPOS, DagArcs(cfg, Rows())) ==> c == PAIR
  {
    var arcs := DagArcs(cfg, Rows());
    PairIsComponent(cfg, A);
    TwoMembers(PAIR, A, B);
    NontrivialSccsExact(REPOS, arcs, PAIR);
    forall c | c in NontrivialSccs(REPOS, arcs)
      ensures c == PAIR
    {
      ListedIsPair(cfg, c);
    }
  }

  lemma ListedIsPair(cfg: Config, c: set<NodeRef>)
    requires Ordinary(cfg) && c in NontrivialSccs(REPOS, DagArcs(cfg, Rows()))
    ensures c == PAIR
  {
    var arcs := DagArcs(cfg, Rows());
    NontrivialSccsExact(REPOS, arcs, c);
    var u :| u in REPOS && c == Component(REPOS, arcs, u);
    if u == X {
      forall v | v in c
        ensures v == X
      {
        NothingLeavesX(cfg, v);
      }
      OnlyOne(c, X);
    } else {
      PairIsComponent(cfg, u);
    }
  }

  lemma OnlyOne<T>(s: set<T>, x: T)
    requires forall y :: y in s ==> y == x
    ensures |s| <= 1
  {
    assert s <= {x};
    SubsetCardinality(s, {x});
  }

  // ---------------------------------------------------------------------------------------
  // Step 6 on it
  // ---------------------------------------------------------------------------------------

  lemma PairIds()
    ensures MemberIds(PAIR) == IDS && |IDS| == 2
  {
    assert MemberIds(PAIR) == IDS;
  }

  lemma PairIsLive(cfg: Config)
    requires Ordinary(cfg)
    ensures Live(cfg, Stage(), IDS) != {}
  {
    StageMutual(cfg);
    TangleIsLive(REPOS, DagArcs(cfg, Rows()), IDS, A, B);
  }

  /** Rows that are declared and certain throughout: nothing is weak enough to break. */
  lemma CertainStays(cfg: Config, f: Fleet, members: set<string>)
    requires FleetOk(cfg, f) && Live(cfg, f, members) != {}
    requires forall k :: k in f.edges ==> k.kind == DeclaredDep && f.edges[k].confidence >= ATOMIC_CONFIDENCE
    ensures BreakLoop(cfg, Broken(f, []), members) == Broken(f, [])
  {
    LiveHasFeedback(cfg, f, members);
    assert IsAtomic(cfg, f, Live(cfg, f, members));
  }

  lemma RowsAreCertain()
    ensures forall k :: k in Rows() ==> k.kind == DeclaredDep && Rows()[k].confidence >= ATOMIC_CONFIDENCE
  {
  }

  lemma NothingToBreak(cfg: Config)
    requires Ordinary(cfg)
    ensures BreakLoop(cfg, Broken(Stage(), []), IDS) == Broken(Stage(), [])
  {
    PairIsLive(cfg);
    StageIsOk(cfg);
    RowsAreCertain();
    CertainStays(cfg, Stage(), IDS);
  }

  ghost predicate IsAtomicPair(x: Resolution) { x.members == IDS && x.strategy == AtomicWave }

  lemma PairStaysAtomic(cfg: Config, minConsumers: nat)
    requires Ordinary(cfg)
    ensures
      var r := Resolve(cfg, Stage(), PAIR, map[], minConsumers);
      r.Ok? && r.value.fleet == Stage() && IsAtomicPair(r.value.resolution)
  {
    PairIds();
    PairIsLive(cfg);
    NothingToBreak(cfg);
    assert Candidates(cfg, Stage(), map[], IDS) == map[];
  }

  /** Components that all leave the fleet alone are all recorded alike. */
  lemma {:induction false} AllAlike(cfg: Config, r: Report, components: seq<set<NodeRef>>, c: set<NodeRef>,
      one: Resolved, contracts: Contracts, minConsumers: nat)
    requires Injective(cfg) && ContractsOk(contracts) && |MemberIds(c)| >= 2 && one.fleet == r.fleet
    requires Resolve(cfg, r.fleet, c, contracts, minConsumers) == Ok(one)
    requires forall d :: d in components ==> d == c
    ensures
      var out := ResolveAll(cfg, r, components, contracts, minConsumers);
      && out.Ok? && out.value.fleet == r.fleet && |out.value.resolutions| == |r.resolutions| + |components|
      && forall x :: x in out.value.resolutions ==> x in r.resolutions || x == one.resolution
    decreases |components|
  {
    if components != [] {
      assert components[0] in components && forall d :: d in components[1..] ==> d in components;
      ResolveAllUnfolds(cfg, r, components, contracts, minConsumers);
      AllAlike(cfg, WithResolved(r, one), components[1..], c, one, contracts, minConsumers);
    }
  }

  /** Step 6 returns the fleet as it is, with the pair as an atomic component. */
  lemma StageReport(cfg: Config, minConsumers: nat)
    requires Ordinary(cfg)
    ensures
      var r := Break(cfg, REPOS, Rows(), map[], minConsumers);
      && r.Ok? && r.value.fleet == Stage() && r.value.resolutions != []
      && forall x :: x in r.value.resolutions ==> IsAtomicPair(x)
  {
    StageIsOk(cfg);
    StageComponents(cfg);
    assert Precommitted(map[]) == map[] && REPOS + Refs(map[]) == REPOS;
    assert Opening(cfg, REPOS, Rows(), map[]) == Stage();
    PairIds();
    PairStaysAtomic(cfg, minConsumers);
    var one := Resolve(cfg, Stage(), PAIR, map[], minConsumers).value;
    AllAlike(cfg, Report(Stage(), [], []), NontrivialSccs(REPOS, DagArcs(cfg, Rows())), PAIR, one, map[], minConsumers);
  }

  // ---------------------------------------------------------------------------------------
  // Step 7 on it
  // ---------------------------------------------------------------------------------------

  lemma StageIsSequenceable(cfg: Config, minConsumers: nat)
    requires Ordinary(cfg) && Break(cfg, REPOS, Rows(), map[], minConsumers).Ok?
    ensures
      var r := Break(cfg, REPOS, Rows(), map[], minConsumers).value;
      Sequenceable(cfg, r) && AtomicMembersPresent(r)
  {
    StageIsOk(cfg);
    var opening, r := BreakFinishes(cfg, REPOS, Rows(), map[], minConsumers);
    FinishedIsSequenceable(cfg, opening, r);
  }

  lemma StageHomes(r: Report)
    requires r.resolutions != [] && forall x :: x in r.resolutions ==> IsAtomicPair(x)
    ensures HomeOf(r.resolutions, A) == Scc(IDS) && HomeOf(r.resolutions, B) == Scc(IDS)
    ensures HomeOf(r.resolutions, X) == Plain(X) && ManualMembers(r.resolutions) == {}
  {
    assert r.resolutions[0] in r.resolutions;
    AtomicHomeExact(r.resolutions, "a");
    AtomicHomeExact(r.resolutions, "b");
    AtomicHomeExact(r.resolutions, "x");
  }

  /** With `a` gated none of its rows is left, and the component is kept for `b`. */
  lemma OneGatedCondensed(cfg: Config, r: Report)
    requires Ordinary(cfg) && r.fleet == Stage() && r.resolutions != []
    requires forall x :: x in r.resolutions ==> IsAtomicPair(x)
    ensures
      var c := CondenseFor(cfg, r, {"a"});
      c.arcs == {} && Scc(IDS) in c.nodes && Plain(X) in c.nodes
  {
    StageHomes(r);
    StageArcs(cfg);
    assert B in r.fleet.nodes && X in r.fleet.nodes;
  }

  /** Without arcs every node lands in the first wave. */
  lemma FlatIndex(nodes: set<OrderNode>, layered: Waves<OrderNode>, index: map<NodeRef, nat>,
      o: OrderNode, p: OrderNode, m: NodeRef, n: NodeRef)
    requires Layering(nodes, {}, layered) && Indexes(nodes, layered, index)
    requires o in nodes && p in nodes && m in Residents(o) && n in Residents(p)
    ensures m in index && n in index && index[m] == index[n]
  {
    assert IsLayer({}, layered, o) && IsLayer({}, layered, p);
  }

  lemma OneGatedIndex(cfg: Config, r: Report, layered: Waves<OrderNode>, plan: WavePlan)
    requires Ordinary(cfg) && r.fleet == Stage() && r.resolutions != []
    requires forall x :: x in r.resolutions ==> IsAtomicPair(x)
    requires PlanFor(cfg, r, {"a"}, layered, plan)
    ensures A in plan.index && X in plan.index && plan.index[A] == plan.index[X]
  {
    StageHomes(r);
    OneGatedCondensed(cfg, r);
    assert plan.excluded == {"a"};
    FlatIndex(CondenseFor(cfg, r, {"a"}).nodes, layered, plan.index, Scc(IDS), Plain(X), A, X);
  }

  /** Steps 6 and 7 with `a` gated: `a` still migrates, in the wave of `x`, which it requires. */
  method GateOneMember(cfg: Config, minConsumers: nat) returns (r: Result<Report>, plan: Result<WavePlan>)
    requires Ordinary(cfg)
    ensures r == Break(cfg, REPOS, Rows(), map[], minConsumers) && r.Ok? && plan.Ok?
    ensures Arc(A, X) in Arcs(cfg, r.value.fleet) && HomeOf(r.value.resolutions, A) != HomeOf(r.value.resolutions, X)
    ensures A in plan.value.index && X in plan.value.index && plan.value.index[A] == plan.value.index[X]
  {
    r := BreakCycles(cfg, REPOS, Rows(), map[], minConsumers);
    StageReport(cfg, minConsumers);
    StageIsSequenceable(cfg, minConsumers);
    StageHomes(r.value);
    StageArcs(cfg);
    OneGatedCondensed(cfg, r.value);
    assert {"a"} + ManualMembers(r.value.resolutions) == {"a"};
    ghost var layered;
    plan, layered := AssignWaves(cfg, r.value, {"a"});
    EmptyIsAcyclic<OrderNode>();
    PairIsReportable(r.value);
    OneGatedIndex(cfg, r.value, layered, plan.value);
  }

  lemma EmptyIsAcyclic<T(!new)>()
    ensures Acyclic<T>({})
  {
  }

  lemma PairIsReportable(r: Report)
    requires forall x :: x in r.resolutions ==> IsAtomicPair(x)
    ensures forall x :: x in r.resolutions ==> Reportable(x, {"a"})
  {
    PairIds();
    assert "b" in IDS && "b" !in {"a"};
  }

  /** Steps 6 and 7 with both gated: sequencing fails, although the graph it is given is acyclic. */
  method GateBothMembers(cfg: Config, minConsumers: nat) returns (r: Result<Report>, plan: Result<WavePlan>)
    requires Ordinary(cfg)
    ensures r == Break(cfg, REPOS, Rows(), map[], minConsumers) && r.Ok?
    ensures Acyclic(CondenseFor(cfg, r.value, IDS).arcs) && plan == Err(InvalidFinding)
  {
    r := BreakCycles(cfg, REPOS, Rows(), map[], minConsumers);
    StageReport(cfg, minConsumers);
    StageIsSequenceable(cfg, minConsumers);
    StageHomes(r.value);
    StageIsOk(cfg);
    SinksSuffice(cfg, REPOS, Rows(), map[], minConsumers, IDS);
    assert IDS + ManualMembers(r.value.resolutions) == IDS;
    ghost var layered;
    plan, layered := AssignWaves(cfg, r.value, IDS);
    assert r.value.resolutions[0] in r.value.resolutions;
  }
}
