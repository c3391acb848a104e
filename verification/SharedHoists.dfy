/**
 A contract's evidence may lie in repositories of several components.  Hoisting it for one of them
 then dissolves the others as well, and step 6 raises when their turn comes: the error that
 `_resolve_scc` marks as unreachable (`graph/cycles.py`).
 */
module SharedHoists {
  import opened Options
  import opened Digraph
  import opened NodeOrder
  import opened FleetModel
  import opened Materialize
  import opened Components
  import opened Cycles
  import opened FleetSteps
  import opened HoistTheorems
  import opened CycleTheorems

  // ---------------------------------------------------------------------------------------
  // When a trial builds, and when one hoist is all it takes
  // ---------------------------------------------------------------------------------------

  /** Every repository that inference draws an edge of this contract from is in the fleet. */
  ghost predicate KnownSources(f: Fleet, c: ContractNode)
  {
    forall e :: e in InferredFor(c) ==> e.key.src in f.nodes
  }

  ghost predicate Known(f: Fleet, cs: Contracts)
  {
    forall id :: id in cs ==> cs[id].id == id && KnownSources(f, cs[id])
  }

  lemma InferredIsKnown(f: Fleet, cs: Contracts, e: Edge)
    requires Known(f, cs) && e in Inferred(cs)
    ensures e.key.src in f.nodes && e.dst in Refs(cs)
  {
    var id :| id in cs && e in InferredFor(cs[id]);
    assert KnownSources(f, cs[id]);
    assert e.dst == ContractRef(cs[id]);
  }

  /** An inferred edge from outside the fleet dangles, or the row already under its key does. */
  lemma UnknownDangles(cfg: Config, f: Fleet, cs: Contracts, id: string, e: Edge)
    requires FleetOk(cfg, f) && id in cs && e in InferredFor(cs[id]) && e.key.src !in f.nodes
    ensures TrialFails(cfg, f, cs)
  {
    var t := Trial(cfg, f, cs);
    assert e in Inferred(cs);
    InferredIsContractEdge(cs, e);
    assert e.key in InferredKeys(cs) && e.key in t.edges;
    MaterializedOk(cfg, f.edges, cs);
    assert t.edges[e.key].key == e.key;
    assert Dangling(t.nodes, t.edges[e.key]);
  }

  /** Materializing contracts leaves nothing dangling exactly when their sources are known. */
  lemma TrialBuilds(cfg: Config, f: Fleet, cs: Contracts)
    requires FleetOk(cfg, f) && Scorable(cs)
    ensures !TrialFails(cfg, f, cs) <==> Known(f, cs)
  {
    var t := Trial(cfg, f, cs);
    if Known(f, cs) && cs != map[] {
      forall k | k in t.edges
        ensures !Dangling(t.nodes, t.edges[k])
      {
        TrialRowHolds(cfg, f, cs, k);
      }
    }
    if !Known(f, cs) {
      var id :| id in cs && !KnownSources(f, cs[id]);
      var e :| e in InferredFor(cs[id]) && e.key.src !in f.nodes;
      UnknownDangles(cfg, f, cs, id, e);
    }
  }

  /** The contracts step 6 may materialize: hoisted before, or candidates wherever they are owned. */
  predicate MayHoist(cfg: Config, c: ContractNode)
  {
    || c.status in {Hoisted, Migrated}
    || (cfg.hoistContracts && c.owner.Some? && c.extractable && c.status == Extractable
        && c.confidence >= cfg.minExtraction && c.id !in cfg.forbidden)
  }

  function Usable(cfg: Config, contracts: Contracts): Contracts
  {
    map id | id in contracts && MayHoist(cfg, contracts[id]) :: contracts[id]
  }

  lemma CandidatesAreUsable(cfg: Config, f: Fleet, contracts: Contracts, members: set<string>)
    requires cfg.hoistContracts
    ensures SubContracts(Candidates(cfg, f, contracts, members), Usable(cfg, contracts))
  {
  }

  lemma KnownInLater(f: Fleet, g: Fleet, cs: Contracts, some: Contracts)
    requires Known(f, cs) && SubContracts(some, cs)
    requires forall n: NodeRef :: n.kind.Repo? && n in f.nodes ==> n in g.nodes
    ensures Known(g, some)
  {
    forall id | id in some
      ensures some[id].id == id && KnownSources(g, some[id])
    {
      assert cs[id] == some[id] && KnownSources(f, cs[id]);
      forall e | e in InferredFor(some[id])
        ensures e.key.src in g.nodes
      {
        assert e.key.src.kind.Repo?;
      }
    }
  }

  lemma TrialRowHolds(cfg: Config, f: Fleet, cs: Contracts, k: EdgeKey)
    requires FleetOk(cfg, f) && Known(f, cs) && Scorable(cs) && cs != map[] && k in Trial(cfg, f, cs).edges
    ensures !Dangling(Trial(cfg, f, cs).nodes, Trial(cfg, f, cs).edges[k])
  {
    var row := Materialized(cfg, f.edges, cs)[k];
    var j := MaterializedRow(cfg, f.edges, cs, k);
    if k in AfterKeys(cs, f.edges) {
      assert !Dangling(f.nodes, f.edges[j]) && RowOk(f.edges[j]);
      AfterFacts(cs, f.edges[j]);
      if Claimed(cs, f.edges[j]) {
        assert row.dst == ContractRef(cs[row.key.dstRef]);
      }
    } else {
      InferredIsKnown(f, cs, row);
    }
  }

  /** With one contract left that keeps its consumers, a turn commits it. */
  lemma OnlyOneIsPicked(cfg: Config, f: Fleet, members: set<string>, minConsumers: nat, c: ContractNode)
    requires Injective(cfg) && c.owner.Some? && |Consumers(Trial(cfg, f, One(c)).edges, c.id)| >= minConsumers
    ensures Scorable(One(c)) && One(c) != map[]
    ensures HoistTurn(cfg, Hoisting(f, One(c), [], []), members, minConsumers) ==
        Commit(cfg, Hoisting(f, One(c), [], []), c.id)
  {
    assert One(c).Keys == {c.id};
    var id := Pick(cfg, f, Live(cfg, f, members), One(c));
    assert id == c.id && One(c)[c.id] == c;
  }

  lemma LoopStops(cfg: Config, h: Hoisting, members: set<string>, minConsumers: nat)
    requires Injective(cfg) && Scorable(h.remaining) && Live(cfg, h.fleet, members) == {}
    ensures HoistLoop(cfg, h, members, minConsumers) == Ok(h)
  {
  }

  lemma LoopTurns(cfg: Config, h: Hoisting, members: set<string>, minConsumers: nat)
    requires Injective(cfg) && Scorable(h.remaining) && Live(cfg, h.fleet, members) != {} && h.remaining != map[]
    requires |h.hoisted| < cfg.maxHoists && !AnyTrialFails(cfg, h)
    ensures Scorable(HoistTurn(cfg, h, members, minConsumers).remaining)
    ensures HoistLoop(cfg, h, members, minConsumers)
         == HoistLoop(cfg, HoistTurn(cfg, h, members, minConsumers), members, minConsumers)
  {
    HoistTurnShrinks(cfg, h, members, minConsumers);
  }

  /** If that dissolves the component the loop ends there. */
  lemma OneTurnSuffices(cfg: Config, f: Fleet, members: set<string>, minConsumers: nat, c: ContractNode)
    requires Injective(cfg) && c.owner.Some? && cfg.maxHoists >= 1 && !TrialFails(cfg, f, One(c))
    requires Live(cfg, f, members) != {} && Live(cfg, Trial(cfg, f, One(c)), members) == {}
    requires |Consumers(Trial(cfg, f, One(c)).edges, c.id)| >= minConsumers
    ensures Scorable(One(c))
    ensures HoistLoop(cfg, Hoisting(f, One(c), [], []), members, minConsumers) ==
        Ok(Commit(cfg, Hoisting(f, One(c), [], []), c.id))
  {
    var h := Hoisting(f, One(c), [], []);
    OnlyOneIsPicked(cfg, f, members, minConsumers, c);
    assert !AnyTrialFails(cfg, h);
    LoopTurns(cfg, h, members, minConsumers);
    var t := Commit(cfg, h, c.id);
    SameLive(cfg, Trial(cfg, f, One(c)), t.fleet, members);
    LoopStops(cfg, t, members, minConsumers);
  }

  /** With one such candidate, hoisting commits it. */
  lemma OneHoistCommits(cfg: Config, f: Fleet, contracts: Contracts, members: set<string>, minConsumers: nat,
      c: ContractNode)
    requires Injective(cfg) && ContractsOk(contracts) && cfg.maxHoists >= 1
    requires Candidates(cfg, f, contracts, members) == One(c) && !TrialFails(cfg, f, One(c))
    requires Live(cfg, f, members) != {} && Live(cfg, Trial(cfg, f, One(c)), members) == {}
    requires |Consumers(Trial(cfg, f, One(c)).edges, c.id)| >= minConsumers
    ensures Scorable(One(c))
    ensures Hoist(cfg, f, contracts, members, minConsumers) == Ok(Commit(cfg, Hoisting(f, One(c), [], []), c.id))
  {
    CandidatesScorable(cfg, f, contracts, members);
    assert One(c)[c.id] == c;
    OneTurnSuffices(cfg, f, members, minConsumers, c);
  }

  lemma HoistOkWhenDissolved(cfg: Config, f: Fleet, contracts: Contracts, members: set<string>, minConsumers: nat)
    requires Injective(cfg) && ContractsOk(contracts) && Live(cfg, f, members) == {}
    requires cfg.hoistContracts ==> !TrialFails(cfg, f, Candidates(cfg, f, contracts, members))
    ensures AfterHoist(cfg, f, contracts, members, minConsumers).Ok?
  {
    CandidatesScorable(cfg, f, contracts, members);
  }

  // ---------------------------------------------------------------------------------------
  // Two components, one hoist
  // ---------------------------------------------------------------------------------------

  /** `c` is the only candidate for `members` and hoisting it dissolves them. */
  ghost predicate Settles(cfg: Config, f: Fleet, contracts: Contracts, members: set<string>, minConsumers: nat,
      c: ContractNode)
    requires Injective(cfg)
  {
    && 2 <= |members| <= cfg.hardMax
    && Candidates(cfg, f, contracts, members) == One(c) && c.id in contracts && contracts[c.id] == c
    && Live(cfg, f, members) != {} && Live(cfg, Trial(cfg, f, One(c)), members) == {}
    && |Consumers(Trial(cfg, f, One(c)).edges, c.id)| >= minConsumers
  }

  lemma SettlingBuilds(cfg: Config, f: Fleet, contracts: Contracts, members: set<string>, minConsumers: nat,
      c: ContractNode)
    requires FleetOk(cfg, f) && ContractsOk(contracts) && Known(f, Usable(cfg, contracts)) && cfg.hoistContracts
    requires Settles(cfg, f, contracts, members, minConsumers, c)
    ensures !TrialFails(cfg, f, One(c))
  {
    CandidatesScorable(cfg, f, contracts, members);
    assert One(c)[c.id] == c;
    CandidatesAreUsable(cfg, f, contracts, members);
    KnownInLater(f, f, Usable(cfg, contracts), One(c));
    TrialBuilds(cfg, f, One(c));
  }

  lemma FirstIsHoisted(cfg: Config, f: Fleet, component: set<NodeRef>, contracts: Contracts, minConsumers: nat,
      c: ContractNode)
    returns (g: Fleet)
    requires FleetOk(cfg, f) && ContractsOk(contracts) && Known(f, Usable(cfg, contracts)) && cfg.hoistContracts &&
        cfg.maxHoists >= 1
    requires Settles(cfg, f, contracts, MemberIds(component), minConsumers, c)
    ensures
      var r := Resolve(cfg, f, component, contracts, minConsumers);
      r.Ok? && r.value.fleet == g
    ensures FleetOk(cfg, g) && f.nodes <= g.nodes
    ensures g.nodes == Trial(cfg, f, One(c)).nodes && g.edges == Trial(cfg, f, One(c)).edges
  {
    CandidatesScorable(cfg, f, contracts, MemberIds(component));
    SettlingBuilds(cfg, f, contracts, MemberIds(component), minConsumers, c);
    OneHoistCommits(cfg, f, contracts, MemberIds(component), minConsumers, c);
    var h := Commit(cfg, Hoisting(f, One(c), [], []), c.id);
    assert h.hoisted == [c.id];
    g := h.fleet;
    assert Live(cfg, g, MemberIds(component)) == Live(cfg, Trial(cfg, f, One(c)), MemberIds(component));
    TrialWithin(cfg, f, One(c));
  }

  lemma DissolvedRaises(cfg: Config, f: Fleet, component: set<NodeRef>, contracts: Contracts, minConsumers: nat)
    requires FleetOk(cfg, f) && ContractsOk(contracts) && Known(f, Usable(cfg, contracts))
    requires |MemberIds(component)| <= cfg.hardMax && Live(cfg, f, MemberIds(component)) == {}
    ensures Resolve(cfg, f, component, contracts, minConsumers) == Err(DissolvedUnexplained)
  {
    var members := MemberIds(component);
    CandidatesScorable(cfg, f, contracts, members);
    if cfg.hoistContracts {
      CandidatesAreUsable(cfg, f, contracts, members);
      KnownInLater(f, f, Usable(cfg, contracts), Candidates(cfg, f, contracts, members));
      TrialBuilds(cfg, f, Candidates(cfg, f, contracts, members));
    }
    HoistOkWhenDissolved(cfg, f, contracts, members, minConsumers);
    RaisesExactlyWhenDissolved(cfg, f, component, contracts, minConsumers);
  }

  /** A hoist that settles the first component and dissolves the second makes step 6 raise. */
  lemma SharedHoistRaises(cfg: Config, r: Report, components: seq<set<NodeRef>>, contracts: Contracts,
      minConsumers: nat, c: ContractNode)
    requires FleetOk(cfg, r.fleet) && ContractsOk(contracts) && Known(r.fleet, Usable(cfg, contracts))
    requires cfg.hoistContracts && cfg.maxHoists >= 1 && |components| >= 2
    requires Settles(cfg, r.fleet, contracts, MemberIds(components[0]), minConsumers, c)
    requires 2 <= |MemberIds(components[1])| <= cfg.hardMax
    requires Live(cfg, Trial(cfg, r.fleet, One(c)), MemberIds(components[1])) == {}
    ensures ResolveAll(cfg, r, components, contracts, minConsumers) == Err(DissolvedUnexplained)
  {
    var g := FirstIsHoisted(cfg, r.fleet, components[0], contracts, minConsumers, c);
    SameLive(cfg, Trial(cfg, r.fleet, One(c)), g, MemberIds(components[1]));
    KnownInLater(r.fleet, g, Usable(cfg, contracts), Usable(cfg, contracts));
    DissolvedRaises(cfg, g, components[1], contracts, minConsumers);
    RaisePropagates(cfg, r, components, g, contracts, minConsumers);
  }

  lemma SameLive(cfg: Config, f: Fleet, g: Fleet, members: set<string>)
    requires f.nodes == g.nodes && f.edges == g.edges
    ensures Live(cfg, f, members) == Live(cfg, g, members)
  {
  }

  lemma RaisePropagates(cfg: Config, r: Report, components: seq<set<NodeRef>>, g: Fleet, contracts: Contracts,
      minConsumers: nat)
    requires Injective(cfg) && ContractsOk(contracts) && |components| >= 2
    requires |MemberIds(components[0])| >= 2 && |MemberIds(components[1])| >= 2
    requires
      var one := Resolve(cfg, r.fleet, components[0], contracts, minConsumers);
      one.Ok? && one.value.fleet == g
    requires Resolve(cfg, g, components[1], contracts, minConsumers).Err?
    ensures ResolveAll(cfg, r, components, contracts, minConsumers)
         == Err(Resolve(cfg, g, components[1], contracts, minConsumers).error)
  {
    var rest := components[1..];
    assert rest[0] == components[1];
    var next := WithResolved(r, Resolve(cfg, r.fleet, components[0], contracts, minConsumers).value);
    ResolveAllUnfolds(cfg, r, components, contracts, minConsumers);
    ResolveAllUnfolds(cfg, next, rest, contracts, minConsumers);
  }

  // ---------------------------------------------------------------------------------------
  // Such a fleet
  // ---------------------------------------------------------------------------------------

  const A := Node(Repo, "a")
  const B := Node(Repo, "b")
  const C := Node(Repo, "c")
  const D := Node(Repo, "d")
  const REPOS := {A, B, C, D}

  function Row(src: NodeRef, dst: NodeRef, path: string): Edge
  {
    Edge(EdgeKey(src, Repo, dst.id, DeclaredDep, path, 1), dst, 1.0, false, false, None)
  }

  /** `a` and `b` require each other, and so do `c` and `d`; `b` and `d` do so through `api.proto`. */
  function Rows(): Edges
  {
    var ab, ba, cd, dc := Row(A, B, "go.mod"), Row(B, A, "api.proto"), Row(C, D, "go.mod"), Row(D, C, "api.proto");
    map[ab.key := ab, ba.key := ba, cd.key := cd, dc.key := dc]
  }

  /** A contract with evidence in `b` and in `d`. */
  function Api(owner: string, id: string): ContractNode
  {
    var evidence := [PathEntry("b", "api.proto"), PathEntry("d", "api.proto")];
    ContractNode(id, Some(owner), evidence, [], [], true, 1.0, Extractable, "")
  }

  function Apis(): Contracts { map["p" := Api("a", "p"), "q" := Api("c", "q")] }

  function Stage(): Fleet { Fleet(REPOS, Rows(), map[]) }

  ghost predicate Permits(cfg: Config)
  {
    && Injective(cfg) && DeclaredDep in cfg.kinds && CONTRACT_KINDS <= cfg.kinds && cfg.minConfidence <= 1.0
    && cfg.hoistContracts && cfg.maxHoists >= 1 && cfg.minExtraction <= 1.0 && cfg.hardMax >= 2 && cfg.forbidden == {}
  }

  lemma StageIsOk(cfg: Config)
    requires Permits(cfg)
    ensures FleetOk(cfg, Stage())
  {
  }

  lemma ApisAreOk(cfg: Config)
    ensures ContractsOk(Apis()) && Known(Stage(), Usable(cfg, Apis())) && Precommitted(Apis()) == map[]
  {
    assert Precommitted(Apis()) == map[];
  }

  lemma StageOpens(cfg: Config, minConsumers: nat)
    requires Permits(cfg) && ContractsOk(Apis())
    ensures Break(cfg, REPOS, Rows(), Apis(), minConsumers)
         == ResolveAll(cfg, Report(Stage(), [], []), NontrivialSccs(REPOS, DagArcs(cfg, Rows())), Apis(), minConsumers)
  {
    StageIsOk(cfg);
    ApisAreOk(cfg);
    assert REPOS + Refs(map[]) == REPOS;
    assert Opening(cfg, REPOS, Rows(), Apis()) == Stage();
  }

  lemma StageArcs(cfg: Config)
    requires Permits(cfg)
    ensures DagArcs(cfg, Rows()) == {Arc(A, B), Arc(B, A), Arc(C, D), Arc(D, C)}
  {
    var rows := Rows();
    ArcOfRow(cfg, rows, Row(A, B, "go.mod").key);
    ArcOfRow(cfg, rows, Row(B, A, "api.proto").key);
    ArcOfRow(cfg, rows, Row(C, D, "go.mod").key);
    ArcOfRow(cfg, rows, Row(D, C, "api.proto").key);
  }

  predicate IsPair(s: set<NodeRef>) { s == {A, B} || s == {C, D} }

  lemma StageMutual(cfg: Config)
    requires Permits(cfg)
    ensures Mutual(DagArcs(cfg, Rows()), A, B) && Mutual(DagArcs(cfg, Rows()), C, D)
  {
    var arcs := DagArcs(cfg, Rows());
    StageArcs(cfg);
    ReachesArc(arcs, A, B);
    ReachesArc(arcs, B, A);
    ReachesArc(arcs, C, D);
    ReachesArc(arcs, D, C);
  }

  lemma PairIsClosed(cfg: Config, pair: set<NodeRef>, u: NodeRef, v: NodeRef)
    requires Permits(cfg) && IsPair(pair) && u in pair && Reaches(DagArcs(cfg, Rows()), u, v)
    ensures v in pair
  {
    var arcs := DagArcs(cfg, Rows());
    StageArcs(cfg);
    var n: nat :| ReachesIn(arcs, u, v, n);
    ClosedSetKeeps(arcs, pair, u, v, n);
  }

  /** The components are the two pairs. */
  lemma StageComponents(cfg: Config, pair: set<NodeRef>, u: NodeRef)
    requires Permits(cfg) && IsPair(pair) && u in pair
    ensures Component(REPOS, DagArcs(cfg, Rows()), u) == pair
  {
    var arcs := DagArcs(cfg, Rows());
    var c := Component(REPOS, arcs, u);
    StageMutual(cfg);
    forall v | v in c
      ensures v in pair
    {
      PairIsClosed(cfg, pair, u, v);
    }
    forall v | v in pair
      ensures v in c
    {
      ReachesRefl(arcs, u);
    }
  }

  lemma ListedIsPair(cfg: Config, c: set<NodeRef>)
    requires Permits(cfg) && c in NontrivialSccs(REPOS, DagArcs(cfg, Rows()))
    ensures IsPair(c)
  {
    var arcs := DagArcs(cfg, Rows());
    NontrivialSccsExact(REPOS, arcs, c);
    var u :| u in REPOS && c == Component(REPOS, arcs, u);
    if u in {A, B} {
      StageComponents(cfg, {A, B}, u);
    } else {
      StageComponents(cfg, {C, D}, u);
    }
  }

  lemma PairIsListed(cfg: Config, pair: set<NodeRef>, u: NodeRef, v: NodeRef)
    requires Permits(cfg) && IsPair(pair) && u in pair && v in pair && u != v
    ensures pair in NontrivialSccs(REPOS, DagArcs(cfg, Rows()))
  {
    StageComponents(cfg, pair, u);
    TwoMembers(pair, u, v);
    NontrivialSccsExact(REPOS, DagArcs(cfg, Rows()), pair);
  }

  // ---------------------------------------------------------------------------------------
  // Either contract dissolves both pairs
  // ---------------------------------------------------------------------------------------

  predicate IsApi(c: ContractNode) { c == Api("a", "p") || c == Api("c", "q") }

  lemma ApiClaims(c: ContractNode, e: Edge)
    requires IsApi(c) && e.key in Rows() && e == Rows()[e.key]
    ensures Claimed(One(c), e) <==> e.key.path == "api.proto"
  {
    var p := Evidence(e);
    assert Claims(c, p) ==> c.id in Claimants(One(c), p);
    if e.key.path == "api.proto" {
      assert p == PathEntry("b", "api.proto") || p == PathEntry("d", "api.proto");
      assert p in c.sources;
    }
  }

  lemma UnclaimedRows(cfg: Config, c: ContractNode, a: Arc<NodeRef>)
    requires Permits(cfg) && IsApi(c) && a in UnclaimedArcs(cfg, Rows(), One(c))
    ensures a == Arc(A, B) || a == Arc(C, D)
  {
    var k :| k in Rows() && !Claimed(One(c), Rows()[k]) && ArcOf(Rows()[k]) == a;
    ApiClaims(c, Rows()[k]);
  }

  lemma ApiDissolves(cfg: Config, c: ContractNode, members: set<string>)
    requires Permits(cfg) && IsApi(c)
    ensures Live(cfg, Trial(cfg, Stage(), One(c)), members) == {}
  {
    var arcs := UnclaimedArcs(cfg, Rows(), One(c));
    StageIsOk(cfg);
    ReposOfTrial(cfg, Stage(), One(c), members);
    if LiveComponent(REPOS, arcs, members) != {} {
      var u, v := LiveHasTangle(REPOS, arcs, members);
      NoWayBack(cfg, c, u, v);
    }
  }

  lemma NoWayBack(cfg: Config, c: ContractNode, u: NodeRef, v: NodeRef)
    requires Permits(cfg) && IsApi(c) && u != v
    ensures !Mutual(UnclaimedArcs(cfg, Rows(), One(c)), u, v)
  {
    var arcs := UnclaimedArcs(cfg, Rows(), One(c));
    forall m: nat, n: nat | ReachesIn(arcs, u, v, m)
      ensures !ReachesIn(arcs, v, u, n)
    {
      if ReachesIn(arcs, v, u, n) && n > 0 {
        var w := ReachesInLast(arcs, u, v, m);
        UnclaimedRows(cfg, c, Arc(w, v));
        var x :| Arc(v, x) in arcs && ReachesIn(arcs, x, u, n - 1);
        UnclaimedRows(cfg, c, Arc(v, x));
      }
    }
  }

  lemma ApiIsConsumed(cfg: Config, c: ContractNode)
    requires Permits(cfg) && IsApi(c)
    ensures |Consumers(Trial(cfg, Stage(), One(c)).edges, c.id)| >= 2
  {
    var consumers := Consumers(Trial(cfg, Stage(), One(c)).edges, c.id);
    RowIsConsumed(cfg, c, Row(B, A, "api.proto"));
    RowIsConsumed(cfg, c, Row(D, C, "api.proto"));
    TwoMembers(consumers, "b", "d");
  }

  lemma RowIsConsumed(cfg: Config, c: ContractNode, e: Edge)
    requires Permits(cfg) && IsApi(c) && e.key in Rows() && e == Rows()[e.key] && e.key.path == "api.proto"
    ensures e.key.src.id in Consumers(Trial(cfg, Stage(), One(c)).edges, c.id)
  {
    var out := Materialized(cfg, Rows(), One(c));
    StageIsOk(cfg);
    ApiClaims(c, e);
    MaterializedKeepsEvidence(cfg, Rows(), One(c), e.key);
    MaterializedOk(cfg, Rows(), One(c));
    var k := After(One(c), e).key;
    assert k in out && out[k].key == k && RowOk(out[k]);
  }

  function OwnApi(pair: set<NodeRef>): ContractNode { if pair == {A, B} then Api("a", "p") else Api("c", "q") }

  lemma PairIds(pair: set<NodeRef>)
    requires IsPair(pair)
    ensures MemberIds(pair) == if pair == {A, B} then {"a", "b"} else {"c", "d"}
    ensures |MemberIds(pair)| == 2
  {
    assert A !in {C, D};
    assert MemberIds({A, B}) == {"a", "b"} && MemberIds({C, D}) == {"c", "d"};
  }

  lemma PairCandidate(cfg: Config, pair: set<NodeRef>)
    requires Permits(cfg) && IsPair(pair)
    ensures Candidates(cfg, Stage(), Apis(), MemberIds(pair)) == One(OwnApi(pair))
  {
    PairIds(pair);
    var cs := Candidates(cfg, Stage(), Apis(), MemberIds(pair));
    assert "c" !in {"a", "b"} && "a" !in {"c", "d"};
    assert cs.Keys == One(OwnApi(pair)).Keys;
  }

  lemma PairIsSettled(cfg: Config, pair: set<NodeRef>, minConsumers: nat)
    requires Permits(cfg) && IsPair(pair) && minConsumers <= 2
    ensures Settles(cfg, Stage(), Apis(), MemberIds(pair), minConsumers, OwnApi(pair))
  {
    var c, members := OwnApi(pair), MemberIds(pair);
    PairIds(pair);
    PairCandidate(cfg, pair);
    StageMutual(cfg);
    var u, v := if pair == {A, B} then A else C, if pair == {A, B} then B else D;
    TangleIsLive(REPOS, DagArcs(cfg, Rows()), members, u, v);
    ApiDissolves(cfg, c, members);
    ApiIsConsumed(cfg, c);
  }

  /** On this fleet step 6 raises, whatever the order of the components and the key digests. */
  lemma StepSixCanRaise(cfg: Config, minConsumers: nat)
    requires Permits(cfg) && minConsumers <= 2
    ensures ContractsOk(Apis()) && RowsOk(Rows())
    ensures Break(cfg, REPOS, Rows(), Apis(), minConsumers) == Err(DissolvedUnexplained)
  {
    var components := NontrivialSccs(REPOS, DagArcs(cfg, Rows()));
    StageIsOk(cfg);
    ApisAreOk(cfg);
    StageOpens(cfg, minConsumers);
    BothPairsListed(cfg, components);
    var c := OwnApi(components[0]);
    PairIsSettled(cfg, components[0], minConsumers);
    PairIds(components[1]);
    ApiDissolves(cfg, c, MemberIds(components[1]));
    SharedHoistRaises(cfg, Report(Stage(), [], []), components, Apis(), minConsumers, c);
  }

  lemma BothPairsListed(cfg: Config, components: seq<set<NodeRef>>)
    requires Permits(cfg) && components == NontrivialSccs(REPOS, DagArcs(cfg, Rows()))
    ensures |components| >= 2 && IsPair(components[0]) && IsPair(components[1])
  {
    PairIsListed(cfg, {A, B}, A, B);
    PairIsListed(cfg, {C, D}, C, D);
    assert A !in {C, D};
    var i :| 0 <= i < |components| && components[i] == {A, B};
    var j :| 0 <= j < |components| && components[j] == {C, D};
    ListedIsPair(cfg, components[0]);
    ListedIsPair(cfg, components[1]);
  }
}
