/**
 Step 6 of sequencing (`graph/cycles.py`): rank feedback edges, hoist contracts, break edges,
 fall back to an atomic wave or to manual intervention.

 Functions give each rung's meaning, and the program's loops are methods proved against them.
 What the whole ladder guarantees is in `CycleTheorems` and `Acyclicity`.
 */
module Cycles {
  import opened Options
  import opened Digraph
  import opened NodeOrder
  import opened DfsClasses
  import opened FleetModel
  import opened Materialize
  import opened Components

  /** The state threaded through the ladder; its graph is always the one rebuilt from it. */
  datatype Fleet = Fleet(nodes: set<NodeRef>, edges: Edges, committed: Contracts)

  ghost predicate FleetOk(cfg: Config, f: Fleet)
  {
    Injective(cfg) && RowsOk(f.edges) && Rebuild(f.nodes, f.edges, cfg).Ok?
  }

  function Arcs(cfg: Config, f: Fleet): Dag<NodeRef> { DagArcs(cfg, f.edges) }

  function Live(cfg: Config, f: Fleet, members: set<string>): set<NodeRef>
  {
    LiveComponent(f.nodes, Arcs(cfg, f), members)
  }

  // ---------------------------------------------------------------------------------------
  // 6b, 6c: feedback edges and their cost
  // ---------------------------------------------------------------------------------------

  function KeysOn(cfg: Config, edges: Edges, arcs: Dag<NodeRef>): set<EdgeKey>
  {
    set k | k in OrderingKeys(cfg, edges) && ArcOf(edges[k]) in arcs
  }

  function BackArcs(dag: Dag<NodeRef>, inside: set<NodeRef>): Dag<NodeRef>
  {
    var classes := Classify(dag, inside);
    set a | a in classes && classes[a] == Back
  }

  function FeedbackKeys(cfg: Config, f: Fleet, inside: set<NodeRef>): set<EdgeKey>
  {
    KeysOn(cfg, f.edges, BackArcs(Arcs(cfg, f), inside))
  }

  function Reverse(arcs: Dag<NodeRef>): Dag<NodeRef> { set a | a in arcs :: Arc(a.dst, a.src) }

  function Descendants(arcs: Dag<NodeRef>, n: NodeRef): set<NodeRef> { ReachSet(arcs, n) - {n} }

  /** Everything that transitively requires `n`: the descendants of `n` in the reversed graph. */
  function Dependents(f: Fleet, n: NodeRef): set<NodeRef>
  {
    if n in f.nodes then Descendants(Reverse(ArcsBehind(f.edges, f.edges.Keys)), n) else {}
  }

  function KindRank(k: EdgeKind): nat
  {
    match k
    case DynamicRef => 0
    case ApiContract => 1
    case InternalImport => 2
    case PublishedArtifact => 3
    case DeclaredDep => 4
    case ContractConsume => 5
    case ContractImpl => 6
    case SharedResource => 7
  }

  datatype Cost = Cost(confidence: real, rank: nat, dependents: nat, certain: nat, digest: nat)

  function BreakCost(cfg: Config, f: Fleet, k: EdgeKey): Cost
    requires k in f.edges
  {
    var e := f.edges[k];
    Cost(e.confidence, KindRank(k.kind), |Dependents(f, e.dst)|, if e.ambiguous then 0 else 1, cfg.digest(k))
  }

  predicate CostLe(a: Cost, b: Cost)
  {
    if a.confidence != b.confidence then a.confidence < b.confidence
    else if a.rank != b.rank then a.rank < b.rank
    else if a.dependents != b.dependents then a.dependents < b.dependents
    else if a.certain != b.certain then a.certain < b.certain
    else a.digest <= b.digest
  }

  predicate IsCheapest(cfg: Config, f: Fleet, k: EdgeKey, keys: set<EdgeKey>)
    requires keys <= f.edges.Keys
  {
    k in keys && forall j :: j in keys ==> CostLe(BreakCost(cfg, f, k), BreakCost(cfg, f, j))
  }

  lemma CostOrder(a: Cost, b: Cost, c: Cost)
    ensures CostLe(a, a) && (CostLe(a, b) || CostLe(b, a))
    ensures CostLe(a, b) && CostLe(b, c) ==> CostLe(a, c)
    ensures CostLe(a, b) && CostLe(b, a) ==> a == b
  {
  }

  lemma {:induction false} CheapestExists(cfg: Config, f: Fleet, keys: set<EdgeKey>) returns (k: EdgeKey)
    requires keys <= f.edges.Keys && keys != {}
    ensures IsCheapest(cfg, f, k, keys)
    decreases keys
  {
    var x :| x in keys;
    var rest := keys - {x};
    var m := x;
    if rest != {} {
      m := CheapestExists(cfg, f, rest);
    }
    k := if CostLe(BreakCost(cfg, f, x), BreakCost(cfg, f, m)) then x else m;
    forall j | j in keys
      ensures CostLe(BreakCost(cfg, f, k), BreakCost(cfg, f, j))
    {
      CostOrder(BreakCost(cfg, f, x), BreakCost(cfg, f, m), BreakCost(cfg, f, j));
      assert j == x || j in rest;
    }
  }

  lemma CheapestUnique(cfg: Config, f: Fleet, keys: set<EdgeKey>, a: EdgeKey, b: EdgeKey)
    requires keys <= f.edges.Keys && Injective(cfg)
    requires IsCheapest(cfg, f, a, keys) && IsCheapest(cfg, f, b, keys)
    ensures a == b
  {
    CostOrder(BreakCost(cfg, f, a), BreakCost(cfg, f, b), BreakCost(cfg, f, a));
  }

  function Cheapest(cfg: Config, f: Fleet, keys: set<EdgeKey>): (r: Option<EdgeKey>)
    requires keys <= f.edges.Keys && Injective(cfg)
    ensures r.None? <==> keys == {}
    ensures r.Some? ==> IsCheapest(cfg, f, r.value, keys)
  {
    if keys == {} then None
    else
      assert exists k :: k in keys && IsCheapest(cfg, f, k, keys) by {
        var k := CheapestExists(cfg, f, keys);
      }
      assert forall a, b :: IsCheapest(cfg, f, a, keys) && IsCheapest(cfg, f, b, keys) ==> a == b by {
        forall a, b | IsCheapest(cfg, f, a, keys) && IsCheapest(cfg, f, b, keys)
          ensures a == b
        {
          CheapestUnique(cfg, f, keys, a, b);
        }
      }
      var k :| k in keys && IsCheapest(cfg, f, k, keys);
      Some(k)
  }

  // ---------------------------------------------------------------------------------------
  // 6d, 6e: suppressing feedback edges
  // ---------------------------------------------------------------------------------------

  function Suppress(edges: Edges, key: EdgeKey): Edges
  {
    map k | k in edges :: if k == key then edges[k].(suppressed := true) else edges[k]
  }

  const ATOMIC_CONFIDENCE := 0.95

  predicate IsAtomic(cfg: Config, f: Fleet, live: set<NodeRef>)
  {
    || |live| > cfg.atomicThreshold
    || (var feedback := FeedbackKeys(cfg, f, live);
        feedback != {} && forall k :: k in feedback ==>
          k.kind == DeclaredDep && f.edges[k].confidence >= ATOMIC_CONFIDENCE)
  }

  datatype Broken = Broken(fleet: Fleet, keys: seq<EdgeKey>)

  /** The 6d loop: while the component is live, break the cheapest feedback edge. */
  function BreakLoop(cfg: Config, b: Broken, members: set<string>): Broken
    requires Injective(cfg)
    decreases cfg.maxBreaks - |b.keys|
  {
    var live := Live(cfg, b.fleet, members);
    if live == {} || |b.keys| >= cfg.maxBreaks || IsAtomic(cfg, b.fleet, live) then b
    else
      match Cheapest(cfg, b.fleet, FeedbackKeys(cfg, b.fleet, live))
      case None => b
      case Some(k) =>
        BreakLoop(cfg, Broken(b.fleet.(edges := Suppress(b.fleet.edges, k)), b.keys + [k]), members)
  }

  method BreakEdges(cfg: Config, fleet: Fleet, members: set<string>) returns (edges: Edges, keys: seq<EdgeKey>)
    requires Injective(cfg)
    ensures Broken(fleet.(edges := edges), keys) == BreakLoop(cfg, Broken(fleet, []), members)
  {
    edges, keys := fleet.edges, [];
    var live := FindLiveComponent(fleet.nodes, DagArcs(cfg, edges), members);
    ghost var whole := BreakLoop(cfg, Broken(fleet, []), members);
    while live != {} && |keys| < cfg.maxBreaks
      invariant live == Live(cfg, fleet.(edges := edges), members)
      invariant BreakLoop(cfg, Broken(fleet.(edges := edges), keys), members) == whole
      decreases cfg.maxBreaks - |keys|
    {
      var now := fleet.(edges := edges);
      if IsAtomic(cfg, now, live) {
        break;
      }
      var cheapest := Cheapest(cfg, now, FeedbackKeys(cfg, now, live));
      if cheapest.None? {
        break;
      }
      edges := Suppress(edges, cheapest.value);
      keys := keys + [cheapest.value];
      live := FindLiveComponent(fleet.nodes, DagArcs(cfg, edges), members);
    }
  }

  // ---------------------------------------------------------------------------------------
  // 6c-H: hoisting contracts
  // ---------------------------------------------------------------------------------------

  predicate IsCandidate(cfg: Config, committed: Contracts, members: set<string>, c: ContractNode)
  {
    && c.owner.Some? && c.owner.value in members
    && c.extractable && c.status == Extractable
    && c.id !in committed
    && c.confidence >= cfg.minExtraction
    && c.id !in cfg.forbidden
  }

  function Candidates(cfg: Config, f: Fleet, contracts: Contracts, members: set<string>): Contracts
  {
    map id | id in contracts && IsCandidate(cfg, f.committed, members, contracts[id]) :: contracts[id]
  }

  function Refs(cs: Contracts): set<NodeRef> { set id | id in cs :: ContractRef(cs[id]) }

  /** The fleet with `cs` materialized: what a trial builds, and what a commit keeps. */
  function Trial(cfg: Config, f: Fleet, cs: Contracts): Fleet
    requires Injective(cfg)
  {
    f.(nodes := f.nodes + Refs(cs), edges := Materialized(cfg, f.edges, cs))
  }

  method BuildTrial(cfg: Config, f: Fleet, cs: Contracts) returns (t: Fleet)
    requires Injective(cfg)
    ensures t == Trial(cfg, f, cs)
  {
    var rows := MaterializeRows(cfg, f.edges, cs);
    t := f.(nodes := f.nodes + Refs(cs), edges := rows);
  }

  predicate TrialFails(cfg: Config, f: Fleet, cs: Contracts)
    requires Injective(cfg)
  {
    var t := Trial(cfg, f, cs);
    Rebuild(t.nodes, t.edges, cfg).Err?
  }

  function One(c: ContractNode): Contracts { map[c.id := c] }

  /** The size of the non-trivial component around `n`, 1 when there is none. */
  function ComponentSize(nodes: set<NodeRef>, arcs: Dag<NodeRef>, n: NodeRef): nat
  {
    if n in nodes then
      var c := Component(nodes, arcs, n);
      if |c| > 1 then |c| else 1
    else 1
  }

  datatype Score = Score(freed: int, confidence: real, radius: nat, id: string)

  function ScoreOf(cfg: Config, f: Fleet, live: set<NodeRef>, c: ContractNode): Score
    requires Injective(cfg) && c.owner.Some?
  {
    var t := Trial(cfg, f, One(c));
    var owner := Node(Repo, c.owner.value);
    Score(|live| - ComponentSize(t.nodes, Arcs(cfg, t), owner), c.confidence,
          |c.consumers| + |Dependents(f, owner)|, c.id)
  }

  /** Most repositories freed, then most confident, then smallest radius, then least id. */
  predicate ScoreLe(a: Score, b: Score)
  {
    if a.freed != b.freed then a.freed > b.freed
    else if a.confidence != b.confidence then a.confidence > b.confidence
    else if a.radius != b.radius then a.radius < b.radius
    else StrLe(a.id, b.id)
  }

  lemma ScoreOrder(a: Score, b: Score, c: Score)
    ensures ScoreLe(a, a) && (ScoreLe(a, b) || ScoreLe(b, a))
    ensures ScoreLe(a, b) && ScoreLe(b, c) ==> ScoreLe(a, c)
    ensures ScoreLe(a, b) && ScoreLe(b, a) ==> a == b
  {
    StrLeTotal(a.id, a.id);
    StrLeTotal(a.id, b.id);
    if StrLe(a.id, b.id) && StrLe(b.id, c.id) {
      StrLeTransitive(a.id, b.id, c.id);
    }
    if StrLe(a.id, b.id) && StrLe(b.id, a.id) {
      StrLeAntisymmetric(a.id, b.id);
    }
  }

  /** Contracts that can be scored: keyed by id, each with an owner. */
  predicate Scorable(cs: Contracts)
  {
    forall id :: id in cs ==> cs[id].id == id && cs[id].owner.Some?
  }

  predicate IsPick(cfg: Config, f: Fleet, live: set<NodeRef>, cs: Contracts, id: string)
    requires Injective(cfg) && Scorable(cs)
  {
    id in cs && forall j :: j in cs ==> ScoreLe(ScoreOf(cfg, f, live, cs[id]), ScoreOf(cfg, f, live, cs[j]))
  }

  lemma {:induction false} PickExists(cfg: Config, f: Fleet, live: set<NodeRef>, cs: Contracts) returns (id: string)
    requires Injective(cfg) && Scorable(cs) && cs != map[]
    ensures IsPick(cfg, f, live, cs, id)
    decreases cs.Keys
  {
    var x :| x in cs.Keys;
    var rest := cs - {x};
    assert rest.Keys == cs.Keys - {x};
    var m := x;
    if rest != map[] {
      m := PickExists(cfg, f, live, rest);
    }
    var sx, sm := ScoreOf(cfg, f, live, cs[x]), ScoreOf(cfg, f, live, cs[m]);
    id := if ScoreLe(sx, sm) then x else m;
    forall j | j in cs
      ensures ScoreLe(ScoreOf(cfg, f, live, cs[id]), ScoreOf(cfg, f, live, cs[j]))
    {
      ScoreOrder(sx, sm, ScoreOf(cfg, f, live, cs[j]));
      assert j == x || j in rest;
    }
  }

  lemma PickUnique(cfg: Config, f: Fleet, live: set<NodeRef>, cs: Contracts, a: string, b: string)
    requires Injective(cfg) && Scorable(cs)
    requires IsPick(cfg, f, live, cs, a) && IsPick(cfg, f, live, cs, b)
    ensures a == b
  {
    ScoreOrder(ScoreOf(cfg, f, live, cs[a]), ScoreOf(cfg, f, live, cs[b]), ScoreOf(cfg, f, live, cs[a]));
  }

  /** The contract the greedy loop tries next. */
  function Pick(cfg: Config, f: Fleet, live: set<NodeRef>, cs: Contracts): (id: string)
    requires Injective(cfg) && Scorable(cs) && cs != map[]
    ensures IsPick(cfg, f, live, cs, id)
  {
    assert exists id :: id in cs && IsPick(cfg, f, live, cs, id) by {
      var id := PickExists(cfg, f, live, cs);
    }
    assert forall a, b :: IsPick(cfg, f, live, cs, a) && IsPick(cfg, f, live, cs, b) ==> a == b by {
      forall a, b | IsPick(cfg, f, live, cs, a) && IsPick(cfg, f, live, cs, b)
        ensures a == b
      {
        PickUnique(cfg, f, live, cs, a, b);
      }
    }
    var id :| id in cs && IsPick(cfg, f, live, cs, id);
    id
  }

  /** Distinct sources of the rows that consume contract `id`. */
  function Consumers(edges: Edges, id: string): set<string>
  {
    set k | k in edges && edges[k].dst == Node(Contract, id) && k.kind == ContractConsume :: k.src.id
  }

  datatype Hoisting = Hoisting(fleet: Fleet, remaining: Contracts, hoisted: seq<string>, rejected: seq<ContractNode>)

  function Reject(h: Hoisting, id: string): Hoisting
    requires id in h.remaining
  {
    h.(remaining := h.remaining - {id},
       rejected := h.rejected + [h.remaining[id].(status := Rejected, detail := "not_shared_after_retarget")])
  }

  function Commit(cfg: Config, h: Hoisting, id: string): Hoisting
    requires Injective(cfg) && id in h.remaining
  {
    var c := h.remaining[id];
    var t := Trial(cfg, h.fleet, One(c));
    Hoisting(t.(committed := h.fleet.committed[id := c.(status := Hoisted)]),
             h.remaining - {id}, h.hoisted + [id], h.rejected)
  }

  /** One turn of the greedy loop once every trial has been built. */
  function HoistTurn(cfg: Config, h: Hoisting, members: set<string>, minConsumers: nat): Hoisting
    requires Injective(cfg) && Scorable(h.remaining) && h.remaining != map[]
  {
    var id := Pick(cfg, h.fleet, Live(cfg, h.fleet, members), h.remaining);
    if |Consumers(Trial(cfg, h.fleet, One(h.remaining[id])).edges, id)| < minConsumers then Reject(h, id)
    else Commit(cfg, h, id)
  }

  predicate AnyTrialFails(cfg: Config, h: Hoisting)
    requires Injective(cfg)
  {
    exists id :: id in h.remaining && TrialFails(cfg, h.fleet, One(h.remaining[id]))
  }

  lemma HoistTurnShrinks(cfg: Config, h: Hoisting, members: set<string>, minConsumers: nat)
    requires Injective(cfg) && Scorable(h.remaining) && h.remaining != map[]
    ensures
      var t := HoistTurn(cfg, h, members, minConsumers);
      |t.remaining| == |h.remaining| - 1 && Scorable(t.remaining)
  {
    var id := Pick(cfg, h.fleet, Live(cfg, h.fleet, members), h.remaining);
    RemovingOne(h.remaining, id);
  }

  lemma RemovingOne(cs: Contracts, id: string)
    requires Scorable(cs) && id in cs
    ensures |cs - {id}| == |cs| - 1 && Scorable(cs - {id})
  {
    assert (cs - {id}).Keys == cs.Keys - {id};
  }

  /** The greedy loop: commit or reject one contract a turn until the component dissolves. */
  function HoistLoop(cfg: Config, h: Hoisting, members: set<string>, minConsumers: nat): Result<Hoisting>
    requires Injective(cfg) && Scorable(h.remaining)
    decreases |h.remaining|
  {
    if Live(cfg, h.fleet, members) == {} || h.remaining == map[] || |h.hoisted| >= cfg.maxHoists then Ok(h)
    else if AnyTrialFails(cfg, h) then Err(DanglingNode)
    else
      HoistTurnShrinks(cfg, h, members, minConsumers);
      HoistLoop(cfg, HoistTurn(cfg, h, members, minConsumers), members, minConsumers)
  }

  lemma CandidatesScorable(cfg: Config, f: Fleet, contracts: Contracts, members: set<string>)
    requires ContractsOk(contracts)
    ensures Scorable(Candidates(cfg, f, contracts, members))
  {
  }

  /** Hoisting for one component: saturate first, then commit greedily. */
  function Hoist(cfg: Config, f: Fleet, contracts: Contracts, members: set<string>, minConsumers: nat): Result<Hoisting>
    requires Injective(cfg) && ContractsOk(contracts)
  {
    var cs := Candidates(cfg, f, contracts, members);
    var nothing := Hoisting(f, map[], [], []);
    if cs == map[] then Ok(nothing)
    else if TrialFails(cfg, f, cs) then Err(DanglingNode)
    else if Live(cfg, Trial(cfg, f, cs), members) != {} then Ok(nothing)
    else
      CandidatesScorable(cfg, f, contracts, members);
      HoistLoop(cfg, Hoisting(f, cs, [], []), members, minConsumers)
  }

  method HoistContracts(cfg: Config, f: Fleet, contracts: Contracts, members: set<string>, minConsumers: nat)
    returns (r: Result<Hoisting>)
    requires Injective(cfg) && ContractsOk(contracts)
    ensures r == Hoist(cfg, f, contracts, members, minConsumers)
  {
    var candidates := Candidates(cfg, f, contracts, members);
    if candidates == map[] {
      return Ok(Hoisting(f, map[], [], []));
    }
    CandidatesScorable(cfg, f, contracts, members);
    var saturated := BuildTrial(cfg, f, candidates);
    var built := BuildGraph(saturated.nodes, saturated.edges, cfg);
    if built.Err? {
      return Err(DanglingNode);
    }
    var live := FindLiveComponent(saturated.nodes, Arcs(cfg, saturated), members);
    if live != {} {
      return Ok(Hoisting(f, map[], [], []));
    }
    var fleet, remaining, hoisted, rejected := f, candidates, [], [];
    live := FindLiveComponent(f.nodes, Arcs(cfg, f), members);
    while live != {} && remaining != map[] && |hoisted| < cfg.maxHoists
      invariant Scorable(remaining) && live == Live(cfg, fleet, members)
      invariant HoistLoop(cfg, Hoisting(fleet, remaining, hoisted, rejected), members, minConsumers)
             == Hoist(cfg, f, contracts, members, minConsumers)
      decreases |remaining|
    {
      ghost var now := Hoisting(fleet, remaining, hoisted, rejected);
      HoistTurnShrinks(cfg, now, members, minConsumers);
      if AnyTrialFails(cfg, Hoisting(fleet, remaining, hoisted, rejected)) {
        return Err(DanglingNode);
      }
      var id := Pick(cfg, fleet, live, remaining);
      var chosen := remaining[id];
      var trial := BuildTrial(cfg, fleet, One(chosen));
      var consumers := Consumers(trial.edges, id);
      if |consumers| < minConsumers {
        rejected := rejected + [chosen.(status := Rejected, detail := "not_shared_after_retarget")];
      } else {
        fleet := trial.(committed := fleet.committed[id := chosen.(status := Hoisted)]);
        hoisted := hoisted + [id];
      }
      remaining := remaining - {id};
      assert HoistTurn(cfg, now, members, minConsumers) == Hoisting(fleet, remaining, hoisted, rejected);
      live := FindLiveComponent(fleet.nodes, Arcs(cfg, fleet), members);
    }
    r := Ok(Hoisting(fleet, remaining, hoisted, rejected));
  }

  // ---------------------------------------------------------------------------------------
  // The ladder for one component
  // ---------------------------------------------------------------------------------------

  datatype Strategy = ContractHoist | EdgeBreak | AtomicWave | Manual

  /** How one component was dealt with; its id is a hash of the member set. */
  datatype Resolution = Resolution(
    members: set<string>, feedback: set<EdgeKey>, proposed: Option<EdgeKey>,
    hoisted: seq<string>, broken: seq<EdgeKey>, strategy: Strategy)

  datatype Resolved = Resolved(fleet: Fleet, resolution: Resolution, rejected: seq<ContractNode>)

  function MemberIds(component: set<NodeRef>): set<string>
  {
    set n | n in component && n.kind.Repo? :: n.id
  }

  /** 6d and 6e, on the fleet hoisting left. */
  function BreakOrMerge(cfg: Config, h: Hoisting, base: Resolution): Resolved
    requires Injective(cfg)
  {
    var b := BreakLoop(cfg, Broken(h.fleet, []), base.members);
    var strategy := if Live(cfg, b.fleet, base.members) == {} then EdgeBreak else AtomicWave;
    Resolved(b.fleet, base.(hoisted := h.hoisted, broken := b.keys, strategy := strategy), h.rejected)
  }

  function Resolve(cfg: Config, f: Fleet, component: set<NodeRef>, contracts: Contracts,
      minConsumers: nat): Result<Resolved>
    requires Injective(cfg) && ContractsOk(contracts)
  {
    var members := MemberIds(component);
    var feedback := FeedbackKeys(cfg, f, component);
    var base := Resolution(members, feedback, Cheapest(cfg, f, feedback), [], [], Manual);
    if |members| > cfg.hardMax then Ok(Resolved(f, base, []))
    else
      var hoisted := if cfg.hoistContracts then Hoist(cfg, f, contracts, members, minConsumers)
                     else Ok(Hoisting(f, map[], [], []));
      match hoisted
      case Err(e) => Err(e)
      case Ok(h) =>
        if Live(cfg, h.fleet, members) != {} then Ok(BreakOrMerge(cfg, h, base))
        else if h.hoisted == [] then Err(DissolvedUnexplained)
        else Ok(Resolved(h.fleet, base.(hoisted := h.hoisted, strategy := ContractHoist), h.rejected))
  }

  method ResolveScc(cfg: Config, f: Fleet, component: set<NodeRef>, contracts: Contracts, minConsumers: nat)
    returns (r: Result<Resolved>)
    requires Injective(cfg) && ContractsOk(contracts)
    ensures r == Resolve(cfg, f, component, contracts, minConsumers)
  {
    var members := MemberIds(component);
    var feedback := FeedbackKeys(cfg, f, component);
    var proposed := Cheapest(cfg, f, feedback);
    if |members| > cfg.hardMax {
      return Ok(Resolved(f, Resolution(members, feedback, proposed, [], [], Manual), []));
    }
    var h := Hoisting(f, map[], [], []);
    if cfg.hoistContracts {
      var hoisting := HoistContracts(cfg, f, contracts, members, minConsumers);
      if hoisting.Err? {
        return Err(hoisting.error);
      }
      h := hoisting.value;
    }
    var live := FindLiveComponent(h.fleet.nodes, Arcs(cfg, h.fleet), members);
    if live == {} && h.hoisted == [] {
      return Err(DissolvedUnexplained);
    }
    if live == {} {
      return Ok(Resolved(h.fleet, Resolution(members, feedback, proposed, h.hoisted, [], ContractHoist), h.rejected));
    }
    var edges, broken := BreakEdges(cfg, h.fleet, members);
    live := FindLiveComponent(h.fleet.nodes, DagArcs(cfg, edges), members);
    var strategy := if live == {} then EdgeBreak else AtomicWave;
    var resolution := Resolution(members, feedback, proposed, h.hoisted, broken, strategy);
    r := Ok(Resolved(h.fleet.(edges := edges), resolution, h.rejected));
  }

  // ---------------------------------------------------------------------------------------
  // The ladder for every component
  // ---------------------------------------------------------------------------------------

  datatype Report = Report(fleet: Fleet, resolutions: seq<Resolution>, rejected: seq<ContractNode>)

  function ResolveAll(cfg: Config, r: Report, components: seq<set<NodeRef>>, contracts: Contracts,
      minConsumers: nat): Result<Report>
    requires Injective(cfg) && ContractsOk(contracts)
    decreases |components|
  {
    if components == [] then Ok(r)
    else if |MemberIds(components[0])| < 2 then ResolveAll(cfg, r, components[1..], contracts, minConsumers)
    else
      match Resolve(cfg, r.fleet, components[0], contracts, minConsumers)
      case Err(e) => Err(e)
      case Ok(one) =>
        ResolveAll(cfg, Report(one.fleet, r.resolutions + [one.resolution], r.rejected + one.rejected),
                   components[1..], contracts, minConsumers)
  }

  /** Contracts hoisted by an earlier run are materialized before anything is ranked. */
  function Precommitted(contracts: Contracts): Contracts
  {
    map id | id in contracts && contracts[id].status in {Hoisted, Migrated} :: contracts[id]
  }

  function Opening(cfg: Config, nodes: set<NodeRef>, edges: Edges, contracts: Contracts): Fleet
    requires Injective(cfg)
  {
    var pre := Precommitted(contracts);
    Fleet(nodes + Refs(pre), Materialized(cfg, edges, pre), pre)
  }

  function Break(cfg: Config, nodes: set<NodeRef>, edges: Edges, contracts: Contracts,
      minConsumers: nat): Result<Report>
    requires Injective(cfg) && ContractsOk(contracts)
  {
    var f := Opening(cfg, nodes, edges, contracts);
    match Rebuild(f.nodes, f.edges, cfg)
    case Err(e) => Err(e)
    case Ok(_) => ResolveAll(cfg, Report(f, [], []), NontrivialSccs(f.nodes, Arcs(cfg, f)), contracts, minConsumers)
  }

  method BreakCycles(cfg: Config, nodes: set<NodeRef>, edges: Edges, contracts: Contracts, minConsumers: nat)
    returns (r: Result<Report>)
    requires Injective(cfg) && ContractsOk(contracts)
    ensures r == Break(cfg, nodes, edges, contracts, minConsumers)
  {
    var committed := Precommitted(contracts);
    var rows := MaterializeRows(cfg, edges, committed);
    var fleet := Fleet(nodes + Refs(committed), rows, committed);
    var built := BuildGraph(fleet.nodes, fleet.edges, cfg);
    if built.Err? {
      return Err(built.error);
    }
    var components := NontrivialSccs(fleet.nodes, Arcs(cfg, fleet));
    ghost var opening := Report(fleet, [], []);
    var resolutions: seq<Resolution>, rejected: seq<ContractNode> := [], [];
    ghost var pending := components;
    for i := 0 to |components|
      invariant pending == components[i..]
      invariant ResolveAll(cfg, Report(fleet, resolutions, rejected), pending, contracts, minConsumers)
             == ResolveAll(cfg, opening, components, contracts, minConsumers)
    {
      assert components[i] == pending[0];
      pending := pending[1..];
      if |MemberIds(components[i])| >= 2 {
        var one := ResolveScc(cfg, fleet, components[i], contracts, minConsumers);
        if one.Err? {
          return Err(one.error);
        }
        fleet := one.value.fleet;
        resolutions := resolutions + [one.value.resolution];
        rejected := rejected + one.value.rejected;
      }
    }
    r := Ok(Report(fleet, resolutions, rejected));
  }
}
