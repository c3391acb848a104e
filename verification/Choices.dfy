/**
 What step 6 chooses, told in rows, trials and contracts: the feedback edge every turn breaks and
 the one it proposes, the contract every turn of hoisting tries, and whether that one is kept.
 */
module Choices {
  import opened Options
  import opened Digraph
  import opened NodeOrder
  import opened DfsClasses
  import opened DfsForest
  import opened FleetModel
  import opened Materialize
  import opened Components
  import opened Cycles
  import opened FleetSteps
  import opened BreakTheorems
  import opened HoistTheorems
  import opened CycleTheorems

  // ---------------------------------------------------------------------------------------
  // Which rows are feedback
  // ---------------------------------------------------------------------------------------

  /** The rows that close a cycle: those that order two members and climb in the search forest. */
  lemma FeedbackExact(cfg: Config, f: Fleet, inside: set<NodeRef>, k: EdgeKey)
    requires RowsOk(f.edges)
    ensures
      var forest := TreeArcs(Classify(Arcs(cfg, f), inside));
      k in FeedbackKeys(cfg, f, inside) <==>
        && k in f.edges && Orders(cfg, f.edges[k]) && k.src in inside && f.edges[k].dst in inside
        && Reaches(forest, f.edges[k].dst, k.src)
  {
    if k in f.edges && Orders(cfg, f.edges[k]) {
      var a := ArcOf(f.edges[k]);
      ArcOfRow(cfg, f.edges, k);
      assert RowOk(f.edges[k]) && a.src == k.src;
      BackArcsClimb(Arcs(cfg, f), inside, a);
    }
  }

  /** The BACK arcs are the inner arcs that climb in the search forest. */
  lemma BackArcsClimb(dag: Dag<NodeRef>, inside: set<NodeRef>, a: Arc<NodeRef>)
    ensures a in BackArcs(dag, inside) <==>
            a in InnerArcs(dag, inside) && Reaches(TreeArcs(Classify(dag, inside)), a.dst, a.src)
  {
    var classes := Classify(dag, inside);
    ClassifyExact(dag, inside);
    if a in InnerArcs(dag, inside) {
      assert PlacedInForest(classes, a);
      if classes[a] != Back {
        ForestClimbs(classes, a);
      }
    }
  }

  /** No arc both climbs and descends in an acyclic forest. */
  lemma ForestClimbs(classes: Classes<NodeRef>, a: Arc<NodeRef>)
    requires Acyclic(NonBackArcs(classes)) && a in classes && classes[a] != Back
    ensures !Reaches(TreeArcs(classes), a.dst, a.src)
  {
    assert a in NonBackArcs(classes);
    if Reaches(TreeArcs(classes), a.dst, a.src) {
      ReachesMono(TreeArcs(classes), NonBackArcs(classes), a.dst, a.src);
    }
  }

  // ---------------------------------------------------------------------------------------
  // Which feedback edge yields
  // ---------------------------------------------------------------------------------------

  /** Kinds in the order in which they yield; a kind that is not listed yields last. */
  const YIELDING: seq<EdgeKind> :=
    [DynamicRef, ApiContract, InternalImport, PublishedArtifact, DeclaredDep, ContractConsume, ContractImpl]

  ghost predicate YieldsBefore(a: EdgeKind, b: EdgeKind)
  {
    exists i :: 0 <= i < |YIELDING| && YIELDING[i] == a && b !in YIELDING[..i + 1]
  }

  lemma ListedAt(i: nat, b: EdgeKind)
    requires i < 7
    ensures b in YIELDING[..i + 1] <==> KindRank(b) <= i
    ensures KindRank(YIELDING[i]) == i
  {
    if KindRank(b) <= i {
      assert YIELDING[..i + 1][KindRank(b)] == b;
    }
    if b in YIELDING[..i + 1] {
      var j :| 0 <= j < i + 1 && YIELDING[j] == b;
      assert KindRank(b) == j;
    }
  }

  lemma YieldsByRank(a: EdgeKind, b: EdgeKind)
    ensures YieldsBefore(a, b) <==> KindRank(a) < KindRank(b)
    ensures KindRank(a) == KindRank(b) <==> a == b
  {
    if YieldsBefore(a, b) {
      var i :| 0 <= i < |YIELDING| && YIELDING[i] == a && b !in YIELDING[..i + 1];
      ListedAt(i, b);
    }
    if KindRank(a) < KindRank(b) {
      ListedAt(KindRank(a), b);
      assert YIELDING[KindRank(a)] == a;
    }
  }

  /** The other nodes that require `n`, directly or not, whether or not the rows order anything. */
  ghost function Requiring(f: Fleet, n: NodeRef): set<NodeRef>
  {
    set v | v in f.nodes && v != n && Reaches(ArcsBehind(f.edges, f.edges.Keys), v, n)
  }

  lemma RequiringExact(cfg: Config, f: Fleet, n: NodeRef)
    requires FleetOk(cfg, f)
    ensures Dependents(f, n) == Requiring(f, n)
  {
    var arcs := ArcsBehind(f.edges, f.edges.Keys);
    forall v
      ensures v in Dependents(f, n) <==> v in Requiring(f, n)
    {
      if v != n && Reaches(arcs, v, n) {
        var k: nat :| ReachesIn(arcs, v, n, k);
        var w :| Arc(v, w) in arcs && ReachesIn(arcs, w, n, k - 1);
        EndsAreNodes(cfg, f, Arc(v, w));
        var u := ReachesInLast(arcs, v, n, k);
        EndsAreNodes(cfg, f, Arc(u, n));
      }
      if n in f.nodes {
        DependentsExact(f, n, v);
      }
    }
  }

  lemma EndsAreNodes(cfg: Config, f: Fleet, a: Arc<NodeRef>)
    requires FleetOk(cfg, f) && a in ArcsBehind(f.edges, f.edges.Keys)
    ensures a.src in f.nodes && a.dst in f.nodes
  {
    var k :| k in f.edges && ArcOf(f.edges[k]) == a;
    assert !Dangling(f.nodes, f.edges[k]);
  }

  /** Rows `j` and `k` cannot be told apart by confidence, kind, dependents and certainty. */
  ghost predicate EvenTo(f: Fleet, j: EdgeKey, k: EdgeKey, depth: nat)
    requires j in f.edges && k in f.edges
  {
    && (depth > 0 ==> f.edges[j].confidence == f.edges[k].confidence)
    && (depth > 1 ==> j.kind == k.kind)
    && (depth > 2 ==> |Requiring(f, f.edges[j].dst)| == |Requiring(f, f.edges[k].dst)|)
    && (depth > 3 ==> f.edges[j].ambiguous == f.edges[k].ambiguous)
  }

  /** Of `keys`, `k` yields first: none is less confident; among those as confident none is of a kind
      that yields before; then none has a destination fewer nodes require; then an ambiguous row
      goes before a certain one; then the least digest. */
  ghost predicate YieldsFirst(cfg: Config, f: Fleet, keys: set<EdgeKey>, k: EdgeKey)
    requires keys <= f.edges.Keys
  {
    && k in keys
    && (forall j :: j in keys ==> f.edges[k].confidence <= f.edges[j].confidence)
    && (forall j :: j in keys && EvenTo(f, j, k, 1) ==> !YieldsBefore(j.kind, k.kind))
    && (forall j :: j in keys && EvenTo(f, j, k, 2) ==>
          |Requiring(f, f.edges[k].dst)| <= |Requiring(f, f.edges[j].dst)|)
    && (forall j :: j in keys && EvenTo(f, j, k, 3) ==> (f.edges[j].ambiguous ==> f.edges[k].ambiguous))
    && (forall j :: j in keys && EvenTo(f, j, k, 4) ==> cfg.digest(k) <= cfg.digest(j))
  }

  lemma CheapestYields(cfg: Config, f: Fleet, keys: set<EdgeKey>, k: EdgeKey)
    requires FleetOk(cfg, f) && keys <= f.edges.Keys && IsCheapest(cfg, f, k, keys)
    ensures YieldsFirst(cfg, f, keys, k)
  {
    RequiringExact(cfg, f, f.edges[k].dst);
    forall j | j in keys
      ensures f.edges[k].confidence <= f.edges[j].confidence
      ensures EvenTo(f, j, k, 1) ==> !YieldsBefore(j.kind, k.kind)
      ensures EvenTo(f, j, k, 2) ==> |Requiring(f, f.edges[k].dst)| <= |Requiring(f, f.edges[j].dst)|
      ensures EvenTo(f, j, k, 3) ==> (f.edges[j].ambiguous ==> f.edges[k].ambiguous)
      ensures EvenTo(f, j, k, 4) ==> cfg.digest(k) <= cfg.digest(j)
    {
      assert CostLe(BreakCost(cfg, f, k), BreakCost(cfg, f, j));
      RequiringExact(cfg, f, f.edges[j].dst);
      YieldsByRank(j.kind, k.kind);
    }
  }

  /** One row yields first. */
  lemma OneYieldsFirst(cfg: Config, f: Fleet, keys: set<EdgeKey>, a: EdgeKey, b: EdgeKey)
    requires Injective(cfg) && keys <= f.edges.Keys
    requires YieldsFirst(cfg, f, keys, a) && YieldsFirst(cfg, f, keys, b)
    ensures a == b
  {
    YieldsByRank(a.kind, b.kind);
    YieldsByRank(b.kind, a.kind);
    assert EvenTo(f, a, b, 1) && EvenTo(f, b, a, 1);
    assert EvenTo(f, a, b, 2) && EvenTo(f, b, a, 2);
    assert EvenTo(f, a, b, 3) && EvenTo(f, b, a, 3);
    assert EvenTo(f, a, b, 4) && EvenTo(f, b, a, 4);
  }

  /** The cheapest edge is the one that yields first. */
  lemma CheapestExactly(cfg: Config, f: Fleet, keys: set<EdgeKey>)
    requires FleetOk(cfg, f) && keys <= f.edges.Keys
    ensures
      match Cheapest(cfg, f, keys)
      case None => keys == {}
      case Some(c) => forall k :: YieldsFirst(cfg, f, keys, k) <==> k == c
  {
    var c := Cheapest(cfg, f, keys);
    if c.Some? {
      CheapestYields(cfg, f, keys, c.value);
      forall k | YieldsFirst(cfg, f, keys, k)
        ensures k == c.value
      {
        OneYieldsFirst(cfg, f, keys, k, c.value);
      }
    }
  }

  // ---------------------------------------------------------------------------------------
  // Every turn of the breaking loop
  // ---------------------------------------------------------------------------------------

  /** `f` with the rows of `keys` suppressed. */
  function WithSuppressed(f: Fleet, keys: seq<EdgeKey>): Fleet
  {
    f.(edges := map k | k in f.edges :: if k in keys then f.edges[k].(suppressed := true) else f.edges[k])
  }

  /** Nothing may yield: the component is too large to break, or all its feedback is declared at
      95 percent or more. */
  ghost predicate MustMoveTogether(cfg: Config, f: Fleet, live: set<NodeRef>)
  {
    || cfg.atomicThreshold < |live|
    || (var feedback := FeedbackKeys(cfg, f, live);
        feedback != {} && !exists k :: k in feedback && (k.kind != DeclaredDep || f.edges[k].confidence < 0.95))
  }

  lemma AtomicExact(cfg: Config, f: Fleet, live: set<NodeRef>)
    ensures IsAtomic(cfg, f, live) <==> MustMoveTogether(cfg, f, live)
  {
  }

  /** In the fleet `f` the component is live, may be broken, and `k` is the feedback edge to yield. */
  ghost predicate YieldsNow(cfg: Config, f: Fleet, members: set<string>, k: EdgeKey)
  {
    var live := Live(cfg, f, members);
    live != {} && !MustMoveTogether(cfg, f, live) && YieldsFirst(cfg, f, FeedbackKeys(cfg, f, live), k)
  }

  /** Number `i` of `keys` yields in the fleet that the ones before it leave. */
  ghost predicate YieldsAt(cfg: Config, f: Fleet, members: set<string>, keys: seq<EdgeKey>, i: nat)
    requires i < |keys|
  {
    YieldsNow(cfg, WithSuppressed(f, keys[..i]), members, keys[i])
  }

  ghost predicate YieldInTurn(cfg: Config, f: Fleet, members: set<string>, keys: seq<EdgeKey>)
  {
    forall i :: 0 <= i < |keys| ==> YieldsAt(cfg, f, members, keys, i)
  }

  lemma OneMoreSuppressed(f: Fleet, keys: seq<EdgeKey>, k: EdgeKey)
    ensures
      var g := WithSuppressed(f, keys);
      WithSuppressed(f, keys + [k]) == g.(edges := Suppress(g.edges, k))
  {
    var g := WithSuppressed(f, keys);
    SameMap(WithSuppressed(f, keys + [k]).edges, Suppress(g.edges, k));
  }

  lemma YieldsBeforeMore(cfg: Config, f: Fleet, members: set<string>, keys: seq<EdgeKey>, k: EdgeKey, i: nat)
    requires i < |keys| && YieldsAt(cfg, f, members, keys, i)
    ensures YieldsAt(cfg, f, members, keys + [k], i)
  {
    assert (keys + [k])[..i] == keys[..i];
  }

  lemma LastYields(cfg: Config, f: Fleet, members: set<string>, keys: seq<EdgeKey>, k: EdgeKey)
    requires YieldsNow(cfg, WithSuppressed(f, keys), members, k)
    ensures YieldsAt(cfg, f, members, keys + [k], |keys|)
  {
    assert (keys + [k])[..|keys|] == keys;
  }

  lemma OneMoreYields(cfg: Config, f: Fleet, members: set<string>, keys: seq<EdgeKey>, k: EdgeKey)
    requires YieldInTurn(cfg, f, members, keys) && YieldsNow(cfg, WithSuppressed(f, keys), members, k)
    ensures YieldInTurn(cfg, f, members, keys + [k])
  {
    forall i | 0 <= i < |keys + [k]|
      ensures YieldsAt(cfg, f, members, keys + [k], i)
    {
      if i < |keys| {
        YieldsBeforeMore(cfg, f, members, keys, k, i);
      } else {
        LastYields(cfg, f, members, keys, k);
      }
    }
  }

  lemma SuppressedIsOk(cfg: Config, f: Fleet, keys: seq<EdgeKey>)
    requires FleetOk(cfg, f)
    ensures FleetOk(cfg, WithSuppressed(f, keys))
  {
    SuppressedRowsOk(cfg, f, WithSuppressed(f, keys).edges, keys);
  }

  /** One turn of the loop. */
  lemma TurnYields(cfg: Config, f: Fleet, keys: seq<EdgeKey>, members: set<string>) returns (k: EdgeKey)
    requires FleetOk(cfg, f) && |keys| < cfg.maxBreaks
    requires
      var live := Live(cfg, WithSuppressed(f, keys), members);
      live != {} && !IsAtomic(cfg, WithSuppressed(f, keys), live)
    ensures YieldsNow(cfg, WithSuppressed(f, keys), members, k)
    ensures BreakLoop(cfg, Broken(WithSuppressed(f, keys), keys), members) ==
            BreakLoop(cfg, Broken(WithSuppressed(f, keys + [k]), keys + [k]), members)
  {
    var g := WithSuppressed(f, keys);
    AtomicExact(cfg, g, Live(cfg, g, members));
    SuppressedIsOk(cfg, f, keys);
    var next: Broken;
    next, k := BreakTurn(cfg, Broken(g, keys), members);
    CheapestExactly(cfg, g, FeedbackKeys(cfg, g, Live(cfg, g, members)));
    OneMoreSuppressed(f, keys, k);
  }

  lemma {:induction false} BreakLoopYields(cfg: Config, f: Fleet, keys: seq<EdgeKey>, members: set<string>)
    requires FleetOk(cfg, f) && YieldInTurn(cfg, f, members, keys) && |keys| <= cfg.maxBreaks
    ensures
      var r := BreakLoop(cfg, Broken(WithSuppressed(f, keys), keys), members);
      && r.fleet == WithSuppressed(f, r.keys) && YieldInTurn(cfg, f, members, r.keys) && |r.keys| <= cfg.maxBreaks
      && (Live(cfg, r.fleet, members) == {} || |r.keys| == cfg.maxBreaks
          || MustMoveTogether(cfg, r.fleet, Live(cfg, r.fleet, members)))
    decreases cfg.maxBreaks - |keys|
  {
    var g := WithSuppressed(f, keys);
    var live := Live(cfg, g, members);
    AtomicExact(cfg, g, live);
    if live != {} && |keys| < cfg.maxBreaks && !IsAtomic(cfg, g, live) {
      var k := TurnYields(cfg, f, keys, members);
      OneMoreYields(cfg, f, members, keys, k);
      BreakLoopYields(cfg, f, keys + [k], members);
    }
  }

  /**
   The 6d loop: every edge it breaks is, in the fleet left by the breaks before it, the feedback edge
   that yields first in a component that is live and may be broken; it suppresses exactly those
   edges; and it stops when the component is dissolved, the breaks are used up or nothing may yield.
   */
  lemma BreaksInTurn(cfg: Config, f: Fleet, members: set<string>)
    requires FleetOk(cfg, f)
    ensures
      var r := BreakLoop(cfg, Broken(f, []), members);
      && r.fleet == WithSuppressed(f, r.keys) && YieldInTurn(cfg, f, members, r.keys) && |r.keys| <= cfg.maxBreaks
      && (Live(cfg, r.fleet, members) == {} || |r.keys| == cfg.maxBreaks
          || MustMoveTogether(cfg, r.fleet, Live(cfg, r.fleet, members)))
  {
    SameMap(WithSuppressed(f, []).edges, f.edges);
    BreakLoopYields(cfg, f, [], members);
  }

  // ---------------------------------------------------------------------------------------
  // Which contract is tried
  // ---------------------------------------------------------------------------------------

  /** The nodes on a cycle with `n`, itself left out. */
  ghost function Tangle(cfg: Config, f: Fleet, n: NodeRef): set<NodeRef>
  {
    set v | v in f.nodes && v != n && Mutual(Arcs(cfg, f), n, v)
  }

  /** How much is left on a cycle with the owner of `c` once `c` alone is hoisted. */
  ghost function Remains(cfg: Config, f: Fleet, c: ContractNode): nat
    requires Injective(cfg) && c.owner.Some?
  {
    |Tangle(cfg, Trial(cfg, f, One(c)), Node(Repo, c.owner.value))|
  }

  /** Who a hoist of `c` reaches: its consumers and all that requires its owner. */
  ghost function Reach(f: Fleet, c: ContractNode): nat
    requires c.owner.Some?
  {
    |c.consumers| + |Requiring(f, Node(Repo, c.owner.value))|
  }

  ghost predicate AlikeTo(cfg: Config, f: Fleet, c: ContractNode, d: ContractNode, depth: nat)
    requires Injective(cfg) && c.owner.Some? && d.owner.Some?
  {
    && (depth > 0 ==> Remains(cfg, f, c) == Remains(cfg, f, d))
    && (depth > 1 ==> c.confidence == d.confidence)
    && (depth > 2 ==> Reach(f, c) == Reach(f, d))
  }

  /** Of `cs`, `id` is tried first: hoisting none of the others alone leaves less on a cycle with its
      owner; among equals none is more confident; then none reaches fewer; then the least id. */
  ghost predicate TriedFirst(cfg: Config, f: Fleet, cs: Contracts, id: string)
    requires Injective(cfg) && Scorable(cs)
  {
    && id in cs
    && (forall j :: j in cs ==> Remains(cfg, f, cs[id]) <= Remains(cfg, f, cs[j]))
    && (forall j :: j in cs && AlikeTo(cfg, f, cs[j], cs[id], 1) ==> cs[j].confidence <= cs[id].confidence)
    && (forall j :: j in cs && AlikeTo(cfg, f, cs[j], cs[id], 2) ==> Reach(f, cs[id]) <= Reach(f, cs[j]))
    && (forall j :: j in cs && AlikeTo(cfg, f, cs[j], cs[id], 3) ==> StrLe(id, j))
  }

  lemma SizeIsTangle(cfg: Config, f: Fleet, n: NodeRef)
    requires Rebuild(f.nodes, f.edges, cfg).Ok?
    ensures ComponentSize(f.nodes, Arcs(cfg, f), n) == |Tangle(cfg, f, n)| + 1
  {
    var arcs := Arcs(cfg, f);
    var tangle := Tangle(cfg, f, n);
    ReachesRefl(arcs, n);
    if n in f.nodes {
      assert Component(f.nodes, arcs, n) == tangle + {n};
    } else if v :| v in tangle {
      var k: nat :| ReachesIn(arcs, n, v, k);
      var w :| Arc(n, w) in arcs && ReachesIn(arcs, w, v, k - 1);
      ArcsInside(cfg, f, Arc(n, w));
      assert false;
    }
  }

  /** A contract's score, in these terms. */
  lemma ScoreExact(cfg: Config, f: Fleet, live: set<NodeRef>, c: ContractNode)
    requires FleetOk(cfg, f) && c.owner.Some? && !TrialFails(cfg, f, One(c))
    ensures ScoreOf(cfg, f, live, c) == Score(|live| - 1 - Remains(cfg, f, c), c.confidence, Reach(f, c), c.id)
  {
    SizeIsTangle(cfg, Trial(cfg, f, One(c)), Node(Repo, c.owner.value));
    RequiringExact(cfg, f, Node(Repo, c.owner.value));
  }

  ghost predicate AllBuild(cfg: Config, f: Fleet, cs: Contracts)
    requires Injective(cfg)
  {
    forall id :: id in cs ==> !TrialFails(cfg, f, One(cs[id]))
  }

  lemma PickIsTriedFirst(cfg: Config, f: Fleet, live: set<NodeRef>, cs: Contracts, id: string)
    requires FleetOk(cfg, f) && Scorable(cs) && AllBuild(cfg, f, cs) && IsPick(cfg, f, live, cs, id)
    ensures TriedFirst(cfg, f, cs, id)
  {
    ScoreExact(cfg, f, live, cs[id]);
    forall j | j in cs
      ensures Remains(cfg, f, cs[id]) <= Remains(cfg, f, cs[j])
      ensures AlikeTo(cfg, f, cs[j], cs[id], 1) ==> cs[j].confidence <= cs[id].confidence
      ensures AlikeTo(cfg, f, cs[j], cs[id], 2) ==> Reach(f, cs[id]) <= Reach(f, cs[j])
      ensures AlikeTo(cfg, f, cs[j], cs[id], 3) ==> StrLe(id, j)
    {
      ScoreExact(cfg, f, live, cs[j]);
      assert ScoreLe(ScoreOf(cfg, f, live, cs[id]), ScoreOf(cfg, f, live, cs[j]));
    }
  }

  /** One contract is tried first. */
  lemma OneTriedFirst(cfg: Config, f: Fleet, cs: Contracts, a: string, b: string)
    requires Injective(cfg) && Scorable(cs) && TriedFirst(cfg, f, cs, a) && TriedFirst(cfg, f, cs, b)
    ensures a == b
  {
    assert AlikeTo(cfg, f, cs[a], cs[b], 1) && AlikeTo(cfg, f, cs[b], cs[a], 1);
    assert AlikeTo(cfg, f, cs[a], cs[b], 2) && AlikeTo(cfg, f, cs[b], cs[a], 2);
    assert AlikeTo(cfg, f, cs[a], cs[b], 3) && AlikeTo(cfg, f, cs[b], cs[a], 3);
    StrLeAntisymmetric(a, b);
  }

  lemma PickExactly(cfg: Config, f: Fleet, live: set<NodeRef>, cs: Contracts)
    requires FleetOk(cfg, f) && Scorable(cs) && cs != map[] && AllBuild(cfg, f, cs)
    ensures forall id :: TriedFirst(cfg, f, cs, id) <==> id == Pick(cfg, f, live, cs)
  {
    var pick := Pick(cfg, f, live, cs);
    PickIsTriedFirst(cfg, f, live, cs, pick);
    forall id | TriedFirst(cfg, f, cs, id)
      ensures id == pick
    {
      OneTriedFirst(cfg, f, cs, id, pick);
    }
  }

  // ---------------------------------------------------------------------------------------
  // Whether it is kept
  // ---------------------------------------------------------------------------------------

  /** `s` will consume `c` once it is hoisted: it does already, a row of its own rests on a file `c`
      lists, or `c` names it a consumer and lists a file of it. */
  ghost predicate Shares(edges: Edges, c: ContractNode, s: string)
  {
    || (exists k :: k in edges && k.kind == ContractConsume && edges[k].dst == Node(Contract, c.id) && k.src.id == s)
    || (exists k :: k in edges && IsRepoEdge(edges[k]) && k.src.id == s && UsesAt(c, s, k.path))
    || (s in c.consumers && exists path :: UsesAt(c, s, path))
  }

  ghost function Sharers(edges: Edges, c: ContractNode): set<string>
  {
    set s | s in (set k | k in edges :: k.src.id) + (set r | r in c.consumers) && Shares(edges, c, s)
  }

  lemma RetargetedShares(edges: Edges, c: ContractNode, j: EdgeKey)
    requires RowsOk(edges) && j in edges && After(One(c), edges[j]).key.kind == ContractConsume
    requires After(One(c), edges[j]).dst == Node(Contract, c.id)
    ensures Shares(edges, c, j.src.id)
  {
    if Claimed(One(c), edges[j]) {
      var id :| id in Claimants(One(c), Evidence(edges[j]));
      assert UsesAt(c, j.src.id, j.path);
    }
  }

  lemma InferredShares(edges: Edges, c: ContractNode, e: Edge)
    requires e in InferredFor(c) && e.key.kind == ContractConsume
    ensures Shares(edges, c, e.key.src.id)
  {
    assert UsesAt(c, e.key.src.id, e.key.path);
  }

  lemma ConsumerShares(cfg: Config, edges: Edges, c: ContractNode, k: EdgeKey)
    requires Injective(cfg) && RowsOk(edges) && k in Materialized(cfg, edges, One(c))
    requires k.kind == ContractConsume && Materialized(cfg, edges, One(c))[k].dst == Node(Contract, c.id)
    ensures Shares(edges, c, k.src.id)
  {
    assert c.id in One(c);
    var j := MaterializedRow(cfg, edges, One(c), k);
    var row := Materialized(cfg, edges, One(c))[k];
    if k in AfterKeys(One(c), edges) {
      AfterFacts(One(c), edges[j]);
      RetargetedShares(edges, c, j);
    } else {
      var id :| id in One(c) && row in InferredFor(One(c)[id]);
      InferredShares(edges, c, row);
    }
  }

  lemma SharerConsumes(cfg: Config, edges: Edges, c: ContractNode, s: string)
    requires Injective(cfg) && RowsOk(edges) && Shares(edges, c, s)
    ensures s in Consumers(Materialized(cfg, edges, One(c)), c.id)
  {
    var cs := One(c);
    var out := Materialized(cfg, edges, cs);
    MaterializedOk(cfg, edges, cs);
    MaterializedConsumers(cfg, edges, cs, c.id);
    if k :| k in edges && k.kind == ContractConsume && edges[k].dst == Node(Contract, c.id) && k.src.id == s {
      assert s in Consumers(edges, c.id);
    } else if k :| k in edges && IsRepoEdge(edges[k]) && k.src.id == s && UsesAt(c, s, k.path) {
      assert c.id in Claimants(cs, Evidence(edges[k]));
      MaterializedKeepsEvidence(cfg, edges, cs, k);
      assert RowOk(out[After(cs, edges[k]).key]);
    } else {
      var path :| UsesAt(c, s, path);
      var e := ContractEdge(s, c.id, ContractConsume, path);
      assert PathEntry(s, path) in Entries(c);
      assert e in InferredFor(cs[c.id]);
      assert e.key in InferredKeys(cs);
      assert RowOk(out[e.key]);
    }
  }

  /** The consumers a trial counts are the repositories that share the contract. */
  lemma ConsumersExact(cfg: Config, f: Fleet, c: ContractNode)
    requires Injective(cfg) && RowsOk(f.edges)
    ensures Consumers(Trial(cfg, f, One(c)).edges, c.id) == Sharers(f.edges, c)
  {
    var out := Materialized(cfg, f.edges, One(c));
    forall s
      ensures s in Consumers(out, c.id) <==> s in Sharers(f.edges, c)
    {
      if s in Consumers(out, c.id) {
        var k :| k in out && out[k].dst == Node(Contract, c.id) && k.kind == ContractConsume && k.src.id == s;
        ConsumerShares(cfg, f.edges, c, k);
        assert s in (set k | k in f.edges :: k.src.id) + (set r | r in c.consumers);
      }
      if Shares(f.edges, c, s) {
        SharerConsumes(cfg, f.edges, c, s);
      }
    }
  }

  // ---------------------------------------------------------------------------------------
  // Every turn of the hoisting loop
  // ---------------------------------------------------------------------------------------

  /** What may be hoisted for `members`. */
  ghost predicate IsOffered(cfg: Config, f: Fleet, members: set<string>, c: ContractNode)
  {
    && c.status == Extractable && c.extractable && c.owner.Some? && c.owner.value in members
    && cfg.minExtraction <= c.confidence && !(c.id in f.committed || c.id in cfg.forbidden)
  }

  /** A turn on a component that is still live: the contract tried first is hoisted if enough
      repositories share it, and otherwise rejected with the fleet left as it was. */
  ghost predicate TurnTaken(cfg: Config, s: Hoisting, id: string, t: Hoisting, members: set<string>, minConsumers: nat)
  {
    && Injective(cfg) && Scorable(s.remaining)
    && Live(cfg, s.fleet, members) != {} && |s.hoisted| < cfg.maxHoists
    && TriedFirst(cfg, s.fleet, s.remaining, id) && t.remaining == s.remaining - {id}
    && var c := s.remaining[id];
       if |Sharers(s.fleet.edges, c)| >= minConsumers then
         && t.hoisted == s.hoisted + [id] && t.rejected == s.rejected
         && t.fleet == Trial(cfg, s.fleet, One(c)).(committed := s.fleet.committed[id := c.(status := Hoisted)])
       else
         && t.hoisted == s.hoisted && t.fleet == s.fleet
         && t.rejected == s.rejected + [c.(status := Rejected, detail := "not_shared_after_retarget")]
  }

  /** `states` are what the turns `ids` lead through. */
  ghost predicate TurnsTaken(cfg: Config, states: seq<Hoisting>, ids: seq<string>, members: set<string>,
      minConsumers: nat)
  {
    && |states| == |ids| + 1
    && forall i :: 0 <= i < |ids| ==> TurnAt(cfg, states, ids, members, minConsumers, i)
  }

  /** Turn `i` of a run of turns. */
  ghost predicate TurnAt(cfg: Config, states: seq<Hoisting>, ids: seq<string>, members: set<string>,
      minConsumers: nat, i: nat)
    requires i < |ids| && |states| == |ids| + 1
  {
    TurnTaken(cfg, states[i], ids[i], states[i + 1], members, minConsumers)
  }

  ghost predicate HoistingDone(cfg: Config, h: Hoisting, members: set<string>)
  {
    Live(cfg, h.fleet, members) == {} || h.remaining == map[] || |h.hoisted| >= cfg.maxHoists
  }

  lemma TurnKeepsOk(cfg: Config, h: Hoisting, id: string)
    requires FleetOk(cfg, h.fleet) && id in h.remaining && !TrialFails(cfg, h.fleet, One(h.remaining[id]))
    ensures FleetOk(cfg, Commit(cfg, h, id).fleet) && FleetOk(cfg, Reject(h, id).fleet)
  {
    TrialWithin(cfg, h.fleet, One(h.remaining[id]));
  }

  lemma TakenBy(cfg: Config, h: Hoisting, id: string, members: set<string>, minConsumers: nat)
    requires FleetOk(cfg, h.fleet) && Scorable(h.remaining) && !HoistingDone(cfg, h, members)
    requires TriedFirst(cfg, h.fleet, h.remaining, id)
    ensures |Consumers(Trial(cfg, h.fleet, One(h.remaining[id])).edges, id)| < minConsumers ==>
              TurnTaken(cfg, h, id, Reject(h, id), members, minConsumers)
    ensures |Consumers(Trial(cfg, h.fleet, One(h.remaining[id])).edges, id)| >= minConsumers ==>
              TurnTaken(cfg, h, id, Commit(cfg, h, id), members, minConsumers)
  {
    ConsumersExact(cfg, h.fleet, h.remaining[id]);
  }

  lemma TurnIsTaken(cfg: Config, h: Hoisting, members: set<string>, minConsumers: nat) returns (id: string)
    requires FleetOk(cfg, h.fleet) && Scorable(h.remaining) && !HoistingDone(cfg, h, members) && !AnyTrialFails(cfg, h)
    ensures TurnTaken(cfg, h, id, HoistTurn(cfg, h, members, minConsumers), members, minConsumers)
    ensures FleetOk(cfg, HoistTurn(cfg, h, members, minConsumers).fleet)
  {
    var live := Live(cfg, h.fleet, members);
    id := Pick(cfg, h.fleet, live, h.remaining);
    PickExactly(cfg, h.fleet, live, h.remaining);
    assert !TrialFails(cfg, h.fleet, One(h.remaining[id]));
    TurnKeepsOk(cfg, h, id);
    TakenBy(cfg, h, id, members, minConsumers);
  }

  lemma TurnBefore(cfg: Config, h: Hoisting, id: string, states: seq<Hoisting>, ids: seq<string>,
      members: set<string>, minConsumers: nat)
    requires TurnsTaken(cfg, states, ids, members, minConsumers)
    requires TurnTaken(cfg, h, id, states[0], members, minConsumers)
    ensures TurnsTaken(cfg, [h] + states, [id] + ids, members, minConsumers)
  {
    var more, turns := [h] + states, [id] + ids;
    forall i | 0 <= i < |turns|
      ensures TurnAt(cfg, more, turns, members, minConsumers, i)
    {
      if i > 0 {
        TurnShifts(cfg, h, id, states, ids, members, minConsumers, i - 1);
      } else {
        assert TurnAt(cfg, more, turns, members, minConsumers, 0);
      }
    }
  }

  lemma TurnShifts(cfg: Config, h: Hoisting, id: string, states: seq<Hoisting>, ids: seq<string>,
      members: set<string>, minConsumers: nat, i: nat)
    requires |states| == |ids| + 1 && i < |ids| && TurnAt(cfg, states, ids, members, minConsumers, i)
    ensures TurnAt(cfg, [h] + states, [id] + ids, members, minConsumers, i + 1)
  {
  }

  lemma {:induction false} HoistLoopTurns(cfg: Config, h: Hoisting, members: set<string>, minConsumers: nat)
    returns (states: seq<Hoisting>, ids: seq<string>)
    requires FleetOk(cfg, h.fleet) && Scorable(h.remaining) && HoistLoop(cfg, h, members, minConsumers).Ok?
    ensures TurnsTaken(cfg, states, ids, members, minConsumers)
    ensures
      var r := HoistLoop(cfg, h, members, minConsumers).value;
      states[0] == h && states[|ids|] == r && HoistingDone(cfg, r, members)
    decreases |h.remaining|
  {
    if HoistingDone(cfg, h, members) {
      states, ids := [h], [];
    } else {
      HoistTurnShrinks(cfg, h, members, minConsumers);
      var id := TurnIsTaken(cfg, h, members, minConsumers);
      states, ids := HoistLoopTurns(cfg, HoistTurn(cfg, h, members, minConsumers), members, minConsumers);
      TurnBefore(cfg, h, id, states, ids, members, minConsumers);
      states, ids := [h] + states, [id] + ids;
    }
  }

  /** Hoisting for one component: nothing, when nothing is offered or hoisting all that is offered
      leaves it live; otherwise the turns `ids`, from all that is offered to the end. */
  ghost predicate HoistsInTurn(cfg: Config, f: Fleet, contracts: Contracts, members: set<string>, minConsumers: nat,
      h: Hoisting, states: seq<Hoisting>, ids: seq<string>)
    requires Injective(cfg)
  {
    exists cs: Contracts {:trigger Trial(cfg, f, cs)} ::
      && (forall id :: id in cs <==> id in contracts && IsOffered(cfg, f, members, contracts[id]))
      && (forall id :: id in cs ==> cs[id] == contracts[id])
      && if cs == map[] || Live(cfg, Trial(cfg, f, cs), members) != {} then h == Hoisting(f, map[], [], [])
         else
           && TurnsTaken(cfg, states, ids, members, minConsumers) && HoistingDone(cfg, h, members)
           && states[0] == Hoisting(f, cs, [], []) && states[|ids|] == h
  }

  lemma HoistTurns(cfg: Config, f: Fleet, contracts: Contracts, members: set<string>, minConsumers: nat)
    returns (states: seq<Hoisting>, ids: seq<string>)
    requires FleetOk(cfg, f) && ContractsOk(contracts) && Hoist(cfg, f, contracts, members, minConsumers).Ok?
    ensures
      var h := Hoist(cfg, f, contracts, members, minConsumers).value;
      HoistsInTurn(cfg, f, contracts, members, minConsumers, h, states, ids)
  {
    var cs := Candidates(cfg, f, contracts, members);
    CandidatesScorable(cfg, f, contracts, members);
    var t := Trial(cfg, f, cs);
    states, ids := [], [];
    if cs != map[] && Live(cfg, t, members) == {} {
      states, ids := HoistLoopTurns(cfg, Hoisting(f, cs, [], []), members, minConsumers);
    }
  }

  // ---------------------------------------------------------------------------------------
  // One component, and all of them
  // ---------------------------------------------------------------------------------------

  /** Hoisting led from `f` to `h`, if it is switched on at all. */
  ghost predicate HoistedTo(cfg: Config, f: Fleet, contracts: Contracts, members: set<string>, minConsumers: nat,
      h: Hoisting, states: seq<Hoisting>, ids: seq<string>)
    requires Injective(cfg)
  {
    if cfg.hoistContracts then HoistsInTurn(cfg, f, contracts, members, minConsumers, h, states, ids)
    else h == Hoisting(f, map[], [], [])
  }

  /** What the ladder did for the members of `x`, in the fleet `f`, leaving the fleet `g`: hoisted in
      turn to `h`, then broke in turn, and named its strategy by what was still live when. */
  ghost predicate SettledBy(cfg: Config, f: Fleet, contracts: Contracts, minConsumers: nat, x: Resolution, g: Fleet,
      h: Hoisting, states: seq<Hoisting>, ids: seq<string>)
    requires Injective(cfg)
  {
    && HoistedTo(cfg, f, contracts, x.members, minConsumers, h, states, ids)
    && x.hoisted == h.hoisted && YieldInTurn(cfg, h.fleet, x.members, x.broken) && |x.broken| <= cfg.maxBreaks
    && g == WithSuppressed(h.fleet, x.broken)
    && x.strategy ==
       (if Live(cfg, h.fleet, x.members) == {} then ContractHoist
        else if Live(cfg, g, x.members) == {} then EdgeBreak else AtomicWave)
    && (x.strategy == AtomicWave ==>
          |x.broken| == cfg.maxBreaks || MustMoveTogether(cfg, g, Live(cfg, g, x.members)))
  }

  /** The feedback recorded for a component, the break proposed for it and all that was done. */
  ghost predicate ChosenFor(cfg: Config, f: Fleet, component: set<NodeRef>, contracts: Contracts, minConsumers: nat,
      x: Resolution, g: Fleet)
    requires Injective(cfg)
  {
    && x.members == MemberIds(component) && x.feedback == FeedbackKeys(cfg, f, component)
    && (x.proposed.None? ==> x.feedback == {})
    && (x.proposed.Some? ==> YieldsFirst(cfg, f, x.feedback, x.proposed.value))
    && if |x.members| > cfg.hardMax then x.strategy == Manual && x.hoisted == [] && x.broken == [] && g == f
       else exists h, states, ids :: SettledBy(cfg, f, contracts, minConsumers, x, g, h, states, ids)
  }

  /** Hoisting dissolved the component: nothing is left to break. */
  lemma NothingToBreak(cfg: Config, f: Fleet, members: set<string>)
    ensures WithSuppressed(f, []) == f && YieldInTurn(cfg, f, members, [])
  {
    SameMap(WithSuppressed(f, []).edges, f.edges);
  }

  lemma TurnsAfterHoist(cfg: Config, f: Fleet, contracts: Contracts, members: set<string>, minConsumers: nat)
    returns (states: seq<Hoisting>, ids: seq<string>)
    requires FleetOk(cfg, f) && ContractsOk(contracts) && AfterHoist(cfg, f, contracts, members, minConsumers).Ok?
    ensures
      var h := AfterHoist(cfg, f, contracts, members, minConsumers).value;
      HoistedTo(cfg, f, contracts, members, minConsumers, h, states, ids)
  {
    states, ids := [], [];
    if cfg.hoistContracts {
      states, ids := HoistTurns(cfg, f, contracts, members, minConsumers);
    }
  }

  lemma ProposedIsRecorded(cfg: Config, f: Fleet, component: set<NodeRef>, contracts: Contracts, minConsumers: nat)
    requires Injective(cfg) && ContractsOk(contracts) && Resolve(cfg, f, component, contracts, minConsumers).Ok?
    ensures
      var x := Resolve(cfg, f, component, contracts, minConsumers).value.resolution;
      x.feedback == FeedbackKeys(cfg, f, component) && x.proposed == Cheapest(cfg, f, x.feedback)
  {
  }

  lemma BreakingSettles(cfg: Config, f: Fleet, contracts: Contracts, minConsumers: nat, base: Resolution,
      h: Hoisting, states: seq<Hoisting>, ids: seq<string>)
    requires FleetOk(cfg, h.fleet) && HoistedTo(cfg, f, contracts, base.members, minConsumers, h, states, ids)
    requires Live(cfg, h.fleet, base.members) != {}
    ensures
      var r := BreakOrMerge(cfg, h, base);
      SettledBy(cfg, f, contracts, minConsumers, r.resolution, r.fleet, h, states, ids)
  {
    BreaksInTurn(cfg, h.fleet, base.members);
  }

  lemma HoistingSettles(cfg: Config, f: Fleet, contracts: Contracts, minConsumers: nat, base: Resolution,
      h: Hoisting, states: seq<Hoisting>, ids: seq<string>)
    requires FleetOk(cfg, h.fleet) && HoistedTo(cfg, f, contracts, base.members, minConsumers, h, states, ids)
    requires Live(cfg, h.fleet, base.members) == {} && base.broken == []
    ensures
      var x := base.(hoisted := h.hoisted, strategy := ContractHoist);
      SettledBy(cfg, f, contracts, minConsumers, x, h.fleet, h, states, ids)
  {
    NothingToBreak(cfg, h.fleet, base.members);
  }

  lemma ResolveSettles(cfg: Config, f: Fleet, component: set<NodeRef>, contracts: Contracts, minConsumers: nat)
    returns (h: Hoisting, states: seq<Hoisting>, ids: seq<string>)
    requires FleetOk(cfg, f) && ContractsOk(contracts) && Resolve(cfg, f, component, contracts, minConsumers).Ok?
    requires |MemberIds(component)| <= cfg.hardMax
    ensures
      var r := Resolve(cfg, f, component, contracts, minConsumers).value;
      && r.resolution.members == MemberIds(component)
      && SettledBy(cfg, f, contracts, minConsumers, r.resolution, r.fleet, h, states, ids)
  {
    var out, base;
    out, base, h := ResolveCases(cfg, f, component, contracts, minConsumers);
    AfterHoistExact(cfg, f, contracts, base.members, minConsumers);
    states, ids := TurnsAfterHoist(cfg, f, contracts, base.members, minConsumers);
    if Live(cfg, h.fleet, base.members) != {} {
      BreakingSettles(cfg, f, contracts, minConsumers, base, h, states, ids);
    } else {
      HoistingSettles(cfg, f, contracts, minConsumers, base, h, states, ids);
    }
  }

  /** The ladder of one component, in these terms. */
  lemma ResolveChooses(cfg: Config, f: Fleet, component: set<NodeRef>, contracts: Contracts, minConsumers: nat)
    requires FleetOk(cfg, f) && ContractsOk(contracts) && Resolve(cfg, f, component, contracts, minConsumers).Ok?
    ensures
      var r := Resolve(cfg, f, component, contracts, minConsumers).value;
      ChosenFor(cfg, f, component, contracts, minConsumers, r.resolution, r.fleet)
  {
    ProposedIsRecorded(cfg, f, component, contracts, minConsumers);
    CheapestExactly(cfg, f, FeedbackKeys(cfg, f, component));
    if |MemberIds(component)| <= cfg.hardMax {
      var h, states, ids := ResolveSettles(cfg, f, component, contracts, minConsumers);
    }
  }

  /** Some fleet on the way was the one `x` was decided in. */
  ghost predicate ChosenOnTheWay(cfg: Config, opening: Fleet, components: seq<set<NodeRef>>, contracts: Contracts,
      minConsumers: nat, x: Resolution)
    requires Injective(cfg)
  {
    exists f, c, g ::
      && FleetOk(cfg, f) && Within(cfg, opening, f) && c in components
      && ChosenFor(cfg, f, c, contracts, minConsumers, x, g)
  }

  ghost predicate AllChosen(cfg: Config, opening: Fleet, components: seq<set<NodeRef>>, contracts: Contracts,
      minConsumers: nat, xs: seq<Resolution>)
    requires Injective(cfg)
  {
    forall x :: x in xs ==> ChosenOnTheWay(cfg, opening, components, contracts, minConsumers, x)
  }

  lemma ChosenNow(cfg: Config, opening: Fleet, components: seq<set<NodeRef>>, r: Report, c: set<NodeRef>,
      contracts: Contracts, minConsumers: nat, next: Report)
    requires FleetOk(cfg, r.fleet) && Within(cfg, opening, r.fleet) && c in components && ContractsOk(contracts)
    requires Resolve(cfg, r.fleet, c, contracts, minConsumers).Ok?
    requires next.resolutions == r.resolutions + [Resolve(cfg, r.fleet, c, contracts, minConsumers).value.resolution]
    requires AllChosen(cfg, opening, components, contracts, minConsumers, r.resolutions)
    ensures AllChosen(cfg, opening, components, contracts, minConsumers, next.resolutions)
  {
    var one := Resolve(cfg, r.fleet, c, contracts, minConsumers).value;
    ResolveChooses(cfg, r.fleet, c, contracts, minConsumers);
    assert ChosenOnTheWay(cfg, opening, components, contracts, minConsumers, one.resolution);
  }

  lemma {:induction false} ResolveAllChooses(cfg: Config, opening: Fleet, components: seq<set<NodeRef>>, r: Report,
      pending: seq<set<NodeRef>>, contracts: Contracts, minConsumers: nat)
    requires Ladder(cfg, opening, components, r, minConsumers) && ContractsOk(contracts)
    requires forall c :: c in pending ==> c in components
    requires AllChosen(cfg, opening, components, contracts, minConsumers, r.resolutions)
    ensures
      var out := ResolveAll(cfg, r, pending, contracts, minConsumers);
      out.Ok? ==> AllChosen(cfg, opening, components, contracts, minConsumers, out.value.resolutions)
    decreases |pending|
  {
    if pending != [] {
      var c, rest := pending[0], pending[1..];
      assert pending == [c] + rest;
      ResolveAllUnfolds(cfg, r, pending, contracts, minConsumers);
      if |MemberIds(c)| < 2 {
        ResolveAllChooses(cfg, opening, components, r, rest, contracts, minConsumers);
      } else if Resolve(cfg, r.fleet, c, contracts, minConsumers).Ok? {
        var next := ResolveNext(cfg, opening, components, r, c, contracts, minConsumers);
        ChosenNow(cfg, opening, components, r, c, contracts, minConsumers, next);
        ResolveAllChooses(cfg, opening, components, next, rest, contracts, minConsumers);
      }
    }
  }

  /** Step 6 starts with the contracts an earlier run hoisted or migrated in place, and no others. */
  lemma OpeningExact(cfg: Config, nodes: set<NodeRef>, edges: Edges, contracts: Contracts)
    requires Injective(cfg) && ContractsOk(contracts)
    ensures
      var opening := Opening(cfg, nodes, edges, contracts);
      && (forall id :: id in opening.committed <==>
            id in contracts && (contracts[id].status == Hoisted || contracts[id].status == Migrated))
      && (forall id :: id in opening.committed ==> opening.committed[id] == contracts[id])
      && (forall n :: n in opening.nodes <==> n in nodes || (n.kind.Contract? && n.id in opening.committed))
      && opening.edges == Materialized(cfg, edges, opening.committed)
  {
    var pre := Precommitted(contracts);
    forall n
      ensures n in Refs(pre) <==> n.kind.Contract? && n.id in pre
    {
      if n.kind.Contract? && n.id in pre {
        assert n == ContractRef(pre[n.id]);
      }
    }
  }

  /**
   Step 6 as a whole: whatever it reports of a component was chosen in a fleet it had reached by then,
   the feedback and the proposed break at first sight, the hoists and breaks turn by turn.
   */
  lemma StepSixChooses(cfg: Config, nodes: set<NodeRef>, edges: Edges, contracts: Contracts, minConsumers: nat)
    requires Injective(cfg) && RowsOk(edges) && ContractsOk(contracts)
    requires Break(cfg, nodes, edges, contracts, minConsumers).Ok?
    ensures
      var opening := Opening(cfg, nodes, edges, contracts);
      var components := NontrivialSccs(opening.nodes, Arcs(cfg, opening));
      forall x :: x in Break(cfg, nodes, edges, contracts, minConsumers).value.resolutions ==>
        ChosenOnTheWay(cfg, opening, components, contracts, minConsumers, x)
  {
    var f := Opening(cfg, nodes, edges, contracts);
    MaterializedOk(cfg, edges, Precommitted(contracts));
    KeepsReflexive(f);
    var components := NontrivialSccs(f.nodes, Arcs(cfg, f));
    ResolveAllChooses(cfg, f, components, Report(f, [], []), components, contracts, minConsumers);
  }
}
