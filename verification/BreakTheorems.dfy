/**
 Step 6d: while a component is live there is always an edge to break, every break shrinks the
 ordering edges, and nothing but suppression flags changes.
 */
module BreakTheorems {
  import opened Options
  import opened Digraph
  import opened NodeOrder
  import opened DfsClasses
  import opened FleetModel
  import opened Components
  import opened Cycles
  import opened FleetSteps

  lemma {:induction false} InnerWalk(nodes: set<NodeRef>, arcs: Dag<NodeRef>, u: NodeRef, v: NodeRef, n: nat)
    requires forall a :: a in arcs ==> a.src in nodes && a.dst in nodes
    requires u in nodes && ReachesIn(arcs, u, v, n) && Reaches(arcs, v, u)
    ensures ReachesIn(InnerArcs(arcs, Component(nodes, arcs, u)), u, v, n)
    decreases n
  {
    if n > 0 {
      var w :| Arc(u, w) in arcs && ReachesIn(arcs, w, v, n - 1);
      ReachesArc(arcs, u, w);
      ReachesTrans(arcs, v, u, w);
      assert Reaches(arcs, w, v);
      ReachesTrans(arcs, w, v, u);
      SameComponent(nodes, arcs, u, w);
      InnerWalk(nodes, arcs, w, v, n - 1);
      ReachesRefl(arcs, u);
      assert Arc(u, w) in InnerArcs(arcs, Component(nodes, arcs, u));
    }
  }

  /** Two distinct nodes that reach each other lie on a cycle. */
  lemma TangleIsCycle(arcs: Dag<NodeRef>, u: NodeRef, v: NodeRef)
    requires u != v && Mutual(arcs, u, v)
    ensures !Acyclic(arcs)
  {
    var n: nat :| ReachesIn(arcs, u, v, n);
    var w :| Arc(u, w) in arcs && ReachesIn(arcs, w, v, n - 1);
    assert Reaches(arcs, w, v);
    ReachesTrans(arcs, w, v, u);
    assert Arc(u, w) in arcs && Reaches(arcs, Arc(u, w).dst, Arc(u, w).src);
  }

  lemma LiveIsCyclic(cfg: Config, f: Fleet, members: set<string>)
    requires FleetOk(cfg, f) && Live(cfg, f, members) != {}
    ensures !Acyclic(InnerArcs(Arcs(cfg, f), Live(cfg, f, members)))
  {
    var live := Live(cfg, f, members);
    var arcs := Arcs(cfg, f);
    var u, v := LiveHasTangle(f.nodes, arcs, members);
    LiveIsScc(f.nodes, arcs, members);
    var w :| w in f.nodes && live == Component(f.nodes, arcs, w);
    SameComponent(f.nodes, arcs, w, u);
    SameComponent(f.nodes, arcs, w, v);
    forall a | a in arcs
      ensures a.src in f.nodes && a.dst in f.nodes
    {
      ArcsInside(cfg, f, a);
    }
    var m: nat :| ReachesIn(arcs, u, v, m);
    var n: nat :| ReachesIn(arcs, v, u, n);
    InnerWalk(f.nodes, arcs, u, v, m);
    InnerWalk(f.nodes, arcs, v, u, n);
    assert Reaches(InnerArcs(arcs, live), u, v) && Reaches(InnerArcs(arcs, live), v, u);
    TangleIsCycle(InnerArcs(arcs, live), u, v);
  }

  /** The loop never runs out of feedback edges, and a feedback edge joins two live repositories. */
  lemma LiveHasFeedback(cfg: Config, f: Fleet, members: set<string>)
    requires FleetOk(cfg, f) && Live(cfg, f, members) != {}
    ensures FeedbackKeys(cfg, f, Live(cfg, f, members)) != {}
    ensures forall k :: k in FeedbackKeys(cfg, f, Live(cfg, f, members)) ==>
              k in OrderingKeys(cfg, f.edges) && k.src.kind.Repo? && f.edges[k].dst.kind.Repo?
  {
    var live, arcs := Live(cfg, f, members), Arcs(cfg, f);
    LiveIsCyclic(cfg, f, members);
    var a := CycleHasBackArc(arcs, live);
    var k := RowBehind(cfg, f.edges, a);
    assert k in FeedbackKeys(cfg, f, live);
    ArcsTrap(cfg, f);
    ClassifyExact(arcs, live);
    forall j | j in FeedbackKeys(cfg, f, live)
      ensures j.src.kind.Repo? && f.edges[j].dst.kind.Repo?
    {
      assert ArcOf(f.edges[j]) in BackArcs(arcs, live);
      assert ArcOf(f.edges[j]) in InnerArcs(arcs, live);
      assert RowOk(f.edges[j]);
      LiveIsRepos(f.nodes, arcs, members, j.src);
      LiveIsRepos(f.nodes, arcs, members, f.edges[j].dst);
    }
  }

  ghost predicate DistinctKeys(keys: seq<EdgeKey>)
  {
    forall i, j :: 0 <= i < j < |keys| ==> keys[i] != keys[j]
  }

  /** What the loop has done: distinct ordering rows that leave a repository were suppressed,
      each has left the ordering set, and nothing else has changed. */
  ghost predicate RowsBroken(cfg: Config, start: Edges, now: Edges, keys: seq<EdgeKey>)
  {
    && OnlySuppressed(start, now, keys)
    && DistinctKeys(keys)
    && (forall k :: k in keys ==> k in OrderingKeys(cfg, start) && k.src.kind.Repo?)
    && OrderingKeys(cfg, now) == OrderingKeys(cfg, start) - (set k | k in keys)
  }

  ghost predicate BrokenSoFar(cfg: Config, start: Fleet, b: Broken)
  {
    && b.fleet == start.(edges := b.fleet.edges)
    && RowsBroken(cfg, start.edges, b.fleet.edges, b.keys)
  }

  /** A suppressed row keeps everything but its flag, and orders nothing any more. */
  lemma SuppressExact(cfg: Config, edges: Edges, key: EdgeKey)
    ensures Suppress(edges, key).Keys == edges.Keys
    ensures forall k :: k in edges ==>
              Suppress(edges, key)[k] == if k == key then edges[k].(suppressed := true) else edges[k]
    ensures OrderingKeys(cfg, Suppress(edges, key)) == OrderingKeys(cfg, edges) - {key}
  {
  }

  lemma BreakRow(cfg: Config, start: Edges, now: Edges, keys: seq<EdgeKey>, k: EdgeKey)
    requires RowsBroken(cfg, start, now, keys) && k in OrderingKeys(cfg, now) && k.src.kind.Repo?
    ensures RowsBroken(cfg, start, Suppress(now, k), keys + [k])
  {
    SuppressExact(cfg, now, k);
    assert k !in keys;
    assert forall j :: j in keys + [k] <==> j in keys || j == k;
  }

  /** One turn of the loop on a live component breaks one feedback edge. */
  lemma BreakTurn(cfg: Config, b: Broken, members: set<string>) returns (next: Broken, k: EdgeKey)
    requires FleetOk(cfg, b.fleet)
    requires
      var live := Live(cfg, b.fleet, members);
      live != {} && |b.keys| < cfg.maxBreaks && !IsAtomic(cfg, b.fleet, live)
    ensures k in OrderingKeys(cfg, b.fleet.edges) && k.src.kind.Repo?
    ensures Cheapest(cfg, b.fleet, FeedbackKeys(cfg, b.fleet, Live(cfg, b.fleet, members))) == Some(k)
    ensures next == Broken(b.fleet.(edges := Suppress(b.fleet.edges, k)), b.keys + [k])
    ensures BreakLoop(cfg, b, members) == BreakLoop(cfg, next, members)
  {
    var live := Live(cfg, b.fleet, members);
    LiveHasFeedback(cfg, b.fleet, members);
    k := Cheapest(cfg, b.fleet, FeedbackKeys(cfg, b.fleet, live)).value;
    next := Broken(b.fleet.(edges := Suppress(b.fleet.edges, k)), b.keys + [k]);
  }

  /**
   The whole loop: distinct ordering edges are broken, each leaves the ordering set, only
   suppression flags change, and it stops because the component dissolved, the budget ran
   out, or nothing weak enough is left.
   */
  lemma {:induction false} BreakLoopExact(cfg: Config, start: Fleet, b: Broken, members: set<string>)
    requires FleetOk(cfg, start) && BrokenSoFar(cfg, start, b)
    ensures
      var r := BreakLoop(cfg, b, members);
      && BrokenSoFar(cfg, start, r)
      && b.keys <= r.keys
      && (Live(cfg, r.fleet, members) == {} || |r.keys| >= cfg.maxBreaks
          || IsAtomic(cfg, r.fleet, Live(cfg, r.fleet, members)))
    decreases cfg.maxBreaks - |b.keys|
  {
    var live := Live(cfg, b.fleet, members);
    if live != {} && |b.keys| < cfg.maxBreaks && !IsAtomic(cfg, b.fleet, live) {
      SuppressedRowsOk(cfg, start, b.fleet.edges, b.keys);
      var next, k := BreakTurn(cfg, b, members);
      BreakRow(cfg, start.edges, b.fleet.edges, b.keys, k);
      BreakLoopExact(cfg, start, next, members);
    }
  }

  /** EDGE_BREAK is only reported with at least one broken edge. */
  lemma EdgeBreakIsSubstantiated(cfg: Config, h: Hoisting, base: Resolution)
    requires FleetOk(cfg, h.fleet) && Live(cfg, h.fleet, base.members) != {}
    ensures
      var r := BreakOrMerge(cfg, h, base);
      && (r.resolution.strategy == EdgeBreak ==> r.resolution.broken != [] && Live(cfg, r.fleet, base.members) == {})
      && (r.resolution.strategy != EdgeBreak ==> r.resolution.strategy == AtomicWave)
      && DistinctKeys(r.resolution.broken) && |r.resolution.broken| <= cfg.maxBreaks
      && OnlySuppressed(h.fleet.edges, r.fleet.edges, r.resolution.broken)
      && FleetOk(cfg, r.fleet) && Within(cfg, h.fleet, r.fleet)
      && r.fleet == h.fleet.(edges := r.fleet.edges)
  {
    var start := Broken(h.fleet, []);
    BreakLoopExact(cfg, h.fleet, start, base.members);
    BreakLoopBounded(cfg, start, base.members);
    var b := BreakLoop(cfg, start, base.members);
    SuppressedRowsOk(cfg, h.fleet, b.fleet.edges, b.keys);
    SuppressedWithin(cfg, h.fleet, b.fleet, b.keys);
    if b.keys == [] {
      assert b == start by {
        BreakLoopIdle(cfg, start, base.members);
      }
    }
  }

  lemma {:induction false} BreakLoopBounded(cfg: Config, b: Broken, members: set<string>)
    requires Injective(cfg) && |b.keys| <= cfg.maxBreaks
    ensures |b.keys| <= |BreakLoop(cfg, b, members).keys| <= cfg.maxBreaks
    decreases cfg.maxBreaks - |b.keys|
  {
    var live := Live(cfg, b.fleet, members);
    if live != {} && |b.keys| < cfg.maxBreaks && !IsAtomic(cfg, b.fleet, live) {
      var c := Cheapest(cfg, b.fleet, FeedbackKeys(cfg, b.fleet, live));
      if c.Some? {
        BreakLoopBounded(cfg, Broken(b.fleet.(edges := Suppress(b.fleet.edges, c.value)), b.keys + [c.value]), members);
      }
    }
  }

  /** Breaking nothing changes nothing. */
  lemma BreakLoopIdle(cfg: Config, b: Broken, members: set<string>)
    requires Injective(cfg) && |BreakLoop(cfg, b, members).keys| == |b.keys| <= cfg.maxBreaks
    ensures BreakLoop(cfg, b, members) == b
  {
    var live := Live(cfg, b.fleet, members);
    if live != {} && |b.keys| < cfg.maxBreaks && !IsAtomic(cfg, b.fleet, live) {
      var c := Cheapest(cfg, b.fleet, FeedbackKeys(cfg, b.fleet, live));
      if c.Some? {
        BreakLoopBounded(cfg, Broken(b.fleet.(edges := Suppress(b.fleet.edges, c.value)), b.keys + [c.value]), members);
      }
    }
  }

  // ---------------------------------------------------------------------------------------
  // What a break costs
  // ---------------------------------------------------------------------------------------

  /** `back` holds the arcs of `arcs` turned round: walks turn round with them. */
  lemma {:induction false} WalkTurnsRound(arcs: Dag<NodeRef>, back: Dag<NodeRef>, u: NodeRef, v: NodeRef, n: nat)
    requires (forall a :: a in arcs ==> Arc(a.dst, a.src) in back) && ReachesIn(arcs, u, v, n)
    ensures ReachesIn(back, v, u, n)
    decreases n
  {
    if n > 0 {
      var w := ReachesInLast(arcs, u, v, n);
      WalkTurnsRound(arcs, back, u, w, n - 1);
      assert Arc(w, v) in arcs;
    }
  }

  /** The dependents a break is charged for are exactly the other nodes that reach the destination. */
  lemma DependentsExact(f: Fleet, n: NodeRef, v: NodeRef)
    requires n in f.nodes
    ensures v in Dependents(f, n) <==> v != n && Reaches(ArcsBehind(f.edges, f.edges.Keys), v, n)
  {
    var arcs := ArcsBehind(f.edges, f.edges.Keys);
    var back := Reverse(arcs);
    assert forall a :: a in arcs ==> Arc(a.dst, a.src) in back;
    assert forall a :: a in back ==> Arc(a.dst, a.src) in arcs;
    if Reaches(arcs, v, n) {
      var k: nat :| ReachesIn(arcs, v, n, k);
      WalkTurnsRound(arcs, back, v, n, k);
    }
    if Reaches(back, n, v) {
      var k: nat :| ReachesIn(back, n, v, k);
      WalkTurnsRound(back, arcs, n, v, k);
    }
  }
}
