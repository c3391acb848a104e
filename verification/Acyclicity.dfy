/**
 Whenever `break_cycles` returns, the condensed ordering graph is acyclic, for every set of
 excluded repositories, exactly when the arcs between contracts are acyclic.
 */
module Acyclicity {
  import opened Digraph
  import opened NodeOrder
  import opened DfsClasses
  import opened FleetModel
  import opened Materialize
  import opened Components
  import opened Cycles
  import opened FleetSteps
  import opened Condense
  import opened CycleTheorems

  /** Everything the argument needs to know of a finished ladder. */
  ghost predicate Finished(cfg: Config, opening: Fleet, r: Report)
  {
    && FleetOk(cfg, opening) && FleetOk(cfg, r.fleet) && Within(cfg, opening, r.fleet)
    && (forall x :: x in r.resolutions ==> WasComponent(cfg, opening, x))
    && (forall x :: x in r.resolutions && Dissolves(x.strategy) ==> Live(cfg, r.fleet, x.members) == {})
    && (forall c :: IsScc(opening.nodes, Arcs(cfg, opening), c) && |MemberIds(c)| >= 2 ==> Recorded(r.resolutions, c))
  }

  /** A recorded component was a component of the opening graph. */
  ghost predicate WasComponent(cfg: Config, opening: Fleet, x: Resolution)
  {
    exists c :: IsScc(opening.nodes, Arcs(cfg, opening), c) && x.members == MemberIds(c)
  }

  /** The repo-to-repo arcs of the opening graph, in which components were found. */
  function Base(cfg: Config, opening: Fleet): Dag<NodeRef> { RepoArcs(Arcs(cfg, opening)) }

  // ---------------------------------------------------------------------------------------
  // Nodes that share a home
  // ---------------------------------------------------------------------------------------

  lemma SameSccMutual(cfg: Config, opening: Fleet, x: Resolution, u: NodeRef, v: NodeRef)
    requires RowsOk(opening.edges) && WasComponent(cfg, opening, x)
    requires u.kind.Repo? && v.kind.Repo? && u.id in x.members && v.id in x.members
    ensures Mutual(Base(cfg, opening), u, v)
  {
    var arcs := Arcs(cfg, opening);
    var c :| IsScc(opening.nodes, arcs, c) && x.members == MemberIds(c);
    var w :| w in opening.nodes && c == Component(opening.nodes, arcs, w);
    assert u in c && v in c;
    MutualTrans(arcs, u, w, v);
    ArcsTrap(cfg, opening);
    RepoReaches(arcs, u, v);
    RepoReaches(arcs, v, u);
  }

  lemma SharedHome(cfg: Config, opening: Fleet, r: Report, u: NodeRef, v: NodeRef)
    requires Finished(cfg, opening, r) && v.kind.Repo? && HomeOf(r.resolutions, u) == HomeOf(r.resolutions, v)
    ensures u.kind.Repo? && Reaches(Base(cfg, opening), u, v)
  {
    ReachesRefl(Base(cfg, opening), u);
    if u != v {
      AtomicHomeExact(r.resolutions, u.id);
      AtomicHomeExact(r.resolutions, v.id);
      var members := HomeOf(r.resolutions, u).members;
      var x :| x in r.resolutions && x.strategy == AtomicWave && x.members == members;
      SameSccMutual(cfg, opening, x, u, v);
    }
  }

  // ---------------------------------------------------------------------------------------
  // Lifting a walk of the condensed graph
  // ---------------------------------------------------------------------------------------

  lemma ThroughArc(arcs: Dag<NodeRef>, u: NodeRef, a: Arc<NodeRef>, z: NodeRef)
    requires Reaches(arcs, u, a.src) && a in arcs && Reaches(arcs, a.dst, z)
    ensures Reaches(arcs, u, z)
  {
    ReachesArc(arcs, a.src, a.dst);
    ReachesTrans(arcs, u, a.src, a.dst);
    ReachesTrans(arcs, u, a.dst, z);
  }

  /** What relates a final graph `dag` to the opening arcs `base` between repositories. */
  ghost predicate Lifts(res: seq<Resolution>, dag: Dag<NodeRef>, base: Dag<NodeRef>)
  {
    && (forall a :: a in dag && a.dst.kind.Repo? ==> a.src.kind.Repo? && a in base)
    && (forall u, v: NodeRef :: v.kind.Repo? && HomeOf(res, u) == HomeOf(res, v) ==>
        u.kind.Repo? && Reaches(base, u, v))
  }

  lemma FinishedLifts(cfg: Config, opening: Fleet, r: Report)
    requires Finished(cfg, opening, r)
    ensures Lifts(r.resolutions, Arcs(cfg, r.fleet), Base(cfg, opening))
  {
    ArcsTrap(cfg, r.fleet);
    forall a | a in Arcs(cfg, r.fleet) && a.dst.kind.Repo?
      ensures a.src.kind.Repo? && a in Base(cfg, opening)
    {
      assert a in RepoArcs(Arcs(cfg, r.fleet));
    }
    forall u, v: NodeRef | v.kind.Repo? && HomeOf(r.resolutions, u) == HomeOf(r.resolutions, v)
      ensures u.kind.Repo? && Reaches(Base(cfg, opening), u, v)
    {
      SharedHome(cfg, opening, r, u, v);
    }
  }

  lemma FirstArc(res: seq<Resolution>, dag: Dag<NodeRef>, dropped: set<string>, o: OrderNode, t: OrderNode, n: nat)
    returns (a: Arc<NodeRef>)
    requires n > 0 && ReachesIn(CondensedArcs(res, dag, dropped), o, t, n)
    ensures a in dag && HomeOf(res, a.src) == o
    ensures ReachesIn(CondensedArcs(res, dag, dropped), HomeOf(res, a.dst), t, n - 1)
  {
    var arcs := CondensedArcs(res, dag, dropped);
    var w :| Arc(o, w) in arcs && ReachesIn(arcs, w, t, n - 1);
    a := CondensedArcBehind(res, dag, dropped, Arc(o, w));
  }

  /** A condensed walk that ends at a repository's home lifts to the opening graph. */
  lemma {:induction false} LiftWalk(res: seq<Resolution>, dag: Dag<NodeRef>, base: Dag<NodeRef>, dropped: set<string>,
      u: NodeRef, z: NodeRef, n: nat)
    requires Lifts(res, dag, base) && z.kind.Repo?
    requires ReachesIn(CondensedArcs(res, dag, dropped), HomeOf(res, u), HomeOf(res, z), n)
    ensures u.kind.Repo? && Reaches(base, u, z)
    decreases n
  {
    if n > 0 {
      var a := FirstArc(res, dag, dropped, HomeOf(res, u), HomeOf(res, z), n);
      LiftWalk(res, dag, base, dropped, a.dst, z, n - 1);
      ThroughArc(base, u, a, z);
    }
  }

  /** A node that keeps a home of its own. */
  predicate Loose(res: seq<Resolution>, n: NodeRef) { n.kind.Repo? && HomeOf(res, n) == Plain(n) }

  /** Around a repository whose component is not atomic, a closed condensed walk is a walk. */
  lemma {:induction false} LooseWalk(res: seq<Resolution>, dag: Dag<NodeRef>, base: Dag<NodeRef>, dropped: set<string>,
      u: NodeRef, z: NodeRef, n: nat)
    requires Lifts(res, dag, base) && Loose(res, z)
    requires forall v: NodeRef :: v.kind.Repo? && Mutual(base, z, v) ==> Loose(res, v)
    requires Reaches(base, z, u) && ReachesIn(CondensedArcs(res, dag, dropped), HomeOf(res, u), HomeOf(res, z), n)
    ensures Reaches(dag, u, z)
    decreases n
  {
    LiftWalk(res, dag, base, dropped, u, z, n);
    assert Mutual(base, z, u);
    if n == 0 {
      ReachesRefl(dag, u);
    } else {
      var a := FirstArc(res, dag, dropped, HomeOf(res, u), HomeOf(res, z), n);
      PlainHome(res, a.src, u);
      LiftWalk(res, dag, base, dropped, a.dst, z, n - 1);
      ReachesRefl(base, a.dst);
      ThroughArc(base, z, a, a.dst);
      LooseWalk(res, dag, base, dropped, a.dst, z, n - 1);
      ReachesRefl(dag, u);
      ThroughArc(dag, u, a, z);
    }
  }

  lemma PlainHome(resolutions: seq<Resolution>, n: NodeRef, m: NodeRef)
    requires HomeOf(resolutions, n) == Plain(m)
    ensures n == m
  {
  }

  // ---------------------------------------------------------------------------------------
  // Repositories
  // ---------------------------------------------------------------------------------------

  /** Two repositories that reach each other in the opening graph belong to a recorded component. */
  lemma MutualIsRecorded(cfg: Config, opening: Fleet, r: Report, u: NodeRef, v: NodeRef) returns (x: Resolution)
    requires Finished(cfg, opening, r)
    requires u != v && u in opening.nodes && v in opening.nodes && u.kind.Repo? && v.kind.Repo?
    requires Mutual(Base(cfg, opening), u, v)
    ensures x in r.resolutions && u.id in x.members && v.id in x.members
    ensures forall w: NodeRef :: w.kind.Repo? && Mutual(Base(cfg, opening), u, w) ==> w.id in x.members
  {
    var arcs := Arcs(cfg, opening);
    var c := Component(opening.nodes, arcs, u);
    ReachesMono(Base(cfg, opening), arcs, u, v);
    ReachesMono(Base(cfg, opening), arcs, v, u);
    ReachesRefl(arcs, u);
    assert u in c && v in c;
    TwoMembers(c, u, v);
    assert u.id in MemberIds(c) && v.id in MemberIds(c);
    TwoMembers(MemberIds(c), u.id, v.id);
    assert IsScc(opening.nodes, arcs, c);
    assert Recorded(r.resolutions, c);
    x :| x in r.resolutions && x.members == MemberIds(c);
    forall w: NodeRef | w.kind.Repo? && Mutual(Base(cfg, opening), u, w)
      ensures w.id in x.members
    {
      ReachesMono(Base(cfg, opening), arcs, u, w);
      ReachesMono(Base(cfg, opening), arcs, w, u);
      if w != u {
        ReachedIsNode(cfg, opening, u, w);
      }
      assert w in c;
    }
  }

  lemma ReachedIsNode(cfg: Config, f: Fleet, u: NodeRef, v: NodeRef)
    requires FleetOk(cfg, f) && u in f.nodes && Reaches(Arcs(cfg, f), u, v)
    ensures v in f.nodes
  {
    forall a | a in Arcs(cfg, f)
      ensures a.src in f.nodes && a.dst in f.nodes
    {
      ArcsInside(cfg, f, a);
    }
    var n: nat :| ReachesIn(Arcs(cfg, f), u, v, n);
    ClosedSetKeeps(Arcs(cfg, f), f.nodes, u, v, n);
  }

  /** No condensed arc between repositories closes a cycle. */
  lemma RepoArcClosesNothing(cfg: Config, opening: Fleet, r: Report, excluded: set<string>, a: Arc<NodeRef>)
    requires Finished(cfg, opening, r)
    requires a in Arcs(cfg, r.fleet) && a.src.kind.Repo?
    requires Crosses(r.resolutions, ManualMembers(r.resolutions) + excluded, a)
    ensures !Reaches(CondenseFor(cfg, r, excluded).arcs, HomeOf(r.resolutions, a.dst), HomeOf(r.resolutions, a.src))
  {
    var dropped := ManualMembers(r.resolutions) + excluded;
    var arcs := CondenseFor(cfg, r, excluded).arcs;
    if Reaches(arcs, HomeOf(r.resolutions, a.dst), HomeOf(r.resolutions, a.src)) {
      var n: nat :| ReachesIn(arcs, HomeOf(r.resolutions, a.dst), HomeOf(r.resolutions, a.src), n);
      FinishedLifts(cfg, opening, r);
      LiftWalk(r.resolutions, Arcs(cfg, r.fleet), Base(cfg, opening), dropped, a.dst, a.src, n);
      ReachesArc(Base(cfg, opening), a.src, a.dst);
      ArcsInside(cfg, r.fleet, a);
      var x := MutualIsRecorded(cfg, opening, r, a.src, a.dst);
      RecordedIsHandled(cfg, opening, r, x, a);
      DissolvedHasNoCycle(cfg, opening, r, dropped, x, a, n);
    }
  }

  /** A component with two nodes left apart in the condensed graph was neither dropped nor merged. */
  lemma RecordedIsHandled(cfg: Config, opening: Fleet, r: Report, x: Resolution, a: Arc<NodeRef>)
    requires Finished(cfg, opening, r) && x in r.resolutions && a.src.id in x.members && a.dst.id in x.members
    requires a.src.kind.Repo? && a.dst.kind.Repo?
    requires Crosses(r.resolutions, ManualMembers(r.resolutions), a)
    ensures Dissolves(x.strategy)
    ensures forall y :: y in r.resolutions && y.strategy == AtomicWave ==> a.src.id !in y.members
  {
    forall y | y in r.resolutions && y.strategy == AtomicWave && a.src.id in y.members
      ensures false
    {
      SameMembers(cfg, opening, x, y, a.src.id);
      AtomicTogether(cfg, opening, r, y, a.src.id);
      AtomicTogether(cfg, opening, r, y, a.dst.id);
    }
  }

  /** Two recorded components that share a member are the same component. */
  lemma SameMembers(cfg: Config, opening: Fleet, x: Resolution, y: Resolution, id: string)
    requires WasComponent(cfg, opening, x) && WasComponent(cfg, opening, y) && id in x.members && id in y.members
    ensures x.members == y.members
  {
    var arcs := Arcs(cfg, opening);
    var c :| IsScc(opening.nodes, arcs, c) && x.members == MemberIds(c);
    var d :| IsScc(opening.nodes, arcs, d) && y.members == MemberIds(d);
    var u :| u in opening.nodes && c == Component(opening.nodes, arcs, u);
    var v :| v in opening.nodes && d == Component(opening.nodes, arcs, v);
    SameComponent(opening.nodes, arcs, u, Node(Repo, id));
    SameComponent(opening.nodes, arcs, v, Node(Repo, id));
  }

  lemma AtomicTogether(cfg: Config, opening: Fleet, r: Report, y: Resolution, id: string)
    requires forall x :: x in r.resolutions ==> WasComponent(cfg, opening, x)
    requires y in r.resolutions && y.strategy == AtomicWave && id in y.members
    ensures HomeOf(r.resolutions, Node(Repo, id)) == Scc(y.members)
  {
    AtomicHomeExact(r.resolutions, id);
    var members := AtomicHome(r.resolutions, id).value;
    var x :| x in r.resolutions && x.strategy == AtomicWave && x.members == members;
    SameMembers(cfg, opening, x, y, id);
  }

  /** An arc inside a loose component that a condensed walk closes lies on a cycle. */
  lemma LooseCycle(res: seq<Resolution>, dag: Dag<NodeRef>, base: Dag<NodeRef>, dropped: set<string>,
      members: set<string>, a: Arc<NodeRef>, n: nat)
    requires Lifts(res, dag, base) && a in dag && a.dst.kind.Repo? && a.src.id in members
    requires forall v: NodeRef :: v.kind.Repo? && v.id in members ==> Loose(res, v)
    requires forall v: NodeRef :: v.kind.Repo? && Mutual(base, a.src, v) ==> v.id in members
    requires ReachesIn(CondensedArcs(res, dag, dropped), HomeOf(res, a.dst), HomeOf(res, a.src), n)
    ensures Mutual(dag, a.src, a.dst)
  {
    ReachesArc(base, a.src, a.dst);
    LooseWalk(res, dag, base, dropped, a.dst, a.src, n);
    ReachesArc(dag, a.src, a.dst);
  }

  lemma DissolvedHasNoCycle(cfg: Config, opening: Fleet, r: Report, dropped: set<string>, x: Resolution,
      a: Arc<NodeRef>, n: nat)
    requires Finished(cfg, opening, r) && x in r.resolutions && Dissolves(x.strategy)
    requires a in Arcs(cfg, r.fleet) && a.src != a.dst && a.src.kind.Repo? && a.dst.kind.Repo?
    requires a.src.id in x.members && a.dst.id in x.members
    requires forall w: NodeRef :: w.kind.Repo? && Mutual(Base(cfg, opening), a.src, w) ==> w.id in x.members
    requires forall y :: y in r.resolutions && y.strategy == AtomicWave ==> a.src.id !in y.members
    ensures !ReachesIn(CondensedArcs(r.resolutions, Arcs(cfg, r.fleet), dropped),
                       HomeOf(r.resolutions, a.dst), HomeOf(r.resolutions, a.src), n)
  {
    var base, dag := Base(cfg, opening), Arcs(cfg, r.fleet);
    MembersAreLoose(cfg, opening, r, x, a.src);
    FinishedLifts(cfg, opening, r);
    ArcsInside(cfg, r.fleet, a);
    if ReachesIn(CondensedArcs(r.resolutions, dag, dropped),
                 HomeOf(r.resolutions, a.dst), HomeOf(r.resolutions, a.src), n) {
      LooseCycle(r.resolutions, dag, base, dropped, x.members, a, n);
      TangleIsLive(r.fleet.nodes, dag, x.members, a.src, a.dst);
    }
  }

  lemma MembersAreLoose(cfg: Config, opening: Fleet, r: Report, x: Resolution, u: NodeRef)
    requires Finished(cfg, opening, r) && x in r.resolutions && u.id in x.members
    requires forall y :: y in r.resolutions && y.strategy == AtomicWave ==> u.id !in y.members
    ensures forall v: NodeRef :: v.kind.Repo? && v.id in x.members ==> Loose(r.resolutions, v)
  {
    forall v: NodeRef | v.kind.Repo? && v.id in x.members
      ensures Loose(r.resolutions, v)
    {
      MemberIsLoose(cfg, opening, r, x, u, v);
    }
  }

  lemma MemberIsLoose(cfg: Config, opening: Fleet, r: Report, x: Resolution, u: NodeRef, v: NodeRef)
    requires Finished(cfg, opening, r) && x in r.resolutions && u.id in x.members && v.id in x.members && v.kind.Repo?
    requires forall y :: y in r.resolutions && y.strategy == AtomicWave ==> u.id !in y.members
    ensures Loose(r.resolutions, v)
  {
    AtomicHomeExact(r.resolutions, v.id);
    if AtomicHome(r.resolutions, v.id).Some? {
      var members := AtomicHome(r.resolutions, v.id).value;
      var y :| y in r.resolutions && y.strategy == AtomicWave && y.members == members;
      SameMembers(cfg, opening, x, y, v.id);
    }
  }

  // ---------------------------------------------------------------------------------------
  // Contracts
  // ---------------------------------------------------------------------------------------

  /** A condensed walk from a contract is a walk between contracts. */
  lemma {:induction false} ContractWalk(res: seq<Resolution>, dag: Dag<NodeRef>, dropped: set<string>,
      u: NodeRef, t: OrderNode, n: nat)
    requires ContractsTrap(dag) && u.kind.Contract?
    requires ReachesIn(CondensedArcs(res, dag, dropped), Plain(u), t, n)
    ensures t.Plain? && t.ref.kind.Contract? && Reaches(ContractArcs(dag), u, t.ref)
    decreases n
  {
    if n == 0 {
      ReachesRefl(ContractArcs(dag), u);
    } else {
      var a := FirstArc(res, dag, dropped, Plain(u), t, n);
      PlainHome(res, a.src, u);
      ContractWalk(res, dag, dropped, a.dst, t, n - 1);
      ReachesRefl(ContractArcs(dag), u);
      ThroughArc(ContractArcs(dag), u, a, t.ref);
    }
  }

  /** A cycle of contracts none of which is dropped is a cycle of the condensed graph. */
  lemma {:induction false} ContractWalkStays(res: seq<Resolution>, dag: Dag<NodeRef>, dropped: set<string>,
      u: NodeRef, v: NodeRef, n: nat)
    requires ContractsTrap(dag) && (forall a :: a in dag ==> a.src != a.dst)
    requires forall a :: a in ContractArcs(dag) ==> a.src.id !in dropped && a.dst.id !in dropped
    requires u.kind.Contract? && ReachesIn(ContractArcs(dag), u, v, n)
    ensures ReachesIn(CondensedArcs(res, dag, dropped), Plain(u), Plain(v), n)
    decreases n
  {
    if n > 0 {
      var w :| Arc(u, w) in ContractArcs(dag) && ReachesIn(ContractArcs(dag), w, v, n - 1);
      ContractWalkStays(res, dag, dropped, w, v, n - 1);
      ContractArcCrosses(res, dag, dropped, Arc(u, w));
    }
  }

  lemma ContractArcCrosses(res: seq<Resolution>, dag: Dag<NodeRef>, dropped: set<string>, a: Arc<NodeRef>)
    requires ContractsTrap(dag) && a in ContractArcs(dag) && a.src != a.dst
    requires a.src.id !in dropped && a.dst.id !in dropped
    ensures Arc(Plain(a.src), Plain(a.dst)) in CondensedArcs(res, dag, dropped)
  {
    assert Crosses(res, dropped, a);
  }

  lemma AcyclicWhenContractsAre(cfg: Config, opening: Fleet, r: Report, excluded: set<string>)
    requires Finished(cfg, opening, r) && Acyclic(ContractArcs(Arcs(cfg, opening)))
    ensures Acyclic(CondenseFor(cfg, r, excluded).arcs)
  {
    var dropped := ManualMembers(r.resolutions) + excluded;
    var dag, arcs := Arcs(cfg, r.fleet), CondenseFor(cfg, r, excluded).arcs;
    ArcsTrap(cfg, r.fleet);
    forall c | c in arcs
      ensures !Reaches(arcs, c.dst, c.src)
    {
      var a := CondensedArcBehind(r.resolutions, dag, dropped, c);
      assert a.src.kind.Contract? ==> a in ContractArcs(dag);
      if a.src.kind.Repo? {
        RepoArcClosesNothing(cfg, opening, r, excluded, a);
      } else if Reaches(arcs, c.dst, c.src) {
        var n: nat :| ReachesIn(arcs, c.dst, c.src, n);
        ContractWalk(r.resolutions, dag, dropped, a.dst, c.src, n);
      }
    }
  }

  lemma ContractsAreWhenAcyclic(cfg: Config, opening: Fleet, r: Report, excluded: set<string>)
    requires Finished(cfg, opening, r) && Acyclic(CondenseFor(cfg, r, excluded).arcs)
    requires forall n :: n in r.fleet.nodes && n.kind.Contract? ==> n.id !in ManualMembers(r.resolutions) + excluded
    ensures Acyclic(ContractArcs(Arcs(cfg, opening)))
  {
    var dropped := ManualMembers(r.resolutions) + excluded;
    var dag, arcs := Arcs(cfg, r.fleet), CondenseFor(cfg, r, excluded).arcs;
    ArcsTrap(cfg, r.fleet);
    forall a | a in dag
      ensures a.src != a.dst && a.src in r.fleet.nodes && a.dst in r.fleet.nodes
    {
      var k := RowBehind(cfg, r.fleet.edges, a);
      assert RowOk(r.fleet.edges[k]);
      ArcsInside(cfg, r.fleet, a);
    }
    forall a | a in ContractArcs(dag)
      ensures !Reaches(ContractArcs(dag), a.dst, a.src)
    {
      if Reaches(ContractArcs(dag), a.dst, a.src) {
        var n: nat :| ReachesIn(ContractArcs(dag), a.dst, a.src, n);
        ContractWalkStays(r.resolutions, dag, dropped, a.dst, a.src, n);
        ContractArcCrosses(r.resolutions, dag, dropped, a);
        assert Reaches(arcs, Arc(Plain(a.src), Plain(a.dst)).dst, Arc(Plain(a.src), Plain(a.dst)).src);
      }
    }
  }

  // ---------------------------------------------------------------------------------------
  // The theorem
  // ---------------------------------------------------------------------------------------

  lemma BreakFinishes(cfg: Config, nodes: set<NodeRef>, edges: Edges, contracts: Contracts, minConsumers: nat)
    returns (opening: Fleet, r: Report)
    requires Injective(cfg) && RowsOk(edges) && ContractsOk(contracts)
    requires Break(cfg, nodes, edges, contracts, minConsumers).Ok?
    ensures r == Break(cfg, nodes, edges, contracts, minConsumers).value
    ensures opening == Opening(cfg, nodes, edges, contracts)
    ensures Finished(cfg, opening, r) && Keeps(opening, r.fleet)
    ensures forall x :: x in r.resolutions ==>
              |x.members| >= 2 && Sound(cfg, x) && ConsumersOk(r.fleet, x, minConsumers)
  {
    opening := Opening(cfg, nodes, edges, contracts);
    r := Break(cfg, nodes, edges, contracts, minConsumers).value;
    var start := Report(opening, [], []);
    var components := NontrivialSccs(opening.nodes, Arcs(cfg, opening));
    MaterializedOk(cfg, edges, Precommitted(contracts));
    KeepsReflexive(opening);
    ResolveAllKeeps(cfg, opening, components, start, components, contracts, minConsumers);
    LadderFinishes(cfg, opening, r, minConsumers);
  }

  lemma LadderFinishes(cfg: Config, opening: Fleet, r: Report, minConsumers: nat)
    requires FleetOk(cfg, opening)
    requires Ladder(cfg, opening, NontrivialSccs(opening.nodes, Arcs(cfg, opening)), r, minConsumers)
    requires forall c :: c in NontrivialSccs(opening.nodes, Arcs(cfg, opening)) && |MemberIds(c)| >= 2 ==>
        Recorded(r.resolutions, c)
    ensures Finished(cfg, opening, r)
  {
    forall x | x in r.resolutions
      ensures WasComponent(cfg, opening, x)
    {
      ComponentRecorded(cfg, opening, x);
    }
    EverySccRecorded(opening.nodes, Arcs(cfg, opening), r.resolutions);
  }

  lemma ComponentRecorded(cfg: Config, opening: Fleet, x: Resolution)
    requires FromComponent(NontrivialSccs(opening.nodes, Arcs(cfg, opening)), x)
    ensures WasComponent(cfg, opening, x)
  {
    var c :| c in NontrivialSccs(opening.nodes, Arcs(cfg, opening)) && x.members == MemberIds(c);
    NontrivialSccsExact(opening.nodes, Arcs(cfg, opening), c);
  }

  lemma EverySccRecorded(nodes: set<NodeRef>, arcs: Dag<NodeRef>, resolutions: seq<Resolution>)
    requires forall c :: c in NontrivialSccs(nodes, arcs) && |MemberIds(c)| >= 2 ==> Recorded(resolutions, c)
    ensures forall c :: IsScc(nodes, arcs, c) && |MemberIds(c)| >= 2 ==> Recorded(resolutions, c)
  {
    forall c | IsScc(nodes, arcs, c) && |MemberIds(c)| >= 2
      ensures Recorded(resolutions, c)
    {
      NontrivialSccsExact(nodes, arcs, c);
    }
  }

  /** Ids of repositories and contracts come from disjoint name spaces. */
  ghost predicate IdsApart(nodes: set<NodeRef>)
  {
    forall m, n :: m in nodes && n in nodes && m.kind.Repo? && n.kind.Contract? ==> m.id != n.id
  }

  /**
   Whenever `break_cycles` returns: the condensed ordering graph is acyclic for every set of
   excluded repositories if the ordering arcs between contracts are, and only if, when no
   contract is excluded.  Nothing the input graph orders between contracts changes.
   */
  lemma StepSixGuarantee(cfg: Config, nodes: set<NodeRef>, edges: Edges, contracts: Contracts, minConsumers: nat,
      excluded: set<string>)
    requires Injective(cfg) && RowsOk(edges) && ContractsOk(contracts)
    requires Break(cfg, nodes, edges, contracts, minConsumers).Ok?
    ensures
      var r := Break(cfg, nodes, edges, contracts, minConsumers).value;
      && (Acyclic(ContractArcs(DagArcs(cfg, edges))) ==> Acyclic(CondenseFor(cfg, r, excluded).arcs))
      && (NoContractExcluded(r, excluded) ==>
            (Acyclic(CondenseFor(cfg, r, excluded).arcs) <==> Acyclic(ContractArcs(DagArcs(cfg, edges)))))
  {
    var opening, r := BreakFinishes(cfg, nodes, edges, contracts, minConsumers);
    MaterializedContractArcs(cfg, edges, Precommitted(contracts));
    if Acyclic(ContractArcs(DagArcs(cfg, edges))) {
      AcyclicWhenContractsAre(cfg, opening, r, excluded);
    }
    if Acyclic(CondenseFor(cfg, r, excluded).arcs) && NoContractExcluded(r, excluded) {
      ManualMembersAreRepos(cfg, opening, r);
      ContractsAreWhenAcyclic(cfg, opening, r, excluded);
    }
  }

  ghost predicate NoContractExcluded(r: Report, excluded: set<string>)
  {
    IdsApart(r.fleet.nodes) && forall n :: n in r.fleet.nodes && n.kind.Contract? ==> n.id !in excluded
  }

  lemma ManualMembersAreRepos(cfg: Config, opening: Fleet, r: Report)
    requires Finished(cfg, opening, r) && IdsApart(r.fleet.nodes)
    ensures forall n :: n in r.fleet.nodes && n.kind.Contract? ==> n.id !in ManualMembers(r.resolutions)
  {
    forall x, m | x in r.resolutions && m in x.members
      ensures Node(Repo, m) in r.fleet.nodes
    {
      assert WasComponent(cfg, opening, x);
      var c :| IsScc(opening.nodes, Arcs(cfg, opening), c) && x.members == MemberIds(c);
      var u :| u in opening.nodes && c == Component(opening.nodes, Arcs(cfg, opening), u);
    }
  }

  /**
   Sequencing's own assumption: with no row leaving a contract, the rule contract inference
   follows, the condensed graph is acyclic whatever is excluded.
   */
  lemma SinksSuffice(cfg: Config, nodes: set<NodeRef>, edges: Edges, contracts: Contracts, minConsumers: nat,
      excluded: set<string>)
    requires Injective(cfg) && RowsOk(edges) && ContractsOk(contracts)
    requires Break(cfg, nodes, edges, contracts, minConsumers).Ok?
    requires forall k :: k in edges ==> k.src.kind.Repo?
    ensures Acyclic(CondenseFor(cfg, Break(cfg, nodes, edges, contracts, minConsumers).value, excluded).arcs)
  {
    forall a | a in ContractArcs(DagArcs(cfg, edges))
      ensures false
    {
      var k := RowBehind(cfg, edges, a);
    }
    assert ContractArcs(DagArcs(cfg, edges)) == {};
    StepSixGuarantee(cfg, nodes, edges, contracts, minConsumers, excluded);
  }
}
