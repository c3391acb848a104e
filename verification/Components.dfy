/**
 The graph plumbing of `graph/cycles.py`: non-trivial components in their fixed order, the
 live part of a component, feedback edges and the cheapest of them.
 */
module Components {
  import opened Digraph
  import opened NodeOrder
  import opened DfsClasses
  import opened DfsForest
  import opened FleetModel

  // ---------------------------------------------------------------------------------------
  // Non-trivial strongly connected components
  // ---------------------------------------------------------------------------------------

  /** `u` is the least member of a component of more than one node. */
  predicate Leads(nodes: set<NodeRef>, arcs: Dag<NodeRef>, u: NodeRef)
  {
    var c := Component(nodes, arcs, u);
    |c| > 1 && IsLeast(u, c)
  }

  function ComponentsLedBy(nodes: set<NodeRef>, arcs: Dag<NodeRef>, order: seq<NodeRef>): seq<set<NodeRef>>
  {
    if order == [] then []
    else
      (if Leads(nodes, arcs, order[0]) then [Component(nodes, arcs, order[0])] else [])
      + ComponentsLedBy(nodes, arcs, order[1..])
  }

  /** Sorted component tuples are ordered by their least members, components being disjoint. */
  function NontrivialSccs(nodes: set<NodeRef>, arcs: Dag<NodeRef>): seq<set<NodeRef>>
  {
    ComponentsLedBy(nodes, arcs, Sorted(nodes))
  }

  predicate IsScc(nodes: set<NodeRef>, arcs: Dag<NodeRef>, c: set<NodeRef>)
  {
    |c| > 1 && exists u :: u in nodes && c == Component(nodes, arcs, u)
  }

  lemma {:induction false} ComponentsLedByExact(nodes: set<NodeRef>, arcs: Dag<NodeRef>, order: seq<NodeRef>,
      c: set<NodeRef>)
    ensures c in ComponentsLedBy(nodes, arcs, order) <==>
            exists u :: u in order && Leads(nodes, arcs, u) && c == Component(nodes, arcs, u)
  {
    if order != [] {
      ComponentsLedByExact(nodes, arcs, order[1..], c);
      assert order == [order[0]] + order[1..];
    }
  }

  lemma NontrivialSccsExact(nodes: set<NodeRef>, arcs: Dag<NodeRef>, c: set<NodeRef>)
    ensures c in NontrivialSccs(nodes, arcs) <==> IsScc(nodes, arcs, c)
  {
    ComponentsLedByExact(nodes, arcs, Sorted(nodes), c);
    if IsScc(nodes, arcs, c) {
      var u :| u in nodes && c == Component(nodes, arcs, u);
      var v := Least(c);
      SameComponent(nodes, arcs, u, v);
      assert v in Sorted(nodes) && Leads(nodes, arcs, v);
    }
  }

  /** Those of `order` that are in `s`, in that order. */
  ghost function Among<T>(order: seq<T>, s: set<T>): seq<T>
  {
    if order == [] then [] else (if order[0] in s then [order[0]] else []) + Among(order[1..], s)
  }

  lemma {:induction false} AmongAscends<T>(order: seq<T>, s: set<T>, i: nat, j: nat) returns (a: nat, b: nat)
    requires i <= j < |Among(order, s)|
    ensures a <= b < |order| && (i < j ==> a < b)
    ensures order[a] == Among(order, s)[i] && order[b] == Among(order, s)[j] && order[a] in s && order[b] in s
    decreases order
  {
    var skip := if order[0] in s then 1 else 0;
    if j < skip {
      a, b := 0, 0;
    } else if i < skip {
      a, b := AmongAscends(order[1..], s, j - skip, j - skip);
      a, b := 0, b + 1;
    } else {
      a, b := AmongAscends(order[1..], s, i - skip, j - skip);
      a, b := a + 1, b + 1;
    }
  }

  ghost function Leaders(nodes: set<NodeRef>, arcs: Dag<NodeRef>): set<NodeRef>
  {
    set u | u in nodes && Leads(nodes, arcs, u)
  }

  lemma {:induction false} LedByLeaders(nodes: set<NodeRef>, arcs: Dag<NodeRef>, order: seq<NodeRef>)
    requires forall u :: u in order ==> u in nodes
    ensures
      var leaders := Among(order, Leaders(nodes, arcs));
      ComponentsLedBy(nodes, arcs, order) == seq(|leaders|, i requires 0 <= i < |leaders| =>
        Component(nodes, arcs, leaders[i]))
  {
    if order != [] {
      LedByLeaders(nodes, arcs, order[1..]);
      assert order[0] in order;
    }
  }

  /** The components are listed by their least members, none twice. */
  lemma SccsAscend(nodes: set<NodeRef>, arcs: Dag<NodeRef>, i: nat, j: nat) returns (u: NodeRef, v: NodeRef)
    requires i < j < |NontrivialSccs(nodes, arcs)|
    ensures IsLeast(u, NontrivialSccs(nodes, arcs)[i]) && IsLeast(v, NontrivialSccs(nodes, arcs)[j])
    ensures u != v && NodeLe(u, v)
  {
    var order := Sorted(nodes);
    LedByLeaders(nodes, arcs, order);
    var a, b := AmongAscends(order, Leaders(nodes, arcs), i, j);
    SortedAscends(nodes, a, b);
    u, v := order[a], order[b];
  }

  // ---------------------------------------------------------------------------------------
  // The live component
  // ---------------------------------------------------------------------------------------

  predicate IsMember(members: set<string>, n: NodeRef) { n.kind.Repo? && n.id in members }

  function MembersIn(c: set<NodeRef>, members: set<string>): set<NodeRef>
  {
    set n | n in c && IsMember(members, n)
  }

  function Shared(c: set<NodeRef>, members: set<string>): nat { |MembersIn(c, members)| }

  /** The component sharing the most members, the earliest among equals; `{}` when none shares two. */
  function BestOf(components: seq<set<NodeRef>>, members: set<string>): set<NodeRef>
  {
    if components == [] then {}
    else
      var best := BestOf(components[..|components| - 1], members);
      var c := components[|components| - 1];
      if Shared(c, members) >= 2 && (best == {} || Shared(c, members) > Shared(best, members)) then c else best
  }

  function LiveComponent(nodes: set<NodeRef>, arcs: Dag<NodeRef>, members: set<string>): set<NodeRef>
  {
    BestOf(NontrivialSccs(nodes, arcs), members)
  }

  method FindLiveComponent(nodes: set<NodeRef>, arcs: Dag<NodeRef>, members: set<string>) returns (best: set<NodeRef>)
    ensures best == LiveComponent(nodes, arcs, members)
  {
    best := {};
    var components := NontrivialSccs(nodes, arcs);
    for i := 0 to |components|
      invariant best == BestOf(components[..i], members)
    {
      assert components[..i + 1][..i] == components[..i];
      var shared := Shared(components[i], members);
      if shared >= 2 && (best == {} || shared > Shared(best, members)) {
        best := components[i];
      }
    }
    assert components[..|components|] == components;
  }

  /** `components[i]` shares the most members, and more than any component before it. */
  ghost predicate IsBest(components: seq<set<NodeRef>>, members: set<string>, i: nat)
  {
    && i < |components| && Shared(components[i], members) >= 2
    && (forall j :: 0 <= j < |components| ==> Shared(components[j], members) <= Shared(components[i], members))
    && (forall j :: 0 <= j < i ==> Shared(components[j], members) < Shared(components[i], members))
  }

  lemma {:induction false} BestOfExact(components: seq<set<NodeRef>>, members: set<string>)
    ensures
      if BestOf(components, members) == {} then forall c :: c in components ==> Shared(c, members) < 2
      else exists i: nat :: IsBest(components, members, i) && BestOf(components, members) == components[i]
  {
    if components != [] {
      var front := components[..|components| - 1];
      var c := components[|components| - 1];
      BestOfExact(front, members);
      assert components == front + [c];
      var best := BestOf(front, members);
      if Shared(c, members) >= 2 && (best == {} || Shared(c, members) > Shared(best, members)) {
        SharedMember(c, members);
        forall j | 0 <= j < |front|
          ensures Shared(components[j], members) < Shared(c, members)
        {
          assert components[j] == front[j] && front[j] in front;
        }
        assert IsBest(components, members, |front|);
      } else if best != {} {
        var i: nat :| IsBest(front, members, i) && best == front[i];
        assert forall j :: 0 <= j < |front| ==> components[j] == front[j];
        assert IsBest(components, members, i);
      }
    }
  }

  lemma SharedMember(c: set<NodeRef>, members: set<string>)
    requires Shared(c, members) > 0
    ensures c != {}
  {
    var n :| n in MembersIn(c, members);
    assert n in c;
  }

  lemma TwoMembers<T>(s: set<T>, x: T, y: T)
    requires x in s && y in s && x != y
    ensures |s| >= 2
  {
    assert {x, y} <= s;
    SubsetCardinality({x, y}, s);
  }

  lemma {:induction false} SubsetCardinality<T>(a: set<T>, b: set<T>)
    requires a <= b
    ensures |a| <= |b|
  {
    if a != {} {
      var x :| x in a;
      SubsetCardinality(a - {x}, b - {x});
    }
  }

  lemma PickTwo<T>(s: set<T>) returns (x: T, y: T)
    requires |s| >= 2
    ensures x in s && y in s && x != y
  {
    x :| x in s;
    assert |s - {x}| == |s| - 1;
    y :| y in s - {x};
  }

  /** Two distinct members that can still reach each other. */
  ghost predicate Tangled(nodes: set<NodeRef>, arcs: Dag<NodeRef>, members: set<string>, u: NodeRef, v: NodeRef)
  {
    u != v && u in nodes && v in nodes && IsMember(members, u) && IsMember(members, v) && Mutual(arcs, u, v)
  }

  lemma LiveIsScc(nodes: set<NodeRef>, arcs: Dag<NodeRef>, members: set<string>)
    requires LiveComponent(nodes, arcs, members) != {}
    ensures IsScc(nodes, arcs, LiveComponent(nodes, arcs, members))
    ensures Shared(LiveComponent(nodes, arcs, members), members) >= 2
  {
    BestOfExact(NontrivialSccs(nodes, arcs), members);
    NontrivialSccsExact(nodes, arcs, LiveComponent(nodes, arcs, members));
  }

  /** A component is live exactly when two of its members still reach each other. */
  lemma LiveHasTangle(nodes: set<NodeRef>, arcs: Dag<NodeRef>, members: set<string>) returns (u: NodeRef, v: NodeRef)
    requires LiveComponent(nodes, arcs, members) != {}
    ensures Tangled(nodes, arcs, members, u, v)
    ensures u in LiveComponent(nodes, arcs, members) && v in LiveComponent(nodes, arcs, members)
  {
    LiveIsScc(nodes, arcs, members);
    var live := LiveComponent(nodes, arcs, members);
    u, v := PickTwo(MembersIn(live, members));
    var w :| w in nodes && live == Component(nodes, arcs, w);
    MutualTrans(arcs, u, w, v);
  }

  lemma TangleIsLive(nodes: set<NodeRef>, arcs: Dag<NodeRef>, members: set<string>, u: NodeRef, v: NodeRef)
    requires Tangled(nodes, arcs, members, u, v)
    ensures LiveComponent(nodes, arcs, members) != {}
  {
    var c := Component(nodes, arcs, u);
    ReachesRefl(arcs, u);
    TwoMembers(c, u, v);
    NontrivialSccsExact(nodes, arcs, c);
    TwoMembers(MembersIn(c, members), u, v);
    BestOfExact(NontrivialSccs(nodes, arcs), members);
  }

  /** Fewer arcs never revive a dissolved component. */
  lemma LiveMonotone(nodes: set<NodeRef>, arcs: Dag<NodeRef>, more: set<NodeRef>, moreArcs: Dag<NodeRef>,
      members: set<string>)
    requires arcs <= moreArcs && forall n :: n in nodes && n.kind.Repo? ==> n in more
    requires LiveComponent(nodes, arcs, members) != {}
    ensures LiveComponent(more, moreArcs, members) != {}
  {
    var u, v := LiveHasTangle(nodes, arcs, members);
    ReachesMono(arcs, moreArcs, u, v);
    ReachesMono(arcs, moreArcs, v, u);
    TangleIsLive(more, moreArcs, members, u, v);
  }

  // ---------------------------------------------------------------------------------------
  // Contracts are sinks: what happens between repositories happens on repo-to-repo arcs
  // ---------------------------------------------------------------------------------------

  /** No arc leaves a contract for a repository. */
  ghost predicate ContractsTrap(arcs: Dag<NodeRef>)
  {
    forall a :: a in arcs && a.src.kind.Contract? ==> a.dst.kind.Contract?
  }

  lemma {:induction false} RepoWalk(arcs: Dag<NodeRef>, u: NodeRef, v: NodeRef, n: nat)
    requires ContractsTrap(arcs) && v.kind.Repo? && ReachesIn(arcs, u, v, n)
    ensures u.kind.Repo? && ReachesIn(RepoArcs(arcs), u, v, n)
    decreases n
  {
    if n > 0 {
      var w :| Arc(u, w) in arcs && ReachesIn(arcs, w, v, n - 1);
      RepoWalk(arcs, w, v, n - 1);
      assert Arc(u, w) in RepoArcs(arcs);
    }
  }

  lemma RepoReaches(arcs: Dag<NodeRef>, u: NodeRef, v: NodeRef)
    requires ContractsTrap(arcs) && v.kind.Repo?
    ensures Reaches(arcs, u, v) <==> Reaches(RepoArcs(arcs), u, v)
  {
    if Reaches(arcs, u, v) {
      var n: nat :| ReachesIn(arcs, u, v, n);
      RepoWalk(arcs, u, v, n);
    }
    if Reaches(RepoArcs(arcs), u, v) {
      ReachesMono(RepoArcs(arcs), arcs, u, v);
    }
  }

  /** Whether a component is live depends on the repo-to-repo arcs alone. */
  lemma LiveOnRepoArcs(nodes: set<NodeRef>, arcs: Dag<NodeRef>, members: set<string>)
    requires ContractsTrap(arcs)
    ensures LiveComponent(nodes, arcs, members) != {} <==> LiveComponent(nodes, RepoArcs(arcs), members) != {}
  {
    if LiveComponent(nodes, arcs, members) != {} {
      var u, v := LiveHasTangle(nodes, arcs, members);
      RepoReaches(arcs, u, v);
      RepoReaches(arcs, v, u);
      TangleIsLive(nodes, RepoArcs(arcs), members, u, v);
    }
    if LiveComponent(nodes, RepoArcs(arcs), members) != {} {
      LiveMonotone(nodes, RepoArcs(arcs), nodes, arcs, members);
    }
  }

  /** A live component holds repositories only. */
  lemma LiveIsRepos(nodes: set<NodeRef>, arcs: Dag<NodeRef>, members: set<string>, n: NodeRef)
    requires ContractsTrap(arcs) && n in LiveComponent(nodes, arcs, members)
    ensures n.kind.Repo?
  {
    var u, v := LiveHasTangle(nodes, arcs, members);
    LiveIsScc(nodes, arcs, members);
    var w :| w in nodes && LiveComponent(nodes, arcs, members) == Component(nodes, arcs, w);
    MutualTrans(arcs, n, w, u);
    RepoReaches(arcs, n, u);
    var k: nat :| ReachesIn(arcs, n, u, k);
    RepoWalk(arcs, n, u, k);
  }

  // ---------------------------------------------------------------------------------------
  // Feedback edges
  // ---------------------------------------------------------------------------------------

  function Children(dag: Dag<NodeRef>, inside: set<NodeRef>, n: NodeRef): seq<NodeRef>
  {
    Sorted(set v | v in inside && Arc(n, v) in dag)
  }

  function Adjacency(dag: Dag<NodeRef>, inside: set<NodeRef>): Lists<NodeRef>
  {
    map n | n in inside :: Children(dag, inside, n)
  }

  function InnerArcs(dag: Dag<NodeRef>, inside: set<NodeRef>): Dag<NodeRef>
  {
    set a | a in dag && a.src in inside && a.dst in inside
  }

  lemma AdjacencySearchable(dag: Dag<NodeRef>, inside: set<NodeRef>)
    ensures Searchable(Adjacency(dag, inside), Sorted(inside))
    ensures Runnable(Adjacency(dag, inside), Start(Sorted(inside)))
    ensures ArcsOf(Adjacency(dag, inside)) == InnerArcs(dag, inside)
  {
    var adj := Adjacency(dag, inside);
    forall n, i, j | n in adj && 0 <= i < j < |adj[n]|
      ensures adj[n][i] != adj[n][j]
    {
      SortedAscends((set v | v in inside && Arc(n, v) in dag), i, j);
    }
    forall n, i | n in adj && 0 <= i < |adj[n]|
      ensures adj[n][i] in adj
    {
      assert adj[n][i] in adj[n];
    }
    StartInv(adj, Sorted(inside));
    forall a
      ensures a in ArcsOf(adj) <==> a in InnerArcs(dag, inside)
    {
      if a in InnerArcs(dag, inside) {
        assert a.dst in adj[a.src];
      }
    }
  }

  /** `classify_intra_scc_edges`. */
  function Classify(dag: Dag<NodeRef>, inside: set<NodeRef>): Classes<NodeRef>
  {
    AdjacencySearchable(dag, inside);
    Run(Adjacency(dag, inside), Start(Sorted(inside))).classes
  }

  method ClassifyIntraSccEdges(dag: Dag<NodeRef>, members: set<NodeRef>) returns (classes: Classes<NodeRef>)
    ensures classes == Classify(dag, members)
  {
    AdjacencySearchable(dag, members);
    classes := DepthFirst(Adjacency(dag, members), Sorted(members));
  }

  /** Every arc inside the member set gets exactly one class, that is its place in the search
      forest, and the arcs that are not BACK are acyclic. */
  lemma ClassifyExact(dag: Dag<NodeRef>, inside: set<NodeRef>)
    ensures Classify(dag, inside).Keys == InnerArcs(dag, inside)
    ensures Acyclic(NonBackArcs(Classify(dag, inside)))
    ensures forall a :: a in InnerArcs(dag, inside) ==> PlacedInForest(Classify(dag, inside), a)
  {
    var adj, roots := Adjacency(dag, inside), Sorted(inside);
    AdjacencySearchable(dag, inside);
    ClassifiesEveryArc(adj, roots);
    NonBackIsAcyclic(adj, roots);
    forall a | a in InnerArcs(dag, inside)
      ensures PlacedInForest(Classify(dag, inside), a)
    {
      ClassesArePlaces(adj, roots, a);
    }
  }

  /** A cycle among the members leaves at least one BACK arc. */
  lemma CycleHasBackArc(dag: Dag<NodeRef>, inside: set<NodeRef>) returns (a: Arc<NodeRef>)
    requires !Acyclic(InnerArcs(dag, inside))
    ensures a in InnerArcs(dag, inside) && a in Classify(dag, inside) && Classify(dag, inside)[a] == Back
  {
    ClassifyExact(dag, inside);
    var others := NonBackArcs(Classify(dag, inside));
    assert others <= InnerArcs(dag, inside) && others != InnerArcs(dag, inside);
    a :| a in InnerArcs(dag, inside) && a !in others;
  }
}
