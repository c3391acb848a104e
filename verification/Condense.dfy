/**
 `condense_for_ordering` (`graph/sequence.py`): the ordering graph with every atomic component
 collapsed to one node and every manual or excluded member dropped.
 */
module Condense {
  import opened Options
  import opened Digraph
  import opened NodeOrder
  import opened DfsClasses
  import opened FleetModel
  import opened Cycles

  /** A component's id is a hash of its member set, so the set stands for it. */
  datatype OrderNode = Plain(ref: NodeRef) | Scc(members: set<string>)

  datatype Condensed = Condensed(nodes: set<OrderNode>, arcs: Dag<OrderNode>)

  function ManualMembers(resolutions: seq<Resolution>): set<string>
  {
    set r, m | r in resolutions && r.strategy == Manual && m in r.members :: m
  }

  /** The atomic component a repository belongs to, the last recorded one if there were several. */
  function AtomicHome(resolutions: seq<Resolution>, id: string): Option<set<string>>
  {
    if resolutions == [] then None
    else
      var last := resolutions[|resolutions| - 1];
      if last.strategy == AtomicWave && id in last.members then Some(last.members)
      else AtomicHome(resolutions[..|resolutions| - 1], id)
  }

  function HomeOf(resolutions: seq<Resolution>, n: NodeRef): OrderNode
  {
    if n.kind.Contract? then Plain(n)
    else
      match AtomicHome(resolutions, n.id)
      case None => Plain(n)
      case Some(members) => Scc(members)
  }

  function CondensedNodes(resolutions: seq<Resolution>, nodes: set<NodeRef>, dropped: set<string>): set<OrderNode>
  {
    set n | n in nodes && n.id !in dropped :: HomeOf(resolutions, n)
  }

  predicate Crosses(resolutions: seq<Resolution>, dropped: set<string>, a: Arc<NodeRef>)
  {
    a.src.id !in dropped && a.dst.id !in dropped && HomeOf(resolutions, a.src) != HomeOf(resolutions, a.dst)
  }

  function CondensedArcs(resolutions: seq<Resolution>, arcs: Dag<NodeRef>, dropped: set<string>): Dag<OrderNode>
  {
    set a | a in arcs && Crosses(resolutions, dropped, a) :: Arc(HomeOf(resolutions, a.src), HomeOf(resolutions, a.dst))
  }

  function CondenseFor(cfg: Config, r: Report, excluded: set<string>): Condensed
  {
    var dropped := ManualMembers(r.resolutions) + excluded;
    Condensed(CondensedNodes(r.resolutions, r.fleet.nodes, dropped),
              CondensedArcs(r.resolutions, Arcs(cfg, r.fleet), dropped))
  }

  method CondenseForOrdering(cfg: Config, r: Report, excluded: set<string>) returns (c: Condensed)
    ensures c == CondenseFor(cfg, r, excluded)
  {
    var dropped := ManualMembers(r.resolutions) + excluded;
    var nodes: set<OrderNode>, arcs: Dag<OrderNode> := {}, {};
    var todo, done := r.fleet.nodes, {};
    while todo != {}
      invariant todo + done == r.fleet.nodes
      invariant nodes == CondensedNodes(r.resolutions, done, dropped)
      decreases todo
    {
      var n :| n in todo;
      todo, done := todo - {n}, done + {n};
      if n.id !in dropped {
        nodes := nodes + {HomeOf(r.resolutions, n)};
      }
    }
    assert done == r.fleet.nodes;
    var dag := Arcs(cfg, r.fleet);
    var linked, left: Dag<NodeRef> := {}, dag;
    while left != {}
      invariant left + linked == dag
      invariant arcs == CondensedArcs(r.resolutions, linked, dropped)
      decreases left
    {
      var a :| a in left;
      left, linked := left - {a}, linked + {a};
      if Crosses(r.resolutions, dropped, a) {
        arcs := arcs + {Arc(HomeOf(r.resolutions, a.src), HomeOf(r.resolutions, a.dst))};
      }
    }
    assert linked == dag;
    c := Condensed(nodes, arcs);
  }

  // ---------------------------------------------------------------------------------------
  // Homes
  // ---------------------------------------------------------------------------------------

  lemma {:induction false} AtomicHomeExact(resolutions: seq<Resolution>, id: string)
    ensures
      match AtomicHome(resolutions, id)
      case None => forall r :: r in resolutions && r.strategy == AtomicWave ==> id !in r.members
      case Some(members) =>
        id in members && exists r :: r in resolutions && r.strategy == AtomicWave && r.members == members
  {
    if resolutions != [] {
      var last := resolutions[|resolutions| - 1];
      assert resolutions == resolutions[..|resolutions| - 1] + [last];
      if last.strategy == AtomicWave && id in last.members {
        assert last in resolutions;
      } else {
        AtomicHomeExact(resolutions[..|resolutions| - 1], id);
      }
    }
  }

  /** `o` stands for `n`: the latest atomic component recorded with it, or the node itself if there is
      none. */
  ghost predicate StandsFor(resolutions: seq<Resolution>, o: OrderNode, n: NodeRef)
  {
    match o
    case Plain(m) =>
      m == n && (n.kind.Repo? ==> forall r :: r in resolutions && r.strategy == AtomicWave ==> n.id !in r.members)
    case Scc(members) => n.kind.Repo? && n.id in members && exists i: nat :: IsLatest(resolutions, n.id, members, i)
  }

  ghost predicate IsLatest(resolutions: seq<Resolution>, id: string, members: set<string>, i: nat)
  {
    && i < |resolutions| && resolutions[i].strategy == AtomicWave && resolutions[i].members == members
    && forall j :: i < j < |resolutions| && resolutions[j].strategy == AtomicWave ==> id !in resolutions[j].members
  }

  lemma {:induction false} LatestHome(resolutions: seq<Resolution>, id: string, members: set<string>)
    requires id in members
    ensures AtomicHome(resolutions, id) == Some(members) <==> exists i: nat :: IsLatest(resolutions, id, members, i)
  {
    if resolutions != [] {
      var front, last := resolutions[..|resolutions| - 1], resolutions[|resolutions| - 1];
      LatestHome(front, id, members);
      if last.strategy == AtomicWave && id in last.members {
        if last.members == members {
          assert IsLatest(resolutions, id, members, |resolutions| - 1);
        }
      } else {
        if i: nat :| IsLatest(front, id, members, i) {
          assert IsLatest(resolutions, id, members, i);
        }
        if i: nat :| IsLatest(resolutions, id, members, i) {
          assert IsLatest(front, id, members, i);
        }
      }
    }
  }

  lemma HomeExact(resolutions: seq<Resolution>, o: OrderNode, n: NodeRef)
    ensures HomeOf(resolutions, n) == o <==> StandsFor(resolutions, o, n)
  {
    AtomicHomeExact(resolutions, n.id);
    if o.Scc? && n.kind.Repo? && n.id in o.members {
      LatestHome(resolutions, n.id, o.members);
    }
  }

  /** `n` is in the graph and neither excluded nor left to be resolved by hand. */
  ghost predicate IsKept(r: Report, excluded: set<string>, n: NodeRef)
  {
    n.id !in excluded && forall x :: x in r.resolutions && x.strategy == Manual ==> n.id !in x.members
  }

  /** The condensed graph has a node for what the kept nodes stand in, and an arc where an ordering arc
      joins two kept nodes in different ones. */
  lemma CondensedExact(cfg: Config, r: Report, excluded: set<string>, o: OrderNode, p: OrderNode)
    ensures
      var c := CondenseFor(cfg, r, excluded);
      o in c.nodes <==> exists n :: n in r.fleet.nodes && IsKept(r, excluded, n) && StandsFor(r.resolutions, o, n)
    ensures
      var c := CondenseFor(cfg, r, excluded);
      Arc(o, p) in c.arcs <==>
        o != p && exists a :: a in Arcs(cfg, r.fleet) && IsKept(r, excluded, a.src) && IsKept(r, excluded, a.dst)
                              && StandsFor(r.resolutions, o, a.src) && StandsFor(r.resolutions, p, a.dst)
  {
    var dropped := ManualMembers(r.resolutions) + excluded;
    forall n: NodeRef
      ensures n.id !in dropped <==> IsKept(r, excluded, n)
      ensures HomeOf(r.resolutions, n) == o <==> StandsFor(r.resolutions, o, n)
      ensures HomeOf(r.resolutions, n) == p <==> StandsFor(r.resolutions, p, n)
    {
      HomeExact(r.resolutions, o, n);
      HomeExact(r.resolutions, p, n);
    }
  }

  lemma CondensedArcBehind(resolutions: seq<Resolution>, arcs: Dag<NodeRef>, dropped: set<string>, c: Arc<OrderNode>)
    returns (a: Arc<NodeRef>)
    requires c in CondensedArcs(resolutions, arcs, dropped)
    ensures a in arcs && Crosses(resolutions, dropped, a)
    ensures c.src == HomeOf(resolutions, a.src) && c.dst == HomeOf(resolutions, a.dst)
  {
    a :| a in arcs && Crosses(resolutions, dropped, a)
         && Arc(HomeOf(resolutions, a.src), HomeOf(resolutions, a.dst)) == c;
  }
}
