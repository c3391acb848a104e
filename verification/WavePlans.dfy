/**
 Step 7 (`assign_waves`, `append_synthetic_waves` of `graph/sequence.py`): the condensed graph
 is layered and every node gets the wave of the order node it belongs to.
 */
module WavePlans {
  import opened Options
  import opened Digraph
  import opened NodeOrder
  import opened DfsClasses
  import opened FleetModel
  import opened Cycles
  import opened Condense
  import opened Layers

  datatype Wave = Wave(
    index: nat, repos: set<string>, contracts: set<string>, dependsOn: set<nat>,
    sccs: set<set<string>>, synthetic: bool)

  /** How a component was dealt with, completed by the wave of an atomic one. */
  datatype CycleFinding = CycleFinding(resolution: Resolution, wave: Option<nat>)

  datatype WavePlan = WavePlan(
    waves: seq<Wave>, index: map<NodeRef, nat>, findings: seq<CycleFinding>, excluded: set<string>)

  // ---------------------------------------------------------------------------------------
  // Ascending indices
  // ---------------------------------------------------------------------------------------

  lemma {:induction false} MinExists(s: set<nat>) returns (m: nat)
    requires s != {}
    ensures m in s && forall x :: x in s ==> m <= x
  {
    m :| m in s;
    if s != {m} {
      var rest := s - {m};
      assert s == rest + {m};
      var k := MinExists(rest);
      m := if m <= k then m else k;
    }
  }

  function MinOf(s: set<nat>): (m: nat)
    requires s != {}
    ensures m in s && forall x :: x in s ==> m <= x
  {
    assert exists m :: m in s && forall x :: x in s ==> m <= x by {
      var m := MinExists(s);
    }
    var m :| m in s && forall x :: x in s ==> m <= x;
    m
  }

  function Ascending(s: set<nat>): (r: seq<nat>)
    ensures forall i :: i in r <==> i in s
    decreases s
  {
    if s == {} then [] else [MinOf(s)] + Ascending(s - {MinOf(s)})
  }

  /** A set of indices with no gap, from `lo` on, is listed as `lo`, `lo + 1`, ... */
  lemma {:induction false} AscendingContiguous(s: set<nat>, lo: nat, k: nat)
    requires forall i :: i in s <==> lo <= i < lo + k
    ensures |Ascending(s)| == k && forall i :: 0 <= i < k ==> Ascending(s)[i] == lo + i
    decreases k
  {
    if k == 0 {
      assert s == {};
    } else {
      assert lo in s;
      var m := MinOf(s);
      assert m == lo;
      AscendingContiguous(s - {m}, lo + 1, k - 1);
    }
  }

  // ---------------------------------------------------------------------------------------
  // Waves from an index
  // ---------------------------------------------------------------------------------------

  function At<V>(m: map<nat, set<V>>, i: nat): set<V> { if i in m then m[i] else {} }

  function WaveAt(index: map<NodeRef, nat>, sccs: map<nat, set<set<string>>>, depends: map<nat, set<nat>>,
                  i: nat, synthetic: bool): Wave
  {
    Wave(i,
         set n | n in index && index[n] == i && n.kind.Repo? :: n.id,
         set n | n in index && index[n] == i && n.kind.Contract? :: n.id,
         At<nat>(depends, i) - {i}, At(sccs, i), synthetic)
  }

  /** `w` gathers what has index `i`: the repositories among its repositories, the contracts among its
      contracts, the other waves it depends on and its components. */
  ghost predicate Gathers(w: Wave, i: nat, index: map<NodeRef, nat>, sccs: map<nat, set<set<string>>>,
                          depends: map<nat, set<nat>>, synthetic: bool)
  {
    && w.index == i && w.synthetic == synthetic
    && (forall id :: id in w.repos <==> Node(Repo, id) in index && index[Node(Repo, id)] == i)
    && (forall id :: id in w.contracts <==> Node(Contract, id) in index && index[Node(Contract, id)] == i)
    && (forall j :: j in w.dependsOn <==> j != i && i in depends && j in depends[i])
    && (forall s :: s in w.sccs <==> i in sccs && s in sccs[i])
  }

  lemma WaveAtGathers(index: map<NodeRef, nat>, sccs: map<nat, set<set<string>>>, depends: map<nat, set<nat>>,
      i: nat, synthetic: bool)
    ensures Gathers(WaveAt(index, sccs, depends, i, synthetic), i, index, sccs, depends, synthetic)
  {
    var w := WaveAt(index, sccs, depends, i, synthetic);
    forall id
      ensures id in w.repos <==> Node(Repo, id) in index && index[Node(Repo, id)] == i
      ensures id in w.contracts <==> Node(Contract, id) in index && index[Node(Contract, id)] == i
    {
      assert id in w.repos <==> exists n :: n in index && index[n] == i && n.kind.Repo? && n.id == id;
      assert id in w.contracts <==> exists n :: n in index && index[n] == i && n.kind.Contract? && n.id == id;
    }
  }

  method MaterializeWaves(index: map<NodeRef, nat>, sccs: map<nat, set<set<string>>>,
                          depends: map<nat, set<nat>>, synthetic: bool) returns (waves: seq<Wave>)
    ensures |waves| == |Ascending(index.Values)|
    ensures forall j :: 0 <= j < |waves| ==>
              waves[j] == WaveAt(index, sccs, depends, Ascending(index.Values)[j], synthetic)
    ensures forall j :: 0 <= j < |waves| ==>
              Gathers(waves[j], Ascending(index.Values)[j], index, sccs, depends, synthetic)
  {
    waves := [];
    var indices := Ascending(index.Values);
    for i := 0 to |indices|
      invariant |waves| == i
      invariant forall j :: 0 <= j < i ==> waves[j] == WaveAt(index, sccs, depends, indices[j], synthetic)
    {
      waves := waves + [WaveAt(index, sccs, depends, indices[i], synthetic)];
    }
    forall j | 0 <= j < |waves|
      ensures Gathers(waves[j], indices[j], index, sccs, depends, synthetic)
    {
      WaveAtGathers(index, sccs, depends, indices[j], synthetic);
    }
  }

  // ---------------------------------------------------------------------------------------
  // The index
  // ---------------------------------------------------------------------------------------

  /** The nodes that share an order node: all members of a component, gated ones included. */
  function Residents(o: OrderNode): set<NodeRef>
  {
    match o
    case Plain(n) => {n}
    case Scc(members) => set m | m in members :: Node(Repo, m)
  }

  ghost predicate Apart(nodes: set<OrderNode>)
  {
    forall o, p, n :: o in nodes && p in nodes && n in Residents(o) && n in Residents(p) ==> o == p
  }

  /** Every resident, and nothing else, has the wave of its order node. */
  ghost predicate Indexes(nodes: set<OrderNode>, layered: Waves<OrderNode>, index: map<NodeRef, nat>)
  {
    && nodes <= layered.Keys
    && (forall o, n :: o in nodes && n in Residents(o) ==> n in index && index[n] == layered[o])
    && (forall n :: n in index ==> exists o :: o in nodes && n in Residents(o))
  }

  ghost predicate SccsAt(nodes: set<OrderNode>, layered: Waves<OrderNode>, sccs: map<nat, set<set<string>>>)
  {
    && nodes <= layered.Keys
    && forall i, s :: s in At(sccs, i) <==> Scc(s) in nodes && layered[Scc(s)] == i
  }

  /** Some arc runs from wave `i` to wave `j`. */
  ghost predicate Joins<T(!new)>(arcs: set<Arc<T>>, index: Waves<T>, i: nat, j: nat)
  {
    exists a :: a in arcs && a.src in index && a.dst in index && index[a.src] == i && index[a.dst] == j
  }

  ghost predicate DependsAt<T(!new)>(arcs: set<Arc<T>>, layered: Waves<T>, depends: map<nat, set<nat>>)
  {
    forall i, j :: j in At<nat>(depends, i) <==> Joins(arcs, layered, i, j)
  }

  method IndexNodes(layered: Waves<OrderNode>) returns (index: map<NodeRef, nat>, sccs: map<nat, set<set<string>>>)
    requires Apart(layered.Keys)
    ensures Indexes(layered.Keys, layered, index) && SccsAt(layered.Keys, layered, sccs)
  {
    index, sccs := map[], map[];
    var todo, done: set<OrderNode> := layered.Keys, {};
    while todo != {}
      invariant todo + done == layered.Keys && todo !! done
      invariant Indexes(done, layered, index) && SccsAt(done, layered, sccs)
      decreases todo
    {
      var o :| o in todo;
      ghost var before := index;
      index := index + map n | n in Residents(o) :: layered[o];
      assert Indexes(done + {o}, layered, index) by {
        IndexAdds(layered, done, o, before, index);
      }
      ghost var sccs0 := sccs;
      if o.Scc? {
        sccs := sccs[layered[o] := At(sccs, layered[o]) + {o.members}];
      }
      SccsAdd(layered, done, o, sccs0, sccs);
      todo, done := todo - {o}, done + {o};
    }
    assert done == layered.Keys;
  }

  lemma SccsAdd(layered: Waves<OrderNode>, done: set<OrderNode>, o: OrderNode,
      before: map<nat, set<set<string>>>, after: map<nat, set<set<string>>>)
    requires SccsAt(done, layered, before) && o in layered && o !in done
    requires after == if o.Scc? then before[layered[o] := At(before, layered[o]) + {o.members}] else before
    ensures SccsAt(done + {o}, layered, after)
  {
    forall i, s
      ensures s in At(after, i) <==> Scc(s) in done + {o} && layered[Scc(s)] == i
    {
      assert s in At(before, i) <==> Scc(s) in done && layered[Scc(s)] == i;
      assert s in At(after, i) <==> s in At(before, i) || (o == Scc(s) && layered[o] == i);
    }
  }

  lemma IndexAdds(layered: Waves<OrderNode>, done: set<OrderNode>, o: OrderNode, before: map<NodeRef, nat>,
      index: map<NodeRef, nat>)
    requires Apart(layered.Keys) && Indexes(done, layered, before) && o in layered && o !in done
    requires index == before + map n | n in Residents(o) :: layered[o]
    ensures Indexes(done + {o}, layered, index)
  {
    forall p, n | p in done + {o} && n in Residents(p)
      ensures n in index && index[n] == layered[p]
    {
      if p in done {
        assert n !in Residents(o);
      }
    }
    forall n | n in index
      ensures exists p :: p in done + {o} && n in Residents(p)
    {
      if n in Residents(o) {
        assert o in done + {o};
      } else {
        var p :| p in done && n in Residents(p);
        assert p in done + {o};
      }
    }
  }

  method CollectDepends<T(==,!new)>(arcs: set<Arc<T>>, layered: Waves<T>) returns (depends: map<nat, set<nat>>)
    requires forall a :: a in arcs ==> a.src in layered && a.dst in layered
    ensures DependsAt(arcs, layered, depends)
  {
    depends := map[];
    var todo, done: set<Arc<T>> := arcs, {};
    while todo != {}
      invariant todo + done == arcs
      invariant DependsAt(done, layered, depends)
      decreases todo
    {
      var a :| a in todo;
      var i, j := layered[a.src], layered[a.dst];
      ghost var before := depends;
      depends := depends[i := At<nat>(depends, i) + {j}];
      DependsAdds(layered, done, a, before, depends);
      todo, done := todo - {a}, done + {a};
    }
    assert done == arcs;
  }

  lemma DependsAdds<T(!new)>(layered: Waves<T>, done: set<Arc<T>>, a: Arc<T>, before: map<nat, set<nat>>,
      after: map<nat, set<nat>>)
    requires DependsAt(done, layered, before) && a.src in layered && a.dst in layered
    requires after == before[layered[a.src] := At<nat>(before, layered[a.src]) + {layered[a.dst]}]
    ensures DependsAt(done + {a}, layered, after)
  {
    forall i, j
      ensures j in At<nat>(after, i) <==> Joins(done + {a}, layered, i, j)
    {
      assert j in At<nat>(before, i) <==> Joins(done, layered, i, j);
      if Joins(done, layered, i, j) {
        var b :| b in done && b.src in layered && b.dst in layered && layered[b.src] == i && layered[b.dst] == j;
        assert b in done + {a};
      }
      if i == layered[a.src] && j == layered[a.dst] {
        assert a in done + {a};
      }
    }
  }

  // ---------------------------------------------------------------------------------------
  // Findings
  // ---------------------------------------------------------------------------------------

  /** An atomic component reports the wave of its first member. */
  function FindingFor(x: Resolution, index: map<NodeRef, nat>): CycleFinding
  {
    CycleFinding(x,
      if x.strategy == AtomicWave && x.members != {} && Node(Repo, LeastString(x.members)) in index
      then Some(index[Node(Repo, LeastString(x.members))]) else None)
  }

  /** The finding's validator: every strategy is substantiated, and an atomic one has a wave. */
  predicate FindingOk(f: CycleFinding)
  {
    var x := f.resolution;
    && |x.members| >= 2
    && (x.strategy == ContractHoist ==> x.hoisted != [] && x.broken == [])
    && (x.strategy == EdgeBreak ==> x.broken != [])
    && (x.strategy == AtomicWave ==> f.wave.Some?)
  }

  /** The same in terms of the report: an atomic component must not be excluded as a whole. */
  predicate Reportable(x: Resolution, excluded: set<string>)
  {
    && |x.members| >= 2
    && (x.strategy == ContractHoist ==> x.hoisted != [] && x.broken == [])
    && (x.strategy == EdgeBreak ==> x.broken != [])
    && (x.strategy == AtomicWave ==> !(x.members <= excluded))
  }

  method ReportFindings(resolutions: seq<Resolution>, index: map<NodeRef, nat>)
    returns (findings: Option<seq<CycleFinding>>)
    ensures findings.Some? <==> forall x :: x in resolutions ==> FindingOk(FindingFor(x, index))
    ensures findings.Some? ==> Reports(resolutions, index, findings.value)
  {
    var out: seq<CycleFinding> := [];
    for i := 0 to |resolutions|
      invariant |out| == i
      invariant forall j :: 0 <= j < i ==> out[j] == FindingFor(resolutions[j], index) && FindingOk(out[j])
    {
      var one := FindingFor(resolutions[i], index);
      if !FindingOk(one) {
        assert resolutions[i] in resolutions;
        return None;
      }
      out := out + [one];
    }
    findings := Some(out);
  }

  ghost predicate Reports(resolutions: seq<Resolution>, index: map<NodeRef, nat>, findings: seq<CycleFinding>)
  {
    |findings| == |resolutions| && forall i :: 0 <= i < |findings| ==> findings[i] == FindingFor(resolutions[i], index)
  }

  // ---------------------------------------------------------------------------------------
  // assign_waves
  // ---------------------------------------------------------------------------------------

  /** What sequencing asks of a report: its graph is closed and its atomic components are disjoint
      sets of its repositories. */
  ghost predicate Sequenceable(cfg: Config, r: Report)
  {
    && (forall a :: a in Arcs(cfg, r.fleet) ==> a.src in r.fleet.nodes && a.dst in r.fleet.nodes)
    && (forall x, m :: x in r.resolutions && x.strategy == AtomicWave && m in x.members ==>
          HomeOf(r.resolutions, Node(Repo, m)) == Scc(x.members))
  }

  ghost predicate AtomicMembersPresent(r: Report)
  {
    forall x, m :: x in r.resolutions && x.strategy == AtomicWave && m in x.members ==> Node(Repo, m) in r.fleet.nodes
  }

  /** The plan for a report: a layering of the condensed graph, spread over its residents. */
  ghost predicate PlanFor(cfg: Config, r: Report, gated: set<string>, layered: Waves<OrderNode>, plan: WavePlan)
  {
    var c := CondenseFor(cfg, r, plan.excluded);
    && plan.excluded == gated + ManualMembers(r.resolutions)
    && Layering(c.nodes, c.arcs, layered)
    && Indexes(c.nodes, layered, plan.index)
    && Reports(r.resolutions, plan.index, plan.findings)
    && exists sccs, depends :: Filled(c, layered, plan, sccs, depends)
  }

  ghost predicate Filled(c: Condensed, layered: Waves<OrderNode>, plan: WavePlan,
                         sccs: map<nat, set<set<string>>>, depends: map<nat, set<nat>>)
  {
    && SccsAt(c.nodes, layered, sccs)
    && DependsAt(c.arcs, layered, depends)
    && |plan.waves| == |Ascending(plan.index.Values)|
    && (forall j :: 0 <= j < |plan.waves| ==>
          plan.waves[j] == WaveAt(plan.index, sccs, depends, Ascending(plan.index.Values)[j], false))
  }

  /** A plan is drawn exactly when the condensed graph is acyclic and no atomic component is
      excluded as a whole: the finding of such a component would have no wave to name. */
  method AssignWaves(cfg: Config, r: Report, gated: set<string>)
    returns (plan: Result<WavePlan>, ghost layered: Waves<OrderNode>)
    requires Sequenceable(cfg, r) && AtomicMembersPresent(r)
    ensures
      var excluded := gated + ManualMembers(r.resolutions);
      plan.Ok? <==>
        Acyclic(CondenseFor(cfg, r, excluded).arcs) && forall x :: x in r.resolutions ==> Reportable(x, excluded)
    ensures plan == Err(StillCyclic) <==> !Acyclic(CondenseFor(cfg, r, gated + ManualMembers(r.resolutions)).arcs)
    ensures plan.Err? ==> plan.error in {StillCyclic, InvalidFinding}
    ensures plan.Ok? ==> PlanFor(cfg, r, gated, layered, plan.value)
  {
    layered := map[];
    var excluded := gated + ManualMembers(r.resolutions);
    var c := CondenseForOrdering(cfg, r, excluded);
    if !IsAcyclic(c.arcs) {
      return Err(StillCyclic), layered;
    }
    CondensedInside(cfg, r, excluded);
    CondensedApart(cfg, r, excluded);
    var waves := Layer(c.nodes, c.arcs);
    layered := waves;
    var index, sccs := IndexNodes(waves);
    var depends := CollectDepends(c.arcs, waves);
    var list := MaterializeWaves(index, sccs, depends, false);
    var findings := ReportFindings(r.resolutions, index);
    FindingsExact(cfg, r, excluded, layered, index);
    if findings.None? {
      return Err(InvalidFinding), layered;
    }
    plan := Ok(WavePlan(list, index, findings.value, excluded));
    assert Filled(c, layered, plan.value, sccs, depends);
  }

  lemma CondensedInside(cfg: Config, r: Report, excluded: set<string>)
    requires Sequenceable(cfg, r)
    ensures
      var c := CondenseFor(cfg, r, excluded);
      Inside(c.nodes, c.arcs)
  {
    var c := CondenseFor(cfg, r, excluded);
    var dropped := ManualMembers(r.resolutions) + excluded;
    forall b | b in c.arcs
      ensures b.src in c.nodes && b.dst in c.nodes
    {
      var a := CondensedArcBehind(r.resolutions, Arcs(cfg, r.fleet), dropped, b);
    }
  }

  /** Who is at home where: a resident of a condensed node calls it home. */
  lemma ResidentIsHome(cfg: Config, r: Report, excluded: set<string>, o: OrderNode, n: NodeRef)
    requires Sequenceable(cfg, r) && o in CondenseFor(cfg, r, excluded).nodes && n in Residents(o)
    ensures HomeOf(r.resolutions, n) == o
  {
    var dropped := ManualMembers(r.resolutions) + excluded;
    var m :| m in r.fleet.nodes && m.id !in dropped && HomeOf(r.resolutions, m) == o;
    if o.Scc? {
      AtomicHomeExact(r.resolutions, m.id);
      var x :| x in r.resolutions && x.strategy == AtomicWave && x.members == o.members;
    }
  }

  lemma HomeHasResident(r: Report, n: NodeRef)
    ensures n in Residents(HomeOf(r.resolutions, n))
  {
    AtomicHomeExact(r.resolutions, n.id);
  }

  lemma CondensedApart(cfg: Config, r: Report, excluded: set<string>)
    requires Sequenceable(cfg, r)
    ensures Apart(CondenseFor(cfg, r, excluded).nodes)
  {
    var nodes := CondenseFor(cfg, r, excluded).nodes;
    forall o, p, n | o in nodes && p in nodes && n in Residents(o) && n in Residents(p)
      ensures o == p
    {
      ResidentIsHome(cfg, r, excluded, o, n);
      ResidentIsHome(cfg, r, excluded, p, n);
    }
  }

  // ---------------------------------------------------------------------------------------
  // What a plan guarantees
  // ---------------------------------------------------------------------------------------

  /** A node has a wave exactly when its home survived condensation, and then its home's wave. */
  lemma IndexedByHome(cfg: Config, r: Report, excluded: set<string>, layered: Waves<OrderNode>,
      index: map<NodeRef, nat>, n: NodeRef)
    requires Sequenceable(cfg, r) && Indexes(CondenseFor(cfg, r, excluded).nodes, layered, index)
    ensures n in index <==> HomeOf(r.resolutions, n) in CondenseFor(cfg, r, excluded).nodes
    ensures n in index ==> HomeOf(r.resolutions, n) in layered && index[n] == layered[HomeOf(r.resolutions, n)]
  {
    var c := CondenseFor(cfg, r, excluded);
    if n in index {
      var o :| o in c.nodes && n in Residents(o);
      ResidentIsHome(cfg, r, excluded, o, n);
    }
    HomeHasResident(r, n);
  }

  lemma IndexExact(cfg: Config, r: Report, gated: set<string>, layered: Waves<OrderNode>, plan: WavePlan, n: NodeRef)
    requires Sequenceable(cfg, r) && PlanFor(cfg, r, gated, layered, plan)
    ensures n in plan.index <==> HomeOf(r.resolutions, n) in CondenseFor(cfg, r, plan.excluded).nodes
    ensures n in plan.index ==>
              HomeOf(r.resolutions, n) in layered && plan.index[n] == layered[HomeOf(r.resolutions, n)]
  {
    IndexedByHome(cfg, r, plan.excluded, layered, plan.index, n);
  }

  /** An atomic component has a wave exactly when not all of it is excluded. */
  lemma AtomicHasWave(cfg: Config, r: Report, excluded: set<string>, layered: Waves<OrderNode>,
      index: map<NodeRef, nat>, x: Resolution)
    requires Sequenceable(cfg, r) && AtomicMembersPresent(r) && ManualMembers(r.resolutions) <= excluded
    requires Indexes(CondenseFor(cfg, r, excluded).nodes, layered, index)
    requires x in r.resolutions && x.strategy == AtomicWave && x.members != {}
    ensures FindingFor(x, index).wave.Some? <==> !(x.members <= excluded)
  {
    var m := LeastString(x.members);
    IndexedByHome(cfg, r, excluded, layered, index, Node(Repo, m));
    HomeSurvives(cfg, r, excluded, x);
  }

  lemma HomeSurvives(cfg: Config, r: Report, excluded: set<string>, x: Resolution)
    requires Sequenceable(cfg, r) && AtomicMembersPresent(r) && ManualMembers(r.resolutions) <= excluded
    requires x in r.resolutions && x.strategy == AtomicWave
    ensures Scc(x.members) in CondenseFor(cfg, r, excluded).nodes <==> !(x.members <= excluded)
  {
    var res := r.resolutions;
    var dropped := ManualMembers(res) + excluded;
    if Scc(x.members) in CondenseFor(cfg, r, excluded).nodes {
      var n :| n in r.fleet.nodes && n.id !in dropped && HomeOf(res, n) == Scc(x.members);
      AtomicHomeExact(res, n.id);
    }
    if !(x.members <= excluded) {
      var m :| m in x.members && m !in excluded;
      assert Node(Repo, m) in r.fleet.nodes && HomeOf(res, Node(Repo, m)) == Scc(x.members);
    }
  }

  lemma FindingsExact(cfg: Config, r: Report, excluded: set<string>, layered: Waves<OrderNode>,
      index: map<NodeRef, nat>)
    requires Sequenceable(cfg, r) && AtomicMembersPresent(r) && ManualMembers(r.resolutions) <= excluded
    requires Indexes(CondenseFor(cfg, r, excluded).nodes, layered, index)
    ensures forall x :: x in r.resolutions ==> (FindingOk(FindingFor(x, index)) <==> Reportable(x, excluded))
  {
    forall x | x in r.resolutions
      ensures FindingOk(FindingFor(x, index)) <==> Reportable(x, excluded)
    {
      if x.strategy == AtomicWave && |x.members| >= 2 {
        AtomicHasWave(cfg, r, excluded, layered, index, x);
      }
    }
  }

  /** The wave a finding names is the wave of every member. */
  lemma FindingNamesTheWave(cfg: Config, r: Report, gated: set<string>, layered: Waves<OrderNode>, plan: WavePlan,
      i: nat, m: string)
    requires Sequenceable(cfg, r) && PlanFor(cfg, r, gated, layered, plan)
    requires i < |plan.findings| && plan.findings[i].wave.Some? && m in plan.findings[i].resolution.members
    ensures Node(Repo, m) in plan.index && plan.index[Node(Repo, m)] == plan.findings[i].wave.value
  {
    var x := r.resolutions[i];
    assert x in r.resolutions;
    IndexExact(cfg, r, gated, layered, plan, Node(Repo, m));
    IndexExact(cfg, r, gated, layered, plan, Node(Repo, LeastString(x.members)));
  }

  /** Excluding `out` keeps `kept` of the same atomic component. */
  ghost predicate SplitBy(r: Report, excluded: set<string>, x: Resolution, kept: string, out: string)
  {
    && x in r.resolutions && x.strategy == AtomicWave && kept in x.members && out in x.members
    && kept !in excluded && out in excluded
  }

  /** Some atomic component is excluded in part. */
  ghost predicate Splits(r: Report, excluded: set<string>)
  {
    exists x, kept, out :: SplitBy(r, excluded, x, kept, out)
  }

  /** Exactly the nodes that were not dropped get a wave. */
  ghost predicate Covers(r: Report, plan: WavePlan)
  {
    forall n :: n in plan.index <==> n in r.fleet.nodes && n.id !in plan.excluded
  }

  /** A node that is kept has a wave, whatever else is excluded. */
  lemma KeptIsCovered(cfg: Config, r: Report, gated: set<string>, layered: Waves<OrderNode>, plan: WavePlan, n: NodeRef)
    requires Sequenceable(cfg, r) && PlanFor(cfg, r, gated, layered, plan)
    requires n in r.fleet.nodes && n.id !in plan.excluded
    ensures n in plan.index
  {
    IndexExact(cfg, r, gated, layered, plan, n);
  }

  /** A node with a wave is kept, unless it shares an atomic component with a kept one. */
  lemma CoveredIsKept(cfg: Config, r: Report, gated: set<string>, layered: Waves<OrderNode>, plan: WavePlan, n: NodeRef)
    requires Sequenceable(cfg, r) && PlanFor(cfg, r, gated, layered, plan) && AtomicMembersPresent(r)
    requires n in plan.index
    ensures n in r.fleet.nodes && (n.id in plan.excluded ==> Splits(r, plan.excluded))
  {
    var res := r.resolutions;
    IndexExact(cfg, r, gated, layered, plan, n);
    var m :| m in r.fleet.nodes && m.id !in ManualMembers(res) + plan.excluded && HomeOf(res, m) == HomeOf(res, n);
    AtomicHomeExact(res, n.id);
    AtomicHomeExact(res, m.id);
    if m != n {
      var x :| x in res && x.strategy == AtomicWave && Scc(x.members) == HomeOf(res, n);
      assert n.id in plan.excluded ==> SplitBy(r, plan.excluded, x, m.id, n.id);
    }
  }

  /** `assign_waves` spreads an atomic component over all its members, excluded ones included. */
  lemma SplitIsCovered(cfg: Config, r: Report, gated: set<string>, layered: Waves<OrderNode>, plan: WavePlan,
      x: Resolution, kept: string, out: string)
    requires Sequenceable(cfg, r) && PlanFor(cfg, r, gated, layered, plan) && AtomicMembersPresent(r)
    requires SplitBy(r, plan.excluded, x, kept, out)
    ensures Node(Repo, out) in plan.index
  {
    KeptIsCovered(cfg, r, gated, layered, plan, Node(Repo, kept));
    IndexExact(cfg, r, gated, layered, plan, Node(Repo, kept));
    IndexExact(cfg, r, gated, layered, plan, Node(Repo, out));
  }

  lemma CoversWhenWhole(cfg: Config, r: Report, gated: set<string>, layered: Waves<OrderNode>, plan: WavePlan)
    requires Sequenceable(cfg, r) && PlanFor(cfg, r, gated, layered, plan) && AtomicMembersPresent(r)
    requires !Splits(r, plan.excluded)
    ensures Covers(r, plan)
  {
    forall n
      ensures n in plan.index <==> n in r.fleet.nodes && n.id !in plan.excluded
    {
      if n in plan.index {
        CoveredIsKept(cfg, r, gated, layered, plan, n);
      } else if n in r.fleet.nodes && n.id !in plan.excluded {
        KeptIsCovered(cfg, r, gated, layered, plan, n);
      }
    }
  }

  /** The waves cover exactly what was not dropped if and only if no atomic component is split. */
  lemma CoverageExact(cfg: Config, r: Report, gated: set<string>, layered: Waves<OrderNode>, plan: WavePlan)
    requires Sequenceable(cfg, r) && PlanFor(cfg, r, gated, layered, plan) && AtomicMembersPresent(r)
    ensures Covers(r, plan) <==> !Splits(r, plan.excluded)
  {
    if Splits(r, plan.excluded) {
      var x, kept, out :| SplitBy(r, plan.excluded, x, kept, out);
      SplitIsCovered(cfg, r, gated, layered, plan, x, kept, out);
    } else {
      CoversWhenWhole(cfg, r, gated, layered, plan);
    }
  }

  /** Members of one atomic component share a wave; otherwise a dependent comes strictly later. */
  lemma PlanOrdersEdges(cfg: Config, r: Report, gated: set<string>, layered: Waves<OrderNode>, plan: WavePlan,
      a: Arc<NodeRef>)
    requires Sequenceable(cfg, r) && PlanFor(cfg, r, gated, layered, plan)
    requires a in Arcs(cfg, r.fleet) && a.src.id !in plan.excluded && a.dst.id !in plan.excluded
    ensures a.src in plan.index && a.dst in plan.index
    ensures
      if HomeOf(r.resolutions, a.src) == HomeOf(r.resolutions, a.dst) then plan.index[a.src] == plan.index[a.dst]
      else plan.index[a.dst] < plan.index[a.src]
  {
    var c := CondenseFor(cfg, r, plan.excluded);
    var u, v := HomeOf(r.resolutions, a.src), HomeOf(r.resolutions, a.dst);
    IndexExact(cfg, r, gated, layered, plan, a.src);
    IndexExact(cfg, r, gated, layered, plan, a.dst);
    assert u in c.nodes && v in c.nodes;
    if u != v {
      assert Crosses(r.resolutions, ManualMembers(r.resolutions) + plan.excluded, a);
      assert Arc(u, v) in c.arcs;
      assert IsLayer(c.arcs, layered, u);
    }
  }

  /** The same for every ordering edge whose two ends have a wave, when no atomic component is split. */
  lemma PlanOrdersEveryEdge(cfg: Config, r: Report, gated: set<string>, layered: Waves<OrderNode>, plan: WavePlan,
      a: Arc<NodeRef>)
    requires Sequenceable(cfg, r) && PlanFor(cfg, r, gated, layered, plan) && AtomicMembersPresent(r)
    requires !Splits(r, plan.excluded)
    requires a in Arcs(cfg, r.fleet) && a.src in plan.index && a.dst in plan.index
    ensures
      if HomeOf(r.resolutions, a.src) == HomeOf(r.resolutions, a.dst) then plan.index[a.src] == plan.index[a.dst]
      else plan.index[a.dst] < plan.index[a.src]
  {
    CoveredIsKept(cfg, r, gated, layered, plan, a.src);
    CoveredIsKept(cfg, r, gated, layered, plan, a.dst);
    PlanOrdersEdges(cfg, r, gated, layered, plan, a);
  }

  /** The arcs between surviving homes with every member of a split component left in. */
  function KeptArcs(cfg: Config, r: Report, excluded: set<string>): Dag<OrderNode>
  {
    var res, nodes := r.resolutions, CondenseFor(cfg, r, excluded).nodes;
    set a | a in Arcs(cfg, r.fleet) && HomeOf(res, a.src) in nodes && HomeOf(res, a.dst) in nodes
            && HomeOf(res, a.src) != HomeOf(res, a.dst) :: Arc(HomeOf(res, a.src), HomeOf(res, a.dst))
  }

  ghost predicate OrderedEdge(r: Report, plan: WavePlan, a: Arc<NodeRef>)
    requires a.src in plan.index && a.dst in plan.index
  {
    if HomeOf(r.resolutions, a.src) == HomeOf(r.resolutions, a.dst) then plan.index[a.src] == plan.index[a.dst]
    else plan.index[a.dst] < plan.index[a.src]
  }

  /** Every ordering edge both ends of which have a wave is ordered. */
  ghost predicate OrdersAll(cfg: Config, r: Report, plan: WavePlan)
  {
    forall a :: a in Arcs(cfg, r.fleet) && a.src in plan.index && a.dst in plan.index ==> OrderedEdge(r, plan, a)
  }

  lemma CondensedIsKept(cfg: Config, r: Report, excluded: set<string>)
    requires Sequenceable(cfg, r)
    ensures CondenseFor(cfg, r, excluded).arcs <= KeptArcs(cfg, r, excluded)
  {
    var dropped := ManualMembers(r.resolutions) + excluded;
    CondensedInside(cfg, r, excluded);
    forall b | b in CondenseFor(cfg, r, excluded).arcs
      ensures b in KeptArcs(cfg, r, excluded)
    {
      var a := CondensedArcBehind(r.resolutions, Arcs(cfg, r.fleet), dropped, b);
    }
  }

  /** A layering that also puts the sources of more arcs above is a layering for these arcs. */
  lemma LayeringWithMore<T(!new)>(nodes: set<T>, arcs: set<Arc<T>>, more: set<Arc<T>>, w: Waves<T>)
    requires Layering(nodes, arcs, w) && arcs <= more && Inside(nodes, more)
    requires forall a :: a in more && a.src in w && a.dst in w ==> w[a.dst] < w[a.src]
    ensures Layering(nodes, more, w)
  {
    forall n | n in nodes
      ensures IsLayer(more, w, n)
    {
      assert IsLayer(arcs, w, n);
      forall v | Arc(n, v) in more
        ensures v in w && w[v] < w[n]
      {
        assert Arc(n, v).dst in nodes;
      }
      if w[n] > 0 {
        var v :| Arc(n, v) in arcs && v in w && w[v] + 1 == w[n];
        assert Arc(n, v) in more;
      }
    }
  }

  lemma EdgeIsKept(cfg: Config, r: Report, gated: set<string>, layered: Waves<OrderNode>, plan: WavePlan,
      a: Arc<NodeRef>)
    requires Sequenceable(cfg, r) && PlanFor(cfg, r, gated, layered, plan)
    requires a in Arcs(cfg, r.fleet) && a.src in plan.index && a.dst in plan.index
    ensures
      var u, v := HomeOf(r.resolutions, a.src), HomeOf(r.resolutions, a.dst);
      && u in layered && v in layered && plan.index[a.src] == layered[u] && plan.index[a.dst] == layered[v]
      && (u != v ==> Arc(u, v) in KeptArcs(cfg, r, plan.excluded))
  {
    IndexExact(cfg, r, gated, layered, plan, a.src);
    IndexExact(cfg, r, gated, layered, plan, a.dst);
  }

  lemma KeptIsOrdered(cfg: Config, r: Report, gated: set<string>, layered: Waves<OrderNode>, plan: WavePlan,
      b: Arc<OrderNode>)
    requires Sequenceable(cfg, r) && PlanFor(cfg, r, gated, layered, plan) && OrdersAll(cfg, r, plan)
    requires b in KeptArcs(cfg, r, plan.excluded)
    ensures b.src in layered && b.dst in layered && layered[b.dst] < layered[b.src]
  {
    var res, nodes := r.resolutions, CondenseFor(cfg, r, plan.excluded).nodes;
    var a :| a in Arcs(cfg, r.fleet) && HomeOf(res, a.src) in nodes && HomeOf(res, a.dst) in nodes
             && HomeOf(res, a.src) != HomeOf(res, a.dst) && Arc(HomeOf(res, a.src), HomeOf(res, a.dst)) == b;
    IndexExact(cfg, r, gated, layered, plan, a.src);
    IndexExact(cfg, r, gated, layered, plan, a.dst);
    assert OrderedEdge(r, plan, a);
  }

  /** Every edge with both ends in waves is ordered if and only if the layering is that of the graph
      with the members of split components left in. */
  lemma OrdersAllExactly(cfg: Config, r: Report, gated: set<string>, layered: Waves<OrderNode>, plan: WavePlan)
    requires Sequenceable(cfg, r) && PlanFor(cfg, r, gated, layered, plan)
    ensures
      var nodes, kept := CondenseFor(cfg, r, plan.excluded).nodes, KeptArcs(cfg, r, plan.excluded);
      && (OrdersAll(cfg, r, plan) <==> Layering(nodes, kept, layered))
      && (forall w :: Layering(nodes, kept, w) ==> (OrdersAll(cfg, r, plan) <==> layered == w))
  {
    var c, kept := CondenseFor(cfg, r, plan.excluded), KeptArcs(cfg, r, plan.excluded);
    if OrdersAll(cfg, r, plan) {
      forall b | b in kept
        ensures layered[b.dst] < layered[b.src]
      {
        KeptIsOrdered(cfg, r, gated, layered, plan, b);
      }
      CondensedIsKept(cfg, r, plan.excluded);
      LayeringWithMore(c.nodes, c.arcs, kept, layered);
    }
    if Layering(c.nodes, kept, layered) {
      LayeringOrders(cfg, r, gated, layered, plan);
    }
    forall w | Layering(c.nodes, kept, w)
      ensures OrdersAll(cfg, r, plan) <==> layered == w
    {
      if OrdersAll(cfg, r, plan) {
        LayeringUnique(c.nodes, kept, layered, w);
      }
    }
  }

  lemma LayeringOrders(cfg: Config, r: Report, gated: set<string>, layered: Waves<OrderNode>, plan: WavePlan)
    requires Sequenceable(cfg, r) && PlanFor(cfg, r, gated, layered, plan)
    requires Layering(CondenseFor(cfg, r, plan.excluded).nodes, KeptArcs(cfg, r, plan.excluded), layered)
    ensures OrdersAll(cfg, r, plan)
  {
    Descends(CondenseFor(cfg, r, plan.excluded).nodes, KeptArcs(cfg, r, plan.excluded), layered);
    forall a | a in Arcs(cfg, r.fleet) && a.src in plan.index && a.dst in plan.index
      ensures OrderedEdge(r, plan, a)
    {
      EdgeIsKept(cfg, r, gated, layered, plan, a);
    }
  }

  lemma IndexBelow(nodes: set<OrderNode>, arcs: Dag<OrderNode>, layered: Waves<OrderNode>, index: map<NodeRef, nat>,
      n: NodeRef, i: nat) returns (m: NodeRef)
    requires Layering(nodes, arcs, layered) && Indexes(nodes, layered, index)
    requires forall o :: o in nodes ==> Residents(o) != {}
    requires n in index && i <= index[n]
    ensures m in index && index[m] == i
  {
    var o :| o in nodes && n in Residents(o);
    var p := LayersAreContiguous(nodes, arcs, layered, o, i);
    m :| m in Residents(p);
  }

  /** A map onto naturals without a gap is onto 0, 1, ..., k-1. */
  lemma GapFree<T>(index: map<T, nat>) returns (k: nat)
    requires forall n, i :: n in index && 0 <= i <= index[n] ==> i in index.Values
    ensures forall i :: i in index.Values <==> 0 <= i < k
  {
    if index.Values == {} {
      k := 0;
    } else {
      k := MaxOf(index.Values) + 1;
      var m :| m in index && index[m] == k - 1;
    }
  }

  lemma IndicesContiguous(nodes: set<OrderNode>, arcs: Dag<OrderNode>, layered: Waves<OrderNode>,
      index: map<NodeRef, nat>)
    returns (k: nat)
    requires Layering(nodes, arcs, layered) && Indexes(nodes, layered, index)
    requires forall o :: o in nodes ==> Residents(o) != {}
    ensures forall i :: i in index.Values <==> 0 <= i < k
  {
    forall n, i | n in index && 0 <= i <= index[n]
      ensures i in index.Values
    {
      var m := IndexBelow(nodes, arcs, layered, index, n, i);
    }
    k := GapFree(index);
  }

  lemma DependsAreLower(nodes: set<OrderNode>, arcs: Dag<OrderNode>, layered: Waves<OrderNode>,
      depends: map<nat, set<nat>>, i: nat)
    requires Inside(nodes, arcs) && Layering(nodes, arcs, layered) && DependsAt(arcs, layered, depends)
    ensures forall j :: j in At<nat>(depends, i) ==> j < i
  {
    forall j | j in At<nat>(depends, i)
      ensures j < i
    {
      assert Joins(arcs, layered, i, j);
      var a :| a in arcs && a.src in layered && a.dst in layered && layered[a.src] == i && layered[a.dst] == j;
      assert IsLayer(arcs, layered, a.src);
      assert Arc(a.src, a.dst) in arcs;
    }
  }

  /** Waves are numbered 0..k-1 in order, none is empty, and each depends on lower ones only. */
  ghost predicate WellFormed(plan: WavePlan)
  {
    && (forall i :: 0 <= i < |plan.waves| ==> WaveOk(plan.waves[i], i))
    && (forall n :: n in plan.index ==> plan.index[n] < |plan.waves|)
  }

  ghost predicate WaveOk(w: Wave, i: nat)
  {
    w.index == i && (w.repos != {} || w.contracts != {}) && forall j :: j in w.dependsOn ==> j < i
  }

  lemma WavesWellFormed(cfg: Config, r: Report, gated: set<string>, layered: Waves<OrderNode>, plan: WavePlan)
    requires Sequenceable(cfg, r) && PlanFor(cfg, r, gated, layered, plan)
    ensures WellFormed(plan)
  {
    var c := CondenseFor(cfg, r, plan.excluded);
    var sccs, depends :| Filled(c, layered, plan, sccs, depends);
    forall o | o in c.nodes
      ensures Residents(o) != {}
    {
      var n :| n in r.fleet.nodes && HomeOf(r.resolutions, n) == o;
      HomeHasResident(r, n);
    }
    var k := IndicesContiguous(c.nodes, c.arcs, layered, plan.index);
    CondensedInside(cfg, r, plan.excluded);
    FilledIsWellFormed(c, layered, plan, sccs, depends, k);
  }

  lemma FilledIsWellFormed(c: Condensed, layered: Waves<OrderNode>, plan: WavePlan,
      sccs: map<nat, set<set<string>>>, depends: map<nat, set<nat>>, k: nat)
    requires Inside(c.nodes, c.arcs) && Layering(c.nodes, c.arcs, layered) && Filled(c, layered, plan, sccs, depends)
    requires forall i :: i in plan.index.Values <==> 0 <= i < k
    ensures WellFormed(plan)
  {
    AscendingContiguous(plan.index.Values, 0, k);
    forall i | 0 <= i < |plan.waves|
      ensures WaveOk(plan.waves[i], i)
    {
      assert plan.waves[i] == WaveAt(plan.index, sccs, depends, i, false);
      DependsAreLower(c.nodes, c.arcs, layered, depends, i);
      WaveAtOk(plan.index, sccs, depends, i, false);
    }
    forall n | n in plan.index
      ensures plan.index[n] < |plan.waves|
    {
      assert plan.index[n] in plan.index.Values;
    }
  }

  lemma WaveAtOk(index: map<NodeRef, nat>, sccs: map<nat, set<set<string>>>, depends: map<nat, set<nat>>, i: nat,
      synthetic: bool)
    requires i in index.Values && forall j :: j in At<nat>(depends, i) ==> j <= i
    ensures WaveOk(WaveAt(index, sccs, depends, i, synthetic), i)
  {
    var w := WaveAt(index, sccs, depends, i, synthetic);
    var n :| n in index && index[n] == i;
    assert if n.kind.Repo? then n.id in w.repos else n.id in w.contracts;
    forall j | j in w.dependsOn
      ensures j < i
    {
      assert j in At<nat>(depends, i);
    }
  }

  // ---------------------------------------------------------------------------------------
  // What is in a wave
  // ---------------------------------------------------------------------------------------

  /** Some ordering edge between nodes that are kept runs from wave `i` to wave `j`. */
  ghost predicate Leads(cfg: Config, r: Report, plan: WavePlan, i: nat, j: nat)
  {
    exists a ::
      && a in Arcs(cfg, r.fleet) && a.src.id !in plan.excluded && a.dst.id !in plan.excluded
      && a.src in plan.index && a.dst in plan.index && plan.index[a.src] == i && plan.index[a.dst] == j
  }

  /** `s` is an atomic component that is kept, at least in part, and moves in wave `i`. */
  ghost predicate MovesIn(r: Report, plan: WavePlan, s: set<string>, i: nat)
  {
    && (exists x :: x in r.resolutions && x.strategy == AtomicWave && x.members == s)
    && exists m :: m in s && m !in plan.excluded && Node(Repo, m) in plan.index && plan.index[Node(Repo, m)] == i
  }

  /** Wave `i` holds exactly the repositories and the contracts with index `i`, depends on exactly the
      other waves an edge of it leads to, and names exactly its atomic components. */
  ghost predicate WaveHolds(cfg: Config, r: Report, plan: WavePlan, i: nat)
    requires i < |plan.waves|
  {
    var w := plan.waves[i];
    && w.index == i && !w.synthetic
    && (forall id :: id in w.repos <==> Node(Repo, id) in plan.index && plan.index[Node(Repo, id)] == i)
    && (forall id :: id in w.contracts <==> Node(Contract, id) in plan.index && plan.index[Node(Contract, id)] == i)
    && (forall j :: j in w.dependsOn <==> j != i && Leads(cfg, r, plan, i, j))
    && (forall s :: s in w.sccs <==> MovesIn(r, plan, s, i))
  }

  /** The same of its dependencies and components, read off the condensed graph. */
  ghost predicate WaveCondenses(c: Condensed, layered: Waves<OrderNode>, plan: WavePlan, i: nat)
    requires i < |plan.waves| && c.nodes <= layered.Keys
  {
    && (forall j :: j in plan.waves[i].dependsOn <==> j != i && Joins(c.arcs, layered, i, j))
    && (forall s :: s in plan.waves[i].sccs <==> Scc(s) in c.nodes && layered[Scc(s)] == i)
  }

  lemma JoinsIsLeads(cfg: Config, r: Report, gated: set<string>, layered: Waves<OrderNode>, plan: WavePlan,
      i: nat, j: nat)
    requires Sequenceable(cfg, r) && PlanFor(cfg, r, gated, layered, plan) && i != j
    ensures Joins(CondenseFor(cfg, r, plan.excluded).arcs, layered, i, j) <==> Leads(cfg, r, plan, i, j)
  {
    var c, res := CondenseFor(cfg, r, plan.excluded), r.resolutions;
    var dropped := ManualMembers(res) + plan.excluded;
    assert dropped == plan.excluded;
    if Joins(c.arcs, layered, i, j) {
      var b :| b in c.arcs && b.src in layered && b.dst in layered && layered[b.src] == i && layered[b.dst] == j;
      var a := CondensedArcBehind(res, Arcs(cfg, r.fleet), dropped, b);
      PlanOrdersEdges(cfg, r, gated, layered, plan, a);
      IndexExact(cfg, r, gated, layered, plan, a.src);
      IndexExact(cfg, r, gated, layered, plan, a.dst);
    }
    if Leads(cfg, r, plan, i, j) {
      var a :| a in Arcs(cfg, r.fleet) && a.src.id !in plan.excluded && a.dst.id !in plan.excluded
               && a.src in plan.index && a.dst in plan.index && plan.index[a.src] == i && plan.index[a.dst] == j;
      IndexExact(cfg, r, gated, layered, plan, a.src);
      IndexExact(cfg, r, gated, layered, plan, a.dst);
      assert Crosses(res, dropped, a);
      assert Arc(HomeOf(res, a.src), HomeOf(res, a.dst)) in c.arcs;
    }
  }

  lemma SccIsMoving(cfg: Config, r: Report, gated: set<string>, layered: Waves<OrderNode>, plan: WavePlan,
      s: set<string>, i: nat)
    requires Sequenceable(cfg, r) && AtomicMembersPresent(r) && PlanFor(cfg, r, gated, layered, plan)
    ensures
      var c := CondenseFor(cfg, r, plan.excluded);
      (Scc(s) in c.nodes && layered[Scc(s)] == i) <==> MovesIn(r, plan, s, i)
  {
    var c, res := CondenseFor(cfg, r, plan.excluded), r.resolutions;
    if Scc(s) in c.nodes {
      var n :| n in r.fleet.nodes && n.id !in ManualMembers(res) + plan.excluded && HomeOf(res, n) == Scc(s);
      AtomicHomeExact(res, n.id);
      IndexExact(cfg, r, gated, layered, plan, n);
      assert n == Node(Repo, n.id);
    }
    if MovesIn(r, plan, s, i) {
      var x :| x in res && x.strategy == AtomicWave && x.members == s;
      var m :| m in s && m !in plan.excluded && Node(Repo, m) in plan.index && plan.index[Node(Repo, m)] == i;
      IndexExact(cfg, r, gated, layered, plan, Node(Repo, m));
    }
  }

  lemma FilledGathers(c: Condensed, layered: Waves<OrderNode>, plan: WavePlan, sccs: map<nat, set<set<string>>>,
      depends: map<nat, set<nat>>, i: nat)
    requires Filled(c, layered, plan, sccs, depends) && i < |plan.waves| && Ascending(plan.index.Values)[i] == i
    ensures Gathers(plan.waves[i], i, plan.index, sccs, depends, false)
    ensures WaveCondenses(c, layered, plan, i)
  {
    WaveAtGathers(plan.index, sccs, depends, i, false);
    forall j
      ensures j in plan.waves[i].dependsOn <==> j != i && Joins(c.arcs, layered, i, j)
    {
      assert j in At<nat>(depends, i) <==> Joins(c.arcs, layered, i, j);
    }
    forall s
      ensures s in plan.waves[i].sccs <==> Scc(s) in c.nodes && layered[Scc(s)] == i
    {
      assert s in At(sccs, i) <==> Scc(s) in c.nodes && layered[Scc(s)] == i;
    }
  }

  /** What every wave of a plan holds, in terms of the report and of the condensed graph. */
  lemma WavesHoldExactly(cfg: Config, r: Report, gated: set<string>, layered: Waves<OrderNode>, plan: WavePlan, i: nat)
    requires Sequenceable(cfg, r) && AtomicMembersPresent(r) && PlanFor(cfg, r, gated, layered, plan)
    requires i < |plan.waves|
    ensures WaveHolds(cfg, r, plan, i) && WaveCondenses(CondenseFor(cfg, r, plan.excluded), layered, plan, i)
  {
    var c := CondenseFor(cfg, r, plan.excluded);
    var sccs, depends :| Filled(c, layered, plan, sccs, depends);
    WavesWellFormed(cfg, r, gated, layered, plan);
    assert WaveOk(plan.waves[i], i);
    FilledGathers(c, layered, plan, sccs, depends, i);
    forall j
      ensures j in plan.waves[i].dependsOn <==> j != i && Leads(cfg, r, plan, i, j)
    {
      if i != j {
        JoinsIsLeads(cfg, r, gated, layered, plan, i, j);
      }
    }
    forall s
      ensures s in plan.waves[i].sccs <==> MovesIn(r, plan, s, i)
    {
      SccIsMoving(cfg, r, gated, layered, plan, s, i);
    }
  }
}
