/**
 A condition on the input under which `break_cycles` returns (`graph/cycles.py`): every component
 stays live on the rows inside it that no contract owned elsewhere claims.  Nothing done for another
 component touches these rows, so each component is live at its turn.
 */
module LocalClaims {
  import opened Digraph
  import opened NodeOrder
  import opened DfsClasses
  import opened FleetModel
  import opened Materialize
  import opened Components
  import opened Cycles
  import opened FleetSteps
  import opened BreakTheorems
  import opened HoistTheorems
  import opened CycleTheorems
  import opened SharedHoists
  import opened Returns

  /** An ordering row between two repositories of `c`. */
  predicate RowInside(cfg: Config, edges: Edges, c: set<NodeRef>, k: EdgeKey)
  {
    && k in edges && Orders(cfg, edges[k]) && IsRepoEdge(edges[k])
    && edges[k].key.src in c && edges[k].dst in c
  }

  /** A contract that may be hoisted for another component claims the row. */
  ghost predicate ClaimedFromOutside(cfg: Config, contracts: Contracts, c: set<NodeRef>, e: Edge)
  {
    exists id ::
      && id in Usable(cfg, contracts) && contracts[id].status == Extractable
      && Claims(contracts[id], Evidence(e)) && contracts[id].owner.value !in MemberIds(c)
  }

  /** A row inside `c` that only contracts owned in `c` may take away. */
  ghost predicate OwnRow(cfg: Config, opening: Fleet, contracts: Contracts, c: set<NodeRef>, k: EdgeKey)
  {
    RowInside(cfg, opening.edges, c, k) && !ClaimedFromOutside(cfg, contracts, c, opening.edges[k])
  }

  ghost function OwnArcs(cfg: Config, opening: Fleet, contracts: Contracts, c: set<NodeRef>): Dag<NodeRef>
  {
    set k | k in opening.edges && OwnRow(cfg, opening, contracts, c, k) :: ArcOf(opening.edges[k])
  }

  /** A component that step 6 works on. */
  ghost predicate Worked(cfg: Config, opening: Fleet, c: set<NodeRef>)
  {
    IsScc(opening.nodes, Arcs(cfg, opening), c) && 2 <= |MemberIds(c)| <= cfg.hardMax
  }

  /** Every such component is live on its own arcs. */
  ghost predicate HoldTogether(cfg: Config, opening: Fleet, contracts: Contracts)
  {
    forall c :: Worked(cfg, opening, c) ==>
      LiveComponent(opening.nodes, OwnArcs(cfg, opening, contracts, c), MemberIds(c)) != {}
  }

  /** The rows of `c` are as they were. */
  ghost predicate Intact(cfg: Config, opening: Fleet, contracts: Contracts, g: Fleet, c: set<NodeRef>)
  {
    forall k :: OwnRow(cfg, opening, contracts, c, k) ==> k in g.edges && g.edges[k] == opening.edges[k]
  }

  // ---------------------------------------------------------------------------------------
  // Components are apart
  // ---------------------------------------------------------------------------------------

  lemma SccsApart(nodes: set<NodeRef>, arcs: Dag<NodeRef>, c: set<NodeRef>, d: set<NodeRef>, n: NodeRef)
    requires IsScc(nodes, arcs, c) && IsScc(nodes, arcs, d) && n in c && n in d
    ensures c == d
  {
    var u :| u in nodes && c == Component(nodes, arcs, u);
    var v :| v in nodes && d == Component(nodes, arcs, v);
    SameComponent(nodes, arcs, u, n);
    SameComponent(nodes, arcs, v, n);
  }

  lemma {:induction false} LedByDistinct(nodes: set<NodeRef>, arcs: Dag<NodeRef>, order: seq<NodeRef>, i: nat, j: nat)
    requires forall a, b :: 0 <= a < b < |order| ==> order[a] != order[b]
    requires i < j < |ComponentsLedBy(nodes, arcs, order)|
    ensures ComponentsLedBy(nodes, arcs, order)[i] != ComponentsLedBy(nodes, arcs, order)[j]
    decreases |order|
  {
    if !Leads(nodes, arcs, order[0]) {
      LedByDistinct(nodes, arcs, order[1..], i, j);
    } else if i > 0 {
      LedByDistinct(nodes, arcs, order[1..], i - 1, j - 1);
    } else {
      NotLedAgain(nodes, arcs, order, ComponentsLedBy(nodes, arcs, order[1..])[j - 1]);
    }
  }

  lemma NotLedAgain(nodes: set<NodeRef>, arcs: Dag<NodeRef>, order: seq<NodeRef>, c: set<NodeRef>)
    requires order != [] && Leads(nodes, arcs, order[0]) && order[0] !in order[1..]
    requires c in ComponentsLedBy(nodes, arcs, order[1..])
    ensures c != Component(nodes, arcs, order[0])
  {
    ComponentsLedByExact(nodes, arcs, order[1..], c);
    var u :| u in order[1..] && Leads(nodes, arcs, u) && c == Component(nodes, arcs, u);
    if c == Component(nodes, arcs, order[0]) {
      LeastUnique(u, order[0], c);
    }
  }

  lemma SccsDistinct(nodes: set<NodeRef>, arcs: Dag<NodeRef>, i: nat, j: nat)
    requires i < j < |NontrivialSccs(nodes, arcs)|
    ensures NontrivialSccs(nodes, arcs)[i] != NontrivialSccs(nodes, arcs)[j]
  {
    var order := Sorted(nodes);
    forall a, b | 0 <= a < b < |order|
      ensures order[a] != order[b]
    {
      SortedAscends(nodes, a, b);
    }
    LedByDistinct(nodes, arcs, order, i, j);
  }

  // ---------------------------------------------------------------------------------------
  // What is done for one component stays inside it
  // ---------------------------------------------------------------------------------------

  /** The live part of a component lies inside it. */
  lemma LiveInside(cfg: Config, opening: Fleet, g: Fleet, d: set<NodeRef>, n: NodeRef)
    requires FleetOk(cfg, opening) && FleetOk(cfg, g) && Within(cfg, opening, g)
    requires IsScc(opening.nodes, Arcs(cfg, opening), d) && n in Live(cfg, g, MemberIds(d))
    ensures n in d
  {
    var arcs, now := Arcs(cfg, opening), Arcs(cfg, g);
    var u, v := LiveHasTangle(g.nodes, now, MemberIds(d));
    LiveIsScc(g.nodes, now, MemberIds(d));
    ArcsTrap(cfg, g);
    LiveIsRepos(g.nodes, now, MemberIds(d), n);
    var w :| w in g.nodes && Live(cfg, g, MemberIds(d)) == Component(g.nodes, now, w);
    MutualTrans(now, u, w, n);
    MutualStays(cfg, opening, g, u, n);
    var x :| x in opening.nodes && d == Component(opening.nodes, arcs, x);
    assert u in d;
    MutualTrans(arcs, x, u, n);
  }

  lemma MutualStays(cfg: Config, opening: Fleet, g: Fleet, u: NodeRef, v: NodeRef)
    requires RowsOk(g.edges) && Within(cfg, opening, g) && u.kind.Repo? && v.kind.Repo? && Mutual(Arcs(cfg, g), u, v)
    ensures Mutual(Arcs(cfg, opening), u, v)
  {
    ArcsTrap(cfg, g);
    RepoReaches(Arcs(cfg, g), u, v);
    RepoReaches(Arcs(cfg, g), v, u);
    assert RepoArcs(Arcs(cfg, g)) <= Arcs(cfg, opening);
    ReachesMono(RepoArcs(Arcs(cfg, g)), Arcs(cfg, opening), u, v);
    ReachesMono(RepoArcs(Arcs(cfg, g)), Arcs(cfg, opening), v, u);
  }

  lemma FeedbackInside(cfg: Config, f: Fleet, live: set<NodeRef>, k: EdgeKey)
    requires k in FeedbackKeys(cfg, f, live) && RowsOk(f.edges)
    ensures k.src in live
  {
    ClassifyExact(Arcs(cfg, f), live);
    assert ArcOf(f.edges[k]) in BackArcs(Arcs(cfg, f), live);
  }

  /** The 6d loop breaks edges of its own component only. */
  lemma {:induction false} BreaksInside(cfg: Config, opening: Fleet, start: Fleet, b: Broken, d: set<NodeRef>)
    requires FleetOk(cfg, opening) && FleetOk(cfg, start) && Within(cfg, opening, start) && BrokenSoFar(cfg, start, b)
    requires IsScc(opening.nodes, Arcs(cfg, opening), d) && forall k :: k in b.keys ==> k.src in d
    ensures forall k :: k in BreakLoop(cfg, b, MemberIds(d)).keys ==> k.src in d
    decreases cfg.maxBreaks - |b.keys|
  {
    var members := MemberIds(d);
    var live := Live(cfg, b.fleet, members);
    if live != {} && |b.keys| < cfg.maxBreaks && !IsAtomic(cfg, b.fleet, live) {
      var next, k := BreaksOneInside(cfg, opening, start, b, d);
      BreaksInside(cfg, opening, start, next, d);
    } else {
      BreakLoopStops(cfg, b, members);
    }
  }

  lemma BreakLoopStops(cfg: Config, b: Broken, members: set<string>)
    requires Injective(cfg)
    requires
      var live := Live(cfg, b.fleet, members);
      live == {} || |b.keys| >= cfg.maxBreaks || IsAtomic(cfg, b.fleet, live)
    ensures BreakLoop(cfg, b, members) == b
  {
  }

  lemma BreaksOneInside(cfg: Config, opening: Fleet, start: Fleet, b: Broken, d: set<NodeRef>)
    returns (next: Broken, k: EdgeKey)
    requires FleetOk(cfg, opening) && FleetOk(cfg, start) && Within(cfg, opening, start) && BrokenSoFar(cfg, start, b)
    requires IsScc(opening.nodes, Arcs(cfg, opening), d)
    requires
      var live := Live(cfg, b.fleet, MemberIds(d));
      live != {} && |b.keys| < cfg.maxBreaks && !IsAtomic(cfg, b.fleet, live)
    ensures k.src in d && next.keys == b.keys + [k] && BrokenSoFar(cfg, start, next)
    ensures BreakLoop(cfg, b, MemberIds(d)) == BreakLoop(cfg, next, MemberIds(d))
  {
    SuppressedRowsOk(cfg, start, b.fleet.edges, b.keys);
    SuppressedWithin(cfg, start, b.fleet, b.keys);
    WithinTransitive(cfg, opening, start, b.fleet);
    next, k := BreakTurn(cfg, b, MemberIds(d));
    FeedbackInside(cfg, b.fleet, Live(cfg, b.fleet, MemberIds(d)), k);
    LiveInside(cfg, opening, b.fleet, d, k.src);
    BreakRow(cfg, start.edges, b.fleet.edges, b.keys, k);
  }

  /** Hoisting for `d` leaves the rows of another component alone. */
  lemma HoistLeavesIntact(cfg: Config, opening: Fleet, f: Fleet, c: set<NodeRef>, d: set<NodeRef>,
      contracts: Contracts, minConsumers: nat)
    requires FleetOk(cfg, opening) && FleetOk(cfg, f) && ContractsOk(contracts)
    requires IsScc(opening.nodes, Arcs(cfg, opening), c) && IsScc(opening.nodes, Arcs(cfg, opening), d) && c != d
    requires Intact(cfg, opening, contracts, f, c) && AfterHoist(cfg, f, contracts, MemberIds(d), minConsumers).Ok?
    ensures
      Intact(cfg, opening, contracts, AfterHoist(cfg, f, contracts, MemberIds(d), minConsumers).value.fleet, c)
  {
    var h := AfterHoist(cfg, f, contracts, MemberIds(d), minConsumers).value;
    HoistExact(cfg, f, contracts, MemberIds(d), minConsumers);
    forall k | OwnRow(cfg, opening, contracts, c, k)
      ensures k in h.fleet.edges && h.fleet.edges[k] == opening.edges[k]
    {
      if h.fleet != f {
        RowIsUnclaimed(cfg, opening, c, d, contracts, h.hoisted, f, k);
        var cs := Candidates(cfg, f, contracts, MemberIds(d));
        assert KeepsUnless(f.edges, h.fleet.edges, k, k in f.edges && HoistedClaim(cs, h.hoisted, f.edges[k]));
      }
    }
  }

  lemma RowIsUnclaimed(cfg: Config, opening: Fleet, c: set<NodeRef>, d: set<NodeRef>, contracts: Contracts,
      hoisted: seq<string>, f: Fleet, k: EdgeKey)
    requires cfg.hoistContracts && OwnRow(cfg, opening, contracts, c, k) && Intact(cfg, opening, contracts, f, c)
    requires IsScc(opening.nodes, Arcs(cfg, opening), c) && IsScc(opening.nodes, Arcs(cfg, opening), d) && c != d
    ensures !HoistedClaim(Candidates(cfg, f, contracts, MemberIds(d)), hoisted, f.edges[k])
  {
    var cs := Candidates(cfg, f, contracts, MemberIds(d));
    forall id | id in cs
      ensures !Claims(cs[id], Evidence(f.edges[k]))
    {
      CandidatesAreUsable(cfg, f, contracts, MemberIds(d));
      OwnerIsElsewhere(opening.nodes, Arcs(cfg, opening), c, d, contracts[id].owner.value);
    }
  }

  /** Who is owned in one component is not owned in another. */
  lemma OwnerIsElsewhere(nodes: set<NodeRef>, arcs: Dag<NodeRef>, c: set<NodeRef>, d: set<NodeRef>, owner: string)
    requires IsScc(nodes, arcs, c) && IsScc(nodes, arcs, d) && c != d && owner in MemberIds(d)
    ensures owner !in MemberIds(c)
  {
    MemberIsNode(c, owner);
    MemberIsNode(d, owner);
    if Node(Repo, owner) in c {
      SccsApart(nodes, arcs, c, d, Node(Repo, owner));
    }
  }

  lemma MemberIsNode(c: set<NodeRef>, id: string)
    ensures id in MemberIds(c) <==> Node(Repo, id) in c
  {
  }

  lemma ResolveLeavesIntact(cfg: Config, opening: Fleet, f: Fleet, c: set<NodeRef>, d: set<NodeRef>,
      contracts: Contracts, minConsumers: nat)
    requires FleetOk(cfg, opening) && FleetOk(cfg, f) && Within(cfg, opening, f) && ContractsOk(contracts)
    requires Intact(cfg, opening, contracts, f, c)
    requires IsScc(opening.nodes, Arcs(cfg, opening), c) && IsScc(opening.nodes, Arcs(cfg, opening), d) && c != d
    requires Resolve(cfg, f, d, contracts, minConsumers).Ok?
    ensures Intact(cfg, opening, contracts, Resolve(cfg, f, d, contracts, minConsumers).value.fleet, c)
  {
    var out, base, h := ResolveCases(cfg, f, d, contracts, minConsumers);
    if |base.members| <= cfg.hardMax {
      HoistLeavesIntact(cfg, opening, f, c, d, contracts, minConsumers);
      AfterHoistExact(cfg, f, contracts, base.members, minConsumers);
      if Live(cfg, h.fleet, base.members) != {} {
        WithinTransitive(cfg, opening, f, h.fleet);
        BreakLeavesIntact(cfg, opening, contracts, h, c, d, base);
      }
    }
  }

  lemma BreakLeavesIntact(cfg: Config, opening: Fleet, contracts: Contracts, h: Hoisting, c: set<NodeRef>,
      d: set<NodeRef>, base: Resolution)
    requires FleetOk(cfg, opening) && FleetOk(cfg, h.fleet) && Within(cfg, opening, h.fleet)
    requires IsScc(opening.nodes, Arcs(cfg, opening), c) && IsScc(opening.nodes, Arcs(cfg, opening), d) && c != d
    requires base.members == MemberIds(d) && Intact(cfg, opening, contracts, h.fleet, c)
    ensures Intact(cfg, opening, contracts, BreakOrMerge(cfg, h, base).fleet, c)
  {
    var start := Broken(h.fleet, []);
    var b := BreakLoop(cfg, start, base.members);
    NothingBroken(cfg, h.fleet);
    BreaksInside(cfg, opening, h.fleet, start, d);
    BreakLoopExact(cfg, h.fleet, start, base.members);
    forall k | OwnRow(cfg, opening, contracts, c, k)
      ensures k in b.fleet.edges && b.fleet.edges[k] == opening.edges[k]
    {
      assert opening.edges[k].key == k;
      if k in b.keys {
        SccsApart(opening.nodes, Arcs(cfg, opening), c, d, k.src);
      }
    }
  }

  lemma NothingBroken(cfg: Config, f: Fleet)
    ensures BrokenSoFar(cfg, f, Broken(f, []))
  {
  }

  // ---------------------------------------------------------------------------------------
  // Step 6 returns
  // ---------------------------------------------------------------------------------------

  lemma IntactIsLive(cfg: Config, opening: Fleet, contracts: Contracts, g: Fleet, c: set<NodeRef>)
    requires Within(cfg, opening, g) && Intact(cfg, opening, contracts, g, c)
    requires LiveComponent(opening.nodes, OwnArcs(cfg, opening, contracts, c), MemberIds(c)) != {}
    ensures Live(cfg, g, MemberIds(c)) != {}
  {
    forall a | a in OwnArcs(cfg, opening, contracts, c)
      ensures a in Arcs(cfg, g)
    {
      var k :| k in opening.edges && OwnRow(cfg, opening, contracts, c, k) && ArcOf(opening.edges[k]) == a;
      ArcOfRow(cfg, g.edges, k);
    }
    LiveMonotone(opening.nodes, OwnArcs(cfg, opening, contracts, c), g.nodes, Arcs(cfg, g), MemberIds(c));
  }

  /** The components still to come are distinct components of the opening graph, all intact. */
  ghost predicate Waiting(cfg: Config, opening: Fleet, contracts: Contracts, g: Fleet, pending: seq<set<NodeRef>>)
  {
    && (forall c :: c in pending ==>
          IsScc(opening.nodes, Arcs(cfg, opening), c) && Intact(cfg, opening, contracts, g, c))
    && (forall i, j :: 0 <= i < j < |pending| ==> pending[i] != pending[j])
  }

  lemma WaitingShrinks(cfg: Config, opening: Fleet, contracts: Contracts, f: Fleet, g: Fleet,
      pending: seq<set<NodeRef>>)
    requires pending != [] && Waiting(cfg, opening, contracts, f, pending)
    requires forall c :: c in pending && c != pending[0] ==> Intact(cfg, opening, contracts, g, c)
    ensures Waiting(cfg, opening, contracts, g, pending[1..])
  {
    forall c | c in pending[1..]
      ensures IsScc(opening.nodes, Arcs(cfg, opening), c) && Intact(cfg, opening, contracts, g, c)
    {
      var i :| 0 <= i < |pending[1..]| && pending[1..][i] == c;
      assert c == pending[i + 1] && c in pending;
    }
  }

  lemma {:induction false} AllResolve(cfg: Config, opening: Fleet, r: Report, pending: seq<set<NodeRef>>,
      contracts: Contracts, minConsumers: nat)
    requires FleetOk(cfg, opening) && FleetOk(cfg, r.fleet) && Within(cfg, opening, r.fleet) && ContractsOk(contracts)
    requires Known(r.fleet, Usable(cfg, contracts)) && HoldTogether(cfg, opening, contracts)
    requires Waiting(cfg, opening, contracts, r.fleet, pending)
    ensures ResolveAll(cfg, r, pending, contracts, minConsumers).Ok?
    decreases |pending|
  {
    if pending != [] {
      var d := pending[0];
      assert d in pending;
      ResolveAllUnfolds(cfg, r, pending, contracts, minConsumers);
      if |MemberIds(d)| < 2 {
        WaitingShrinks(cfg, opening, contracts, r.fleet, r.fleet, pending);
        AllResolve(cfg, opening, r, pending[1..], contracts, minConsumers);
      } else {
        if |MemberIds(d)| <= cfg.hardMax {
          assert Worked(cfg, opening, d);
          IntactIsLive(cfg, opening, contracts, r.fleet, d);
        }
        ResolveFailsExactly(cfg, r.fleet, d, contracts, minConsumers);
        var next := WithResolved(r, Resolve(cfg, r.fleet, d, contracts, minConsumers).value);
        ResolvedIsOk(cfg, r.fleet, d, contracts, minConsumers);
        WithinTransitive(cfg, opening, r.fleet, next.fleet);
        forall c | c in pending && c != d
          ensures Intact(cfg, opening, contracts, next.fleet, c)
        {
          ResolveLeavesIntact(cfg, opening, r.fleet, c, d, contracts, minConsumers);
        }
        WaitingShrinks(cfg, opening, contracts, r.fleet, next.fleet, pending);
        AllResolve(cfg, opening, next, pending[1..], contracts, minConsumers);
      }
    }
  }

  /** When every component holds together without what others may claim, `break_cycles` returns. */
  lemma HoldTogetherReturns(cfg: Config, nodes: set<NodeRef>, edges: Edges, contracts: Contracts, minConsumers: nat)
    requires InputOk(cfg, nodes, edges, contracts)
    requires HoldTogether(cfg, Opening(cfg, nodes, edges, contracts), contracts)
    ensures Break(cfg, nodes, edges, contracts, minConsumers).Ok?
  {
    var opening := Opening(cfg, nodes, edges, contracts);
    var components := NontrivialSccs(opening.nodes, Arcs(cfg, opening));
    OpeningIsOk(cfg, nodes, edges, contracts);
    forall c | c in components
      ensures IsScc(opening.nodes, Arcs(cfg, opening), c) && Intact(cfg, opening, contracts, opening, c)
    {
      NontrivialSccsExact(opening.nodes, Arcs(cfg, opening), c);
    }
    forall i, j | 0 <= i < j < |components|
      ensures components[i] != components[j]
    {
      SccsDistinct(opening.nodes, Arcs(cfg, opening), i, j);
    }
    AllResolve(cfg, opening, Report(opening, [], []), components, contracts, minConsumers);
  }

  /** What every raise needs: a component that contracts owned elsewhere can cut apart. */
  lemma RaiseNeedsOutsideClaims(cfg: Config, nodes: set<NodeRef>, edges: Edges, contracts: Contracts,
      minConsumers: nat) returns (c: set<NodeRef>, k: EdgeKey)
    requires InputOk(cfg, nodes, edges, contracts) && Break(cfg, nodes, edges, contracts, minConsumers).Err?
    ensures
      var opening := Opening(cfg, nodes, edges, contracts);
      && Worked(cfg, opening, c)
      && LiveComponent(opening.nodes, OwnArcs(cfg, opening, contracts, c), MemberIds(c)) == {}
      && RowInside(cfg, opening.edges, c, k) && ClaimedFromOutside(cfg, contracts, c, opening.edges[k])
  {
    var opening := Opening(cfg, nodes, edges, contracts);
    OpeningIsOk(cfg, nodes, edges, contracts);
    if HoldTogether(cfg, opening, contracts) {
      HoldTogetherReturns(cfg, nodes, edges, contracts, minConsumers);
    }
    c :| Worked(cfg, opening, c)
         && LiveComponent(opening.nodes, OwnArcs(cfg, opening, contracts, c), MemberIds(c)) == {};
    if forall j :: RowInside(cfg, opening.edges, c, j) ==> !ClaimedFromOutside(cfg, contracts, c, opening.edges[j]) {
      UnclaimedHolds(cfg, opening, contracts, c);
    }
    k :| RowInside(cfg, opening.edges, c, k) && ClaimedFromOutside(cfg, contracts, c, opening.edges[k]);
  }

  // ---------------------------------------------------------------------------------------
  // Components nobody else claims anything of
  // ---------------------------------------------------------------------------------------

  /** No row inside `c` is claimed from outside. */
  ghost predicate Unclaimed(cfg: Config, opening: Fleet, contracts: Contracts, c: set<NodeRef>)
  {
    forall k :: RowInside(cfg, opening.edges, c, k) ==> !ClaimedFromOutside(cfg, contracts, c, opening.edges[k])
  }

  lemma {:induction false} WalkIsOwn(cfg: Config, opening: Fleet, contracts: Contracts, c: set<NodeRef>, u: NodeRef,
      v: NodeRef, n: nat)
    requires RowsOk(opening.edges) && Unclaimed(cfg, opening, contracts, c) && v.kind.Repo?
    requires ReachesIn(InnerArcs(Arcs(cfg, opening), c), u, v, n)
    ensures u.kind.Repo? && ReachesIn(OwnArcs(cfg, opening, contracts, c), u, v, n)
    decreases n
  {
    if n > 0 {
      var inner := InnerArcs(Arcs(cfg, opening), c);
      var w :| Arc(u, w) in inner && ReachesIn(inner, w, v, n - 1);
      WalkIsOwn(cfg, opening, contracts, c, w, v, n - 1);
      ArcsTrap(cfg, opening);
      ArcIsOwn(cfg, opening, contracts, c, Arc(u, w));
    }
  }

  lemma ArcIsOwn(cfg: Config, opening: Fleet, contracts: Contracts, c: set<NodeRef>, a: Arc<NodeRef>)
    requires RowsOk(opening.edges) && Unclaimed(cfg, opening, contracts, c)
    requires a in InnerArcs(Arcs(cfg, opening), c) && a.src.kind.Repo? && a.dst.kind.Repo?
    ensures a in OwnArcs(cfg, opening, contracts, c)
  {
    var k := RowBehind(cfg, opening.edges, a);
    assert RowInside(cfg, opening.edges, c, k);
    assert OwnRow(cfg, opening, contracts, c, k);
  }

  lemma ReachesOnOwn(cfg: Config, opening: Fleet, contracts: Contracts, c: set<NodeRef>, u: NodeRef, v: NodeRef)
    requires FleetOk(cfg, opening) && Unclaimed(cfg, opening, contracts, c)
    requires IsScc(opening.nodes, Arcs(cfg, opening), c) && u in c && v in c && v.kind.Repo?
    ensures Reaches(OwnArcs(cfg, opening, contracts, c), u, v)
  {
    var arcs := Arcs(cfg, opening);
    var x :| x in opening.nodes && c == Component(opening.nodes, arcs, x);
    MutualTrans(arcs, u, x, v);
    SameComponent(opening.nodes, arcs, x, u);
    forall a | a in arcs
      ensures a.src in opening.nodes && a.dst in opening.nodes
    {
      ArcsInside(cfg, opening, a);
    }
    var n: nat :| ReachesIn(arcs, u, v, n);
    InnerWalk(opening.nodes, arcs, u, v, n);
    WalkIsOwn(cfg, opening, contracts, c, u, v, n);
  }

  lemma SccInNodes(nodes: set<NodeRef>, arcs: Dag<NodeRef>, c: set<NodeRef>)
    requires IsScc(nodes, arcs, c)
    ensures c <= nodes
  {
  }

  /** Such a component holds together. */
  lemma UnclaimedHolds(cfg: Config, opening: Fleet, contracts: Contracts, c: set<NodeRef>)
    requires FleetOk(cfg, opening) && Unclaimed(cfg, opening, contracts, c) && Worked(cfg, opening, c)
    ensures LiveComponent(opening.nodes, OwnArcs(cfg, opening, contracts, c), MemberIds(c)) != {}
  {
    var a, b := PickTwo(MemberIds(c));
    var u, v := Node(Repo, a), Node(Repo, b);
    MemberIsNode(c, a);
    MemberIsNode(c, b);
    ReachesOnOwn(cfg, opening, contracts, c, u, v);
    ReachesOnOwn(cfg, opening, contracts, c, v, u);
    SccInNodes(opening.nodes, Arcs(cfg, opening), c);
    TangleIsLive(opening.nodes, OwnArcs(cfg, opening, contracts, c), MemberIds(c), u, v);
  }

  /** In particular step 6 returns when inside every component only contracts owned there claim evidence,
      and so whenever there is nothing to hoist. */
  lemma LocalReturns(cfg: Config, nodes: set<NodeRef>, edges: Edges, contracts: Contracts, minConsumers: nat)
    requires InputOk(cfg, nodes, edges, contracts)
    requires
      var opening := Opening(cfg, nodes, edges, contracts);
      forall c :: Worked(cfg, opening, c) ==> Unclaimed(cfg, opening, contracts, c)
    ensures Break(cfg, nodes, edges, contracts, minConsumers).Ok?
  {
    var opening := Opening(cfg, nodes, edges, contracts);
    OpeningIsOk(cfg, nodes, edges, contracts);
    forall c | Worked(cfg, opening, c)
      ensures LiveComponent(opening.nodes, OwnArcs(cfg, opening, contracts, c), MemberIds(c)) != {}
    {
      UnclaimedHolds(cfg, opening, contracts, c);
    }
    HoldTogetherReturns(cfg, nodes, edges, contracts, minConsumers);
  }
}
