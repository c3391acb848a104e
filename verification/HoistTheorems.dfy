/**
 Step 6c-H: the saturating trial answers for every subset of the candidates, committing
 contracts one at a time ends where the trial predicted, and a commit is backed by consumers.
 */
module HoistTheorems {
  import opened NodeOrder
  import opened FleetModel
  import opened Materialize
  import opened Components
  import opened Cycles
  import opened FleetSteps

  // ---------------------------------------------------------------------------------------
  // The saturating trial
  // ---------------------------------------------------------------------------------------

  ghost predicate SubContracts(some: Contracts, all: Contracts)
  {
    forall id :: id in some ==> id in all && some[id] == all[id]
  }

  lemma ClaimedGrows(some: Contracts, all: Contracts, e: Edge)
    requires SubContracts(some, all) && Claimed(some, e)
    ensures Claimed(all, e)
  {
    var id :| id in Claimants(some, Evidence(e));
    assert id in Claimants(all, Evidence(e));
  }

  lemma ReposOfTrial(cfg: Config, f: Fleet, cs: Contracts, members: set<string>)
    requires Injective(cfg) && RowsOk(f.edges)
    ensures Live(cfg, Trial(cfg, f, cs), members) != {} <==>
            LiveComponent(f.nodes, UnclaimedArcs(cfg, f.edges, cs), members) != {}
  {
    var t := Trial(cfg, f, cs);
    TrialWithin(cfg, f, cs);
    ArcsTrap(cfg, t);
    MaterializedRepoArcs(cfg, f.edges, cs);
    LiveOnRepoArcs(t.nodes, Arcs(cfg, t), members);
    var arcs := UnclaimedArcs(cfg, f.edges, cs);
    if LiveComponent(t.nodes, arcs, members) != {} {
      LiveMonotone(t.nodes, arcs, f.nodes, arcs, members);
    }
    if LiveComponent(f.nodes, arcs, members) != {} {
      LiveMonotone(f.nodes, arcs, t.nodes, arcs, members);
    }
  }

  /** If hoisting every candidate leaves the component live, so does hoisting any of them. */
  lemma SaturationIsSound(cfg: Config, f: Fleet, all: Contracts, some: Contracts, members: set<string>)
    requires Injective(cfg) && RowsOk(f.edges) && SubContracts(some, all)
    requires Live(cfg, Trial(cfg, f, all), members) != {}
    ensures Live(cfg, Trial(cfg, f, some), members) != {}
  {
    ReposOfTrial(cfg, f, all, members);
    ReposOfTrial(cfg, f, some, members);
    forall a | a in UnclaimedArcs(cfg, f.edges, all)
      ensures a in UnclaimedArcs(cfg, f.edges, some)
    {
      var k :| k in f.edges && Orders(cfg, f.edges[k]) && IsRepoEdge(f.edges[k])
               && !Claimed(all, f.edges[k]) && ArcOf(f.edges[k]) == a;
      if Claimed(some, f.edges[k]) {
        ClaimedGrows(some, all, f.edges[k]);
      }
    }
    LiveMonotone(f.nodes, UnclaimedArcs(cfg, f.edges, all), f.nodes, UnclaimedArcs(cfg, f.edges, some), members);
  }

  // ---------------------------------------------------------------------------------------
  // One contract at a time, in any order
  // ---------------------------------------------------------------------------------------

  function MaterializeEach(cfg: Config, edges: Edges, order: seq<ContractNode>): Edges
    requires Injective(cfg)
    decreases |order|
  {
    if order == [] then edges
    else MaterializeEach(cfg, Materialized(cfg, edges, One(order[0])), order[1..])
  }

  ghost predicate ClaimedByAny(order: seq<ContractNode>, e: Edge)
  {
    IsRepoEdge(e) && exists c :: c in order && Claims(c, Evidence(e))
  }

  lemma ClaimedByOne(c: ContractNode, e: Edge)
    ensures Claimed(One(c), e) <==> IsRepoEdge(e) && Claims(c, Evidence(e))
  {
    if Claims(c, Evidence(e)) {
      assert c.id in Claimants(One(c), Evidence(e));
    }
  }

  /** `k` names the same repo-to-repo row in both, or in neither a repo-to-repo row. */
  ghost predicate KeepsUnless(before: Edges, after: Edges, k: EdgeKey, gone: bool)
  {
    && (k in after && IsRepoEdge(after[k]) <==> k in before && IsRepoEdge(before[k]) && !gone)
    && (k in after && IsRepoEdge(after[k]) ==> after[k] == before[k])
  }

  lemma {:induction false} EachRepoRows(cfg: Config, edges: Edges, order: seq<ContractNode>, k: EdgeKey)
    requires Injective(cfg) && RowsOk(edges)
    ensures RowsOk(MaterializeEach(cfg, edges, order))
    ensures KeepsUnless(edges, MaterializeEach(cfg, edges, order), k, k in edges && ClaimedByAny(order, edges[k]))
    decreases |order|
  {
    if order != [] {
      var next := Materialized(cfg, edges, One(order[0]));
      MaterializedOk(cfg, edges, One(order[0]));
      MaterializedRepoRows(cfg, edges, One(order[0]), k);
      EachRepoRows(cfg, next, order[1..], k);
      assert order == [order[0]] + order[1..];
      if k in edges {
        ClaimedByOne(order[0], edges[k]);
        assert ClaimedByAny(order, edges[k]) <==>
               IsRepoEdge(edges[k]) && (Claims(order[0], Evidence(edges[k])) || ClaimedByAny(order[1..], edges[k]));
      }
    }
  }

  /** Whatever the order, one by one leaves the repo-to-repo rows that all at once leaves. */
  lemma AnyOrderSameRepoRows(cfg: Config, edges: Edges, order: seq<ContractNode>, cs: Contracts, k: EdgeKey)
    requires Injective(cfg) && RowsOk(edges)
    requires forall c :: c in order <==> c in cs.Values
    ensures KeepsUnless(Materialized(cfg, edges, cs), MaterializeEach(cfg, edges, order), k, false)
  {
    EachRepoRows(cfg, edges, order, k);
    MaterializedRepoRows(cfg, edges, cs, k);
    if k in edges {
      var p := Evidence(edges[k]);
      if c :| c in order && Claims(c, p) {
        var id :| id in cs && cs[id] == c;
        assert id in Claimants(cs, p);
      }
      if id :| id in Claimants(cs, p) {
        assert cs[id] in order;
      }
    }
  }

  // ---------------------------------------------------------------------------------------
  // The greedy loop
  // ---------------------------------------------------------------------------------------

  ghost predicate DistinctIds(ids: seq<string>)
  {
    forall i, j :: 0 <= i < j < |ids| ==> ids[i] != ids[j]
  }

  /** The bookkeeping: every candidate is waiting, hoisted or rejected, and none twice. */
  ghost predicate Accounts(cs: Contracts, h: Hoisting)
  {
    && SubContracts(h.remaining, cs)
    && DistinctIds(h.hoisted)
    && (forall id :: id in h.hoisted ==> id in cs && id !in h.remaining)
    && |h.hoisted| + |h.rejected| + |h.remaining| == |cs|
  }

  /** Every hoisted contract is committed and still has enough distinct consumers. */
  ghost predicate Backed(h: Hoisting, minConsumers: nat)
  {
    forall id :: id in h.hoisted ==>
      id in h.fleet.committed && |Consumers(h.fleet.edges, id)| >= minConsumers
  }

  ghost predicate HoistedClaim(cs: Contracts, hoisted: seq<string>, e: Edge)
  {
    IsRepoEdge(e) && exists id :: id in hoisted && id in cs && Claims(cs[id], Evidence(e))
  }

  /** A repo-to-repo row is there exactly while no hoisted contract claims it. */
  ghost predicate RowsFollow(f: Fleet, cs: Contracts, h: Hoisting)
  {
    forall k :: KeepsUnless(f.edges, h.fleet.edges, k, k in f.edges && HoistedClaim(cs, h.hoisted, f.edges[k]))
  }

  ghost predicate HoistSoFar(cfg: Config, f: Fleet, cs: Contracts, h: Hoisting, minConsumers: nat)
  {
    && FleetOk(cfg, h.fleet) && Within(cfg, f, h.fleet) && Keeps(f, h.fleet)
    && Accounts(cs, h) && Backed(h, minConsumers) && RowsFollow(f, cs, h)
  }

  lemma CommitBacked(cfg: Config, h: Hoisting, id: string, minConsumers: nat)
    requires FleetOk(cfg, h.fleet) && Backed(h, minConsumers) && id in h.remaining
    requires |Consumers(Trial(cfg, h.fleet, One(h.remaining[id])).edges, id)| >= minConsumers
    ensures Backed(Commit(cfg, h, id), minConsumers)
  {
    var t := Commit(cfg, h, id);
    forall j | j in t.hoisted
      ensures j in t.fleet.committed && |Consumers(t.fleet.edges, j)| >= minConsumers
    {
      if j in h.hoisted {
        MaterializedConsumers(cfg, h.fleet.edges, One(h.remaining[id]), j);
        SubsetCardinality(Consumers(h.fleet.edges, j), Consumers(t.fleet.edges, j));
      }
    }
  }

  lemma CommitRows(cfg: Config, f: Fleet, cs: Contracts, h: Hoisting, id: string)
    requires FleetOk(cfg, h.fleet) && RowsFollow(f, cs, h)
    requires id in h.remaining && id in cs && h.remaining[id] == cs[id]
    ensures RowsFollow(f, cs, Commit(cfg, h, id))
  {
    var t := Commit(cfg, h, id);
    forall k
      ensures KeepsUnless(f.edges, t.fleet.edges, k, k in f.edges && HoistedClaim(cs, t.hoisted, f.edges[k]))
    {
      MaterializedRepoRows(cfg, h.fleet.edges, One(cs[id]), k);
      assert KeepsUnless(f.edges, h.fleet.edges, k, k in f.edges && HoistedClaim(cs, h.hoisted, f.edges[k]));
      if k in f.edges && IsRepoEdge(f.edges[k]) {
        ClaimedByOne(cs[id], f.edges[k]);
        assert HoistedClaim(cs, t.hoisted, f.edges[k]) <==>
               HoistedClaim(cs, h.hoisted, f.edges[k]) || Claims(cs[id], Evidence(f.edges[k])) by {
          assert id in t.hoisted;
          assert forall j :: j in t.hoisted <==> j in h.hoisted || j == id;
        }
      }
    }
  }

  lemma CommitAccounts(cfg: Config, cs: Contracts, h: Hoisting, id: string)
    requires Injective(cfg) && Scorable(h.remaining) && Accounts(cs, h) && id in h.remaining
    ensures Accounts(cs, Commit(cfg, h, id))
  {
    RemovingOne(h.remaining, id);
    var t := Commit(cfg, h, id);
    assert forall j :: j in t.hoisted <==> j in h.hoisted || j == id;
  }

  lemma RejectAccounts(cs: Contracts, h: Hoisting, id: string)
    requires Scorable(h.remaining) && Accounts(cs, h) && id in h.remaining
    ensures Accounts(cs, Reject(h, id))
  {
    RemovingOne(h.remaining, id);
  }

  lemma CommitWithin(cfg: Config, f: Fleet, h: Hoisting, id: string)
    requires FleetOk(cfg, h.fleet) && Within(cfg, f, h.fleet) && id in h.remaining
    requires !TrialFails(cfg, h.fleet, One(h.remaining[id]))
    ensures FleetOk(cfg, Commit(cfg, h, id).fleet) && Within(cfg, f, Commit(cfg, h, id).fleet)
  {
    TrialWithin(cfg, h.fleet, One(h.remaining[id]));
    WithinTransitive(cfg, f, h.fleet, Trial(cfg, h.fleet, One(h.remaining[id])));
  }

  lemma CommitLosesNothing(cfg: Config, f: Fleet, h: Hoisting, id: string)
    requires FleetOk(cfg, h.fleet) && Keeps(f, h.fleet) && id in h.remaining
    ensures Keeps(f, Commit(cfg, h, id).fleet)
  {
    var t := Trial(cfg, h.fleet, One(h.remaining[id]));
    TrialKeeps(cfg, h.fleet, One(h.remaining[id]));
    KeepsTransitive(f, h.fleet, t);
    forall k | k in f.edges
      ensures exists a :: Replaced(f, Commit(cfg, h, id).fleet, k, a)
    {
      var a :| Replaced(f, t, k, a);
      assert Replaced(f, Commit(cfg, h, id).fleet, k, a);
    }
  }

  lemma CommitKeeps(cfg: Config, f: Fleet, cs: Contracts, h: Hoisting, id: string, minConsumers: nat)
    requires RowsOk(f.edges) && HoistSoFar(cfg, f, cs, h, minConsumers)
    requires Scorable(h.remaining) && id in h.remaining && !TrialFails(cfg, h.fleet, One(h.remaining[id]))
    requires |Consumers(Trial(cfg, h.fleet, One(h.remaining[id])).edges, id)| >= minConsumers
    ensures HoistSoFar(cfg, f, cs, Commit(cfg, h, id), minConsumers)
  {
    CommitWithin(cfg, f, h, id);
    CommitLosesNothing(cfg, f, h, id);
    CommitAccounts(cfg, cs, h, id);
    CommitBacked(cfg, h, id, minConsumers);
    CommitRows(cfg, f, cs, h, id);
  }

  lemma TurnIs(cfg: Config, h: Hoisting, members: set<string>, minConsumers: nat) returns (id: string)
    requires Injective(cfg) && Scorable(h.remaining) && h.remaining != map[]
    ensures id in h.remaining
    ensures HoistTurn(cfg, h, members, minConsumers) ==
            if |Consumers(Trial(cfg, h.fleet, One(h.remaining[id])).edges, id)| < minConsumers then Reject(h, id)
            else Commit(cfg, h, id)
  {
    id := Pick(cfg, h.fleet, Live(cfg, h.fleet, members), h.remaining);
  }

  lemma TurnKeeps(cfg: Config, f: Fleet, cs: Contracts, h: Hoisting, id: string, next: Hoisting, minConsumers: nat)
    requires RowsOk(f.edges) && HoistSoFar(cfg, f, cs, h, minConsumers)
    requires Scorable(h.remaining) && id in h.remaining && !TrialFails(cfg, h.fleet, One(h.remaining[id]))
    requires next ==
             if |Consumers(Trial(cfg, h.fleet, One(h.remaining[id])).edges, id)| < minConsumers then Reject(h, id)
             else Commit(cfg, h, id)
    ensures HoistSoFar(cfg, f, cs, next, minConsumers)
  {
    if |Consumers(Trial(cfg, h.fleet, One(h.remaining[id])).edges, id)| < minConsumers {
      RejectKeeps(cfg, f, cs, h, id, minConsumers);
    } else {
      CommitKeeps(cfg, f, cs, h, id, minConsumers);
    }
  }

  lemma RejectKeeps(cfg: Config, f: Fleet, cs: Contracts, h: Hoisting, id: string, minConsumers: nat)
    requires HoistSoFar(cfg, f, cs, h, minConsumers) && Scorable(h.remaining) && id in h.remaining
    ensures HoistSoFar(cfg, f, cs, Reject(h, id), minConsumers)
  {
    RejectAccounts(cs, h, id);
    assert Backed(Reject(h, id), minConsumers);
    assert RowsFollow(f, cs, Reject(h, id)) by {
      forall k
        ensures KeepsUnless(f.edges, h.fleet.edges, k, k in f.edges && HoistedClaim(cs, h.hoisted, f.edges[k]))
      {
      }
    }
  }

  lemma TurnCounts(cfg: Config, h: Hoisting, members: set<string>, minConsumers: nat)
    requires Injective(cfg) && Scorable(h.remaining) && h.remaining != map[]
    ensures
      var t := HoistTurn(cfg, h, members, minConsumers);
      (t.fleet == h.fleet && t.hoisted == h.hoisted) || |t.hoisted| == |h.hoisted| + 1
  {
  }

  lemma {:induction false} HoistLoopKeeps(cfg: Config, f: Fleet, cs: Contracts, h: Hoisting, members: set<string>,
      minConsumers: nat)
    requires RowsOk(f.edges) && HoistSoFar(cfg, f, cs, h, minConsumers) && Scorable(h.remaining)
    ensures
      var r := HoistLoop(cfg, h, members, minConsumers);
      r.Ok? ==> HoistSoFar(cfg, f, cs, r.value, minConsumers)
    decreases |h.remaining|
  {
    if Live(cfg, h.fleet, members) != {} && h.remaining != map[]
       && |h.hoisted| < cfg.maxHoists && !AnyTrialFails(cfg, h) {
      HoistTurnShrinks(cfg, h, members, minConsumers);
      var id := TurnIs(cfg, h, members, minConsumers);
      assert !TrialFails(cfg, h.fleet, One(h.remaining[id]));
      TurnKeeps(cfg, f, cs, h, id, HoistTurn(cfg, h, members, minConsumers), minConsumers);
      HoistLoopKeeps(cfg, f, cs, HoistTurn(cfg, h, members, minConsumers), members, minConsumers);
    }
  }

  /** A loop that commits nothing changes nothing. */
  lemma {:induction false} NothingHoistedNothingChanged(cfg: Config, h: Hoisting, members: set<string>,
      minConsumers: nat)
    requires Injective(cfg) && Scorable(h.remaining)
    ensures
      var r := HoistLoop(cfg, h, members, minConsumers);
      r.Ok? ==> |h.hoisted| <= |r.value.hoisted| && (|r.value.hoisted| == |h.hoisted| ==> r.value.fleet == h.fleet)
    decreases |h.remaining|
  {
    if Live(cfg, h.fleet, members) != {} && h.remaining != map[]
       && |h.hoisted| < cfg.maxHoists && !AnyTrialFails(cfg, h) {
      HoistTurnShrinks(cfg, h, members, minConsumers);
      TurnCounts(cfg, h, members, minConsumers);
      NothingHoistedNothingChanged(cfg, HoistTurn(cfg, h, members, minConsumers), members, minConsumers);
    }
  }

  lemma NothingHoistedYet(f: Fleet, cs: Contracts, minConsumers: nat)
    ensures Accounts(cs, Hoisting(f, cs, [], [])) && Backed(Hoisting(f, cs, [], []), minConsumers)
    ensures RowsFollow(f, cs, Hoisting(f, cs, [], []))
  {
  }

  lemma HoistStarts(cfg: Config, f: Fleet, cs: Contracts, minConsumers: nat)
    requires FleetOk(cfg, f)
    ensures HoistSoFar(cfg, f, cs, Hoisting(f, cs, [], []), minConsumers)
  {
    KeepsReflexive(f);
    NothingHoistedYet(f, cs, minConsumers);
  }

  /** When every candidate was committed the component is gone, as the trial predicted. */
  lemma AllCommittedDissolves(cfg: Config, f: Fleet, cs: Contracts, h: Hoisting, members: set<string>,
      minConsumers: nat)
    requires FleetOk(cfg, f) && HoistSoFar(cfg, f, cs, h, minConsumers)
    requires forall id :: id in cs ==> id in h.hoisted
    requires Live(cfg, Trial(cfg, f, cs), members) == {}
    ensures Live(cfg, h.fleet, members) == {}
  {
    ReposOfTrial(cfg, f, cs, members);
    ArcsTrap(cfg, h.fleet);
    LiveOnRepoArcs(h.fleet.nodes, Arcs(cfg, h.fleet), members);
    var arcs := RepoArcs(Arcs(cfg, h.fleet));
    forall a | a in arcs
      ensures a in UnclaimedArcs(cfg, f.edges, cs)
    {
      var k := RowBehind(cfg, h.fleet.edges, a);
      assert KeepsUnless(f.edges, h.fleet.edges, k, k in f.edges && HoistedClaim(cs, h.hoisted, f.edges[k]));
      assert RowOk(h.fleet.edges[k]);
    }
    if LiveComponent(h.fleet.nodes, arcs, members) != {} {
      LiveMonotone(h.fleet.nodes, arcs, f.nodes, UnclaimedArcs(cfg, f.edges, cs), members);
    }
  }

  /**
   Hoisting for one component.  Every candidate is hoisted or rejected at most once, hoisted
   contracts keep their consumers, a repo-to-repo row is gone exactly when a hoisted contract
   claims it and then has a contract row with the same source and evidence; and if no
   candidate was rejected and none is left, the component has dissolved.
   */
  lemma HoistExact(cfg: Config, f: Fleet, contracts: Contracts, members: set<string>, minConsumers: nat)
    requires FleetOk(cfg, f) && ContractsOk(contracts)
    ensures
      var cs := Candidates(cfg, f, contracts, members);
      var r := Hoist(cfg, f, contracts, members, minConsumers);
      r.Ok? ==>
        && (r.value == Hoisting(f, map[], [], []) || HoistSoFar(cfg, f, cs, r.value, minConsumers))
        && |r.value.hoisted| + |r.value.rejected| <= |cs|
        && (r.value.rejected == [] && |r.value.hoisted| == |cs| && cs != map[] ==>
            Live(cfg, r.value.fleet, members) == {})
  {
    var cs := Candidates(cfg, f, contracts, members);
    CandidatesScorable(cfg, f, contracts, members);
    if cs != map[] && !TrialFails(cfg, f, cs) && Live(cfg, Trial(cfg, f, cs), members) == {} {
      var start := Hoisting(f, cs, [], []);
      HoistStarts(cfg, f, cs, minConsumers);
      HoistLoopKeeps(cfg, f, cs, start, members, minConsumers);
      var r := HoistLoop(cfg, start, members, minConsumers);
      if r.Ok? && |r.value.hoisted| == |cs| {
        EveryCandidateHoisted(cs, r.value);
        AllCommittedDissolves(cfg, f, cs, r.value, members, minConsumers);
      }
    }
  }

  lemma EveryCandidateHoisted(cs: Contracts, h: Hoisting)
    requires Accounts(cs, h) && |h.hoisted| == |cs|
    ensures forall id :: id in cs ==> id in h.hoisted
  {
    DistinctCovers(h.hoisted, cs.Keys);
  }

  lemma {:induction false} DistinctCovers(ids: seq<string>, s: set<string>)
    requires DistinctIds(ids) && (forall id :: id in ids ==> id in s) && |ids| == |s|
    ensures forall id :: id in s ==> id in ids
  {
    if ids != [] {
      var last := ids[|ids| - 1];
      assert ids == ids[..|ids| - 1] + [last];
      DistinctCovers(ids[..|ids| - 1], s - {last});
    }
  }

  // ---------------------------------------------------------------------------------------
  // Commit and rollback over the whole loop
  // ---------------------------------------------------------------------------------------

  function Chosen(cs: Contracts, ids: seq<string>): (order: seq<ContractNode>)
    requires forall id :: id in ids ==> id in cs
    ensures |order| == |ids| && forall i :: 0 <= i < |ids| ==> order[i] == cs[ids[i]]
  {
    seq(|ids|, i requires 0 <= i < |ids| => cs[ids[i]])
  }

  /** The fleet is `f` with exactly the hoisted contracts materialized, one after the other in the
      order they were hoisted, and committed: no trial that was rejected left a trace. */
  ghost predicate Ledger(cfg: Config, f: Fleet, cs: Contracts, h: Hoisting)
    requires Injective(cfg)
  {
    && (forall id :: id in h.hoisted ==> id in cs)
    && h.fleet.edges == MaterializeEach(cfg, f.edges, Chosen(cs, h.hoisted))
    && h.fleet.nodes == f.nodes + HoistedRefs(cs, h.hoisted)
    && h.fleet.committed == f.committed + Marked(cs, h.hoisted)
  }

  function HoistedRefs(cs: Contracts, ids: seq<string>): set<NodeRef>
  {
    set id | id in ids && id in cs :: ContractRef(cs[id])
  }

  function Marked(cs: Contracts, ids: seq<string>): Contracts
  {
    map id | id in ids && id in cs :: cs[id].(status := Hoisted)
  }

  /** What was rejected is marked so, and is neither hoisted nor still waiting. */
  ghost predicate Rejections(cs: Contracts, h: Hoisting)
  {
    && SubContracts(h.remaining, cs)
    && (forall id :: id in h.hoisted ==> id !in h.remaining)
    && forall c :: c in h.rejected ==> IsRejection(cs, h, c)
  }

  ghost predicate IsRejection(cs: Contracts, h: Hoisting, c: ContractNode)
  {
    && c.id in cs && c == cs[c.id].(status := Rejected, detail := "not_shared_after_retarget")
    && c.id !in h.hoisted && c.id !in h.remaining
  }

  lemma {:induction false} OneMore(cfg: Config, edges: Edges, order: seq<ContractNode>, c: ContractNode)
    requires Injective(cfg)
    ensures MaterializeEach(cfg, edges, order + [c]) == Materialized(cfg, MaterializeEach(cfg, edges, order), One(c))
    decreases |order|
  {
    if order == [] {
      assert ([] + [c])[1..] == [];
    } else {
      OneMore(cfg, Materialized(cfg, edges, One(order[0])), order[1..], c);
      assert (order + [c])[1..] == order[1..] + [c];
    }
  }

  lemma OneMoreRef(cs: Contracts, ids: seq<string>, id: string)
    requires id in cs
    ensures HoistedRefs(cs, ids + [id]) == HoistedRefs(cs, ids) + Refs(One(cs[id]))
  {
    assert One(cs[id]).Keys == {cs[id].id};
    assert Refs(One(cs[id])) == {ContractRef(cs[id])};
  }

  lemma OneMoreMark(base: Contracts, cs: Contracts, ids: seq<string>, id: string)
    requires id in cs
    ensures base + Marked(cs, ids + [id]) == (base + Marked(cs, ids))[id := cs[id].(status := Hoisted)]
  {
    SameMap(base + Marked(cs, ids + [id]), (base + Marked(cs, ids))[id := cs[id].(status := Hoisted)]);
  }

  lemma CommitEnters(cfg: Config, f: Fleet, cs: Contracts, h: Hoisting, id: string)
    requires Injective(cfg) && Ledger(cfg, f, cs, h) && SubContracts(h.remaining, cs) && id in h.remaining
    ensures Ledger(cfg, f, cs, Commit(cfg, h, id))
  {
    OneMore(cfg, f.edges, Chosen(cs, h.hoisted), cs[id]);
    assert Chosen(cs, h.hoisted + [id]) == Chosen(cs, h.hoisted) + [cs[id]];
    OneMoreRef(cs, h.hoisted, id);
    OneMoreMark(f.committed, cs, h.hoisted, id);
  }

  lemma TurnRejections(cfg: Config, cs: Contracts, h: Hoisting, id: string)
    requires Injective(cfg) && Rejections(cs, h) && Scorable(h.remaining) && id in h.remaining
    ensures Rejections(cs, Reject(h, id)) && Rejections(cs, Commit(cfg, h, id))
  {
    assert h.remaining[id] == cs[id];
    forall c | c in h.rejected
      ensures IsRejection(cs, Reject(h, id), c) && IsRejection(cs, Commit(cfg, h, id), c)
    {
      assert IsRejection(cs, h, c);
    }
  }

  lemma {:induction false} HoistLoopLedger(cfg: Config, f: Fleet, cs: Contracts, h: Hoisting, members: set<string>,
      minConsumers: nat)
    requires Injective(cfg) && Scorable(h.remaining) && Ledger(cfg, f, cs, h) && Rejections(cs, h)
    ensures
      var r := HoistLoop(cfg, h, members, minConsumers);
      r.Ok? ==> Ledger(cfg, f, cs, r.value) && Rejections(cs, r.value)
    decreases |h.remaining|
  {
    if Live(cfg, h.fleet, members) != {} && h.remaining != map[]
       && |h.hoisted| < cfg.maxHoists && !AnyTrialFails(cfg, h) {
      HoistTurnShrinks(cfg, h, members, minConsumers);
      var id := TurnIs(cfg, h, members, minConsumers);
      CommitEnters(cfg, f, cs, h, id);
      TurnRejections(cfg, cs, h, id);
      HoistLoopLedger(cfg, f, cs, HoistTurn(cfg, h, members, minConsumers), members, minConsumers);
    }
  }

  /**
   Commit and rollback: whatever was tried and rejected in between, hoisting returns the fleet it was
   given with exactly the hoisted contracts materialized in order, added as nodes and committed.
   */
  lemma HoistCommitsExactly(cfg: Config, f: Fleet, contracts: Contracts, members: set<string>, minConsumers: nat)
    requires Injective(cfg) && ContractsOk(contracts)
    ensures
      var cs := Candidates(cfg, f, contracts, members);
      var r := Hoist(cfg, f, contracts, members, minConsumers);
      r.Ok? ==> Ledger(cfg, f, cs, r.value) && Rejections(cs, r.value)
  {
    var cs := Candidates(cfg, f, contracts, members);
    CandidatesScorable(cfg, f, contracts, members);
    NothingYet(cfg, f, cs, map[]);
    if cs != map[] && !TrialFails(cfg, f, cs) && Live(cfg, Trial(cfg, f, cs), members) == {} {
      NothingYet(cfg, f, cs, cs);
      HoistLoopLedger(cfg, f, cs, Hoisting(f, cs, [], []), members, minConsumers);
    }
  }

  lemma NothingYet(cfg: Config, f: Fleet, cs: Contracts, remaining: Contracts)
    requires Injective(cfg) && SubContracts(remaining, cs)
    ensures Ledger(cfg, f, cs, Hoisting(f, remaining, [], [])) && Rejections(cs, Hoisting(f, remaining, [], []))
  {
    assert HoistedRefs(cs, []) == {} && Marked(cs, []) == map[];
  }
}
