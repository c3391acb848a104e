/**
 When `break_cycles` returns (`graph/cycles.py`).  With known repositories and nothing dangling it
 raises exactly when some component is no longer live at its turn, and it never does when the rows
 inside a component are claimed only by contracts that component owns.
 */
module Returns {
  import opened NodeOrder
  import opened FleetModel
  import opened Components
  import opened Cycles
  import opened FleetSteps
  import opened HoistTheorems
  import opened CycleTheorems
  import opened SharedHoists

  // ---------------------------------------------------------------------------------------
  // Hoisting never fails
  // ---------------------------------------------------------------------------------------

  lemma TrialIsOk(cfg: Config, f: Fleet, contracts: Contracts, some: Contracts)
    requires FleetOk(cfg, f) && Known(f, contracts) && SubContracts(some, contracts) && Scorable(some)
    ensures !TrialFails(cfg, f, some) && FleetOk(cfg, Trial(cfg, f, some)) && Known(Trial(cfg, f, some), contracts)
  {
    KnownInLater(f, f, contracts, some);
    TrialBuilds(cfg, f, some);
    TrialWithin(cfg, f, some);
    KnownInLater(f, Trial(cfg, f, some), contracts, contracts);
  }

  lemma OneOf(cs: Contracts, remaining: Contracts, id: string)
    requires SubContracts(remaining, cs) && Scorable(remaining) && id in remaining
    ensures SubContracts(One(remaining[id]), cs) && Scorable(One(remaining[id]))
  {
    assert One(remaining[id]).Keys == {id};
  }

  lemma TurnIsOk(cfg: Config, h: Hoisting, contracts: Contracts, members: set<string>, minConsumers: nat)
    requires FleetOk(cfg, h.fleet) && Known(h.fleet, contracts) && SubContracts(h.remaining, contracts)
    requires Scorable(h.remaining) && h.remaining != map[]
    ensures
      var t := HoistTurn(cfg, h, members, minConsumers);
      FleetOk(cfg, t.fleet) && Known(t.fleet, contracts) && SubContracts(t.remaining, contracts)
  {
    var id := TurnIs(cfg, h, members, minConsumers);
    OneOf(contracts, h.remaining, id);
    TrialIsOk(cfg, h.fleet, contracts, One(h.remaining[id]));
    CommitIsOk(cfg, h, contracts, id);
    FewerContracts(contracts, h.remaining, id);
  }

  lemma FewerContracts(cs: Contracts, remaining: Contracts, id: string)
    requires SubContracts(remaining, cs)
    ensures SubContracts(remaining - {id}, cs)
  {
  }

  lemma CommitIsOk(cfg: Config, h: Hoisting, contracts: Contracts, id: string)
    requires Injective(cfg) && id in h.remaining
    requires
      var t := Trial(cfg, h.fleet, One(h.remaining[id]));
      FleetOk(cfg, t) && Known(t, contracts)
    ensures FleetOk(cfg, Commit(cfg, h, id).fleet) && Known(Commit(cfg, h, id).fleet, contracts)
  {
    KnownInLater(Trial(cfg, h.fleet, One(h.remaining[id])), Commit(cfg, h, id).fleet, contracts, contracts);
  }

  lemma NoTrialFails(cfg: Config, h: Hoisting, contracts: Contracts)
    requires FleetOk(cfg, h.fleet) && Known(h.fleet, contracts) && SubContracts(h.remaining, contracts)
    requires Scorable(h.remaining)
    ensures !AnyTrialFails(cfg, h)
  {
    forall id | id in h.remaining
      ensures !TrialFails(cfg, h.fleet, One(h.remaining[id]))
    {
      OneOf(contracts, h.remaining, id);
      TrialIsOk(cfg, h.fleet, contracts, One(h.remaining[id]));
    }
  }

  lemma {:induction false} LoopNeverFails(cfg: Config, h: Hoisting, contracts: Contracts, members: set<string>,
      minConsumers: nat)
    requires FleetOk(cfg, h.fleet) && Known(h.fleet, contracts) && SubContracts(h.remaining, contracts)
    requires Scorable(h.remaining)
    ensures HoistLoop(cfg, h, members, minConsumers).Ok?
    decreases |h.remaining|
  {
    NoTrialFails(cfg, h, contracts);
    if Live(cfg, h.fleet, members) != {} && h.remaining != map[] && |h.hoisted| < cfg.maxHoists {
      HoistTurnShrinks(cfg, h, members, minConsumers);
      TurnIsOk(cfg, h, contracts, members, minConsumers);
      LoopNeverFails(cfg, HoistTurn(cfg, h, members, minConsumers), contracts, members, minConsumers);
      LoopTurns(cfg, h, members, minConsumers);
    }
  }

  lemma HoistNeverFails(cfg: Config, f: Fleet, contracts: Contracts, members: set<string>, minConsumers: nat)
    requires FleetOk(cfg, f) && ContractsOk(contracts) && Known(f, Usable(cfg, contracts))
    ensures AfterHoist(cfg, f, contracts, members, minConsumers).Ok?
  {
    var cs := Candidates(cfg, f, contracts, members);
    CandidatesScorable(cfg, f, contracts, members);
    if cfg.hoistContracts {
      CandidatesAreUsable(cfg, f, contracts, members);
      TrialIsOk(cfg, f, Usable(cfg, contracts), cs);
      LoopNeverFails(cfg, Hoisting(f, cs, [], []), Usable(cfg, contracts), members, minConsumers);
    }
  }

  // ---------------------------------------------------------------------------------------
  // Exactly when step 6 raises
  // ---------------------------------------------------------------------------------------

  /** The components before the `i`-th are dealt with, and that one is no longer live. */
  ghost predicate Stuck(cfg: Config, r: Report, pending: seq<set<NodeRef>>, contracts: Contracts, minConsumers: nat,
      i: nat)
    requires Injective(cfg) && ContractsOk(contracts)
  {
    && i < |pending| && 2 <= |MemberIds(pending[i])| <= cfg.hardMax
    && var before := ResolveAll(cfg, r, pending[..i], contracts, minConsumers);
       before.Ok? && Live(cfg, before.value.fleet, MemberIds(pending[i])) == {}
  }

  /** One component fails exactly when it is small enough to be worked on and not live. */
  lemma ResolveFailsExactly(cfg: Config, f: Fleet, component: set<NodeRef>, contracts: Contracts, minConsumers: nat)
    requires FleetOk(cfg, f) && ContractsOk(contracts) && Known(f, Usable(cfg, contracts))
    ensures
      var one := Resolve(cfg, f, component, contracts, minConsumers);
      && (one.Err? <==> |MemberIds(component)| <= cfg.hardMax && Live(cfg, f, MemberIds(component)) == {})
      && (one.Err? ==> one == Err(DissolvedUnexplained))
  {
    if |MemberIds(component)| <= cfg.hardMax {
      HoistNeverFails(cfg, f, contracts, MemberIds(component), minConsumers);
      RaisesExactlyWhenDissolved(cfg, f, component, contracts, minConsumers);
    }
  }

  lemma ResolvedIsOk(cfg: Config, f: Fleet, component: set<NodeRef>, contracts: Contracts, minConsumers: nat)
    requires FleetOk(cfg, f) && ContractsOk(contracts) && Known(f, Usable(cfg, contracts))
    requires Resolve(cfg, f, component, contracts, minConsumers).Ok?
    ensures
      var g := Resolve(cfg, f, component, contracts, minConsumers).value.fleet;
      FleetOk(cfg, g) && Known(g, Usable(cfg, contracts)) && Within(cfg, f, g)
  {
    var out := ResolveExact(cfg, f, component, contracts, minConsumers);
    KnownInLater(f, out.fleet, Usable(cfg, contracts), Usable(cfg, contracts));
  }

  /** What the first component leaves is what the others start from. */
  lemma StuckLater(cfg: Config, r: Report, next: Report, pending: seq<set<NodeRef>>, contracts: Contracts,
      minConsumers: nat, i: nat)
    requires Injective(cfg) && ContractsOk(contracts) && pending != []
    requires if |MemberIds(pending[0])| < 2 then next == r
             else Resolve(cfg, r.fleet, pending[0], contracts, minConsumers).Ok?
                  && next == WithResolved(r, Resolve(cfg, r.fleet, pending[0], contracts, minConsumers).value)
    ensures Stuck(cfg, r, pending, contracts, minConsumers, i + 1) <==>
        Stuck(cfg, next, pending[1..], contracts, minConsumers, i)
  {
    if i + 1 < |pending| {
      var front := pending[..i + 1];
      assert front[0] == pending[0] && front[1..] == pending[1..][..i];
      ResolveAllUnfolds(cfg, r, front, contracts, minConsumers);
    }
  }

  ghost predicate GetsStuck(cfg: Config, r: Report, pending: seq<set<NodeRef>>, contracts: Contracts, minConsumers: nat)
    requires Injective(cfg) && ContractsOk(contracts)
  {
    exists i :: Stuck(cfg, r, pending, contracts, minConsumers, i)
  }

  lemma StuckAtOnce(cfg: Config, r: Report, pending: seq<set<NodeRef>>, contracts: Contracts, minConsumers: nat)
    requires Injective(cfg) && ContractsOk(contracts) && pending != []
    ensures Stuck(cfg, r, pending, contracts, minConsumers, 0) <==>
            2 <= |MemberIds(pending[0])| <= cfg.hardMax && Live(cfg, r.fleet, MemberIds(pending[0])) == {}
  {
    assert pending[..0] == [];
  }

  lemma StuckAfter(cfg: Config, r: Report, next: Report, pending: seq<set<NodeRef>>, contracts: Contracts,
      minConsumers: nat)
    requires Injective(cfg) && ContractsOk(contracts) && pending != []
    requires if |MemberIds(pending[0])| < 2 then next == r
             else Resolve(cfg, r.fleet, pending[0], contracts, minConsumers).Ok?
                  && next == WithResolved(r, Resolve(cfg, r.fleet, pending[0], contracts, minConsumers).value)
    requires !Stuck(cfg, r, pending, contracts, minConsumers, 0)
    ensures GetsStuck(cfg, r, pending, contracts, minConsumers) <==>
        GetsStuck(cfg, next, pending[1..], contracts, minConsumers)
  {
    if i: nat :| Stuck(cfg, r, pending, contracts, minConsumers, i) {
      StuckLater(cfg, r, next, pending, contracts, minConsumers, i - 1);
    }
    if i: nat :| Stuck(cfg, next, pending[1..], contracts, minConsumers, i) {
      StuckLater(cfg, r, next, pending, contracts, minConsumers, i);
    }
  }

  /** The ladder over all components raises exactly when one of them is dissolved before its turn. */
  lemma {:induction false} RaisesExactlyWhenStuck(cfg: Config, r: Report, pending: seq<set<NodeRef>>,
      contracts: Contracts, minConsumers: nat)
    requires FleetOk(cfg, r.fleet) && ContractsOk(contracts) && Known(r.fleet, Usable(cfg, contracts))
    ensures
      var out := ResolveAll(cfg, r, pending, contracts, minConsumers);
      && (out.Err? <==> GetsStuck(cfg, r, pending, contracts, minConsumers))
      && (out.Err? ==> out == Err(DissolvedUnexplained))
    decreases |pending|
  {
    if pending != [] {
      ResolveAllUnfolds(cfg, r, pending, contracts, minConsumers);
      ResolveFailsExactly(cfg, r.fleet, pending[0], contracts, minConsumers);
      StuckAtOnce(cfg, r, pending, contracts, minConsumers);
      if |MemberIds(pending[0])| < 2 {
        StuckAfter(cfg, r, r, pending, contracts, minConsumers);
        RaisesExactlyWhenStuck(cfg, r, pending[1..], contracts, minConsumers);
      } else if Resolve(cfg, r.fleet, pending[0], contracts, minConsumers).Ok? {
        var next := WithResolved(r, Resolve(cfg, r.fleet, pending[0], contracts, minConsumers).value);
        ResolvedIsOk(cfg, r.fleet, pending[0], contracts, minConsumers);
        StuckAfter(cfg, r, next, pending, contracts, minConsumers);
        RaisesExactlyWhenStuck(cfg, next, pending[1..], contracts, minConsumers);
      }
    }
  }

  /** What a caller brings: consistent rows and contracts, and nothing dangling. */
  ghost predicate InputOk(cfg: Config, nodes: set<NodeRef>, edges: Edges, contracts: Contracts)
  {
    && Injective(cfg) && RowsOk(edges) && ContractsOk(contracts) && Rebuild(nodes, edges, cfg).Ok?
    && Known(Fleet(nodes, edges, map[]), Usable(cfg, contracts))
  }

  lemma OpeningIsOk(cfg: Config, nodes: set<NodeRef>, edges: Edges, contracts: Contracts)
    requires InputOk(cfg, nodes, edges, contracts)
    ensures
      var opening := Opening(cfg, nodes, edges, contracts);
      FleetOk(cfg, opening) && Known(opening, Usable(cfg, contracts))
  {
    var given, pre := Fleet(nodes, edges, map[]), Precommitted(contracts);
    TrialIsOk(cfg, given, Usable(cfg, contracts), pre);
  }

  /** On such an input `break_cycles` raises exactly when a component is dissolved before its turn. */
  lemma BreakRaisesExactly(cfg: Config, nodes: set<NodeRef>, edges: Edges, contracts: Contracts, minConsumers: nat)
    requires InputOk(cfg, nodes, edges, contracts)
    ensures
      var opening := Opening(cfg, nodes, edges, contracts);
      var components := NontrivialSccs(opening.nodes, Arcs(cfg, opening));
      var out := Break(cfg, nodes, edges, contracts, minConsumers);
      && (out.Err? <==> GetsStuck(cfg, Report(opening, [], []), components, contracts, minConsumers))
      && (out.Err? ==> out == Err(DissolvedUnexplained))
  {
    var opening := Opening(cfg, nodes, edges, contracts);
    OpeningIsOk(cfg, nodes, edges, contracts);
    var components := NontrivialSccs(opening.nodes, Arcs(cfg, opening));
    RaisesExactlyWhenStuck(cfg, Report(opening, [], []), components, contracts, minConsumers);
  }
}
