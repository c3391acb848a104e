/**
 What the ladder keeps and reports, one component and then all of them: every strategy is
 substantiated, no evidence or consumer is lost, and a dissolved component stays dissolved.
 */
module CycleTheorems {
  import opened NodeOrder
  import opened FleetModel
  import opened Components
  import opened Cycles
  import opened FleetSteps
  import opened BreakTheorems
  import opened HoistTheorems

  // ---------------------------------------------------------------------------------------
  // One component
  // ---------------------------------------------------------------------------------------

  predicate Dissolves(s: Strategy) { s == ContractHoist || s == EdgeBreak }

  /** A resolution names what it did: no break or hoist without an edge or contract to show. */
  ghost predicate Sound(cfg: Config, r: Resolution)
  {
    && (r.strategy == EdgeBreak ==> r.broken != [])
    && (r.strategy == ContractHoist ==> r.hoisted != [] && r.broken == [])
    && (r.strategy == Manual <==> |r.members| > cfg.hardMax)
    && |r.broken| <= cfg.maxBreaks && DistinctKeys(r.broken)
  }

  /** The recorded strategy is substantiated by the fleet it leaves. */
  ghost predicate Substantiated(cfg: Config, f: Fleet, members: set<string>, g: Fleet, r: Resolution)
  {
    && r.members == members
    && (Dissolves(r.strategy) ==> Live(cfg, g, r.members) == {})
    && (r.strategy == Manual ==> g == f)
    && (r.strategy == AtomicWave ==> Live(cfg, g, r.members) != {})
    && Sound(cfg, r)
  }

  /** What hoisting hands to the next rung, if it does not fail. */
  function AfterHoist(cfg: Config, f: Fleet, contracts: Contracts, members: set<string>,
      minConsumers: nat): Result<Hoisting>
    requires Injective(cfg) && ContractsOk(contracts)
  {
    if cfg.hoistContracts then Hoist(cfg, f, contracts, members, minConsumers) else Ok(Hoisting(f, map[], [], []))
  }

  lemma AfterHoistExact(cfg: Config, f: Fleet, contracts: Contracts, members: set<string>, minConsumers: nat)
    requires FleetOk(cfg, f) && ContractsOk(contracts)
    ensures
      var r := AfterHoist(cfg, f, contracts, members, minConsumers);
      r.Ok? ==> FleetOk(cfg, r.value.fleet) && Within(cfg, f, r.value.fleet) && Keeps(f, r.value.fleet)
                && Backed(r.value, minConsumers)
  {
    HoistExact(cfg, f, contracts, members, minConsumers);
    KeepsReflexive(f);
  }

  /** 6d and 6e keep what hoisting kept, and report a strategy the fleet bears out. */
  lemma BreakOrMergeExact(cfg: Config, f: Fleet, h: Hoisting, base: Resolution)
    requires FleetOk(cfg, h.fleet) && Within(cfg, f, h.fleet) && Live(cfg, h.fleet, base.members) != {}
    requires |base.members| <= cfg.hardMax
    ensures
      var out := BreakOrMerge(cfg, h, base);
      && FleetOk(cfg, out.fleet) && Within(cfg, f, out.fleet)
      && Substantiated(cfg, f, base.members, out.fleet, out.resolution)
  {
    EdgeBreakIsSubstantiated(cfg, h, base);
    WithinTransitive(cfg, f, h.fleet, BreakOrMerge(cfg, h, base).fleet);
  }

  lemma BreakOrMergeKeeps(cfg: Config, f: Fleet, h: Hoisting, base: Resolution, minConsumers: nat)
    requires FleetOk(cfg, h.fleet) && Keeps(f, h.fleet) && Backed(h, minConsumers)
    requires Live(cfg, h.fleet, base.members) != {}
    ensures
      var out := BreakOrMerge(cfg, h, base);
      Keeps(f, out.fleet) && ConsumersOk(out.fleet, out.resolution, minConsumers)
  {
    var out := BreakOrMerge(cfg, h, base);
    EdgeBreakIsSubstantiated(cfg, h, base);
    SuppressedKeeps(h.fleet, out.fleet, out.resolution.broken);
    KeepsTransitive(f, h.fleet, out.fleet);
    ConsumersStayOk(h.fleet, out.fleet, out.resolution, minConsumers);
  }

  /** The three ways a component leaves the ladder without an error. */
  lemma ResolveCases(cfg: Config, f: Fleet, component: set<NodeRef>, contracts: Contracts, minConsumers: nat)
    returns (out: Resolved, base: Resolution, h: Hoisting)
    requires Injective(cfg) && ContractsOk(contracts)
    requires Resolve(cfg, f, component, contracts, minConsumers).Ok?
    ensures out == Resolve(cfg, f, component, contracts, minConsumers).value
    ensures base.members == MemberIds(component) && base.strategy == Manual && base.hoisted == [] && base.broken == []
    ensures
      if |base.members| > cfg.hardMax then out == Resolved(f, base, [])
      else
        && AfterHoist(cfg, f, contracts, base.members, minConsumers) == Ok(h)
        && (Live(cfg, h.fleet, base.members) != {} ==> out == BreakOrMerge(cfg, h, base))
        && (Live(cfg, h.fleet, base.members) == {} ==>
              h.hoisted != []
              && out == Resolved(h.fleet, base.(hoisted := h.hoisted, strategy := ContractHoist), h.rejected))
  {
    out := Resolve(cfg, f, component, contracts, minConsumers).value;
    var members := MemberIds(component);
    var feedback := FeedbackKeys(cfg, f, component);
    base := Resolution(members, feedback, Cheapest(cfg, f, feedback), [], [], Manual);
    h := Hoisting(f, map[], [], []);
    if |members| <= cfg.hardMax {
      h := AfterHoist(cfg, f, contracts, members, minConsumers).value;
    }
  }

  lemma ResolveExact(cfg: Config, f: Fleet, component: set<NodeRef>, contracts: Contracts, minConsumers: nat)
    returns (out: Resolved)
    requires FleetOk(cfg, f) && ContractsOk(contracts)
    requires Resolve(cfg, f, component, contracts, minConsumers).Ok?
    ensures out == Resolve(cfg, f, component, contracts, minConsumers).value
    ensures FleetOk(cfg, out.fleet) && Within(cfg, f, out.fleet)
    ensures Substantiated(cfg, f, MemberIds(component), out.fleet, out.resolution)
  {
    var base, h;
    out, base, h := ResolveCases(cfg, f, component, contracts, minConsumers);
    if |base.members| <= cfg.hardMax {
      AfterHoistExact(cfg, f, contracts, base.members, minConsumers);
      if Live(cfg, h.fleet, base.members) != {} {
        BreakOrMergeExact(cfg, f, h, base);
      }
    }
  }

  /** Resolving a component loses no evidence and no consumer, and what it hoisted is backed. */
  lemma ResolveKeeps(cfg: Config, f: Fleet, component: set<NodeRef>, contracts: Contracts, minConsumers: nat)
    returns (out: Resolved)
    requires FleetOk(cfg, f) && ContractsOk(contracts)
    requires Resolve(cfg, f, component, contracts, minConsumers).Ok?
    ensures out == Resolve(cfg, f, component, contracts, minConsumers).value
    ensures Keeps(f, out.fleet)
    ensures ConsumersOk(out.fleet, out.resolution, minConsumers)
  {
    var base, h;
    out, base, h := ResolveCases(cfg, f, component, contracts, minConsumers);
    KeepsReflexive(f);
    if |base.members| <= cfg.hardMax {
      AfterHoistExact(cfg, f, contracts, base.members, minConsumers);
      if Live(cfg, h.fleet, base.members) != {} {
        BreakOrMergeKeeps(cfg, f, h, base, minConsumers);
      }
    }
  }

  /** With nothing hoisted the fleet is the one hoisting was given. */
  lemma AfterHoistUnchanged(cfg: Config, f: Fleet, contracts: Contracts, members: set<string>, minConsumers: nat)
    requires Injective(cfg) && ContractsOk(contracts)
    ensures
      var r := AfterHoist(cfg, f, contracts, members, minConsumers);
      r.Ok? ==>
        && (r.value.hoisted == [] ==> r.value.fleet == f)
        && (Live(cfg, f, members) == {} ==> r.value.fleet == f && r.value.hoisted == [])
  {
    var cs := Candidates(cfg, f, contracts, members);
    CandidatesScorable(cfg, f, contracts, members);
    if cs != map[] {
      NothingHoistedNothingChanged(cfg, Hoisting(f, cs, [], []), members, minConsumers);
    }
  }

  /** The ladder raises exactly on a component that an earlier one's hoist already dissolved. */
  lemma RaisesExactlyWhenDissolved(cfg: Config, f: Fleet, component: set<NodeRef>, contracts: Contracts,
      minConsumers: nat)
    requires Injective(cfg) && ContractsOk(contracts)
    requires |MemberIds(component)| <= cfg.hardMax &&
        AfterHoist(cfg, f, contracts, MemberIds(component), minConsumers).Ok?
    ensures Resolve(cfg, f, component, contracts, minConsumers).Err? <==> Live(cfg, f, MemberIds(component)) == {}
    ensures Resolve(cfg, f, component, contracts, minConsumers).Err? ==>
              Resolve(cfg, f, component, contracts, minConsumers) == Err(DissolvedUnexplained)
  {
    AfterHoistUnchanged(cfg, f, contracts, MemberIds(component), minConsumers);
  }

  /** A component dissolved once stays dissolved. */
  lemma StaysDissolved(cfg: Config, f: Fleet, g: Fleet, members: set<string>)
    requires FleetOk(cfg, f) && FleetOk(cfg, g) && Within(cfg, f, g) && Live(cfg, f, members) == {}
    ensures Live(cfg, g, members) == {}
  {
    ArcsTrap(cfg, f);
    ArcsTrap(cfg, g);
    LiveOnRepoArcs(f.nodes, Arcs(cfg, f), members);
    LiveOnRepoArcs(g.nodes, Arcs(cfg, g), members);
    if LiveComponent(g.nodes, RepoArcs(Arcs(cfg, g)), members) != {} {
      LiveMonotone(g.nodes, RepoArcs(Arcs(cfg, g)), f.nodes, RepoArcs(Arcs(cfg, f)), members);
    }
  }

  // ---------------------------------------------------------------------------------------
  // Every component
  // ---------------------------------------------------------------------------------------

  ghost predicate Recorded(resolutions: seq<Resolution>, component: set<NodeRef>)
  {
    exists r :: r in resolutions && r.members == MemberIds(component)
  }

  ghost predicate FromComponent(components: seq<set<NodeRef>>, r: Resolution)
  {
    exists c :: c in components && |MemberIds(c)| >= 2 && r.members == MemberIds(c)
  }

  /** What holds of the report while the components are worked through. */
  ghost predicate Ladder(cfg: Config, opening: Fleet, components: seq<set<NodeRef>>, r: Report, minConsumers: nat)
  {
    && FleetOk(cfg, r.fleet) && Within(cfg, opening, r.fleet) && Keeps(opening, r.fleet)
    && (forall x :: x in r.resolutions ==> FromComponent(components, x) && Sound(cfg, x))
    && (forall x :: x in r.resolutions && Dissolves(x.strategy) ==> Live(cfg, r.fleet, x.members) == {})
    && (forall x :: x in r.resolutions ==> ConsumersOk(r.fleet, x, minConsumers))
  }

  /** Every contract hoisted for this component has enough distinct consumers. */
  ghost predicate ConsumersOk(f: Fleet, r: Resolution, minConsumers: nat)
  {
    forall id :: id in r.hoisted ==> |Consumers(f.edges, id)| >= minConsumers
  }

  lemma ConsumersStayOk(f: Fleet, g: Fleet, r: Resolution, minConsumers: nat)
    requires Keeps(f, g) && ConsumersOk(f, r, minConsumers)
    ensures ConsumersOk(g, r, minConsumers)
  {
    forall id | id in r.hoisted
      ensures |Consumers(g.edges, id)| >= minConsumers
    {
      SubsetCardinality(Consumers(f.edges, id), Consumers(g.edges, id));
    }
  }

  lemma LadderStep(cfg: Config, opening: Fleet, components: seq<set<NodeRef>>, r: Report, one: Resolved, next: Report,
      minConsumers: nat)
    requires Ladder(cfg, opening, components, r, minConsumers) && ConsumersOk(one.fleet, one.resolution, minConsumers)
    requires FleetOk(cfg, one.fleet) && Within(cfg, r.fleet, one.fleet) && Keeps(r.fleet, one.fleet)
    requires FromComponent(components, one.resolution) && Sound(cfg, one.resolution)
    requires Dissolves(one.resolution.strategy) ==> Live(cfg, one.fleet, one.resolution.members) == {}
    requires next.fleet == one.fleet && next.resolutions == r.resolutions + [one.resolution]
    ensures Ladder(cfg, opening, components, next, minConsumers)
  {
    WithinTransitive(cfg, opening, r.fleet, one.fleet);
    KeepsTransitive(opening, r.fleet, one.fleet);
    forall x | x in next.resolutions
      ensures FromComponent(components, x)
      ensures Dissolves(x.strategy) ==> Live(cfg, next.fleet, x.members) == {}
      ensures ConsumersOk(next.fleet, x, minConsumers)
    {
      if x in r.resolutions {
        ConsumersStayOk(r.fleet, one.fleet, x, minConsumers);
      }
      if x in r.resolutions && Dissolves(x.strategy) {
        StaysDissolved(cfg, r.fleet, one.fleet, x.members);
      }
    }
  }

  lemma ResolveNext(cfg: Config, opening: Fleet, components: seq<set<NodeRef>>, r: Report, c: set<NodeRef>,
      contracts: Contracts, minConsumers: nat) returns (next: Report)
    requires Ladder(cfg, opening, components, r, minConsumers) && ContractsOk(contracts)
    requires c in components && |MemberIds(c)| >= 2
    requires Resolve(cfg, r.fleet, c, contracts, minConsumers).Ok?
    ensures
      var one := Resolve(cfg, r.fleet, c, contracts, minConsumers).value;
      next == Report(one.fleet, r.resolutions + [one.resolution], r.rejected + one.rejected)
    ensures Ladder(cfg, opening, components, next, minConsumers)
    ensures next.resolutions[|r.resolutions|].members == MemberIds(c)
  {
    var one := ResolveExact(cfg, r.fleet, c, contracts, minConsumers);
    var same := ResolveKeeps(cfg, r.fleet, c, contracts, minConsumers);
    next := Report(one.fleet, r.resolutions + [one.resolution], r.rejected + one.rejected);
    LadderStep(cfg, opening, components, r, one, next, minConsumers);
  }

  /** The report after one component. */
  function WithResolved(r: Report, one: Resolved): Report
  {
    Report(one.fleet, r.resolutions + [one.resolution], r.rejected + one.rejected)
  }

  lemma ResolveAllUnfolds(cfg: Config, r: Report, pending: seq<set<NodeRef>>, contracts: Contracts, minConsumers: nat)
    requires Injective(cfg) && ContractsOk(contracts) && pending != []
    ensures ResolveAll(cfg, r, pending, contracts, minConsumers) ==
            if |MemberIds(pending[0])| < 2 then ResolveAll(cfg, r, pending[1..], contracts, minConsumers)
            else
              var one := Resolve(cfg, r.fleet, pending[0], contracts, minConsumers);
              if one.Err? then Err(one.error)
              else ResolveAll(cfg, WithResolved(r, one.value), pending[1..], contracts, minConsumers)
  {
  }

  lemma {:induction false} ResolveAllKeeps(cfg: Config, opening: Fleet, components: seq<set<NodeRef>>, r: Report,
      pending: seq<set<NodeRef>>, contracts: Contracts, minConsumers: nat)
    requires Ladder(cfg, opening, components, r, minConsumers) && ContractsOk(contracts)
    requires forall c :: c in pending ==> c in components
    ensures
      var out := ResolveAll(cfg, r, pending, contracts, minConsumers);
      out.Ok? ==>
        && Ladder(cfg, opening, components, out.value, minConsumers)
        && r.resolutions <= out.value.resolutions
        && (forall c :: c in pending && |MemberIds(c)| >= 2 ==> Recorded(out.value.resolutions, c))
    decreases |pending|
  {
    if pending != [] {
      var c, rest := pending[0], pending[1..];
      assert pending == [c] + rest;
      if |MemberIds(c)| < 2 {
        ResolveAllKeeps(cfg, opening, components, r, rest, contracts, minConsumers);
      } else if Resolve(cfg, r.fleet, c, contracts, minConsumers).Ok? {
        var next := ResolveNext(cfg, opening, components, r, c, contracts, minConsumers);
        ResolveAllKeeps(cfg, opening, components, next, rest, contracts, minConsumers);
        var out := ResolveAll(cfg, next, rest, contracts, minConsumers);
        if out.Ok? {
          assert out.value.resolutions[|r.resolutions|] == next.resolutions[|r.resolutions|];
          assert Recorded(out.value.resolutions, c);
        }
      }
    }
  }
}
