# fleet: a verified model of sequencing, model calls, caching, versions, fences and migrations

`fleet` moves many repositories into one monorepo. This project models six of its mechanisms in
Dafny and proves what they promise for every input, every run and every interleaving.

1. **Cycle breaking and waves** (`graph/cycles.py`, `graph/sequence.py`, on `graph/build.py` and
   `graph/infer.py`). Step 6 takes the strongly connected components of the ordering graph one by
   one: it classifies arcs by an iterative depth-first search, hoists contracts (saturate, then
   commit greedily), suppresses feedback edges, and falls back to an atomic wave or manual work.
   Step 7 condenses, layers by longest path and numbers the waves. The main theorem,
   `Acyclicity.StepSixGuarantee`, is the sentence a comment in `assign_waves` takes for granted:
   whenever `break_cycles` returns, the condensed graph is acyclic. It holds exactly when the
   ordering arcs between contracts are acyclic, in particular when no row leaves a contract. What
   step 6 chooses on the way is stated in the terms of the rows and contracts themselves
   (`SearchOrder`, `Choices`): which arcs come out BACK, which edge yields, which contract is tried.
2. **The circuit breaker under the ladder client** (`llm/failover.py`, `llm/client.py`): a state
   machine of any number of interleaved calls under a clock that never goes back, and the loop of
   one target's call against an arbitrary endpoint.
3. **The content-addressed answer cache** (`llm/cache.py`): no run serves one target's answer under
   another's identity, which rests on the route validator and on an injective key encoding.
4. **Version ranges and minimal version selection** (`bazel/generators.py`), with the Phase 1
   satisfiability check (`graph/collisions.py`): order theory over zero-padded tuples of any length.
5. **File fences** (`llm/fences.py`): an exact round trip over arbitrary contents.
6. **The migration runner** (`migrations/__init__.py`): several processes, one transaction a step.

Loops of the program are methods proved equal to, or directly against, specification functions and
predicates; classes stand for the objects the program updates in place; lemmas state what those
functions guarantee together. `dafny verify dfyconfig.toml` checks everything.

Modules, in dependency order: `Options`, `Digraph`, `NodeOrder`; `DfsClasses`, `DfsForest`, `DfsOrder`;
`FleetModel`, `Materialize`, `Components`, `SearchOrder`, `Cycles`; `FleetSteps`, `BreakTheorems`,
`HoistTheorems`, `CycleTheorems`, `Choices`, `SharedHoists`, `Returns`, `LocalClaims`, `Condense`, `Acyclicity`;
`Layers`, `WavePlans`, `Sequencing`, `GatedAtomics`;
`Failover`, `CallProtocol`, `TargetCall`, `CallCosts`; `CacheKeys`, `LlmCache`; `Versions`, `VersionRanges`,
`VersionSelection`, `VersionCollisions`; `FenceScan`, `Fences`; `Migrations`.

## Where the code and its words part

- The `pragma: no cover` branch at `src/fleet/graph/cycles.py:443` says a component with fewer than
  two repositories cannot happen. It can when rows lead from contract to contract, and then the
  cycle survives: `Sequencing.ContractCycleSurvives` is such an input and
  `Acyclicity.StepSixGuarantee` the exact condition.
- The branch at `src/fleet/graph/cycles.py:531` is also marked unreachable. With nothing dangling it
  is taken exactly when some component was dissolved before its turn (`Returns.BreakRaisesExactly`);
  `SharedHoists.StepSixCanRaise` is a fleet of four repositories on which that happens. It never
  happens when every component stays live on the rows inside it that no contract owned elsewhere
  claims (`LocalClaims.HoldTogetherReturns`).
- `assign_waves` gives a wave to every member of an atomic component, gated ones included. Coverage
  is exact if and only if no atomic component is gated in part (`WavePlans.CoverageExact`), every edge
  is ordered if and only if the layering is the one with all members left in
  (`WavePlans.OrdersAllExactly`), and
  `GatedAtomics.GateOneMember` runs both steps into a repository migrating in its dependency's wave.
- `assign_waves` raises for a finding without a wave when a whole atomic component is gated: it
  succeeds exactly when the condensed graph is acyclic and no atomic component is gated as a whole
  (`WavePlans.AssignWaves`); `GatedAtomics.GateBothMembers` runs both steps into the error.
- `_raise_cap` is documented to stay within the caller's budget. It stays within its tokens; it stays
  within its dollars, whatever the endpoint replies, exactly when they cover the highest cap the
  truncation retries lead to (`CallCosts.DollarsKeptExactly`, `CallCosts.DispatchCanOverspend`).
- A target is said to have one probe at a time. It has one per HALF_OPEN episode; a probe can be
  joined by a second one exactly when another call is out at its target already
  (`CallProtocol.JoinedExactly`, `CallProtocol.TwoProbesOut`).
- `VersionRange.is_empty` misses one empty range, everything below zero (`VersionRanges.EmptyExact`),
  which the spec `<0` reaches (`VersionRanges.BelowZeroIsMissed`).
- Phase 1 and Phase 3 agree on all specs over a set of versions exactly when no two of them differ only
  in trailing zeros beyond the third part; otherwise they disagree both ways
  (`VersionCollisions.PhasesAgreeExactly`, `VersionCollisions.TrailingZerosDisagree`).
- The cache key is said to be unambiguous for any content. The length-prefixed parts are, but the
  adapter versions are joined by commas before. A key determines the adapters of its call exactly when
  there is one, not empty, that no comma parts into two texts in ascending order
  (`CacheKeys.KeyDeterminesAdaptersExactly`): `a` and `b` are mistaken for `a,b`, and `b,a` for nothing.
  Among lists without commas and empty versions keys never coincide (`CacheKeys.KeyRecoversAdapters`).
- An answer is said to be stored under the identity of the target that gave it. It is, exactly when the
  adapter reports the configured model id or none (`LlmCache.StoredUnderReportExactly`); under another
  reported id no call to that target finds it. The runs of `LlmCache` assume such reports.

## Model

| member | source | states |
|---|---|---|
| NodeOrder.StrLeExact | src/fleet/graph/cycles.py:865-871 | ids compare at their first difference, a prefix before its extensions |
| NodeOrder.NodeLeExact | src/fleet/graph/cycles.py:865-871 | contracts sort before repositories, nodes of one kind by id |
| DfsClasses.DepthFirst | src/fleet/graph/cycles.py:179-223 | the stack-and-colour loop computes the run of the step relation |
| DfsForest.ClassifiesEveryArc | src/fleet/graph/cycles.py:179-223 | every arc among the searched nodes is classified, each once, and nothing else |
| DfsForest.NonBackIsAcyclic | src/fleet/graph/cycles.py:179-223 | the arcs not classified BACK form an acyclic graph |
| DfsForest.ClassesArePlaces | src/fleet/graph/cycles.py:179-223 | TREE and FORWARD arcs descend in the search forest, BACK arcs ascend, CROSS arcs do neither |
| DfsOrder.SearchInTurn | src/fleet/graph/cycles.py:179-223 | every node is met in its turn: as the first child not met yet of the node met last among those that have one, and as the first root not met yet when none has |
| Components.ClassifyIntraSccEdges | src/fleet/graph/cycles.py:179-223 | the search restricted to a member set, in sorted order |
| Components.ClassifyExact | src/fleet/graph/cycles.py:179-223 | exactly the arcs inside the member set are classified, by their place in the forest, and the others than BACK are acyclic |
| SearchOrder.ClassifyInOrder | src/fleet/graph/cycles.py:179-223 | the classes are those of a search that starts from the least member not met and goes on to the least member not met in reach of the one met last |
| SearchOrder.SearchIsUnique | src/fleet/graph/cycles.py:179-223 | a classification is the one computed if and only if it is that of such a search: members, arcs and their order decide which arcs are BACK |
| Components.CycleHasBackArc | src/fleet/graph/cycles.py:913-919 | a member set with a cycle has a BACK arc |
| Components.NontrivialSccsExact | src/fleet/graph/cycles.py:865-871 | the components listed are exactly the strongly connected components of more than one node |
| Components.SccsAscend | src/fleet/graph/cycles.py:865-871 | components are listed by their least members, none twice |
| Components.FindLiveComponent | src/fleet/graph/cycles.py:874-889 | the scan finds the first component that shares the most members |
| Components.BestOfExact | src/fleet/graph/cycles.py:874-889 | the component chosen shares at least two members, most of all and earliest among equals; none is chosen only if none shares two |
| Components.LiveMonotone | src/fleet/graph/cycles.py:874-889 | removing arcs never revives a dissolved component |
| FleetModel.BuildGraph | src/fleet/graph/build.py:134-199 | the loop links each row's arc in both graphs; it fails exactly when hoisting is on and a contract kind is not configured, or a row's end is not a node |
| FleetModel.GraphExact | src/fleet/graph/build.py:134-199 | an arc is there, with exactly the rows along it, iff some row runs along it; an ordering arc likewise for the rows of a configured kind that are not suppressed and certain enough |
| Materialize.MaterializeRows | src/fleet/graph/cycles.py:794-852 | visiting rows in key order, the loops leave under every key the last row that lands there, and contract edges only where no row is |
| Materialize.AddInferred | src/fleet/graph/cycles.py:850-852 | contract edges never replace a row |
| Materialize.InferredIsContractEdge | src/fleet/graph/infer.py:543-621 | every inferred edge runs from a repository to one of the contracts and is determined by its key |
| Materialize.InferredExact | src/fleet/graph/infer.py:543-621 | the edges inferred are exactly: per contract one CONTRACT_IMPL at 1.0 from the owner's least listed path, and one CONTRACT_CONSUME at 0.85 per listed path of each listed consumer but the owner |
| Materialize.RetargetExact | src/fleet/graph/cycles.py:809-849 | a row between repositories resting on a file some contract lists, owned elsewhere, becomes a CONTRACT_CONSUME row to the least such contract that keeps source, evidence, confidence and flags and records where it led; any other row stays |
| Materialize.MaterializedRepoRows | src/fleet/graph/cycles.py:819-849 | a repo-to-repo row survives, unchanged, exactly when no contract claims its source and evidence path |
| Materialize.MaterializedKeepsEvidence | src/fleet/graph/cycles.py:819-849 | every row is kept or replaced by a CONTRACT_CONSUME row with the same source and evidence |
| FleetSteps.TrialWithin | src/fleet/graph/cycles.py:783-852 | materializing only removes repo-to-repo ordering arcs and changes none that leaves a contract |
| BreakTheorems.DependentsExact | src/fleet/graph/cycles.py:231-246 | the dependents a break is charged for are exactly the other nodes that reach the destination |
| Cycles.BreakEdges | src/fleet/graph/cycles.py:559-570 | the loop computes the specified sequence of breaks; `Choices.BreaksInTurn` says which these are |
| BreakTheorems.LiveHasFeedback | src/fleet/graph/cycles.py:560-566 | a live component always has a feedback edge, and all of them are ordering edges between repositories |
| Choices.FeedbackExact | src/fleet/graph/cycles.py:913-919 | a row is feedback exactly when it orders, lies inside the member set and runs up the search forest |
| Choices.CheapestExactly | src/fleet/graph/cycles.py:231-246 | the row chosen is the one with least confidence, then the kind that yields first in the written-out list, then the fewest nodes requiring its destination, then ambiguous before certain, then least digest, and no other |
| Choices.BreaksInTurn | src/fleet/graph/cycles.py:559-570 | at every turn of the loop the row broken is that row of the feedback at that turn, on the fleet with the earlier ones suppressed; the loop goes on exactly while the component is live, breaks are left and it need not move together |
| BreakTheorems.BreakLoopExact | src/fleet/graph/cycles.py:559-570 | distinct ordering keys are broken, each leaves the ordering set, nothing but suppression flags changes, and the loop stops only dissolved, out of budget or atomic |
| BreakTheorems.EdgeBreakIsSubstantiated | src/fleet/graph/cycles.py:572-602 | EDGE_BREAK is reported only with a broken edge and a dissolved component, otherwise ATOMIC_WAVE |
| Cycles.HoistContracts | src/fleet/graph/cycles.py:628-763 | the saturate-then-greedy loop computes the specified hoisting; `Choices.HoistTurns` says what it tries and keeps |
| HoistTheorems.SaturationIsSound | src/fleet/graph/cycles.py:685-690 | if hoisting all candidates leaves the component live, every subset does |
| HoistTheorems.AnyOrderSameRepoRows | src/fleet/graph/cycles.py:783-852 | materializing contracts one by one, in any order, leaves the same repo-to-repo rows as all together |
| HoistTheorems.AllCommittedDissolves | src/fleet/graph/cycles.py:697-763 | committing every candidate dissolves what the saturating trial dissolved |
| HoistTheorems.HoistCommitsExactly | src/fleet/graph/cycles.py:692-763 | whatever was tried and rejected in between, the result is the given fleet with exactly the hoisted contracts materialized in order, added as nodes and committed, and the rejected ones marked and left out |
| HoistTheorems.HoistExact | src/fleet/graph/cycles.py:628-763 | each candidate is hoisted or rejected at most once, hoisted contracts keep enough distinct consumers, a repo row is gone exactly when a hoisted contract claims it |
| Choices.PickExactly | src/fleet/graph/cycles.py:698-712 | the contract tried is the one whose trial leaves the smallest component around its owner, then the most confident, then with the fewest consumers and dependents, then with the least id, and no other |
| Choices.ConsumersExact | src/fleet/graph/cycles.py:714-721 | the consumers a trial counts are exactly the repositories that consume the contract already, rest a row on a file it lists, or are named and have a file listed |
| Choices.HoistTurns | src/fleet/graph/cycles.py:628-763 | exactly the extractable, confident, permitted, uncommitted contracts of the component's owners are offered; at every turn the one tried is that one and is hoisted iff enough repositories share it, otherwise rejected with the fleet left as it was; the loop stops exactly when dissolved, out of contracts or out of hoists |
| Cycles.ResolveScc | src/fleet/graph/cycles.py:476-602 | the ladder of one component computes its specification |
| CycleTheorems.ResolveExact | src/fleet/graph/cycles.py:476-602 | the reported strategy is substantiated: dissolved for hoist and break, live for atomic, untouched and above the hard maximum for manual |
| Choices.ResolveChooses | src/fleet/graph/cycles.py:476-602 | the feedback reported, the break proposed, the contracts hoisted and the edges broken of one component are the ones described above, on the fleet as it was at each turn |
| CycleTheorems.ResolveKeeps | src/fleet/graph/cycles.py:476-602 | no evidence and no consumer is lost, and what was hoisted is backed by enough consumers |
| CycleTheorems.RaisesExactlyWhenDissolved | src/fleet/graph/cycles.py:530-535 | once hoisting succeeds, one component raises exactly when it is not live at its turn |
| Returns.HoistNeverFails | src/fleet/graph/cycles.py:628-763 | when the edges of the contracts that may be hoisted start in the fleet, hoisting never ends in a dangling node |
| Returns.RaisesExactlyWhenStuck | src/fleet/graph/cycles.py:440-461 | the loop over components raises exactly when some component is dissolved by those before it |
| Returns.BreakRaisesExactly | src/fleet/graph/cycles.py:388-473 | on consistent input with nothing dangling, step 6 raises exactly then, and with that error only |
| LocalClaims.BreaksInside | src/fleet/graph/cycles.py:559-570 | the edges broken for a component lie inside it |
| LocalClaims.ResolveLeavesIntact | src/fleet/graph/cycles.py:476-602 | working on one component leaves the rows inside another that nobody outside claims as they were |
| LocalClaims.HoldTogetherReturns | src/fleet/graph/cycles.py:388-473 | step 6 returns whenever every component it works on stays live on the rows inside it that no contract owned elsewhere claims |
| LocalClaims.RaiseNeedsOutsideClaims | src/fleet/graph/cycles.py:530-535 | every raise needs a component that is not live on those rows, and a row inside it that a contract owned elsewhere claims |
| LocalClaims.LocalReturns | src/fleet/graph/cycles.py:388-473 | in particular step 6 returns when nothing inside a component is claimed from outside, so whenever there is nothing to hoist |
| SharedHoists.TrialBuilds | src/fleet/graph/cycles.py:783-852 | a trial leaves nothing dangling exactly when every repository that inference draws an edge from is in the fleet |
| SharedHoists.SharedHoistRaises | src/fleet/graph/cycles.py:530-535 | a hoist that settles one component and dissolves the next makes step 6 raise |
| SharedHoists.StepSixCanRaise | src/fleet/graph/cycles.py:530-535 | a fleet of two two-repository cycles with one contract's evidence in both makes step 6 raise, whatever the order of components and digests |
| Cycles.BreakCycles | src/fleet/graph/cycles.py:388-473 | the loop over components computes step 6 |
| Choices.OpeningExact | src/fleet/graph/cycles.py:423-434 | step 6 starts with exactly the hoisted and migrated contracts committed, added as nodes and materialized |
| Choices.StepSixChooses | src/fleet/graph/cycles.py:388-473 | every resolution step 6 returns was chosen so, in a fleet it reached on the way |
| Acyclicity.StepSixGuarantee | src/fleet/graph/sequence.py:217-222 | whenever step 6 returns, the condensed graph is acyclic for every excluded set if, and with no contract excluded only if, the arcs between contracts are |
| Acyclicity.SinksSuffice | src/fleet/graph/infer.py:543-550 | with no row leaving a contract the condensed graph is acyclic whatever is excluded |
| Sequencing.StepSixKeeps | src/fleet/graph/cycles.py:388-473 | from the rows given to the rows returned: repo-to-repo arcs only disappear, no evidence is lost, contracts stay sinks, every strategy has something to show and hoisted contracts keep their consumers |
| Sequencing.ContractsStayCyclic | src/fleet/graph/cycles.py:443-446 | a graph of contracts alone is returned as it was, so it can be sequenced exactly when it came in acyclic |
| Sequencing.ContractCycleSurvives | src/fleet/graph/cycles.py:443-446 | two contracts that require each other pass step 6 and leave a cyclic condensed graph |
| Condense.CondenseForOrdering | src/fleet/graph/sequence.py:92-134 | the two loops build the condensed graph |
| Condense.AtomicHomeExact | src/fleet/graph/sequence.py:112-119 | a repository is mapped to an atomic component that contains it, and to none only if none does |
| Condense.CondensedExact | src/fleet/graph/sequence.py:92-134 | a condensed node is there iff a kept node stands in it, and an arc iff an ordering arc joins two kept nodes standing in different ones; a repository stands in the latest atomic component recorded with it |
| Layers.Layer | src/fleet/graph/sequence.py:142-154 | on an acyclic graph every node lies one above its highest dependency, at 0 without any |
| Layers.PathOfLength | src/fleet/graph/sequence.py:142-154 | some dependency path is as long as the node's wave number |
| Layers.NoLongerPath | src/fleet/graph/sequence.py:142-154 | no dependency path is longer |
| Layers.LayeringIsLeast | src/fleet/graph/sequence.py:142-154 | no assignment that puts every node above its dependencies is lower anywhere |
| Layers.LayeringUnique | src/fleet/graph/sequence.py:142-154 | the layering does not depend on the topological order taken |
| Layers.LayeringNeedsAcyclic | src/fleet/graph/sequence.py:142-154 | a cyclic graph has no layering |
| WavePlans.MaterializeWaves | src/fleet/graph/sequence.py:266-288 | one wave per used index, ascending: repositories under repositories, contracts under contracts, each iff it has that index, with its components and the other waves it depends on |
| WavePlans.ReportFindings | src/fleet/graph/sequence.py:248-257 | every component is reported with its wave, unless a finding fails its validator |
| WavePlans.AssignWaves | src/fleet/graph/sequence.py:201-263 | a plan is returned exactly when the condensed graph is acyclic, every strategy is substantiated and no atomic component is excluded as a whole, and it spreads its layering over all residents |
| WavePlans.FindingNamesTheWave | src/fleet/graph/sequence.py:248-257 | the wave a finding names is the wave of every member |
| WavePlans.CoverageExact | src/fleet/graph/sequence.py:212-238 | exactly the nodes not dropped get a wave if and only if no atomic component is excluded in part |
| WavePlans.OrdersAllExactly | src/fleet/graph/sequence.py:201-263 | every ordering edge with both ends in waves is ordered if and only if the layering is that of the graph with the members of split components left in |
| WavePlans.PlanOrdersEveryEdge | src/fleet/graph/sequence.py:201-263 | so it is when no atomic component is split: one component shares a wave, otherwise the dependent's wave is strictly greater |
| WavePlans.WavesWellFormed | src/fleet/graph/sequence.py:240-288 | waves are numbered 0 to k-1, none is empty and each depends on lower ones only |
| WavePlans.WavesHoldExactly | src/fleet/graph/sequence.py:240-288 | wave i holds exactly the repositories and the contracts with index i, depends on exactly the other waves some ordering edge of kept nodes leads to from it, and names exactly the atomic components that move in it |
| Sequencing.SequenceAfterBreak | src/fleet/graph/sequence.py:201-263 | with acyclic contract arcs, step 7 draws a plan from what step 6 returns exactly when no atomic component is excluded as a whole, and the plan is ordered, covering and well formed, every wave holding exactly what has its index |
| GatedAtomics.StageReport | src/fleet/graph/cycles.py:605-622 | on a declared two-cycle with a third repository step 6 returns an atomic component, under any ordinary configuration |
| GatedAtomics.GateOneMember | src/fleet/graph/sequence.py:235-238 | steps 6 and 7 on that fleet with one member gated: it migrates in the wave of its own dependency |
| GatedAtomics.GateBothMembers | src/fleet/graph/sequence.py:248-257 | with both members gated step 7 fails though its graph is acyclic |
| Sequencing.AppendSyntheticWaves | src/fleet/graph/sequence.py:291-324 | succeeds exactly when the fresh nodes induce an acyclic graph; old waves and indices stay, exactly the nodes asked for and known gain an index, above the old ones and strictly above all they require that has a wave, and each new wave holds exactly the fresh nodes with its index and depends on exactly the waves an edge of them leads to |
| Failover.OperationsKeep | src/fleet/llm/failover.py:117-203 | every operation, and time, keeps: UP iff below the threshold iff no down time; a probe only after the cooldown |
| Failover.BackendHealth.MayCall | src/fleet/llm/failover.py:117-136 | admits exactly UP targets and DOWN targets whose cooldown has passed, making the latter HALF_OPEN, and changes nothing else |
| Failover.BackendHealth.RecordSuccess | src/fleet/llm/failover.py:138-146 | the target is as new |
| Failover.BackendHealth.RecordFailure | src/fleet/llm/failover.py:148-174 | an UP target below the threshold less one stays UP with one more failure and no down time; at the threshold it goes DOWN now; a failed probe restarts the cooldown; a DOWN target keeps its down time |
| Failover.BackendHealth.AbandonProbe | src/fleet/llm/failover.py:176-203 | an abandoned probe leaves the target admitting at once |
| Failover.ReplicasApart | src/fleet/llm/failover.py:104-112 | replicas of one target are told apart by their url |
| CallProtocol.RunKeeps | src/fleet/llm/client.py:685-762 | in every reachable state the breaker is consistent and a HALF_OPEN target has a call out |
| CallProtocol.QuiescentIsResolved | src/fleet/llm/client.py:685-762 | UP iff failures below the threshold iff never tripped; with no call in flight nothing is HALF_OPEN and every cooled target admits |
| CallProtocol.UpCountsErrors | src/fleet/llm/failover.py:138-174 | in any run a target is UP exactly while fewer than the threshold transport errors landed there since the last answer, and its counter is that number |
| CallProtocol.TripsExactly | src/fleet/llm/failover.py:158-174 | a step takes a target out of UP exactly when it lands the transport error that makes that number the threshold |
| CallProtocol.RecoversExactly | src/fleet/llm/failover.py:138-146 | a step brings a target back to UP exactly when it lands an answer there |
| CallProtocol.EveryPlaceIsEarned | src/fleet/llm/client.py:685-762 | in any run a call is where it is because every target before was refused at its turn or came back failed over, and it ends served, raised or unavailable only by the reply, or for want of targets, that says so |
| CallProtocol.ProbeIsAlone | src/fleet/llm/failover.py:117-136 | while a target stays HALF_OPEN no call is admitted to it and none returns |
| CallProtocol.OneProbePerEpisode | src/fleet/llm/failover.py:117-136 | each HALF_OPEN episode admits exactly one call, after the cooldown |
| CallProtocol.EpisodeEnds | src/fleet/llm/failover.py:138-203 | an episode ends only by a call coming back, in UP only by an answer, restarting the cooldown only by a transport error |
| CallProtocol.LateFailuresKeepCooldown | src/fleet/llm/failover.py:158-174 | a target that stays DOWN keeps its down time through any run |
| CallProtocol.AbandonedIsProbeable | src/fleet/llm/failover.py:176-203 | after an abandoned probe the target admits at every later moment it is still DOWN |
| CallProtocol.JoinedExactly | src/fleet/llm/failover.py:176-203 | from any reachable HALF_OPEN state a second call can be admitted beside a probe before it returns if and only if another call is out at the target already |
| CallProtocol.QuietEpisodeIsExclusive | src/fleet/llm/failover.py:117-136 | a target nobody was out at when its probe was let through has one probe at a time |
| CallProtocol.TwoProbesOut | src/fleet/llm/failover.py:176-203 | for every target a run with two probes out at once |
| CallProtocol.EveryCallEnds | src/fleet/llm/client.py:685-762 | a call's own steps use up what it has left and no other call prolongs it |
| CallProtocol.Complete | src/fleet/llm/client.py:685-762 | every earlier target was skipped or failed over, the outcome is the last reply's, and no exit leaves a probe of this call unresolved |
| TargetCall.RaiseIsAffordable | src/fleet/llm/client.py:1023-1052 | a raised cap is strictly larger, within the declared maximum and the budget |
| TargetCall.RaiseExact | src/fleet/llm/client.py:1023-1052 | a cap is raised to the highest within the growth factor, the declared maximum and the tokens left, and not at all exactly when that is no higher |
| CallCosts.DollarsKeptExactly | src/fleet/llm/client.py:1023-1052 | no dispatch of any call, against any endpoint, is projected above the dollars left if and only if input and highest cap the truncation retries lead to, each at its price per million tokens, come to no more |
| CallCosts.CoversExact | src/fleet/llm/client.py:516-525 | the projected cost is the input and the output, each at its price per million tokens, and nothing for a free target |
| CallCosts.CapIsTop | src/fleet/llm/client.py:1043-1052 | each dispatch asks for the cap its number of truncations leads to |
| CallCosts.DispatchCanOverspend | src/fleet/llm/client.py:823-849 | a call that passes the check before dispatch and whose third dispatch costs four times what is left |
| TargetCall.CallTarget | src/fleet/llm/client.py:930-1021 | at most 1 + repairs + truncations + rate-limit retries invocations, each affordable, each going on only for an absorbed reply with a retry of its kind left, and an outcome fixed by the last reply |
| TargetCall.TryTarget | src/fleet/llm/client.py:692-717 | something is sent exactly when there is no budget, or the deadline lies ahead, input and cap are within the tokens left and, at their prices per million, within the dollars left; then every dispatch is within the declared maximum and the token budget |
| TargetCall.React | src/fleet/llm/client.py:957-1021 | the loop body ends or goes on exactly as the reply and the three counters say |
| TargetCall.BaseOrOneRepair | src/fleet/llm/client.py:1003-1013 | every conversation sent is the base while no reply was invalid, and then the base, the offending turn of the latest invalid reply and the instruction with the validator's words |
| TargetCall.CapsGrow | src/fleet/llm/client.py:990-1000 | caps never shrink and grow with every truncation |
| CacheKeys.EncodeInjective | src/fleet/util/hashing.py:32-41 | the length-prefixed text determines its parts, whatever they contain |
| CacheKeys.KeyIsIdentity | src/fleet/llm/cache.py:142-156 | two calls share a key exactly when they agree on everything but the harness version, the adapters being taken as their sorted and joined text |
| CacheKeys.DeterminedExactly | src/fleet/llm/cache.py:155 | the joined text belongs to one list of adapters only if and only if that is a single nonempty version that no comma parts into two ascending texts |
| CacheKeys.KeyDeterminesAdaptersExactly | src/fleet/llm/cache.py:142-156 | a key determines the adapters of its call exactly then |
| CacheKeys.KeyRecoversAdapters | src/fleet/llm/cache.py:142-156 | two calls whose versions are nonempty and hold no comma share a key exactly when they agree, adapters as a multiset included |
| CacheKeys.CommasCount | src/fleet/llm/cache.py:155 | `a` and `b` have the text of `a,b`, while the text of `b,a` is nobody else's |
| LlmCache.AskKeyIsIdentity | src/fleet/llm/cache.py:142-156 | two calls share a key exactly when role, policy, rejected approach, prompt, template, schema, adapter text, tier, backend, model and effort all agree |
| LlmCache.ValidateRoute | src/fleet/llm/client.py:421-454 | accepts exactly the routes in which a backend and model name one effort |
| LlmCache.EffortRecoveredExactly | src/fleet/llm/cache.py:684-698 | the answering target's effort is recovered, whoever answered, exactly on those routes |
| LlmCache.ReplicasKeepIdentity | src/fleet/llm/client.py:400-412 | every replica is dialled once, the affine one first, under the target's backend, model and effort |
| LlmCache.ReplicaAt | src/fleet/llm/client.py:400-412 | the i-th replica dialled is the one i places after the affine one, round the declared list |
| LlmCache.MemoryLlmCacheStore.Touch | src/fleet/llm/cache.py:210-219 | a hit counts, carries the new time and says what was stored; no other row changes |
| LlmCache.MemoryLlmCacheStore.Put | src/fleet/llm/cache.py:221-231 | a new row is stored as it is, a known one counts and carries the new time but keeps its answer; no other row changes |
| LlmCache.MemoryLlmCacheStore.EvictOlderThan | src/fleet/llm/cache.py:233-237 | a row survives, unchanged, exactly when it was last hit at or after the cutoff, and the others are counted |
| LlmCache.Complete | src/fleet/llm/cache.py:506-563 | lookup, re-validation of a hit, delegation, store: which mode calls below, what is returned or raised and the whole new store in each case |
| LlmCache.StoredUnderAnswererExactly | src/fleet/llm/cache.py:633-664 | an answer is stored under its answerer's identity, whoever answers, exactly on the routes the validator accepts |
| LlmCache.StoredUnderReportExactly | src/fleet/llm/cache.py:633-664 | on an accepted route an answer is stored under its answerer's identity exactly when the adapter reports the configured model id or none, and under the model reported otherwise |
| LlmCache.DegradedRoutePoisons | src/fleet/llm/client.py:421-454 | on a refused route a standby's answer would land under the primary's key |
| LlmCache.RunKeeps | src/fleet/llm/cache.py:506-563 | in every run each row holds the words of a target whose identity is the row's key |
| LlmCache.HitIsFromIdentityAsked | src/fleet/llm/cache.py:534-536 | a hit replays an answer that a target with the tier, backend, model and effort asked for gave to this question |
| LlmCache.NeverReplaced | src/fleet/llm/cache.py:221-231 | a stored answer stays the same until it is evicted |
| LlmCache.RowsCarryLastTouch | src/fleet/llm/cache.py:210-231 | in any run a row carries the time of the last lookup that found it or answer that came for it |
| LlmCache.EvictsExactlyStale | src/fleet/llm/cache.py:233-237 | in any run an eviction takes exactly the rows nothing touched since the cutoff |
| LlmCache.ReplayAddsNothing | src/fleet/llm/cache.py:537-538 | in any run of mixed clients a read-only lookup asks nobody and adds no row; every new row and answer is due to a call a read-write lookup sent |
| LlmCache.StandbyLeavesPrimary | src/fleet/llm/cache.py:633-664 | a standby's answer leaves the row under the primary's key, or its absence, as it was |
| Versions.CmpExact | src/fleet/bazel/generators.py:367-374 | the comparison is the order of the zero-padded parts by their first difference |
| Versions.CmpOrder | src/fleet/bazel/generators.py:371-374 | it is a total preorder |
| Versions.NativeRefines | src/fleet/bazel/generators.py:567-569 | sorting by the language's tuple order also sorts by the padded order |
| Versions.Dense | src/fleet/bazel/generators.py:371-374 | between two versions lies another |
| VersionRanges.IntersectExact | src/fleet/bazel/generators.py:415-440 | a version is in the intersection iff it is in both ranges |
| VersionRanges.EmptyExact | src/fleet/bazel/generators.py:395-402 | no version of any length is contained iff the test says so or the range is everything below zero; with a lower bound the test alone decides |
| VersionRanges.BelowZeroIsMissed | src/fleet/bazel/generators.py:395-402 | the spec `<0` admits nothing and passes for nonempty |
| VersionRanges.AtomExact | src/fleet/bazel/generators.py:443-485 | an atom's range holds exactly the versions that meet it, a caret or tilde being read as agreement on leading parts |
| VersionRanges.ParseRange | src/fleet/bazel/generators.py:452-486 | the loop intersects the atoms' ranges |
| VersionRanges.ParseExact | src/fleet/bazel/generators.py:452-486 | a parsed spec admits exactly the versions that meet every atom |
| VersionSelection.MvsSelect | src/fleet/bazel/generators.py:532-578 | the verdict is the one the set of parsed specs determines |
| VersionSelection.VerdictIsUnique | src/fleet/bazel/generators.py:532-578 | that set determines one verdict: order and multiplicity of specs do not matter |
| VersionSelection.EligibleIsLeast | src/fleet/bazel/generators.py:564-571 | a candidate every spec admits is the least of all versions every spec admits |
| VersionSelection.SelectedIsShortest | src/fleet/bazel/generators.py:564-571 | of the declared bounds that are the least version admitted, the one selected is written with the fewest parts, and among several texts for it is the least |
| VersionSelection.SelectedExactly | src/fleet/bazel/generators.py:554-578 | something is selected iff the intersection is nonempty with an inclusive lower bound, iff some spec has a lower bound and the admitted versions have a least one |
| VersionCollisions.Intersects | src/fleet/graph/collisions.py:482-501 | the loop keeps the highest lower and the lowest upper bound and compares them |
| VersionCollisions.PhasesAgreeExactly | src/fleet/graph/collisions.py:482-555 | over a set of versions Phase 1 is false exactly when the Phase 3 range is empty, for all single-atom specs without tilde, if and only if no two versions differ only in trailing zeros beyond the third part |
| VersionCollisions.PhasesAgree | src/fleet/graph/collisions.py:482-555 | in particular for versions of at most three parts |
| VersionCollisions.CeilingsDoNotMatter | src/fleet/graph/collisions.py:549-555 | the condition is on the versions alone: a caret ceiling that repeats a version with other trailing zeros, as `^1` beside `2.0.0.0`, leaves the phases in agreement |
| VersionCollisions.TrailingZerosDisagree | src/fleet/graph/collisions.py:538-546 | any two such versions make the phases disagree both ways |
| VersionCollisions.FourPartsDisagree | src/fleet/graph/collisions.py:538-546 | `1.2.3` and `1.2.3.0` are such versions |
| FenceScan.SpansAreOk | src/fleet/llm/fences.py:119-145 | on any text every block found runs from a header to the first line that closes its fence |
| FenceScan.SpansAreDisjoint | src/fleet/llm/fences.py:119-145 | blocks found are in order and do not overlap |
| FenceScan.NothingIsHidden | src/fleet/llm/fences.py:119-145 | a header with a closing fence is found unless it lies inside a block found before it |
| FenceScan.ScanText | src/fleet/llm/fences.py:124-145 | the scanning loop terminates with exactly those blocks |
| Fences.TextIsValid | src/fleet/llm/fences.py:93-94 | on any text a header is one line, so none starts inside another, and every closing fence lies inside the text |
| Fences.HeadExact | src/fleet/llm/fences.py:94 | a header is exactly: at the start of a line three or more backticks, `path:`, a path on one line and its newline |
| Fences.ScannedFilesAreBlocks | src/fleet/llm/fences.py:119-145 | whatever the text, every file returned is the content between a header and the first line that is its fence again, in order and apart |
| Fences.FindClose | src/fleet/llm/fences.py:134-140 | the search loop finds the first fence alone on its line, skipping the others |
| Fences.Scan | src/fleet/llm/fences.py:119-145 | scanning a string returns the files of its blocks |
| Fences.FenceIsShortest | src/fleet/llm/fences.py:97-102 | the fence is longer than every run in the content and no longer than needed |
| Fences.RoundTrip | src/fleet/llm/fences.py:105-145 | scanning the joined blocks of any files with single-line paths returns exactly those files in order |
| Fences.ParseReadsBack | src/fleet/llm/fences.py:148-185 | parsing returns, under an allowed path, the content last written for it, and nothing under a path that only occurs inside contents |
| Migrations.ValidateRegistry | src/fleet/migrations/__init__.py:158-165 | accepts exactly the ladders that ascend without a gap, and refuses the empty one |
| Migrations.SelectExact | src/fleet/migrations/__init__.py:205-229 | the step selected produces the next version; only the target has none, and each error is raised exactly for its case: a newer, an unversioned, a too old database |
| Migrations.Database.ApplyOneStep | src/fleet/migrations/__init__.py:242-269 | one transaction; on any failure version and contents are what they were |
| Migrations.Database.Migrate | src/fleet/migrations/__init__.py:272-297 | alone on the database, a normal return reports the version it found and the target it reached |
| Migrations.TransactionExact | src/fleet/migrations/__init__.py:242-269 | a transaction commits, one version up, exactly when the ladder leads on from the version found, the step does not raise and violates no foreign key; otherwise nothing changes and the error says which failed |
| Migrations.AppliedConsecutively | src/fleet/migrations/__init__.py:242-297 | under any interleaving the committed steps are exactly the consecutive versions, each once |
| Migrations.OnlyForward | src/fleet/migrations/__init__.py:242-297 | the version never decreases, commits stay, and contents change only with the version |
| Migrations.FailureChangesNothing | src/fleet/migrations/__init__.py:253-267 | a raising migrator changed nothing in its last transaction, and its error is the one of what stood in its way |
| Migrations.EveryMigratorEnds | src/fleet/migrations/__init__.py:286-295 | a migrator's transactions use up what it has left and nobody else's adds |
| Migrations.RemembersFirstLock | src/fleet/migrations/__init__.py:284-295 | a normal return reports the version seen under the migrator's first lock and its ladder's target |

## Left out

- External dependency rows (no internal destination) order nothing and are dropped by the graph builder; the model has internal rows only.
- Hashes (edge keys, component ids, cache digests) are assumed injective: an edge is its key tuple, a component its member set, a cache key the text that is hashed.
- Contracts are a map by id, so two input contracts with one id are not represented.
- `infer_contract_edges` and the candidate scoring of the hoisting loop are functions of values rather than loops over lists; no order among equals is lost, since edges are sets by key and scores are compared with the contract id last.
- Graph findings, rationales, the recorded intra-component edge keys, rendering and the `condense=False` variant: no decision modelled here reads them.
- `resolutions` are kept in the order components are handled; the report sorts them by component id.
- The success criteria (a) to (d) over a finished plan, the coarse build target of an atomic component and the superseding of findings across scans are out of the model.
- The breaker's transition events, streaming heartbeats, drift and failover events: observers only.
- Floating-point rounding of growth factors and prices: both are exact reals here; the input estimate is a parameter.
- CallProtocol.Complete: the capability negotiation and budget check before a call are part of what its reply stands for.
- The SQLite store, redaction and response validation: a store row is a value, redaction and validation are arbitrary functions.
- `reconcile_versions` (selection for every coordinate of a wave) and `validate_override` (checking an operator's pin against the specs it violates) are out of the model.
- Parsing of version text by regular expression: specs start as atoms with their text; `~=`, multi-atom specs and tilde in Phase 1 are not part of this model.
- VersionCollisions.PhasesAgreeExactly: single-atom specs without tilde, because the two phases read tilde and several atoms differently.
- Fences: characters are compared as they are; no Unicode or line-ending normalisation takes place in the source either.
- Migration steps and SQL: a step is an opaque attempt.
