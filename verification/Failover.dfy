/**
 The per-target circuit breaker (`llm/failover.py`).  A target is UP, DOWN after
 `open_after_failures` consecutive qualifying failures, and HALF_OPEN while the one call that
 may test it after the cooldown is out.

 The clock is a parameter of every operation that reads it.
 */
module Failover {
  import opened Options

  datatype HealthState = Up | Down | HalfOpen

  datatype TargetState = TargetState(state: HealthState, failures: nat, downSince: Option<real>)

  datatype Policy = Policy(openAfter: nat, cooldown: real)

  /** One endpoint: replicas of a model differ in their base url only. */
  datatype Target = Target(backend: string, model: string, url: Option<string>)

  const FRESH := TargetState(Up, 0, None)

  function Key(t: Target): string
  {
    t.backend + ":" + t.model + if t.url.None? then "" else "@" + t.url.value
  }

  /** Replicas of one model are told apart: the endpoint is part of what the breaker goes by. */
  lemma ReplicasApart(s: Target, t: Target)
    requires s.backend == t.backend && s.model == t.model
    ensures Key(s) == Key(t) <==> s.url == t.url
  {
    var base := s.backend + ":" + s.model;
    assert Key(s) == base + (if s.url.None? then "" else "@" + s.url.value);
    assert Key(t) == base + (if t.url.None? then "" else "@" + t.url.value);
    assert Key(s)[|base|..] == if s.url.None? then "" else "@" + s.url.value;
    assert Key(t)[|base|..] == if t.url.None? then "" else "@" + t.url.value;
    if s.url.Some? && t.url.Some? {
      assert ("@" + s.url.value)[1..] == s.url.value && ("@" + t.url.value)[1..] == t.url.value;
    }
  }

  // ---------------------------------------------------------------------------------------
  // One target
  // ---------------------------------------------------------------------------------------

  /** The cooldown of a tripped target has elapsed. */
  predicate Cooled(p: Policy, s: TargetState, now: real)
  {
    s.downSince.Some? && now - s.downSince.value >= p.cooldown
  }

  predicate Admits(p: Policy, s: TargetState, now: real)
  {
    s.state == Up || (s.state == Down && Cooled(p, s, now))
  }

  function Asked(p: Policy, s: TargetState, now: real): TargetState
  {
    if s.state == Down && Cooled(p, s, now) then s.(state := HalfOpen) else s
  }

  function Failed(p: Policy, s: TargetState, now: real): TargetState
  {
    if s.state == HalfOpen then
      TargetState(Down, if s.failures < p.openAfter then p.openAfter else s.failures, Some(now))
    else if s.failures + 1 >= p.openAfter && s.state != Down then
      TargetState(Down, s.failures + 1, Some(now))
    else
      s.(failures := s.failures + 1)
  }

  function Abandoned(s: TargetState): TargetState
  {
    if s.state == HalfOpen then s.(state := Down) else s
  }

  /** UP, below the failure threshold and never tripped are the same; a probe is out only after
      the cooldown. */
  ghost predicate TargetOk(p: Policy, s: TargetState, now: real)
  {
    && (s.state == Up <==> s.failures < p.openAfter)
    && (s.state == Up <==> s.downSince.None?)
    && (s.downSince.Some? ==> s.downSince.value <= now)
    && (s.state == HalfOpen ==> Cooled(p, s, now))
  }

  type Health = map<string, TargetState>

  function StateOf(h: Health, k: string): TargetState { if k in h then h[k] else FRESH }

  ghost predicate HealthOk(p: Policy, h: Health, now: real)
  {
    forall k :: TargetOk(p, StateOf(h, k), now)
  }

  /** Time alone, and every operation at the current time, keeps every target consistent. */
  lemma OperationsKeep(p: Policy, s: TargetState, before: real, now: real)
    requires p.openAfter >= 1 && TargetOk(p, s, before) && before <= now
    ensures TargetOk(p, s, now) && TargetOk(p, Asked(p, s, now), now) && TargetOk(p, FRESH, now)
    ensures TargetOk(p, Failed(p, s, now), now) && TargetOk(p, Abandoned(s), now)
  {
  }

  // ---------------------------------------------------------------------------------------
  // The breaker
  // ---------------------------------------------------------------------------------------

  class BackendHealth {
    const policy: Policy
    var targets: Health

    constructor (policy: Policy)
      requires policy.openAfter >= 1
      ensures this.policy == policy && targets == map[]
      ensures forall now :: HealthOk(policy, targets, now)
    {
      this.policy := policy;
      targets := map[];
    }

    /** Whether to call `t` now; asking a cooled target claims its one probe. */
    method MayCall(t: Target, now: real) returns (ok: bool)
      requires policy.openAfter >= 1
      modifies this
      ensures ok == Admits(policy, StateOf(old(targets), Key(t)), now)
      ensures targets == old(targets)[Key(t) := Asked(policy, StateOf(old(targets), Key(t)), now)]
      ensures
        var s0, s1 := StateOf(old(targets), Key(t)), StateOf(targets, Key(t));
        && (s0.state == Up ==> ok && s1 == s0)
        && (s0.state == HalfOpen ==> !ok && s1 == s0)
        && (s0.state == Down && s0.downSince.Some? ==>
              && (ok <==> s0.downSince.value + policy.cooldown <= now)
              && s1.downSince == s0.downSince && s1.failures == s0.failures
              && s1.state == if ok then HalfOpen else Down)
      ensures forall before :: before <= now && HealthOk(policy, old(targets), before) ==>
          HealthOk(policy, targets, now)
    {
      var s := StateOf(targets, Key(t));
      ghost var was := targets;
      targets := targets[Key(t) := s];
      if s.state == Up {
        ok := true;
      } else if s.state == HalfOpen {
        ok := false;
      } else if s.downSince.None? || now - s.downSince.value < policy.cooldown {
        ok := false;
      } else {
        targets := targets[Key(t) := s.(state := HalfOpen)];
        ok := true;
      }
      UpdateKeeps(policy, was, targets, Key(t), targets[Key(t)], now);
    }

    /** Any reply restores the target. */
    method RecordSuccess(t: Target)
      modifies this
      ensures targets == old(targets)[Key(t) := FRESH]
    {
      targets := targets[Key(t) := StateOf(targets, Key(t)).(failures := 0)];
      if targets[Key(t)].state != Up {
        targets := targets[Key(t) := targets[Key(t)].(state := Up)];
      }
      targets := targets[Key(t) := targets[Key(t)].(downSince := None)];
    }

    /** Only the failure that trips an UP target, or fails a probe, starts the cooldown. */
    method RecordFailure(t: Target, now: real)
      requires policy.openAfter >= 1
      modifies this
      ensures targets == old(targets)[Key(t) := Failed(policy, StateOf(old(targets), Key(t)), now)]
      ensures
        var s0, s1 := StateOf(old(targets), Key(t)), StateOf(targets, Key(t));
        && (s0.state == Up && s0.failures + 1 < policy.openAfter ==>
              s1.state == Up && s1.failures == s0.failures + 1 && s1.downSince == s0.downSince)
        && (s0.state == Up && s0.failures + 1 >= policy.openAfter ==>
              s1.state == Down && s1.failures == s0.failures + 1 && s1.downSince == Some(now))
        && (s0.state == Down ==>
              s1.state == Down && s1.failures == s0.failures + 1 && s1.downSince == s0.downSince)
        && (s0.state == HalfOpen ==> s1.state == Down && s1.downSince == Some(now))
        && (s0.state == HalfOpen ==>
              s1.failures >= s0.failures && s1.failures >= policy.openAfter
              && s1.failures in {s0.failures, policy.openAfter})
      ensures forall before :: before <= now && HealthOk(policy, old(targets), before) ==>
          HealthOk(policy, targets, now)
    {
      ghost var was := targets;
      var s := StateOf(targets, Key(t));
      if s.state == HalfOpen {
        var failures := if s.failures < policy.openAfter then policy.openAfter else s.failures;
        targets := targets[Key(t) := s.(failures := failures)];
        targets := targets[Key(t) := targets[Key(t)].(downSince := Some(now))];
        targets := targets[Key(t) := targets[Key(t)].(state := Down)];
      } else {
        targets := targets[Key(t) := s.(failures := s.failures + 1)];
        if targets[Key(t)].failures >= policy.openAfter && s.state != Down {
          targets := targets[Key(t) := targets[Key(t)].(downSince := Some(now))];
          targets := targets[Key(t) := targets[Key(t)].(state := Down)];
        }
      }
      UpdateKeeps(policy, was, targets, Key(t), targets[Key(t)], now);
    }

    /** The probe said nothing about the endpoint: the next call may probe again. */
    method AbandonProbe(t: Target, ghost now: real)
      requires policy.openAfter >= 1
      modifies this
      ensures targets == old(targets)[Key(t) := Abandoned(StateOf(old(targets), Key(t)))]
      ensures forall before :: before <= now && HealthOk(policy, old(targets), before) ==>
                && HealthOk(policy, targets, now)
                && (StateOf(old(targets), Key(t)).state == HalfOpen ==> Admits(policy, StateOf(targets, Key(t)), now))
    {
      ghost var was := targets;
      targets := targets[Key(t) := StateOf(targets, Key(t))];
      if targets[Key(t)].state == HalfOpen {
        targets := targets[Key(t) := targets[Key(t)].(state := Down)];
      }
      UpdateKeeps(policy, was, targets, Key(t), targets[Key(t)], now);
    }
  }

  /** Changing one target by one of the operations keeps the breaker consistent. */
  lemma UpdateKeeps(p: Policy, h: Health, g: Health, k: string, s: TargetState, now: real)
    requires p.openAfter >= 1 && g == h[k := s]
    requires s in {Asked(p, StateOf(h, k), now), Failed(p, StateOf(h, k), now), Abandoned(StateOf(h, k)), FRESH}
    ensures forall before :: before <= now && HealthOk(p, h, before) ==> HealthOk(p, g, now)
  {
    forall before, j | before <= now && HealthOk(p, h, before)
      ensures TargetOk(p, StateOf(g, j), now)
    {
      OperationsKeep(p, StateOf(h, j), before, now);
    }
  }
}
