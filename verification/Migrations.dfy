/**
 The migration ladder runner (`migrations/__init__.py`): any number of processes, each applying
 its own ladder one exclusive transaction at a time, with rollback on any failure.

 A step is opaque: an attempt says what it leaves in the transaction, whether it raises and how
 many foreign keys it violates.  Contents are the text of the database.
 */
module Migrations {
  import opened Options

  type Contents = string

  datatype Step = Step(version: nat, name: string)

  datatype Attempt = Attempt(result: Contents, raises: bool, violations: nat)

  datatype Error = NoSteps | NotAscending | Gap | Ahead | NoSchema | TooOld | StepFailed | IntegrityFailed

  datatype Result<T> = Ok(value: T) | Err(error: Error)

  // ---------------------------------------------------------------------------------------
  // The ladder
  // ---------------------------------------------------------------------------------------

  /** Ascending without a gap. */
  predicate Contiguous(steps: seq<Step>)
  {
    |steps| > 0 && forall i :: 0 <= i < |steps| ==> steps[i].version == steps[0].version + i
  }

  ghost predicate Ascending(steps: seq<Step>)
  {
    forall i, j :: 0 <= i < j < |steps| ==> steps[i].version < steps[j].version
  }

  method ValidateRegistry(steps: seq<Step>) returns (r: Result<()>)
    ensures r.Ok? <==> Contiguous(steps)
    ensures r == Err(NoSteps) <==> steps == []
    ensures r == Err(NotAscending) <==> !Ascending(steps)
  {
    if steps == [] {
      return Err(NoSteps);
    }
    for i := 1 to |steps|
      invariant Ascending(steps[..i])
    {
      if steps[i].version <= steps[i - 1].version {
        assert !Ascending(steps);
        return Err(NotAscending);
      }
    }
    assert steps[..|steps|] == steps;
    for i := 0 to |steps|
      invariant forall j :: 0 <= j < i ==> steps[j].version == steps[0].version + j
    {
      if steps[i].version != steps[0].version + i {
        return Err(Gap);
      }
    }
    r := Ok(());
  }

  /** The version a ladder ends at, 0 for an empty one. */
  function Target(steps: seq<Step>): nat { if steps == [] then 0 else steps[|steps| - 1].version }

  function FirstAbove(current: nat, steps: seq<Step>): Option<Step>
  {
    if steps == [] then None
    else if steps[0].version > current then Some(steps[0])
    else FirstAbove(current, steps[1..])
  }

  /** The step that applies at `current`, none at the target. */
  function SelectStep(current: nat, steps: seq<Step>): Result<Option<Step>>
  {
    if steps == [] then Err(NoSteps)
    else if current == Target(steps) then Ok(None)
    else if current > Target(steps) then Err(Ahead)
    else if current == 0 then Err(NoSchema)
    else if current + 1 < steps[0].version then Err(TooOld)
    else Ok(FirstAbove(current, steps))
  }

  lemma {:induction false} FirstAboveExact(current: nat, steps: seq<Step>)
    requires Contiguous(steps) && steps[0].version <= current + 1 && current < Target(steps)
    ensures FirstAbove(current, steps).Some? && FirstAbove(current, steps).value in steps
    ensures FirstAbove(current, steps).value.version == current + 1
    decreases |steps|
  {
    if steps[0].version <= current {
      var rest := steps[1..];
      forall i | 0 <= i < |rest|
        ensures rest[i].version == rest[0].version + i
      {
        assert rest[i] == steps[i + 1];
      }
      FirstAboveExact(current, rest);
    }
  }

  /** On a contiguous ladder the step selected is the next version, and only the target, a newer,
      an unversioned and a too old database have none. */
  lemma SelectExact(current: nat, steps: seq<Step>)
    requires Contiguous(steps)
    ensures
      match SelectStep(current, steps)
      case Ok(None) => current == Target(steps)
      case Ok(Some(step)) => step in steps && step.version == current + 1 <= Target(steps)
      case Err(Ahead) => current > Target(steps)
      case Err(NoSchema) => current == 0 < Target(steps)
      case Err(TooOld) => 0 < current && current + 1 < steps[0].version
      case Err(_) => false
  {
    if 0 < current < Target(steps) && steps[0].version <= current + 1 {
      FirstAboveExact(current, steps);
    }
  }

  // ---------------------------------------------------------------------------------------
  // One transaction
  // ---------------------------------------------------------------------------------------

  datatype State = State(version: nat, contents: Contents)

  /** The version observed under the lock and the step applied. */
  datatype Applied = Applied(observed: nat, step: Option<Step>)

  function Transaction(steps: seq<Step>, s: State, a: Attempt): (State, Result<Applied>)
  {
    match SelectStep(s.version, steps)
    case Err(e) => (s, Err(e))
    case Ok(None) => (s, Ok(Applied(s.version, None)))
    case Ok(Some(step)) =>
      if a.raises then (s, Err(StepFailed))
      else if a.violations > 0 then (s, Err(IntegrityFailed))
      else (State(step.version, a.result), Ok(Applied(s.version, Some(step))))
  }

  /** The ladder leads up from `version`. */
  predicate Climbable(steps: seq<Step>, version: nat)
    requires Contiguous(steps)
  {
    0 < version < Target(steps) && steps[0].version <= version + 1
  }

  /** A transaction that fails, or finds nothing to do, changes nothing; one that applies a step
      moves the version up by exactly one. */
  lemma TransactionExact(steps: seq<Step>, s: State, a: Attempt)
    requires Contiguous(steps)
    ensures
      var (t, r) := Transaction(steps, s, a);
      match r
      case Err(StepFailed) => t == s && Climbable(steps, s.version) && a.raises
      case Err(IntegrityFailed) => t == s && Climbable(steps, s.version) && !a.raises && a.violations > 0
      case Err(_) => t == s && s.version != Target(steps) && !Climbable(steps, s.version)
      case Ok(Applied(observed, None)) => t == s && observed == s.version == Target(steps)
      case Ok(Applied(observed, Some(step))) =>
        && Climbable(steps, s.version) && !a.raises && a.violations == 0
        && observed == s.version && t == State(s.version + 1, a.result)
        && step in steps && step.version == t.version <= Target(steps)
  {
    SelectExact(s.version, steps);
  }

  class Database {
    var version: nat
    var contents: Contents

    constructor (version: nat, contents: Contents)
      ensures this.version == version && this.contents == contents
    {
      this.version, this.contents := version, contents;
    }

    function Abs(): State
      reads this
    {
      State(version, contents)
    }

    /** Begin, re-read, apply at most one step, commit; any failure rolls everything back. */
    method ApplyOneStep(steps: seq<Step>, a: Attempt) returns (r: Result<Applied>)
      modifies this
      ensures (Abs(), r) == Transaction(steps, old(Abs()), a)
      ensures r.Err? ==> Abs() == old(Abs())
    {
      var savedVersion, savedContents := version, contents;
      var current := version;
      var selected := SelectStep(current, steps);
      var failure: Option<Error> := None;
      var step: Option<Step> := None;
      if selected.Err? {
        failure := Some(selected.error);
      } else if selected.value.Some? {
        step := selected.value;
        contents := a.result;
        if a.raises {
          failure := Some(StepFailed);
        } else if a.violations > 0 {
          failure := Some(IntegrityFailed);
        } else {
          version := step.value.version;
        }
      }
      if failure.Some? {
        version, contents := savedVersion, savedContents;
        return Err(failure.value);
      }
      r := Ok(Applied(current, step));
    }

    /** The runner with the database to itself: `attempts` says how each transaction's step goes. */
    method Migrate(steps: seq<Step>, attempts: nat -> Attempt) returns (r: Result<(nat, nat)>)
      requires Contiguous(steps)
      modifies this
      ensures r.Ok? ==> r.value == (old(version), Target(steps)) && version == Target(steps)
      ensures old(version) <= version
      ensures r.Ok? ==> old(version) == version || (steps[0].version <= old(version) + 1 && old(version) > 0)
      ensures r.Err? && r.error in {Ahead, NoSchema, TooOld} ==> Abs() == old(Abs())
    {
      var first: Option<nat> := None;
      var i := 0;
      while true
        invariant old(version) + i == version && (first.None? <==> i == 0)
        invariant i > 0 ==> first == Some(old(version)) && version <= Target(steps) && old(version) > 0
                            && steps[0].version <= old(version) + 1
        invariant i == 0 ==> Abs() == old(Abs())
        decreases if version <= Target(steps) then Target(steps) - version else 0
      {
        TransactionExact(steps, Abs(), attempts(i));
        SelectExact(version, steps);
        var one := ApplyOneStep(steps, attempts(i));
        if one.Err? {
          return Err(one.error);
        }
        if first.None? {
          first := Some(one.value.observed);
        }
        if one.value.step.None? {
          return Ok((first.value, one.value.observed));
        }
        i := i + 1;
      }
    }
  }

  // ---------------------------------------------------------------------------------------
  // Many migrators
  // ---------------------------------------------------------------------------------------

  datatype Phase = Running | Returned(from: nat, to: nat) | Raised(error: Error)

  /** `first` is the version seen under the first lock. */
  datatype Migrator = Migrator(steps: seq<Step>, first: Option<nat>, phase: Phase)

  datatype Commit = Commit(id: nat, from: nat, step: Step)

  /** The database, the processes on it, and every commit so far. */
  datatype World = World(state: State, migrators: map<nat, Migrator>, log: seq<Commit>)

  datatype Event = Start(id: nat, steps: seq<Step>) | Txn(id: nat, attempt: Attempt)

  predicate Enabled(w: World, e: Event)
  {
    match e
    case Start(id, steps) => id !in w.migrators && Contiguous(steps)
    case Txn(id, _) => id in w.migrators && w.migrators[id].phase == Running && Contiguous(w.migrators[id].steps)
  }

  function Seen(m: Migrator, observed: nat): nat { if m.first.Some? then m.first.value else observed }

  function Apply(w: World, e: Event): World
    requires Enabled(w, e)
  {
    match e
    case Start(id, steps) => w.(migrators := w.migrators[id := Migrator(steps, None, Running)])
    case Txn(id, attempt) =>
      var m := w.migrators[id];
      var (t, r) := Transaction(m.steps, w.state, attempt);
      match r
      case Err(error) => w.(migrators := w.migrators[id := m.(phase := Raised(error))])
      case Ok(Applied(observed, None)) =>
        var first := Seen(m, observed);
        w.(migrators := w.migrators[id := m.(first := Some(first), phase := Returned(first, observed))])
      case Ok(Applied(observed, Some(step))) =>
        World(t, w.migrators[id := m.(first := Some(Seen(m, observed)))], w.log + [Commit(id, observed, step)])
  }

  ghost predicate Follows(w: World, e: Event, v: World) { Enabled(w, e) && v == Apply(w, e) }

  ghost predicate IsRun(ws: seq<World>, es: seq<Event>)
  {
    && |ws| == |es| + 1 && ws[0].migrators == map[] && ws[0].log == []
    && forall i :: 0 <= i < |es| ==> Follows(ws[i], es[i], ws[i + 1])
  }

  /** The log climbs from `base` one version at a time and ends at the database's version. */
  ghost predicate Climbs(base: nat, w: World)
  {
    && w.state.version == base + |w.log|
    && forall i :: 0 <= i < |w.log| ==> w.log[i].from == base + i && w.log[i].step.version == base + i + 1
  }

  /** One step of a run: at most one commit, appended, one version up; otherwise nothing moves. */
  lemma StepExact(w: World, e: Event, v: World)
    requires Follows(w, e, v)
    ensures
      || (v.state == w.state && v.log == w.log)
      || (v.state.version == w.state.version + 1 && e.Txn? && v.state.contents == e.attempt.result
          && |v.log| == |w.log| + 1 && v.log[..|w.log|] == w.log
          && v.log[|w.log|].id == e.id && v.log[|w.log|].from == w.state.version
          && v.log[|w.log|].step.version == w.state.version + 1
          && v.log[|w.log|].step in w.migrators[e.id].steps)
  {
    if e.Txn? {
      TransactionExact(w.migrators[e.id].steps, w.state, e.attempt);
    }
  }

  /** Under any interleaving, failures included, the applied steps are exactly the consecutive
      versions from the first, each committed once, and the version is where they end. */
  lemma {:induction false} AppliedConsecutively(ws: seq<World>, es: seq<Event>, i: nat)
    requires IsRun(ws, es) && i < |ws|
    ensures Climbs(ws[0].state.version, ws[i])
    decreases i
  {
    if i > 0 {
      AppliedConsecutively(ws, es, i - 1);
      assert Follows(ws[i - 1], es[i - 1], ws[i - 1 + 1]);
      StepExact(ws[i - 1], es[i - 1], ws[i]);
    }
  }

  /** The version never decreases and commits are never taken back. */
  lemma {:induction false} OnlyForward(ws: seq<World>, es: seq<Event>, i: nat, j: nat)
    requires IsRun(ws, es) && i <= j < |ws|
    ensures ws[i].state.version <= ws[j].state.version && ws[i].log <= ws[j].log
    ensures ws[i].state.version == ws[j].state.version ==> ws[i].state == ws[j].state
    decreases j
  {
    if i < j {
      OnlyForward(ws, es, i, j - 1);
      assert Follows(ws[j - 1], es[j - 1], ws[j - 1 + 1]);
      StepExact(ws[j - 1], es[j - 1], ws[j]);
    }
  }

  /** A transaction that makes its migrator raise leaves version and contents as they were, and the error
      says what stood in its way. */
  lemma FailureChangesNothing(w: World, e: Event, v: World)
    requires Follows(w, e, v) && e.Txn? && v.migrators[e.id].phase.Raised?
    ensures v.state == w.state && v.log == w.log
    ensures
      var steps, version := w.migrators[e.id].steps, w.state.version;
      match v.migrators[e.id].phase.error
      case StepFailed => Climbable(steps, version) && e.attempt.raises
      case IntegrityFailed => Climbable(steps, version) && !e.attempt.raises && e.attempt.violations > 0
      case Ahead => version > Target(steps)
      case NoSchema => version == 0 < Target(steps)
      case TooOld => 0 < version && version + 1 < steps[0].version
      case _ => false
  {
    SelectExact(w.state.version, w.migrators[e.id].steps);
  }

  /** The transactions migrator `id` can still make. */
  function Left(w: World, id: nat): nat
    requires id in w.migrators && |w.migrators[id].steps| > 0
  {
    var m := w.migrators[id];
    if m.phase != Running then 0
    else if w.state.version < Target(m.steps) then Target(m.steps) - w.state.version + 1
    else 1
  }

  /** Every migrator ends: its own transactions use up what it has left, and nobody else's adds. */
  lemma EveryMigratorEnds(w: World, e: Event, v: World, id: nat)
    requires Follows(w, e, v) && id in w.migrators && Contiguous(w.migrators[id].steps)
    ensures id in v.migrators && v.migrators[id].steps == w.migrators[id].steps
    ensures e.Txn? && e.id == id ==> Left(v, id) < Left(w, id)
    ensures !(e.Txn? && e.id == id) ==> Left(v, id) <= Left(w, id)
  {
    StepExact(w, e, v);
    if e.Txn? {
      TransactionExact(w.migrators[e.id].steps, w.state, e.attempt);
    }
  }

  ghost predicate IsTxnOf(e: Event, id: nat) { e.Txn? && e.id == id }

  /** Once a migrator has taken its first lock it remembers the version seen under it. */
  lemma {:induction false} RemembersFirstLock(ws: seq<World>, es: seq<Event>, i: nat, j: nat, id: nat)
    requires IsRun(ws, es) && i < j < |ws| && IsTxnOf(es[i], id)
    requires forall n :: 0 <= n < i ==> !IsTxnOf(es[n], id)
    ensures id in ws[j].migrators
    ensures
      var m := ws[j].migrators[id];
      && (m.phase.Raised? || m.first == Some(ws[i].state.version))
      && (m.phase.Returned? ==> m.phase == Returned(ws[i].state.version, Target(m.steps)))
    decreases j
  {
    assert Follows(ws[j - 1], es[j - 1], ws[j - 1 + 1]);
    if j == i + 1 {
      NoLockYet(ws, es, i, id);
      TxnExact(ws[i], es[i]);
    } else {
      RemembersFirstLock(ws, es, i, j - 1, id);
      if IsTxnOf(es[j - 1], id) {
        TxnExact(ws[j - 1], es[j - 1]);
      }
    }
  }

  lemma TxnExact(w: World, e: Event)
    requires Enabled(w, e) && e.Txn?
    ensures
      var m, n := w.migrators[e.id], Apply(w, e).migrators[e.id];
      && n.steps == m.steps
      && (n.phase.Raised? || n.first == Some(Seen(m, w.state.version)))
      && (n.phase.Returned? ==> n.phase == Returned(Seen(m, w.state.version), Target(m.steps)))
  {
    TransactionExact(w.migrators[e.id].steps, w.state, e.attempt);
  }

  lemma {:induction false} NoLockYet(ws: seq<World>, es: seq<Event>, i: nat, id: nat)
    requires IsRun(ws, es) && i < |ws| && forall n :: 0 <= n < i ==> !IsTxnOf(es[n], id)
    ensures id in ws[i].migrators ==> ws[i].migrators[id].first == None && ws[i].migrators[id].phase == Running
    decreases i
  {
    if i > 0 {
      NoLockYet(ws, es, i - 1, id);
      assert Follows(ws[i - 1], es[i - 1], ws[i - 1 + 1]);
    }
  }
}
