/**
 `LadderModelClient.complete` (`llm/client.py`) as a protocol: any number of calls walk their
 targets under one breaker and one clock that never goes back.  A call asks the breaker, flies
 to an admitted target, and resolves there; between its steps other calls take theirs.
 */
module CallProtocol {
  import opened Options
  import opened Failover

  /** How an admitted call comes back: an answer, a transport error, an unusable answer, or any
      other way out, cancellation included. */
  datatype Reply = Success | Transport | Unsatisfied | Otherwise

  datatype Place = Asking(at: nat) | Flying(at: nat) | Served(at: nat) | Unavailable | Raised

  datatype Call = Call(targets: seq<Target>, place: Place)

  datatype World = World(now: real, health: Health, calls: map<nat, Call>)

  datatype Event =
    | Tick(dt: real)
    | Begin(id: nat, targets: seq<Target>)
    | Ask(id: nat)
    | Resolve(id: nat, reply: Reply)

  predicate IsFlying(c: Call) { c.place.Flying? && c.place.at < |c.targets| }

  predicate FliesTo(c: Call, k: string) { IsFlying(c) && Key(c.targets[c.place.at]) == k }

  /** The calls out at the target with key `k`. */
  function InFlight(w: World, k: string): set<nat>
  {
    set id | id in w.calls && FliesTo(w.calls[id], k)
  }

  predicate Enabled(w: World, e: Event)
  {
    match e
    case Tick(dt) => dt >= 0.0
    case Begin(id, targets) => id !in w.calls
    case Ask(id) => id in w.calls && w.calls[id].place.Asking?
    case Resolve(id, reply) => id in w.calls && IsFlying(w.calls[id])
  }

  function Land(p: Policy, s: TargetState, reply: Reply, now: real): TargetState
  {
    match reply
    case Success => FRESH
    case Transport => Failed(p, s, now)
    case Unsatisfied => Abandoned(s)
    case Otherwise => Abandoned(s)
  }

  function PlaceAfter(at: nat, reply: Reply): Place
  {
    match reply
    case Success => Served(at)
    case Transport => Asking(at + 1)
    case Unsatisfied => Asking(at + 1)
    case Otherwise => Raised
  }

  function Move(w: World, id: nat, place: Place): map<nat, Call>
    requires id in w.calls
  {
    w.calls[id := w.calls[id].(place := place)]
  }

  function Apply(p: Policy, w: World, e: Event): World
    requires Enabled(w, e)
  {
    match e
    case Tick(dt) => w.(now := w.now + dt)
    case Begin(id, targets) => w.(calls := w.calls[id := Call(targets, Asking(0))])
    case Ask(id) =>
      var c := w.calls[id];
      var at := c.place.at;
      if at >= |c.targets| then w.(calls := Move(w, id, Unavailable))
      else
        var s := StateOf(w.health, Key(c.targets[at]));
        World(w.now, w.health[Key(c.targets[at]) := Asked(p, s, w.now)],
              Move(w, id, if Admits(p, s, w.now) then Flying(at) else Asking(at + 1)))
    case Resolve(id, reply) =>
      var c := w.calls[id];
      var k := Key(c.targets[c.place.at]);
      World(w.now, w.health[k := Land(p, StateOf(w.health, k), reply, w.now)],
            Move(w, id, PlaceAfter(c.place.at, reply)))
  }

  ghost predicate Step(p: Policy, w: World, v: World)
  {
    exists e :: Enabled(w, e) && v == Apply(p, w, e)
  }

  ghost predicate IsRun(p: Policy, ws: seq<World>)
  {
    && |ws| > 0 && ws[0].health == map[] && ws[0].calls == map[]
    && forall i :: 0 <= i < |ws| - 1 ==> Step(p, ws[i], ws[i + 1])
  }

  // ---------------------------------------------------------------------------------------
  // The invariant of every run
  // ---------------------------------------------------------------------------------------

  function StateAt(w: World, k: string): TargetState { StateOf(w.health, k) }

  /** A probe out means a call out. */
  ghost predicate Inv(p: Policy, w: World)
  {
    && HealthOk(p, w.health, w.now)
    && forall k :: StateAt(w, k).state == HalfOpen ==> InFlight(w, k) != {}
  }

  lemma StepKeepsHealth(p: Policy, w: World, v: World)
    requires p.openAfter >= 1 && HealthOk(p, w.health, w.now) && Step(p, w, v)
    ensures HealthOk(p, v.health, v.now)
  {
    var e :| Enabled(w, e) && v == Apply(p, w, e);
    forall k
      ensures TargetOk(p, StateOf(v.health, k), v.now)
    {
      OperationsKeep(p, StateOf(w.health, k), w.now, v.now);
    }
  }

  /** What one step does to the target with key `k`. */
  datatype Effect = Untouched | Admitted(id: nat) | Landed(id: nat, reply: Reply)

  ghost predicate Does(p: Policy, w: World, v: World, k: string, x: Effect)
  {
    match x
    case Untouched => StateAt(v, k) == StateAt(w, k) && InFlight(v, k) == InFlight(w, k)
    case Admitted(id) =>
      && Admits(p, StateAt(w, k), w.now) && v.now == w.now
      && StateAt(v, k) == Asked(p, StateAt(w, k), w.now)
      && id !in InFlight(w, k) && InFlight(v, k) == InFlight(w, k) + {id}
    case Landed(id, reply) =>
      && v.now == w.now && StateAt(v, k) == Land(p, StateAt(w, k), reply, w.now)
      && id in InFlight(w, k) && InFlight(v, k) == InFlight(w, k) - {id}
  }

  /** Moving call `id` changes what is in flight by at most that call. */
  lemma MoveFlights(w: World, v: World, id: nat, place: Place, k: string)
    requires id in w.calls && v.calls == Move(w, id, place)
    ensures forall j :: j != id ==> (j in InFlight(v, k) <==> j in InFlight(w, k))
    ensures id in InFlight(v, k) <==> FliesTo(w.calls[id].(place := place), k)
    ensures id in InFlight(w, k) <==> FliesTo(w.calls[id], k)
  {
  }

  lemma AskEffect(p: Policy, w: World, id: nat, k: string) returns (x: Effect)
    requires Enabled(w, Ask(id))
    ensures Does(p, w, Apply(p, w, Ask(id)), k, x)
  {
    var v := Apply(p, w, Ask(id));
    var c := w.calls[id];
    x := Untouched;
    MoveFlights(w, v, id, v.calls[id].place, k);
    if c.place.at < |c.targets| && Key(c.targets[c.place.at]) == k && Admits(p, StateAt(w, k), w.now) {
      x := Admitted(id);
    }
  }

  lemma ResolveEffect(p: Policy, w: World, id: nat, reply: Reply, k: string) returns (x: Effect)
    requires Enabled(w, Resolve(id, reply))
    ensures Does(p, w, Apply(p, w, Resolve(id, reply)), k, x)
  {
    var v := Apply(p, w, Resolve(id, reply));
    var c := w.calls[id];
    MoveFlights(w, v, id, v.calls[id].place, k);
    x := if Key(c.targets[c.place.at]) == k then Landed(id, reply) else Untouched;
  }

  lemma EffectOf(p: Policy, w: World, v: World, k: string) returns (x: Effect)
    requires Step(p, w, v)
    ensures Does(p, w, v, k, x)
  {
    var e :| Enabled(w, e) && v == Apply(p, w, e);
    match e {
      case Tick(_) => x := Untouched;
      case Begin(id, targets) =>
        x := Untouched;
        assert !FliesTo(v.calls[id], k);
        assert forall j :: j != id ==> (j in InFlight(v, k) <==> j in InFlight(w, k));
      case Ask(id) => x := AskEffect(p, w, id, k);
      case Resolve(id, reply) => x := ResolveEffect(p, w, id, reply, k);
    }
  }

  lemma StepKeeps(p: Policy, w: World, v: World)
    requires p.openAfter >= 1 && Inv(p, w) && Step(p, w, v)
    ensures Inv(p, v) && w.now <= v.now
  {
    StepKeepsHealth(p, w, v);
    forall k | StateAt(v, k).state == HalfOpen
      ensures InFlight(v, k) != {}
    {
      var x := EffectOf(p, w, v, k);
    }
  }

  lemma {:induction false} RunKeeps(p: Policy, ws: seq<World>, i: nat)
    requires p.openAfter >= 1 && IsRun(p, ws) && i < |ws|
    ensures Inv(p, ws[i])
    decreases i
  {
    if i > 0 {
      RunKeeps(p, ws, i - 1);
      assert Step(p, ws[i - 1], ws[i - 1 + 1]);
      StepKeeps(p, ws[i - 1], ws[i]);
    }
  }

  // ---------------------------------------------------------------------------------------
  // What every run guarantees
  // ---------------------------------------------------------------------------------------

  /** UP, below the threshold and never tripped coincide in every reachable state; with no call
      in flight nothing is HALF_OPEN, so every cooled target admits the next call. */
  lemma QuiescentIsResolved(p: Policy, ws: seq<World>, i: nat, k: string)
    requires p.openAfter >= 1 && IsRun(p, ws) && i < |ws|
    ensures
      var s := StateAt(ws[i], k);
      && (s.state == Up <==> s.failures < p.openAfter) && (s.state == Up <==> s.downSince.None?)
      && (InFlight(ws[i], k) == {} ==>
            s.state != HalfOpen && (Admits(p, s, ws[i].now) <==> s.state == Up || Cooled(p, s, ws[i].now)))
  {
    RunKeeps(p, ws, i);
    assert TargetOk(p, StateAt(ws[i], k), ws[i].now);
  }

  /** While a target stays HALF_OPEN no call is admitted to it and none comes back. */
  lemma {:induction false} ProbeIsAlone(p: Policy, ws: seq<World>, i: nat, j: nat, k: string)
    requires IsRun(p, ws) && i <= j < |ws|
    requires forall n :: i <= n <= j ==> StateAt(ws[n], k).state == HalfOpen
    ensures InFlight(ws[j], k) == InFlight(ws[i], k)
    decreases j
  {
    if i < j {
      ProbeIsAlone(p, ws, i, j - 1, k);
      assert Step(p, ws[j - 1], ws[j - 1 + 1]);
      var x := EffectOf(p, ws[j - 1], ws[j], k);
    }
  }

  /** Each HALF_OPEN episode, from the step that opens it to any state before its end, admits
      exactly one call, and only after the cooldown. */
  lemma OneProbePerEpisode(p: Policy, ws: seq<World>, i: nat, j: nat, k: string) returns (probe: nat)
    requires p.openAfter >= 1 && IsRun(p, ws) && i < j < |ws|
    requires StateAt(ws[i], k).state != HalfOpen
    requires forall n :: i < n <= j ==> StateAt(ws[n], k).state == HalfOpen
    ensures probe !in InFlight(ws[i], k) && InFlight(ws[j], k) == InFlight(ws[i], k) + {probe}
    ensures StateAt(ws[i], k).state == Down && Cooled(p, StateAt(ws[i], k), ws[i].now)
  {
    assert Step(p, ws[i], ws[i + 1]);
    var x := EffectOf(p, ws[i], ws[i + 1], k);
    assert StateAt(ws[i + 1], k).state == HalfOpen;
    probe := x.id;
    ProbeIsAlone(p, ws, i + 1, j, k);
  }

  /** An episode ends only because a call that was out comes back, and in UP only by an answer. */
  lemma EpisodeEnds(p: Policy, w: World, v: World, k: string) returns (id: nat, reply: Reply)
    requires Step(p, w, v) && StateAt(w, k).state == HalfOpen && StateAt(v, k).state != HalfOpen
    ensures id in InFlight(w, k) && id !in InFlight(v, k)
    ensures StateAt(v, k).state == Up <==> reply == Success
    ensures reply == Transport ==> StateAt(v, k).downSince == Some(w.now)
    ensures reply in {Unsatisfied, Otherwise} ==> StateAt(v, k).downSince == StateAt(w, k).downSince
  {
    var x := EffectOf(p, w, v, k);
    id, reply := x.id, x.reply;
  }

  /** However many late failures arrive, a target that stays DOWN keeps its cooldown start. */
  lemma {:induction false} LateFailuresKeepCooldown(p: Policy, ws: seq<World>, i: nat, j: nat, k: string)
    requires p.openAfter >= 1 && IsRun(p, ws) && i <= j < |ws|
    requires forall n :: i <= n <= j ==> StateAt(ws[n], k).state == Down
    ensures StateAt(ws[j], k).downSince == StateAt(ws[i], k).downSince && ws[i].now <= ws[j].now
    ensures Cooled(p, StateAt(ws[i], k), ws[i].now) ==> Admits(p, StateAt(ws[j], k), ws[j].now)
    decreases j
  {
    if i < j {
      LateFailuresKeepCooldown(p, ws, i, j - 1, k);
      RunKeeps(p, ws, j - 1);
      assert Step(p, ws[j - 1], ws[j - 1 + 1]);
      StepKeeps(p, ws[j - 1], ws[j]);
      var x := EffectOf(p, ws[j - 1], ws[j], k);
    }
  }

  /** An abandoned probe leaves its target probeable at once, and for as long as it stays DOWN. */
  lemma AbandonedIsProbeable(p: Policy, ws: seq<World>, i: nat, j: nat, id: nat, reply: Reply, k: string)
    requires p.openAfter >= 1 && IsRun(p, ws) && i < j < |ws|
    requires reply in {Unsatisfied, Otherwise} && Enabled(ws[i], Resolve(id, reply)) && id in InFlight(ws[i], k)
    requires ws[i + 1] == Apply(p, ws[i], Resolve(id, reply)) && StateAt(ws[i], k).state == HalfOpen
    requires forall n :: i < n <= j ==> StateAt(ws[n], k).state == Down
    ensures StateAt(ws[j], k).downSince == StateAt(ws[i], k).downSince
    ensures Admits(p, StateAt(ws[j], k), ws[j].now)
  {
    RunKeeps(p, ws, i);
    assert TargetOk(p, StateAt(ws[i], k), ws[i].now);
    LateFailuresKeepCooldown(p, ws, i + 1, j, k);
  }

  /** Runs grow by one step at a time. */
  lemma RunExtends(p: Policy, ws: seq<World>, e: Event) returns (next: seq<World>)
    requires IsRun(p, ws) && Enabled(ws[|ws| - 1], e)
    ensures IsRun(p, next) && |next| == |ws| + 1 && next[..|ws|] == ws && next[|ws|] == Apply(p, ws[|ws| - 1], e)
  {
    next := ws + [Apply(p, ws[|ws| - 1], e)];
    forall i | 0 <= i < |next| - 1
      ensures Step(p, next[i], next[i + 1])
    {
      if i < |ws| - 1 {
        assert Step(p, ws[i], ws[i + 1]);
      } else {
        assert next[i] == ws[i];
      }
    }
  }

  /** A call to `t` begins and asks. */
  lemma RunAsks(p: Policy, ws: seq<World>, id: nat, t: Target) returns (next: seq<World>)
    requires IsRun(p, ws) && id !in ws[|ws| - 1].calls
    ensures IsRun(p, next) && |next| > 0
    ensures
      var w, v := ws[|ws| - 1], next[|next| - 1];
      var s := StateAt(w, Key(t));
      && v.now == w.now && StateAt(v, Key(t)) == Asked(p, s, w.now)
      && v.calls == w.calls[id := Call([t], if Admits(p, s, w.now) then Flying(0) else Asking(1))]
  {
    var one := RunExtends(p, ws, Begin(id, [t]));
    next := RunExtends(p, one, Ask(id));
  }

  /** `more` goes on from `ws`; call `probe` stays out at `k` all along, and the last step admits
      another call there. */
  ghost predicate JoinedBy(p: Policy, ws: seq<World>, more: seq<World>, k: string, probe: nat, id: nat)
  {
    && GoesOn(p, ws, more, k, probe)
    && id !in InFlight(more[|more| - 2], k) && id in InFlight(more[|more| - 1], k)
  }

  ghost predicate GoesOn(p: Policy, ws: seq<World>, more: seq<World>, k: string, probe: nat)
  {
    && IsRun(p, more) && 0 < |ws| < |more| && more[..|ws|] == ws
    && forall n :: |ws| <= n < |more| ==> probe in InFlight(more[n], k)
  }

  ghost predicate CanBeJoined(p: Policy, ws: seq<World>, k: string, probe: nat)
  {
    exists more, id :: JoinedBy(p, ws, more, k, probe, id)
  }

  /** While `probe` is the only call out at a HALF_OPEN target, it stays so until it comes back. */
  lemma {:induction false} StaysAlone(p: Policy, ws: seq<World>, i: nat, j: nat, k: string, probe: nat)
    requires IsRun(p, ws) && i <= j < |ws|
    requires StateAt(ws[i], k).state == HalfOpen && InFlight(ws[i], k) == {probe}
    requires forall n :: i <= n <= j ==> probe in InFlight(ws[n], k)
    ensures StateAt(ws[j], k).state == HalfOpen && InFlight(ws[j], k) == {probe}
    decreases j
  {
    if i < j {
      StaysAlone(p, ws, i, j - 1, k, probe);
      assert Step(p, ws[j - 1], ws[j - 1 + 1]);
      StepStaysAlone(p, ws[j - 1], ws[j], k, probe);
    }
  }

  lemma StepStaysAlone(p: Policy, w: World, v: World, k: string, probe: nat)
    requires Step(p, w, v) && StateAt(w, k).state == HalfOpen && InFlight(w, k) == {probe}
    requires probe in InFlight(v, k)
    ensures StateAt(v, k).state == HalfOpen && InFlight(v, k) == {probe}
  {
    var x := EffectOf(p, w, v, k);
  }

  lemma AloneIsNotJoined(p: Policy, ws: seq<World>, more: seq<World>, k: string, probe: nat, id: nat)
    requires IsRun(p, ws) && StateAt(ws[|ws| - 1], k).state == HalfOpen && InFlight(ws[|ws| - 1], k) == {probe}
    ensures !JoinedBy(p, ws, more, k, probe, id)
  {
    if GoesOn(p, ws, more, k, probe) {
      var i := |ws| - 1;
      assert more[i] == more[..|ws|][i] == ws[i];
      StaysAlone(p, more, i, |more| - 1, k, probe);
      StaysAlone(p, more, i, |more| - 2, k, probe);
    }
  }

  lemma FreshId(calls: map<nat, Call>) returns (id: nat)
    ensures id !in calls
  {
    id := Above(calls.Keys);
  }

  lemma {:induction false} Above(s: set<nat>) returns (n: nat)
    ensures forall x :: x in s ==> x < n
    decreases s
  {
    n := 0;
    if s != {} {
      var x :| x in s;
      n := Above(s - {x});
      assert forall y :: y in s ==> y == x || y in s - {x};
      n := if n <= x then x + 1 else n;
    }
  }

  /** A call that was out already comes back with nothing to say: the target admits again. */
  lemma OtherComesBack(p: Policy, ws: seq<World>, k: string, probe: nat, other: nat) returns (one: seq<World>)
    requires p.openAfter >= 1 && IsRun(p, ws) && StateAt(ws[|ws| - 1], k).state == HalfOpen
    requires probe in InFlight(ws[|ws| - 1], k) && other in InFlight(ws[|ws| - 1], k) && probe != other
    ensures IsRun(p, one) && |one| == |ws| + 1 && one[..|ws|] == ws && probe in InFlight(one[|ws|], k)
    ensures StateAt(one[|ws|], k).state == Down && Admits(p, StateAt(one[|ws|], k), one[|ws|].now)
  {
    var w := ws[|ws| - 1];
    RunKeeps(p, ws, |ws| - 1);
    assert TargetOk(p, StateOf(w.health, k), w.now);
    one := RunExtends(p, ws, Resolve(other, Unsatisfied));
    var v := one[|ws|];
    MoveFlights(w, v, other, v.calls[other].place, k);
  }

  /** That ends the episode, and the next one probes beside the first. */
  lemma OtherLetsIn(p: Policy, ws: seq<World>, k: string, probe: nat, other: nat) returns (more: seq<World>, id: nat)
    requires p.openAfter >= 1 && IsRun(p, ws) && StateAt(ws[|ws| - 1], k).state == HalfOpen
    requires probe in InFlight(ws[|ws| - 1], k) && other in InFlight(ws[|ws| - 1], k) && probe != other
    ensures JoinedBy(p, ws, more, k, probe, id)
    ensures StateAt(more[|more| - 1], k).state == HalfOpen
  {
    var w := ws[|ws| - 1];
    var t := w.calls[other].targets[w.calls[other].place.at];
    var one := OtherComesBack(p, ws, k, probe, other);
    id := FreshId(one[|ws|].calls);
    var two := RunExtends(p, one, Begin(id, [t]));
    more := RunExtends(p, two, Ask(id));
  }

  /** A probe can be joined by a second call, before it comes back, exactly when another call is
      out at its target already. */
  lemma JoinedExactly(p: Policy, ws: seq<World>, k: string, probe: nat)
    requires p.openAfter >= 1 && IsRun(p, ws) && StateAt(ws[|ws| - 1], k).state == HalfOpen
    requires probe in InFlight(ws[|ws| - 1], k)
    ensures CanBeJoined(p, ws, k, probe) <==> InFlight(ws[|ws| - 1], k) != {probe}
  {
    if InFlight(ws[|ws| - 1], k) == {probe} {
      forall more, id
        ensures !JoinedBy(p, ws, more, k, probe, id)
      {
        AloneIsNotJoined(p, ws, more, k, probe, id);
      }
    } else {
      var other :| other in InFlight(ws[|ws| - 1], k) && other != probe;
      var more, id := OtherLetsIn(p, ws, k, probe, other);
    }
  }

  /** Hence a target nobody was out at when its probe was let through has one probe at a time. */
  lemma QuietEpisodeIsExclusive(p: Policy, ws: seq<World>, i: nat, k: string) returns (probe: nat)
    requires p.openAfter >= 1 && IsRun(p, ws) && i < |ws| - 1
    requires StateAt(ws[i], k).state != HalfOpen && InFlight(ws[i], k) == {}
    requires forall n :: i < n < |ws| ==> StateAt(ws[n], k).state == HalfOpen
    ensures InFlight(ws[|ws| - 1], k) == {probe} && !CanBeJoined(p, ws, k, probe)
  {
    probe := OneProbePerEpisode(p, ws, i, |ws| - 1, k);
    JoinedExactly(p, ws, k, probe);
  }

  /** Such a run exists for every target: two probes are out at once. */
  lemma TwoProbesOut(t: Target) returns (p: Policy, ws: seq<World>)
    ensures p.openAfter >= 1 && IsRun(p, ws)
    ensures
      var w := ws[|ws| - 1];
      StateAt(w, Key(t)).state == HalfOpen && InFlight(w, Key(t)) == {2, 3}
  {
    p := Policy(1, 0.0);
    ws := [World(0.0, map[], map[])];
    ws := RunAsks(p, ws, 0, t);
    ws := RunAsks(p, ws, 1, t);
    ws := RunExtends(p, ws, Resolve(0, Transport));
    ws := RunAsks(p, ws, 2, t);
    assert StateAt(ws[|ws| - 1], Key(t)).state == HalfOpen;
    ws := RunExtends(p, ws, Resolve(1, Unsatisfied));
    assert StateAt(ws[|ws| - 1], Key(t)).state == Down;
    ws := RunAsks(p, ws, 3, t);
  }

  // ---------------------------------------------------------------------------------------
  // Runs with their events
  // ---------------------------------------------------------------------------------------

  ghost predicate Follows(p: Policy, w: World, e: Event, v: World) { Enabled(w, e) && v == Apply(p, w, e) }

  /** `es` are the events of the run `ws`. */
  ghost predicate IsTrace(p: Policy, ws: seq<World>, es: seq<Event>)
  {
    && |ws| == |es| + 1 && ws[0].health == map[] && ws[0].calls == map[]
    && forall i :: 0 <= i < |es| ==> Follows(p, ws[i], es[i], ws[i + 1])
  }

  lemma {:induction false} RunHasTrace(p: Policy, ws: seq<World>) returns (es: seq<Event>)
    requires IsRun(p, ws)
    ensures IsTrace(p, ws, es)
    decreases |ws|
  {
    es := [];
    if |ws| > 1 {
      var n := |ws| - 1;
      forall i | 0 <= i < |ws[..n]| - 1
        ensures Step(p, ws[..n][i], ws[..n][i + 1])
      {
        assert Step(p, ws[i], ws[i + 1]);
      }
      var before := RunHasTrace(p, ws[..n]);
      assert Step(p, ws[n - 1], ws[n - 1 + 1]);
      var e :| Enabled(ws[n - 1], e) && ws[n] == Apply(p, ws[n - 1], e);
      es := before + [e];
      forall i | 0 <= i < |es|
        ensures Follows(p, ws[i], es[i], ws[i + 1])
      {
        if i < n - 1 {
          assert Follows(p, ws[..n][i], before[i], ws[..n][i + 1]);
        }
      }
    }
  }

  /** A call out at the target with key `k` comes back with `reply`. */
  predicate ComesBack(w: World, e: Event, k: string, reply: Reply)
  {
    e.Resolve? && e.reply == reply && e.id in w.calls && FliesTo(w.calls[e.id], k)
  }

  /** The transport errors at `k` among the first `i` events since the last answer from `k`. */
  function ErrorsSince(ws: seq<World>, es: seq<Event>, k: string, i: nat): nat
    requires i <= |es| <= |ws|
  {
    if i == 0 || ComesBack(ws[i - 1], es[i - 1], k, Success) then 0
    else ErrorsSince(ws, es, k, i - 1) + if ComesBack(ws[i - 1], es[i - 1], k, Transport) then 1 else 0
  }

  /** What an event does to a target: an answer restores it, a transport error counts, and nothing else
      moves it into or out of UP or changes its count. */
  lemma EventEffect(p: Policy, w: World, e: Event, v: World, k: string)
    requires Follows(p, w, e, v)
    ensures
      var s, t := StateAt(w, k), StateAt(v, k);
      && (ComesBack(w, e, k, Success) ==> t == FRESH)
      && (ComesBack(w, e, k, Transport) ==> t == Failed(p, s, w.now))
      && (!ComesBack(w, e, k, Success) && !ComesBack(w, e, k, Transport) ==>
            (s.state == Up <==> t.state == Up) && t.failures == s.failures)
  {
  }

  /** A target's count is the number of transport errors since its last answer for as long as it is UP,
      and it is UP exactly while they are fewer than the threshold. */
  lemma {:induction false} UpCountsErrors(p: Policy, ws: seq<World>, es: seq<Event>, k: string, i: nat)
    requires p.openAfter >= 1 && IsTrace(p, ws, es) && i <= |es|
    ensures
      var s, errors := StateAt(ws[i], k), ErrorsSince(ws, es, k, i);
      && (s.state == Up <==> errors < p.openAfter)
      && (s.state == Up ==> s.failures == errors)
    decreases i
  {
    if i > 0 {
      UpCountsErrors(p, ws, es, k, i - 1);
      assert Follows(p, ws[i - 1], es[i - 1], ws[i - 1 + 1]);
      EventEffect(p, ws[i - 1], es[i - 1], ws[i], k);
    }
  }

  /** A target leaves UP exactly at the transport error that makes `open_after_failures` of them since
      its last answer, and its cooldown starts there and then. */
  lemma TripsExactly(p: Policy, ws: seq<World>, es: seq<Event>, k: string, i: nat)
    requires p.openAfter >= 1 && IsTrace(p, ws, es) && i < |es|
    ensures StateAt(ws[i], k).state == Up && StateAt(ws[i + 1], k).state != Up <==>
            ComesBack(ws[i], es[i], k, Transport) && ErrorsSince(ws, es, k, i + 1) == p.openAfter
    ensures StateAt(ws[i], k).state == Up && StateAt(ws[i + 1], k).state != Up ==>
              StateAt(ws[i + 1], k).state == Down && StateAt(ws[i + 1], k).downSince == Some(ws[i].now)
  {
    UpCountsErrors(p, ws, es, k, i);
    UpCountsErrors(p, ws, es, k, i + 1);
    assert Follows(p, ws[i], es[i], ws[i + 1]);
    EventEffect(p, ws[i], es[i], ws[i + 1], k);
  }

  /** A target is back in UP exactly by an answer. */
  lemma RecoversExactly(p: Policy, ws: seq<World>, es: seq<Event>, k: string, i: nat)
    requires p.openAfter >= 1 && IsTrace(p, ws, es) && i < |es| && StateAt(ws[i], k).state != Up
    ensures StateAt(ws[i + 1], k).state == Up <==> ComesBack(ws[i], es[i], k, Success)
  {
    UpCountsErrors(p, ws, es, k, i);
    UpCountsErrors(p, ws, es, k, i + 1);
  }

  // ---------------------------------------------------------------------------------------
  // The way of one call
  // ---------------------------------------------------------------------------------------

  /** Event `n` refused call `id` its target number `j`: the target was tripped and its cooldown not
      over, or its probe was out. */
  ghost predicate RefusedAt(p: Policy, ws: seq<World>, es: seq<Event>, n: nat, id: nat, j: nat)
  {
    && n < |es| < |ws| && es[n] == Ask(id) && id in ws[n].calls
    && ws[n].calls[id].place == Asking(j) && j < |ws[n].calls[id].targets|
    && var s := StateAt(ws[n], Key(ws[n].calls[id].targets[j]));
       s.state == HalfOpen || (s.state == Down && (s.downSince.Some? ==> ws[n].now < s.downSince.value + p.cooldown))
  }

  /** Event `n` brought call `id` back from its target number `j` with `reply`. */
  ghost predicate RepliedAt(ws: seq<World>, es: seq<Event>, n: nat, id: nat, j: nat, reply: Reply)
  {
    && n < |es| < |ws| && es[n] == Resolve(id, reply) && id in ws[n].calls && ws[n].calls[id].place == Flying(j)
  }

  /** Target number `j` was passed over: refused, or answered with one of the two failover errors. */
  ghost predicate PassedOver(p: Policy, ws: seq<World>, es: seq<Event>, i: nat, id: nat, j: nat)
  {
    exists n: nat ::
      n < i && (RefusedAt(p, ws, es, n, id, j) || RepliedAt(ws, es, n, id, j, Transport)
                || RepliedAt(ws, es, n, id, j, Unsatisfied))
  }

  /** How far down its list a call is. */
  function Passed(c: Call): nat
  {
    match c.place
    case Asking(at) => at
    case Flying(at) => at
    case Served(at) => at
    case Unavailable => |c.targets|
    case Raised => 0
  }

  /** Why a call is where it is. */
  ghost predicate Earned(p: Policy, ws: seq<World>, es: seq<Event>, i: nat, id: nat)
    requires i < |ws|
  {
    id in ws[i].calls ==>
      var c := ws[i].calls[id];
      && (c.place.Asking? || c.place.Unavailable? ==> Passed(c) <= |c.targets|)
      && (c.place.Flying? || c.place.Served? ==> Passed(c) < |c.targets|)
      && (forall j :: 0 <= j < Passed(c) ==> PassedOver(p, ws, es, i, id, j))
      && (c.place.Served? ==> exists n: nat :: n < i && RepliedAt(ws, es, n, id, c.place.at, Success))
      && (c.place.Raised? ==> exists n: nat, j: nat :: n < i && RepliedAt(ws, es, n, id, j, Otherwise))
  }

  lemma PassedStays(p: Policy, ws: seq<World>, es: seq<Event>, i: nat, id: nat, j: nat)
    requires PassedOver(p, ws, es, i, id, j)
    ensures PassedOver(p, ws, es, i + 1, id, j)
  {
    var n: nat :| n < i && (RefusedAt(p, ws, es, n, id, j) || RepliedAt(ws, es, n, id, j, Transport)
                            || RepliedAt(ws, es, n, id, j, Unsatisfied));
    assert n < i + 1;
  }

  /** An event of another call leaves a call where it was. */
  lemma OthersLeave(p: Policy, w: World, e: Event, v: World, id: nat)
    requires Follows(p, w, e, v) && id in v.calls && !((e.Ask? || e.Resolve?) && e.id == id)
    ensures id in w.calls ==> v.calls[id] == w.calls[id]
    ensures id !in w.calls ==> v.calls[id].place == Asking(0)
  {
  }

  lemma AskEarns(p: Policy, ws: seq<World>, es: seq<Event>, i: nat, id: nat)
    requires i < |es| < |ws| && Follows(p, ws[i], es[i], ws[i + 1]) && Earned(p, ws, es, i, id) && es[i] == Ask(id)
    ensures Earned(p, ws, es, i + 1, id)
  {
    var c, d, next := ws[i].calls[id], ws[i + 1].calls[id], i + 1;
    forall j | 0 <= j < Passed(d)
      ensures PassedOver(p, ws, es, next, id, j)
    {
      if j < Passed(c) {
        PassedStays(p, ws, es, i, id, j);
      } else {
        assert RefusedAt(p, ws, es, i, id, j);
      }
    }
  }

  lemma ReplyEarns(p: Policy, ws: seq<World>, es: seq<Event>, i: nat, id: nat, reply: Reply)
    requires i < |es| < |ws| && Follows(p, ws[i], es[i], ws[i + 1]) && Earned(p, ws, es, i, id)
    requires es[i] == Resolve(id, reply)
    ensures Earned(p, ws, es, i + 1, id)
  {
    var c, d, next := ws[i].calls[id], ws[i + 1].calls[id], i + 1;
    assert RepliedAt(ws, es, i, id, c.place.at, reply);
    forall j | 0 <= j < Passed(d)
      ensures PassedOver(p, ws, es, next, id, j)
    {
      if j < Passed(c) {
        PassedStays(p, ws, es, i, id, j);
      }
    }
  }

  lemma OthersEarn(p: Policy, ws: seq<World>, es: seq<Event>, i: nat, id: nat)
    requires i < |es| < |ws| && Follows(p, ws[i], es[i], ws[i + 1]) && Earned(p, ws, es, i, id)
    requires !((es[i].Ask? || es[i].Resolve?) && es[i].id == id)
    ensures Earned(p, ws, es, i + 1, id)
  {
    if id in ws[i + 1].calls {
      OthersLeave(p, ws[i], es[i], ws[i + 1], id);
      var d, next := ws[i + 1].calls[id], i + 1;
      forall j | 0 <= j < Passed(d)
        ensures PassedOver(p, ws, es, next, id, j)
      {
        PassedStays(p, ws, es, i, id, j);
      }
    }
  }

  /** However calls interleave: a call asks its targets in order, moves on from one only when refused or
      failed over there, is served only by the answer of a target, gives up only after all of them,
      and raises only what came back. */
  lemma {:induction false} EveryPlaceIsEarned(p: Policy, ws: seq<World>, es: seq<Event>, i: nat, id: nat)
    requires IsTrace(p, ws, es) && i <= |es|
    ensures Earned(p, ws, es, i, id)
    decreases i
  {
    if i > 0 {
      EveryPlaceIsEarned(p, ws, es, i - 1, id);
      var e := es[i - 1];
      assert Follows(p, ws[i - 1], e, ws[i - 1 + 1]);
      if e.Ask? && e.id == id {
        AskEarns(p, ws, es, i - 1, id);
      } else if e.Resolve? && e.id == id {
        ReplyEarns(p, ws, es, i - 1, id, e.reply);
      } else {
        OthersEarn(p, ws, es, i - 1, id);
      }
    }
  }

  /** The steps a call can still take. */
  function Left(c: Call): nat
  {
    match c.place
    case Asking(at) => if at < |c.targets| then 2 * (|c.targets| - at) + 1 else 1
    case Flying(at) => if at < |c.targets| then 2 * (|c.targets| - at) else 0
    case _ => 0
  }

  /** Nobody prolongs anybody's call: its own steps use up what it has left, others leave it. */
  lemma EveryCallEnds(p: Policy, w: World, e: Event, id: nat)
    requires Enabled(w, e) && id in w.calls
    ensures
      var v := Apply(p, w, e);
      && id in v.calls
      && if (e.Ask? || e.Resolve?) && e.id == id then Left(v.calls[id]) < Left(w.calls[id])
         else v.calls[id] == w.calls[id]
  {
    if e.Resolve? && e.id == id {
      assert IsFlying(w.calls[id]);
    }
  }

  // ---------------------------------------------------------------------------------------
  // One call on its own
  // ---------------------------------------------------------------------------------------

  /** A failover: the target was skipped, or came back with one of the two failover errors. */
  predicate MovesOn(admitted: bool, reply: Reply) { !admitted || reply in {Transport, Unsatisfied} }

  /** The ladder loop with nobody else about; `times` are the clock readings and `replies` what
      each target would come back with. */
  method Complete(health: BackendHealth, targets: seq<Target>, times: seq<real>, replies: seq<Reply>)
    returns (place: Place, admitted: seq<bool>)
    requires health.policy.openAfter >= 1 && |times| == |targets| && |replies| == |targets|
    modifies health
    ensures place in {Unavailable, Raised} || place.Served?
    ensures place.Served? ==>
              place.at + 1 == |admitted| <= |targets| && admitted[place.at] && replies[place.at] == Success
    ensures place == Raised ==>
              && 0 < |admitted| <= |targets|
              && admitted[|admitted| - 1] && replies[|admitted| - 1] == Otherwise
    ensures place == Unavailable <==>
            |admitted| == |targets| && forall j :: 0 <= j < |targets| ==> MovesOn(admitted[j], replies[j])
    ensures forall j :: 0 <= j < |admitted| - 1 ==> j < |targets| && MovesOn(admitted[j], replies[j])
    ensures forall k :: StateOf(health.targets, k).state == HalfOpen ==>
        StateOf(old(health.targets), k).state == HalfOpen
  {
    admitted := [];
    for i := 0 to |targets|
      invariant |admitted| == i
      invariant forall j :: 0 <= j < i ==> MovesOn(admitted[j], replies[j])
      invariant forall k :: StateOf(health.targets, k).state == HalfOpen ==>
          StateOf(old(health.targets), k).state == HalfOpen
    {
      var ok := health.MayCall(targets[i], times[i]);
      admitted := admitted + [ok];
      if !ok {
        continue;
      }
      match replies[i] {
        case Success =>
          health.RecordSuccess(targets[i]);
          return Served(i), admitted;
        case Transport =>
          health.RecordFailure(targets[i], times[i]);
        case Unsatisfied =>
          health.AbandonProbe(targets[i], times[i]);
        case Otherwise =>
          health.AbandonProbe(targets[i], times[i]);
          return Raised, admitted;
      }
    }
    place := Unavailable;
  }
}
