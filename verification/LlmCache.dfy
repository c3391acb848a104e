/**
 The content-addressed answer cache (`llm/cache.py`) in front of the failover ladder, and the
 route validator it rests on (`llm/client.py`).
 */
module LlmCache {
  import opened Options
  import opened CacheKeys

  // ---------------------------------------------------------------------------------------
  // Routes
  // ---------------------------------------------------------------------------------------

  /** One entry of a tier's list; `urls` are its replicas, empty for an ordinary target. */
  datatype RouteTarget = RouteTarget(backend: string, model: string, effort: Option<Effort>, urls: seq<string>,
      url: Option<string>)

  datatype Route = Route(tier: Tier, targets: seq<RouteTarget>)

  predicate SameName(s: RouteTarget, t: RouteTarget) { s.backend == t.backend && s.model == t.model }

  /** A backend and model name one effort. */
  ghost predicate OneEffort(targets: seq<RouteTarget>)
  {
    forall i, j :: 0 <= i < |targets| && 0 <= j < |targets| && SameName(targets[i], targets[j]) ==>
      targets[i].effort == targets[j].effort
  }

  method ValidateRoute(targets: seq<RouteTarget>) returns (ok: bool)
    ensures ok <==> OneEffort(targets)
  {
    var seen: map<(string, string), Option<Effort>> := map[];
    for n := 0 to |targets|
      invariant forall i :: 0 <= i < n ==>
                  (targets[i].backend, targets[i].model) in seen
                  && seen[(targets[i].backend, targets[i].model)] == targets[i].effort
      invariant forall k :: k in seen ==>
                  exists i :: 0 <= i < n && (targets[i].backend, targets[i].model) == k && targets[i].effort == seen[k]
    {
      var t := targets[n];
      var name := (t.backend, t.model);
      if name in seen && seen[name] != t.effort {
        return false;
      }
      ghost var before := seen;
      seen := seen[name := t.effort];
      forall k | k in seen
        ensures exists i ::
                  0 <= i < n + 1 && (targets[i].backend, targets[i].model) == k && targets[i].effort == seen[k]
      {
        if k != name {
          var i :| 0 <= i < n && (targets[i].backend, targets[i].model) == k && targets[i].effort == before[k];
        }
      }
    }
    ok := true;
  }

  /** The first target with this backend and model. */
  function TargetFor(targets: seq<RouteTarget>, backend: string, model: string): (r: Option<RouteTarget>)
    ensures r.Some? ==> r.value in targets && r.value.backend == backend && r.value.model == model
    ensures r.None? ==> forall t :: t in targets ==> !(t.backend == backend && t.model == model)
  {
    if targets == [] then None
    else if targets[0].backend == backend && targets[0].model == model then Some(targets[0])
    else TargetFor(targets[1..], backend, model)
  }

  /** The effort recovered from a backend and model name is that of target `t`. */
  ghost predicate Recovers(targets: seq<RouteTarget>, t: RouteTarget)
  {
    var r := TargetFor(targets, t.backend, t.model);
    r.Some? && r.value.effort == t.effort
  }

  /** The answering target's effort is recovered, whichever target answered, exactly on the
      routes the validator accepts. */
  lemma EffortRecoveredExactly(targets: seq<RouteTarget>)
    ensures (forall t :: t in targets ==> Recovers(targets, t)) <==> OneEffort(targets)
  {
    if forall t :: t in targets ==> Recovers(targets, t) {
      forall i, j | 0 <= i < |targets| && 0 <= j < |targets| && SameName(targets[i], targets[j])
        ensures targets[i].effort == targets[j].effort
      {
        assert Recovers(targets, targets[i]) && Recovers(targets, targets[j]);
      }
    }
    if OneEffort(targets) {
      forall t | t in targets
        ensures Recovers(targets, t)
      {
        var r := TargetFor(targets, t.backend, t.model);
        assert r.Some?;
        assert SameName(r.value, t);
      }
    }
  }

  /** What one logical target expands to for a call: its replicas, the affine one first. */
  function Replicas(t: RouteTarget, start: nat): seq<RouteTarget>
  {
    if t.urls == [] then [t]
    else
      var s := if start < |t.urls| then start else 0;
      var ordered := t.urls[s..] + t.urls[..s];
      seq(|ordered|, i requires 0 <= i < |ordered| => t.(url := Some(ordered[i]), urls := []))
  }

  /** Every replica is dialled once, the affine one first, all under the target's own identity. */
  lemma ReplicasKeepIdentity(t: RouteTarget, start: nat)
    ensures forall r :: r in Replicas(t, start) ==> SameName(r, t) && r.effort == t.effort
    ensures t.urls != [] && start < |t.urls| ==> Replicas(t, start)[0].url == Some(t.urls[start])
    ensures t.urls == [] ==> Replicas(t, start) == [t]
    ensures t.urls != [] ==> |Replicas(t, start)| == |t.urls|
    ensures t.urls != [] ==> forall u :: u in t.urls ==> exists r :: r in Replicas(t, start) && r.url == Some(u)
  {
    if t.urls != [] {
      var s := if start < |t.urls| then start else 0;
      var ordered := t.urls[s..] + t.urls[..s];
      forall u | u in t.urls
        ensures exists r :: r in Replicas(t, start) && r.url == Some(u)
      {
        assert t.urls == t.urls[..s] + t.urls[s..];
        assert u in ordered;
        var i :| 0 <= i < |ordered| && ordered[i] == u;
        assert Replicas(t, start)[i] in Replicas(t, start);
      }
    }
  }

  /** The replicas are dialled in declared order from the affine one on, round to the one before it. */
  lemma ReplicaAt(t: RouteTarget, start: nat, i: nat)
    requires i < |t.urls|
    ensures
      var first := if start < |t.urls| then start else 0;
      && |Replicas(t, start)| == |t.urls|
      && Replicas(t, start)[i] == t.(url := Some(t.urls[(first + i) % |t.urls|]), urls := [])
  {
    var n, first := |t.urls|, if start < |t.urls| then start else 0;
    Wraps(first, i, n);
    var ordered := t.urls[first..] + t.urls[..first];
    if first + i < n {
      assert ordered[i] == t.urls[first..][i];
    } else {
      assert ordered[i] == t.urls[..first][first + i - n];
    }
  }

  lemma Wraps(a: nat, b: nat, n: nat)
    requires a < n && b < n
    ensures (a + b) % n == if a + b < n then a + b else a + b - n
  {
    if a + b < n {
      assert (a + b) / n == 0;
    } else {
      assert (a + b) / n == 1;
    }
  }

  // ---------------------------------------------------------------------------------------
  // Calls and answers
  // ---------------------------------------------------------------------------------------

  /** What a client and a caller bring to the key, apart from the target. */
  datatype Ask = Ask(
    role: string, policy: Option<ContextPolicy>, rejected: string, prompt: string, template: nat, schema: string,
    adapters: seq<string>, harness: string)

  function KeyParts(q: Ask, tier: Tier, t: RouteTarget): Parts
  {
    Parts(q.role, tier, t.backend, t.model, t.effort, q.policy, q.rejected, q.prompt, q.template, q.schema,
          q.adapters, q.harness)
  }

  /** Two calls share a key exactly when they ask the same of the same identity. */
  lemma AskKeyIsIdentity(q: Ask, tier: Tier, t: RouteTarget, r: Ask, other: Tier, u: RouteTarget)
    ensures CacheKey(KeyParts(q, tier, t)) == CacheKey(KeyParts(r, other, u)) <==>
            && q.role == r.role && q.policy == r.policy && q.rejected == r.rejected && q.prompt == r.prompt
            && q.template == r.template && q.schema == r.schema && AdapterText(q.adapters) == AdapterText(r.adapters)
            && tier == other && t.backend == u.backend && t.model == u.model && t.effort == u.effort
  {
    KeyIsIdentity(KeyParts(q, tier, t), KeyParts(r, other, u));
    var a, b := Keyed(KeyParts(q, tier, t)), Keyed(KeyParts(r, other, u));
    assert a == b ==> a.adapters[0] == b.adapters[0];
  }

  datatype Usage = Usage(tier: Option<Tier>, backend: string, model: string)

  datatype Response = Response(usage: Usage, value: string)

  /** Usage as the ladder client stamps it; `reported` is what the adapter left in `model_id`. */
  function Stamp(reported: string, tier: Tier, t: RouteTarget): Usage
  {
    Usage(Some(tier), t.backend, if reported == "" then t.model else reported)
  }

  /** The identity an answer is stored under: that of the target the usage names. */
  function StoredParts(route: Route, parts: Parts, usage: Usage): Parts
  {
    var answered := TargetFor(route.targets, usage.backend, usage.model);
    parts.(
      tier := if usage.tier.Some? then usage.tier.value else parts.tier,
      backend := if usage.backend != "" then usage.backend else parts.backend,
      model := if usage.model != "" then usage.model else parts.model,
      effort := if answered.None? then parts.effort else answered.value.effort)
  }

  datatype Record = Record(key: string, parts: Parts, response: string, usage: Usage, hits: nat)

  datatype Row = Row(record: Record, lastHit: int)

  type Rows = map<string, Row>

  /** What a stored answer says, whatever happens to its clock and hit count. */
  function Saying(r: Row): Record { r.record.(hits := 0) }

  function Hit(r: Row, at: int): Row { Row(r.record.(hits := r.record.hits + 1), at) }

  function Touched(rows: Rows, key: string, at: int): Rows
  {
    if key in rows then rows[key := Hit(rows[key], at)] else rows
  }

  function Stored(rows: Rows, row: Row): Rows
  {
    var key := row.record.key;
    if key in rows then rows[key := Hit(rows[key], row.lastHit)] else rows[key := row]
  }

  function Evicted(rows: Rows, cutoff: int): Rows
  {
    map k | k in rows && rows[k].lastHit >= cutoff :: rows[k]
  }

  function NewRow(redact: string -> string, route: Route, parts: Parts, r: Response, now: int): Row
  {
    var stored := StoredParts(route, parts, r.usage);
    Row(Record(CacheKey(stored), stored, redact(r.value), r.usage, 0), now)
  }

  /** Nothing happened at `k`. */
  ghost predicate SameAt(rows: Rows, was: Rows, k: string)
  {
    (k in rows <==> k in was) && (k in rows ==> rows[k] == was[k])
  }

  class MemoryLlmCacheStore {
    var rows: Rows

    constructor ()
      ensures rows == map[]
    {
      rows := map[];
    }

    method Touch(key: string, at: int) returns (row: Option<Row>)
      modifies this
      ensures rows == Touched(old(rows), key, at)
      ensures row == if key in old(rows) then Some(rows[key]) else None
      ensures row.Some? ==>
                && Saying(row.value) == Saying(old(rows)[key])
                && row.value.record.hits == old(rows)[key].record.hits + 1 && row.value.lastHit == at
      ensures forall k :: k != key ==> SameAt(rows, old(rows), k)
    {
      if key !in rows {
        return None;
      }
      rows := rows[key := Row(rows[key].record.(hits := rows[key].record.hits + 1), at)];
      row := Some(rows[key]);
    }

    /** Inserts, or counts the re-derivation as a hit: a stored answer is never overwritten. */
    method Put(row: Row)
      modifies this
      ensures rows == Stored(old(rows), row)
      ensures forall k :: k in old(rows) ==> k in rows && Saying(rows[k]) == Saying(old(rows)[k])
      ensures forall k :: k != row.record.key ==> SameAt(rows, old(rows), k)
      ensures
        var key := row.record.key;
        && key in rows && rows[key].lastHit == row.lastHit
        && (if key in old(rows) then rows[key].record.hits == old(rows)[key].record.hits + 1 else rows[key] == row)
    {
      var key := row.record.key;
      if key in rows {
        rows := rows[key := Row(rows[key].record.(hits := rows[key].record.hits + 1), row.lastHit)];
        return;
      }
      rows := rows[key := row];
    }

    method EvictOlderThan(cutoff: int) returns (count: nat)
      modifies this
      ensures rows == Evicted(old(rows), cutoff)
      ensures forall k :: k in rows <==> k in old(rows) && old(rows)[k].lastHit >= cutoff
      ensures forall k :: k in rows ==> rows[k] == old(rows)[k]
      ensures count == |old(rows)| - |rows|
    {
      var stale := set k | k in rows && rows[k].lastHit < cutoff;
      count := |stale|;
      var todo := stale;
      while todo != {}
        invariant todo <= stale
        invariant rows.Keys == old(rows).Keys - (stale - todo)
        invariant forall k :: k in rows ==> rows[k] == old(rows)[k]
        decreases todo
      {
        var k :| k in todo;
        rows := rows - {k};
        todo := todo - {k};
      }
      assert rows.Keys == old(rows).Keys - stale;
      assert rows == Evicted(old(rows), cutoff);
      CountKeys(old(rows), rows, stale);
    }
  }

  lemma CountKeys(before: Rows, after: Rows, gone: set<string>)
    requires gone <= before.Keys && after.Keys == before.Keys - gone
    ensures |gone| == |before| - |after|
  {
  }

  // ---------------------------------------------------------------------------------------
  // One call through the cache
  // ---------------------------------------------------------------------------------------

  datatype Mode = ReadWrite | ReadOnly | Off

  /** How a call ends: replayed, replayed but no longer valid, answered by the ladder, refused in
      replay mode, or failed below. */
  datatype Ending = Replayed(row: Row) | InvalidRow | Answered(response: Response) | CacheMiss | Failed

  /** `below` is what the ladder would return, `None` if it would raise; `valid` is the response model's
      verdict on a stored text, which a hit is put to again. */
  method Complete(store: MemoryLlmCacheStore, mode: Mode, redact: string -> string, valid: string -> bool,
                  q: Ask, route: Route, below: Option<Response>, at: int, now: int)
    returns (end: Ending, ghost calledBelow: bool)
    requires |route.targets| > 0
    modifies store
    ensures
      var rows, key := old(store.rows), CacheKey(KeyParts(q, route.tier, route.targets[0]));
      && (mode == Off ==> calledBelow && store.rows == rows)
      && (mode != Off && key in rows ==>
            !calledBelow && store.rows == Touched(rows, key, at)
            && end == if valid(rows[key].record.response) then Replayed(store.rows[key]) else InvalidRow)
      && (mode == ReadOnly && key !in rows ==> !calledBelow && end == CacheMiss && store.rows == rows)
      && (mode == ReadWrite && key !in rows ==>
            calledBelow
            && store.rows == if below.None? then rows
                             else Stored(rows, NewRow(redact, route, PrimaryParts(q, route), below.value, now)))
      && (calledBelow ==> end == if below.None? then Failed else Answered(below.value))
  {
    calledBelow := false;
    if mode == Off {
      calledBelow := true;
      return if below.None? then Failed else Answered(below.value), calledBelow;
    }
    var parts := KeyParts(q, route.tier, route.targets[0]);
    var row := store.Touch(CacheKey(parts), at);
    if row.Some? {
      return if valid(row.value.record.response) then Replayed(row.value) else InvalidRow, calledBelow;
    }
    if mode == ReadOnly {
      return CacheMiss, calledBelow;
    }
    calledBelow := true;
    if below.None? {
      return Failed, calledBelow;
    }
    store.Put(NewRow(redact, route, parts, below.value, now));
    end := Answered(below.value);
  }

  // ---------------------------------------------------------------------------------------
  // Whole runs
  // ---------------------------------------------------------------------------------------

  /** An answer somebody really gave: the identity of the target that gave it, and its words. */
  datatype Fact = Fact(parts: Parts, value: string)

  datatype Pending = Pending(q: Ask, route: Route)

  /** Calls interleave: between a call's lookup and its store others take their steps. */
  datatype Cache = Cache(rows: Rows, pending: map<nat, Pending>, history: set<Fact>)

  datatype Event =
    | Lookup(id: nat, mode: Mode, q: Ask, route: Route, at: int)
    | Answer(id: nat, target: RouteTarget, reported: string, value: string, now: int)
    | Fail(id: nat)
    | Evict(cutoff: int)

  function PrimaryParts(q: Ask, route: Route): Parts
    requires |route.targets| > 0
  {
    KeyParts(q, route.tier, route.targets[0])
  }

  ghost predicate RouteOk(route: Route)
  {
    && |route.targets| > 0 && OneEffort(route.targets)
    && forall t :: t in route.targets ==> t.backend != "" && t.model != ""
  }

  /** `target` is a replica of a target of the route, and reports its configured model id or none. */
  ghost predicate Answers(route: Route, target: RouteTarget, reported: string)
  {
    && reported in {"", target.model}
    && exists t :: t in route.targets && SameName(t, target) && t.effort == target.effort
  }

  ghost predicate Enabled(c: Cache, e: Event)
  {
    match e
    case Lookup(id, mode, q, route, at) => id !in c.pending && mode != Off && RouteOk(route)
    case Answer(id, target, reported, value, now) =>
      id in c.pending && RouteOk(c.pending[id].route) && Answers(c.pending[id].route, target, reported)
    case Fail(id) => id in c.pending
    case Evict(cutoff) => true
  }

  function Apply(redact: string -> string, c: Cache, e: Event): Cache
    requires Enabled(c, e)
  {
    match e
    case Lookup(id, mode, q, route, at) =>
      var key := CacheKey(PrimaryParts(q, route));
      if key in c.rows then c.(rows := Touched(c.rows, key, at))
      else if mode == ReadOnly then c
      else c.(pending := c.pending[id := Pending(q, route)])
    case Answer(id, target, reported, value, now) =>
      var p := c.pending[id];
      var response := Response(Stamp(reported, p.route.tier, target), value);
      Cache(Stored(c.rows, NewRow(redact, p.route, PrimaryParts(p.q, p.route), response, now)),
            c.pending - {id},
            c.history + {Fact(KeyParts(p.q, p.route.tier, target), value)})
    case Fail(id) => c.(pending := c.pending - {id})
    case Evict(cutoff) => c.(rows := Evicted(c.rows, cutoff))
  }

  /** The words under `key` are those of somebody with exactly that identity. */
  ghost predicate Honest(redact: string -> string, history: set<Fact>, key: string, row: Row, f: Fact)
  {
    && f in history && key == row.record.key == CacheKey(f.parts)
    && row.record.parts == f.parts && row.record.response == redact(f.value)
    && row.record.usage == Usage(Some(f.parts.tier), f.parts.backend, f.parts.model)
  }

  ghost predicate Inv(redact: string -> string, c: Cache)
  {
    && (forall id :: id in c.pending ==> RouteOk(c.pending[id].route))
    && (forall k :: k in c.rows ==> exists f :: Honest(redact, c.history, k, c.rows[k], f))
  }

  /** Failover included, an answer is stored under the identity of the target that gave it. */
  lemma StoredUnderAnswerer(q: Ask, route: Route, target: RouteTarget, reported: string)
    requires RouteOk(route) && Answers(route, target, reported)
    ensures StoredParts(route, PrimaryParts(q, route), Stamp(reported, route.tier, target)) ==
        KeyParts(q, route.tier, target)
  {
    var t :| t in route.targets && SameName(t, target) && t.effort == target.effort;
    EffortRecoveredExactly(route.targets);
    assert Recovers(route.targets, t);
  }

  /** It is so exactly when the adapter reports the configured model id, or none: an answer that names
      another model is stored under that model. */
  lemma StoredUnderReportExactly(q: Ask, route: Route, t: RouteTarget, reported: string)
    requires RouteOk(route) && t in route.targets
    ensures
      var stored := StoredParts(route, PrimaryParts(q, route), Stamp(reported, route.tier, t));
      && (stored == KeyParts(q, route.tier, t) <==> reported == "" || reported == t.model)
      && stored.model == if reported == "" then t.model else reported
  {
    if reported == "" || reported == t.model {
      assert SameName(t, t);
      StoredUnderAnswerer(q, route, t, reported);
    }
  }

  /** That is so, whichever target answers, exactly on the routes the validator accepts. */
  lemma StoredUnderAnswererExactly(q: Ask, route: Route)
    requires |route.targets| > 0 && forall t :: t in route.targets ==> t.backend != "" && t.model != ""
    ensures OneEffort(route.targets) <==>
            forall t :: t in route.targets ==>
              StoredParts(route, PrimaryParts(q, route), Stamp("", route.tier, t)) == KeyParts(q, route.tier, t)
  {
    EffortRecoveredExactly(route.targets);
    forall t | t in route.targets
      ensures Recovers(route.targets, t) <==>
              StoredParts(route, PrimaryParts(q, route), Stamp("", route.tier, t)) == KeyParts(q, route.tier, t)
    {
      assert TargetFor(route.targets, t.backend, t.model).Some?;
    }
  }

  /** The same model at high, then at low effort: the standby's answer would be stored where the
      next call finds the primary's. */
  lemma DegradedRoutePoisons(q: Ask)
    ensures
      var high, low := RouteTarget("local", "m", Some(High), [], None), RouteTarget("local", "m", Some(Low), [], None);
      var route := Route(Heavy, [high, low]);
      && !OneEffort(route.targets)
      && CacheKey(StoredParts(route, PrimaryParts(q, route), Stamp("", Heavy, low))) == CacheKey(PrimaryParts(q, route))
      && CacheKey(KeyParts(q, Heavy, low)) != CacheKey(PrimaryParts(q, route))
  {
    var high, low := RouteTarget("local", "m", Some(High), [], None), RouteTarget("local", "m", Some(Low), [], None);
    var route := Route(Heavy, [high, low]);
    assert SameName(route.targets[0], route.targets[1]);
    KeyIsIdentity(KeyParts(q, Heavy, low), PrimaryParts(q, route));
  }

  /** The row an answer would add. */
  function AnswerRow(redact: string -> string, p: Pending, e: Event): Row
    requires e.Answer? && |p.route.targets| > 0
  {
    var response := Response(Stamp(e.reported, p.route.tier, e.target), e.value);
    NewRow(redact, p.route, PrimaryParts(p.q, p.route), response, e.now)
  }

  lemma AnswerIsHonest(redact: string -> string, c: Cache, e: Event)
    requires Inv(redact, c) && Enabled(c, e) && e.Answer?
    ensures
      var p := c.pending[e.id];
      var row := AnswerRow(redact, p, e);
      var fact := Fact(KeyParts(p.q, p.route.tier, e.target), e.value);
      Honest(redact, Apply(redact, c, e).history, row.record.key, row, fact)
  {
    var p := c.pending[e.id];
    StoredUnderAnswerer(p.q, p.route, e.target, e.reported);
  }

  lemma RowStaysHonest(redact: string -> string, c: Cache, e: Event, key: string, f: Fact)
    requires Enabled(c, e) && key in c.rows && Honest(redact, c.history, key, c.rows[key], f)
    ensures
      var d := Apply(redact, c, e);
      key in d.rows ==> Honest(redact, d.history, key, d.rows[key], f)
  {
    var d := Apply(redact, c, e);
    assert f in d.history;
  }

  lemma NewRowKey(redact: string -> string, c: Cache, e: Event, key: string)
    requires Enabled(c, e) && key !in c.rows && key in Apply(redact, c, e).rows
    ensures e.Answer?
    ensures
      Apply(redact, c, e).rows[key] == AnswerRow(redact, c.pending[e.id], e)
    ensures Apply(redact, c, e).rows[key].record.key == key
  {
  }

  lemma StepKeeps(redact: string -> string, c: Cache, e: Event)
    requires Inv(redact, c) && Enabled(c, e)
    ensures Inv(redact, Apply(redact, c, e))
  {
    var d := Apply(redact, c, e);
    forall k | k in d.rows
      ensures exists f :: Honest(redact, d.history, k, d.rows[k], f)
    {
      if k in c.rows {
        var f :| Honest(redact, c.history, k, c.rows[k], f);
        RowStaysHonest(redact, c, e, k, f);
      } else {
        NewRowKey(redact, c, e, k);
        AnswerIsHonest(redact, c, e);
      }
    }
    forall id | id in d.pending
      ensures RouteOk(d.pending[id].route)
    {
      if id in c.pending {
        assert RouteOk(c.pending[id].route);
      }
    }
  }

  ghost predicate IsRun(redact: string -> string, cs: seq<Cache>, es: seq<Event>)
  {
    && |cs| == |es| + 1 && cs[0] == Cache(map[], map[], {})
    && forall i :: 0 <= i < |es| ==> Follows(redact, cs[i], es[i], cs[i + 1])
  }

  ghost predicate Follows(redact: string -> string, c: Cache, e: Event, d: Cache)
  {
    Enabled(c, e) && d == Apply(redact, c, e)
  }

  lemma {:induction false} RunKeeps(redact: string -> string, cs: seq<Cache>, es: seq<Event>, i: nat)
    requires IsRun(redact, cs, es) && i < |cs|
    ensures Inv(redact, cs[i])
    decreases i
  {
    if i > 0 {
      RunKeeps(redact, cs, es, i - 1);
      assert Follows(redact, cs[i - 1], es[i - 1], cs[i - 1 + 1]);
      StepKeeps(redact, cs[i - 1], es[i - 1]);
    }
  }

  /** A hit replays words that a target with exactly the tier, backend, model and effort asked
      for gave to exactly this question. */
  lemma HitIsFromIdentityAsked(redact: string -> string, cs: seq<Cache>, es: seq<Event>, i: nat, q: Ask, route: Route)
    returns (f: Fact)
    requires IsRun(redact, cs, es) && i < |cs| && |route.targets| > 0
    requires CacheKey(PrimaryParts(q, route)) in cs[i].rows
    ensures
      var t, record := route.targets[0], cs[i].rows[CacheKey(PrimaryParts(q, route))].record;
      && f in cs[i].history && record.response == redact(f.value)
      && Keyed(f.parts) == Keyed(PrimaryParts(q, route))
      && f.parts.tier == route.tier && f.parts.backend == t.backend
      && f.parts.model == t.model && f.parts.effort == t.effort
      && record.usage == Usage(Some(route.tier), t.backend, t.model)
  {
    RunKeeps(redact, cs, es, i);
    var key := CacheKey(PrimaryParts(q, route));
    f :| Honest(redact, cs[i].history, key, cs[i].rows[key], f);
    KeyIsIdentity(f.parts, PrimaryParts(q, route));
  }

  lemma StepKeepsSaying(redact: string -> string, c: Cache, e: Event, d: Cache, key: string)
    requires Follows(redact, c, e, d) && key in c.rows
    ensures key in d.rows ==> Saying(d.rows[key]) == Saying(c.rows[key])
    ensures key !in d.rows ==> e.Evict?
  {
  }

  /** A stored answer is never replaced before it is evicted. */
  lemma {:induction false} NeverReplaced(redact: string -> string, cs: seq<Cache>, es: seq<Event>, i: nat, j: nat,
      key: string)
    requires IsRun(redact, cs, es) && i <= j < |cs|
    requires forall n :: i <= n <= j ==> key in cs[n].rows
    ensures Saying(cs[j].rows[key]) == Saying(cs[i].rows[key])
    decreases j
  {
    if i < j {
      NeverReplaced(redact, cs, es, i, j - 1, key);
      assert Follows(redact, cs[j - 1], es[j - 1], cs[j - 1 + 1]);
      StepKeepsSaying(redact, cs[j - 1], es[j - 1], cs[j], key);
    }
  }

  predicate ReadOnlyLookup(e: Event) { e.Lookup? && e.mode == ReadOnly }

  /** `e` is the read-write lookup that sent call `id` below. */
  predicate Sends(e: Event, id: nat) { e.Lookup? && e.mode == ReadWrite && e.id == id }

  /** Every call out below was sent there by a read-write lookup. */
  lemma {:induction false} OnlyReadWriteAsks(redact: string -> string, cs: seq<Cache>, es: seq<Event>, i: nat, id: nat)
    returns (n: nat)
    requires IsRun(redact, cs, es) && i < |cs| && id in cs[i].pending
    ensures n < i && Sends(es[n], id)
    decreases i
  {
    assert i > 0;
    assert Follows(redact, cs[i - 1], es[i - 1], cs[i - 1 + 1]);
    if id in cs[i - 1].pending {
      n := OnlyReadWriteAsks(redact, cs, es, i - 1, id);
    } else {
      n := i - 1;
    }
  }

  /** In any run, whoever else is at work: a read-only lookup asks nobody and adds no row, and every
      row that appears, and every answer given, is due to a call some read-write lookup sent. */
  lemma ReplayAddsNothing(redact: string -> string, cs: seq<Cache>, es: seq<Event>, i: nat)
    requires IsRun(redact, cs, es) && i < |es|
    ensures ReadOnlyLookup(es[i]) ==>
              && cs[i + 1].pending == cs[i].pending && cs[i + 1].history == cs[i].history
              && cs[i + 1].rows.Keys == cs[i].rows.Keys
              && forall k :: k in cs[i].rows ==> Saying(cs[i + 1].rows[k]) == Saying(cs[i].rows[k])
    ensures cs[i + 1].history != cs[i].history || !(cs[i + 1].rows.Keys <= cs[i].rows.Keys) ==>
              es[i].Answer? && exists n :: 0 <= n < i && Sends(es[n], es[i].id)
  {
    assert Follows(redact, cs[i], es[i], cs[i + 1]);
    if es[i].Answer? {
      var n := OnlyReadWriteAsks(redact, cs, es, i, es[i].id);
    }
  }

  /** When `e` looks the row at `key` up, or answers with that identity, the time it does so. */
  ghost function TouchedAt(c: Cache, e: Event, key: string): Option<int>
    requires Enabled(c, e)
  {
    match e
    case Lookup(id, mode, q, route, at) =>
      if key in c.rows && CacheKey(KeyParts(q, route.tier, route.targets[0])) == key then Some(at) else None
    case Answer(id, target, reported, value, now) =>
      if CacheKey(KeyParts(c.pending[id].q, c.pending[id].route.tier, target)) == key then Some(now) else None
    case Fail(_) => None
    case Evict(_) => None
  }

  ghost function LastTouch(redact: string -> string, cs: seq<Cache>, es: seq<Event>, key: string, i: nat): Option<int>
    requires IsRun(redact, cs, es) && i < |cs|
  {
    if i == 0 then None
    else
      assert Follows(redact, cs[i - 1], es[i - 1], cs[i - 1 + 1]);
      var now := TouchedAt(cs[i - 1], es[i - 1], key);
      if now.Some? then now else LastTouch(redact, cs, es, key, i - 1)
  }

  lemma StepTouches(redact: string -> string, c: Cache, e: Event, d: Cache, key: string)
    requires Follows(redact, c, e, d) && key in d.rows
    ensures match TouchedAt(c, e, key)
            case None => key in c.rows && d.rows[key] == c.rows[key]
            case Some(at) => d.rows[key].lastHit == at
  {
    if e.Answer? {
      var p := c.pending[e.id];
      StoredUnderAnswerer(p.q, p.route, e.target, e.reported);
    }
  }

  /** In any run a row carries the time of the last lookup that found it or answer that came for it. */
  lemma {:induction false} RowsCarryLastTouch(redact: string -> string, cs: seq<Cache>, es: seq<Event>, key: string,
      i: nat)
    requires IsRun(redact, cs, es) && i < |cs| && key in cs[i].rows
    ensures LastTouch(redact, cs, es, key, i) == Some(cs[i].rows[key].lastHit)
    decreases i
  {
    if i > 0 {
      assert Follows(redact, cs[i - 1], es[i - 1], cs[i - 1 + 1]);
      StepTouches(redact, cs[i - 1], es[i - 1], cs[i], key);
      if TouchedAt(cs[i - 1], es[i - 1], key).None? {
        RowsCarryLastTouch(redact, cs, es, key, i - 1);
      }
    }
  }

  /** An eviction takes exactly the rows that nothing touched since the cutoff. */
  lemma EvictsExactlyStale(redact: string -> string, cs: seq<Cache>, es: seq<Event>, key: string, i: nat)
    requires IsRun(redact, cs, es) && i < |es| && es[i].Evict? && key in cs[i].rows
    ensures
      var last := LastTouch(redact, cs, es, key, i);
      && last.Some?
      && (key !in cs[i + 1].rows <==> last.value < es[i].cutoff)
      && (key in cs[i + 1].rows ==> cs[i + 1].rows[key] == cs[i].rows[key])
  {
    assert Follows(redact, cs[i], es[i], cs[i + 1]);
    RowsCarryLastTouch(redact, cs, es, key, i);
  }

  /** A standby's answer leaves the primary's key as it was: the next call to a healthy primary
      misses if it missed before. */
  lemma StandbyLeavesPrimary(redact: string -> string, c: Cache, e: Event, d: Cache, q: Ask, route: Route)
    requires Follows(redact, c, e, d) && e.Answer? && |route.targets| > 0
    requires
      var t := route.targets[0];
      e.target.backend != t.backend || e.target.model != t.model || e.target.effort != t.effort
    ensures
      var key := CacheKey(PrimaryParts(q, route));
      (key in d.rows <==> key in c.rows) && (key in c.rows ==> d.rows[key] == c.rows[key])
  {
    var p := c.pending[e.id];
    StoredUnderAnswerer(p.q, p.route, e.target, e.reported);
    KeyIsIdentity(KeyParts(p.q, p.route.tier, e.target), PrimaryParts(q, route));
  }
}
