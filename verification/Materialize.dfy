/**
 `_materialize` (`graph/cycles.py`): retarget the repo-to-repo rows whose evidence belongs to
 a contract, then add the contract's own edges.
 */
module Materialize {
  import opened Options
  import opened NodeOrder
  import opened FleetModel

  // ---------------------------------------------------------------------------------------
  // The order in which rows are visited
  // ---------------------------------------------------------------------------------------

  predicate IsGreatest(cfg: Config, k: EdgeKey, keys: set<EdgeKey>)
  {
    k in keys && forall j :: j in keys ==> cfg.digest(j) <= cfg.digest(k)
  }

  predicate IsFirst(cfg: Config, k: EdgeKey, keys: set<EdgeKey>)
  {
    k in keys && forall j :: j in keys ==> cfg.digest(k) <= cfg.digest(j)
  }

  lemma {:induction false} GreatestExists(cfg: Config, keys: set<EdgeKey>) returns (k: EdgeKey)
    requires keys != {}
    ensures IsGreatest(cfg, k, keys)
  {
    k :| k in keys;
    if keys != {k} {
      var m := GreatestExists(cfg, keys - {k});
      assert keys == (keys - {k}) + {k};
      k := if cfg.digest(m) <= cfg.digest(k) then k else m;
    }
  }

  lemma {:induction false} FirstExists(cfg: Config, keys: set<EdgeKey>) returns (k: EdgeKey)
    requires keys != {}
    ensures IsFirst(cfg, k, keys)
  {
    k :| k in keys;
    if keys != {k} {
      var m := FirstExists(cfg, keys - {k});
      assert keys == (keys - {k}) + {k};
      k := if cfg.digest(k) <= cfg.digest(m) then k else m;
    }
  }

  function Greatest(cfg: Config, keys: set<EdgeKey>): (k: EdgeKey)
    requires keys != {} && Injective(cfg)
    ensures IsGreatest(cfg, k, keys)
  {
    assert exists k :: IsGreatest(cfg, k, keys) by {
      var k := GreatestExists(cfg, keys);
    }
    var k :| k in keys && IsGreatest(cfg, k, keys);
    k
  }

  function First(cfg: Config, keys: set<EdgeKey>): (k: EdgeKey)
    requires keys != {} && Injective(cfg)
    ensures IsFirst(cfg, k, keys)
  {
    assert exists k :: IsFirst(cfg, k, keys) by {
      var k := FirstExists(cfg, keys);
    }
    var k :| k in keys && IsFirst(cfg, k, keys);
    k
  }

  // ---------------------------------------------------------------------------------------
  // Retargeting
  // ---------------------------------------------------------------------------------------

  function Evidence(e: Edge): PathEntry { PathEntry(e.key.src.id, e.key.path) }

  function Claimants(cs: Contracts, p: PathEntry): set<string>
  {
    set id | id in cs && Claims(cs[id], p)
  }

  /** A repo-to-repo row whose evidence some contract claims. */
  predicate Claimed(cs: Contracts, e: Edge)
  {
    IsRepoEdge(e) && Claimants(cs, Evidence(e)) != {}
  }

  /** The row after retargeting; of several claimants the least contract id wins. */
  function After(cs: Contracts, e: Edge): Edge
  {
    if !Claimed(cs, e) then e
    else
      var id := LeastString(Claimants(cs, Evidence(e)));
      Edge(EdgeKey(e.key.src, Contract, id, ContractConsume, e.key.path, e.key.line),
           Node(Contract, id), e.confidence, e.ambiguous, e.suppressed, Some(e.dst.id))
  }

  function AfterKeys(cs: Contracts, edges: Edges): set<EdgeKey>
  {
    set k | k in edges :: After(cs, edges[k]).key
  }

  /** The rows that end up under key `k`; the last one visited stays. */
  function Landing(cs: Contracts, edges: Edges, k: EdgeKey): set<EdgeKey>
  {
    set j | j in edges && After(cs, edges[j]).key == k
  }

  function LastLanding(cfg: Config, edges: Edges, cs: Contracts, k: EdgeKey): (j: EdgeKey)
    requires Injective(cfg) && k in AfterKeys(cs, edges)
    ensures j in edges && After(cs, edges[j]).key == k
  {
    assert Landing(cs, edges, k) != {} by {
      var j :| j in edges && After(cs, edges[j]).key == k;
      assert j in Landing(cs, edges, k);
    }
    Greatest(cfg, Landing(cs, edges, k))
  }

  function Retarget(cfg: Config, edges: Edges, cs: Contracts): Edges
    requires Injective(cfg)
  {
    map k | k in AfterKeys(cs, edges) :: After(cs, edges[LastLanding(cfg, edges, cs, k)])
  }

  function InferredKeys(cs: Contracts): set<EdgeKey>
  {
    set e | e in Inferred(cs) :: e.key
  }

  /** An inferred edge is determined by its key. */
  function InferredEdge(k: EdgeKey): Edge { ContractEdge(k.src.id, k.dstRef, k.kind, k.path) }

  function Materialized(cfg: Config, edges: Edges, cs: Contracts): Edges
    requires Injective(cfg)
  {
    if cs == map[] then edges
    else (map k | k in InferredKeys(cs) :: InferredEdge(k)) + Retarget(cfg, edges, cs)
  }

  // ---------------------------------------------------------------------------------------
  // The loops
  // ---------------------------------------------------------------------------------------

  /** Of the rows visited so far, `j` is the last to land under `k`. */
  ghost predicate Landed(cfg: Config, edges: Edges, cs: Contracts, done: set<EdgeKey>, k: EdgeKey, j: EdgeKey)
    requires done <= edges.Keys
  {
    && j in done && After(cs, edges[j]).key == k
    && forall i :: i in done && After(cs, edges[i]).key == k ==> cfg.digest(i) <= cfg.digest(j)
  }

  /** `out` holds, under every key some visited row landed on, the last such row. */
  ghost predicate RetargetedSoFar(cfg: Config, edges: Edges, cs: Contracts, done: set<EdgeKey>, out: Edges)
    requires done <= edges.Keys
  {
    && (forall j :: j in done ==> After(cs, edges[j]).key in out)
    && (forall k :: k in out ==> exists j :: Landed(cfg, edges, cs, done, k, j) && out[k] == After(cs, edges[j]))
  }

  lemma RetargetOne(cfg: Config, edges: Edges, cs: Contracts, done: set<EdgeKey>, out: Edges, k: EdgeKey)
    requires done <= edges.Keys && RetargetedSoFar(cfg, edges, cs, done, out)
    requires k in edges && forall j :: j in done ==> cfg.digest(j) <= cfg.digest(k)
    ensures RetargetedSoFar(cfg, edges, cs, done + {k}, out[After(cs, edges[k]).key := After(cs, edges[k])])
  {
    var row := After(cs, edges[k]);
    var next := out[row.key := row];
    forall a | a in next
      ensures exists j :: Landed(cfg, edges, cs, done + {k}, a, j) && next[a] == After(cs, edges[j])
    {
      if a == row.key {
        assert Landed(cfg, edges, cs, done + {k}, a, k);
      } else {
        var j :| Landed(cfg, edges, cs, done, a, j) && out[a] == After(cs, edges[j]);
        assert Landed(cfg, edges, cs, done + {k}, a, j);
      }
    }
  }

  lemma RetargetedAt(cfg: Config, edges: Edges, cs: Contracts, k: EdgeKey, j: EdgeKey)
    requires Injective(cfg) && Landed(cfg, edges, cs, edges.Keys, k, j)
    ensures k in AfterKeys(cs, edges) && LastLanding(cfg, edges, cs, k) == j
  {
    assert k in AfterKeys(cs, edges);
    var last := LastLanding(cfg, edges, cs, k);
    assert j in Landing(cs, edges, k);
    assert cfg.digest(j) == cfg.digest(last);
  }

  lemma RetargetedAll(cfg: Config, edges: Edges, cs: Contracts, out: Edges)
    requires Injective(cfg) && RetargetedSoFar(cfg, edges, cs, edges.Keys, out)
    ensures out == Retarget(cfg, edges, cs)
  {
    var all := Retarget(cfg, edges, cs);
    forall k | k in out
      ensures k in all && out[k] == all[k]
    {
      var j :| Landed(cfg, edges, cs, edges.Keys, k, j) && out[k] == After(cs, edges[j]);
      RetargetedAt(cfg, edges, cs, k, j);
    }
    forall k | k in all
      ensures k in out
    {
      var j :| j in edges && After(cs, edges[j]).key == k;
    }
    SameMap(out, all);
  }

  lemma SameMap<K, V>(a: map<K, V>, b: map<K, V>)
    requires forall k :: k in a ==> k in b && a[k] == b[k]
    requires forall k :: k in b ==> k in a
    ensures a == b
  {
  }

  /** Rows are visited in digest order: those done come before those still to do. */
  ghost predicate Visited(cfg: Config, edges: Edges, cs: Contracts, done: set<EdgeKey>, todo: set<EdgeKey>, out: Edges)
  {
    && (forall k :: k in edges <==> k in done || k in todo)
    && (forall j, k :: j in done && k in todo ==> cfg.digest(j) <= cfg.digest(k))
    && RetargetedSoFar(cfg, edges, cs, done, out)
  }

  lemma VisitNext(cfg: Config, edges: Edges, cs: Contracts, done: set<EdgeKey>, todo: set<EdgeKey>, out: Edges,
      k: EdgeKey)
    requires Visited(cfg, edges, cs, done, todo, out) && IsFirst(cfg, k, todo)
    ensures Visited(cfg, edges, cs, done + {k}, todo - {k}, out[After(cs, edges[k]).key := After(cs, edges[k])])
  {
    RetargetOne(cfg, edges, cs, done, out, k);
  }

  method RetargetRows(cfg: Config, edges: Edges, cs: Contracts) returns (out: Edges)
    requires Injective(cfg)
    ensures out == Retarget(cfg, edges, cs)
  {
    out := map[];
    var todo, done: set<EdgeKey> := edges.Keys, {};
    while todo != {}
      invariant Visited(cfg, edges, cs, done, todo, out)
      decreases todo
    {
      var k := First(cfg, todo);
      VisitNext(cfg, edges, cs, done, todo, out, k);
      out := out[After(cs, edges[k]).key := After(cs, edges[k])];
      todo, done := todo - {k}, done + {k};
    }
    assert done == edges.Keys;
    RetargetedAll(cfg, edges, cs, out);
  }

  method MaterializeRows(cfg: Config, edges: Edges, cs: Contracts) returns (out: Edges)
    requires Injective(cfg)
    ensures out == Materialized(cfg, edges, cs)
  {
    if cs == map[] {
      return edges;
    }
    out := RetargetRows(cfg, edges, cs);
    out := AddInferred(cs, out);
    SameMap(out, Materialized(cfg, edges, cs));
  }

  /** Contract edges never replace a row already there. */
  method AddInferred(cs: Contracts, rows: Edges) returns (out: Edges)
    ensures forall k :: k in out <==> k in rows || k in InferredKeys(cs)
    ensures forall k :: k in out ==> out[k] == if k in rows then rows[k] else InferredEdge(k)
  {
    out := rows;
    var todo: set<Edge>, added: set<EdgeKey> := Inferred(cs), {};
    while todo != {}
      invariant todo <= Inferred(cs) && added <= InferredKeys(cs)
      invariant forall e :: e in Inferred(cs) ==> e in todo || e.key in added
      invariant forall k :: k in out <==> k in rows || k in added
      invariant forall k :: k in out ==> out[k] == if k in rows then rows[k] else InferredEdge(k)
      decreases todo
    {
      var e :| e in todo;
      InferredIsContractEdge(cs, e);
      assert e.key in InferredKeys(cs);
      if e.key !in out {
        out := out[e.key := e];
      }
      todo, added := todo - {e}, added + {e.key};
    }
  }

  lemma InferredIsContractEdge(cs: Contracts, e: Edge)
    requires e in Inferred(cs)
    ensures e == InferredEdge(e.key) && e.key.src.kind.Repo? && e.dst.kind.Contract? && RowOk(e)
    ensures e.key.dstRef in (set id | id in cs :: cs[id].id)
  {
  }

  /** Retargeting keeps source, evidence and validity, and never produces a repo-to-repo row. */
  lemma AfterFacts(cs: Contracts, e: Edge)
    requires RowOk(e)
    ensures
      var a := After(cs, e);
      && RowOk(a)
      && a.key.src == e.key.src && a.key.path == e.key.path && a.key.line == e.key.line
      && (!Claimed(cs, e) ==> a == e)
      && (Claimed(cs, e) ==> a.key.dstKind.Contract? && a.key.kind == ContractConsume && a.key.dstRef in cs)
  {
  }

  /** `c` lists a file at `path` of repository `s`, which does not own it. */
  ghost predicate UsesAt(c: ContractNode, s: string, path: string)
  {
    && c.owner.Some? && s != c.owner.value && s != "" && path != ""
    && (PathEntry(s, path) in c.sources || PathEntry(s, path) in c.generated)
  }

  /** Of the contracts that list the file a row rests on, `id` is the least. */
  ghost predicate Takes(cs: Contracts, e: Edge, id: string)
  {
    && id in cs && UsesAt(cs[id], e.key.src.id, e.key.path)
    && forall other :: other in cs && UsesAt(cs[other], e.key.src.id, e.key.path) ==> StrLe(id, other)
  }

  /** A row between repositories that rests on a file some contract lists becomes a row to the least
      such contract, which records where it led and is otherwise as certain, as ambiguous and as
      suppressed as before; every other row stays as it is. */
  lemma RetargetExact(cs: Contracts, e: Edge)
    ensures
      if e.key.src.kind.Repo? && e.dst.kind.Repo? && exists id :: id in cs && UsesAt(cs[id], e.key.src.id, e.key.path)
      then exists id :: Takes(cs, e, id) && After(cs, e) ==
             e.(key := e.key.(dstKind := Contract, dstRef := id, kind := ContractConsume),
                dst := Node(Contract, id), retargetedFrom := Some(e.dst.id))
      else After(cs, e) == e
  {
    var claimants := Claimants(cs, Evidence(e));
    forall id
      ensures id in claimants <==> id in cs && UsesAt(cs[id], e.key.src.id, e.key.path)
    {
    }
    if Claimed(cs, e) {
      LeastStringExact(claimants);
      assert Takes(cs, e, LeastString(claimants));
    }
  }

  /** The owner's edge: from the least path `c` lists for it, at full confidence. */
  ghost predicate IsImpl(c: ContractNode, e: Edge)
  {
    var path := e.key.path;
    && c.owner.Some? && Held(c, path)
    && (forall other :: Held(c, other) ==> StrLe(path, other))
    && e == Edge(EdgeKey(Node(Repo, c.owner.value), Contract, c.id, ContractImpl, path, -1), Node(Contract, c.id),
                 1.0, false, false, None)
  }

  /** `c` lists a file at `path` of its owner. */
  ghost predicate Held(c: ContractNode, path: string)
  {
    && c.owner.Some? && c.owner.value != "" && path != ""
    && (PathEntry(c.owner.value, path) in c.sources || PathEntry(c.owner.value, path) in c.generated)
  }

  /** A consumer's edge: one for each path `c` lists for it. */
  ghost predicate IsConsume(c: ContractNode, e: Edge)
  {
    var s, path := e.key.src.id, e.key.path;
    && s in c.consumers && UsesAt(c, s, path)
    && e == Edge(EdgeKey(Node(Repo, s), Contract, c.id, ContractConsume, path, -1), Node(Contract, c.id),
                 0.85, false, false, None)
  }

  lemma InferredForExact(c: ContractNode, e: Edge)
    ensures e in InferredFor(c) <==> IsImpl(c, e) || IsConsume(c, e)
  {
    if c.owner.Some? {
      var owned := set p | p in Entries(c) && p.repo == c.owner.value :: p.path;
      forall path
        ensures path in owned <==> Held(c, path)
      {
        if Held(c, path) {
          assert PathEntry(c.owner.value, path) in Entries(c);
        }
      }
      if owned != {} {
        LeastStringExact(owned);
      }
      if IsImpl(c, e) {
        StrLeAntisymmetric(e.key.path, LeastString(owned));
      }
      if IsConsume(c, e) {
        assert PathEntry(e.key.src.id, e.key.path) in Entries(c);
      }
    }
  }

  /** The edges a set of contracts brings are the owners' and the listed consumers'. */
  lemma InferredExact(cs: Contracts, e: Edge)
    ensures e in Inferred(cs) <==> exists id :: id in cs && (IsImpl(cs[id], e) || IsConsume(cs[id], e))
  {
    forall id | id in cs
      ensures e in InferredFor(cs[id]) <==> IsImpl(cs[id], e) || IsConsume(cs[id], e)
    {
      InferredForExact(cs[id], e);
    }
  }

  /** Where the row under key `k` of the result comes from. */
  ghost predicate ComesFrom(edges: Edges, cs: Contracts, row: Edge, k: EdgeKey, j: EdgeKey)
  {
    && row.key == k && RowOk(row)
    && if k in AfterKeys(cs, edges) then j in edges && row == After(cs, edges[j])
       else row in Inferred(cs) && k.src.kind.Repo? && k.dstKind.Contract?
  }

  lemma MaterializedRow(cfg: Config, edges: Edges, cs: Contracts, k: EdgeKey) returns (j: EdgeKey)
    requires Injective(cfg) && RowsOk(edges) && cs != map[] && k in Materialized(cfg, edges, cs)
    ensures ComesFrom(edges, cs, Materialized(cfg, edges, cs)[k], k, j)
  {
    j := k;
    if k in AfterKeys(cs, edges) {
      j := LastLanding(cfg, edges, cs, k);
      AfterFacts(cs, edges[j]);
    } else {
      var e :| e in Inferred(cs) && e.key == k;
      InferredIsContractEdge(cs, e);
    }
  }

  lemma MaterializedOk(cfg: Config, edges: Edges, cs: Contracts)
    requires Injective(cfg) && RowsOk(edges)
    ensures RowsOk(Materialized(cfg, edges, cs))
  {
    if cs != map[] {
      var out := Materialized(cfg, edges, cs);
      forall k | k in out
        ensures out[k].key == k && RowOk(out[k])
      {
        var j := MaterializedRow(cfg, edges, cs, k);
      }
    }
  }

  /** Every row of `edges` has a row with the same source and evidence in the result. */
  lemma MaterializedKeepsEvidence(cfg: Config, edges: Edges, cs: Contracts, k: EdgeKey)
    requires Injective(cfg) && RowsOk(edges) && k in edges
    ensures
      var out := Materialized(cfg, edges, cs);
      var a := After(cs, edges[k]).key;
      && a in out
      && a.src == k.src && a.path == k.path && a.line == k.line
      && (!Claimed(cs, edges[k]) ==> a == k)
      && (Claimed(cs, edges[k]) ==> a.dstKind.Contract? && a.kind == ContractConsume && a.dstRef in cs)
  {
    AfterFacts(cs, edges[k]);
    if cs == map[] {
      assert Claimants(cs, Evidence(edges[k])) == {};
    } else {
      assert After(cs, edges[k]).key in AfterKeys(cs, edges);
    }
  }

  /** A key whose rows are never claimed keeps its row. */
  lemma MaterializedKeepsRow(cfg: Config, edges: Edges, cs: Contracts, k: EdgeKey)
    requires Injective(cfg) && RowsOk(edges) && k in edges && !Claimed(cs, edges[k])
    requires k.dstKind.Repo? || k.src.kind.Contract?
    ensures k in Materialized(cfg, edges, cs) && Materialized(cfg, edges, cs)[k] == edges[k]
  {
    if cs != map[] {
      MaterializedKeepsEvidence(cfg, edges, cs, k);
      var j := LastLanding(cfg, edges, cs, k);
      AfterFacts(cs, edges[j]);
      assert j == k;
    }
  }

  /** Repo-to-repo rows only disappear, and exactly the claimed ones do. */
  lemma MaterializedRepoRows(cfg: Config, edges: Edges, cs: Contracts, k: EdgeKey)
    requires Injective(cfg) && RowsOk(edges)
    ensures
      var out := Materialized(cfg, edges, cs);
      && (k in out && IsRepoEdge(out[k]) <==> k in edges && IsRepoEdge(edges[k]) && !Claimed(cs, edges[k]))
      && (k in out && IsRepoEdge(out[k]) ==> out[k] == edges[k])
  {
    var out := Materialized(cfg, edges, cs);
    if cs == map[] {
      assert k in edges ==> Claimants(cs, Evidence(edges[k])) == {};
    } else {
      if k in out && IsRepoEdge(out[k]) {
        var j := MaterializedRow(cfg, edges, cs, k);
        AfterFacts(cs, edges[j]);
      }
      if k in edges && IsRepoEdge(edges[k]) && !Claimed(cs, edges[k]) {
        assert RowOk(edges[k]);
        MaterializedKeepsRow(cfg, edges, cs, k);
      }
    }
  }

  /** Rows that leave a contract are untouched. */
  lemma MaterializedContractRows(cfg: Config, edges: Edges, cs: Contracts, k: EdgeKey)
    requires Injective(cfg) && RowsOk(edges) && k.src.kind.Contract?
    ensures k in Materialized(cfg, edges, cs) <==> k in edges
    ensures k in edges ==> Materialized(cfg, edges, cs)[k] == edges[k]
  {
    if cs != map[] {
      if k in Materialized(cfg, edges, cs) {
        var j := MaterializedRow(cfg, edges, cs, k);
        AfterFacts(cs, edges[j]);
      }
      if k in edges {
        MaterializedKeepsRow(cfg, edges, cs, k);
      }
    }
  }
}
