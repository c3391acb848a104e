/**
 What every step of the ladder keeps: repo-to-repo ordering arcs only disappear, arcs between
 contracts stay, and the set of repositories does not change.
 */
module FleetSteps {
  import opened Digraph
  import opened NodeOrder
  import opened DfsClasses
  import opened FleetModel
  import opened Materialize
  import opened Components
  import opened Cycles

  function ContractArcs(arcs: Dag<NodeRef>): Dag<NodeRef>
  {
    set a | a in arcs && a.src.kind.Contract?
  }

  /** Row `k` of `f` is still there in `g`, or a contract row with the same source and evidence is. */
  ghost predicate Replaced(f: Fleet, g: Fleet, k: EdgeKey, a: EdgeKey)
  {
    && k in f.edges && a in g.edges
    && a.src == k.src && a.path == k.path && a.line == k.line
    && (a == k || (k.src.kind.Repo? && k.dstKind.Repo? && a.dstKind.Contract? && a.kind == ContractConsume))
  }

  /** No row of `f` is lost without such a replacement, and no contract loses a consumer. */
  ghost predicate Keeps(f: Fleet, g: Fleet)
  {
    && (forall k :: k in f.edges ==> exists a :: Replaced(f, g, k, a))
    && (forall id :: Consumers(f.edges, id) <= Consumers(g.edges, id))
  }

  lemma KeepsReflexive(f: Fleet)
    ensures Keeps(f, f)
  {
    forall k | k in f.edges
      ensures exists a :: Replaced(f, f, k, a)
    {
      assert Replaced(f, f, k, k);
    }
  }

  lemma KeepsTransitive(f: Fleet, g: Fleet, h: Fleet)
    requires Keeps(f, g) && Keeps(g, h)
    ensures Keeps(f, h)
  {
    forall k | k in f.edges
      ensures exists a :: Replaced(f, h, k, a)
    {
      var a :| Replaced(f, g, k, a);
      var b :| Replaced(g, h, a, b);
      assert Replaced(f, h, k, b);
    }
    forall id
      ensures Consumers(f.edges, id) <= Consumers(h.edges, id)
    {
      assert Consumers(f.edges, id) <= Consumers(g.edges, id);
      assert Consumers(g.edges, id) <= Consumers(h.edges, id);
    }
  }

  /** `g` is a later state of `f`. */
  ghost predicate Within(cfg: Config, f: Fleet, g: Fleet)
  {
    && RepoArcs(Arcs(cfg, g)) <= RepoArcs(Arcs(cfg, f))
    && ContractArcs(Arcs(cfg, g)) == ContractArcs(Arcs(cfg, f))
    && (forall n: NodeRef :: n.kind.Repo? ==> (n in g.nodes <==> n in f.nodes))
  }

  lemma WithinTransitive(cfg: Config, f: Fleet, g: Fleet, h: Fleet)
    requires Within(cfg, f, g) && Within(cfg, g, h)
    ensures Within(cfg, f, h)
  {
  }

  lemma RowBehind(cfg: Config, edges: Edges, a: Arc<NodeRef>) returns (k: EdgeKey)
    requires a in DagArcs(cfg, edges)
    ensures k in edges && Orders(cfg, edges[k]) && ArcOf(edges[k]) == a
  {
    k :| k in OrderingKeys(cfg, edges) && ArcOf(edges[k]) == a;
  }

  lemma ArcOfRow(cfg: Config, edges: Edges, k: EdgeKey)
    requires k in edges && Orders(cfg, edges[k])
    ensures ArcOf(edges[k]) in DagArcs(cfg, edges)
  {
    assert k in OrderingKeys(cfg, edges);
  }

  lemma ArcsTrap(cfg: Config, f: Fleet)
    requires RowsOk(f.edges)
    ensures ContractsTrap(Arcs(cfg, f))
  {
    forall a | a in Arcs(cfg, f) && a.src.kind.Contract?
      ensures a.dst.kind.Contract?
    {
      var k := RowBehind(cfg, f.edges, a);
      assert RowOk(f.edges[k]);
    }
  }

  lemma ArcsInside(cfg: Config, f: Fleet, a: Arc<NodeRef>)
    requires Rebuild(f.nodes, f.edges, cfg).Ok? && a in Arcs(cfg, f)
    ensures a.src in f.nodes && a.dst in f.nodes
  {
    var k := RowBehind(cfg, f.edges, a);
    assert !Dangling(f.nodes, f.edges[k]);
  }

  // ---------------------------------------------------------------------------------------
  // Materializing contracts
  // ---------------------------------------------------------------------------------------

  /** The repo-to-repo ordering arcs no contract of `cs` claims. */
  function UnclaimedArcs(cfg: Config, edges: Edges, cs: Contracts): Dag<NodeRef>
  {
    set k | k in edges && Orders(cfg, edges[k]) && IsRepoEdge(edges[k]) && !Claimed(cs, edges[k]) :: ArcOf(edges[k])
  }

  lemma MaterializedRepoArcs(cfg: Config, edges: Edges, cs: Contracts)
    requires Injective(cfg) && RowsOk(edges)
    ensures RepoArcs(DagArcs(cfg, Materialized(cfg, edges, cs))) == UnclaimedArcs(cfg, edges, cs)
  {
    var out := Materialized(cfg, edges, cs);
    forall a | a in RepoArcs(DagArcs(cfg, out))
      ensures a in UnclaimedArcs(cfg, edges, cs)
    {
      var k := RowBehind(cfg, out, a);
      MaterializedOk(cfg, edges, cs);
      MaterializedRepoRows(cfg, edges, cs, k);
    }
    forall a | a in UnclaimedArcs(cfg, edges, cs)
      ensures a in RepoArcs(DagArcs(cfg, out))
    {
      var k :| k in edges && Orders(cfg, edges[k]) && IsRepoEdge(edges[k]) && !Claimed(cs, edges[k])
               && ArcOf(edges[k]) == a;
      MaterializedRepoRows(cfg, edges, cs, k);
      ArcOfRow(cfg, out, k);
    }
  }

  lemma MaterializedContractArcs(cfg: Config, edges: Edges, cs: Contracts)
    requires Injective(cfg) && RowsOk(edges)
    ensures ContractArcs(DagArcs(cfg, Materialized(cfg, edges, cs))) == ContractArcs(DagArcs(cfg, edges))
  {
    var out := Materialized(cfg, edges, cs);
    MaterializedOk(cfg, edges, cs);
    forall a | a in ContractArcs(DagArcs(cfg, out))
      ensures a in DagArcs(cfg, edges)
    {
      var k := RowBehind(cfg, out, a);
      MaterializedContractRows(cfg, edges, cs, k);
      ArcOfRow(cfg, edges, k);
    }
    forall a | a in ContractArcs(DagArcs(cfg, edges))
      ensures a in DagArcs(cfg, out)
    {
      var k := RowBehind(cfg, edges, a);
      MaterializedContractRows(cfg, edges, cs, k);
      ArcOfRow(cfg, out, k);
    }
  }

  /** Rows that point at contracts are never lost. */
  lemma MaterializedConsumers(cfg: Config, edges: Edges, cs: Contracts, id: string)
    requires Injective(cfg) && RowsOk(edges)
    ensures Consumers(edges, id) <= Consumers(Materialized(cfg, edges, cs), id)
  {
    var out := Materialized(cfg, edges, cs);
    MaterializedOk(cfg, edges, cs);
    forall s | s in Consumers(edges, id)
      ensures s in Consumers(out, id)
    {
      var k :| k in edges && edges[k].dst == Node(Contract, id) && k.kind == ContractConsume && k.src.id == s;
      MaterializedKeepsEvidence(cfg, edges, cs, k);
      assert RowOk(edges[k]) && RowOk(out[k]);
    }
  }

  lemma TrialKeeps(cfg: Config, f: Fleet, cs: Contracts)
    requires Injective(cfg) && RowsOk(f.edges)
    ensures Keeps(f, Trial(cfg, f, cs))
  {
    var t := Trial(cfg, f, cs);
    forall k | k in f.edges
      ensures exists a :: Replaced(f, t, k, a)
    {
      MaterializedKeepsEvidence(cfg, f.edges, cs, k);
      assert RowOk(f.edges[k]);
      assert Replaced(f, t, k, After(cs, f.edges[k]).key);
    }
    forall id
      ensures Consumers(f.edges, id) <= Consumers(t.edges, id)
    {
      MaterializedConsumers(cfg, f.edges, cs, id);
    }
  }

  lemma TrialWithin(cfg: Config, f: Fleet, cs: Contracts)
    requires Injective(cfg) && RowsOk(f.edges)
    ensures RowsOk(Trial(cfg, f, cs).edges) && Within(cfg, f, Trial(cfg, f, cs))
  {
    MaterializedOk(cfg, f.edges, cs);
    MaterializedRepoArcs(cfg, f.edges, cs);
    MaterializedContractArcs(cfg, f.edges, cs);
    forall a | a in UnclaimedArcs(cfg, f.edges, cs)
      ensures a in RepoArcs(Arcs(cfg, f))
    {
      var k :| k in f.edges && Orders(cfg, f.edges[k]) && IsRepoEdge(f.edges[k]) && ArcOf(f.edges[k]) == a;
      ArcOfRow(cfg, f.edges, k);
    }
  }

  // ---------------------------------------------------------------------------------------
  // Suppressing edges
  // ---------------------------------------------------------------------------------------

  /** `now` is `before` with exactly the rows of `keys` suppressed. */
  ghost predicate OnlySuppressed(before: Edges, now: Edges, keys: seq<EdgeKey>)
  {
    && now.Keys == before.Keys
    && forall k :: k in before ==>
         now[k] == if k in keys then before[k].(suppressed := true) else before[k]
  }

  lemma SuppressedRowsOk(cfg: Config, f: Fleet, now: Edges, keys: seq<EdgeKey>)
    requires FleetOk(cfg, f) && OnlySuppressed(f.edges, now, keys)
    ensures FleetOk(cfg, f.(edges := now))
  {
    forall k | k in now
      ensures now[k].key == k && RowOk(now[k]) && !Dangling(f.nodes, now[k])
    {
      assert RowOk(f.edges[k]) && !Dangling(f.nodes, f.edges[k]);
    }
  }

  lemma SuppressedArcs(cfg: Config, before: Edges, now: Edges, keys: seq<EdgeKey>)
    requires RowsOk(before) && OnlySuppressed(before, now, keys)
    requires forall k :: k in keys ==> k.src.kind.Repo?
    ensures DagArcs(cfg, now) <= DagArcs(cfg, before)
    ensures ContractArcs(DagArcs(cfg, now)) == ContractArcs(DagArcs(cfg, before))
  {
    forall a | a in DagArcs(cfg, now)
      ensures a in DagArcs(cfg, before)
    {
      var k := RowBehind(cfg, now, a);
      ArcOfRow(cfg, before, k);
    }
    forall a | a in ContractArcs(DagArcs(cfg, before))
      ensures a in DagArcs(cfg, now)
    {
      var k := RowBehind(cfg, before, a);
      ArcOfRow(cfg, now, k);
    }
  }

  lemma SuppressedConsumers(before: Edges, now: Edges, keys: seq<EdgeKey>, id: string)
    requires OnlySuppressed(before, now, keys)
    ensures Consumers(before, id) <= Consumers(now, id)
  {
    forall s | s in Consumers(before, id)
      ensures s in Consumers(now, id)
    {
      var k :| k in before && before[k].dst == Node(Contract, id) && k.kind == ContractConsume && k.src.id == s;
      assert now[k].dst == before[k].dst;
    }
  }

  lemma SuppressedKeeps(f: Fleet, g: Fleet, keys: seq<EdgeKey>)
    requires OnlySuppressed(f.edges, g.edges, keys)
    ensures Keeps(f, g)
  {
    forall k | k in f.edges
      ensures exists a :: Replaced(f, g, k, a)
    {
      assert Replaced(f, g, k, k);
    }
    forall id
      ensures Consumers(f.edges, id) <= Consumers(g.edges, id)
    {
      SuppressedConsumers(f.edges, g.edges, keys, id);
    }
  }

  lemma SuppressedWithin(cfg: Config, f: Fleet, g: Fleet, keys: seq<EdgeKey>)
    requires RowsOk(f.edges) && OnlySuppressed(f.edges, g.edges, keys) && g.nodes == f.nodes
    requires forall k :: k in keys ==> k.src.kind.Repo?
    ensures Within(cfg, f, g)
  {
    SuppressedArcs(cfg, f.edges, g.edges, keys);
    assert RepoArcs(Arcs(cfg, g)) <= RepoArcs(Arcs(cfg, f));
  }
}
