/**
 The rows step 6 works on: dependency edges, contract nodes and the graph built from them
 (`models/graph.py`, `graph/build.py`, `graph/infer.py`).

 An edge is identified by the tuple its `edge_key` hashes; the hash itself only enters as the
 order in which rows are visited and ties are broken, through `Config.digest`, a function
 assumed to send distinct tuples to distinct digests.
 */
module FleetModel {
  import opened Options
  import opened Digraph
  import opened NodeOrder

  datatype Result<T> = Ok(value: T) | Err(error: Failure)
  datatype Failure = KindsOmitted | DanglingNode | DissolvedUnexplained | StillCyclic | InvalidFinding

  datatype EdgeKind =
    | DeclaredDep | PublishedArtifact | InternalImport | ApiContract
    | SharedResource | DynamicRef | ContractImpl | ContractConsume

  const CONTRACT_KINDS: set<EdgeKind> := {ContractImpl, ContractConsume}

  /** What `edge_key` is derived from; `dstRef` is a coordinate, or the contract id. */
  datatype EdgeKey = EdgeKey(
    src: NodeRef, dstKind: NodeKind, dstRef: string, kind: EdgeKind, path: string, line: int)

  /** One internal row: `src` requires `dst`. */
  datatype Edge = Edge(
    key: EdgeKey, dst: NodeRef, confidence: real, ambiguous: bool, suppressed: bool,
    retargetedFrom: Option<string>)

  type Edges = map<EdgeKey, Edge>

  datatype Config = Config(
    kinds: set<EdgeKind>, minConfidence: real, hoistContracts: bool, maxHoists: nat,
    minExtraction: real, maxBreaks: nat, atomicThreshold: nat, hardMax: nat,
    forbidden: set<string>, digest: EdgeKey -> nat)

  ghost predicate Injective(cfg: Config)
  {
    forall a, b :: cfg.digest(a) == cfg.digest(b) ==> a == b
  }

  function ArcOf(e: Edge): Arc<NodeRef> { Arc(e.key.src, e.dst) }

  predicate IsRepoEdge(e: Edge) { e.key.src.kind.Repo? && e.dst.kind.Repo? }

  /** The model validator: no self edge, contract kinds exactly on contract destinations,
      and no edge from a contract into a repository. */
  predicate RowOk(e: Edge)
  {
    && e.key.src != e.dst
    && e.dst.kind == e.key.dstKind
    && (e.key.kind in CONTRACT_KINDS <==> e.dst.kind.Contract?)
    && (e.dst.kind.Contract? ==> e.dst.id == e.key.dstRef)
    && (e.key.src.kind.Contract? ==> e.dst.kind.Contract?)
  }

  predicate RowsOk(edges: Edges)
  {
    forall k :: k in edges ==> edges[k].key == k && RowOk(edges[k])
  }

  predicate Orders(cfg: Config, e: Edge)
  {
    e.key.kind in cfg.kinds && !e.suppressed && e.confidence >= cfg.minConfidence
  }

  // ---------------------------------------------------------------------------------------
  // build_graph
  // ---------------------------------------------------------------------------------------

  /** The arcs of a graph, each with the keys of the rows behind it. */
  type ArcMap = map<Arc<NodeRef>, set<EdgeKey>>

  datatype FleetGraph = FleetGraph(
    nodes: set<NodeRef>, all: ArcMap, dag: ArcMap, edges: Edges, ordering: set<EdgeKey>)

  function OrderingKeys(cfg: Config, edges: Edges): set<EdgeKey>
  {
    set k | k in edges && Orders(cfg, edges[k])
  }

  function ArcsBehind(edges: Edges, keys: set<EdgeKey>): set<Arc<NodeRef>>
    requires keys <= edges.Keys
  {
    set k | k in keys :: ArcOf(edges[k])
  }

  function KeysBehind(edges: Edges, keys: set<EdgeKey>, a: Arc<NodeRef>): set<EdgeKey>
    requires keys <= edges.Keys
  {
    set k | k in keys && ArcOf(edges[k]) == a
  }

  function Linked(edges: Edges, keys: set<EdgeKey>): ArcMap
    requires keys <= edges.Keys
  {
    map a | a in ArcsBehind(edges, keys) :: KeysBehind(edges, keys, a)
  }

  function GraphOf(nodes: set<NodeRef>, edges: Edges, cfg: Config): FleetGraph
  {
    FleetGraph(nodes, Linked(edges, edges.Keys), Linked(edges, OrderingKeys(cfg, edges)),
               edges, OrderingKeys(cfg, edges))
  }

  /** The ordering arcs, and those between repositories. */
  function DagArcs(cfg: Config, edges: Edges): set<Arc<NodeRef>>
  {
    ArcsBehind(edges, OrderingKeys(cfg, edges))
  }

  function RepoArcs(arcs: set<Arc<NodeRef>>): set<Arc<NodeRef>>
  {
    set a | a in arcs && a.src.kind.Repo? && a.dst.kind.Repo?
  }

  predicate Dangling(nodes: set<NodeRef>, e: Edge) { e.key.src !in nodes || e.dst !in nodes }

  function Rebuild(nodes: set<NodeRef>, edges: Edges, cfg: Config): Result<FleetGraph>
  {
    if cfg.hoistContracts && !(CONTRACT_KINDS <= cfg.kinds) then Err(KindsOmitted)
    else if exists k :: k in edges && Dangling(nodes, edges[k]) then Err(DanglingNode)
    else Ok(GraphOf(nodes, edges, cfg))
  }

  /** `k` is a row of `edges` that runs along `a`. */
  ghost predicate RunsAlong(edges: Edges, k: EdgeKey, a: Arc<NodeRef>)
  {
    k in edges && edges[k].key.src == a.src && edges[k].dst == a.dst
  }

  /** An arc of the graph carries the rows along it, and is there if there is one; an ordering arc carries
      those of a configured kind that are not suppressed and certain enough. */
  lemma GraphExact(nodes: set<NodeRef>, edges: Edges, cfg: Config, a: Arc<NodeRef>)
    ensures
      var all := GraphOf(nodes, edges, cfg).all;
      && (a in all <==> exists k :: RunsAlong(edges, k, a))
      && (a in all ==> forall k :: k in all[a] <==> RunsAlong(edges, k, a))
    ensures
      var g := GraphOf(nodes, edges, cfg);
      && (forall k :: k in g.ordering <==>
            k in edges && edges[k].key.kind in cfg.kinds
            && !(edges[k].suppressed || edges[k].confidence < cfg.minConfidence))
      && (a in g.dag <==> exists k :: k in g.ordering && RunsAlong(edges, k, a))
      && (a in g.dag ==> forall k :: k in g.dag[a] <==> k in g.ordering && RunsAlong(edges, k, a))
  {
    LinkedExact(edges, edges.Keys, a);
    LinkedExact(edges, OrderingKeys(cfg, edges), a);
  }

  lemma LinkedExact(edges: Edges, keys: set<EdgeKey>, a: Arc<NodeRef>)
    requires keys <= edges.Keys
    ensures a in Linked(edges, keys) <==> exists k :: k in keys && RunsAlong(edges, k, a)
    ensures a in Linked(edges, keys) ==>
              forall k :: k in Linked(edges, keys)[a] <==> k in keys && RunsAlong(edges, k, a)
  {
    forall k | k in keys
      ensures ArcOf(edges[k]) == a <==> RunsAlong(edges, k, a)
    {
    }
  }

  function Link(arcs: ArcMap, a: Arc<NodeRef>, k: EdgeKey): ArcMap
  {
    arcs[a := (if a in arcs then arcs[a] else {}) + {k}]
  }

  lemma LinkedAdds(edges: Edges, keys: set<EdgeKey>, k: EdgeKey)
    requires keys <= edges.Keys && k in edges
    ensures Linked(edges, keys + {k}) == Link(Linked(edges, keys), ArcOf(edges[k]), k)
  {
    var a := ArcOf(edges[k]);
    var before, after := Linked(edges, keys), Linked(edges, keys + {k});
    var linked := Link(before, a, k);
    forall b
      ensures b in after <==> b in linked
    {
      if b in linked && b != a {
        var j :| j in keys && ArcOf(edges[j]) == b;
        assert j in keys + {k};
      }
      if b == a {
        assert k in keys + {k};
      }
    }
    forall b | b in after
      ensures after[b] == linked[b]
    {
      if b == a && a !in before {
        assert forall j :: j in keys ==> ArcOf(edges[j]) != a;
      }
    }
  }

  method BuildGraph(nodes: set<NodeRef>, edges: Edges, cfg: Config) returns (r: Result<FleetGraph>)
    ensures r == Rebuild(nodes, edges, cfg)
    ensures cfg.hoistContracts && (ContractImpl !in cfg.kinds || ContractConsume !in cfg.kinds) <==>
            r == Err(KindsOmitted)
    ensures r != Err(KindsOmitted) ==>
              (r.Ok? <==> forall k :: k in edges ==> edges[k].key.src in nodes && edges[k].dst in nodes)
    ensures r.Err? ==> r.error in {KindsOmitted, DanglingNode}
  {
    if cfg.hoistContracts && !(CONTRACT_KINDS <= cfg.kinds) {
      return Err(KindsOmitted);
    }
    var all: ArcMap, dag: ArcMap := map[], map[];
    var ordering: set<EdgeKey> := {};
    var done: set<EdgeKey>, todo := {}, edges.Keys;
    while todo != {}
      invariant done + todo == edges.Keys && done !! todo
      invariant ordering == done * OrderingKeys(cfg, edges)
      invariant all == Linked(edges, done) && dag == Linked(edges, ordering)
      invariant forall k :: k in done ==> !Dangling(nodes, edges[k])
    {
      var k :| k in todo;
      if Dangling(nodes, edges[k]) {
        return Err(DanglingNode);
      }
      LinkedAdds(edges, done, k);
      all := Link(all, ArcOf(edges[k]), k);
      if Orders(cfg, edges[k]) {
        LinkedAdds(edges, ordering, k);
        dag := Link(dag, ArcOf(edges[k]), k);
        ordering := ordering + {k};
      }
      done, todo := done + {k}, todo - {k};
    }
    assert done == edges.Keys && ordering == OrderingKeys(cfg, edges);
    r := Ok(FleetGraph(nodes, all, dag, edges, ordering));
  }

  // ---------------------------------------------------------------------------------------
  // Contract nodes and the edges that point at them
  // ---------------------------------------------------------------------------------------

  datatype ContractStatus = Detected | Extractable | Rejected | Forbidden | Hoisted | Migrated | Failed

  datatype PathEntry = PathEntry(repo: string, path: string)

  datatype ContractNode = ContractNode(
    id: string, owner: Option<string>, sources: seq<PathEntry>, generated: seq<PathEntry>,
    consumers: seq<string>, extractable: bool, confidence: real, status: ContractStatus,
    detail: string)

  /** Contracts by id; the id is the row's primary key. */
  type Contracts = map<string, ContractNode>

  predicate ContractsOk(cs: Contracts)
  {
    forall id :: id in cs ==> cs[id].id == id && ContractOk(cs[id])
  }

  /** The contract validator: an extractable contract has an owner, a hoisted one is extractable. */
  predicate ContractOk(c: ContractNode)
  {
    && (c.extractable ==> c.owner.Some?)
    && (c.status in {Hoisted, Migrated} ==> c.extractable)
  }

  function ContractRef(c: ContractNode): NodeRef { Node(Contract, c.id) }

  predicate Lists(c: ContractNode, p: PathEntry)
  {
    p.repo != "" && p.path != "" && (p in c.sources || p in c.generated)
  }

  /** `p` is evidence that a repository other than the owner uses the contract. */
  predicate Claims(c: ContractNode, p: PathEntry)
  {
    c.owner.Some? && p.repo != c.owner.value && Lists(c, p)
  }

  function LeastString(s: set<string>): (r: string)
    requires s != {}
    ensures r in s
  {
    var nodes := set x | x in s :: Node(Repo, x);
    assert nodes != {} by {
      var x :| x in s;
      assert Node(Repo, x) in nodes;
    }
    Least(nodes).id
  }

  lemma LeastStringExact(s: set<string>)
    requires s != {}
    ensures forall x :: x in s ==> StrLe(LeastString(s), x)
  {
    var nodes := set x | x in s :: Node(Repo, x);
    forall x | x in s
      ensures StrLe(LeastString(s), x)
    {
      assert Node(Repo, x) in nodes;
      NodeLeExact(Least(nodes), Node(Repo, x));
    }
  }

  const IMPL_CONFIDENCE := 1.0
  const CONSUME_CONFIDENCE := 0.85
  const NO_LINE := -1

  function ContractEdge(src: string, id: string, kind: EdgeKind, path: string): Edge
  {
    Edge(EdgeKey(Node(Repo, src), Contract, id, kind, path, NO_LINE), Node(Contract, id),
         if kind == ContractImpl then IMPL_CONFIDENCE else CONSUME_CONFIDENCE, false, false, None)
  }

  function Entries(c: ContractNode): set<PathEntry>
  {
    (set p | p in c.sources && Lists(c, p)) + (set p | p in c.generated && Lists(c, p))
  }

  /** `infer_contract_edges` for one contract: at most one edge from the owner, and one per
      path of every other listed consumer. */
  function InferredFor(c: ContractNode): set<Edge>
  {
    if c.owner.None? then {}
    else
      var owned := set p | p in Entries(c) && p.repo == c.owner.value :: p.path;
      (if owned == {} then {} else {ContractEdge(c.owner.value, c.id, ContractImpl, LeastString(owned))})
      + set p | p in Entries(c) && p.repo in c.consumers && p.repo != c.owner.value ::
          ContractEdge(p.repo, c.id, ContractConsume, p.path)
  }

  function Inferred(cs: Contracts): set<Edge>
  {
    set id, e | id in cs && e in InferredFor(cs[id]) :: e
  }
}
