/**
 The order of the search of step 6b and what follows from it: `classify_intra_scc_edges`
 (`graph/cycles.py`) starts from the least member not met and always goes on to the least member in
 reach of the one met last.  There is one such search only, so that is all there is to know about
 which arcs come out BACK.
 */
module SearchOrder {
  import opened Digraph
  import opened NodeOrder
  import opened DfsClasses
  import opened DfsForest
  import opened DfsOrder
  import opened Components

  /** When `v` is met, `q` has been met and an inner arc leads from it to a member that has not. */
  ghost predicate LeadsOn(dag: Dag<NodeRef>, inside: set<NodeRef>, met: Numbers<NodeRef>, v: NodeRef, q: NodeRef)
  {
    q in inside && Before(met, q, v) && exists w :: w in inside && Arc(q, w) in dag && !Before(met, w, v)
  }

  /** `v` is met by the TREE arc from `p`, the member met last that leads on: of the members `p` leads
      to and that were not met, `v` is the least. */
  ghost predicate MetNext(dag: Dag<NodeRef>, inside: set<NodeRef>, classes: Classes<NodeRef>,
                          met: Numbers<NodeRef>, v: NodeRef, p: NodeRef)
  {
    && LeadsOn(dag, inside, met, v, p) && Arc(p, v) in dag
    && (forall q :: LeadsOn(dag, inside, met, v, q) ==> met[q] <= met[p])
    && (forall w :: w in inside && Arc(p, w) in dag && !Before(met, w, v) ==> NodeLe(v, w))
    && (forall q :: IsTree(classes, q, v) <==> q == p)
  }

  /** `v` starts a tree: nothing met leads on, and of the members not met it is the least. */
  ghost predicate MetAfresh(dag: Dag<NodeRef>, inside: set<NodeRef>, classes: Classes<NodeRef>,
                            met: Numbers<NodeRef>, v: NodeRef)
  {
    && (forall q :: !LeadsOn(dag, inside, met, v, q))
    && (forall w :: w in inside && !Before(met, w, v) ==> NodeLe(v, w))
    && (forall q :: !IsTree(classes, q, v))
  }

  lemma OpenLeadsOn(dag: Dag<NodeRef>, inside: set<NodeRef>, met: Numbers<NodeRef>, v: NodeRef, q: NodeRef)
    ensures Open(Adjacency(dag, inside), met, v, q) <==> LeadsOn(dag, inside, met, v, q)
  {
  }

  /** In a sorted list, what comes after an entry is above it. */
  lemma LeastLeft(s: set<NodeRef>, i: nat, w: NodeRef)
    requires i < |Sorted(s)| && w in s && w !in Sorted(s)[..i]
    ensures NodeLe(Sorted(s)[i], w)
  {
    var j :| 0 <= j < |Sorted(s)| && Sorted(s)[j] == w;
    if i < j {
      SortedAscends(s, i, j);
    } else if j == i {
      StrLeTotal(SortKey(w), SortKey(w));
    }
  }

  lemma InTurnIsNext(dag: Dag<NodeRef>, inside: set<NodeRef>, s: Dfs<NodeRef>, v: NodeRef)
    requires InTurn(Adjacency(dag, inside), Sorted(inside), s, v)
    ensures
      || MetAfresh(dag, inside, s.classes, s.disc, v)
      || exists p :: MetNext(dag, inside, s.classes, s.disc, v, p)
  {
    var adj := Adjacency(dag, inside);
    forall q
      ensures Open(adj, s.disc, v, q) <==> LeadsOn(dag, inside, s.disc, v, q)
    {
      OpenLeadsOn(dag, inside, s.disc, v, q);
    }
    if p, i: nat :| MetFrom(adj, s, v, p, i) {
      var children := set w | w in inside && Arc(p, w) in dag;
      assert adj[p] == Sorted(children) && v in adj[p];
      forall w | w in children && !Before(s.disc, w, v)
        ensures NodeLe(v, w)
      {
        LeastLeft(children, i, w);
      }
      assert MetNext(dag, inside, s.classes, s.disc, v, p);
    } else {
      var i: nat :| MetAsRoot(adj, Sorted(inside), s, v, i);
      forall w | w in inside && !Before(s.disc, w, v)
        ensures NodeLe(v, w)
      {
        LeastLeft(inside, i, w);
      }
    }
  }

  /** `classes` and `met` are those of a search of `inside`: every inner arc has its place in the forest
      of TREE arcs, every member is met in its turn, and the two agree. */
  ghost predicate IsSearch(dag: Dag<NodeRef>, inside: set<NodeRef>, classes: Classes<NodeRef>, met: Numbers<NodeRef>)
  {
    && classes.Keys == InnerArcs(dag, inside)
    && (forall v :: v in inside ==> v in met)
    && (forall v, w :: v in inside && w in inside && v != w ==> met[v] != met[w])
    && (forall v :: v in inside ==> IsMet(dag, inside, classes, met, v))
    && (forall a :: a in classes ==> Fits(classes, met, a) && PlacedInForest(classes, a))
  }

  ghost predicate IsMet(dag: Dag<NodeRef>, inside: set<NodeRef>, classes: Classes<NodeRef>,
                        met: Numbers<NodeRef>, v: NodeRef)
  {
    MetAfresh(dag, inside, classes, met, v) || exists p :: MetNext(dag, inside, classes, met, v, p)
  }

  /** TREE and FORWARD lead to a member met later. */
  ghost predicate Fits(classes: Classes<NodeRef>, met: Numbers<NodeRef>, a: Arc<NodeRef>)
    requires a in classes
  {
    a.src in met && a.dst in met && (met[a.src] < met[a.dst] <==> classes[a] in {Tree, Forward})
  }

  /** What the search records of its order. */
  lemma SearchTimes(dag: Dag<NodeRef>, inside: set<NodeRef>) returns (met: Numbers<NodeRef>)
    ensures forall v :: v in inside ==> v in met && IsMet(dag, inside, Classify(dag, inside), met, v)
    ensures forall v, w :: v in inside && w in inside && v in met && w in met && v != w ==> met[v] != met[w]
    ensures forall a :: a in Classify(dag, inside) ==> Fits(Classify(dag, inside), met, a)
  {
    AdjacencySearchable(dag, inside);
    var s := SearchInTurn(Adjacency(dag, inside), Sorted(inside));
    met := s.disc;
    forall v | v in inside
      ensures v in met && IsMet(dag, inside, s.classes, met, v)
    {
      InTurnIsNext(dag, inside, s, v);
    }
    forall a | a in s.classes
      ensures Fits(s.classes, met, a)
    {
      TimesFit(s, a);
    }
  }

  lemma TimesFit(s: Dfs<NodeRef>, a: Arc<NodeRef>)
    requires Timed(s) && a in s.classes
    ensures Fits(s.classes, s.disc, a)
  {
    assert TimeFits(s, a);
  }

  /** The classification is that of a search. */
  lemma ClassifyInOrder(dag: Dag<NodeRef>, inside: set<NodeRef>) returns (met: Numbers<NodeRef>)
    ensures IsSearch(dag, inside, Classify(dag, inside), met)
  {
    ClassifyExact(dag, inside);
    met := SearchTimes(dag, inside);
  }

  // ---------------------------------------------------------------------------------------
  // There is only one search
  // ---------------------------------------------------------------------------------------

  ghost function MetBefore(inside: set<NodeRef>, met: Numbers<NodeRef>, v: NodeRef): set<NodeRef>
  {
    set w | w in inside && Before(met, w, v)
  }

  /** Of the members left, the one met first. */
  lemma {:induction false} FirstOutside(left: set<NodeRef>, met: Numbers<NodeRef>) returns (v: NodeRef)
    requires left != {} && forall w :: w in left ==> w in met
    ensures v in left && forall w :: w in left ==> met[v] <= met[w]
  {
    v :| v in left;
    if left != {v} {
      var u := FirstOutside(left - {v}, met);
      assert left == (left - {v}) + {v};
      v := if met[u] <= met[v] then u else v;
    }
  }

  /** Two searches, `v` met in the one and `u` in the other after the same members in the same order. */
  ghost predicate AtSamePoint(inside: set<NodeRef>, met: Numbers<NodeRef>, v: NodeRef,
                              other: Numbers<NodeRef>, u: NodeRef)
  {
    && v in inside && u in inside
    && (forall w :: w in inside ==> (Before(met, w, v) <==> Before(other, w, u)))
    && (forall q, w :: q in inside && w in inside && Before(met, q, v) && Before(met, w, v) ==>
          (met[q] <= met[w] <==> other[q] <= other[w]))
  }

  lemma LeadsOnAlike(dag: Dag<NodeRef>, inside: set<NodeRef>, met: Numbers<NodeRef>, v: NodeRef,
                     other: Numbers<NodeRef>, u: NodeRef, q: NodeRef)
    requires AtSamePoint(inside, met, v, other, u)
    ensures LeadsOn(dag, inside, met, v, q) <==> LeadsOn(dag, inside, other, u, q)
  {
  }

  /** From the same point, both searches meet the same member, over the same TREE arc. */
  lemma SameNext(dag: Dag<NodeRef>, inside: set<NodeRef>, c: Classes<NodeRef>, met: Numbers<NodeRef>, v: NodeRef,
                 d: Classes<NodeRef>, other: Numbers<NodeRef>, u: NodeRef)
    requires IsMet(dag, inside, c, met, v) && IsMet(dag, inside, d, other, u)
    requires AtSamePoint(inside, met, v, other, u)
    requires forall x, y :: x in inside && y in inside && x in met && y in met && x != y ==> met[x] != met[y]
    ensures v == u && forall q :: IsTree(c, q, v) <==> IsTree(d, q, u)
  {
    forall q
      ensures LeadsOn(dag, inside, met, v, q) <==> LeadsOn(dag, inside, other, u, q)
    {
      LeadsOnAlike(dag, inside, met, v, other, u, q);
    }
    assert !Before(met, v, v) && !Before(other, u, u);
    if p :| MetNext(dag, inside, c, met, v, p) {
      assert !MetAfresh(dag, inside, d, other, u);
      var r :| MetNext(dag, inside, d, other, u, r);
      assert p == r;
    }
    NodeLeAntisymmetric(v, u);
  }

  /** What is met before `v` is met in the same order by the other search, which then meets `u`. */
  lemma SamePoint(inside: set<NodeRef>, met: Numbers<NodeRef>, v: NodeRef, other: Numbers<NodeRef>, u: NodeRef)
    requires v in inside && u in inside && !Before(met, u, v)
    requires forall w :: w in inside ==> w in met && w in other
    requires forall w, x :: w in inside && x in inside && w != x ==> met[w] != met[x] && other[w] != other[x]
    requires forall w :: w in inside && Before(met, w, v) ==> AtSamePoint(inside, met, w, other, w)
    requires forall w :: w in inside && !Before(met, w, v) ==> other[u] <= other[w]
    ensures AtSamePoint(inside, met, v, other, u)
  {
    forall w | w in inside
      ensures Before(met, w, v) <==> Before(other, w, u)
    {
      if Before(met, w, v) {
        assert AtSamePoint(inside, met, w, other, w);
        assert !Before(other, u, w);
      }
    }
    forall q, w | q in inside && w in inside && Before(met, q, v) && Before(met, w, v)
      ensures met[q] <= met[w] <==> other[q] <= other[w]
    {
      assert AtSamePoint(inside, met, w, other, w);
      assert Before(met, q, w) <==> Before(other, q, w);
    }
  }

  lemma {:induction false} SameOrder(dag: Dag<NodeRef>, inside: set<NodeRef>, c: Classes<NodeRef>,
      met: Numbers<NodeRef>, d: Classes<NodeRef>, other: Numbers<NodeRef>, v: NodeRef)
    requires IsSearch(dag, inside, c, met) && IsSearch(dag, inside, d, other) && v in inside
    ensures AtSamePoint(inside, met, v, other, v)
    ensures forall q :: IsTree(c, q, v) <==> IsTree(d, q, v)
    decreases MetBefore(inside, met, v)
  {
    var done := MetBefore(inside, met, v);
    forall w | w in done
      ensures AtSamePoint(inside, met, w, other, w)
    {
      assert w !in MetBefore(inside, met, w);
      SameOrder(dag, inside, c, met, d, other, w);
    }
    assert v in inside - done;
    var u := FirstOutside(inside - done, other);
    SamePoint(inside, met, v, other, u);
    SameNext(dag, inside, c, met, v, d, other, u);
  }

  lemma SameForest(dag: Dag<NodeRef>, inside: set<NodeRef>, c: Classes<NodeRef>, met: Numbers<NodeRef>,
                   d: Classes<NodeRef>, other: Numbers<NodeRef>)
    requires IsSearch(dag, inside, c, met) && IsSearch(dag, inside, d, other)
    ensures TreeArcs(c) == TreeArcs(d)
  {
    forall a | a in InnerArcs(dag, inside)
      ensures a in TreeArcs(c) <==> a in TreeArcs(d)
    {
      SameOrder(dag, inside, c, met, d, other, a.dst);
      assert IsTree(c, a.src, a.dst) <==> IsTree(d, a.src, a.dst);
    }
  }

  lemma SameClasses(dag: Dag<NodeRef>, inside: set<NodeRef>, c: Classes<NodeRef>, met: Numbers<NodeRef>,
                    d: Classes<NodeRef>, other: Numbers<NodeRef>)
    requires IsSearch(dag, inside, c, met) && IsSearch(dag, inside, d, other)
    ensures c == d
  {
    SameForest(dag, inside, c, met, d, other);
    forall a | a in c
      ensures a in d && c[a] == d[a]
    {
      SameOrder(dag, inside, c, met, d, other, a.dst);
      SameClass(c, met, d, other, a);
    }
  }

  /** A classification is the one computed if and only if it is that of a search. */
  lemma SearchIsUnique(dag: Dag<NodeRef>, inside: set<NodeRef>, c: Classes<NodeRef>)
    ensures c == Classify(dag, inside) <==> exists met :: IsSearch(dag, inside, c, met)
  {
    var other := ClassifyInOrder(dag, inside);
    if met :| IsSearch(dag, inside, c, met) {
      SameClasses(dag, inside, c, met, Classify(dag, inside), other);
    }
  }

  lemma SameClass(c: Classes<NodeRef>, met: Numbers<NodeRef>, d: Classes<NodeRef>, other: Numbers<NodeRef>,
                  a: Arc<NodeRef>)
    requires a in c && a in d && TreeArcs(c) == TreeArcs(d)
    requires PlacedInForest(c, a) && PlacedInForest(d, a) && Fits(c, met, a) && Fits(d, other, a)
    requires Before(met, a.src, a.dst) <==> Before(other, a.src, a.dst)
    ensures c[a] == d[a]
  {
    assert a in TreeArcs(c) <==> a in TreeArcs(d);
  }
}
