/**
 What the classification of step 6b means: every inner arc gets one class, the arcs that are
 not BACK form an acyclic graph, and the class of an arc is its place in the search forest.
 */
module DfsForest {
  import opened Digraph
  import opened DfsClasses

  function ArcsOf<T(==)>(adj: Lists<T>): Dag<T>
  {
    set n, v | n in adj && v in adj[n] :: Arc(n, v)
  }

  function TreeArcs<T(==)>(classes: Classes<T>): Dag<T>
  {
    set a | a in classes && classes[a] == Tree
  }

  function NonBackArcs<T(==)>(classes: Classes<T>): Dag<T>
  {
    set a | a in classes && classes[a] != Back
  }

  /** A search over members `adj.Keys`, each child listed once, from roots that cover them. */
  ghost predicate Searchable<T(!new)>(adj: Lists<T>, roots: seq<T>)
  {
    && Closed(adj)
    && ListsDistinct(adj)
    && (forall n :: n in roots <==> n in adj)
  }

  ghost predicate ListsDistinct<T>(adj: Lists<T>)
  {
    forall n, i, j :: n in adj && 0 <= i < j < |adj[n]| ==> adj[n][i] != adj[n][j]
  }

  // ---------------------------------------------------------------------------------------
  // The invariant of the search, in five parts
  // ---------------------------------------------------------------------------------------

  /** The stack holds the gray nodes, each at its recorded position. */
  ghost predicate Stacked<T>(s: Dfs<T>)
  {
    && (forall i :: 0 <= i < |s.stack| ==> s.stack[i] in s.gray && s.stack[i] in s.pos && s.pos[s.stack[i]] == i)
    && (forall n :: n in s.gray ==> n in s.pos && s.pos[n] < |s.stack| && s.stack[s.pos[n]] == n)
  }

  /** A discovered node is gray or finished. */
  ghost predicate Colored<T>(s: Dfs<T>)
  {
    && (forall n :: n in s.gray ==> n in s.disc && n !in s.fin)
    && (forall n :: n in s.fin ==> n in s.disc && s.fin[n] < |s.fin|)
    && (forall n :: n in s.disc ==> n in s.gray || n in s.fin)
  }

  /** Of `n`'s arcs, the classified ones are those its iterator has passed. */
  ghost predicate IteratorOk<T>(adj: Lists<T>, s: Dfs<T>, n: T)
  {
    && n in s.its && n in adj
    && (forall j :: 0 <= j < |adj[n]| ==> (Arc(n, adj[n][j]) in s.classes <==> j < s.its[n]))
  }

  ghost predicate InnerArc<T>(adj: Lists<T>, s: Dfs<T>, a: Arc<T>)
  {
    a.src in s.disc && a.dst in s.disc && a in ArcsOf(adj)
  }

  ghost predicate Scanned<T>(adj: Lists<T>, s: Dfs<T>)
  {
    && (forall n :: n in s.disc ==> IteratorOk(adj, s, n))
    && (forall n :: n in s.fin && n in adj && n in s.its ==> s.its[n] == |adj[n]|)
    && (forall a :: a in s.classes ==> InnerArc(adj, s, a))
  }

  /** No member is forgotten. */
  ghost predicate Covered<T>(adj: Lists<T>, s: Dfs<T>)
  {
    forall n :: n in adj ==> n in s.roots || n in s.disc
  }

  ghost predicate Finishes<T>(s: Dfs<T>, a: Arc<T>)
  {
    if a.dst in s.fin then a.src in s.fin ==> s.fin[a.dst] < s.fin[a.src]
    else a.dst in s.gray && a.dst in s.pos && 0 < s.pos[a.dst] < |s.stack| && s.stack[s.pos[a.dst] - 1] == a.src
  }

  /** Arcs that are not BACK point at something finished earlier, or one node up the stack. */
  ghost predicate Ordered<T>(s: Dfs<T>)
  {
    forall a :: a in s.classes && s.classes[a] != Back ==> Finishes(s, a)
  }

  ghost predicate TimeFits<T>(s: Dfs<T>, a: Arc<T>)
  {
    && a in s.classes && a.src in s.disc && a.dst in s.disc
    && match s.classes[a]
       case Tree => s.disc[a.src] < s.disc[a.dst]
       case Forward => s.disc[a.src] < s.disc[a.dst]
       case Cross => s.disc[a.dst] < s.disc[a.src]
       case Back => s.disc[a.dst] <= s.disc[a.src]
  }

  /** Discovery times: distinct, rising along the stack, and consistent with every class. */
  ghost predicate Timed<T>(s: Dfs<T>)
  {
    && (forall n :: n in s.disc ==> s.disc[n] <= s.clock)
    && (forall m, n :: m in s.disc && n in s.disc && m != n ==> s.disc[m] != s.disc[n])
    && (forall n :: n in s.gray ==> n in s.disc && s.stack != [] && Top(s) in s.disc && s.disc[n] <= s.disc[Top(s)])
    && (forall i, j :: 0 <= i < j < |s.stack| && s.stack[i] in s.disc && s.stack[j] in s.disc ==>
          s.disc[s.stack[i]] < s.disc[s.stack[j]])
    && (forall a :: a in s.classes ==> TimeFits(s, a))
  }

  ghost predicate ForestFits<T(!new)>(classes: Classes<T>, a: Arc<T>)
  {
    && a in classes
    && match classes[a]
       case Tree => Reaches(TreeArcs(classes), a.src, a.dst)
       case Forward => Reaches(TreeArcs(classes), a.src, a.dst)
       case Cross => true
       case Back => Reaches(TreeArcs(classes), a.dst, a.src)
  }

  ghost predicate Descends<T(!new)>(s: Dfs<T>, n: T, v: T)
  {
    n in s.disc && v in s.disc && (s.disc[n] <= s.disc[v] ==> Reaches(TreeArcs(s.classes), n, v))
  }

  /** Everything discovered since a gray node is its descendant in the forest. */
  ghost predicate Grown<T(!new)>(s: Dfs<T>)
  {
    && (forall n, v :: n in s.gray && v in s.disc ==> Descends(s, n, v))
    && (forall a :: a in s.classes ==> ForestFits(s.classes, a))
  }

  ghost predicate Inv<T(!new)>(adj: Lists<T>, s: Dfs<T>)
  {
    && Runnable(adj, s) && Stacked(s) && Colored(s)
    && Scanned(adj, s) && Ordered(s) && Timed(s) && Grown(s)
  }

  lemma StartInv<T(!new)>(adj: Lists<T>, roots: seq<T>)
    requires Searchable(adj, roots)
    ensures Inv(adj, Start(roots))
  {
  }

  // ---------------------------------------------------------------------------------------
  // Finishing a node
  // ---------------------------------------------------------------------------------------

  lemma FinishStacked<T>(s: Dfs<T>)
    requires Stacked(s) && s.stack != []
    ensures Stacked(Finish(s))
  {
    assert forall m :: m in Finish(s).gray ==> s.pos[m] != |s.stack| - 1;
  }

  lemma FinishColored<T>(s: Dfs<T>)
    requires Colored(s) && s.stack != [] && Top(s) in s.gray
    ensures Colored(Finish(s))
  {
    var t := Finish(s);
    assert |t.fin| == |s.fin| + 1 by {
      assert t.fin.Keys == s.fin.Keys + {Top(s)};
    }
  }

  lemma FinishScanned<T>(adj: Lists<T>, s: Dfs<T>)
    requires Scanned(adj, s) && s.stack != [] && Top(s) in adj && Top(s) in s.its && s.its[Top(s)] == |adj[Top(s)]|
    ensures Scanned(adj, Finish(s))
  {
    var t := Finish(s);
    forall m | m in t.disc
      ensures IteratorOk(adj, t, m)
    {
      assert IteratorOk(adj, s, m);
    }
    forall a | a in t.classes
      ensures InnerArc(adj, t, a)
    {
      assert InnerArc(adj, s, a);
    }
  }

  lemma FinishFinishes<T>(s: Dfs<T>, a: Arc<T>)
    requires Stacked(s) && Colored(s) && Finishes(s, a) && s.stack != [] && Top(s) in s.gray
    ensures Finishes(Finish(s), a)
  {
    var t := Finish(s);
    if a.dst in s.fin {
      assert a.dst in t.fin && t.fin[a.dst] == s.fin[a.dst];
    } else {
      assert s.stack[s.pos[a.dst] - 1] in s.gray;
      if a.dst != Top(s) {
        assert s.pos[a.dst] < |t.stack|;
      }
    }
  }

  lemma FinishOrdered<T>(s: Dfs<T>)
    requires Stacked(s) && Colored(s) && Ordered(s) && s.stack != [] && Top(s) in s.gray
    ensures Ordered(Finish(s))
  {
    forall a | a in s.classes && s.classes[a] != Back
      ensures Finishes(Finish(s), a)
    {
      FinishFinishes(s, a);
    }
  }

  lemma FinishTimed<T>(s: Dfs<T>)
    requires Stacked(s) && Timed(s) && s.stack != []
    ensures Timed(Finish(s))
  {
    var t := Finish(s);
    forall a | a in t.classes
      ensures TimeFits(t, a)
    {
      assert TimeFits(s, a);
    }
    forall m | m in t.gray
      ensures m in t.disc && t.stack != [] && Top(t) in t.disc && t.disc[m] <= t.disc[Top(t)]
    {
      assert s.pos[m] < |s.stack| - 1;
      assert Top(t) == s.stack[|s.stack| - 2] && Top(t) in s.gray;
    }
  }

  lemma FinishGrown<T(!new)>(s: Dfs<T>)
    requires Grown(s) && s.stack != []
    ensures Grown(Finish(s))
  {
    var t := Finish(s);
    forall m, v | m in t.gray && v in t.disc
      ensures Descends(t, m, v)
    {
      assert Descends(s, m, v);
    }
  }

  lemma FinishInv<T(!new)>(adj: Lists<T>, s: Dfs<T>)
    requires Inv(adj, s) && s.stack != [] && !HasNext(adj, s)
    ensures Inv(adj, Finish(s))
  {
    assert Top(s) in s.gray;
    FinishStacked(s);
    FinishColored(s);
    FinishScanned(adj, s);
    FinishOrdered(s);
    FinishTimed(s);
    FinishGrown(s);
  }

  // ---------------------------------------------------------------------------------------
  // Scanning an arc to a node already discovered
  // ---------------------------------------------------------------------------------------

  function NextArc<T>(adj: Lists<T>, s: Dfs<T>): Arc<T>
    requires HasNext(adj, s)
  {
    Arc(Top(s), Next(adj, s))
  }

  lemma NextArcFresh<T>(adj: Lists<T>, s: Dfs<T>)
    requires Scanned(adj, s) && HasNext(adj, s)
    ensures NextArc(adj, s) !in s.classes && NextArc(adj, s) in ArcsOf(adj)
  {
    assert IteratorOk(adj, s, Top(s));
    assert Next(adj, s) in adj[Top(s)];
  }

  lemma ScanIterators<T>(adj: Lists<T>, s: Dfs<T>, n: T)
    requires ListsDistinct(adj) && HasNext(adj, s) && IteratorOk(adj, s, n)
    ensures IteratorOk(adj, Scan(adj, s), n)
  {
  }

  lemma ScanScanned<T>(adj: Lists<T>, s: Dfs<T>)
    requires ListsDistinct(adj) && Colored(s) && Scanned(adj, s) && HasNext(adj, s) && Next(adj, s) in s.disc
    requires Top(s) in s.gray
    ensures Scanned(adj, Scan(adj, s))
  {
    var t := Scan(adj, s);
    NextArcFresh(adj, s);
    forall m | m in t.disc
      ensures IteratorOk(adj, t, m)
    {
      ScanIterators(adj, s, m);
    }
    forall a | a in t.classes
      ensures InnerArc(adj, t, a)
    {
      if a != NextArc(adj, s) {
        assert InnerArc(adj, s, a);
      }
    }
  }

  lemma ScanTimed<T>(adj: Lists<T>, s: Dfs<T>)
    requires Timed(s) && HasNext(adj, s) && Next(adj, s) in s.disc && Top(s) in s.gray
    ensures Timed(Scan(adj, s))
  {
    var t := Scan(adj, s);
    forall a | a in t.classes
      ensures TimeFits(t, a)
    {
      if a != NextArc(adj, s) {
        assert TimeFits(s, a);
      }
    }
  }

  lemma ScanOrdered<T>(adj: Lists<T>, s: Dfs<T>)
    requires Colored(s) && Ordered(s) && HasNext(adj, s) && Next(adj, s) in s.disc && Top(s) in s.gray
    ensures Ordered(Scan(adj, s))
  {
    var t := Scan(adj, s);
    forall a | a in t.classes && t.classes[a] != Back
      ensures Finishes(t, a)
    {
      if a != NextArc(adj, s) {
        assert Finishes(s, a);
      }
    }
  }

  /** Classifying a new arc only adds to the forest. */
  lemma ForestGrows<T(!new)>(classes: Classes<T>, a: Arc<T>, c: EdgeClass, u: T, v: T)
    requires a !in classes && Reaches(TreeArcs(classes), u, v)
    ensures Reaches(TreeArcs(classes[a := c]), u, v)
  {
    ReachesMono(TreeArcs(classes), TreeArcs(classes[a := c]), u, v);
  }

  lemma OldArcsFit<T(!new)>(classes: Classes<T>, a: Arc<T>, c: EdgeClass, b: Arc<T>)
    requires a !in classes && a != b && ForestFits(classes, b)
    ensures ForestFits(classes[a := c], b)
  {
    if Reaches(TreeArcs(classes), b.src, b.dst) {
      ForestGrows(classes, a, c, b.src, b.dst);
    }
    if Reaches(TreeArcs(classes), b.dst, b.src) {
      ForestGrows(classes, a, c, b.dst, b.src);
    }
  }

  lemma ScanGrown<T(!new)>(adj: Lists<T>, s: Dfs<T>)
    requires Grown(s) && HasNext(adj, s) && Next(adj, s) in s.disc && Top(s) in s.gray
    requires NextArc(adj, s) !in s.classes
    requires Next(adj, s) in s.gray ==> s.disc[Next(adj, s)] <= s.disc[Top(s)]
    ensures Grown(Scan(adj, s))
  {
    var t := Scan(adj, s);
    var a := NextArc(adj, s);
    var c := ClassOf(s, a.src, a.dst);
    forall n, v | n in t.gray && v in t.disc
      ensures Descends(t, n, v)
    {
      assert Descends(s, n, v);
      if s.disc[n] <= s.disc[v] {
        ForestGrows(s.classes, a, c, n, v);
      }
    }
    forall b | b in t.classes
      ensures ForestFits(t.classes, b)
    {
      if b != a {
        OldArcsFit(s.classes, a, c, b);
      } else {
        assert Descends(t, a.src, a.dst);
        if a.dst in s.gray {
          assert Descends(t, a.dst, a.src);
        }
      }
    }
  }

  lemma ScanInv<T(!new)>(adj: Lists<T>, s: Dfs<T>)
    requires ListsDistinct(adj) && Inv(adj, s) && HasNext(adj, s) && Next(adj, s) in s.disc
    ensures Inv(adj, Scan(adj, s))
  {
    assert Top(s) in s.gray;
    ScanRunnable(adj, s);
    NextArcFresh(adj, s);
    ScanScanned(adj, s);
    ScanOrdered(adj, s);
    ScanTimed(adj, s);
    ScanGrown(adj, s);
  }

  // ---------------------------------------------------------------------------------------
  // Discovering a node: a new root, or the child a TREE arc leads to
  // ---------------------------------------------------------------------------------------

  lemma DiscoverStacked<T>(s: Dfs<T>, n: T)
    requires Stacked(s) && n !in s.gray
    ensures Stacked(Discover(s, n))
  {
  }

  lemma DiscoverColored<T>(s: Dfs<T>, n: T)
    requires Colored(s) && n !in s.disc
    ensures Colored(Discover(s, n))
  {
  }

  lemma DiscoverIterators<T>(adj: Lists<T>, s: Dfs<T>, n: T, m: T)
    requires n in adj && n !in s.disc
    requires forall a :: a in s.classes ==> a.src in s.disc
    requires m in s.disc ==> IteratorOk(adj, s, m)
    requires m in s.disc || m == n
    ensures IteratorOk(adj, Discover(s, n), m)
  {
  }

  lemma DiscoverTimed<T>(s: Dfs<T>, n: T)
    requires n !in s.disc
    requires forall m :: m in s.disc ==> s.disc[m] <= s.clock
    requires forall m, n :: m in s.disc && n in s.disc && m != n ==> s.disc[m] != s.disc[n]
    requires forall m :: m in s.gray ==> m in s.disc
    requires forall i :: 0 <= i < |s.stack| ==> s.stack[i] in s.disc
    requires forall i, j :: 0 <= i < j < |s.stack| ==> s.disc[s.stack[i]] < s.disc[s.stack[j]]
    requires forall a :: a in s.classes ==> TimeFits(Discover(s, n), a)
    ensures Timed(Discover(s, n))
  {
  }

  // -- a new root --------------------------------------------------------------------------

  lemma RootInv<T(!new)>(adj: Lists<T>, s: Dfs<T>, n: T)
    requires Inv(adj, s) && s.stack == [] && n in adj && n !in s.disc
    ensures Inv(adj, Discover(s, n))
  {
    var t := Discover(s, n);
    DiscoverRunnable(adj, s, n);
    DiscoverStacked(s, n);
    DiscoverColored(s, n);
    assert Scanned(adj, t) by {
      forall a | a in s.classes
        ensures a.src in s.disc && InnerArc(adj, t, a)
      {
        assert InnerArc(adj, s, a);
      }
      forall m | m in t.disc
        ensures IteratorOk(adj, t, m)
      {
        DiscoverIterators(adj, s, n, m);
      }
    }
    assert Ordered(t) by {
      forall a | a in t.classes && t.classes[a] != Back
        ensures Finishes(t, a)
      {
        assert Finishes(s, a);
      }
    }
    RootTimed(s, n);
    RootGrown(s, n);
  }

  lemma RootTimed<T>(s: Dfs<T>, n: T)
    requires Stacked(s) && Timed(s) && s.stack == [] && n !in s.disc
    ensures Timed(Discover(s, n))
  {
    forall a | a in s.classes
      ensures TimeFits(Discover(s, n), a)
    {
      assert TimeFits(s, a);
    }
    DiscoverTimed(s, n);
  }

  lemma RootGrown<T(!new)>(s: Dfs<T>, n: T)
    requires Stacked(s) && Grown(s) && s.stack == [] && n !in s.disc
    requires forall m :: m in s.disc ==> s.disc[m] <= s.clock
    ensures Grown(Discover(s, n))
  {
    var t := Discover(s, n);
    ReachesRefl(TreeArcs(t.classes), n);
    forall m, v | m in t.gray && v in t.disc
      ensures Descends(t, m, v)
    {
      assert m == n;
    }
  }

  // -- the child a TREE arc leads to -------------------------------------------------------

  ghost predicate AtTreeArc<T(!new)>(adj: Lists<T>, s: Dfs<T>)
  {
    ListsDistinct(adj) && Inv(adj, s) && HasNext(adj, s) && Next(adj, s) !in s.disc
  }

  lemma TreeScanned<T(!new)>(adj: Lists<T>, s: Dfs<T>)
    requires AtTreeArc(adj, s)
    ensures Scanned(adj, Discover(Scan(adj, s), Next(adj, s)))
  {
    var m := Scan(adj, s);
    var child := Next(adj, s);
    var t := Discover(m, child);
    assert Top(s) in s.gray;
    NextArcFresh(adj, s);
    forall a | a in t.classes
      ensures a.src in m.disc && InnerArc(adj, t, a)
    {
      if a != NextArc(adj, s) {
        assert InnerArc(adj, s, a);
      }
    }
    assert child in adj;
    forall n | n in t.disc
      ensures IteratorOk(adj, t, n)
    {
      if n in s.disc {
        ScanIterators(adj, s, n);
      }
      DiscoverIterators(adj, m, child, n);
    }
  }

  lemma TreeFinishes<T>(adj: Lists<T>, s: Dfs<T>, a: Arc<T>)
    requires HasNext(adj, s) && Finishes(s, a) && a.dst != Next(adj, s)
    ensures Finishes(Discover(Scan(adj, s), Next(adj, s)), a)
  {
  }

  lemma TreeOrdered<T>(adj: Lists<T>, s: Dfs<T>)
    requires Ordered(s) && HasNext(adj, s) && Next(adj, s) !in s.fin
    requires forall a :: a in s.classes ==> a.dst != Next(adj, s)
    ensures Ordered(Discover(Scan(adj, s), Next(adj, s)))
  {
    var t := Discover(Scan(adj, s), Next(adj, s));
    forall a | a in t.classes && t.classes[a] != Back
      ensures Finishes(t, a)
    {
      if a != NextArc(adj, s) {
        TreeFinishes(adj, s, a);
      }
    }
  }

  lemma TreeTimed<T>(adj: Lists<T>, s: Dfs<T>)
    requires Timed(s) && HasNext(adj, s) && Next(adj, s) !in s.disc
    requires forall i :: 0 <= i < |s.stack| ==> s.stack[i] in s.disc
    ensures Timed(Discover(Scan(adj, s), Next(adj, s)))
  {
    var m := Scan(adj, s);
    forall a | a in m.classes
      ensures TimeFits(Discover(m, Next(adj, s)), a)
    {
      if a != NextArc(adj, s) {
        assert TimeFits(s, a);
      }
    }
    DiscoverTimed(m, Next(adj, s));
  }

  lemma TreeGrown<T(!new)>(adj: Lists<T>, s: Dfs<T>)
    requires AtTreeArc(adj, s)
    ensures Grown(Discover(Scan(adj, s), Next(adj, s)))
  {
    var a := NextArc(adj, s);
    var t := Discover(Scan(adj, s), a.dst);
    assert t.classes == s.classes[a := Tree];
    NextArcFresh(adj, s);
    assert a in TreeArcs(t.classes);
    ReachesArc(TreeArcs(t.classes), a.src, a.dst);
    ReachesRefl(TreeArcs(t.classes), a.dst);
    forall n, v | n in t.gray && v in t.disc
      ensures Descends(t, n, v)
    {
      TreeDescends(adj, s, n, v);
    }
    forall b | b in t.classes
      ensures ForestFits(t.classes, b)
    {
      if b != a {
        OldArcsFit(s.classes, a, Tree, b);
      }
    }
  }

  lemma TreeDescends<T(!new)>(adj: Lists<T>, s: Dfs<T>, n: T, v: T)
    requires AtTreeArc(adj, s) && NextArc(adj, s) !in s.classes
    requires n in s.gray || n == Next(adj, s)
    requires v in s.disc || v == Next(adj, s)
    requires Reaches(TreeArcs(s.classes[NextArc(adj, s) := Tree]), Top(s), Next(adj, s))
    requires Reaches(TreeArcs(s.classes[NextArc(adj, s) := Tree]), Next(adj, s), Next(adj, s))
    ensures Descends(Discover(Scan(adj, s), Next(adj, s)), n, v)
  {
    var a := NextArc(adj, s);
    if n in s.gray {
      if v in s.disc {
        assert Descends(s, n, v);
        if s.disc[n] <= s.disc[v] {
          ForestGrows(s.classes, a, Tree, n, v);
        }
      } else {
        assert Descends(s, n, a.src);
        ForestGrows(s.classes, a, Tree, n, a.src);
        ReachesTrans(TreeArcs(s.classes[a := Tree]), n, a.src, a.dst);
      }
    }
  }

  lemma TreeInv<T(!new)>(adj: Lists<T>, s: Dfs<T>)
    requires AtTreeArc(adj, s)
    ensures Inv(adj, Discover(Scan(adj, s), Next(adj, s)))
  {
    ScanRunnable(adj, s);
    DiscoverRunnable(adj, Scan(adj, s), Next(adj, s));
    DiscoverStacked(Scan(adj, s), Next(adj, s));
    DiscoverColored(Scan(adj, s), Next(adj, s));
    TreeScanned(adj, s);
    assert forall a :: a in s.classes ==> InnerArc(adj, s, a);
    TreeOrdered(adj, s);
    TreeTimed(adj, s);
    TreeGrown(adj, s);
  }

  // ---------------------------------------------------------------------------------------
  // The whole search
  // ---------------------------------------------------------------------------------------

  lemma StepInv<T(!new)>(adj: Lists<T>, s: Dfs<T>)
    requires ListsDistinct(adj) && Inv(adj, s) && !Finished(s)
    ensures Inv(adj, Step(adj, s))
  {
    if s.stack == [] {
      var s1 := s.(roots := s.roots[1..]);
      assert Inv(adj, s1) by {
        RootsDoNotMatter(adj, s, s1.roots);
      }
      if s.roots[0] !in s.disc {
        RootInv(adj, s1, s.roots[0]);
      }
    } else if HasNext(adj, s) {
      if Next(adj, s) in s.disc {
        ScanInv(adj, s);
      } else {
        TreeInv(adj, s);
      }
    } else {
      FinishInv(adj, s);
    }
  }

  lemma RootsDoNotMatter<T(!new)>(adj: Lists<T>, s: Dfs<T>, roots: seq<T>)
    requires Inv(adj, s) && forall i :: 0 <= i < |roots| ==> roots[i] in adj
    ensures Inv(adj, s.(roots := roots))
  {
    RootsScanned(adj, s, roots);
    RootsOrdered(s, roots);
    RootsTimed(s, roots);
    RootsGrown(s, roots);
  }

  lemma RootsScanned<T>(adj: Lists<T>, s: Dfs<T>, roots: seq<T>)
    requires Scanned(adj, s)
    ensures Scanned(adj, s.(roots := roots))
  {
    var t := s.(roots := roots);
    forall n | n in t.disc
      ensures IteratorOk(adj, t, n)
    {
      assert IteratorOk(adj, s, n);
    }
    forall a | a in t.classes
      ensures InnerArc(adj, t, a)
    {
      assert InnerArc(adj, s, a);
    }
  }

  lemma RootsOrdered<T>(s: Dfs<T>, roots: seq<T>)
    requires Ordered(s)
    ensures Ordered(s.(roots := roots))
  {
    var t := s.(roots := roots);
    forall a | a in t.classes && t.classes[a] != Back
      ensures Finishes(t, a)
    {
      assert Finishes(s, a);
    }
  }

  lemma RootsTimed<T>(s: Dfs<T>, roots: seq<T>)
    requires Timed(s)
    ensures Timed(s.(roots := roots))
  {
    var t := s.(roots := roots);
    forall a | a in t.classes
      ensures TimeFits(t, a)
    {
      assert TimeFits(s, a);
    }
  }

  lemma RootsGrown<T(!new)>(s: Dfs<T>, roots: seq<T>)
    requires Grown(s)
    ensures Grown(s.(roots := roots))
  {
    var t := s.(roots := roots);
    forall n, v | n in t.gray && v in t.disc
      ensures Descends(t, n, v)
    {
      assert Descends(s, n, v);
    }
  }

  lemma StepCovered<T>(adj: Lists<T>, s: Dfs<T>)
    requires Runnable(adj, s) && Covered(adj, s) && !Finished(s)
    ensures Covered(adj, Step(adj, s))
  {
    if s.stack == [] {
      assert s.roots == [s.roots[0]] + s.roots[1..];
    }
  }

  lemma {:induction false} RunInv<T(!new)>(adj: Lists<T>, s: Dfs<T>)
    requires ListsDistinct(adj) && Inv(adj, s) && Covered(adj, s)
    ensures Finished(Run(adj, s)) && Inv(adj, Run(adj, s)) && Covered(adj, Run(adj, s))
    decreases Turns(adj, s)
  {
    if !Finished(s) {
      RunUnfolds(adj, s);
      StepInv(adj, s);
      StepCovered(adj, s);
      RunInv(adj, Step(adj, s));
    }
  }

  ghost predicate AllFinished<T>(adj: Lists<T>, s: Dfs<T>)
  {
    forall n :: n in adj ==> n in s.disc && n in s.fin
  }

  lemma EndsAllFinished<T>(adj: Lists<T>, s: Dfs<T>)
    requires Finished(s) && Stacked(s) && Colored(s) && Covered(adj, s)
    ensures AllFinished(adj, s)
  {
  }

  lemma RunComplete<T(!new)>(adj: Lists<T>, roots: seq<T>) returns (s: Dfs<T>)
    requires Searchable(adj, roots)
    ensures Runnable(adj, Start(roots)) && s == Run(adj, Start(roots))
    ensures Scanned(adj, s) && Ordered(s) && Timed(s) && Grown(s) && AllFinished(adj, s)
  {
    StartInv(adj, roots);
    RunInv(adj, Start(roots));
    s := Run(adj, Start(roots));
    EndsAllFinished(adj, s);
  }

  lemma ScannedCoversArcs<T>(adj: Lists<T>, s: Dfs<T>)
    requires Scanned(adj, s) && AllFinished(adj, s)
    ensures s.classes.Keys == ArcsOf(adj)
    ensures forall a :: a in s.classes ==> a.src in adj && a.src in s.fin && a.dst in s.disc
  {
    forall a | a in s.classes
      ensures a in ArcsOf(adj)
    {
      assert InnerArc(adj, s, a);
    }
    forall a | a in ArcsOf(adj)
      ensures a in s.classes
    {
      assert IteratorOk(adj, s, a.src);
      var j :| 0 <= j < |adj[a.src]| && adj[a.src][j] == a.dst;
    }
  }

  lemma FinishOrderRanks<T(!new)>(adj: Lists<T>, s: Dfs<T>) returns (rank: T -> int)
    requires Closed(adj) && Ordered(s) && AllFinished(adj, s) && s.classes.Keys == ArcsOf(adj)
    ensures forall a :: a in NonBackArcs(s.classes) ==> rank(a.dst) < rank(a.src)
  {
    rank := n => if n in s.fin then s.fin[n] as int else -1;
    forall a | a in NonBackArcs(s.classes)
      ensures rank(a.dst) < rank(a.src)
    {
      assert a in ArcsOf(adj) && a.dst in adj;
      assert Finishes(s, a);
    }
  }

  lemma DiscoveryRanks<T(!new)>(s: Dfs<T>) returns (rank: T -> int)
    requires Timed(s)
    ensures forall a :: a in TreeArcs(s.classes) ==> rank(a.dst) < rank(a.src)
    ensures forall n :: n in s.disc ==> rank(n) + s.disc[n] == 0
  {
    rank := n => if n in s.disc then -(s.disc[n] as int) else 1;
    forall a | a in TreeArcs(s.classes)
      ensures rank(a.dst) < rank(a.src)
    {
      assert TimeFits(s, a);
    }
  }

  /** Every inner arc is classified once, and nothing else is. */
  lemma ClassifiesEveryArc<T(!new)>(adj: Lists<T>, roots: seq<T>)
    requires Searchable(adj, roots)
    ensures Runnable(adj, Start(roots)) && Run(adj, Start(roots)).classes.Keys == ArcsOf(adj)
  {
    var s := RunComplete(adj, roots);
    ScannedCoversArcs(adj, s);
  }

  /** Only BACK arcs close cycles. */
  lemma NonBackIsAcyclic<T(!new)>(adj: Lists<T>, roots: seq<T>)
    requires Searchable(adj, roots)
    ensures Runnable(adj, Start(roots)) && Acyclic(NonBackArcs(Run(adj, Start(roots)).classes))
  {
    var s := RunComplete(adj, roots);
    ScannedCoversArcs(adj, s);
    var rank := FinishOrderRanks(adj, s);
    RankedIsAcyclic(NonBackArcs(s.classes), rank);
  }

  /**
   The class of an arc is its place in the forest of TREE arcs: TREE and FORWARD lead to a
   proper descendant, BACK to an ancestor (or the node itself), CROSS to neither.
   */
  ghost predicate PlacedInForest<T(!new)>(classes: Classes<T>, a: Arc<T>)
  {
    var forest := TreeArcs(classes);
    && a in classes
    && match classes[a]
       case Tree => a.src != a.dst && Reaches(forest, a.src, a.dst)
       case Forward => a.src != a.dst && Reaches(forest, a.src, a.dst)
       case Back => Reaches(forest, a.dst, a.src)
       case Cross => !Reaches(forest, a.src, a.dst) && !Reaches(forest, a.dst, a.src)
  }

  lemma ClassesArePlaces<T(!new)>(adj: Lists<T>, roots: seq<T>, a: Arc<T>)
    requires Searchable(adj, roots) && a in ArcsOf(adj)
    ensures Runnable(adj, Start(roots)) && PlacedInForest(Run(adj, Start(roots)).classes, a)
  {
    var s := RunComplete(adj, roots);
    ScannedCoversArcs(adj, s);
    assert TimeFits(s, a) && ForestFits(s.classes, a);
    if s.classes[a] == Cross {
      var time := DiscoveryRanks(s);
      NoRankedPath(TreeArcs(s.classes), time, a.src, a.dst);
      var rank := FinishOrderRanks(adj, s);
      assert a in NonBackArcs(s.classes);
      NoRankedPath(TreeArcs(s.classes), rank, a.dst, a.src);
    }
  }

  lemma NoRankedPath<T(!new)>(arcs: Dag<T>, rank: T -> int, u: T, v: T)
    requires forall a :: a in arcs ==> rank(a.dst) < rank(a.src)
    requires rank(u) < rank(v)
    ensures !Reaches(arcs, u, v)
  {
    if Reaches(arcs, u, v) {
      var k: nat :| ReachesIn(arcs, u, v, k);
      RankDescends(arcs, rank, u, v, k);
    }
  }
}
