/**
 In what order the search of step 6b meets the members, which is what decides the arcs that come
 out BACK: the next member met is the first child not met yet of the member met last among those
 that have such a child, and where none has one, the first member not met yet.
 */
module DfsOrder {
  import opened Digraph
  import opened DfsClasses
  import opened DfsForest

  ghost predicate Before<T>(disc: Numbers<T>, w: T, v: T)
  {
    w in disc && v in disc && disc[w] < disc[v]
  }

  /** When `v` is met, `q` has been met and has a child that has not. */
  ghost predicate Open<T(!new)>(adj: Lists<T>, disc: Numbers<T>, v: T, q: T)
  {
    q in adj && Before(disc, q, v) && exists w :: w in adj[q] && !Before(disc, w, v)
  }

  ghost predicate IsTree<T>(classes: Classes<T>, q: T, v: T)
  {
    Arc(q, v) in classes && classes[Arc(q, v)] == Tree
  }

  /** `v` is the first child of `p` not met yet, and nothing met after `p` has a child to go to. */
  ghost predicate MetFrom<T(!new)>(adj: Lists<T>, s: Dfs<T>, v: T, p: T, i: nat)
  {
    && p in adj && i < |adj[p]| && adj[p][i] == v && Before(s.disc, p, v)
    && (forall j :: 0 <= j < i ==> Before(s.disc, adj[p][j], v))
    && (forall q :: Open(adj, s.disc, v, q) ==> s.disc[q] <= s.disc[p])
    && (forall q :: IsTree(s.classes, q, v) <==> q == p)
  }

  /** `v` is the first root not met yet, and nothing met has a child to go to. */
  ghost predicate MetAsRoot<T(!new)>(adj: Lists<T>, roots: seq<T>, s: Dfs<T>, v: T, i: nat)
  {
    && i < |roots| && roots[i] == v
    && (forall j :: 0 <= j < i ==> Before(s.disc, roots[j], v))
    && (forall q :: !Open(adj, s.disc, v, q))
    && (forall q :: !IsTree(s.classes, q, v))
  }

  ghost predicate InTurn<T(!new)>(adj: Lists<T>, roots: seq<T>, s: Dfs<T>, v: T)
  {
    v in s.disc && ((exists p, i: nat :: MetFrom(adj, s, v, p, i)) || exists i: nat :: MetAsRoot(adj, roots, s, v, i))
  }

  /** What is left of the roots, and that those gone were met. */
  ghost predicate RootsLeft<T>(roots: seq<T>, s: Dfs<T>)
  {
    && |s.roots| <= |roots| && s.roots == roots[|roots| - |s.roots|..]
    && forall j :: 0 <= j < |roots| - |s.roots| ==> roots[j] in s.disc
  }

  ghost predicate MetInTurn<T(!new)>(adj: Lists<T>, roots: seq<T>, s: Dfs<T>)
  {
    RootsLeft(roots, s) && forall v :: v in s.disc ==> InTurn(adj, roots, s, v)
  }

  /** From `s` to `t` nothing met before `v`, and no tree arc into `v`, changes. */
  ghost predicate SameFor<T(!new)>(s: Dfs<T>, t: Dfs<T>, v: T)
  {
    && v in s.disc && v in t.disc
    && (forall w :: Before(s.disc, w, v) <==> Before(t.disc, w, v))
    && (forall w :: w in s.disc ==> w in t.disc && t.disc[w] == s.disc[w])
    && (forall q :: IsTree(s.classes, q, v) <==> IsTree(t.classes, q, v))
  }

  lemma OpenSame<T(!new)>(adj: Lists<T>, s: Dfs<T>, t: Dfs<T>, v: T, q: T)
    requires SameFor(s, t, v)
    ensures Open(adj, s.disc, v, q) <==> Open(adj, t.disc, v, q)
  {
  }

  lemma InTurnStays<T(!new)>(adj: Lists<T>, roots: seq<T>, s: Dfs<T>, t: Dfs<T>, v: T)
    requires InTurn(adj, roots, s, v) && SameFor(s, t, v)
    ensures InTurn(adj, roots, t, v)
  {
    forall q
      ensures Open(adj, s.disc, v, q) <==> Open(adj, t.disc, v, q)
    {
      OpenSame(adj, s, t, v, q);
    }
    if p, i: nat :| MetFrom(adj, s, v, p, i) {
      assert MetFrom(adj, t, v, p, i);
    } else {
      var i: nat :| MetAsRoot(adj, roots, s, v, i);
      assert MetAsRoot(adj, roots, t, v, i);
    }
  }

  /** What is finished has no child to go to. */
  lemma OpenIsGray<T(!new)>(adj: Lists<T>, s: Dfs<T>, q: T)
    requires Inv(adj, s) && q in s.fin
    ensures q in adj && forall w :: w in adj[q] ==> w in s.disc
  {
    assert IteratorOk(adj, s, q);
    forall w | w in adj[q]
      ensures w in s.disc
    {
      var j :| 0 <= j < |adj[q]| && adj[q][j] == w;
      assert InnerArc(adj, s, Arc(q, w));
    }
  }

  lemma DiscoveredLast<T>(s: Dfs<T>, n: T)
    requires n !in s.disc && forall m :: m in s.disc ==> s.disc[m] <= s.clock
    ensures forall w :: Before(Discover(s, n).disc, w, n) <==> w in s.disc
    ensures forall v, w :: v in s.disc ==> (Before(Discover(s, n).disc, w, v) <==> Before(s.disc, w, v))
  {
  }

  lemma NotYetEntered<T(!new)>(adj: Lists<T>, s: Dfs<T>, n: T)
    requires Scanned(adj, s) && n !in s.disc
    ensures forall q :: Arc(q, n) !in s.classes
  {
    forall a | a in s.classes
      ensures a.dst != n
    {
      assert InnerArc(adj, s, a);
    }
  }

  lemma DiscoverSame<T(!new)>(s: Dfs<T>, n: T, v: T)
    requires n !in s.disc && v in s.disc && forall m :: m in s.disc ==> s.disc[m] <= s.clock
    ensures SameFor(s, Discover(s, n), v)
  {
    DiscoveredLast(s, n);
  }

  lemma ScanSame<T(!new)>(adj: Lists<T>, s: Dfs<T>, v: T)
    requires Scanned(adj, s) && HasNext(adj, s) && v in s.disc
    ensures SameFor(s, Scan(adj, s), v)
  {
    NextArcFresh(adj, s);
  }

  lemma AllStay<T(!new)>(adj: Lists<T>, roots: seq<T>, s: Dfs<T>, t: Dfs<T>)
    requires MetInTurn(adj, roots, s) && forall v :: v in s.disc ==> SameFor(s, t, v)
    ensures forall v :: v in s.disc ==> InTurn(adj, roots, t, v)
  {
    forall v | v in s.disc
      ensures InTurn(adj, roots, t, v)
    {
      InTurnStays(adj, roots, s, t, v);
    }
  }

  /** One more met, in its turn, and the others as they were. */
  lemma OneMoreMet<T(!new)>(adj: Lists<T>, roots: seq<T>, s: Dfs<T>, t: Dfs<T>, n: T)
    requires MetInTurn(adj, roots, s) && RootsLeft(roots, t) && InTurn(adj, roots, t, n)
    requires forall v :: v in t.disc ==> v == n || v in s.disc
    requires forall v :: v in s.disc ==> SameFor(s, t, v)
    ensures MetInTurn(adj, roots, t)
  {
    AllStay(adj, roots, s, t);
  }

  lemma RootInTurn<T(!new)>(adj: Lists<T>, roots: seq<T>, s: Dfs<T>)
    requires Inv(adj, s) && MetInTurn(adj, roots, s) && s.stack == [] && s.roots != [] && s.roots[0] !in s.disc
    ensures MetInTurn(adj, roots, Discover(s.(roots := s.roots[1..]), s.roots[0]))
  {
    var n := s.roots[0];
    var m := s.(roots := s.roots[1..]);
    var t := Discover(m, n);
    RootMet(adj, roots, s);
    forall v | v in s.disc
      ensures SameFor(s, t, v)
    {
      DiscoverSame(m, n, v);
    }
    OneMoreMet(adj, roots, s, t, n);
  }

  lemma RootMet<T(!new)>(adj: Lists<T>, roots: seq<T>, s: Dfs<T>)
    requires Inv(adj, s) && RootsLeft(roots, s) && s.stack == [] && s.roots != [] && s.roots[0] !in s.disc
    ensures
      MetAsRoot(adj, roots, Discover(s.(roots := s.roots[1..]), s.roots[0]), s.roots[0], |roots| - |s.roots|)
  {
    var n := s.roots[0];
    var t := Discover(s.(roots := s.roots[1..]), n);
    DiscoveredLast(s.(roots := s.roots[1..]), n);
    NotYetEntered(adj, s, n);
    forall q
      ensures !Open(adj, t.disc, n, q)
    {
      if q in s.fin {
        OpenIsGray(adj, s, q);
      }
    }
  }

  lemma ChildInTurn<T(!new)>(adj: Lists<T>, roots: seq<T>, s: Dfs<T>)
    requires AtTreeArc(adj, s) && MetInTurn(adj, roots, s)
    ensures MetInTurn(adj, roots, Discover(Scan(adj, s), Next(adj, s)))
  {
    var m, n := Scan(adj, s), Next(adj, s);
    ChildMet(adj, s);
    ChildLeavesOthers(adj, s);
    OneMoreMet(adj, roots, s, Discover(m, n), n);
  }

  lemma ChildLeavesOthers<T(!new)>(adj: Lists<T>, s: Dfs<T>)
    requires AtTreeArc(adj, s)
    ensures forall v :: v in s.disc ==> SameFor(s, Discover(Scan(adj, s), Next(adj, s)), v)
  {
    var m, n := Scan(adj, s), Next(adj, s);
    forall v | v in s.disc
      ensures SameFor(s, Discover(m, n), v)
    {
      ScanSame(adj, s, v);
      DiscoverSame(m, n, v);
    }
  }

  lemma ChildMet<T(!new)>(adj: Lists<T>, s: Dfs<T>)
    requires AtTreeArc(adj, s)
    ensures MetFrom(adj, Discover(Scan(adj, s), Next(adj, s)), Next(adj, s), Top(s), s.its[Top(s)])
  {
    var p, n := Top(s), Next(adj, s);
    var t := Discover(Scan(adj, s), n);
    DiscoveredLast(Scan(adj, s), n);
    NotYetEntered(adj, s, n);
    assert IteratorOk(adj, s, p);
    forall j | 0 <= j < s.its[p]
      ensures Before(t.disc, adj[p][j], n)
    {
      assert InnerArc(adj, s, Arc(p, adj[p][j]));
    }
    forall q | Open(adj, t.disc, n, q)
      ensures t.disc[q] <= t.disc[p]
    {
      if q in s.fin {
        OpenIsGray(adj, s, q);
      }
    }
  }

  /** A step that meets nobody changes nobody's turn. */
  lemma OtherInTurn<T(!new)>(adj: Lists<T>, roots: seq<T>, s: Dfs<T>, t: Dfs<T>)
    requires Scanned(adj, s) && MetInTurn(adj, roots, s) && t.disc == s.disc && RootsLeft(roots, t)
    requires t.classes == s.classes || (HasNext(adj, s) && Next(adj, s) in s.disc && t.classes == Scan(adj, s).classes)
    ensures MetInTurn(adj, roots, t)
  {
    forall v | v in s.disc
      ensures SameFor(s, t, v)
    {
      if t.classes != s.classes {
        ScanSame(adj, s, v);
      }
    }
    AllStay(adj, roots, s, t);
  }

  lemma StepInTurn<T(!new)>(adj: Lists<T>, roots: seq<T>, s: Dfs<T>)
    requires ListsDistinct(adj) && Inv(adj, s) && MetInTurn(adj, roots, s) && !Finished(s)
    ensures MetInTurn(adj, roots, Step(adj, s))
  {
    if s.stack == [] {
      if s.roots[0] in s.disc {
        OtherInTurn(adj, roots, s, Step(adj, s));
      } else {
        RootInTurn(adj, roots, s);
      }
    } else if HasNext(adj, s) && Next(adj, s) !in s.disc {
      ChildInTurn(adj, roots, s);
    } else {
      OtherInTurn(adj, roots, s, Step(adj, s));
    }
  }

  lemma {:induction false} RunInTurn<T(!new)>(adj: Lists<T>, roots: seq<T>, s: Dfs<T>)
    requires ListsDistinct(adj) && Inv(adj, s) && MetInTurn(adj, roots, s)
    ensures MetInTurn(adj, roots, Run(adj, s))
    decreases Turns(adj, s)
  {
    if !Finished(s) {
      RunUnfolds(adj, s);
      StepInv(adj, s);
      StepInTurn(adj, roots, s);
      RunInTurn(adj, roots, Step(adj, s));
    }
  }

  /** Every member is met, at a time of its own and in its turn. */
  lemma SearchInTurn<T(!new)>(adj: Lists<T>, roots: seq<T>) returns (s: Dfs<T>)
    requires Searchable(adj, roots)
    ensures Runnable(adj, Start(roots)) && s == Run(adj, Start(roots))
    ensures Timed(s) && forall v :: v in adj ==> InTurn(adj, roots, s, v)
  {
    s := RunComplete(adj, roots);
    StartInTurn(adj, roots);
  }

  lemma StartInTurn<T(!new)>(adj: Lists<T>, roots: seq<T>)
    requires Searchable(adj, roots)
    ensures Runnable(adj, Start(roots)) && MetInTurn(adj, roots, Run(adj, Start(roots)))
  {
    StartInv(adj, roots);
    RunInTurn(adj, roots, Start(roots));
  }
}
