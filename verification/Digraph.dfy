/**
 Finite directed graphs: reachability, cycles and strongly connected components.

 The program leans on networkx for these notions.  Here they are given an independent
 meaning (`Reaches`, `Acyclic`) and computable counterparts (`ReachSet`, `IsAcyclic`)
 whose contracts tie them to that meaning.
 */
module Digraph {

  datatype Arc<T> = Arc(src: T, dst: T)

  /** `v` can be reached from `u` along exactly `n` arcs. */
  ghost predicate ReachesIn<T(!new)>(arcs: set<Arc<T>>, u: T, v: T, n: nat)
  {
    if n == 0 then u == v else exists w :: Arc(u, w) in arcs && ReachesIn(arcs, w, v, n - 1)
  }

  ghost predicate Reaches<T(!new)>(arcs: set<Arc<T>>, u: T, v: T)
  {
    exists n: nat :: ReachesIn(arcs, u, v, n)
  }

  /** Nobody can return to the source of an arc from its destination. */
  ghost predicate Acyclic<T(!new)>(arcs: set<Arc<T>>)
  {
    forall a :: a in arcs ==> !Reaches(arcs, a.dst, a.src)
  }

  lemma ReachesRefl<T(!new)>(arcs: set<Arc<T>>, u: T)
    ensures Reaches(arcs, u, u)
  {
    assert ReachesIn(arcs, u, u, 0);
  }

  lemma {:induction false} ReachesInAdd<T(!new)>(arcs: set<Arc<T>>, u: T, v: T, w: T, m: nat, n: nat)
    requires ReachesIn(arcs, u, v, m) && ReachesIn(arcs, v, w, n)
    ensures ReachesIn(arcs, u, w, m + n)
    decreases m
  {
    if m > 0 {
      var x :| Arc(u, x) in arcs && ReachesIn(arcs, x, v, m - 1);
      ReachesInAdd(arcs, x, v, w, m - 1, n);
    }
  }

  lemma ReachesTrans<T(!new)>(arcs: set<Arc<T>>, u: T, v: T, w: T)
    requires Reaches(arcs, u, v) && Reaches(arcs, v, w)
    ensures Reaches(arcs, u, w)
  {
    var m: nat :| ReachesIn(arcs, u, v, m);
    var n: nat :| ReachesIn(arcs, v, w, n);
    ReachesInAdd(arcs, u, v, w, m, n);
  }

  lemma ReachesArc<T(!new)>(arcs: set<Arc<T>>, u: T, v: T)
    requires Arc(u, v) in arcs
    ensures Reaches(arcs, u, v)
  {
    assert ReachesIn(arcs, v, v, 0);
    assert ReachesIn(arcs, u, v, 1);
  }

  /** The last arc of a walk, where `ReachesIn` exposes the first. */
  lemma {:induction false} ReachesInLast<T(!new)>(arcs: set<Arc<T>>, u: T, v: T, n: nat) returns (w: T)
    requires n > 0 && ReachesIn(arcs, u, v, n)
    ensures ReachesIn(arcs, u, w, n - 1) && Arc(w, v) in arcs
    decreases n
  {
    var x :| Arc(u, x) in arcs && ReachesIn(arcs, x, v, n - 1);
    if n == 1 {
      w := u;
    } else {
      w := ReachesInLast(arcs, x, v, n - 1);
    }
  }

  lemma {:induction false} ReachesInMono<T(!new)>(arcs: set<Arc<T>>, more: set<Arc<T>>, u: T, v: T, n: nat)
    requires arcs <= more && ReachesIn(arcs, u, v, n)
    ensures ReachesIn(more, u, v, n)
    decreases n
  {
    if n > 0 {
      var x :| Arc(u, x) in arcs && ReachesIn(arcs, x, v, n - 1);
      ReachesInMono(arcs, more, x, v, n - 1);
    }
  }

  lemma ReachesMono<T(!new)>(arcs: set<Arc<T>>, more: set<Arc<T>>, u: T, v: T)
    requires arcs <= more && Reaches(arcs, u, v)
    ensures Reaches(more, u, v)
  {
    var n: nat :| ReachesIn(arcs, u, v, n);
    ReachesInMono(arcs, more, u, v, n);
  }

  /** A set that no arc leaves cannot be escaped. */
  lemma {:induction false} ClosedSetKeeps<T(!new)>(arcs: set<Arc<T>>, inside: set<T>, u: T, v: T, n: nat)
    requires forall a :: a in arcs && a.src in inside ==> a.dst in inside
    requires u in inside && ReachesIn(arcs, u, v, n)
    ensures v in inside
    decreases n
  {
    if n > 0 {
      var x :| Arc(u, x) in arcs && ReachesIn(arcs, x, v, n - 1);
      ClosedSetKeeps(arcs, inside, x, v, n - 1);
    }
  }

  /** A strictly decreasing rank rules out cycles. */
  lemma RankedIsAcyclic<T(!new)>(arcs: set<Arc<T>>, rank: T -> int)
    requires forall a :: a in arcs ==> rank(a.dst) < rank(a.src)
    ensures Acyclic(arcs)
  {
    forall a | a in arcs
      ensures !Reaches(arcs, a.dst, a.src)
    {
      if Reaches(arcs, a.dst, a.src) {
        var n: nat :| ReachesIn(arcs, a.dst, a.src, n);
        RankDescends(arcs, rank, a.dst, a.src, n);
      }
    }
  }

  lemma {:induction false} RankDescends<T(!new)>(arcs: set<Arc<T>>, rank: T -> int, u: T, v: T, n: nat)
    requires forall a :: a in arcs ==> rank(a.dst) < rank(a.src)
    requires ReachesIn(arcs, u, v, n)
    ensures rank(v) <= rank(u) - n
    decreases n
  {
    if n > 0 {
      var x :| Arc(u, x) in arcs && ReachesIn(arcs, x, v, n - 1);
      assert Arc(u, x) in arcs;
      RankDescends(arcs, rank, x, v, n - 1);
    }
  }

  // ---------------------------------------------------------------------------------------
  // Computing reachability
  // ---------------------------------------------------------------------------------------

  function Heads<T(==)>(arcs: set<Arc<T>>): set<T>
  {
    set a | a in arcs :: a.dst
  }

  function Grow<T(==)>(arcs: set<Arc<T>>, seen: set<T>): set<T>
  {
    seen + set a | a in arcs && a.src in seen :: a.dst
  }

  function Saturate<T(==)>(arcs: set<Arc<T>>, seen: set<T>): set<T>
    decreases Heads(arcs) - seen
  {
    var next := Grow(arcs, seen);
    if next == seen then
      seen
    else
      assert exists x :: x in next && x !in seen;
      assert Heads(arcs) - next < Heads(arcs) - seen by {
        var x :| x in next && x !in seen;
        assert x in Heads(arcs) - seen && x !in Heads(arcs) - next;
      }
      Saturate(arcs, next)
  }

  lemma {:induction false} SaturateSound<T(!new)>(arcs: set<Arc<T>>, u: T, seen: set<T>)
    requires forall v :: v in seen ==> Reaches(arcs, u, v)
    ensures forall v :: v in Saturate(arcs, seen) ==> Reaches(arcs, u, v)
    decreases Heads(arcs) - seen
  {
    var next := Grow(arcs, seen);
    if next != seen {
      forall v | v in next
        ensures Reaches(arcs, u, v)
      {
        if v !in seen {
          var a :| a in arcs && a.src in seen && a.dst == v;
          assert Arc(a.src, v) in arcs;
          ReachesArc(arcs, a.src, v);
          ReachesTrans(arcs, u, a.src, v);
        }
      }
      assert Heads(arcs) - next < Heads(arcs) - seen by {
        var x :| x in next && x !in seen;
        assert x in Heads(arcs) - seen && x !in Heads(arcs) - next;
      }
      SaturateSound(arcs, u, next);
    }
  }

  lemma {:induction false} SaturateClosed<T(!new)>(arcs: set<Arc<T>>, seen: set<T>)
    ensures seen <= Saturate(arcs, seen)
    ensures forall a :: a in arcs && a.src in Saturate(arcs, seen) ==> a.dst in Saturate(arcs, seen)
    decreases Heads(arcs) - seen
  {
    var next := Grow(arcs, seen);
    if next == seen {
      forall a | a in arcs && a.src in seen
        ensures a.dst in seen
      {
        assert a.dst in next;
      }
    } else {
      assert Heads(arcs) - next < Heads(arcs) - seen by {
        var x :| x in next && x !in seen;
        assert x in Heads(arcs) - seen && x !in Heads(arcs) - next;
      }
      SaturateClosed(arcs, next);
    }
  }

  /** Everything reachable from `u`, `u` included. */
  function ReachSet<T(==,!new)>(arcs: set<Arc<T>>, u: T): (r: set<T>)
    ensures forall v :: v in r <==> Reaches(arcs, u, v)
  {
    ReachSetExact(arcs, u);
    Saturate(arcs, {u})
  }

  lemma ReachSetExact<T(!new)>(arcs: set<Arc<T>>, u: T)
    ensures forall v :: v in Saturate(arcs, {u}) <==> Reaches(arcs, u, v)
  {
    ReachesRefl(arcs, u);
    SaturateSound(arcs, u, {u});
    SaturateClosed(arcs, {u});
    forall v | Reaches(arcs, u, v)
      ensures v in Saturate(arcs, {u})
    {
      var n: nat :| ReachesIn(arcs, u, v, n);
      ClosedSetKeeps(arcs, Saturate(arcs, {u}), u, v, n);
    }
  }

  predicate IsAcyclic<T(==,!new)>(arcs: set<Arc<T>>)
    ensures IsAcyclic(arcs) <==> Acyclic(arcs)
  {
    forall a :: a in arcs ==> a.src !in ReachSet(arcs, a.dst)
  }

  /** In an acyclic graph every nonempty set has a member with no arc into the set. */
  lemma {:induction false} AcyclicHasSink<T(!new)>(arcs: set<Arc<T>>, s: set<T>, start: T) returns (sink: T)
    requires Acyclic(arcs) && start in s
    ensures sink in s && forall v :: v in s ==> Arc(sink, v) !in arcs
    decreases ReachSet(arcs, start)
  {
    if v :| v in s && Arc(start, v) in arcs {
      ReachesArc(arcs, start, v);
      forall w | w in ReachSet(arcs, v)
        ensures w in ReachSet(arcs, start)
      {
        ReachesTrans(arcs, start, v, w);
      }
      ReachesRefl(arcs, start);
      assert start in ReachSet(arcs, start) && start !in ReachSet(arcs, v) by {
        assert Arc(start, v) in arcs;
      }
      sink := AcyclicHasSink(arcs, s, v);
    } else {
      sink := start;
    }
  }

  // ---------------------------------------------------------------------------------------
  // Strongly connected components
  // ---------------------------------------------------------------------------------------

  ghost predicate Mutual<T(!new)>(arcs: set<Arc<T>>, u: T, v: T)
  {
    Reaches(arcs, u, v) && Reaches(arcs, v, u)
  }

  function Component<T(==,!new)>(nodes: set<T>, arcs: set<Arc<T>>, u: T): (r: set<T>)
    ensures forall v :: v in r <==> v in nodes && Mutual(arcs, u, v)
  {
    set v | v in nodes && v in ReachSet(arcs, u) && u in ReachSet(arcs, v)
  }

  lemma MutualTrans<T(!new)>(arcs: set<Arc<T>>, u: T, v: T, w: T)
    requires Mutual(arcs, u, v) && Mutual(arcs, v, w)
    ensures Mutual(arcs, u, w)
  {
    ReachesTrans(arcs, u, v, w);
    ReachesTrans(arcs, w, v, u);
  }

  lemma SameComponent<T(!new)>(nodes: set<T>, arcs: set<Arc<T>>, u: T, v: T)
    requires Mutual(arcs, u, v)
    ensures Component(nodes, arcs, u) == Component(nodes, arcs, v)
  {
    forall w | w in Component(nodes, arcs, u)
      ensures w in Component(nodes, arcs, v)
    {
      MutualTrans(arcs, v, u, w);
    }
    forall w | w in Component(nodes, arcs, v)
      ensures w in Component(nodes, arcs, u)
    {
      MutualTrans(arcs, u, v, w);
    }
  }
}
