/**
 `layer` (`graph/sequence.py`): longest-path layering of an acyclic graph whose arcs run from
 a dependent to its dependency.
 */
module Layers {
  import opened Digraph

  function MaxOf(s: set<nat>): (m: nat)
    requires s != {}
    ensures m in s && forall x :: x in s ==> x <= m
    decreases s
  {
    assert exists m :: m in s && forall x :: x in s ==> x <= m by {
      var m := MaxExists(s);
    }
    var m :| m in s && forall x :: x in s ==> x <= m;
    m
  }

  lemma {:induction false} MaxExists(s: set<nat>) returns (m: nat)
    requires s != {}
    ensures m in s && forall x :: x in s ==> x <= m
  {
    m :| m in s;
    if s != {m} {
      var rest := s - {m};
      assert s == rest + {m};
      var k := MaxExists(rest);
      m := if k <= m then m else k;
    }
  }

  type Waves<T(==)> = map<T, nat>

  /** `n` lies one above the highest of its dependencies, at 0 when it has none. */
  ghost predicate IsLayer<T(!new)>(arcs: set<Arc<T>>, w: Waves<T>, n: T)
  {
    && n in w
    && (forall v :: Arc(n, v) in arcs ==> v in w && w[v] < w[n])
    && (w[n] == 0 || exists v :: Arc(n, v) in arcs && v in w && w[v] + 1 == w[n])
  }

  ghost predicate Layering<T(!new)>(nodes: set<T>, arcs: set<Arc<T>>, w: Waves<T>)
  {
    w.Keys == nodes && forall n {:trigger IsLayer(arcs, w, n)} :: n in nodes ==> IsLayer(arcs, w, n)
  }

  ghost predicate Inside<T>(nodes: set<T>, arcs: set<Arc<T>>)
  {
    forall a :: a in arcs ==> a.src in nodes && a.dst in nodes
  }

  /** Any topological order will do: a node is taken once all its dependencies have a wave. */
  method Layer<T(==,!new)>(nodes: set<T>, arcs: set<Arc<T>>) returns (waves: Waves<T>)
    requires Acyclic(arcs) && Inside(nodes, arcs)
    ensures Layering(nodes, arcs, waves)
  {
    waves := map[];
    var todo := nodes;
    while todo != {}
      invariant todo <= nodes && waves.Keys == nodes - todo
      invariant forall n :: n in waves ==> IsLayer(arcs, waves, n)
      decreases todo
    {
      assert exists n :: n in todo && forall v :: v in todo ==> Arc(n, v) !in arcs by {
        var s :| s in todo;
        var n := AcyclicHasSink(arcs, todo, s);
      }
      var n :| n in todo && forall v :: v in todo ==> Arc(n, v) !in arcs;
      var deps := set v | v in waves && Arc(n, v) in arcs :: waves[v];
      ghost var before := waves;
      waves := waves[n := if deps == {} then 0 else MaxOf(deps) + 1];
      todo := todo - {n};
      NewLayer(nodes, arcs, before, n, deps, waves);
    }
  }

  lemma NewLayer<T(!new)>(nodes: set<T>, arcs: set<Arc<T>>, w: Waves<T>, n: T, deps: set<nat>, t: Waves<T>)
    requires Inside(nodes, arcs) && n !in w && Arc(n, n) !in arcs
    requires forall v :: Arc(n, v) in arcs ==> v in w
    requires forall m :: m in w ==> IsLayer(arcs, w, m)
    requires deps == set v | v in w && Arc(n, v) in arcs :: w[v]
    requires t == w[n := if deps == {} then 0 else MaxOf(deps) + 1]
    ensures forall m :: m in t ==> IsLayer(arcs, t, m)
  {
    forall m | m in t
      ensures IsLayer(arcs, t, m)
    {
      if m != n {
        assert IsLayer(arcs, w, m);
        if w[m] > 0 {
          var v :| Arc(m, v) in arcs && v in w && w[v] + 1 == w[m];
          assert v in t && t[v] + 1 == t[m];
        }
      } else {
        forall v | Arc(n, v) in arcs
          ensures v in t && t[v] < t[n]
        {
          assert w[v] in deps;
        }
        if deps != {} {
          var v :| v in w && Arc(n, v) in arcs && w[v] == MaxOf(deps);
          assert v in t && t[v] + 1 == t[n];
        }
      }
    }
  }

  // ---------------------------------------------------------------------------------------
  // What a layering is
  // ---------------------------------------------------------------------------------------

  /** A node's wave is the length of its longest dependency path: some path has it ... */
  lemma {:induction false} PathOfLength<T(!new)>(nodes: set<T>, arcs: set<Arc<T>>, w: Waves<T>, n: T) returns (end: T)
    requires Layering(nodes, arcs, w) && n in nodes
    ensures end in nodes && ReachesIn(arcs, n, end, w[n])
    decreases w[n]
  {
    assert IsLayer(arcs, w, n);
    if w[n] == 0 {
      end := n;
    } else {
      var v :| Arc(n, v) in arcs && v in w && w[v] + 1 == w[n];
      end := PathOfLength(nodes, arcs, w, v);
    }
  }

  /** ... and none is longer. */
  lemma {:induction false} NoLongerPath<T(!new)>(nodes: set<T>, arcs: set<Arc<T>>, w: Waves<T>, n: T, end: T, k: nat)
    requires Layering(nodes, arcs, w) && n in nodes && ReachesIn(arcs, n, end, k)
    ensures end in nodes && w[end] + k <= w[n]
    decreases k
  {
    if k > 0 {
      assert IsLayer(arcs, w, n);
      var v :| Arc(n, v) in arcs && ReachesIn(arcs, v, end, k - 1);
      NoLongerPath(nodes, arcs, w, v, end, k - 1);
    }
  }

  /** No assignment that puts every node strictly above its dependencies is lower anywhere. */
  lemma {:induction false} LayeringIsLeast<T(!new)>(nodes: set<T>, arcs: set<Arc<T>>, w: Waves<T>, g: Waves<T>, n: T)
    requires Layering(nodes, arcs, w) && n in nodes && nodes <= g.Keys
    requires forall a :: a in arcs && a.src in g && a.dst in g ==> g[a.dst] < g[a.src]
    ensures w[n] <= g[n]
    decreases w[n]
  {
    assert IsLayer(arcs, w, n);
    if w[n] > 0 {
      var v :| Arc(n, v) in arcs && v in w && w[v] + 1 == w[n];
      LayeringIsLeast(nodes, arcs, w, g, v);
      assert Arc(n, v) in arcs;
    }
  }

  /** Hence the layering does not depend on the topological order taken. */
  lemma LayeringUnique<T(!new)>(nodes: set<T>, arcs: set<Arc<T>>, w: Waves<T>, x: Waves<T>)
    requires Inside(nodes, arcs) && Layering(nodes, arcs, w) && Layering(nodes, arcs, x)
    ensures w == x
  {
    forall n | n in nodes
      ensures w[n] == x[n]
    {
      Descends(nodes, arcs, w);
      Descends(nodes, arcs, x);
      LayeringIsLeast(nodes, arcs, w, x, n);
      LayeringIsLeast(nodes, arcs, x, w, n);
    }
  }

  lemma Descends<T(!new)>(nodes: set<T>, arcs: set<Arc<T>>, w: Waves<T>)
    requires Layering(nodes, arcs, w)
    ensures forall a :: a in arcs && a.src in w && a.dst in w ==> w[a.dst] < w[a.src]
  {
    forall a | a in arcs && a.src in w && a.dst in w
      ensures w[a.dst] < w[a.src]
    {
      assert IsLayer(arcs, w, a.src);
      assert Arc(a.src, a.dst) in arcs;
    }
  }

  /** Every layer below an occupied one is occupied. */
  lemma {:induction false} LayersAreContiguous<T(!new)>(nodes: set<T>, arcs: set<Arc<T>>, w: Waves<T>, n: T, i: nat)
    returns (m: T)
    requires Layering(nodes, arcs, w) && n in nodes && i <= w[n]
    ensures m in nodes && w[m] == i
    decreases w[n]
  {
    assert IsLayer(arcs, w, n);
    m := n;
    if i < w[n] {
      var v :| Arc(n, v) in arcs && v in w && w[v] + 1 == w[n];
      m := LayersAreContiguous(nodes, arcs, w, v, i);
    }
  }

  /** A cyclic graph has no layering: `layer` relies on its caller's check. */
  lemma LayeringNeedsAcyclic<T(!new)>(nodes: set<T>, arcs: set<Arc<T>>, w: Waves<T>)
    requires Inside(nodes, arcs) && Layering(nodes, arcs, w)
    ensures Acyclic(arcs)
  {
    var rank := n => if n in w then w[n] as int else -1;
    forall a | a in arcs
      ensures rank(a.dst) < rank(a.src)
    {
      Descends(nodes, arcs, w);
    }
    RankedIsAcyclic(arcs, rank);
  }
}
