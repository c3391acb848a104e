/**
 Step 6b: the deterministic iterative depth-first search that classifies the arcs inside a
 component as TREE, FORWARD, CROSS or BACK.

 `Step` is one turn of the search over an explicit state and `Run` takes turns to the end;
 `DepthFirst` is the program's loop.  `adj` gives every member its children, in the order they
 are visited.  The program's stack pairs each node with the iterator over its children; a node
 is stacked at most once, so here `stack` holds the nodes and `its` the children each iterator
 has left.  The state carries one component the program does not keep, the order `fin` in
 which nodes are finished; it is what ranks the arcs that are not BACK.
 */
module DfsClasses {
  import opened Digraph

  datatype EdgeClass = Tree | Forward | Cross | Back

  type Dag<T(==)> = set<Arc<T>>
  type Classes<T(==)> = map<Arc<T>, EdgeClass>
  type Lists<T(==)> = map<T, seq<T>>
  type Numbers<T(==)> = map<T, nat>

  datatype Dfs<T(==)> = Dfs(
    roots: seq<T>,
    stack: seq<T>,
    its: Numbers<T>,
    disc: Numbers<T>,
    gray: set<T>,
    clock: nat,
    classes: Classes<T>,
    fin: Numbers<T>,
    pos: Numbers<T>)

  function Start<T(==)>(roots: seq<T>): Dfs<T>
  {
    Dfs(roots, [], map[], map[], {}, 0, map[], map[], map[])
  }

  /** Children are members. */
  predicate Closed<T(==)>(adj: Lists<T>)
  {
    forall n, i :: n in adj && 0 <= i < |adj[n]| ==> adj[n][i] in adj
  }

  /** Enough of the state's shape for a step to be defined and to make progress. */
  predicate Runnable<T(==)>(adj: Lists<T>, s: Dfs<T>)
  {
    && Closed(adj)
    && s.disc.Keys <= adj.Keys
    && (forall i :: 0 <= i < |s.roots| ==> s.roots[i] in adj)
    && (forall i :: 0 <= i < |s.stack| ==> s.stack[i] in s.disc)
    && (forall n :: n in s.disc ==> n in s.its && n in adj && s.its[n] <= |adj[n]|)
  }

  predicate Finished<T(==)>(s: Dfs<T>) { s.stack == [] && s.roots == [] }

  function Top<T(==)>(s: Dfs<T>): T
    requires s.stack != []
  {
    s.stack[|s.stack| - 1]
  }

  function Discover<T(==)>(s: Dfs<T>, n: T): Dfs<T>
  {
    var now := s.clock + 1;
    Dfs(s.roots, s.stack + [n], s.its[n := 0], s.disc[n := now], s.gray + {n}, now, s.classes, s.fin,
        s.pos[n := |s.stack|])
  }

  function Finish<T(==)>(s: Dfs<T>): Dfs<T>
    requires s.stack != []
  {
    s.(stack := s.stack[..|s.stack| - 1], gray := s.gray - {Top(s)}, fin := s.fin[Top(s) := |s.fin|])
  }

  function ClassOf<T(==)>(s: Dfs<T>, node: T, child: T): EdgeClass
    requires node in s.disc
  {
    if child !in s.disc then Tree
    else if child in s.gray then Back
    else if s.disc[child] > s.disc[node] then Forward
    else Cross
  }

  /** The top node's iterator has a child left. */
  predicate HasNext<T(==)>(adj: Lists<T>, s: Dfs<T>)
  {
    && s.stack != [] && Top(s) in s.disc && Top(s) in adj && Top(s) in s.its
    && s.its[Top(s)] < |adj[Top(s)]|
  }

  function Next<T(==)>(adj: Lists<T>, s: Dfs<T>): T
    requires HasNext(adj, s)
  {
    adj[Top(s)][s.its[Top(s)]]
  }

  /** Advance the top node's iterator and classify the arc to the child it yields. */
  function Scan<T(==)>(adj: Lists<T>, s: Dfs<T>): Dfs<T>
    requires HasNext(adj, s)
  {
    var node := Top(s);
    var child := Next(adj, s);
    s.(its := s.its[node := s.its[node] + 1],
       classes := s.classes[Arc(node, child) := ClassOf(s, node, child)])
  }

  function Step<T(==)>(adj: Lists<T>, s: Dfs<T>): Dfs<T>
    requires Runnable(adj, s) && !Finished(s)
  {
    if s.stack == [] then
      var s1 := s.(roots := s.roots[1..]);
      if s.roots[0] in s.disc then s1 else Discover(s1, s.roots[0])
    else if s.its[Top(s)] == |adj[Top(s)]| then
      Finish(s)
    else if Next(adj, s) in s.disc then
      Scan(adj, s)
    else
      Discover(Scan(adj, s), Next(adj, s))
  }

  /** Children still to be scanned, plus one per stacked node. */
  function Work<T(==)>(adj: Lists<T>, stack: seq<T>, its: Numbers<T>): nat
  {
    if stack == [] then 0
    else
      var top := stack[|stack| - 1];
      var rest := Work(adj, stack[..|stack| - 1], its) + 1;
      if top in its && top in adj && its[top] <= |adj[top]| then rest + |adj[top]| - its[top] else rest
  }

  lemma {:induction false} WorkShrinks<T>(adj: Lists<T>, stack: seq<T>, its: Numbers<T>, n: T)
    requires n in its && n in adj && its[n] < |adj[n]|
    ensures Work(adj, stack, its[n := its[n] + 1]) <= Work(adj, stack, its)
    ensures stack != [] && stack[|stack| - 1] == n ==>
              Work(adj, stack, its[n := its[n] + 1]) < Work(adj, stack, its)
  {
    if stack != [] {
      WorkShrinks(adj, stack[..|stack| - 1], its, n);
    }
  }

  lemma DiscoverRunnable<T>(adj: Lists<T>, s: Dfs<T>, n: T)
    requires Runnable(adj, s) && n in adj
    ensures Runnable(adj, Discover(s, n))
  {
    var t := Discover(s, n);
    assert t.disc.Keys == s.disc.Keys + {n};
  }

  lemma ScanRunnable<T>(adj: Lists<T>, s: Dfs<T>)
    requires Runnable(adj, s) && HasNext(adj, s)
    ensures Runnable(adj, Scan(adj, s)) && Next(adj, s) in adj
  {
  }

  lemma StepRunnable<T>(adj: Lists<T>, s: Dfs<T>)
    requires Runnable(adj, s) && !Finished(s)
    ensures Runnable(adj, Step(adj, s))
  {
    if s.stack == [] {
      var s1 := s.(roots := s.roots[1..]);
      assert Runnable(adj, s1);
      if s.roots[0] !in s.disc {
        DiscoverRunnable(adj, s1, s.roots[0]);
      }
    } else if HasNext(adj, s) {
      ScanRunnable(adj, s);
      if Next(adj, s) !in s.disc {
        DiscoverRunnable(adj, Scan(adj, s), Next(adj, s));
      }
    }
  }

  ghost predicate Smaller<T>(adj: Lists<T>, t: Dfs<T>, s: Dfs<T>)
  {
    || adj.Keys - t.disc.Keys < adj.Keys - s.disc.Keys
    || (t.disc == s.disc && |t.roots| < |s.roots|)
    || (t.disc == s.disc && t.roots == s.roots && Work(adj, t.stack, t.its) < Work(adj, s.stack, s.its))
  }

  lemma DiscoverSmaller<T>(adj: Lists<T>, s: Dfs<T>, n: T)
    requires n in adj && n !in s.disc
    ensures adj.Keys - Discover(s, n).disc.Keys < adj.Keys - s.disc.Keys
  {
    var t := Discover(s, n);
    assert n in adj.Keys - s.disc.Keys && n !in adj.Keys - t.disc.Keys;
  }

  lemma StepSmaller<T>(adj: Lists<T>, s: Dfs<T>)
    requires Runnable(adj, s) && !Finished(s)
    ensures Smaller(adj, Step(adj, s), s)
  {
    if s.stack == [] {
      if s.roots[0] !in s.disc {
        DiscoverSmaller(adj, s.(roots := s.roots[1..]), s.roots[0]);
      }
    } else if HasNext(adj, s) {
      ScanRunnable(adj, s);
      if Next(adj, s) !in s.disc {
        DiscoverSmaller(adj, Scan(adj, s), Next(adj, s));
      } else {
        WorkShrinks(adj, s.stack, s.its, Top(s));
      }
    }
  }

  function Run<T(==)>(adj: Lists<T>, s: Dfs<T>): Dfs<T>
    requires Runnable(adj, s)
    decreases adj.Keys - s.disc.Keys, |s.roots|, Work(adj, s.stack, s.its)
  {
    if Finished(s) then s
    else
      StepRunnable(adj, s);
      StepSmaller(adj, s);
      Run(adj, Step(adj, s))
  }

  /** How many turns are left. */
  ghost function Turns<T>(adj: Lists<T>, s: Dfs<T>): nat
    requires Runnable(adj, s)
    decreases adj.Keys - s.disc.Keys, |s.roots|, Work(adj, s.stack, s.its)
  {
    if Finished(s) then 0
    else
      StepRunnable(adj, s);
      StepSmaller(adj, s);
      1 + Turns(adj, Step(adj, s))
  }

  lemma RunUnfolds<T>(adj: Lists<T>, s: Dfs<T>)
    requires Runnable(adj, s) && !Finished(s)
    ensures Runnable(adj, Step(adj, s))
    ensures Run(adj, s) == Run(adj, Step(adj, s)) && Turns(adj, Step(adj, s)) < Turns(adj, s)
  {
    StepRunnable(adj, s);
    StepSmaller(adj, s);
  }

  // ---------------------------------------------------------------------------------------
  // The program's loop
  // ---------------------------------------------------------------------------------------

  /** The inner loop: everything reachable from one freshly discovered root. */
  method VisitTree<T(==)>(adj: Lists<T>, root: T, its0: Numbers<T>, disc0: Numbers<T>,
                   gray0: set<T>, clock0: nat, classes0: Classes<T>,
                   ghost pending: seq<T>, ghost fin0: Numbers<T>, ghost pos0: Numbers<T>)
    returns (its: Numbers<T>, disc: Numbers<T>, gray: set<T>, clock: nat, classes: Classes<T>,
             ghost fin: Numbers<T>, ghost pos: Numbers<T>)
    requires Runnable(adj, Discover(Dfs(pending, [], its0, disc0, gray0, clock0, classes0, fin0, pos0), root))
    ensures Runnable(adj, Dfs(pending, [], its, disc, gray, clock, classes, fin, pos))
    ensures Run(adj, Dfs(pending, [], its, disc, gray, clock, classes, fin, pos))
         == Run(adj, Discover(Dfs(pending, [], its0, disc0, gray0, clock0, classes0, fin0, pos0), root))
  {
    ghost var entered := Discover(Dfs(pending, [], its0, disc0, gray0, clock0, classes0, fin0, pos0), root);
    clock := clock0 + 1;
    disc := disc0[root := clock];
    gray := gray0 + {root};
    classes, fin, pos := classes0, fin0, pos0[root := 0];
    var stack := [root];
    its := its0[root := 0];
    assert entered.clock == clock && entered.disc[root] == disc[root] && entered.disc == disc;
    assert entered.stack == stack && entered.pos == pos;
    while stack != []
      invariant Runnable(adj, Dfs(pending, stack, its, disc, gray, clock, classes, fin, pos))
      invariant Run(adj, Dfs(pending, stack, its, disc, gray, clock, classes, fin, pos)) == Run(adj, entered)
      decreases adj.Keys - disc.Keys, Work(adj, stack, its)
    {
      ghost var now := Dfs(pending, stack, its, disc, gray, clock, classes, fin, pos);
      StepRunnable(adj, now);
      StepSmaller(adj, now);
      ghost var after := Step(adj, now);
      var node := stack[|stack| - 1];
      if its[node] == |adj[node]| {
        gray := gray - {node};
        stack := stack[..|stack| - 1];
        fin := fin[node := |fin|];
      } else {
        var child := adj[node][its[node]];
        its := its[node := its[node] + 1];
        if child !in disc {
          classes := classes[Arc(node, child) := Tree];
          clock := clock + 1;
          disc := disc[child := clock];
          gray := gray + {child};
          pos := pos[child := |stack|];
          stack := stack + [child];
          its := its[child := 0];
          assert after.clock == clock && after.disc[child] == disc[child];
        } else if child in gray {
          classes := classes[Arc(node, child) := Back];
        } else if disc[child] > disc[node] {
          classes := classes[Arc(node, child) := Forward];
        } else {
          classes := classes[Arc(node, child) := Cross];
        }
      }
      assert after.its == its && after.stack == stack && after.gray == gray;
      assert after.disc == disc && after.classes == classes && after.fin == fin && after.pos == pos;
      assert after == Dfs(pending, stack, its, disc, gray, clock, classes, fin, pos);
    }
  }

  method DepthFirst<T(==)>(adj: Lists<T>, roots: seq<T>) returns (classes: Classes<T>)
    requires Runnable(adj, Start(roots))
    ensures classes == Run(adj, Start(roots)).classes
  {
    classes := map[];
    var its: Numbers<T> := map[];
    var disc: Numbers<T> := map[];
    var gray: set<T> := {};
    var clock: nat := 0;
    ghost var fin: Numbers<T> := map[];
    ghost var pos: Numbers<T> := map[];
    ghost var pending := roots;
    for i := 0 to |roots|
      invariant pending == roots[i..]
      invariant Runnable(adj, Dfs(pending, [], its, disc, gray, clock, classes, fin, pos))
      invariant Run(adj, Dfs(pending, [], its, disc, gray, clock, classes, fin, pos)) == Run(adj, Start(roots))
    {
      var root := roots[i];
      assert root == pending[0];
      StepRunnable(adj, Dfs(pending, [], its, disc, gray, clock, classes, fin, pos));
      pending := pending[1..];
      if root !in disc {
        its, disc, gray, clock, classes, fin, pos :=
          VisitTree(adj, root, its, disc, gray, clock, classes, pending, fin, pos);
      }
    }
  }
}
