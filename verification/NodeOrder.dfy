/**
 Graph nodes and the total order that makes every scan over them reproducible.

 A node is the pair (kind, id) and Python compares such pairs lexicographically by code
 point, so CONTRACT nodes precede REPO nodes and ids break the tie.
 */
module NodeOrder {

  predicate StrLe(a: string, b: string)
  {
    a == "" || (b != "" && (a[0] < b[0] || (a[0] == b[0] && StrLe(a[1..], b[1..]))))
  }

  lemma {:induction false} StrLeTotal(a: string, b: string)
    ensures StrLe(a, b) || StrLe(b, a)
  {
    if a != "" && b != "" && a[0] == b[0] {
      StrLeTotal(a[1..], b[1..]);
    }
  }

  lemma {:induction false} StrLeAntisymmetric(a: string, b: string)
    requires StrLe(a, b) && StrLe(b, a)
    ensures a == b
  {
    if a != "" && b != "" {
      StrLeAntisymmetric(a[1..], b[1..]);
      assert a == [a[0]] + a[1..] && b == [b[0]] + b[1..];
    }
  }

  lemma {:induction false} StrLeTransitive(a: string, b: string, c: string)
    requires StrLe(a, b) && StrLe(b, c)
    ensures StrLe(a, c)
  {
    if a != "" && a[0] == b[0] == c[0] {
      StrLeTransitive(a[1..], b[1..], c[1..]);
    }
  }

  /** `i` is where `a` and `b` first differ, and `a` is lower there. */
  ghost predicate LowerAt(a: string, b: string, i: nat)
  {
    i < |a| && i < |b| && a[..i] == b[..i] && a[i] < b[i]
  }

  /** Strings compare at their first difference; a prefix comes first. */
  lemma {:induction false} StrLeExact(a: string, b: string)
    ensures StrLe(a, b) <==> a <= b || exists i: nat :: LowerAt(a, b, i)
  {
    if a != "" && b != "" && a[0] == b[0] {
      StrLeExact(a[1..], b[1..]);
      assert a == [a[0]] + a[1..] && b == [b[0]] + b[1..];
      if i: nat :| LowerAt(a, b, i) {
        assert a[1..][..i - 1] == a[..i][1..] && b[1..][..i - 1] == b[..i][1..];
        assert LowerAt(a[1..], b[1..], i - 1);
      }
      if i: nat :| LowerAt(a[1..], b[1..], i) {
        assert a[..i + 1] == [a[0]] + a[1..][..i] && b[..i + 1] == [b[0]] + b[1..][..i];
        assert LowerAt(a, b, i + 1);
      }
    } else if a != "" && b != "" {
      if a[0] < b[0] {
        assert LowerAt(a, b, 0);
      }
      assert forall i: nat :: 0 < i < |a| && i < |b| ==> a[..i][0] == a[0] && b[..i][0] == b[0];
    }
  }

  datatype NodeKind = Contract | Repo

  datatype NodeRef = Node(kind: NodeKind, id: string)

  /** The pair as one string: both kinds start with a different letter, in kind order. */
  function SortKey(n: NodeRef): string
  {
    (if n.kind.Contract? then "C" else "R") + n.id
  }

  predicate NodeLe(a: NodeRef, b: NodeRef)
  {
    StrLe(SortKey(a), SortKey(b))
  }

  /** Contracts come before repositories, and ids decide among nodes of one kind. */
  lemma NodeLeExact(a: NodeRef, b: NodeRef)
    ensures NodeLe(a, b) <==> if a.kind == b.kind then StrLe(a.id, b.id) else a.kind.Contract?
  {
    assert SortKey(a)[1..] == a.id && SortKey(b)[1..] == b.id;
  }

  lemma NodeLeAntisymmetric(a: NodeRef, b: NodeRef)
    requires NodeLe(a, b) && NodeLe(b, a)
    ensures a == b
  {
    StrLeAntisymmetric(SortKey(a), SortKey(b));
    assert a.id == SortKey(a)[1..] && b.id == SortKey(b)[1..];
    assert SortKey(a)[0] == SortKey(b)[0];
  }

  predicate IsLeast(n: NodeRef, s: set<NodeRef>)
  {
    n in s && forall m :: m in s ==> NodeLe(n, m)
  }

  lemma {:induction false} LeastExists(s: set<NodeRef>) returns (n: NodeRef)
    requires s != {}
    ensures IsLeast(n, s)
  {
    var x :| x in s;
    if s == {x} {
      StrLeTotal(SortKey(x), SortKey(x));
      n := x;
    } else {
      var rest := s - {x};
      assert s == rest + {x};
      var m := LeastExists(rest);
      StrLeTotal(SortKey(x), SortKey(m));
      StrLeTotal(SortKey(x), SortKey(x));
      if NodeLe(x, m) {
        n := x;
        forall y | y in s
          ensures NodeLe(x, y)
        {
          if y != x {
            StrLeTransitive(SortKey(x), SortKey(m), SortKey(y));
          }
        }
      } else {
        n := m;
      }
    }
  }

  lemma LeastUnique(a: NodeRef, b: NodeRef, s: set<NodeRef>)
    requires IsLeast(a, s) && IsLeast(b, s)
    ensures a == b
  {
    NodeLeAntisymmetric(a, b);
  }

  function Least(s: set<NodeRef>): (n: NodeRef)
    requires s != {}
    ensures IsLeast(n, s)
  {
    assert exists n :: IsLeast(n, s) by {
      var n := LeastExists(s);
    }
    assert forall a, b :: IsLeast(a, s) && IsLeast(b, s) ==> a == b by {
      forall a, b | IsLeast(a, s) && IsLeast(b, s)
        ensures a == b
      {
        LeastUnique(a, b, s);
      }
    }
    var n :| n in s && IsLeast(n, s);
    n
  }

  /** `sorted(s)`: every member once. */
  function Sorted(s: set<NodeRef>): (r: seq<NodeRef>)
    ensures forall n :: n in r <==> n in s
    decreases s
  {
    if s == {} then []
    else
      var n := Least(s);
      assert n in s;
      var rest := Sorted(s - {n});
      assert forall m :: m in [n] + rest <==> m == n || m in rest;
      [n] + rest
  }

  lemma {:induction false} SortedAscends(s: set<NodeRef>, i: nat, j: nat)
    requires i < j < |Sorted(s)|
    ensures Sorted(s)[i] != Sorted(s)[j] && NodeLe(Sorted(s)[i], Sorted(s)[j])
    decreases s
  {
    var n := Least(s);
    var rest := Sorted(s - {n});
    assert Sorted(s)[j] == rest[j - 1] && rest[j - 1] in rest;
    if i > 0 {
      assert Sorted(s)[i] == rest[i - 1];
      SortedAscends(s - {n}, i - 1, j - 1);
    }
  }
}
