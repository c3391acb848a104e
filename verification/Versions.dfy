/**
 Versions are integer tuples of any length, compared as if padded with zeros (`_cmp` in
 `bazel/generators.py`).
 */
module Versions {
  type Version = seq<nat>

  // ---------------------------------------------------------------------------------------
  // The order
  // ---------------------------------------------------------------------------------------

  function Zeros(n: nat): (z: Version)
    ensures |z| == n && forall i :: 0 <= i < n ==> z[i] == 0
  {
    seq(n, _ => 0)
  }

  function Pad(v: Version, width: nat): (p: Version)
    ensures |p| == if width < |v| then |v| else width
    ensures forall i :: 0 <= i < |p| ==> p[i] == Part(v, i)
  {
    if width <= |v| then v else v + Zeros(width - |v|)
  }

  /** Tuples as the language compares them: by the first difference, a prefix before its extensions. */
  function Native(a: Version, b: Version): (c: int)
    ensures -1 <= c <= 1
  {
    if a == [] then (if b == [] then 0 else -1)
    else if b == [] then 1
    else if a[0] < b[0] then -1
    else if a[0] > b[0] then 1
    else Native(a[1..], b[1..])
  }

  function Cmp(a: Version, b: Version): (c: int)
    ensures -1 <= c <= 1
  {
    var width := if |a| < |b| then |b| else |a|;
    Native(Pad(a, width), Pad(b, width))
  }

  function Part(v: Version, i: nat): nat { if i < |v| then v[i] else 0 }

  /** `a` and `b` agree on their first `k` parts. */
  ghost predicate Agree(a: Version, b: Version, k: nat) { forall i :: 0 <= i < k ==> Part(a, i) == Part(b, i) }

  ghost predicate Same(a: Version, b: Version) { forall i: nat :: Part(a, i) == Part(b, i) }

  /** `a` is below `b`, first differing at part `k`. */
  ghost predicate BelowAt(a: Version, b: Version, k: nat) { Agree(a, b, k) && Part(a, k) < Part(b, k) }

  ghost predicate Below(a: Version, b: Version) { exists k: nat :: BelowAt(a, b, k) }

  lemma {:induction false} NativeExact(a: Version, b: Version)
    requires |a| == |b|
    ensures Native(a, b) == 0 <==> a == b
    ensures Native(a, b) < 0 ==> Below(a, b)
    ensures Native(a, b) > 0 ==> Below(b, a)
    decreases |a|
  {
    if a != [] {
      if a[0] == b[0] {
        NativeExact(a[1..], b[1..]);
        assert a == [a[0]] + a[1..] && b == [b[0]] + b[1..];
        if Native(a, b) < 0 {
          BelowTail(a, b);
        } else if Native(a, b) > 0 {
          BelowTail(b, a);
        }
      } else if a[0] < b[0] {
        assert BelowAt(a, b, 0);
      } else {
        assert BelowAt(b, a, 0);
      }
    }
  }

  lemma BelowTail(a: Version, b: Version)
    requires |a| == |b| > 0 && a[0] == b[0] && Below(a[1..], b[1..])
    ensures Below(a, b)
  {
    var k: nat :| BelowAt(a[1..], b[1..], k);
    forall i | 0 <= i < k + 1
      ensures Part(a, i) == Part(b, i)
    {
      if i > 0 {
        assert Part(a[1..], i - 1) == Part(b[1..], i - 1);
      }
    }
    assert Part(a, k + 1) == Part(a[1..], k) && Part(b, k + 1) == Part(b[1..], k);
    assert BelowAt(a, b, k + 1);
  }

  lemma BelowExcludes(a: Version, b: Version)
    requires Below(a, b)
    ensures !Same(a, b) && !Below(b, a)
  {
    var k: nat :| BelowAt(a, b, k);
    assert Part(a, k) != Part(b, k);
    forall j: nat
      ensures !BelowAt(b, a, j)
    {
      assert j < k ==> Part(a, j) == Part(b, j);
    }
  }

  lemma SamePads(a: Version, b: Version, p: Version, q: Version)
    requires forall i: nat :: Part(p, i) == Part(a, i)
    requires forall i: nat :: Part(q, i) == Part(b, i)
    ensures Below(p, q) ==> Below(a, b)
  {
    if Below(p, q) {
      var k: nat :| BelowAt(p, q, k);
      forall i | 0 <= i < k
        ensures Part(a, i) == Part(b, i)
      {
        assert Part(p, i) == Part(q, i);
      }
      assert BelowAt(a, b, k);
    }
  }

  /** The comparison is the order of the zero-padded parts. */
  lemma CmpExact(a: Version, b: Version)
    ensures Cmp(a, b) == 0 <==> Same(a, b)
    ensures Cmp(a, b) < 0 <==> Below(a, b)
    ensures Cmp(a, b) > 0 <==> Below(b, a)
  {
    var width := if |a| < |b| then |b| else |a|;
    var p, q := Pad(a, width), Pad(b, width);
    NativeExact(p, q);
    SamePads(a, b, p, q);
    SamePads(b, a, q, p);
    if Cmp(a, b) == 0 {
      forall i: nat
        ensures Part(a, i) == Part(b, i)
      {
        assert Part(p, i) == Part(q, i);
      }
    } else if Cmp(a, b) < 0 {
      BelowExcludes(a, b);
    } else {
      BelowExcludes(b, a);
    }
  }

  lemma BelowTransitive(a: Version, b: Version, c: Version)
    requires Below(a, b) && Below(b, c)
    ensures Below(a, c)
  {
    var j: nat :| BelowAt(a, b, j);
    var k: nat :| BelowAt(b, c, k);
    assert BelowAt(a, c, if j < k then j else k);
  }

  lemma BelowSame(a: Version, b: Version, c: Version)
    requires Same(b, c)
    ensures Below(a, b) ==> Below(a, c)
    ensures Below(b, a) ==> Below(c, a)
  {
    if Below(a, b) {
      var k: nat :| BelowAt(a, b, k);
      assert BelowAt(a, c, k);
    }
    if Below(b, a) {
      var k: nat :| BelowAt(b, a, k);
      assert BelowAt(c, a, k);
    }
  }

  /** A total preorder: what the algebra of ranges rests on. */
  lemma CmpOrder(a: Version, b: Version, c: Version)
    ensures Cmp(a, b) == -Cmp(b, a)
    ensures Cmp(a, b) <= 0 && Cmp(b, c) <= 0 ==> Cmp(a, c) <= 0
    ensures Cmp(a, b) <= 0 && Cmp(b, c) <= 0 && Cmp(a, c) == 0 ==> Cmp(a, b) == 0 && Cmp(b, c) == 0
  {
    CmpExact(a, b);
    CmpExact(b, a);
    CmpExact(b, c);
    CmpExact(a, c);
    if Cmp(a, b) < 0 && Cmp(b, c) < 0 {
      BelowTransitive(a, b, c);
    } else if Cmp(a, b) == 0 && Cmp(b, c) <= 0 {
      BelowSame(c, b, a);
    } else if Cmp(a, b) <= 0 && Cmp(b, c) == 0 {
      BelowSame(a, b, c);
    }
  }

  /** Sorting by the language's own order also sorts by the padded one. */
  lemma {:induction false} NativeRefines(a: Version, b: Version)
    requires Native(a, b) <= 0
    ensures Cmp(a, b) <= 0
    decreases |a|
  {
    CmpExact(a, b);
    if a == [] {
      assert forall k: nat :: !BelowAt(b, a, k);
    } else if a[0] == b[0] {
      NativeRefines(a[1..], b[1..]);
      CmpExact(a[1..], b[1..]);
      if Below(b, a) {
        var k: nat :| BelowAt(b, a, k);
        TailBelow(b, a, k);
      }
    } else {
      assert BelowAt(a, b, 0);
    }
  }

  lemma TailBelow(a: Version, b: Version, k: nat)
    requires a != [] && b != [] && a[0] == b[0] && BelowAt(a, b, k)
    ensures Below(a[1..], b[1..])
  {
    forall i | 0 <= i < k - 1
      ensures Part(a[1..], i) == Part(b[1..], i)
    {
      assert Part(a, i + 1) == Part(b, i + 1);
    }
    assert BelowAt(a[1..], b[1..], k - 1);
  }

  // ---------------------------------------------------------------------------------------
  // Density
  // ---------------------------------------------------------------------------------------

  /** Between any two versions lies another: pad the lower one and add a part. */
  lemma Dense(a: Version, b: Version) returns (m: Version)
    requires Cmp(a, b) < 0
    ensures Cmp(a, m) < 0 && Cmp(m, b) < 0
  {
    var width := if |a| < |b| then |b| else |a|;
    m := Pad(a, width) + [1];
    CmpExact(a, b);
    var k: nat :| BelowAt(a, b, k);
    assert BelowAt(a, m, width);
    assert k < width;
    assert BelowAt(m, b, k);
    CmpExact(a, m);
    CmpExact(m, b);
  }

  lemma Above(a: Version) returns (m: Version)
    ensures Cmp(a, m) < 0
  {
    m := a + [1];
    assert BelowAt(a, m, |a|);
    CmpExact(a, m);
  }

  lemma ZeroIsLeast(v: Version)
    ensures Cmp([], v) <= 0
  {
    CmpExact([], v);
    assert forall k: nat :: !BelowAt(v, [], k);
  }
}
