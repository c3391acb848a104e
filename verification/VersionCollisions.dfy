/**
 The Phase 1 version check (`_intersects`, `_bounds` in `graph/collisions.py`), which pads every
 version to three parts and then compares tuples as the language does, and exactly when it agrees
 with the ranges of Phase 3.  Each spec is a single atom here; the tilde operators are not part of
 this model.
 */
module VersionCollisions {
  import opened Options
  import opened Versions
  import opened VersionRanges
  import opened VersionSelection

  datatype Bound = Bound(version: Version, incl: bool)

  /** At least three parts, as `_parse` returns them. */
  function Three(v: Version): Version { Pad(v, 3) }

  function Caret3(v: Version): Version
    requires |v| >= 3
  {
    if v[0] != 0 then [v[0] + 1, 0, 0] else if v[1] != 0 then [0, v[1] + 1, 0] else [0, 0, v[2] + 1]
  }

  function LowBound(a: Atom): Option<Bound>
  {
    match a.op
    case Equal => Some(Bound(Three(a.version), true))
    case AtLeast => Some(Bound(Three(a.version), true))
    case Greater => Some(Bound(Three(a.version), false))
    case Caret => Some(Bound(Three(a.version), true))
    case _ => None
  }

  function HighBound(a: Atom): Option<Bound>
  {
    match a.op
    case Equal => Some(Bound(Three(a.version), true))
    case AtMost => Some(Bound(Three(a.version), true))
    case Less => Some(Bound(Three(a.version), false))
    case Caret => Some(Bound(Caret3(Three(a.version)), false))
    case _ => None
  }

  /** `(low[0], not low[1]) > (lo[0], not lo[1])` on tuples. */
  predicate Raises(lo: Option<Bound>, low: Option<Bound>)
  {
    && low.Some?
    && (lo.None?
        || Native(low.value.version, lo.value.version) > 0
        || (low.value.version == lo.value.version && !low.value.incl && lo.value.incl))
  }

  /** `(high[0], high[1]) < (hi[0], hi[1])` on tuples. */
  predicate Lowers(hi: Option<Bound>, high: Option<Bound>)
  {
    && high.Some?
    && (hi.None?
        || Native(high.value.version, hi.value.version) < 0
        || (high.value.version == hi.value.version && !high.value.incl && hi.value.incl))
  }

  function Lo(atoms: seq<Atom>): Option<Bound>
  {
    if atoms == [] then None
    else
      var lo, low := Lo(atoms[..|atoms| - 1]), LowBound(atoms[|atoms| - 1]);
      if Raises(lo, low) then low else lo
  }

  function Hi(atoms: seq<Atom>): Option<Bound>
  {
    if atoms == [] then None
    else
      var hi, high := Hi(atoms[..|atoms| - 1]), HighBound(atoms[|atoms| - 1]);
      if Lowers(hi, high) then high else hi
  }

  predicate Satisfiable(lo: Option<Bound>, hi: Option<Bound>)
  {
    || lo.None? || hi.None? || Native(lo.value.version, hi.value.version) < 0
    || (lo.value.version == hi.value.version && lo.value.incl && hi.value.incl)
  }

  method Intersects(atoms: seq<Atom>) returns (ok: bool)
    ensures ok == Satisfiable(Lo(atoms), Hi(atoms))
  {
    var lo: Option<Bound>, hi: Option<Bound> := None, None;
    for i := 0 to |atoms|
      invariant lo == Lo(atoms[..i]) && hi == Hi(atoms[..i])
    {
      assert atoms[..i + 1][..i] == atoms[..i];
      var low, high := LowBound(atoms[i]), HighBound(atoms[i]);
      if Raises(lo, low) {
        lo := low;
      }
      if Lowers(hi, high) {
        hi := high;
      }
    }
    assert atoms[..|atoms|] == atoms;
    if lo.None? || hi.None? {
      return true;
    }
    NativeOrder(lo.value.version, hi.value.version, []);
    if Native(lo.value.version, hi.value.version) > 0 {
      return false;
    }
    ok := !(lo.value.version == hi.value.version && !(lo.value.incl && hi.value.incl));
  }

  // ---------------------------------------------------------------------------------------
  // Agreement with Phase 3
  // ---------------------------------------------------------------------------------------

  function Ranges(atoms: seq<Atom>): seq<Range>
  {
    seq(|atoms|, i requires 0 <= i < |atoms| => AtomRange(atoms[i]))
  }

  /** Phase 1 reports a conflict exactly when the Phase 3 range is empty. */
  ghost predicate Agree1And3(atoms: seq<Atom>)
  {
    Satisfiable(Lo(atoms), Hi(atoms)) <==> !IsEmpty(Combined(Ranges(atoms)))
  }

  /** Specs over the versions of `vs`, with any operator but a tilde. */
  ghost predicate Over(vs: set<Version>, atoms: seq<Atom>)
  {
    forall a :: a in atoms ==> a.op != Tilde && a.version in vs
  }

  /** Versions that are the same to Phase 3 look the same to Phase 1: none of `vs` repeats another
      with other trailing zeros beyond the third part. */
  ghost predicate Canonical(vs: set<Version>)
  {
    forall v, w :: v in vs && w in vs && Same(v, w) ==> Three(v) == Three(w)
  }

  // ---------------------------------------------------------------------------------------
  // Tuples and the versions behind them
  // ---------------------------------------------------------------------------------------

  lemma SameCmp(a: Version, b: Version, v: Version, w: Version)
    requires Same(a, v) && Same(b, w)
    ensures Cmp(a, b) == Cmp(v, w)
  {
    CmpExact(a, b);
    CmpExact(v, w);
    BelowSame(a, b, w);
    BelowSame(w, a, v);
    BelowSame(b, a, v);
    BelowSame(v, b, w);
    if Same(a, b) {
      assert Same(v, w);
    }
  }

  /** Where the padded order tells two tuples apart, the language's order agrees. */
  lemma NativeFollows(a: Version, b: Version, v: Version, w: Version)
    requires Same(a, v) && Same(b, w)
    ensures Cmp(v, w) < 0 ==> Native(a, b) < 0
    ensures Cmp(v, w) > 0 ==> Native(a, b) > 0
  {
    SameCmp(a, b, v, w);
    NativeOrder(a, b, a);
    CmpOrder(a, b, a);
    if Native(a, b) <= 0 {
      NativeRefines(a, b);
    }
    if Native(b, a) <= 0 {
      NativeRefines(b, a);
    }
  }

  lemma {:induction false} PrefixFirst(a: Version, rest: Version)
    ensures Native(a, a + rest) <= 0
    decreases |a|
  {
    if a != [] {
      PrefixFirst(a[1..], rest);
      assert (a + rest)[1..] == a[1..] + rest;
    }
  }

  /** Of tuples for the same version the one with three parts comes first. */
  lemma ShortestFirst(a: Version, z: Version)
    requires |a| == 3 && |z| >= 3 && Same(a, z)
    ensures Native(a, z) <= 0
  {
    forall i | 0 <= i < 3
      ensures z[i] == a[i]
    {
      assert Part(a, i) == Part(z, i);
    }
    assert z[..3] == a;
    assert z == a + z[3..];
    PrefixFirst(a, z[3..]);
  }

  lemma ThreeIsSame(v: Version)
    ensures Same(Three(v), v) && |Three(v)| >= 3 && Caret3(Three(v)) == CaretCeiling(v)
  {
    assert forall i: nat :: Part(Three(v), i) == Part(v, i);
  }

  // ---------------------------------------------------------------------------------------
  // Canonical versions: the phases hold the same bounds
  // ---------------------------------------------------------------------------------------

  /** Phase 1 holds the tuple of the version Phase 3 holds. */
  ghost predicate SameLow(vs: set<Version>, b: Option<Bound>, v: Option<Version>, incl: bool)
  {
    && (b.None? <==> v.None?)
    && (b.Some? ==> v.value in vs && b.value.version == Three(v.value) && b.value.incl == incl)
  }

  /** Nothing of `vs` that is the same version has a lower tuple. */
  ghost predicate Lowest(vs: set<Version>, b: Version)
  {
    forall z :: z in vs && Same(z, b) ==> Native(b, Three(z)) <= 0
  }

  /** The same for an upper bound, which may also be a caret's ceiling and is then exclusive. */
  ghost predicate SameHigh(vs: set<Version>, b: Option<Bound>, v: Option<Version>, incl: bool)
  {
    && (b.None? <==> v.None?)
    && (b.Some? ==>
          && Same(b.value.version, v.value) && b.value.incl == incl && Lowest(vs, b.value.version)
          && (incl ==> v.value in vs && b.value.version == Three(v.value)))
  }

  lemma AtomsMatch(vs: set<Version>, a: Atom)
    requires Canonical(vs) && a.version in vs && a.op != Tilde
    ensures SameLow(vs, LowBound(a), AtomRange(a).lower, AtomRange(a).lowerIncl)
    ensures SameHigh(vs, HighBound(a), AtomRange(a).upper, AtomRange(a).upperIncl)
  {
    var v := a.version;
    ThreeIsSame(v);
    forall z | z in vs && Same(z, Three(v))
      ensures Native(Three(v), Three(z)) <= 0
    {
      assert Same(z, v);
      NativeOrder(Three(v), Three(z), []);
    }
    forall z | z in vs && Same(z, CaretCeiling(v))
      ensures Native(CaretCeiling(v), Three(z)) <= 0
    {
      ThreeIsSame(z);
      ShortestFirst(CaretCeiling(v), Three(z));
    }
  }

  lemma LowStep(vs: set<Version>, lo: Option<Bound>, low: Option<Bound>, r: Range, s: Range)
    requires Canonical(vs) && SameLow(vs, lo, r.lower, r.lowerIncl) && SameLow(vs, low, s.lower, s.lowerIncl)
    ensures
      var t := Intersect(r, s);
      SameLow(vs, if Raises(lo, low) then low else lo, t.lower, t.lowerIncl)
  {
    if lo.Some? && low.Some? {
      var v, w := s.lower.value, r.lower.value;
      ThreeIsSame(v);
      ThreeIsSame(w);
      NativeFollows(Three(v), Three(w), v, w);
      NativeOrder(Three(v), Three(w), []);
      CmpExact(v, w);
    }
  }

  lemma HighStep(vs: set<Version>, hi: Option<Bound>, high: Option<Bound>, r: Range, s: Range)
    requires Canonical(vs) && SameHigh(vs, hi, r.upper, r.upperIncl) && SameHigh(vs, high, s.upper, s.upperIncl)
    ensures
      var t := Intersect(r, s);
      SameHigh(vs, if Lowers(hi, high) then high else hi, t.upper, t.upperIncl)
  {
    if hi.Some? && high.Some? {
      var v, w := s.upper.value, r.upper.value;
      NativeFollows(high.value.version, hi.value.version, v, w);
      NativeOrder(high.value.version, hi.value.version, []);
      CmpExact(v, w);
      if Cmp(v, w) == 0 {
        assert Same(v, w);
        assert s.upperIncl ==> Same(v, hi.value.version);
        assert r.upperIncl ==> Same(w, high.value.version);
      }
    }
  }

  lemma {:induction false} BoundsMatch(vs: set<Version>, atoms: seq<Atom>)
    requires Canonical(vs) && Over(vs, atoms)
    ensures
      var c := Combined(Ranges(atoms));
      SameLow(vs, Lo(atoms), c.lower, c.lowerIncl) && SameHigh(vs, Hi(atoms), c.upper, c.upperIncl)
    decreases |atoms|
  {
    if atoms != [] {
      var init, last := atoms[..|atoms| - 1], atoms[|atoms| - 1];
      assert last in atoms && forall a :: a in init ==> a in atoms;
      BoundsMatch(vs, init);
      AtomsMatch(vs, last);
      assert Ranges(atoms)[..|atoms| - 1] == Ranges(init);
      LowStep(vs, Lo(init), LowBound(last), Combined(Ranges(init)), AtomRange(last));
      HighStep(vs, Hi(init), HighBound(last), Combined(Ranges(init)), AtomRange(last));
    }
  }

  lemma CanonicalAgrees(vs: set<Version>, atoms: seq<Atom>)
    requires Canonical(vs) && Over(vs, atoms)
    ensures Agree1And3(atoms)
  {
    var c, lo, hi := Combined(Ranges(atoms)), Lo(atoms), Hi(atoms);
    BoundsMatch(vs, atoms);
    if lo.Some? && hi.Some? {
      var z, u := c.lower.value, c.upper.value;
      ThreeIsSame(z);
      NativeFollows(lo.value.version, hi.value.version, z, u);
      NativeOrder(lo.value.version, hi.value.version, []);
      CmpExact(z, u);
      if Cmp(z, u) == 0 {
        assert Same(z, hi.value.version);
      }
    }
  }

  // ---------------------------------------------------------------------------------------
  // Other versions: the phases disagree both ways
  // ---------------------------------------------------------------------------------------

  /** `==v, ==w`. */
  function BothEqual(v: Version, w: Version): seq<Atom> { [Atom(Equal, v, ""), Atom(Equal, w, "")] }

  /** `>=w, >v, <=w`. */
  function Squeezed(v: Version, w: Version): seq<Atom>
  {
    [Atom(AtLeast, w, ""), Atom(Greater, v, ""), Atom(AtMost, w, "")]
  }

  lemma TwoBounds(a: Atom, b: Atom)
    ensures Lo([a, b]) == if Raises(LowBound(a), LowBound(b)) then LowBound(b) else LowBound(a)
    ensures Hi([a, b]) == if Lowers(HighBound(a), HighBound(b)) then HighBound(b) else HighBound(a)
    ensures Combined(Ranges([a, b])) == Intersect(Intersect(EVERYTHING, AtomRange(a)), AtomRange(b))
  {
    assert [a, b][..1] == [a] && [a][..0] == [];
    assert Lo([a]) == LowBound(a) && Hi([a]) == HighBound(a);
    var rs := Ranges([a, b]);
    assert rs[..1] == [AtomRange(a)] && rs[..1][..0] == [];
    assert Combined(rs[..1]) == Intersect(EVERYTHING, AtomRange(a));
  }

  /** Phase 1 sees a conflict where Phase 3 sees one version twice. */
  lemma PhaseOneAlone(v: Version, w: Version)
    requires Same(v, w) && Three(v) != Three(w)
    ensures !Satisfiable(Lo(BothEqual(v, w)), Hi(BothEqual(v, w))) && !IsEmpty(Combined(Ranges(BothEqual(v, w))))
  {
    TwoBounds(BothEqual(v, w)[0], BothEqual(v, w)[1]);
    NativeOrder(Three(v), Three(w), Three(v));
    CmpExact(v, w);
    CmpExact(w, v);
    CmpExact(v, v);
    CmpExact(w, w);
  }

  lemma ThreeBounds(a: Atom, b: Atom, c: Atom)
    ensures Lo([a, b, c]) == if Raises(Lo([a, b]), LowBound(c)) then LowBound(c) else Lo([a, b])
    ensures Hi([a, b, c]) == if Lowers(Hi([a, b]), HighBound(c)) then HighBound(c) else Hi([a, b])
    ensures Combined(Ranges([a, b, c])) == Intersect(Combined(Ranges([a, b])), AtomRange(c))
  {
    assert [a, b, c][..2] == [a, b];
    assert Ranges([a, b, c])[..2] == Ranges([a, b]);
  }

  /** Phase 3 sees a conflict that Phase 1 misses. */
  lemma PhaseThreeAlone(v: Version, w: Version)
    requires Same(v, w) && Native(Three(v), Three(w)) < 0
    ensures Satisfiable(Lo(Squeezed(v, w)), Hi(Squeezed(v, w))) && IsEmpty(Combined(Ranges(Squeezed(v, w))))
  {
    var s := Squeezed(v, w);
    TwoBounds(s[0], s[1]);
    ThreeBounds(s[0], s[1], s[2]);
    NativeOrder(Three(v), Three(w), Three(v));
    CmpExact(v, w);
    CmpExact(w, v);
  }

  lemma OverPair(vs: set<Version>, v: Version, w: Version)
    requires v in vs && w in vs
    ensures Over(vs, BothEqual(v, w)) && Over(vs, Squeezed(v, w))
  {
  }

  /** Over a set of versions the two phases agree on all specs without tilde, in any number and
      order, if and only if the set is canonical. */
  lemma PhasesAgreeExactly(vs: set<Version>)
    ensures (forall atoms :: Over(vs, atoms) ==> Agree1And3(atoms)) <==> Canonical(vs)
  {
    if Canonical(vs) {
      forall atoms | Over(vs, atoms)
        ensures Agree1And3(atoms)
      {
        CanonicalAgrees(vs, atoms);
      }
    } else {
      var v, w :| v in vs && w in vs && Same(v, w) && Three(v) != Three(w);
      OverPair(vs, v, w);
      PhaseOneAlone(v, w);
      assert !Agree1And3(BothEqual(v, w));
    }
  }

  /** Versions of at most three parts are canonical. */
  lemma ShortIsCanonical(vs: set<Version>)
    requires forall v :: v in vs ==> |v| <= 3
    ensures Canonical(vs)
  {
    forall v, w | v in vs && w in vs && Same(v, w)
      ensures Three(v) == Three(w)
    {
      assert forall i :: 0 <= i < 3 ==> Part(v, i) == Part(w, i);
    }
  }

  /** So for specs of at most three parts, in any order and number, the phases agree. */
  lemma PhasesAgree(atoms: seq<Atom>)
    requires forall a :: a in atoms ==> |a.version| <= 3 && a.op != Tilde
    ensures Agree1And3(atoms)
  {
    var vs := set a | a in atoms :: a.version;
    ShortIsCanonical(vs);
    CanonicalAgrees(vs, atoms);
  }

  /** Two versions that differ only in trailing zeros beyond the third part make the phases disagree
      both ways. */
  lemma TrailingZerosDisagree(v: Version, w: Version)
    requires Same(v, w) && Three(v) != Three(w)
    ensures !Agree1And3(BothEqual(v, w)) && (!Agree1And3(Squeezed(v, w)) || !Agree1And3(Squeezed(w, v)))
  {
    PhaseOneAlone(v, w);
    NativeOrder(Three(v), Three(w), Three(v));
    if Native(Three(v), Three(w)) < 0 {
      PhaseThreeAlone(v, w);
    } else {
      PhaseThreeAlone(w, v);
    }
  }

  /** `1.2.3` and `1.2.3.0` are such versions. */
  lemma FourPartsDisagree()
    ensures !Agree1And3(BothEqual([1, 2, 3], [1, 2, 3, 0]))
    ensures !Agree1And3(Squeezed([1, 2, 3], [1, 2, 3, 0]))
  {
    var v, w := [1, 2, 3], [1, 2, 3, 0];
    assert Same(v, w);
    assert Three(v) == v && Three(w) == w;
    assert w == v + [0];
    PrefixFirst(v, [0]);
    NativeOrder(v, w, v);
    PhaseOneAlone(v, w);
    PhaseThreeAlone(v, w);
  }

  /** Caret ceilings need not be canonical: they are exclusive upper bounds and never keep a lower one
      apart.  `^1` and `>=2.0.0.0` meet at a ceiling with other trailing zeros, and the phases agree. */
  lemma CeilingsDoNotMatter(atoms: seq<Atom>)
    requires Over({[1], [2, 0, 0, 0]}, atoms)
    ensures Same(CaretCeiling([1]), [2, 0, 0, 0]) && Three(CaretCeiling([1])) != Three([2, 0, 0, 0])
    ensures Agree1And3(atoms)
  {
    var vs: set<Version> := {[1], [2, 0, 0, 0]};
    assert Part([1], 0) != Part([2, 0, 0, 0], 0);
    assert Canonical(vs);
    CanonicalAgrees(vs, atoms);
  }
}
