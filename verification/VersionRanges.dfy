/**
 Version ranges and the specs they come from (`VersionRange`, `_caret_ceiling`, `parse_range` in
 `bazel/generators.py`).  A spec starts out as its parsed atoms.
 */
module VersionRanges {
  import opened Options
  import opened Versions

  /** The lower bound keeps its text as written. */
  datatype Range = Range(
    lower: Option<Version>, lowerText: string, lowerIncl: bool, upper: Option<Version>, upperIncl: bool)

  const EVERYTHING := Range(None, "", true, None, false)

  predicate IsEmpty(r: Range)
  {
    && r.lower.Some? && r.upper.Some?
    && (Cmp(r.lower.value, r.upper.value) > 0
        || (Cmp(r.lower.value, r.upper.value) == 0 && !(r.lowerIncl && r.upperIncl)))
  }

  predicate AboveLower(r: Range, v: Version)
  {
    r.lower.Some? ==> Cmp(v, r.lower.value) > 0 || (Cmp(v, r.lower.value) == 0 && r.lowerIncl)
  }

  predicate UnderUpper(r: Range, v: Version)
  {
    r.upper.Some? ==> Cmp(v, r.upper.value) < 0 || (Cmp(v, r.upper.value) == 0 && r.upperIncl)
  }

  predicate Contains(r: Range, v: Version) { AboveLower(r, v) && UnderUpper(r, v) }

  /** `s` has the tighter lower bound. */
  predicate TighterLower(r: Range, s: Range)
  {
    && s.lower.Some?
    && (r.lower.None?
        || Cmp(s.lower.value, r.lower.value) > 0
        || (Cmp(s.lower.value, r.lower.value) == 0 && !s.lowerIncl))
  }

  predicate TighterUpper(r: Range, s: Range)
  {
    && s.upper.Some?
    && (r.upper.None?
        || Cmp(s.upper.value, r.upper.value) < 0
        || (Cmp(s.upper.value, r.upper.value) == 0 && !s.upperIncl))
  }

  function Intersect(r: Range, s: Range): Range
  {
    var l := if TighterLower(r, s) then s else r;
    var u := if TighterUpper(r, s) then s else r;
    Range(l.lower, l.lowerText, l.lowerIncl, u.upper, u.upperIncl)
  }

  // ---------------------------------------------------------------------------------------
  // The algebra is exact
  // ---------------------------------------------------------------------------------------

  lemma LowerExact(r: Range, s: Range, v: Version)
    ensures AboveLower(Intersect(r, s), v) <==> AboveLower(r, v) && AboveLower(s, v)
  {
    if r.lower.Some? && s.lower.Some? {
      CmpOrder(r.lower.value, s.lower.value, v);
      CmpOrder(s.lower.value, r.lower.value, v);
      CmpOrder(r.lower.value, v, v);
      CmpOrder(s.lower.value, v, v);
    }
  }

  lemma UpperExact(r: Range, s: Range, v: Version)
    ensures UnderUpper(Intersect(r, s), v) <==> UnderUpper(r, v) && UnderUpper(s, v)
  {
    if r.upper.Some? && s.upper.Some? {
      CmpOrder(r.upper.value, s.upper.value, v);
      CmpOrder(v, r.upper.value, s.upper.value);
      CmpOrder(v, s.upper.value, r.upper.value);
    }
  }

  /** A version lies in the intersection if and only if it lies in both ranges. */
  lemma IntersectExact(r: Range, s: Range, v: Version)
    ensures Contains(Intersect(r, s), v) <==> Contains(r, v) && Contains(s, v)
  {
    LowerExact(r, s, v);
    UpperExact(r, s, v);
  }

  ghost predicate HoldsNothing(r: Range) { forall v :: !Contains(r, v) }

  /** The one empty range the emptiness test does not see: everything below zero. */
  predicate BelowZero(r: Range) { r.lower.None? && r.upper.Some? && !r.upperIncl && Cmp(r.upper.value, []) == 0 }

  lemma Member(r: Range) returns (v: Version)
    requires !IsEmpty(r) && !BelowZero(r)
    ensures Contains(r, v)
  {
    if r.lower.None? {
      v := [];
      if r.upper.Some? {
        ZeroIsLeast(r.upper.value);
        CmpOrder([], r.upper.value, []);
      }
    } else if r.lowerIncl && r.upper.None? {
      v := r.lower.value;
      CmpOrder(v, v, v);
    } else if r.upper.None? {
      v := Above(r.lower.value);
      CmpOrder(v, r.lower.value, v);
    } else if Cmp(r.lower.value, r.upper.value) == 0 {
      v := r.lower.value;
      CmpOrder(v, v, v);
    } else {
      v := Dense(r.lower.value, r.upper.value);
      CmpOrder(v, r.lower.value, v);
    }
  }

  lemma NoMember(r: Range, v: Version)
    requires IsEmpty(r) || BelowZero(r)
    ensures !Contains(r, v)
  {
    if IsEmpty(r) {
      CmpOrder(r.lower.value, v, r.upper.value);
      CmpOrder(v, r.lower.value, v);
    } else {
      ZeroIsLeast(v);
      CmpOrder([], v, r.upper.value);
      CmpOrder([], r.upper.value, []);
    }
  }

  /** No version of any length lies in a range if and only if the test says so or the range is
      everything below zero; with a lower bound the test alone decides. */
  lemma EmptyExact(r: Range)
    ensures HoldsNothing(r) <==> IsEmpty(r) || BelowZero(r)
    ensures r.lower.Some? ==> (HoldsNothing(r) <==> IsEmpty(r))
  {
    if IsEmpty(r) || BelowZero(r) {
      forall v
        ensures !Contains(r, v)
      {
        NoMember(r, v);
      }
    } else {
      var v := Member(r);
    }
  }

  // ---------------------------------------------------------------------------------------
  // Specs
  // ---------------------------------------------------------------------------------------

  datatype Op = Equal | AtLeast | Greater | AtMost | Less | Caret | Tilde

  datatype Atom = Atom(op: Op, version: Version, text: string)

  function CaretCeiling(v: Version): Version
  {
    if Part(v, 0) != 0 then [Part(v, 0) + 1, 0, 0]
    else if Part(v, 1) != 0 then [0, Part(v, 1) + 1, 0]
    else [0, 0, Part(v, 2) + 1]
  }

  function TildeCeiling(v: Version): Version { [Part(v, 0), Part(v, 1) + 1, 0] }

  function AtomRange(a: Atom): Range
  {
    match a.op
    case Equal => Range(Some(a.version), a.text, true, Some(a.version), true)
    case AtLeast => Range(Some(a.version), a.text, true, None, false)
    case Greater => Range(Some(a.version), a.text, false, None, false)
    case AtMost => Range(None, "", true, Some(a.version), true)
    case Less => Range(None, "", true, Some(a.version), false)
    case Caret => Range(Some(a.version), a.text, true, Some(CaretCeiling(a.version)), false)
    case Tilde => Range(Some(a.version), a.text, true, Some(TildeCeiling(a.version)), false)
  }

  /** The leftmost part of the first three that a caret spec holds fixed. */
  function CaretDepth(v: Version): nat { if Part(v, 0) != 0 then 1 else if Part(v, 1) != 0 then 2 else 3 }

  /** What an atom asks for: a caret keeps every part up to the first non-zero one, a tilde the
      major and minor parts. */
  ghost predicate Meets(a: Atom, v: Version)
  {
    match a.op
    case Equal => Same(v, a.version)
    case AtLeast => !Below(v, a.version)
    case Greater => Below(a.version, v)
    case AtMost => !Below(a.version, v)
    case Less => Below(v, a.version)
    case Caret => !Below(v, a.version) && Agree(v, a.version, CaretDepth(a.version))
    case Tilde => !Below(v, a.version) && Agree(v, a.version, 2)
  }

  /** Below the version that steps part `k` of `v` up by one and zeroes the rest, and not below
      `v`: exactly those that agree with `v` up to and including part `k`. */
  lemma StepCeiling(v: Version, ceiling: Version, k: nat, u: Version)
    requires |ceiling| == 3 && k < 3 && !Below(u, v)
    requires forall i :: 0 <= i < 3 ==> ceiling[i] == if i < k then Part(v, i) else if i == k then Part(v, k) + 1 else 0
    ensures Below(u, ceiling) <==> Agree(u, v, k + 1)
  {
    assert Agree(v, ceiling, k) && Part(ceiling, k) == Part(v, k) + 1;
    if Agree(u, v, k + 1) {
      assert BelowAt(u, ceiling, k);
    }
    if Below(u, ceiling) {
      var j: nat :| BelowAt(u, ceiling, j);
      assert Part(ceiling, j) > 0;
      forall i | 0 <= i < k + 1
        ensures Part(u, i) == Part(v, i)
      {
        FirstDifference(u, v, i, j, k, ceiling);
      }
    }
  }

  lemma FirstDifference(u: Version, v: Version, i: nat, j: nat, k: nat, ceiling: Version)
    requires !Below(u, v) && i <= k && Agree(v, ceiling, k) && Part(ceiling, k) == Part(v, k) + 1
    requires BelowAt(u, ceiling, j) && j <= k
    ensures Part(u, i) == Part(v, i)
  {
    assert Agree(u, v, j);
    assert !BelowAt(u, v, j);
  }

  lemma CaretExact(w: Version, u: Version)
    requires !Below(u, w)
    ensures Below(u, CaretCeiling(w)) <==> Agree(u, w, CaretDepth(w))
  {
    StepCeiling(w, CaretCeiling(w), CaretDepth(w) - 1, u);
  }

  lemma TildeExact(w: Version, u: Version)
    requires !Below(u, w)
    ensures Below(u, TildeCeiling(w)) <==> Agree(u, w, 2)
  {
    StepCeiling(w, TildeCeiling(w), 1, u);
  }

  lemma AtomExact(a: Atom, v: Version)
    ensures Contains(AtomRange(a), v) <==> Meets(a, v)
  {
    var w := a.version;
    CmpExact(v, w);
    match a.op {
      case Caret =>
        CmpExact(v, CaretCeiling(w));
        if !Below(v, w) {
          CaretExact(w, v);
        }
      case Tilde =>
        CmpExact(v, TildeCeiling(w));
        if !Below(v, w) {
          TildeExact(w, v);
        }
      case _ =>
    }
  }

  function RangeOf(atoms: seq<Atom>): Range
  {
    if atoms == [] then EVERYTHING else Intersect(RangeOf(atoms[..|atoms| - 1]), AtomRange(atoms[|atoms| - 1]))
  }

  /** A spec outside the grammar, and one with no atom, parses to nothing. */
  type Spec = Option<seq<Atom>>

  function Parsed(spec: Spec): Option<Range>
  {
    if spec.None? || spec.value == [] then None else Some(RangeOf(spec.value))
  }

  method ParseRange(spec: Spec) returns (r: Option<Range>)
    ensures r == Parsed(spec)
  {
    if spec.None? || spec.value == [] {
      return None;
    }
    var out, atoms := EVERYTHING, spec.value;
    for i := 0 to |atoms|
      invariant out == RangeOf(atoms[..i])
    {
      assert atoms[..i + 1][..i] == atoms[..i];
      out := Intersect(out, AtomRange(atoms[i]));
    }
    assert atoms[..|atoms|] == atoms;
    r := Some(out);
  }

  /** A parsed spec admits exactly the versions that meet every atom. */
  lemma {:induction false} ParseExact(atoms: seq<Atom>, v: Version)
    ensures Contains(RangeOf(atoms), v) <==> forall a :: a in atoms ==> Meets(a, v)
    decreases |atoms|
  {
    if atoms != [] {
      var init, last := atoms[..|atoms| - 1], atoms[|atoms| - 1];
      assert atoms == init + [last];
      ParseExact(init, v);
      IntersectExact(RangeOf(init), AtomRange(last), v);
      AtomExact(last, v);
    }
  }

  /** `<0` is a spec whose range holds nothing, and the emptiness test does not see it. */
  lemma BelowZeroIsMissed()
    ensures
      var r := RangeOf([Atom(Less, [0], "0")]);
      HoldsNothing(r) && !IsEmpty(r)
  {
    var atoms := [Atom(Less, [0], "0")];
    assert atoms[..0] == [];
    assert RangeOf([]) == EVERYTHING;
    var r := RangeOf(atoms);
    assert Same([0], []);
    CmpExact([0], []);
    EmptyExact(r);
  }
}
