/**
 Minimal version selection (`mvs_select` in `bazel/generators.py`).
 */
module VersionSelection {
  import opened NodeOrder
  import opened Versions
  import opened VersionRanges

  datatype Requirement = Requirement(coord: string, repo: string, spec: Spec)

  datatype Verdict =
    | NoRequirements
    | NoneParsed
    | EmptyIntersection
    | NothingToSelect
    | Selected(text: string)

  function SpecsFor(coord: string, reqs: seq<Requirement>): set<Spec>
  {
    set q | q in reqs && q.coord == coord :: q.spec
  }

  function ParsedRanges(specs: set<Spec>): set<Range>
  {
    set s | s in specs && Parsed(s).Some? :: Parsed(s).value
  }

  /** `v` honours every parsed spec. */
  predicate Admitted(rs: set<Range>, v: Version) { forall r :: r in rs ==> Contains(r, v) }

  /** A declared lower bound, with its text as written. */
  datatype Candidate = Candidate(version: Version, text: string)

  function Candidates(rs: set<Range>): set<Candidate>
  {
    set r | r in rs && r.lower.Some? :: Candidate(r.lower.value, r.lowerText)
  }

  // ---------------------------------------------------------------------------------------
  // Candidates are tried in the language's own order
  // ---------------------------------------------------------------------------------------

  predicate CandLe(a: Candidate, b: Candidate)
  {
    Native(a.version, b.version) < 0 || (a.version == b.version && StrLe(a.text, b.text))
  }

  lemma {:induction false} NativeOrder(a: Version, b: Version, c: Version)
    ensures Native(a, b) == -Native(b, a)
    ensures Native(a, b) == 0 <==> a == b
    ensures Native(a, b) < 0 && Native(b, c) < 0 ==> Native(a, c) < 0
    decreases |a| + |b| + |c|
  {
    if a != [] && b != [] {
      NativeOrder(a[1..], b[1..], if c == [] then [] else c[1..]);
      assert a == [a[0]] + a[1..] && b == [b[0]] + b[1..];
    }
  }

  lemma CandOrder(a: Candidate, b: Candidate, c: Candidate)
    ensures CandLe(a, a) && (CandLe(a, b) || CandLe(b, a))
    ensures CandLe(a, b) && CandLe(b, a) ==> a == b
    ensures CandLe(a, b) && CandLe(b, c) ==> CandLe(a, c)
  {
    NativeOrder(a.version, b.version, c.version);
    NativeOrder(b.version, c.version, a.version);
    StrLeTotal(a.text, a.text);
    StrLeTotal(a.text, b.text);
    if StrLe(a.text, b.text) && StrLe(b.text, a.text) {
      StrLeAntisymmetric(a.text, b.text);
    }
    if StrLe(a.text, b.text) && StrLe(b.text, c.text) {
      StrLeTransitive(a.text, b.text, c.text);
    }
  }

  predicate IsFirst(c: Candidate, cs: set<Candidate>) { c in cs && forall d :: d in cs ==> CandLe(c, d) }

  lemma {:induction false} FirstExists(cs: set<Candidate>) returns (c: Candidate)
    requires cs != {}
    ensures IsFirst(c, cs)
    decreases cs
  {
    var x :| x in cs;
    var rest := cs - {x};
    CandOrder(x, x, x);
    c := x;
    assert cs == rest + {x};
    if rest != {} {
      var m := FirstExists(rest);
      CandOrder(x, m, x);
      c := if CandLe(x, m) then x else m;
      forall d | d in cs
        ensures CandLe(c, d)
      {
        CandOrder(x, m, d);
        assert d == x || d in rest;
      }
    }
  }

  function First(cs: set<Candidate>): (c: Candidate)
    requires cs != {}
    ensures IsFirst(c, cs)
  {
    assert exists c :: IsFirst(c, cs) by {
      var c := FirstExists(cs);
    }
    FirstIsUnique(cs);
    var c :| c in cs && IsFirst(c, cs);
    c
  }

  lemma FirstIsUnique(cs: set<Candidate>)
    ensures forall c, d :: IsFirst(c, cs) && IsFirst(d, cs) ==> c == d
  {
    forall c, d | IsFirst(c, cs) && IsFirst(d, cs)
      ensures c == d
    {
      CandOrder(c, d, c);
    }
  }

  // ---------------------------------------------------------------------------------------
  // The intersection of several ranges
  // ---------------------------------------------------------------------------------------

  function Combined(rs: seq<Range>): Range
  {
    if rs == [] then EVERYTHING else Intersect(Combined(rs[..|rs| - 1]), rs[|rs| - 1])
  }

  function Elements(rs: seq<Range>): set<Range> { set r | r in rs }

  /** The combined range admits what all of them admit, and its lower bound is one of theirs. */
  lemma {:induction false} CombinedExact(rs: seq<Range>, v: Version)
    ensures Contains(Combined(rs), v) <==> Admitted(Elements(rs), v)
    decreases |rs|
  {
    if rs != [] {
      var init, last := rs[..|rs| - 1], rs[|rs| - 1];
      assert rs == init + [last];
      CombinedExact(init, v);
      IntersectExact(Combined(init), last, v);
      assert Elements(rs) == Elements(init) + {last};
    }
  }

  ghost predicate HasLower(rs: seq<Range>, c: Range)
  {
    exists r :: r in rs && r.lower == c.lower && r.lowerIncl == c.lowerIncl
  }

  lemma {:induction false} CombinedLower(rs: seq<Range>)
    ensures Combined(rs).lower.None? <==> forall r :: r in rs ==> r.lower.None?
    ensures Combined(rs).lower.Some? ==> HasLower(rs, Combined(rs))
    decreases |rs|
  {
    if rs != [] {
      var init, last := rs[..|rs| - 1], rs[|rs| - 1];
      assert rs == init + [last];
      CombinedLower(init);
      if !TighterLower(Combined(init), last) && Combined(init).lower.Some? {
        var r :| r in init && r.lower == Combined(init).lower && r.lowerIncl == Combined(init).lowerIncl;
        assert r in rs;
      } else {
        assert last in rs;
      }
    }
  }

  // ---------------------------------------------------------------------------------------
  // Selection
  // ---------------------------------------------------------------------------------------

  predicate Eligible(rs: set<Range>, c: Candidate) { c in Candidates(rs) && Admitted(rs, c.version) }

  /** What `verdict` means, in terms of the set of parsed specs alone. */
  ghost predicate IsVerdict(rs: set<Range>, verdict: Verdict)
  {
    match verdict
    case NoRequirements => false
    case NoneParsed => rs == {}
    case EmptyIntersection => rs != {} && Candidates(rs) != {} && forall v :: !Admitted(rs, v)
    case NothingToSelect =>
      && rs != {} && (Candidates(rs) == {} || exists v :: Admitted(rs, v))
      && forall c :: !Eligible(rs, c)
    case Selected(text) =>
      exists c :: Eligible(rs, c) && c.text == text && forall d :: Eligible(rs, d) ==> CandLe(c, d)
  }

  method MvsSelect(coord: string, reqs: seq<Requirement>) returns (verdict: Verdict)
    ensures verdict == NoRequirements <==> forall q :: q in reqs ==> q.coord != coord
    ensures verdict != NoRequirements ==> IsVerdict(ParsedRanges(SpecsFor(coord, reqs)), verdict)
  {
    var specs := SpecsFor(coord, reqs);
    if specs == {} {
      assert forall q :: q in reqs && q.coord == coord ==> q.spec in specs;
      return NoRequirements;
    }
    var parsed := ParseAll(specs);
    if parsed == [] {
      return NoneParsed;
    }
    assert parsed[0] in Elements(parsed);
    var combined := EVERYTHING;
    for i := 0 to |parsed|
      invariant combined == Combined(parsed[..i])
    {
      assert parsed[..i + 1][..i] == parsed[..i];
      combined := Intersect(combined, parsed[i]);
    }
    assert parsed[..|parsed|] == parsed;
    CombinedDecides(parsed);
    if IsEmpty(combined) {
      return EmptyIntersection;
    }
    verdict := FirstEligible(parsed, combined);
  }

  method ParseAll(specs: set<Spec>) returns (parsed: seq<Range>)
    ensures Elements(parsed) == ParsedRanges(specs)
  {
    parsed := [];
    var todo, done: set<Spec> := specs, {};
    while todo != {}
      invariant todo + done == specs && Elements(parsed) == ParsedRanges(done)
      decreases todo
    {
      var s :| s in todo;
      var r := ParseRange(s);
      ghost var before := parsed;
      if r.Some? {
        parsed := parsed + [r.value];
        assert Elements(parsed) == Elements(before) + {r.value};
      }
      assert ParsedRanges(done + {s}) == ParsedRanges(done) + if r.Some? then {r.value} else {};
      todo, done := todo - {s}, done + {s};
    }
    assert done == specs;
  }

  /** With a declared lower bound the emptiness test is exact; without one it never fires. */
  lemma CombinedDecides(rs: seq<Range>)
    ensures Candidates(Elements(rs)) == {} <==> Combined(rs).lower.None?
    ensures IsEmpty(Combined(rs)) <==> Candidates(Elements(rs)) != {} && forall v :: !Admitted(Elements(rs), v)
  {
    CombinedLower(rs);
    if Combined(rs).lower.Some? {
      var r :| r in rs && r.lower == Combined(rs).lower && r.lowerIncl == Combined(rs).lowerIncl;
      assert r in Elements(rs);
      assert Candidate(r.lower.value, r.lowerText) in Candidates(Elements(rs));
    }
    EmptyExact(Combined(rs));
    forall v
      ensures Contains(Combined(rs), v) <==> Admitted(Elements(rs), v)
    {
      CombinedExact(rs, v);
    }
  }

  method FirstEligible(parsed: seq<Range>, combined: Range) returns (verdict: Verdict)
    requires parsed != [] && combined == Combined(parsed) && !IsEmpty(combined)
    ensures IsVerdict(Elements(parsed), verdict)
  {
    ghost var rs := Elements(parsed);
    assert parsed[0] in rs;
    CombinedDecides(parsed);
    var todo := Candidates(Elements(parsed));
    while todo != {}
      invariant todo <= Candidates(rs)
      invariant forall d :: Eligible(rs, d) ==> d in todo
      decreases todo
    {
      var c := First(todo);
      CombinedExact(parsed, c.version);
      if Contains(combined, c.version) && forall r :: r in parsed ==> Contains(r, c.version) {
        assert Eligible(rs, c);
        return Selected(c.text);
      }
      assert !Eligible(rs, c);
      todo := todo - {c};
    }
    verdict := NothingToSelect;
  }

  // ---------------------------------------------------------------------------------------
  // What selection means
  // ---------------------------------------------------------------------------------------

  /** The verdict depends on nothing but the set of parsed specs: not on their order, not on how
      often or by whom each is declared. */
  lemma VerdictIsUnique(rs: set<Range>, a: Verdict, b: Verdict)
    requires IsVerdict(rs, a) && IsVerdict(rs, b)
    ensures a == b
  {
    if a.Selected? && b.Selected? {
      var c :| Eligible(rs, c) && c.text == a.text && forall d :: Eligible(rs, d) ==> CandLe(c, d);
      var d :| Eligible(rs, d) && d.text == b.text && forall e :: Eligible(rs, e) ==> CandLe(d, e);
      CandOrder(c, d, c);
    }
  }

  ghost predicate IsLeastAdmitted(rs: set<Range>, v: Version)
  {
    Admitted(rs, v) && forall u :: Admitted(rs, u) ==> Cmp(v, u) <= 0
  }

  /** An eligible candidate is the least of all versions every spec admits. */
  lemma EligibleIsLeast(rs: set<Range>, c: Candidate)
    requires Eligible(rs, c)
    ensures IsLeastAdmitted(rs, c.version)
  {
    var r :| r in rs && r.lower.Some? && Candidate(r.lower.value, r.lowerText) == c;
    forall u | Admitted(rs, u)
      ensures Cmp(c.version, u) <= 0
    {
      assert Contains(r, u);
      CmpOrder(c.version, u, u);
    }
  }

  lemma {:induction false} PrefixIsFirst(a: Version, b: Version)
    requires a < b
    ensures Native(a, b) < 0
  {
    if a != [] {
      PrefixIsFirst(a[1..], b[1..]);
    }
  }

  /** Of two spellings of one version the shorter is tried first. */
  lemma ShorterIsFirst(a: Version, b: Version)
    requires Same(a, b) && |a| < |b|
    ensures Native(a, b) < 0
  {
    forall i | 0 <= i < |a|
      ensures a[i] == b[i]
    {
      assert Part(a, i) == Part(b, i);
    }
    PrefixIsFirst(a, b);
  }

  lemma SameSpelling(a: Version, b: Version)
    requires Same(a, b) && |a| == |b|
    ensures a == b
  {
    forall i | 0 <= i < |a|
      ensures a[i] == b[i]
    {
      assert Part(a, i) == Part(b, i);
    }
  }

  /** What is selected: of the declared bounds that are the least version admitted, the one written with
      the fewest parts, and of several texts for it the least. */
  lemma SelectedIsShortest(rs: set<Range>, text: string) returns (c: Candidate)
    requires IsVerdict(rs, Selected(text))
    ensures Eligible(rs, c) && c.text == text && IsLeastAdmitted(rs, c.version)
    ensures forall d :: Eligible(rs, d) ==>
              Same(c.version, d.version)
              && (|c.version| < |d.version| || (c.version == d.version && StrLe(text, d.text)))
  {
    c :| Eligible(rs, c) && c.text == text && forall d :: Eligible(rs, d) ==> CandLe(c, d);
    EligibleIsLeast(rs, c);
    forall d | Eligible(rs, d)
      ensures Same(c.version, d.version)
      ensures |c.version| < |d.version| || (c.version == d.version && StrLe(text, d.text))
    {
      EligibleIsLeast(rs, d);
      CmpOrder(c.version, d.version, c.version);
      CmpExact(c.version, d.version);
      NativeOrder(c.version, d.version, c.version);
      if |d.version| < |c.version| {
        ShorterIsFirst(d.version, c.version);
      } else if |d.version| == |c.version| {
        SameSpelling(c.version, d.version);
      }
    }
  }

  /** The tightest lower bound is itself admitted when it is inclusive and anything is. */
  lemma InclusiveIsAdmitted(rs: seq<Range>, v: Version)
    requires Contains(Combined(rs), v) && Combined(rs).lower.Some? && Combined(rs).lowerIncl
    ensures Contains(Combined(rs), Combined(rs).lower.value)
  {
    var c := Combined(rs);
    var l := c.lower.value;
    CmpOrder(l, l, l);
    CmpOrder(l, v, l);
    if c.upper.Some? {
      CmpOrder(l, v, c.upper.value);
    }
  }

  /** Above an exclusive lower bound there is no least version. */
  lemma ExclusiveHasNoLeast(rs: seq<Range>, v: Version) returns (u: Version)
    requires Contains(Combined(rs), v) && Combined(rs).lower.Some? && !Combined(rs).lowerIncl
    ensures Contains(Combined(rs), u) && Cmp(u, v) < 0
  {
    var c := Combined(rs);
    var l := c.lower.value;
    CmpOrder(l, v, l);
    u := Dense(l, v);
    CmpOrder(l, u, l);
    if c.upper.Some? {
      CmpOrder(u, v, c.upper.value);
    }
  }

  /** Something is selected if and only if some spec declares a lower bound and the versions every
      spec admits have a least one: the parsed ranges meet, in an inclusive lower bound. */
  lemma SelectedExactly(rs: seq<Range>)
    ensures
      var c := Combined(rs);
      (exists x :: Eligible(Elements(rs), x)) <==> !IsEmpty(c) && c.lower.Some? && c.lowerIncl
    ensures
      (exists x :: Eligible(Elements(rs), x)) <==>
      Candidates(Elements(rs)) != {} && exists v :: IsLeastAdmitted(Elements(rs), v)
  {
    var c := Combined(rs);
    CombinedDecides(rs);
    EmptyExact(c);
    if x :| Eligible(Elements(rs), x) {
      EligibleIsInclusive(rs, x);
      EligibleIsLeast(Elements(rs), x);
    }
    if !IsEmpty(c) && c.lower.Some? && c.lowerIncl {
      var x := InclusiveIsEligible(rs);
    }
    if v :| Candidates(Elements(rs)) != {} && IsLeastAdmitted(Elements(rs), v) {
      CombinedExact(rs, v);
      if !c.lowerIncl {
        var u := ExclusiveHasNoLeast(rs, v);
        CombinedExact(rs, u);
        CmpOrder(u, v, u);
      }
    }
  }

  lemma InclusiveIsEligible(rs: seq<Range>) returns (x: Candidate)
    requires !IsEmpty(Combined(rs)) && Combined(rs).lower.Some? && Combined(rs).lowerIncl
    ensures Eligible(Elements(rs), x)
  {
    var c := Combined(rs);
    var v := Member(c);
    InclusiveIsAdmitted(rs, v);
    CombinedExact(rs, c.lower.value);
    CombinedLower(rs);
    var r :| r in rs && r.lower == c.lower && r.lowerIncl == c.lowerIncl;
    assert r in Elements(rs);
    x := Candidate(r.lower.value, r.lowerText);
  }

  lemma EligibleIsInclusive(rs: seq<Range>, x: Candidate)
    requires Eligible(Elements(rs), x)
    ensures !IsEmpty(Combined(rs)) && Combined(rs).lower.Some? && Combined(rs).lowerIncl
  {
    var c := Combined(rs);
    CombinedDecides(rs);
    CombinedExact(rs, x.version);
    CombinedLower(rs);
    if !c.lowerIncl {
      var u := ExclusiveHasNoLeast(rs, x.version);
      CombinedExact(rs, u);
      EligibleIsLeast(Elements(rs), x);
      CmpOrder(u, x.version, u);
    }
  }
}
