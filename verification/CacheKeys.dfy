/**
 The identity of a model call and its cache key (`CacheKeyParts.compute` in `llm/cache.py`,
 `cache_key` in `util/hashing.py`).

 The digest is assumed collision-free, so the text that is hashed stands for the key; what is
 proved is that this text determines every component, whatever the components contain.
 */
module CacheKeys {
  import opened Options
  import opened NodeOrder

  datatype Tier = Heavy | Workhorse | Cheap
  datatype Effort = Low | Medium | High
  datatype ContextPolicy = EvidenceOnly | PlusRejected | PlusPriors

  /** `template` is at least 1; `adapters` are the versions of the adapters, in any order. */
  datatype Parts = Parts(
    role: string, tier: Tier, backend: string, model: string, effort: Option<Effort>,
    policy: Option<ContextPolicy>, rejected: string, prompt: string, template: nat, schema: string,
    adapters: seq<string>, harness: string)

  function TierText(t: Tier): string
  {
    match t case Heavy => "HEAVY" case Workhorse => "WORKHORSE" case Cheap => "CHEAP"
  }

  /** No stated effort is keyed apart from every stated one. */
  function EffortText(e: Option<Effort>): string
  {
    match e
    case None => ""
    case Some(Low) => "low"
    case Some(Medium) => "medium"
    case Some(High) => "high"
  }

  function PolicyText(p: Option<ContextPolicy>): string
  {
    match p
    case None => ""
    case Some(EvidenceOnly) => "EVIDENCE_ONLY"
    case Some(PlusRejected) => "EVIDENCE_PLUS_REJECTED_APPROACHES"
    case Some(PlusPriors) => "EVIDENCE_PLUS_PRIORS"
  }

  function Components(p: Parts): seq<string>
  {
    [p.role, TierText(p.tier), p.backend, p.model, EffortText(p.effort), PolicyText(p.policy), p.rejected,
     p.prompt, Digits(p.template), p.schema, AdapterText(p.adapters)]
  }

  function CacheKey(p: Parts): string { Encode(Components(p)) }

  // ---------------------------------------------------------------------------------------
  // Decimal numerals
  // ---------------------------------------------------------------------------------------

  function Digit(d: nat): char
    requires d < 10
  {
    ('0' as int + d) as char
  }

  function Digits(n: nat): string
  {
    if n < 10 then [Digit(n)] else Digits(n / 10) + [Digit(n % 10)]
  }

  lemma {:induction false} DigitsAreDigits(n: nat, i: nat)
    requires i < |Digits(n)|
    ensures '0' <= Digits(n)[i] <= '9'
    decreases n
  {
    if n >= 10 && i < |Digits(n / 10)| {
      DigitsAreDigits(n / 10, i);
    }
  }

  lemma {:induction false} DigitsInjective(a: nat, b: nat)
    requires Digits(a) == Digits(b)
    ensures a == b
    decreases a
  {
    var s, t := Digits(a), Digits(b);
    assert s[|s| - 1] == Digit(a % 10) && t[|t| - 1] == Digit(b % 10);
    if a >= 10 && b >= 10 {
      assert s[..|s| - 1] == Digits(a / 10) && t[..|t| - 1] == Digits(b / 10);
      DigitsInjective(a / 10, b / 10);
    }
  }

  // ---------------------------------------------------------------------------------------
  // Length-prefixed joining
  // ---------------------------------------------------------------------------------------

  function Framed(part: string): string { Digits(|part|) + ":" + part }

  function Encode(parts: seq<string>): string
    decreases |parts|
  {
    if parts == [] then "" else Framed(parts[0]) + Encode(parts[1..])
  }

  /** A numeral ends where the first colon stands. */
  lemma NumeralEnds(m: nat, n: nat, x: string, y: string)
    requires Digits(m) + ":" + x == Digits(n) + ":" + y
    ensures |Digits(m)| <= |Digits(n)|
  {
    var k := |Digits(n)|;
    assert (Digits(n) + ":" + y)[k] == ':';
    if k < |Digits(m)| {
      DigitsAreDigits(m, k);
    }
  }

  /** Two texts that start with a framed part and agree, agree on the part and on the rest. */
  lemma FrameSplits(p: string, q: string, x: string, y: string)
    requires Framed(p) + x == Framed(q) + y
    ensures p == q && x == y
  {
    var d, e := Digits(|p|), Digits(|q|);
    assert Framed(p) + x == d + ":" + (p + x);
    assert Framed(q) + y == e + ":" + (q + y);
    NumeralEnds(|p|, |q|, p + x, q + y);
    NumeralEnds(|q|, |p|, q + y, p + x);
    assert d == (d + ":" + (p + x))[..|d|] == (e + ":" + (q + y))[..|e|] == e;
    DigitsInjective(|p|, |q|);
    assert p + x == (d + ":" + (p + x))[|d| + 1..];
    assert q + y == (e + ":" + (q + y))[|e| + 1..];
    assert p == (p + x)[..|p|] && q == (q + y)[..|q|];
    assert x == (p + x)[|p|..] && y == (q + y)[|q|..];
  }

  /** No boundary can shift: the joined text determines the parts, whatever they contain. */
  lemma {:induction false} EncodeInjective(a: seq<string>, b: seq<string>)
    requires Encode(a) == Encode(b)
    ensures a == b
    decreases |a|
  {
    if a != [] && b != [] {
      FrameSplits(a[0], b[0], Encode(a[1..]), Encode(b[1..]));
      EncodeInjective(a[1..], b[1..]);
      assert a == [a[0]] + a[1..] && b == [b[0]] + b[1..];
    }
  }

  lemma TextsAreDistinct(p: Parts, q: Parts)
    ensures TierText(p.tier) == TierText(q.tier) ==> p.tier == q.tier
    ensures EffortText(p.effort) == EffortText(q.effort) ==> p.effort == q.effort
    ensures PolicyText(p.policy) == PolicyText(q.policy) ==> p.policy == q.policy
  {
    assert TierText(p.tier)[0] == 'H' || TierText(p.tier)[0] == 'W' || TierText(p.tier)[0] == 'C';
  }

  // ---------------------------------------------------------------------------------------
  // Adapter versions
  // ---------------------------------------------------------------------------------------

  function Insert(x: string, s: seq<string>): seq<string>
  {
    if s == [] || StrLe(x, s[0]) then [x] + s else [s[0]] + Insert(x, s[1..])
  }

  function Ascending(s: seq<string>): seq<string>
  {
    if s == [] then [] else Insert(s[0], Ascending(s[1..]))
  }

  function CommaJoined(s: seq<string>): string
  {
    if s == [] then "" else if |s| == 1 then s[0] else s[0] + "," + CommaJoined(s[1..])
  }

  function AdapterText(adapters: seq<string>): string { CommaJoined(Ascending(adapters)) }

  lemma {:induction false} InsertKeeps(x: string, s: seq<string>)
    ensures multiset(Insert(x, s)) == multiset(s) + multiset{x}
  {
    if s != [] && !StrLe(x, s[0]) {
      InsertKeeps(x, s[1..]);
      assert s == [s[0]] + s[1..];
    }
  }

  lemma {:induction false} AscendingKeeps(s: seq<string>)
    ensures multiset(Ascending(s)) == multiset(s)
  {
    if s != [] {
      AscendingKeeps(s[1..]);
      InsertKeeps(s[0], Ascending(s[1..]));
      assert s == [s[0]] + s[1..];
    }
  }

  lemma {:induction false} InsertCommutes(x: string, y: string, s: seq<string>)
    ensures Insert(x, Insert(y, s)) == Insert(y, Insert(x, s))
    decreases |s|
  {
    StrLeTotal(x, y);
    if StrLe(x, y) && StrLe(y, x) {
      StrLeAntisymmetric(x, y);
    }
    if s != [] {
      var h := s[0];
      if StrLe(x, y) && StrLe(y, h) {
        StrLeTransitive(x, y, h);
      }
      if StrLe(y, x) && StrLe(x, h) {
        StrLeTransitive(y, x, h);
      }
      InsertCommutes(x, y, s[1..]);
    }
  }

  lemma {:induction false} AnyFirst(s: seq<string>, i: nat)
    requires i < |s|
    ensures Ascending(s) == Insert(s[i], Ascending(s[..i] + s[i + 1..]))
    decreases i
  {
    if i == 0 {
      assert s[..0] + s[1..] == s[1..];
    } else {
      var t, rest := s[1..], s[..i] + s[i + 1..];
      AnyFirst(t, i - 1);
      assert rest[1..] == t[..i - 1] + t[i..];
      InsertCommutes(s[0], s[i], Ascending(rest[1..]));
    }
  }

  lemma WithoutOne<T>(s: seq<T>, i: nat)
    requires i < |s|
    ensures multiset(s[..i] + s[i + 1..]) == multiset(s) - multiset{s[i]}
  {
    assert s == s[..i] + [s[i]] + s[i + 1..];
  }

  lemma {:induction false} SameVersionsSortAlike(a: seq<string>, b: seq<string>)
    requires multiset(a) == multiset(b)
    ensures Ascending(a) == Ascending(b)
    decreases |a|
  {
    assert |a| == |multiset(a)| == |multiset(b)| == |b|;
    if a != [] {
      var i := Position(b, a[0]);
      WithoutOne(a, 0);
      WithoutOne(b, i);
      assert a[..0] + a[1..] == a[1..];
      SameVersionsSortAlike(a[1..], b[..i] + b[i + 1..]);
      AnyFirst(b, i);
    }
  }

  lemma Position<T>(s: seq<T>, x: T) returns (i: nat)
    requires x in multiset(s)
    ensures i < |s| && s[i] == x
  {
    i :| 0 <= i < |s| && s[i] == x;
  }

  /** Sorted lists are equal exactly when the lists hold the same versions equally often. */
  lemma AscendingIsCanonical(a: seq<string>, b: seq<string>)
    ensures Ascending(a) == Ascending(b) <==> multiset(a) == multiset(b)
  {
    AscendingKeeps(a);
    AscendingKeeps(b);
    if multiset(a) == multiset(b) {
      SameVersionsSortAlike(a, b);
    }
  }

  predicate Plain(s: seq<string>) { forall i :: 0 <= i < |s| ==> s[i] != "" && ',' !in s[i] }

  lemma UpToComma(p: string, q: string, x: string, y: string)
    requires ',' !in p && p + "," + x == q + "," + y
    ensures |p| <= |q|
  {
    assert (q + "," + y)[|q|] == ',';
    assert forall j :: 0 <= j < |p| ==> p[j] in p && (p + "," + x)[j] == p[j];
  }

  lemma CommaSplits(p: string, q: string, x: string, y: string)
    requires ',' !in p && ',' !in q && p + "," + x == q + "," + y
    ensures p == q && x == y
  {
    var s := p + "," + x;
    UpToComma(p, q, x, y);
    UpToComma(q, p, y, x);
    assert p == s[..|p|] && q == s[..|q|];
    assert x == s[|p| + 1..] && y == s[|q| + 1..];
  }

  lemma HasComma(s: seq<string>)
    requires |s| > 1
    ensures ',' in CommaJoined(s)
  {
    assert CommaJoined(s)[|s[0]|] == ',';
  }

  /** Without commas and empty versions the joined text determines the list. */
  lemma {:induction false} CommaJoinedInjective(a: seq<string>, b: seq<string>)
    requires Plain(a) && Plain(b) && CommaJoined(a) == CommaJoined(b)
    ensures a == b
    decreases |a|
  {
    if |a| > 1 {
      HasComma(a);
    }
    if |b| > 1 {
      HasComma(b);
    }
    if |a| > 1 && |b| > 1 {
      CommaSplits(a[0], b[0], CommaJoined(a[1..]), CommaJoined(b[1..]));
      CommaJoinedInjective(a[1..], b[1..]);
      assert a == [a[0]] + a[1..] && b == [b[0]] + b[1..];
    }
  }

  /** What a key depends on: not the harness version, and the adapters only through their text. */
  function Keyed(p: Parts): Parts { p.(harness := "", adapters := [AdapterText(p.adapters)]) }

  /** Two calls share a key exactly when they agree on everything keyed. */
  lemma KeyIsIdentity(p: Parts, q: Parts)
    ensures CacheKey(p) == CacheKey(q) <==> Keyed(p) == Keyed(q)
  {
    if CacheKey(p) == CacheKey(q) {
      var a, b := Components(p), Components(q);
      EncodeInjective(a, b);
      TextsAreDistinct(p, q);
      assert a[8] == b[8];
      DigitsInjective(p.template, q.template);
      assert a[0] == b[0] && a[1] == b[1] && a[2] == b[2] && a[3] == b[3] && a[4] == b[4] && a[5] == b[5];
      assert a[6] == b[6] && a[7] == b[7] && a[9] == b[9] && a[10] == b[10];
    }
    assert Keyed(p) == Keyed(q) ==> Keyed(p).adapters[0] == Keyed(q).adapters[0];
  }

  /** Without commas and empty versions that includes the adapters themselves, in any order. */
  lemma KeyRecoversAdapters(p: Parts, q: Parts)
    requires Plain(p.adapters) && Plain(q.adapters)
    ensures CacheKey(p) == CacheKey(q) <==>
            p.(harness := q.harness, adapters := q.adapters) == q && multiset(p.adapters) == multiset(q.adapters)
  {
    KeyIsIdentity(p, q);
    AscendingIsCanonical(p.adapters, q.adapters);
    PlainAscends(p.adapters);
    PlainAscends(q.adapters);
    if CacheKey(p) == CacheKey(q) {
      assert AdapterText(p.adapters) == Keyed(p).adapters[0] == Keyed(q).adapters[0] == AdapterText(q.adapters);
      CommaJoinedInjective(Ascending(p.adapters), Ascending(q.adapters));
      assert p.(harness := q.harness, adapters := q.adapters) ==
          Keyed(p).(harness := q.harness, adapters := q.adapters);
      assert q == Keyed(q).(harness := q.harness, adapters := q.adapters);
    }
  }

  lemma PlainAscends(s: seq<string>)
    requires Plain(s)
    ensures Plain(Ascending(s))
  {
    var t := Ascending(s);
    AscendingKeeps(s);
    forall i | 0 <= i < |t|
      ensures t[i] != "" && ',' !in t[i]
    {
      assert t[i] in multiset(s);
    }
  }

  // ---------------------------------------------------------------------------------------
  // Which adapters a key determines
  // ---------------------------------------------------------------------------------------

  /** No comma of `s` parts it into two texts in ascending order. */
  predicate SplitsDownwards(s: string)
  {
    forall j :: 0 <= j < |s| && s[j] == ',' ==> !StrLe(s[..j], s[j + 1..])
  }

  /** One version, not empty, that no two versions could have been joined to. */
  predicate Unmistakable(a: seq<string>) { |a| == 1 && a[0] != "" && SplitsDownwards(a[0]) }

  /** Nobody else's adapters have the text of `a`. */
  ghost predicate Determined(a: seq<string>)
  {
    forall b :: AdapterText(b) == AdapterText(a) ==> multiset(b) == multiset(a)
  }

  lemma {:induction false} PrefixIsBefore(p: string, x: string)
    ensures StrLe(p, p + x)
    decreases |p|
  {
    if p != "" {
      PrefixIsBefore(p[1..], x);
      assert (p + x)[1..] == p[1..] + x;
    }
  }

  lemma HeadIsBefore(s: seq<string>)
    requires s != []
    ensures StrLe(s[0], CommaJoined(s))
  {
    if |s| == 1 {
      StrLeTotal(s[0], s[0]);
    } else {
      PrefixIsBefore(s[0], "," + CommaJoined(s[1..]));
      assert CommaJoined(s) == s[0] + ("," + CommaJoined(s[1..]));
    }
  }

  /** Ascending from the first to the second version on. */
  predicate StartsUpwards(s: seq<string>) { |s| >= 2 ==> StrLe(s[0], s[1]) }

  lemma {:induction false} InsertStartsUpwards(x: string, s: seq<string>)
    requires forall i :: 0 <= i < |s| ==> StartsUpwards(s[i..])
    ensures forall i :: 0 <= i < |Insert(x, s)| ==> StartsUpwards(Insert(x, s)[i..])
    decreases |s|
  {
    var t := Insert(x, s);
    if s != [] && !StrLe(x, s[0]) {
      StrLeTotal(x, s[0]);
      forall i | 0 <= i < |s[1..]|
        ensures StartsUpwards(s[1..][i..])
      {
        assert s[1..][i..] == s[i + 1..];
      }
      InsertStartsUpwards(x, s[1..]);
      var rest := Insert(x, s[1..]);
      assert StartsUpwards(s[0..]) && StartsUpwards(rest[0..]);
      forall i | 0 <= i < |t|
        ensures StartsUpwards(t[i..])
      {
        if i > 0 {
          assert t[i..] == rest[i - 1..];
        }
      }
    } else {
      forall i | 0 <= i < |t|
        ensures StartsUpwards(t[i..])
      {
        if i > 0 {
          assert t[i..] == s[i - 1..];
        }
      }
    }
  }

  lemma {:induction false} AscendingStartsUpwards(s: seq<string>)
    ensures forall i :: 0 <= i < |Ascending(s)| ==> StartsUpwards(Ascending(s)[i..])
  {
    if s != [] {
      AscendingStartsUpwards(s[1..]);
      InsertStartsUpwards(s[0], Ascending(s[1..]));
    }
  }

  /** Two or more versions join to a text with a comma between ascending texts. */
  lemma JoinedSplitsUpwards(b: seq<string>)
    requires |b| >= 2
    ensures !SplitsDownwards(AdapterText(b))
  {
    var s := Ascending(b);
    AscendingKeeps(b);
    assert |s| == |multiset(s)| == |multiset(b)| == |b|;
    AscendingStartsUpwards(b);
    assert StartsUpwards(s[0..]);
    var text, rest := AdapterText(b), CommaJoined(s[1..]);
    HeadIsBefore(s[1..]);
    StrLeTransitive(s[0], s[1], rest);
    var j := |s[0]|;
    assert text == s[0] + "," + rest;
    assert text[j] == ',' && text[..j] == s[0] && text[j + 1..] == rest;
  }

  lemma SingleText(x: string)
    ensures Ascending([x]) == [x] && AdapterText([x]) == x
  {
    var one := [x];
    assert one[1..] == [];
    assert Ascending(one) == Insert(x, []) == [x];
  }

  lemma PairText(x: string, y: string)
    requires StrLe(x, y)
    ensures AdapterText([x, y]) == x + "," + y
  {
    var two := [x, y];
    assert two[1..] == [y];
    SingleText(y);
    assert Ascending(two) == Insert(x, [y]) == [x] + [y] == two;
    assert CommaJoined(two) == x + "," + CommaJoined([y]);
  }

  /** The three ways to be mistaken: nothing for one empty version, several versions for their joined
      text, and one version for the two that join to it. */
  lemma Mistaken(a: seq<string>) returns (b: seq<string>)
    requires !Unmistakable(a)
    ensures AdapterText(b) == AdapterText(a) && |b| != |a|
  {
    if a == [] {
      b := [""];
      SingleText("");
    } else if |a| >= 2 {
      b := [AdapterText(a)];
      SingleText(AdapterText(a));
    } else if a[0] == "" {
      b := [];
      assert a == [""];
      SingleText("");
    } else {
      var s := a[0];
      assert a == [s];
      SingleText(s);
      var j :| 0 <= j < |s| && s[j] == ',' && StrLe(s[..j], s[j + 1..]);
      b := [s[..j], s[j + 1..]];
      PairText(s[..j], s[j + 1..]);
      assert s == s[..j] + "," + s[j + 1..];
    }
  }

  /** The text determines the adapters exactly when there is one, not empty, and no comma in it parts
      it into two ascending texts. */
  lemma DeterminedExactly(a: seq<string>)
    ensures Determined(a) <==> Unmistakable(a)
  {
    if Unmistakable(a) {
      assert a == [a[0]];
      SingleText(a[0]);
      forall b | AdapterText(b) == AdapterText(a)
        ensures multiset(b) == multiset(a)
      {
        if |b| >= 2 {
          JoinedSplitsUpwards(b);
        } else if |b| == 1 {
          assert b == [b[0]];
          SingleText(b[0]);
        }
      }
    } else {
      var b := Mistaken(a);
      assert |multiset(b)| == |b| != |a| == |multiset(a)|;
    }
  }

  /** A key determines the adapters of its call exactly then. */
  lemma KeyDeterminesAdaptersExactly(p: Parts)
    ensures (forall q :: CacheKey(q) == CacheKey(p) ==> multiset(q.adapters) == multiset(p.adapters)) <==>
            Unmistakable(p.adapters)
  {
    DeterminedExactly(p.adapters);
    if Unmistakable(p.adapters) {
      forall q | CacheKey(q) == CacheKey(p)
        ensures multiset(q.adapters) == multiset(p.adapters)
      {
        KeyIsIdentity(q, p);
        assert AdapterText(q.adapters) == Keyed(q).adapters[0] == Keyed(p).adapters[0] == AdapterText(p.adapters);
      }
    } else {
      var b := Mistaken(p.adapters);
      var q := p.(adapters := b);
      KeyIsIdentity(q, p);
      assert |multiset(b)| == |b| != |p.adapters| == |multiset(p.adapters)|;
    }
  }

  /** `a` and `b` are mistaken for `a,b`; `b,a` is mistaken for nothing. */
  lemma CommasCount()
    ensures AdapterText(["a", "b"]) == AdapterText(["a,b"]) && Determined(["b,a"])
  {
    assert StrLe("a", "b");
    PairText("a", "b");
    SingleText("a,b");
    assert "a" + "," + "b" == "a,b";
    var s := "b,a";
    assert s[..1] == "b" && s[1 + 1..] == "a";
    assert !StrLe("b", "a");
    assert forall j :: 0 <= j < |s| && s[j] == ',' ==> j == 1;
    DeterminedExactly([s]);
  }
}
