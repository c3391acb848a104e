/**
 The sequential, non-overlapping scan of `_scan` in `llm/fences.py`, seen apart from characters:
 all it uses of a text is where headers start and which positions close a fence.
 */
module FenceScan {
  import opened Options

  /** A header: the length of its fence, its path and where the content starts. */
  datatype Head = Head(fence: nat, path: string, start: nat)

  datatype Text = Text(size: nat, heads: nat -> Option<Head>, closes: (nat, nat) -> bool)

  /** Content starts after its header and a closing fence lies inside the text. */
  ghost predicate Valid(t: Text)
  {
    && (forall i: nat :: t.heads(i).Some? ==> i < t.heads(i).value.start <= t.size)
    && (forall n: nat, k: nat :: t.closes(n, k) ==> k + 1 + n <= t.size)
  }

  /** No header starts inside another. */
  ghost predicate HeadsApart(t: Text)
  {
    forall i: nat, j: nat :: t.heads(i).Some? && i < j < t.heads(i).value.start ==> t.heads(j).None?
  }

  function FirstHead(t: Text, pos: nat): (r: Option<nat>)
    requires pos <= t.size
    ensures r.Some? ==>
              && pos <= r.value <= t.size && t.heads(r.value).Some?
              && forall i :: pos <= i < r.value ==> t.heads(i).None?
    ensures r.None? ==> forall i :: pos <= i <= t.size ==> t.heads(i).None?
    decreases t.size - pos
  {
    if t.heads(pos).Some? then Some(pos) else if pos == t.size then None else FirstHead(t, pos + 1)
  }

  function FirstClose(t: Text, n: nat, pos: nat): (r: Option<nat>)
    requires pos <= t.size
    ensures r.Some? ==>
              && pos <= r.value <= t.size && t.closes(n, r.value)
              && forall k :: pos <= k < r.value ==> !t.closes(n, k)
    ensures r.None? ==> forall k :: pos <= k <= t.size ==> !t.closes(n, k)
    decreases t.size - pos
  {
    if t.closes(n, pos) then Some(pos) else if pos == t.size then None else FirstClose(t, n, pos + 1)
  }

  /** One discovered block: where its header is, where its content starts and where it closes. */
  datatype Span = Span(header: nat, head: Head, close: nat)

  function End(x: Span): nat { x.close + 1 + x.head.fence }

  function Spans(t: Text, pos: nat): seq<Span>
    requires Valid(t) && pos <= t.size
    decreases t.size - pos
  {
    var h := FirstHead(t, pos);
    if h.None? then []
    else
      var head := t.heads(h.value).value;
      var k := FirstClose(t, head.fence, head.start);
      if k.None? then Spans(t, head.start)
      else [Span(h.value, head, k.value)] + Spans(t, k.value + 1 + head.fence)
  }

  /** A block runs from a header to the first position that closes its fence. */
  ghost predicate SpanOk(t: Text, x: Span)
  {
    && t.heads(x.header) == Some(x.head)
    && x.header < x.head.start <= x.close && End(x) <= t.size && t.closes(x.head.fence, x.close)
    && forall k :: x.head.start <= k < x.close ==> !t.closes(x.head.fence, k)
  }

  /** On any text every block the scan finds is well formed ... */
  lemma {:induction false} SpansAreOk(t: Text, pos: nat)
    requires Valid(t) && pos <= t.size
    ensures forall x :: x in Spans(t, pos) ==> SpanOk(t, x) && pos <= x.header
    decreases t.size - pos
  {
    var h := FirstHead(t, pos);
    if h.Some? {
      var head := t.heads(h.value).value;
      var k := FirstClose(t, head.fence, head.start);
      SpansAreOk(t, if k.None? then head.start else k.value + 1 + head.fence);
    }
  }

  ghost predicate InOrder(xs: seq<Span>) { forall i, j :: 0 <= i < j < |xs| ==> End(xs[i]) <= xs[j].header }

  /** ... and they follow each other without overlap. */
  lemma {:induction false} SpansAreDisjoint(t: Text, pos: nat)
    requires Valid(t) && pos <= t.size
    ensures InOrder(Spans(t, pos))
    decreases t.size - pos
  {
    var h := FirstHead(t, pos);
    if h.Some? {
      var head := t.heads(h.value).value;
      var k := FirstClose(t, head.fence, head.start);
      if k.None? {
        SpansAreDisjoint(t, head.start);
      } else {
        var x, rest := Span(h.value, head, k.value), Spans(t, k.value + 1 + head.fence);
        SpansAreDisjoint(t, k.value + 1 + head.fence);
        SpansAreOk(t, k.value + 1 + head.fence);
        FirstThenRest(x, rest);
      }
    }
  }

  lemma FirstThenRest(x: Span, rest: seq<Span>)
    requires InOrder(rest) && forall y :: y in rest ==> End(x) <= y.header
    ensures InOrder([x] + rest)
  {
    var xs := [x] + rest;
    forall i, j | 0 <= i < j < |xs|
      ensures End(xs[i]) <= xs[j].header
    {
      assert xs[j] == rest[j - 1];
      if i > 0 {
        assert xs[i] == rest[i - 1];
      }
    }
  }

  ghost predicate Heads(xs: seq<Span>, h: nat) { exists x :: x in xs && x.header == h }

  ghost predicate Covers(xs: seq<Span>, h: nat) { exists x :: x in xs && x.header < h < End(x) }

  /** No block is missed: a header with a closing fence after it is found, unless it lies inside
      a block found before it.  In particular an unclosed header hides nothing. */
  lemma {:induction false} NothingIsHidden(t: Text, pos: nat, h: nat)
    requires Valid(t) && HeadsApart(t) && pos <= h <= t.size && t.heads(h).Some?
    requires FirstClose(t, t.heads(h).value.fence, t.heads(h).value.start).Some?
    ensures Heads(Spans(t, pos), h) || Covers(Spans(t, pos), h)
    decreases t.size - pos
  {
    var first := FirstHead(t, pos).value;
    var head := t.heads(first).value;
    var k := FirstClose(t, head.fence, head.start);
    if k.None? {
      NothingIsHidden(t, head.start, h);
    } else {
      var end := k.value + 1 + head.fence;
      var x, rest := Span(first, head, k.value), Spans(t, end);
      assert x in Spans(t, pos) && forall y :: y in rest ==> y in Spans(t, pos);
      if end <= h {
        NothingIsHidden(t, end, h);
      }
    }
  }

  /** A header at `pos` whose fence first closes at `k` is the next block. */
  lemma NextBlock(t: Text, pos: nat, head: Head, k: nat)
    requires Valid(t) && pos <= t.size && t.heads(pos) == Some(head) && head.start <= k && t.closes(head.fence, k)
    requires forall j :: head.start <= j < k ==> !t.closes(head.fence, j)
    ensures Spans(t, pos) == [Span(pos, head, k)] + Spans(t, k + 1 + head.fence)
  {
    assert FirstHead(t, pos) == Some(pos);
    var f := FirstClose(t, head.fence, head.start);
    assert f == Some(k);
  }

  /** A position that starts no header is passed over. */
  lemma SkipOne(t: Text, pos: nat)
    requires Valid(t) && pos < t.size && t.heads(pos).None?
    ensures Spans(t, pos) == Spans(t, pos + 1)
  {
  }

  /** The scan goes on from the first header at or after `pos`. */
  lemma Unfolds(t: Text, pos: nat)
    requires Valid(t) && pos <= t.size
    ensures
      match FirstHead(t, pos)
      case None => Spans(t, pos) == []
      case Some(h) =>
        var head := t.heads(h).value;
        match FirstClose(t, head.fence, head.start)
        case None => Spans(t, pos) == Spans(t, head.start)
        case Some(k) => Spans(t, pos) == [Span(h, head, k)] + Spans(t, k + 1 + head.fence)
  {
  }

  // ---------------------------------------------------------------------------------------
  // Files
  // ---------------------------------------------------------------------------------------

  datatype File = File(path: string, content: string)

  function FilesAt(s: string, xs: seq<Span>): (files: seq<File>)
    requires forall x :: x in xs ==> x.head.start <= x.close <= |s|
    ensures |files| == |xs|
  {
    if xs == [] then [] else [File(xs[0].head.path, s[xs[0].head.start..xs[0].close])] + FilesAt(s, xs[1..])
  }

  /** The files found in `s`, which `t` describes, from `pos` on. */
  function FilesFrom(s: string, t: Text, pos: nat): seq<File>
    requires Valid(t) && t.size == |s| && pos <= |s|
  {
    SpansAreOk(t, pos);
    FilesAt(s, Spans(t, pos))
  }

  lemma FilesUnfold(s: string, t: Text, pos: nat)
    requires Valid(t) && t.size == |s| && pos <= |s|
    ensures
      match FirstHead(t, pos)
      case None => FilesFrom(s, t, pos) == []
      case Some(h) =>
        var head := t.heads(h).value;
        match FirstClose(t, head.fence, head.start)
        case None => FilesFrom(s, t, pos) == FilesFrom(s, t, head.start)
        case Some(k) =>
          FilesFrom(s, t, pos) == [File(head.path, s[head.start..k])] + FilesFrom(s, t, k + 1 + head.fence)
  {
    Unfolds(t, pos);
  }

  /** From `pos` on `t` holds exactly the blocks of `files`, one line apart. */
  ghost predicate LaidOut(s: string, t: Text, pos: nat, files: seq<File>)
    requires t.size == |s|
    decreases |files|, 0
  {
    if files == [] then pos == t.size && t.heads(pos).None?
    else
      exists head, k: nat :: BlockAt(s, t, pos, files[0], head, k) && Goes(s, t, k + 1 + head.fence, files[1..])
  }

  /** What follows a block: the end, or a new line and the other blocks. */
  ghost predicate Goes(s: string, t: Text, end: nat, rest: seq<File>)
    requires t.size == |s|
    decreases |rest|, 1
  {
    && end <= t.size && t.heads(end).None?
    && if rest == [] then end == t.size else end < t.size && LaidOut(s, t, end + 1, rest)
  }

  ghost predicate BlockAt(s: string, t: Text, pos: nat, f: File, head: Head, k: nat)
    requires t.size == |s|
  {
    && pos <= t.size && t.heads(pos) == Some(head) && head.path == f.path
    && head.start <= k <= t.size && t.closes(head.fence, k) && s[head.start..k] == f.content
    && forall j :: head.start <= j < k ==> !t.closes(head.fence, j)
  }

  lemma BlockThenRest(s: string, t: Text, pos: nat, files: seq<File>, head: Head, k: nat, end: nat)
    requires t.size == |s| && files != [] && end == k + 1 + head.fence
    requires BlockAt(s, t, pos, files[0], head, k) && Goes(s, t, end, files[1..])
    ensures LaidOut(s, t, pos, files)
  {
  }

  lemma FoundBlock(s: string, t: Text, pos: nat, f: File, head: Head, k: nat)
    requires Valid(t) && t.size == |s| && BlockAt(s, t, pos, f, head, k)
    ensures FilesFrom(s, t, pos) == [f] + FilesFrom(s, t, k + 1 + head.fence)
  {
    NextBlock(t, pos, head, k);
  }

  lemma NothingFound(s: string, t: Text)
    requires Valid(t) && t.size == |s| && t.heads(t.size).None?
    ensures FilesFrom(s, t, t.size) == []
  {
  }

  lemma FilesSkipOne(s: string, t: Text, pos: nat)
    requires Valid(t) && t.size == |s| && pos < t.size && t.heads(pos).None?
    ensures FilesFrom(s, t, pos) == FilesFrom(s, t, pos + 1)
  {
    SkipOne(t, pos);
  }

  /** Blocks laid out one after the other are all found, in order. */
  lemma {:induction false} LaidOutIsFound(s: string, t: Text, pos: nat, files: seq<File>)
    requires Valid(t) && t.size == |s| && pos <= t.size && LaidOut(s, t, pos, files)
    ensures FilesFrom(s, t, pos) == files
    decreases |files|, 0
  {
    if files == [] {
      NothingFound(s, t);
    } else {
      var head, k: nat :| BlockAt(s, t, pos, files[0], head, k) && Goes(s, t, k + 1 + head.fence, files[1..]);
      FoundBlock(s, t, pos, files[0], head, k);
      RestIsFound(s, t, k + 1 + head.fence, files[1..]);
    }
  }

  lemma {:induction false} RestIsFound(s: string, t: Text, end: nat, rest: seq<File>)
    requires Valid(t) && t.size == |s| && Goes(s, t, end, rest)
    ensures FilesFrom(s, t, end) == rest
    decreases |rest|, 1
  {
    if rest == [] {
      NothingFound(s, t);
    } else {
      FilesSkipOne(s, t, end);
      LaidOutIsFound(s, t, end + 1, rest);
    }
  }

  /** The scanning loop. */
  method ScanText(s: string, t: Text) returns (files: seq<File>)
    requires Valid(t) && t.size == |s|
    ensures files == FilesFrom(s, t, 0)
  {
    files := [];
    var pos := 0;
    while true
      invariant pos <= |s| && FilesFrom(s, t, 0) == files + FilesFrom(s, t, pos)
      decreases |s| - pos
    {
      FilesUnfold(s, t, pos);
      var h := FirstHead(t, pos);
      if h.None? {
        break;
      }
      var head := t.heads(h.value).value;
      var k := FirstClose(t, head.fence, head.start);
      if k.None? {
        pos := head.start;
        continue;
      }
      files := files + [File(head.path, s[head.start..k.value])];
      pos := k.value + 1 + head.fence;
    }
  }
}
