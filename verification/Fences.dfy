/**
 Fenced file blocks (`llm/fences.py`): the writer, the scanner and the exact round trip between
 them.  The fence is one backtick longer than any run inside the content, at least three, as
 section 4.5 of the CommonMark Spec asks of a fenced code block.
 */
module Fences {
  import opened Options
  import opened FenceScan

  const MARK := "path:"

  // ---------------------------------------------------------------------------------------
  // Runs, lines and places
  // ---------------------------------------------------------------------------------------

  /** `s` reads `p` from `i` on. */
  predicate Reads(s: string, i: nat, p: string) { i + |p| <= |s| && forall j :: 0 <= j < |p| ==> s[i + j] == p[j] }

  /** `n` backticks stand at `i`. */
  predicate Ticked(s: string, i: nat, n: nat) { i + n <= |s| && forall j :: i <= j < i + n ==> s[j] == '`' }

  function Ticks(n: nat): (t: string)
    ensures |t| == n && Ticked(t, 0, n)
  {
    seq(n, _ => '`')
  }

  /** The length of the run of backticks that starts at `i`. */
  function RunAt(s: string, i: nat): (n: nat)
    requires i <= |s|
    ensures Ticked(s, i, n) && (i + n < |s| ==> s[i + n] != '`')
    decreases |s| - i
  {
    if i < |s| && s[i] == '`' then 1 + RunAt(s, i + 1) else 0
  }

  lemma {:induction false} RunIs(s: string, i: nat, n: nat)
    requires Ticked(s, i, n)
    ensures n <= RunAt(s, i)
    ensures i + n < |s| && s[i + n] != '`' ==> RunAt(s, i) == n
    decreases n
  {
    if n > 0 {
      RunIs(s, i + 1, n - 1);
    }
  }

  function Longest(s: string, i: nat): (n: nat)
    requires i <= |s|
    ensures forall j :: i <= j <= |s| ==> RunAt(s, j) <= n
    decreases |s| - i
  {
    if i == |s| then 0
    else
      var rest := Longest(s, i + 1);
      if rest < RunAt(s, i) then RunAt(s, i) else rest
  }

  function LineEnd(s: string, i: nat): (e: nat)
    requires i <= |s|
    ensures i <= e <= |s| && (forall j :: i <= j < e ==> s[j] != '\n') && (e < |s| ==> s[e] == '\n')
    decreases |s| - i
  {
    if i < |s| && s[i] != '\n' then LineEnd(s, i + 1) else i
  }

  lemma {:induction false} LineEndIs(s: string, i: nat, e: nat)
    requires i <= e < |s| && s[e] == '\n' && forall j :: i <= j < e ==> s[j] != '\n'
    ensures LineEnd(s, i) == e
    decreases e - i
  {
    if i < e {
      LineEndIs(s, i + 1, e);
    }
  }

  // ---------------------------------------------------------------------------------------
  // Writing
  // ---------------------------------------------------------------------------------------

  function FenceLength(content: string): nat
  {
    var n := Longest(content, 0) + 1;
    if n < 3 then 3 else n
  }

  lemma {:induction false} LongestIsReached(s: string, i: nat)
    requires i <= |s|
    ensures exists j :: i <= j <= |s| && RunAt(s, j) == Longest(s, i)
    decreases |s| - i
  {
    if i < |s| {
      LongestIsReached(s, i + 1);
      if Longest(s, i + 1) < RunAt(s, i) {
        assert RunAt(s, i) == Longest(s, i);
      }
    } else {
      assert RunAt(s, i) == 0;
    }
  }

  /** The fence is no longer than it must be: beyond three backticks, a run one shorter occurs. */
  lemma FenceIsShortest(content: string)
    ensures FenceLength(content) >= 3
    ensures forall j :: 0 <= j <= |content| ==> RunAt(content, j) < FenceLength(content)
    ensures FenceLength(content) > 3 ==>
        exists j :: 0 <= j <= |content| && RunAt(content, j) == FenceLength(content) - 1
  {
    LongestIsReached(content, 0);
  }

  /** A path with a newline is refused. */
  predicate SingleLine(path: string) { '\n' !in path }

  function FenceFile(f: File): string
  {
    var fence := Ticks(FenceLength(f.content));
    fence + (MARK + (f.path + ("\n" + (f.content + ("\n" + fence)))))
  }

  function Joined(files: seq<File>): string
  {
    if files == [] then ""
    else if |files| == 1 then FenceFile(files[0])
    else FenceFile(files[0]) + "\n" + Joined(files[1..])
  }

  // ---------------------------------------------------------------------------------------
  // Reading
  // ---------------------------------------------------------------------------------------

  predicate AtLineStart(s: string, i: nat)
    requires i <= |s|
  {
    i == 0 || s[i - 1] == '\n'
  }

  /** A header line: three or more backticks at the start of a line, the mark, the path and a
      newline. */
  function HeadAt(s: string, i: nat): Option<Head>
  {
    if i > |s| || !AtLineStart(s, i) || RunAt(s, i) < 3 || !Reads(s, i + RunAt(s, i), MARK) then None
    else
      var p := i + RunAt(s, i) + |MARK|;
      var e := LineEnd(s, p);
      if e == |s| then None else Some(Head(RunAt(s, i), s[p..e], e + 1))
  }

  /** A header reads: at the start of a line three or more backticks, `path:`, a path on one line and the
      newline after it; the content starts there. */
  ghost predicate IsHeader(s: string, i: nat, n: nat, path: string)
  {
    && n >= 3 && SingleLine(path) && i + n + 5 + |path| < |s| && AtLineStart(s, i)
    && (forall j :: i <= j < i + n ==> s[j] == '`')
    && s[i + n..i + n + 5] == "path:" && s[i + n + 5..i + n + 5 + |path|] == path && s[i + n + 5 + |path|] == '\n'
  }

  lemma HeadExact(s: string, i: nat, head: Head)
    ensures HeadAt(s, i) == Some(head) <==>
              IsHeader(s, i, head.fence, head.path) && head.start == i + head.fence + 6 + |head.path|
  {
    if HeadAt(s, i) == Some(head) {
      HeaderIsRead(s, i, head);
    }
    if IsHeader(s, i, head.fence, head.path) && head.start == i + head.fence + 6 + |head.path| {
      HeaderIsFound(s, i, head);
    }
  }

  lemma HeaderIsRead(s: string, i: nat, head: Head)
    requires HeadAt(s, i) == Some(head)
    ensures IsHeader(s, i, head.fence, head.path) && head.start == i + head.fence + 6 + |head.path|
  {
    var p := i + head.fence;
    assert s[p..p + 5] == MARK;
    assert |head.path| == head.start - 1 - (p + 5);
  }

  lemma HeaderIsFound(s: string, i: nat, head: Head)
    requires IsHeader(s, i, head.fence, head.path) && head.start == i + head.fence + 6 + |head.path|
    ensures HeadAt(s, i) == Some(head)
  {
    var p := i + head.fence;
    forall j | 0 <= j < 5
      ensures s[p + j] == MARK[j]
    {
      assert s[p..p + 5][j] == MARK[j];
    }
    assert s[p + 0] == MARK[0];
    RunIs(s, i, head.fence);
    forall j | p + 5 <= j < p + 5 + |head.path|
      ensures s[j] != '\n'
    {
      assert s[p + 5..p + 5 + |head.path|][j - p - 5] == s[j];
      assert s[j] in head.path;
    }
    LineEndIs(s, p + 5, p + 5 + |head.path|);
  }

  /** A fence of exactly `n` backticks stands alone on the line that starts after `k`. */
  predicate ClosesAt(s: string, n: nat, k: nat)
  {
    k < |s| && s[k] == '\n' && Ticked(s, k + 1, n) && (k + 1 + n == |s| || s[k + 1 + n] == '\n')
  }

  function TextOf(s: string): Text { Text(|s|, (i: nat) => HeadAt(s, i), (n: nat, k: nat) => ClosesAt(s, n, k)) }

  lemma HeadIsOneLine(s: string, i: nat)
    requires HeadAt(s, i).Some?
    ensures
      var start := HeadAt(s, i).value.start;
      i < start <= |s| && s[start - 1] == '\n' && forall j :: i <= j < start - 1 ==> s[j] != '\n'
  {
    var p := i + RunAt(s, i);
    forall j | p <= j < p + |MARK|
      ensures s[j] != '\n'
    {
      assert s[p + (j - p)] == MARK[j - p];
    }
  }

  lemma TextIsValid(s: string)
    ensures Valid(TextOf(s)) && HeadsApart(TextOf(s))
  {
    var t := TextOf(s);
    forall i: nat | t.heads(i).Some?
      ensures i < t.heads(i).value.start <= t.size
      ensures forall j: nat :: i < j < t.heads(i).value.start ==> t.heads(j).None?
    {
      HeadIsOneLine(s, i);
    }
  }

  /** The blocks of `s` from `pos` on. */
  function ScanFrom(s: string, pos: nat): seq<File>
    requires pos <= |s|
  {
    TextIsValid(s);
    FilesFrom(s, TextOf(s), pos)
  }

  // ---------------------------------------------------------------------------------------
  // The scanning loops
  // ---------------------------------------------------------------------------------------

  /** `find`: the first position from `from` on where a newline and `n` backticks stand. */
  function FindCloser(s: string, n: nat, from: nat): (r: Option<nat>)
    requires from <= |s|
    ensures r.Some? ==> from <= r.value < |s| && s[r.value] == '\n' && Ticked(s, r.value + 1, n)
    ensures forall k :: from <= k < (if r.Some? then r.value else |s|) ==> s[k] != '\n' || !Ticked(s, k + 1, n)
    decreases |s| - from
  {
    if from == |s| then None
    else if s[from] == '\n' && Ticked(s, from + 1, n) then Some(from)
    else FindCloser(s, n, from + 1)
  }

  /** The search loop: skip every candidate that is not alone on its line. */
  method FindClose(s: string, n: nat, start: nat) returns (k: Option<nat>)
    requires start <= |s|
    ensures k == FirstClose(TextOf(s), n, start)
  {
    var from := start;
    k := FindCloser(s, n, from);
    while k.Some?
      invariant start <= from <= |s| && k == FindCloser(s, n, from)
      invariant forall j :: start <= j < from ==> !ClosesAt(s, n, j)
      decreases |s| - from
    {
      var after := k.value + 1 + n;
      if after == |s| || s[after] == '\n' {
        break;
      }
      from := after;
      k := FindCloser(s, n, from);
    }
    CloseIsFirst(s, n, start, k);
  }

  lemma CloseIsFirst(s: string, n: nat, start: nat, k: Option<nat>)
    requires start <= |s|
    requires k.Some? ==>
               && start <= k.value < |s| && ClosesAt(s, n, k.value)
               && forall j :: start <= j < k.value ==> !ClosesAt(s, n, j)
    requires k.None? ==> forall j :: start <= j <= |s| ==> !ClosesAt(s, n, j)
    ensures FirstClose(TextOf(s), n, start) == k
  {
    var f := FirstClose(TextOf(s), n, start);
    if f.Some? {
      assert ClosesAt(s, n, f.value);
    }
    if k.Some? {
      assert TextOf(s).closes(n, k.value);
    }
  }

  method Scan(s: string) returns (files: seq<File>)
    ensures files == ScanFrom(s, 0)
  {
    TextIsValid(s);
    files := ScanText(s, TextOf(s));
  }

  /** The line after `k` is `n` backticks and nothing else. */
  ghost predicate IsFenceLine(s: string, n: nat, k: nat)
  {
    && k + 1 + n <= |s| && s[k] == '\n' && (forall j :: k < j <= k + n ==> s[j] == '`')
    && (k + 1 + n < |s| ==> s[k + 1 + n] == '\n')
  }

  /** A block of `s`: from the header at `i` to the first line that is its fence again. */
  ghost predicate IsBlock(s: string, x: Span, f: File)
  {
    var n, start := x.head.fence, x.head.start;
    && IsHeader(s, x.header, n, f.path) && start == x.header + n + 6 + |f.path|
    && start <= x.close <= |s| && IsFenceLine(s, n, x.close) && f.content == s[start..x.close]
    && forall k :: start <= k < x.close ==> !IsFenceLine(s, n, k)
  }

  lemma {:induction false} FilesAreThere(s: string, xs: seq<Span>, i: nat)
    requires i < |xs| && forall x :: x in xs ==> x.head.start <= x.close <= |s|
    ensures FilesAt(s, xs)[i] == File(xs[i].head.path, s[xs[i].head.start..xs[i].close])
  {
    if i > 0 {
      FilesAreThere(s, xs[1..], i - 1);
    }
  }

  /** Whatever the text, every file the scan returns is a block of it, and the blocks come in order. */
  lemma ScannedFilesAreBlocks(s: string) returns (xs: seq<Span>)
    ensures |xs| == |ScanFrom(s, 0)| && forall i :: 0 <= i < |xs| ==> IsBlock(s, xs[i], ScanFrom(s, 0)[i])
    ensures forall i, j :: 0 <= i < j < |xs| ==> xs[i].close + 1 + xs[i].head.fence <= xs[j].header
  {
    TextIsValid(s);
    var t := TextOf(s);
    xs := Spans(t, 0);
    SpansAreOk(t, 0);
    SpansAreDisjoint(t, 0);
    forall i | 0 <= i < |xs|
      ensures IsBlock(s, xs[i], ScanFrom(s, 0)[i])
    {
      assert xs[i] in xs;
      FilesAreThere(s, xs, i);
      SpanIsBlock(s, xs[i]);
    }
  }

  lemma SpanIsBlock(s: string, x: Span)
    requires SpanOk(TextOf(s), x)
    ensures IsBlock(s, x, File(x.head.path, s[x.head.start..x.close]))
  {
    HeadExact(s, x.header, x.head);
    forall k | x.head.start <= k <= x.close
      ensures ClosesAt(s, x.head.fence, k) <==> IsFenceLine(s, x.head.fence, k)
    {
    }
    forall k | x.head.start <= k < x.close
      ensures !IsFenceLine(s, x.head.fence, k)
    {
      assert !TextOf(s).closes(x.head.fence, k);
    }
  }

  // ---------------------------------------------------------------------------------------
  // The round trip
  // ---------------------------------------------------------------------------------------

  lemma ReadsParts(s: string, i: nat, a: string, b: string)
    requires Reads(s, i, a + b)
    ensures Reads(s, i, a) && Reads(s, i + |a|, b)
  {
    forall j | 0 <= j < |a|
      ensures s[i + j] == a[j]
    {
      assert (a + b)[j] == a[j];
    }
    forall j | 0 <= j < |b|
      ensures s[i + |a| + j] == b[j]
    {
      assert (a + b)[|a| + j] == b[j];
    }
  }

  lemma ReadsTicks(s: string, i: nat, n: nat)
    requires Reads(s, i, Ticks(n))
    ensures Ticked(s, i, n)
  {
    var t := Ticks(n);
    forall j | i <= j < i + n
      ensures s[j] == '`'
    {
      assert s[i + (j - i)] == t[j - i];
    }
  }

  lemma ReadsSlice(s: string, i: nat, p: string)
    requires Reads(s, i, p)
    ensures s[i..i + |p|] == p
  {
  }

  /** Where the pieces of a fenced file lie: its header line, its content, its closing fence. */
  ghost predicate Laid(s: string, pos: nat, n: nat, f: File)
  {
    var start := pos + n + 6 + |f.path|;
    && Ticked(s, pos, n) && Reads(s, pos + n, MARK) && Reads(s, pos + n + 5, f.path)
    && start + |f.content| + 1 + n <= |s| && s[start - 1] == '\n' && Reads(s, start, f.content)
    && s[start + |f.content|] == '\n' && Ticked(s, start + |f.content| + 1, n)
  }

  lemma PiecesAreLaid(s: string, pos: nat, n: nat, f: File)
    requires Reads(s, pos, Ticks(n) + (MARK + (f.path + ("\n" + (f.content + ("\n" + Ticks(n)))))))
    ensures Laid(s, pos, n, f)
  {
    var fence := Ticks(n);
    var five := "\n" + fence;
    var four := f.content + five;
    var three := "\n" + four;
    var two := f.path + three;
    ReadsParts(s, pos, fence, MARK + two);
    ReadsParts(s, pos + n, MARK, two);
    ReadsParts(s, pos + n + 5, f.path, three);
    ReadsParts(s, pos + n + 5 + |f.path|, "\n", four);
    ReadsParts(s, pos + n + 6 + |f.path|, f.content, five);
    ReadsParts(s, pos + n + 6 + |f.path| + |f.content|, "\n", fence);
    ReadsTicks(s, pos, n);
    ReadsTicks(s, pos + n + 7 + |f.path| + |f.content|, n);
    assert "\n"[0] == '\n';
  }

  /** The header is read back. */
  lemma HeaderReadsBack(s: string, pos: nat, n: nat, f: File)
    requires Laid(s, pos, n, f) && AtLineStart(s, pos) && SingleLine(f.path) && n >= 3
    ensures HeadAt(s, pos) == Some(Head(n, f.path, pos + n + 6 + |f.path|))
  {
    var p := pos + n + 5;
    assert s[pos + n + 0] == MARK[0];
    RunIs(s, pos, n);
    forall j | p <= j < p + |f.path|
      ensures s[j] != '\n'
    {
      assert s[p + (j - p)] == f.path[j - p];
    }
    LineEndIs(s, p, p + |f.path|);
    ReadsSlice(s, p, f.path);
  }

  /** Nothing inside the content closes a fence longer than its runs. */
  lemma ContentDoesNotClose(s: string, start: nat, content: string, n: nat, k: nat)
    requires Reads(s, start, content) && start <= k < start + |content| < |s| && s[start + |content|] == '\n'
    requires n > Longest(content, 0)
    ensures !ClosesAt(s, n, k)
  {
    if Ticked(s, k + 1, n) {
      var i := k + 1 - start;
      if start + |content| <= k + n {
        assert s[start + |content|] == '`';
      } else {
        forall j | i <= j < i + n
          ensures content[j] == '`'
        {
          assert s[start + j] == content[j];
        }
        RunIs(content, i, n);
      }
    }
  }

  /** `t` describes the text `s`. */
  ghost predicate Describes(t: Text, s: string)
  {
    && t.size == |s|
    && (forall i: nat :: t.heads(i) == HeadAt(s, i))
    && ClosesAlike(t, s)
  }

  ghost predicate ClosesAlike(t: Text, s: string)
  {
    forall n: nat, k: nat :: t.closes(n, k) == ClosesAt(s, n, k)
  }

  /** The content closes where it ends, and not before. */
  lemma ContentReadsBack(s: string, start: nat, n: nat, content: string)
    requires Reads(s, start, content) && n > Longest(content, 0)
    requires start + |content| + 1 + n <= |s| && s[start + |content|] == '\n' && Ticked(s, start + |content| + 1, n)
    requires start + |content| + 1 + n == |s| || s[start + |content| + 1 + n] == '\n'
    ensures ClosesAt(s, n, start + |content|) && s[start..start + |content|] == content
    ensures forall j :: start <= j < start + |content| ==> !ClosesAt(s, n, j)
  {
    forall j | start <= j < start + |content|
      ensures !ClosesAt(s, n, j)
    {
      ContentDoesNotClose(s, start, content, n, j);
    }
    ReadsSlice(s, start, content);
  }

  /** The size of a block whose fence has `n` backticks. */
  function Size(n: nat, f: File): nat { 2 * n + 7 + |f.path| + |f.content| }

  lemma FileReadsBack(s: string, t: Text, pos: nat, n: nat, f: File) returns (head: Head, k: nat)
    requires t.size == |s| && t.heads(pos) == HeadAt(s, pos) && ClosesAlike(t, s)
    requires Laid(s, pos, n, f) && AtLineStart(s, pos) && SingleLine(f.path)
    requires n >= 3 && n > Longest(f.content, 0)
    requires pos + Size(n, f) == |s| || s[pos + Size(n, f)] == '\n'
    ensures BlockAt(s, t, pos, f, head, k) && k + 1 + head.fence == pos + Size(n, f)
  {
    head := Head(n, f.path, pos + n + 6 + |f.path|);
    k := head.start + |f.content|;
    HeaderReadsBack(s, pos, n, f);
    BlockDescribed(s, t, pos, f, head, k);
  }

  lemma BlockDescribed(s: string, t: Text, pos: nat, f: File, head: Head, k: nat)
    requires t.size == |s| && ClosesAlike(t, s) && pos <= |s| && t.heads(pos) == Some(head)
    requires head == Head(head.fence, f.path, pos + head.fence + 6 + |f.path|) && k == head.start + |f.content|
    requires Laid(s, pos, head.fence, f) && head.fence > Longest(f.content, 0)
    requires pos + Size(head.fence, f) == |s| || s[pos + Size(head.fence, f)] == '\n'
    ensures BlockAt(s, t, pos, f, head, k)
  {
    ContentReadsBack(s, head.start, head.fence, f.content);
  }

  /** No header stands where a line ends. */
  lemma NoHeadAtEnd(s: string, i: nat)
    requires i == |s| || (i < |s| && s[i] == '\n')
    ensures HeadAt(s, i).None?
  {
    assert RunAt(s, i) == 0;
  }

  lemma ReadsLines(s: string, pos: nat, block: string, rest: string)
    requires pos + |block + "\n" + rest| == |s| && Reads(s, pos, block + "\n" + rest)
    ensures
      var end := pos + |block|;
      && Reads(s, pos, block) && end < |s| && s[end] == '\n'
      && end + 1 + |rest| == |s| && Reads(s, end + 1, rest)
  {
    ReadsParts(s, pos, block + "\n", rest);
    ReadsParts(s, pos, block, "\n");
    assert s[pos + |block| + 0] == "\n"[0];
  }

  /** The pieces of all blocks lie one after the other, a newline apart, to the end of the text. */
  ghost predicate Written(s: string, pos: nat, files: seq<File>)
    decreases |files|, 0
  {
    if files == [] then pos == |s|
    else
      var n := FenceLength(files[0].content);
      Laid(s, pos, n, files[0]) && WrittenAfter(s, pos + Size(n, files[0]), files[1..])
  }

  ghost predicate WrittenAfter(s: string, end: nat, rest: seq<File>)
    decreases |rest|, 1
  {
    if rest == [] then end == |s| else end < |s| && s[end] == '\n' && Written(s, end + 1, rest)
  }

  lemma BlockIsLaid(s: string, pos: nat, f: File)
    requires Reads(s, pos, FenceFile(f))
    ensures Laid(s, pos, FenceLength(f.content), f) && |FenceFile(f)| == Size(FenceLength(f.content), f)
  {
    PiecesAreLaid(s, pos, FenceLength(f.content), f);
  }

  lemma {:induction false} JoinedIsWritten(s: string, pos: nat, files: seq<File>)
    requires pos + |Joined(files)| == |s| && Reads(s, pos, Joined(files))
    ensures Written(s, pos, files)
    decreases |files|
  {
    if |files| == 1 {
      BlockIsLaid(s, pos, files[0]);
    } else if |files| > 1 {
      ReadsLines(s, pos, FenceFile(files[0]), Joined(files[1..]));
      BlockIsLaid(s, pos, files[0]);
      JoinedIsWritten(s, pos + |FenceFile(files[0])| + 1, files[1..]);
    }
  }

  lemma {:induction false} WrittenIsLaidOut(s: string, t: Text, pos: nat, files: seq<File>)
    requires Describes(t, s) && pos <= |s| && Written(s, pos, files) && AtLineStart(s, pos)
    requires forall f :: f in files ==> SingleLine(f.path)
    ensures LaidOut(s, t, pos, files)
    decreases |files|, 0
  {
    if files == [] {
      NoHeadAtEnd(s, |s|);
    } else {
      var n := FenceLength(files[0].content);
      var end := pos + Size(n, files[0]);
      assert end == |s| || s[end] == '\n';
      RestIsLaidOut(s, t, end, files[1..]);
      FirstThenRest(s, t, pos, files, n, end);
    }
  }

  lemma FirstThenRest(s: string, t: Text, pos: nat, files: seq<File>, n: nat, end: nat)
    requires t.size == |s| && t.heads(pos) == HeadAt(s, pos) && ClosesAlike(t, s)
    requires files != [] && n == FenceLength(files[0].content) && end == pos + Size(n, files[0])
    requires Laid(s, pos, n, files[0]) && AtLineStart(s, pos) && SingleLine(files[0].path)
    requires (end == |s| || s[end] == '\n') && Goes(s, t, end, files[1..])
    ensures LaidOut(s, t, pos, files)
  {
    var head, k := FileReadsBack(s, t, pos, n, files[0]);
    BlockThenRest(s, t, pos, files, head, k, end);
  }

  lemma {:induction false} RestIsLaidOut(s: string, t: Text, end: nat, rest: seq<File>)
    requires Describes(t, s) && WrittenAfter(s, end, rest)
    requires forall f :: f in rest ==> SingleLine(f.path)
    ensures Goes(s, t, end, rest)
    decreases |rest|, 1
  {
    NoHeadAtEnd(s, end);
    if rest != [] {
      WrittenIsLaidOut(s, t, end + 1, rest);
    }
  }

  /** Scanning the joined blocks of any files returns exactly those files, in order, whatever
      their contents hold. */
  lemma RoundTrip(files: seq<File>)
    requires forall f :: f in files ==> SingleLine(f.path)
    ensures ScanFrom(Joined(files), 0) == files
  {
    var s := Joined(files);
    TextIsValid(s);
    JoinedIsWritten(s, 0, files);
    WrittenIsLaidOut(s, TextOf(s), 0, files);
    LaidOutIsFound(s, TextOf(s), 0, files);
  }

  // ---------------------------------------------------------------------------------------
  // Dictionaries
  // ---------------------------------------------------------------------------------------

  /** The dictionary of a list of files; of several with one path the last stays. */
  function ByPath(files: seq<File>): map<string, string>
  {
    if files == [] then map[]
    else ByPath(files[..|files| - 1])[files[|files| - 1].path := files[|files| - 1].content]
  }

  function ParseFileFences(s: string, allowed: set<string>): map<string, string>
  {
    map p | p in ByPath(ScanFrom(s, 0)) && p in allowed :: ByPath(ScanFrom(s, 0))[p]
  }

  function TrustedFencedBlocks(s: string): map<string, string> { ByPath(ScanFrom(s, 0)) }

  /** The last file with path `p`, if any. */
  ghost predicate LastWith(files: seq<File>, p: string, i: nat)
  {
    i < |files| && files[i].path == p && forall j :: i < j < |files| ==> files[j].path != p
  }

  lemma {:induction false} ByPathExact(files: seq<File>, p: string, i: nat)
    ensures LastWith(files, p, i) ==> p in ByPath(files) && ByPath(files)[p] == files[i].content
    ensures (forall j :: 0 <= j < |files| ==> files[j].path != p) ==> p !in ByPath(files)
    decreases |files|
  {
    if files != [] {
      var init, last := files[..|files| - 1], |files| - 1;
      ByPathExact(init, p, i);
      if files[last].path != p && LastWith(files, p, i) {
        assert LastWith(init, p, i);
      }
    }
  }

  /** What was fenced is what is read: under an allowed path the content of the last file with
      that path, and nothing under a path that at most occurs inside a content. */
  lemma ParseReadsBack(files: seq<File>, allowed: set<string>, p: string, i: nat)
    requires forall f :: f in files ==> SingleLine(f.path)
    ensures
      var parsed, trusted := ParseFileFences(Joined(files), allowed), TrustedFencedBlocks(Joined(files));
      && (LastWith(files, p, i) ==> p in trusted && trusted[p] == files[i].content)
      && (LastWith(files, p, i) && p in allowed ==> p in parsed && parsed[p] == files[i].content)
      && (p !in allowed || (forall j :: 0 <= j < |files| ==> files[j].path != p) ==> p !in parsed)
  {
    RoundTrip(files);
    ByPathExact(files, p, i);
  }
}
