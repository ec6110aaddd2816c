/** The frontmatter fence of `mcp/search.go`: found in memory by `detectFence`, and by
    `readFrontmatter` on a stream that is read no further than the closing fence. */
module Frontmatter {
  import opened Bytes
  import opened Wrappers
  import opened ScanProofs

  const DASH: Byte := 45

  /** Where a fence closes (as a line number counted from one) and the text inside it. */
  datatype Fence = NoFence | Fence(closeLine: int, meta: seq<Byte>)

  /** `isFenceText`, which also takes a line with its newline. */
  predicate IsFence(line: seq<Byte>) {
    TrimRight(line, {CR, NL, SPACE}) == [DASH, DASH, DASH]
  }

  /** Three dashes, and behind them nothing but carriage returns, newlines and spaces. */
  lemma {:induction false} IsFenceExactly(line: seq<Byte>)
    ensures IsFence(line) <==>
      |line| >= 3 && line[0] == line[1] == line[2] == 45 && forall k :: 3 <= k < |line| ==> line[k] in {10, 13, 32}
  {
    var r := TrimRight(line, {CR, NL, SPACE});
    assert r == line[..|r|];
    if |line| >= 3 && line[0] == line[1] == line[2] == 45 && forall k :: 3 <= k < |line| ==> line[k] in {10, 13, 32} {
      assert |r| <= 3;
      assert line[2] !in {CR, NL, SPACE};
    }
  }

  /** Looks for the closing fence among `lines`, after the lines whose text is `body`. */
  function FenceFrom(lines: seq<seq<Byte>>, body: seq<seq<Byte>>): Fence {
    if lines == [] then NoFence
    else if IsFence(lines[0]) then Fence(|body| + 2, Join(body, [NL]))
    else FenceFrom(lines[1..], body + [TrimRight(lines[0], {CR})])
  }

  function FenceOfLines(lines: seq<seq<Byte>>): Fence
    requires lines != []
  {
    if IsFence(lines[0]) then FenceFrom(lines[1..], []) else NoFence
  }

  /** What `detectFence` finds. */
  function FenceOf(data: seq<Byte>): Fence { FenceOfLines(Lines(data)) }

  /** Lines without their carriage returns. */
  function Trimmed(lines: seq<seq<Byte>>): seq<seq<Byte>> {
    if lines == [] then [] else Trimmed(lines[..|lines| - 1]) + [TrimRight(lines[|lines| - 1], {CR})]
  }

  lemma {:induction false} FenceFromExact(lines: seq<seq<Byte>>, body: seq<seq<Byte>>, n: nat)
    requires n <= |lines| && forall k :: 0 <= k < n ==> !IsFence(lines[k])
    ensures FenceFrom(lines, body) == FenceFrom(lines[n..], body + Trimmed(lines[..n]))
  {
    hide IsFence, TrimRight;
    if n == 0 {
      assert lines[0..] == lines && lines[..0] == [];
      assert body + [] == body;
    } else {
      FenceFromExact(lines, body, n - 1);
      var front := lines[..n];
      assert front[..n - 1] == lines[..n - 1];
      assert lines[n - 1..][1..] == lines[n..];
      AppendAssociates(body, Trimmed(lines[..n - 1]), [TrimRight(lines[n - 1], {CR})]);
    }
  }

  /** A fence closes at the first fence line after an opening one on line one, and holds the lines
      between, without their carriage returns. */
  lemma FenceExact(lines: seq<seq<Byte>>, close: nat)
    requires 1 <= close < |lines| && IsFence(lines[0]) && IsFence(lines[close])
    requires forall k :: 1 <= k < close ==> !IsFence(lines[k])
    ensures FenceOfLines(lines) == Fence(close + 1, Join(Trimmed(lines[1..close]), [NL]))
  {
    hide IsFence, TrimRight;
    var rest := lines[1..];
    FenceFromExact(rest, [], close - 1);
    assert rest[..close - 1] == lines[1..close] && rest[close - 1..][0] == lines[close];
    assert [] + Trimmed(lines[1..close]) == Trimmed(lines[1..close]);
    TrimmedLength(lines[1..close]);
  }

  lemma {:induction false} TrimmedLength(lines: seq<seq<Byte>>)
    ensures |Trimmed(lines)| == |lines|
  {
    if lines != [] {
      TrimmedLength(lines[..|lines| - 1]);
    }
  }

  /** Without an opening fence, or without a second fence line, there is none. */
  lemma NoFenceExact(lines: seq<seq<Byte>>)
    requires lines != []
    requires !IsFence(lines[0]) || forall k :: 1 <= k < |lines| ==> !IsFence(lines[k])
    ensures FenceOfLines(lines) == NoFence
  {
    hide IsFence, TrimRight;
    if IsFence(lines[0]) {
      var rest := lines[1..];
      FenceFromExact(rest, [], |rest|);
      assert rest[|rest|..] == [];
    }
  }

  /** `detectFence`. */
  method DetectFence(data: seq<Byte>) returns (fence: Fence)
    ensures fence == FenceOf(data)
  {
    hide IsFence, TrimRight;
    if |data| == 0 {
      EmptyHasNoFence();
      return NoFence;
    }
    var lines := Lines(data);
    if IsFence(lines[0]) {
      for i := 1 to |lines|
        invariant forall k :: 1 <= k < i ==> !IsFence(lines[k])
      {
        if IsFence(lines[i]) {
          var body := [];
          for k := 1 to i
            invariant body == Trimmed(lines[1..k])
          {
            assert lines[1..k + 1][..k - 1] == lines[1..k];
            body := body + [TrimRight(lines[k], {CR})];
          }
          FenceExact(lines, i);
          return Fence(i + 1, Join(body, [NL]));
        }
      }
    }
    NoFenceExact(lines);
    return NoFence;
  }

  lemma EmptyHasNoFence()
    ensures FenceOf([]) == NoFence
  {
    assert Lines([]) == [[]];
    assert TrimRight([], {CR, NL, SPACE}) == [];
  }

  /** Trimming a line read with its newline. */
  lemma {:induction false} TrimNewline(line: seq<Byte>)
    requires NL !in line
    ensures IsFence(line + [NL]) == IsFence(line)
    ensures TrimRight(line + [NL], {CR, NL}) == TrimRight(line, {CR})
  {
    assert (line + [NL])[..|line|] == line;
    TrimWithout(line);
  }

  lemma {:induction false} TrimWithout(line: seq<Byte>)
    requires NL !in line
    ensures TrimRight(line, {CR, NL}) == TrimRight(line, {CR})
  {
    if line != [] {
      TrimWithout(line[..|line| - 1]);
    }
  }

  /** Go's `ReadString('\n')`: the rest of the current line with its newline, and whether the
      stream ended before one. */
  function ReadString(data: seq<Byte>, pos: nat): (seq<Byte>, bool)
    requires pos <= |data|
  {
    var e := LineEnd(data, pos);
    if e < |data| then (data[pos..e + 1], false) else (data[pos..], true)
  }

  /** One line of the stream is one line of the split. */
  lemma ReadStringStep(data: seq<Byte>, pos: nat)
    requires pos <= |data|
    ensures var (line, atEnd) := ReadString(data, pos); var rest := Lines(data[pos..]);
      && rest != [] && IsFence(line) == IsFence(rest[0])
      && (atEnd ==> |rest| == 1)
      && (!atEnd ==> pos + |line| <= |data| && rest[1..] == Lines(data[pos + |line|..])
                     && TrimRight(line, {CR, NL}) == TrimRight(rest[0], {CR}))
  {
    hide IsFence, TrimRight, Slice, LineEnd, Lines;
    var e := LineEnd(data, pos);
    LinesStep(data, pos);
    SliceIs(data, pos, e);
    if e < |data| {
      assert data[pos..e + 1] == data[pos..e] + [NL];
      TrimNewline(data[pos..e]);
    } else {
      assert data[pos..] == data[pos..e];
    }
  }

  /** `readFrontmatter`, on the first `probe` bytes of a file. */
  method ReadFrontmatter(data: seq<Byte>, probe: nat) returns (meta: Option<seq<Byte>>)
    ensures var fence := FenceOf(data[..if probe < |data| then probe else |data|]);
      meta == if fence.Fence? then Some(fence.meta) else None
  {
    hide IsFence, TrimRight, LineEnd, Lines, ReadString;
    var limited := data[..if probe < |data| then probe else |data|];
    assert limited[0..] == limited;
    ReadStringStep(limited, 0);
    var (first, atEnd) := ReadString(limited, 0);
    if !IsFence(first) {
      return None;
    }
    if atEnd {
      return None;
    }
    var pos := |first|;
    var body: seq<seq<Byte>> := [];
    while true
      invariant 0 <= pos <= |limited|
      invariant FenceFrom(Lines(limited[pos..]), body) == FenceOf(limited)
      decreases |limited| - pos
    {
      ReadStringStep(limited, pos);
      var (line, eof) := ReadString(limited, pos);
      if IsFence(line) {
        return Some(Join(body, [NL]));
      }
      if eof {
        return None;
      }
      LineAdvances(limited, pos);
      body := body + [TrimRight(line, {CR, NL})];
      pos := pos + |line|;
    }
  }

  lemma LineAdvances(data: seq<Byte>, pos: nat)
    requires pos <= |data| && !ReadString(data, pos).1
    ensures |ReadString(data, pos).0| > 0
  {
  }

  // ----- a prefix of a file against the whole file

  /** All lines of a prefix but its last one are lines of the whole. */
  lemma {:induction false} PrefixLines(data: seq<Byte>, n: nat, a: nat)
    requires a <= n <= |data|
    ensures var p, d := Lines(data[a..n]), Lines(data[a..]);
      |p| <= |d| && p[..|p| - 1] == d[..|p| - 1]
    decreases n - a
  {
    hide Slice, Lines;
    var prefix := data[..n];
    assert prefix[a..] == data[a..n];
    LinesStep(prefix, a);
    LinesStep(data, a);
    SliceIs(prefix, a, LineEnd(prefix, a));
    SliceIs(data, a, LineEnd(data, a));
    var e := LineEnd(prefix, a);
    if e < n {
      SameLineEnd(data, n, a);
      assert prefix[e + 1..] == data[e + 1..n] && prefix[a..e] == data[a..e];
      PrefixLines(data, n, e + 1);
      var p, d := Lines(data[e + 1..n]), Lines(data[e + 1..]);
      LinesNonempty(data[e + 1..n]);
      assert ([data[a..e]] + p)[..|p|] == [data[a..e]] + p[..|p| - 1];
      assert ([data[a..e]] + d)[..|p|] == [data[a..e]] + d[..|p| - 1];
    } else {
      LinesNonempty(data[a..]);
    }
  }

  lemma {:induction false} SameLineEnd(data: seq<Byte>, n: nat, a: nat)
    requires a <= n <= |data| && LineEnd(data[..n], a) < n
    ensures LineEnd(data, a) == LineEnd(data[..n], a)
    decreases n - a
  {
    if data[a] != NL {
      SameLineEnd(data, n, a + 1);
    }
  }

  /** A fence is the opening line, the first fence line after it, and what lies between. */
  lemma FenceShape(lines: seq<seq<Byte>>)
    requires lines != []
    ensures FenceOfLines(lines).Fence? ==>
      var c := FenceOfLines(lines).closeLine;
      && 2 <= c <= |lines| && IsFence(lines[0]) && IsFence(lines[c - 1])
      && (forall k :: 1 <= k < c - 1 ==> !IsFence(lines[k]))
  {
    hide IsFence;
    if IsFence(lines[0]) && exists k :: 1 <= k < |lines| && IsFence(lines[k]) {
      var close := FirstFence(lines, 1);
      FenceExact(lines, close);
    } else {
      NoFenceExact(lines);
    }
  }

  lemma {:induction false} FirstFence(lines: seq<seq<Byte>>, from: nat) returns (close: nat)
    requires exists k :: from <= k < |lines| && IsFence(lines[k])
    ensures from <= close < |lines| && IsFence(lines[close])
    ensures forall k :: from <= k < close ==> !IsFence(lines[k])
    decreases |lines| - from
  {
    hide IsFence;
    if IsFence(lines[from]) {
      close := from;
    } else {
      close := FirstFence(lines, from + 1);
    }
  }

  /** A fence found in a prefix is the fence of the whole file if and only if its closing line is
      complete in the prefix, or is a fence line in the whole file all the same. */
  lemma PrefixFenceExactly(data: seq<Byte>, n: nat)
    requires n <= |data| && FenceOf(data[..n]).Fence?
    ensures var fence, lines := FenceOf(data[..n]), Lines(data);
      && fence.closeLine <= |Lines(data[..n])| <= |lines|
      && (FenceOf(data) == fence <==> fence.closeLine < |Lines(data[..n])| || IsFence(lines[fence.closeLine - 1]))
  {
    hide IsFence, TrimRight, Lines;
    var p, d := Lines(data[..n]), Lines(data);
    LinesNonempty(data[..n]);
    PrefixLines(data, n, 0);
    assert data[0..n] == data[..n] && data[0..] == data;
    FenceShape(p);
    FenceShape(d);
    var c := FenceOfLines(p).closeLine;
    assert forall k :: 0 <= k < c - 1 ==> p[k] == p[..|p| - 1][k] && d[k] == d[..|p| - 1][k];
    FenceExact(p, c - 1);
    assert p[1..c - 1] == d[1..c - 1];
    assert c < |p| ==> p[c - 1] == p[..|p| - 1][c - 1] && d[c - 1] == d[..|p| - 1][c - 1];
    if IsFence(d[c - 1]) {
      FenceExact(d, c - 1);
    }
  }
}
