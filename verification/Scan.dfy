/** `grrep/scan.go`: three ways to find the matching lines of a file. Two are tied to
    "the lines that hold a hit", one to "the lines that match"; the lemmas in
    `ScanProofs` say when these are the same. The path label of a hit is left out. */
module Scan {
  import opened Bytes
  import opened Matcher

  const READER_BUF_SIZE: nat := 0x10_0000
  const SCAN_BUF_SIZE: nat := 0x10_0000

  datatype Hit = Hit(line: int, text: seq<Byte>)

  function TrimCR(line: seq<Byte>): (r: seq<Byte>)
    ensures r <= line
  {
    if |line| > 0 && line[|line| - 1] == CR then line[..|line| - 1] else line
  }

  /** A matcher that `CompileMatcher` can return, with hits in order on every body. */
  ghost predicate Usable(m: Matcher) {
    && (m.re.Some? || m.literal != [])
    && (m.re.Some? ==> forall data :: HitsInOrder(m.re.value.hits(data), |data|))
  }

  /** Where the whole-body scan looks for lines: the starts of the literal, or of the regex hits. */
  ghost predicate HitAt(data: seq<Byte>, m: Matcher, p: int) {
    if m.literal != [] then 0 <= p < |data| && OccursAt(data, m.literal, p)
    else m.re.Some? && p in m.re.value.hits(data)
  }

  /** A line found through the literal is still put to the regex. */
  predicate Confirmed(m: Matcher, line: seq<Byte>) {
    m.literal == [] || m.re.None? || m.re.value.matches(line)
  }

  /** All of them, as a set. */
  ghost function HitStarts(data: seq<Byte>, m: Matcher): (starts: set<int>)
    requires m.literal == [] && m.re.Some? ==> HitsInOrder(m.re.value.hits(data), |data|)
    ensures forall p :: p in starts <==> HitAt(data, m, p)
  {
    set p | 0 <= p <= |data| && HitAt(data, m, p)
  }

  ghost predicate StartBetween(starts: set<int>, a: int, e: int) {
    exists p :: p in starts && a <= p <= e
  }

  /** The hit of the line `[a..e)`, when it is confirmed. */
  ghost function HitOf(data: seq<Byte>, m: Matcher, a: nat, e: nat): seq<Hit>
    requires a <= e <= |data|
  {
    if Confirmed(m, TrimCR(Slice(data, a, e))) then [Hit(1 + Newlines(data, a), TrimCR(Slice(data, a, e)))] else []
  }

  /** From the line starting at `a` on: the confirmed lines that hold one of `starts`, each once
      and in order, numbered by the newlines before them. */
  ghost function LinesHolding(data: seq<Byte>, starts: set<int>, m: Matcher, a: nat): seq<Hit>
    requires a <= |data| + 1
    decreases |data| + 1 - a
  {
    if a > |data| then []
    else if StartBetween(starts, a, LineEnd(data, a)) then
      HitOf(data, m, a, LineEnd(data, a)) + LinesHolding(data, starts, m, LineEnd(data, a) + 1)
    else LinesHolding(data, starts, m, LineEnd(data, a) + 1)
  }

  /** What the whole-body scan answers, for any usable matcher. */
  ghost function WholeBody(data: seq<Byte>, m: Matcher): seq<Hit>
    requires Usable(m)
  {
    if Binary(data) then [] else LinesHolding(data, HitStarts(data, m), m, 0)
  }

  /** The lines of `lines` that match, numbered from `num`. */
  function MatchingLines(lines: seq<seq<Byte>>, m: Matcher, num: int): seq<Hit> {
    if lines == [] then []
    else
      (if Match(m, TrimCR(lines[0])) then [Hit(num, TrimCR(lines[0]))] else [])
      + MatchingLines(lines[1..], m, num + 1)
  }

  /** Offsets up to the end of a line share that end. */
  lemma LineEndShared(data: seq<Byte>, a: nat, p: nat)
    requires a <= p <= |data|
    ensures p <= LineEnd(data, a) ==> LineEnd(data, p) == LineEnd(data, a)
  {
  }

  lemma {:induction false} NoneHolding(data: seq<Byte>, starts: set<int>, m: Matcher, a: nat)
    requires a <= |data| + 1 && (forall p :: p in starts ==> p < a)
    ensures LinesHolding(data, starts, m, a) == []
    decreases |data| + 1 - a
  {
    if a <= |data| {
      NoneHolding(data, starts, m, LineEnd(data, a) + 1);
    }
  }

  lemma LineStartUnique(data: seq<Byte>, a: nat, p: nat)
    requires a <= p <= |data| && (a == 0 || data[a - 1] == NL)
    requires forall k :: a <= k < p ==> data[k] != NL
    ensures LineStart(data, p) == a
  {
    var l := LineStart(data, p);
    assert l > 0 ==> data[l - 1] == NL;
  }

  /** Lines without a hit start may be skipped up to the line of the next one. */
  lemma {:induction false} SkipToLine(data: seq<Byte>, starts: set<int>, m: Matcher, a: nat, p: nat)
    requires a <= p <= |data| && (a == 0 || data[a - 1] == NL)
    requires forall q :: q in starts && a <= q ==> p <= q
    ensures LinesHolding(data, starts, m, a) == LinesHolding(data, starts, m, LineStart(data, p))
    decreases p - a
  {
    hide HitOf;
    var e := LineEnd(data, a);
    if e < p {
      assert !StartBetween(starts, a, e);
      SkipToLine(data, starts, m, e + 1, p);
    } else {
      LineStartUnique(data, a, p);
    }
  }

  /** A hit start at `p`, and none between the line start `a` and `p`: from `a` on, the scan emits
      the line of `p` when it is confirmed, and then what the following lines hold. */
  lemma HitStep(data: seq<Byte>, starts: set<int>, m: Matcher, a: nat, p: nat)
    requires a <= p <= |data| && (a == 0 || data[a - 1] == NL)
    requires p in starts && forall q :: q in starts && a <= q ==> p <= q
    ensures LinesHolding(data, starts, m, a)
            == HitOf(data, m, LineStart(data, p), LineEnd(data, p)) + LinesHolding(data, starts, m, LineEnd(data, p) + 1)
    ensures Newlines(data, LineStart(data, p)) == Newlines(data, p)
  {
    hide HitOf;
    var l := LineStart(data, p);
    SkipToLine(data, starts, m, a, p);
    NewlinesInLine(data, l, p);
    LineEndShared(data, l, p);
    assert StartBetween(starts, l, LineEnd(data, p));
  }

  /** Where the literal scan goes on after the line that holds offset `p`. */
  function NextLine(data: seq<Byte>, p: nat): (n: nat)
    requires p <= |data|
    ensures n <= |data| && (0 < n < |data| ==> data[n - 1] == NL)
  {
    var e := LineEnd(data, p);
    if e < |data| then e + 1 else e
  }

  /** The same step for the literal scan, which stops at the end of the body: no literal starts
      there. */
  lemma LiteralStep(data: seq<Byte>, starts: set<int>, m: Matcher, a: nat, p: nat)
    requires a <= p < |data| && (a == 0 || data[a - 1] == NL)
    requires p in starts && |data| !in starts && forall q :: q in starts ==> q <= |data| && (a <= q ==> p <= q)
    ensures LinesHolding(data, starts, m, a)
            == HitOf(data, m, LineStart(data, p), LineEnd(data, p)) + LinesHolding(data, starts, m, NextLine(data, p))
    ensures Newlines(data, LineStart(data, p)) == Newlines(data, p)
    ensures Newlines(data, NextLine(data, p)) == Newlines(data, p) + (if LineEnd(data, p) < |data| then 1 else 0)
  {
    hide HitOf, LineStart;
    HitStep(data, starts, m, a, p);
    NewlinesInLine(data, p, LineEnd(data, p));
    if LineEnd(data, p) == |data| {
      NoneHolding(data, starts, m, |data|);
      NoneHolding(data, starts, m, |data| + 1);
    }
  }

  /** `scanWholeBody`. */
  method ScanWholeBody(data: seq<Byte>, m: Matcher) returns (out: seq<Hit>)
    requires Usable(m)
    ensures out == WholeBody(data, m)
  {
    hide LinesHolding, HitStarts, HitOf, HitAt, Newlines, IndexFrom, OccursAt, HitsInOrder;
    hide LineStart, LineEnd, CountIn, Slice, TrimCR, Binary;
    if Binary(data) {
      return [];
    }
    if m.re.Some? && |m.literal| == 0 {
      out := ScanWholeRegex(data, m);
      return;
    }
    var lit := m.literal;
    out := [];
    var lineNum := 1;
    var cursor := 0;
    ghost var starts := HitStarts(data, m);
    ghost var rest := LinesHolding(data, starts, m, 0);
    ghost var all := rest;
    NoNewlinesYet(data);
    while true
      invariant 0 <= cursor <= |data|
      invariant cursor == 0 || cursor == |data| || data[cursor - 1] == NL
      invariant lineNum == 1 + Newlines(data, cursor)
      invariant rest == LinesHolding(data, starts, m, cursor)
      invariant out + rest == all
      decreases |data| - cursor
    {
      var matchPos := IndexFrom(data, lit, cursor);
      LiteralScanStep(data, m, starts, cursor, matchPos);
      if matchPos < 0 {
        break;
      }
      lineNum := lineNum + CountIn(data, cursor, matchPos, NL);
      var lineStart := LineStart(data, matchPos);
      var lineEnd := LineEnd(data, matchPos);
      var line := TrimCR(Slice(data, lineStart, lineEnd));
      rest := LinesHolding(data, starts, m, NextLine(data, matchPos));
      if m.re.None? || m.re.value.matches(line) {
        AppendAssociates(out, [Hit(lineNum, line)], rest);
        out := out + [Hit(lineNum, line)];
      }
      cursor := lineEnd;
      if cursor < |data| {
        cursor := cursor + 1;
        lineNum := lineNum + 1;
      }
    }
  }

  lemma NoNewlinesYet(data: seq<Byte>)
    ensures Newlines(data, 0) == 0
  {
  }

  /** One round of the literal scan: the line of the next hit start is put to the regex, if there is
      one, and numbered from the cursor; the scan goes on behind it. */
  lemma LiteralScanStep(data: seq<Byte>, m: Matcher, starts: set<int>, cursor: nat, p: int)
    requires m.literal != [] && cursor <= |data| && p == IndexFrom(data, m.literal, cursor) && starts == HitStarts(data, m)
    requires cursor == 0 || cursor == |data| || data[cursor - 1] == NL
    ensures p < 0 ==> LinesHolding(data, starts, m, cursor) == []
    ensures p >= 0 ==> cursor <= p < |data| && cursor < NextLine(data, p)
    ensures p >= 0 ==>
      var line := TrimCR(Slice(data, LineStart(data, p), LineEnd(data, p)));
      var lineNum := 1 + Newlines(data, cursor) + CountIn(data, cursor, p, NL);
      && LinesHolding(data, starts, m, cursor)
         == (if m.re.None? || m.re.value.matches(line)
             then [Hit(lineNum, line)] + LinesHolding(data, starts, m, NextLine(data, p))
             else LinesHolding(data, starts, m, NextLine(data, p)))
      && 1 + Newlines(data, NextLine(data, p)) == lineNum + (if LineEnd(data, p) < |data| then 1 else 0)
  {
    hide LinesHolding, LineStart, TrimCR, Slice, IndexFrom, HitStarts;
    NextStart(data, m, starts, cursor, p);
    if p < 0 {
      NoneHolding(data, starts, m, cursor);
    } else {
      LiteralStep(data, starts, m, cursor, p);
      NewlinesBetween(data, cursor, p);
      assert [] + LinesHolding(data, starts, m, NextLine(data, p)) == LinesHolding(data, starts, m, NextLine(data, p));
    }
  }

  /** The substring search from the cursor on finds the next hit start, if there is one. */
  lemma NextStart(data: seq<Byte>, m: Matcher, starts: set<int>, cursor: nat, p: int)
    requires m.literal != [] && cursor <= |data| && p == IndexFrom(data, m.literal, cursor)
    requires starts == HitStarts(data, m)
    ensures |data| !in starts && forall q :: q in starts ==> q <= |data|
    ensures p < 0 ==> forall q :: q in starts ==> q < cursor
    ensures p >= 0 ==> cursor <= p < |data| && p in starts
    ensures p >= 0 ==> forall q :: q in starts && cursor <= q ==> p <= q
  {
  }

  /** `scanWholeRegex`. */
  method ScanWholeRegex(data: seq<Byte>, m: Matcher) returns (out: seq<Hit>)
    requires m.re.Some? && m.literal == [] && HitsInOrder(m.re.value.hits(data), |data|)
    ensures out == LinesHolding(data, HitStarts(data, m), m, 0)
  {
    hide LinesHolding, LineStart, LineEnd, CountIn, Slice;
    var hits := m.re.value.hits(data);
    ghost var starts := HitStarts(data, m);
    assert forall p :: p in starts <==> p in hits;
    if |hits| == 0 {
      NoneHolding(data, starts, m, 0);
      return [];
    }
    out := [];
    var lineNum := 1;
    var cursor := 0;
    var prevLineEnd := -1;
    ghost var rest := LinesHolding(data, starts, m, 0);
    ghost var all := rest;
    for i := 0 to |hits|
      invariant 0 <= cursor <= |data| && -1 <= prevLineEnd <= |data|
      invariant lineNum == 1 + Newlines(data, cursor)
      invariant i > 0 ==> cursor == hits[i - 1] && LineEnd(data, cursor) == prevLineEnd
      invariant i == 0 ==> cursor == 0 && prevLineEnd == -1
      invariant rest == LinesHolding(data, starts, m, prevLineEnd + 1)
      invariant out + rest == all
    {
      var matchPos := hits[i];
      assert cursor <= matchPos;
      NewlinesBetween(data, cursor, matchPos);
      lineNum := lineNum + CountIn(data, cursor, matchPos, NL);
      var lineStart := LineStart(data, matchPos);
      var lineEnd := LineEnd(data, matchPos);
      if lineEnd != prevLineEnd {
        RegexStep(data, starts, m, hits, i, prevLineEnd);
        rest := LinesHolding(data, starts, m, lineEnd + 1);
        AppendAssociates(out, HitOf(data, m, lineStart, lineEnd), rest);
        var line := TrimCR(Slice(data, lineStart, lineEnd));
        out := out + [Hit(lineNum, line)];
        prevLineEnd := lineEnd;
      }
      cursor := matchPos;
    }
    NoneHolding(data, starts, m, prevLineEnd + 1);
  }

  /** A hit past the last emitted line is the first one there. */
  lemma RegexStep(data: seq<Byte>, starts: set<int>, m: Matcher, hits: seq<nat>, i: nat, prevLineEnd: int)
    requires HitsInOrder(hits, |data|) && (forall p :: p in starts <==> p in hits)
    requires i < |hits| && prevLineEnd == if i == 0 then -1 else LineEnd(data, hits[i - 1])
    requires LineEnd(data, hits[i]) != prevLineEnd
    ensures LinesHolding(data, starts, m, prevLineEnd + 1)
            == HitOf(data, m, LineStart(data, hits[i]), LineEnd(data, hits[i]))
               + LinesHolding(data, starts, m, LineEnd(data, hits[i]) + 1)
    ensures Newlines(data, LineStart(data, hits[i])) == Newlines(data, hits[i])
  {
    hide HitOf, LinesHolding;
    if i > 0 {
      LineEndShared(data, hits[i - 1], hits[i]);
    }
    forall q | q in starts && prevLineEnd < q ensures hits[i] <= q {
      assert forall j :: 0 <= j < |hits| ==> if j < i then hits[j] <= prevLineEnd else hits[i] <= hits[j];
    }
    HitStep(data, starts, m, prevLineEnd + 1, hits[i]);
  }

  /** The matching lines from offset `a` on, up to the first line the reader's buffer cannot hold.
      A final newline does not start another line. */
  function StreamFrom(data: seq<Byte>, m: Matcher, a: nat, num: int): seq<Hit>
    requires a <= |data|
    decreases |data| - a
  {
    var e := LineEnd(data, a);
    if a == |data| || e - a >= READER_BUF_SIZE then []
    else
      var line := TrimCR(Slice(data, a, e));
      var rest := if e < |data| then StreamFrom(data, m, e + 1, num + 1) else [];
      if Match(m, line) then [Hit(num, line)] + rest else rest
  }

  function StreamBody(data: seq<Byte>, m: Matcher): seq<Hit> {
    if Binary(data) then [] else StreamFrom(data, m, 0, 1)
  }

  /** `scanFileStream`: a buffered line reader over the whole file. */
  method ScanFileStream(data: seq<Byte>, m: Matcher) returns (out: seq<Hit>)
    ensures out == StreamBody(data, m)
  {
    hide LineEnd, Slice, TrimCR, Match, Binary;
    if Binary(data) {
      return [];
    }
    out := [];
    var lineNum := 0;
    var pos := 0;
    ghost var rest := StreamFrom(data, m, 0, 1);
    ghost var all := rest;
    while true
      invariant 0 <= pos <= |data|
      invariant rest == StreamFrom(data, m, pos, lineNum + 1)
      invariant out + rest == all
      decreases |data| - pos
    {
      if pos == |data| {  // nothing left: an empty slice and the end of the file
        break;
      }
      var lineEnd := LineEnd(data, pos);
      if lineEnd - pos >= READER_BUF_SIZE {  // no newline within one full buffer
        return;
      }
      lineNum := lineNum + 1;
      var line := TrimCR(Slice(data, pos, lineEnd));
      rest := if lineEnd < |data| then StreamFrom(data, m, lineEnd + 1, lineNum + 1) else [];
      if Match(m, line) {
        AppendAssociates(out, [Hit(lineNum, line)], rest);
        out := out + [Hit(lineNum, line)];
      }
      if lineEnd == |data| {
        break;
      }
      pos := lineEnd + 1;
    }
  }

  /** What `ScanFile` answers on any file. */
  ghost function FileHits(data: seq<Byte>, m: Matcher): seq<Hit>
    requires Usable(m)
  {
    if |data| <= SCAN_BUF_SIZE then WholeBody(data, m) else StreamBody(data, m)
  }

  /** `ScanFile`: the file is read into one buffer; when it fills the buffer, one more byte tells
      whether the file goes on, and then it is streamed from the start. */
  method ScanFile(data: seq<Byte>, m: Matcher) returns (out: seq<Hit>)
    requires Usable(m)
    ensures out == FileHits(data, m)
  {
    var n := if |data| < SCAN_BUF_SIZE then |data| else SCAN_BUF_SIZE;
    if n < SCAN_BUF_SIZE {
      assert data[..n] == data;
      out := ScanWholeBody(data[..n], m);
      return;
    }
    var probe := if |data| > n then 1 else 0;
    if probe == 0 {
      assert data[..n] == data;
      out := ScanWholeBody(data[..n], m);
      return;
    }
    out := ScanFileStream(data, m);
  }
}
