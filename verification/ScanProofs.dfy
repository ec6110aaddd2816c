/** When the three scans of a file are "split into lines, keep those that match". */
module ScanProofs {
  import opened Bytes
  import opened Matcher
  import opened Regex
  import opened Scan

  /** The lines a line reader returns: a final newline does not start another line. */
  function TextLines(data: seq<Byte>): seq<seq<Byte>> {
    var lines := Lines(data);
    if lines[|lines| - 1] == [] then lines[..|lines| - 1] else lines
  }

  /** The lines before the first one that the reader's buffer cannot hold. */
  function Readable(lines: seq<seq<Byte>>): seq<seq<Byte>> {
    if lines == [] || |lines[0]| >= READER_BUF_SIZE then [] else [lines[0]] + Readable(lines[1..])
  }

  /** Scanning line by line loses nothing for this matcher: a bare literal lies within one line
      and keeps clear of the line ending; a pre-filter literal is part of every match. */
  ghost predicate LineSafe(m: Matcher) {
    && m.literal != []
    && (m.re.None? ==> NL !in m.literal && m.literal[|m.literal| - 1] != CR)
    && (m.re.Some? ==> forall s :: m.re.value.matches(s) ==> Contains(s, m.literal))
  }

  /** A compiled regex whose nonempty pre-filter literal is sure is line-safe. */
  lemma CompiledIsLineSafe(m: Matcher, fold: FoldTable)
    requires m.re.Some? && m.literal == LiteralOf(m.re.value.tree) && m.literal != [] && Sure(m.re.value.tree, fold)
    requires forall s :: m.re.value.matches(s) <==> Found(m.re.value.tree, s, fold)
    ensures LineSafe(m)
  {
    PrefilterKeepsMatches(m, fold);
  }

  lemma LinesStep(data: seq<Byte>, a: nat)
    requires a <= |data|
    ensures var e := LineEnd(data, a);
      Lines(data[a..]) == [Slice(data, a, e)] + if e < |data| then Lines(data[e + 1..]) else []
  {
    var e := LineEnd(data, a);
    SliceIs(data, a, e);
    assert NL !in data[a..e];
    if e < |data| {
      assert data[a..] == data[a..e] + [NL] + data[e + 1..];
      SplitCons(data[a..e], data[e + 1..], NL);
    } else {
      assert data[a..] == data[a..e];
      SplitJoin([data[a..e]], NL);
    }
  }

  lemma OccursInSlice(data: seq<Byte>, lit: seq<Byte>, a: nat, e: nat, p: nat)
    requires a <= e <= |data| && a <= p && p + |lit| <= e
    ensures OccursAt(data, lit, p) <==> OccursAt(data[a..e], lit, p - a)
  {
    SliceOfSlice(data, a, e, p - a, p - a + |lit|);
  }

  /** A literal without a newline that starts on a line ends on it; one that does not end in a
      carriage return also ends before the one that `TrimCR` strips. */
  lemma OccurrenceStaysOnLine(data: seq<Byte>, lit: seq<Byte>, a: nat, p: nat)
    requires a <= |data| && a <= p <= LineEnd(data, a) && lit != []
    requires NL !in lit && lit[|lit| - 1] != CR && OccursAt(data, lit, p)
    ensures p + |lit| <= a + |TrimCR(Slice(data, a, LineEnd(data, a)))|
  {
    var e := LineEnd(data, a);
    SliceIs(data, a, e);
    forall q | p <= q < p + |lit| ensures data[q] == lit[q - p] && data[q] != NL {
      assert data[q] == data[p..p + |lit|][q - p];
    }
    assert p + |lit| <= e;
    assert data[p + |lit| - 1] == lit[|lit| - 1];
  }

  lemma ContainedStarts(data: seq<Byte>, m: Matcher, a: nat, t: nat, e: nat)
    requires m.literal != [] && a <= t <= e <= |data| && Contains(data[a..t], m.literal)
    ensures StartBetween(HitStarts(data, m), a, e)
  {
    hide OccursAt, HitStarts;
    var k :| OccursAt(data[a..t], m.literal, k);
    OccursWithin(data[a..t], m.literal, k);
    OccursInSlice(data, m.literal, a, t, a + k);
    assert a + k in HitStarts(data, m);
  }

  lemma OccursWithin(s: seq<Byte>, lit: seq<Byte>, k: int)
    requires OccursAt(s, lit, k)
    ensures 0 <= k && k + |lit| <= |s|
  {
  }

  /** Holding a literal's start and being confirmed is matching. */
  lemma LineDecision(data: seq<Byte>, m: Matcher, starts: set<int>, a: nat)
    requires LineSafe(m) && a <= |data| && starts == HitStarts(data, m)
    ensures Decided(data, m, starts, a)
  {
    hide LineEnd, Slice, IndexFrom, HitStarts, OccursAt;
    var e, lit := LineEnd(data, a), m.literal;
    var line := TrimCR(Slice(data, a, e));
    SliceIs(data, a, e);
    var t := a + |line|;
    assert line == data[a..t];
    if Contains(line, lit) {
      ContainedStarts(data, m, a, t, e);
    }
    if m.re.None? && StartBetween(starts, a, e) {
      var p :| p in starts && a <= p <= e;
      OccurrenceStaysOnLine(data, lit, a, p);
      OccursInSlice(data, lit, a, t, p);
    }
  }

  /** On every line, holding a hit start and being confirmed is matching. */
  ghost predicate LinesDecided(data: seq<Byte>, m: Matcher, starts: set<int>) {
    forall a: nat :: a <= |data| && (a == 0 || data[a - 1] == NL) ==> Decided(data, m, starts, a)
  }

  ghost predicate Decided(data: seq<Byte>, m: Matcher, starts: set<int>, a: nat)
    requires a <= |data|
  {
    var e := LineEnd(data, a);
    var line := TrimCR(Slice(data, a, e));
    StartBetween(starts, a, e) && Confirmed(m, line) <==> Match(m, line)
  }

  /** Then the whole-body scan answers exactly the lines that match. */
  lemma {:induction false} HoldingIsMatching(data: seq<Byte>, m: Matcher, starts: set<int>, a: nat)
    requires LinesDecided(data, m, starts) && a <= |data| && (a == 0 || data[a - 1] == NL)
    ensures LinesHolding(data, starts, m, a) == MatchingLines(Lines(data[a..]), m, 1 + Newlines(data, a))
    decreases |data| - a
  {
    hide StartBetween, Confirmed, Match, TrimCR, Slice, LineEnd, Lines, MatchingLines;
    var e := LineEnd(data, a);
    assert Decided(data, m, starts, a);
    LinesStep(data, a);
    var rest := if e < |data| then Lines(data[e + 1..]) else [];
    MatchingStep(Slice(data, a, e), rest, m, 1 + Newlines(data, a));
    NewlinesInLine(data, a, e);
    if e < |data| {
      HoldingIsMatching(data, m, starts, e + 1);
    } else {
      assert LinesHolding(data, starts, m, e + 1) == [];
    }
  }

  lemma MatchingStep(line: seq<Byte>, rest: seq<seq<Byte>>, m: Matcher, num: int)
    ensures MatchingLines([line] + rest, m, num)
            == (if Match(m, TrimCR(line)) then [Hit(num, TrimCR(line))] else []) + MatchingLines(rest, m, num + 1)
    ensures MatchingLines([], m, num + 1) == []
  {
    hide Match, TrimCR;
    assert ([line] + rest)[1..] == rest;
  }

  lemma LineSafeDecides(data: seq<Byte>, m: Matcher, starts: set<int>)
    requires LineSafe(m) && starts == HitStarts(data, m)
    ensures LinesDecided(data, m, starts)
  {
    hide LineSafe, HitStarts, Decided;
    forall a: nat | a <= |data| && (a == 0 || data[a - 1] == NL) ensures Decided(data, m, starts, a) {
      LineDecision(data, m, starts, a);
    }
  }

  lemma WholeBodyIsMatching(data: seq<Byte>, m: Matcher)
    requires Usable(m) && LineSafe(m) && !Binary(data)
    ensures WholeBody(data, m) == MatchingLines(Lines(data), m, 1)
  {
    hide LinesHolding, MatchingLines, Lines, LineSafe, HitStarts, Binary;
    LineSafeDecides(data, m, HitStarts(data, m));
    HoldingIsMatching(data, m, HitStarts(data, m), 0);
    assert data[0..] == data;
  }

  lemma TextLinesStep(data: seq<Byte>, a: nat)
    requires a < |data|
    ensures var e := LineEnd(data, a);
      TextLines(data[a..]) == [Slice(data, a, e)] + if e < |data| then TextLines(data[e + 1..]) else []
  {
    hide LineEnd, Slice, Lines;
    var e := LineEnd(data, a);
    LinesStep(data, a);
    SliceIs(data, a, e);
    if e < |data| {
      var rest := Lines(data[e + 1..]);
      assert |rest| >= 1 by { LinesNonempty(data[e + 1..]); }
      var all := [Slice(data, a, e)] + rest;
      assert all[|all| - 1] == rest[|rest| - 1];
      assert all[..|all| - 1] == [Slice(data, a, e)] + rest[..|rest| - 1];
    }
  }

  lemma LinesNonempty(data: seq<Byte>)
    ensures |Lines(data)| >= 1
  {
  }

  /** The stream scan answers the matching lines among those its buffer can hold. */
  lemma {:induction false} StreamIsReadable(data: seq<Byte>, m: Matcher, a: nat, num: int)
    requires a <= |data|
    ensures StreamFrom(data, m, a, num) == MatchingLines(Readable(TextLines(data[a..])), m, num)
    decreases |data| - a
  {
    hide TextLines, LineEnd, Slice, TrimCR, Match, MatchingLines, Readable;
    var e := LineEnd(data, a);
    var line, rest := Slice(data, a, e), if e < |data| then TextLines(data[e + 1..]) else [];
    SliceIs(data, a, e);
    assert |line| == e - a;
    ReadableStep(line, rest);
    MatchingStep(line, [], m, num - 1);
    if a == |data| {
      assert data[a..] == [];
      NoTextLines();
    } else {
      TextLinesStep(data, a);
      MatchingStep(line, Readable(rest), m, num);
      if e < |data| {
        StreamIsReadable(data, m, e + 1, num + 1);
      }
    }
  }

  lemma ReadableStep(line: seq<Byte>, rest: seq<seq<Byte>>)
    ensures Readable([line] + rest) == if |line| >= READER_BUF_SIZE then [] else [line] + Readable(rest)
    ensures Readable([]) == []
  {
    assert ([line] + rest)[1..] == rest;
  }

  lemma {:induction false} ReadableExactly(lines: seq<seq<Byte>>)
    ensures Readable(lines) <= lines
    ensures forall k :: 0 <= k < |Readable(lines)| ==> |lines[k]| < READER_BUF_SIZE
    ensures |Readable(lines)| < |lines| ==> |lines[|Readable(lines)|]| >= READER_BUF_SIZE
  {
    if lines != [] && |lines[0]| < READER_BUF_SIZE {
      ReadableExactly(lines[1..]);
    }
  }

  /** What the stream scan reports, without recursion: the matching lines of a text up to the first one of
      a mebibyte or more. */
  lemma StreamReports(data: seq<Byte>, m: Matcher)
    ensures (exists i :: 0 <= i < |data| && i < 8000 && data[i] == 0) ==> StreamBody(data, m) == []
    ensures (forall i :: 0 <= i < |data| && i < 8000 ==> data[i] != 0) ==>
      && Increasing(StreamBody(data, m))
      && forall hit :: hit in StreamBody(data, m) <==>
           var lines := TextLines(data);
           && 1 <= hit.line <= |lines| && (forall k :: 0 <= k < hit.line ==> |lines[k]| < 0x10_0000)
           && hit.text == TrimCR(lines[hit.line - 1]) && Match(m, hit.text)
  {
    hide TextLines, MatchingLines, Binary, StreamFrom, TrimCR, Match, Readable, Increasing;
    BinaryExactly(data);
    assert data[0..] == data;
    StreamIsReadable(data, m, 0, 1);
    ReadableExactly(TextLines(data));
    MatchingReports(Readable(TextLines(data)), m, 1);
  }

  /** A file with a zero among its first 8000 bytes is scanned as if it were empty, whatever its size. */
  lemma BinaryIsSkipped(data: seq<Byte>, m: Matcher)
    requires Usable(m) && exists i :: 0 <= i < |data| && i < 8000 && data[i] == 0
    ensures FileHits(data, m) == []
  {
    BinaryExactly(data);
  }

  lemma NoTextLines()
    ensures TextLines([]) == []
  {
    assert Lines([]) == [[]];
  }

  lemma {:induction false} AllReadable(lines: seq<seq<Byte>>)
    requires forall k :: 0 <= k < |lines| ==> |lines[k]| < READER_BUF_SIZE
    ensures Readable(lines) == lines
  {
    if lines != [] {
      AllReadable(lines[1..]);
    }
  }

  lemma {:induction false} LastLine(lines: seq<seq<Byte>>, last: seq<Byte>, m: Matcher, num: int)
    ensures MatchingLines(lines + [last], m, num)
            == MatchingLines(lines, m, num)
               + (if Match(m, TrimCR(last)) then [Hit(num + |lines|, TrimCR(last))] else [])
  {
    hide Match, TrimCR;
    if lines == [] {
      assert [last][1..] == [] && [] + [last] == [last];
    } else {
      assert (lines + [last])[1..] == lines[1..] + [last];
      LastLine(lines[1..], last, m, num + 1);
    }
  }

  /** The answer of `ScanFile` does not depend on which way the file is read, and is the
      line-by-line one, as long as a file too large for the buffer has no line that is. */
  lemma ScanFileIsMatching(data: seq<Byte>, m: Matcher)
    requires Usable(m) && LineSafe(m) && !Binary(data)
    requires |data| > SCAN_BUF_SIZE ==>
               forall k :: 0 <= k < |TextLines(data)| ==> |TextLines(data)[k]| < READER_BUF_SIZE
    ensures FileHits(data, m) == MatchingLines(Lines(data), m, 1) == WholeBody(data, m)
  {
    hide Lines, MatchingLines, LinesHolding, HitStarts, Binary, StreamFrom;
    WholeBodyIsMatching(data, m);
    if |data| > SCAN_BUF_SIZE {
      assert data[0..] == data;
      StreamIsReadable(data, m, 0, 1);
      AllReadable(TextLines(data));
      assert !Contains([], m.literal);
      FinalLineExactly(data, m);
    }
  }

  /** The empty line behind a final newline makes no difference if and only if there is none or it does
      not match. */
  lemma FinalLineExactly(data: seq<Byte>, m: Matcher)
    ensures MatchingLines(TextLines(data), m, 1) == MatchingLines(Lines(data), m, 1)
            <==> TextLines(data) == Lines(data) || !Match(m, [])
    ensures TextLines(data) != Lines(data) && Match(m, []) ==>
      MatchingLines(Lines(data), m, 1) == MatchingLines(TextLines(data), m, 1) + [Hit(|Lines(data)|, [])]
  {
    hide Lines, MatchingLines, Match;
    LinesNonempty(data);
    var lines := Lines(data);
    var n := |lines| - 1;
    if lines[n] == [] {
      assert lines == lines[..n] + [[]];
      LastLine(lines[..n], [], m, 1);
    }
  }

  lemma {:induction false} NoneMatching(lines: seq<seq<Byte>>, m: Matcher, num: int)
    requires forall k :: 0 <= k < |lines| ==> !Match(m, TrimCR(lines[k]))
    ensures MatchingLines(lines, m, num) == []
  {
    if lines != [] {
      NoneMatching(lines[1..], m, num + 1);
    }
  }

  lemma {:induction false} SomeHolding(data: seq<Byte>, starts: set<int>, m: Matcher, a: nat, p: nat)
    requires m.re.None? && p in starts && a <= p <= |data|
    ensures LinesHolding(data, starts, m, a) != []
    decreases |data| - a
  {
    hide Slice, TrimCR, Newlines;
    var e := LineEnd(data, a);
    if e < p {
      SomeHolding(data, starts, m, e + 1, p);
    } else {
      assert StartBetween(starts, a, e);
    }
  }

  function Padding(): seq<Byte> { seq(PEEK_SIZE, _ => 120) }

  /** A head full of `x` keeps a body from being taken for binary. */
  lemma PaddedIsText(lit: seq<Byte>)
    ensures !Binary(Padding() + lit)
  {
    var data := Padding() + lit;
    assert data[..PEEK_SIZE] == Padding();
  }

  lemma PaddedIsFound(m: Matcher)
    requires m.re.None? && m.literal != []
    ensures Usable(m) && WholeBody(Padding() + m.literal, m) != []
  {
    var data := Padding() + m.literal;
    PaddedIsText(m.literal);
    assert data[PEEK_SIZE..PEEK_SIZE + |m.literal|] == m.literal;
    assert HitAt(data, m, PEEK_SIZE);
    SomeHolding(data, HitStarts(data, m), m, 0, PEEK_SIZE);
  }

  /** A literal that starts inside the padding would be all padding. */
  lemma {:induction false} OnlyPadding(lit: seq<Byte>, p: nat, k: nat)
    requires p < PEEK_SIZE && k < |lit| && p + |lit| <= PEEK_SIZE + |lit| - 1
    requires OccursAt(Padding() + lit[..|lit| - 1], lit, p)
    ensures lit[k] == 120
    decreases k
  {
    var t := Padding() + lit[..|lit| - 1];
    assert t[p..p + |lit|][k] == t[p + k];
    if p + k >= PEEK_SIZE {
      OnlyPadding(lit, p, p + k - PEEK_SIZE);
    }
  }

  lemma AbsentElement(s: seq<Byte>, pat: seq<Byte>, x: Byte)
    requires x in pat && x !in s
    ensures !Contains(s, pat)
  {
    var i :| 0 <= i < |pat| && pat[i] == x;
    forall k ensures !OccursAt(s, pat, k) {
      assert 0 <= k <= |s| - |pat| ==> s[k..k + |pat|][i] == s[k + i];
    }
  }

  lemma MissedNewline(m: Matcher)
    requires m.re.None? && NL in m.literal
    ensures MatchingLines(Lines(Padding() + m.literal), m, 1) == []
  {
    var lines := Lines(Padding() + m.literal);
    forall k | 0 <= k < |lines| ensures !Match(m, TrimCR(lines[k])) {
      AbsentElement(TrimCR(lines[k]), m.literal, NL);
    }
    NoneMatching(lines, m, 1);
  }

  lemma MissedReturn(m: Matcher)
    requires m.re.None? && m.literal != [] && NL !in m.literal && m.literal[|m.literal| - 1] == CR
    ensures MatchingLines(Lines(Padding() + m.literal), m, 1) == []
  {
    var lit := m.literal;
    var data := Padding() + lit;
    SplitJoin([data], NL);
    var t := Padding() + lit[..|lit| - 1];
    assert TrimCR(data) == data[..|data| - 1] == t;
    forall p ensures !OccursAt(t, lit, p) {
      if OccursAt(t, lit, p) {
        OnlyPadding(lit, p, |lit| - 1);
      }
    }
    NoneMatching([data], m, 1);
  }

  /** For a bare literal, the whole-body scan is the line-by-line one on every body if and only if
      the literal holds no newline and does not end in a carriage return. */
  lemma BareLiteralExactly(m: Matcher)
    requires m.re.None? && m.literal != []
    ensures Usable(m)
    ensures (forall data :: !Binary(data) ==> WholeBody(data, m) == MatchingLines(Lines(data), m, 1))
            <==> NL !in m.literal && m.literal[|m.literal| - 1] != CR
  {
    hide WholeBody, Lines, MatchingLines, Binary, Padding;
    var data := Padding() + m.literal;
    PaddedIsText(m.literal);
    PaddedIsFound(m);
    if NL in m.literal {
      MissedNewline(m);
      assert WholeBody(data, m) != MatchingLines(Lines(data), m, 1);
    } else if m.literal[|m.literal| - 1] == CR {
      MissedReturn(m);
      assert WholeBody(data, m) != MatchingLines(Lines(data), m, 1);
    } else {
      forall data | !Binary(data) ensures WholeBody(data, m) == MatchingLines(Lines(data), m, 1) {
        WholeBodyIsMatching(data, m);
      }
    }
  }

  ghost predicate Increasing(hits: seq<Hit>) {
    forall i, j :: 0 <= i < j < |hits| ==> hits[i].line < hits[j].line
  }

  /** The hit that reports the line of offset `p`. */
  function ReportOf(data: seq<Byte>, p: nat): Hit
    requires p <= |data|
  {
    Hit(1 + Newlines(data, p), TrimCR(Slice(data, LineStart(data, p), LineEnd(data, p))))
  }

  ghost predicate Reports(hit: Hit, data: seq<Byte>, starts: set<int>, m: Matcher, a: nat)
    requires forall p :: p in starts ==> 0 <= p <= |data|
  {
    exists p: nat :: p in starts && a <= p && hit == ReportOf(data, p) && Confirmed(m, hit.text)
  }

  /** The whole-body answer, read without its recursion: strictly increasing line numbers, and
      exactly the confirmed lines that hold the start of some hit, each numbered by one plus the
      newlines before that start. */
  lemma {:induction false} HoldingReports(data: seq<Byte>, starts: set<int>, m: Matcher, a: nat)
    requires a <= |data| + 1 && (a == 0 || a == |data| + 1 || data[a - 1] == NL)
    requires forall p :: p in starts ==> 0 <= p <= |data|
    ensures Increasing(LinesHolding(data, starts, m, a))
    ensures forall hit :: hit in LinesHolding(data, starts, m, a) <==> Reports(hit, data, starts, m, a)
    ensures a <= |data| ==> forall hit :: hit in LinesHolding(data, starts, m, a) ==> hit.line > Newlines(data, a)
    decreases |data| + 1 - a
  {
    hide Reports, StartBetween, Confirmed, TrimCR, Slice;
    if a <= |data| {
      var e := LineEnd(data, a);
      HoldingReports(data, starts, m, e + 1);
      NewlinesInLine(data, a, e);
      forall hit
        ensures Reports(hit, data, starts, m, a)
                <==> Reports(hit, data, starts, m, e + 1) || (StartBetween(starts, a, e) && hit in HitOf(data, m, a, e))
      {
        ReportsStep(hit, data, starts, m, a);
      }
    } else {
      NothingReported(data, starts, m, a);
    }
  }

  lemma NothingReported(data: seq<Byte>, starts: set<int>, m: Matcher, a: nat)
    requires a > |data| && forall p :: p in starts ==> 0 <= p <= |data|
    ensures forall hit :: !Reports(hit, data, starts, m, a)
  {
  }

  lemma ReportsStep(hit: Hit, data: seq<Byte>, starts: set<int>, m: Matcher, a: nat)
    requires a <= |data| && (a == 0 || data[a - 1] == NL) && forall p :: p in starts ==> 0 <= p <= |data|
    ensures var e := LineEnd(data, a);
      Reports(hit, data, starts, m, a)
      <==> Reports(hit, data, starts, m, e + 1) || (StartBetween(starts, a, e) && hit in HitOf(data, m, a, e))
  {
    hide Confirmed, TrimCR, Slice, ReportOf;
    var e := LineEnd(data, a);
    forall p: nat | a <= p <= e ensures ReportOf(data, p) == Hit(1 + Newlines(data, a), TrimCR(Slice(data, a, e))) {
      ReportInLine(data, a, p);
    }
  }

  /** All offsets of a line report that line. */
  lemma ReportInLine(data: seq<Byte>, a: nat, p: nat)
    requires a <= p <= |data| && (a == 0 || data[a - 1] == NL) && p <= LineEnd(data, a)
    ensures ReportOf(data, p) == Hit(1 + Newlines(data, a), TrimCR(Slice(data, a, LineEnd(data, a))))
  {
    hide TrimCR, Slice;
    LineStartUnique(data, a, p);
    LineEndShared(data, a, p);
    NewlinesInLine(data, a, p);
  }

  /** The line-by-line reference, read without its recursion: line `k` is reported exactly when it
      matches, under its own number and with its own text, and the numbers increase. */
  lemma {:induction false} MatchingReports(lines: seq<seq<Byte>>, m: Matcher, num: int)
    ensures Increasing(MatchingLines(lines, m, num))
    ensures forall hit :: hit in MatchingLines(lines, m, num) <==>
      num <= hit.line < num + |lines| && hit.text == TrimCR(lines[hit.line - num]) && Match(m, hit.text)
  {
    hide Match, TrimCR;
    if lines != [] {
      MatchingReports(lines[1..], m, num + 1);
      var all, rest := MatchingLines(lines, m, num), MatchingLines(lines[1..], m, num + 1);
      forall hit
        ensures hit in all <==>
          num <= hit.line < num + |lines| && hit.text == TrimCR(lines[hit.line - num]) && Match(m, hit.text)
      {
        if num < hit.line < num + |lines| {
          assert lines[hit.line - num] == lines[1..][hit.line - (num + 1)];
        }
        assert hit in all <==> hit in rest || (hit == Hit(num, TrimCR(lines[0])) && Match(m, TrimCR(lines[0])));
      }
    }
  }

  // ----- exactly when the whole-body scan works line by line

  /** If the whole-body scan answers the matching lines, every line was decided alike. */
  lemma {:induction false} MatchingDecides(data: seq<Byte>, m: Matcher, starts: set<int>, a: nat)
    requires a <= |data| && (a == 0 || data[a - 1] == NL) && forall p :: p in starts ==> 0 <= p <= |data|
    requires LinesHolding(data, starts, m, a) == MatchingLines(Lines(data[a..]), m, 1 + Newlines(data, a))
    ensures forall b: nat :: a <= b <= |data| && (b == 0 || data[b - 1] == NL) ==> Decided(data, m, starts, b)
    decreases |data| - a
  {
    hide StartBetween, Confirmed, Match, TrimCR, Slice, Lines, MatchingLines, LinesHolding, Decided, HitOf, LineEnd;
    var e, num := LineEnd(data, a), 1 + Newlines(data, a);
    var rest := if e < |data| then Lines(data[e + 1..]) else [];
    LinesStep(data, a);
    MatchingStep(Slice(data, a, e), rest, m, num);
    NewlinesInLine(data, a, e);
    HoldingStep(data, m, starts, a);
    LaterNumbers(data, m, starts, a, rest);
    FirstHitTells(data, m, starts, a, LinesHolding(data, starts, m, e + 1), MatchingLines(rest, m, num + 1));
    if e < |data| {
      MatchingDecides(data, m, starts, e + 1);
    }
  }

  lemma LaterNumbers(data: seq<Byte>, m: Matcher, starts: set<int>, a: nat, rest: seq<seq<Byte>>)
    requires a <= |data| && (a == 0 || data[a - 1] == NL) && forall p :: p in starts ==> 0 <= p <= |data|
    ensures forall hit :: hit in LinesHolding(data, starts, m, LineEnd(data, a) + 1) ==> hit.line > 1 + Newlines(data, a)
    ensures forall hit :: hit in MatchingLines(rest, m, 2 + Newlines(data, a)) ==> hit.line > 1 + Newlines(data, a)
  {
    hide Match, TrimCR, Reports, Increasing, MatchingLines, StartBetween, HitOf;
    var e := LineEnd(data, a);
    NewlinesInLine(data, a, e);
    HoldingReports(data, starts, m, e + 1);
    MatchingReports(rest, m, 2 + Newlines(data, a));
  }

  lemma HoldingStep(data: seq<Byte>, m: Matcher, starts: set<int>, a: nat)
    requires a <= |data|
    ensures var e := LineEnd(data, a);
      LinesHolding(data, starts, m, a)
      == (if StartBetween(starts, a, e) then HitOf(data, m, a, e) else []) + LinesHolding(data, starts, m, e + 1)
    ensures LineEnd(data, a) == |data| ==> LinesHolding(data, starts, m, LineEnd(data, a) + 1) == []
  {
    hide HitOf, StartBetween;
  }

  /** Two answers agree on a line and behind it when what comes behind has other numbers. */
  lemma FirstHitTells(data: seq<Byte>, m: Matcher, starts: set<int>, a: nat, held: seq<Hit>, matching: seq<Hit>)
    requires a <= |data|
    requires forall hit :: hit in held ==> hit.line != 1 + Newlines(data, a)
    requires forall hit :: hit in matching ==> hit.line != 1 + Newlines(data, a)
    requires var e := LineEnd(data, a); var line := TrimCR(Slice(data, a, e));
      (if StartBetween(starts, a, e) then HitOf(data, m, a, e) else []) + held
      == (if Match(m, line) then [Hit(1 + Newlines(data, a), line)] else []) + matching
    ensures Decided(data, m, starts, a) && held == matching
  {
    hide StartBetween, Confirmed, Match, TrimCR, Slice, LineEnd, Newlines;
    var e := LineEnd(data, a);
    var line := TrimCR(Slice(data, a, e));
    var hit := Hit(1 + Newlines(data, a), line);
    var x := if StartBetween(starts, a, e) then HitOf(data, m, a, e) else [];
    var y := if Match(m, line) then [hit] else [];
    assert x == [] || x == [hit];
    SameFirst(x, y, hit, held, matching);
  }

  lemma SameFirst(x: seq<Hit>, y: seq<Hit>, hit: Hit, held: seq<Hit>, matching: seq<Hit>)
    requires (x == [] || x == [hit]) && (y == [] || y == [hit]) && x + held == y + matching
    requires hit !in held && hit !in matching
    ensures x == y && held == matching
  {
    assert x != [] ==> (x + held)[0] == hit;
    assert y != [] ==> (y + matching)[0] == hit;
    assert held != [] ==> held[0] in held;
    assert matching != [] ==> matching[0] in matching;
    assert held == (x + held)[|x|..] && matching == (y + matching)[|y|..];
  }

  /** The whole-body scan answers the matching lines if and only if it decides every line alike. */
  lemma HoldingIsMatchingExactly(data: seq<Byte>, m: Matcher, starts: set<int>)
    requires forall p :: p in starts ==> 0 <= p <= |data|
    ensures LinesHolding(data, starts, m, 0) == MatchingLines(Lines(data), m, 1) <==> LinesDecided(data, m, starts)
  {
    hide LinesHolding, MatchingLines, Lines, Decided;
    assert data[0..] == data;
    if LinesHolding(data, starts, m, 0) == MatchingLines(Lines(data), m, 1) {
      MatchingDecides(data, m, starts, 0);
    }
    if LinesDecided(data, m, starts) {
      HoldingIsMatching(data, m, starts, 0);
    }
  }
}
