/** Reading a file page by page with `file_read` line ranges. */
module Paging {
  import opened Bytes
  import opened Wrappers
  import opened Visibility
  import opened ScanProofs
  import opened Files

  /** Lines 1 to `total`, cut into consecutive nonempty spans: page `k` is `cuts[k]` to
      `cuts[k + 1] - 1`. */
  ghost predicate Cuts(cuts: seq<int>, total: nat) {
    && |cuts| >= 2 && cuts[0] == 1 && cuts[|cuts| - 1] == total + 1
    && forall i, k :: 0 <= i < k < |cuts| ==> cuts[i] < cuts[k]
  }

  function PageArgs(q: Path, from: int, to: int, maxBytes: int): ReadArgs {
    ReadArgs(Some(q), maxBytes, Some(from), Some(to), false)
  }

  /** The contents of the pages, in order. */
  function Spans(lines: seq<seq<Byte>>, cuts: seq<int>): seq<seq<Byte>> {
    if |cuts| < 2 then []
    else Spans(lines, cuts[..|cuts| - 1]) + [SpanOf(lines, cuts[|cuts| - 2], cuts[|cuts| - 1] - 1)]
  }

  lemma {:induction false} SpansAt(lines: seq<seq<Byte>>, cuts: seq<int>)
    ensures |Spans(lines, cuts)| == if |cuts| < 2 then 0 else |cuts| - 1
    ensures forall k :: 0 <= k < |cuts| - 1 ==> Spans(lines, cuts)[k] == SpanOf(lines, cuts[k], cuts[k + 1] - 1)
  {
    hide SpanOf;
    if |cuts| >= 2 {
      var front := cuts[..|cuts| - 1];
      SpansAt(lines, front);
      forall k | 0 <= k < |cuts| - 1 ensures Spans(lines, cuts)[k] == SpanOf(lines, cuts[k], cuts[k + 1] - 1) {
        if k < |front| - 1 {
          assert front[k] == cuts[k] && front[k + 1] == cuts[k + 1];
        }
      }
    }
  }

  /** Joining spans is joining their lines. */
  lemma {:induction false} SpansRejoin(lines: seq<seq<Byte>>, cuts: seq<int>)
    requires |cuts| >= 2 && cuts[0] == 1 && cuts[|cuts| - 1] <= |lines| + 1
    requires forall i, k :: 0 <= i < k < |cuts| ==> cuts[i] < cuts[k]
    ensures Join(Spans(lines, cuts), [NL]) == Join(lines[..cuts[|cuts| - 1] - 1], [NL])
    decreases |cuts|
  {
    hide Join;
    var n := |cuts| - 1;
    var from, to := cuts[n - 1], cuts[n] - 1;
    var front, last := Spans(lines, cuts[..n]), SpanOf(lines, from, to);
    JoinOne(last);
    if n == 1 {
      assert lines[0..to] == lines[..to];
    } else {
      SpansRejoin(lines, cuts[..n]);
      SpansAt(lines, cuts[..n]);
      JoinConcat(front, [last], [NL]);
      JoinConcat(lines[..from - 1], lines[from - 1..to], [NL]);
      assert lines[..from - 1] + lines[from - 1..to] == lines[..to];
    }
  }

  lemma JoinOne(part: seq<Byte>)
    ensures Join([part], [NL]) == part
    ensures [] + [part] == [part]
    ensures forall lines: seq<seq<Byte>> :: Spans(lines, [1]) == []
  {
  }

  predicate EndsInNewline(content: seq<Byte>) { content != [] && content[|content| - 1] == NL }

  /** The lines without the empty one behind a final newline make up the file, up to that newline. */
  lemma LinesRejoin(content: seq<Byte>)
    requires content != []
    ensures TextLines(content) != []
    ensures Join(TextLines(content), [NL]) + (if EndsInNewline(content) then [NL] else []) == content
  {
    hide Split;
    JoinSplit(content, NL);
    LinesNonempty(content);
    var all := Lines(content);
    var n := |all| - 1;
    var last := all[n];
    if n > 0 {
      JoinConcat(all[..n], [last], [NL]);
      assert all == all[..n] + [last];
    } else {
      assert all == [last];
    }
    JoinOne(last);
    if last != [] {
      assert last[|last| - 1] in last;
      assert content[|content| - 1] == last[|last| - 1];
    }
  }

  /** For every text file within the read limit and every cut of its lines into pages: each page is its
      span, cut at `maxBytes`, reports the same number of lines, and is called truncated exactly when it
      was cut; and the spans joined by newlines are the file, up to one final newline. */
  lemma PagesRebuild(cfg: Config, st: Store, q: Path, cuts: seq<int>, maxBytes: int)
    requires q in st && st[q].File? && Stat(cfg, st, q).Ok?
    requires |st[q].content| <= cfg.limit && !Binary(st[q].content)
    requires Cuts(cuts, |TextLines(st[q].content)|)
    ensures var content, spans := st[q].content, Spans(TextLines(st[q].content), cuts);
      && |spans| == |cuts| - 1
      && (forall k :: 0 <= k < |spans| ==>
            var page := Read(cfg, st, PageArgs(q, cuts[k], cuts[k + 1] - 1, maxBytes));
            && page.Ok? && page.value.content == Capped(spans[k], maxBytes)
            && (page.value.truncated <==> maxBytes > 0 && |spans[k]| > maxBytes)
            && page.value.startLine == cuts[k] && page.value.endLine == cuts[k + 1] - 1
            && page.value.totalLines == |TextLines(content)|)
      && Join(spans, [NL]) + (if EndsInNewline(content) then [NL] else []) == content
  {
    hide TextLines, Spans, Join, Binary, SpanOf, Stat, Capped;
    var content := st[q].content;
    var lines := TextLines(content);
    SpansAt(lines, cuts);
    forall k | 0 <= k < |cuts| - 1
      ensures Read(cfg, st, PageArgs(q, cuts[k], cuts[k + 1] - 1, maxBytes))
              == PageOf(cfg, content, cuts[k], cuts[k + 1] - 1, maxBytes)
    {
      assert cuts[0] <= cuts[k] < cuts[k + 1] <= cuts[|cuts| - 1];
      PageIsSpan(cfg, st, q, cuts[k], cuts[k + 1] - 1, maxBytes);
    }
    SpansRejoin(lines, cuts);
    assert lines[..|lines|] == lines;
    NoTextLines();
    LinesRejoin(content);
  }

  function PageOf(cfg: Config, content: seq<Byte>, from: int, to: int, maxBytes: int): Result<ReadDone, ToolError> {
    var span := SpanOf(TextLines(content), from, to);
    Ok(ReadDone(Capped(span, maxBytes), maxBytes > 0 && |span| > maxBytes, false, false, from, to,
                |TextLines(content)|, FullHash(cfg, content)))
  }

  lemma PageIsSpan(cfg: Config, st: Store, q: Path, from: int, to: int, maxBytes: int)
    requires q in st && st[q].File? && Stat(cfg, st, q).Ok?
    requires |st[q].content| <= cfg.limit && !Binary(st[q].content)
    requires 1 <= from <= to <= |TextLines(st[q].content)|
    ensures Read(cfg, st, PageArgs(q, from, to, maxBytes)) == PageOf(cfg, st[q].content, from, to, maxBytes)
  {
    hide TextLines, Binary, SpanOf;
  }

  function PageContents(cfg: Config, st: Store, q: Path, cuts: seq<int>, maxBytes: int): seq<seq<Byte>> {
    seq(if |cuts| < 2 then 0 else |cuts| - 1, k requires 0 <= k < |cuts| - 1 =>
      var page := Read(cfg, st, PageArgs(q, cuts[k], cuts[k + 1] - 1, maxBytes));
      if page.Ok? then page.value.content else [])
  }

  /** The pages themselves rebuild the file if and only if none of them is cut. */
  lemma PagesRebuildExactly(cfg: Config, st: Store, q: Path, cuts: seq<int>, maxBytes: int)
    requires q in st && st[q].File? && Stat(cfg, st, q).Ok?
    requires |st[q].content| <= cfg.limit && !Binary(st[q].content)
    requires Cuts(cuts, |TextLines(st[q].content)|)
    ensures var content, spans := st[q].content, Spans(TextLines(st[q].content), cuts);
      Join(PageContents(cfg, st, q, cuts, maxBytes), [NL]) + (if EndsInNewline(content) then [NL] else []) == content
      <==> maxBytes <= 0 || forall k :: 0 <= k < |spans| ==> |spans[k]| <= maxBytes
  {
    hide TextLines, Spans, Join, Binary, SpanOf, Stat, Read, EndsInNewline;
    var spans := Spans(TextLines(st[q].content), cuts);
    var pages := PageContents(cfg, st, q, cuts, maxBytes);
    PagesRebuild(cfg, st, q, cuts, maxBytes);
    assert |pages| == |spans|;
    assert forall k :: 0 <= k < |pages| ==> pages[k] == Capped(spans[k], maxBytes);
    ShorterJoin(pages, spans);
    if forall k :: 0 <= k < |spans| ==> |pages[k]| == |spans[k]| {
      assert pages == spans;
    }
  }

  /** Cutting any part makes the join shorter. */
  lemma {:induction false} ShorterJoin(pages: seq<seq<Byte>>, spans: seq<seq<Byte>>)
    requires |pages| == |spans| >= 1 && forall k :: 0 <= k < |pages| ==> |pages[k]| <= |spans[k]|
    ensures |Join(pages, [NL])| <= |Join(spans, [NL])|
    ensures (exists k :: 0 <= k < |pages| && |pages[k]| < |spans[k]|) ==> |Join(pages, [NL])| < |Join(spans, [NL])|
  {
    if |pages| > 1 {
      ShorterJoin(pages[1..], spans[1..]);
      if k :| 0 < k < |pages| && |pages[k]| < |spans[k]| {
        assert |pages[1..][k - 1]| < |spans[1..][k - 1]|;
      }
    }
  }
}
