/** `scanOne` of `mcp/search.go`: one candidate file against all predicates. */
module ScanOne {
  import opened Bytes
  import opened Wrappers
  import opened Matcher
  import opened Scan
  import opened ScanProofs
  import opened Frontmatter
  import opened Visibility

  const METADATA_PROBE: nat := 0x1_0000

  /** One shown line, with its context. */
  datatype Line = Line(number: int, text: seq<Byte>, before: seq<seq<Byte>>, after: seq<seq<Byte>>)

  datatype FileResult = FileResult(
    path: Path, size: int, matches: seq<Line>, metadataMatches: seq<Line>, metadata: seq<Byte>)

  datatype Request = Request(includeMatches: bool, includeMetadata: bool, contextLines: int)

  /** A candidate: its path and size from the walk, and its bytes when it can be opened. */
  datatype Candidate = Candidate(path: Path, size: int, content: Option<seq<Byte>>)

  function LineNumbers(hits: seq<Hit>): set<int> {
    set k | 0 <= k < |hits| :: hits[k].line
  }

  ghost predicate AllUsable(ms: seq<Matcher>) {
    forall k :: 0 <= k < |ms| ==> Usable(ms[k])
  }

  /** The numbers of the lines that some predicate hits. */
  ghost function HitNumbers(data: seq<Byte>, ms: seq<Matcher>): set<int>
    requires AllUsable(ms)
  {
    if ms == [] then {}
    else HitNumbers(data, ms[..|ms| - 1]) + LineNumbers(WholeBody(data, ms[|ms| - 1]))
  }

  ghost predicate Ascends(xs: seq<int>) {
    forall i, j :: 0 <= i < j < |xs| ==> xs[i] < xs[j]
  }

  /** The elements of `s` between 1 and `n`, in ascending order. */
  function Picked(s: set<int>, n: nat): seq<int> {
    if n == 0 then [] else Picked(s, n - 1) + (if n in s then [n] else [])
  }

  lemma {:induction false} PickedAscends(s: set<int>, n: nat)
    ensures Ascends(Picked(s, n)) && (forall x :: x in Picked(s, n) <==> x in s && 1 <= x <= n)
    ensures forall k :: 0 <= k < |Picked(s, n)| ==> 1 <= Picked(s, n)[k] <= n
  {
    if n > 0 {
      PickedAscends(s, n - 1);
      var xs := Picked(s, n - 1);
      assert forall i :: 0 <= i < |xs| ==> xs[i] in xs;
    }
  }

  /** There is only one ascending order. */
  lemma {:induction false} AscendingUnique(a: seq<int>, b: seq<int>)
    requires Ascends(a) && Ascends(b) && (forall x :: x in a <==> x in b)
    ensures a == b
  {
    if b != [] {
      assert b[0] in b;
    }
    if a != [] {
      assert a[0] in a;
      assert a[0] in b && b[0] in a;
      var i :| 0 <= i < |b| && b[i] == a[0];
      var k :| 0 <= k < |a| && a[k] == b[0];
      assert i == 0;
      forall x ensures x in a[1..] <==> x in b[1..] {
        assert x in a[1..] <==> x in a && x != a[0];
        assert x in b[1..] <==> x in b && x != b[0];
      }
      AscendingUnique(a[1..], b[1..]);
    }
  }

  /** Strictly between the fence lines. */
  predicate Inside(fence: Fence, number: int) {
    fence.Fence? && 1 < number < fence.closeLine
  }

  /** The `n` lines before line `number`, clipped to the file. */
  function Before(lines: seq<seq<Byte>>, number: nat, n: nat): seq<seq<Byte>>
    requires 1 <= number <= |lines|
  {
    Trimmed(lines[if number - 1 <= n then 0 else number - 1 - n..number - 1])
  }

  /** The `n` lines after line `number`, clipped to the file. */
  function After(lines: seq<seq<Byte>>, number: nat, n: nat): seq<seq<Byte>>
    requires 1 <= number <= |lines|
  {
    Trimmed(lines[number..if number + n <= |lines| then number + n else |lines|])
  }

  /** How line `number` is shown: frontmatter lines never carry context. */
  function Shown(lines: seq<seq<Byte>>, fence: Fence, contextLines: int, number: int): Line
    requires 1 <= number <= |lines|
  {
    var context := contextLines > 0 && !Inside(fence, number);
    Line(number, TrimCR(lines[number - 1]),
         if context then Before(lines, number, contextLines) else [],
         if context then After(lines, number, contextLines) else [])
  }

  /** The numbered lines that are inside the fence, or those that are not. */
  function Select(lines: seq<seq<Byte>>, fence: Fence, contextLines: int, numbers: seq<int>, inside: bool): seq<Line>
    requires forall k :: 0 <= k < |numbers| ==> 1 <= numbers[k] <= |lines|
  {
    if numbers == [] then []
    else
      var last := numbers[|numbers| - 1];
      Select(lines, fence, contextLines, numbers[..|numbers| - 1], inside)
      + (if Inside(fence, last) == inside then [Shown(lines, fence, contextLines, last)] else [])
  }

  predicate InFile(lines: seq<seq<Byte>>, numbers: set<int>) {
    forall n :: n in numbers ==> 1 <= n <= |lines|
  }

  function Metadata(req: Request, fence: Fence): seq<Byte> {
    if req.includeMetadata && fence.Fence? then fence.meta else []
  }

  /** Every predicate hits a line of a readable text. */
  ghost predicate Qualifies(c: Candidate, ms: seq<Matcher>, cap: nat)
    requires AllUsable(ms)
  {
    && c.content.Some? && !Binary(Head(c.content.value, cap))
    && forall k :: 0 <= k < |ms| ==> WholeBody(Head(c.content.value, cap), ms[k]) != []
  }

  // ----- every hit is a line of the split

  lemma {:induction false} LineAt(data: seq<Byte>, a: nat, p: nat)
    requires a <= p <= |data| && (a == 0 || data[a - 1] == NL)
    ensures Newlines(data, a) <= Newlines(data, p) < Newlines(data, a) + |Lines(data[a..])|
    ensures Lines(data[a..])[Newlines(data, p) - Newlines(data, a)] == Slice(data, LineStart(data, p), LineEnd(data, p))
    decreases |data| - a
  {
    hide Slice, Lines;
    var e := LineEnd(data, a);
    LinesStep(data, a);
    if e < p {
      NewlinesInLine(data, a, e);
      LineAt(data, e + 1, p);
    } else {
      LineStartUnique(data, a, p);
      LineEndShared(data, a, p);
      NewlinesInLine(data, a, p);
    }
  }

  lemma ReportIsLine(data: seq<Byte>, p: nat)
    requires p <= |data|
    ensures 1 <= ReportOf(data, p).line <= |Lines(data)|
    ensures ReportOf(data, p).text == TrimCR(Lines(data)[ReportOf(data, p).line - 1])
  {
    hide Slice, Lines, TrimCR;
    LineAt(data, 0, p);
    assert data[0..] == data;
  }

  /** A hit carries the text of its own line, so any predicate that hits a line shows the same. */
  lemma HitIsLine(data: seq<Byte>, m: Matcher, hit: Hit)
    requires Usable(m) && hit in WholeBody(data, m)
    ensures 1 <= hit.line <= |Lines(data)| && hit.text == TrimCR(Lines(data)[hit.line - 1])
  {
    hide Lines, TrimCR, Binary, ReportOf, LinesHolding, HitStarts, Increasing;
    var starts := HitStarts(data, m);
    HoldingReports(data, starts, m, 0);
    assert Reports(hit, data, starts, m, 0);
    var p: nat :| p in starts && hit == ReportOf(data, p);
    ReportIsLine(data, p);
  }

  lemma {:induction false} HitNumbersInFile(data: seq<Byte>, ms: seq<Matcher>)
    requires AllUsable(ms)
    ensures InFile(Lines(data), HitNumbers(data, ms))
  {
    hide Lines, WholeBody;
    if ms != [] {
      var m := ms[|ms| - 1];
      HitNumbersInFile(data, ms[..|ms| - 1]);
      forall k | 0 <= k < |WholeBody(data, m)| ensures 1 <= WholeBody(data, m)[k].line <= |Lines(data)| {
        HitIsLine(data, m, WholeBody(data, m)[k]);
      }
    }
  }

  /** What `scanOne` answers, and whether the file qualifies. */
  ghost function ScanSpec(c: Candidate, ms: seq<Matcher>, req: Request, cap: nat): (FileResult, bool)
    requires AllUsable(ms)
  {
    var none := FileResult(c.path, c.size, [], [], []);
    if ms == [] then
      if !req.includeMetadata || c.content.None? then (none, true)
      else
        var fence := FenceOf(Head(c.content.value, if cap < METADATA_PROBE then cap else METADATA_PROBE));
        (none.(metadata := Metadata(req, fence)), true)
    else if !Qualifies(c, ms, cap) then (none, false)
    else
      var data := Head(c.content.value, cap);
      var fence, lines := FenceOf(data), Lines(data);
      var numbers := Picked(HitNumbers(data, ms), |lines|);
      PickedAscends(HitNumbers(data, ms), |lines|);
      var shown := if req.includeMatches then numbers else [];
      (FileResult(c.path, c.size,
                  Select(lines, fence, req.contextLines, shown, false),
                  Select(lines, fence, req.contextLines, shown, true),
                  Metadata(req, fence)), true)
  }

  // ----- the imperative form

  /** The hits of one predicate, entered into the map from line numbers to texts. */
  method AddHits(data: seq<Byte>, m: Matcher, hits: seq<Hit>, byLine: map<int, seq<Byte>>)
    returns (all: map<int, seq<Byte>>)
    requires Usable(m) && hits == WholeBody(data, m)
    requires forall n :: n in byLine ==> 1 <= n <= |Lines(data)| && byLine[n] == TrimCR(Lines(data)[n - 1])
    ensures all.Keys == byLine.Keys + LineNumbers(hits)
    ensures forall n :: n in all ==> 1 <= n <= |Lines(data)| && all[n] == TrimCR(Lines(data)[n - 1])
  {
    hide WholeBody, Lines, TrimCR;
    all := byLine;
    for k := 0 to |hits|
      invariant all.Keys == byLine.Keys + LineNumbers(hits[..k])
      invariant forall n :: n in all ==> 1 <= n <= |Lines(data)| && all[n] == TrimCR(Lines(data)[n - 1])
    {
      HitIsLine(data, m, hits[k]);
      NumbersGrow(hits, k);
      all := all[hits[k].line := hits[k].text];
    }
    assert hits[..|hits|] == hits;
  }

  lemma NumbersGrow(hits: seq<Hit>, k: nat)
    requires k < |hits|
    ensures LineNumbers(hits[..k + 1]) == LineNumbers(hits[..k]) + {hits[k].line}
  {
    forall n | n in LineNumbers(hits[..k]) ensures n in LineNumbers(hits[..k + 1]) {
      var i :| 0 <= i < k && hits[..k][i].line == n;
      assert hits[..k + 1][i].line == n;
    }
    assert hits[..k + 1][k].line == hits[k].line;
    forall n | n in LineNumbers(hits[..k + 1]) && n != hits[k].line ensures n in LineNumbers(hits[..k]) {
      var i :| 0 <= i < k + 1 && hits[..k + 1][i].line == n;
      assert hits[..k][i].line == n;
    }
  }

  /** The keys of the map, sorted. By `AscendingUnique` it does not matter in which order they are
      taken out of the map before sorting, so they are looked up in ascending order here. */
  method SortedKeys(byLine: map<int, seq<Byte>>, last: nat) returns (numbers: seq<int>)
    ensures numbers == Picked(byLine.Keys, last)
  {
    numbers := [];
    for n := 1 to last + 1
      invariant numbers == Picked(byLine.Keys, n - 1)
    {
      if n in byLine {
        numbers := numbers + [n];
      }
    }
  }

  lemma {:induction false} TrimmedAppend(lines: seq<seq<Byte>>, line: seq<Byte>)
    ensures Trimmed(lines + [line]) == Trimmed(lines) + [TrimRight(line, {CR})]
  {
    assert (lines + [line])[..|lines|] == lines;
  }

  /** The context loops: lines `from` to `to` counted from one, as far as the file has them. */
  method Context(allLines: seq<seq<Byte>>, from: int, to: int) returns (lines: seq<seq<Byte>>)
    requires 1 <= from <= |allLines| + 1
    ensures var end := if to <= |allLines| then to else |allLines|;
      lines == if from <= end then Trimmed(allLines[from - 1..end]) else []
  {
    hide TrimRight, Trimmed;
    lines := [];
    if to < from {
      return;
    }
    NothingTrimmed();
    assert allLines[from - 1..from - 1] == [];
    for cl := from to to + 1
      invariant lines == Trimmed(allLines[from - 1..if cl - 1 <= |allLines| then cl - 1 else |allLines|])
    {
      if cl - 1 < |allLines| {
        assert allLines[from - 1..cl] == allLines[from - 1..cl - 1] + [allLines[cl - 1]];
        TrimmedAppend(allLines[from - 1..cl - 1], allLines[cl - 1]);
        lines := lines + [TrimRight(allLines[cl - 1], {CR})];
      }
    }
  }

  /** One shown line: its text, and for a body line the context around it. */
  method ShowLine(allLines: seq<seq<Byte>>, fence: Fence, contextLines: int, l: int, text: seq<Byte>)
    returns (ln: Line)
    requires 1 <= l <= |allLines| && text == TrimCR(allLines[l - 1])
    ensures ln == Shown(allLines, fence, contextLines, l)
  {
    hide TrimRight, TrimCR, Trimmed;
    var isMeta := Inside(fence, l);
    var before, after := [], [];
    if contextLines > 0 && !isMeta {
      var startCtx := l - contextLines;
      if startCtx < 1 {
        startCtx := 1;
      }
      NothingTrimmed();
      before := Context(allLines, startCtx, l - 1);
      after := Context(allLines, l + 1, l + contextLines);
      assert allLines[l..l] == [] && allLines[0..0] == [];
    }
    return Line(l, text, before, after);
  }

  lemma NothingTrimmed()
    ensures Trimmed([]) == []
  {
  }

  lemma SelectStep(lines: seq<seq<Byte>>, fence: Fence, contextLines: int, numbers: seq<int>, k: nat, inside: bool)
    requires forall i :: 0 <= i < |numbers| ==> 1 <= numbers[i] <= |lines|
    requires k < |numbers|
    ensures Select(lines, fence, contextLines, numbers[..k + 1], inside)
            == Select(lines, fence, contextLines, numbers[..k], inside)
               + (if Inside(fence, numbers[k]) == inside then [Shown(lines, fence, contextLines, numbers[k])] else [])
  {
    hide Shown;
    assert numbers[..k + 1][..k] == numbers[..k];
  }

  /** The predicates in turn, until one hits nothing: the hit lines by number, or failure. */
  method HitAll(data: seq<Byte>, ms: seq<Matcher>) returns (byLine: map<int, seq<Byte>>, ok: bool)
    requires AllUsable(ms)
    ensures ok <==> forall k :: 0 <= k < |ms| ==> WholeBody(data, ms[k]) != []
    ensures ok ==> byLine.Keys == HitNumbers(data, ms)
    ensures ok ==> forall n :: n in byLine ==> 1 <= n <= |Lines(data)| && byLine[n] == TrimCR(Lines(data)[n - 1])
  {
    hide WholeBody, Lines, TrimCR;
    byLine := map[];
    for k := 0 to |ms|
      invariant forall i :: 0 <= i < k ==> WholeBody(data, ms[i]) != []
      invariant byLine.Keys == HitNumbers(data, ms[..k])
      invariant forall n :: n in byLine ==> 1 <= n <= |Lines(data)| && byLine[n] == TrimCR(Lines(data)[n - 1])
    {
      var hits := ScanWholeBody(data, ms[k]);
      if |hits| == 0 {
        assert WholeBody(data, ms[k]) == [];
        return byLine, false;
      }
      assert ms[..k + 1][..k] == ms[..k];
      byLine := AddHits(data, ms[k], hits, byLine);
    }
    assert ms[..|ms|] == ms;
    return byLine, true;
  }

  /** The hit lines in order, split by the fence. */
  method SplitMatches(allLines: seq<seq<Byte>>, fence: Fence, contextLines: int, byLine: map<int, seq<Byte>>)
    returns (matches: seq<Line>, metadataMatches: seq<Line>)
    requires forall n :: n in byLine ==> 1 <= n <= |allLines| && byLine[n] == TrimCR(allLines[n - 1])
    ensures var numbers := Picked(byLine.Keys, |allLines|);
      && (forall k :: 0 <= k < |numbers| ==> 1 <= numbers[k] <= |allLines|)
      && matches == Select(allLines, fence, contextLines, numbers, false)
      && metadataMatches == Select(allLines, fence, contextLines, numbers, true)
  {
    hide TrimCR, Shown, Select, Picked;
    var lines := SortedKeys(byLine, |allLines|);
    PickedAscends(byLine.Keys, |allLines|);
    matches, metadataMatches := [], [];
    NoneSelected(allLines, fence, contextLines);
    assert lines[..0] == [];
    for k := 0 to |lines|
      invariant matches == Select(allLines, fence, contextLines, lines[..k], false)
      invariant metadataMatches == Select(allLines, fence, contextLines, lines[..k], true)
    {
      SelectStep(allLines, fence, contextLines, lines, k, false);
      SelectStep(allLines, fence, contextLines, lines, k, true);
      var l: int := lines[k];
      assert l in lines;
      var ln := ShowLine(allLines, fence, contextLines, l, byLine[l]);
      if Inside(fence, l) {
        metadataMatches := metadataMatches + [ln];
      } else {
        matches := matches + [ln];
      }
    }
    assert lines[..|lines|] == lines;
  }

  /** `scanOne`. */
  method ScanOne(c: Candidate, ms: seq<Matcher>, req: Request, cap: nat) returns (fr: FileResult, ok: bool)
    requires AllUsable(ms)
    ensures (fr, ok) == ScanSpec(c, ms, req, cap)
  {
    hide WholeBody, Lines, TrimCR, Binary, FenceOf, Shown, Select, Picked, HitNumbers;
    fr := FileResult(c.path, c.size, [], [], []);
    if |ms| == 0 {
      if !req.includeMetadata {
        return fr, true;
      }
      if c.content.None? {
        return fr, true;
      }
      var probe := METADATA_PROBE;
      if cap < probe {
        probe := cap;
      }
      var meta := ReadFrontmatter(c.content.value, probe);
      HeadIsPrefix(c.content.value, probe);
      if meta.Some? {
        fr := fr.(metadata := meta.value);
      }
      return fr, true;
    }
    if c.content.None? {
      return fr, false;
    }
    var data := Head(c.content.value, cap);
    if Binary(data) {
      return fr, false;
    }
    var fence := DetectFence(data);
    var byLine, all := HitAll(data, ms);
    if !all {
      return fr, false;
    }
    PickedAscends(byLine.Keys, |Lines(data)|);
    if req.includeMatches && |byLine| > 0 {
      var matches, metadataMatches := SplitMatches(Lines(data), fence, req.contextLines, byLine);
      fr := fr.(matches := matches, metadataMatches := metadataMatches);
    } else {
      NoneSelected(Lines(data), fence, req.contextLines);
      NonePicked(Picked(byLine.Keys, |Lines(data)|), byLine.Keys);
    }
    if req.includeMetadata && fence.Fence? {
      fr := fr.(metadata := fence.meta);
    }
    return fr, true;
  }

  lemma HeadIsPrefix(data: seq<Byte>, n: nat)
    ensures Head(data, n) == data[..if n < |data| then n else |data|]
  {
  }

  lemma NoneSelected(lines: seq<seq<Byte>>, fence: Fence, contextLines: int)
    ensures Select(lines, fence, contextLines, [], false) == [] == Select(lines, fence, contextLines, [], true)
  {
  }

  lemma NonePicked(shown: seq<int>, keys: set<int>)
    requires forall n :: n in shown ==> n in keys
    ensures keys == {} ==> shown == []
  {
    if shown != [] {
      var n: int := shown[0];
      assert n in shown;
    }
  }

  // ----- what the answer means

  /** The numbers on one side of the fence. */
  function Side(fence: Fence, numbers: seq<int>, inside: bool): seq<int> {
    if numbers == [] then []
    else
      var last := numbers[|numbers| - 1];
      Side(fence, numbers[..|numbers| - 1], inside) + (if Inside(fence, last) == inside then [last] else [])
  }

  lemma {:induction false} SideMembers(fence: Fence, numbers: seq<int>, inside: bool)
    ensures forall n: int :: n in Side(fence, numbers, inside) <==> n in numbers && Inside(fence, n) == inside
  {
    hide Inside;
    if numbers != [] {
      var k := |numbers| - 1;
      SideMembers(fence, numbers[..k], inside);
      assert numbers == numbers[..k] + [numbers[k]];
    }
  }

  lemma {:induction false} SideExact(fence: Fence, numbers: seq<int>, inside: bool)
    requires Ascends(numbers)
    ensures Ascends(Side(fence, numbers, inside))
    ensures forall n: int :: n in Side(fence, numbers, inside) <==> n in numbers && Inside(fence, n) == inside
  {
    hide Inside;
    SideMembers(fence, numbers, inside);
    if numbers != [] {
      var k := |numbers| - 1;
      var front, last := numbers[..k], numbers[k];
      SideExact(fence, front, inside);
      forall n: int | n in front ensures n < last {
        var j :| 0 <= j < k && front[j] == n;
        assert numbers[j] < numbers[k];
      }
      AscendsAppend(Side(fence, front, inside), last);
    }
  }

  lemma AscendsAppend(xs: seq<int>, last: int)
    requires Ascends(xs)
    ensures (forall x: int :: x in xs ==> x < last) ==> Ascends(xs + [last])
  {
    if forall x: int :: x in xs ==> x < last {
      forall i | 0 <= i < |xs| ensures xs[i] < last {
        var x: int := xs[i];
        assert x in xs;
      }
    }
  }

  /** Every selected line is shown by its number alone. */
  lemma {:induction false} SelectIsShown(
    lines: seq<seq<Byte>>, fence: Fence, contextLines: int, numbers: seq<int>, inside: bool)
    requires forall k :: 0 <= k < |numbers| ==> 1 <= numbers[k] <= |lines|
    ensures var side, shown := Side(fence, numbers, inside), Select(lines, fence, contextLines, numbers, inside);
      && |shown| == |side|
      && forall i :: 0 <= i < |side| ==>
           1 <= side[i] <= |lines| && shown[i] == Shown(lines, fence, contextLines, side[i])
  {
    hide Inside, Shown;
    if numbers != [] {
      SelectIsShown(lines, fence, contextLines, numbers[..|numbers| - 1], inside);
    }
  }

  ghost function NumbersOf(shown: seq<Line>): set<int> {
    set k | 0 <= k < |shown| :: shown[k].number
  }

  ghost predicate InOrder(shown: seq<Line>) {
    forall i, j :: 0 <= i < j < |shown| ==> shown[i].number < shown[j].number
  }

  /** Selecting keeps exactly the lines on the wanted side of the fence, in order. */
  lemma SelectExact(lines: seq<seq<Byte>>, fence: Fence, contextLines: int, numbers: seq<int>, inside: bool)
    requires Ascends(numbers) && forall k :: 0 <= k < |numbers| ==> 1 <= numbers[k] <= |lines|
    ensures var shown := Select(lines, fence, contextLines, numbers, inside);
      && InOrder(shown)
      && forall n: int :: n in NumbersOf(shown) <==> n in numbers && Inside(fence, n) == inside
  {
    hide Before, After, Select, Side, Inside;
    var side, shown := Side(fence, numbers, inside), Select(lines, fence, contextLines, numbers, inside);
    SelectIsShown(lines, fence, contextLines, numbers, inside);
    SideExact(fence, numbers, inside);
    forall n: int | n in side ensures n in NumbersOf(shown) {
      var i :| 0 <= i < |side| && side[i] == n;
      assert shown[i].number == n;
    }
  }

  /** A candidate is reported if and only if nothing is looked for, or it can be opened, none of its first
      8000 bytes is zero, as far as it is read, and every predicate hits some line. */
  lemma ReportedExactly(c: Candidate, ms: seq<Matcher>, req: Request, cap: nat)
    requires AllUsable(ms)
    ensures ScanSpec(c, ms, req, cap).1 <==>
      || ms == []
      || (&& c.content.Some?
          && var content := c.content.value;
             && (forall i :: 0 <= i < |content| && i < cap && i < 8000 ==> content[i] != 0)
             && forall k :: 0 <= k < |ms| ==> WholeBody(Head(content, cap), ms[k]) != [])
  {
    hide WholeBody, Binary, HitNumbers, Lines, Select, FenceOf;
    if ms != [] && c.content.Some? {
      var content, data := c.content.value, Head(c.content.value, cap);
      BinaryExactly(data);
      assert forall i :: 0 <= i < |data| ==> data[i] == content[i];
      assert Binary(data) <==> exists i :: 0 <= i < |content| && i < cap && i < 8000 && content[i] == 0;
    }
  }

  /** Some predicate hits line `n`. */
  ghost predicate HitBySome(data: seq<Byte>, ms: seq<Matcher>, n: int)
    requires AllUsable(ms)
  {
    exists m, hit :: m in ms && Usable(m) && hit in WholeBody(data, m) && hit.line == n
  }

  lemma {:induction false} HitNumbersExactly(data: seq<Byte>, ms: seq<Matcher>, n: int)
    requires AllUsable(ms)
    ensures n in HitNumbers(data, ms) <==> HitBySome(data, ms, n)
  {
    hide WholeBody, Usable;
    if ms != [] {
      var front, last := ms[..|ms| - 1], ms[|ms| - 1];
      HitNumbersExactly(data, front, n);
      assert ms == front + [last] && last in ms;
      var hits := WholeBody(data, last);
      assert n in LineNumbers(hits) <==> exists hit :: hit in hits && hit.line == n by {
        if k :| 0 <= k < |hits| && hits[k].line == n {
          assert hits[k] in hits;
        }
      }
    }
  }

  /** With matches requested, the body and frontmatter matches split the lines that some predicate hits
      along the fence, both in strictly increasing order. */
  lemma MatchesPartition(c: Candidate, ms: seq<Matcher>, req: Request, cap: nat)
    requires AllUsable(ms) && ms != [] && ScanSpec(c, ms, req, cap).1 && req.includeMatches
    ensures c.content.Some?
    ensures var fr, data := ScanSpec(c, ms, req, cap).0, Head(c.content.value, cap);
      var fence := FenceOf(data);
      && NumbersOf(fr.matches) + NumbersOf(fr.metadataMatches) == HitNumbers(data, ms)
      && (forall n: int :: n in HitNumbers(data, ms) <==> HitBySome(data, ms, n))
      && (forall n: int :: n in NumbersOf(fr.metadataMatches) <==>
            n in HitNumbers(data, ms) && fence.Fence? && 1 < n < fence.closeLine)
      && NumbersOf(fr.matches) * NumbersOf(fr.metadataMatches) == {}
      && InOrder(fr.matches) && InOrder(fr.metadataMatches)
  {
    forall n ensures n in HitNumbers(Head(c.content.value, cap), ms) <==> HitBySome(Head(c.content.value, cap), ms, n) {
      HitNumbersExactly(Head(c.content.value, cap), ms, n);
    }
    SplitByFence(c, ms, req, cap);
  }

  lemma SplitByFence(c: Candidate, ms: seq<Matcher>, req: Request, cap: nat)
    requires AllUsable(ms) && ms != [] && Qualifies(c, ms, cap) && req.includeMatches
    ensures var fr, data := ScanSpec(c, ms, req, cap).0, Head(c.content.value, cap);
      && NumbersOf(fr.matches) + NumbersOf(fr.metadataMatches) == HitNumbers(data, ms)
      && (forall n: int :: n in NumbersOf(fr.metadataMatches) <==> n in HitNumbers(data, ms) && Inside(FenceOf(data), n))
      && NumbersOf(fr.matches) * NumbersOf(fr.metadataMatches) == {}
      && InOrder(fr.matches) && InOrder(fr.metadataMatches)
  {
    hide WholeBody, Lines, FenceOf, Select, Shown, HitNumbers, Picked;
    var data := Head(c.content.value, cap);
    var hits, lines, fence := HitNumbers(data, ms), Lines(data), FenceOf(data);
    var numbers := Picked(hits, |lines|);
    PickedAscends(hits, |lines|);
    HitNumbersInFile(data, ms);
    SidesSplit(lines, fence, req.contextLines, numbers, hits);
  }

  lemma SidesSplit(lines: seq<seq<Byte>>, fence: Fence, contextLines: int, numbers: seq<int>, hits: set<int>)
    requires Ascends(numbers) && forall k :: 0 <= k < |numbers| ==> 1 <= numbers[k] <= |lines|
    requires forall n: int :: n in hits <==> n in numbers
    ensures var body, meta := Select(lines, fence, contextLines, numbers, false), Select(lines, fence, contextLines, numbers, true);
      && NumbersOf(body) + NumbersOf(meta) == hits
      && (forall n: int :: n in NumbersOf(meta) <==> n in hits && Inside(fence, n))
      && NumbersOf(body) * NumbersOf(meta) == {}
      && InOrder(body) && InOrder(meta)
  {
    hide NumbersOf, Select, InOrder, Inside;
    var body, meta := Select(lines, fence, contextLines, numbers, false), Select(lines, fence, contextLines, numbers, true);
    SelectExact(lines, fence, contextLines, numbers, false);
    SelectExact(lines, fence, contextLines, numbers, true);
    Partition(fence, NumbersOf(body), NumbersOf(meta), hits);
  }

  lemma Partition(fence: Fence, body: set<int>, meta: set<int>, hits: set<int>)
    requires forall n: int :: n in body <==> n in hits && !Inside(fence, n)
    requires forall n: int :: n in meta <==> n in hits && Inside(fence, n)
    ensures body + meta == hits && body * meta == {}
  {
    hide Inside;
    assert forall n: int :: n in body + meta <==> n in hits;
    assert forall n: int :: n !in body * meta;
  }

  lemma {:induction false} TrimmedAt(lines: seq<seq<Byte>>, k: nat)
    requires k < |lines|
    ensures |Trimmed(lines)| == |lines| && Trimmed(lines)[k] == TrimRight(lines[k], {CR})
  {
    hide TrimRight;
    TrimmedLength(lines);
    var n := |lines| - 1;
    if k < n {
      TrimmedLength(lines[..n]);
      TrimmedAt(lines[..n], k);
    }
  }

  /** Context is the neighbouring lines, clipped to the file and freed of carriage returns. */
  lemma ContextIsNeighbours(lines: seq<seq<Byte>>, number: nat, n: nat, k: nat)
    requires 1 <= number <= |lines|
    ensures var before, after := Before(lines, number, n), After(lines, number, n);
      && |before| == (if number - 1 <= n then number - 1 else n)
      && |after| == (if n <= |lines| - number then n else |lines| - number)
      && (k < |before| ==> before[k] == TrimRight(lines[number - 1 - |before| + k], {CR}))
      && (k < |after| ==> after[k] == TrimRight(lines[number + k], {CR}))
  {
    hide TrimRight, Trimmed;
    if number - 1 <= n {
      TrimmedSlice(lines, 0, number - 1, k);
    } else {
      TrimmedSlice(lines, number - 1 - n, number - 1, k);
    }
    if number + n <= |lines| {
      TrimmedSlice(lines, number, number + n, k);
    } else {
      TrimmedSlice(lines, number, |lines|, k);
    }
  }

  lemma TrimmedSlice(lines: seq<seq<Byte>>, from: nat, to: nat, k: nat)
    requires from <= to <= |lines|
    ensures |Trimmed(lines[from..to])| == to - from
    ensures k < to - from ==> Trimmed(lines[from..to])[k] == TrimRight(lines[from + k], {CR})
  {
    hide TrimRight, Trimmed;
    TrimmedLength(lines[from..to]);
    if k < to - from {
      TrimmedAt(lines[from..to], k);
    }
  }

  /** A shown line is the line of that number without one final carriage return, and its context the
      lines right before and right after it; a frontmatter line has none. */
  lemma ShownExactly(lines: seq<seq<Byte>>, fence: Fence, contextLines: int, number: nat, k: nat)
    requires 1 <= number <= |lines|
    ensures var ln, line := Shown(lines, fence, contextLines, number), lines[number - 1];
      && ln.number == number && (ln.text == line || ln.text + [13] == line) && (line != [] && line[|line| - 1] == 13 ==> ln.text != line)
      && (contextLines <= 0 || (fence.Fence? && 1 < number < fence.closeLine) ==> ln.before == ln.after == [])
      && (contextLines > 0 && !(fence.Fence? && 1 < number < fence.closeLine) ==>
            && |ln.before| == (if number - 1 <= contextLines then number - 1 else contextLines)
            && |ln.after| == (if contextLines <= |lines| - number then contextLines else |lines| - number)
            && (k < |ln.before| ==> ln.before[k] == TrimRight(lines[number - 1 - |ln.before| + k], {CR}))
            && (k < |ln.after| ==> ln.after[k] == TrimRight(lines[number + k], {CR})))
  {
    hide Before, After, TrimRight;
    if contextLines > 0 {
      ContextIsNeighbours(lines, number, contextLines, k);
    }
  }

  /** Which bytes of a file its frontmatter is looked for in. */
  function Probed(content: seq<Byte>, ms: seq<Matcher>, cap: nat): seq<Byte> {
    Head(content, if ms == [] && METADATA_PROBE < cap then METADATA_PROBE else cap)
  }

  /** What a reported file carries besides its matches: path and size; frontmatter exactly when it is asked
      for and there is some, and then the lines between the fence lines; matches only when asked for. */
  lemma AnswerExactly(c: Candidate, ms: seq<Matcher>, req: Request, cap: nat)
    requires AllUsable(ms) && ScanSpec(c, ms, req, cap).1
    ensures var fr := ScanSpec(c, ms, req, cap).0;
      && fr.path == c.path && fr.size == c.size
      && (ms == [] || !req.includeMatches ==> fr.matches == fr.metadataMatches == [])
      && (!req.includeMetadata || c.content.None? ==> fr.metadata == [])
      && (req.includeMetadata && c.content.Some? ==>
            var lines := Lines(Probed(c.content.value, ms, cap));
            && (forall close :: 1 <= close < |lines| && IsFence(lines[0]) && IsFence(lines[close])
                                && (forall k :: 1 <= k < close ==> !IsFence(lines[k])) ==>
                  fr.metadata == Join(Trimmed(lines[1..close]), [NL]))
            && (!IsFence(lines[0]) || (forall k :: 1 <= k < |lines| ==> !IsFence(lines[k])) ==> fr.metadata == []))
  {
    hide WholeBody, Lines, IsFence, Trimmed, Join, FenceOfLines, Picked, HitNumbers, Shown, Binary;
    if c.content.Some? {
      var lines := Lines(Probed(c.content.value, ms, cap));
      forall close | 1 <= close < |lines| && IsFence(lines[0]) && IsFence(lines[close])
                     && (forall k :: 1 <= k < close ==> !IsFence(lines[k]))
        ensures FenceOfLines(lines) == Fence(close + 1, Join(Trimmed(lines[1..close]), [NL]))
      {
        FenceExact(lines, close);
      }
      LinesNonempty(Probed(c.content.value, ms, cap));
      if !IsFence(lines[0]) || forall k :: 1 <= k < |lines| ==> !IsFence(lines[k]) {
        NoFenceExact(lines);
      }
    }
  }

  ghost predicate HitsSomeLine(lines: seq<seq<Byte>>, m: Matcher) {
    exists n :: 0 <= n < |lines| && Match(m, TrimCR(lines[n]))
  }

  /** With line-safe predicates, a readable text qualifies exactly when every predicate matches one
      of its lines. */
  lemma QualifiesByLines(c: Candidate, ms: seq<Matcher>, cap: nat)
    requires AllUsable(ms) && c.content.Some? && !Binary(Head(c.content.value, cap))
    requires forall k :: 0 <= k < |ms| ==> LineSafe(ms[k])
    ensures var lines := Lines(Head(c.content.value, cap));
      Qualifies(c, ms, cap) <==> forall k :: 0 <= k < |ms| ==> HitsSomeLine(lines, ms[k])
  {
    hide Lines, WholeBody, LineSafe, Binary, HitsSomeLine;
    var data := Head(c.content.value, cap);
    var lines := Lines(data);
    forall k | 0 <= k < |ms|
      ensures WholeBody(data, ms[k]) != [] <==> HitsSomeLine(lines, ms[k])
    {
      WholeBodyIsMatching(data, ms[k]);
      SomeLineMatches(lines, ms[k]);
    }
  }

  lemma SomeLineMatches(lines: seq<seq<Byte>>, m: Matcher)
    ensures MatchingLines(lines, m, 1) != [] <==> HitsSomeLine(lines, m)
  {
    hide Match, TrimCR, MatchingLines;
    var hits := MatchingLines(lines, m, 1);
    MatchingReports(lines, m, 1);
    if hits != [] {
      var hit := hits[0];
      assert hit in hits;
      assert Match(m, TrimCR(lines[hit.line - 1]));
    }
    if n :| 0 <= n < |lines| && Match(m, TrimCR(lines[n])) {
      var hit := Hit(1 + n, TrimCR(lines[n]));
      assert hit in hits;
    }
  }
}
