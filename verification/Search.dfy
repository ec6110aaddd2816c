/** `Search` of `mcp/search.go`: concurrent walk, in-place glob filter, sort, worker pool and capped
    merge, put together. */
module Search {
  import opened Bytes
  import opened Collections
  import opened Matcher
  import opened Scan
  import opened Visibility
  import opened Ordering
  import opened ScanOne
  import Walk
  import Pool

  const DEFAULT_MAX_MATCHES := 1000
  const DEFAULT_READ_CAP := 0x10_0000

  function MatchCap(maxMatches: int): (n: nat)
    ensures n == if maxMatches > 0 then maxMatches else 1000
  {
    if maxMatches <= 0 then DEFAULT_MAX_MATCHES else maxMatches
  }

  function ReadCap(readCap: int): (n: nat)
    ensures n == if readCap > 0 then readCap else 1_048_576
  {
    if readCap <= 0 then DEFAULT_READ_CAP else readCap
  }

  // ----- the filter

  function Filtered(paths: seq<Path>, keep: Path -> bool): seq<Path> {
    if paths == [] then []
    else
      var last := paths[|paths| - 1];
      Filtered(paths[..|paths| - 1], keep) + (if keep(last) then [last] else [])
  }

  lemma {:induction false} FilteredExact(paths: seq<Path>, keep: Path -> bool)
    ensures forall p :: p in Filtered(paths, keep) <==> p in paths && keep(p)
    ensures Distinct(paths) ==> Distinct(Filtered(paths, keep))
  {
    if paths != [] {
      FilteredExact(paths[..|paths| - 1], keep);
      assert paths == paths[..|paths| - 1] + [paths[|paths| - 1]];
    }
  }

  /** The glob filter: `kept` reuses the storage of `files`, so it must never run past the element
      being looked at. */
  method FilterInPlace(files: array<Path>, keep: Path -> bool) returns (kept: nat)
    modifies files
    ensures kept <= files.Length && files[..kept] == Filtered(old(files[..]), keep)
  {
    kept := 0;
    ghost var given := files[..];
    for k := 0 to files.Length
      invariant kept <= k
      invariant forall i :: k <= i < files.Length ==> files[i] == given[i]
      invariant files[..kept] == Filtered(given[..k], keep)
    {
      assert given[..k + 1][..k] == given[..k];
      if keep(files[k]) {
        files[kept] := files[k];
        kept := kept + 1;
      }
    }
    assert given[..files.Length] == given;
  }

  // ----- the merge

  /** What a file counts against the cap. */
  function CostOf(fr: FileResult): nat {
    var hits := |fr.matches| + |fr.metadataMatches|;
    if hits == 0 then 1 else hits
  }

  function Total(files: seq<FileResult>): nat {
    if files == [] then 0 else Total(files[..|files| - 1]) + CostOf(files[|files| - 1])
  }

  function Qualifying(slots: seq<(FileResult, bool)>): seq<FileResult> {
    if slots == [] then []
    else
      var last := slots[|slots| - 1];
      Qualifying(slots[..|slots| - 1]) + (if last.1 then [last.0] else [])
  }

  datatype SearchResult = SearchResult(files: seq<FileResult>, truncated: bool)

  /** The longest prefix of the qualifying files whose cost without its last file is below the cap;
      truncated exactly when that drops a file. */
  ghost predicate LongestWithin(all: seq<FileResult>, cap: nat, res: SearchResult) {
    && res.files <= all
    && (res.files != [] ==> Total(res.files[..|res.files| - 1]) < cap)
    && (forall k :: |res.files| <= k < |all| ==> Total(all[..k]) >= cap)
    && (res.truncated <==> |res.files| < |all|)
  }

  lemma LongestUnique(all: seq<FileResult>, cap: nat, a: SearchResult, b: SearchResult)
    requires LongestWithin(all, cap, a) && LongestWithin(all, cap, b)
    ensures a == b
  {
    NoneLonger(all, cap, a, b);
    NoneLonger(all, cap, b, a);
    assert a.files == all[..|a.files|] && b.files == all[..|b.files|];
  }

  lemma NoneLonger(all: seq<FileResult>, cap: nat, a: SearchResult, b: SearchResult)
    requires LongestWithin(all, cap, a) && LongestWithin(all, cap, b)
    ensures |b.files| <= |a.files|
  {
    hide Total;
    if b.files != [] {
      assert all[..|b.files| - 1] == b.files[..|b.files| - 1];
    }
  }

  lemma {:induction false} TotalGrows(all: seq<FileResult>, i: nat, k: nat)
    requires i <= k <= |all|
    ensures Total(all[..i]) <= Total(all[..k])
    decreases k
  {
    hide CostOf;
    if i < k {
      TotalGrows(all, i, k - 1);
      assert all[..k][..k - 1] == all[..k - 1];
    }
  }

  lemma {:induction false} QualifyingGrows(slots: seq<(FileResult, bool)>, k: nat)
    requires k <= |slots|
    ensures Qualifying(slots[..k]) <= Qualifying(slots)
    decreases |slots|
  {
    if k < |slots| {
      QualifyingGrows(slots[..|slots| - 1], k);
      assert slots[..|slots| - 1][..k] == slots[..k];
    } else {
      assert slots[..k] == slots;
    }
  }

  lemma QualifyingStep(slots: seq<(FileResult, bool)>, i: nat)
    requires i < |slots|
    ensures Qualifying(slots[..i + 1]) == Qualifying(slots[..i]) + (if slots[i].1 then [slots[i].0] else [])
    ensures Qualifying(slots[..i]) <= Qualifying(slots[..i + 1]) <= Qualifying(slots)
  {
    assert slots[..i + 1][..i] == slots[..i];
    QualifyingGrows(slots, i + 1);
  }

  lemma TotalStep(files: seq<FileResult>, fr: FileResult)
    ensures Total(files + [fr]) == Total(files) + CostOf(fr) && (files + [fr])[..|files|] == files
  {
    hide CostOf;
    assert (files + [fr])[..|files|] == files;
  }

  /** The loop over the slots at the end of `Search`. */
  method Merge(slots: seq<(FileResult, bool)>, maxMatches: nat) returns (res: SearchResult)
    requires maxMatches > 0
    ensures LongestWithin(Qualifying(slots), maxMatches, res)
  {
    hide CostOf, Total, Qualifying;
    NothingYet(slots);
    res := SearchResult([], false);
    var emitted := 0;
    for i := 0 to |slots|
      invariant res.files == Qualifying(slots[..i]) && !res.truncated
      invariant emitted == Total(res.files)
      invariant res.files != [] ==> Total(res.files[..|res.files| - 1]) < maxMatches
    {
      QualifyingStep(slots, i);
      if !slots[i].1 {
        continue;
      }
      if emitted >= maxMatches {
        CutIsLongest(Qualifying(slots), res.files, maxMatches);
        res := res.(truncated := true);
        return;
      }
      var fr := slots[i].0;
      TotalStep(res.files, fr);
      res := res.(files := res.files + [fr]);
      emitted := emitted + CostOf(fr);
    }
    assert slots[..|slots|] == slots;
  }

  lemma NothingYet(slots: seq<(FileResult, bool)>)
    ensures Qualifying(slots[..0]) == [] && Total([]) == 0
  {
  }

  /** Once a prefix reaches the cap, so does everything longer. */
  lemma CutIsLongest(all: seq<FileResult>, files: seq<FileResult>, cap: nat)
    requires files <= all && Total(files) >= cap
    ensures forall k :: |files| <= k < |all| ==> Total(all[..k]) >= cap
  {
    forall k | |files| <= k < |all| ensures Total(all[..k]) >= cap {
      TotalGrows(all, |files|, k);
      assert all[..|files|] == files;
    }
  }

  /** The lines that files show, and the files that show none. */
  function ShownLines(files: seq<FileResult>): seq<Line> {
    if files == [] then []
    else
      var last := files[|files| - 1];
      ShownLines(files[..|files| - 1]) + last.matches + last.metadataMatches
  }

  function Silent(files: seq<FileResult>): seq<FileResult> {
    if files == [] then []
    else
      var last := files[|files| - 1];
      Silent(files[..|files| - 1]) + (if last.matches == last.metadataMatches == [] then [last] else [])
  }

  lemma {:induction false} TotalIsShown(files: seq<FileResult>)
    ensures Total(files) == |ShownLines(files)| + |Silent(files)|
  {
    if files != [] {
      TotalIsShown(files[..|files| - 1]);
    }
  }

  /** The cap counts shown lines, and one for each file that shows none: the last file reported is the one
      that reaches it, and files are left out exactly when it was reached. */
  lemma CapInLines(all: seq<FileResult>, cap: nat, res: SearchResult)
    requires LongestWithin(all, cap, res)
    ensures res.files != [] ==>
      var front := res.files[..|res.files| - 1];
      |ShownLines(front)| + |Silent(front)| < cap
    ensures res.truncated ==> |ShownLines(res.files)| + |Silent(res.files)| >= cap && res.files < all
    ensures !res.truncated ==> res.files == all
  {
    hide Total, ShownLines, Silent;
    TotalIsShown(res.files);
    if res.files != [] {
      TotalIsShown(res.files[..|res.files| - 1]);
    }
    assert res.files == all[..|res.files|];
  }

  // ----- the whole search

  /** Everything a search depends on but the scheduling: the walk, the glob, the files as they can be
      opened, the compiled predicates, the request and its caps. */
  datatype Setup = Setup(walk: Walk.Job, keep: Path -> bool, disk: Path -> Candidate,
                         ms: seq<Matcher>, req: Request, readCap: int, maxMatches: int)

  ghost predicate ValidSetup(u: Setup) {
    && Walk.ValidJob(u.walk) && Local(u.walk.w) && AllUsable(u.ms)
    && (forall p :: u.disk(p).path == p)
    && (forall p :: p in u.walk.t && p != [] ==> Nameable(p))
  }

  /** Scanning the file at `p`. */
  ghost function ScanAt(u: Setup, p: Path): (FileResult, bool)
    requires AllUsable(u.ms)
  {
    ScanSpec(u.disk(p), u.ms, u.req, ReadCap(u.readCap))
  }

  /** One search: some schedule of the walk, some result of the sort, some number of workers and
      schedule of the pool, and the merge of its slots. */
  ghost predicate SearchRun(u: Setup, walked: seq<Walk.Step>, found: Walk.Progress, sorted: seq<Path>,
                            pool: Pool.Job<(FileResult, bool)>, blank: (FileResult, bool), scanned: seq<Pool.Step>,
                            done: Pool.Progress<(FileResult, bool)>, res: SearchResult)
    requires AllUsable(u.ms)
  {
    && Walk.Runs(u.walk, Walk.Begin(u.walk), walked, found) && Walk.Complete(found)
    && SortedCopy(Filtered(found.files, u.keep), sorted)
    && pool.n == |sorted| && (forall i: nat :: i < |sorted| ==> pool.scan(i) == ScanAt(u, sorted[i]))
    && Pool.Runs(pool, Pool.Begin(pool, blank), scanned, done) && Pool.Complete(pool, done)
    && LongestWithin(Qualifying(done.slots), MatchCap(u.maxMatches), res)
  }

  ghost predicate InPathOrder(files: seq<FileResult>) {
    forall i, j :: 0 <= i < j < |files| ==> Precedes(files[i].path, files[j].path)
  }

  /** The files to scan, in the only order there is. */
  ghost predicate Targets(u: Setup, order: seq<Path>) {
    StrictlyBefore(order) && forall p :: p in order <==> p in Walk.Collected(u.walk) && u.keep(p)
  }

  /** The sequential search: scan the targets in order, and merge. */
  ghost predicate Sequential(u: Setup, order: seq<Path>, res: SearchResult)
    requires AllUsable(u.ms)
  {
    && Targets(u, order)
    && LongestWithin(Qualifying(seq(|order|, i requires 0 <= i < |order| => ScanAt(u, order[i]))),
                     MatchCap(u.maxMatches), res)
  }

  lemma SortedTargets(u: Setup, walked: seq<Walk.Step>, found: Walk.Progress, sorted: seq<Path>)
    requires ValidSetup(u) && Walk.Runs(u.walk, Walk.Begin(u.walk), walked, found) && Walk.Complete(found)
    requires SortedCopy(Filtered(found.files, u.keep), sorted)
    ensures Targets(u, sorted)
  {
    Walk.WalkCollects(u.walk, walked, found);
    FilteredExact(found.files, u.keep);
    CollectedFiles(u, found);
    SortedIsStrict(Filtered(found.files, u.keep), sorted);
  }

  lemma CollectedFiles(u: Setup, found: Walk.Progress)
    requires ValidSetup(u) && (set f | f in found.files) == Walk.Collected(u.walk)
    ensures forall p :: p in found.files <==> p in Walk.Collected(u.walk)
    ensures forall p :: p in found.files ==> Nameable(p)
  {
    forall p ensures p in found.files <==> p in Walk.Collected(u.walk) {
      assert p in (set f | f in found.files) <==> p in found.files;
    }
  }

  /** Every run of the search, under every schedule and with every number of workers, is the
      sequential one. */
  lemma SearchIsSequential(
    u: Setup, walked: seq<Walk.Step>, found: Walk.Progress, sorted: seq<Path>,
    pool: Pool.Job<(FileResult, bool)>, blank: (FileResult, bool), scanned: seq<Pool.Step>,
    done: Pool.Progress<(FileResult, bool)>, res: SearchResult)
    requires ValidSetup(u) && SearchRun(u, walked, found, sorted, pool, blank, scanned, done, res)
    ensures Sequential(u, sorted, res)
  {
    SortedTargets(u, walked, found, sorted);
    Pool.PoolFillsSlots(pool, blank, scanned, done);
    assert done.slots == seq(|sorted|, i requires 0 <= i < |sorted| => ScanAt(u, sorted[i]));
  }

  /** There is only one sequential result, so any two runs answer the same. */
  lemma SearchDeterministic(u: Setup, a: seq<Path>, b: seq<Path>, ra: SearchResult, rb: SearchResult)
    requires ValidSetup(u) && Sequential(u, a, ra) && Sequential(u, b, rb)
    ensures a == b && ra == rb
  {
    StrictOrderUnique(a, b);
    LongestUnique(Qualifying(seq(|a|, i requires 0 <= i < |a| => ScanAt(u, a[i]))), MatchCap(u.maxMatches), ra, rb);
  }

  /** Results come in strict path order, one for each qualifying file up to the cap. */
  lemma SearchInPathOrder(u: Setup, order: seq<Path>, res: SearchResult)
    requires ValidSetup(u) && Sequential(u, order, res)
    ensures InPathOrder(res.files)
  {
    var slots := seq(|order|, i requires 0 <= i < |order| => ScanAt(u, order[i]));
    forall i | 0 <= i < |order| ensures slots[i].0.path == order[i] {
      ScanKeepsPath(u, order[i]);
    }
    QualifyingInOrder(slots, order);
  }

  lemma ScanKeepsPath(u: Setup, p: Path)
    requires ValidSetup(u)
    ensures ScanAt(u, p).0.path == p
  {
  }

  lemma {:induction false} QualifyingInOrder(slots: seq<(FileResult, bool)>, order: seq<Path>)
    requires |slots| == |order| && StrictlyBefore(order)
    requires forall i :: 0 <= i < |order| ==> slots[i].0.path == order[i]
    ensures InPathOrder(Qualifying(slots))
    ensures forall fr :: fr in Qualifying(slots) ==> fr.path in order
  {
    hide Precedes;
    if slots != [] {
      var n := |slots| - 1;
      QualifyingInOrder(slots[..n], order[..n]);
      var front := Qualifying(slots[..n]);
      forall fr | fr in front ensures Precedes(fr.path, order[n]) && fr.path in order {
        var k :| 0 <= k < n && order[..n][k] == fr.path;
        assert order[k] == fr.path;
      }
    }
  }

  /** The file at `p` hits every predicate: it can be opened, is text, and each one hits some line. */
  ghost predicate HitsAll(u: Setup, p: Path)
    requires AllUsable(u.ms)
  {
    || u.ms == []
    || (&& u.disk(p).content.Some?
        && var content, cap := u.disk(p).content.value, ReadCap(u.readCap);
           && (forall i :: 0 <= i < |content| && i < cap && i < 8000 ==> content[i] != 0)
           && forall k :: 0 <= k < |u.ms| ==> WholeBody(Head(content, cap), u.ms[k]) != [])
  }

  /** Every reported file was found by the walk, passes the glob and hits every predicate; and unless the
      result is truncated, every such file is reported. */
  lemma ReportedFiles(u: Setup, order: seq<Path>, res: SearchResult)
    requires ValidSetup(u) && Sequential(u, order, res)
    ensures forall fr :: fr in res.files ==>
      && fr.path in Walk.Collected(u.walk) && u.keep(fr.path) && HitsAll(u, fr.path) && fr == ScanAt(u, fr.path).0
    ensures !res.truncated ==>
      forall p :: p in Walk.Collected(u.walk) && u.keep(p) && HitsAll(u, p) ==> ScanAt(u, p).0 in res.files
  {
    hide ScanAt, HitsAll, Walk.Collected;
    var slots := seq(|order|, i requires 0 <= i < |order| => ScanAt(u, order[i]));
    forall i | 0 <= i < |order|
      ensures slots[i].0.path == order[i] && (slots[i].1 <==> HitsAll(u, order[i]))
    {
      ScanKeepsPath(u, order[i]);
      ScannedExactly(u, order[i]);
    }
    QualifyingMembers(slots);
    forall fr | fr in res.files ensures fr in Qualifying(slots) {
      var k :| 0 <= k < |res.files| && res.files[k] == fr;
      assert Qualifying(slots)[k] == fr;
    }
    forall p | p in order && HitsAll(u, p) ensures ScanAt(u, p).0 in Qualifying(slots) {
      var i :| 0 <= i < |order| && order[i] == p;
      assert slots[i] in slots;
    }
  }

  lemma ScannedExactly(u: Setup, p: Path)
    requires AllUsable(u.ms)
    ensures ScanAt(u, p).1 <==> HitsAll(u, p)
  {
    hide ScanSpec;
    ReportedExactly(u.disk(p), u.ms, u.req, ReadCap(u.readCap));
  }

  lemma {:induction false} QualifyingMembers(slots: seq<(FileResult, bool)>)
    ensures forall fr :: fr in Qualifying(slots) <==> (fr, true) in slots
  {
    if slots != [] {
      var n := |slots| - 1;
      QualifyingMembers(slots[..n]);
      assert slots == slots[..n] + [slots[n]];
    }
  }
}
