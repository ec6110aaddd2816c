/** `mcp/walk.go`: the concurrent directory walk. Its callbacks run on many goroutines; what they
    share is the lister and the result slice, each behind its own mutex, so a schedule is a sequence
    of two kinds of atomic steps. */
module Walk {
  import opened Wrappers
  import opened Collections
  import opened Visibility
  import opened VisibilityProofs

  datatype Kind = Directory | Regular | Other  // Other: symlinks, devices, sockets

  type Tree = map<Path, Kind>

  function Parent(p: Path): Path
    requires p != []
  {
    p[..|p| - 1]
  }

  /** The root is a directory, and every other entry stands in one. */
  predicate WellFormed(t: Tree) {
    && [] in t && t[[]] == Directory
    && forall p :: p in t && p != [] ==> Parent(p) in t && t[Parent(p)] == Directory
  }

  function Children(t: Tree, dir: Path): set<Path> {
    set p | p in t && p != [] && Parent(p) == dir
  }

  function KindOf(t: Tree, p: Path): Kind { if p in t then t[p] else Other }

  /** What a walk works on: tree, libraries, policy, and the directory it starts from. */
  datatype Job = Job(t: Tree, w: World, p: Option<Policy>, start: Path)

  predicate ValidJob(j: Job) {
    WellFormed(j.t) && j.start in j.t && j.t[j.start] == Directory
  }

  /** The walk in flight: what the lister knows, entries found but not called back yet, entries
      called back, files passed by the lister but not appended yet, and the result slice. */
  datatype Progress = Progress(lister: Knowledge, todo: set<Path>, visited: set<Path>, passed: set<Path>, files: seq<Path>)

  datatype Step = Visit(entry: Path) | Append(file: Path)

  /** The callback on the start directory returns at once, so its entries are found first. */
  function Begin(j: Job): Progress {
    Progress(Fresh(j.w, j.p), Children(j.t, j.start), {}, {}, [])
  }

  predicate Enabled(s: Progress, step: Step) {
    match step
    case Visit(entry) => entry in s.todo
    case Append(file) => file in s.passed
  }

  /** One callback up to its lister query, or one locked append. An unlisted directory is skipped
      with everything in it; entries that are neither directories nor regular files are ignored
      without asking. */
  function Do(j: Job, s: Progress, step: Step): Progress
    requires Enabled(s, step)
  {
    match step
    case Visit(entry) =>
      var left := s.(todo := s.todo - {entry}, visited := s.visited + {entry});
      (match KindOf(j.t, entry)
       case Directory =>
         var (lister, listed) := Query(j.w, j.p, s.lister, entry, true);
         if listed then left.(lister := lister, todo := left.todo + Children(j.t, entry)) else left.(lister := lister)
       case Regular =>
         var (lister, listed) := Query(j.w, j.p, s.lister, entry, false);
         if listed then left.(lister := lister, passed := left.passed + {entry}) else left.(lister := lister)
       case Other => left)
    case Append(file) =>
      s.(passed := s.passed - {file}, files := s.files + [file])
  }

  predicate Complete(s: Progress) { s.todo == {} && s.passed == {} }

  // ----- what the walk collects

  ghost predicate Below(start: Path, p: Path) { |start| < |p| && start <= p }

  /** An entry the walk gets to: every directory strictly between it and the start is listed. */
  ghost predicate Reached(j: Job, p: Path) {
    && p in j.t && Below(j.start, p)
    && forall k :: |j.start| < k < |p| ==> Listed(j.w, j.p, p[..k], true)
  }

  ghost predicate ListedFile(j: Job, p: Path) {
    p in j.t && j.t[p] == Regular && Listed(j.w, j.p, p, false)
  }

  ghost predicate ListedDir(j: Job, p: Path) {
    p in j.t && j.t[p] == Directory && Listed(j.w, j.p, p, true)
  }

  ghost function Collected(j: Job): set<Path> {
    set p | p in j.t && Reached(j, p) && ListedFile(j, p)
  }

  ghost predicate Sane(j: Job, s: Progress) {
    && Trusted(j.w, j.p, s.lister)
    && s.todo !! s.visited
    && (forall q :: q in s.todo + s.visited ==> Reached(j, q))
    && (forall q :: q in s.todo + s.visited ==> Parent(q) == j.start || Parent(q) in s.visited)
    && Children(j.t, j.start) <= s.todo + s.visited
    && (forall d :: d in s.visited && ListedDir(j, d) ==> Children(j.t, d) <= s.todo + s.visited)
    && Distinct(s.files)
    && (forall q :: q in s.passed ==> q !in s.files)
    && (forall q :: q in s.visited && ListedFile(j, q) <==> q in s.passed || q in s.files)
  }

  lemma ChildIsReached(j: Job, dir: Path, q: Path)
    requires ValidJob(j) && q in Children(j.t, dir)
    requires dir == j.start || (Reached(j, dir) && Listed(j.w, j.p, dir, true))
    ensures Reached(j, q)
  {
    hide Listed;
    forall k | |j.start| < k < |q| ensures Listed(j.w, j.p, q[..k], true) {
      assert k == |dir| ==> q[..k] == dir;
      assert k < |dir| ==> q[..k] == dir[..k];
    }
  }

  lemma BeginIsSane(j: Job)
    requires ValidJob(j)
    ensures Sane(j, Begin(j))
  {
    hide Trusted, Fresh, Listed;
    FreshIsTrusted(j.w, j.p);
    forall q | q in Children(j.t, j.start) ensures Reached(j, q) {
      ChildIsReached(j, j.start, q);
    }
  }

  lemma StepKeepsSane(j: Job, s: Progress, step: Step)
    requires ValidJob(j) && Local(j.w) && Sane(j, s) && Enabled(s, step)
    ensures Sane(j, Do(j, s, step))
  {
    hide Trusted, Listed, Query, Sane;
    match step
    case Append(file) => AppendKeepsSane(j, s, file);
    case Visit(entry) =>
      EntryInTree(j, s, entry);
      QueryAnswers(j.w, j.p, s.lister, entry, j.t[entry] == Directory);
      var lister := if j.t[entry] == Other then s.lister else Query(j.w, j.p, s.lister, entry, j.t[entry] == Directory).0;
      var left := s.(lister := lister, todo := s.todo - {entry}, visited := s.visited + {entry});
      if ListedDir(j, entry) {
        EnterKeepsSane(j, s, entry, lister);
      } else if ListedFile(j, entry) {
        PassKeepsSane(j, s, entry, lister);
      } else {
        SkipKeepsSane(j, s, entry, lister);
      }
  }

  lemma EntryInTree(j: Job, s: Progress, entry: Path)
    requires Sane(j, s) && entry in s.todo
    ensures entry in j.t && Trusted(j.w, j.p, s.lister)
  {
  }

  lemma AppendKeepsSane(j: Job, s: Progress, file: Path)
    requires Sane(j, s) && file in s.passed
    ensures Sane(j, s.(passed := s.passed - {file}, files := s.files + [file]))
  {
    hide Trusted, Listed;
  }

  /** A listed directory: its entries are new, and reached. */
  lemma EnterKeepsSane(j: Job, s: Progress, entry: Path, lister: Knowledge)
    requires ValidJob(j) && Sane(j, s) && entry in s.todo && ListedDir(j, entry) && Trusted(j.w, j.p, lister)
    ensures Sane(j, s.(lister := lister, todo := s.todo - {entry} + Children(j.t, entry), visited := s.visited + {entry}))
  {
    hide Trusted, Listed;
    forall q | q in Children(j.t, entry) ensures Reached(j, q) && q !in s.todo + s.visited && q != entry {
      ChildIsReached(j, entry, q);
      assert Reached(j, entry);
      assert Parent(q) == entry && entry != j.start && entry !in s.visited;
    }
  }

  lemma PassKeepsSane(j: Job, s: Progress, entry: Path, lister: Knowledge)
    requires Sane(j, s) && entry in s.todo && ListedFile(j, entry) && Trusted(j.w, j.p, lister)
    ensures Sane(j, s.(lister := lister, todo := s.todo - {entry}, visited := s.visited + {entry},
                       passed := s.passed + {entry}))
  {
    hide Trusted, Listed;
  }

  lemma SkipKeepsSane(j: Job, s: Progress, entry: Path, lister: Knowledge)
    requires Sane(j, s) && entry in s.todo && !ListedDir(j, entry) && !ListedFile(j, entry) && Trusted(j.w, j.p, lister)
    ensures Sane(j, s.(lister := lister, todo := s.todo - {entry}, visited := s.visited + {entry}))
  {
    hide Trusted, Listed;
  }

  /** A run of the walk: some schedule of enabled steps. */
  ghost predicate Runs(j: Job, s: Progress, steps: seq<Step>, end: Progress)
    decreases |steps|
  {
    if steps == [] then s == end
    else Enabled(s, steps[0]) && Runs(j, Do(j, s, steps[0]), steps[1..], end)
  }

  lemma {:induction false} RunKeepsSane(j: Job, s: Progress, steps: seq<Step>, end: Progress)
    requires ValidJob(j) && Local(j.w) && Sane(j, s) && Runs(j, s, steps, end)
    ensures Sane(j, end)
    ensures |end.visited| + |end.files| == |s.visited| + |s.files| + |steps|
    decreases |steps|
  {
    hide Trusted, Listed, Query;
    if steps != [] {
      StepKeepsSane(j, s, steps[0]);
      RunKeepsSane(j, Do(j, s, steps[0]), steps[1..], end);
      OneMore(j, s, steps[0]);
    }
  }

  lemma OneMore(j: Job, s: Progress, step: Step)
    requires s.todo !! s.visited && Enabled(s, step)
    ensures var s' := Do(j, s, step); |s'.visited| + |s'.files| == |s.visited| + |s.files| + 1
  {
    hide Query, KindOf, Children;
    match step
    case Visit(entry) => assert entry !in s.visited;
    case Append(file) =>
  }

  lemma {:induction false} ReachedIsVisited(j: Job, s: Progress, q: Path)
    requires ValidJob(j) && Sane(j, s) && s.todo == {} && Reached(j, q)
    ensures q in s.visited
    decreases |q|
  {
    hide Trusted, Listed;
    var dir := Parent(q);
    if dir == j.start {
      assert q in Children(j.t, j.start);
    } else {
      assert dir == q[..|q| - 1] && Listed(j.w, j.p, q[..|q| - 1], true);
      forall k | |j.start| < k < |dir| ensures Listed(j.w, j.p, dir[..k], true) {
        assert dir[..k] == q[..k];
      }
      assert j.start <= dir;
      ReachedIsVisited(j, s, dir);
      assert q in Children(j.t, dir);
    }
  }

  /** Every complete run, under every schedule, has collected exactly the listed regular files all
      of whose directories below the start are listed, each once, in at most two steps an entry. */
  lemma WalkCollects(j: Job, steps: seq<Step>, end: Progress)
    requires ValidJob(j) && Local(j.w) && Runs(j, Begin(j), steps, end)
    ensures |steps| <= 2 * |j.t|
    ensures Complete(end) ==> Distinct(end.files) && (set f | f in end.files) == Collected(j)
  {
    hide Trusted, Listed, Query;
    BeginIsSane(j);
    RunKeepsSane(j, Begin(j), steps, end);
    DistinctSize(end.files, j.t.Keys);
    SubsetSize(end.visited, j.t.Keys);
    if Complete(end) {
      forall f | f in Collected(j) ensures f in end.files {
        ReachedIsVisited(j, end, f);
      }
    }
  }

  // ----- walking only the literal base of a glob

  /** Every directory from the root down to `base` is listed. */
  ghost predicate BaseListed(j: Job, base: Path) {
    forall k :: 0 < k <= |base| ==> Listed(j.w, j.p, base[..k], true)
  }

  ghost function Kept(files: set<Path>, keep: Path -> bool): set<Path> {
    set f | f in files && keep(f)
  }

  lemma ReachedFromBase(j: Job, q: Path)
    requires BaseListed(j, j.start) && Below(j.start, q)
    ensures Reached(j, q) <==> Reached(j.(start := []), q)
  {
    hide Listed;
    if Reached(j, q) {
      forall k | 0 < k < |q| ensures Listed(j.w, j.p, q[..k], true) {
        assert k <= |j.start| ==> q[..k] == j.start[..k];
      }
    }
  }

  lemma NotReachedBelow(j: Job, q: Path)
    requires !BaseListed(j, j.start) && Below(j.start, q)
    ensures !Reached(j.(start := []), q)
  {
    hide Listed;
    var k :| 0 < k <= |j.start| && !Listed(j.w, j.p, j.start[..k], true);
    assert q[..k] == j.start[..k];
  }

  lemma StartIsNotCollected(j: Job)
    requires ValidJob(j)
    ensures j.start !in Collected(j) && j.start !in Collected(j.(start := []))
  {
    hide Listed, Reached;
  }

  /** A glob whose matches all lie in its literal base, the base itself among them or not, finds the same
      files from the base as from the root if and only if every directory down to the base is listed, or
      it finds none. */
  lemma BaseWalkExactly(j: Job, keep: Path -> bool)
    requires ValidJob(j) && forall q :: keep(q) ==> j.start <= q
    ensures Kept(Collected(j), keep) == Kept(Collected(j.(start := [])), keep)
            <==> BaseListed(j, j.start) || Kept(Collected(j), keep) == {}
  {
    hide Listed, BaseListed, Reached, ValidJob;
    var root := j.(start := []);
    StartIsNotCollected(j);
    forall q | keep(q) && q != j.start ensures BaseListed(j, j.start) ==> (Reached(j, q) <==> Reached(root, q)) {
      if BaseListed(j, j.start) {
        ReachedFromBase(j, q);
      }
    }
    forall q | keep(q) && q != j.start ensures !BaseListed(j, j.start) ==> !Reached(root, q) {
      if !BaseListed(j, j.start) {
        NotReachedBelow(j, q);
      }
    }
  }

  /** The condition can fail: a block glob that names a directory without its contents keeps a walk
      from the root out of it, while a walk that starts there lists its files. */
  lemma BlockedBaseIsSearched(j: Job)
    requires j.t == map[[] := Directory, ["private"] := Directory, ["private", "note"] := Regular]
    requires j.p == Some(NewPolicy([], ["private"], false, false)) && j.start == ["private"]
    requires j.w.glob("private", ["private"]) && !j.w.glob("private", ["private", "note"])
    requires forall k :: 0 <= k < |ALWAYS_BLOCKED| ==> !j.w.glob(ALWAYS_BLOCKED[k], ["private", "note"])
    ensures ValidJob(j)
    ensures Collected(j) == {["private", "note"]}
    ensures Collected(j.(start := [])) == {}
  {
    var note, root := ["private", "note"], j.(start := []);
    var block := ALWAYS_BLOCKED + ["private"];
    assert note[..1] == ["private"] && Parent(note) == ["private"] && Parent(["private"]) == [];
    assert !MatchGlobs(j.w, block, note);
    assert MatchGlobs(j.w, block, ["private"]) by {
      assert block[|ALWAYS_BLOCKED|] == "private";
    }
    assert Reached(j, note) && Listed(j.w, j.p, note, false);
    assert !Listed(j.w, j.p, note[..1], true);
  }
}
