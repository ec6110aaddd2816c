/** The lister's cache and lazy loading never show: every query, in every order, gets the answer of
    the recursive definition, and every ignore file is loaded at most once, top down. */
module VisibilityProofs {
  import opened Wrappers
  import opened Collections
  import opened Visibility

  /** An ignore library that ignores what stands right below a directory with patterns. */
  const PARENT_IGNORES: World := World(
    (glob: string, p: Path) => false,
    (l: map<Path, seq<string>>, p: Path, isDir: bool) => p != [] && p[..|p| - 1] in l,
    (dir: Path) => [])

  /** The contract can be met. */
  lemma LocalIsPossible()
    ensures Local(PARENT_IGNORES)
  {
    var w := PARENT_IGNORES;
    forall l, r, p, isDir: bool | SameFor(l, r, p) ensures w.ignores(l, p, isDir) == w.ignores(r, p, isDir) {
      if p != [] {
        assert p[..|p| - 1] in Ancestors(p);
      }
    }
  }

  /** Everything above `dir` is decided and not ignored. */
  ghost predicate Open(s: Knowledge, dir: Path) {
    forall k :: 0 < k < |dir| ==> dir[..k] in s.seen && !s.seen[dir[..k]]
  }

  ghost predicate LoadedDir(s: Knowledge, q: Path) {
    q == [] || (q in s.seen && !s.seen[q])
  }

  /** Every loaded directory comes after all directories above it. */
  ghost predicate TopDown(log: seq<Path>) {
    forall i, q :: 0 <= i < |log| && q in Ancestors(log[i]) ==> q in log[..i]
  }

  /** What every lister knows is right. */
  ghost predicate Right(w: World, s: Knowledge) {
    && (forall d :: d in s.seen ==> d != [] && s.seen[d] == Ignored(w, d, true) && Open(s, d))
    && (forall q :: q in s.loaded <==> LoadedDir(s, q) && w.ignoreLines(q) != [])
    && (forall q :: q in s.loaded ==> s.loaded[q] == w.ignoreLines(q))
    && (forall q :: q in s.log <==> LoadedDir(s, q))
    && Distinct(s.log) && TopDown(s.log)
  }

  /** What a lister with this policy knows is right, if it looks at ignore files at all. */
  ghost predicate Trusted(w: World, p: Option<Policy>, s: Knowledge) {
    Ignoring(p) ==> Right(w, s)
  }

  lemma FreshIsTrusted(w: World, p: Option<Policy>)
    ensures Trusted(w, p, Fresh(w, p))
  {
    assert Ancestors([]) == {};
  }

  /** Below directories that are all decided and not ignored, what is loaded decides like all
      ignore files above would. */
  lemma LoadedDecides(w: World, s: Knowledge, rel: Path, isDir: bool)
    requires Local(w) && Right(w, s) && Open(s, rel)
    ensures MatchLoaded(w, s, rel, isDir) == Ignored(w, rel, isDir)
  {
    assert SameFor(s.loaded, Chain(w, rel), rel) by {
      forall q | q in Ancestors(rel)
        ensures (q in s.loaded <==> q in Chain(w, rel)) && (q in s.loaded ==> s.loaded[q] == Chain(w, rel)[q])
      {
        var k :| 0 <= k < |rel| && q == rel[..k];
        assert LoadedDir(s, q);
      }
    }
  }

  lemma OpenAbove(s: Knowledge, rel: Path, k: nat)
    requires k <= |rel| && Open(s, rel[..k])
    requires 0 < k ==> rel[..k] in s.seen && !s.seen[rel[..k]]
    requires k < |rel|
    ensures Open(s, rel[..k + 1])
  {
    var shorter, longer := rel[..k], rel[..k + 1];
    forall j | 0 < j < |longer| ensures longer[..j] in s.seen && !s.seen[longer[..j]] {
      assert longer[..j] == rel[..j];
      assert j < k ==> shorter[..j] == rel[..j];
    }
  }

  /** Deciding one more directory keeps everything known, and decides it rightly. */
  lemma DecideKeeps(w: World, s: Knowledge, dir: Path)
    requires Local(w) && Right(w, s) && Open(s, dir) && dir != []
    ensures var (s', ignored) := Decide(w, s, dir);
      && Right(w, s') && ignored == Ignored(w, dir, true)
      && dir in s'.seen && s'.seen[dir] == ignored && Open(s', dir)
      && s.seen.Keys <= s'.seen.Keys && (forall d :: d in s.seen ==> s'.seen[d] == s.seen[d])
      && s.log <= s'.log
  {
    if dir !in s.seen {
      LoadedDecides(w, s, dir, true);
      var (s', ignored) := Decide(w, s, dir);
      NewDirectory(w, s, dir, s', ignored);
    }
  }

  lemma NewDirectory(w: World, s: Knowledge, dir: Path, s': Knowledge, ignored: bool)
    requires Right(w, s) && Open(s, dir) && dir != [] && dir !in s.seen
    requires (s', ignored) == Decide(w, s, dir) && ignored == Ignored(w, dir, true)
    ensures Right(w, s')
  {
    hide Ignored;
    forall d | d in s'.seen ensures d != [] && s'.seen[d] == Ignored(w, d, true) && Open(s', d) {
      if d == dir {
        assert forall k :: 0 < k < |dir| ==> |dir[..k]| == k;
      } else {
        assert Open(s, d);
      }
    }
    if !ignored {
      forall q | q in Ancestors(dir) ensures q in s.log {
        var k :| 0 <= k < |dir| && q == dir[..k];
        assert LoadedDir(s, q);
      }
      assert !LoadedDir(s, dir);
      LogGrows(s.log, dir);
    }
  }

  lemma LogGrows(log: seq<Path>, dir: Path)
    requires Distinct(log) && TopDown(log) && dir !in log && forall q :: q in Ancestors(dir) ==> q in log
    ensures Distinct(log + [dir]) && TopDown(log + [dir])
  {
    var longer := log + [dir];
    forall i, q | 0 <= i < |longer| && q in Ancestors(longer[i]) ensures q in longer[..i] {
      if i < |log| {
        assert q in log[..i] && longer[..i] == log[..i];
      } else {
        assert longer[..i] == log;
      }
    }
  }

  /** Walking down the directories above a path finds the first ignored one, if there is one. */
  lemma {:induction false} DecideAboveKeeps(w: World, s: Knowledge, rel: Path, k: nat)
    requires Local(w) && Right(w, s) && 0 < k && (k <= |rel| ==> Open(s, rel[..k]))
    requires forall j :: 0 < j < k && j < |rel| ==> !Ignored(w, rel[..j], true)
    ensures var (s', ignored) := DecideAbove(w, s, rel, k);
      && Right(w, s') && ignored == !NoAncestorIgnored(w, rel) && (!ignored ==> k <= |rel| ==> Open(s', rel))
      && s.log <= s'.log
    decreases |rel| - k
  {
    hide Ignored;
    if k < |rel| {
      DecideKeeps(w, s, rel[..k]);
      var (s', ignored) := Decide(w, s, rel[..k]);
      if !ignored {
        OpenAbove(s', rel, k);
        DecideAboveKeeps(w, s', rel, k + 1);
      }
    } else if k == |rel| {
      assert rel[..k] == rel;
    }
  }

  /** One query: right knowledge stays right and only grows, and the answer is the recursive
      definition's, whatever was asked before. */
  lemma QueryAnswers(w: World, p: Option<Policy>, s: Knowledge, rel: Path, isDir: bool)
    requires Local(w) && Trusted(w, p, s)
    ensures Trusted(w, p, Query(w, p, s, rel, isDir).0)
    ensures s.log <= Query(w, p, s, rel, isDir).0.log
    ensures Query(w, p, s, rel, isDir).1 == Listed(w, p, rel, isDir)
  {
    hide Ignored, Right;
    if Check(w, p, rel, isDir).Allowed? && Ignoring(p) {
      assert |rel| > 0 ==> Open(s, rel[..1]);
      DecideAboveKeeps(w, s, rel, 1);
      var (s', ignored) := DecideAbove(w, s, rel, 1);
      if !ignored {
        assert Open(s', rel);
        LoadedDecides(w, s', rel, isDir);
      }
    }
  }

  datatype Question = Question(rel: Path, isDir: bool)

  /** A run of the lister: its critical sections, in the order in which they got the lock. */
  function Run(w: World, p: Option<Policy>, s: Knowledge, qs: seq<Question>): (Knowledge, seq<bool>)
    decreases |qs|
  {
    if qs == [] then (s, [])
    else
      var (s', answer) := Query(w, p, s, qs[0].rel, qs[0].isDir);
      var (s'', answers) := Run(w, p, s', qs[1..]);
      (s'', [answer] + answers)
  }

  /** Over every run, from any right knowledge: all answers are the recursive definition's. */
  lemma {:induction false} RunAnswers(w: World, p: Option<Policy>, s: Knowledge, qs: seq<Question>)
    requires Local(w) && Trusted(w, p, s)
    ensures var (s', answers) := Run(w, p, s, qs);
      && Trusted(w, p, s') && |answers| == |qs|
      && forall k :: 0 <= k < |qs| ==> answers[k] == Listed(w, p, qs[k].rel, qs[k].isDir)
    decreases |qs|
  {
    hide Trusted, Listed, Query;
    if qs != [] {
      var (s', answer) := Query(w, p, s, qs[0].rel, qs[0].isDir);
      QueryAnswers(w, p, s, qs[0].rel, qs[0].isDir);
      RunAnswers(w, p, s', qs[1..]);
    }
  }

  /** A fresh lister, asked anything in any order: right answers, and a load log without repeats in
      which every directory follows those above it, none of them ignored. */
  lemma FreshRun(w: World, p: Option<Policy>, qs: seq<Question>)
    requires Local(w)
    ensures var (s, answers) := Run(w, p, Fresh(w, p), qs);
      && |answers| == |qs|
      && (forall k :: 0 <= k < |qs| ==> answers[k] == Listed(w, p, qs[k].rel, qs[k].isDir))
      && (Ignoring(p) ==>
            && Distinct(s.log) && TopDown(s.log)
            && forall q :: q in s.log ==> NoAncestorIgnored(w, q) && !Ignored(w, q, true))
  {
    FreshIsTrusted(w, p);
    RunAnswers(w, p, Fresh(w, p), qs);
    var s := Run(w, p, Fresh(w, p), qs).0;
    forall q | Ignoring(p) && q in s.log ensures NoAncestorIgnored(w, q) && !Ignored(w, q, true) {
      assert LoadedDir(s, q);
    }
  }

  /** A segment that starts with a dot and is longer. */
  predicate DotName(segment: string) { |segment| > 1 && segment[0] == '.' }

  /** What access comes down to. Below the root: no block glob matches, and a path with a dot segment, like
      a file under an allow list, is named by an allow glob. A block glob is reported before a dot segment,
      and that before a missing allow glob. The root may be listed and is no file. */
  lemma AccessExactly(w: World, p: Policy, rel: Path, isDir: bool)
    ensures rel == [] ==> Check(w, Some(p), rel, isDir) == if isDir then Allowed else Denied(NotAllowlisted)
    ensures rel != [] ==>
      var decision := Check(w, Some(p), rel, isDir);
      var blocked := exists g :: g in p.block && w.glob(g, rel);
      var named := exists g :: g in p.allow && w.glob(g, rel);
      var dotted := exists segment :: segment in rel && DotName(segment);
      && (decision == Denied(BlockedGlob) <==> blocked)
      && (decision == Denied(Dotfile) <==> !blocked && dotted && !named)
      && (decision == Denied(NotAllowlisted) <==> !blocked && !dotted && !named && !isDir && p.allow != [])
      && (decision == Allowed <==> !blocked && (dotted || (!isDir && p.allow != []) ==> named))
  {
    hide CheckFile, CheckDir;
    SomeGlob(w, p.block, rel);
    SomeGlob(w, p.allow, rel);
    SomeDot(rel);
    AccessTable(w, p, rel, isDir);
  }

  lemma SomeGlob(w: World, globs: seq<string>, rel: Path)
    ensures MatchGlobs(w, globs, rel) <==> exists g :: g in globs && w.glob(g, rel)
  {
    if MatchGlobs(w, globs, rel) {
      var k :| 0 <= k < |globs| && w.glob(globs[k], rel);
      assert globs[k] in globs;
    }
  }

  lemma SomeDot(rel: Path)
    ensures HasDotSegment(rel) <==> exists segment :: segment in rel && DotName(segment)
  {
    if HasDotSegment(rel) {
      var k :| 0 <= k < |rel| && |rel[k]| > 1 && rel[k][0] == '.';
      assert rel[k] in rel && DotName(rel[k]);
    }
  }

  lemma AccessTable(w: World, p: Policy, rel: Path, isDir: bool)
    ensures rel == [] ==> Check(w, Some(p), rel, isDir) == if isDir then Allowed else Denied(NotAllowlisted)
    ensures rel != [] ==>
      var decision := Check(w, Some(p), rel, isDir);
      var blocked, named, dotted := MatchGlobs(w, p.block, rel), MatchGlobs(w, p.allow, rel), HasDotSegment(rel);
      decision == if blocked then Denied(BlockedGlob)
                  else if dotted && !named then Denied(Dotfile)
                  else if !isDir && p.allow != [] && !named then Denied(NotAllowlisted)
                  else Allowed
  {
  }

  /** No allow list brings back what the fixed block list takes away. */
  lemma FixedBlocksWin(w: World, allow: seq<string>, block: seq<string>, writes: bool, gitignore: bool, rel: Path, isDir: bool)
    requires rel != [] && MatchGlobs(w, ALWAYS_BLOCKED, rel)
    ensures !Listed(w, Some(NewPolicy(allow, block, writes, gitignore)), rel, isDir)
  {
    var k :| 0 <= k < |ALWAYS_BLOCKED| && w.glob(ALWAYS_BLOCKED[k], rel);
    assert (ALWAYS_BLOCKED + block)[k] == ALWAYS_BLOCKED[k];
  }

  /** A path is listed if and only if access is allowed and, where ignore files count, all of them above it
      ignore neither it nor any directory on the way to it. */
  lemma ListedExactly(w: World, p: Option<Policy>, rel: Path, isDir: bool)
    ensures Listed(w, p, rel, isDir) <==>
      && (p.None? || Check(w, p, rel, isDir) == Allowed)
      && (p.Some? && p.value.gitignore ==>
            forall k :: 0 < k <= |rel| ==> !w.ignores(Chain(w, rel[..k]), rel[..k], k < |rel| || isDir))
  {
    assert rel[..|rel|] == rel;
  }

  /** Listing is closed upwards as far as ignore files go: what stands in an ignored directory, at any
      depth, is not listed. */
  lemma IgnoredHidesBelow(w: World, p: Option<Policy>, dir: Path, rel: Path, isDir: bool)
    requires Ignoring(p) && dir != [] && dir <= rel && |dir| < |rel| && Ignored(w, dir, true)
    ensures !Listed(w, p, rel, isDir)
  {
    hide Ignored;
    assert rel[..|dir|] == dir;
  }
}
