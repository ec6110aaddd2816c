/** `mcp/policy.go`: the access rules of a workspace, and the lister that decides, with a cache and
    lazily loaded ignore files, which paths appear in listings. A path is the sequence of its
    segments below the workspace root; the root itself is `[]`. */
module Visibility {
  import opened Wrappers

  type Path = seq<string>

  datatype Reason = BlockedGlob | Dotfile | NotAllowlisted

  datatype Decision = Allowed | Denied(reason: Reason)

  datatype Policy = Policy(allow: seq<string>, block: seq<string>, writes: bool, gitignore: bool)

  const ALWAYS_BLOCKED := [".git", ".git/**", "**/.git", "**/.git/**"]

  /** `NewPolicy`: the configured block list comes after the fixed one. */
  function NewPolicy(allow: seq<string>, block: seq<string>, writes: bool, gitignore: bool): Policy {
    Policy(allow, ALWAYS_BLOCKED + block, writes, gitignore)
  }

  /** The libraries and files that decisions depend on: the glob matcher, the ignore matcher over
      the patterns loaded so far, and the ignore-file lines found in each directory. */
  datatype World = World(
    glob: (string, Path) -> bool,
    ignores: (map<Path, seq<string>>, Path, bool) -> bool,
    ignoreLines: Path -> seq<string>)

  function Ancestors(p: Path): set<Path> {
    set k | 0 <= k < |p| :: p[..k]
  }

  ghost predicate SameFor(l: map<Path, seq<string>>, r: map<Path, seq<string>>, p: Path) {
    forall q :: q in Ancestors(p) ==> (q in l <==> q in r) && (q in l ==> l[q] == r[q])
  }

  /** The ignore library's contract: matching a path looks only at patterns loaded at its proper
      ancestor directories. */
  ghost predicate Local(w: World) {
    forall l, r, p, isDir :: SameFor(l, r, p) ==> w.ignores(l, p, isDir) == w.ignores(r, p, isDir)
  }

  predicate MatchGlobs(w: World, globs: seq<string>, rel: Path) {
    exists k :: 0 <= k < |globs| && w.glob(globs[k], rel)
  }

  predicate HasDotSegment(rel: Path) {
    exists k :: 0 <= k < |rel| && |rel[k]| > 1 && rel[k][0] == '.'
  }

  function CheckFile(w: World, p: Policy, rel: Path): Decision {
    if rel == [] then Denied(NotAllowlisted)
    else if MatchGlobs(w, p.block, rel) then Denied(BlockedGlob)
    else
      var explicitlyAllowed := MatchGlobs(w, p.allow, rel);
      if HasDotSegment(rel) && !explicitlyAllowed then Denied(Dotfile)
      else if |p.allow| > 0 && !explicitlyAllowed then Denied(NotAllowlisted)
      else Allowed
  }

  function CheckDir(w: World, p: Policy, rel: Path): Decision {
    if rel == [] then Allowed
    else if MatchGlobs(w, p.block, rel) then Denied(BlockedGlob)
    else if HasDotSegment(rel) && !MatchGlobs(w, p.allow, rel) then Denied(Dotfile)
    else Allowed
  }

  function Check(w: World, p: Option<Policy>, rel: Path, isDir: bool): Decision {
    if p.None? then Allowed else if isDir then CheckDir(w, p.value, rel) else CheckFile(w, p.value, rel)
  }

  /** Whether ignore files count at all. */
  predicate Ignoring(p: Option<Policy>) { p.Some? && p.value.gitignore }

  // ----- the recursive definition

  /** All ignore files above `p`, loaded. */
  function Chain(w: World, p: Path): map<Path, seq<string>> {
    map q | q in Ancestors(p) && w.ignoreLines(q) != [] :: w.ignoreLines(q)
  }

  predicate Ignored(w: World, p: Path, isDir: bool) {
    p != [] && w.ignores(Chain(w, p), p, isDir)
  }

  predicate NoAncestorIgnored(w: World, p: Path) {
    forall k :: 0 < k < |p| ==> !Ignored(w, p[..k], true)
  }

  /** A path is listed when the access rules allow it and neither it nor a directory above it is
      ignored. */
  predicate Listed(w: World, p: Option<Policy>, rel: Path, isDir: bool) {
    && Check(w, p, rel, isDir).Allowed?
    && (Ignoring(p) ==> NoAncestorIgnored(w, rel) && !Ignored(w, rel, isDir))
  }

  // ----- the lister's state

  /** Patterns loaded, directories decided, and the directories loaded, in the order of loading. */
  datatype Knowledge = Knowledge(loaded: map<Path, seq<string>>, seen: map<Path, bool>, log: seq<Path>)

  /** `LoadDir`: a directory without ignore lines inserts nothing. */
  function Load(w: World, s: Knowledge, dir: Path): Knowledge {
    var lines := w.ignoreLines(dir);
    Knowledge(if lines == [] then s.loaded else s.loaded[dir := lines], s.seen, s.log + [dir])
  }

  /** A new lister: it loads the root's ignore file, if ignore files count. */
  function Fresh(w: World, p: Option<Policy>): Knowledge {
    if Ignoring(p) then Load(w, Knowledge(map[], map[], []), []) else Knowledge(map[], map[], [])
  }

  /** `IgnoreSet.Match`. */
  predicate MatchLoaded(w: World, s: Knowledge, rel: Path, isDir: bool) {
    rel != [] && w.ignores(s.loaded, rel, isDir)
  }

  /** Decides one directory, from the cache or from what is loaded. */
  function Decide(w: World, s: Knowledge, dir: Path): (Knowledge, bool) {
    if dir in s.seen then (s, s.seen[dir])
    else
      var ignored := MatchLoaded(w, s, dir, true);
      var s' := if ignored then s else Load(w, s, dir);
      (s'.(seen := s'.seen[dir := ignored]), ignored)
  }

  /** Decides the directories above `rel`, from depth `k` on, until one is ignored. */
  function DecideAbove(w: World, s: Knowledge, rel: Path, k: nat): (Knowledge, bool)
    requires 0 < k
    decreases |rel| - k
  {
    if k >= |rel| then (s, false)
    else
      var (s', ignored) := Decide(w, s, rel[..k]);
      if ignored then (s', true) else DecideAbove(w, s', rel, k + 1)
  }

  /** One `Listed` query: what the lister is afterwards, and its answer. */
  function Query(w: World, p: Option<Policy>, s: Knowledge, rel: Path, isDir: bool): (Knowledge, bool) {
    if !Check(w, p, rel, isDir).Allowed? then (s, false)
    else if !Ignoring(p) then (s, true)
    else
      var (s', ignored) := DecideAbove(w, s, rel, 1);
      (s', !ignored && !MatchLoaded(w, s', rel, isDir))
  }

  class Lister {
    const w: World
    const p: Option<Policy>
    var loaded: map<Path, seq<string>>
    var seen: map<Path, bool>
    ghost var log: seq<Path>

    ghost function Known(): Knowledge
      reads this
    {
      Knowledge(loaded, seen, log)
    }

    /** `Policy.Lister`, with the loading of the root's ignore file by a new ignore set. */
    constructor (w: World, p: Option<Policy>)
      ensures this.w == w && this.p == p && Known() == Fresh(w, p)
    {
      this.w := w;
      this.p := p;
      loaded, seen, log := map[], map[], [];
      new;
      if Ignoring(p) {
        EnsureNode([]);
      }
    }

    /** `LoadDir`. */
    method EnsureNode(dir: Path)
      modifies this`loaded, this`log
      ensures Known() == Load(w, old(Known()), dir)
    {
      var lines := w.ignoreLines(dir);
      if |lines| != 0 {
        loaded := loaded[dir := lines];
      }
      log := log + [dir];
    }

    /** `Lister.Listed`, one critical section. */
    method Listed(rel: Path, isDir: bool) returns (listed: bool)
      modifies this
      ensures (Known(), listed) == Query(w, p, old(Known()), rel, isDir)
    {
      if !Check(w, p, rel, isDir).Allowed? {
        return false;
      }
      if !Ignoring(p) {
        return true;
      }
      var k := 1;
      while k < |rel|
        invariant 0 < k
        invariant DecideAbove(w, old(Known()), rel, 1) == DecideAbove(w, Known(), rel, k)
      {
        var dir := rel[..k];
        var ignored: bool;
        if dir in seen {
          ignored := seen[dir];
        } else {
          ignored := dir != [] && w.ignores(loaded, dir, true);
          if !ignored {
            EnsureNode(dir);
          }
          seen := seen[dir := ignored];
        }
        if ignored {
          return false;
        }
        k := k + 1;
      }
      return !(rel != [] && w.ignores(loaded, rel, isDir));
    }
  }
}
