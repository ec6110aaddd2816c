/** What the file tools promise: exact replacements, hashes that guard every write, previews that tell
    the truth, writes that can be read back. */
module FilesProofs {
  import opened Bytes
  import opened Wrappers
  import opened Visibility
  import opened Replace
  import opened ScanProofs
  import opened Files

  predicate HexDigit(c: char) { '0' <= c <= '9' || 'a' <= c <= 'f' }

  /** What is taken for granted of SHA-256 in hex: 64 lower-case hex digits, for every input. */
  ghost predicate HexHash(sha: seq<Byte> -> string) {
    forall x :: |sha(x)| == 64 && forall k :: 0 <= k < 64 ==> HexDigit(sha(x)[k])
  }

  /** No two of these contents have the same hash. No hash can promise this of all contents. */
  ghost predicate CollisionFree(sha: seq<Byte> -> string, contents: set<seq<Byte>>) {
    forall x, y :: x in contents && y in contents && sha(x) == sha(y) ==> x == y
  }

  function Digit(n: nat): (c: char)
    requires n < 16
    ensures HexDigit(c)
  {
    "0123456789abcdef"[n]
  }

  /** A hash of this shape: two digits for each of at most 31 bytes, zeros, and the length. */
  function ShortDigit(x: seq<Byte>, i: nat): (c: char)
    ensures HexDigit(c)
  {
    if |x| > 31 then '0'
    else if i < 2 * |x| then Digit(if i % 2 == 0 then x[i / 2] as int / 16 else x[i / 2] as int % 16)
    else if i == 62 then Digit(|x| / 16)
    else if i == 63 then Digit(|x| % 16)
    else '0'
  }

  function ShortHash(x: seq<Byte>): string { seq(64, i requires 0 <= i < 64 => ShortDigit(x, i)) }

  /** Both can be had at once: this hash keeps all contents of up to 31 bytes apart. */
  lemma HashingIsPossible(contents: set<seq<Byte>>)
    requires forall x :: x in contents ==> |x| <= 31
    ensures HexHash(ShortHash) && CollisionFree(ShortHash, contents)
  {
    forall x, y | x in contents && y in contents && ShortHash(x) == ShortHash(y) ensures x == y {
      ShortHashInjective(x, y);
    }
  }

  lemma DigitInjective(m: nat, n: nat)
    requires m < 16 && n < 16 && Digit(m) == Digit(n)
    ensures m == n
  {
  }

  lemma ShortHashInjective(x: seq<Byte>, y: seq<Byte>)
    requires |x| <= 31 && |y| <= 31 && ShortHash(x) == ShortHash(y)
    ensures x == y
  {
    hide Digit;
    assert ShortHash(x)[62] == ShortHash(y)[62] && ShortHash(x)[63] == ShortHash(y)[63];
    DigitInjective(|x| / 16, |y| / 16);
    DigitInjective(|x| % 16, |y| % 16);
    forall k | 0 <= k < |x| ensures x[k] == y[k] {
      assert ShortHash(x)[2 * k] == ShortHash(y)[2 * k] && ShortHash(x)[2 * k + 1] == ShortHash(y)[2 * k + 1];
      DigitInjective(x[k] as int / 16, y[k] as int / 16);
      DigitInjective(x[k] as int % 16, y[k] as int % 16);
    }
  }

  predicate IsFile(st: Store, path: Option<Path>) { path.Some? && path.value in st && st[path.value].File? }

  // ----- counted replacement

  /** A replacement that succeeds cuts the file at the leftmost non-overlapping occurrences, as many as
      were expected, one by default, and puts the new text in their place; otherwise, or as a dry run, it
      changes nothing. Either way the hash is that of the result. When the number is not as expected, the
      number found is reported. */
  lemma ReplaceExact(cfg: Config, st: Store, a: ReplaceArgs)
    ensures var (st', r) := ReplaceIn(cfg, st, a);
      && (r.Err? || a.dryRun ==> st' == st)
      && (r.Ok? ==>
            && IsFile(st, a.path) && a.oldStr.Some? && a.oldStr.value != [] && a.newStr.Some?
            && var cur, anchor, text := st[a.path.value].content, a.oldStr.value, a.newStr.value;
               var ps := Pieces(cur, anchor);
               var next := Join(ps, text);
               && Join(ps, anchor) == cur && Leftmost(ps, anchor)
               && r.value.replacements == |ps| - 1 == Expected(a) == (if a.expected.Some? then a.expected.value else 1)
               && |next| == |cur| + Expected(a) * (|text| - |anchor|)
               && r.value.sha == cfg.sha(next) && r.value.dryRun == a.dryRun
               && (!a.dryRun ==> st' == st[a.path.value := File(next)]))
      && (r.Err? && r.error.MatchCountMismatch? ==>
            && IsFile(st, a.path) && a.oldStr.Some? && a.oldStr.value != []
            && r.error.found == |Pieces(st[a.path.value].content, a.oldStr.value)| - 1 != Expected(a))
  {
    hide Leftmost, Pieces, Join;
    if ReplaceIn(cfg, st, a).1.Ok? {
      var cur, anchor := st[a.path.value].content, a.oldStr.value;
      PiecesRejoin(cur, anchor);
      PiecesAreLeftmost(cur, anchor);
      ReplacedSize(cur, anchor, a.newStr.value);
    }
  }

  /** Preview and real call answer alike: the same error, or the same counts and hash. */
  predicate SameWrite(dry: Result<Written, ToolError>, done: Result<Written, ToolError>) {
    if dry.Err? || done.Err? then dry.Err? && done.Err? && dry.error == done.error
    else dry.value.size == done.value.size && dry.value.sha == done.value.sha
  }

  predicate SameReplace(dry: Result<ReplaceDone, ToolError>, done: Result<ReplaceDone, ToolError>) {
    if dry.Err? || done.Err? then dry.Err? && done.Err? && dry.error == done.error
    else dry.value.replacements == done.value.replacements && dry.value.sha == done.value.sha
  }

  /** A replacement's preview is right if and only if the call is refused anyway or the workspace can
      be written: the preview does not ask. */
  lemma ReplacePreviewExactly(cfg: Config, st: Store, a: ReplaceArgs)
    ensures SameReplace(ReplaceIn(cfg, st, a.(dryRun := true)).1, ReplaceIn(cfg, st, a.(dryRun := false)).1)
            <==> ReplaceRefused(cfg, st, a).Some? || Writable(cfg)
  {
  }

  /** An overwrite's preview also reads the file, so it refuses a file beyond the limit that an
      unguarded overwrite accepts. */
  lemma OverwritePreviewExactly(cfg: Config, st: Store, a: OverwriteArgs)
    requires !a.dryRun
    ensures SameWrite(Overwrite(cfg, st, a.(dryRun := true)).1, Overwrite(cfg, st, a).1)
            <==> || OverwriteRefused(cfg, st, a).Some?
                 || (Writable(cfg) && (a.base != "" || |st[a.path.value].content| <= cfg.limit))
  {
  }

  /** An overwrite that succeeds found a file there, unchanged since its guard, and replaces all of it;
      otherwise, or as a dry run, it changes nothing. Either way the hash is that of the new contents. */
  lemma OverwriteExact(cfg: Config, st: Store, a: OverwriteArgs)
    ensures var (st', r) := Overwrite(cfg, st, a);
      && (r.Err? || a.dryRun ==> st' == st)
      && (r.Ok? ==>
            && IsFile(st, a.path) && a.contents.Some?
            && r.value == Written(|a.contents.value|, cfg.sha(a.contents.value), a.dryRun)
            && (a.base != "" ==> EqualFold(TrimSpace(a.base), cfg.sha(st[a.path.value].content)))
            && (a.base != "" || a.dryRun ==> |st[a.path.value].content| <= cfg.limit)
            && (!a.dryRun ==> st' == st[a.path.value := File(a.contents.value)]))
  {
  }

  // ----- read-only workspaces

  /** A tool refuses to write exactly when the workspace cannot be written, it was asked to write, and
      nothing that is looked at before stands in the way. */
  lemma CreateReadOnlyExactly(cfg: Config, st: Store, a: CreateArgs)
    ensures Create(cfg, st, a).1 == Err(ReadOnly) <==> !Writable(cfg) && a.path.Some? && a.contents.Some?
    ensures !Writable(cfg) ==> Create(cfg, st, a).0 == st
  {
    hide BehindFile, Added;
    DeniedIsNotReadOnly(cfg, a.path);
  }

  lemma OverwriteReadOnlyExactly(cfg: Config, st: Store, a: OverwriteArgs)
    ensures Overwrite(cfg, st, a).1 == Err(ReadOnly)
            <==> && !Writable(cfg) && !a.dryRun && a.contents.Some? && IsFile(st, a.path)
                 && Require(cfg, a.path.value, true).None? && Require(cfg, a.path.value, false).None?
                 && var current := st[a.path.value].content;
                    a.base == "" || (|current| <= cfg.limit && CheckBase(cfg, a.base, current).None?)
    ensures !Writable(cfg) ==> Overwrite(cfg, st, a).0 == st
  {
    hide EqualFold, TrimSpace, BehindFile;
    DeniedIsNotReadOnly(cfg, a.path);
  }

  lemma ReplaceReadOnlyExactly(cfg: Config, st: Store, a: ReplaceArgs)
    ensures ReplaceIn(cfg, st, a).1 == Err(ReadOnly)
            <==> && !Writable(cfg) && !a.dryRun && a.oldStr.Some? && a.oldStr.value != [] && a.newStr.Some?
                 && Expected(a) >= 1 && IsFile(st, a.path) && Require(cfg, a.path.value, false).None?
                 && var current := st[a.path.value].content;
                    && |current| <= cfg.limit && CheckBase(cfg, a.base, current).None?
                    && CountOf(current, a.oldStr.value) == Expected(a)
    ensures !Writable(cfg) ==> ReplaceIn(cfg, st, a).0 == st
  {
    hide EqualFold, TrimSpace, BehindFile, CountOf, Replaced;
    DeniedIsNotReadOnly(cfg, a.path);
  }

  lemma DeniedIsNotReadOnly(cfg: Config, path: Option<Path>)
    ensures path.Some? ==> forall isDir ::
      Require(cfg, path.value, isDir).Some? ==> Require(cfg, path.value, isDir).value.PolicyDenied?
  {
  }

  /** Calls on a read-only workspace that are answered otherwise: a missing file, a wrong count and a
      dry run. */
  lemma OtherAnswers(cfg: Config, st: Store, missing: OverwriteArgs, wrong: ReplaceArgs, dry: OverwriteArgs)
    requires cfg.policy == Some(NewPolicy([], [], false, true)) && cfg.limit > 0
    requires forall k :: 0 <= k < |ALWAYS_BLOCKED| ==>
               !cfg.w.glob(ALWAYS_BLOCKED[k], ["a"]) && !cfg.w.glob(ALWAYS_BLOCKED[k], ["b"])
    requires st == map[[] := Folder, ["a"] := File([120])]
    requires missing == OverwriteArgs(Some(["b"]), Some([121]), "", false)
    requires wrong == ReplaceArgs(Some(["a"]), Some([120]), Some([121]), Some(2), "", false)
    requires dry == OverwriteArgs(Some(["a"]), Some([121]), "", true)
    ensures !Writable(cfg)
    ensures Overwrite(cfg, st, missing).1 == Err(NotFound)
    ensures ReplaceIn(cfg, st, wrong).1 == Err(MatchCountMismatch(1))
    ensures Overwrite(cfg, st, dry).1 == Ok(Written(1, cfg.sha([121]), true))
  {
  }

  // ----- access and reading

  /** A path that no file may be read under is refused by policy whether or not something is there,
      unless that is a folder that may be listed; and the reason tells nothing about it, except that a
      path that goes on behind a file counts as an escape. */
  lemma DeniedEitherWay(cfg: Config, st: Store, q: Path)
    requires q != [] && Require(cfg, q, false).Some?
    ensures q in st && st[q].Folder? && Require(cfg, q, true).None?
            <==> Stat(cfg, st, q).Ok?
    ensures Stat(cfg, st, q).Err? ==> Stat(cfg, st, q).error.PolicyDenied?
    ensures Stat(cfg, st, q).Err? ==>
      (Stat(cfg, st, q).error == Require(cfg, q, false).value
       <==> Require(cfg, q, true).Some? || q in st || !BehindFile(st, q))
  {
  }

  /** What an unranged read returns is the beginning of the file, within every limit that applies, and
      it is called truncated exactly when something is missing. */
  lemma ReadReturnsPrefix(cfg: Config, st: Store, a: ReadArgs)
    requires Read(cfg, st, a).Ok? && !Ranged(a)
    ensures IsFile(st, a.path)
    ensures Read(cfg, st, a).value.binary && !a.allowBinary ==> Read(cfg, st, a).value.content == []
    ensures var content, r := st[a.path.value].content, Read(cfg, st, a).value;
      !r.binary || a.allowBinary ==>
        && r.content <= content && (r.truncated <==> r.content != content)
        && |r.content| <= cfg.limit && (a.maxBytes > 0 ==> |r.content| <= a.maxBytes)
        && (r.truncated ==> |r.content| == cfg.limit || |r.content| == a.maxBytes)
  {
    hide Binary;
    var content, r := st[a.path.value].content, Read(cfg, st, a).value;
    var data := Head(content, ScanLimit(cfg, a));
    assert data == content[..|data|];
    assert |r.content| == |content| && r.content <= content ==> r.content == content;
  }

  /** A range is refused exactly when it starts or ends before line one or ends before it starts, on a file
      that may be read. */
  lemma InvalidRangeExactly(cfg: Config, st: Store, a: ReadArgs)
    ensures Read(cfg, st, a) == Err(InvalidRange) <==>
      && IsFile(st, a.path) && Stat(cfg, st, a.path.value).Ok?
      && (|| (a.startLine.Some? && a.startLine.value <= 0)
          || (a.endLine.Some? && a.endLine.value <= 0)
          || (a.startLine.Some? && a.endLine.Some? && a.endLine.value < a.startLine.value))
  {
    hide BehindFile;
  }

  /** A read is called binary exactly when one of the first 8000 bytes is zero, as far as it reads, and
      returns the bytes of a binary file only when it is asked to. */
  lemma BinaryReadExactly(cfg: Config, st: Store, a: ReadArgs)
    requires Read(cfg, st, a).Ok?
    ensures IsFile(st, a.path)
    ensures var content, r := st[a.path.value].content, Read(cfg, st, a).value;
      && (r.binary <==> exists i :: 0 <= i < |content| && i < 8000 && i < cfg.limit && content[i] == 0
                                    && (!Ranged(a) && a.maxBytes > 0 ==> i < a.maxBytes))
      && (r.base64 <==> r.binary && a.allowBinary)
      && (r.binary && !a.allowBinary ==> r.content == [])
  {
    hide Binary, TextLines, SpanOf;
    var content := st[a.path.value].content;
    var data := Head(content, ScanLimit(cfg, a));
    BinaryExactly(data);
    assert forall i :: 0 <= i < |data| ==> data[i] == content[i];
  }

  /** A ranged read of a text returns the lines from the first to the last one asked for, as far as the file
      has them, joined by newlines and cut at `maxBytes`, and says which lines it looked at. */
  lemma RangedReadExactly(cfg: Config, st: Store, a: ReadArgs)
    requires Read(cfg, st, a).Ok? && Ranged(a) && !Read(cfg, st, a).value.binary
    ensures IsFile(st, a.path)
    ensures var content, r := st[a.path.value].content, Read(cfg, st, a).value;
      var lines := TextLines(Head(content, cfg.limit));
      var span := if r.startLine <= r.endLine then Join(lines[r.startLine - 1..r.endLine], [NL]) else [];
      && r.totalLines == |lines|
      && r.startLine == (if a.startLine.Some? then a.startLine.value else 1)
      && r.endLine == (if a.endLine.Some? && a.endLine.value <= |lines| then a.endLine.value else |lines|)
      && r.content <= span
      && |r.content| == (if a.maxBytes > 0 && |span| > a.maxBytes then a.maxBytes else |span|)
      && (r.truncated <==> |content| > cfg.limit || r.content != span)
  {
    hide Binary, TextLines, Join;
  }

  // ----- hashes

  lemma NoSpaceToTrim(s: string)
    requires forall k :: 0 <= k < |s| ==> !Space(s[k])
    ensures TrimSpace(s) == s
  {
  }

  /** A guard taken from a hash lets a call pass exactly when the file has that hash, so, unless these
      two contents collide, exactly when it is still what was hashed. */
  lemma GuardExactly(cfg: Config, basis: seq<Byte>, current: seq<Byte>)
    requires HexHash(cfg.sha)
    ensures CheckBase(cfg, cfg.sha(basis), current).None? <==> cfg.sha(basis) == cfg.sha(current)
    ensures CollisionFree(cfg.sha, {basis, current}) ==>
      (CheckBase(cfg, cfg.sha(basis), current).None? <==> basis == current)
  {
    var base, hex := cfg.sha(basis), cfg.sha(current);
    forall k | 0 <= k < 64 ensures Lower(base[k]) == base[k] && !Space(base[k]) {
      assert HexDigit(base[k]);
    }
    NoSpaceToTrim(base);
    if EqualFold(base, hex) {
      assert forall k :: 0 <= k < 64 ==> base[k] == hex[k];
      assert base == hex;
    }
  }

  /** A capital or small hex digit, against a small one. */
  predicate SameDigit(c: char, digit: char) {
    c == digit || ('a' <= digit <= 'f' && 'A' <= c <= 'F' && c as int + 32 == digit as int)
  }

  lemma {:induction false} TrimmedLeft(left: string, text: string)
    requires (forall k :: 0 <= k < |left| ==> Space(left[k])) && text != [] && !Space(text[0])
    ensures TrimLeft(left + text) == text
  {
    if left == [] {
      assert left + text == text;
    } else {
      assert (left + text)[1..] == left[1..] + text;
      TrimmedLeft(left[1..], text);
    }
  }

  lemma {:induction false} TrimmedAround(left: string, text: string, right: string)
    requires forall k :: 0 <= k < |left| ==> Space(left[k])
    requires forall k :: 0 <= k < |right| ==> Space(right[k])
    requires text != [] && !Space(text[0]) && !Space(text[|text| - 1])
    ensures TrimSpace(left + text + right) == text
    decreases |right|
  {
    hide Space, TrimLeft;
    var s := left + text + right;
    if right == [] {
      assert s == left + text && s[|s| - 1] == text[|text| - 1];
      TrimmedLeft(left, text);
    } else {
      var n := |right| - 1;
      assert s[|s| - 1] == right[n] && s[..|s| - 1] == left + text + right[..n];
      TrimmedAround(left, text, right[..n]);
    }
  }

  /** A guard may be written in capital or small hex digits, in any mix, with any space around it; anything
      else is refused, and the error tells the current hash. */
  lemma GuardForgives(cfg: Config, left: string, text: string, right: string, current: seq<Byte>)
    requires HexHash(cfg.sha)
    requires forall k :: 0 <= k < |left| ==> Space(left[k])
    requires forall k :: 0 <= k < |right| ==> Space(right[k])
    requires text != [] && !Space(text[0]) && !Space(text[|text| - 1])
    ensures var hex, refused := cfg.sha(current), CheckBase(cfg, left + text + right, current);
      && (refused.None? <==> |text| == 64 && forall k :: 0 <= k < 64 ==> SameDigit(text[k], hex[k]))
      && (refused.Some? ==> refused == Some(BaseShaMismatch(hex)))
  {
    hide Space, TrimSpace;
    var hex := cfg.sha(current);
    TrimmedAround(left, text, right);
    forall k | 0 <= k < 64 && k < |text| ensures Lower(text[k]) == hex[k] <==> SameDigit(text[k], hex[k]) {
      assert HexDigit(hex[k]);
    }
  }

  /** Whatever range or cap is asked for, a read reports the hash of the whole file, or nothing exactly
      when the file is beyond the read limit. */
  lemma ReadReportsFullHash(cfg: Config, st: Store, a: ReadArgs)
    requires HexHash(cfg.sha) && Read(cfg, st, a).Ok?
    ensures IsFile(st, a.path)
    ensures var content, sha := st[a.path.value].content, Read(cfg, st, a).value.sha;
      && (sha != "" <==> |content| <= cfg.limit)
      && (sha != "" ==> sha == cfg.sha(content))
  {
    hide TextLines, Binary, SpanOf, Capped;
    assert |cfg.sha(st[a.path.value].content)| == 64;
  }

  // ----- runs of guarded edits

  /** A tool call, or a change to the tree from outside. */
  datatype Call =
    | CallCreate(create: CreateArgs)
    | CallOverwrite(overwrite: OverwriteArgs)
    | CallReplace(replace: ReplaceArgs)
    | CallRead(read: ReadArgs)
    | Outside(files: Store)

  /** The hash a client holds for a path, and the contents that it stood for. */
  datatype Held = Held(sha: string, content: seq<Byte>)

  /** A write that went through: what the file held just before, and what the client had seen. */
  datatype Edit = Edit(path: Path, before: seq<Byte>, seen: seq<Byte>)

  datatype Session = Session(files: Store, held: map<Path, Held>, edits: seq<Edit>)

  predicate Holds(s: Session, path: Option<Path>, base: string) {
    path.Some? ==> path.value in s.held && base == s.held[path.value].sha
  }

  /** Every overwrite and replacement carries the last hash that the client got for the path. */
  predicate Guarded(s: Session, call: Call) {
    match call
    case CallOverwrite(a) => Holds(s, a.path, a.base)
    case CallReplace(a) => Holds(s, a.path, a.base)
    case _ => true
  }

  function Hold(s: Session, path: Path, sha: string, files: Store): Session {
    if path in files && files[path].File? then
      s.(files := files, held := s.held[path := Held(sha, files[path].content)])
    else s.(files := files)
  }

  function Note(s: Session, path: Path): Session {
    if path in s.files && s.files[path].File? && path in s.held then
      s.(edits := s.edits + [Edit(path, s.files[path].content, s.held[path].content)])
    else s
  }

  /** One step: clients hold the hashes of successful reads, if not empty, and of their own writes. */
  function Step(cfg: Config, s: Session, call: Call): Session {
    match call
    case CallCreate(a) =>
      var (files, r) := Create(cfg, s.files, a);
      if r.Ok? then Hold(s, a.path.value, r.value.sha, files) else s.(files := files)
    case CallOverwrite(a) =>
      var (files, r) := Overwrite(cfg, s.files, a);
      if r.Ok? && !a.dryRun then Hold(Note(s, a.path.value), a.path.value, r.value.sha, files) else s.(files := files)
    case CallReplace(a) =>
      var (files, r) := ReplaceIn(cfg, s.files, a);
      if r.Ok? && !a.dryRun then Hold(Note(s, a.path.value), a.path.value, r.value.sha, files) else s.(files := files)
    case CallRead(a) =>
      var r := Read(cfg, s.files, a);
      if r.Ok? && r.value.sha != "" then Hold(s, a.path.value, r.value.sha, s.files) else s
    case Outside(files) => s.(files := files)
  }

  function Run(cfg: Config, s: Session, calls: seq<Call>): Session
    decreases |calls|
  {
    if calls == [] then s else Run(cfg, Step(cfg, s, calls[0]), calls[1..])
  }

  predicate GuardedRun(cfg: Config, s: Session, calls: seq<Call>)
    decreases |calls|
  {
    calls == [] || (Guarded(s, calls[0]) && GuardedRun(cfg, Step(cfg, s, calls[0]), calls[1..]))
  }

  ghost predicate Faithful(cfg: Config, s: Session) {
    && (forall q :: q in s.held ==> s.held[q].sha == cfg.sha(s.held[q].content))
    && (forall i :: 0 <= i < |s.edits| ==> cfg.sha(s.edits[i].before) == cfg.sha(s.edits[i].seen))
  }

  lemma OverwriteGuarded(cfg: Config, s: Session, a: OverwriteArgs)
    requires HexHash(cfg.sha) && Faithful(cfg, s) && Holds(s, a.path, a.base)
    requires Overwrite(cfg, s.files, a).1.Ok?
    ensures IsFile(s.files, a.path) && a.path.value in s.held
    ensures cfg.sha(s.files[a.path.value].content) == cfg.sha(s.held[a.path.value].content)
    ensures !a.dryRun ==> Overwrite(cfg, s.files, a).0 == s.files[a.path.value := File(a.contents.value)]
    ensures Overwrite(cfg, s.files, a).1.value.sha == cfg.sha(a.contents.value)
  {
    hide CheckBase;
    assert |cfg.sha(s.held[a.path.value].content)| == 64;
    GuardExactly(cfg, s.held[a.path.value].content, s.files[a.path.value].content);
  }

  lemma ReplaceGuarded(cfg: Config, s: Session, a: ReplaceArgs)
    requires HexHash(cfg.sha) && Faithful(cfg, s) && Holds(s, a.path, a.base)
    requires ReplaceIn(cfg, s.files, a).1.Ok?
    ensures IsFile(s.files, a.path) && a.path.value in s.held && a.oldStr.Some? && a.oldStr.value != [] && a.newStr.Some?
    ensures cfg.sha(s.files[a.path.value].content) == cfg.sha(s.held[a.path.value].content)
    ensures var next := Replaced(s.files[a.path.value].content, a.oldStr.value, a.newStr.value);
      && (!a.dryRun ==> ReplaceIn(cfg, s.files, a).0 == s.files[a.path.value := File(next)])
      && ReplaceIn(cfg, s.files, a).1.value.sha == cfg.sha(next)
  {
    hide CheckBase, CountOf, Replaced;
    GuardExactly(cfg, s.held[a.path.value].content, s.files[a.path.value].content);
  }

  /** The call changes a file that was there. */
  predicate WritesOver(cfg: Config, s: Session, call: Call) {
    match call
    case CallOverwrite(a) => Overwrite(cfg, s.files, a).1.Ok? && !a.dryRun
    case CallReplace(a) => ReplaceIn(cfg, s.files, a).1.Ok? && !a.dryRun
    case _ => false
  }

  /** A guarded step keeps the held hashes faithful, and no write goes unrecorded. */
  lemma StepFaithful(cfg: Config, s: Session, call: Call)
    requires HexHash(cfg.sha) && Faithful(cfg, s) && Guarded(s, call)
    ensures Faithful(cfg, Step(cfg, s, call))
    ensures |Step(cfg, s, call).edits| == |s.edits| + (if WritesOver(cfg, s, call) then 1 else 0)
  {
    hide HexHash, Overwrite, ReplaceIn, Read;
    match call
    case CallCreate(a) =>
    case CallOverwrite(a) =>
      if Overwrite(cfg, s.files, a).1.Ok? {
        OverwriteGuarded(cfg, s, a);
      }
    case CallReplace(a) =>
      if ReplaceIn(cfg, s.files, a).1.Ok? {
        ReplaceGuarded(cfg, s, a);
      }
    case CallRead(a) =>
      if Read(cfg, s.files, a).Ok? {
        ReadReportsFullHash(cfg, s.files, a);
      }
    case Outside(_) =>
  }

  /** How many calls of a run change a file that was there. */
  function Writes(cfg: Config, s: Session, calls: seq<Call>): nat
    decreases |calls|
  {
    if calls == [] then 0
    else (if WritesOver(cfg, s, calls[0]) then 1 else 0) + Writes(cfg, Step(cfg, s, calls[0]), calls[1..])
  }

  /** In every run of tool calls and outside changes in which each overwrite and replacement is guarded
      by the last hash its client holds for the path, every write that goes through found contents with
      the hash of what its client had seen. */
  lemma {:induction false} NoLostUpdates(cfg: Config, s: Session, calls: seq<Call>)
    requires HexHash(cfg.sha) && Faithful(cfg, s) && GuardedRun(cfg, s, calls)
    ensures Faithful(cfg, Run(cfg, s, calls))
    ensures |Run(cfg, s, calls).edits| == |s.edits| + Writes(cfg, s, calls)
    decreases |calls|
  {
    hide HexHash, Faithful, Step, Guarded, WritesOver;
    if calls != [] {
      StepFaithful(cfg, s, calls[0]);
      NoLostUpdates(cfg, Step(cfg, s, calls[0]), calls[1..]);
    }
  }

  /** The contents that a run's writes found, and those that their clients had seen. */
  function Compared(edits: seq<Edit>): set<seq<Byte>> {
    (set e | e in edits :: e.before) + (set e | e in edits :: e.seen)
  }

  /** In every such session, on any tree: every write is recorded, and either all of them were computed
      from the contents immediately before them, or the run has come across a collision. */
  lemma SessionHasNoLostUpdates(cfg: Config, files: Store, calls: seq<Call>)
    requires HexHash(cfg.sha) && GuardedRun(cfg, Session(files, map[], []), calls)
    ensures var edits := Run(cfg, Session(files, map[], []), calls).edits;
      && |edits| == Writes(cfg, Session(files, map[], []), calls)
      && (forall e :: e in edits ==> cfg.sha(e.before) == cfg.sha(e.seen))
      && (CollisionFree(cfg.sha, Compared(edits)) ==> forall e :: e in edits ==> e.before == e.seen)
  {
    hide Run, GuardedRun, Writes;
    NoLostUpdates(cfg, Session(files, map[], []), calls);
    var edits := Run(cfg, Session(files, map[], []), calls).edits;
    forall e | e in edits ensures cfg.sha(e.before) == cfg.sha(e.seen) && {e.before, e.seen} <= Compared(edits) {
      var i :| 0 <= i < |edits| && edits[i] == e;
    }
  }

  /** A guarded replacement of a readable file is refused for a changed file exactly when its hash did
      change: unless the two contents collide, exactly when it did. */
  lemma GuardedReplaceRefusedExactly(cfg: Config, s: Session, a: ReplaceArgs)
    requires HexHash(cfg.sha) && Faithful(cfg, s) && Holds(s, a.path, a.base) && a.path.Some?
    requires a.oldStr.Some? && a.oldStr.value != [] && a.newStr.Some? && Expected(a) >= 1
    requires ReadForHash(cfg, s.files, a.path.value).Ok?
    ensures var current, seen := s.files[a.path.value].content, s.held[a.path.value].content;
      var r := ReplaceIn(cfg, s.files, a).1;
      && (r.Err? && r.error.BaseShaMismatch? <==> cfg.sha(current) != cfg.sha(seen))
      && (CollisionFree(cfg.sha, {current, seen}) ==> (r.Err? && r.error.BaseShaMismatch? <==> current != seen))
  {
  }

  // ----- the tree, and reading back

  /** The root is a folder, and everything else stands in one. */
  predicate WellFormed(st: Store) {
    && [] in st && st[[]].Folder?
    && forall p :: p in st && p != [] ==> p[..|p| - 1] in st && st[p[..|p| - 1]].Folder?
  }

  /** Creating only adds: the file, and folders on the way to it. Nothing that was there changes. */
  lemma CreateOnlyAdds(cfg: Config, st: Store, a: CreateArgs)
    requires WellFormed(st)
    ensures var (st', r) := Create(cfg, st, a);
      && WellFormed(st') && (forall p :: p in st ==> p in st' && st'[p] == st[p])
      && (r.Err? ==> st' == st)
      && (r.Ok? ==>
            && a.path.Some? && a.contents.Some? && a.path.value !in st
            && st'.Keys == st.Keys + Ancestors(a.path.value) + {a.path.value}
            && st'[a.path.value] == File(a.contents.value))
  {
    hide WellFormed, BehindFile, Ancestors;
    if Create(cfg, st, a).1.Ok? {
      AddedKeeps(st, a.path.value, a.contents.value);
      AddedWellFormed(st, a.path.value, a.contents.value);
    }
  }

  /** A file is created if and only if the workspace can be written, the path may be accessed, and nothing
      is in its place or in its way; what is there is reported, and what was written. */
  lemma CreateExactly(cfg: Config, st: Store, a: CreateArgs)
    ensures var r := Create(cfg, st, a).1;
      && (r.Ok? <==>
            && a.path.Some? && a.contents.Some? && Writable(cfg) && Require(cfg, a.path.value, false).None?
            && !BehindFile(st, a.path.value) && a.path.value !in st)
      && (r.Ok? ==> r.value == Written(|a.contents.value|, cfg.sha(a.contents.value), false))
      && (r == Err(PathExists) <==>
            && a.path.Some? && a.contents.Some? && Writable(cfg) && Require(cfg, a.path.value, false).None?
            && !BehindFile(st, a.path.value) && a.path.value in st)
  {
    hide BehindFile, Added;
    DeniedIsNotReadOnly(cfg, a.path);
  }

  /** Nothing at a path that may be accessed: every tool reports it as not found, unless a file stands
      where the path needs a directory; then it counts as an escape. */
  lemma MissingErrors(cfg: Config, st: Store, q: Path, r: ReadArgs, o: OverwriteArgs, a: ReplaceArgs)
    requires q !in st && Require(cfg, q, true).None? && Require(cfg, q, false).None?
    requires r.path == o.path == a.path == Some(q) && o.contents.Some?
    requires a.oldStr.Some? && a.oldStr.value != [] && a.newStr.Some? && Expected(a) >= 1
    ensures var error := if exists k :: 0 <= k < |q| && q[..k] in st && st[q[..k]].File?
                         then PolicyDenied(OutsideRoot) else NotFound;
      && Read(cfg, st, r) == Err(error)
      && Overwrite(cfg, st, o) == (st, Err(error))
      && ReplaceIn(cfg, st, a) == (st, Err(error))
  {
  }

  /** Which malformed arguments are reported first: a replacement looks at its texts and count before its
      path, everything else at the path before the contents. */
  lemma ArgumentErrors(cfg: Config, st: Store, c: CreateArgs, o: OverwriteArgs, a: ReplaceArgs, r: ReadArgs)
    ensures Create(cfg, st, c).1 == Err(PolicyDenied(BadPath)) <==> c.path.None?
    ensures Create(cfg, st, c).1 == Err(InvalidArgs) <==> c.path.Some? && c.contents.None?
    ensures Overwrite(cfg, st, o).1 == Err(PolicyDenied(BadPath)) <==> o.path.None?
    ensures o.path.None? || o.contents.Some? ==> Overwrite(cfg, st, o).1 != Err(InvalidArgs)
    ensures o.path.Some? && o.contents.None? ==> Overwrite(cfg, st, o) == (st, Err(InvalidArgs))
    ensures ReplaceIn(cfg, st, a).1 == Err(InvalidArgs)
            <==> a.oldStr.None? || a.oldStr.value == [] || a.newStr.None? || Expected(a) < 1
    ensures ReplaceIn(cfg, st, a).1 == Err(PolicyDenied(BadPath))
            <==> a.path.None? && a.oldStr.Some? && a.oldStr.value != [] && a.newStr.Some? && Expected(a) >= 1
    ensures Read(cfg, st, r) == Err(PolicyDenied(BadPath)) <==> r.path.None?
  {
    hide BehindFile, Added, EqualFold, TrimSpace, CountOf, Replaced, ReadOf;
  }

  lemma AddedKeeps(st: Store, q: Path, content: seq<Byte>)
    requires !BehindFile(st, q) && q !in st
    ensures forall p :: p in st ==> p in Added(st, q, content) && Added(st, q, content)[p] == st[p]
    ensures Added(st, q, content).Keys == st.Keys + Ancestors(q) + {q}
  {
    forall p | p in Ancestors(q) ensures p in st ==> st[p].Folder? {
      var k :| 0 <= k < |q| && p == q[..k];
    }
  }

  lemma AddedWellFormed(st: Store, q: Path, content: seq<Byte>)
    requires WellFormed(st) && !BehindFile(st, q) && q !in st
    ensures WellFormed(Added(st, q, content))
  {
    hide Added;
    AddedKeeps(st, q, content);
    var st' := Added(st, q, content);
    forall p | p in Ancestors(q) ensures st'[p].Folder? {
      AncestorIsFolder(st, q, content, p);
    }
    forall p | p in st' && p != [] ensures p[..|p| - 1] in st' && st'[p[..|p| - 1]].Folder? {
      if p !in st {
        ParentIsAncestor(q, p);
      }
    }
  }

  lemma AncestorIsFolder(st: Store, q: Path, content: seq<Byte>, p: Path)
    requires !BehindFile(st, q) && p in Ancestors(q)
    ensures p in Added(st, q, content) && Added(st, q, content)[p].Folder?
  {
    var k :| 0 <= k < |q| && p == q[..k];
  }

  lemma ParentIsAncestor(q: Path, p: Path)
    requires p != [] && (p == q || p in Ancestors(q))
    ensures p[..|p| - 1] in Ancestors(q)
  {
    if p == q {
      assert q[..|q| - 1] in Ancestors(q);
    } else {
      var k :| 0 <= k < |q| && p == q[..k];
      assert p[..|p| - 1] == q[..k - 1];
    }
  }

  /** A file that was just created can be read back: the same hash, and the whole content when it is
      text within the limit. */
  lemma CreateThenRead(cfg: Config, st: Store, a: CreateArgs, allowBinary: bool)
    requires Create(cfg, st, a).1.Ok?
    ensures var (st', r) := Create(cfg, st, a);
      var back := Read(cfg, st', ReadArgs(a.path, 0, None, None, allowBinary));
      var content := a.contents.value;
      && back.Ok?
      && (|content| <= cfg.limit ==> back.value.sha == r.value.sha && !back.value.truncated)
      && (|content| <= cfg.limit && !Binary(content) ==> back.value.content == content)
  {
  }

  /** A folder in place of the file, for every call: reading and overwriting report it as not found
      exactly when it may be listed; a replacement never does. It opens the folder, which takes a
      file's access, and reports the read that fails as an escape from the root. */
  lemma FolderErrors(cfg: Config, st: Store, q: Path, r: ReadArgs, o: OverwriteArgs, a: ReplaceArgs)
    requires q in st && st[q].Folder? && r.path == o.path == a.path == Some(q)
    ensures Read(cfg, st, r) == Err(NotFound) <==> Require(cfg, q, true).None?
    ensures Overwrite(cfg, st, o).1 == Err(NotFound) <==> o.contents.Some? && Require(cfg, q, true).None?
    ensures ReplaceIn(cfg, st, a) == (st, Err(
      if a.oldStr.None? || a.oldStr.value == [] || a.newStr.None? || Expected(a) < 1 then InvalidArgs
      else if Require(cfg, q, false).Some? then Require(cfg, q, false).value
      else PolicyDenied(OutsideRoot)))
    ensures ReplaceIn(cfg, st, a).1 != Err(NotFound)
  {
  }

  /** Under an allow list that names only files in it, a folder may be listed, but a replacement on it
      is refused for not being allowed. */
  lemma AllowedFolderErrors(cfg: Config, st: Store, a: ReplaceArgs)
    requires cfg.policy == Some(NewPolicy(["src/*.go"], [], true, false)) && !cfg.w.glob("src/*.go", ["src"])
    requires forall k :: 0 <= k < |ALWAYS_BLOCKED| ==> !cfg.w.glob(ALWAYS_BLOCKED[k], ["src"])
    requires st == map[[] := Folder, ["src"] := Folder]
    requires a == ReplaceArgs(Some(["src"]), Some([120]), Some([121]), None, "", false)
    ensures Require(cfg, ["src"], true).None?
    ensures ReplaceIn(cfg, st, a) == (st, Err(PolicyDenied(ByPolicy(NotAllowlisted))))
  {
  }
}
