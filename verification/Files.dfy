/** The file tools of `mcp/write.go` and `mcp/tools.go` on one workspace. Each call is one atomic step
    on a tree of files. Hashing is a parameter. A path is what `Clean` made of the argument, or
    nothing when it refused it; decoded arguments are nothing when they could not be decoded. */
module Files {
  import opened Bytes
  import opened Wrappers
  import opened Visibility
  import opened Replace
  import opened ScanProofs

  datatype Entry = Folder | File(content: seq<Byte>)

  type Store = map<Path, Entry>

  datatype Refusal = BadPath | ByPolicy(reason: Reason) | OutsideRoot

  datatype ToolError =
    | PolicyDenied(why: Refusal) | NotFound | ReadOnly | PathExists | FileTooLarge
    | BaseShaMismatch(current: string) | MatchCountMismatch(found: nat) | InvalidArgs | InvalidRange

  /** The libraries and files behind decisions, the access rules, the read limit and the hash. */
  datatype Config = Config(w: World, policy: Option<Policy>, limit: nat, sha: seq<Byte> -> string)

  // ----- the workspace root

  predicate Writable(cfg: Config) { cfg.policy.Some? && cfg.policy.value.writes }

  function Require(cfg: Config, q: Path, isDir: bool): Option<ToolError> {
    match Check(cfg.w, cfg.policy, q, isDir)
    case Allowed => None
    case Denied(reason) => Some(PolicyDenied(ByPolicy(reason)))
  }

  /** A file stands where the path needs a directory. */
  predicate BehindFile(st: Store, q: Path) {
    exists k :: 0 <= k < |q| && q[..k] in st && st[q[..k]].File?
  }

  /** The system error for a path that is not there: through a file it is not "does not exist", and
      then it counts as an escape. */
  function Missing(st: Store, q: Path): ToolError {
    if BehindFile(st, q) then PolicyDenied(OutsideRoot) else NotFound
  }

  /** `Stat`: denied wins over missing. */
  function Stat(cfg: Config, st: Store, q: Path): Result<Entry, ToolError> {
    if Require(cfg, q, true).Some? then Err(Require(cfg, q, true).value)
    else if q !in st then
      if Missing(st, q).NotFound? && Require(cfg, q, false).Some? then Err(Require(cfg, q, false).value)
      else Err(Missing(st, q))
    else if st[q].File? && Require(cfg, q, false).Some? then Err(Require(cfg, q, false).value)
    else Ok(st[q])
  }

  /** `Open`, and `WriteExisting` on a writable workspace. */
  function Open(cfg: Config, st: Store, q: Path): Result<Entry, ToolError> {
    if Require(cfg, q, false).Some? then Err(Require(cfg, q, false).value)
    else if q !in st then Err(Missing(st, q))
    else Ok(st[q])
  }

  function Added(st: Store, q: Path, content: seq<Byte>): Store {
    (st + (map d | d in Ancestors(q) :: Folder))[q := File(content)]
  }

  /** `CreateNew` with the write: missing parents appear, an existing path is refused. */
  function CreateNew(cfg: Config, st: Store, q: Path, content: seq<Byte>): (Store, Option<ToolError>) {
    if !Writable(cfg) then (st, Some(ReadOnly))
    else if Require(cfg, q, false).Some? then (st, Require(cfg, q, false))
    else if BehindFile(st, q) then (st, Some(PolicyDenied(OutsideRoot)))
    else if q in st then (st, Some(PathExists))
    else (Added(st, q, content), None)
  }

  /** `WriteExisting` with the write. */
  function WriteExisting(cfg: Config, st: Store, q: Path, content: seq<Byte>): (Store, Option<ToolError>) {
    if !Writable(cfg) then (st, Some(ReadOnly))
    else
      match Open(cfg, st, q)
      case Err(e) => (st, Some(e))
      case Ok(Folder) => (st, Some(PolicyDenied(OutsideRoot)))
      case Ok(File(_)) => (st[q := File(content)], None)
  }

  // ----- guards

  function Lower(c: char): char {
    if 'A' <= c <= 'Z' then (c as int + 32) as char else c
  }

  predicate Space(c: char) {
    || '\t' <= c <= '\r' || c == ' ' || c == '\U{85}' || c == '\U{A0}' || c == '\U{1680}'
    || '\U{2000}' <= c <= '\U{200A}' || c in "\U{2028}\U{2029}\U{202F}\U{205F}\U{3000}"
  }

  function TrimLeft(s: string): string {
    if s != [] && Space(s[0]) then TrimLeft(s[1..]) else s
  }

  function TrimSpace(s: string): string {
    if s != [] && Space(s[|s| - 1]) then TrimSpace(s[..|s| - 1]) else TrimLeft(s)
  }

  /** `EqualFold` against lower-case hex digits: no letter outside ASCII folds to one of those. */
  predicate EqualFold(s: string, hex: string) {
    |s| == |hex| && forall k :: 0 <= k < |s| ==> Lower(s[k]) == hex[k]
  }

  /** `checkBaseSHA`. */
  function CheckBase(cfg: Config, base: string, current: seq<Byte>): Option<ToolError> {
    if base == "" || EqualFold(TrimSpace(base), cfg.sha(current)) then None
    else Some(BaseShaMismatch(cfg.sha(current)))
  }

  /** `readForHash`: the whole file, or an error; never a part of it. */
  function ReadForHash(cfg: Config, st: Store, q: Path): Result<seq<Byte>, ToolError> {
    match Open(cfg, st, q)
    case Err(e) => Err(e)
    case Ok(Folder) => Err(PolicyDenied(OutsideRoot))
    case Ok(File(content)) => if |content| > cfg.limit then Err(FileTooLarge) else Ok(content)
  }

  // ----- the calls and what they do

  datatype Written = Written(size: nat, sha: string, dryRun: bool)

  datatype ReplaceDone = ReplaceDone(replacements: nat, sha: string, dryRun: bool)

  datatype CreateArgs = CreateArgs(path: Option<Path>, contents: Option<seq<Byte>>)

  datatype OverwriteArgs = OverwriteArgs(path: Option<Path>, contents: Option<seq<Byte>>, base: string, dryRun: bool)

  datatype ReplaceArgs = ReplaceArgs(path: Option<Path>, oldStr: Option<seq<Byte>>, newStr: Option<seq<Byte>>,
                                     expected: Option<int>, base: string, dryRun: bool)

  function Create(cfg: Config, st: Store, a: CreateArgs): (Store, Result<Written, ToolError>) {
    if a.path.None? then (st, Err(PolicyDenied(BadPath)))
    else if a.contents.None? then (st, Err(InvalidArgs))
    else
      var (st', e) := CreateNew(cfg, st, a.path.value, a.contents.value);
      (st', if e.Some? then Err(e.value) else Ok(Written(|a.contents.value|, cfg.sha(a.contents.value), false)))
  }

  /** What stops an overwrite before it writes. */
  function OverwriteRefused(cfg: Config, st: Store, a: OverwriteArgs): Option<ToolError> {
    if a.path.None? then Some(PolicyDenied(BadPath))
    else if a.contents.None? then Some(InvalidArgs)
    else
      match Stat(cfg, st, a.path.value)
      case Err(e) => Some(e)
      case Ok(Folder) => Some(NotFound)
      case Ok(File(_)) =>
        if a.base == "" && !a.dryRun then None
        else
          match ReadForHash(cfg, st, a.path.value)
          case Err(e) => Some(e)
          case Ok(current) => CheckBase(cfg, a.base, current)
  }

  function Overwrite(cfg: Config, st: Store, a: OverwriteArgs): (Store, Result<Written, ToolError>) {
    var refused := OverwriteRefused(cfg, st, a);
    if refused.Some? then (st, Err(refused.value))
    else
      var contents := a.contents.value;
      var done := Written(|contents|, cfg.sha(contents), a.dryRun);
      if a.dryRun then (st, Ok(done))
      else
        var (st', e) := WriteExisting(cfg, st, a.path.value, contents);
        (st', if e.Some? then Err(e.value) else Ok(done))
  }

  function Expected(a: ReplaceArgs): int { if a.expected.None? then 1 else a.expected.value }

  /** What stops a replacement before it writes. */
  function ReplaceRefused(cfg: Config, st: Store, a: ReplaceArgs): Option<ToolError> {
    if a.oldStr.None? || a.oldStr.value == [] || a.newStr.None? || Expected(a) < 1 then Some(InvalidArgs)
    else if a.path.None? then Some(PolicyDenied(BadPath))
    else
      match ReadForHash(cfg, st, a.path.value)
      case Err(e) => Some(e)
      case Ok(current) =>
        var mismatch := CheckBase(cfg, a.base, current);
        if mismatch.Some? then mismatch
        else if CountOf(current, a.oldStr.value) != Expected(a) then
          Some(MatchCountMismatch(CountOf(current, a.oldStr.value)))
        else None
  }

  function ReplaceIn(cfg: Config, st: Store, a: ReplaceArgs): (Store, Result<ReplaceDone, ToolError>) {
    var refused := ReplaceRefused(cfg, st, a);
    if refused.Some? then (st, Err(refused.value))
    else
      var next := Replaced(st[a.path.value].content, a.oldStr.value, a.newStr.value);
      var done := ReplaceDone(Expected(a), cfg.sha(next), a.dryRun);
      if a.dryRun then (st, Ok(done))
      else
        var (st', e) := WriteExisting(cfg, st, a.path.value, next);
        (st', if e.Some? then Err(e.value) else Ok(done))
  }

  datatype ReadArgs = ReadArgs(path: Option<Path>, maxBytes: int, startLine: Option<int>, endLine: Option<int>,
                               allowBinary: bool)

  /** The content is raw: whether it travels in base64 is a flag here. */
  datatype ReadDone = ReadDone(content: seq<Byte>, truncated: bool, binary: bool, base64: bool,
                               startLine: int, endLine: int, totalLines: nat, sha: string)

  predicate Ranged(a: ReadArgs) { a.startLine.Some? || a.endLine.Some? }

  predicate BadRange(a: ReadArgs) {
    || (a.startLine.Some? && a.startLine.value < 1) || (a.endLine.Some? && a.endLine.value < 1)
    || (a.startLine.Some? && a.endLine.Some? && a.startLine.value > a.endLine.value)
  }

  function ScanLimit(cfg: Config, a: ReadArgs): nat {
    if !Ranged(a) && 0 < a.maxBytes < cfg.limit then a.maxBytes else cfg.limit
  }

  function Capped(s: seq<Byte>, maxBytes: int): seq<Byte> {
    if maxBytes > 0 && |s| > maxBytes then s[..maxBytes] else s
  }

  function SpanOf(lines: seq<seq<Byte>>, from: int, to: int): seq<Byte> {
    if 1 <= from <= to <= |lines| then Join(lines[from - 1..to], [NL]) else []
  }

  /** The hash of the whole file, whatever part of it is returned. */
  function FullHash(cfg: Config, content: seq<Byte>): string {
    if |content| > cfg.limit then "" else cfg.sha(content)
  }

  function ReadOf(cfg: Config, content: seq<Byte>, a: ReadArgs): ReadDone {
    var data := Head(content, ScanLimit(cfg, a));
    var cut := |content| > |data|;
    var sha := FullHash(cfg, content);
    if Binary(data) && !a.allowBinary then ReadDone([], cut, true, false, 0, 0, 0, sha)
    else if Binary(data) then
      var blob := Capped(data, a.maxBytes);
      ReadDone(blob, |content| > |blob|, true, true, 0, 0, 0, sha)
    else if !Ranged(a) then ReadDone(data, cut, false, false, 0, 0, 0, sha)
    else
      var lines := TextLines(data);
      var from := if a.startLine.Some? then a.startLine.value else 1;
      var to := if a.endLine.Some? && a.endLine.value <= |lines| then a.endLine.value else |lines|;
      var span := SpanOf(lines, from, to);
      var shown := Capped(span, a.maxBytes);
      ReadDone(shown, cut || |span| > |shown|, false, false, from, to, |lines|, sha)
  }

  function Read(cfg: Config, st: Store, a: ReadArgs): Result<ReadDone, ToolError> {
    if a.path.None? then Err(PolicyDenied(BadPath))
    else
      match Stat(cfg, st, a.path.value)
      case Err(e) => Err(e)
      case Ok(Folder) => Err(NotFound)
      case Ok(File(content)) => if BadRange(a) then Err(InvalidRange) else Ok(ReadOf(cfg, content, a))
  }

  // ----- the tools themselves

  class Server {
    const cfg: Config
    var files: Store

    constructor (cfg: Config, files: Store)
      ensures this.cfg == cfg && this.files == files
    {
      this.cfg := cfg;
      this.files := files;
    }

    /** `hashFileFull`: at most one byte past the limit is read. */
    method HashFileFull(content: seq<Byte>) returns (sha: string)
      ensures sha == FullHash(cfg, content)
    {
      var n := |Head(content, cfg.limit + 1)|;
      if n > cfg.limit {
        return "";
      }
      return cfg.sha(Head(content, cfg.limit + 1));
    }

    method FileCreate(a: CreateArgs) returns (r: Result<Written, ToolError>)
      modifies this
      ensures (files, r) == Create(cfg, old(files), a)
    {
      if a.path.None? {
        return Err(PolicyDenied(BadPath));
      }
      if a.contents.None? {
        return Err(InvalidArgs);
      }
      var (after, e) := CreateNew(cfg, files, a.path.value, a.contents.value);
      files := after;
      if e.Some? {
        return Err(e.value);
      }
      return Ok(Written(|a.contents.value|, cfg.sha(a.contents.value), false));
    }

    method FileOverwrite(a: OverwriteArgs) returns (r: Result<Written, ToolError>)
      modifies this
      ensures (files, r) == Overwrite(cfg, old(files), a)
    {
      if a.path.None? {
        return Err(PolicyDenied(BadPath));
      }
      if a.contents.None? {
        return Err(InvalidArgs);
      }
      var clean, contents := a.path.value, a.contents.value;
      var info := Stat(cfg, files, clean);
      if info.Err? {
        return Err(info.error);
      }
      if info.value.Folder? {
        return Err(NotFound);
      }
      if a.base != "" || a.dryRun {
        var current := ReadForHash(cfg, files, clean);
        if current.Err? {
          return Err(current.error);
        }
        var mismatch := CheckBase(cfg, a.base, current.value);
        if mismatch.Some? {
          return Err(mismatch.value);
        }
      }
      var hash := cfg.sha(contents);
      if a.dryRun {
        return Ok(Written(|contents|, hash, true));
      }
      var (after, e) := WriteExisting(cfg, files, clean, contents);
      files := after;
      if e.Some? {
        return Err(e.value);
      }
      return Ok(Written(|contents|, hash, false));
    }

    method FileReplace(a: ReplaceArgs) returns (r: Result<ReplaceDone, ToolError>)
      modifies this
      ensures (files, r) == ReplaceIn(cfg, old(files), a)
    {
      if a.oldStr.None? {
        return Err(InvalidArgs);
      }
      if |a.oldStr.value| == 0 {
        return Err(InvalidArgs);
      }
      if a.newStr.None? {
        return Err(InvalidArgs);
      }
      var expected := 1;
      if a.expected.Some? {
        expected := a.expected.value;
      }
      if expected < 1 {
        return Err(InvalidArgs);
      }
      if a.path.None? {
        return Err(PolicyDenied(BadPath));
      }
      var clean := a.path.value;
      var current := ReadForHash(cfg, files, clean);
      if current.Err? {
        return Err(current.error);
      }
      var mismatch := CheckBase(cfg, a.base, current.value);
      if mismatch.Some? {
        return Err(mismatch.value);
      }
      var count := CountOf(current.value, a.oldStr.value);
      if count != expected {
        return Err(MatchCountMismatch(count));
      }
      var next := Replaced(current.value, a.oldStr.value, a.newStr.value);
      var hash := cfg.sha(next);
      if a.dryRun {
        return Ok(ReplaceDone(count, hash, true));
      }
      var (after, e) := WriteExisting(cfg, files, clean, next);
      files := after;
      if e.Some? {
        return Err(e.value);
      }
      return Ok(ReplaceDone(count, hash, false));
    }

    /** The ranged part of `fileRead`: the span, clamped to the file, then cut at `maxBytes`. */
    method ReadSpan(data: seq<Byte>, a: ReadArgs, readTruncated: bool, sha: string)
      returns (r: Result<ReadDone, ToolError>)
      requires !BadRange(a)
      ensures var lines := TextLines(data);
        var from := if a.startLine.Some? then a.startLine.value else 1;
        var to := if a.endLine.Some? && a.endLine.value <= |lines| then a.endLine.value else |lines|;
        var span := SpanOf(lines, from, to);
        r == Ok(ReadDone(Capped(span, a.maxBytes), readTruncated || |span| > |Capped(span, a.maxBytes)|,
                         false, false, from, to, |lines|, sha))
    {
      hide TextLines, Join;
      var lines := TextLines(data);
      var total := |lines|;
      var start := 1;
      if a.startLine.Some? {
        start := a.startLine.value;
      }
      var end := total;
      if a.endLine.Some? {
        end := a.endLine.value;
      }
      if end > total {
        end := total;
      }
      var span := [];
      if start <= total && start <= end {
        span := Join(lines[start - 1..end], [NL]);
      }
      var shown := span;
      var spanTruncated := false;
      if a.maxBytes > 0 && |span| > a.maxBytes {
        shown := span[..a.maxBytes];
        spanTruncated := true;
      }
      return Ok(ReadDone(shown, readTruncated || spanTruncated, false, false, start, end, total, sha));
    }

    method FileRead(a: ReadArgs) returns (r: Result<ReadDone, ToolError>)
      ensures r == Read(cfg, files, a)
    {
      hide Stat, TextLines, Binary, Head, SpanOf;
      if a.path.None? {
        return Err(PolicyDenied(BadPath));
      }
      var info := Stat(cfg, files, a.path.value);
      if info.Err? {
        return Err(info.error);
      }
      if info.value.Folder? {
        return Err(NotFound);
      }
      var rangeRequested := a.startLine.Some? || a.endLine.Some?;
      if a.startLine.Some? && a.startLine.value < 1 {
        return Err(InvalidRange);
      }
      if a.endLine.Some? && a.endLine.value < 1 {
        return Err(InvalidRange);
      }
      if a.startLine.Some? && a.endLine.Some? && a.startLine.value > a.endLine.value {
        return Err(InvalidRange);
      }
      var scanLimit := cfg.limit;
      if !rangeRequested && a.maxBytes > 0 && a.maxBytes < scanLimit {
        scanLimit := a.maxBytes;
      }
      var content := info.value.content;
      var data := Head(content, scanLimit);
      var readTruncated := |data| == scanLimit && |content| > scanLimit;
      assert !readTruncated ==> data == content;
      var sha: string;
      if !readTruncated {
        sha := cfg.sha(data);
      } else {
        sha := HashFileFull(content);
      }
      if Binary(data) {
        if !a.allowBinary {
          return Ok(ReadDone([], readTruncated, true, false, 0, 0, 0, sha));
        }
        var blob := data;
        var truncated := readTruncated;
        if a.maxBytes > 0 && |blob| > a.maxBytes {
          blob := blob[..a.maxBytes];
          truncated := true;
        }
        return Ok(ReadDone(blob, truncated, true, true, 0, 0, 0, sha));
      }
      if !rangeRequested {
        return Ok(ReadDone(data, readTruncated, false, false, 0, 0, 0, sha));
      }
      r := ReadSpan(data, a, readTruncated, sha);
    }
  }
}
