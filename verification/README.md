# Verified model of workspace-mcp

workspace-mcp serves a directory tree, with search, Git orientation and guarded byte edits, to a remote
client behind a small OAuth server. This project models the parts of it where a fast, cached,
concurrent or stateful form must agree with something simple, and proves that it does:

- **The scanner** (`Scan`, `ScanProofs`, `LineRegex`, `Regex`, `LiteralNodes`, `Matcher`, `Utf8`). Three scans of
  a file against "split into lines, keep those that match", each with the condition under which it is; the
  literal pre-filter against a denotational semantics of the regex tree; the three regimes of a compiled
  matcher.
- **Ahead and behind** (`Upstream`). Two capped depth-first walks around an exclusion set against set
  differences of ancestor sets, on every commit graph.
- **Listing** (`Visibility`, `VisibilityProofs`). A lister with a cache and lazily loaded ignore files
  against a recursive definition, in every order of queries.
- **Search** (`Walk`, `Ordering`, `Pool`, `Search`, `ScanOne`, `Frontmatter`). A concurrent walk, an in-place
  filter, an unstable sort, a worker pool and a capped merge against one sequential search; one file
  against all predicates; the frontmatter fence in memory and on a stream.
- **OAuth codes** (`OAuth`, `OAuthProofs`, `OAuthTrail`). A swept, capped, deleted-from map under interleaved
  requests against an unbounded log of codes, and the trail from each grant back to one console code
  (sections 4.1.2 and 4.1.3 of RFC 6749, section 4.6 of RFC 7636).
- **File tools** (`Replace`, `Files`, `FilesProofs`, `Paging`). Counted replacement, hash-guarded writes over
  runs with outside changes, previews, and line paging.
- **Diff counts** (`Diff`). Added and deleted lines against the growth of the file.

Code that updates variables is modelled as methods with loops, and objects with fields as classes
(`Upstream.PreorderIter`, `Visibility.Lister`, `OAuth.OAuthServer`, `Files.Server`); each method is tied to a
specification, about which the lemmas are. Goroutines and interleaved requests are state machines over
atomic steps: a lock section, a callback, a channel operation, a tool call.

What the model takes from outside is a parameter with a stated contract: the regex parser and engine
(`Matcher.Contract`) with the engine's successive hits (`Matcher.HitsOf`) and what groups, word boundaries, the case
flag and quoting mean to the parser (`Matcher.Grammar`), go-git's merge bases
(`Upstream.AreMergeBases`) on a complete object store, the ignore library (`Visibility.Local`: matching looks
only at patterns loaded at proper ancestor directories), the glob matcher, the sorting library
(`Ordering.SortedCopy`), a hash of 64 hex digits (`FilesProofs.HexHash`), clock readings that do not go back and
random values that are new (`OAuth.Allowed`). No hash of file contents is taken to be free of collisions: where
that matters, the results name the contents that would have to collide (`FilesProofs.CollisionFree`). The server
compares console codes by their hashes; the model compares the codes themselves. That the contracts can be met
is shown by `Matcher.ContractIsPossible`, `VisibilityProofs.LocalIsPossible` and `FilesProofs.HashingIsPossible`.

## Where the code and its documentation disagree

The model follows the code; each point is a lemma.

- "Counts at the cap are lower bounds" (`gitaware/upstream.go:9-10`, `docs/design.md:622`) holds when the walks
  from the tips are capped, but not always when the walk from the merge bases is: `Upstream.CappedOvercounts`
  gives a history in which a branch that is one commit ahead is counted two ahead. `Upstream.LowerBoundExactly`
  says when a count is a lower bound: exactly when the commits that only this tip has reach the cap, or the walk
  from the merge bases, which goes through the history depth-first, sees every common ancestor where they end. So
  it is, and the count is right up to the cap, whenever there are fewer than 1000 common ancestors, or they end
  among the first merge base and the 999 first parents behind it.
- "Returns all matching lines" (`grrep/scan.go:53`) depends on the size of the file in two ways. A regex without a
  literal may find other lines in the whole body than one by one: `LineRegex.AnchorMissed` gives `^[bc]`, and
  `LineRegex.RegexScanExactly` says on which texts it does not. And the stream does not see the empty line behind a
  final newline: `LineRegex.EmptyLineMissed` gives `x*`, and `LineRegex.SizeIndependentExactly` says that, for a scan
  that works line by line and a reader that can hold every line, nothing else depends on the size.
- "The longest literal substring that must appear in any match" (`grrep/match.go:94-96`) need not appear when
  the node it comes from folds case or holds U+FFFD: `Matcher.FoldCaseMissed`. It does when some exact node stands
  for it, whatever else the tree holds: `Regex.ExtractedLiteralIsSound`.
- The shortcut at `grrep/match.go:68-73` keeps the pattern's bytes, not the literal they parse to:
  `LiteralNodes.ShortcutExactly`, with two inputs that go wrong in `LiteralNodes.ShortcutMisses`.
- "Any forced call returns READ_ONLY" (`mcp/config.go:118`): the workspace is never changed, but the answer is
  READ_ONLY only when the call is not a dry run and nothing that is looked at before refuses it, such as
  arguments, access, a missing file, the guard or the count: `FilesProofs.CreateReadOnlyExactly`,
  `FilesProofs.OverwriteReadOnlyExactly`, `FilesProofs.ReplaceReadOnlyExactly`, with three inputs that are
  answered otherwise in `FilesProofs.OtherAnswers`.
- A dry run that says what the real run would say is promised in `docs/design.md:695-696`; when it does is
  stated in `FilesProofs.ReplacePreviewExactly` and `FilesProofs.OverwritePreviewExactly`. The latter also shows
  that a dry run refuses a file beyond the read limit that the unguarded call overwrites.
- A directory is documented as NOT_FOUND for `file_replace` (`docs/design.md:713`), which never answers so: it is
  refused by policy when no file may be read under its path, and otherwise reported as a path outside the root.
  `FilesProofs.FolderErrors` says what each tool answers, `FilesProofs.AllowedFolderErrors` gives a folder that may
  be listed and is refused.
- A denied path is "reported as denied whether or not it exists" (`mcp/root.go:138-141`): so it is, but with a
  different reason when the path goes on behind a file: `FilesProofs.DeniedEitherWay`.

## Model

| member | source | states |
|---|---|---|
| Scan.ScanWholeBody | grrep/scan.go:92-138 | the cursor and line counter of the sliding search yield exactly the confirmed lines that hold a literal start, in order, once each, with their numbers |
| Scan.ScanWholeRegex | grrep/scan.go:140-169 | for hits with increasing starts: exactly the lines holding a hit start, each once, numbered by the newlines before it |
| Scan.ScanFileStream | grrep/scan.go:172-204 | the buffered reader yields the matching lines up to the first one its buffer cannot hold |
| Scan.ScanFile | grrep/scan.go:56-79 | which of the two ways a file of each size is read |
| Scan.SkipToLine | grrep/scan.go:111-137 | lines without a hit start may be skipped up to the line of the next one |
| Scan.HitStep | grrep/scan.go:116-129 | the first hit start past the cursor decides the next emitted line and where to go on |
| ScanProofs.HoldingReports | grrep/scan.go:92-169 | whole-body answers without recursion: strictly increasing numbers, and exactly the confirmed lines that hold a hit start, numbered one plus the newlines before it |
| ScanProofs.MatchingReports | grrep/scan.go:182-203 | the line-by-line reference without recursion: line k is reported exactly when it matches, under its own number and text |
| ScanProofs.HoldingIsMatching | grrep/scan.go:106-137 | when holding a hit start and being confirmed is matching on every line, the whole-body scan answers the matching lines |
| ScanProofs.HoldingIsMatchingExactly | grrep/scan.go:92-169 | and only then: the whole-body answer is the matching lines if and only if every line is decided alike |
| ScanProofs.LineSafeDecides | grrep/scan.go:106-128 | a line-safe matcher decides every line alike on every body |
| ScanProofs.WholeBodyIsMatching | grrep/scan.go:92-138 | on every text, the whole-body scan with a line-safe matcher answers exactly the matching lines |
| ScanProofs.BareLiteralExactly | grrep/scan.go:106-129 | for a bare literal this holds on every text if and only if the literal has no newline and no final carriage return |
| ScanProofs.CompiledIsLineSafe | grrep/match.go:75-87 | a compiled regex whose pre-filter literal is that of some exact mandatory node is line-safe |
| ScanProofs.StreamIsReadable | grrep/scan.go:183-203 | the stream scan is line-by-line matching of the lines its buffer can hold |
| ScanProofs.StreamReports | grrep/scan.go:172-204 | without recursion: the matching lines before the first one of a mebibyte or more, and nothing of a binary file |
| ScanProofs.BinaryIsSkipped | grrep/scan.go:92-99 | a zero among the first 8000 bytes leaves nothing to report, whichever way the file is read |
| ScanProofs.FinalLineExactly | grrep/scan.go:183-203 | leaving out the empty line behind a final newline changes the matching lines if and only if there is one and the empty line matches |
| ScanProofs.ScanFileIsMatching | grrep/scan.go:53-79 | the answer does not depend on the buffer case: matching lines, as long as no line of a large file overflows the reader |
| LineRegex.MatchAvoids | grrep/scan.go:140-169 | no match of a tree covers a byte that none of its nodes takes |
| LineRegex.MatchOnLine | grrep/scan.go:149-162 | what an unanchored tree matches in the body it matches on the line alone, also when a carriage return was stripped |
| LineRegex.MatchInBody | grrep/scan.go:149-162 | and the other way round |
| LineRegex.BoundaryLocal | grrep/scan.go:149-162 | decoding from the start of the body and of the line stops at the same places |
| LineRegex.FoundOnLine | grrep/scan.go:149-162 | a line-wise regex is found on a line if and only if some match in the body starts on it |
| LineRegex.HitsTellLines | grrep/scan.go:141-167 | a line holds the start of a hit if and only if some match, overlapped by a hit or not, starts on it |
| LineRegex.RegexDecides | grrep/scan.go:140-169 | so without a pre-filter a line-wise regex decides every line alike on the body and alone |
| LineRegex.WholeBodyByLine | grrep/scan.go:92-169 | the whole-body scan of every compiled matcher that works by line answers the matching lines, which are those with its regex or literal |
| LineRegex.RegexScanExactly | grrep/scan.go:140-169 | without a pre-filter the whole-body scan answers the matching lines if and only if, on every line, some hit starts there exactly when the regex is found on the line alone |
| LineRegex.ScanFindsLines | grrep/scan.go:53-79 | from compiled pattern to report: scanning a text line by line reports, in order, exactly its lines in which the regex is found or the literal occurs, where a file beyond the buffer has no empty line behind a final newline |
| LineRegex.SizeIndependentExactly | grrep/scan.go:53-79 | for such a scan the report does not depend on the way the file is read if and only if there is no empty line behind a final newline or what is looked for is not found in an empty line, given that the reader can hold every line |
| LineRegex.AnchorMissed | grrep/scan.go:140-169 | counterexample: in every text that does not begin with `b` or `c`, `^[bc]` is found on no line in the whole body, and by the stream on all that do |
| LineRegex.AnchorMissedOnce | grrep/scan.go:140-169 | so on two lines `a` and `b` |
| LineRegex.EmptyLineMissed | grrep/scan.go:183-203 | counterexample: `x*`, which works line by line, is found in the empty line behind a final newline in the whole body and not by the stream |
| Regex.ExtractLiteral | grrep/match.go:97-132 | the loop over children picks the extracted literal of the recursive definition |
| Regex.LiteralIsLongestMandatory | grrep/match.go:94-132 | the extracted literal is one of the mandatory literals of the tree, and no mandatory one is longer |
| Regex.FirstLongest | grrep/match.go:101-110 | of children with equally long literals the first one's is taken |
| Regex.MatchHoldsExact | grrep/match.go:97-132 | every substring that a tree matches contains every mandatory literal that an exact node stands for |
| Regex.ExtractedLiteralIsSound | grrep/match.go:94-132 | every text in which a tree finds a match contains the extracted literal, if some exact mandatory node stands for it |
| LiteralNodes.LiteralSoundExactly | grrep/match.go:98-100 | searching for the bytes of a literal node loses no match if and only if no rune of it folds to another one and U+FFFD does not occur, or it holds a surrogate and matches nothing |
| LiteralNodes.ShortcutExactly | grrep/match.go:68-73 | any pattern that parses to one literal may be searched for as its own bytes if and only if it spells that literal, which holds no surrogate and is exact |
| LiteralNodes.NoPatternForErrors | grrep/match.go:68-73 | no pattern at all may stand for a literal with U+FFFD |
| LiteralNodes.ShortcutMisses | grrep/match.go:68-73 | counterexamples: an escaped dot is searched for with its backslash, and U+FFFD misses the ill-formed bytes it matches |
| Matcher.CompileMatcher | grrep/match.go:40-88 | when compiling fails; when there is no regex, and that the pattern itself is looked for then; what is stored, which is what `ScanFindsLines` takes; and, in each regime, when the matcher decides every line like the regex of the pattern |
| Matcher.WordsFound | grrep/match.go:56-58 | with the word option a regex is found where the one without it matches between two word boundaries |
| Matcher.FixedWordsFound | grrep/match.go:53-58 | a fixed string with the word option is found where it stands between two word boundaries |
| Matcher.CaseIgnored | grrep/match.go:59-61 | with the case-insensitive option a plain text is found where a text stands that is the same up to case |
| Matcher.PrefilterKeepsMatches | grrep/match.go:30-38 | the pre-filter never changes the answer of a regex whose extracted literal is that of some exact mandatory node |
| Matcher.ContractIsPossible | grrep/match.go:63-87 | the contract of parser, engine and quoting can be met |
| Matcher.FoldCaseMissed | grrep/match.go:75-81 | counterexample: with an inline case flag the compiled matcher rejects a line that its regex matches |
| Utf8.DecodedIsEncoded | grrep/match.go:100 | what decodes to a rune other than U+FFFD is the encoding of that rune |
| Utf8.EncodedDecodes | grrep/match.go:100 | an encoded rune decodes to itself in every surrounding text, and a surrogate to U+FFFD |
| Upstream.NextKeeps | gitaware/upstream.go:133-144 | the explicit stack walk: each call yields an unseen, unexcluded commit or ends having seen every reachable one |
| Upstream.NextIsOrder | gitaware/upstream.go:133-144 | the stack of filtered parent iterators yields the depth-first preorder of the recursive definition |
| Upstream.PreorderIter.Next | gitaware/upstream.go:133-144 | one call of the iterator is that step, for every state it can be in, and yields the next commit of the depth-first preorder |
| Upstream.CountCommitsFrom | gitaware/upstream.go:127-146 | the count is the number of commits reachable around the exclusion set, up to the cap, and capped exactly when it gets there |
| Upstream.CollectBaseAncestors | gitaware/upstream.go:105-123 | what is seen is that function of the history and the bases; capped exactly when it reaches 1000 |
| Upstream.BaseWalkInOrder | gitaware/upstream.go:105-123 | what is seen is what comes first in the depth-first preorders of the bases, one after another, up to the cap |
| Upstream.FirstParentsSeen | gitaware/upstream.go:105-123 | the walk follows the first parents of the first base: all of them up to the cap are seen, and nothing else when they reach it |
| Upstream.BaseWalkSees | gitaware/upstream.go:105-123 | that function: exactly the ancestors of all bases, or 1000 of them, each hanging on a base; the first base is always among them |
| Upstream.ExcludedIsCommon | gitaware/upstream.go:75-90 | with merge bases it is the common ancestors, as many as up to the cap |
| Upstream.CountedAround | gitaware/upstream.go:79-93 | excluding all common ancestors leaves exactly what one tip has alone; excluding some leaves no less |
| Upstream.LeaksExactly | gitaware/upstream.go:79-93 | a walk around excluded common ancestors finds exactly what one tip has alone if and only if every common ancestor at the boundary of that was excluded |
| Upstream.LowerBoundExactly | gitaware/upstream.go:9-11 | given the history and the merge bases, a count is a lower bound if and only if the true count reaches the cap or the base walk sees every common ancestor at its boundary |
| Upstream.CountsRight | gitaware/upstream.go:83-97 | the exact count in all cases, and what follows before any walk: it is right up to the cap with fewer than 1000 common ancestors, and with any number when the boundary lies among the first merge base and up to 999 first parents behind it |
| Upstream.TipsDiffer | gitaware/upstream.go:96 | in an acyclic history, different tips never count as in sync |
| Upstream.ResolveUpstream | gitaware/upstream.go:31-99 | for every repository: when there is an answer; both counts exactly, as above, with a capped, an uncapped and a failing search for merge bases; the capped flag exactly; never in sync with different tips |
| Upstream.CappedOvercounts | gitaware/upstream.go:9-11 | counterexample: on this history the only count there can be is two, for a branch that is one ahead |
| Visibility.Lister.constructor | mcp/policy.go:147-154 | a new lister knows the root's ignore file, if ignore files count, and nothing else |
| Visibility.Lister.EnsureNode | grrep/ignore.go:44-78 | loading a directory adds its ignore lines, or nothing when it has none |
| Visibility.Lister.Listed | mcp/policy.go:158-186 | one critical section: the new cache, patterns and load log, and the answer |
| VisibilityProofs.AccessExactly | mcp/policy.go:87-132 | the decision in every case: a block glob first, then a dot segment that no allow glob names, then an allow list that does not name a file; the root is a directory and no file |
| VisibilityProofs.ListedExactly | mcp/policy.go:134-186 | a path is listed if and only if access is allowed and no ignore file above ignores it or a directory on the way to it |
| VisibilityProofs.FixedBlocksWin | mcp/policy.go:52-63 | nothing under the fixed block globs is listed, whatever the allow list says |
| VisibilityProofs.LocalIsPossible | mcp/policy.go:134-137 | the contract of the ignore library can be met |
| VisibilityProofs.LoadedDecides | mcp/policy.go:171-185 | below decided and not ignored directories, the patterns loaded so far decide like all ignore files above |
| VisibilityProofs.DecideKeeps | mcp/policy.go:173-180 | deciding one more directory keeps all that is known, loads it once at most and after those above it |
| VisibilityProofs.QueryAnswers | mcp/policy.go:158-186 | a query from any reachable cache gets the recursive definition's answer |
| VisibilityProofs.RunAnswers | mcp/policy.go:134-186 | every run of queries, in every order, gets the recursive definition's answers |
| VisibilityProofs.FreshRun | mcp/policy.go:134-186 | from a new lister: those answers, no directory loaded twice, each after those above it, none of them ignored |
| VisibilityProofs.IgnoredHidesBelow | mcp/policy.go:181-183 | nothing at any depth below an ignored directory is listed |
| Walk.StepKeepsSane | mcp/walk.go:43-77 | every atomic step of the concurrent walk keeps its invariant |
| Walk.WalkCollects | mcp/walk.go:30-82 | every complete run under every schedule collects exactly the listed regular files all of whose directories below the start are listed, each once, in at most two steps an entry |
| Walk.BaseWalkExactly | mcp/search.go:117-154 | walking only a glob's literal base finds the files that a walk from the root finds if and only if every directory down to the base is listed or none is found; the glob may match the base itself |
| Walk.BlockedBaseIsSearched | mcp/search.go:123-130 | counterexample: a walk that starts in a blocked directory lists its files |
| Ordering.SortedIsStrict | mcp/search.go:155 | sorting distinct paths leaves no ties |
| Ordering.StrictOrderUnique | mcp/search.go:155 | the unstable sort has one possible result |
| Ordering.LessExactly | mcp/search.go:155 | the order: smaller at the first difference, or a proper prefix |
| Pool.PoolFillsSlots | mcp/search.go:157-174 | under every schedule and number of workers: every index scanned exactly once, every slot holds the result of its own file, three steps a file |
| Pool.PoolNeverStuck | mcp/search.go:159-174 | with a worker, a pool that is not done can go on |
| Search.FilterInPlace | mcp/search.go:146-154 | the filter that reuses its own storage keeps exactly the matching files in order |
| Search.Merge | mcp/search.go:176-194 | the longest prefix of qualifying files whose cost without its last is below the cap; truncated exactly when a qualifying file is dropped |
| Search.CapInLines | mcp/search.go:176-194 | the cap counts shown lines, one for a file that shows none: without its last file the result stays below it, and files are dropped exactly when it is reached |
| Search.LongestUnique | mcp/search.go:176-194 | that determines the result |
| Search.SearchIsSequential | mcp/search.go:142-194 | every run of walk, filter, sort, pool and merge gives a result of the sequential search |
| Search.SearchDeterministic | mcp/search.go:142-194 | there is only one such result |
| Search.SearchInPathOrder | mcp/search.go:155-194 | results come in strict path order |
| Search.ReportedFiles | mcp/search.go:103-194 | every reported file was found by the walk, passes the glob and hits every predicate; unless truncated, every such file is reported |
| ScanOne.ScanOne | mcp/search.go:206-308 | one file: result and qualification in all three cases of cost, as the next rows say |
| ScanOne.ReportedExactly | mcp/search.go:206-260 | a file is reported if and only if there is no predicate, or it can be opened, has no zero among its first 8000 bytes as far as it is read, and every predicate hits a line |
| ScanOne.AnswerExactly | mcp/search.go:206-308 | path and size; matches only when asked for; frontmatter exactly when asked for and fenced, and then the lines between the fence lines |
| ScanOne.HitIsLine | mcp/search.go:257-259 | a hit carries the text of its line, so whichever predicate is entered last shows the same |
| ScanOne.SelectExact | mcp/search.go:275-302 | one side of the fence: exactly its hit lines, in strictly increasing order |
| ScanOne.MatchesPartition | mcp/search.go:250-303 | body and frontmatter matches split the lines that some predicate hits along the fence, both in increasing order |
| ScanOne.ContextIsNeighbours | mcp/search.go:278-296 | context is the neighbouring lines, clipped to the file |
| ScanOne.ShownExactly | mcp/search.go:275-302 | a shown line carries its number, its text without one carriage return, and the neighbouring lines before and after it, unless it is frontmatter |
| ScanOne.QualifiesByLines | mcp/search.go:250-260 | with line-safe predicates a text qualifies exactly when every predicate matches one of its lines |
| Frontmatter.DetectFence | mcp/search.go:314-331 | presence, closing line and text of the fence |
| Frontmatter.IsFenceExactly | mcp/search.go:335-343 | a fence line is three dashes, with only carriage returns, newlines and spaces behind them |
| Frontmatter.FenceExact | mcp/search.go:319-327 | the fence closes at the first fence line after the opening one, and holds the lines between without carriage returns |
| Frontmatter.NoFenceExact | mcp/search.go:330 | without an opening or a second fence line there is none |
| Frontmatter.ReadFrontmatter | mcp/search.go:351-371 | reading a bounded stream answers what `detectFence` answers on that prefix |
| Frontmatter.PrefixFenceExactly | mcp/search.go:351-371 | a fence found in a prefix is the whole file's if and only if its closing line is complete in the prefix or a fence line in the file all the same |
| OAuth.OAuthServer.constructor | mcp/oauth.go:139-149 | no codes, and no console code |
| OAuth.OAuthServer.EnsureChallenge | mcp/oauth.go:177-190 | the new console code and what is printed, as a step of the state machine |
| OAuth.OAuthServer.CheckNonce | mcp/oauth.go:195-202 | exactly the current console code, within its lifetime |
| OAuth.OAuthServer.SweepExpired | mcp/oauth.go:206-213 | deleting while ranging, in any order, leaves exactly the codes that are not expired |
| OAuth.OAuthServer.IssueCode | mcp/oauth.go:325-345 | the lock section of a form post, as a step of the state machine |
| OAuth.OAuthServer.ClaimCode | mcp/oauth.go:399-404 | the lock section of a token request, as a step of the state machine |
| OAuthProofs.SweptIsLive | mcp/oauth.go:334-338 | after a sweep the map holds exactly the codes that were issued, never presented and not expired |
| OAuthProofs.StepRefines | mcp/oauth.go:294-419 | every step of the server answers like the unbounded log and keeps the two related |
| OAuthProofs.AnswersLikeLog | mcp/oauth.go:294-419 | every interleaving from related states gets the log's answers, step for step |
| OAuthProofs.StartAnswersLikeLog | mcp/oauth.go:139-149 | and so does every interleaving from a new server |
| OAuthProofs.RefusedExactly | mcp/oauth.go:334-338 | a post is refused for capacity exactly when the console code is right and 256 codes are unpresented and unexpired, and for the console code exactly when that is not the current one or too old; a refusal does not use the console code up |
| OAuthTrail.StepTraced | mcp/oauth.go:177-202 | every step keeps each issued code tied to a console code of its own, typed in time |
| OAuthTrail.StepAccounted | mcp/oauth.go:395-419 | every step keeps grants sound and codes single-use and counted |
| OAuthTrail.EveryRunCounts | mcp/oauth.go:177-202 | in every interleaving: codes inserted plus an unused console code never exceed console codes printed; grants, claims in flight and stored codes never exceed codes inserted; at most 256 are stored |
| OAuthTrail.GrantRecorded | mcp/oauth.go:418 | every granted response is recorded as a grant, and no other one |
| OAuthTrail.EveryGrantIsAllowed | mcp/oauth.go:406-418 | in every interleaving: the grants are all those among the responses; each shows the redirect URI and verifier of the approval that issued its code, before it expires, and no code is granted twice |
| OAuthTrail.GrantedExactly | mcp/oauth.go:395-419 | a token request is granted exactly when it was first to present an issued, unexpired code with matching redirect URI and verifier; the first of these that fails is the answer |
| OAuthTrail.PrintsExactly | mcp/oauth.go:177-190 | a page prints a console code if and only if a random value is there and the current one is used up or older than a minute; until then it changes nothing |
| OAuthTrail.PrintedCodeStays | mcp/oauth.go:177-202 | through any interleaving a console code stays the current one until it is used up or too old |
| OAuthTrail.HonestFlowIsGranted | mcp/oauth.go:294-419 | from every reachable state and between any steps of other requests: a page load, the current console code typed in time and the code redeemed in time end in a grant, unless that console code or code is used up in between or 256 codes are pending |
| Replace.PiecesRejoin | mcp/write.go:280-288 | the pieces between the occurrences, joined by the anchor, are the file |
| Replace.PiecesAreLeftmost | mcp/write.go:280-288 | the cut is at leftmost occurrences that do not overlap |
| Replace.LeftmostUnique | mcp/write.go:280-288 | there is only one such cut, so one count and one result |
| Replace.ReplacedSize | mcp/write.go:288 | every occurrence changes the length by as much |
| Files.Server.HashFileFull | mcp/write.go:50-62 | the hash of the whole file, or nothing beyond the limit |
| Files.Server.FileCreate | mcp/write.go:131-163 | the new tree, and the answer or the first error in the order of the checks |
| Files.Server.FileOverwrite | mcp/write.go:175-228 | the new tree, and the answer or the first error in the order of the checks |
| Files.Server.FileReplace | mcp/write.go:242-306 | the new tree, and the answer or the first error in the order of the checks |
| Files.Server.ReadSpan | mcp/tools.go:481-513 | the clamped and capped line span of a ranged read |
| Files.Server.FileRead | mcp/tools.go:363-514 | the answer, with the full-file hash whatever is read, or the first error in the order of the checks |
| FilesProofs.ReplaceExact | mcp/write.go:242-306 | a success cuts at leftmost occurrences, as many as expected, one by default, and puts the new text between the pieces, with the length this gives; errors and dry runs change nothing, and a wrong count reports the number found; the hash is that of the result |
| FilesProofs.OverwriteExact | mcp/write.go:175-228 | a success replaces exactly one existing file, unchanged since its guard; errors and dry runs change nothing |
| FilesProofs.ReplacePreviewExactly | mcp/write.go:290-298 | a dry run predicts the real run if and only if that is refused anyway or the workspace can be written |
| FilesProofs.OverwritePreviewExactly | mcp/write.go:200-220 | the same for overwriting, where also the read limit must not be what stops an unguarded dry run |
| FilesProofs.CreateReadOnlyExactly | mcp/write.go:137-154 | creating answers READ_ONLY if and only if the workspace is read-only and path and contents are well formed; it then changes nothing |
| FilesProofs.OverwriteReadOnlyExactly | mcp/write.go:181-220 | the same for overwriting: not a dry run, an existing file that may be read, and a guard that holds |
| FilesProofs.ReplaceReadOnlyExactly | mcp/write.go:248-298 | the same for replacing: not a dry run, valid arguments, a readable file within the limit, a guard that holds and the expected count |
| FilesProofs.OtherAnswers | mcp/config.go:117-118 | counterexamples: a missing file, a wrong count and a dry run on a read-only workspace |
| FilesProofs.DeniedEitherWay | mcp/root.go:138-165 | a path denied to files is refused by policy whether or not it exists, and with the same reason unless it goes on behind a file |
| FilesProofs.ReadReturnsPrefix | mcp/tools.go:396-479 | an unranged read returns the beginning of the file within every limit, and is truncated exactly when something is missing; nothing of a binary file unless asked for |
| FilesProofs.RangedReadExactly | mcp/tools.go:481-513 | a ranged read of a text returns the lines asked for, as far as there are any, cut at `maxBytes`, and reports which; truncated exactly when something is missing |
| FilesProofs.BinaryReadExactly | mcp/tools.go:427-471 | a read is binary exactly when one of the first 8000 bytes it reads is zero, and gives its bytes only when asked to |
| FilesProofs.InvalidRangeExactly | mcp/tools.go:386-395 | a range is refused exactly when it starts or ends before line one, or ends before it starts |
| FilesProofs.HashingIsPossible | mcp/write.go:38-43 | a hash of this shape that keeps contents apart exists |
| FilesProofs.GuardExactly | mcp/write.go:90-99 | a guard taken from a hash lets a call pass exactly when the file has that hash, so, unless these two contents collide, exactly when it is still what was hashed |
| FilesProofs.GuardForgives | mcp/write.go:90-99 | a guard may be in capital or small digits and with space around it, anything else is refused, and the error tells the current hash |
| FilesProofs.ReadReportsFullHash | mcp/tools.go:433-441 | the reported hash is nonempty exactly within the read limit, and then that of the whole file, for every range and cap |
| FilesProofs.StepFaithful | mcp/write.go:175-306 | a guarded step writes only over contents with the hash of what its client had seen, and every write is recorded |
| FilesProofs.NoLostUpdates | mcp/write.go:87-99 | in every run with outside changes whose writes are guarded by the last held hash, every write that goes through found contents with the hash of what its client had seen |
| FilesProofs.SessionHasNoLostUpdates | mcp/write.go:87-99 | from a new session on any tree: every such write was computed from the contents immediately before it, unless the contents that the run compared contain a collision |
| FilesProofs.GuardedReplaceRefusedExactly | mcp/write.go:276-278 | a guarded replacement is refused for a changed file exactly when its hash did change; unless the two contents collide, exactly when it did |
| FilesProofs.CreateOnlyAdds | mcp/root.go:203-220 | creating adds the file and the folders on the way, keeps the tree well formed, and changes nothing that was there |
| FilesProofs.CreateExactly | mcp/write.go:131-163 | creating succeeds, and finds the path taken, exactly when; and what it answers |
| FilesProofs.ArgumentErrors | mcp/write.go:131-261 | which malformed arguments each tool reports, and which first |
| FilesProofs.MissingErrors | mcp/root.go:120-150 | nothing at an accessible path: every tool answers not found, or an escape behind a file |
| FilesProofs.CreateThenRead | mcp/write.go:148-162 | a created file reads back with the same hash and contents |
| FilesProofs.FolderErrors | mcp/write.go:67-85 | which error each tool gives for a folder, for every call: not found exactly when it may be listed, and never for a replacement |
| FilesProofs.AllowedFolderErrors | mcp/write.go:67-85 | counterexample: a folder that may be listed, under an allow list of files in it, is refused by policy |
| Paging.SpansRejoin | mcp/tools.go:495-498 | joining consecutive spans is joining their lines |
| Paging.LinesRejoin | mcp/tools.go:530-539 | the counted lines joined by newlines are the file, up to one final newline |
| Paging.PagesRebuild | mcp/tools.go:481-513 | for every cut of a text into pages: each page is its span cut at `maxBytes`, is truncated exactly when it was cut and reports the same number of lines; the spans rebuild the file |
| Paging.PagesRebuildExactly | mcp/tools.go:481-513 | the pages rebuild the file up to one final newline if and only if none of them exceeds `maxBytes` |
| Diff.EncodeUnified | gitaware/diff.go:323-340 | one chunk for each segment, and the numbers of lines of the inserted and of the deleted segments |
| Diff.CountLinesExactly | gitaware/diff.go:355-367 | the count is the number of parts between newlines, without an empty one at the end |
| Diff.LinesConservedExactly | gitaware/diff.go:323-367 | for every edit script, additions less deletions is the growth in lines if and only if both sides are cut inside lines equally often |
| Diff.WholeLinesConserve | gitaware/diff.go:323-367 | so it is for scripts of whole lines |

## Left out

- LineRegex.ScanFindsLines: the condition on the tree of a regex without a pre-filter is sufficient; one that looks
  across lines can still find the same ones. The exact condition, on a text, is that of `LineRegex.RegexScanExactly`.
- Scan.ScanFileStream: read errors other than the end of the file and a full buffer.
- Search.SearchIsSequential: a bad pattern, a refused glob base and a walk that cannot start end the search
  with an error before any of this; a start that is not a directory is not part of this model.
- OAuth.OAuthServer.IssueCode: a redirect URI that does not parse is answered with an error after the code
  was stored; the answer is not part of the state machine.
- FilesProofs.NoLostUpdates: each tool call is one atomic step, since the code holds no lock between its
  read and its write; a change between the two is not covered, and neither is a write that fails halfway.
- Matcher.PrefilterKeepsMatches: that an exact node must stand for the literal is proved to be needed for single
  literals only (`LiteralNodes.LiteralSoundExactly`); a larger tree can do without and still lose no match.
- The path label of scanner hits, read-ahead buffers and pools, and file descriptors.
- Path cleaning (`Clean`), symbolic links and the containment of `os.Root`: paths are segments below the root.
- Files that change while a search runs, directories that cannot be read, and I/O errors in the middle of a file.
- Base64, MIME types, notices and audit events of the file tools, JSON, and the tool catalogue.
- Client authentication, token encryption, the refresh grant and the metadata endpoints: no shared state.
- The patch text, file modes and the choice of the two sides of a Git diff; status, tracked files and detection.
- Ignore-file parsing, glob and ignore matching, the regex engine, merge-base search and the line diff: libraries.
- HTTP handlers, configuration, origin checks, secrets and process wiring: short branch checks or plumbing.
