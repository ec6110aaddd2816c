/** `grrep/match.go`: a line matcher with its three regimes, and how a pattern is compiled to it.
    The regex parser and engine are parameters with the contract `Contract`. */
module Matcher {
  import opened Bytes
  import opened Utf8
  import opened Regex
  import opened LiteralNodes
  import opened Wrappers

  /** A compiled regex: what it matches, and where in a text its successive hits start. */
  datatype Regexp = Regexp(tree: Node, matches: seq<Byte> -> bool, hits: seq<Byte> -> seq<nat>)

  datatype Matcher = Matcher(re: Option<Regexp>, literal: seq<Byte>)

  datatype MatchOpts = MatchOpts(fixedString: bool, caseInsensitive: bool, wordBoundary: bool)

  /** The regex library: parser, compiler and quoting. */
  datatype Syntax = Syntax(parse: seq<Byte> -> Option<Node>, compile: seq<Byte> -> Option<Regexp>,
                           quote: seq<Byte> -> seq<Byte>)

  predicate HitsInOrder(hits: seq<nat>, size: nat) {
    && (forall i, j :: 0 <= i < j < |hits| ==> hits[i] <= hits[j])
    && (forall i :: 0 <= i < |hits| ==> hits[i] <= size)
  }

  /** Go's contract for successive regex hits: they are in order, each is the start of a match, and a
      match that is not among them starts within one that is, or right behind it. */
  ghost predicate HitsOf(re: Node, s: seq<Byte>, hits: seq<nat>, fold: FoldTable) {
    && HitsInOrder(hits, |s|)
    && (forall p: nat :: p in hits ==> Overlapped(re, s, p, p, fold))
    && (forall i: nat, j: nat :: MatchAt(re, s, i, j, fold) ==> exists p: nat :: p in hits && Overlapped(re, s, p, i, fold))
  }

  /** Some match that starts at `p` gets to `i`. */
  ghost predicate Overlapped(re: Node, s: seq<Byte>, p: nat, i: nat, fold: FoldTable) {
    exists b: nat :: p <= i <= b && MatchAt(re, s, p, b, fold)
  }

  /** A regex finds exactly what its tree can match. */
  ghost predicate Engine(re: Regexp, fold: FoldTable) {
    && (forall s :: re.matches(s) <==> Found(re.tree, s, fold))
    && (forall s :: HitsOf(re.tree, s, re.hits(s), fold))
  }

  /** `bounded` matches what `inner` matches between two word boundaries. */
  ghost predicate Between(bounded: Node, inner: Node, fold: FoldTable) {
    forall s, i: nat, j: nat :: i <= j <= |s| ==>
      (Matches(bounded, s, i, j, fold) <==> AtWordBoundary(s, i) && AtWordBoundary(s, j) && Matches(inner, s, i, j, fold))
  }

  /** The runes that are one letter when case is ignored. */
  ghost predicate SameLetter(a: Rune, b: Rune, fold: FoldTable) {
    a == b || exists c :: (c == a || fold(c, a)) && (c == b || fold(c, b))
  }

  ghost function SameCase(fold: FoldTable): FoldTable { (a: Rune, b: Rune) => SameLetter(a, b, fold) }

  /** `folded` matches every text that is `runes` up to case, and nothing else. */
  ghost predicate IgnoringCase(folded: Node, runes: seq<Rune>, fold: FoldTable) {
    forall s, i: nat, j: nat :: i <= j <= |s| ==>
      (Matches(folded, s, i, j, fold) <==> LiteralAt(runes, true, s, i, j, SameCase(fold)))
  }

  /** A word boundary, a group and a word boundary match the group between two word boundaries. */
  ghost predicate BoundsGroups(syntax: Syntax, fold: FoldTable) {
    forall p, q :: q == Ascii("\\b(?:") + p + Ascii(")\\b") && syntax.parse(p).Some? && syntax.parse(q).Some? ==>
      Between(syntax.parse(q).value, syntax.parse(p).value, fold)
  }

  /** So they do with the case flag in front. */
  ghost predicate BoundsFlagged(syntax: Syntax, fold: FoldTable) {
    forall p, q :: q == Ascii("\\b(?:") + p + Ascii(")\\b")
                   && syntax.parse(Ascii("(?i)") + p).Some? && syntax.parse(Ascii("(?i)") + q).Some? ==>
      Between(syntax.parse(Ascii("(?i)") + q).value, syntax.parse(Ascii("(?i)") + p).value, fold)
  }

  /** A quoted text parses to its own runes. */
  ghost predicate QuotesLiterals(syntax: Syntax) {
    forall rs :: rs != [] && Scalars(rs) && syntax.parse(syntax.quote(EncodeAll(rs))).Some? ==>
      syntax.parse(syntax.quote(EncodeAll(rs))).value == Literal(rs, false)
  }

  /** With the case flag a literal matches what is its text up to case. */
  ghost predicate FlagsCase(syntax: Syntax, fold: FoldTable) {
    forall p, q :: q == Ascii("(?i)") + p && syntax.parse(p).Some? && syntax.parse(q).Some?
                   && syntax.parse(p).value.Literal? && !syntax.parse(p).value.foldCase ==>
      IgnoringCase(syntax.parse(q).value, syntax.parse(p).value.runes, fold)
  }

  /** What groups, word boundaries, quoting and the case flag mean to the parser. */
  ghost predicate Grammar(syntax: Syntax, fold: FoldTable) {
    BoundsGroups(syntax, fold) && BoundsFlagged(syntax, fold) && QuotesLiterals(syntax) && FlagsCase(syntax, fold)
  }

  /** The compiler uses the parser's tree. A parsed literal node holds at least one rune. */
  ghost predicate Contract(syntax: Syntax, fold: FoldTable) {
    && LetterTable(fold) && Grammar(syntax, fold)
    && (forall p :: syntax.compile(p).Some? ==>
          && syntax.parse(p) == Some(syntax.compile(p).value.tree)
          && Engine(syntax.compile(p).value, fold))
    && (forall p :: syntax.parse(p).Some? && syntax.parse(p).value.Literal? ==>
          syntax.parse(p).value.runes != [])
  }

  /** What every matcher is like that is compiled with or without the case-insensitive option. */
  ghost predicate Compiled(m: Matcher, caseInsensitive: bool, fold: FoldTable) {
    && (m.re.None? ==> m.literal != [])
    && (m.re.Some? ==>
          && Engine(m.re.value, fold)
          && m.literal == if caseInsensitive then [] else LiteralOf(m.re.value.tree))
  }

  predicate Match(m: Matcher, line: seq<Byte>) {
    if m.re.None? then Contains(line, m.literal)
    else if |m.literal| > 0 && !Contains(line, m.literal) then false
    else m.re.value.matches(line)
  }

  function Ascii(s: string): seq<Byte>
    requires forall k :: 0 <= k < |s| ==> s[k] as int < 128
  {
    seq(|s|, k requires 0 <= k < |s| => s[k] as int as Byte)
  }

  predicate Untransformed(opts: MatchOpts) { !opts.caseInsensitive && !opts.wordBoundary }

  /** The regex a pattern stands for under its options. */
  function Source(pattern: seq<Byte>, opts: MatchOpts, syntax: Syntax): seq<Byte> {
    var quoted := if opts.fixedString then syntax.quote(pattern) else pattern;
    var bounded := if opts.wordBoundary then Ascii("\\b(?:") + quoted + Ascii(")\\b") else quoted;
    if opts.caseInsensitive then Ascii("(?i)") + bounded else bounded
  }

  /** A plain pattern that parses to one literal node skips the regex engine. */
  predicate Shortcut(pattern: seq<Byte>, opts: MatchOpts, syntax: Syntax) {
    && !opts.fixedString && Untransformed(opts)
    && syntax.parse(pattern).Some? && syntax.parse(pattern).value.Literal?
  }

  /** `CompileMatcher`: when there is no matcher; when it has no regex, and then it looks for the pattern
      itself; and, for each regime, when it decides every line as the regex that the pattern stands for
      would. */
  method CompileMatcher(pattern: seq<Byte>, opts: MatchOpts, syntax: Syntax, ghost fold: FoldTable)
    returns (m: Option<Matcher>)
    requires Contract(syntax, fold)
    ensures m.None? <==>
      || pattern == []
      || (!(opts.fixedString && Untransformed(opts))
          && (syntax.parse(Source(pattern, opts, syntax)).None?
              || (!Shortcut(pattern, opts, syntax) && syntax.compile(Source(pattern, opts, syntax)).None?)))
    ensures m.Some? ==> Compiled(m.value, opts.caseInsensitive, fold)
    ensures m.Some? ==>
      (m.value.re.None? <==> (opts.fixedString && Untransformed(opts)) || Shortcut(pattern, opts, syntax))
    ensures m.Some? && m.value.re.None? ==> m.value.literal == pattern
    ensures m.Some? && m.value.re.Some? ==> syntax.compile(Source(pattern, opts, syntax)) == m.value.re
    ensures m.Some? && opts.fixedString && Untransformed(opts) ==>
      forall line :: Match(m.value, line) <==> Contains(line, pattern)
    ensures m.Some? && !(opts.fixedString && Untransformed(opts)) && !Shortcut(pattern, opts, syntax) ==>
      var tree := syntax.parse(Source(pattern, opts, syntax)).value;
      opts.caseInsensitive || Sure(tree, fold) ==>
        forall line :: Match(m.value, line) <==> Found(tree, line, fold)
    ensures m.Some? && Shortcut(pattern, opts, syntax) ==>
      var tree := syntax.parse(pattern).value;
      (forall line :: Match(m.value, line) <==> Found(tree, line, fold)) <==>
        pattern == EncodeAll(tree.runes) && Scalars(tree.runes) && ExactLiteral(tree.runes, tree.foldCase, fold)
  {
    if pattern == [] {
      return None;
    }
    if opts.fixedString && !opts.caseInsensitive && !opts.wordBoundary {
      return Some(Matcher(None, pattern));
    }
    var p := pattern;
    if opts.fixedString {
      p := syntax.quote(p);
    }
    if opts.wordBoundary {
      p := Ascii("\\b(?:") + p + Ascii(")\\b");
    }
    if opts.caseInsensitive {
      p := Ascii("(?i)") + p;
    }
    var tree := syntax.parse(p);
    if tree.None? {
      return None;
    }
    if !opts.fixedString && !opts.caseInsensitive && !opts.wordBoundary && tree.value.Literal? {
      var node := tree.value;
      ShortcutExactly(pattern, node.runes, node.foldCase, fold);
      return Some(Matcher(None, pattern));
    }
    var literal := ExtractLiteral(tree.value);
    if opts.caseInsensitive {
      literal := [];
    }
    var re := syntax.compile(p);
    if re.None? {
      return None;
    }
    m := Some(Matcher(re, literal));
    if !opts.caseInsensitive && Sure(tree.value, fold) {
      PrefilterKeepsMatches(m.value, fold);
    }
  }

  /** With the word option a regex is found where the one without it matches between two word boundaries. */
  lemma WordsFound(pattern: seq<Byte>, opts: MatchOpts, syntax: Syntax, line: seq<Byte>, fold: FoldTable)
    requires Contract(syntax, fold) && opts.wordBoundary
    requires syntax.parse(Source(pattern, opts, syntax)).Some?
    requires syntax.parse(Source(pattern, opts.(wordBoundary := false), syntax)).Some?
    ensures var tree := syntax.parse(Source(pattern, opts, syntax)).value;
      var inner := syntax.parse(Source(pattern, opts.(wordBoundary := false), syntax)).value;
      Found(tree, line, fold)
      <==> exists i: nat, j: nat :: MatchAt(inner, line, i, j, fold) && AtWordBoundary(line, i) && AtWordBoundary(line, j)
  {
    hide Matches, AtWordBoundary, Boundary;
    var tree := syntax.parse(Source(pattern, opts, syntax)).value;
    var inner := syntax.parse(Source(pattern, opts.(wordBoundary := false), syntax)).value;
    assert Between(tree, inner, fold);
    if Found(tree, line, fold) {
      var i: nat, j: nat :| i <= j <= |line| && Boundary(line, i) && Matches(tree, line, i, j, fold);
      assert MatchAt(inner, line, i, j, fold) && AtWordBoundary(line, i) && AtWordBoundary(line, j);
    }
    if i: nat, j: nat :| MatchAt(inner, line, i, j, fold) && AtWordBoundary(line, i) && AtWordBoundary(line, j) {
      assert Matches(tree, line, i, j, fold);
    }
  }

  /** A fixed string with the word option is found where it stands between two word boundaries. */
  lemma FixedWordsFound(rs: seq<Rune>, opts: MatchOpts, syntax: Syntax, line: seq<Byte>, fold: FoldTable)
    requires Contract(syntax, fold) && opts == MatchOpts(true, false, true)
    requires rs != [] && Scalars(rs) && RUNE_ERROR !in rs
    requires syntax.parse(Source(EncodeAll(rs), opts, syntax)).Some?
    requires syntax.parse(Source(EncodeAll(rs), opts.(wordBoundary := false), syntax)).Some?
    ensures var text := EncodeAll(rs);
      Found(syntax.parse(Source(text, opts, syntax)).value, line, fold)
      <==> exists k :: OccursAt(line, text, k) && AtWordBoundary(line, k) && AtWordBoundary(line, k + |text|)
  {
    hide AtWordBoundary, Boundary, Decode, Between;
    var text := EncodeAll(rs);
    WordsFound(text, opts, syntax, line, fold);
    forall i: nat, j: nat | MatchAt(Literal(rs, false), line, i, j, fold) ensures OccursAt(line, text, i) && j == i + |text| {
      ExactLiteralText(rs, false, line, i, j, fold);
    }
    forall k | OccursAt(line, text, k) ensures MatchAt(Literal(rs, false), line, k, k + |text|, fold) {
      OccurrenceMatches(rs, false, line, k, fold);
    }
  }

  /** With the case-insensitive option a plain text is found where some text stands that is the same up to
      case. */
  lemma CaseIgnored(pattern: seq<Byte>, rs: seq<Rune>, opts: MatchOpts, syntax: Syntax, line: seq<Byte>, fold: FoldTable)
    requires Contract(syntax, fold) && opts.caseInsensitive && !opts.wordBoundary
    requires syntax.parse(Source(pattern, opts.(caseInsensitive := false), syntax)) == Some(Literal(rs, false))
    requires syntax.parse(Source(pattern, opts, syntax)).Some?
    ensures Found(syntax.parse(Source(pattern, opts, syntax)).value, line, fold)
            <==> Found(Literal(rs, true), line, SameCase(fold))
  {
    hide LiteralAt, SameCase, Boundary;
    var tree, same := syntax.parse(Source(pattern, opts, syntax)).value, SameCase(fold);
    assert IgnoringCase(tree, rs, fold);
    if i: nat, j: nat :| MatchAt(Literal(rs, true), line, i, j, same) {
      assert MatchAt(tree, line, i, j, fold);
    }
    if i: nat, j: nat :| MatchAt(tree, line, i, j, fold) {
      assert MatchAt(Literal(rs, true), line, i, j, same);
    }
    FoundAt(tree, line, fold);
    FoundAt(Literal(rs, true), line, same);
  }

  lemma FoundAt(re: Node, s: seq<Byte>, fold: FoldTable)
    ensures Found(re, s, fold) <==> exists i: nat, j: nat :: MatchAt(re, s, i, j, fold)
  {
    hide Matches, Boundary;
    if i: nat, j: nat :| i <= j <= |s| && Boundary(s, i) && Matches(re, s, i, j, fold) {
      assert MatchAt(re, s, i, j, fold);
    }
  }

  /** The pre-filter never changes the answer of the regex, as long as some exact node of its tree stands
      for the literal. */
  lemma PrefilterKeepsMatches(m: Matcher, fold: FoldTable)
    requires m.re.Some? && m.literal == LiteralOf(m.re.value.tree) && Sure(m.re.value.tree, fold)
    requires forall s :: m.re.value.matches(s) <==> Found(m.re.value.tree, s, fold)
    ensures forall line :: Match(m, line) <==> m.re.value.matches(line)
    ensures forall line :: m.re.value.matches(line) ==> Contains(line, m.literal)
  {
    forall line | m.re.value.matches(line) ensures Contains(line, m.literal) {
      ExtractedLiteralIsSound(m.re.value.tree, line, fold);
    }
  }

  function Runes(s: string): seq<Rune>
    requires forall k :: 0 <= k < |s| ==> s[k] as int < 128
  {
    seq(|s|, k requires 0 <= k < |s| => s[k] as int)
  }

  /** The folding of the upper-case ASCII letters, which is how the parser stores folded letters. */
  const UPPER_FOLD: FoldTable := (a: Rune, b: Rune) => 'A' as int <= a <= 'Z' as int && b == a + 32

  /** Where `b` stands in `s`, up to `n`. */
  function StartsOf(s: seq<Byte>, b: Byte, n: nat): (starts: seq<nat>)
    requires n <= |s|
    ensures forall p: nat :: p in starts <==> p < n && s[p] == b
    ensures HitsInOrder(starts, n)
  {
    if n == 0 then [] else StartsOf(s, b, n - 1) + (if s[n - 1] == b then [n - 1] else [])
  }

  /** A library that can compile the letter `a`, and parse it between word boundaries. */
  const LETTER_A: Regexp := Regexp(Literal([97], false), (s: seq<Byte>) => Contains(s, [97]),
                                   (s: seq<Byte>) => StartsOf(s, 97, |s|))

  const WORD_A := Concat([WordBoundary, Literal([97], false), WordBoundary])

  /** `\b(?:a)\b` */
  const WORD_A_TEXT: seq<Byte> := [92, 98, 40, 63, 58, 97, 41, 92, 98]

  const TWO_PATTERNS: Syntax := Syntax(
    (p: seq<Byte>) =>
      if p == [97] then Some(Literal([97], false)) else if p == WORD_A_TEXT then Some(WORD_A) else None,
    (p: seq<Byte>) => if p == [97] then Some(LETTER_A) else None,
    (p: seq<Byte>) => if p == [97] then p else [])

  /** The contract can be met. */
  lemma ContractIsPossible()
    ensures Contract(TWO_PATTERNS, UPPER_FOLD) && TWO_PATTERNS.compile([97]).Some?
    ensures TWO_PATTERNS.parse(Ascii("\\b(?:a)\\b")) == Some(WORD_A)
  {
    hide Contains, Found, HitsOf, Grammar;
    assert [97][1..] == [] && EncodeAll([97]) == [97];
    ShortcutExactly([97], [97], false, UPPER_FOLD);
    forall s ensures HitsOf(LETTER_A.tree, s, LETTER_A.hits(s), UPPER_FOLD) {
      LetterHits(s);
    }
    GrammarIsPossible();
    assert Ascii("\\b(?:a)\\b") == WORD_A_TEXT;
  }

  lemma GrammarIsPossible()
    ensures Grammar(TWO_PATTERNS, UPPER_FOLD)
  {
    hide Between, IgnoringCase, EncodeAll, Scalars, BoundsGroups, BoundsFlagged, QuotesLiterals, FlagsCase;
    GroupsPossible();
    LongPatterns();
    QuotesPossible();
  }

  lemma GroupsPossible()
    ensures BoundsGroups(TWO_PATTERNS, UPPER_FOLD)
  {
    hide Between, Ascii;
    WordBetween();
    forall p, q | q == Ascii("\\b(?:") + p + Ascii(")\\b") && TWO_PATTERNS.parse(p).Some? && TWO_PATTERNS.parse(q).Some?
      ensures Between(TWO_PATTERNS.parse(q).value, TWO_PATTERNS.parse(p).value, UPPER_FOLD)
    {
      AsciiSizes();
      assert |q| == |p| + 8;
    }
  }

  lemma AsciiSizes()
    ensures |Ascii("\\b(?:")| == 5 && |Ascii(")\\b")| == 3 && |Ascii("(?i)")| == 4
  {
  }

  /** It knows no pattern with a case flag. */
  lemma LongPatterns()
    ensures BoundsFlagged(TWO_PATTERNS, UPPER_FOLD) && FlagsCase(TWO_PATTERNS, UPPER_FOLD)
  {
    hide Between, IgnoringCase;
    forall p ensures TWO_PATTERNS.parse(Ascii("(?i)") + p).None? {
      assert (Ascii("(?i)") + p)[0] == 40;
    }
  }

  lemma QuotesPossible()
    ensures QuotesLiterals(TWO_PATTERNS)
  {
    hide EncodeAll, Scalars;
    forall rs | TWO_PATTERNS.parse(TWO_PATTERNS.quote(EncodeAll(rs))).Some? ensures rs == [97] {
      EncodesLetter(rs);
    }
  }

  lemma EncodesLetter(rs: seq<Rune>)
    requires EncodeAll(rs) == [97]
    ensures rs == [97]
  {
    assert rs == [rs[0]] + rs[1..];
    assert EncodeAll(rs[1..]) == [] ==> rs[1..] == [];
  }

  lemma WordBetween()
    ensures Between(WORD_A, Literal([97], false), UPPER_FOLD)
  {
    hide Matches, AtWordBoundary;
    forall s, i: nat, j: nat | i <= j <= |s|
      ensures Matches(WORD_A, s, i, j, UPPER_FOLD)
              <==> AtWordBoundary(s, i) && AtWordBoundary(s, j) && Matches(Literal([97], false), s, i, j, UPPER_FOLD)
    {
      WordSteps(Literal([97], false), s, i, j);
    }
  }

  lemma WordSteps(re: Node, s: seq<Byte>, i: nat, j: nat)
    requires i <= j <= |s|
    ensures Matches(Concat([WordBoundary, re, WordBoundary]), s, i, j, UPPER_FOLD)
            <==> AtWordBoundary(s, i) && AtWordBoundary(s, j) && Matches(re, s, i, j, UPPER_FOLD)
  {
    hide AtWordBoundary;
    var parts := [WordBoundary, re, WordBoundary];
    assert parts[1..] == [re, WordBoundary];
    assert Matches(Concat(parts), s, i, j, UPPER_FOLD) <==> MatchesAll(parts, s, i, j, UPPER_FOLD);
    WordEnds(re, s, i, j);
    assert AtWordBoundary(s, i) <==> Matches(parts[0], s, i, i, UPPER_FOLD);
  }

  lemma WordEnds(re: Node, s: seq<Byte>, i: nat, j: nat)
    requires i <= j <= |s|
    ensures MatchesAll([re, WordBoundary], s, i, j, UPPER_FOLD)
            <==> AtWordBoundary(s, j) && Matches(re, s, i, j, UPPER_FOLD)
  {
    hide AtWordBoundary;
    var parts, last := [re, WordBoundary], [WordBoundary];
    assert parts[1..] == last && last[1..] == [];
    forall k | i <= k <= j ensures MatchesAll(last, s, k, j, UPPER_FOLD) <==> k == j && AtWordBoundary(s, j) {
      assert MatchesAll([], s, j, j, UPPER_FOLD);
      assert AtWordBoundary(s, j) ==> Matches(last[0], s, j, j, UPPER_FOLD) && MatchesAll(last[1..], s, j, j, UPPER_FOLD);
    }
    assert Matches(re, s, i, j, UPPER_FOLD) ==> Matches(parts[0], s, i, j, UPPER_FOLD);
  }

  lemma LetterHits(s: seq<Byte>)
    ensures HitsOf(LETTER_A.tree, s, StartsOf(s, 97, |s|), UPPER_FOLD)
  {
    hide StartsOf, MatchAt, Overlapped;
    var hits := StartsOf(s, 97, |s|);
    forall p: nat | p in hits ensures Overlapped(LETTER_A.tree, s, p, p, UPPER_FOLD) {
      LetterMatches(s, p);
    }
    forall i: nat, j: nat | MatchAt(LETTER_A.tree, s, i, j, UPPER_FOLD)
      ensures i in hits && Overlapped(LETTER_A.tree, s, i, i, UPPER_FOLD)
    {
      MatchIsLetter(s, i, j);
      LetterMatches(s, i);
    }
  }

  lemma LetterMatches(s: seq<Byte>, p: nat)
    requires p < |s| && s[p] == 97
    ensures Overlapped(LETTER_A.tree, s, p, p, UPPER_FOLD)
  {
    hide Boundary;
    assert [97][1..] == [];
    LeadingByteIsBoundary(s, 0, p);
    assert LiteralAt([], false, s, p + 1, p + 1, UPPER_FOLD);
    assert MatchAt(LETTER_A.tree, s, p, p + 1, UPPER_FOLD);
  }

  lemma MatchIsLetter(s: seq<Byte>, i: nat, j: nat)
    requires MatchAt(LETTER_A.tree, s, i, j, UPPER_FOLD)
    ensures i < |s| && s[i] == 97
  {
    hide Boundary, Decode;
    DecodedIsEncoded(s, i);
    assert s[i] == s[i..i + 1][0] == 97;
  }

  /** An inline case flag survives into the tree but not into the extracted literal: the regex
      `(?i:FOO)x` matches `foox`, and the pre-filter `FOO` rejects that line. */
  lemma FoldCaseMissed(first: Node, second: Node, m: Matcher)
    requires first == Literal(Runes("FOO"), true) && second == Literal(Runes("x"), false)
    requires Compiled(m, false, UPPER_FOLD) && m.re.Some? && m.re.value.tree == Concat([first, second])
    ensures Found(Concat([first, second]), Ascii("foox"), UPPER_FOLD)
    ensures LiteralOf(Concat([first, second])) == Ascii("FOO")
    ensures !Contains(Ascii("foox"), Ascii("FOO")) && !Match(m, Ascii("foox"))
  {
    FoldCaseFound(first, second);
    FoldCaseLiteral(first, second);
    UpperMissing(Ascii("foox"), Ascii("FOO"));
  }

  lemma UpperMissing(s: seq<Byte>, u: seq<Byte>)
    requires |u| > 0 && u[0] !in s
    ensures !Contains(s, u)
  {
    assert forall k :: 0 <= k <= |s| - |u| ==> s[k..k + |u|][0] == s[k] != u[0];
  }

  lemma FoldCaseFound(first: Node, second: Node)
    requires first == Literal(Runes("FOO"), true) && second == Literal(Runes("x"), false)
    ensures Found(Concat([first, second]), Ascii("foox"), UPPER_FOLD)
  {
    FoldCaseMatch();
    ConcatOfTwo(first, second, Ascii("foox"), 3);
  }

  lemma ConcatOfTwo(first: Node, second: Node, s: seq<Byte>, k: nat)
    requires k <= |s| && Matches(first, s, 0, k, UPPER_FOLD) && Matches(second, s, k, |s|, UPPER_FOLD)
    ensures Found(Concat([first, second]), s, UPPER_FOLD)
  {
    assert MatchesAll([], s, |s|, |s|, UPPER_FOLD);
    assert [second][1..] == [] && [first, second][1..] == [second];
    assert MatchesAll([second], s, k, |s|, UPPER_FOLD);
    assert MatchesAll([first, second], s, 0, |s|, UPPER_FOLD);
    assert Boundary(s, 0) && Matches(Concat([first, second]), s, 0, |s|, UPPER_FOLD);
  }

  lemma FoldCaseMatch()
    ensures LiteralAt(Runes("FOO"), true, Ascii("foox"), 0, 3, UPPER_FOLD)
    ensures LiteralAt(Runes("x"), false, Ascii("foox"), 3, 4, UPPER_FOLD)
  {
    var s := Ascii("foox");
    assert Runes("FOO")[1..] == Runes("OO") && Runes("OO")[1..] == Runes("O") && Runes("O")[1..] == [];
    assert Runes("x")[1..] == [];
    assert LiteralAt([], true, s, 3, 3, UPPER_FOLD);
    assert LiteralAt(Runes("O"), true, s, 2, 3, UPPER_FOLD);
    assert LiteralAt(Runes("OO"), true, s, 1, 3, UPPER_FOLD);
  }

  lemma FoldCaseLiteral(first: Node, second: Node)
    requires first == Literal(Runes("FOO"), true) && second == Literal(Runes("x"), false)
    ensures LiteralOf(Concat([first, second])) == Ascii("FOO")
  {
    assert Runes("FOO")[1..] == Runes("OO") && Runes("OO")[1..] == Runes("O") && Runes("O")[1..] == [];
    assert Runes("x")[1..] == [];
    assert EncodeAll(Runes("OO")) == Ascii("OO");
    assert EncodeAll(Runes("FOO")) == Ascii("FOO");
    assert EncodeAll(Runes("x")) == Ascii("x");
    var subs := [first, second];
    assert subs[..1] == [first] && [first][..0] == [];
    assert LongestLiteral([first]) == Ascii("FOO");
    assert LongestLiteral(subs) == Ascii("FOO") by {
      assert subs[..|subs| - 1] == [first] && |LiteralOf(subs[|subs| - 1])| == 1;
    }
  }
}
