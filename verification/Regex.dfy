/** The regex syntax tree, what its nodes match, and the literal that `extractLiteral`
    promises to be part of every match. */
module Regex {
  import opened Bytes
  import opened Utf8

  datatype Node =
    | NoMatch
    | EmptyMatch
    | Literal(runes: seq<Rune>, foldCase: bool)
    | CharClass(ranges: seq<(Rune, Rune)>)
    | AnyCharNotNL
    | AnyChar
    | BeginLine
    | EndLine
    | BeginText
    | EndText
    | WordBoundary
    | NoWordBoundary
    | Capture(sub: Node)
    | Star(sub: Node)
    | Plus(sub: Node)
    | Quest(sub: Node)
    | Repeat(sub: Node, min: nat, max: int)  // max == -1: no upper bound
    | Concat(subs: seq<Node>)
    | Alternate(subs: seq<Node>)

  /** Which runes a fold-case literal takes for one another. */
  type FoldTable = (Rune, Rune) -> bool

  /** `runes` are the runes decoded from `s[i..j]`, up to case when `foldCase` is set. */
  predicate LiteralAt(runes: seq<Rune>, foldCase: bool, s: seq<Byte>, i: nat, j: nat, fold: FoldTable)
    requires j <= |s|
  {
    if runes == [] then i == j
    else
      i < j &&
      var (r, w) := Decode(s, i);
      && (r == runes[0] || (foldCase && fold(runes[0], r)))
      && LiteralAt(runes[1..], foldCase, s, i + w, j, fold)
  }

  predicate WordByte(b: Byte) {
    'a' as int <= b as int <= 'z' as int || 'A' as int <= b as int <= 'Z' as int
    || '0' as int <= b as int <= '9' as int || b as int == '_' as int
  }

  predicate AtWordBoundary(s: seq<Byte>, i: nat)
    requires i <= |s|
  {
    (i > 0 && WordByte(s[i - 1])) != (i < |s| && WordByte(s[i]))
  }

  predicate OneRune(s: seq<Byte>, i: nat, j: nat)
    requires j <= |s|
  {
    i < j && i + Decode(s, i).1 == j
  }

  /** `re` can match exactly `s[i..j]`, standing where it stands in `s`. */
  ghost predicate Matches(re: Node, s: seq<Byte>, i: nat, j: nat, fold: FoldTable)
    requires i <= j <= |s|
    decreases re, 0, 0
  {
    match re
    case NoMatch => false
    case EmptyMatch => i == j
    case Literal(runes, foldCase) => LiteralAt(runes, foldCase, s, i, j, fold)
    case CharClass(ranges) =>
      OneRune(s, i, j) &&
      exists k :: 0 <= k < |ranges| && ranges[k].0 <= Decode(s, i).0 <= ranges[k].1
    case AnyCharNotNL => OneRune(s, i, j) && s[i] != NL
    case AnyChar => OneRune(s, i, j)
    case BeginLine => i == j && (i == 0 || s[i - 1] == NL)
    case EndLine => i == j && (i == |s| || s[i] == NL)
    case BeginText => i == j == 0
    case EndText => i == j == |s|
    case WordBoundary => i == j && AtWordBoundary(s, i)
    case NoWordBoundary => i == j && !AtWordBoundary(s, i)
    case Capture(sub) => Matches(sub, s, i, j, fold)
    case Star(sub) => exists n: nat :: MatchesTimes(sub, n, s, i, j, fold)
    case Plus(sub) => exists n: nat :: n >= 1 && MatchesTimes(sub, n, s, i, j, fold)
    case Quest(sub) => i == j || Matches(sub, s, i, j, fold)
    case Repeat(sub, min, max) =>
      exists n: nat :: min <= n && (max == -1 || n <= max) && MatchesTimes(sub, n, s, i, j, fold)
    case Concat(subs) => MatchesAll(subs, s, i, j, fold)
    case Alternate(subs) => exists k :: 0 <= k < |subs| && Matches(subs[k], s, i, j, fold)
  }

  /** `s[i..j]` is `n` consecutive matches of `re`. */
  ghost predicate MatchesTimes(re: Node, n: nat, s: seq<Byte>, i: nat, j: nat, fold: FoldTable)
    requires i <= j <= |s|
    decreases re, 1, n
  {
    if n == 0 then i == j
    else exists k :: i <= k <= j && Matches(re, s, i, k, fold) && MatchesTimes(re, n - 1, s, k, j, fold)
  }

  /** `s[i..j]` is one match of each of `subs`, in order. */
  ghost predicate MatchesAll(subs: seq<Node>, s: seq<Byte>, i: nat, j: nat, fold: FoldTable)
    requires i <= j <= |s|
    decreases subs, 0, 0
  {
    if subs == [] then i == j
    else exists k :: i <= k <= j && Matches(subs[0], s, i, k, fold) && MatchesAll(subs[1..], s, k, j, fold)
  }

  /** A match as a search can find it: it starts only where a rune starts. */
  ghost predicate MatchAt(re: Node, s: seq<Byte>, i: nat, j: nat, fold: FoldTable) {
    i <= j <= |s| && Boundary(s, i) && Matches(re, s, i, j, fold)
  }

  /** The unanchored search a compiled regex performs. */
  ghost predicate Found(re: Node, s: seq<Byte>, fold: FoldTable) {
    exists i: nat, j: nat :: i <= j <= |s| && Boundary(s, i) && Matches(re, s, i, j, fold)
  }

  /** The literal the tree walk of `extractLiteral` settles on; empty when it has none. */
  function LiteralOf(re: Node): seq<Byte>
    decreases re
  {
    match re
    case Literal(runes, _) => EncodeAll(runes)
    case Concat(subs) => LongestLiteral(subs)
    case Capture(sub) => LiteralOf(sub)
    case Plus(sub) => LiteralOf(sub)
    case Repeat(sub, min, _) => if min >= 1 then LiteralOf(sub) else []
    case _ => []
  }

  /** The first of the longest literals of `subs`. */
  function LongestLiteral(subs: seq<Node>): seq<Byte>
    decreases subs
  {
    if subs == [] then []
    else
      var n := |subs| - 1;
      var best := LongestLiteral(subs[..n]);
      var cand := LiteralOf(subs[n]);
      if |cand| > |best| then cand else best
  }

  /** `extractLiteral` (the test that a node has one child is part of the type here). */
  method ExtractLiteral(re: Node) returns (literal: seq<Byte>)
    ensures literal == LiteralOf(re)
    decreases re
  {
    literal := [];
    match re
    case Literal(runes, _) =>
      literal := EncodeAll(runes);
    case Concat(subs) =>
      for k := 0 to |subs|
        invariant literal == LongestLiteral(subs[..k])
      {
        var cand := ExtractLiteral(subs[k]);
        assert subs[..k + 1][..k] == subs[..k];
        if |cand| > |literal| {
          literal := cand;
        }
      }
      assert subs[..|subs|] == subs;
    case Capture(sub) =>
      literal := ExtractLiteral(sub);
    case Plus(sub) =>
      literal := ExtractLiteral(sub);
    case Repeat(sub, min, _) =>
      if min >= 1 {
        literal := ExtractLiteral(sub);
      }
    case _ =>
  }

  /** All literals that the shape of the tree makes mandatory: those reached without passing
      through an alternation, a star, a question mark or a repetition that may be empty. */
  ghost function Mandatory(re: Node): set<seq<Byte>>
    decreases re
  {
    match re
    case Literal(runes, _) => {EncodeAll(runes)}
    case Concat(subs) => MandatoryAll(subs)
    case Capture(sub) => Mandatory(sub)
    case Plus(sub) => Mandatory(sub)
    case Repeat(sub, min, _) => if min >= 1 then Mandatory(sub) else {}
    case _ => {}
  }

  ghost function MandatoryAll(subs: seq<Node>): set<seq<Byte>>
    decreases subs
  {
    if subs == [] then {} else MandatoryAll(subs[..|subs| - 1]) + Mandatory(subs[|subs| - 1])
  }

  /** A literal node that is matched by its own bytes only: no rune of it has another case when
      case is folded, and none is U+FFFD, which also stands for ill-formed bytes. */
  ghost predicate ExactLiteral(runes: seq<Rune>, foldCase: bool, fold: FoldTable) {
    && RUNE_ERROR !in runes
    && (foldCase ==> forall k, v :: 0 <= k < |runes| && fold(runes[k], v) ==> v == runes[k])
  }

  /** The mandatory literals that an exact node stands for. */
  ghost function Exact(re: Node, fold: FoldTable): set<seq<Byte>>
    decreases re
  {
    match re
    case Literal(runes, foldCase) => if ExactLiteral(runes, foldCase, fold) then {EncodeAll(runes)} else {}
    case Concat(subs) => ExactAll(subs, fold)
    case Capture(sub) => Exact(sub, fold)
    case Plus(sub) => Exact(sub, fold)
    case Repeat(sub, min, _) => if min >= 1 then Exact(sub, fold) else {}
    case _ => {}
  }

  ghost function ExactAll(subs: seq<Node>, fold: FoldTable): set<seq<Byte>>
    decreases subs
  {
    if subs == [] then {} else ExactAll(subs[..|subs| - 1], fold) + Exact(subs[|subs| - 1], fold)
  }

  /** Some exact node stands for the extracted literal, if there is one; what else the tree holds, and
      how that folds, does not matter. */
  ghost predicate Sure(re: Node, fold: FoldTable) {
    LiteralOf(re) == [] || LiteralOf(re) in Exact(re, fold)
  }

  /** The extracted literal is the longest mandatory one, and empty only when all are. */
  lemma {:induction false} LiteralIsLongestMandatory(re: Node)
    ensures LiteralOf(re) != [] ==> LiteralOf(re) in Mandatory(re)
    ensures forall lit :: lit in Mandatory(re) ==> |lit| <= |LiteralOf(re)|
    decreases re
  {
    match re
    case Concat(subs) => LongestIsLongestMandatory(subs);
    case Capture(sub) => LiteralIsLongestMandatory(sub);
    case Plus(sub) => LiteralIsLongestMandatory(sub);
    case Repeat(sub, _, _) => LiteralIsLongestMandatory(sub);
    case _ =>
  }

  lemma {:induction false} LongestIsLongestMandatory(subs: seq<Node>)
    ensures LongestLiteral(subs) != [] ==> LongestLiteral(subs) in MandatoryAll(subs)
    ensures forall lit :: lit in MandatoryAll(subs) ==> |lit| <= |LongestLiteral(subs)|
    decreases subs
  {
    if subs != [] {
      LongestIsLongestMandatory(subs[..|subs| - 1]);
      LiteralIsLongestMandatory(subs[|subs| - 1]);
    }
  }

  /** Among children with equally long literals, the first one's is taken. */
  lemma {:induction false} FirstLongest(subs: seq<Node>)
    ensures forall i :: 0 <= i < |subs| ==> |LiteralOf(subs[i])| <= |LongestLiteral(subs)|
    ensures LongestLiteral(subs) != [] ==>
      exists k :: 0 <= k < |subs| && LiteralOf(subs[k]) == LongestLiteral(subs)
                  && forall i :: 0 <= i < k ==> |LiteralOf(subs[i])| < |LongestLiteral(subs)|
    decreases |subs|
  {
    hide LiteralOf;
    if subs != [] {
      var n := |subs| - 1;
      FirstLongest(subs[..n]);
      assert forall i :: 0 <= i < n ==> subs[..n][i] == subs[i];
      if |LiteralOf(subs[n])| <= |LongestLiteral(subs[..n])| && LongestLiteral(subs) != [] {
        var k :| 0 <= k < n && LiteralOf(subs[..n][k]) == LongestLiteral(subs)
                 && forall i :: 0 <= i < k ==> |LiteralOf(subs[..n][i])| < |LongestLiteral(subs)|;
        assert LiteralOf(subs[k]) == LongestLiteral(subs);
      }
    }
  }

  lemma ContainsWider(s: seq<Byte>, i: nat, a: nat, b: nat, j: nat, lit: seq<Byte>)
    requires i <= a <= b <= j <= |s| && Contains(s[a..b], lit)
    ensures Contains(s[i..j], lit)
  {
    var k :| OccursAt(s[a..b], lit, k);
    var from, to := a - i + k, a - i + k + |lit|;
    SliceOfSlice(s, i, j, from, to);
    SliceOfSlice(s, a, b, k, k + |lit|);
    assert OccursAt(s[i..j], lit, a - i + k);
  }

  lemma {:induction false} ExactLiteralText(
    runes: seq<Rune>, foldCase: bool, s: seq<Byte>, i: nat, j: nat, fold: FoldTable)
    requires i <= j <= |s| && ExactLiteral(runes, foldCase, fold) && LiteralAt(runes, foldCase, s, i, j, fold)
    ensures s[i..j] == EncodeAll(runes)
    ensures forall k :: 0 <= k < |runes| ==> !Surrogate(runes[k])
    decreases |runes|
  {
    if runes != [] {
      var w := Decode(s, i).1;
      assert i + w <= j by { LiteralEnds(runes[1..], foldCase, s, i + w, j, fold); }
      assert fold(runes[0], Decode(s, i).0) && foldCase ==> Decode(s, i).0 == runes[0];
      DecodedIsEncoded(s, i);
      assert forall k :: 0 <= k < |runes[1..]| ==> runes[1..][k] == runes[k + 1];
      ExactLiteralText(runes[1..], foldCase, s, i + w, j, fold);
      assert s[i..j] == s[i..i + w] + s[i + w..j];
      forall k | 0 <= k < |runes| ensures !Surrogate(runes[k]) {
        assert k > 0 ==> runes[k] == runes[1..][k - 1];
      }
    }
  }

  lemma {:induction false} LiteralEnds(runes: seq<Rune>, foldCase: bool, s: seq<Byte>, i: nat, j: nat, fold: FoldTable)
    requires j <= |s| && LiteralAt(runes, foldCase, s, i, j, fold)
    ensures i <= j
  {
  }

  /** Every match contains every mandatory literal that an exact node stands for. */
  lemma {:induction false} MatchHoldsExact(re: Node, s: seq<Byte>, i: nat, j: nat, fold: FoldTable, lit: seq<Byte>)
    requires i <= j <= |s| && Matches(re, s, i, j, fold) && lit in Exact(re, fold)
    ensures Contains(s[i..j], lit)
    decreases re, 0, 0
  {
    match re
    case Literal(runes, foldCase) =>
      ExactLiteralText(runes, foldCase, s, i, j, fold);
      assert OccursAt(s[i..j], lit, 0);
    case Concat(subs) =>
      AllHoldExact(subs, s, i, j, fold, lit);
    case Capture(sub) =>
      MatchHoldsExact(sub, s, i, j, fold, lit);
    case Plus(sub) =>
      var n: nat :| n >= 1 && MatchesTimes(sub, n, s, i, j, fold);
      TimesHoldExact(sub, n, s, i, j, fold, lit);
    case Repeat(sub, min, max) =>
      var n: nat :| min <= n && (max == -1 || n <= max) && MatchesTimes(sub, n, s, i, j, fold);
      TimesHoldExact(sub, n, s, i, j, fold, lit);
  }

  lemma {:induction false} TimesHoldExact(re: Node, n: nat, s: seq<Byte>, i: nat, j: nat, fold: FoldTable, lit: seq<Byte>)
    requires i <= j <= |s| && n >= 1 && MatchesTimes(re, n, s, i, j, fold) && lit in Exact(re, fold)
    ensures Contains(s[i..j], lit)
    decreases re, 1, n
  {
    var k :| i <= k <= j && Matches(re, s, i, k, fold) && MatchesTimes(re, n - 1, s, k, j, fold);
    MatchHoldsExact(re, s, i, k, fold, lit);
    ContainsWider(s, i, i, k, j, lit);
  }

  lemma {:induction false} AllHoldExact(subs: seq<Node>, s: seq<Byte>, i: nat, j: nat, fold: FoldTable, lit: seq<Byte>)
    requires i <= j <= |s| && MatchesAll(subs, s, i, j, fold) && lit in ExactAll(subs, fold)
    ensures Contains(s[i..j], lit)
    decreases subs, 0, 0
  {
    ExactSplit(subs, fold, lit);
    var k :| i <= k <= j && Matches(subs[0], s, i, k, fold) && MatchesAll(subs[1..], s, k, j, fold);
    if lit in Exact(subs[0], fold) {
      MatchHoldsExact(subs[0], s, i, k, fold, lit);
      ContainsWider(s, i, i, k, j, lit);
    } else {
      AllHoldExact(subs[1..], s, k, j, fold, lit);
      ContainsWider(s, i, k, j, j, lit);
    }
  }

  lemma {:induction false} ExactSplit(subs: seq<Node>, fold: FoldTable, lit: seq<Byte>)
    requires subs != [] && lit in ExactAll(subs, fold)
    ensures lit in Exact(subs[0], fold) || lit in ExactAll(subs[1..], fold)
    decreases |subs|
  {
    var n := |subs| - 1;
    if lit in Exact(subs[n], fold) {
      if n > 0 {
        assert subs[1..][n - 1] == subs[n];
      }
    } else {
      ExactSplit(subs[..n], fold, lit);
      assert subs[..n][1..] == subs[1..][..n - 1];
    }
  }

  /** The pre-filter is sound: whatever the tree matches holds the extracted literal. */
  lemma ExtractedLiteralIsSound(re: Node, s: seq<Byte>, fold: FoldTable)
    requires Sure(re, fold) && Found(re, s, fold)
    ensures Contains(s, LiteralOf(re))
  {
    var i: nat, j: nat :| i <= j <= |s| && Boundary(s, i) && Matches(re, s, i, j, fold);
    var lit := LiteralOf(re);
    if lit != [] {
      MatchHoldsExact(re, s, i, j, fold, lit);
      ContainsWider(s, 0, i, j, |s|, lit);
      assert s[0..|s|] == s;
    } else {
      assert OccursAt(s, lit, 0);
    }
  }
}
