/** Which regexes find the same lines on the whole body as line by line. */
module LineRegex {
  import opened Bytes
  import opened Utf8
  import opened Regex
  import opened Matcher
  import opened Scan
  import opened ScanProofs

  /** No match of `re` covers the ASCII byte `b`. */
  ghost predicate Avoids(re: Node, b: Byte, fold: FoldTable)
    decreases re
  {
    match re
    case Literal(runes, foldCase) =>
      forall k :: 0 <= k < |runes| ==> runes[k] != b as int && !(foldCase && fold(runes[k], b as int))
    case CharClass(ranges) => forall k :: 0 <= k < |ranges| ==> !(ranges[k].0 <= b as int <= ranges[k].1)
    case AnyCharNotNL => b == NL
    case AnyChar => false
    case Capture(sub) => Avoids(sub, b, fold)
    case Star(sub) => Avoids(sub, b, fold)
    case Plus(sub) => Avoids(sub, b, fold)
    case Quest(sub) => Avoids(sub, b, fold)
    case Repeat(sub, _, _) => Avoids(sub, b, fold)
    case Concat(subs) => forall k :: 0 <= k < |subs| ==> Avoids(subs[k], b, fold)
    case Alternate(subs) => forall k :: 0 <= k < |subs| ==> Avoids(subs[k], b, fold)
    case _ => true
  }

  /** `re` asks nothing about where the text begins or ends, and, for the sake of carriage returns
      before newlines, nothing that changes when one is stripped. */
  predicate Unanchored(re: Node, crlf: bool)
    decreases re
  {
    match re
    case BeginText => false
    case EndText => false
    case EndLine => !crlf
    case NoWordBoundary => !crlf
    case Capture(sub) => Unanchored(sub, crlf)
    case Star(sub) => Unanchored(sub, crlf)
    case Plus(sub) => Unanchored(sub, crlf)
    case Quest(sub) => Unanchored(sub, crlf)
    case Repeat(sub, _, _) => Unanchored(sub, crlf)
    case Concat(subs) => forall k :: 0 <= k < |subs| ==> Unanchored(subs[k], crlf)
    case Alternate(subs) => forall k :: 0 <= k < |subs| ==> Unanchored(subs[k], crlf)
    case _ => true
  }

  /** A regex that works line by line; with `crlf`, also when lines end in carriage returns. */
  ghost predicate Linewise(re: Node, crlf: bool, fold: FoldTable) {
    Avoids(re, NL, fold) && Unanchored(re, crlf) && (crlf ==> Avoids(re, CR, fold))
  }

  predicate EndsLineInCR(data: seq<Byte>, p: int) {
    0 <= p < |data| && data[p] == CR && (p + 1 == |data| || data[p + 1] == NL)
  }

  // ----- what a match covers

  lemma DecodeAvoids(s: seq<Byte>, i: nat, b: Byte, k: nat)
    requires i < |s| && b < 0x80 && i <= k < i + Decode(s, i).1 && s[k] == b
    ensures k == i && Decode(s, i) == (b as int, 1)
  {
  }

  lemma {:induction false} LiteralAvoids(
    runes: seq<Rune>, foldCase: bool, s: seq<Byte>, i: nat, j: nat, b: Byte, k: nat, fold: FoldTable)
    requires j <= |s| && b < 0x80 && LiteralAt(runes, foldCase, s, i, j, fold)
    requires Avoids(Literal(runes, foldCase), b, fold) && i <= k < j
    ensures s[k] != b
    decreases |runes|
  {
    hide Decode;
    if runes != [] {
      var w := Decode(s, i).1;
      if s[k] == b && k < i + w {
        DecodeAvoids(s, i, b, k);
      } else if k >= i + w {
        assert forall n :: 0 <= n < |runes[1..]| ==> runes[1..][n] == runes[n + 1];
        LiteralAvoids(runes[1..], foldCase, s, i + w, j, b, k, fold);
      }
    }
  }

  lemma {:induction false} MatchAvoids(re: Node, s: seq<Byte>, i: nat, j: nat, b: Byte, k: nat, fold: FoldTable)
    requires i <= k < j <= |s| && b < 0x80 && Avoids(re, b, fold) && Matches(re, s, i, j, fold)
    ensures s[k] != b
    decreases re, 0, 0
  {
    hide Decode;
    match re
    case Literal(runes, foldCase) => LiteralAvoids(runes, foldCase, s, i, j, b, k, fold);
    case CharClass(_) =>
      if s[k] == b {
        DecodeAvoids(s, i, b, k);
      }
    case AnyCharNotNL =>
      if s[k] == b {
        DecodeAvoids(s, i, b, k);
      }
    case Capture(sub) => MatchAvoids(sub, s, i, j, b, k, fold);
    case Star(sub) =>
      var n: nat :| MatchesTimes(sub, n, s, i, j, fold);
      TimesAvoid(sub, n, s, i, j, b, k, fold);
    case Plus(sub) =>
      var n: nat :| n >= 1 && MatchesTimes(sub, n, s, i, j, fold);
      TimesAvoid(sub, n, s, i, j, b, k, fold);
    case Quest(sub) => MatchAvoids(sub, s, i, j, b, k, fold);
    case Repeat(sub, min, max) =>
      var n: nat :| min <= n && (max == -1 || n <= max) && MatchesTimes(sub, n, s, i, j, fold);
      TimesAvoid(sub, n, s, i, j, b, k, fold);
    case Concat(subs) => AllAvoid(subs, s, i, j, b, k, fold);
    case Alternate(subs) =>
      var n :| 0 <= n < |subs| && Matches(subs[n], s, i, j, fold);
      MatchAvoids(subs[n], s, i, j, b, k, fold);
    case _ =>
  }

  lemma {:induction false} TimesAvoid(re: Node, n: nat, s: seq<Byte>, i: nat, j: nat, b: Byte, k: nat, fold: FoldTable)
    requires i <= k < j <= |s| && b < 0x80 && Avoids(re, b, fold) && MatchesTimes(re, n, s, i, j, fold)
    ensures s[k] != b
    decreases re, 1, n
  {
    var h :| i <= h <= j && Matches(re, s, i, h, fold) && MatchesTimes(re, n - 1, s, h, j, fold);
    if k < h {
      MatchAvoids(re, s, i, h, b, k, fold);
    } else {
      TimesAvoid(re, n - 1, s, h, j, b, k, fold);
    }
  }

  lemma {:induction false} AllAvoid(subs: seq<Node>, s: seq<Byte>, i: nat, j: nat, b: Byte, k: nat, fold: FoldTable)
    requires i <= k < j <= |s| && b < 0x80 && MatchesAll(subs, s, i, j, fold)
    requires forall n :: 0 <= n < |subs| ==> Avoids(subs[n], b, fold)
    ensures s[k] != b
    decreases subs, 0, 0
  {
    var h :| i <= h <= j && Matches(subs[0], s, i, h, fold) && MatchesAll(subs[1..], s, h, j, fold);
    if k < h {
      MatchAvoids(subs[0], s, i, h, b, k, fold);
    } else {
      AllAvoid(subs[1..], s, h, j, b, k, fold);
    }
  }

  // ----- a line and its place in the body

  /** `s[a..t]` is a line of `s` that ends at `e`, without its carriage return. */
  ghost predicate LineIn(s: seq<Byte>, a: nat, t: nat, e: nat) {
    && a <= t <= e <= |s| && (a == 0 || s[a - 1] == NL) && (e == |s| || s[e] == NL)
    && (t == e || (t + 1 == e && s[t] == CR))
    && forall k :: a <= k < e ==> s[k] != NL
  }

  /** Where offset `i` of the body is on the line; a stripped carriage return has no place of its own. */
  function Column(a: nat, t: nat, i: nat): nat
    requires a <= t && a <= i
  {
    (if i <= t then i else t) - a
  }

  lemma DecodeLocal(s: seq<Byte>, a: nat, t: nat, e: nat, i: nat)
    requires LineIn(s, a, t, e) && a <= i < t
    ensures Decode(s[a..t], i - a) == Decode(s, i)
  {
    var line := s[a..t];
    assert forall k :: i <= k < t ==> line[k - a] == s[k];
  }

  lemma {:induction false} LiteralLocal(
    runes: seq<Rune>, foldCase: bool, s: seq<Byte>, a: nat, t: nat, e: nat, i: nat, j: nat, fold: FoldTable)
    requires LineIn(s, a, t, e) && a <= i <= t && a <= j <= t
    ensures LiteralAt(runes, foldCase, s[a..t], i - a, j - a, fold) <==> LiteralAt(runes, foldCase, s, i, j, fold)
    decreases |runes|
  {
    hide Decode, LineIn;
    if runes != [] && i < j {
      DecodeLocal(s, a, t, e, i);
      var w := Decode(s, i).1;
      assert i + w <= t;
      LiteralLocal(runes[1..], foldCase, s, a, t, e, i + w, j, fold);
    }
  }

  /** Tests of a single position come out alike on the line. */
  lemma PositionLocal(s: seq<Byte>, a: nat, t: nat, e: nat, i: nat)
    requires LineIn(s, a, t, e) && a <= i <= t
    ensures AtWordBoundary(s[a..t], i - a) == AtWordBoundary(s, i)
    ensures (i - a == 0 || s[a..t][i - a - 1] == NL) <==> (i == 0 || s[i - 1] == NL)
    ensures t == e ==> ((i - a == |s[a..t]| || s[a..t][i - a] == NL) <==> (i == |s| || s[i] == NL))
  {
    var line := s[a..t];
    assert i < t ==> line[i - a] == s[i];
    assert a < i ==> line[i - a - 1] == s[i - 1];
  }

  /** A match that covers something stays clear of a stripped carriage return. */
  lemma CoversLine(re: Node, s: seq<Byte>, a: nat, t: nat, e: nat, i: nat, j: nat, fold: FoldTable)
    requires LineIn(s, a, t, e) && a <= i < j <= e && Matches(re, s, i, j, fold) && (t < e ==> Avoids(re, CR, fold))
    ensures j <= t
  {
    if j > t {
      MatchAvoids(re, s, i, j, CR, t, fold);
    }
  }

  /** A position behind a stripped carriage return. */
  lemma BehindReturn(s: seq<Byte>, a: nat, t: nat, e: nat, i: nat)
    requires LineIn(s, a, t, e) && t < i <= e
    ensures i == e == t + 1 && s[i - 1] != NL && !AtWordBoundary(s, i)
  {
  }

  /** Nodes without children. */
  predicate Leaf(re: Node) {
    !(re.Capture? || re.Star? || re.Plus? || re.Quest? || re.Repeat? || re.Concat? || re.Alternate?)
  }

  lemma LeafOnLine(re: Node, s: seq<Byte>, a: nat, t: nat, e: nat, i: nat, j: nat, fold: FoldTable)
    requires Leaf(re) && LineIn(s, a, t, e) && a <= i <= j <= e && Matches(re, s, i, j, fold)
    requires Unanchored(re, t < e) && (t < e ==> Avoids(re, CR, fold))
    ensures Matches(re, s[a..t], Column(a, t, i), Column(a, t, j), fold)
  {
    hide Decode, LineIn, AtWordBoundary, Avoids;
    LineBounds(s, a, t, e);
    if i < j {
      CoversLine(re, s, a, t, e, i, j, fold);
      DecodeLocal(s, a, t, e, i);
      if re.Literal? {
        LiteralLocal(re.runes, re.foldCase, s, a, t, e, i, j, fold);
      }
    } else if i > t {
      BehindReturn(s, a, t, e, i);
    } else {
      PositionLocal(s, a, t, e, i);
    }
  }

  /** What matches in the body matches on the line. */
  lemma {:induction false} MatchOnLine(re: Node, s: seq<Byte>, a: nat, t: nat, e: nat, i: nat, j: nat, fold: FoldTable)
    requires LineIn(s, a, t, e) && a <= i <= j <= e && Matches(re, s, i, j, fold)
    requires Unanchored(re, t < e) && (t < e ==> Avoids(re, CR, fold))
    ensures Matches(re, s[a..t], Column(a, t, i), Column(a, t, j), fold)
    decreases re, 0, 0
  {
    hide Decode, LineIn, AtWordBoundary, LiteralAt, OneRune;
    LineBounds(s, a, t, e);
    match re
    case Capture(sub) => MatchOnLine(sub, s, a, t, e, i, j, fold);
    case Star(sub) =>
      var n: nat :| MatchesTimes(sub, n, s, i, j, fold);
      TimesOnLine(sub, n, s, a, t, e, i, j, fold);
    case Plus(sub) =>
      var n: nat :| n >= 1 && MatchesTimes(sub, n, s, i, j, fold);
      TimesOnLine(sub, n, s, a, t, e, i, j, fold);
    case Quest(sub) =>
      if i != j {
        MatchOnLine(sub, s, a, t, e, i, j, fold);
      }
    case Repeat(sub, min, max) =>
      var n: nat :| min <= n && (max == -1 || n <= max) && MatchesTimes(sub, n, s, i, j, fold);
      TimesOnLine(sub, n, s, a, t, e, i, j, fold);
    case Concat(subs) => AllOnLine(subs, s, a, t, e, i, j, fold);
    case Alternate(subs) =>
      var n :| 0 <= n < |subs| && Matches(subs[n], s, i, j, fold);
      MatchOnLine(subs[n], s, a, t, e, i, j, fold);
    case _ => LeafOnLine(re, s, a, t, e, i, j, fold);
  }

  lemma {:induction false} TimesOnLine(
    re: Node, n: nat, s: seq<Byte>, a: nat, t: nat, e: nat, i: nat, j: nat, fold: FoldTable)
    requires LineIn(s, a, t, e) && a <= i <= j <= e && MatchesTimes(re, n, s, i, j, fold)
    requires Unanchored(re, t < e) && (t < e ==> Avoids(re, CR, fold))
    ensures MatchesTimes(re, n, s[a..t], Column(a, t, i), Column(a, t, j), fold)
    decreases re, 1, n
  {
    hide LineIn, Matches, Unanchored, Avoids;
    LineBounds(s, a, t, e);
    if n > 0 {
      var k :| i <= k <= j && Matches(re, s, i, k, fold) && MatchesTimes(re, n - 1, s, k, j, fold);
      MatchOnLine(re, s, a, t, e, i, k, fold);
      TimesOnLine(re, n - 1, s, a, t, e, k, j, fold);
    }
  }

  lemma {:induction false} AllOnLine(
    subs: seq<Node>, s: seq<Byte>, a: nat, t: nat, e: nat, i: nat, j: nat, fold: FoldTable)
    requires LineIn(s, a, t, e) && a <= i <= j <= e && MatchesAll(subs, s, i, j, fold)
    requires forall n :: 0 <= n < |subs| ==> Unanchored(subs[n], t < e) && (t < e ==> Avoids(subs[n], CR, fold))
    ensures MatchesAll(subs, s[a..t], Column(a, t, i), Column(a, t, j), fold)
    decreases subs, 0, 0
  {
    hide LineIn, Matches, Unanchored, Avoids;
    LineBounds(s, a, t, e);
    if subs != [] {
      var k :| i <= k <= j && Matches(subs[0], s, i, k, fold) && MatchesAll(subs[1..], s, k, j, fold);
      MatchOnLine(subs[0], s, a, t, e, i, k, fold);
      AllOnLine(subs[1..], s, a, t, e, k, j, fold);
    }
  }

  lemma LineBounds(s: seq<Byte>, a: nat, t: nat, e: nat)
    requires LineIn(s, a, t, e)
    ensures a <= t <= e <= |s| && |s[a..t]| == t - a
  {
  }

  lemma LeafInBody(re: Node, s: seq<Byte>, a: nat, t: nat, e: nat, i: nat, j: nat, fold: FoldTable)
    requires Leaf(re) && LineIn(s, a, t, e) && a <= i <= j <= t && Unanchored(re, t < e)
    requires Matches(re, s[a..t], i - a, j - a, fold)
    ensures Matches(re, s, i, j, fold)
  {
    hide Decode, LineIn, AtWordBoundary;
    LineBounds(s, a, t, e);
    if re.Literal? {
      LiteralLocal(re.runes, re.foldCase, s, a, t, e, i, j, fold);
    } else if i < j {
      DecodeLocal(s, a, t, e, i);
      assert s[a..t][i - a] == s[i];
    } else {
      PositionLocal(s, a, t, e, i);
    }
  }

  /** What matches on the line matches in the body. */
  lemma {:induction false} MatchInBody(re: Node, s: seq<Byte>, a: nat, t: nat, e: nat, i: nat, j: nat, fold: FoldTable)
    requires LineIn(s, a, t, e) && a <= i <= j <= t && Unanchored(re, t < e)
    requires Matches(re, s[a..t], i - a, j - a, fold)
    ensures Matches(re, s, i, j, fold)
    decreases re, 0, 0
  {
    hide Decode, LineIn, AtWordBoundary, LiteralAt, OneRune;
    LineBounds(s, a, t, e);
    match re
    case Capture(sub) => MatchInBody(sub, s, a, t, e, i, j, fold);
    case Star(sub) =>
      var n: nat :| MatchesTimes(sub, n, s[a..t], i - a, j - a, fold);
      TimesInBody(sub, n, s, a, t, e, i, j, fold);
    case Plus(sub) =>
      var n: nat :| n >= 1 && MatchesTimes(sub, n, s[a..t], i - a, j - a, fold);
      TimesInBody(sub, n, s, a, t, e, i, j, fold);
    case Quest(sub) =>
      if i != j {
        MatchInBody(sub, s, a, t, e, i, j, fold);
      }
    case Repeat(sub, min, max) =>
      var n: nat :| min <= n && (max == -1 || n <= max) && MatchesTimes(sub, n, s[a..t], i - a, j - a, fold);
      TimesInBody(sub, n, s, a, t, e, i, j, fold);
    case Concat(subs) => AllInBody(subs, s, a, t, e, i, j, fold);
    case Alternate(subs) =>
      var n :| 0 <= n < |subs| && Matches(subs[n], s[a..t], i - a, j - a, fold);
      MatchInBody(subs[n], s, a, t, e, i, j, fold);
    case _ => LeafInBody(re, s, a, t, e, i, j, fold);
  }

  lemma {:induction false} TimesInBody(
    re: Node, n: nat, s: seq<Byte>, a: nat, t: nat, e: nat, i: nat, j: nat, fold: FoldTable)
    requires LineIn(s, a, t, e) && a <= i <= j <= t && Unanchored(re, t < e)
    requires MatchesTimes(re, n, s[a..t], i - a, j - a, fold)
    ensures MatchesTimes(re, n, s, i, j, fold)
    decreases re, 1, n
  {
    hide LineIn, Matches, Unanchored, Avoids;
    LineBounds(s, a, t, e);
    if n > 0 {
      var k :| i - a <= k <= j - a && Matches(re, s[a..t], i - a, k, fold)
               && MatchesTimes(re, n - 1, s[a..t], k, j - a, fold);
      MatchInBody(re, s, a, t, e, i, k + a, fold);
      TimesInBody(re, n - 1, s, a, t, e, k + a, j, fold);
    }
  }

  lemma {:induction false} AllInBody(
    subs: seq<Node>, s: seq<Byte>, a: nat, t: nat, e: nat, i: nat, j: nat, fold: FoldTable)
    requires LineIn(s, a, t, e) && a <= i <= j <= t && MatchesAll(subs, s[a..t], i - a, j - a, fold)
    requires forall n :: 0 <= n < |subs| ==> Unanchored(subs[n], t < e)
    ensures MatchesAll(subs, s, i, j, fold)
    decreases subs, 0, 0
  {
    hide LineIn, Matches, Unanchored, Avoids;
    LineBounds(s, a, t, e);
    if subs != [] {
      var k :| i - a <= k <= j - a && Matches(subs[0], s[a..t], i - a, k, fold)
               && MatchesAll(subs[1..], s[a..t], k, j - a, fold);
      MatchInBody(subs[0], s, a, t, e, i, k + a, fold);
      AllInBody(subs[1..], s, a, t, e, k + a, j, fold);
    }
  }

  // ----- where runes start

  lemma LineStartIsBoundary(s: seq<Byte>, a: nat)
    requires a <= |s| && (a == 0 || s[a - 1] == NL)
    ensures Boundary(s, a)
  {
    if a > 0 {
      LeadingByteIsBoundary(s, 0, a - 1);
      assert Decode(s, a - 1).1 == 1;
    }
  }

  /** Decoding from the start of the body and from the start of the line stops at the same places. */
  lemma {:induction false} BoundaryLocal(s: seq<Byte>, a: nat, t: nat, e: nat, i: nat)
    requires LineIn(s, a, t, e) && a <= i <= t
    ensures Boundary(s[a..t], i - a) <==> Boundary(s, i)
    decreases i
  {
    hide Decode;
    LineBounds(s, a, t, e);
    LineStartIsBoundary(s, a);
    var line := s[a..t];
    if i > a {
      if Boundary(line, i - a) {
        var k: nat :| k < i - a && k < |line| && Boundary(line, k) && k + Decode(line, k).1 == i - a;
        DecodeLocal(s, a, t, e, a + k);
        BoundaryLocal(s, a, t, e, a + k);
      }
      if Boundary(s, i) {
        var k: nat :| k < i && k < |s| && Boundary(s, k) && k + Decode(s, k).1 == i;
        StepWithinLine(s, a, i, k);
        DecodeLocal(s, a, t, e, k);
        BoundaryLocal(s, a, t, e, k);
        assert Boundary(line, k - a) && k - a + Decode(line, k - a).1 == i - a;
      }
    }
  }

  /** No decoding step crosses the start of a line. */
  lemma StepWithinLine(s: seq<Byte>, a: nat, i: nat, k: nat)
    requires a < i <= |s| && k < i && (a == 0 || s[a - 1] == NL) && k + Decode(s, k).1 == i
    ensures k >= a
  {
    if k == a - 1 {
      NewlineIsOneStep(s, k);
    }
  }

  lemma NewlineIsOneStep(s: seq<Byte>, k: nat)
    requires k < |s| && s[k] == NL
    ensures Decode(s, k).1 == 1
  {
  }

  // ----- lines found

  /** Some match starts on the line that ends at `e`. */
  ghost predicate MatchStarts(re: Node, s: seq<Byte>, a: nat, e: nat, fold: FoldTable) {
    exists i: nat, j: nat :: a <= i <= e && MatchAt(re, s, i, j, fold)
  }

  lemma FoundOnLine(re: Node, s: seq<Byte>, a: nat, t: nat, e: nat, fold: FoldTable)
    requires LineIn(s, a, t, e) && Linewise(re, t < e, fold)
    ensures Found(re, s[a..t], fold) <==> MatchStarts(re, s, a, e, fold)
  {
    hide Matches, Boundary, Avoids, Unanchored;
    LineBounds(s, a, t, e);
    var line := s[a..t];
    if Found(re, line, fold) {
      var i: nat, j: nat :| i <= j <= |line| && Boundary(line, i) && Matches(re, line, i, j, fold);
      MatchInBody(re, s, a, t, e, a + i, a + j, fold);
      BoundaryLocal(s, a, t, e, a + i);
      assert MatchAt(re, s, a + i, a + j, fold);
    }
    if MatchStarts(re, s, a, e, fold) {
      var i: nat, j: nat :| a <= i <= e && MatchAt(re, s, i, j, fold);
      EndsOnLine(re, s, a, t, e, i, j, fold);
      MatchOnLine(re, s, a, t, e, i, j, fold);
      ColumnIsBoundary(s, a, t, e, i);
      assert Boundary(line, Column(a, t, i)) && Matches(re, line, Column(a, t, i), Column(a, t, j), fold);
    }
  }

  lemma EndsOnLine(re: Node, s: seq<Byte>, a: nat, t: nat, e: nat, i: nat, j: nat, fold: FoldTable)
    requires LineIn(s, a, t, e) && Avoids(re, NL, fold) && a <= i <= e && i <= j <= |s| && Matches(re, s, i, j, fold)
    ensures j <= e
  {
    if j > e {
      MatchAvoids(re, s, i, j, NL, e, fold);
    }
  }

  lemma ColumnIsBoundary(s: seq<Byte>, a: nat, t: nat, e: nat, i: nat)
    requires LineIn(s, a, t, e) && a <= i <= e && Boundary(s, i)
    ensures Boundary(s[a..t], Column(a, t, i))
  {
    if i > t {
      LeadingByteIsBoundary(s, 0, t);
      BoundaryLocal(s, a, t, e, t);
    } else {
      BoundaryLocal(s, a, t, e, i);
    }
  }

  /** A line holds a hit start exactly when some match starts on it: what overlaps a hit lies on the
      line of that hit. */
  lemma HitsTellLines(re: Node, s: seq<Byte>, hits: seq<nat>, a: nat, t: nat, e: nat, fold: FoldTable)
    requires LineIn(s, a, t, e) && Avoids(re, NL, fold) && HitsOf(re, s, hits, fold)
    ensures (exists p: nat :: p in hits && a <= p <= e) <==> MatchStarts(re, s, a, e, fold)
  {
    hide MatchAt, Avoids, LineIn, Overlapped, HitsInOrder;
    if p: nat :| p in hits && a <= p <= e {
      StartsThere(re, s, p, fold);
    }
    if i: nat, j: nat :| a <= i <= e && MatchAt(re, s, i, j, fold) {
      var p: nat :| p in hits && Overlapped(re, s, p, i, fold);
      OverlapsOnLine(re, s, a, t, e, p, i, fold);
    }
  }

  lemma StartsThere(re: Node, s: seq<Byte>, p: nat, fold: FoldTable)
    requires Overlapped(re, s, p, p, fold)
    ensures exists b: nat :: MatchAt(re, s, p, b, fold)
  {
  }

  lemma OverlapsOnLine(re: Node, s: seq<Byte>, a: nat, t: nat, e: nat, p: nat, i: nat, fold: FoldTable)
    requires LineIn(s, a, t, e) && Avoids(re, NL, fold) && a <= i <= e && Overlapped(re, s, p, i, fold)
    ensures a <= p <= e
  {
    hide Matches, Boundary, Avoids;
    var b: nat :| p <= i <= b && MatchAt(re, s, p, b, fold);
    if p < a {
      MatchAvoids(re, s, p, b, NL, a - 1, fold);
    }
  }

  /** Without a pre-filter, a line-wise regex decides every line alike on the body and alone. */
  lemma RegexDecides(data: seq<Byte>, m: Matcher, starts: set<int>, insensitive: bool, fold: FoldTable)
    requires Compiled(m, insensitive, fold) && m.re.Some? && m.literal == [] && starts == HitStarts(data, m)
    requires Linewise(m.re.value.tree, exists p :: EndsLineInCR(data, p), fold)
    ensures LinesDecided(data, m, starts)
  {
    hide Linewise, Engine, Found, HitsOf;
    forall a: nat | a <= |data| && (a == 0 || data[a - 1] == NL) ensures Decided(data, m, starts, a) {
      LineDecided(data, m, starts, a, insensitive, fold);
    }
  }

  lemma LineDecided(data: seq<Byte>, m: Matcher, starts: set<int>, a: nat, insensitive: bool, fold: FoldTable)
    requires Compiled(m, insensitive, fold) && m.re.Some? && m.literal == [] && starts == HitStarts(data, m)
    requires Linewise(m.re.value.tree, exists p :: EndsLineInCR(data, p), fold)
    requires a <= |data| && (a == 0 || data[a - 1] == NL)
    ensures Decided(data, m, starts, a)
  {
    hide Avoids, Unanchored, Found, Overlapped, MatchAt, LineIn;
    var re, e := m.re.value.tree, LineEnd(data, a);
    var line := TrimCR(Slice(data, a, e));
    var t := a + |line|;
    TrimmedLineIn(data, a);
    if t < e {
      assert EndsLineInCR(data, t);
    }
    LinewiseEitherWay(re, exists p :: EndsLineInCR(data, p), t < e, fold);
    FoundOnLine(re, data, a, t, e, fold);
    HitsTellLines(re, data, m.re.value.hits(data), a, t, e, fold);
    HitsAreStarts(data, m, starts, a, e);
  }

  lemma TrimmedLineIn(data: seq<Byte>, a: nat)
    requires a <= |data| && (a == 0 || data[a - 1] == NL)
    ensures var e := LineEnd(data, a); var t := a + |TrimCR(Slice(data, a, e))|;
      && LineIn(data, a, t, e) && TrimCR(Slice(data, a, e)) == data[a..t]
      && (t < e ==> EndsLineInCR(data, t))
  {
    hide LineEnd, Slice;
    var e := LineEnd(data, a);
    var full := data[a..e];
    SliceIs(data, a, e);
    if full != [] && full[|full| - 1] == CR {
      SliceOfSlice(data, a, e, 0, e - a - 1);
      assert data[e - 1] == CR;
    }
  }

  lemma {:induction false} LinewiseEitherWay(re: Node, more: bool, less: bool, fold: FoldTable)
    requires Linewise(re, more, fold) && (less ==> more)
    ensures Linewise(re, less, fold)
  {
    UnanchoredEitherWay(re, more, less);
  }

  lemma {:induction false} UnanchoredEitherWay(re: Node, more: bool, less: bool)
    requires Unanchored(re, more) && (less ==> more)
    ensures Unanchored(re, less)
    decreases re
  {
    match re
    case Capture(sub) => UnanchoredEitherWay(sub, more, less);
    case Star(sub) => UnanchoredEitherWay(sub, more, less);
    case Plus(sub) => UnanchoredEitherWay(sub, more, less);
    case Quest(sub) => UnanchoredEitherWay(sub, more, less);
    case Repeat(sub, _, _) => UnanchoredEitherWay(sub, more, less);
    case Concat(subs) =>
      forall k | 0 <= k < |subs| ensures Unanchored(subs[k], less) {
        UnanchoredEitherWay(subs[k], more, less);
      }
    case Alternate(subs) =>
      forall k | 0 <= k < |subs| ensures Unanchored(subs[k], less) {
        UnanchoredEitherWay(subs[k], more, less);
      }
    case _ =>
  }

  lemma HitsAreStarts(data: seq<Byte>, m: Matcher, starts: set<int>, a: nat, e: nat)
    requires m.re.Some? && m.literal == [] && HitsInOrder(m.re.value.hits(data), |data|) && starts == HitStarts(data, m)
    ensures StartBetween(starts, a, e) <==> exists p: nat :: p in m.re.value.hits(data) && a <= p <= e
  {
    if p: nat :| p in m.re.value.hits(data) && a <= p <= e {
      assert HitAt(data, m, p) && (p as int) in starts;
    }
  }

  // ----- from the pattern to the lines

  /** The scan of this text works line by line: through a literal that every match holds on its line, or
      with a line-wise regex. */
  ghost predicate ByLine(m: Matcher, data: seq<Byte>, fold: FoldTable) {
    if m.re.None? then LineSafe(m)
    else if m.literal != [] then Sure(m.re.value.tree, fold)
    else Linewise(m.re.value.tree, exists p :: EndsLineInCR(data, p), fold)
  }

  /** What a compiled matcher looks for in a line. */
  ghost predicate Wanted(m: Matcher, line: seq<Byte>, fold: FoldTable) {
    if m.re.None? then Contains(line, m.literal) else Found(m.re.value.tree, line, fold)
  }

  /** The lines a file is scanned for: the stream does not see the empty one behind a final newline. */
  function FileLines(data: seq<Byte>): seq<seq<Byte>> {
    if |data| <= SCAN_BUF_SIZE then Lines(data) else TextLines(data)
  }

  /** The reader's buffer can hold every line. */
  predicate LinesFit(data: seq<Byte>) {
    forall k :: 0 <= k < |TextLines(data)| ==> |TextLines(data)[k]| < READER_BUF_SIZE
  }

  lemma CompiledIsUsable(m: Matcher, insensitive: bool, fold: FoldTable)
    requires Compiled(m, insensitive, fold)
    ensures Usable(m)
  {
  }

  /** Without a pre-filter the whole-body scan answers the matching lines if and only if, on every line,
      some hit of the regex on the body starts there exactly when the regex is found on the line alone. */
  lemma RegexScanExactly(data: seq<Byte>, m: Matcher, insensitive: bool, fold: FoldTable)
    requires Compiled(m, insensitive, fold) && m.re.Some? && m.literal == [] && !Binary(data)
    ensures Usable(m)
    ensures WholeBody(data, m) == MatchingLines(Lines(data), m, 1)
            <==> forall a: nat :: a <= |data| && (a == 0 || data[a - 1] == NL) ==> FoundAlike(data, m, a, fold)
  {
    hide LinesHolding, MatchingLines, Lines, Binary, Found, HitsOf, TrimCR, Slice, LineEnd;
    CompiledIsUsable(m, insensitive, fold);
    var starts := HitStarts(data, m);
    HoldingIsMatchingExactly(data, m, starts);
    forall a: nat | a <= |data| ensures Decided(data, m, starts, a) <==> FoundAlike(data, m, a, fold) {
      HitsAreStarts(data, m, starts, a, LineEnd(data, a));
    }
  }

  ghost predicate FoundAlike(data: seq<Byte>, m: Matcher, a: nat, fold: FoldTable)
    requires m.re.Some? && a <= |data|
  {
    var e := LineEnd(data, a);
    (exists p: nat :: p in m.re.value.hits(data) && a <= p <= e)
    <==> Found(m.re.value.tree, TrimCR(Slice(data, a, e)), fold)
  }

  lemma WholeBodyByLine(data: seq<Byte>, m: Matcher, insensitive: bool, fold: FoldTable)
    requires Compiled(m, insensitive, fold) && ByLine(m, data, fold) && !Binary(data)
    ensures Usable(m) && WholeBody(data, m) == MatchingLines(Lines(data), m, 1)
    ensures forall line :: Match(m, line) <==> Wanted(m, line, fold)
  {
    hide Linewise, LinesHolding, MatchingLines, Lines, Binary, Found, Sure;
    if m.re.None? {
      WholeBodyIsMatching(data, m);
    } else if m.literal != [] {
      CompiledIsLineSafe(m, fold);
      WholeBodyIsMatching(data, m);
      PrefilterKeepsMatches(m, fold);
    } else {
      var starts := HitStarts(data, m);
      RegexDecides(data, m, starts, insensitive, fold);
      HoldingIsMatching(data, m, starts, 0);
      assert data[0..] == data;
    }
  }

  lemma StreamByLine(data: seq<Byte>, m: Matcher)
    requires LinesFit(data) && !Binary(data)
    ensures StreamBody(data, m) == MatchingLines(TextLines(data), m, 1)
  {
    hide TextLines, MatchingLines, Binary, StreamFrom;
    assert data[0..] == data;
    StreamIsReadable(data, m, 0, 1);
    AllReadable(TextLines(data));
  }

  /** Scanning a text file with a compiled matcher reports, in order, exactly the lines in which its
      regex is found, or its literal occurs, as long as the scan works line by line and a file too large
      for the buffer has no line that is. */
  lemma ScanFindsLines(data: seq<Byte>, m: Matcher, insensitive: bool, fold: FoldTable)
    requires Compiled(m, insensitive, fold) && ByLine(m, data, fold) && !Binary(data)
    requires |data| > SCAN_BUF_SIZE ==> LinesFit(data)
    ensures Usable(m) && Increasing(FileHits(data, m))
    ensures var lines := FileLines(data);
      forall hit :: hit in FileHits(data, m) <==>
        1 <= hit.line < 1 + |lines| && hit.text == TrimCR(lines[hit.line - 1]) && Wanted(m, hit.text, fold)
  {
    hide ByLine, Lines, TextLines, MatchingLines, Binary, Wanted, Match, StreamBody, WholeBody, TrimCR, LinesFit;
    WholeBodyByLine(data, m, insensitive, fold);
    if |data| > SCAN_BUF_SIZE {
      StreamByLine(data, m);
    }
    assert FileHits(data, m) == MatchingLines(FileLines(data), m, 1);
    MatchingReports(FileLines(data), m, 1);
  }

  /** For such a scan the two ways to read a text give the same report if and only if the text does not
      end in a newline or what is looked for is not found in an empty line. So the report on a file does
      not depend on the size of the buffer exactly when the file fits it, or that holds. */
  lemma SizeIndependentExactly(data: seq<Byte>, m: Matcher, insensitive: bool, fold: FoldTable)
    requires Compiled(m, insensitive, fold) && ByLine(m, data, fold) && !Binary(data) && LinesFit(data)
    ensures Usable(m)
    ensures WholeBody(data, m) == StreamBody(data, m) <==> TextLines(data) == Lines(data) || !Wanted(m, [], fold)
    ensures FileHits(data, m) == WholeBody(data, m)
            <==> |data| <= SCAN_BUF_SIZE || TextLines(data) == Lines(data) || !Wanted(m, [], fold)
    ensures FileHits(data, m) == MatchingLines(Lines(data), m, 1) <==> FileHits(data, m) == WholeBody(data, m)
  {
    hide ByLine, Lines, TextLines, MatchingLines, Binary, Wanted, Match, StreamBody, WholeBody, LinesFit;
    WholeBodyByLine(data, m, insensitive, fold);
    StreamByLine(data, m);
    FinalLineExactly(data, m);
  }

  // ----- two regexes whose report depends on the size

  /** `^[bc]`, which has no literal to search for. */
  const ANCHORED := Concat([BeginText, CharClass([(98, 99)])])

  predicate BeginsAnchored(line: seq<Byte>) { line != [] && 98 <= line[0] <= 99 }

  /** With an anchor the two ways to read a text differ: a whole body that does not begin with `b` or `c`
      is reported to have no line that does, while the stream reports all of them. */
  lemma AnchorMissed(m: Matcher, data: seq<Byte>, fold: FoldTable)
    requires Compiled(m, false, fold) && m.re.Some? && m.re.value.tree == ANCHORED
    requires !Binary(data) && LinesFit(data) && !BeginsAnchored(data)
    ensures Usable(m) && WholeBody(data, m) == []
    ensures forall hit :: hit in StreamBody(data, m) <==>
      var lines := TextLines(data);
      1 <= hit.line < 1 + |lines| && hit.text == TrimCR(lines[hit.line - 1]) && BeginsAnchored(hit.text)
  {
    hide Binary, LinesHolding, LinesFit, TextLines, TrimCR, Found, StreamBody, MatchingLines, LiteralOf;
    AnchoredHasNoLiteral();
    CompiledIsUsable(m, false, fold);
    forall s ensures Found(ANCHORED, s, fold) <==> BeginsAnchored(s) {
      AnchoredFound(s, fold);
    }
    NoAnchoredHit(data, m.re.value.hits(data), fold);
    NoneHolding(data, HitStarts(data, m), m, 0);
    StreamByLine(data, m);
    MatchingReports(TextLines(data), m, 1);
  }

  /** So on the text `a`, newline, `b`. */
  lemma AnchorMissedOnce(m: Matcher, data: seq<Byte>, fold: FoldTable)
    requires Compiled(m, false, fold) && m.re.Some? && m.re.value.tree == ANCHORED && data == [97, NL, 98]
    ensures Usable(m) && WholeBody(data, m) == [] && Hit(2, [98]) in StreamBody(data, m)
  {
    hide WholeBody, StreamBody, Binary, LinesFit, TextLines, Compiled, TrimCR;
    TwoLines(data, [97], [98]);
    NothingToTrim();
    AnchorMissed(m, data, fold);
  }

  lemma TwoLines(data: seq<Byte>, first: seq<Byte>, second: seq<Byte>)
    requires data == first + [NL] + second && NL !in first && NL !in second && |first| == 1 && |second| <= 1
    requires NUL !in data
    ensures !Binary(data) && Lines(data) == [first, second] && LinesFit(data)
    ensures TextLines(data) == if second == [] then [first] else [first, second]
  {
    SplitCons(first, second, NL);
    SplitJoin([second], NL);
    assert [first, second][..1] == [first];
  }

  lemma AnchoredHasNoLiteral()
    ensures LiteralOf(ANCHORED) == []
  {
    var subs := [BeginText, CharClass([(98, 99)])];
    assert subs[..1] == [BeginText] && [BeginText][..0] == [];
    assert LongestLiteral([BeginText]) == [];
    assert LongestLiteral(subs) == [];
  }

  /** No other encoding decodes to `b` or `c`. */
  lemma LetterMatch(s: seq<Byte>, j: nat, fold: FoldTable)
    requires j <= |s|
    ensures Matches(CharClass([(98, 99)]), s, 0, j, fold) <==> j == 1 && BeginsAnchored(s)
  {
    assert [(98, 99)][0] == (98, 99);
    if s != [] {
      assert 98 <= Decode(s, 0).0 <= 99 <==> BeginsAnchored(s);
      assert BeginsAnchored(s) ==> Decode(s, 0).1 == 1;
    }
  }

  lemma AnchoredIs(s: seq<Byte>, i: nat, j: nat, fold: FoldTable)
    requires i <= j <= |s|
    ensures Matches(ANCHORED, s, i, j, fold) <==> i == 0 && j == 1 && BeginsAnchored(s)
  {
    hide Matches, BeginsAnchored;
    var letter := CharClass([(98, 99)]);
    AnchoredSteps(letter, s, i, j, fold);
    OnlyOne(letter, s, 0, j, fold);
    LetterMatch(s, j, fold);
  }

  lemma AnchoredSteps(letter: Node, s: seq<Byte>, i: nat, j: nat, fold: FoldTable)
    requires i <= j <= |s|
    ensures Matches(Concat([BeginText, letter]), s, i, j, fold) <==> i == 0 && MatchesAll([letter], s, 0, j, fold)
  {
    var subs := [BeginText, letter];
    assert subs != [] && subs[1..] == [letter];
    forall k | i <= k <= j ensures Matches(subs[0], s, i, k, fold) <==> i == k == 0 {
      assert subs[0] == BeginText;
    }
    assert MatchesAll(subs, s, i, j, fold) <==> i == 0 && MatchesAll(subs[1..], s, 0, j, fold);
  }

  lemma OnlyOne(re: Node, s: seq<Byte>, i: nat, j: nat, fold: FoldTable)
    requires i <= j <= |s|
    ensures MatchesAll([re], s, i, j, fold) <==> Matches(re, s, i, j, fold)
  {
    hide Matches;
    assert [re][0] == re && [re][1..] == [];
    assert MatchesAll([], s, j, j, fold);
    assert Matches(re, s, i, j, fold) ==> Matches([re][0], s, i, j, fold) && MatchesAll([re][1..], s, j, j, fold);
  }

  lemma AnchoredFound(s: seq<Byte>, fold: FoldTable)
    ensures Found(ANCHORED, s, fold) <==> BeginsAnchored(s)
  {
    hide Matches;
    forall i: nat, j: nat | i <= j <= |s|
      ensures Matches(ANCHORED, s, i, j, fold) <==> i == 0 && j == 1 && BeginsAnchored(s)
    {
      AnchoredIs(s, i, j, fold);
    }
    assert Boundary(s, 0);
    assert BeginsAnchored(s) ==> Matches(ANCHORED, s, 0, 1, fold);
  }

  lemma NotOverlapped(data: seq<Byte>, p: nat, fold: FoldTable)
    requires !BeginsAnchored(data)
    ensures !Overlapped(ANCHORED, data, p, p, fold)
  {
    hide Matches, BeginsAnchored;
    if Overlapped(ANCHORED, data, p, p, fold) {
      var b: nat :| p <= b && MatchAt(ANCHORED, data, p, b, fold);
      AnchoredIs(data, p, b, fold);
    }
  }

  lemma NoAnchoredHit(data: seq<Byte>, hits: seq<nat>, fold: FoldTable)
    requires !BeginsAnchored(data) && HitsOf(ANCHORED, data, hits, fold)
    ensures hits == []
  {
    hide Overlapped, BeginsAnchored;
    if hits != [] {
      NotOverlapped(data, hits[0], fold);
    }
  }

  /** `x*` works line by line, and is found in an empty line: behind a final newline the whole body has
      one and the stream has not. */
  lemma EmptyLineMissed(m: Matcher, data: seq<Byte>, fold: FoldTable)
    requires Compiled(m, false, fold) && m.re.Some? && m.re.value.tree == Star(Literal([120], false))
    requires data == [98, NL]
    ensures !Binary(data) && ByLine(m, data, fold) && Usable(m)
    ensures Hit(2, []) in WholeBody(data, m) && Hit(2, []) !in StreamBody(data, m)
  {
    hide WholeBody, StreamBody, Lines, TextLines, MatchingLines, TrimCR, LinesFit, Binary;
    TwoLines(data, [98], []);
    StarFound(m.re.value.tree, fold);
    WholeBodyByLine(data, m, false, fold);
    StreamByLine(data, m);
    MatchingReports(Lines(data), m, 1);
    MatchingReports(TextLines(data), m, 1);
    NothingToTrim();
  }

  lemma NothingToTrim()
    ensures TrimCR([]) == [] && TrimCR([98]) == [98]
  {
  }

  lemma StarFound(re: Node, fold: FoldTable)
    requires re == Star(Literal([120], false))
    ensures Found(re, [], fold)
  {
    assert MatchesTimes(re.sub, 0, [], 0, 0, fold);
    assert Boundary([], 0) && Matches(re, [], 0, 0, fold);
  }
}
