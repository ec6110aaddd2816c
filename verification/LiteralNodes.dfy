/** When a literal node can be searched for as a plain byte string, decided exactly. */
module LiteralNodes {
  import opened Bytes
  import opened Utf8
  import opened Regex

  predicate Scalars(rs: seq<Rune>) {
    forall k :: 0 <= k < |rs| ==> !Surrogate(rs[k])
  }

  /** Case folding relates letters only: never a surrogate or U+FFFD. */
  ghost predicate LetterTable(fold: FoldTable) {
    forall a, b :: fold(a, b) ==> !Surrogate(a) && !Surrogate(b) && a != RUNE_ERROR && b != RUNE_ERROR
  }

  /** `text` is `rs` up to case. */
  ghost predicate Variant(rs: seq<Rune>, foldCase: bool, text: seq<Rune>, fold: FoldTable) {
    |text| == |rs| &&
    forall k :: 0 <= k < |rs| ==> text[k] == rs[k] || (foldCase && fold(rs[k], text[k]))
  }

  ghost function RunesFrom(s: seq<Byte>, i: nat): seq<Rune>
    requires i <= |s|
    decreases |s| - i
  {
    if i == |s| then [] else [Decode(s, i).0] + RunesFrom(s, i + Decode(s, i).1)
  }

  /** The first step of decoding an encoded text. */
  lemma EncodedHead(text: seq<Rune>, s: seq<Byte>, i: nat, j: nat) returns (w: nat)
    requires i <= j <= |s| && text != [] && Scalars(text) && s[i..j] == EncodeAll(text)
    ensures i < i + w <= j && Decode(s, i) == (text[0], w)
    ensures Scalars(text[1..]) && s[i + w..j] == EncodeAll(text[1..])
  {
    var head, tail := Encode(text[0]), EncodeAll(text[1..]);
    w := |head|;
    assert s[i..j] == head + tail;
    SliceOfSlice(s, i, j, 0, w);
    SliceOfSlice(s, i, j, w, j - i);
    assert s[i..i + w] == head && s[i + w..j] == tail;
    EncodedDecodes(s, i, text[0]);
  }

  lemma {:induction false} EncodedRunes(text: seq<Rune>, s: seq<Byte>, i: nat)
    requires i <= |s| && Scalars(text) && s[i..|s|] == EncodeAll(text)
    ensures RunesFrom(s, i) == text
    decreases |text|
  {
    if text == [] {
      assert i == |s|;
    } else {
      var w := EncodedHead(text, s, i, |s|);
      EncodedRunes(text[1..], s, i + w);
    }
  }

  /** A literal node matches the encoding of every variant of its runes. */
  lemma {:induction false} VariantMatches(
    rs: seq<Rune>, foldCase: bool, text: seq<Rune>, s: seq<Byte>, i: nat, j: nat, fold: FoldTable)
    requires i <= j <= |s| && s[i..j] == EncodeAll(text) && Scalars(text) && Variant(rs, foldCase, text, fold)
    ensures LiteralAt(rs, foldCase, s, i, j, fold)
    decreases |rs|
  {
    if rs == [] {
      assert |s[i..j]| == 0;
    } else {
      var w := EncodedHead(text, s, i, j);
      VariantMatches(rs[1..], foldCase, text[1..], s, i + w, j, fold);
    }
  }

  /** What a literal node matches is one of its variants, rune for rune. */
  lemma {:induction false} MatchedRunes(rs: seq<Rune>, foldCase: bool, s: seq<Byte>, i: nat, j: nat, fold: FoldTable)
    requires i <= j <= |s| && LiteralAt(rs, foldCase, s, i, j, fold)
    ensures |RunesFrom(s, i)| == |rs| + |RunesFrom(s, j)|
    ensures Variant(rs, foldCase, RunesFrom(s, i)[..|rs|], fold)
    decreases |rs|
  {
    if rs != [] {
      var w := Decode(s, i).1;
      LiteralEnds(rs[1..], foldCase, s, i + w, j, fold);
      MatchedRunes(rs[1..], foldCase, s, i + w, j, fold);
      var text, rest := RunesFrom(s, i), RunesFrom(s, i + w);
      forall k | 0 <= k < |rs| ensures text[k] == rs[k] || (foldCase && fold(rs[k], text[k])) {
        if k > 0 {
          assert text[k] == rest[..|rs| - 1][k - 1] && rs[k] == rs[1..][k - 1];
        }
      }
    }
  }

  lemma {:induction false} BoundaryRunes(s: seq<Byte>, i: nat)
    requires i <= |s| && Boundary(s, i)
    ensures |RunesFrom(s, 0)| >= |RunesFrom(s, i)| + (if i > 0 then 1 else 0)
    decreases i
  {
    if i > 0 {
      var k: nat :| k < i && k < |s| && Boundary(s, k) && k + Decode(s, k).1 == i;
      BoundaryRunes(s, k);
    }
  }

  /** In a text of as many runes as the literal has, a match can only be the whole text. */
  lemma FullLengthMatch(
    rs: seq<Rune>, foldCase: bool, text: seq<Rune>, s: seq<Byte>, i: nat, j: nat, fold: FoldTable)
    requires |text| == |rs|
    requires Scalars(text)
    requires s == EncodeAll(text)
    requires i <= j <= |s|
    requires Boundary(s, i)
    requires LiteralAt(rs, foldCase, s, i, j, fold)
    ensures i == 0 && j == |s| && Variant(rs, foldCase, text, fold)
  {
    assert s[0..|s|] == s;
    EncodedRunes(text, s, 0);
    BoundaryRunes(s, i);
    MatchedRunes(rs, foldCase, s, i, j, fold);
    assert RunesFrom(s, i)[..|rs|] == text;
  }

  lemma EncodeLeads(r: Rune)
    ensures !Continuation(Encode(r)[0])
  {
  }

  /** An occurrence of an encoding starts where a rune starts. */
  lemma OccurrenceIsBoundary(rs: seq<Rune>, s: seq<Byte>, o: nat)
    requires rs != [] && OccursAt(s, EncodeAll(rs), o)
    ensures o < |s| && Boundary(s, o)
  {
    var u := EncodeAll(rs);
    assert u[0] == Encode(rs[0])[0];
    assert s[o] == s[o..o + |u|][0];
    EncodeLeads(rs[0]);
    LeadingByteIsBoundary(s, 0, o);
  }

  lemma OccurrenceMatches(rs: seq<Rune>, foldCase: bool, s: seq<Byte>, o: nat, fold: FoldTable)
    requires rs != [] && Scalars(rs) && OccursAt(s, EncodeAll(rs), o)
    ensures Boundary(s, o) && LiteralAt(rs, foldCase, s, o, o + |EncodeAll(rs)|, fold)
  {
    OccurrenceIsBoundary(rs, s, o);
    VariantMatches(rs, foldCase, rs, s, o, o + |EncodeAll(rs)|, fold);
  }

  /** Texts of equally many runes contain one another only when they are equal. */
  lemma ContainedSameLength(rs: seq<Rune>, text: seq<Rune>, o: nat, fold: FoldTable)
    requires rs != [] && Scalars(rs) && Scalars(text) && |text| == |rs|
    requires OccursAt(EncodeAll(text), EncodeAll(rs), o)
    ensures text == rs
  {
    hide Decode, Encode, EncodeAll, Boundary, LiteralAt;
    OccurrenceMatches(rs, false, EncodeAll(text), o, fold);
    FullLengthMatch(rs, false, text, EncodeAll(text), o, o + |EncodeAll(rs)|, fold);
    assert forall k :: 0 <= k < |rs| ==> text[k] == rs[k];
  }

  lemma {:induction false} VariantFound(rs: seq<Rune>, foldCase: bool, text: seq<Rune>, fold: FoldTable)
    requires Scalars(text) && Variant(rs, foldCase, text, fold)
    ensures Found(Literal(rs, foldCase), EncodeAll(text), fold)
  {
    var s := EncodeAll(text);
    assert s[0..|s|] == s;
    VariantMatches(rs, foldCase, text, s, 0, |s|, fold);
    assert Boundary(s, 0) && Matches(Literal(rs, foldCase), s, 0, |s|, fold);
  }

  /** `rs` encoded, but with the ill-formed byte `ill` in place of each U+FFFD. */
  function Broken(rs: seq<Rune>, ill: Byte): seq<Byte> {
    if rs == [] then [] else (if rs[0] == RUNE_ERROR then [ill] else Encode(rs[0])) + Broken(rs[1..], ill)
  }

  lemma BrokenHead(rs: seq<Rune>, ill: Byte, s: seq<Byte>, i: nat) returns (w: nat)
    requires rs != [] && Scalars(rs) && ill >= 0xF8 && i <= |s| && s[i..] == Broken(rs, ill)
    ensures i < i + w <= |s| && Decode(s, i) == (rs[0], w) && s[i + w..] == Broken(rs[1..], ill)
  {
    var head := if rs[0] == RUNE_ERROR then [ill] else Encode(rs[0]);
    w := |head|;
    assert s[i..] == head + Broken(rs[1..], ill);
    assert s[i..i + w] == s[i..][..w] == head;
    assert s[i + w..] == s[i..][w..];
    if rs[0] == RUNE_ERROR {
      assert s[i] == s[i..][0];
    } else {
      EncodedDecodes(s, i, rs[0]);
    }
  }

  lemma {:induction false} BrokenRunes(text: seq<Rune>, ill: Byte, s: seq<Byte>, i: nat)
    requires Scalars(text) && ill >= 0xF8 && i <= |s| && s[i..] == Broken(text, ill)
    ensures RunesFrom(s, i) == text
    decreases |text|
  {
    hide Decode, Encode;
    if text != [] {
      var w := BrokenHead(text, ill, s, i);
      BrokenRunes(text[1..], ill, s, i + w);
    }
  }

  /** A literal node takes the ill-formed bytes for U+FFFD. */
  lemma {:induction false} BrokenMatches(
    rs: seq<Rune>, foldCase: bool, text: seq<Rune>, ill: Byte, s: seq<Byte>, i: nat, fold: FoldTable)
    requires Scalars(text) && Variant(rs, foldCase, text, fold) && ill >= 0xF8 && i <= |s| && s[i..] == Broken(text, ill)
    ensures LiteralAt(rs, foldCase, s, i, |s|, fold)
    decreases |rs|
  {
    hide Decode, Encode;
    if rs != [] {
      var w := BrokenHead(text, ill, s, i);
      BrokenMatches(rs[1..], foldCase, text[1..], ill, s, i + w, fold);
    }
  }

  lemma BrokenFound(rs: seq<Rune>, foldCase: bool, text: seq<Rune>, ill: Byte, fold: FoldTable)
    requires Scalars(text) && Variant(rs, foldCase, text, fold) && ill >= 0xF8
    ensures Found(Literal(rs, foldCase), Broken(text, ill), fold)
  {
    var s := Broken(text, ill);
    assert s[0..] == s;
    BrokenMatches(rs, foldCase, text, ill, s, 0, fold);
    assert Boundary(s, 0) && Matches(Literal(rs, foldCase), s, 0, |s|, fold);
  }

  lemma {:induction false} BrokenIsShorter(rs: seq<Rune>, ill: Byte)
    ensures |Broken(rs, ill)| <= |EncodeAll(rs)|
    ensures RUNE_ERROR in rs ==> |Broken(rs, ill)| < |EncodeAll(rs)|
    ensures RUNE_ERROR !in rs ==> Broken(rs, ill) == EncodeAll(rs)
  {
    if rs != [] {
      BrokenIsShorter(rs[1..], ill);
    }
  }

  lemma {:induction false} BrokenDiffer(rs: seq<Rune>, one: Byte, other: Byte)
    requires RUNE_ERROR in rs && one != other
    ensures |Broken(rs, one)| == |Broken(rs, other)| && Broken(rs, one) != Broken(rs, other)
  {
    var head := if rs[0] == RUNE_ERROR then [one] else Encode(rs[0]);
    BrokenSameSize(rs[1..], one, other);
    if rs[0] == RUNE_ERROR {
      assert Broken(rs, one)[0] == one && Broken(rs, other)[0] == other;
    } else {
      BrokenDiffer(rs[1..], one, other);
      assert Broken(rs, one)[|head|..] == Broken(rs[1..], one) && Broken(rs, other)[|head|..] == Broken(rs[1..], other);
    }
  }

  lemma {:induction false} BrokenSameSize(rs: seq<Rune>, one: Byte, other: Byte)
    ensures |Broken(rs, one)| == |Broken(rs, other)|
  {
    if rs != [] {
      BrokenSameSize(rs[1..], one, other);
    }
  }

  /** What a literal node matches is no shorter than the runes it was taken for, broken. */
  lemma {:induction false} BrokenFits(rs: seq<Rune>, foldCase: bool, s: seq<Byte>, i: nat, j: nat, ill: Byte, fold: FoldTable)
    requires i <= j <= |s| && LiteralAt(rs, foldCase, s, i, j, fold) && |rs| <= |RunesFrom(s, i)|
    ensures |Broken(RunesFrom(s, i)[..|rs|], ill)| <= j - i
    ensures Scalars(RunesFrom(s, i)[..|rs|])
    decreases |rs|
  {
    if rs != [] {
      var (r, w) := Decode(s, i);
      LiteralEnds(rs[1..], foldCase, s, i + w, j, fold);
      BrokenFits(rs[1..], foldCase, s, i + w, j, ill, fold);
      var text, rest := RunesFrom(s, i)[..|rs|], RunesFrom(s, i + w)[..|rs| - 1];
      assert text == [r] + rest && text[1..] == rest;
      if r != RUNE_ERROR {
        DecodedIsEncoded(s, i);
        assert |s[i..i + w]| == w;
      }
    }
  }

  /** A literal with a surrogate matches nothing. */
  lemma {:induction false} SurrogateUnmatched(rs: seq<Rune>, foldCase: bool, s: seq<Byte>, i: nat, j: nat, fold: FoldTable)
    requires j <= |s| && !Scalars(rs) && LetterTable(fold)
    ensures !LiteralAt(rs, foldCase, s, i, j, fold)
    decreases |rs|
  {
    if i < j {
      var (r, w) := Decode(s, i);
      if r != RUNE_ERROR {
        DecodedIsEncoded(s, i);
      }
      if !Surrogate(rs[0]) {
        var k :| 0 <= k < |rs| && Surrogate(rs[k]);
        assert rs[1..][k - 1] == rs[k];
        SurrogateUnmatched(rs[1..], foldCase, s, i + w, j, fold);
      }
    }
  }

  lemma SurrogateNotFound(rs: seq<Rune>, foldCase: bool, s: seq<Byte>, fold: FoldTable)
    requires !Scalars(rs) && LetterTable(fold)
    ensures !Found(Literal(rs, foldCase), s, fold)
  {
    forall i: nat, j: nat | i <= j <= |s| ensures !Matches(Literal(rs, foldCase), s, i, j, fold) {
      SurrogateUnmatched(rs, foldCase, s, i, j, fold);
    }
  }

  /** Searching for the bytes of a literal node loses no match if and only if the node is exact, or
      holds a surrogate and matches nothing. */
  lemma LiteralSoundExactly(rs: seq<Rune>, foldCase: bool, fold: FoldTable)
    requires rs != [] && LetterTable(fold)
    ensures (forall s :: Found(Literal(rs, foldCase), s, fold) ==> Contains(s, EncodeAll(rs)))
            <==> ExactLiteral(rs, foldCase, fold) || !Scalars(rs)
  {
    var re, u := Literal(rs, foldCase), EncodeAll(rs);
    if !Scalars(rs) {
      forall s ensures !Found(re, s, fold) {
        SurrogateNotFound(rs, foldCase, s, fold);
      }
    } else if ExactLiteral(rs, foldCase, fold) {
      forall s | Found(re, s, fold) ensures Contains(s, u) {
        ExactLiteralIsFound(rs, foldCase, s, fold);
      }
    } else if RUNE_ERROR in rs {
      BrokenFound(rs, foldCase, rs, 0xFF, fold);
      BrokenIsShorter(rs, 0xFF);
      assert Found(re, Broken(rs, 0xFF), fold) && !Contains(Broken(rs, 0xFF), u);
    } else {
      MissedVariant(rs, foldCase, fold);
    }
  }

  lemma ExactLiteralIsFound(rs: seq<Rune>, foldCase: bool, s: seq<Byte>, fold: FoldTable)
    requires ExactLiteral(rs, foldCase, fold) && Found(Literal(rs, foldCase), s, fold)
    ensures Contains(s, EncodeAll(rs))
  {
    var i: nat, j: nat :| i <= j <= |s| && Boundary(s, i) && Matches(Literal(rs, foldCase), s, i, j, fold);
    ExactLiteralText(rs, foldCase, s, i, j, fold);
    assert OccursAt(s, EncodeAll(rs), i);
  }

  lemma MissedVariant(rs: seq<Rune>, foldCase: bool, fold: FoldTable)
    requires rs != [] && Scalars(rs) && LetterTable(fold) && RUNE_ERROR !in rs
    requires !ExactLiteral(rs, foldCase, fold)
    ensures exists s :: Found(Literal(rs, foldCase), s, fold) && !Contains(s, EncodeAll(rs))
  {
    var k, v :| 0 <= k < |rs| && fold(rs[k], v) && v != rs[k];
    var text := rs[k := v];
    VariantFound(rs, foldCase, text, fold);
    assert text[k] != rs[k];
    if Contains(EncodeAll(text), EncodeAll(rs)) {
      var o :| OccursAt(EncodeAll(text), EncodeAll(rs), o);
      ContainedSameLength(rs, text, o, fold);
    }
  }

  lemma DecodeInContext(s: seq<Byte>, part: seq<Byte>, lo: nat, i: nat)
    requires OccursAt(s, part, lo) && i < |part| && Decode(part, i).0 != RUNE_ERROR
    ensures Decode(s, lo + i) == Decode(part, i) && !Continuation(s[lo + i])
  {
    var (r, w) := Decode(part, i);
    DecodedIsEncoded(part, i);
    SliceOfSlice(s, lo, lo + |part|, i, i + w);
    EncodedDecodes(s, lo + i, r);
    EncodeLeads(r);
    assert s[lo + i] == s[lo + i..lo + i + w][0];
  }

  /** A match free of U+FFFD stays a match in every surrounding text. */
  lemma {:induction false} MatchInContext(
    rs: seq<Rune>, foldCase: bool, s: seq<Byte>, part: seq<Byte>, lo: nat, i: nat, j: nat, fold: FoldTable)
    requires OccursAt(s, part, lo) && i <= j <= |part| && RUNE_ERROR !in rs && LetterTable(fold)
    requires LiteralAt(rs, foldCase, part, i, j, fold)
    ensures LiteralAt(rs, foldCase, s, lo + i, lo + j, fold)
    ensures rs != [] ==> i < j && !Continuation(s[lo + i])
    decreases |rs|
  {
    if rs != [] {
      var w := Decode(part, i).1;
      LiteralEnds(rs[1..], foldCase, part, i + w, j, fold);
      DecodeInContext(s, part, lo, i);
      MatchInContext(rs[1..], foldCase, s, part, lo, i + w, j, fold);
    }
  }

  /** A pattern that parses to one literal node may be searched for as its own bytes if and only
      if it spells the runes of that node and the node is exact. */
  lemma ShortcutExactly(pattern: seq<Byte>, rs: seq<Rune>, foldCase: bool, fold: FoldTable)
    requires rs != [] && LetterTable(fold)
    ensures (forall s :: Contains(s, pattern) <==> Found(Literal(rs, foldCase), s, fold))
            <==> pattern == EncodeAll(rs) && Scalars(rs) && ExactLiteral(rs, foldCase, fold)
  {
    assert OccursAt(pattern, pattern, 0);
    if !Scalars(rs) {
      SurrogateNotFound(rs, foldCase, pattern, fold);
    } else if RUNE_ERROR in rs {
      NoPatternForErrors(pattern, rs, foldCase, fold);
    } else {
      WellFormedShortcut(pattern, rs, foldCase, fold);
    }
  }

  lemma WellFormedShortcut(pattern: seq<Byte>, rs: seq<Rune>, foldCase: bool, fold: FoldTable)
    requires rs != [] && Scalars(rs) && RUNE_ERROR !in rs && LetterTable(fold)
    ensures (forall s :: Contains(s, pattern) <==> Found(Literal(rs, foldCase), s, fold))
            <==> pattern == EncodeAll(rs) && ExactLiteral(rs, foldCase, fold)
  {
    var re, u := Literal(rs, foldCase), EncodeAll(rs);
    if pattern == u && ExactLiteral(rs, foldCase, fold) {
      forall s ensures Contains(s, pattern) <==> Found(re, s, fold) {
        if Contains(s, u) {
          var o :| OccursAt(s, u, o);
          OccurrenceMatches(rs, foldCase, s, o, fold);
          assert Matches(re, s, o, o + |u|, fold);
        }
        LiteralSoundExactly(rs, foldCase, fold);
      }
    }
    if forall s :: Contains(s, pattern) <==> Found(re, s, fold) {
      VariantFound(rs, foldCase, rs, fold);
      var lo :| OccursAt(u, pattern, lo);
      assert OccursAt(pattern, pattern, 0);
      PatternIsWhole(pattern, rs, foldCase, lo, fold);
      LiteralSoundExactly(rs, foldCase, fold);
    }
  }

  /** No pattern stands for a literal with U+FFFD: what it matches in itself could be written with one
      ill-formed byte as well as with another, and the pattern would have to be both. */
  lemma NoPatternForErrors(pattern: seq<Byte>, rs: seq<Rune>, foldCase: bool, fold: FoldTable)
    requires rs != [] && Scalars(rs) && RUNE_ERROR in rs && LetterTable(fold)
    ensures !forall s :: Contains(s, pattern) <==> Found(Literal(rs, foldCase), s, fold)
  {
    if forall s :: Contains(s, pattern) <==> Found(Literal(rs, foldCase), s, fold) {
      assert OccursAt(pattern, pattern, 0);
      assert Found(Literal(rs, foldCase), pattern, fold);
      var i: nat, j: nat :| i <= j <= |pattern| && Boundary(pattern, i)
                            && Matches(Literal(rs, foldCase), pattern, i, j, fold);
      MatchedRunes(rs, foldCase, pattern, i, j, fold);
      var text := RunesFrom(pattern, i)[..|rs|];
      PatternIsBroken(pattern, rs, foldCase, text, i, j, 0xFE, fold);
      PatternIsBroken(pattern, rs, foldCase, text, i, j, 0xFF, fold);
      BrokenIsShorter(text, 0xFF);
      if RUNE_ERROR in text {
        BrokenDiffer(text, 0xFE, 0xFF);
      } else {
        BrokenFound(rs, foldCase, rs, 0xFF, fold);
        var o :| OccursAt(Broken(rs, 0xFF), pattern, o);
        WholeText(text, rs, o, fold);
      }
    }
  }

  lemma PatternIsBroken(pattern: seq<Byte>, rs: seq<Rune>, foldCase: bool, text: seq<Rune>, i: nat, j: nat, ill: Byte,
                        fold: FoldTable)
    requires forall s :: Contains(s, pattern) <==> Found(Literal(rs, foldCase), s, fold)
    requires i <= j <= |pattern| && LiteralAt(rs, foldCase, pattern, i, j, fold) && ill >= 0xF8
    requires |rs| <= |RunesFrom(pattern, i)| && text == RunesFrom(pattern, i)[..|rs|] && Variant(rs, foldCase, text, fold)
    ensures pattern == Broken(text, ill) && Scalars(text)
  {
    BrokenFits(rs, foldCase, pattern, i, j, ill, fold);
    BrokenFound(rs, foldCase, text, ill, fold);
    var o :| OccursAt(Broken(text, ill), pattern, o);
  }

  /** A well-formed text of as many runes as a broken one can only occur in it as all of it. */
  lemma WholeText(text: seq<Rune>, rs: seq<Rune>, o: nat, fold: FoldTable)
    requires text != [] && Scalars(text) && Scalars(rs) && |text| == |rs|
    requires OccursAt(Broken(rs, 0xFF), EncodeAll(text), o)
    ensures text == rs
  {
    hide Decode, Encode, EncodeAll, Broken, Boundary, LiteralAt, RunesFrom;
    var s := Broken(rs, 0xFF);
    assert s[0..] == s;
    BrokenRunes(rs, 0xFF, s, 0);
    OccurrenceMatches(text, false, s, o, fold);
    MatchedRunes(text, false, s, o, o + |EncodeAll(text)|, fold);
    BoundaryRunes(s, o);
    assert forall k :: 0 <= k < |text| ==> RunesFrom(s, o)[..|text|][k] == text[k];
  }

  /** Both ways in which the shortcut goes wrong, at a real input: `\.` stands for a dot, which it does
      not occur in, and U+FFFD also stands for an ill-formed byte. */
  lemma ShortcutMisses(fold: FoldTable)
    ensures Found(Literal([46], false), [46], fold) && !Contains([46], [92, 46])
    ensures Found(Literal([RUNE_ERROR], false), [0xFF], fold) && !Contains([0xFF], Encode(RUNE_ERROR))
  {
    assert LiteralAt([], false, [46], 1, 1, fold) && [46][1..] == [];
    assert Boundary([46], 0) && Matches(Literal([46], false), [46], 0, 1, fold);
    assert Boundary([0xFF], 0) && Matches(Literal([RUNE_ERROR], false), [0xFF], 0, 1, fold);
  }

  /** Some match of the literal node lies inside `s[lo..hi]`. */
  ghost predicate FoundWithin(rs: seq<Rune>, foldCase: bool, s: seq<Byte>, lo: nat, hi: nat, fold: FoldTable)
    requires hi <= |s|
  {
    exists a: nat, b: nat :: lo <= a <= b <= hi && Boundary(s, a) && LiteralAt(rs, foldCase, s, a, b, fold)
  }

  lemma FoundInContext(rs: seq<Rune>, foldCase: bool, s: seq<Byte>, part: seq<Byte>, lo: nat, fold: FoldTable)
    requires rs != [] && RUNE_ERROR !in rs && LetterTable(fold)
    requires OccursAt(s, part, lo) && Found(Literal(rs, foldCase), part, fold)
    ensures FoundWithin(rs, foldCase, s, lo, lo + |part|, fold)
  {
    var i: nat, j: nat :| i <= j <= |part| && Boundary(part, i)
                          && Matches(Literal(rs, foldCase), part, i, j, fold);
    MatchInContext(rs, foldCase, s, part, lo, i, j, fold);
    LeadingByteIsBoundary(s, 0, lo + i);
    assert LiteralAt(rs, foldCase, s, lo + i, lo + j, fold);
  }

  lemma WithinIsWhole(rs: seq<Rune>, foldCase: bool, lo: nat, hi: nat, fold: FoldTable)
    requires Scalars(rs) && hi <= |EncodeAll(rs)| && FoundWithin(rs, foldCase, EncodeAll(rs), lo, hi, fold)
    ensures lo == 0 && hi == |EncodeAll(rs)|
  {
    var a: nat, b: nat :| lo <= a <= b <= hi && Boundary(EncodeAll(rs), a)
                          && LiteralAt(rs, foldCase, EncodeAll(rs), a, b, fold);
    FullLengthMatch(rs, foldCase, rs, EncodeAll(rs), a, b, fold);
  }

  lemma PatternIsWhole(pattern: seq<Byte>, rs: seq<Rune>, foldCase: bool, lo: nat, fold: FoldTable)
    requires rs != [] && Scalars(rs) && RUNE_ERROR !in rs && LetterTable(fold)
    requires OccursAt(EncodeAll(rs), pattern, lo) && Found(Literal(rs, foldCase), pattern, fold)
    ensures pattern == EncodeAll(rs)
  {
    FoundInContext(rs, foldCase, EncodeAll(rs), pattern, lo, fold);
    WithinIsWhole(rs, foldCase, lo, lo + |pattern|, fold);
  }
}
