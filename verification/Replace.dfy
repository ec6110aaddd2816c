/** Counted replacement, as `bytes.Count` and `bytes.ReplaceAll` do it for `file_replace`: leftmost
    occurrences that do not overlap. */
module Replace {
  import opened Bytes

  /** The parts of `s` between the occurrences of `old`. */
  function Pieces<T(==)>(s: seq<T>, anchor: seq<T>): (ps: seq<seq<T>>)
    requires anchor != []
    ensures |ps| >= 1
    decreases |s|
  {
    var i := IndexFrom(s, anchor, 0);
    if i == -1 then [s] else [s[..i]] + Pieces(s[i + |anchor|..], anchor)
  }

  function CountOf<T(==)>(s: seq<T>, anchor: seq<T>): nat
    requires anchor != []
  {
    |Pieces(s, anchor)| - 1
  }

  function Replaced<T(==)>(s: seq<T>, anchor: seq<T>, text: seq<T>): seq<T>
    requires anchor != []
  {
    Join(Pieces(s, anchor), text)
  }

  /** The pieces, joined by what was cut out, are the text again. */
  lemma {:induction false} PiecesRejoin<T>(s: seq<T>, anchor: seq<T>)
    requires anchor != []
    ensures Join(Pieces(s, anchor), anchor) == s
    decreases |s|
  {
    hide IndexFrom, OccursAt;
    var i := IndexFrom(s, anchor, 0);
    if i != -1 {
      CutAt(s, anchor, i);
      var rest := s[i + |anchor|..];
      PiecesRejoin(rest, anchor);
      JoinCons(s[..i], Pieces(rest, anchor), anchor);
    }
  }

  lemma CutAt<T>(s: seq<T>, anchor: seq<T>, i: nat)
    requires OccursAt(s, anchor, i)
    ensures i + |anchor| <= |s| && s == s[..i] + anchor + s[i + |anchor|..]
  {
    assert s == s[..i] + s[i..i + |anchor|] + s[i + |anchor|..];
  }

  lemma CutBack<T>(p: seq<T>, anchor: seq<T>, rest: seq<T>)
    ensures var s := p + anchor + rest; s[..|p|] == p && s[|p| + |anchor|..] == rest
  {
  }

  /** A cut is leftmost when the anchor occurs in no piece, and not across a piece and the occurrence that
      ends it any earlier. */
  ghost predicate Leftmost<T>(ps: seq<seq<T>>, anchor: seq<T>) {
    && ps != []
    && (forall k :: 0 <= k < |ps| - 1 ==> IndexFrom(ps[k] + anchor, anchor, 0) == |ps[k]|)
    && !Contains(ps[|ps| - 1], anchor)
  }

  lemma OccursInPrefix<T>(a: seq<T>, b: seq<T>, anchor: seq<T>, k: nat)
    requires k + |anchor| <= |a|
    ensures OccursAt(a + b, anchor, k) <==> OccursAt(a, anchor, k)
  {
    assert (a + b)[k..k + |anchor|] == a[k..k + |anchor|];
  }

  /** Where the first occurrence is depends on nothing behind it. */
  lemma FirstInPrefix<T>(p: seq<T>, anchor: seq<T>, rest: seq<T>)
    requires anchor != []
    ensures IndexFrom(p + anchor + rest, anchor, 0) == |p| <==> IndexFrom(p + anchor, anchor, 0) == |p|
  {
    hide OccursAt, IndexFrom;
    var a := p + anchor;
    forall k: nat | k <= |p| ensures OccursAt(a + rest, anchor, k) <==> OccursAt(a, anchor, k) {
      OccursInPrefix(a, rest, anchor, k);
    }
    OccursThere(p, anchor);
  }

  lemma OccursThere<T>(p: seq<T>, anchor: seq<T>)
    ensures OccursAt(p + anchor, anchor, |p|)
  {
  }

  lemma {:induction false} PiecesAreLeftmost<T>(s: seq<T>, anchor: seq<T>)
    requires anchor != []
    ensures Leftmost(Pieces(s, anchor), anchor)
    decreases |s|
  {
    var i := IndexFrom(s, anchor, 0);
    if i != -1 {
      var rest := s[i + |anchor|..];
      PiecesAreLeftmost(rest, anchor);
      CutAt(s, anchor, i);
      FirstInPrefix(s[..i], anchor, rest);
    }
  }

  /** There is only one leftmost cut: whoever cuts this way counts and replaces the same. */
  lemma {:induction false} LeftmostUnique<T>(ps: seq<seq<T>>, anchor: seq<T>)
    requires anchor != [] && Leftmost(ps, anchor)
    ensures Pieces(Join(ps, anchor), anchor) == ps
  {
    hide IndexFrom, OccursAt;
    if |ps| > 1 {
      var rest := Join(ps[1..], anchor);
      LeftmostUnique(ps[1..], anchor);
      FirstInPrefix(ps[0], anchor, rest);
      CutBack(ps[0], anchor, rest);
    }
  }

  function Sizes<T>(ps: seq<seq<T>>): nat {
    if ps == [] then 0 else |ps[0]| + Sizes(ps[1..])
  }

  lemma {:induction false} JoinSize<T>(ps: seq<seq<T>>, sep: seq<T>)
    requires ps != []
    ensures |Join(ps, sep)| == Sizes(ps) + (|ps| - 1) * |sep|
  {
    if |ps| > 1 {
      JoinSize(ps[1..], sep);
      assert (|ps| - 1) * |sep| == (|ps| - 2) * |sep| + |sep|;
    } else {
      assert ps[1..] == [];
    }
  }

  /** Every occurrence changes the length by as much. */
  lemma ReplacedSize<T>(s: seq<T>, anchor: seq<T>, text: seq<T>)
    requires anchor != []
    ensures |Replaced(s, anchor, text)| == |s| + CountOf(s, anchor) * (|text| - |anchor|)
  {
    var ps := Pieces(s, anchor);
    PiecesRejoin(s, anchor);
    JoinSize(ps, anchor);
    JoinSize(ps, text);
    assert (|ps| - 1) * (|text| - |anchor|) == (|ps| - 1) * |text| - (|ps| - 1) * |anchor|;
  }
}
