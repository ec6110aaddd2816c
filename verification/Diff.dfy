/** `encodeUnified` of `gitaware/diff.go`: how many lines a file diff adds and deletes. The diff
    library's edit script is the input; the patch text is left to the encoder. */
module Diff {
  import opened Bytes
  import opened ScanProofs

  datatype Change = DiffEqual | DiffDelete | DiffInsert

  datatype Segment = Segment(change: Change, text: seq<Byte>)

  datatype Operation = Equal | Add | Delete

  datatype Chunk = Chunk(op: Operation, content: seq<Byte>)

  predicate HasSuffixNL(s: seq<Byte>) { s != [] && s[|s| - 1] == NL }

  /** `countLines`: full lines end in a newline, and a rest without one is a line too. */
  function CountLines(s: seq<Byte>): nat {
    if s == [] then 0 else Count(s, NL) + (if HasSuffixNL(s) then 0 else 1)
  }

  datatype Side = Old | New

  predicate On(side: Side, change: Change) {
    change == DiffEqual || (side == Old && change == DiffDelete) || (side == New && change == DiffInsert)
  }

  /** The segments that one side is made of. */
  function Parts(diffs: seq<Segment>, side: Side): seq<seq<Byte>> {
    if diffs == [] then []
    else
      var last := diffs[|diffs| - 1];
      Parts(diffs[..|diffs| - 1], side) + (if On(side, last.change) then [last.text] else [])
  }

  function Flatten(parts: seq<seq<Byte>>): seq<Byte> {
    if parts == [] then [] else Flatten(parts[..|parts| - 1]) + parts[|parts| - 1]
  }

  /** Lines counted segment by segment. */
  function Counted(parts: seq<seq<Byte>>): nat {
    if parts == [] then 0 else Counted(parts[..|parts| - 1]) + CountLines(parts[|parts| - 1])
  }

  /** How often a part goes on with a line that the parts before it left unfinished. */
  function Seams(parts: seq<seq<Byte>>): nat {
    if parts == [] then 0
    else
      var before, last := Flatten(parts[..|parts| - 1]), parts[|parts| - 1];
      Seams(parts[..|parts| - 1]) + (if before != [] && !HasSuffixNL(before) && last != [] then 1 else 0)
  }

  function LinesOf(diffs: seq<Segment>, change: Change): nat {
    if diffs == [] then 0
    else
      var last := diffs[|diffs| - 1];
      LinesOf(diffs[..|diffs| - 1], change) + (if last.change == change then CountLines(last.text) else 0)
  }

  lemma {:induction false} SplitCount(s: seq<Byte>)
    ensures |Split(s, NL)| == Count(s, NL) + 1
    ensures var parts := Split(s, NL); parts[|parts| - 1] == [] <==> s == [] || HasSuffixNL(s)
    decreases |s|
  {
    hide Count, IndexOf;
    var i := IndexOf(s, NL);
    if i == -1 {
      NoneCounted(s);
    } else {
      var part, rest := s[..i], s[i + 1..];
      CutAround(s, i);
      SplitCount(rest);
      LineCounted(part, rest);
    }
  }

  lemma LineCounted(part: seq<Byte>, rest: seq<Byte>)
    requires NL !in part
    ensures Count(part + [NL] + rest, NL) == 1 + Count(rest, NL)
    ensures HasSuffixNL(part + [NL] + rest) <==> rest == [] || HasSuffixNL(rest)
  {
    hide Count;
    CountConcat(part + [NL], rest, NL);
    CountConcat(part, [NL], NL);
    NoneCounted(part);
  }

  lemma {:induction false} NoneCounted(s: seq<Byte>)
    ensures NL !in s ==> Count(s, NL) == 0
    ensures Count([NL], NL) == 1
  {
    if s != [] {
      NoneCounted(s[1..]);
    }
    assert [NL][1..] == [];
  }

  /** The count is the number of lines: the parts between newlines, without an empty one at the end. */
  lemma CountLinesExactly(s: seq<Byte>)
    ensures var parts := Split(s, NL);
      CountLines(s) == |parts| - (if parts[|parts| - 1] == [] then 1 else 0)
    ensures CountLines(s) == |TextLines(s)|
  {
    hide Split, Count;
    SplitCount(s);
    NoneCounted([]);
  }

  /** The lines of the segments with this change. */
  function AllLines(diffs: seq<Segment>, change: Change): seq<seq<Byte>> {
    if diffs == [] then []
    else
      var last := diffs[|diffs| - 1];
      AllLines(diffs[..|diffs| - 1], change) + (if last.change == change then TextLines(last.text) else [])
  }

  lemma {:induction false} LinesOfAreLines(diffs: seq<Segment>, change: Change)
    ensures LinesOf(diffs, change) == |AllLines(diffs, change)|
  {
    hide CountLines, TextLines;
    if diffs != [] {
      LinesOfAreLines(diffs[..|diffs| - 1], change);
      CountLinesExactly(diffs[|diffs| - 1].text);
    }
  }

  /** Each segment becomes one chunk, and the lines of inserted and of deleted segments are counted. */
  method EncodeUnified(diffs: seq<Segment>) returns (chunks: seq<Chunk>, add: nat, del: nat)
    ensures add == |AllLines(diffs, DiffInsert)| && del == |AllLines(diffs, DiffDelete)|
    ensures add == LinesOf(diffs, DiffInsert) && del == LinesOf(diffs, DiffDelete)
    ensures |chunks| == |diffs|
    ensures forall k :: 0 <= k < |diffs| ==>
      && chunks[k].content == diffs[k].text
      && (chunks[k].op != Add <==> On(Old, diffs[k].change)) && (chunks[k].op != Delete <==> On(New, diffs[k].change))
  {
    hide CountLines, TextLines;
    chunks, add, del := [], 0, 0;
    for k := 0 to |diffs|
      invariant add == LinesOf(diffs[..k], DiffInsert) && del == LinesOf(diffs[..k], DiffDelete)
      invariant |chunks| == k
      invariant forall i :: 0 <= i < k ==>
        && chunks[i].content == diffs[i].text
        && (chunks[i].op != Add <==> On(Old, diffs[i].change)) && (chunks[i].op != Delete <==> On(New, diffs[i].change))
    {
      assert diffs[..k + 1][..k] == diffs[..k];
      var d := diffs[k];
      var op;
      match d.change {
        case DiffEqual => op := Equal;
        case DiffDelete =>
          op := Delete;
          del := del + CountLines(d.text);
        case DiffInsert =>
          op := Add;
          add := add + CountLines(d.text);
      }
      chunks := chunks + [Chunk(op, d.text)];
    }
    assert diffs[..|diffs|] == diffs;
    LinesOfAreLines(diffs, DiffInsert);
    LinesOfAreLines(diffs, DiffDelete);
  }

  lemma CountLinesAppend(a: seq<Byte>, b: seq<Byte>)
    ensures CountLines(a) + CountLines(b)
            == CountLines(a + b) + (if a != [] && !HasSuffixNL(a) && b != [] then 1 else 0)
  {
    hide Count;
    CountConcat(a, b, NL);
    if a == [] {
      assert a + b == b;
    } else if b == [] {
      assert a + b == a;
    }
  }

  lemma {:induction false} CountedFlat(parts: seq<seq<Byte>>)
    ensures Counted(parts) == CountLines(Flatten(parts)) + Seams(parts)
  {
    hide CountLines, HasSuffixNL;
    if parts == [] {
      NoLines();
    } else {
      CountedFlat(parts[..|parts| - 1]);
      CountLinesAppend(Flatten(parts[..|parts| - 1]), parts[|parts| - 1]);
    }
  }

  lemma NoLines()
    ensures CountLines([]) == 0
  {
  }

  lemma {:induction false} SideCounted(diffs: seq<Segment>)
    ensures Counted(Parts(diffs, Old)) == LinesOf(diffs, DiffEqual) + LinesOf(diffs, DiffDelete)
    ensures Counted(Parts(diffs, New)) == LinesOf(diffs, DiffEqual) + LinesOf(diffs, DiffInsert)
  {
    hide CountLines, Counted;
    if diffs == [] {
      NothingCounted();
    } else {
      var front, last := diffs[..|diffs| - 1], diffs[|diffs| - 1];
      SideCounted(front);
      CountedAppend(Parts(front, Old), last.text);
      CountedAppend(Parts(front, New), last.text);
      match last.change
      case DiffEqual =>
      case DiffDelete =>
      case DiffInsert =>
    }
  }

  lemma NothingCounted()
    ensures Counted([]) == 0
  {
  }

  lemma CountedAppend(parts: seq<seq<Byte>>, part: seq<Byte>)
    ensures Counted(parts + [part]) == Counted(parts) + CountLines(part) && parts + [] == parts
  {
    assert (parts + [part])[..|parts|] == parts;
  }

  /** For every edit script: additions less deletions is the growth in lines if and only if its two
      sides are cut inside lines equally often. */
  lemma LinesConservedExactly(diffs: seq<Segment>)
    ensures LinesOf(diffs, DiffInsert) - LinesOf(diffs, DiffDelete)
            == CountLines(Flatten(Parts(diffs, New))) - CountLines(Flatten(Parts(diffs, Old)))
            <==> Seams(Parts(diffs, Old)) == Seams(Parts(diffs, New))
  {
    hide CountLines;
    SideCounted(diffs);
    CountedFlat(Parts(diffs, Old));
    CountedFlat(Parts(diffs, New));
  }

  /** Only the last part of a side may lack its final newline. */
  ghost predicate WholeLines(parts: seq<seq<Byte>>) {
    forall k :: 0 <= k < |parts| - 1 ==> HasSuffixNL(parts[k])
  }

  lemma {:induction false} WholeLinesHaveNoSeams(parts: seq<seq<Byte>>)
    requires WholeLines(parts)
    ensures Seams(parts) == 0
  {
    if |parts| > 1 {
      var front := parts[..|parts| - 1];
      WholeLinesHaveNoSeams(front);
      assert HasSuffixNL(parts[|parts| - 2]);
    }
  }

  /** Scripts of whole lines conserve line counts. */
  lemma WholeLinesConserve(diffs: seq<Segment>)
    requires WholeLines(Parts(diffs, Old)) && WholeLines(Parts(diffs, New))
    ensures LinesOf(diffs, DiffInsert) - LinesOf(diffs, DiffDelete)
            == CountLines(Flatten(Parts(diffs, New))) - CountLines(Flatten(Parts(diffs, Old)))
  {
    hide CountLines;
    WholeLinesHaveNoSeams(Parts(diffs, Old));
    WholeLinesHaveNoSeams(Parts(diffs, New));
    LinesConservedExactly(diffs);
  }
}
