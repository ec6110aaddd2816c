/** Byte strings and the handful of library searches the other modules are written in:
    Go's `bytes.Index`, `IndexByte`, `LastIndexByte`, `Count`, `Split` and `Join`.
    Everything that is not about bytes is generic, so that paths reuse it. */
module Bytes {
  newtype Byte = x: int | 0 <= x < 256

  const NUL: Byte := 0
  const NL: Byte := 10
  const CR: Byte := 13
  const SPACE: Byte := 32

  /** `pat` occurs in `s` at offset `k`. */
  predicate OccursAt<T(==)>(s: seq<T>, pat: seq<T>, k: int) {
    0 <= k <= |s| - |pat| && s[k..k + |pat|] == pat
  }

  lemma SliceOfSlice<T>(s: seq<T>, i: nat, j: nat, a: nat, b: nat)
    requires i <= j <= |s| && a <= b <= j - i
    ensures s[i..j][a..b] == s[i + a..i + b]
  {
    var l, r := s[i..j][a..b], s[i + a..i + b];
    assert |l| == |r| && forall k :: 0 <= k < |l| ==> l[k] == r[k];
  }

  lemma AppendAssociates<T>(a: seq<T>, b: seq<T>, c: seq<T>)
    ensures (a + b) + c == a + (b + c)
  {
  }

  /** Go's `Index` on the sub-slice `s[from:]`, as an offset into `s`: the leftmost occurrence of
      `pat` at or after `from`, or -1. */
  function IndexFrom<T(==)>(s: seq<T>, pat: seq<T>, from: nat): (r: int)
    requires from <= |s|
    ensures r == -1 || (from <= r && OccursAt(s, pat, r))
    ensures forall k :: from <= k && (r == -1 || k < r) ==> !OccursAt(s, pat, k)
    decreases |s| - from
  {
    if OccursAt(s, pat, from) then from
    else if from == |s| then -1
    else IndexFrom(s, pat, from + 1)
  }

  predicate Contains<T(==)>(s: seq<T>, pat: seq<T>): (r: bool)
    ensures r <==> exists k :: OccursAt(s, pat, k)
  {
    IndexFrom(s, pat, 0) != -1
  }

  function IndexOf<T(==)>(s: seq<T>, x: T): (r: int)
    ensures -1 <= r < |s|
    ensures r != -1 ==> s[r] == x
    ensures forall k :: 0 <= k < (if r == -1 then |s| else r) ==> s[k] != x
  {
    if s == [] then -1
    else if s[0] == x then 0
    else
      var r := IndexOf(s[1..], x);
      if r == -1 then -1 else r + 1
  }

  function Count<T(==)>(s: seq<T>, x: T): nat {
    if s == [] then 0 else (if s[0] == x then 1 else 0) + Count(s[1..], x)
  }

  lemma {:induction false} CountConcat<T>(a: seq<T>, b: seq<T>, x: T)
    ensures Count(a + b, x) == Count(a, x) + Count(b, x)
  {
    if a == [] {
      assert a + b == b;
    } else {
      CountConcat(a[1..], b, x);
      assert (a + b)[1..] == a[1..] + b;
    }
  }

  /** Go's `Split` on a one-element separator: always at least one part, and a final
      separator leaves a final empty part. */
  function Split<T(==)>(s: seq<T>, sep: T): (parts: seq<seq<T>>)
    ensures |parts| >= 1
    ensures forall k :: 0 <= k < |parts| ==> sep !in parts[k]
    decreases |s|
  {
    var i := IndexOf(s, sep);
    if i == -1 then [s] else [s[..i]] + Split(s[i + 1..], sep)
  }

  function Join<T>(parts: seq<seq<T>>, sep: seq<T>): seq<T> {
    if parts == [] then []
    else if |parts| == 1 then parts[0]
    else parts[0] + sep + Join(parts[1..], sep)
  }

  lemma JoinCons<T>(part: seq<T>, rest: seq<seq<T>>, sep: seq<T>)
    requires rest != []
    ensures Join([part] + rest, sep) == part + sep + Join(rest, sep)
  {
    assert ([part] + rest)[1..] == rest;
  }

  lemma {:induction false} JoinSplit<T>(s: seq<T>, sep: T)
    ensures Join(Split(s, sep), [sep]) == s
    decreases |s|
  {
    hide IndexOf;
    var i := IndexOf(s, sep);
    if i != -1 {
      var rest := s[i + 1..];
      JoinSplit(rest, sep);
      JoinCons(s[..i], Split(rest, sep), [sep]);
      CutAround(s, i);
    }
  }

  lemma CutAround<T>(s: seq<T>, i: nat)
    requires i < |s|
    ensures s == s[..i] + [s[i]] + s[i + 1..]
  {
  }

  /** Splitting undoes joining when no part holds the separator. */
  lemma {:induction false} SplitJoin<T>(parts: seq<seq<T>>, sep: T)
    requires |parts| >= 1 && forall k :: 0 <= k < |parts| ==> sep !in parts[k]
    ensures Split(Join(parts, [sep]), sep) == parts
  {
    if |parts| == 1 {
      assert IndexOf(parts[0], sep) == -1;
      assert parts == [parts[0]];
    } else {
      SplitJoin(parts[1..], sep);
      SplitCons(parts[0], Join(parts[1..], [sep]), sep);
      assert parts == [parts[0]] + parts[1..];
    }
  }

  lemma SplitCons<T>(part: seq<T>, rest: seq<T>, sep: T)
    requires sep !in part
    ensures Split(part + [sep] + rest, sep) == [part] + Split(rest, sep)
  {
    var s := part + [sep] + rest;
    var i := IndexOf(s, sep);
    assert s[|part|] == sep;
    assert i == |part| by {
      assert forall k :: 0 <= k < |part| ==> s[k] == part[k];
    }
    assert s[..i] == part && s[i + 1..] == rest;
  }

  /** Joining in two stages is joining at once. */
  lemma {:induction false} JoinConcat<T>(a: seq<seq<T>>, b: seq<seq<T>>, sep: seq<T>)
    requires a != [] && b != []
    ensures Join(a + b, sep) == Join(a, sep) + sep + Join(b, sep)
  {
    if |a| > 1 {
      JoinConcat(a[1..], b, sep);
      assert a + b == [a[0]] + (a[1..] + b);
      JoinCons(a[0], a[1..] + b, sep);
      Regroup(a[0], sep, Join(a[1..], sep), Join(b, sep));
    } else {
      assert a + b == [a[0]] + b;
      JoinCons(a[0], b, sep);
    }
  }

  lemma Regroup<T>(a: seq<T>, sep: seq<T>, b: seq<T>, c: seq<T>)
    ensures a + sep + (b + sep + c) == a + sep + b + sep + c
  {
  }

  /** The sub-slice `s[a:b]`, built element by element so that proofs about offsets need not
      reason about nested slices. */
  function Slice<T>(s: seq<T>, a: nat, b: nat): seq<T>
    requires a <= b <= |s|
    decreases b
  {
    if a == b then [] else Slice(s, a, b - 1) + [s[b - 1]]
  }

  lemma {:induction false} SliceIs<T>(s: seq<T>, a: nat, b: nat)
    requires a <= b <= |s|
    ensures Slice(s, a, b) == s[a..b]
    decreases b
  {
    if a < b {
      SliceIs(s, a, b - 1);
    }
  }

  function Lines(s: seq<Byte>): seq<seq<Byte>> { Split(s, NL) }

  /** Where the line that contains offset `a` ends: the next newline, or the end of the body. */
  function LineEnd(s: seq<Byte>, a: nat): (e: nat)
    requires a <= |s|
    ensures a <= e <= |s|
    ensures e < |s| ==> s[e] == NL
    ensures forall k :: a <= k < e ==> s[k] != NL
    decreases |s| - a
  {
    if a == |s| || s[a] == NL then a else LineEnd(s, a + 1)
  }

  /** Where the line that contains offset `p` starts. */
  function LineStart(s: seq<Byte>, p: nat): (a: nat)
    requires p <= |s|
    ensures a <= p
    ensures a > 0 ==> s[a - 1] == NL
    ensures forall k :: a <= k < p ==> s[k] != NL
  {
    if p == 0 || s[p - 1] == NL then p else LineStart(s, p - 1)
  }

  /** How many newlines come before offset `a`. */
  function Newlines(s: seq<Byte>, a: nat): nat
    requires a <= |s|
  {
    if a == 0 then 0 else Newlines(s, a - 1) + (if s[a - 1] == NL then 1 else 0)
  }

  /** Go's `Count` of one byte in the sub-slice `s[a:b]`. */
  function CountIn(s: seq<Byte>, a: nat, b: nat, x: Byte): nat
    requires a <= b <= |s|
    decreases b
  {
    if a == b then 0 else CountIn(s, a, b - 1, x) + (if s[b - 1] == x then 1 else 0)
  }

  lemma {:induction false} NewlinesBetween(s: seq<Byte>, a: nat, b: nat)
    requires a <= b <= |s|
    ensures Newlines(s, b) == Newlines(s, a) + CountIn(s, a, b, NL)
    decreases b
  {
    if a < b {
      NewlinesBetween(s, a, b - 1);
    }
  }

  /** Offsets of one line have the same number of newlines before them. */
  lemma {:induction false} NewlinesInLine(s: seq<Byte>, a: nat, b: nat)
    requires a <= b <= |s| && forall k :: a <= k < b ==> s[k] != NL
    ensures Newlines(s, a) == Newlines(s, b)
    decreases b
  {
    if a < b {
      NewlinesInLine(s, a, b - 1);
    }
  }

  /** What a bounded read of `data` gets. */
  function Head(data: seq<Byte>, cap: nat): (r: seq<Byte>)
    ensures r <= data && |r| == (if |data| <= cap then |data| else cap)
  {
    if |data| <= cap then data else data[..cap]
  }

  /** A file is taken for binary when its head holds a NUL byte. */
  const PEEK_SIZE: nat := 8000

  predicate Binary(s: seq<Byte>) {
    NUL in Head(s, PEEK_SIZE)
  }

  /** Only the first 8000 bytes are looked at. */
  lemma BinaryExactly(s: seq<Byte>)
    ensures Binary(s) <==> exists i :: 0 <= i < |s| && i < 8000 && s[i] == 0
  {
    if i :| 0 <= i < |s| && i < 8000 && s[i] == 0 {
      assert Head(s, PEEK_SIZE)[i] == NUL;
    }
  }

  /** Strips every trailing byte that belongs to `cut`, like Go's `TrimRight`. */
  function TrimRight(s: seq<Byte>, cut: set<Byte>): (r: seq<Byte>)
    ensures r <= s
    ensures r != [] ==> r[|r| - 1] !in cut
    ensures forall k :: |r| <= k < |s| ==> s[k] in cut
  {
    if s != [] && s[|s| - 1] in cut then TrimRight(s[..|s| - 1], cut) else s
  }
}
