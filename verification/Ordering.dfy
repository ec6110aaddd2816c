/** Go's string order on workspace-relative paths, and what sorting by it yields. A `char` of a
    segment stands for one byte of the Go string. */
module Ordering {
  import opened Bytes
  import opened Collections
  import opened Visibility

  /** Bytewise lexicographic order. */
  predicate Less(a: string, b: string) {
    b != [] && (a == [] || a[0] < b[0] || (a[0] == b[0] && Less(a[1..], b[1..])))
  }

  lemma {:induction false} LessTrichotomy(a: string, b: string)
    ensures a == b || Less(a, b) || Less(b, a)
    ensures !(Less(a, b) && Less(b, a))
    ensures Less(a, b) ==> a != b
  {
    if a != [] && b != [] {
      LessTrichotomy(a[1..], b[1..]);
      assert a == [a[0]] + a[1..] && b == [b[0]] + b[1..];
    }
  }

  /** Smaller at the first difference, or a proper prefix. */
  lemma {:induction false} LessExactly(a: string, b: string)
    ensures Less(a, b) <==>
      || (|a| < |b| && a == b[..|a|])
      || exists k :: 0 <= k < |a| && k < |b| && a[..k] == b[..k] && a[k] < b[k]
  {
    if a != [] && b != [] && a[0] == b[0] {
      var s, t := a[1..], b[1..];
      LessExactly(s, t);
      assert a == [a[0]] + s && b == [a[0]] + t;
      assert |a| < |b| ==> b[..|a|] == [a[0]] + t[..|s|];
      if k :| 0 <= k < |s| && k < |t| && s[..k] == t[..k] && s[k] < t[k] {
        assert a[..k + 1] == [a[0]] + s[..k] && b[..k + 1] == [a[0]] + t[..k];
        assert a[k + 1] < b[k + 1];
      }
      if k :| 0 <= k < |a| && k < |b| && a[..k] == b[..k] && a[k] < b[k] {
        assert s[..k - 1] == a[..k][1..] && t[..k - 1] == b[..k][1..];
        assert s[k - 1] < t[k - 1];
      }
    } else if a != [] && b != [] {
      assert a[..0] == b[..0];
      assert forall k :: 0 < k <= |a| && k <= |b| ==> a[..k][0] != b[..k][0];
    }
  }

  /** The slash path of an entry. */
  function Rel(p: Path): string { Join(p, ['/']) }

  /** No file name holds a slash. */
  predicate Nameable(p: Path) {
    p != [] && forall k :: 0 <= k < |p| ==> '/' !in p[k]
  }

  lemma RelInjective(p: Path, q: Path)
    requires Nameable(p) && Nameable(q) && Rel(p) == Rel(q)
    ensures p == q
  {
    SplitJoin(p, '/');
    SplitJoin(q, '/');
  }

  predicate Precedes(p: Path, q: Path) { Less(Rel(p), Rel(q)) }

  /** What the sorting library promises: a permutation without an inversion. */
  ghost predicate SortedCopy(given: seq<Path>, sorted: seq<Path>) {
    && multiset(sorted) == multiset(given)
    && forall i, j :: 0 <= i < j < |sorted| ==> !Precedes(sorted[j], sorted[i])
  }

  ghost predicate StrictlyBefore(ps: seq<Path>) {
    forall i, j :: 0 <= i < j < |ps| ==> Precedes(ps[i], ps[j])
  }

  lemma {:induction false} DistinctOnce<T>(s: seq<T>)
    ensures Distinct(s) <==> forall x :: x in s ==> multiset(s)[x] == 1
  {
    if s != [] {
      var n := |s| - 1;
      var front, last := s[..n], s[n];
      DistinctOnce(front);
      assert s == front + [last];
      assert multiset(s) == multiset(front) + multiset{last};
      assert last in s;
      if Distinct(s) {
        assert last !in front;
        assert Distinct(front);
      } else {
        if Distinct(front) {
          assert last in front;
          assert multiset(front)[last] >= 1;
        } else {
          var x :| x in front && multiset(front)[x] != 1;
          assert multiset(front)[x] >= 1;
          assert x in s;
        }
      }
    }
  }

  lemma MembersOf<T>(s: seq<T>, x: T)
    ensures x in s <==> x in multiset(s)
  {
  }

  /** Sorting distinct names leaves no ties, so the unstable sort has one possible result. */
  lemma SortedIsStrict(given: seq<Path>, sorted: seq<Path>)
    requires SortedCopy(given, sorted) && Distinct(given) && forall p :: p in given ==> Nameable(p)
    ensures StrictlyBefore(sorted) && forall p :: p in sorted <==> p in given
  {
    hide Rel, Nameable;
    DistinctOnce(given);
    DistinctOnce(sorted);
    forall p ensures p in sorted <==> p in given {
      MembersOf(given, p);
      MembersOf(sorted, p);
    }
    forall i, j | 0 <= i < j < |sorted| ensures Precedes(sorted[i], sorted[j]) {
      LessTrichotomy(Rel(sorted[i]), Rel(sorted[j]));
      if Rel(sorted[i]) == Rel(sorted[j]) {
        assert sorted[i] in sorted && sorted[j] in sorted;
        RelInjective(sorted[i], sorted[j]);
      }
    }
  }

  /** There is only one strict order of the same paths. */
  lemma {:induction false} StrictOrderUnique(a: seq<Path>, b: seq<Path>)
    requires StrictlyBefore(a) && StrictlyBefore(b) && forall p :: p in a <==> p in b
    ensures a == b
  {
    hide Precedes;
    SomeMember(b);
    if a != [] {
      FirstIsFirst(a, b);
      forall p ensures p in a[1..] <==> p in b[1..] {
        TailMembers(a, p);
        TailMembers(b, p);
      }
      StrictOrderUnique(a[1..], b[1..]);
    }
  }

  lemma SomeMember(ps: seq<Path>)
    ensures ps != [] ==> exists p :: p in ps
  {
    if ps != [] {
      assert ps[0] in ps;
    }
  }

  lemma FirstIsFirst(a: seq<Path>, b: seq<Path>)
    requires StrictlyBefore(a) && StrictlyBefore(b) && a != [] && forall p :: p in a <==> p in b
    ensures b != [] && a[0] == b[0]
  {
    hide Rel;
    assert a[0] in a;
    assert b[0] in b;
    var i :| 0 <= i < |b| && b[i] == a[0];
    var k :| 0 <= k < |a| && a[k] == b[0];
    LessTrichotomy(Rel(a[0]), Rel(b[0]));
  }

  lemma TailMembers(s: seq<Path>, p: Path)
    requires s != [] && StrictlyBefore(s)
    ensures p in s[1..] <==> p in s && p != s[0]
  {
    hide Rel;
    if p in s[1..] {
      var k :| 0 <= k < |s[1..]| && s[1..][k] == p;
      assert s[k + 1] == p && Precedes(s[0], s[k + 1]);
      LessTrichotomy(Rel(s[0]), Rel(p));
    }
  }
}
