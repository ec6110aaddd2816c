/** `gitaware/upstream.go`: how far a branch is ahead of and behind its tracking ref, counted by
    capped depth-first walks. Commit hashes are only ever compared, so they are numbers here. */
module Upstream {
  import opened Bytes
  import opened Wrappers
  import opened Collections

  const UPSTREAM_WALK_CAP: nat := 1000

  type Hash = nat

  /** The object store: every commit with its parents. */
  type Graph = map<Hash, seq<Hash>>

  predicate Complete(g: Graph) {
    forall c, k :: c in g && 0 <= k < |g[c]| ==> g[c][k] in g
  }

  /** A walk along parent links that stays clear of `external`. */
  ghost predicate Walk(g: Graph, external: set<Hash>, path: seq<Hash>) {
    && path != []
    && (forall k :: 0 <= k < |path| ==> path[k] in g && path[k] !in external)
    && (forall k :: 0 < k < |path| ==> path[k] in g[path[k - 1]])
  }

  ghost predicate Reaches(g: Graph, external: set<Hash>, from: Hash, to: Hash) {
    exists path :: Walk(g, external, path) && path[0] == from && path[|path| - 1] == to
  }

  /** The commits reachable from `from` around `external`. */
  ghost function Reachable(g: Graph, external: set<Hash>, from: Hash): set<Hash> {
    set c | c in g && Reaches(g, external, from, c)
  }

  /** A commit counts among its own ancestors. */
  ghost function Ancestors(g: Graph, c: Hash): set<Hash> { Reachable(g, {}, c) }

  ghost function AncestorsOfAll(g: Graph, cs: seq<Hash>): set<Hash> {
    set c | c in g && exists k :: 0 <= k < |cs| && c in Ancestors(g, cs[k])
  }

  lemma ReachesSelf(g: Graph, external: set<Hash>, c: Hash)
    requires c in g && c !in external
    ensures Reaches(g, external, c, c)
  {
    assert Walk(g, external, [c]);
  }

  lemma ReachesParent(g: Graph, external: set<Hash>, from: Hash, c: Hash, parent: Hash)
    requires Reaches(g, external, from, c) && c in g && parent in g[c] && parent in g && parent !in external
    ensures Reaches(g, external, from, parent)
  {
    var path :| Walk(g, external, path) && path[0] == from && path[|path| - 1] == c;
    var longer := path + [parent];
    assert forall k :: 0 < k < |longer| ==> longer[k] in g[longer[k - 1]];
    assert Walk(g, external, longer) && longer[0] == from && longer[|longer| - 1] == parent;
  }

  /** What is closed under unexcluded parents holds everything a walk reaches. */
  lemma {:induction false} WalkStaysInside(g: Graph, external: set<Hash>, inside: set<Hash>, path: seq<Hash>, n: nat)
    requires Walk(g, external, path) && path[0] in inside && n < |path|
    requires forall c, parent :: c in inside && c in g && parent in g[c] ==> parent in inside || parent in external
    ensures path[n] in inside
  {
    if n > 0 {
      WalkStaysInside(g, external, inside, path, n - 1);
      assert path[n] in g[path[n - 1]];
    }
  }

  ghost function Elements(s: seq<Hash>): set<Hash> { set h | h in s }

  /** The commit iterators still to be drained, as one set. */
  ghost function Pending(start: Option<Hash>, stack: seq<seq<Hash>>): set<Hash> {
    (if start.Some? then {start.value} else {}) + (set i, k | 0 <= i < |stack| && 0 <= k < |stack[i]| :: stack[i][k])
  }

  function Remaining(stack: seq<seq<Hash>>): nat {
    if stack == [] then 0 else Remaining(stack[..|stack| - 1]) + |stack[|stack| - 1]| + 1
  }

  /** The parents not seen yet, in order. */
  function Unseen(parents: seq<Hash>, seen: set<Hash>): (r: seq<Hash>)
    ensures forall h :: h in r <==> h in parents && h !in seen
  {
    if parents == [] then []
    else (if parents[0] !in seen then [parents[0]] else []) + Unseen(parents[1..], seen)
  }

  ghost predicate HasChild(g: Graph, seen: set<Hash>, c: Hash) {
    exists child :: child in seen && child in g && c in g[child]
  }

  /** Every commit of `seen` but the roots is a parent of another one in it. */
  ghost predicate Connected(g: Graph, seen: set<Hash>, roots: set<Hash>) {
    forall c {:trigger HasChild(g, seen, c)} :: c in seen && c !in roots ==> HasChild(g, seen, c)
  }

  /** What a walk knows: it has seen only reachable commits; of every commit seen, each parent is
      seen, excluded or pending; and whatever is seen or pending hangs on a commit seen before. */
  ghost predicate WalkInvariant(g: Graph, external: set<Hash>, from: Hash, seen: set<Hash>, pending: set<Hash>) {
    && Complete(g) && from in g
    && seen <= Reachable(g, external, from)
    && (forall c :: c in pending ==> c in g && (c in external || Reaches(g, external, from, c)))
    && (from in seen || from in external || from in pending)
    && (forall c, parent :: c in seen && parent in g[c] ==> parent in seen || parent in external || parent in pending)
    && Connected(g, seen, {from})
    && (forall c {:trigger HasChild(g, seen, c)} :: c in pending && c != from ==> HasChild(g, seen, c))
  }

  lemma SkipKeeps(g: Graph, external: set<Hash>, from: Hash, seen: set<Hash>, pending: set<Hash>, h: Hash, after: set<Hash>)
    requires WalkInvariant(g, external, from, seen, pending) && (h in seen || h in external)
    requires pending - {h} <= after <= pending
    ensures WalkInvariant(g, external, from, seen, after)
  {
  }

  lemma VisitKeeps(g: Graph, external: set<Hash>, from: Hash, seen: set<Hash>, pending: set<Hash>, h: Hash, after: set<Hash>)
    requires WalkInvariant(g, external, from, seen, pending)
    requires h in pending && h !in seen && h !in external
    requires pending - {h} <= after <= pending + Elements(g[h])
    requires forall p :: p in g[h] ==> p in seen || p == h || p in after
    ensures WalkInvariant(g, external, from, seen + {h}, after)
  {
    forall c | c in after ensures c in g && (c in external || Reaches(g, external, from, c)) {
      if c in g[h] && c !in external {
        var k :| 0 <= k < |g[h]| && g[h][k] == c;
        ReachesParent(g, external, from, h, c);
      }
    }
    forall c | c in seen + pending && c != from ensures HasChild(g, seen + {h}, c) {
      assert HasChild(g, seen, c);
    }
  }

  lemma DoneKnowsAll(g: Graph, external: set<Hash>, from: Hash, seen: set<Hash>)
    requires WalkInvariant(g, external, from, seen, {})
    ensures seen == Reachable(g, external, from)
  {
    forall c | c in Reachable(g, external, from) ensures c in seen {
      var path :| Walk(g, external, path) && path[0] == from && path[|path| - 1] == c;
      WalkStaysInside(g, external, seen, path, |path| - 1);
    }
  }

  lemma PendingPop(stack: seq<seq<Hash>>)
    requires stack != [] && stack[|stack| - 1] != []
    ensures var top := |stack| - 1; var h := stack[top][0];
      var popped := Pending(None, stack[top := stack[top][1..]]);
      h in Pending(None, stack) && Pending(None, stack) - {h} <= popped <= Pending(None, stack)
  {
    var top := |stack| - 1;
    var h, after := stack[top][0], stack[top := stack[top][1..]];
    forall c | c in Pending(None, stack) && c != h ensures c in Pending(None, after) {
      var i, k :| 0 <= i < |stack| && 0 <= k < |stack[i]| && stack[i][k] == c;
      assert c == if i == top then after[i][k - 1] else after[i][k];
    }
    forall c | c in Pending(None, after) ensures c in Pending(None, stack) {
      var i, k :| 0 <= i < |after| && 0 <= k < |after[i]| && after[i][k] == c;
      assert c == if i == top then stack[i][k + 1] else stack[i][k];
    }
  }

  lemma PendingDrop(stack: seq<seq<Hash>>)
    requires stack != [] && stack[|stack| - 1] == []
    ensures Pending(None, stack[..|stack| - 1]) == Pending(None, stack)
  {
  }

  lemma PendingPush(stack: seq<seq<Hash>>, hs: seq<Hash>)
    ensures Pending(None, stack + [hs]) == Pending(None, stack) + Elements(hs)
  {
    var more := stack + [hs];
    forall c | c in Pending(None, stack) ensures c in Pending(None, more) {
      var i, k :| 0 <= i < |stack| && 0 <= k < |stack[i]| && stack[i][k] == c;
      assert more[i][k] == c;
    }
    forall c | c in hs ensures c in Pending(None, more) {
      var k :| 0 <= k < |hs| && hs[k] == c;
      assert more[|stack|][k] == c;
    }
  }

  /** Where a preorder walk stands: the commit to start with, the parent iterators, the commits seen. */
  datatype Walking = Walking(start: Option<Hash>, stack: seq<seq<Hash>>, seen: set<Hash>)

  function StartAt(c: Hash): Walking { Walking(Some(c), [], {}) }

  function Parents(g: Graph, c: Hash): seq<Hash> { if c in g then g[c] else [] }

  /** The next commit to look at, and the walk without it. */
  predicate HasTop(s: Walking) { s.start.Some? || (s.stack != [] && s.stack[|s.stack| - 1] != []) }

  function Top(s: Walking): Hash
    requires HasTop(s)
  {
    if s.start.Some? then s.start.value else s.stack[|s.stack| - 1][0]
  }

  function Popped(s: Walking): Walking
    requires HasTop(s)
  {
    if s.start.Some? then s.(start := None)
    else
      var top := |s.stack| - 1;
      s.(stack := s.stack[top := s.stack[top][1..]])
  }

  /** One call of go-git's preorder commit iterator: a stack of parent iterators, filtered by the
      commits seen when they were pushed and again when they are drained. */
  function NextOf(g: Graph, external: set<Hash>, s: Walking): (r: (Walking, Option<Hash>))
    ensures r.0.start.None?
    ensures r.1.None? ==> r.0.seen == s.seen
    ensures r.1.Some? ==> r.1.value !in s.seen && r.0.seen == s.seen + {r.1.value}
    decreases (if s.start.Some? then 1 else 0), Remaining(s.stack)
  {
    if s.start.None? && s.stack == [] then (s, None)
    else if !HasTop(s) then NextOf(g, external, s.(stack := s.stack[..|s.stack| - 1]))
    else
      var h, popped := Top(s), Popped(s);
      if h in s.seen || h in external then NextOf(g, external, popped)
      else
        var seen, parents := s.seen + {h}, Parents(g, h);
        (popped.(seen := seen, stack := if parents == [] then popped.stack else popped.stack + [Unseen(parents, seen)]),
         Some(h))
  }

  // ----- the order of the walk

  /** Depth-first preorder: from what is still to do, each commit not seen yet, then its parents, first
      parent first, and then the rest. */
  function Order(g: Graph, external: set<Hash>, todo: seq<Hash>, seen: set<Hash>): seq<Hash>
    decreases |g.Keys - seen|, |todo|
  {
    if todo == [] then []
    else if todo[0] in seen || todo[0] in external then Order(g, external, todo[1..], seen)
    else
      FewerUnseen(g, seen, todo[0]);
      [todo[0]] + Order(g, external, Parents(g, todo[0]) + todo[1..], seen + {todo[0]})
  }

  lemma FewerUnseen(g: Graph, seen: set<Hash>, h: Hash)
    requires h !in seen
    ensures |g.Keys - (seen + {h})| == |g.Keys - seen| - (if h in g then 1 else 0)
  {
    assert g.Keys - (seen + {h}) == g.Keys - seen - {h};
  }

  lemma UnseenStep(h: Hash, rest: seq<Hash>, seen: set<Hash>)
    ensures Unseen([h] + rest, seen) == (if h !in seen then [h] else []) + Unseen(rest, seen)
  {
    assert ([h] + rest)[1..] == rest;
  }

  lemma {:induction false} UnseenAppend(a: seq<Hash>, b: seq<Hash>, seen: set<Hash>)
    ensures Unseen(a + b, seen) == Unseen(a, seen) + Unseen(b, seen)
  {
    if a == [] {
      assert a + b == b;
    } else {
      hide Unseen;
      var h, rest := a[0], a[1..];
      assert a == [h] + rest;
      AppendAssociates([h], rest, b);
      UnseenStep(h, rest, seen);
      UnseenStep(h, rest + b, seen);
      UnseenAppend(rest, b, seen);
      AppendAssociates(if h !in seen then [h] else [], Unseen(rest, seen), Unseen(b, seen));
    }
  }

  lemma {:induction false} UnseenTwice(a: seq<Hash>, seen: set<Hash>)
    ensures Unseen(Unseen(a, seen), seen) == Unseen(a, seen) && |Unseen(a, seen)| <= |a|
  {
    if a != [] {
      UnseenTwice(a[1..], seen);
      UnseenAppend(if a[0] !in seen then [a[0]] else [], Unseen(a[1..], seen), seen);
    }
  }

  /** Leaving out what was seen before changes nothing. */
  lemma {:induction false} OrderSkipsSeen(g: Graph, external: set<Hash>, todo: seq<Hash>, earlier: set<Hash>, seen: set<Hash>)
    requires earlier <= seen
    ensures Order(g, external, Unseen(todo, earlier), seen) == Order(g, external, todo, seen)
    decreases |g.Keys - seen|, |todo|
  {
    hide Order;
    if todo != [] {
      var h, rest := todo[0], todo[1..];
      var left, parents := Unseen(rest, earlier), Parents(g, h);
      UnseenTwice(rest, earlier);
      assert todo == [h] + rest && Unseen(todo, earlier) == if h in earlier then left else [h] + left;
      OrderStep(g, external, h, rest, seen);
      OrderStep(g, external, h, left, seen);
      if h in seen || h in external {
        OrderSkipsSeen(g, external, rest, earlier, seen);
      } else {
        FewerUnseen(g, seen, h);
        OrderSkipsSeen(g, external, parents + rest, earlier, seen + {h});
        OrderSkipsSeen(g, external, parents + left, earlier, seen + {h});
        UnseenAppend(parents, rest, earlier);
        UnseenAppend(parents, left, earlier);
      }
    } else {
      assert Unseen([], earlier) == [];
    }
  }

  /** What the iterators on the stack hold, the top one first. */
  function Stacked(stack: seq<seq<Hash>>): seq<Hash> {
    if stack == [] then [] else stack[|stack| - 1] + Stacked(stack[..|stack| - 1])
  }

  function Todo(s: Walking): seq<Hash> { (if s.start.Some? then [s.start.value] else []) + Stacked(s.stack) }

  lemma PoppedTodo(s: Walking)
    requires HasTop(s)
    ensures Todo(s) == [Top(s)] + Todo(Popped(s)) && Popped(s).seen == s.seen
  {
    if s.start.None? {
      var top := |s.stack| - 1;
      assert s.stack[top := s.stack[top][1..]][..top] == s.stack[..top];
      assert s.stack[top] == [s.stack[top][0]] + s.stack[top][1..];
      AppendAssociates([s.stack[top][0]], s.stack[top][1..], Stacked(s.stack[..top]));
    }
  }

  lemma PushedTodo(stack: seq<seq<Hash>>, hs: seq<Hash>)
    ensures Stacked(stack + [hs]) == hs + Stacked(stack)
  {
    assert (stack + [hs])[..|stack|] == stack;
  }

  /** The stack machine yields the commits in depth-first preorder. */
  lemma {:induction false} NextIsOrder(g: Graph, external: set<Hash>, s: Walking)
    ensures var (s', c) := NextOf(g, external, s);
      Order(g, external, Todo(s), s.seen)
      == if c.None? then [] else [c.value] + Order(g, external, Todo(s'), s'.seen)
    decreases (if s.start.Some? then 1 else 0), Remaining(s.stack)
  {
    hide Order, Todo, Unseen;
    if s.start.None? && s.stack == [] {
      NothingToDo(g, external, s.seen);
    } else if !HasTop(s) {
      EmptyIterator(s);
      NextIsOrder(g, external, s.(stack := s.stack[..|s.stack| - 1]));
    } else {
      PoppedTodo(s);
      OrderStep(g, external, Top(s), Todo(Popped(s)), s.seen);
      if Top(s) in s.seen || Top(s) in external {
        NextIsOrder(g, external, Popped(s));
      } else {
        PushedOrder(g, external, Popped(s), Parents(g, Top(s)), s.seen + {Top(s)});
      }
    }
  }

  lemma NothingToDo(g: Graph, external: set<Hash>, seen: set<Hash>)
    ensures Todo(Walking(None, [], seen)) == [] && Order(g, external, [], seen) == []
  {
  }

  lemma EmptyIterator(s: Walking)
    requires s.start.None? && s.stack != [] && s.stack[|s.stack| - 1] == []
    ensures Todo(s) == Todo(s.(stack := s.stack[..|s.stack| - 1]))
  {
  }

  lemma OrderStep(g: Graph, external: set<Hash>, h: Hash, rest: seq<Hash>, seen: set<Hash>)
    ensures Order(g, external, [h] + rest, seen)
            == if h in seen || h in external then Order(g, external, rest, seen)
               else [h] + Order(g, external, Parents(g, h) + rest, seen + {h})
  {
    assert ([h] + rest)[1..] == rest;
  }

  /** Pushing only the parents not seen yet. */
  lemma PushedOrder(g: Graph, external: set<Hash>, popped: Walking, parents: seq<Hash>, seen: set<Hash>)
    requires popped.start.None?
    ensures var stack := if parents == [] then popped.stack else popped.stack + [Unseen(parents, seen)];
      Order(g, external, parents + Todo(popped), seen) == Order(g, external, Todo(popped.(seen := seen, stack := stack)), seen)
  {
    hide Order, Unseen;
    var rest := Stacked(popped.stack);
    assert Todo(popped) == [] + rest == rest;
    var stack := if parents == [] then popped.stack else popped.stack + [Unseen(parents, seen)];
    assert Todo(popped.(seen := seen, stack := stack)) == [] + Stacked(stack) == Stacked(stack);
    if parents != [] {
      PushedTodo(popped.stack, Unseen(parents, seen));
      OrderSkipsSeen(g, external, parents + rest, seen, seen);
      OrderSkipsSeen(g, external, Unseen(parents, seen) + rest, seen, seen);
      UnseenAppend(parents, rest, seen);
      UnseenAppend(Unseen(parents, seen), rest, seen);
      UnseenTwice(parents, seen);
    }
  }

  /** What a walk that started from `from` knows. */
  ghost predicate Known(g: Graph, external: set<Hash>, from: Hash, s: Walking) {
    && WalkInvariant(g, external, from, s.seen, Pending(s.start, s.stack))
    && (s.start.Some? ==> s.stack == [] && s.start.value == from)
    && (s.start.None? ==> from in s.seen || from in external)
  }

  lemma StartKnown(g: Graph, external: set<Hash>, from: Hash)
    requires Complete(g) && from in g
    ensures Known(g, external, from, StartAt(from))
  {
    if from !in external {
      ReachesSelf(g, external, from);
    }
  }

  lemma PopKeeps(s: Walking)
    requires HasTop(s) && (s.start.Some? ==> s.stack == [])
    ensures var pending, after := Pending(s.start, s.stack), Pending(Popped(s).start, Popped(s).stack);
      Top(s) in pending && pending - {Top(s)} <= after <= pending
  {
    if s.start.Some? {
      PendingStart(s.start.value);
    } else {
      PendingPop(s.stack);
    }
  }

  /** Each call yields one more commit that was not seen before, or has seen all there is to reach. */
  lemma {:induction false} NextKeeps(g: Graph, external: set<Hash>, from: Hash, s: Walking)
    requires Known(g, external, from, s)
    ensures var (s', c) := NextOf(g, external, s);
      && Known(g, external, from, s')
      && (c.Some? ==> c.value in g)
      && (c.None? ==> s.seen == Reachable(g, external, from))
    decreases (if s.start.Some? then 1 else 0), Remaining(s.stack)
  {
    hide WalkInvariant, Pending, Reachable;
    if s.start.None? && s.stack == [] {
      PendingStart(0);
      DoneKnowsAll(g, external, from, s.seen);
    } else if !HasTop(s) {
      PendingDrop(s.stack);
      NextKeeps(g, external, from, s.(stack := s.stack[..|s.stack| - 1]));
    } else {
      var h, popped := Top(s), Popped(s);
      var pending, after := Pending(s.start, s.stack), Pending(popped.start, popped.stack);
      PopKeeps(s);
      if h in s.seen || h in external {
        SkipKeeps(g, external, from, s.seen, pending, h, after);
        NextKeeps(g, external, from, popped);
      } else {
        PendingKnown(g, external, from, s.seen, pending, h);
        PendingPush(popped.stack, Unseen(g[h], s.seen + {h}));
        var s' := NextOf(g, external, s).0;
        VisitKeeps(g, external, from, s.seen, pending, h, Pending(None, s'.stack));
      }
    }
  }

  class PreorderIter {
    const g: Graph
    const external: set<Hash>
    ghost const from: Hash
    var seen: set<Hash>
    var stack: seq<seq<Hash>>
    var start: Option<Hash>

    ghost function Now(): Walking
      reads this
    {
      Walking(start, stack, seen)
    }

    ghost predicate Valid()
      reads this
    {
      Known(g, external, from, Now())
    }

    constructor (g: Graph, c: Hash, external: set<Hash>)
      requires Complete(g) && c in g
      ensures Valid() && this.g == g && this.external == external && this.from == c
      ensures Now() == StartAt(c)
    {
      this.g := g;
      this.external := external;
      this.from := c;
      this.seen := {};
      this.stack := [];
      this.start := Some(c);
      new;
      StartKnown(g, external, c);
    }

    method Next() returns (c: Option<Hash>)
      requires Valid()
      modifies this
      ensures Valid() && (Now(), c) == NextOf(g, external, old(Now()))
      ensures Order(g, external, Todo(old(Now())), old(seen))
              == if c.None? then [] else [c.value] + Order(g, external, Todo(Now()), seen)
      ensures c.Some? ==> c.value in g && c.value !in old(seen) && seen == old(seen) + {c.value}
      ensures c.None? ==> seen == old(seen) == Reachable(g, external, from)
    {
      hide Known, Reachable, Order, Todo;
      NextKeeps(g, external, from, Now());
      NextIsOrder(g, external, Now());
      while true
        invariant NextOf(g, external, old(Now())) == NextOf(g, external, Now())
        decreases (if start.Some? then 1 else 0), Remaining(stack)
      {
        var h: Hash;
        if start.Some? {
          h := start.value;
          start := None;
        } else {
          if |stack| == 0 {
            return None;
          }
          var top := |stack| - 1;
          if stack[top] == [] {
            stack := stack[..top];
            continue;
          }
          h := stack[top][0];
          stack := stack[top := stack[top][1..]];
        }
        if h in seen || h in external {
          continue;
        }
        seen := seen + {h};
        if |Parents(g, h)| > 0 {
          stack := stack + [Unseen(Parents(g, h), seen)];
        }
        return Some(h);
      }
    }
  }

  lemma PendingStart(h: Hash)
    ensures Pending(Some(h), []) == {h} && Pending(None, []) == {}
  {
  }

  lemma PendingKnown(g: Graph, external: set<Hash>, from: Hash, seen: set<Hash>, pending: set<Hash>, h: Hash)
    requires WalkInvariant(g, external, from, seen, pending) && h in pending
    ensures h in g
  {
  }

  function Min(a: nat, b: nat): nat { if a <= b then a else b }

  /** `countCommitsFrom`. */
  method CountCommitsFrom(g: Graph, from: Hash, external: set<Hash>) returns (count: nat, capped: bool)
    requires Complete(g) && from in g
    ensures count == Min(|Reachable(g, external, from)|, UPSTREAM_WALK_CAP)
    ensures capped <==> count >= UPSTREAM_WALK_CAP
  {
    hide WalkInvariant, Reachable, Pending;
    if from in external {
      NothingReachable(g, external, from);
      return 0, false;
    }
    var iter := new PreorderIter(g, from, external);
    count := 0;
    while true
      invariant iter.Valid() && iter.g == g && iter.external == external && iter.from == from
      invariant fresh(iter)
      invariant count == |iter.seen| < UPSTREAM_WALK_CAP
      decreases UPSTREAM_WALK_CAP - count
    {
      var c := iter.Next();
      if c.None? {
        break;
      }
      count := count + 1;
      if count >= UPSTREAM_WALK_CAP {
        SeenIsReachable(iter.g, iter.external, iter.from, iter.seen, Pending(iter.start, iter.stack));
        SubsetSize(iter.seen, Reachable(g, external, from));
        return count, true;
      }
    }
    return count, false;
  }

  lemma NothingReachable(g: Graph, external: set<Hash>, from: Hash)
    requires from in external
    ensures Reachable(g, external, from) == {}
  {
  }

  lemma SeenIsReachable(g: Graph, external: set<Hash>, from: Hash, seen: set<Hash>, pending: set<Hash>)
    requires WalkInvariant(g, external, from, seen, pending)
    ensures seen <= Reachable(g, external, from) && seen <= g.Keys && Connected(g, seen, {from})
  {
  }

  /** Draining a walk into `seen`, until it ends or `seen` reaches the cap. */
  function Drain(g: Graph, s: Walking, seen: set<Hash>): (Walking, set<Hash>)
    requires s.seen <= seen && |seen| < UPSTREAM_WALK_CAP
    decreases UPSTREAM_WALK_CAP - |s.seen|
  {
    SubsetSize(s.seen, seen);
    var (s', c) := NextOf(g, {}, s);
    if c.None? then (s', seen)
    else if |seen + {c.value}| >= UPSTREAM_WALK_CAP then (s', seen + {c.value})
    else
      SubsetSize(s'.seen, seen + {c.value});
      Drain(g, s', seen + {c.value})
  }

  /** What the walks from the bases see, base after base, until there are as many as the cap. */
  function BaseWalk(g: Graph, bases: seq<Hash>, i: nat, seen: set<Hash>): set<Hash>
    requires i <= |bases| && |seen| < UPSTREAM_WALK_CAP
    decreases |bases| - i
  {
    if i == |bases| then seen
    else
      var more := Drain(g, StartAt(bases[i]), seen).1;
      if |more| >= UPSTREAM_WALK_CAP then more else BaseWalk(g, bases, i + 1, more)
  }

  /** The commits of `order`, one by one, until there are as many as the cap. */
  function UpToCap(order: seq<Hash>, seen: set<Hash>): set<Hash> {
    if order == [] || |seen| >= UPSTREAM_WALK_CAP then seen else UpToCap(order[1..], seen + {order[0]})
  }

  lemma {:induction false} UpToCapAppend(a: seq<Hash>, b: seq<Hash>, seen: set<Hash>)
    ensures UpToCap(a + b, seen) == UpToCap(b, UpToCap(a, seen))
  {
    if a == [] {
      assert a + b == b;
    } else if |seen| < UPSTREAM_WALK_CAP {
      UpToCapAppend(a[1..], b, seen + {a[0]});
      assert (a + b)[1..] == a[1..] + b;
    }
  }

  lemma {:induction false} DrainInOrder(g: Graph, s: Walking, seen: set<Hash>)
    requires s.seen <= seen && |seen| < UPSTREAM_WALK_CAP
    ensures Drain(g, s, seen).1 == UpToCap(Order(g, {}, Todo(s), s.seen), seen)
    decreases UPSTREAM_WALK_CAP - |s.seen|
  {
    hide Order, Todo, NextOf;
    SubsetSize(s.seen, seen);
    NextIsOrder(g, {}, s);
    var (s', c) := NextOf(g, {}, s);
    if c.Some? {
      var rest := Order(g, {}, Todo(s'), s'.seen);
      assert ([c.value] + rest)[1..] == rest;
      if |seen + {c.value}| < UPSTREAM_WALK_CAP {
        SubsetSize(s'.seen, seen + {c.value});
        DrainInOrder(g, s', seen + {c.value});
      }
    }
  }

  /** Depth-first preorder from each of the bases in turn. */
  function OrderFrom(g: Graph, bases: seq<Hash>): seq<Hash> {
    if bases == [] then [] else Order(g, {}, [bases[0]], {}) + OrderFrom(g, bases[1..])
  }

  lemma {:induction false} BaseWalkFrom(g: Graph, bases: seq<Hash>, i: nat, seen: set<Hash>)
    requires i <= |bases| && |seen| < UPSTREAM_WALK_CAP
    ensures BaseWalk(g, bases, i, seen) == UpToCap(OrderFrom(g, bases[i..]), seen)
    decreases |bases| - i
  {
    hide Order, Drain;
    if i < |bases| {
      var order, more := Order(g, {}, [bases[i]], {}), Drain(g, StartAt(bases[i]), seen).1;
      assert Todo(StartAt(bases[i])) == [bases[i]] + [] == [bases[i]];
      DrainInOrder(g, StartAt(bases[i]), seen);
      assert bases[i..][1..] == bases[i + 1..];
      UpToCapAppend(order, OrderFrom(g, bases[i + 1..]), seen);
      if |more| < UPSTREAM_WALK_CAP {
        BaseWalkFrom(g, bases, i + 1, more);
      }
    }
  }

  /** The walk from the bases sees the commits that come first in depth-first preorder, base after base,
      as many as the cap. */
  lemma BaseWalkInOrder(g: Graph, bases: seq<Hash>)
    ensures BaseWalk(g, bases, 0, {}) == UpToCap(OrderFrom(g, bases), {})
  {
    BaseWalkFrom(g, bases, 0, {});
    assert bases[0..] == bases;
  }

  predicate FirstParent(g: Graph, c: Hash, parent: Hash) { c in g && g[c] != [] && g[c][0] == parent }

  /** Each commit is the first parent of the one before, and none comes twice. */
  ghost predicate FirstParents(g: Graph, chain: seq<Hash>) {
    && chain != [] && Distinct(chain)
    && forall i, k :: 0 <= i < k < |chain| && k == i + 1 ==> FirstParent(g, chain[i], chain[k])
  }

  lemma {:induction false} OrderFollows(g: Graph, chain: seq<Hash>, rest: seq<Hash>, seen: set<Hash>)
    requires FirstParents(g, chain) && forall k :: 0 <= k < |chain| ==> chain[k] !in seen
    ensures chain <= Order(g, {}, [chain[0]] + rest, seen)
    decreases |chain|
  {
    hide Order;
    var h, parents := chain[0], Parents(g, chain[0]);
    OrderStep(g, {}, h, rest, seen);
    if |chain| > 1 {
      assert FirstParent(g, h, chain[1]);
      assert parents == [chain[1]] + parents[1..];
      AppendAssociates([chain[1]], parents[1..], rest);
      assert chain == [h] + chain[1..] && FirstParents(g, chain[1..]) by {
        assert forall k :: 0 <= k < |chain[1..]| ==> chain[1..][k] == chain[k + 1];
      }
      OrderFollows(g, chain[1..], parents[1..] + rest, seen + {h});
    }
  }

  lemma {:induction false} ChainUpToCap(chain: seq<Hash>, seen: set<Hash>)
    requires Distinct(chain) && (forall k :: 0 <= k < |chain| ==> chain[k] !in seen)
    requires |seen| + |chain| <= UPSTREAM_WALK_CAP
    ensures UpToCap(chain, seen) == seen + Elements(chain) && |UpToCap(chain, seen)| == |seen| + |chain|
    decreases |chain|
  {
    if chain != [] {
      ChainUpToCap(chain[1..], seen + {chain[0]});
      assert chain == [chain[0]] + chain[1..];
      assert seen + {chain[0]} + Elements(chain[1..]) == seen + Elements(chain);
    }
  }

  lemma {:induction false} UpToCapGrows(order: seq<Hash>, seen: set<Hash>)
    ensures seen <= UpToCap(order, seen)
  {
    if order != [] && |seen| < UPSTREAM_WALK_CAP {
      UpToCapGrows(order[1..], seen + {order[0]});
    }
  }

  /** From the first base the walk follows the first parents: it sees all of them up to the cap, and
      nothing else when they reach it. */
  lemma FirstParentsSeen(g: Graph, bases: seq<Hash>, chain: seq<Hash>)
    requires bases != [] && FirstParents(g, chain) && chain[0] == bases[0] && |chain| <= UPSTREAM_WALK_CAP
    ensures Elements(chain) <= BaseWalk(g, bases, 0, {})
    ensures |chain| == UPSTREAM_WALK_CAP ==> BaseWalk(g, bases, 0, {}) == Elements(chain)
  {
    hide Order, UpToCap, BaseWalk;
    BaseWalkInOrder(g, bases);
    var order := Order(g, {}, [bases[0]], {});
    assert [bases[0]] + [] == [bases[0]];
    OrderFollows(g, chain, [], {});
    var rest := order[|chain|..] + OrderFrom(g, bases[1..]);
    assert OrderFrom(g, bases) == chain + rest;
    UpToCapAppend(chain, rest, {});
    ChainUpToCap(chain, {});
    UpToCapGrows(rest, Elements(chain));
    FullStays(rest, Elements(chain));
  }

  lemma FullStays(order: seq<Hash>, seen: set<Hash>)
    ensures |seen| >= UPSTREAM_WALK_CAP ==> UpToCap(order, seen) == seen
  {
  }

  /** Draining sees all ancestors of the base, unless it is stopped at the cap. */
  lemma {:induction false} DrainKeeps(g: Graph, base: Hash, s: Walking, earlier: set<Hash>, seen: set<Hash>)
    requires Known(g, {}, base, s) && seen == earlier + s.seen && |seen| < UPSTREAM_WALK_CAP
    ensures var (s', more) := Drain(g, s, seen);
      && Known(g, {}, base, s') && s'.start.None? && more == earlier + s'.seen
      && |more| <= UPSTREAM_WALK_CAP && (|more| < UPSTREAM_WALK_CAP ==> s'.seen == Ancestors(g, base))
    decreases UPSTREAM_WALK_CAP - |s.seen|
  {
    hide Known, Reachable;
    SubsetSize(s.seen, seen);
    NextKeeps(g, {}, base, s);
    var (s', c) := NextOf(g, {}, s);
    if c.Some? {
      assert seen + {c.value} == earlier + s'.seen;
      if |seen + {c.value}| < UPSTREAM_WALK_CAP {
        SubsetSize(s'.seen, seen + {c.value});
        DrainKeeps(g, base, s', earlier, seen + {c.value});
      }
    }
  }

  /** `collectBaseAncestors`. */
  method CollectBaseAncestors(g: Graph, bases: seq<Hash>) returns (seen: set<Hash>, capped: bool)
    requires Complete(g) && forall b :: b in bases ==> b in g
    ensures seen == BaseWalk(g, bases, 0, {})
    ensures capped <==> |seen| >= UPSTREAM_WALK_CAP
  {
    hide Known, NextOf, Reachable, Complete;
    seen := {};
    for i := 0 to |bases|
      invariant |seen| < UPSTREAM_WALK_CAP
      invariant BaseWalk(g, bases, 0, {}) == BaseWalk(g, bases, i, seen)
    {
      ghost var all := Drain(g, StartAt(bases[i]), seen);
      var iter := new PreorderIter(g, bases[i], {});
      while true
        invariant iter.Valid() && iter.g == g && iter.external == {} && fresh(iter)
        invariant iter.seen <= seen && |iter.seen| <= |seen| < UPSTREAM_WALK_CAP
        invariant all == Drain(g, iter.Now(), seen)
        decreases UPSTREAM_WALK_CAP - |iter.seen|
      {
        var c := iter.Next();
        if c.None? {
          break;
        }
        seen := seen + {c.value};
        if |seen| >= UPSTREAM_WALK_CAP {
          return seen, true;
        }
        SubsetSize(iter.seen, seen);
      }
    }
    return seen, false;
  }

  /** `seen` was found by walking from the first `n` bases. */
  ghost predicate FromBases(g: Graph, bases: seq<Hash>, n: nat, seen: set<Hash>)
    requires n <= |bases|
  {
    seen <= AncestorsOfAll(g, bases[..n]) && Connected(g, seen, Elements(bases[..n]))
  }

  lemma NoBases(g: Graph, bases: seq<Hash>)
    ensures FromBases(g, bases, 0, {}) && AncestorsOfAll(g, bases[..0]) == {}
  {
  }

  lemma AllFromBases(g: Graph, bases: seq<Hash>, n: nat, seen: set<Hash>)
    requires n <= |bases| && FromBases(g, bases, n, seen)
    ensures seen <= AncestorsOfAll(g, bases) && Connected(g, seen, Elements(bases))
  {
    hide Reachable;
    forall c | c in AncestorsOfAll(g, bases[..n]) ensures c in AncestorsOfAll(g, bases) {
      var k :| 0 <= k < n && c in Ancestors(g, bases[..n][k]);
      assert c in Ancestors(g, bases[k]);
    }
  }

  /** Walking one more base, as far as it went. */
  lemma OneMoreBase(g: Graph, bases: seq<Hash>, i: nat, earlier: set<Hash>, walked: set<Hash>, pending: set<Hash>)
    requires i < |bases| && FromBases(g, bases, i, earlier) && earlier == AncestorsOfAll(g, bases[..i])
    requires WalkInvariant(g, {}, bases[i], walked, pending)
    ensures FromBases(g, bases, i + 1, earlier + walked)
    ensures walked == Ancestors(g, bases[i]) ==> earlier + walked == AncestorsOfAll(g, bases[..i + 1])
  {
    hide Reachable;
    forall c | c in earlier ensures c in AncestorsOfAll(g, bases[..i + 1]) {
      var k :| 0 <= k < i && c in Ancestors(g, bases[..i][k]);
      assert c in Ancestors(g, bases[..i + 1][k]);
    }
    forall c | c in walked ensures c in AncestorsOfAll(g, bases[..i + 1]) {
      SeenIsReachable(g, {}, bases[i], walked, pending);
      assert bases[..i + 1][i] == bases[i];
    }
    forall c | c in AncestorsOfAll(g, bases[..i + 1]) ensures c in earlier || c in Ancestors(g, bases[i]) {
      var k :| 0 <= k < i + 1 && c in Ancestors(g, bases[..i + 1][k]);
      assert k < i ==> bases[..i][k] == bases[..i + 1][k];
    }
    SeenIsReachable(g, {}, bases[i], walked, pending);
    forall c | c in earlier + walked && c !in Elements(bases[..i]) + {bases[i]} ensures HasChild(g, earlier + walked, c) {
      assert HasChild(g, earlier, c) || HasChild(g, walked, c);
    }
    assert Elements(bases[..i + 1]) == Elements(bases[..i]) + {bases[i]} by {
      assert bases[..i + 1] == bases[..i] + [bases[i]];
    }
  }

  /** What the base walk sees: ancestors of the bases, all of them or as many as the cap, each hanging
      on a base; the first base is always among them. */
  ghost predicate BasesSeen(g: Graph, bases: seq<Hash>, seen: set<Hash>) {
    && seen <= AncestorsOfAll(g, bases) && |seen| <= UPSTREAM_WALK_CAP
    && (|seen| < UPSTREAM_WALK_CAP ==> seen == AncestorsOfAll(g, bases))
    && Connected(g, seen, Elements(bases))
    && (bases != [] ==> bases[0] in seen)
  }

  lemma {:induction false} BaseWalkKeeps(g: Graph, bases: seq<Hash>, i: nat, seen: set<Hash>)
    requires Complete(g) && (forall b :: b in bases ==> b in g) && i <= |bases|
    requires FromBases(g, bases, i, seen) && seen == AncestorsOfAll(g, bases[..i]) && |seen| < UPSTREAM_WALK_CAP
    requires i > 0 ==> bases[0] in seen
    ensures BasesSeen(g, bases, BaseWalk(g, bases, i, seen))
    decreases |bases| - i
  {
    hide WalkInvariant, Pending, FromBases, Reachable, Connected, AncestorsOfAll, Elements, Complete;
    if i == |bases| {
      AllFromBases(g, bases, i, seen);
      assert bases[..i] == bases;
    } else {
      StartKnown(g, {}, bases[i]);
      DrainKeeps(g, bases[i], StartAt(bases[i]), seen, seen);
      var (s, more) := Drain(g, StartAt(bases[i]), seen);
      OneMoreBase(g, bases, i, seen, s.seen, Pending(s.start, s.stack));
      if |more| >= UPSTREAM_WALK_CAP {
        AllFromBases(g, bases, i + 1, more);
      } else {
        BaseWalkKeeps(g, bases, i + 1, more);
      }
    }
  }

  lemma BaseWalkSees(g: Graph, bases: seq<Hash>)
    requires Complete(g) && forall b :: b in bases ==> b in g
    ensures BasesSeen(g, bases, BaseWalk(g, bases, 0, {}))
  {
    hide BasesSeen, FromBases, AncestorsOfAll, BaseWalk;
    NoBases(g, bases);
    BaseWalkKeeps(g, bases, 0, {});
  }

  /** The branch's relation to its tracking ref. */
  datatype UpstreamInfo = UpstreamInfo(ref: string, ahead: nat, behind: nat, inSync: bool, capped: bool)

  datatype Branch = Branch(remote: string, merge: string)

  /** What the code reads from a repository: branch configuration (`None` when it cannot be read),
      references, commits, and go-git's answers for the short form of a reference name and for the
      merge bases of two commits (`None` when that search fails). */
  datatype Repository = Repository(
    config: Option<map<string, Branch>>,
    shortName: string -> string,
    refs: map<string, Hash>,
    commits: Graph,
    mergeBase: (Hash, Hash) -> Option<seq<Hash>>)

  ghost function CommonAncestors(g: Graph, a: Hash, b: Hash): set<Hash> { Ancestors(g, a) * Ancestors(g, b) }

  /** go-git's contract: merge bases are common ancestors, and every common ancestor is an
      ancestor of one of them. */
  ghost predicate AreMergeBases(g: Graph, a: Hash, b: Hash, bases: seq<Hash>) {
    && (forall k :: 0 <= k < |bases| ==> bases[k] in CommonAncestors(g, a, b))
    && (forall c :: c in CommonAncestors(g, a, b) ==> exists k :: 0 <= k < |bases| && c in Ancestors(g, bases[k]))
  }

  ghost predicate Sound(repo: Repository) {
    && Complete(repo.commits)
    && forall a, b :: a in repo.commits && b in repo.commits && repo.mergeBase(a, b).Some? ==>
         AreMergeBases(repo.commits, a, b, repo.mergeBase(a, b).value)
  }

  /** Commit links never form a cycle. */
  ghost predicate Acyclic(g: Graph) {
    forall a, b :: a in Ancestors(g, b) && b in Ancestors(g, a) ==> a == b
  }

  lemma ReachesTransitive(g: Graph, a: Hash, b: Hash, c: Hash)
    requires b in Ancestors(g, a) && c in Ancestors(g, b)
    ensures c in Ancestors(g, a)
  {
    var p :| Walk(g, {}, p) && p[0] == a && p[|p| - 1] == b;
    var q :| Walk(g, {}, q) && q[0] == b && q[|q| - 1] == c;
    var path := p + q[1..];
    forall k | 0 < k < |path| ensures path[k] in g[path[k - 1]] {
      if k >= |p| {
        assert path[k] == q[k - |p| + 1] && path[k - 1] == q[k - |p|];
      }
    }
    assert Walk(g, {}, path) && path[|path| - 1] == c;
  }

  lemma ReachesMore(g: Graph, external: set<Hash>, from: Hash)
    ensures Reachable(g, external, from) <= Ancestors(g, from) - external
  {
    forall c | c in Reachable(g, external, from) ensures c in Ancestors(g, from) && c !in external {
      var path :| Walk(g, external, path) && path[0] == from && path[|path| - 1] == c;
      assert Walk(g, {}, path);
    }
  }

  lemma {:induction false} PrefixReaches(g: Graph, path: seq<Hash>, n: nat)
    requires Walk(g, {}, path) && n < |path|
    ensures path[|path| - 1] in Ancestors(g, path[n])
  {
    assert Walk(g, {}, path[n..]);
  }

  /** Excluding some ancestors of the other tip hides none of the commits only this tip has. */
  lemma DifferenceIsReached(g: Graph, from: Hash, other: Hash, external: set<Hash>)
    requires external <= Ancestors(g, other)
    ensures Ancestors(g, from) - Ancestors(g, other) <= Reachable(g, external, from)
  {
    forall c | c in Ancestors(g, from) && c !in Ancestors(g, other) ensures c in Reachable(g, external, from) {
      var path :| Walk(g, {}, path) && path[0] == from && path[|path| - 1] == c;
      forall k | 0 <= k < |path| ensures path[k] !in external {
        PrefixReaches(g, path, k);
        if path[k] in external {
          ReachesTransitive(g, other, path[k], c);
        }
      }
      assert Walk(g, external, path);
    }
  }

  lemma BasesCoverCommon(g: Graph, a: Hash, b: Hash, bases: seq<Hash>)
    requires AreMergeBases(g, a, b, bases)
    ensures AncestorsOfAll(g, bases) == CommonAncestors(g, a, b)
    ensures forall k :: 0 <= k < |bases| ==> bases[k] in g
  {
    hide Reachable;
    forall c | c in AncestorsOfAll(g, bases) ensures c in CommonAncestors(g, a, b) {
      var k :| 0 <= k < |bases| && c in Ancestors(g, bases[k]);
      ReachesTransitive(g, a, bases[k], c);
      ReachesTransitive(g, b, bases[k], c);
    }
    InGraph(g, a);
  }

  lemma InGraph(g: Graph, a: Hash)
    ensures Ancestors(g, a) <= g.Keys
  {
  }

  /** The commits `a` has and `b` has not. */
  ghost function Only(g: Graph, a: Hash, b: Hash): set<Hash> { Ancestors(g, a) - Ancestors(g, b) }

  /** Counting around `external` counts the commits only this tip has: exactly when all common
      ancestors are excluded, and no fewer when only some are. */
  lemma CountedAround(g: Graph, from: Hash, other: Hash, external: set<Hash>)
    requires external <= CommonAncestors(g, from, other)
    ensures Only(g, from, other) <= Reachable(g, external, from)
    ensures external == CommonAncestors(g, from, other) ==> Reachable(g, external, from) == Only(g, from, other)
  {
    hide Reachable;
    DifferenceIsReached(g, from, other, external);
    ReachesMore(g, external, from);
  }

  /** A common ancestor where the commits only this tip has end: the tip itself, or a parent of one of
      them. */
  ghost predicate Boundary(g: Graph, from: Hash, other: Hash, p: Hash) {
    && p in CommonAncestors(g, from, other)
    && (p == from || exists c :: c in Only(g, from, other) && c in g && p in g[c])
  }

  ghost predicate BoundaryWithin(g: Graph, from: Hash, other: Hash, external: set<Hash>) {
    forall p :: Boundary(g, from, other, p) ==> p in external
  }

  /** A walk around excluded common ancestors gets to the others only across the boundary. */
  lemma LeaksExactly(g: Graph, from: Hash, other: Hash, external: set<Hash>)
    requires external <= CommonAncestors(g, from, other)
    ensures Reachable(g, external, from) == Only(g, from, other) <==> BoundaryWithin(g, from, other, external)
  {
    hide Reachable;
    var reached, only := Reachable(g, external, from), Only(g, from, other);
    CountedAround(g, from, other, external);
    if reached == only {
      forall p | Boundary(g, from, other, p) ensures p in external {
        if p !in external {
          BoundaryLeaks(g, from, other, external, p);
        }
      }
    }
    if BoundaryWithin(g, from, other, external) {
      forall d | d in reached ensures d in only {
        InsideBoundary(g, from, other, external, d);
      }
    }
  }

  lemma BoundaryLeaks(g: Graph, from: Hash, other: Hash, external: set<Hash>, p: Hash)
    requires external <= CommonAncestors(g, from, other) && Boundary(g, from, other, p) && p !in external
    ensures p in Reachable(g, external, from) && p !in Only(g, from, other)
  {
    InGraph(g, from);
    CountedAround(g, from, other, external);
    if p == from {
      ReachesSelf(g, external, p);
    } else {
      var c :| c in Only(g, from, other) && c in g && p in g[c];
      ReachesParent(g, external, from, c, p);
    }
  }

  lemma InsideBoundary(g: Graph, from: Hash, other: Hash, external: set<Hash>, d: Hash)
    requires external <= CommonAncestors(g, from, other) && BoundaryWithin(g, from, other, external)
    requires d in Reachable(g, external, from)
    ensures d in Only(g, from, other)
  {
    var only := Only(g, from, other);
    var path :| Walk(g, external, path) && path[0] == from && path[|path| - 1] == d;
    SelfAncestor(g, from);
    assert from in only by {
      assert path[0] !in external && !Boundary(g, from, other, from);
    }
    forall c, parent | c in only && c in g && parent in g[c] ensures parent in only || parent in external || parent !in g {
      if parent in g {
        ReachesParent(g, {}, from, c, parent);
        assert parent !in only ==> Boundary(g, from, other, parent);
      }
    }
    StaysOnly(g, from, other, external, path, |path| - 1);
  }

  lemma {:induction false} StaysOnly(g: Graph, from: Hash, other: Hash, external: set<Hash>, path: seq<Hash>, n: nat)
    requires Walk(g, external, path) && n < |path| && path[0] in Only(g, from, other)
    requires forall c, parent :: c in Only(g, from, other) && c in g && parent in g[c] ==>
               parent in Only(g, from, other) || parent in external || parent !in g
    ensures path[n] in Only(g, from, other)
  {
    hide Only;
    if n > 0 {
      StaysOnly(g, from, other, external, path, n - 1);
      assert path[n] in g[path[n - 1]];
    }
  }

  lemma BoundExactly(g: Graph, from: Hash, other: Hash, external: set<Hash>)
    requires external <= CommonAncestors(g, from, other)
    ensures Min(|Reachable(g, external, from)|, UPSTREAM_WALK_CAP) <= |Only(g, from, other)|
            <==> |Only(g, from, other)| >= UPSTREAM_WALK_CAP || BoundaryWithin(g, from, other, external)
  {
    hide Reachable, Only, BoundaryWithin;
    var reached, only := Reachable(g, external, from), Only(g, from, other);
    CountedAround(g, from, other, external);
    LeaksExactly(g, from, other, external);
    SubsetSize(only, reached);
  }

  /** The commits that the walks from the tips stay clear of, given the merge bases (`None` when their
      search failed). */
  function Excluded(g: Graph, bases: Option<seq<Hash>>): set<Hash> {
    if bases.Some? then BaseWalk(g, bases.value, 0, {}) else {}
  }

  lemma ExcludedIsCommon(g: Graph, from: Hash, other: Hash, bases: Option<seq<Hash>>)
    requires Complete(g) && (bases.Some? ==> AreMergeBases(g, from, other, bases.value))
    ensures var excluded, common := Excluded(g, bases), CommonAncestors(g, from, other);
      && excluded <= common
      && (bases.Some? ==> |excluded| == Min(|common|, UPSTREAM_WALK_CAP))
      && (bases.Some? && |common| < UPSTREAM_WALK_CAP ==> excluded == common)
      && (bases.Some? && bases.value != [] ==> bases.value[0] in excluded)
  {
    hide Reachable, BaseWalk, CommonAncestors, AncestorsOfAll, AreMergeBases, Connected;
    if bases.Some? {
      BasesCoverCommon(g, from, other, bases.value);
      BaseWalkSees(g, bases.value);
      SubsetSize(Excluded(g, bases), CommonAncestors(g, from, other));
    }
  }

  /** A count is a lower bound on the commits only this tip has if and only if those reach the cap, or
      the base walk saw every common ancestor at their boundary. */
  lemma LowerBoundExactly(g: Graph, from: Hash, other: Hash, bases: Option<seq<Hash>>)
    requires Complete(g) && (bases.Some? ==> AreMergeBases(g, from, other, bases.value))
    ensures Min(|Reachable(g, Excluded(g, bases), from)|, UPSTREAM_WALK_CAP) <= |Only(g, from, other)|
            <==> || |Only(g, from, other)| >= UPSTREAM_WALK_CAP
                 || BoundaryWithin(g, from, other, Excluded(g, bases))
  {
    ExcludedIsCommon(g, from, other, bases);
    BoundExactly(g, from, other, Excluded(g, bases));
  }

  /** What a count is: the commits reached around those that the base walk saw, up to the cap. That is
      never less than the commits only this tip has, up to the cap; no more if and only if those reach
      the cap or the base walk saw their boundary. It is exact when there are fewer common ancestors
      than the cap, and also when the boundary lies among the first merge base and up to 999 first
      parents behind it. Without merge bases, it is the number of all ancestors, up to the cap. */
  ghost predicate CountIsRight(g: Graph, from: Hash, other: Hash, bases: Option<seq<Hash>>, count: nat) {
    var only := |Only(g, from, other)|;
    && count == Min(|Reachable(g, Excluded(g, bases), from)|, UPSTREAM_WALK_CAP)
    && count >= Min(only, UPSTREAM_WALK_CAP)
    && (count <= only <==> only >= UPSTREAM_WALK_CAP || BoundaryWithin(g, from, other, Excluded(g, bases)))
    && (bases.None? ==> count == Min(|Ancestors(g, from)|, UPSTREAM_WALK_CAP))
    && (bases.Some? && |CommonAncestors(g, from, other)| < UPSTREAM_WALK_CAP ==> count == Min(only, UPSTREAM_WALK_CAP))
    && (bases.Some? && bases.value != [] ==>
          forall chain | FirstParents(g, chain) && chain[0] == bases.value[0] && |chain| <= UPSTREAM_WALK_CAP ::
            BoundaryWithin(g, from, other, Elements(chain)) ==> count == Min(only, UPSTREAM_WALK_CAP))
  }

  lemma CountsRight(g: Graph, from: Hash, other: Hash, bases: Option<seq<Hash>>)
    requires Complete(g) && (bases.Some? ==> AreMergeBases(g, from, other, bases.value))
    ensures CountIsRight(g, from, other, bases, Min(|Reachable(g, Excluded(g, bases), from)|, UPSTREAM_WALK_CAP))
  {
    hide Reachable, Only, Boundary, AreMergeBases, BaseWalk;
    var excluded := Excluded(g, bases);
    ExcludedIsCommon(g, from, other, bases);
    CountedAround(g, from, other, excluded);
    SubsetSize(Only(g, from, other), Reachable(g, excluded, from));
    BoundExactly(g, from, other, excluded);
    LeaksExactly(g, from, other, excluded);
    if bases.Some? && bases.value != [] {
      forall chain | FirstParents(g, chain) && chain[0] == bases.value[0] && |chain| <= UPSTREAM_WALK_CAP
        ensures Elements(chain) <= excluded
      {
        FirstParentsSeen(g, bases.value, chain);
      }
    }
  }

  lemma TipsDiffer(g: Graph, a: Hash, b: Hash)
    requires Acyclic(g) && a in g && b in g && a != b
    ensures Only(g, a, b) != {} || Only(g, b, a) != {}
  {
    hide Reachable;
    SelfAncestor(g, a);
    SelfAncestor(g, b);
    assert a in Only(g, a, b) || a in Ancestors(g, b);
    assert b in Only(g, b, a) || b in Ancestors(g, a);
  }

  lemma SelfAncestor(g: Graph, a: Hash)
    requires a in g
    ensures a in Ancestors(g, a)
  {
    ReachesSelf(g, {}, a);
  }

  function TrackingRef(repo: Repository, b: Branch): string {
    "refs/remotes/" + b.remote + "/" + repo.shortName(b.merge)
  }

  function BranchRef(name: string): string { "refs/heads/" + name }

  /** Whether there is an upstream to report on. */
  predicate Tracked(repo: Repository, name: string) {
    && name != "" && repo.config.Some? && name in repo.config.value
    && var b := repo.config.value[name];
       b.remote != "" && b.merge != "" && TrackingRef(repo, b) in repo.refs && BranchRef(name) in repo.refs
       && (repo.refs[TrackingRef(repo, b)] == repo.refs[BranchRef(name)]
           || (repo.refs[TrackingRef(repo, b)] in repo.commits && repo.refs[BranchRef(name)] in repo.commits))
  }

  lemma BasesEitherWay(g: Graph, a: Hash, b: Hash, bases: Option<seq<Hash>>)
    ensures CommonAncestors(g, a, b) == CommonAncestors(g, b, a)
    ensures bases.Some? && AreMergeBases(g, a, b, bases.value) ==> AreMergeBases(g, b, a, bases.value)
  {
    hide Reachable;
  }

  lemma UncappedIsExact(g: Graph, from: Hash, other: Hash, bases: Option<seq<Hash>>, count: nat)
    requires CountIsRight(g, from, other, bases, count)
    ensures bases.Some? && |CommonAncestors(g, from, other)| < UPSTREAM_WALK_CAP && count < UPSTREAM_WALK_CAP ==>
      count == |Only(g, from, other)|
  {
    hide Only, BoundaryWithin, CommonAncestors, Excluded, Reachable;
  }

  lemma SomeCounted(g: Graph, from: Hash, other: Hash, bases: Option<seq<Hash>>, count: nat)
    requires CountIsRight(g, from, other, bases, count)
    ensures Only(g, from, other) != {} ==> count > 0
  {
    hide Only, BoundaryWithin, CommonAncestors, Excluded, Reachable;
    if Only(g, from, other) != {} {
      SubsetSize({}, Only(g, from, other));
    }
  }

  /** `resolveUpstream`. */
  method ResolveUpstream(repo: Repository, name: string) returns (info: Option<UpstreamInfo>)
    requires Sound(repo)
    ensures info.Some? <==> Tracked(repo, name)
    ensures info.Some? ==>
      var g := repo.commits;
      var local, remote := repo.refs[BranchRef(name)], repo.refs[TrackingRef(repo, repo.config.value[name])];
      var b := repo.config.value[name];
      && info.value.ref == "refs/remotes/" + b.remote + "/" + repo.shortName(b.merge)
      && (local == remote ==> info.value == UpstreamInfo(info.value.ref, 0, 0, true, false))
      && (local != remote ==>
            var bases, common := repo.mergeBase(local, remote), |CommonAncestors(g, local, remote)|;
            && CountIsRight(g, local, remote, bases, info.value.ahead)
            && CountIsRight(g, remote, local, bases, info.value.behind)
            && (Acyclic(g) ==> !info.value.inSync)
            && (info.value.capped <==>
                  || (bases.Some? && common >= UPSTREAM_WALK_CAP)
                  || info.value.ahead >= UPSTREAM_WALK_CAP || info.value.behind >= UPSTREAM_WALK_CAP)
            && (bases.Some? && !info.value.capped ==>
                  && info.value.ahead == |Only(g, local, remote)|
                  && info.value.behind == |Only(g, remote, local)|))
  {
    hide Reachable, Acyclic, AreMergeBases, Complete, Only, CountIsRight, CommonAncestors, AncestorsOfAll;
    if name == "" {
      return None;
    }
    if repo.config.None? || name !in repo.config.value {
      return None;
    }
    var branch := repo.config.value[name];
    if branch.remote == "" || branch.merge == "" {
      return None;
    }
    var trackingRef := TrackingRef(repo, branch);
    if trackingRef !in repo.refs || BranchRef(name) !in repo.refs {
      return None;
    }
    var remote, local := repo.refs[trackingRef], repo.refs[BranchRef(name)];
    if local == remote {
      return Some(UpstreamInfo(trackingRef, 0, 0, true, false));
    }
    if local !in repo.commits || remote !in repo.commits {
      return None;
    }
    var g := repo.commits;
    var bases := repo.mergeBase(local, remote);
    var seenExternal, baseCapped := {}, false;
    BasesEitherWay(g, local, remote, bases);
    if bases.Some? && |bases.value| > 0 {
      BasesCoverCommon(g, local, remote, bases.value);
      seenExternal, baseCapped := CollectBaseAncestors(g, bases.value);
    }
    assert seenExternal == Excluded(g, bases);
    ExcludedIsCommon(g, local, remote, bases);
    var ahead, aheadCapped := CountCommitsFrom(g, local, seenExternal);
    var behind, behindCapped := CountCommitsFrom(g, remote, seenExternal);
    CountsRight(g, local, remote, bases);
    CountsRight(g, remote, local, bases);
    UncappedIsExact(g, local, remote, bases, ahead);
    UncappedIsExact(g, remote, local, bases, behind);
    if Acyclic(g) {
      TipsDiffer(g, local, remote);
      SomeCounted(g, local, remote, bases, ahead);
      SomeCounted(g, remote, local, bases, behind);
    }
    return Some(UpstreamInfo(trackingRef, ahead, behind, ahead == 0 && behind == 0,
                             baseCapped || aheadCapped || behindCapped));
  }

  /** A straight history 0 <- 1 <- ... <- 1000, and one merge of its two ends on top of it. */
  ghost function LadderParents(c: Hash): seq<Hash> {
    if c == 0 then [] else if c == 1001 then [1000, 0] else [c - 1]
  }

  ghost function LadderTo(n: nat): (g: Graph)
    ensures forall c: Hash :: c in g <==> c <= n
    ensures forall c :: c in g ==> g[c] == LadderParents(c)
  {
    var below: Graph := if n == 0 then map[] else LadderTo(n - 1);
    assert forall c: Hash :: c in below <==> c < n;
    below[n := LadderParents(n)]
  }

  ghost predicate IsLadder(g: Graph) {
    && (forall c: Hash :: c in g <==> c <= 1001)
    && (forall c :: c in g ==> g[c] == LadderParents(c))
  }

  lemma LadderExists(top: nat)
    requires top == 1001
    ensures IsLadder(LadderTo(top))
  {
    hide LadderTo;
  }

  lemma LadderChild(g: Graph, c: Hash, child: Hash)
    requires IsLadder(g) && child in g && c in g[child]
    ensures child == c + 1 || child == 1001
  {
  }

  ghost function Between(g: Graph, lo: nat, hi: nat): set<Hash> { set c: Hash | c in g && lo <= c <= hi }

  lemma {:induction false} RangeSize(g: Graph, n: nat)
    requires IsLadder(g) && n <= 1001
    ensures |Between(g, 1, n)| == n
  {
    if n > 0 {
      RangeSize(g, n - 1);
      assert Between(g, 1, n) == Between(g, 1, n - 1) + {n};
    }
  }

  lemma {:induction false} LadderAncestors(g: Graph, c: nat)
    requires IsLadder(g) && c <= 1000
    ensures c in Ancestors(g, 1000)
    decreases 1000 - c
  {
    if c == 1000 {
      SelfAncestor(g, 1000);
    } else {
      LadderAncestors(g, c + 1);
      assert LadderParents(c + 1) == [c];
      ReachesParent(g, {}, 1000, c + 1, c);
    }
  }

  lemma LadderBelow(g: Graph, c: Hash)
    requires IsLadder(g) && c in Ancestors(g, 1000)
    ensures c <= 1000
  {
    var path :| Walk(g, {}, path) && path[0] == 1000 && path[|path| - 1] == c;
    WalkStaysInside(g, {}, Between(g, 0, 1000), path, |path| - 1);
  }

  /** A connected part of the ladder that holds its foot holds all of it. */
  lemma {:induction false} ClimbsUp(g: Graph, seen: set<Hash>, c: nat)
    requires IsLadder(g) && Connected(g, seen, {1000}) && 0 in seen && c <= 1000
    requires forall h :: h in seen ==> h <= 1000
    ensures c in seen
  {
    if c > 0 {
      ClimbsUp(g, seen, c - 1);
      assert HasChild(g, seen, c - 1);
      var child :| child in seen && child in g && c - 1 in g[child];
      LadderChild(g, c - 1, child);
    }
  }

  /** When the base walk is capped the counts are not lower bounds: in this history the tracking ref
      is the top of the ladder and the branch is the merge, one commit ahead, but the capped walk from
      the merge base leaves the foot out, and the branch is counted two ahead. */
  lemma CappedOvercounts(g: Graph, count: nat)
    requires IsLadder(g)
    ensures Complete(g) && AreMergeBases(g, 1001, 1000, [1000])
    ensures Only(g, 1001, 1000) == {1001}
    ensures CountIsRight(g, 1001, 1000, Some([1000]), count) ==> count == 2
  {
    hide Reachable, Connected, BaseWalk;
    LadderCommon(g);
    var seen := Excluded(g, Some([1000]));
    BaseWalkSees(g, [1000]);
    ExcludedIsCommon(g, 1001, 1000, Some([1000]));
    LadderIsLong(g);
    CappedLeavesFoot(g, seen);
  }

  lemma LadderIsLong(g: Graph)
    requires IsLadder(g)
    ensures |CommonAncestors(g, 1001, 1000)| >= UPSTREAM_WALK_CAP
    ensures AncestorsOfAll(g, [1000]) <= Ancestors(g, 1000) && Elements([1000]) == {1000}
  {
    hide Reachable;
    var upper := Between(g, 1, 1000);
    RangeSize(g, 1000);
    OverTheTop(g);
    forall c | c in upper ensures c in CommonAncestors(g, 1001, 1000) {
      LadderAncestors(g, c);
      ReachesTransitive(g, 1001, 1000, c);
    }
    SubsetSize(upper, CommonAncestors(g, 1001, 1000));
  }

  lemma CappedLeavesFoot(g: Graph, seen: set<Hash>)
    requires IsLadder(g) && seen <= Ancestors(g, 1000) && |seen| == UPSTREAM_WALK_CAP && Connected(g, seen, {1000})
    ensures Reachable(g, seen, 1001) == {1001, 0} && |Reachable(g, seen, 1001)| == 2
  {
    hide Reachable, Connected;
    forall h | h in seen ensures h <= 1000 { LadderBelow(g, h); }
    var upper := Between(g, 1, 1000);
    RangeSize(g, 1000);
    if 0 in seen {
      forall c | c in upper ensures c in seen { ClimbsUp(g, seen, c); }
      SubsetSize(upper + {0}, seen);
    }
    SubsetSize(seen, upper);
    LadderAround(g, seen);
  }

  lemma LadderCommon(g: Graph)
    requires IsLadder(g)
    ensures AreMergeBases(g, 1001, 1000, [1000])
    ensures Only(g, 1001, 1000) == {1001}
  {
    hide Reachable;
    SelfAncestor(g, 1001);
    ReachesSelf(g, {}, 1001);
    OverTheTop(g);
    LadderAncestors(g, 1000);
    InGraph(g, 1001);
    forall c | c in Ancestors(g, 1001) && c != 1001 ensures c in Ancestors(g, 1000) { LadderAncestors(g, c); }
    assert 1001 !in Ancestors(g, 1000) by {
      if 1001 in Ancestors(g, 1000) { LadderBelow(g, 1001); }
    }
    assert [1000][0] == 1000;
  }

  lemma OverTheTop(g: Graph)
    requires IsLadder(g)
    ensures 1000 in Ancestors(g, 1001)
  {
    ReachesSelf(g, {}, 1001);
    assert g[1001][0] == 1000;
    ReachesParent(g, {}, 1001, 1001, 1000);
  }

  lemma LadderAround(g: Graph, seen: set<Hash>)
    requires IsLadder(g) && seen == Between(g, 1, 1000)
    ensures Reachable(g, seen, 1001) == {1001, 0}
  {
    ReachesSelf(g, seen, 1001);
    assert g[1001][1] == 0;
    ReachesParent(g, seen, 1001, 1001, 0);
    ReachesMore(g, seen, 1001);
  }
}
