/** Walks in finite directed graphs, and what a walk can and cannot leave. */
module Reachability {
  type Graph<T(==)> = map<T, set<T>>

  /** The successors of a node; a node the graph does not list has none. */
  function Next<T>(g: Graph<T>, x: T): set<T> {
    if x in g then g[x] else {}
  }

  ghost predicate IsWalk<T>(g: Graph<T>, walk: seq<T>) {
    forall i :: 0 < i < |walk| ==> walk[i] in Next(g, walk[i - 1])
  }

  ghost predicate WalkBetween<T>(g: Graph<T>, walk: seq<T>, a: T, b: T) {
    |walk| >= 2 && walk[0] == a && walk[|walk| - 1] == b && IsWalk(g, walk)
  }

  /** b can be reached from a over one or more edges. */
  ghost predicate Reaches<T(!new)>(g: Graph<T>, a: T, b: T) {
    exists walk: seq<T> :: WalkBetween(g, walk, a, b)
  }

  /** b is a itself or can be reached from it. */
  ghost predicate ReachesOrIs<T(!new)>(g: Graph<T>, a: T, b: T) {
    a == b || Reaches(g, a, b)
  }

  ghost predicate Closed<T(!new)>(g: Graph<T>, s: set<T>) {
    forall x, y :: x in s && y in Next(g, x) ==> y in s
  }

  lemma EdgeReaches<T(!new)>(g: Graph<T>, a: T, b: T)
    requires b in Next(g, a)
    ensures Reaches(g, a, b)
  {
    assert WalkBetween(g, [a, b], a, b);
  }

  lemma StepReaches<T(!new)>(g: Graph<T>, a: T, b: T, c: T)
    requires ReachesOrIs(g, a, b) && c in Next(g, b)
    ensures Reaches(g, a, c)
  {
    if a == b {
      EdgeReaches(g, a, c);
    } else {
      var walk :| WalkBetween(g, walk, a, b);
      assert WalkBetween(g, walk + [c], a, c);
    }
  }

  lemma ReachesTransitive<T(!new)>(g: Graph<T>, a: T, b: T, c: T)
    requires Reaches(g, a, b) && Reaches(g, b, c)
    ensures Reaches(g, a, c)
  {
    var to :| WalkBetween(g, to, a, b);
    var from :| WalkBetween(g, from, b, c);
    var whole := to + from[1..];
    forall k | 0 < k < |whole|
      ensures whole[k] in Next(g, whole[k - 1])
    {
      if k < |to| {
        assert whole[k] == to[k] && whole[k - 1] == to[k - 1];
      } else {
        var j := k - |to| + 1;
        assert whole[k] == from[j] && whole[k - 1] == from[j - 1];
      }
    }
    assert WalkBetween(g, whole, a, c);
  }

  /** A walk that starts in a closed set never leaves it. */
  lemma {:induction false} WalkStaysInClosed<T(!new)>(g: Graph<T>, s: set<T>, walk: seq<T>, i: nat)
    requires Closed(g, s) && IsWalk(g, walk)
    requires i < |walk| && walk[0] in s
    ensures walk[i] in s
  {
    if i > 0 {
      WalkStaysInClosed(g, s, walk, i - 1);
    }
  }

  lemma ClosedContainsReached<T(!new)>(g: Graph<T>, s: set<T>, a: T, b: T)
    requires Closed(g, s) && a in s && ReachesOrIs(g, a, b)
    ensures b in s
  {
    if a != b {
      var walk :| WalkBetween(g, walk, a, b);
      WalkStaysInClosed(g, s, walk, |walk| - 1);
    }
  }

  /** The last edge of the shortest way to b leaves some node that a reaches or is. */
  lemma LastEdge<T(!new)>(g: Graph<T>, a: T, b: T) returns (from: T)
    requires Reaches(g, a, b)
    ensures ReachesOrIs(g, a, from) && b in Next(g, from)
  {
    var walk :| WalkBetween(g, walk, a, b);
    from := walk[|walk| - 2];
    if |walk| > 2 {
      assert WalkBetween(g, walk[..|walk| - 1], a, from);
    }
  }

  /** h has every edge of g turned round, and perhaps others. */
  ghost predicate CoversReversed<T(!new)>(g: Graph<T>, h: Graph<T>) {
    forall x, y :: y in Next(g, x) ==> x in Next(h, y)
  }

  lemma ReversedWalk<T(!new)>(g: Graph<T>, h: Graph<T>, a: T, b: T)
    requires CoversReversed(g, h) && Reaches(g, a, b)
    ensures Reaches(h, b, a)
  {
    var walk :| WalkBetween(g, walk, a, b);
    var back := seq(|walk|, i requires 0 <= i < |walk| => walk[|walk| - 1 - i]);
    assert forall i {:trigger back[i]} :: 0 < i < |back| ==>
             back[i - 1] == walk[|walk| - i] && back[i] == walk[|walk| - i - 1] &&
             back[i - 1] in Next(g, back[i]);
    assert WalkBetween(h, back, b, a);
  }

  /** Fewer edges, fewer walks. */
  lemma SubgraphReaches<T(!new)>(g: Graph<T>, h: Graph<T>, a: T, b: T)
    requires forall x :: Next(g, x) <= Next(h, x)
    requires Reaches(g, a, b)
    ensures Reaches(h, a, b)
  {
    var walk :| WalkBetween(g, walk, a, b);
    assert WalkBetween(h, walk, a, b);
  }
}
