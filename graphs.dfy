/**
 * The directed graph a search runs over, and the walks in it.
 *
 * The graph is the adjacency structure a loaded adjacency-list file yields:
 * every node is a key, mapped to its out-neighbours in the order the file
 * lists them. A node that only ever appears as a target is a key with no
 * out-neighbours, so every listed neighbour is itself a key (`Closed`).
 */
module Graphs {

  /** A node identifier: an opaque string, compared exactly. */
  type Node = string

  /** Each node mapped to its out-neighbours, in stored order. */
  type Graph = map<Node, seq<Node>>

  /** Every listed neighbour is itself a node of the graph. */
  ghost predicate Closed(g: Graph) {
    forall u, v :: u in g && v in g[u] ==> v in g
  }

  /** Every element of `p` is a node of `g`. */
  ghost predicate AllNodes(g: Graph, p: seq<Node>) {
    forall k :: 0 <= k < |p| ==> p[k] in g
  }

  /** No element of `p` occurs twice. */
  ghost predicate Distinct(p: seq<Node>) {
    forall a, b :: 0 <= a < b < |p| ==> p[a] != p[b]
  }

  /** `p` is a non-empty sequence of nodes, each joined to the next by a directed edge. */
  ghost predicate IsWalk(g: Graph, p: seq<Node>) {
    && |p| > 0
    && AllNodes(g, p)
    && forall k :: 0 < k < |p| ==> p[k] in g[p[k - 1]]
  }

  /** `p` is a walk from `s` to `t`. */
  ghost predicate WalkFrom(g: Graph, s: Node, t: Node, p: seq<Node>) {
    IsWalk(g, p) && p[0] == s && p[|p| - 1] == t
  }

  /** Some walk leads from `s` to `t`. */
  ghost predicate Reachable(g: Graph, s: Node, t: Node) {
    exists p :: WalkFrom(g, s, t, p)
  }

  /** Some walk of at most `k` edges leads from `s` to `t`. */
  ghost predicate ReachableWithin(g: Graph, s: Node, t: Node, k: nat) {
    exists p :: WalkFrom(g, s, t, p) && |p| <= k + 1
  }

  /** `k` is the breadth-first distance from `s` to `t`: the fewest edges of any walk. */
  ghost predicate IsDistance(g: Graph, s: Node, t: Node, k: nat) {
    ReachableWithin(g, s, t, k) && (k == 0 || !ReachableWithin(g, s, t, k - 1))
  }

  /** `p` is a walk from `s` to `t` and no walk from `s` to `t` is shorter. */
  ghost predicate IsShortestWalk(g: Graph, s: Node, t: Node, p: seq<Node>) {
    WalkFrom(g, s, t, p) && forall q :: WalkFrom(g, s, t, q) ==> |p| <= |q|
  }

  /** A walk of at most `a` edges is also one of at most `b >= a` edges. */
  lemma WithinMonotone(g: Graph, s: Node, t: Node, a: nat, b: nat)
    requires ReachableWithin(g, s, t, a) && a <= b
    ensures ReachableWithin(g, s, t, b)
  {
    var p :| WalkFrom(g, s, t, p) && |p| <= a + 1;
    assert |p| <= b + 1;
  }

  /** Within zero edges only the start itself is reachable. */
  lemma WithinZero(g: Graph, s: Node, t: Node)
    ensures ReachableWithin(g, s, t, 0) <==> s in g && t == s
  {
    if s in g && t == s {
      assert WalkFrom(g, s, t, [s]);
    }
  }

  /** The distance is the least number of edges of any walk. */
  lemma DistanceIsLeast(g: Graph, s: Node, t: Node, d: nat, k: nat)
    requires IsDistance(g, s, t, d) && ReachableWithin(g, s, t, k)
    ensures d <= k
  {
  }

  /** A walk whose edge count is the distance is a shortest walk. */
  lemma DistanceGivesShortest(g: Graph, s: Node, t: Node, d: nat, p: seq<Node>)
    requires IsDistance(g, s, t, d) && WalkFrom(g, s, t, p) && |p| == d + 1
    ensures IsShortestWalk(g, s, t, p)
  {
    forall q | WalkFrom(g, s, t, q)
      ensures |p| <= |q|
    {
      assert ReachableWithin(g, s, t, |q| - 1);
      DistanceIsLeast(g, s, t, d, |q| - 1);
    }
  }

  /** A shortest walk has as many edges as the distance. */
  lemma ShortestIsDistance(g: Graph, s: Node, t: Node, p: seq<Node>)
    requires IsShortestWalk(g, s, t, p)
    ensures IsDistance(g, s, t, |p| - 1)
  {
    assert ReachableWithin(g, s, t, |p| - 1);
  }

  /** One more edge out of a node within `k` edges reaches a node within `k + 1`. */
  lemma ExtendWithin(g: Graph, s: Node, u: Node, k: nat, w: Node)
    requires ReachableWithin(g, s, u, k) && u in g && w in g[u] && w in g
    ensures ReachableWithin(g, s, w, k + 1)
  {
    var p :| WalkFrom(g, s, u, p) && |p| <= k + 1;
    var q := p + [w];
    assert forall j :: 0 <= j < |p| ==> q[j] == p[j];
    assert WalkFrom(g, s, w, q);
  }

  /**
   * A node within `k + 1` edges is already within `k` edges, or is an
   * out-neighbour of a node within `k` edges.
   */
  lemma LastStep(g: Graph, s: Node, t: Node, k: nat) returns (y: Node)
    requires ReachableWithin(g, s, t, k + 1)
    ensures ReachableWithin(g, s, t, k) || (y in g && ReachableWithin(g, s, y, k) && t in g[y])
  {
    var p :| WalkFrom(g, s, t, p) && |p| <= k + 2;
    y := s;
    if |p| > k + 1 {
      var prefix := p[..|p| - 1];
      y := p[|p| - 2];
      assert WalkFrom(g, s, y, prefix);
    }
  }

  /** A walk that starts inside a set closed under out-edges ends inside it. */
  lemma {:induction false} WalkStaysIn(g: Graph, V: set<Node>, p: seq<Node>)
    requires IsWalk(g, p) && p[0] in V
    requires forall y, w :: y in V && y in g && w in g[y] ==> w in V
    ensures p[|p| - 1] in V
  {
    if |p| > 1 {
      var prefix := p[..|p| - 1];
      assert IsWalk(g, prefix);
      WalkStaysIn(g, V, prefix);
    }
  }

  /** A set that holds `s` and is closed under out-edges holds every node reachable from `s`. */
  lemma ClosedSetHoldsReachable(g: Graph, s: Node, V: set<Node>)
    requires s in V
    requires forall y, w :: y in V && y in g && w in g[y] ==> w in V
    ensures forall t :: Reachable(g, s, t) ==> t in V
  {
    forall t | Reachable(g, s, t)
      ensures t in V
    {
      var p :| WalkFrom(g, s, t, p);
      WalkStaysIn(g, V, p);
    }
  }
}
