/**
 * What it means for a sequence of nodes to be the breadth-first order of a
 * graph from a start node, with out-neighbours enumerated in stored order.
 */
module BfsOrder {
  import opened Graphs

  /** The position of the first occurrence of `x` in `s`. */
  function IndexOf(s: seq<Node>, x: Node): (k: nat)
    requires x in s
    ensures k < |s| && s[k] == x && x !in s[..k]
  {
    if s[0] == x then 0 else
      var k' := IndexOf(s[1..], x);
      assert s[..k' + 1] == [s[0]] + s[1..][..k'];
      k' + 1
  }

  /** A position holding `x` with no earlier `x` is the first occurrence of `x`. */
  lemma IndexOfAt(s: seq<Node>, x: Node, k: nat)
    requires k < |s| && s[k] == x && x !in s[..k]
    ensures IndexOf(s, x) == k
  {
  }

  /**
   * In the order `o`, node `o[j]` was discovered from `o[i]`: `o[i]` is the
   * earliest node of `o` that lists `o[j]` among its out-neighbours.
   */
  ghost predicate DiscoveredBy(g: Graph, o: seq<Node>, j: int, i: int) {
    && AllNodes(g, o)
    && 0 <= i < j < |o|
    && o[j] in g[o[i]]
    && forall i0 :: 0 <= i0 < i ==> o[j] !in g[o[i0]]
  }

  /** `o[j]` was discovered from some earlier node of `o`. */
  ghost predicate HasDiscoverer(g: Graph, o: seq<Node>, j: int) {
    exists i :: DiscoveredBy(g, o, j, i)
  }

  /** `o[i]` lists both `o[j1]` and `o[j2]` among its out-neighbours, `o[j1]` first. */
  ghost predicate ListedBefore(g: Graph, o: seq<Node>, i: int, j1: int, j2: int) {
    && 0 <= i < |o| && 0 <= j1 < |o| && 0 <= j2 < |o|
    && o[i] in g && o[j1] in g[o[i]] && o[j2] in g[o[i]]
    && IndexOf(g[o[i]], o[j1]) < IndexOf(g[o[i]], o[j2])
  }

  /**
   * `o` is the breadth-first order from `s` that neighbour enumeration order
   * dictates: it starts at `s`, repeats no node, every later node was
   * discovered from an earlier one, nodes discovered from earlier nodes come
   * first, and nodes discovered from the same node come in the order that
   * node lists them.
   */
  ghost predicate IsBfsOrder(g: Graph, s: Node, o: seq<Node>) {
    && |o| > 0
    && o[0] == s
    && AllNodes(g, o)
    && Distinct(o)
    && (forall j :: 0 < j < |o| ==> HasDiscoverer(g, o, j))
    && (forall j1, j2, i1, i2 ::
          0 < j1 < j2 < |o| && DiscoveredBy(g, o, j1, i1) && DiscoveredBy(g, o, j2, i2) ==>
            i1 < i2 || (i1 == i2 && ListedBefore(g, o, i1, j1, j2)))
  }

  /**
   * `o` lists nodes in non-decreasing distance from `s`: a node within `k`
   * edges of `s` is preceded only by nodes within `k` edges.
   */
  ghost predicate InLevelOrder(g: Graph, s: Node, o: seq<Node>) {
    forall i, j, k: nat :: 0 <= i < j < |o| && ReachableWithin(g, s, o[j], k) ==> ReachableWithin(g, s, o[i], k)
  }

  /** Levels that are exact distances and never decrease along `o` put `o` in level order. */
  lemma LevelOrderFromLevels(g: Graph, s: Node, o: seq<Node>, level: map<Node, nat>)
    requires forall k :: 0 <= k < |o| ==> o[k] in level && IsDistance(g, s, o[k], level[o[k]])
    requires forall a, b :: 0 <= a < b < |o| ==> level[o[a]] <= level[o[b]]
    ensures InLevelOrder(g, s, o)
  {
    forall i, j, k: nat | 0 <= i < j < |o| && ReachableWithin(g, s, o[j], k)
      ensures ReachableWithin(g, s, o[i], k)
    {
      DistanceIsLeast(g, s, o[j], level[o[j]], k);
      WithinMonotone(g, s, o[i], level[o[i]], k);
    }
  }

  /**
   * Recording for each node the position it was discovered from, with those
   * positions non-decreasing and ties broken by neighbour position, makes the
   * order a breadth-first order.
   */
  lemma DiscoveryOrderIsBfs(g: Graph, s: Node, o: seq<Node>, disc: seq<int>)
    requires |o| > 0 && o[0] == s && AllNodes(g, o) && Distinct(o) && |disc| == |o|
    requires forall j :: 0 < j < |o| ==> DiscoveredBy(g, o, j, disc[j])
    requires forall j1, j2 :: 0 < j1 < j2 < |o| ==> disc[j1] <= disc[j2]
    requires forall j1, j2 :: 0 < j1 < j2 < |o| && disc[j1] == disc[j2] ==> ListedBefore(g, o, disc[j1], j1, j2)
    ensures IsBfsOrder(g, s, o)
  {
    forall j | 0 < j < |o|
      ensures HasDiscoverer(g, o, j)
    {
      assert DiscoveredBy(g, o, j, disc[j]);
    }
    forall j1, j2, i1, i2 | 0 < j1 < j2 < |o| && DiscoveredBy(g, o, j1, i1) && DiscoveredBy(g, o, j2, i2)
      ensures i1 < i2 || (i1 == i2 && ListedBefore(g, o, i1, j1, j2))
    {
      assert i1 == disc[j1] && i2 == disc[j2];
    }
  }

  /**
   * A node discovered from position `i` of `o1` is discovered from
   * position `i` wherever else it occurs after a prefix on which the orders agree.
   */
  lemma Rediscovered(g: Graph, o1: seq<Node>, o2: seq<Node>, j: nat, p: nat, i: int)
    requires AllNodes(g, o2) && j < |o1| && j <= |o2| && p < |o2|
    requires forall k :: 0 <= k < j ==> o1[k] == o2[k]
    requires DiscoveredBy(g, o1, j, i) && o2[p] == o1[j]
    ensures j < p ==> DiscoveredBy(g, o2, p, i)
  {
  }

  /**
   * Two breadth-first orders over the same nodes that agree before position
   * `j` agree at `j`: were the nodes there different, each would have to be
   * discovered no later than the other, from the same node and earlier in
   * that node's list.
   */
  lemma FirstAgreement(g: Graph, s: Node, o1: seq<Node>, o2: seq<Node>, j: nat)
    requires IsBfsOrder(g, s, o1) && IsBfsOrder(g, s, o2)
    requires forall v :: v in o1 <==> v in o2
    requires 0 < j < |o1| && j < |o2|
    requires forall i :: 0 <= i < j ==> o1[i] == o2[i]
    ensures o1[j] == o2[j]
  {
    var x, y := o1[j], o2[j];
    assert x in o2 && y in o1;
    var px :| 0 <= px < |o2| && o2[px] == x;
    var py :| 0 <= py < |o1| && o1[py] == y;
    assert j <= px && j <= py;
    assert HasDiscoverer(g, o1, j) && HasDiscoverer(g, o2, j);
    var i1 :| DiscoveredBy(g, o1, j, i1);
    var i2 :| DiscoveredBy(g, o2, j, i2);
    Rediscovered(g, o1, o2, j, px, i1);
    Rediscovered(g, o2, o1, j, py, i2);
  }

  /** In a repetition-free order, a node past the prefix `o1` does not occur in `o1`. */
  lemma BeyondPrefix(o1: seq<Node>, o2: seq<Node>, k: nat)
    requires Distinct(o2) && |o1| <= k < |o2|
    requires forall i :: 0 <= i < |o1| ==> o1[i] == o2[i]
    ensures o2[k] !in o1
  {
  }

  /** A repetition-free order whose every node occurs in its prefix `o1` is no longer than `o1`. */
  lemma PrefixCoversAll(o1: seq<Node>, o2: seq<Node>)
    requires Distinct(o2) && |o1| <= |o2|
    requires forall i :: 0 <= i < |o1| ==> o1[i] == o2[i]
    requires forall v :: v in o2 ==> v in o1
    ensures |o1| == |o2|
  {
    if |o1| < |o2| {
      BeyondPrefix(o1, o2, |o1|);
    }
  }

  /** Two breadth-first orders over the same nodes agree on their first `k` positions. */
  lemma {:induction false} BfsOrdersAgree(g: Graph, s: Node, o1: seq<Node>, o2: seq<Node>, k: nat)
    requires IsBfsOrder(g, s, o1) && IsBfsOrder(g, s, o2)
    requires forall v :: v in o1 <==> v in o2
    requires k <= |o1| && k <= |o2|
    ensures forall i :: 0 <= i < k ==> o1[i] == o2[i]
  {
    if k > 0 {
      BfsOrdersAgree(g, s, o1, o2, k - 1);
      if k - 1 > 0 {
        FirstAgreement(g, s, o1, o2, k - 1);
      }
    }
  }

  /**
   * The breadth-first order is determined by the graph, the start and the
   * set of nodes it lists: two such orders over the same nodes are equal.
   */
  lemma BfsOrderUnique(g: Graph, s: Node, o1: seq<Node>, o2: seq<Node>)
    requires IsBfsOrder(g, s, o1) && IsBfsOrder(g, s, o2)
    requires forall v :: v in o1 <==> v in o2
    ensures o1 == o2
  {
    if |o1| <= |o2| {
      BfsOrdersAgree(g, s, o1, o2, |o1|);
      PrefixCoversAll(o1, o2);
    } else {
      BfsOrdersAgree(g, s, o2, o1, |o2|);
      PrefixCoversAll(o2, o1);
    }
  }
}
