/**
 * The state of a breadth-first search between steps, and the lemmas that
 * each step of the search keeps it.
 *
 * Besides the source's own state (queue, visited set, parent map and
 * traversal order) the proofs track three ghost quantities: `head`, the
 * number of nodes dequeued so far, so that the queue is always
 * `order[head..]`; `level`, each visited node's distance from the start;
 * and `disc`, for each node of the order the position of the node it was
 * discovered from.
 */
module SearchState {
  import opened Wrappers
  import opened Graphs
  import opened BfsOrder

  /**
   * The parent map together with the level of each node forms a
   * breadth-first tree rooted at `s`: the root has no parent and level 0,
   * every other node's parent is a node with an edge to it, one level lower.
   */
  ghost predicate IsParentTree(g: Graph, s: Node, parent: map<Node, Option<Node>>, level: map<Node, nat>) {
    && parent.Keys == level.Keys
    && s in g && s in parent && parent[s] == None && level[s] == 0
    && forall v {:trigger parent[v]} :: v in parent && v != s ==>
         && v in g
         && parent[v].Some?
         && parent[v].value in parent
         && parent[v].value in g
         && v in g[parent[v].value]
         && level[v] == level[parent[v].value] + 1
  }

  /** Every out-neighbour of the first `n` nodes of `order` is visited. */
  ghost predicate Expanded(g: Graph, order: seq<Node>, visited: set<Node>, n: int) {
    forall a, w :: 0 <= a < n && a < |order| && order[a] in g && w in g[order[a]] ==> w in visited
  }

  /** `order` starts at `start` and lists the visited nodes, each once. */
  ghost predicate Listed(g: Graph, start: Node, order: seq<Node>, visited: set<Node>) {
    && 0 < |order|
    && order[0] == start
    && AllNodes(g, order)
    && Distinct(order)
    && (forall v :: v in visited <==> v in order)
  }

  /**
   * Each visited node's level is its distance from `start`, its parent is
   * one level up, and levels never decrease along `order`.
   */
  ghost predicate Levelled(g: Graph, start: Node, order: seq<Node>, visited: set<Node>,
                           parent: map<Node, Option<Node>>, level: map<Node, nat>)
  {
    && IsParentTree(g, start, parent, level)
    && parent.Keys == visited
    && (forall v :: v in visited ==> IsDistance(g, start, v, level[v]))
    && (forall k :: 0 <= k < |order| ==> order[k] in level)
    && (forall a, b :: 0 <= a < b < |order| ==> level[order[a]] <= level[order[b]])
  }

  /** `end`, when given, is not among the first `head` nodes of `order`. */
  ghost predicate NotDequeued(end: Option<Node>, order: seq<Node>, head: nat) {
    && head <= |order|
    && (end.Some? ==> forall a :: 0 <= a < head ==> order[a] != end.value)
  }

  /**
   * Every node after the first was discovered from a node among the first
   * `head`, discovering positions never decrease, and nodes discovered from
   * the same node come in the order it lists them.
   */
  ghost predicate Discoveries(g: Graph, order: seq<Node>, disc: seq<int>, head: nat) {
    && |disc| == |order|
    && (forall j :: 0 < j < |order| ==> disc[j] < head && DiscoveredBy(g, order, j, disc[j]))
    && (forall j1, j2 :: 0 < j1 < j2 < |order| ==> disc[j1] <= disc[j2])
    && (forall j1, j2 :: 0 < j1 < j2 < |order| && disc[j1] == disc[j2] ==> ListedBefore(g, order, disc[j1], j1, j2))
  }

  /** What holds of the search state whenever `head` nodes have been dequeued. */
  ghost predicate Discovered(g: Graph, start: Node, end: Option<Node>, order: seq<Node>, visited: set<Node>,
                             parent: map<Node, Option<Node>>, level: map<Node, nat>, disc: seq<int>, head: nat)
  {
    && Listed(g, start, order, visited)
    && Levelled(g, start, order, visited, parent, level)
    && NotDequeued(end, order, head)
    && Discoveries(g, order, disc, head)
  }

  /**
   * Between iterations of the outer loop: every dequeued node has been
   * expanded, the queue spans at most two adjacent levels, and every node
   * within the level of the queue's head is already visited.
   */
  ghost predicate Queued(g: Graph, start: Node, order: seq<Node>, visited: set<Node>, level: map<Node, nat>, head: nat) {
    && head <= |order| && AllNodes(g, order) && (forall k :: 0 <= k < |order| ==> order[k] in level)
    && Expanded(g, order, visited, head)
    && (head < |order| ==> level[order[|order| - 1]] <= level[order[head]] + 1)
    && (head < |order| ==> forall v :: ReachableWithin(g, start, v, level[order[head]]) ==> v in visited)
  }

  /**
   * While the first `i` out-neighbours of `node`, the latest dequeued node,
   * have been examined: the nodes before it are expanded, those neighbours
   * are visited, and the neighbours discovered so far came from among them.
   */
  ghost predicate Scanning(g: Graph, start: Node, order: seq<Node>, visited: set<Node>, level: map<Node, nat>,
                           disc: seq<int>, head: nat, node: Node, i: nat)
  {
    && 1 <= head <= |order| && AllNodes(g, order) && (forall k :: 0 <= k < |order| ==> order[k] in level)
    && |disc| == |order|
    && node == order[head - 1] && i <= |g[node]|
    && Expanded(g, order, visited, head - 1)
    && level[order[|order| - 1]] <= level[node] + 1
    && (forall k :: 0 <= k < i ==> g[node][k] in visited)
    && (forall v :: ReachableWithin(g, start, v, level[node]) ==> v in visited)
    && (forall j :: 0 < j < |order| && disc[j] == head - 1 ==> order[j] in g[node] && IndexOf(g[node], order[j]) < i)
  }

  /** The state before the first iteration: only `start` is visited and queued. */
  lemma StartSearch(g: Graph, start: Node, end: Option<Node>)
    requires start in g
    ensures Discovered(g, start, end, [start], {start}, map[start := None], map[start := 0], [0], 0)
    ensures Queued(g, start, [start], {start}, map[start := 0], 0)
  {
    WithinZero(g, start, start);
    forall v | ReachableWithin(g, start, v, 0)
      ensures v in {start}
    {
      WithinZero(g, start, v);
    }
  }

  /** Dequeuing the head, which is not `end`, starts the scan of its neighbours. */
  lemma BeginScan(g: Graph, start: Node, end: Option<Node>, order: seq<Node>, visited: set<Node>,
                  parent: map<Node, Option<Node>>, level: map<Node, nat>, disc: seq<int>, head: nat)
    requires Discovered(g, start, end, order, visited, parent, level, disc, head)
    requires Queued(g, start, order, visited, level, head)
    requires head < |order| && (end.Some? ==> order[head] != end.value)
    ensures Discovered(g, start, end, order, visited, parent, level, disc, head + 1)
    ensures Scanning(g, start, order, visited, level, disc, head + 1, order[head], 0)
  {
  }

  /** Appending one more node keeps an earlier discovery fact. */
  lemma DiscoveredByAppend(g: Graph, o: seq<Node>, w: Node, j: int, i: int)
    requires DiscoveredBy(g, o, j, i) && w in g
    ensures DiscoveredBy(g, o + [w], j, i)
  {
    var o' := o + [w];
    assert forall k :: 0 <= k < |o| ==> o'[k] == o[k];
  }

  /** Appending an unvisited node to the order and the visited set keeps them in step. */
  lemma ListedAppend(g: Graph, start: Node, order: seq<Node>, visited: set<Node>, w: Node)
    requires Listed(g, start, order, visited) && w in g && w !in visited
    ensures Listed(g, start, order + [w], visited + {w})
  {
    var o' := order + [w];
    assert forall k :: 0 <= k < |order| || k == |order| ==> o'[k] == if k < |order| then order[k] else w;
  }

  /** Hanging `w` below `node` keeps the parent map a breadth-first tree. */
  lemma ParentTreeAppend(g: Graph, start: Node, parent: map<Node, Option<Node>>, level: map<Node, nat>,
                         node: Node, w: Node)
    requires IsParentTree(g, start, parent, level)
    requires node in parent && node in g && w in g && w in g[node] && w !in parent
    ensures IsParentTree(g, start, parent[w := Some(node)], level[w := level[node] + 1])
  {
  }

  /**
   * A node first reached from `node`, beyond every node within `node`'s
   * level, is exactly one level deeper than `node`.
   */
  lemma DistancesAppend(g: Graph, start: Node, visited: set<Node>, level: map<Node, nat>, node: Node, w: Node)
    requires visited <= level.Keys && forall v :: v in visited ==> IsDistance(g, start, v, level[v])
    requires node in visited && node in g && w in g && w in g[node] && w !in visited
    requires !ReachableWithin(g, start, w, level[node])
    ensures forall v :: v in visited + {w} ==> IsDistance(g, start, v, level[w := level[node] + 1][v])
  {
    ExtendWithin(g, start, node, level[node], w);
  }

  /** Appending a node one level below the deepest level but one keeps levels non-decreasing. */
  lemma LevelsAppend(order: seq<Node>, level: map<Node, nat>, L: nat, w: Node)
    requires 0 < |order| && w !in level
    requires forall k :: 0 <= k < |order| ==> order[k] in level
    requires forall a, b :: 0 <= a < b < |order| ==> level[order[a]] <= level[order[b]]
    requires level[order[|order| - 1]] <= L + 1
    ensures forall k :: 0 <= k < |order| + 1 ==> (order + [w])[k] in level[w := L + 1]
    ensures forall a, b :: 0 <= a < b < |order| + 1 ==>
              level[w := L + 1][(order + [w])[a]] <= level[w := L + 1][(order + [w])[b]]
  {
    var o', l' := order + [w], level[w := L + 1];
    assert forall k :: 0 <= k < |order| ==> o'[k] == order[k] && o'[k] != w;
    forall a, b | 0 <= a < b < |o'|
      ensures l'[o'[a]] <= l'[o'[b]]
    {
      if b == |order| && a < |order| - 1 {
        assert level[order[a]] <= level[order[|order| - 1]];
      }
    }
  }

  /**
   * A node first reached from `node`, beyond every node within `node`'s
   * level, is one level deeper than `node`: giving it that level and
   * `node` as parent keeps the levels exact.
   */
  lemma LevelledAppend(g: Graph, start: Node, order: seq<Node>, visited: set<Node>,
                       parent: map<Node, Option<Node>>, level: map<Node, nat>, node: Node, w: Node)
    requires Levelled(g, start, order, visited, parent, level) && 0 < |order|
    requires node in visited && node in g && w in g && w in g[node] && w !in visited
    requires !ReachableWithin(g, start, w, level[node])
    requires level[order[|order| - 1]] <= level[node] + 1
    ensures Levelled(g, start, order + [w], visited + {w}, parent[w := Some(node)], level[w := level[node] + 1])
  {
    ParentTreeAppend(g, start, parent, level, node, w);
    DistancesAppend(g, start, visited, level, node, w);
    LevelsAppend(order, level, level[node], w);
  }

  /** Discovering `w` from position `head - 1` extends the record of discoverers. */
  lemma DiscoverersAppend(g: Graph, order: seq<Node>, disc: seq<int>, head: nat, w: Node, o': seq<Node>, d': seq<int>)
    requires o' == order + [w] && d' == disc + [head - 1]
    requires |disc| == |order| && AllNodes(g, order) && w in g && 1 <= head <= |order|
    requires forall j :: 0 < j < |order| ==> disc[j] < head && DiscoveredBy(g, order, j, disc[j])
    requires w in g[order[head - 1]] && forall i0 :: 0 <= i0 < head - 1 ==> w !in g[order[i0]]
    ensures forall j :: 0 < j < |o'| ==> d'[j] < head && DiscoveredBy(g, o', j, d'[j])
  {
    assert forall k :: 0 <= k < |order| ==> o'[k] == order[k];
    forall j | 0 < j < |order|
      ensures DiscoveredBy(g, o', j, d'[j])
    {
      DiscoveredByAppend(g, order, w, j, disc[j]);
    }
    assert DiscoveredBy(g, o', |order|, head - 1);
  }

  /** Discoverers below `head`, then one at `head - 1`, are still non-decreasing. */
  lemma DiscoverersSorted(disc: seq<int>, head: nat, d': seq<int>)
    requires d' == disc + [head - 1]
    requires forall j :: 0 < j < |disc| ==> disc[j] < head
    requires forall j1, j2 :: 0 < j1 < j2 < |disc| ==> disc[j1] <= disc[j2]
    ensures forall j1, j2 :: 0 < j1 < j2 < |d'| ==> d'[j1] <= d'[j2]
  {
    assert forall k :: 0 <= k < |disc| ==> d'[k] == disc[k];
  }

  /** `w`, the `i`-th neighbour of `node`, comes after every node discovered from `node` so far. */
  lemma DiscoverersTied(g: Graph, order: seq<Node>, disc: seq<int>, head: nat, node: Node, i: nat, w: Node,
                        o': seq<Node>, d': seq<int>)
    requires o' == order + [w] && d' == disc + [head - 1]
    requires |disc| == |order| && 1 <= head <= |order| && node == order[head - 1] && node in g
    requires i < |g[node]| && w == g[node][i] && IndexOf(g[node], w) == i
    requires forall j1, j2 :: 0 < j1 < j2 < |order| && disc[j1] == disc[j2] ==> ListedBefore(g, order, disc[j1], j1, j2)
    requires forall j :: 0 < j < |order| && disc[j] == head - 1 ==> order[j] in g[node] && IndexOf(g[node], order[j]) < i
    ensures forall j1, j2 :: 0 < j1 < j2 < |o'| && d'[j1] == d'[j2] ==> ListedBefore(g, o', d'[j1], j1, j2)
  {
    assert forall k :: 0 <= k < |order| ==> o'[k] == order[k] && d'[k] == disc[k];
    forall j1, j2 | 0 < j1 < j2 < |o'| && d'[j1] == d'[j2]
      ensures ListedBefore(g, o', d'[j1], j1, j2)
    {
      if j2 < |order| {
        assert ListedBefore(g, order, disc[j1], j1, j2);
      }
    }
  }

  /** The node discovered from `node` at neighbour position `i` extends the discovery record. */
  lemma DiscoveriesAppend(g: Graph, order: seq<Node>, disc: seq<int>, head: nat, node: Node, i: nat, w: Node)
    requires Discoveries(g, order, disc, head) && AllNodes(g, order) && w in g
    requires 1 <= head <= |order| && node == order[head - 1] && i < |g[node]| && w == g[node][i]
    requires forall i0 :: 0 <= i0 < head - 1 ==> w !in g[order[i0]]
    requires forall j :: 0 < j < |order| && disc[j] == head - 1 ==> order[j] in g[node] && IndexOf(g[node], order[j]) < i
    requires IndexOf(g[node], w) == i
    ensures Discoveries(g, order + [w], disc + [head - 1], head)
  {
    var o', d' := order + [w], disc + [head - 1];
    DiscoverersAppend(g, order, disc, head, w, o', d');
    DiscoverersSorted(disc, head, d');
    DiscoverersTied(g, order, disc, head, node, i, w, o', d');
  }

  /** Visiting the unvisited `i`-th neighbour of `node` moves the scan on by one. */
  lemma ScanningAppend(g: Graph, start: Node, order: seq<Node>, visited: set<Node>, level: map<Node, nat>,
                       disc: seq<int>, head: nat, node: Node, i: nat)
    requires Scanning(g, start, order, visited, level, disc, head, node, i)
    requires node in visited && node in g && i < |g[node]| && g[node][i] in g && g[node][i] !in visited
    ensures var w := g[node][i];
            Scanning(g, start, order + [w], visited + {w}, level[w := level[node] + 1], disc + [head - 1],
                     head, node, i + 1)
  {
    var w := g[node][i];
    var o', v', l', d' := order + [w], visited + {w}, level[w := level[node] + 1], disc + [head - 1];
    assert forall k :: 0 <= k < |order| ==> o'[k] == order[k];
    assert w !in g[node][..i];
    IndexOfAt(g[node], w, i);
    assert Expanded(g, o', v', head - 1);
  }

  /** Appending a node keeps `end` out of the dequeued prefix. */
  lemma NotDequeuedAppend(end: Option<Node>, order: seq<Node>, head: nat, w: Node)
    requires NotDequeued(end, order, head)
    ensures NotDequeued(end, order + [w], head)
  {
    var o' := order + [w];
    assert forall k :: 0 <= k < |order| ==> o'[k] == order[k];
  }

  /**
   * An unvisited neighbour of `node` is listed by no node dequeued before
   * `node` and is farther from `start` than `node`.
   */
  lemma UnvisitedNeighbour(g: Graph, start: Node, order: seq<Node>, visited: set<Node>, level: map<Node, nat>,
                           disc: seq<int>, head: nat, node: Node, i: nat)
    requires Scanning(g, start, order, visited, level, disc, head, node, i)
    requires i < |g[node]| && g[node][i] !in visited
    ensures forall i0 :: 0 <= i0 < head - 1 ==> g[node][i] !in g[order[i0]]
    ensures !ReachableWithin(g, start, g[node][i], level[node])
    ensures IndexOf(g[node], g[node][i]) == i
  {
    assert g[node][i] !in g[node][..i];
    IndexOfAt(g[node], g[node][i], i);
  }

  /** Visiting the unvisited `i`-th neighbour of `node` keeps the search state, discovering it from `node`. */
  lemma DiscoverNeighbour(g: Graph, start: Node, end: Option<Node>, order: seq<Node>, visited: set<Node>,
                          parent: map<Node, Option<Node>>, level: map<Node, nat>, disc: seq<int>, head: nat,
                          node: Node, i: nat)
    requires Closed(g)
    requires Discovered(g, start, end, order, visited, parent, level, disc, head)
    requires Scanning(g, start, order, visited, level, disc, head, node, i)
    requires node in g && i < |g[node]| && g[node][i] !in visited
    ensures var w := g[node][i];
            Discovered(g, start, end, order + [w], visited + {w}, parent[w := Some(node)],
                       level[w := level[node] + 1], disc + [head - 1], head)
  {
    var w := g[node][i];
    assert w in g;
    assert node in visited;
    UnvisitedNeighbour(g, start, order, visited, level, disc, head, node, i);
    ListedAppend(g, start, order, visited, w);
    LevelledAppend(g, start, order, visited, parent, level, node, w);
    DiscoveriesAppend(g, order, disc, head, node, i, w);
    NotDequeuedAppend(end, order, head, w);
  }

  /** Passing over an already visited neighbour keeps every invariant. */
  lemma SkipNeighbour(g: Graph, start: Node, order: seq<Node>, visited: set<Node>, level: map<Node, nat>,
                      disc: seq<int>, head: nat, node: Node, i: nat)
    requires Scanning(g, start, order, visited, level, disc, head, node, i)
    requires i < |g[node]| && g[node][i] in visited
    ensures Scanning(g, start, order, visited, level, disc, head, node, i + 1)
  {
  }

  /**
   * When the head of the queue is one level deeper than everything within
   * `L` edges, and every node before the head has been expanded, every node
   * within `L + 1` edges has been discovered.
   */
  lemma FrontierAdvance(g: Graph, s: Node, order: seq<Node>, visited: set<Node>, head: nat, level: map<Node, nat>, L: nat)
    requires head < |order| && AllNodes(g, order)
    requires forall v :: v in visited <==> v in order
    requires forall v :: v in visited ==> v in level && IsDistance(g, s, v, level[v])
    requires forall a, b :: 0 <= a < b < |order| ==> level[order[a]] <= level[order[b]]
    requires level[order[head]] == L + 1
    requires forall v :: ReachableWithin(g, s, v, L) ==> v in visited
    requires Expanded(g, order, visited, head)
    ensures forall v :: ReachableWithin(g, s, v, L + 1) ==> v in visited
  {
    forall v | ReachableWithin(g, s, v, L + 1)
      ensures v in visited
    {
      var y := LastStep(g, s, v, L);
      if !ReachableWithin(g, s, v, L) {
        var a :| 0 <= a < |order| && order[a] == y;
        DistanceIsLeast(g, s, y, level[y], L);
      }
    }
  }

  /** A sequence whose every position holds a member of `V` has only members of `V`. */
  lemma ElementsIn(s: seq<Node>, V: set<Node>)
    requires forall k :: 0 <= k < |s| ==> s[k] in V
    ensures forall w :: w in s ==> w in V
  {
  }

  /**
   * With levels non-decreasing along `order` and the last at most one past
   * the level `L` of the node just before `head`, the node at `head` is at
   * level `L` or `L + 1`.
   */
  lemma HeadLevel(order: seq<Node>, level: map<Node, nat>, head: nat, L: nat)
    requires 1 <= head < |order|
    requires forall k :: 0 <= k < |order| ==> order[k] in level
    requires forall a, b :: 0 <= a < b < |order| ==> level[order[a]] <= level[order[b]]
    requires level[order[head - 1]] == L && level[order[|order| - 1]] <= L + 1
    ensures level[order[head]] == L || level[order[head]] == L + 1
  {
    assert level[order[head - 1]] <= level[order[head]];
    if head < |order| - 1 {
      assert level[order[head]] <= level[order[|order| - 1]];
    }
  }

  /** Once all neighbours of `node` are examined, the state is back between iterations. */
  lemma FinishScan(g: Graph, start: Node, order: seq<Node>, visited: set<Node>,
                   parent: map<Node, Option<Node>>, level: map<Node, nat>, disc: seq<int>, head: nat, node: Node)
    requires Listed(g, start, order, visited) && Levelled(g, start, order, visited, parent, level)
    requires node in g && Scanning(g, start, order, visited, level, disc, head, node, |g[node]|)
    ensures Queued(g, start, order, visited, level, head)
  {
    ElementsIn(g[node], visited);
    assert Expanded(g, order, visited, head);
    if head < |order| {
      HeadLevel(order, level, head, level[node]);
      if level[order[head]] != level[node] {
        FrontierAdvance(g, start, order, visited, head, level, level[node]);
      }
    }
  }

  /**
   * When the queue is empty, every visited node has been expanded, so the
   * visited nodes are exactly those reachable from `start`, and `order`
   * lists them in breadth-first order.
   */
  lemma SearchExhausted(g: Graph, start: Node, end: Option<Node>, order: seq<Node>, visited: set<Node>,
                        parent: map<Node, Option<Node>>, level: map<Node, nat>, disc: seq<int>)
    requires Discovered(g, start, end, order, visited, parent, level, disc, |order|)
    requires Expanded(g, order, visited, |order|)
    ensures forall v :: v in order <==> Reachable(g, start, v)
    ensures IsBfsOrder(g, start, order) && InLevelOrder(g, start, order)
  {
    forall y, w | y in visited && y in g && w in g[y]
      ensures w in visited
    {
      var a :| 0 <= a < |order| && order[a] == y;
    }
    ClosedSetHoldsReachable(g, start, visited);
    forall v | v in order
      ensures Reachable(g, start, v)
    {
      assert IsDistance(g, start, v, level[v]);
      var p :| WalkFrom(g, start, v, p) && |p| <= level[v] + 1;
    }
    LevelOrderFromLevels(g, start, order, level);
    DiscoveryOrderIsBfs(g, start, order, disc);
  }
}
