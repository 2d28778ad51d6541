/**
 * Breadth-first traversal and shortest-path search over a `Graphs.Graph`,
 * as `Graph.bfs` performs them: a guard sequence for missing and identical
 * endpoints, a FIFO queue with a visited set and a parent map, and a walk
 * back along the parent map to rebuild the path.
 */
module Search {
  import opened Wrappers
  import opened Graphs
  import opened BfsOrder
  import opened SearchState

  /**
   * What a query yields: the traversal order (traversal mode, possibly empty),
   * a path from start to end (path mode), or no path (path mode).
   */
  datatype BfsResult = Traversal(order: seq<Node>) | Path(path: seq<Node>) | NoPath

  /** `s` in reverse order: the first element becomes the last. */
  function Reverse(s: seq<Node>): (r: seq<Node>)
    ensures |r| == |s|
    ensures |s| > 0 ==> r[0] == s[|s| - 1] && r[|r| - 1] == s[0]
  {
    seq(|s|, k requires 0 <= k < |s| => s[|s| - 1 - k])
  }

  /**
   * Walks the parent map back from `end` to the root, then reverses: the
   * result is a walk from the root to `end` with one node per level.
   */
  method ReconstructPath(g: Graph, parent: map<Node, Option<Node>>, ghost s: Node, ghost level: map<Node, nat>, end: Node)
    returns (walk: seq<Node>)
    requires IsParentTree(g, s, parent, level) && end in parent
    ensures WalkFrom(g, s, end, walk)
    ensures |walk| == level[end] + 1
  {
    var path: seq<Node> := [];
    var current: Option<Node> := Some(end);
    while current.Some?
      invariant current.Some? ==> current.value in parent
      invariant |path| + (if current.Some? then level[current.value] + 1 else 0) == level[end] + 1
      invariant path == [] ==> current == Some(end)
      invariant path != [] ==> path[0] == end
      invariant current.None? ==> path != [] && path[|path| - 1] == s
      invariant current.Some? && path != [] ==> current.value in g && path[|path| - 1] in g[current.value]
      invariant AllNodes(g, path)
      invariant forall k :: 0 < k < |path| ==> path[k] in g && path[k - 1] in g[path[k]]
      decreases if current.Some? then level[current.value] + 1 else 0
    {
      path := path + [current.value];
      current := parent[current.value];
    }
    walk := Reverse(path);
    forall k | 0 < k < |walk|
      ensures walk[k] in g[walk[k - 1]]
    {
      assert walk[k] == path[|path| - 1 - k] && walk[k - 1] == path[|path| - k];
    }
  }

  /** Visiting one more node of `K` leaves one fewer unvisited. */
  lemma OneFewerUnvisited(K: set<Node>, visited: set<Node>, w: Node)
    requires w in K && w !in visited
    ensures |K - (visited + {w})| == |K - visited| - 1
  {
    assert K - visited == (K - (visited + {w})) + {w};
  }

  /** Enqueuing `w` extends the queue, the suffix of `order` from `head`, by `w`. */
  lemma AppendedSuffix(order: seq<Node>, w: Node, head: nat)
    requires head <= |order|
    ensures (order + [w])[head..] == order[head..] + [w]
  {
  }

  /**
   * The neighbours in `ns` that `visited` lacks, each once, in the order
   * they are first listed: what expanding a node whose neighbour list is
   * `ns` appends to the queue and to the traversal order.
   */
  function NewNeighbours(ns: seq<Node>, visited: set<Node>): (r: seq<Node>)
    ensures forall v :: v in r <==> v in ns && v !in visited
    ensures Distinct(r)
  {
    if ns == [] then []
    else
      var prev, x := ns[..|ns| - 1], ns[|ns| - 1];
      assert ns == prev + [x];
      if x in visited || x in prev then NewNeighbours(prev, visited)
      else NewNeighbours(prev, visited) + [x]
  }

  /** The values `Graph.bfs` keeps while it searches: queue, visited set, order and parent map. */
  datatype SearchStep = SearchStep(queue: seq<Node>, visited: set<Node>, order: seq<Node>, parent: map<Node, Option<Node>>)

  /**
   * The state after examining the neighbour `w` of the dequeued `node`: an
   * unvisited `w` is marked visited, enqueued, appended to the order and
   * given `node` as its parent; a visited one changes nothing.
   */
  function Visit(s: SearchStep, node: Node, w: Node): SearchStep {
    if w in s.visited then s
    else SearchStep(s.queue + [w], s.visited + {w}, s.order + [w], s.parent[w := Some(node)])
  }

  /** The state after examining the neighbours `ns` of `node`, in order. */
  function Expand(s: SearchStep, node: Node, ns: seq<Node>): SearchStep
    decreases |ns|
  {
    if ns == [] then s else Visit(Expand(s, node, ns[..|ns| - 1]), node, ns[|ns| - 1])
  }

  /** Expanding `node` visits every neighbour in `ns` and nothing else. */
  lemma {:induction false} ExpandVisits(s: SearchStep, node: Node, ns: seq<Node>)
    ensures Expand(s, node, ns).visited == s.visited + (set v | v in ns)
    decreases |ns|
  {
    if ns != [] {
      var prev, x := ns[..|ns| - 1], ns[|ns| - 1];
      assert ns == prev + [x];
      ExpandVisits(s, node, prev);
    }
  }

  /** Expanding `node` appends its new neighbours to the order and the queue. */
  lemma {:induction false} ExpandListsNew(s: SearchStep, node: Node, ns: seq<Node>)
    ensures Expand(s, node, ns).order == s.order + NewNeighbours(ns, s.visited)
    ensures Expand(s, node, ns).queue == s.queue + NewNeighbours(ns, s.visited)
    decreases |ns|
  {
    if ns != [] {
      var prev, x := ns[..|ns| - 1], ns[|ns| - 1];
      ExpandVisits(s, node, prev);
      ExpandListsNew(s, node, prev);
    }
  }

  /** Expanding `node` keeps the existing parents and gives each new node `node` as parent. */
  lemma {:induction false} ExpandParents(s: SearchStep, node: Node, ns: seq<Node>)
    requires s.parent.Keys <= s.visited
    ensures forall v :: v in Expand(s, node, ns).parent <==> v in s.parent || v in NewNeighbours(ns, s.visited)
    ensures forall v :: v in s.parent ==> Expand(s, node, ns).parent[v] == s.parent[v]
    ensures forall v :: v in NewNeighbours(ns, s.visited) ==> Expand(s, node, ns).parent[v] == Some(node)
    decreases |ns|
  {
    if ns != [] {
      var prev, x := ns[..|ns| - 1], ns[|ns| - 1];
      ExpandVisits(s, node, prev);
      ExpandParents(s, node, prev);
    }
  }

  /** Expanding by one more neighbour is one more `Visit`. */
  lemma ExpandStep(s: SearchStep, node: Node, ns: seq<Node>, i: nat)
    requires i < |ns|
    ensures Expand(s, node, ns[..i + 1]) == Visit(Expand(s, node, ns[..i]), node, ns[i])
  {
    assert ns[..i + 1][..i] == ns[..i];
  }

  /** The prefix of `ns` of full length is `ns`. */
  lemma ExpandDone(s: SearchStep, node: Node, ns: seq<Node>)
    ensures Expand(s, node, ns[..|ns|]) == Expand(s, node, ns)
  {
    assert ns[..|ns|] == ns;
  }

  /**
   * Examines the `i`-th out-neighbour of the dequeued `node`: if it is not
   * yet visited it is marked visited, enqueued, appended to `order` and
   * given `node` as its parent.
   */
  method VisitNeighbour(g: Graph, ghost start: Node, ghost end: Option<Node>, node: Node, i: nat, queue: seq<Node>,
                        visited: set<Node>, order: seq<Node>, parent: map<Node, Option<Node>>,
                        ghost level: map<Node, nat>, ghost disc: seq<int>, ghost head: nat)
    returns (queue': seq<Node>, visited': set<Node>, order': seq<Node>, parent': map<Node, Option<Node>>,
             ghost level': map<Node, nat>, ghost disc': seq<int>)
    requires Closed(g) && node in g && i < |g[node]|
    requires Discovered(g, start, end, order, visited, parent, level, disc, head)
    requires Scanning(g, start, order, visited, level, disc, head, node, i)
    requires queue == order[head..]
    ensures Discovered(g, start, end, order', visited', parent', level', disc', head)
    ensures Scanning(g, start, order', visited', level', disc', head, node, i + 1)
    ensures queue' == order'[head..]
    ensures |g.Keys - visited'| + |queue'| == |g.Keys - visited| + |queue|
    ensures var w := g[node][i];
            if w !in visited then
              && queue' == queue + [w] && visited' == visited + {w} && order' == order + [w]
              && parent' == parent[w := Some(node)] && level' == level[w := level[node] + 1] && disc' == disc + [head - 1]
            else
              queue' == queue && visited' == visited && order' == order && parent' == parent && level' == level && disc' == disc
  {
    var neighbor := g[node][i];
    if neighbor !in visited {
      DiscoverNeighbour(g, start, end, order, visited, parent, level, disc, head, node, i);
      ScanningAppend(g, start, order, visited, level, disc, head, node, i);
      OneFewerUnvisited(g.Keys, visited, neighbor);
      AppendedSuffix(order, neighbor, head);
      visited' := visited + {neighbor};
      queue' := queue + [neighbor];
      order' := order + [neighbor];
      parent' := parent[neighbor := Some(node)];
      level' := level[neighbor := level[node] + 1];
      disc' := disc + [head - 1];
    } else {
      SkipNeighbour(g, start, order, visited, level, disc, head, node, i);
      queue', visited', order', parent', level', disc' := queue, visited, order, parent, level, disc;
    }
  }

  /**
   * Expands `node`, the `head`-th node dequeued: examines every out-neighbour
   * in stored order, appending the unvisited ones to the queue and the order
   * with `node` as their parent. Afterwards the first `head` nodes of the
   * order are expanded, the queue spans at most two adjacent levels, and
   * every node within the level of the next node to dequeue is visited.
   */
  method VisitNeighbours(g: Graph, ghost start: Node, ghost end: Option<Node>, node: Node, queue: seq<Node>,
                         visited: set<Node>, order: seq<Node>, parent: map<Node, Option<Node>>,
                         ghost level: map<Node, nat>, ghost disc: seq<int>, ghost head: nat)
    returns (queue': seq<Node>, visited': set<Node>, order': seq<Node>, parent': map<Node, Option<Node>>,
             ghost level': map<Node, nat>, ghost disc': seq<int>)
    requires Closed(g) && 1 <= head <= |order| && node == order[head - 1] && (end.Some? ==> node != end.value)
    requires Discovered(g, start, end, order, visited, parent, level, disc, head - 1)
    requires Queued(g, start, order, visited, level, head - 1)
    requires queue == order[head..]
    ensures Discovered(g, start, end, order', visited', parent', level', disc', head)
    ensures Queued(g, start, order', visited', level', head)
    ensures queue' == order'[head..]
    ensures |g.Keys - visited'| + |queue'| == |g.Keys - visited| + |queue|
    ensures var r := Expand(SearchStep(queue, visited, order, parent), node, g[node]);
            queue' == r.queue && visited' == r.visited && order' == r.order && parent' == r.parent
  {
    BeginScan(g, start, end, order, visited, parent, level, disc, head - 1);
    ghost var s0 := SearchStep(queue, visited, order, parent);
    queue', visited', order', parent', level', disc' := queue, visited, order, parent, level, disc;
    var neighbors := g[node];
    var i := 0;
    while i < |neighbors|
      invariant i <= |neighbors| && neighbors == g[node]
      invariant Discovered(g, start, end, order', visited', parent', level', disc', head)
      invariant Scanning(g, start, order', visited', level', disc', head, node, i)
      invariant queue' == order'[head..]
      invariant |g.Keys - visited'| + |queue'| == |g.Keys - visited| + |queue|
      invariant SearchStep(queue', visited', order', parent') == Expand(s0, node, neighbors[..i])
    {
      queue', visited', order', parent', level', disc' :=
        VisitNeighbour(g, start, end, node, i, queue', visited', order', parent', level', disc', head);
      ExpandStep(s0, node, neighbors, i);
      i := i + 1;
    }
    ExpandDone(s0, node, neighbors);
    FinishScan(g, start, order', visited', parent', level', disc', head, node);
  }

  /**
   * Breadth-first search from `start`. With no `end` it returns every node
   * reachable from `start` in breadth-first order; with an `end` it returns a
   * shortest path from `start` to `end`, or `NoPath`.
   */
  method Bfs(g: Graph, start: Node, end: Option<Node>) returns (r: BfsResult)
    requires Closed(g)
    ensures end.None? <==> r.Traversal?
    ensures start !in g ==> r == if end.None? then Traversal([]) else NoPath
    ensures end.Some? && end.value !in g ==> r == NoPath
    ensures end.Some? && start in g && end.value == start ==> r == Path([start])
    ensures r.Traversal? && start in g ==>
              && IsBfsOrder(g, start, r.order)
              && InLevelOrder(g, start, r.order)
              && forall v :: v in r.order <==> Reachable(g, start, v)
    ensures r.Path? ==> IsShortestWalk(g, start, end.value, r.path)
    ensures end.Some? ==> (r.NoPath? <==> !Reachable(g, start, end.value))
  {
    if start !in g {
      return if end.None? then Traversal([]) else NoPath;
    }
    if |g| == 0 {
      // unreachable: `start` is a node, so the graph is not empty
      assert false;
      return if end.None? then Traversal([]) else NoPath;
    }
    if end.Some? && end.value !in g {
      return NoPath;
    }
    if end.Some? && start == end.value {
      assert WalkFrom(g, start, start, [start]);
      return Path([start]);
    }

    var queue := [start];
    var visited := {start};
    var order := [start];
    var parent := map[start := None];
    ghost var head := 0;
    ghost var level: map<Node, nat> := map[start := 0];
    ghost var disc: seq<int> := [0];
    StartSearch(g, start, end);

    while queue != []
      invariant Discovered(g, start, end, order, visited, parent, level, disc, head)
      invariant Queued(g, start, order, visited, level, head)
      invariant queue == order[head..]
      decreases |g.Keys - visited| + |queue|
    {
      var node := queue[0];
      queue := queue[1..];

      if end.Some? && node == end.value {
        var path := ReconstructPath(g, parent, start, level, node);
        DistanceGivesShortest(g, start, node, level[node], path);
        return Path(path);
      }

      head := head + 1;
      queue, visited, order, parent, level, disc :=
        VisitNeighbours(g, start, end, node, queue, visited, order, parent, level, disc, head);
    }

    SearchExhausted(g, start, end, order, visited, parent, level, disc);
    if end.Some? {
      return NoPath;
    }
    return Traversal(order);
  }
}
