/**
 * Worked queries on small graphs, each proved from the contract of
 * `Search.Bfs` alone.
 */
module Scenarios {
  import opened Wrappers
  import opened Graphs
  import opened BfsOrder
  import opened Search

  /** The diamond A -> [B, C], B -> [D], C -> [D], D -> []: A lists B before C, and both lead to D. */
  function Diamond(): (g: Graph)
    ensures Closed(g)
    ensures g.Keys == {"A", "B", "C", "D"}
  {
    map["A" := ["B", "C"], "B" := ["D"], "C" := ["D"], "D" := []]
  }

  /** `A, B, C, D` is the breadth-first order of the diamond from A. */
  lemma DiamondOrder()
    ensures IsBfsOrder(Diamond(), "A", ["A", "B", "C", "D"])
  {
    var g, o := Diamond(), ["A", "B", "C", "D"];
    assert IndexOf(g["A"], "B") == 0 && IndexOf(g["A"], "C") == 1;
    assert DiscoveredBy(g, o, 1, 0) && DiscoveredBy(g, o, 2, 0) && DiscoveredBy(g, o, 3, 1);
    DiscoveryOrderIsBfs(g, "A", o, [0, 0, 0, 1]);
  }

  /** Every node of the diamond, and nothing else, is reachable from A. */
  lemma DiamondReach()
    ensures forall v :: v in ["A", "B", "C", "D"] <==> Reachable(Diamond(), "A", v)
  {
    var g := Diamond();
    assert WalkFrom(g, "A", "A", ["A"]);
    assert WalkFrom(g, "A", "B", ["A", "B"]);
    assert WalkFrom(g, "A", "C", ["A", "C"]);
    assert WalkFrom(g, "A", "D", ["A", "B", "D"]);
    ClosedSetHoldsReachable(g, "A", g.Keys);
  }

  /** Traversing the diamond from A lists A, then B and C in A's order, then D. */
  method DiamondTraversal() returns (r: BfsResult)
    ensures r == Traversal(["A", "B", "C", "D"])
  {
    var g := Diamond();
    r := Bfs(g, "A", None);
    DiamondOrder();
    DiamondReach();
    BfsOrderUnique(g, "A", r.order, ["A", "B", "C", "D"]);
  }

  /** A path from A to D in the diamond is one of its two shortest paths of two edges. */
  method DiamondPath() returns (r: BfsResult)
    ensures r == Path(["A", "B", "D"]) || r == Path(["A", "C", "D"])
  {
    var g := Diamond();
    r := Bfs(g, "A", Some("D"));
    assert WalkFrom(g, "A", "D", ["A", "B", "D"]);
    var p := r.path;
    assert |p| <= 3;
    assert p[1] in g[p[0]];
    assert p == [p[0], p[1], p[2]];
  }

  /** Two nodes without edges: there is no path from one to the other. */
  method IsolatedNoPath() returns (r: BfsResult)
    ensures r == NoPath
  {
    var g: Graph := map["X" := [], "Y" := []];
    r := Bfs(g, "X", Some("Y"));
    ClosedSetHoldsReachable(g, "X", {"X"});
  }

  /** Traversing an empty graph yields the empty order. */
  method EmptyTraversal() returns (r: BfsResult)
    ensures r == Traversal([])
  {
    r := Bfs(map[], "anything", None);
  }
}
