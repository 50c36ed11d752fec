/**
 * The shortest-path queries the router makes of networkx, nx.shortest_path(graph, u, v,
 * "weight") and nx.shortest_path_length(graph, u, v, "weight"), as a table of answers
 * together with the contract those answers meet. A pair missing from the table is a
 * query that raises (an unknown node or no path).
 */
module ShortestPath {
  import opened Graphs

  /** A path as networkx returns it: never empty, it starts at its source. */
  type Route = r: seq<Node> | |r| > 0 witness [""]

  /** The answers to shortest_path (route) and shortest_path_length (length) per ordered pair. */
  datatype Oracle = Oracle(route: map<(Node, Node), Route>, length: map<(Node, Node), int>)

  /**
   * sp answers shortest-path queries on g: both queries succeed on the same pairs; a route
   * is a walk from its source to its target whose weight is the reported length; a node
   * reaches itself by the one-node route; and every pair joined by some walk is answered,
   * with a length no more than that walk's weight.
   */
  ghost predicate IsShortestPathOracle(g: Graph, sp: Oracle) {
    && sp.route.Keys == sp.length.Keys
    && (forall e | e in sp.route ::
          IsWalk(g, sp.route[e], e.0, e.1) && sp.length[e] == WalkWeight(g, sp.route[e]))
    && (forall e | e in sp.route && e.0 == e.1 :: sp.route[e] == [e.0])
    && (forall u, v, w | IsWalk(g, w, u, v) :: (u, v) in sp.route && sp.length[(u, v)] <= WalkWeight(g, w))
  }

  /**
   * A shortest-path oracle exists only on graphs without negative edges: going along an edge and
   * back is a walk from a node to itself, which cannot be lighter than the one-node route.
   */
  lemma OracleWeightsNonNegative(g: Graph, sp: Oracle, a: Node, b: Node)
    requires Valid(g) && IsShortestPathOracle(g, sp)
    requires Key(a, b) in g.weight
    ensures g.weight[Key(a, b)] >= 0
  {
    var w := [a, b, a];
    assert Key(b, a) == Key(a, b);
    assert a in Key(a, b);
    assert ConsecutiveEdges(g, w);
    assert w[..2] == [a, b];
    WalkWeightPair(g, a, b);
    assert WalkWeight(g, w) == 2 * g.weight[Key(a, b)];
    assert IsWalk(g, w, a, a);
    assert sp.route[(a, a)] == [a];
  }

  /** Distances are symmetric: the graph is undirected. */
  lemma LengthSymmetric(g: Graph, sp: Oracle, u: Node, v: Node)
    requires Valid(g) && IsShortestPathOracle(g, sp)
    requires (u, v) in sp.route
    ensures (v, u) in sp.route && sp.length[(v, u)] == sp.length[(u, v)]
  {
    ReversedRouteIsWalk(g, sp, u, v);
    ReversedRouteIsWalk(g, sp, v, u);
  }

  lemma ReversedRouteIsWalk(g: Graph, sp: Oracle, u: Node, v: Node)
    requires Valid(g) && IsShortestPathOracle(g, sp)
    requires (u, v) in sp.route
    ensures (v, u) in sp.route && sp.length[(v, u)] <= sp.length[(u, v)]
  {
    var r := sp.route[(u, v)];
    WalkWeightReverse(g, r);
    var rr := Reverse(r);
    if |r| > 1 {
      assert Key(r[|r| - 2], r[|r| - 1]) in g.weight;
      assert v in Key(r[|r| - 2], r[|r| - 1]);
    }
    assert IsWalk(g, rr, v, u);
  }

  /** A walk with a repeated consecutive node (a self-loop step) is heavier than the walk without it. */
  lemma DropStutter(g: Graph, w: seq<Node>, i: nat)
    requires PositiveWeights(g) && ConsecutiveEdges(g, w)
    requires i + 1 < |w| && w[i] == w[i + 1]
    ensures ConsecutiveEdges(g, w[..i + 1] + w[i + 2..])
    ensures WalkWeight(g, w[..i + 1] + w[i + 2..]) < WalkWeight(g, w)
  {
    var pre, mid, post := w[..i + 1], w[i..], w[i + 1..];
    var step := [w[i], w[i + 1]];
    assert pre + post[1..] == w[..i + 1] + w[i + 2..];
    assert step + post[1..] == mid;
    assert pre + mid[1..] == w;
    assert ConsecutiveEdges(g, pre) && ConsecutiveEdges(g, mid) && ConsecutiveEdges(g, post) by {
      assert forall k | 0 <= k < |pre| :: pre[k] == w[k];
      assert forall k | 0 <= k < |mid| :: mid[k] == w[i + k];
      assert forall k | 0 <= k < |post| :: post[k] == w[i + 1 + k];
    }
    WalkWeightPair(g, w[i], w[i + 1]);
    WalkWeightJoin(g, pre, post);
    WalkWeightJoin(g, step, post);
    WalkWeightJoin(g, pre, mid);
  }

  /** On positive weights a returned route never repeats a node in two consecutive places. */
  lemma RouteNoStutter(g: Graph, sp: Oracle, e: (Node, Node))
    requires IsShortestPathOracle(g, sp) && PositiveWeights(g)
    requires e in sp.route
    ensures NoStutter(sp.route[e])
  {
    var r := sp.route[e];
    if !NoStutter(r) {
      var i :| 0 <= i < |r| - 1 && r[i] == r[i + 1];
      DropStutter(g, r, i);
      var w := r[..i + 1] + r[i + 2..];
      assert w[0] == r[0];
      assert w[|w| - 1] == r[|r| - 1];
      assert IsWalk(g, w, e.0, e.1);
    }
  }
}
