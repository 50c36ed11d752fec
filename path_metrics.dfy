/**
 * What main.py derives from a resolved path: its length (getPathLength) and the directed
 * graph of its consecutive pairs (generatePathGraph). Both index graph[u][v]["weight"],
 * which raises KeyError when u and v are not adjacent.
 */
module PathMetrics {
  import opened Wrappers
  import opened Graphs

  /** graph[nodes[index]][nodes[index + 1]] raised KeyError. */
  datatype PathError = BrokenPath(index: nat)

  /** Pair i of p is the first consecutive pair that is not an edge. */
  ghost predicate IsFirstBrokenPair(g: Graph, p: seq<Node>, i: nat) {
    i + 1 < |p| && Key(p[i], p[i + 1]) !in g.weight && ConsecutiveEdges(g, p[..i + 1])
  }

  /**
   * getPathLength: the sum of the edge weights of the consecutive pairs of nodes; 0 for
   * fewer than two nodes; BrokenPath at the first pair that is not an edge.
   */
  method GetPathLength(g: Graph, nodes: seq<Node>) returns (r: Result<int, PathError>)
    ensures r.Success? <==> ConsecutiveEdges(g, nodes)
    ensures r.Success? ==> r.value == WalkWeight(g, nodes)
    ensures r.Failure? ==> IsFirstBrokenPair(g, nodes, r.error.index)
  {
    var total := 0;
    var x := 0;
    while x < |nodes| - 1
      invariant x == 0 || x < |nodes|
      invariant x < |nodes| ==> ConsecutiveEdges(g, nodes[..x + 1]) && total == WalkWeight(g, nodes[..x + 1])
      invariant |nodes| == 0 ==> total == 0
    {
      if Key(nodes[x], nodes[x + 1]) !in g.weight {
        return Failure(BrokenPath(x));
      }
      total := total + g.weight[Key(nodes[x], nodes[x + 1])];
      assert nodes[..x + 2][..x + 1] == nodes[..x + 1];
      x := x + 1;
    }
    if |nodes| > 0 {
      assert nodes[..x + 1] == nodes;
    }
    return Success(total);
  }

  /** The nx.DiGraph that generatePathGraph returns: its nodes and its weighted arcs. */
  datatype PathGraph = PathGraph(nodes: set<Node>, arcs: map<(Node, Node), int>)

  /** An arc triple (u, v, w) as generatePathGraph collects them. */
  type Arc = (Node, Node, int)

  /** DiGraph.add_edges_from: each triple adds its endpoints and (over)writes its arc. */
  function AddArcs(pg: PathGraph, edges: seq<Arc>): PathGraph
    decreases |edges|
  {
    if edges == [] then pg
    else
      var e := edges[0];
      AddArcs(PathGraph(pg.nodes + {e.0, e.1}, pg.arcs[(e.0, e.1) := e.2]), edges[1..])
  }

  /** The consecutive pairs of p, as directed arcs. */
  function PairsOf(p: seq<Node>): set<(Node, Node)> {
    set i | 0 <= i < |p| - 1 :: PairAt(p, i)
  }

  /** Every arc carries the weight of the undirected edge it comes from. */
  ghost predicate ArcsWeighted(g: Graph, arcs: map<(Node, Node), int>) {
    forall a | a in arcs :: Key(a.0, a.1) in g.weight && arcs[a] == g.weight[Key(a.0, a.1)]
  }

  /** The triples that generatePathGraph collects for p, for the first n pairs. */
  ghost predicate CollectedArcs(g: Graph, p: seq<Node>, edges: seq<Arc>, n: nat) {
    (n < |p| || n == 0) && |edges| == n &&
    forall j | 0 <= j < n ::
      Key(p[j], p[j + 1]) in g.weight && edges[j] == (p[j], p[j + 1], g.weight[Key(p[j], p[j + 1])])
  }

  /**
   * Adding arc triples that carry the weights of their undirected edges: the arcs are the old
   * ones and the triples' pairs (a repeated pair collapses to one arc), each still weighted
   * by its edge, and the nodes are the old ones and the triples' endpoints.
   */
  lemma {:induction false} AddArcsSpec(g: Graph, pg: PathGraph, edges: seq<Arc>)
    requires ArcsWeighted(g, pg.arcs)
    requires forall e | e in edges :: Key(e.0, e.1) in g.weight && e.2 == g.weight[Key(e.0, e.1)]
    ensures AddArcs(pg, edges).arcs.Keys == pg.arcs.Keys + (set e | e in edges :: (e.0, e.1))
    ensures ArcsWeighted(g, AddArcs(pg, edges).arcs)
    ensures AddArcs(pg, edges).nodes == pg.nodes + (set e | e in edges :: e.0) + (set e | e in edges :: e.1)
    decreases |edges|
  {
    if edges != [] {
      var e := edges[0];
      var pg' := PathGraph(pg.nodes + {e.0, e.1}, pg.arcs[(e.0, e.1) := e.2]);
      AddArcsSpec(g, pg', edges[1..]);
      ArcSetsUnfold(edges);
    }
  }

  /** The pairs and endpoints of a sequence of triples, split into its first and the rest. */
  lemma ArcSetsUnfold(edges: seq<Arc>)
    requires edges != []
    ensures (set x | x in edges :: (x.0, x.1)) == {(edges[0].0, edges[0].1)} + (set x | x in edges[1..] :: (x.0, x.1))
    ensures (set x | x in edges :: x.0) == {edges[0].0} + (set x | x in edges[1..] :: x.0)
    ensures (set x | x in edges :: x.1) == {edges[0].1} + (set x | x in edges[1..] :: x.1)
  {
    assert forall x | x in edges :: x == edges[0] || x in edges[1..];
  }

  lemma CollectedTriples(g: Graph, p: seq<Node>, edges: seq<Arc>, n: nat)
    requires CollectedArcs(g, p, edges, n)
    ensures forall e | e in edges :: Key(e.0, e.1) in g.weight && e.2 == g.weight[Key(e.0, e.1)]
    ensures forall e | e in edges :: e.0 in p && e.1 in p
  {
    forall e | e in edges ensures Key(e.0, e.1) in g.weight && e.2 == g.weight[Key(e.0, e.1)] && e.0 in p && e.1 in p {
      var j :| 0 <= j < |edges| && edges[j] == e;
      assert Key(p[j], p[j + 1]) in g.weight;
      assert e == (p[j], p[j + 1], g.weight[Key(p[j], p[j + 1])]);
    }
  }

  lemma CollectedPairs(g: Graph, p: seq<Node>, edges: seq<Arc>)
    requires CollectedArcs(g, p, edges, if |p| == 0 then 0 else |p| - 1)
    ensures (set e | e in edges :: (e.0, e.1)) == PairsOf(p)
  {
    forall a | a in PairsOf(p) ensures a in (set e | e in edges :: (e.0, e.1)) {
      var i :| 0 <= i < |p| - 1 && a == PairAt(p, i);
      assert edges[i] in edges;
    }
    forall e | e in edges ensures (e.0, e.1) in PairsOf(p) {
      var j :| 0 <= j < |edges| && edges[j] == e;
      assert (e.0, e.1) == PairAt(p, j);
    }
  }

  lemma CollectedEndpoints(g: Graph, p: seq<Node>, edges: seq<Arc>)
    requires |p| >= 2 && CollectedArcs(g, p, edges, |p| - 1)
    ensures (set e | e in edges :: e.0) + (set e | e in edges :: e.1) == set v | v in p
  {
    CollectedTriples(g, p, edges, |p| - 1);
    forall v | v in p ensures v in (set e | e in edges :: e.0) + (set e | e in edges :: e.1) {
      var i :| 0 <= i < |p| && p[i] == v;
      if i < |p| - 1 {
        assert Key(p[i], p[i + 1]) in g.weight;
        assert edges[i] in edges && edges[i].0 == v;
      } else {
        assert Key(p[i - 1], p[i]) in g.weight;
        assert edges[i - 1] in edges && edges[i - 1].1 == v;
      }
    }
  }

  /** The graph of the triples collected for every pair of p has p's pairs as arcs and p's nodes. */
  lemma CollectedArcsGraph(g: Graph, p: seq<Node>, edges: seq<Arc>)
    requires CollectedArcs(g, p, edges, if |p| == 0 then 0 else |p| - 1)
    ensures AddArcs(PathGraph({}, map[]), edges).arcs.Keys == PairsOf(p)
    ensures ArcsWeighted(g, AddArcs(PathGraph({}, map[]), edges).arcs)
    ensures AddArcs(PathGraph({}, map[]), edges).nodes == if |p| < 2 then {} else set v | v in p
  {
    CollectedTriples(g, p, edges, if |p| == 0 then 0 else |p| - 1);
    AddArcsSpec(g, PathGraph({}, map[]), edges);
    CollectedPairs(g, p, edges);
    if |p| >= 2 {
      CollectedEndpoints(g, p, edges);
    } else {
      assert edges == [];
    }
  }

  /**
   * generatePathGraph: the arcs are exactly the consecutive pairs (nodes[i], nodes[i + 1]),
   * a repeated pair giving one arc, each weighted by its undirected edge; the nodes are those
   * of the path when it has an arc and none otherwise; BrokenPath at the first pair that is
   * not an edge.
   */
  method GeneratePathGraph(g: Graph, nodes: seq<Node>) returns (r: Result<PathGraph, PathError>)
    ensures r.Success? <==> ConsecutiveEdges(g, nodes)
    ensures r.Failure? ==> IsFirstBrokenPair(g, nodes, r.error.index)
    ensures r.Success? ==> r.value.arcs.Keys == PairsOf(nodes)
    ensures r.Success? ==> ArcsWeighted(g, r.value.arcs)
    ensures r.Success? ==> r.value.nodes == if |nodes| < 2 then {} else set v | v in nodes
  {
    var edges: seq<Arc> := [];
    var x := 0;
    while x < |nodes| - 1
      invariant x == 0 || x < |nodes|
      invariant CollectedArcs(g, nodes, edges, x)
    {
      if Key(nodes[x], nodes[x + 1]) !in g.weight {
        assert ConsecutiveEdges(g, nodes[..x + 1]);
        return Failure(BrokenPath(x));
      }
      edges := edges + [(nodes[x], nodes[x + 1], g.weight[Key(nodes[x], nodes[x + 1])])];
      x := x + 1;
    }
    var pg := AddArcs(PathGraph({}, map[]), edges);
    CollectedArcsGraph(g, nodes, edges);
    return Success(pg);
  }
}
