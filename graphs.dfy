/**
 * The undirected weighted graph the router works on: an nx.Graph filled by
 * add_edges_from with (a, b, {"weight": w}) triples.
 */
module Graphs {

  /** A building label. */
  type Node = string

  /** An unordered pair of nodes: {a, b}, or {a} for a self-loop. */
  type EdgeKey = set<Node>

  /** One parsed line of the edge list: nodes a and b at distance weight. */
  datatype Relationship = Relationship(a: Node, b: Node, weight: int)

  /** The nodes of the graph and the weight attribute of every undirected edge. */
  datatype Graph = Graph(nodes: set<Node>, weight: map<EdgeKey, int>)

  function Key(a: Node, b: Node): EdgeKey {
    {a, b}
  }

  function KeyOf(r: Relationship): EdgeKey {
    Key(r.a, r.b)
  }

  /** Every edge joins nodes of the graph. */
  ghost predicate Valid(g: Graph) {
    forall k | k in g.weight :: k <= g.nodes
  }

  ghost predicate PositiveWeights(g: Graph) {
    forall k | k in g.weight :: g.weight[k] > 0
  }

  /** The graph with no nodes: nx.Graph(). */
  function EmptyGraph(): (g: Graph)
    ensures Valid(g) && g.nodes == {} && g.weight == map[]
  {
    Graph({}, map[])
  }

  /** add_edges_from: each triple adds its endpoints and (over)writes the weight of its pair. */
  function AddEdges(g: Graph, rels: seq<Relationship>): Graph
    decreases |rels|
  {
    if rels == [] then g
    else
      var e := rels[0];
      AddEdges(Graph(g.nodes + {e.a, e.b}, g.weight[KeyOf(e) := e.weight]), rels[1..])
  }

  /** The endpoints named by a sequence of triples. */
  function Endpoints(rels: seq<Relationship>): set<Node>
    decreases |rels|
  {
    if rels == [] then {} else {rels[0].a, rels[0].b} + Endpoints(rels[1..])
  }

  /** The unordered pairs named by a sequence of triples. */
  function EdgeKeys(rels: seq<Relationship>): set<EdgeKey>
    decreases |rels|
  {
    if rels == [] then {} else {KeyOf(rels[0])} + EdgeKeys(rels[1..])
  }

  /** No later triple names the same unordered pair as triple i. */
  ghost predicate IsLastFor(rels: seq<Relationship>, i: int)
    requires 0 <= i < |rels|
  {
    forall j | i < j < |rels| :: KeyOf(rels[j]) != KeyOf(rels[i])
  }

  lemma {:induction false} EdgeKeysMembership(rels: seq<Relationship>, k: EdgeKey)
    ensures k in EdgeKeys(rels) <==> exists j :: 0 <= j < |rels| && KeyOf(rels[j]) == k
    decreases |rels|
  {
    if rels != [] {
      EdgeKeysMembership(rels[1..], k);
      if k in EdgeKeys(rels[1..]) {
        var j :| 0 <= j < |rels[1..]| && KeyOf(rels[1..][j]) == k;
        assert KeyOf(rels[j + 1]) == k;
      }
      if exists j :: 0 <= j < |rels| && KeyOf(rels[j]) == k {
        var j :| 0 <= j < |rels| && KeyOf(rels[j]) == k;
        if j > 0 {
          assert KeyOf(rels[1..][j - 1]) == k;
        }
      }
    }
  }

  /** Building a graph from triples adds exactly their endpoints and their pairs. */
  lemma {:induction false} AddEdgesDomain(g: Graph, rels: seq<Relationship>)
    ensures AddEdges(g, rels).nodes == g.nodes + Endpoints(rels)
    ensures AddEdges(g, rels).weight.Keys == g.weight.Keys + EdgeKeys(rels)
    ensures Valid(g) ==> Valid(AddEdges(g, rels))
    decreases |rels|
  {
    if rels != [] {
      var e := rels[0];
      var g' := Graph(g.nodes + {e.a, e.b}, g.weight[KeyOf(e) := e.weight]);
      AddEdgesDomain(g', rels[1..]);
    }
  }

  /** A pair that no triple names keeps its old weight. */
  lemma {:induction false} AddEdgesKeepsOthers(g: Graph, rels: seq<Relationship>, k: EdgeKey)
    requires k in g.weight && k !in EdgeKeys(rels)
    ensures k in AddEdges(g, rels).weight && AddEdges(g, rels).weight[k] == g.weight[k]
    decreases |rels|
  {
    if rels != [] {
      var e := rels[0];
      var g' := Graph(g.nodes + {e.a, e.b}, g.weight[KeyOf(e) := e.weight]);
      AddEdgesKeepsOthers(g', rels[1..], k);
    }
  }

  /** A repeated pair keeps the weight of its last triple (the last duplicate wins). */
  lemma {:induction false} AddEdgesLastWins(g: Graph, rels: seq<Relationship>, i: int)
    requires 0 <= i < |rels| && IsLastFor(rels, i)
    ensures KeyOf(rels[i]) in AddEdges(g, rels).weight
    ensures AddEdges(g, rels).weight[KeyOf(rels[i])] == rels[i].weight
    decreases |rels|
  {
    var e := rels[0];
    var g' := Graph(g.nodes + {e.a, e.b}, g.weight[KeyOf(e) := e.weight]);
    var tail := rels[1..];
    if i == 0 {
      EdgeKeysMembership(tail, KeyOf(e));
      AddEdgesKeepsOthers(g', tail, KeyOf(e));
    } else {
      assert tail[i - 1] == rels[i];
      assert IsLastFor(tail, i - 1) by {
        forall j | i - 1 < j < |tail| ensures KeyOf(tail[j]) != KeyOf(tail[i - 1]) {
          assert tail[j] == rels[j + 1];
        }
      }
      AddEdgesLastWins(g', tail, i - 1);
    }
  }

  /** The graph main() builds from the parsed edge list. */
  function BuildGraph(rels: seq<Relationship>): Graph {
    AddEdges(EmptyGraph(), rels)
  }

  /** The graph built from triples has exactly their endpoints and pairs, the last duplicate winning. */
  lemma BuildGraphSpec(rels: seq<Relationship>)
    ensures Valid(BuildGraph(rels))
    ensures BuildGraph(rels).nodes == Endpoints(rels)
    ensures BuildGraph(rels).weight.Keys == EdgeKeys(rels)
    ensures forall i | 0 <= i < |rels| && IsLastFor(rels, i) ::
              KeyOf(rels[i]) in BuildGraph(rels).weight && BuildGraph(rels).weight[KeyOf(rels[i])] == rels[i].weight
  {
    AddEdgesDomain(EmptyGraph(), rels);
    forall i | 0 <= i < |rels| && IsLastFor(rels, i)
      ensures KeyOf(rels[i]) in BuildGraph(rels).weight && BuildGraph(rels).weight[KeyOf(rels[i])] == rels[i].weight
    {
      AddEdgesLastWins(EmptyGraph(), rels, i);
    }
  }

  /** Pair i of p, in order. */
  function PairAt(p: seq<Node>, i: nat): (Node, Node)
    requires i + 1 < |p|
  {
    (p[i], p[i + 1])
  }

  /** Every consecutive pair of p is an edge of g. */
  predicate ConsecutiveEdges(g: Graph, p: seq<Node>) {
    forall i | 0 <= i < |p| - 1 :: Key(p[i], p[i + 1]) in g.weight
  }

  /** The summed weight of the consecutive pairs of p. */
  function WalkWeight(g: Graph, p: seq<Node>): int
    requires ConsecutiveEdges(g, p)
    decreases |p|
  {
    if |p| <= 1 then 0
    else WalkWeight(g, p[..|p| - 1]) + g.weight[Key(p[|p| - 2], p[|p| - 1])]
  }

  /** No node stands twice in a row in p. */
  predicate NoStutter(p: seq<Node>) {
    forall i | 0 <= i < |p| - 1 :: p[i] != p[i + 1]
  }

  /** w is a walk of g from u to v. */
  ghost predicate IsWalk(g: Graph, w: seq<Node>, u: Node, v: Node) {
    |w| > 0 && w[0] == u && w[|w| - 1] == v && u in g.nodes && ConsecutiveEdges(g, w)
  }

  lemma WalkWeightPair(g: Graph, a: Node, b: Node)
    requires Key(a, b) in g.weight
    ensures ConsecutiveEdges(g, [a, b]) && WalkWeight(g, [a, b]) == g.weight[Key(a, b)]
  {
    assert [a, b][..1] == [a];
  }

  /** Two walks joined at a shared boundary node, which is kept once, add their weights. */
  lemma {:induction false} WalkWeightJoin(g: Graph, p: seq<Node>, q: seq<Node>)
    requires |p| > 0 && |q| > 0 && p[|p| - 1] == q[0]
    requires ConsecutiveEdges(g, p) && ConsecutiveEdges(g, q)
    ensures ConsecutiveEdges(g, p + q[1..])
    ensures WalkWeight(g, p + q[1..]) == WalkWeight(g, p) + WalkWeight(g, q)
    decreases |q|
  {
    if |q| == 1 {
      assert p + q[1..] == p;
    } else {
      var q' := q[..|q| - 1];
      assert ConsecutiveEdges(g, q');
      WalkWeightJoin(g, p, q');
      var s := p + q[1..];
      assert s[..|s| - 1] == p + q'[1..];
      assert s[|s| - 2] == q[|q| - 2] && s[|s| - 1] == q[|q| - 1];
      assert ConsecutiveEdges(g, s) by {
        forall i | 0 <= i < |s| - 1 ensures Key(s[i], s[i + 1]) in g.weight {
          if i < |s| - 2 {
            assert s[i] == (p + q'[1..])[i] && s[i + 1] == (p + q'[1..])[i + 1];
          }
        }
      }
    }
  }

  function Reverse(p: seq<Node>): (r: seq<Node>)
    ensures |r| == |p|
    ensures forall i | 0 <= i < |p| :: r[i] == p[|p| - 1 - i]
    decreases |p|
  {
    if p == [] then [] else Reverse(p[1..]) + [p[0]]
  }

  /** An undirected walk read backwards is a walk of the same weight. */
  lemma {:induction false} WalkWeightReverse(g: Graph, p: seq<Node>)
    requires ConsecutiveEdges(g, p)
    ensures ConsecutiveEdges(g, Reverse(p))
    ensures WalkWeight(g, Reverse(p)) == WalkWeight(g, p)
    decreases |p|
  {
    var r := Reverse(p);
    assert ConsecutiveEdges(g, r) by {
      forall i | 0 <= i < |r| - 1 ensures Key(r[i], r[i + 1]) in g.weight {
        assert Key(r[i], r[i + 1]) == Key(p[|p| - 2 - i], p[|p| - 1 - i]);
      }
    }
    if |p| > 1 {
      var t := p[1..];
      assert ConsecutiveEdges(g, t);
      WalkWeightReverse(g, t);
      var head := [p[0], p[1]];
      assert ConsecutiveEdges(g, head);
      WalkWeightJoin(g, head, t);
      assert head + t[1..] == p;
      assert WalkWeight(g, head) == g.weight[Key(p[0], p[1])] by {
        assert head[..1] == [p[0]];
      }
      assert r[..|r| - 1] == Reverse(t);
      assert Key(r[|r| - 2], r[|r| - 1]) == Key(p[0], p[1]);
    }
  }
}
