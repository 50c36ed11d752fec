/**
 * The two route builders of main.py: determinePath, which stitches a fixed waypoint order
 * into one path of shortest sub-paths, and determineOptimalPath, the greedy nearest-neighbour
 * router. Both consult the graph only through shortest-path queries (an Oracle).
 */
module Routing {
  import opened Wrappers
  import opened Graphs
  import opened ShortestPath

  /**
   * NoPath: a shortest-path query raised (no path, or a node not in the graph);
   * NoCandidate: nodes.index found no stop equal to the chosen one (ValueError);
   * NoWaypoints: determinePath indexed nodes[0] of an empty list (IndexError).
   */
  datatype RouteError = NoPath(source: Node, target: Node) | NoCandidate | NoWaypoints

  // ---------------------------------------------------------------------------------------
  // List operations: list.index and list.pop

  /** list.index: the first position of x. */
  function IndexOf(xs: seq<Node>, x: Node): (i: nat)
    requires x in xs
    ensures i < |xs| && xs[i] == x && x !in xs[..i]
  {
    if xs[0] == x then 0
    else
      var j := IndexOf(xs[1..], x);
      assert xs[..j + 1] == [xs[0]] + xs[1..][..j];
      j + 1
  }

  /** The first position of a value that no earlier element equals is its own position. */
  lemma IndexOfUnique(xs: seq<Node>, k: nat)
    requires k < |xs| && forall j | 0 <= j < k :: xs[j] != xs[k]
    ensures IndexOf(xs, xs[k]) == k
  {
    var i := IndexOf(xs, xs[k]);
  }

  /** list.pop(i): the list without its element at position i. */
  function RemoveAt(xs: seq<Node>, i: nat): (r: seq<Node>)
    requires i < |xs|
    ensures |r| == |xs| - 1
    ensures multiset(r) == multiset(xs) - multiset{xs[i]}
  {
    assert xs == xs[..i] + [xs[i]] + xs[i + 1..];
    xs[..i] + xs[i + 1..]
  }

  // ---------------------------------------------------------------------------------------
  // determinePath

  /**
   * The path determinePath has built once it stands at current with the waypoints rest still
   * to visit: each leg is the shortest path to the next waypoint without its first node.
   */
  function StitchFrom(sp: Oracle, current: Node, rest: seq<Node>, path: seq<Node>): Result<seq<Node>, RouteError>
    decreases |rest|
  {
    if rest == [] then Success(path)
    else if (current, rest[0]) !in sp.route then Failure(NoPath(current, rest[0]))
    else StitchFrom(sp, rest[0], rest[1..], path + sp.route[(current, rest[0])][1..])
  }

  /** The result of determinePath(graph, waypoints). */
  function Stitched(sp: Oracle, waypoints: seq<Node>): Result<seq<Node>, RouteError> {
    if waypoints == [] then Failure(NoWaypoints)
    else StitchFrom(sp, waypoints[0], waypoints[1..], [waypoints[0]])
  }

  /** determinePath: the shortest path through the waypoints in the given order. */
  method DeterminePath(sp: Oracle, nodeList: seq<Node>) returns (r: Result<seq<Node>, RouteError>)
    ensures r == Stitched(sp, nodeList)
  {
    if |nodeList| == 0 {
      return Failure(NoWaypoints);
    }
    var nodes := nodeList;
    var currentNode := nodes[0];
    var path := [nodes[0]];
    nodes := nodes[1..];
    for i := 0 to |nodes|
      invariant StitchFrom(sp, currentNode, nodes[i..], path) == Stitched(sp, nodeList)
    {
      var x := nodes[i];
      assert nodes[i..][1..] == nodes[i + 1..];
      if (currentNode, x) !in sp.route {
        return Failure(NoPath(currentNode, x));
      }
      var add: seq<Node> := sp.route[(currentNode, x)];
      add := add[1..];
      path := path + add;
      currentNode := x;
    }
    return Success(path);
  }

  /** Every consecutive pair of waypoints has a shortest path. */
  predicate LegsAnswered(sp: Oracle, ws: seq<Node>) {
    forall i | 0 <= i < |ws| - 1 :: PairAt(ws, i) in sp.route
  }

  /** The summed shortest-path lengths of the legs between consecutive waypoints. */
  function LegsLength(sp: Oracle, ws: seq<Node>): int
    requires sp.route.Keys == sp.length.Keys && LegsAnswered(sp, ws)
    decreases |ws|
  {
    if |ws| <= 1 then 0
    else
      LegsAnsweredTail(sp, ws);
      sp.length[PairAt(ws, 0)] + LegsLength(sp, ws[1..])
  }

  lemma LegsAnsweredTail(sp: Oracle, ws: seq<Node>)
    requires |ws| > 0 && LegsAnswered(sp, ws)
    ensures LegsAnswered(sp, ws[1..])
  {
    var t := ws[1..];
    forall i | 0 <= i < |t| - 1 ensures PairAt(t, i) in sp.route {
      assert PairAt(t, i) == PairAt(ws, i + 1);
    }
  }

  /** Stitching fails exactly at the first leg without a path, and otherwise extends path. */
  lemma {:induction false} StitchFromOutcome(sp: Oracle, current: Node, rest: seq<Node>, path: seq<Node>)
    ensures StitchFrom(sp, current, rest, path).Success? <==> LegsAnswered(sp, [current] + rest)
    ensures StitchFrom(sp, current, rest, path).Success? ==> path <= StitchFrom(sp, current, rest, path).value
    ensures StitchFrom(sp, current, rest, path).Failure? ==>
              exists i :: 0 <= i < |rest| && PairAt([current] + rest, i) !in sp.route
                && LegsAnswered(sp, ([current] + rest)[..i + 1])
                && StitchFrom(sp, current, rest, path).error == NoPath(([current] + rest)[i], rest[i])
    decreases |rest|
  {
    var ws := [current] + rest;
    if rest != [] {
      var ws' := [rest[0]] + rest[1..];
      assert ws' == ws[1..];
      if (current, rest[0]) in sp.route {
        var path' := path + sp.route[(current, rest[0])][1..];
        StitchFromOutcome(sp, rest[0], rest[1..], path');
        assert PairAt(ws, 0) == (current, rest[0]);
        assert LegsAnswered(sp, ws) <==> LegsAnswered(sp, ws') by {
          assert forall i | 0 <= i < |ws'| - 1 :: PairAt(ws', i) == PairAt(ws, i + 1);
          if LegsAnswered(sp, ws') {
            forall i | 0 <= i < |ws| - 1 ensures PairAt(ws, i) in sp.route {
              if i > 0 {
                assert PairAt(ws, i) == PairAt(ws', i - 1);
              }
            }
          }
        }
        if StitchFrom(sp, current, rest, path).Failure? {
          var i :| 0 <= i < |rest[1..]| && PairAt(ws', i) !in sp.route
                   && LegsAnswered(sp, ws'[..i + 1])
                   && StitchFrom(sp, rest[0], rest[1..], path').error == NoPath(ws'[i], rest[1..][i]);
          assert PairAt(ws, i + 1) == PairAt(ws', i);
          var pre, pre' := ws[..i + 2], ws'[..i + 1];
          assert LegsAnswered(sp, pre) by {
            forall j | 0 <= j < i + 1 ensures PairAt(pre, j) in sp.route {
              if j > 0 {
                assert PairAt(pre, j) == PairAt(pre', j - 1);
              }
            }
          }
        }
      } else {
        assert PairAt(ws, 0) == (current, rest[0]);
      }
    }
  }

  /** determinePath fails on an empty list, and otherwise exactly at the first leg without a path. */
  lemma StitchedOutcome(sp: Oracle, ws: seq<Node>)
    ensures Stitched(sp, ws).Success? <==> |ws| > 0 && LegsAnswered(sp, ws)
    ensures Stitched(sp, ws).Failure? && ws == [] ==> Stitched(sp, ws).error == NoWaypoints
    ensures Stitched(sp, ws).Failure? && ws != [] ==>
              exists i :: 0 <= i < |ws| - 1 && PairAt(ws, i) !in sp.route && LegsAnswered(sp, ws[..i + 1])
                && Stitched(sp, ws).error == NoPath(ws[i], ws[i + 1])
  {
    if ws != [] {
      assert [ws[0]] + ws[1..] == ws;
      StitchFromOutcome(sp, ws[0], ws[1..], [ws[0]]);
    }
  }

  /**
   * On a shortest-path oracle, a stitched path is a walk of the graph that ends at the last
   * waypoint and weighs the sum of its legs' lengths.
   */
  lemma {:induction false} StitchFromWalk(g: Graph, sp: Oracle, current: Node, rest: seq<Node>, path: seq<Node>)
    requires IsShortestPathOracle(g, sp)
    requires |path| > 0 && path[|path| - 1] == current && ConsecutiveEdges(g, path)
    requires StitchFrom(sp, current, rest, path).Success?
    ensures LegsAnswered(sp, [current] + rest)
    ensures path <= StitchFrom(sp, current, rest, path).value
    ensures ConsecutiveEdges(g, StitchFrom(sp, current, rest, path).value)
    ensures StitchFrom(sp, current, rest, path).value[|StitchFrom(sp, current, rest, path).value| - 1]
              == ([current] + rest)[|rest|]
    ensures WalkWeight(g, StitchFrom(sp, current, rest, path).value)
              == WalkWeight(g, path) + LegsLength(sp, [current] + rest)
    decreases |rest|
  {
    StitchFromOutcome(sp, current, rest, path);
    if rest != [] {
      var leg := sp.route[(current, rest[0])];
      var path' := path + leg[1..];
      WalkWeightJoin(g, path, leg);
      StitchFromWalk(g, sp, rest[0], rest[1..], path');
      var ws := [current] + rest;
      assert ws[1..] == [rest[0]] + rest[1..];
      assert PairAt(ws, 0) == (current, rest[0]);
    }
  }

  /** The composition of stitching: the waypoints a + b are stitched as a, then b from a's end. */
  lemma {:induction false} StitchFromAppend(sp: Oracle, current: Node, a: seq<Node>, b: seq<Node>, path: seq<Node>)
    ensures StitchFrom(sp, current, a + b, path) ==
              match StitchFrom(sp, current, a, path)
              case Failure(e) => Failure(e)
              case Success(q) => StitchFrom(sp, ([current] + a)[|a|], b, q)
    decreases |a|
  {
    if a == [] {
      assert a + b == b;
    } else {
      assert (a + b)[0] == a[0] && (a + b)[1..] == a[1..] + b;
      if (current, a[0]) in sp.route {
        StitchFromAppend(sp, a[0], a[1..], b, path + sp.route[(current, a[0])][1..]);
        assert ([a[0]] + a[1..])[|a[1..]|] == ([current] + a)[|a|];
      }
    }
  }

  /**
   * The waypoints appear in the stitched path in order: for every k the path through the first
   * k waypoints is a prefix of it and ends at waypoint k - 1.
   */
  lemma StitchedPrefix(g: Graph, sp: Oracle, ws: seq<Node>, k: nat)
    requires IsShortestPathOracle(g, sp)
    requires Stitched(sp, ws).Success? && 1 <= k <= |ws|
    ensures Stitched(sp, ws[..k]).Success?
    ensures Stitched(sp, ws[..k]).value <= Stitched(sp, ws).value
    ensures |Stitched(sp, ws[..k]).value| > 0
    ensures Stitched(sp, ws[..k]).value[|Stitched(sp, ws[..k]).value| - 1] == ws[k - 1]
  {
    assert ws[1..] == ws[1..k] + ws[k..];
    assert ws[..k][0] == ws[0] && ws[..k][1..] == ws[1..k];
    StitchFromAppend(sp, ws[0], ws[1..k], ws[k..], [ws[0]]);
    var q := Stitched(sp, ws[..k]).value;
    StitchFromWalk(g, sp, ws[0], ws[1..k], [ws[0]]);
    assert ([ws[0]] + ws[1..k])[|ws[1..k]|] == ws[k - 1];
    StitchFromOutcome(sp, ws[k - 1], ws[k..], q);
  }

  /**
   * determinePath on a shortest-path oracle: the path starts at the first waypoint, ends at the
   * last, passes every waypoint, is a walk of the graph, and its length is the sum of the
   * shortest distances between consecutive waypoints.
   */
  lemma StitchedWalk(g: Graph, sp: Oracle, ws: seq<Node>)
    requires IsShortestPathOracle(g, sp)
    requires Stitched(sp, ws).Success?
    ensures var p := Stitched(sp, ws).value;
      && |p| > 0 && p[0] == ws[0] && p[|p| - 1] == ws[|ws| - 1]
      && (forall w | w in ws :: w in p)
      && LegsAnswered(sp, ws) && ConsecutiveEdges(g, p) && WalkWeight(g, p) == LegsLength(sp, ws)
  {
    var p := Stitched(sp, ws).value;
    StitchFromOutcome(sp, ws[0], ws[1..], [ws[0]]);
    StitchFromWalk(g, sp, ws[0], ws[1..], [ws[0]]);
    assert [ws[0]] + ws[1..] == ws;
    forall w | w in ws ensures w in p {
      var k :| 0 <= k < |ws| && ws[k] == w;
      StitchedPrefix(g, sp, ws, k + 1);
      var q := Stitched(sp, ws[..k + 1]).value;
      assert p[|q| - 1] == w;
    }
  }

  /** Joining a stutter-free path and a stutter-free leg that starts at its end leaves no stutter. */
  lemma JoinNoStutter(path: seq<Node>, leg: seq<Node>)
    requires |path| > 0 && |leg| > 0 && path[|path| - 1] == leg[0]
    requires NoStutter(path) && NoStutter(leg)
    ensures NoStutter(path + leg[1..])
  {
    var s := path + leg[1..];
    forall i | 0 <= i < |s| - 1 ensures s[i] != s[i + 1] {
      if i >= |path| - 1 {
        assert s[i] == leg[i - |path| + 1] && s[i + 1] == leg[i - |path| + 2];
      }
    }
  }

  lemma {:induction false} StitchFromNoStutter(g: Graph, sp: Oracle, current: Node, rest: seq<Node>, path: seq<Node>)
    requires IsShortestPathOracle(g, sp) && PositiveWeights(g)
    requires |path| > 0 && path[|path| - 1] == current && NoStutter(path)
    requires StitchFrom(sp, current, rest, path).Success?
    ensures NoStutter(StitchFrom(sp, current, rest, path).value)
    decreases |rest|
  {
    if rest != [] {
      var leg := sp.route[(current, rest[0])];
      RouteNoStutter(g, sp, (current, rest[0]));
      JoinNoStutter(path, leg);
      StitchFromNoStutter(g, sp, rest[0], rest[1..], path + leg[1..]);
    }
  }

  /**
   * Boundary de-duplication: on positive weights no node of a stitched path is repeated in two
   * consecutive places, so no leg's first node duplicates the previous leg's last.
   */
  lemma StitchedNoStutter(g: Graph, sp: Oracle, ws: seq<Node>)
    requires IsShortestPathOracle(g, sp) && PositiveWeights(g)
    requires Stitched(sp, ws).Success?
    ensures NoStutter(Stitched(sp, ws).value)
  {
    StitchFromNoStutter(g, sp, ws[0], ws[1..], [ws[0]]);
  }

  // ---------------------------------------------------------------------------------------
  // determineOptimalPath

  /** The initial value of `shortest`: no stop, and a distance of 9999. */
  const Unset: (Node, int) := ("", 9999)

  /**
   * The nearest-neighbour scan over the remaining stops xs from position i on, `shortest`
   * holding the best stop so far; a strictly smaller distance replaces it.
   */
  function ScanFrom(sp: Oracle, current: Node, xs: seq<Node>, i: nat, shortest: (Node, int)): Result<(Node, int), RouteError>
    requires i <= |xs|
    decreases |xs| - i
  {
    if i == |xs| then Success(shortest)
    else if (current, xs[i]) !in sp.length then Failure(NoPath(current, xs[i]))
    else
      var length := sp.length[(current, xs[i])];
      ScanFrom(sp, current, xs, i + 1, if length < shortest.1 then (xs[i], length) else shortest)
  }

  /** The stop the inner loop of determineOptimalPath picks among xs, with its distance. */
  function Nearest(sp: Oracle, current: Node, xs: seq<Node>): Result<(Node, int), RouteError> {
    ScanFrom(sp, current, xs, 0, Unset)
  }

  /** The result of determineOptimalPath from current with the stops nodes left and path built. */
  function GreedyFrom(sp: Oracle, current: Node, nodes: seq<Node>, path: seq<Node>): Result<seq<Node>, RouteError>
    decreases |nodes|
  {
    if nodes == [] then Success(path)
    else
      match Nearest(sp, current, nodes)
      case Failure(e) => Failure(e)
      case Success(shortest) =>
        if shortest.0 !in nodes then Failure(NoCandidate)
        else if (current, shortest.0) !in sp.route then Failure(NoPath(current, shortest.0))
        else GreedyFrom(sp, shortest.0, RemoveAt(nodes, IndexOf(nodes, shortest.0)),
                        path + sp.route[(current, shortest.0)][1..])
  }

  /** The result of determineOptimalPath(graph, startNode, nodeList). */
  function GreedyPath(sp: Oracle, startNode: Node, nodeList: seq<Node>): Result<seq<Node>, RouteError> {
    if startNode !in nodeList then Success([])
    else GreedyFrom(sp, startNode, RemoveAt(nodeList, IndexOf(nodeList, startNode)), [startNode])
  }

  /**
   * determineOptimalPath: from startNode, repeatedly move along a shortest path to the nearest
   * remaining stop; [] when startNode is not a stop. nodeList is a value and is not changed;
   * the loop works on its own copy, nodes.
   */
  method DetermineOptimalPath(sp: Oracle, startNode: Node, nodeList: seq<Node>) returns (r: Result<seq<Node>, RouteError>)
    ensures r == GreedyPath(sp, startNode, nodeList)
  {
    if startNode !in nodeList {
      return Success([]);
    }
    var nodes := nodeList;
    var currentNode := startNode;
    nodes := RemoveAt(nodes, IndexOf(nodes, startNode));
    var path := [startNode];
    while |nodes| > 0
      invariant GreedyFrom(sp, currentNode, nodes, path) == GreedyPath(sp, startNode, nodeList)
      decreases |nodes|
    {
      var shortest := Unset;
      for i := 0 to |nodes|
        invariant ScanFrom(sp, currentNode, nodes, i, shortest) == Nearest(sp, currentNode, nodes)
      {
        var x := nodes[i];
        if (currentNode, x) !in sp.length {
          return Failure(NoPath(currentNode, x));
        }
        var length := sp.length[(currentNode, x)];
        if length < shortest.1 {
          shortest := (x, length);
        }
      }
      if shortest.0 !in nodes {
        return Failure(NoCandidate);
      }
      nodes := RemoveAt(nodes, IndexOf(nodes, shortest.0));
      if (currentNode, shortest.0) !in sp.route {
        return Failure(NoPath(currentNode, shortest.0));
      }
      var add: seq<Node> := sp.route[(currentNode, shortest.0)];
      add := add[1..];
      path := path + add;
      currentNode := shortest.0;
    }
    return Success(path);
  }

  /** The first n stops of xs have a distance from current. */
  ghost predicate Measured(sp: Oracle, current: Node, xs: seq<Node>, n: nat)
    requires n <= |xs|
  {
    forall j | 0 <= j < n :: (current, xs[j]) in sp.length
  }

  ghost function Dist(sp: Oracle, u: Node, v: Node): int
    requires (u, v) in sp.length
  {
    sp.length[(u, v)]
  }

  /** Among the first n stops of xs, stop k is the first at the least distance from current. */
  ghost predicate IsFirstNearest(sp: Oracle, current: Node, xs: seq<Node>, n: nat, k: nat)
    requires n <= |xs|
  {
    && k < n && Measured(sp, current, xs, n)
    && (forall j | 0 <= j < n :: Dist(sp, current, xs[k]) <= Dist(sp, current, xs[j]))
    && (forall j | 0 <= j < k :: Dist(sp, current, xs[k]) < Dist(sp, current, xs[j]))
  }

  /**
   * `shortest` after scanning the first n stops: the first nearest of them when one is closer
   * than 9999, and the initial ("", 9999) when none is.
   */
  ghost predicate ScanState(sp: Oracle, current: Node, xs: seq<Node>, n: nat, shortest: (Node, int))
    requires n <= |xs|
  {
    Measured(sp, current, xs, n) &&
    if shortest.1 < Unset.1 then
      exists k: nat :: IsFirstNearest(sp, current, xs, n, k) && shortest == (xs[k], Dist(sp, current, xs[k]))
    else
      shortest == Unset && forall j | 0 <= j < n :: Dist(sp, current, xs[j]) >= Unset.1
  }

  lemma ScanStateBound(sp: Oracle, current: Node, xs: seq<Node>, n: nat, shortest: (Node, int))
    requires n <= |xs| && ScanState(sp, current, xs, n, shortest)
    ensures shortest.1 <= Unset.1
    ensures forall j | 0 <= j < n :: shortest.1 <= Dist(sp, current, xs[j])
  {
    if shortest.1 < Unset.1 {
      var k: nat :| IsFirstNearest(sp, current, xs, n, k) && shortest == (xs[k], Dist(sp, current, xs[k]));
    }
  }

  lemma ScanStep(sp: Oracle, current: Node, xs: seq<Node>, i: nat, shortest: (Node, int))
    requires i < |xs| && ScanState(sp, current, xs, i, shortest) && (current, xs[i]) in sp.length
    ensures var length := sp.length[(current, xs[i])];
      ScanState(sp, current, xs, i + 1, if length < shortest.1 then (xs[i], length) else shortest)
  {
    var length := sp.length[(current, xs[i])];
    ScanStateBound(sp, current, xs, i, shortest);
    if length < shortest.1 {
      assert IsFirstNearest(sp, current, xs, i + 1, i);
    } else if shortest.1 < Unset.1 {
      var k: nat :| IsFirstNearest(sp, current, xs, i, k) && shortest == (xs[k], Dist(sp, current, xs[k]));
      assert IsFirstNearest(sp, current, xs, i + 1, k);
    }
  }

  /** The scan fails at the first stop without a distance, and otherwise ends in ScanState. */
  lemma {:induction false} ScanFromSpec(sp: Oracle, current: Node, xs: seq<Node>, i: nat, shortest: (Node, int))
    requires i <= |xs| && ScanState(sp, current, xs, i, shortest)
    ensures ScanFrom(sp, current, xs, i, shortest).Success? <==> Measured(sp, current, xs, |xs|)
    ensures ScanFrom(sp, current, xs, i, shortest).Success? ==>
              ScanState(sp, current, xs, |xs|, ScanFrom(sp, current, xs, i, shortest).value)
    ensures ScanFrom(sp, current, xs, i, shortest).Failure? ==>
              exists j :: i <= j < |xs| && (current, xs[j]) !in sp.length && Measured(sp, current, xs, j)
                && ScanFrom(sp, current, xs, i, shortest).error == NoPath(current, xs[j])
    decreases |xs| - i
  {
    if i < |xs| && (current, xs[i]) in sp.length {
      var length := sp.length[(current, xs[i])];
      ScanStep(sp, current, xs, i, shortest);
      ScanFromSpec(sp, current, xs, i + 1, if length < shortest.1 then (xs[i], length) else shortest);
    }
  }

  /**
   * The inner loop of determineOptimalPath: it fails at the first stop that has no path from
   * current; otherwise it picks the first stop, in list order, at the least distance when that
   * distance is below 9999 (a tie keeps the earlier stop), and ("", 9999) when none is below.
   */
  lemma NearestSpec(sp: Oracle, current: Node, xs: seq<Node>)
    ensures Nearest(sp, current, xs).Success? <==> Measured(sp, current, xs, |xs|)
    ensures Nearest(sp, current, xs).Failure? ==>
              exists j :: 0 <= j < |xs| && (current, xs[j]) !in sp.length && Measured(sp, current, xs, j)
                && Nearest(sp, current, xs).error == NoPath(current, xs[j])
    ensures Nearest(sp, current, xs).Success? && Nearest(sp, current, xs).value.1 < Unset.1 ==>
              exists k: nat :: IsFirstNearest(sp, current, xs, |xs|, k)
                && Nearest(sp, current, xs).value == (xs[k], Dist(sp, current, xs[k]))
    ensures Nearest(sp, current, xs).Success? && Nearest(sp, current, xs).value.1 >= Unset.1 ==>
              Nearest(sp, current, xs).value == Unset
              && forall j | 0 <= j < |xs| :: Dist(sp, current, xs[j]) >= Unset.1
  {
    ScanFromSpec(sp, current, xs, 0, Unset);
  }

  /** The order in which determineOptimalPath visits the stops nodes, starting at current. */
  function VisitOrder(sp: Oracle, current: Node, nodes: seq<Node>): Result<seq<Node>, RouteError>
    decreases |nodes|
  {
    if nodes == [] then Success([])
    else
      match Nearest(sp, current, nodes)
      case Failure(e) => Failure(e)
      case Success(shortest) =>
        if shortest.0 !in nodes then Failure(NoCandidate)
        else
          match VisitOrder(sp, shortest.0, RemoveAt(nodes, IndexOf(nodes, shortest.0)))
          case Failure(e) => Failure(e)
          case Success(order) => Success([shortest.0] + order)
  }

  /** The order in which determineOptimalPath visits the stops of nodeList. */
  function GreedyOrder(sp: Oracle, startNode: Node, nodeList: seq<Node>): Result<seq<Node>, RouteError>
    requires startNode in nodeList
  {
    match VisitOrder(sp, startNode, RemoveAt(nodeList, IndexOf(nodeList, startNode)))
    case Failure(e) => Failure(e)
    case Success(order) => Success([startNode] + order)
  }

  /** The visiting order is a permutation of the stops: one stop leaves the list per iteration. */
  lemma {:induction false} VisitOrderPermutes(sp: Oracle, current: Node, nodes: seq<Node>)
    ensures VisitOrder(sp, current, nodes).Success? ==> multiset(VisitOrder(sp, current, nodes).value) == multiset(nodes)
    decreases |nodes|
  {
    if nodes != [] && Nearest(sp, current, nodes).Success? {
      var b := Nearest(sp, current, nodes).value.0;
      if b in nodes {
        var i := IndexOf(nodes, b);
        VisitOrderPermutes(sp, b, RemoveAt(nodes, i));
      }
    }
  }

  /**
   * The greedy order starts at startNode and is a permutation of nodeList, so the while loop
   * runs |nodeList| - 1 times and every stop is visited.
   */
  lemma GreedyOrderPermutes(sp: Oracle, startNode: Node, nodeList: seq<Node>)
    requires startNode in nodeList && GreedyOrder(sp, startNode, nodeList).Success?
    ensures var order := GreedyOrder(sp, startNode, nodeList).value;
      |order| == |nodeList| && order[0] == startNode && multiset(order) == multiset(nodeList)
  {
    var i := IndexOf(nodeList, startNode);
    VisitOrderPermutes(sp, startNode, RemoveAt(nodeList, i));
    assert multiset{startNode} + (multiset(nodeList) - multiset{startNode}) == multiset(nodeList);
  }

  /**
   * One iteration of determineOptimalPath: every remaining stop had a distance, and the stop
   * visited next is the first nearest one when it is closer than 9999; otherwise it is "" and
   * the stops include "". The rest of the order continues from there with that stop removed.
   */
  lemma GreedyChoice(sp: Oracle, current: Node, nodes: seq<Node>)
    requires nodes != [] && VisitOrder(sp, current, nodes).Success?
    ensures Measured(sp, current, nodes, |nodes|)
    ensures var order := VisitOrder(sp, current, nodes).value;
      |order| > 0 &&
      ((exists k: nat :: IsFirstNearest(sp, current, nodes, |nodes|, k) && Dist(sp, current, nodes[k]) < Unset.1
          && order[0] == nodes[k] && VisitOrder(sp, nodes[k], RemoveAt(nodes, k)) == Success(order[1..]))
       || (order[0] == Unset.0 && Unset.0 in nodes
          && (forall j | 0 <= j < |nodes| :: Dist(sp, current, nodes[j]) >= Unset.1)
          && VisitOrder(sp, Unset.0, RemoveAt(nodes, IndexOf(nodes, Unset.0))) == Success(order[1..])))
  {
    NearestSpec(sp, current, nodes);
    var shortest := Nearest(sp, current, nodes).value;
    if shortest.1 < Unset.1 {
      var k: nat :| IsFirstNearest(sp, current, nodes, |nodes|, k) && shortest == (nodes[k], Dist(sp, current, nodes[k]));
      IndexOfUnique(nodes, k);
    }
  }

  /**
   * The 9999 sentinel: when every remaining stop is at distance 9999 or more and none of them is
   * "", nodes.index("") raises and determineOptimalPath fails.
   */
  lemma NoStopBelowUnsetFails(sp: Oracle, current: Node, nodes: seq<Node>, path: seq<Node>)
    requires nodes != [] && Measured(sp, current, nodes, |nodes|) && Unset.0 !in nodes
    requires forall j | 0 <= j < |nodes| :: Dist(sp, current, nodes[j]) >= Unset.1
    ensures GreedyFrom(sp, current, nodes, path) == Failure(NoCandidate)
  {
    NearestSpec(sp, current, nodes);
  }

  /** Every stop of xs has a path to every stop of xs, shorter than 9999. */
  ghost predicate AllNear(sp: Oracle, xs: seq<Node>) {
    forall x, y | x in xs && y in xs :: (x, y) in sp.route && (x, y) in sp.length && sp.length[(x, y)] < Unset.1
  }

  /** From a stop, with the remaining stops all near each other and near it, the loop succeeds. */
  lemma {:induction false} GreedyFromSucceeds(sp: Oracle, current: Node, nodes: seq<Node>, path: seq<Node>, stops: seq<Node>)
    requires AllNear(sp, stops) && current in stops && forall x | x in nodes :: x in stops
    ensures GreedyFrom(sp, current, nodes, path).Success?
    decreases |nodes|
  {
    if nodes != [] {
      NearestSpec(sp, current, nodes);
      assert Measured(sp, current, nodes, |nodes|);
      assert Dist(sp, current, nodes[0]) < Unset.1;
      var shortest := Nearest(sp, current, nodes).value;
      var k: nat :| IsFirstNearest(sp, current, nodes, |nodes|, k) && shortest == (nodes[k], Dist(sp, current, nodes[k]));
      var rest := RemoveAt(nodes, IndexOf(nodes, shortest.0));
      forall x | x in rest ensures x in stops {
        assert x in multiset(rest);
      }
      GreedyFromSucceeds(sp, shortest.0, rest, path + sp.route[(current, shortest.0)][1..], stops);
    }
  }

  /**
   * determineOptimalPath succeeds when every stop has a path to every stop shorter than 9999:
   * the sentinel is then never chosen, and every query it makes is answered.
   */
  lemma GreedyPathSucceeds(sp: Oracle, startNode: Node, nodeList: seq<Node>)
    requires AllNear(sp, nodeList)
    ensures GreedyPath(sp, startNode, nodeList).Success?
  {
    if startNode in nodeList {
      var rest := RemoveAt(nodeList, IndexOf(nodeList, startNode));
      forall x | x in rest ensures x in nodeList {
        assert x in multiset(rest);
      }
      GreedyFromSucceeds(sp, startNode, rest, [startNode], nodeList);
    }
  }

  /** The path built so far is a prefix of the result. */
  lemma {:induction false} GreedyFromExtends(sp: Oracle, current: Node, nodes: seq<Node>, path: seq<Node>)
    ensures GreedyFrom(sp, current, nodes, path).Success? ==> path <= GreedyFrom(sp, current, nodes, path).value
    decreases |nodes|
  {
    if nodes != [] && Nearest(sp, current, nodes).Success? {
      var b := Nearest(sp, current, nodes).value.0;
      if b in nodes && (current, b) in sp.route {
        var path' := path + sp.route[(current, b)][1..];
        GreedyFromExtends(sp, b, RemoveAt(nodes, IndexOf(nodes, b)), path');
      }
    }
  }

  /**
   * determineOptimalPath returns [] exactly when startNode is not a stop; otherwise its result
   * starts at startNode.
   */
  lemma GreedyPathStart(sp: Oracle, startNode: Node, nodeList: seq<Node>)
    ensures GreedyPath(sp, startNode, nodeList) == Success([]) <==> startNode !in nodeList
    ensures startNode in nodeList && GreedyPath(sp, startNode, nodeList).Success? ==>
              |GreedyPath(sp, startNode, nodeList).value| > 0 && GreedyPath(sp, startNode, nodeList).value[0] == startNode
  {
    if startNode in nodeList {
      GreedyFromExtends(sp, startNode, RemoveAt(nodeList, IndexOf(nodeList, startNode)), [startNode]);
    }
  }

  /** Following the greedy order leg by leg is exactly what the greedy loop builds. */
  lemma {:induction false} GreedyFromStitchesOrder(g: Graph, sp: Oracle, current: Node, nodes: seq<Node>, path: seq<Node>)
    requires IsShortestPathOracle(g, sp)
    ensures GreedyFrom(sp, current, nodes, path) ==
              match VisitOrder(sp, current, nodes)
              case Failure(e) => Failure(e)
              case Success(order) => StitchFrom(sp, current, order, path)
    decreases |nodes|
  {
    if nodes != [] && Nearest(sp, current, nodes).Success? {
      var b := Nearest(sp, current, nodes).value.0;
      if b in nodes {
        NearestSpec(sp, current, nodes);
        var i := IndexOf(nodes, b);
        assert (current, nodes[i]) in sp.length;
        var path' := path + sp.route[(current, b)][1..];
        GreedyFromStitchesOrder(g, sp, b, RemoveAt(nodes, i), path');
        if VisitOrder(sp, b, RemoveAt(nodes, i)).Success? {
          var order := VisitOrder(sp, b, RemoveAt(nodes, i)).value;
          assert ([b] + order)[0] == b && ([b] + order)[1..] == order;
        }
      }
    }
  }

  /** determineOptimalPath is determinePath applied to the greedy visiting order. */
  lemma GreedyPathIsStitchedOrder(g: Graph, sp: Oracle, startNode: Node, nodeList: seq<Node>)
    requires IsShortestPathOracle(g, sp) && startNode in nodeList
    ensures GreedyPath(sp, startNode, nodeList) ==
              match GreedyOrder(sp, startNode, nodeList)
              case Failure(e) => Failure(e)
              case Success(order) => Stitched(sp, order)
  {
    var rest := RemoveAt(nodeList, IndexOf(nodeList, startNode));
    GreedyFromStitchesOrder(g, sp, startNode, rest, [startNode]);
    if VisitOrder(sp, startNode, rest).Success? {
      var order := VisitOrder(sp, startNode, rest).value;
      assert ([startNode] + order)[0] == startNode && ([startNode] + order)[1..] == order;
    }
  }

  /**
   * determineOptimalPath on a shortest-path oracle, when startNode is a stop and the routing
   * succeeds: the path starts at startNode, passes every stop, is a walk of the graph, and its
   * length is the sum of the shortest distances between consecutive stops of the visiting
   * order, which is a permutation of the stops starting at startNode.
   */
  lemma GreedyPathWalk(g: Graph, sp: Oracle, startNode: Node, nodeList: seq<Node>)
    requires IsShortestPathOracle(g, sp) && startNode in nodeList
    requires GreedyPath(sp, startNode, nodeList).Success?
    ensures GreedyOrder(sp, startNode, nodeList).Success?
    ensures var p := GreedyPath(sp, startNode, nodeList).value;
      var order := GreedyOrder(sp, startNode, nodeList).value;
      && multiset(order) == multiset(nodeList) && order[0] == startNode
      && |p| > 0 && p[0] == startNode
      && (forall x | x in nodeList :: x in p)
      && LegsAnswered(sp, order) && ConsecutiveEdges(g, p) && WalkWeight(g, p) == LegsLength(sp, order)
  {
    GreedyPathIsStitchedOrder(g, sp, startNode, nodeList);
    GreedyOrderPermutes(sp, startNode, nodeList);
    var order := GreedyOrder(sp, startNode, nodeList).value;
    StitchedWalk(g, sp, order);
    forall x | x in nodeList ensures x in order {
      assert x in multiset(nodeList);
    }
  }

  /** On positive weights the greedy path never repeats a node in two consecutive places. */
  lemma GreedyPathNoStutter(g: Graph, sp: Oracle, startNode: Node, nodeList: seq<Node>)
    requires IsShortestPathOracle(g, sp) && PositiveWeights(g)
    requires GreedyPath(sp, startNode, nodeList).Success?
    ensures NoStutter(GreedyPath(sp, startNode, nodeList).value)
  {
    if startNode in nodeList {
      GreedyPathIsStitchedOrder(g, sp, startNode, nodeList);
      StitchedNoStutter(g, sp, GreedyOrder(sp, startNode, nodeList).value);
    }
  }
}
