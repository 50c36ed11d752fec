# Campus building graph: route building, verified

This project models the route-building core of `main.py`, a script that plans walks between
campus buildings. The buildings and the walking distances between them form an undirected
weighted networkx graph. The model covers:

- reading the edge list (`generateRelationships`): lines `a:b:weight`; lines starting with a
  newline, a space or `/` are skipped;
- building the graph from that list (`add_edges_from`, where the last duplicate pair wins);
- `determinePath`, which joins a fixed waypoint order into one path of shortest sub-paths;
- `determineOptimalPath`, the greedy nearest-neighbour router;
- `getPathLength`, the sum of edge weights along a path;
- `generatePathGraph`, the directed graph of a path's consecutive pairs.

Modules, in dependency order:

- `Wrappers`: `Option` and `Result`. Every Python exception the modelled code raises is a
  `Failure` value that says which one; `NoPath` covers every exception a networkx query
  raises (the digit limit of `int()` under "## Left out" is not modelled).
- `Graphs`: nodes are strings. The graph maps unordered pairs `{a, b}` to integer weights.
  This module also holds walks, their weight `WalkWeight`, and lemmas about joining and
  reversing walks.
- `ShortestPath`: the two networkx queries `shortest_path` and `shortest_path_length`. They
  are modelled as an `Oracle`, a table of answers per ordered pair, with the contract
  `IsShortestPathOracle`:
  - each answer is a walk from source to target, and its weight is the reported distance;
  - `u == v` gives `[u]`;
  - every pair joined by some walk is answered, with a distance no larger than that walk's
    weight.

  A pair missing from the table is a query that raises (an unknown node, or no path).
- `PathMetrics`: `getPathLength` and `generatePathGraph`.
- `Routing`: `determinePath` and `determineOptimalPath`.
- `Relationships`: the line parser. This includes the string operations it relies on:
  `rstrip("\n")`, `split(":")`, `int()` and, for the round trip, `str()`.

Each loop of the source is a method with a `while` or `for` loop. Its contract ties the
result to a specification function that follows the loop step by step: `Stitched`,
`GreedyPath`, `WalkWeight`, `PairsOf` and `ParseRelationships`. Lemmas then state what
those functions promise.

Three behaviours are modelled as written:

- `determineOptimalPath` starts each search from `("", 9999)`. When no remaining stop is
  closer than 9999, the empty name is chosen, and `nodes.index("")` raises unless `""` is
  itself a stop.
- `determinePath` on an empty list raises at `nodes[0]`.
- A start node that is not a stop gives `[]`.

A waypoint listed twice in a row adds no node to the path, because the route from a node to
itself is `[u]` and its first node is dropped. So the waypoints appear in the path in order,
but not always at distinct positions. `StitchedPrefix` states exactly this.

## Model

| member | source | states |
|---|---|---|
| Graphs.EmptyGraph | main.py:153 | `nx.Graph()` has no nodes and no edges |
| Graphs.AddEdgesDomain | main.py:157 | `add_edges_from` adds exactly the endpoints and unordered pairs of the triples, and keeps every edge inside the node set |
| Graphs.AddEdgesKeepsOthers | main.py:157 | a pair that no added triple names keeps its weight |
| Graphs.AddEdgesLastWins | main.py:157 | for a repeated pair, the weight of its last triple is kept |
| Graphs.BuildGraphSpec | main.py:153-157 | the graph built from the parsed edge list: its nodes are the endpoints, its edges the named pairs, and each pair carries the weight of its last occurrence |
| Graphs.WalkWeightJoin | main.py:128-136 | path length is additive: two paths joined at a shared boundary node, kept once, weigh the sum of their weights |
| Graphs.WalkWeightReverse | main.py:128-136 | on the undirected graph, a path read backwards has the same length |
| ShortestPath.OracleWeightsNonNegative | main.py:92 | a table meeting `IsShortestPathOracle` exists only on graphs without negative edges: an edge and back is a walk from a node to itself, which cannot beat the one-node route |
| ShortestPath.LengthSymmetric | main.py:92 | shortest distances on the undirected graph are symmetric |
| ShortestPath.DropStutter | main.py:97 | with positive weights, removing a repeated consecutive node (a self-loop step) makes a walk strictly lighter |
| ShortestPath.RouteNoStutter | main.py:97 | with positive weights, a shortest route never repeats a node in two consecutive places |
| PathMetrics.GetPathLength | main.py:128-136 | succeeds exactly when every consecutive pair is an edge, and then returns the summed weight (0 for fewer than two nodes); otherwise reports the first pair that is not an edge (KeyError) |
| PathMetrics.AddArcsSpec | main.py:148 | `DiGraph.add_edges_from` yields the old arcs plus the triples' pairs (a repeated pair collapses to one arc), each weighted by its undirected edge, and the triples' endpoints as nodes |
| PathMetrics.GeneratePathGraph | main.py:138-150 | succeeds exactly when every consecutive pair is an edge; the arcs are exactly the pairs `(nodes[i], nodes[i+1])`, each with its undirected weight; the nodes are the path's nodes when it has an arc and none otherwise; a failure reports the first missing edge |
| Routing.IndexOf | main.py:85 | `list.index`: the first position holding the value |
| Routing.RemoveAt | main.py:85 | `list.pop(i)`: one element fewer, and the multiset loses exactly that element |
| Routing.DeterminePath | main.py:105-124 | the loop's result is `Stitched`: the first waypoint, then each shortest leg without its first node |
| Routing.StitchedOutcome | main.py:110-124 | `determinePath` fails on an empty list (IndexError at `nodes[0]`); otherwise it succeeds exactly when every consecutive pair of waypoints has a path, and fails at the first pair without one |
| Routing.StitchFromAppend | main.py:117-122 | stitching waypoints `a + b` is stitching `a`, then continuing with `b` from where `a` ends |
| Routing.StitchedPrefix | main.py:117-122 | the waypoints appear in order: for each k, the path through the first k waypoints is a prefix of the result and ends at waypoint k-1 |
| Routing.StitchedWalk | main.py:105-124 | on a shortest-path oracle, the result starts at the first waypoint, ends at the last, contains every waypoint, is a walk of the graph, and its length is the sum of the shortest distances between consecutive waypoints |
| Routing.StitchedNoStutter | main.py:119 | with positive weights, dropping each leg's first node leaves no node repeated at a boundary |
| Routing.DetermineOptimalPath | main.py:75-103 | the loop's result is `GreedyPath`; `nodeList` is a value and is not changed |
| Routing.ScanFromSpec | main.py:90-94 | the inner scan fails at the first stop with no path; otherwise it ends in the state "first nearest stop so far below 9999, or still the initial value" |
| Routing.NearestSpec | main.py:90-94 | the chosen stop is the first one, in list order, at the least distance (a strict `<`, so ties keep the earliest) when that distance is below 9999; otherwise the result stays `("", 9999)`; a missing path fails at the first such stop |
| Routing.VisitOrderPermutes | main.py:89-95 | each iteration removes exactly one stop, so the visiting order is a permutation of the remaining stops |
| Routing.GreedyOrderPermutes | main.py:83-95 | the visiting order begins with `startNode`, has `len(nodeList)` entries and is a permutation of `nodeList`, so the `while` loop runs `len(nodeList) - 1` times |
| Routing.GreedyChoice | main.py:89-95 | each iteration visits the first nearest remaining stop (when closer than 9999) or the empty name (when none is), then continues with that stop removed |
| Routing.GreedyPathSucceeds | main.py:75-103 | `determineOptimalPath` succeeds whenever every stop has a path to every stop shorter than 9999: every query it makes is answered and the sentinel is never chosen |
| Routing.NoStopBelowUnsetFails | main.py:90-95 | when no remaining stop is closer than 9999 and none is named `""`, `nodes.index("")` raises |
| Routing.GreedyFromExtends | main.py:87-101 | the path built so far is a prefix of the final path |
| Routing.GreedyPathStart | main.py:79-87 | `determineOptimalPath` returns `[]` exactly when `startNode` is not a stop; otherwise a successful result starts at `startNode` |
| Routing.GreedyPathIsStitchedOrder | main.py:75-124 | `determineOptimalPath` equals `determinePath` applied to the greedy visiting order |
| Routing.GreedyPathWalk | main.py:75-103 | on a shortest-path oracle, a successful result starts at `startNode`, contains every stop, is a walk of the graph, and has as length the sum of shortest distances along the visiting order, a permutation of the stops starting at `startNode` |
| Routing.GreedyPathNoStutter | main.py:97-100 | with positive weights, the greedy path never repeats a node in two consecutive places |
| Relationships.RStripNewlines | main.py:22 | `rstrip("\n")` returns the longest prefix that does not end in a newline; only newlines are removed |
| Relationships.Split | main.py:22 | `split(":")` gives at least one field, and no field contains `':'` |
| Relationships.SplitJoin | main.py:22 | splitting loses nothing: joining the fields with `':'` gives back the line |
| Relationships.JoinSplit | main.py:22 | fields without `':'` are recovered by splitting their join |
| Relationships.LStrip | main.py:23 | the leading-whitespace strip inside `int()`: the longest suffix that does not start with whitespace |
| Relationships.RStrip | main.py:23 | the trailing-whitespace strip inside `int()`: the longest prefix that does not end with whitespace |
| Relationships.NatToDigits | main.py:23 | decimal digits without a leading zero |
| Relationships.NatToDigitsValue | main.py:23 | the digits of n read back as n |
| Relationships.ParseIntString | main.py:23 | `int(str(n)) == n`, also when whitespace follows the digits |
| Relationships.ParseLineShape | main.py:19-23 | an empty line raises IndexError (`x[0]`) and only it; a line is skipped exactly when its first character is a newline, a space or `/`; any other line raises IndexError exactly when its text without trailing newlines has fewer than two `':'`, and ValueError exactly when its third field is not an integer (without the digit limit noted under "## Left out") |
| Relationships.ParseLineEdge | main.py:19-23 | a line that is not skipped gives the edge `(a, b, w)` exactly when its text without trailing newlines is `a:b:t` possibly followed by more `':'` fields, with no `':'` in `a`, `b`, `t` and `int(t) == w`; so surrounding whitespace, leading zeros and a `+` sign are accepted, extra fields are ignored and the last line may lack its newline |
| Relationships.GenerateRelationships | main.py:18-23 | the loop's result is `ParseRelationships` of the lines |
| Relationships.ParseFromSpec | main.py:18-23 | the loop from line i fails exactly at the first bad line, reporting it and its kind; otherwise it appends the remaining edges in order |
| Relationships.ParseRelationshipsSpec | main.py:18-23 | `generateRelationships` succeeds exactly when no line is bad; it then returns the edges of the lines not skipped, in file order (`Kept`); otherwise it reports the first bad line |
| Relationships.KeptOfAppend | main.py:18-23 | the edges of two consecutive blocks of lines are the edges of each, in order |
| Relationships.SkippedLinesIgnored | main.py:19-20 | inserting blank, space-led or `/` comment lines anywhere does not change the edges read |
| Relationships.ParseFormatLine | main.py:19-23 | a line `a:b:str(w)\n`, with no `':'` and no line break (`'\n'`, `'\r'`) in the names and a first name that does not mark a skipped line, is read back as `(a, b, w)` |
| Relationships.ParseFormatLines | main.py:18-23 | reading an edge list written from such relationships (names without `':'` or line breaks), one line each, returns exactly those relationships, in order |

## Left out

- File reading in `generateRelationships` (`open`/`readlines`, main.py:15-16) is I/O. The model takes the list of lines `readlines` returned.
- `getCentralities` (main.py:28-54) only wraps networkx centrality functions, which return floats.
- `saveCentralities` (main.py:56-73) only writes a spreadsheet.
- `nx.approximation.traveling_salesman_problem` (main.py:173) is a library call (Christofides). Its result feeds only `getPathLength` and `generatePathGraph`, which are modelled for any node list.
- The networkx shortest-path algorithms (main.py:92, 97, 118) are not reimplemented. They are the `Oracle` together with the contract `IsShortestPathOracle`. The oracle does not distinguish networkx's two exceptions (unknown node, no path). On a graph with a negative edge, which `int()` accepts, networkx's Dijkstra may return answers that are not minimal, or raise a third exception (`ValueError("Contradictory paths found: negative weights?")`), which the model reads as a missing pair (`NoPath`). No table meets `IsShortestPathOracle` there, so the oracle lemmas say nothing about such graphs; the equalities `DeterminePath == Stitched` and `DetermineOptimalPath == GreedyPath`, and the lemmas that do not require `IsShortestPathOracle`, hold for any table of answers, non-minimal ones included.
- Layout, drawing, printing and the rest of `main` (main.py:159-197) are output only. The graph construction at main.py:153-157 is modelled as `BuildGraph`.
- `copy.deepcopy` of the node list (main.py:83, 110) is not a separate step: sequences are values, so `nodeList` cannot be changed by the routers.
- Floating-point weights and distances are not modelled: `int()` makes every weight an integer.
- `int()` is modelled on ASCII input only: the whitespace it strips is space, tab, newline, vertical tab, form feed and carriage return, as in CPython's `PyLong_FromString`. Underscores between digits, non-ASCII digits and non-ASCII whitespace are not accepted.
- ParseInt: does not model the limit on integer string conversion of CPython 3.11 and later (and of the 3.7.14, 3.8.14, 3.9.14 and 3.10.7 backports). There `int()` raises ValueError on more than 4300 digits, and so does `str(n)` for such an `n`. The limit depends on the interpreter version and its configuration (`sys.set_int_max_str_digits`, `PYTHONINTMAXSTRDIGITS`, where 0 disables it), so the model follows the unlimited conversion. The same holds for `ParseIntString`, `ParseLineShape`, `ParseLineEdge`, `ParseFormatLine` and `ParseFormatLines`, whose claims about `int()` and `str()` assume the unlimited conversion: a weight of more than 4300 digits is read by the model where such an interpreter raises.
- Weights are unbounded integers (but see `ParseInt` above on the digit limit), and the parser and `getPathLength`/`generatePathGraph` lemmas hold for any sign, as `int()` allows. The oracle lemmas do not cover graphs with a negative edge: `IsShortestPathOracle` cannot hold there (`OracleWeightsNonNegative`), so every lemma that requires `IsShortestPathOracle` in effect assumes non-negative weights. The no-repeat lemmas (`RouteNoStutter`, `StitchedNoStutter`, `GreedyPathNoStutter`) also need positive weights.
