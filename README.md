# Campus paths: graph building, breadth-first search and path distance

This project models the core of a small campus-navigation program (`main.py`).
Buildings are named nodes of an undirected, weighted graph, held as nested
dictionaries: node → (neighbour → cost). The program does three things:

- `build_graph` turns a list of `(node1, node2, cost)` connections into that
  graph. It writes every connection in both directions, and a later connection
  between the same two buildings overwrites the earlier cost.
- `find_path_BFS` searches breadth-first from `start` to `end`. It keeps a FIFO
  queue of trails, each a node with the path that reached it, and a set of
  visited nodes. A node is marked visited when it is enqueued. The search
  returns the path of the first trail whose node is `end`, or nothing when the
  queue runs empty.
- `get_path_distance` sums the edge costs between consecutive nodes of a path.

The Dafny model has five modules:

- `Graphs` (`graphs.dfy`) holds the shared vocabulary:
  - the graph type;
  - paths, simple paths and the symmetric and closed graph properties;
  - `Within(g, s, k)`, the set of nodes reachable from `s` in at most `k` hops,
    with lemmas that tie it to the existence of short paths.
- `GraphBuilder` (`build_graph.dfy`) has `BuildGraph`, a method with the
  source's loop. It is proved against `Describes`, a pointwise specification of
  the graph a connection list defines. The lemmas derive symmetry, closedness,
  last-write-wins, the origin of every edge and uniqueness from that
  specification.
- `PathSearch` (`find_path.dfy`) has `FindPathBfs`, a method with the source's
  two loops: the queue loop and the neighbour loop. Its loop invariants say:
  - the queue is layered by hop count;
  - each queued path is a shortest path to its node;
  - everything within the current level has been visited.

  The method's contract: the result is a shortest, and therefore simple, path
  from `start` to `end`, or `None` exactly when no path exists.
- `PathDistance` (`path_distance.dfy`) has `GetPathDistance`, a method with the
  source's loop. It is proved against the recursive `PathWeight`. A consecutive
  pair that is not an edge makes the source's dictionary lookup raise; here it
  is the result `MissingEdge(i)`, where `i` indexes the first such pair.
- `Scenarios` (`scenarios.dfy`) runs two small graphs through the three
  operations:
  - in a triangle, the search returns the one-hop edge even though the two-hop
    route costs less;
  - a repeated connection keeps its last cost in both directions.

## Model

| member | source | states |
|---|---|---|
| GraphBuilder.BuildGraph | main.py:3-14 | the result describes the connections: its keys are exactly the named endpoints, `b` neighbours `a` exactly when some connection joins them in either order, and the cost is that of the last such connection; an empty list gives the empty graph |
| GraphBuilder.WriteBothWays | main.py:5-12 | one loop iteration (add the missing keys, then write the cost both ways) turns a graph describing `cs[..i]` into one describing `cs[..i + 1]` |
| GraphBuilder.AddKeys | main.py:6-9 | adding the missing endpoints as keys with empty rows leaves every existing row unchanged and makes both endpoints keys |
| GraphBuilder.WriteRows | main.py:11-12 | once both endpoints are keys, writing the cost both ways turns a graph describing `cs` into one describing `cs + [c]` |
| GraphBuilder.WriteBothWaysAt | main.py:11-12 | the two writes of one connection, seen from a single row and key: the cost becomes the connection's when it joins the pair, and is unchanged otherwise |
| GraphBuilder.InsertConnection | main.py:5-12 | one more connection adds its two endpoints and becomes the last cost of the pair it joins, leaving every other pair unchanged |
| GraphBuilder.LastCostNamesEndpoints | main.py:6-9 | a pair with a cost is made of named endpoints, so every neighbour is also a key |
| GraphBuilder.LastCostSymmetric | main.py:11-12 | the last cost between `a` and `b` is the last cost between `b` and `a` |
| GraphBuilder.BuiltGraphIsUndirected | main.py:3-14 | the built graph is symmetric, with equal cost both ways, and closed: every neighbour is a key |
| GraphBuilder.LastCostOfLastJoin | main.py:11-12 | when no later connection joins the same pair, a connection's cost is the pair's last cost |
| GraphBuilder.LastWriteWins | main.py:11-12 | the last connection between two nodes fixes the cost in both directions, whatever earlier connections wrote; self-loops included |
| GraphBuilder.LastCostHasJoin | main.py:5-12 | a pair's last cost comes from a connection that joins it, and no later connection joins it |
| GraphBuilder.EdgeFromLastConnection | main.py:5-12 | every edge of the built graph comes from the last connection between its two ends, and carries that connection's cost |
| GraphBuilder.DescribedGraphIsUnique | main.py:3-14 | the connections determine the graph: two graphs describing the same list are equal |
| Graphs.WithinMonotonic | main.py:24-34 | the set of nodes reachable within `k` hops grows with `k` |
| Graphs.PathEndWithin | main.py:24-34 | the end of a path of `n` nodes is reachable from its start within `n - 1` hops |
| Graphs.WithinHasPath | main.py:24-34 | every node reachable within `k` hops ends a path from the start of at most `k + 1` nodes |
| Graphs.WithinIsReachability | main.py:24-34 | a node is within `k` hops exactly when a path of at most `k + 1` nodes reaches it, in both directions |
| Graphs.ExtendPath | main.py:33 | a path followed by an edge out of its last node is a path from the same start to the new node |
| Graphs.OutsideWithinIsFar | main.py:24-34 | a path to a node that is not within `k` hops of its start has more than `k + 1` nodes |
| Graphs.ClosedSetHoldsPath | main.py:36 | a path that starts in a set closed under edges stays inside it |
| Graphs.CutLoop | main.py:31-34 | removing the loop between two visits of a node leaves a strictly shorter path between the same ends |
| Graphs.ShortestIsSimple | main.py:31-34 | a path with the fewest hops repeats no node |
| PathSearch.FindPathBfs | main.py:17-36 | `None` when `start` or `end` is not a node, and `None` only when no path joins them; otherwise a path from `start` to `end` with the fewest hops, simple, and `[start]` when the two are the same node; the search terminates |
| PathSearch.SearchStarts | main.py:21-22 | the queue holding only `[start]`, with only `start` visited, satisfies the search invariant |
| PathSearch.QueueAppend | main.py:31-34 | appending a sound trail one level deeper, for a node not yet queued, keeps the queue sound, layered and free of repeated nodes |
| PathSearch.AppendTrail | main.py:34 | appending a sound trail keeps every queued trail sound |
| PathSearch.AppendLayered | main.py:34 | appending a trail one level deeper keeps the queue layered |
| PathSearch.AppendDistinct | main.py:31-34 | appending a trail for a node not yet queued keeps queued nodes distinct and adds exactly that node |
| PathSearch.QueuePop | main.py:25 | the front trail is sound and at the front level; the rest of the queue stays sound, layered and duplicate-free |
| PathSearch.PopTrail | main.py:25 | the front trail and the rest of the queue are sound |
| PathSearch.PopLayered | main.py:25 | the front trail is at the front level and the rest stays layered; the level advances only when every queued trail is one level deeper |
| PathSearch.PopDistinct | main.py:25 | the rest of the queue is duplicate-free and no longer holds the front node |
| PathSearch.Found | main.py:27-28 | the trail that reaches `end` carries a shortest, simple path, and `[start]` when `start == end` |
| PathSearch.TrailIsShortest | main.py:27-28 | a sound trail's path reaches its node in the fewest hops |
| PathSearch.NextLevel | main.py:24-34 | once only deeper trails are queued, every node one hop further has been visited |
| PathSearch.Dequeue | main.py:25-30 | dequeuing a trail that does not reach `end` establishes the neighbour-loop invariant over all its neighbours |
| PathSearch.ExtendTrail | main.py:32-34 | a neighbour outside the current level is reached by the current path plus that neighbour, and by no shorter path |
| PathSearch.EnqueueNeighbour | main.py:30-34 | visiting and enqueuing an unvisited neighbour keeps the neighbour-loop invariant |
| PathSearch.FinishExpand | main.py:24-34 | after all neighbours are seen, the search invariant holds with the node dequeued, and the number of nodes still to dequeue drops, so the search ends |
| PathSearch.OneFewerLeft | main.py:24-34 | dequeuing a node not dequeued before leaves one fewer node to dequeue |
| PathSearch.Exhausted | main.py:36 | when the queue runs empty, no path leads from `start` to `end` |
| PathDistance.GetPathDistance | main.py:39-46 | a total exactly when every consecutive pair is an edge, equal to the sum of the edge costs (`PathWeight`), and 0 for paths of at most one node; otherwise the index of the first missing edge, with every pair before it an edge |
| PathDistance.AppendLinked | main.py:41-44 | a path followed by a path that starts where the first ends is a path |
| PathDistance.PathWeightAppend | main.py:41-44 | walking one path and then another from its end costs the sum of the two |
| PathDistance.PathWeightNonNegative | main.py:41-44 | with no negative edge cost, no path costs less than zero |
| PathDistance.ReverseLinked | main.py:41-44 | in a symmetric graph the reverse of a path is a path |
| PathDistance.PathWeightPrepend | main.py:41-44 | one edge walked before a path costs that edge plus the path |
| PathDistance.PathWeightReverse | main.py:39-46 | in a symmetric graph, such as every built graph, the reversed path is a path with the same cost |
| Scenarios.WalkWeights | main.py:41-44 | the weight of a one-edge walk is that edge's cost; the weight of a two-edge walk is the sum of both costs |

## Left out

- `generate_random_campus_paths` (main.py:49-71) and `main` (main.py:74-94) are left out. They draw random buildings and distances and print to the console.
- The order in which a dictionary yields its keys is not modelled. The neighbour loop takes the unvisited neighbours in an arbitrary order. When several shortest paths exist, the model therefore promises some shortest path, not the one that insertion order would pick.
- PathSearch.FindPathBfs: requires the graph to be closed, meaning every neighbour is also a key. If a dequeued node is not a key, the source's lookup raises `KeyError`. Every graph that `build_graph` produces is closed (`GraphBuilder.BuiltGraphIsUndirected`).
- PathDistance.GetPathDistance: where the source raises `KeyError` for a missing node or edge, the model returns `MissingEdge(i)`.
- An empty path has distance 0, because the code's loop runs no step for it. There is no separate invalid-path error, because the code has none.
- A missing `start` or `end` node gives `None`, as in the code. The model has no separate error for an unknown node.
- The integers are unbounded, like Python's, so no overflow is modelled.
- Enumerating all simple paths, the longest path, reachability within a hop bound as a separate query, the graph center and the average edge weight are not part of `main.py`. They are not modelled as operations; `Graphs.Within` captures hop-bounded reachability as a specification only.
