/**
 Breadth-first search for a path between two buildings (main.py,
 `find_path_BFS`). The search keeps a first-in-first-out queue of trails, each
 a node with the path that reached it, and a set of visited nodes seeded with
 the start; a node is marked visited when it is enqueued, so no node is
 enqueued twice. Edge costs play no part: the path found has the fewest hops,
 not the least cost.
 */
module PathSearch {
  import opened Graphs

  /** A queue entry: the node reached and the path from the start that reached it. */
  datatype Trail = Trail(node: Node, path: seq<Node>)

  ghost function QueueNodes(q: seq<Trail>): set<Node>
  {
    set t | t in q :: t.node
  }

  /** No node is queued twice. */
  ghost predicate Distinct(q: seq<Trail>)
  {
    forall i, j :: 0 <= i < j < |q| ==> q[i].node != q[j].node
  }

  /**
   Every queued trail's path goes from `start` to its node, and no path with
   fewer hops reaches that node.
   */
  ghost predicate TrailOk(g: Graph, start: Node, t: Trail)
  {
    && PathFromTo(g, t.path, start, t.node)
    && (|t.path| == 1 || t.node !in Within(g, start, |t.path| - 2))
  }

  /** The queue holds paths of `level` hops followed by paths of `level + 1` hops. */
  ghost predicate Layered(q: seq<Trail>, level: nat)
  {
    && (forall i :: 0 <= i < |q| ==> |q[i].path| == level + 1 || |q[i].path| == level + 2)
    && (forall i, j :: 0 <= i < j < |q| ==> |q[i].path| <= |q[j].path|)
  }

  /** Every queued trail is sound. */
  ghost predicate AllTrailsOk(g: Graph, start: Node, q: seq<Trail>)
  {
    forall i :: 0 <= i < |q| ==> TrailOk(g, start, q[i])
  }

  /** The queue's trails are all sound, layered by hop count, and no node is queued twice. */
  ghost predicate QueueOk(g: Graph, start: Node, q: seq<Trail>, level: nat)
  {
    AllTrailsOk(g, start, q) && Layered(q, level) && Distinct(q)
  }

  /** Appending a trail one hop past the front level and to a node not yet queued. */
  lemma QueueAppend(g: Graph, start: Node, q: seq<Trail>, level: nat, t: Trail)
    requires QueueOk(g, start, q, level)
    requires TrailOk(g, start, t) && |t.path| == level + 2 && t.node !in QueueNodes(q)
    ensures QueueOk(g, start, q + [t], level)
    ensures QueueNodes(q + [t]) == QueueNodes(q) + {t.node}
  {
    AppendTrail(g, start, q, t);
    AppendLayered(q, level, t);
    AppendDistinct(q, t);
  }

  lemma AppendTrail(g: Graph, start: Node, q: seq<Trail>, t: Trail)
    requires AllTrailsOk(g, start, q) && TrailOk(g, start, t)
    ensures AllTrailsOk(g, start, q + [t])
  {
    var q' := q + [t];
    assert forall i :: 0 <= i < |q| ==> q'[i] == q[i];
  }

  lemma AppendLayered(q: seq<Trail>, level: nat, t: Trail)
    requires Layered(q, level) && |t.path| == level + 2
    ensures Layered(q + [t], level)
  {
    var q' := q + [t];
    assert forall i :: 0 <= i < |q| ==> q'[i] == q[i];
  }

  lemma AppendDistinct(q: seq<Trail>, t: Trail)
    requires Distinct(q) && t.node !in QueueNodes(q)
    ensures Distinct(q + [t])
    ensures QueueNodes(q + [t]) == QueueNodes(q) + {t.node}
  {
    var q' := q + [t];
    assert forall i :: 0 <= i < |q| ==> q'[i] == q[i];
    assert forall i :: 0 <= i < |q| ==> q[i].node in QueueNodes(q);
    assert forall x :: x in q' <==> x == t || x in q;
  }

  /** Taking the front trail off the queue. */
  lemma QueuePop(g: Graph, start: Node, q: seq<Trail>, level: nat, level': nat)
    requires QueueOk(g, start, q, level) && q != []
    requires level' == if |q[0].path| == level + 2 then level + 1 else level
    ensures QueueOk(g, start, q[1..], level')
    ensures TrailOk(g, start, q[0]) && |q[0].path| == level' + 1
    ensures level' == level + 1 ==> forall i :: 0 <= i < |q| ==> |q[i].path| == level + 2
    ensures QueueNodes(q) == {q[0].node} + QueueNodes(q[1..])
    ensures q[0].node !in QueueNodes(q[1..])
  {
    PopTrail(g, start, q);
    PopLayered(q, level, level');
    PopDistinct(q);
  }

  lemma PopTrail(g: Graph, start: Node, q: seq<Trail>)
    requires AllTrailsOk(g, start, q) && q != []
    ensures AllTrailsOk(g, start, q[1..]) && TrailOk(g, start, q[0])
  {
    assert forall i :: 0 <= i < |q| - 1 ==> q[1..][i] == q[i + 1];
  }

  lemma PopLayered(q: seq<Trail>, level: nat, level': nat)
    requires Layered(q, level) && q != []
    requires level' == if |q[0].path| == level + 2 then level + 1 else level
    ensures Layered(q[1..], level') && |q[0].path| == level' + 1
    ensures level' == level + 1 ==> forall i :: 0 <= i < |q| ==> |q[i].path| == level + 2
  {
    var rest := q[1..];
    assert forall i :: 0 <= i < |rest| ==> rest[i] == q[i + 1];
    if level' == level + 1 {
      forall i | 0 <= i < |q|
        ensures |q[i].path| == level + 2
      {
        if i > 0 {
          assert |q[0].path| <= |q[i].path|;
        }
      }
    }
  }

  lemma PopDistinct(q: seq<Trail>)
    requires Distinct(q) && q != []
    ensures Distinct(q[1..])
    ensures QueueNodes(q) == {q[0].node} + QueueNodes(q[1..])
    ensures q[0].node !in QueueNodes(q[1..])
  {
    var rest := q[1..];
    assert q == [q[0]] + rest;
    assert forall i :: 0 <= i < |rest| ==> rest[i] == q[i + 1];
    assert forall x :: x in q <==> x == q[0] || x in rest;
  }

  /** Every dequeued node is a node whose neighbours have all been visited. */
  ghost predicate Expanded(g: Graph, done: set<Node>, visited: set<Node>)
  {
    forall u :: u in done ==> u in g && g[u].Keys <= visited
  }

  /**
   The state at the head of the search loop: `done` holds the dequeued nodes,
   `level` the hop count of the front of the queue; everything within `level`
   hops has been visited, and a node is visited exactly when it has been
   dequeued or is queued.
   */
  ghost predicate SearchInv(g: Graph, start: Node, end: Node, trails: seq<Trail>,
                            visited: set<Node>, done: set<Node>, level: nat)
  {
    && visited <= g.Keys && start in visited
    && QueueOk(g, start, trails, level)
    && Within(g, start, level) <= visited
    && Expanded(g, done, visited)
    && visited == done + QueueNodes(trails)
    && end !in done
    && done !! QueueNodes(trails)
  }

  /**
   The state while the neighbours of `current` (dequeued, not `end`) are
   visited; `neighbours` are the ones not yet looked at.
   */
  ghost predicate ExpandInv(g: Graph, start: Node, end: Node, current: Trail, trails: seq<Trail>,
                            visited: set<Node>, done: set<Node>, level: nat, neighbours: set<Node>)
  {
    && current.node in g && current.node != end && current.node !in done
    && neighbours <= g[current.node].Keys
    && g[current.node].Keys - neighbours <= visited
    && TrailOk(g, start, current) && |current.path| == level + 1
    && visited <= g.Keys && start in visited
    && QueueOk(g, start, trails, level)
    && Within(g, start, level) <= visited
    && Expanded(g, done, visited)
    && visited == done + {current.node} + QueueNodes(trails)
    && end !in done
    && done + {current.node} !! QueueNodes(trails)
  }

  /**
   The search. With no path between the two nodes (in particular when either
   is not a node of the graph) the result is `None`; otherwise it is a simple
   path from `start` to `end` with the fewest hops, and `[start]` when the two
   are the same node. The graph must be closed: the search looks up the
   neighbours of every node it dequeues, which fails for a neighbour that is
   not a key.
   */
  method FindPathBfs(g: Graph, start: Node, end: Node) returns (r: Option<seq<Node>>)
    requires Closed(g)
    ensures start !in g || end !in g ==> r == None
    ensures r.None? ==> forall p :: !PathFromTo(g, p, start, end)
    ensures r.Some? ==> Shortest(g, r.value, start, end) && Simple(r.value)
    ensures start == end && start in g ==> r == Some([start])
  {
    if start !in g || end !in g {
      return None;
    }
    var trails := [Trail(start, [start])];
    var visited := {start};
    ghost var done: set<Node> := {};
    ghost var level: nat := 0;
    SearchStarts(g, start, end);
    while trails != []
      invariant SearchInv(g, start, end, trails, visited, done, level)
      decreases |g.Keys - done|
    {
      if trails[0].node == end {
        Found(g, start, end, trails[0]);
        return Some(trails[0].path);
      }
      ghost var level' := if |trails[0].path| == level + 2 then level + 1 else level;
      Dequeue(g, start, end, trails, visited, done, level, level');
      level := level';
      var current := trails[0];
      trails := trails[1..];
      var neighbours := g[current.node].Keys;
      while neighbours != {}
        invariant ExpandInv(g, start, end, current, trails, visited, done, level, neighbours)
        decreases neighbours
      {
        var neighbour :| neighbour in neighbours;
        if neighbour !in visited {
          EnqueueNeighbour(g, start, end, current, trails, visited, done, level, neighbours, neighbour);
          visited := visited + {neighbour};
          trails := trails + [Trail(neighbour, current.path + [neighbour])];
        }
        neighbours := neighbours - {neighbour};
      }
      FinishExpand(g, start, end, current, trails, visited, done, level);
      done := done + {current.node};
    }
    Exhausted(g, start, end, visited, done, level);
    return None;
  }

  lemma SearchStarts(g: Graph, start: Node, end: Node)
    requires start in g && end in g
    ensures SearchInv(g, start, end, [Trail(start, [start])], {start}, {}, 0)
  {
    assert Within(g, start, 0) == {start};
    assert QueueNodes([Trail(start, [start])]) == {start};
  }

  /** A trail that reaches `end` carries a shortest path, so a simple one. */
  lemma Found(g: Graph, start: Node, end: Node, t: Trail)
    requires TrailOk(g, start, t) && t.node == end
    ensures Shortest(g, t.path, start, end) && Simple(t.path)
    ensures start == end ==> t.path == [start]
  {
    TrailIsShortest(g, start, t);
    ShortestIsSimple(g, t.path, start, end);
    if start == end {
      assert PathFromTo(g, [start], start, end);
    }
  }

  /** A sound trail's path reaches its node in the fewest hops. */
  lemma TrailIsShortest(g: Graph, start: Node, t: Trail)
    requires TrailOk(g, start, t)
    ensures Shortest(g, t.path, start, t.node)
  {
    if |t.path| > 1 {
      forall p | PathFromTo(g, p, start, t.node)
        ensures |t.path| <= |p|
      {
        OutsideWithinIsFar(g, start, |t.path| - 2, p);
      }
    }
  }

  /**
   When the queue holds only paths of `level + 1` hops, every node within
   `level + 1` hops has been visited: its predecessor on a shortest path is
   within `level` hops, so it is no longer queued and its neighbours were visited.
   */
  lemma NextLevel(g: Graph, start: Node, q: seq<Trail>, visited: set<Node>, done: set<Node>, level: nat)
    requires forall i :: 0 <= i < |q| ==> |q[i].path| == level + 2
    requires forall i :: 0 <= i < |q| ==> TrailOk(g, start, q[i])
    requires Within(g, start, level) <= visited
    requires Expanded(g, done, visited)
    requires visited == done + QueueNodes(q)
    ensures Within(g, start, level + 1) <= visited
  {
    forall v | v in Step(g, Within(g, start, level))
      ensures v in visited
    {
      var u := StepSource(g, Within(g, start, level), v);
      assert u in done;
    }
  }

  /** Dequeuing the front trail, which does not reach `end`, starts the visit of its neighbours. */
  lemma Dequeue(g: Graph, start: Node, end: Node, trails: seq<Trail>,
                visited: set<Node>, done: set<Node>, level: nat, level': nat)
    requires SearchInv(g, start, end, trails, visited, done, level)
    requires trails != [] && trails[0].node != end
    requires level' == if |trails[0].path| == level + 2 then level + 1 else level
    ensures ExpandInv(g, start, end, trails[0], trails[1..], visited, done, level',
                      g[trails[0].node].Keys)
  {
    QueuePop(g, start, trails, level, level');
    if level' == level + 1 {
      NextLevel(g, start, trails, visited, done, level);
    }
  }

  /** Enqueuing an unvisited neighbour of `current` with the path extended by it. */
  lemma EnqueueNeighbour(g: Graph, start: Node, end: Node, current: Trail, trails: seq<Trail>,
                         visited: set<Node>, done: set<Node>, level: nat,
                         neighbours: set<Node>, neighbour: Node)
    requires Closed(g)
    requires ExpandInv(g, start, end, current, trails, visited, done, level, neighbours)
    requires neighbour in neighbours && neighbour !in visited
    ensures ExpandInv(g, start, end, current, trails + [Trail(neighbour, current.path + [neighbour])],
                      visited + {neighbour}, done, level, neighbours - {neighbour})
  {
    var next := Trail(neighbour, current.path + [neighbour]);
    ExtendTrail(g, start, current, neighbour, level);
    QueueAppend(g, start, trails, level, next);
  }

  /** A trail extended by a neighbour that no path of at most `level` hops reaches is a trail. */
  lemma ExtendTrail(g: Graph, start: Node, current: Trail, neighbour: Node, level: nat)
    requires PathFromTo(g, current.path, start, current.node) && |current.path| == level + 1
    requires current.node in g && neighbour in g[current.node] && neighbour in g
    requires neighbour !in Within(g, start, level)
    ensures TrailOk(g, start, Trail(neighbour, current.path + [neighbour]))
  {
    var path := current.path + [neighbour];
    ExtendPath(g, current.path, neighbour);
    assert |path| - 2 == level;
    NewTrail(g, start, Trail(neighbour, path));
  }

  /** The two halves of `TrailOk` for a trail of at least one hop. */
  lemma NewTrail(g: Graph, start: Node, t: Trail)
    requires PathFromTo(g, t.path, start, t.node) && |t.path| >= 2
    requires t.node !in Within(g, start, |t.path| - 2)
    ensures TrailOk(g, start, t)
  {
  }

  /** All neighbours of `current` visited: it joins the dequeued nodes, one fewer left to dequeue. */
  lemma FinishExpand(g: Graph, start: Node, end: Node, current: Trail, trails: seq<Trail>,
                     visited: set<Node>, done: set<Node>, level: nat)
    requires ExpandInv(g, start, end, current, trails, visited, done, level, {})
    ensures SearchInv(g, start, end, trails, visited, done + {current.node}, level)
    ensures |g.Keys - (done + {current.node})| < |g.Keys - done|
  {
    OneFewerLeft(g.Keys, done, current.node);
  }

  lemma OneFewerLeft(nodes: set<Node>, done: set<Node>, u: Node)
    requires u in nodes && u !in done
    ensures |nodes - (done + {u})| < |nodes - done|
  {
    assert nodes - done == (nodes - (done + {u})) + {u};
  }

  /** The queue ran empty: the visited nodes are closed under edges and `end` is not among them. */
  lemma Exhausted(g: Graph, start: Node, end: Node, visited: set<Node>, done: set<Node>, level: nat)
    requires SearchInv(g, start, end, [], visited, done, level)
    ensures forall p :: !PathFromTo(g, p, start, end)
  {
    assert QueueNodes([]) == {};
    forall p | PathFromTo(g, p, start, end)
      ensures false
    {
      ClosedSetHoldsPath(g, done, p);
    }
  }
}
