/**
 Two small campus graphs, checked end to end against the contracts of the
 three operations: the search counts hops and not costs, and a repeated
 connection keeps its last cost.
 */
module Scenarios {
  import opened Graphs
  import opened GraphBuilder
  import opened PathSearch
  import opened PathDistance

  /** Three buildings, a-b costing 10, b-c 20 and a-c 50. */
  function Triangle(a: Node, b: Node, c: Node): seq<Connection>
  {
    [Connection(a, b, 10), Connection(b, c, 20), Connection(a, c, 50)]
  }

  /** In the triangle the search from a to c returns the direct edge: one hop. */
  method HopsNotCost(a: Node, b: Node, c: Node)
    requires a != b && b != c && a != c
  {
    var cs := Triangle(a, b, c);
    var g := BuildGraph(cs);
    LastWriteWins(g, cs, 2);
    BuiltGraphIsUndirected(g, cs);
    var direct := [a, c];
    OneEdgePath(g, a, c);
    var r := FindPathBfs(g, a, c);
    assert |r.value| <= |direct|;
    OnlyDirectPath(r.value, a, c);
    assert r == Some(direct);
  }

  /** ... although the direct edge costs 50 and the two hops through b only 30. */
  method DirectCostsMore(a: Node, b: Node, c: Node)
    requires a != b && b != c && a != c
  {
    var cs := Triangle(a, b, c);
    var g := BuildGraph(cs);
    LastWriteWins(g, cs, 0);
    LastWriteWins(g, cs, 1);
    LastWriteWins(g, cs, 2);
    WalkWeights(g, a, b, c);
    var direct := GetPathDistance(g, [a, c]);
    var around := GetPathDistance(g, [a, b, c]);
    assert direct == Total(50) && around == Total(30);
  }

  lemma OneEdgePath(g: Graph, a: Node, c: Node)
    requires a in g && c in g && c in g[a]
    ensures PathFromTo(g, [a, c], a, c)
  {
  }

  /** A path of at most two nodes between two different nodes is the direct step. */
  lemma OnlyDirectPath(p: seq<Node>, a: Node, c: Node)
    requires 0 < |p| <= 2 && p[0] == a && p[|p| - 1] == c && a != c
    ensures p == [a, c]
  {
  }

  /** The weights of the one-edge walk a-c and the two-edge walk a-b-c. */
  lemma WalkWeights(g: Graph, a: Node, b: Node, c: Node)
    requires a in g && b in g[a] && c in g[a] && b in g && c in g[b]
    ensures Linked(g, [a, c]) && PathWeight(g, [a, c]) == g[a][c]
    ensures Linked(g, [a, b, c]) && PathWeight(g, [a, b, c]) == g[a][b] + g[b][c]
  {
    assert [a, c][..1] == [a];
    assert [a, b, c][..2] == [a, b] && [a, b][..1] == [a];
  }

  /** Connecting a and b twice: the later cost, 9, is the one kept, both ways. */
  method DuplicateConnection(a: Node, b: Node)
  {
    var cs := [Connection(a, b, 5), Connection(a, b, 9)];
    var g := BuildGraph(cs);
    LastWriteWins(g, cs, 1);
    assert g[a][b] == 9 && g[b][a] == 9;
  }
}
