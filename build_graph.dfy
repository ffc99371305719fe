/**
 Building the undirected adjacency from a list of `(node1, node2, cost)`
 connections (main.py, `build_graph`). The built graph is specified by
 `Describes`, which says directly which nodes and edges exist and what the
 edges cost: an edge joins two nodes exactly when some connection names both,
 and its cost is that of the LAST such connection.
 */
module GraphBuilder {
  import opened Graphs

  datatype Connection = Connection(node1: Node, node2: Node, cost: int)

  /** `c` connects `a` and `b`, in either direction. */
  predicate Joins(c: Connection, a: Node, b: Node)
  {
    (c.node1 == a && c.node2 == b) || (c.node1 == b && c.node2 == a)
  }

  /** Every node named by some connection. */
  function Endpoints(cs: seq<Connection>): set<Node>
  {
    (set c | c in cs :: c.node1) + (set c | c in cs :: c.node2)
  }

  /** The cost of the last connection that joins `a` and `b`, if any. */
  function LastCost(cs: seq<Connection>, a: Node, b: Node): Option<int>
  {
    if cs == [] then None
    else if Joins(cs[|cs| - 1], a, b) then Some(cs[|cs| - 1].cost)
    else LastCost(cs[..|cs| - 1], a, b)
  }

  /**
   `g` is the graph the connections describe: its nodes are the endpoints, `b`
   neighbours `a` exactly when some connection joins them, and the cost is that
   of the last such connection.
   */
  ghost predicate Describes(g: Graph, cs: seq<Connection>)
  {
    && g.Keys == Endpoints(cs)
    && (forall a, b :: a in g ==> (b in g[a] <==> LastCost(cs, a, b).Some?))
    && (forall a, b :: a in g && b in g[a] ==> g[a][b] == LastCost(cs, a, b).value)
  }

  lemma {:induction false} LastCostNamesEndpoints(cs: seq<Connection>, a: Node, b: Node)
    requires LastCost(cs, a, b).Some?
    ensures a in Endpoints(cs) && b in Endpoints(cs)
  {
    var last := cs[|cs| - 1];
    assert last in cs;
    if !Joins(last, a, b) {
      var init := cs[..|cs| - 1];
      LastCostNamesEndpoints(init, a, b);
      assert forall c :: c in init ==> c in cs;
    }
  }

  lemma {:induction false} LastCostSymmetric(cs: seq<Connection>, a: Node, b: Node)
    ensures LastCost(cs, a, b) == LastCost(cs, b, a)
  {
    if cs != [] {
      LastCostSymmetric(cs[..|cs| - 1], a, b);
    }
  }

  /**
   Building the graph: every node named by a connection becomes a key, and each
   connection writes its cost in both directions, the later write winning.
   */
  method BuildGraph(cs: seq<Connection>) returns (g: Graph)
    ensures Describes(g, cs)
    ensures cs == [] ==> g == map[]
  {
    g := map[];
    var i := 0;
    while i < |cs|
      invariant 0 <= i <= |cs|
      invariant Describes(g, cs[..i])
    {
      var c := cs[i];
      ghost var g0 := g;
      if c.node1 !in g {
        g := g[c.node1 := map[]];
      }
      if c.node2 !in g {
        g := g[c.node2 := map[]];
      }
      ghost var g1 := g;
      g := g[c.node1 := g[c.node1][c.node2 := c.cost]];
      g := g[c.node2 := g[c.node2][c.node1 := c.cost]];
      WriteBothWays(cs, i, g0, g1, g);
      i := i + 1;
    }
    assert cs[..i] == cs;
  }

  /**
   One iteration of the loop: adding the missing endpoints of `cs[i]` as keys
   and then writing its cost in both directions turns a graph that describes
   `cs[..i]` into one that describes `cs[..i + 1]`.
   */
  lemma WriteBothWays(cs: seq<Connection>, i: nat, g0: Graph, g1: Graph, g: Graph)
    requires i < |cs| && Describes(g0, cs[..i])
    requires var c := cs[i];
             var h := if c.node1 in g0 then g0 else g0[c.node1 := map[]];
             g1 == if c.node2 in h then h else h[c.node2 := map[]]
    requires var c := cs[i];
             var g2 := g1[c.node1 := g1[c.node1][c.node2 := c.cost]];
             g == g2[c.node2 := g2[c.node2][c.node1 := c.cost]]
    ensures Describes(g, cs[..i + 1])
  {
    assert cs[..i + 1] == cs[..i] + [cs[i]];
    AddKeys(g0, cs[i], g1);
    WriteRows(cs[..i], cs[i], g0, g1, g);
  }

  /**
   Once both endpoints of `c` are keys, writing its cost in both directions
   turns a graph that describes `cs` into one that describes `cs + [c]`.
   */
  lemma WriteRows(cs: seq<Connection>, c: Connection, g0: Graph, g1: Graph, g: Graph)
    requires Describes(g0, cs)
    requires g1.Keys == g0.Keys + {c.node1, c.node2}
    requires forall a :: a in g1 ==> g1[a] == if a in g0 then g0[a] else map[]
    requires var g2 := g1[c.node1 := g1[c.node1][c.node2 := c.cost]];
             g == g2[c.node2 := g2[c.node2][c.node1 := c.cost]]
    ensures Describes(g, cs + [c])
  {
    InsertConnection(cs, c);
    assert g.Keys == Endpoints(cs + [c]);
    forall a, b | a in g
      ensures b in g[a] <==> LastCost(cs + [c], a, b).Some?
      ensures b in g[a] ==> g[a][b] == LastCost(cs + [c], a, b).value
    {
      var before := LastCost(cs, a, b);
      if before.Some? {
        LastCostNamesEndpoints(cs, a, b);
      }
      assert b in g1[a] <==> before.Some? by {}
      assert b in g1[a] ==> g1[a][b] == before.value by {}
      WriteBothWaysAt(c, g1[a], a, b, before);
    }
  }

  /** Adding the missing endpoints of `c` as keys with no neighbours leaves every other row as it was. */
  lemma AddKeys(g0: Graph, c: Connection, g1: Graph)
    requires var h := if c.node1 in g0 then g0 else g0[c.node1 := map[]];
             g1 == if c.node2 in h then h else h[c.node2 := map[]]
    ensures g1.Keys == g0.Keys + {c.node1, c.node2}
    ensures forall a :: a in g1 ==> g1[a] == if a in g0 then g0[a] else map[]
  {
  }

  /** One row of `WriteRows`: row `a` of the graph, looked up at `b`. */
  lemma WriteBothWaysAt(c: Connection, row: map<Node, int>, a: Node, b: Node, before: Option<int>)
    requires b in row <==> before.Some?
    requires b in row ==> row[b] == before.value
    ensures var row' := if a == c.node1 then row[c.node2 := c.cost] else row;
            var row'' := if a == c.node2 then row'[c.node1 := c.cost] else row';
            var after := if Joins(c, a, b) then Some(c.cost) else before;
            && (b in row'' <==> after.Some?)
            && (b in row'' ==> row''[b] == after.value)
  {
  }

  /** The effect of one more connection on endpoints and last costs. */
  lemma InsertConnection(cs: seq<Connection>, c: Connection)
    ensures Endpoints(cs + [c]) == Endpoints(cs) + {c.node1, c.node2}
    ensures forall a, b :: LastCost(cs + [c], a, b)
                           == if Joins(c, a, b) then Some(c.cost) else LastCost(cs, a, b)
  {
    var next := cs + [c];
    assert next[..|cs|] == cs;
    assert forall x :: x in next <==> x in cs || x == c;
  }

  /** The built graph is symmetric, and every neighbour is itself a node. */
  lemma BuiltGraphIsUndirected(g: Graph, cs: seq<Connection>)
    requires Describes(g, cs)
    ensures Symmetric(g) && Closed(g)
  {
    forall a, b | a in g && b in g[a]
      ensures b in g && a in g[b] && g[b][a] == g[a][b]
    {
      LastCostSymmetric(cs, a, b);
      LastCostNamesEndpoints(cs, a, b);
    }
  }

  lemma {:induction false} LastCostOfLastJoin(cs: seq<Connection>, i: nat, a: Node, b: Node)
    requires i < |cs| && Joins(cs[i], a, b)
    requires forall j :: i < j < |cs| ==> !Joins(cs[j], a, b)
    ensures LastCost(cs, a, b) == Some(cs[i].cost)
  {
    if i < |cs| - 1 {
      var init := cs[..|cs| - 1];
      LastCostOfLastJoin(init, i, a, b);
    }
  }

  /**
   The last connection between two nodes fixes the cost in both directions,
   whatever came before it (last write wins); a self-loop `(a, a, w)` gives `g[a][a] == w`.
   */
  lemma LastWriteWins(g: Graph, cs: seq<Connection>, i: nat)
    requires Describes(g, cs)
    requires i < |cs|
    requires forall j :: i < j < |cs| ==> !Joins(cs[j], cs[i].node1, cs[i].node2)
    ensures var c := cs[i];
      && c.node1 in g && c.node2 in g[c.node1] && g[c.node1][c.node2] == c.cost
      && c.node2 in g && c.node1 in g[c.node2] && g[c.node2][c.node1] == c.cost
  {
    var c := cs[i];
    assert c in cs;
    LastCostOfLastJoin(cs, i, c.node1, c.node2);
    LastCostSymmetric(cs, c.node1, c.node2);
  }

  lemma {:induction false} LastCostHasJoin(cs: seq<Connection>, a: Node, b: Node)
    requires LastCost(cs, a, b).Some?
    ensures exists i :: 0 <= i < |cs| && Joins(cs[i], a, b) && cs[i].cost == LastCost(cs, a, b).value
                        && forall j :: i < j < |cs| ==> !Joins(cs[j], a, b)
  {
    var n := |cs| - 1;
    if !Joins(cs[n], a, b) {
      var init := cs[..n];
      LastCostHasJoin(init, a, b);
      var i :| 0 <= i < n && Joins(init[i], a, b) && init[i].cost == LastCost(init, a, b).value
                && forall j :: i < j < n ==> !Joins(init[j], a, b);
      assert forall j :: i < j < |cs| ==> !Joins(cs[j], a, b) by {
        forall j | i < j < |cs|
          ensures !Joins(cs[j], a, b)
        {
          if j < n {
            assert cs[j] == init[j];
          }
        }
      }
    }
  }

  /** Every edge of the built graph comes from the last connection between its ends. */
  lemma EdgeFromLastConnection(g: Graph, cs: seq<Connection>, a: Node, b: Node)
    requires Describes(g, cs)
    requires a in g && b in g[a]
    ensures exists i :: 0 <= i < |cs| && Joins(cs[i], a, b) && cs[i].cost == g[a][b]
                        && forall j :: i < j < |cs| ==> !Joins(cs[j], a, b)
  {
    LastCostHasJoin(cs, a, b);
  }

  /** The connections determine the graph: two graphs that describe them are equal. */
  lemma DescribedGraphIsUnique(g: Graph, h: Graph, cs: seq<Connection>)
    requires Describes(g, cs) && Describes(h, cs)
    ensures g == h
  {
    assert g.Keys == h.Keys;
    forall a | a in g
      ensures g[a] == h[a]
    {
      assert g[a].Keys == h[a].Keys;
    }
  }
}
