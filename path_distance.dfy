/**
 The length of a route (main.py, `get_path_distance`): the sum of the costs of
 the edges between consecutive nodes of a path. A consecutive pair that is not
 an edge makes the source's dictionary lookup fail; here that failure is the
 result `MissingEdge`, carrying the index of the first such pair.
 */
module PathDistance {
  import opened Graphs

  /** The cost of walking `p` edge by edge: zero for fewer than two nodes. */
  function PathWeight(g: Graph, p: seq<Node>): int
    requires Linked(g, p)
    decreases |p|
  {
    if |p| <= 1 then 0
    else PathWeight(g, p[..|p| - 1]) + g[p[|p| - 2]][p[|p| - 1]]
  }

  datatype Distance = Total(weight: int) | MissingEdge(step: nat)

  /**
   Summing the edge costs along `path` from its first node on. The sum is
   defined exactly when every consecutive pair is an edge; otherwise the
   result names the first pair that is not, and every pair before it is one.
   */
  method GetPathDistance(g: Graph, path: seq<Node>) returns (r: Distance)
    ensures r.Total? <==> Linked(g, path)
    ensures r.Total? ==> r.weight == PathWeight(g, path)
    ensures r.MissingEdge? ==> && r.step + 1 < |path|
                               && Linked(g, path[..r.step + 1])
                               && !(path[r.step] in g && path[r.step + 1] in g[path[r.step]])
    ensures |path| <= 1 ==> r == Total(0)
  {
    var total := 0;
    var i := 0;
    while i < |path| - 1
      invariant 0 <= i && (|path| == 0 ==> i == 0) && (|path| > 0 ==> i <= |path| - 1)
      invariant |path| > 0 ==> Linked(g, path[..i + 1]) && total == PathWeight(g, path[..i + 1])
      invariant |path| == 0 ==> total == 0
    {
      var current, next := path[i], path[i + 1];
      if current !in g || next !in g[current] {
        return MissingEdge(i);
      }
      ghost var walked := path[..i + 2];
      assert walked[..i + 1] == path[..i + 1];
      total := total + g[current][next];
      i := i + 1;
    }
    if |path| > 0 {
      assert path[..i + 1] == path;
    }
    return Total(total);
  }

  /** A path followed by a path that starts where it ends is a path. */
  lemma AppendLinked(g: Graph, p: seq<Node>, q: seq<Node>)
    requires |p| > 0 && |q| > 0 && p[|p| - 1] == q[0]
    requires Linked(g, p) && Linked(g, q)
    ensures Linked(g, p + q[1..])
  {
    var pq := p + q[1..];
    forall i | 0 <= i < |pq| - 1
      ensures pq[i] in g && pq[i + 1] in g[pq[i]]
    {
      if i < |p| - 1 {
        assert pq[i] == p[i] && pq[i + 1] == p[i + 1];
      } else {
        var j := i - (|p| - 1);
        assert pq[i] == q[j] && pq[i + 1] == q[j + 1];
      }
    }
  }

  /** Walking one path and then another from where it ends costs the sum of the two. */
  lemma {:induction false} PathWeightAppend(g: Graph, p: seq<Node>, q: seq<Node>)
    requires |p| > 0 && |q| > 0 && p[|p| - 1] == q[0]
    requires Linked(g, p) && Linked(g, q)
    ensures Linked(g, p + q[1..])
    ensures PathWeight(g, p + q[1..]) == PathWeight(g, p) + PathWeight(g, q)
  {
    AppendLinked(g, p, q);
    var pq := p + q[1..];
    if |q| == 1 {
      assert pq == p;
    } else {
      var init := q[..|q| - 1];
      assert Linked(g, init);
      PathWeightAppend(g, p, init);
      assert pq[..|pq| - 1] == p + init[1..];
      assert pq[|pq| - 2] == q[|q| - 2] && pq[|pq| - 1] == q[|q| - 1];
    }
  }

  /** With no negative edge cost, no path has a negative weight. */
  lemma {:induction false} PathWeightNonNegative(g: Graph, p: seq<Node>)
    requires forall a, b :: a in g && b in g[a] ==> g[a][b] >= 0
    requires Linked(g, p)
    ensures PathWeight(g, p) >= 0
  {
    if |p| > 1 {
      PathWeightNonNegative(g, p[..|p| - 1]);
    }
  }

  /** In a symmetric graph the reverse of a path is a path. */
  lemma ReverseLinked(g: Graph, p: seq<Node>)
    requires Symmetric(g) && Linked(g, p)
    ensures Linked(g, Reverse(p))
  {
    var r := Reverse(p);
    forall i | 0 <= i < |r| - 1
      ensures r[i] in g && r[i + 1] in g[r[i]]
    {
      var j := |p| - 2 - i;
      assert r[i] == p[j + 1] && r[i + 1] == p[j];
    }
  }

  /** One edge walked before a path costs the edge plus the path. */
  lemma {:induction false} PathWeightPrepend(g: Graph, b: Node, q: seq<Node>)
    requires |q| > 0 && b in g && q[0] in g[b] && Linked(g, q)
    ensures Linked(g, [b] + q)
    ensures PathWeight(g, [b] + q) == g[b][q[0]] + PathWeight(g, q)
  {
    var bq := [b] + q;
    assert forall i :: 0 < i < |bq| ==> bq[i] == q[i - 1];
    if |q| == 1 {
      assert bq[..1] == [b];
    } else {
      var init := q[..|q| - 1];
      assert Linked(g, init);
      PathWeightPrepend(g, b, init);
      assert bq[..|bq| - 1] == [b] + init;
    }
  }

  /** In a symmetric graph a path costs the same walked in either direction. */
  lemma {:induction false} PathWeightReverse(g: Graph, p: seq<Node>)
    requires Symmetric(g) && Linked(g, p)
    ensures Linked(g, Reverse(p))
    ensures PathWeight(g, Reverse(p)) == PathWeight(g, p)
  {
    ReverseLinked(g, p);
    if |p| > 1 {
      var init := p[..|p| - 1];
      var a, b := p[|p| - 2], p[|p| - 1];
      PathWeightReverse(g, init);
      var rest := Reverse(init);
      assert Reverse(p) == [b] + rest;
      assert rest[0] == a;
      PathWeightPrepend(g, b, rest);
    }
  }
}
