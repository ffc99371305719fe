/**
 The graph of named locations that every query of the campus program works on:
 a node is a building name, and the graph maps each node to the costs of the
 edges leaving it (`node -> (neighbour -> cost)`), as the nested dictionaries
 of main.py do. This module holds the vocabulary the other modules specify
 their operations with: paths, simple paths, and the set of nodes reachable
 within a number of hops.
 */
module Graphs {

  type Node = string

  /** Adjacency: node -> (neighbour -> edge cost). */
  type Graph = map<Node, map<Node, int>>

  datatype Option<T> = None | Some(value: T)

  /** Every consecutive pair of `p` is an edge of `g`. */
  predicate Linked(g: Graph, p: seq<Node>)
  {
    forall i :: 0 <= i < |p| - 1 ==> p[i] in g && p[i + 1] in g[p[i]]
  }

  /** A non-empty sequence of nodes of `g` whose consecutive pairs are edges. */
  predicate IsPath(g: Graph, p: seq<Node>)
  {
    && |p| > 0
    && (forall i :: 0 <= i < |p| ==> p[i] in g)
    && Linked(g, p)
  }

  predicate PathFromTo(g: Graph, p: seq<Node>, s: Node, t: Node)
  {
    IsPath(g, p) && p[0] == s && p[|p| - 1] == t
  }

  /** No node occurs twice. */
  predicate Simple(p: seq<Node>)
  {
    forall i, j :: 0 <= i < j < |p| ==> p[i] != p[j]
  }

  /** Every neighbour is itself a node of the graph. */
  predicate Closed(g: Graph)
  {
    forall a :: a in g ==> g[a].Keys <= g.Keys
  }

  /** Every edge can be walked back at the same cost. */
  predicate Symmetric(g: Graph)
  {
    forall a, b :: a in g && b in g[a] ==> b in g && a in g[b] && g[b][a] == g[a][b]
  }

  /** The nodes one edge away from some node of `s`. */
  ghost function Step(g: Graph, s: set<Node>): set<Node>
  {
    set u, v | u in s && u in g && v in g[u] && v in g :: v
  }

  /** The nodes reachable from `s` in at most `k` hops. */
  ghost function Within(g: Graph, s: Node, k: nat): set<Node>
  {
    if k == 0 then (if s in g then {s} else {})
    else Within(g, s, k - 1) + Step(g, Within(g, s, k - 1))
  }

  lemma {:induction false} WithinMonotonic(g: Graph, s: Node, j: nat, k: nat)
    requires j <= k
    ensures Within(g, s, j) <= Within(g, s, k)
  {
    if j < k {
      WithinMonotonic(g, s, j, k - 1);
    }
  }

  /** The end of a path of `n` nodes is reachable from its start in `n - 1` hops. */
  lemma {:induction false} PathEndWithin(g: Graph, p: seq<Node>)
    requires IsPath(g, p)
    ensures p[|p| - 1] in Within(g, p[0], |p| - 1)
  {
    if |p| > 1 {
      var q := p[..|p| - 1];
      assert IsPath(g, q);
      PathEndWithin(g, q);
      var u, v := p[|p| - 2], p[|p| - 1];
      assert u in Within(g, p[0], |p| - 2);
      assert v in Step(g, Within(g, p[0], |p| - 2));
    }
  }

  /** Every node reachable in `k` hops is the end of a path of at most `k + 1` nodes. */
  lemma {:induction false} WithinHasPath(g: Graph, s: Node, k: nat, t: Node)
    requires t in Within(g, s, k)
    ensures exists p :: PathFromTo(g, p, s, t) && |p| <= k + 1
  {
    if k == 0 {
      assert PathFromTo(g, [s], s, t);
    } else if t in Within(g, s, k - 1) {
      WithinHasPath(g, s, k - 1, t);
    } else {
      var u := StepSource(g, Within(g, s, k - 1), t);
      WithinHasPath(g, s, k - 1, u);
      var p :| PathFromTo(g, p, s, u) && |p| <= k;
      ExtendPath(g, p, t);
    }
  }

  /** A node one step away from `s` has a neighbour in `s` it is reached from. */
  lemma StepSource(g: Graph, s: set<Node>, t: Node) returns (u: Node)
    requires t in Step(g, s)
    ensures u in s && u in g && t in g[u] && t in g
  {
    u :| u in s && u in g && t in g[u] && t in g;
  }

  /** A path followed by one more edge is a path. */
  lemma ExtendPath(g: Graph, p: seq<Node>, t: Node)
    requires IsPath(g, p) && p[|p| - 1] in g && t in g[p[|p| - 1]] && t in g
    ensures PathFromTo(g, p + [t], p[0], t)
  {
    var p' := p + [t];
    assert forall i :: 0 <= i < |p| ==> p'[i] == p[i];
  }

  /** `Within` is exactly hop-bounded reachability. */
  lemma WithinIsReachability(g: Graph, s: Node, k: nat, t: Node)
    ensures t in Within(g, s, k) <==> exists p :: PathFromTo(g, p, s, t) && |p| <= k + 1
  {
    if t in Within(g, s, k) {
      WithinHasPath(g, s, k, t);
    }
    if p :| PathFromTo(g, p, s, t) && |p| <= k + 1 {
      PathEndWithin(g, p);
      WithinMonotonic(g, s, |p| - 1, k);
    }
  }

  /** A path to a node not within `k` hops of its start has more than `k + 1` nodes. */
  lemma OutsideWithinIsFar(g: Graph, s: Node, k: nat, p: seq<Node>)
    requires IsPath(g, p) && p[0] == s && p[|p| - 1] !in Within(g, s, k)
    ensures |p| > k + 1
  {
    if |p| <= k + 1 {
      PathEndWithin(g, p);
      WithinMonotonic(g, s, |p| - 1, k);
    }
  }

  /** A path that starts inside a set closed under edges never leaves it. */
  lemma {:induction false} ClosedSetHoldsPath(g: Graph, s: set<Node>, p: seq<Node>)
    requires forall u :: u in s ==> u in g && g[u].Keys <= s
    requires IsPath(g, p) && p[0] in s
    ensures forall i :: 0 <= i < |p| ==> p[i] in s
  {
    if |p| > 1 {
      var q := p[..|p| - 1];
      assert IsPath(g, q);
      ClosedSetHoldsPath(g, s, q);
      assert p[|p| - 2] == q[|q| - 1];
    }
  }

  /** `p` goes from `s` to `t` in the fewest hops any path from `s` to `t` takes. */
  ghost predicate Shortest(g: Graph, p: seq<Node>, s: Node, t: Node)
  {
    PathFromTo(g, p, s, t) && forall q :: PathFromTo(g, q, s, t) ==> |p| <= |q|
  }

  /** Cutting out the loop between two visits of the same node leaves a path between the same ends. */
  lemma CutLoop(g: Graph, p: seq<Node>, i: nat, j: nat)
    requires IsPath(g, p) && i < j < |p| && p[i] == p[j]
    ensures PathFromTo(g, p[..i] + p[j..], p[0], p[|p| - 1])
    ensures |p[..i] + p[j..]| < |p|
  {
    var q := p[..i] + p[j..];
    var d := j - i;
    assert forall k :: 0 <= k < i ==> q[k] == p[k];
    assert forall k :: i <= k < |q| ==> q[k] == p[k + d];
    forall k | 0 <= k < |q| - 1
      ensures q[k] in g && q[k + 1] in g[q[k]]
    {
      if k + 1 < i {
        assert q[k] == p[k] && q[k + 1] == p[k + 1];
      } else if k + 1 == i {
        assert q[k] == p[k] && q[k + 1] == p[j] == p[k + 1];
      } else {
        assert q[k] == p[k + d] && q[k + 1] == p[k + 1 + d];
      }
    }
    if i == 0 {
      assert q[0] == p[j] == p[0];
    }
  }

  /** A path with the fewest hops visits no node twice. */
  lemma ShortestIsSimple(g: Graph, p: seq<Node>, s: Node, t: Node)
    requires Shortest(g, p, s, t)
    ensures Simple(p)
  {
    if !Simple(p) {
      var i, j :| 0 <= i < j < |p| && p[i] == p[j];
      CutLoop(g, p, i, j);
    }
  }

  function Reverse(p: seq<Node>): (r: seq<Node>)
    ensures |r| == |p|
    ensures forall i :: 0 <= i < |p| ==> r[i] == p[|p| - 1 - i]
  {
    if p == [] then [] else [p[|p| - 1]] + Reverse(p[..|p| - 1])
  }
}
