/**
  Weighted directed graphs stored the way the routing code stores them:
  a map from a node to a map from neighbour to edge weight. Node names are
  a type parameter: the routing code uses place-name strings, and nothing
  in it depends on what a name is beyond equality.

  Paths, their total weight and the structural properties a campus graph
  is meant to have (non-negative weights, symmetry, no self-loops) are
  defined here once and shared by the shortest-path engine, the mesh
  builder and the curated campus graph.
 */
module Graphs {

  /** node -> (neighbour -> weight in metres) */
  type Graph<N> = map<N, map<N, real>>

  predicate NonNegative<N>(g: Graph<N>) {
    forall u, v :: u in g && v in g[u] ==> g[u][v] >= 0.0
  }

  /** Every node that appears as a neighbour is itself a key. */
  predicate Closed<N>(g: Graph<N>) {
    forall u, v :: u in g && v in g[u] ==> v in g
  }

  predicate NoSelfLoops<N>(g: Graph<N>) {
    forall u :: u in g ==> u !in g[u]
  }

  /** Every edge u -> v has a reverse edge v -> u of exactly the same weight. */
  predicate Symmetric<N>(g: Graph<N>) {
    forall u, v :: u in g && v in g[u] ==> v in g && u in g[v] && g[v][u] == g[u][v]
  }

  /**
    The row of u is well formed: u is a key, does not list itself, and each
    neighbour v is a key whose own row lists u with the same, non-negative,
    weight.
   */
  predicate RowWellFormed<N>(g: Graph<N>, u: N) {
    && u in g
    && u !in g[u]
    && forall v :: v in g[u] ==> g[u][v] >= 0.0 && v in g && u in g[v] && g[v][u] == g[u][v]
  }

  /** A graph whose every row is well formed is symmetric, closed, loop-free and non-negative. */
  lemma RowsMakeGraph<N>(g: Graph<N>)
    requires forall u :: u in g ==> RowWellFormed(g, u)
    ensures Symmetric(g) && Closed(g) && NoSelfLoops(g) && NonNegative(g)
  {
  }

  /** A non-empty node sequence in which every consecutive pair is an edge of g. */
  ghost predicate IsPath<N>(g: Graph<N>, p: seq<N>) {
    |p| > 0 && forall i :: 0 <= i < |p| - 1 ==> p[i] in g && p[i + 1] in g[p[i]]
  }

  ghost predicate PathFromTo<N>(g: Graph<N>, p: seq<N>, s: N, t: N) {
    IsPath(g, p) && p[0] == s && p[|p| - 1] == t
  }

  /** Sum of the edge weights along a path. */
  ghost function Weight<N>(g: Graph<N>, p: seq<N>): real
    requires IsPath(g, p)
    decreases |p|
  {
    if |p| == 1 then 0.0
    else Weight(g, p[..|p| - 1]) + g[p[|p| - 2]][p[|p| - 1]]
  }

  /** Extending a path by one edge at its end adds that edge's weight. */
  lemma AppendEdge<N>(g: Graph<N>, p: seq<N>, v: N)
    requires IsPath(g, p) && p[|p| - 1] in g && v in g[p[|p| - 1]]
    ensures IsPath(g, p + [v])
    ensures Weight(g, p + [v]) == Weight(g, p) + g[p[|p| - 1]][v]
  {
  }

  /** Extending a path by one edge at its start adds that edge's weight. */
  lemma {:induction false} PrependEdge<N>(g: Graph<N>, u: N, p: seq<N>)
    requires IsPath(g, p) && u in g && p[0] in g[u]
    ensures IsPath(g, [u] + p)
    ensures Weight(g, [u] + p) == g[u][p[0]] + Weight(g, p)
    decreases |p|
  {
    var q := [u] + p;
    assert IsPath(g, q) by {
      forall i | 0 <= i < |q| - 1 ensures q[i] in g && q[i + 1] in g[q[i]] {
        if i > 0 {
          assert q[i] == p[i - 1] && q[i + 1] == p[i];
        }
      }
    }
    if |p| > 1 {
      var front := p[..|p| - 1];
      PrependEdge(g, u, front);
      assert q[..|q| - 1] == [u] + front;
    }
  }

  /** `path.reverse()` */
  function Reversed<N>(s: seq<N>): (r: seq<N>)
    ensures |r| == |s|
    ensures forall i :: 0 <= i < |s| ==> r[i] == s[|s| - 1 - i]
  {
    if s == [] then [] else [s[|s| - 1]] + Reversed(s[..|s| - 1])
  }

  /** In a symmetric graph a path walked backwards is a path between the same ends, swapped. */
  lemma ReversePath<N>(g: Graph<N>, p: seq<N>)
    requires Symmetric(g) && IsPath(g, p)
    ensures PathFromTo(g, Reversed(p), p[|p| - 1], p[0])
  {
    var r := Reversed(p);
    forall i | 0 <= i < |r| - 1 ensures r[i] in g && r[i + 1] in g[r[i]] {
      var j := |p| - 2 - i;
      assert r[i] == p[j + 1] && r[i + 1] == p[j];
      EdgeBack(g, p, j);
    }
  }

  /** The j-th edge of a path, walked backwards, is an edge of a symmetric graph. */
  lemma EdgeBack<N>(g: Graph<N>, p: seq<N>, j: int)
    requires Symmetric(g) && IsPath(g, p) && 0 <= j < |p| - 1
    ensures p[j + 1] in g && p[j] in g[p[j + 1]]
  {
    assert p[j] in g && p[j + 1] in g[p[j]];
  }

  /** A path to m followed by a path from m is a path. */
  lemma JoinPaths<N>(g: Graph<N>, p: seq<N>, q: seq<N>)
    requires IsPath(g, p) && IsPath(g, q) && p[|p| - 1] == q[0]
    ensures PathFromTo(g, p + q[1..], p[0], q[|q| - 1])
  {
    var r := p + q[1..];
    forall i | 0 <= i < |r| - 1 ensures r[i] in g && r[i + 1] in g[r[i]] {
      if i >= |p| - 1 {
        var j := i - |p| + 1;
        assert r[i] == q[j] && r[i + 1] == q[j + 1];
      }
    }
  }
}
