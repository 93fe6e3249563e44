/**
  The complete-mesh builder: every location becomes a node with an edge to
  every other location, weighted by the great-circle distance between their
  coordinates. The distance (haversine) is floating-point trigonometry, so
  it is a parameter here: the builder's structure does not depend on it.
 */
module Mesh {
  import opened Graphs

  datatype Coord = Coord(latitude: real, longitude: real)

  /** The row of s lists every location in `seen` other than s, each at its distance from s. */
  ghost predicate RowOf<N(!new)>(locations: map<N, Coord>, distance: (Coord, Coord) -> real,
                                 g: Graph<N>, s: N, seen: set<N>)
    requires s in g && s in locations && seen <= locations.Keys
  {
    && g[s].Keys == seen - {s}
    && forall e :: e in g[s] ==> g[s][e] == distance(locations[s], locations[e])
  }

  /** g is the complete mesh over the locations. */
  ghost predicate IsMesh<N(!new)>(locations: map<N, Coord>, distance: (Coord, Coord) -> real, g: Graph<N>) {
    && g.Keys == locations.Keys
    && forall s :: s in g ==> RowOf(locations, distance, g, s, locations.Keys)
  }

  /**
    Fills the graph in place, one start point at a time: the start point's
    row is reset to empty, then every other location is added to it.
    `names` is the key order of the locations object.
   */
  method BuildMesh<N(==,!new)>(locations: map<N, Coord>, names: seq<N>, distance: (Coord, Coord) -> real)
    returns (graph: Graph<N>)
    requires forall n :: n in names <==> n in locations
    ensures IsMesh(locations, distance, graph)
  {
    graph := map[];
    ghost var done: set<N> := {};
    for i := 0 to |names|
      invariant forall k :: k in done <==> k in names[..i]
      invariant done <= locations.Keys
      invariant graph.Keys == done
      invariant forall s :: s in graph ==> RowOf(locations, distance, graph, s, locations.Keys)
    {
      var startPoint := names[i];
      ghost var before := graph;
      ghost var seen: set<N> := {};
      graph := graph[startPoint := map[]];
      for j := 0 to |names|
        invariant forall k :: k in seen <==> k in names[..j]
        invariant seen <= locations.Keys
        invariant graph.Keys == before.Keys + {startPoint}
        invariant forall s :: s in before && s != startPoint ==> graph[s] == before[s]
        invariant RowOf(locations, distance, graph, startPoint, seen)
      {
        var endPoint := names[j];
        if startPoint != endPoint {
          var d := distance(locations[startPoint], locations[endPoint]);
          graph := graph[startPoint := graph[startPoint][endPoint := d]];
        }
        seen := seen + {endPoint};
        assert names[..j + 1] == names[..j] + [endPoint];
      }
      assert names[..|names|] == names;
      assert seen == locations.Keys;
      done := done + {startPoint};
      assert names[..i + 1] == names[..i] + [startPoint];
    }
    assert names[..|names|] == names;
    assert done == locations.Keys;
  }

  /** The mesh has exactly the locations as nodes, none of them adjacent to itself. */
  lemma MeshShape<N(!new)>(locations: map<N, Coord>, distance: (Coord, Coord) -> real, g: Graph<N>)
    requires IsMesh(locations, distance, g)
    ensures g.Keys == locations.Keys
    ensures NoSelfLoops(g) && Closed(g)
    ensures forall s, e :: s in g && e in g && s != e ==> e in g[s]
  {
  }

  /** Every node of a mesh over N locations has N - 1 neighbours. */
  lemma MeshDegree<N(!new)>(locations: map<N, Coord>, distance: (Coord, Coord) -> real, g: Graph<N>, s: N)
    requires IsMesh(locations, distance, g) && s in g
    ensures |g[s]| == |locations| - 1
  {
  }

  /** A symmetric distance gives a symmetric mesh: each edge has a reverse edge of the same weight. */
  lemma MeshSymmetric<N(!new)>(locations: map<N, Coord>, distance: (Coord, Coord) -> real, g: Graph<N>)
    requires IsMesh(locations, distance, g)
    requires forall a, b :: distance(a, b) == distance(b, a)
    ensures Symmetric(g)
  {
    forall u, v | u in g && v in g[u] ensures v in g && u in g[v] && g[v][u] == g[u][v] {
      assert RowOf(locations, distance, g, u, locations.Keys);
      assert RowOf(locations, distance, g, v, locations.Keys);
    }
  }

  /** A non-negative distance gives a mesh with non-negative weights. */
  lemma MeshNonNegative<N(!new)>(locations: map<N, Coord>, distance: (Coord, Coord) -> real, g: Graph<N>)
    requires IsMesh(locations, distance, g)
    requires forall a, b :: distance(a, b) >= 0.0
    ensures NonNegative(g)
  {
    forall u, v | u in g && v in g[u] ensures g[u][v] >= 0.0 {
      assert RowOf(locations, distance, g, u, locations.Keys);
    }
  }

  /**
    When the distance obeys the triangle inequality (as the great-circle
    distance does), no path between two locations is shorter than the
    direct edge: the mesh's shortest route is the straight hop.
   */
  lemma {:induction false} DirectIsShortest<N(!new)>(locations: map<N, Coord>, distance: (Coord, Coord) -> real,
                                                     g: Graph<N>, p: seq<N>)
    requires IsMesh(locations, distance, g)
    requires forall a, b, c :: distance(a, c) <= distance(a, b) + distance(b, c)
    requires forall a :: distance(a, a) == 0.0
    requires IsPath(g, p) && p[0] in locations && p[|p| - 1] in locations
    ensures distance(locations[p[0]], locations[p[|p| - 1]]) <= Weight(g, p)
    decreases |p|
  {
    if |p| > 1 {
      var q := p[..|p| - 1];
      var x, v := p[|p| - 2], p[|p| - 1];
      assert IsPath(g, q) && q[0] == p[0] && q[|q| - 1] == x;
      assert x in locations;
      DirectIsShortest(locations, distance, g, q);
      assert RowOf(locations, distance, g, x, locations.Keys);
      assert g[x][v] == distance(locations[x], locations[v]);
      assert distance(locations[p[0]], locations[v])
          <= distance(locations[p[0]], locations[x]) + distance(locations[x], locations[v]);
    }
  }

  /**
    Between two different locations the direct hop is a path whose weight
    is their distance, and with the triangle inequality no route is
    lighter: a shortest-path search over the mesh finds exactly `distance`.
   */
  lemma DirectHop<N(!new)>(locations: map<N, Coord>, distance: (Coord, Coord) -> real, g: Graph<N>, s: N, t: N)
    requires IsMesh(locations, distance, g)
    requires forall a, b, c :: distance(a, c) <= distance(a, b) + distance(b, c)
    requires forall a :: distance(a, a) == 0.0
    requires s in locations && t in locations && s != t
    ensures PathFromTo(g, [s, t], s, t) && Weight(g, [s, t]) == distance(locations[s], locations[t])
    ensures forall p :: PathFromTo(g, p, s, t) ==> distance(locations[s], locations[t]) <= Weight(g, p)
  {
    assert RowOf(locations, distance, g, s, locations.Keys);
    AppendEdge(g, [s], t);
    forall p | PathFromTo(g, p, s, t) ensures distance(locations[s], locations[t]) <= Weight(g, p) {
      DirectIsShortest(locations, distance, g, p);
    }
  }
}
