/**
  The shortest-path engine `dijkstra(graph, source, target)` of App.js:13-66.

  The engine keeps three pieces of state: a tentative distance per node,
  a predecessor per node and the unvisited nodes. It then repeats rounds:
  scan the unvisited nodes for the first one of smallest finite distance,
  remove it, stop if it is the target, otherwise relax its outgoing edges.
  Finally it rebuilds the path by walking predecessors back from the target
  and reversing.

  JavaScript's `Infinity` is `Dist.Inf`, `null` is `None`, and the unvisited
  `Set` is a sequence kept in the key order of the graph, which is the order
  in which the JavaScript scan visits it.
 */
module ShortestPath {
  import opened Graphs

  datatype Option<T> = None | Some(value: T)

  /** A tentative distance: a finite number of metres, or Infinity. */
  datatype Dist = Fin(d: real) | Inf

  /** `a + w` with `Infinity + w == Infinity`. */
  function Add(a: Dist, w: real): (r: Dist)
    ensures r.Fin? <==> a.Fin?
    ensures a.Fin? && w >= 0.0 ==> Le(a, r)
  {
    match a
    case Fin(x) => Fin(x + w)
    case Inf => Inf
  }

  /** JavaScript's `<` on numbers and Infinity: `Infinity < Infinity` is false. */
  predicate Lt(a: Dist, b: Dist): (r: bool)
    ensures r <==> !Le(b, a)
    ensures r ==> a.Fin?
  {
    a.Fin? && (b.Inf? || a.d < b.d)
  }

  /** `a <= b` on numbers and Infinity. */
  predicate Le(a: Dist, b: Dist) {
    b.Inf? || (a.Fin? && a.d <= b.d)
  }

  ghost predicate Distinct<N(!new)>(s: seq<N>) {
    forall i, j :: 0 <= i < j < |s| ==> s[i] != s[j]
  }

  /** `order` lists every key of g once: it is `Object.keys(g)`. */
  ghost predicate KeyOrder<N(!new)>(g: Graph<N>, order: seq<N>) {
    Distinct(order) && forall v :: v in order <==> v in g
  }

  // ---------------------------------------------------------------------
  // Initialisation (App.js:15-21)
  // ---------------------------------------------------------------------

  /**
    Every key of g gets distance Infinity and predecessor null, then the
    source gets distance 0. A source that is not a key is added to the
    distance table only, as the JavaScript assignment does.
   */
  method InitTables<N(==,!new)>(g: Graph<N>, order: seq<N>, source: N)
    returns (dist: map<N, Dist>, prev: map<N, Option<N>>)
    requires forall v :: v in order <==> v in g
    ensures dist.Keys == g.Keys + {source} && prev.Keys == g.Keys
    ensures dist[source] == Fin(0.0)
    ensures forall v :: v in dist && v != source ==> dist[v] == Inf
    ensures forall v :: v in prev ==> prev[v] == None
  {
    dist, prev := map[], map[];
    for i := 0 to |order|
      invariant forall v :: v in dist <==> v in order[..i]
      invariant forall v :: v in prev <==> v in order[..i]
      invariant forall v :: v in dist ==> dist[v] == Inf
      invariant forall v :: v in prev ==> prev[v] == None
    {
      dist := dist[order[i] := Inf];
      prev := prev[order[i] := None];
    }
    assert order[..|order|] == order;
    dist := dist[source := Fin(0.0)];
  }

  // ---------------------------------------------------------------------
  // Selecting the next node (App.js:29-37)
  // ---------------------------------------------------------------------

  /**
    The outcome of the scan over `unvisited`: null exactly when every
    unvisited node is at Infinity; otherwise a node of finite, minimal
    distance, and the first such node in scan order (the comparison is a
    strict `<`, so a later node of equal distance does not replace it).
   */
  ghost predicate IsSelection<N(!new)>(unvisited: seq<N>, dist: map<N, Dist>, current: Option<N>)
    requires forall x :: x in unvisited ==> x in dist
  {
    && (current.None? <==> forall x :: x in unvisited ==> dist[x] == Inf)
    && (current.Some? ==>
          && current.value in unvisited
          && dist[current.value].Fin?
          && (forall x :: x in unvisited ==> Le(dist[current.value], dist[x]))
          && exists k :: 0 <= k < |unvisited| && unvisited[k] == current.value && FirstAt(unvisited, dist, k))
  }

  /** Every node scanned before position k is strictly farther than the node at k. */
  ghost predicate FirstAt<N(!new)>(unvisited: seq<N>, dist: map<N, Dist>, k: int)
    requires 0 <= k < |unvisited|
    requires forall x :: x in unvisited ==> x in dist
  {
    forall j :: 0 <= j < k ==> Lt(dist[unvisited[k]], dist[unvisited[j]])
  }

  method SelectMin<N(==,!new)>(unvisited: seq<N>, dist: map<N, Dist>) returns (current: Option<N>)
    requires forall x :: x in unvisited ==> x in dist
    ensures IsSelection(unvisited, dist, current)
  {
    current := None;
    var minDistance := Inf;
    ghost var k := 0;
    for i := 0 to |unvisited|
      invariant current.None? ==> minDistance == Inf
      invariant current.None? ==> forall j :: 0 <= j < i ==> dist[unvisited[j]] == Inf
      invariant current.Some? ==> 0 <= k < i && unvisited[k] == current.value
      invariant current.Some? ==> minDistance == dist[current.value] && minDistance.Fin?
      invariant current.Some? ==> forall j :: 0 <= j < i ==> Le(minDistance, dist[unvisited[j]])
      invariant current.Some? ==> forall j :: 0 <= j < k ==> Lt(minDistance, dist[unvisited[j]])
    {
      var node := unvisited[i];
      if Lt(dist[node], minDistance) {
        current := Some(node);
        minDistance := dist[node];
        k := i;
      }
    }
    if current.Some? {
      assert FirstAt(unvisited, dist, k);
    } else {
      forall x | x in unvisited ensures dist[x] == Inf {
        var j :| 0 <= j < |unvisited| && unvisited[j] == x;
      }
    }
  }

  /** `unvisited.delete(x)`: the sequence without x, the rest in order. */
  function Without<N(==,!new)>(s: seq<N>, x: N): (r: seq<N>)
    ensures forall y :: y in r <==> y in s && y != x
    ensures x !in s ==> r == s
    ensures x in s && Distinct(s) ==> |r| == |s| - 1
    ensures Distinct(s) ==> Distinct(r)
  {
    if s == [] then []
    else
      var rest := Without(s[1..], x);
      assert Distinct(s) ==> Distinct(s[1..]) && s[0] !in s[1..];
      if s[0] == x then rest
      else
        var r := [s[0]] + rest;
        assert Distinct(s) ==> Distinct(r) by {
          if Distinct(s) {
            forall i, j | 0 <= i < j < |r| ensures r[i] != r[j] {
              if i == 0 {
                assert r[j] in rest;
              } else {
                assert r[i] == rest[i - 1] && r[j] == rest[j - 1];
              }
            }
          }
        }
        r
  }

  /** Deleting x from a sequence of distinct nodes cuts it out at its position, keeping the order of the rest. */
  lemma {:induction false} WithoutAt<N(!new)>(s: seq<N>, x: N) returns (k: nat)
    requires Distinct(s) && x in s
    ensures k < |s| && s[k] == x
    ensures Without(s, x) == s[..k] + s[k + 1..]
  {
    if s[0] == x {
      k := 0;
    } else {
      var k1 := WithoutAt(s[1..], x);
      k := k1 + 1;
      assert s[..k] == [s[0]] + s[1..][..k1];
      assert s[k + 1..] == s[1..][k1 + 1..];
    }
  }

  // ---------------------------------------------------------------------
  // Relaxation (App.js:45-51)
  // ---------------------------------------------------------------------

  /** Going through c lowers the tentative distance of v. */
  ghost predicate Improves<N(!new)>(g: Graph<N>, c: N, dist: map<N, Dist>, v: N)
    requires c in g && c in dist
  {
    v in g[c] && v in dist && Lt(Add(dist[c], g[c][v]), dist[v])
  }

  /**
    The tables after relaxing every edge out of c: each neighbour that c
    improves gets the new distance and c as predecessor in the same step;
    every other entry is unchanged.
   */
  ghost predicate RelaxedBy<N(!new)>(g: Graph<N>, c: N, dist: map<N, Dist>, prev: map<N, Option<N>>,
                         dist': map<N, Dist>, prev': map<N, Option<N>>)
    requires c in g && c in dist && dist.Keys == prev.Keys
  {
    && dist'.Keys == dist.Keys && prev'.Keys == prev.Keys
    && forall v :: v in dist ==>
         if Improves(g, c, dist, v) then dist'[v] == Add(dist[c], g[c][v]) && prev'[v] == Some(c)
         else dist'[v] == dist[v] && prev'[v] == prev[v]
  }

  /**
    Relaxes the edges out of c, one neighbour at a time in an arbitrary
    order. A neighbour that is not a key of the distance table compares as
    `undefined` in JavaScript and is never updated.
   */
  method RelaxNeighbours<N(==,!new)>(g: Graph<N>, c: N, dist: map<N, Dist>, prev: map<N, Option<N>>)
    returns (dist': map<N, Dist>, prev': map<N, Option<N>>)
    requires NonNegative(g)
    requires c in g && c in dist && dist.Keys == prev.Keys
    ensures RelaxedBy(g, c, dist, prev, dist', prev')
    ensures forall v :: v in dist ==> Le(dist'[v], dist[v])
    ensures forall v :: v in g[c] && v in dist ==> Le(dist'[v], Add(dist[c], g[c][v]))
  {
    dist', prev' := dist, prev;
    var todo := g[c].Keys;
    while todo != {}
      invariant todo <= g[c].Keys
      invariant dist'.Keys == dist.Keys && prev'.Keys == prev.Keys
      invariant dist'[c] == dist[c]
      invariant forall v :: v in dist ==>
        if v !in todo && Improves(g, c, dist, v) then dist'[v] == Add(dist[c], g[c][v]) && prev'[v] == Some(c)
        else dist'[v] == dist[v] && prev'[v] == prev[v]
      decreases todo
    {
      var neighbor :| neighbor in todo;
      var newDistance := Add(dist'[c], g[c][neighbor]);
      if neighbor in dist' && Lt(newDistance, dist'[neighbor]) {
        dist' := dist'[neighbor := newDistance];
        prev' := prev'[neighbor := Some(c)];
      }
      todo := todo - {neighbor};
    }
  }

  // ---------------------------------------------------------------------
  // One round of the main loop (App.js:29-51)
  // ---------------------------------------------------------------------

  /**
    One pass of the `while` body: select, delete from unvisited, stop at the
    target, relax. When every unvisited node is at Infinity nothing is
    selected, `unvisited.delete(null)` removes nothing and `graph[null]` has
    no neighbours: the round changes no state at all.
   */
  method Round<N(==,!new)>(g: Graph<N>, target: N, dist: map<N, Dist>, prev: map<N, Option<N>>, unvisited: seq<N>)
    returns (selected: Option<N>, reached: bool,
             dist': map<N, Dist>, prev': map<N, Option<N>>, unvisited': seq<N>)
    requires NonNegative(g)
    requires dist.Keys == prev.Keys
    requires forall x :: x in unvisited ==> x in g && x in dist
    ensures IsSelection(unvisited, dist, selected)
    ensures selected.None? ==> !reached && dist' == dist && prev' == prev && unvisited' == unvisited
    ensures selected.Some? ==> unvisited' == Without(unvisited, selected.value)
    ensures selected.Some? ==> reached == (selected.value == target)
    ensures reached ==> dist' == dist && prev' == prev
    ensures selected.Some? && !reached ==> RelaxedBy(g, selected.value, dist, prev, dist', prev')
    ensures selected.Some? && !reached ==>
      forall v :: v in g[selected.value] && v in dist ==> Le(dist'[v], Add(dist[selected.value], g[selected.value][v]))
  {
    selected := SelectMin(unvisited, dist);
    reached := false;
    dist', prev', unvisited' := dist, prev, unvisited;
    if selected.Some? {
      var current := selected.value;
      unvisited' := Without(unvisited, current);
      if current == target {
        reached := true;
      } else {
        dist', prev' := RelaxNeighbours(g, current, dist, prev);
      }
    }
  }

  // ---------------------------------------------------------------------
  // Invariants of the main loop
  // ---------------------------------------------------------------------

  /**
    No path from s to u is shorter than d: u's distance is final.
   */
  ghost predicate LowerBound<N(!new)>(g: Graph<N>, s: N, u: N, d: real) {
    forall p :: PathFromTo(g, p, s, u) ==> d <= Weight(g, p)
  }

  /**
    The predecessor link of v: its predecessor u is visited (has a rank), v
    is a neighbour of u and v's distance is u's plus the edge; a visited v
    was visited after u.
   */
  ghost predicate LinkOk<N(!new)>(g: Graph<N>, dist: map<N, Dist>, prev: map<N, Option<N>>, rank: map<N, nat>, v: N)
    requires v in prev && prev[v].Some? && v in dist
  {
    var u := prev[v].value;
    && u in rank && u in g && u in dist && v in g[u]
    && dist[u].Fin?
    && dist[v] == Fin(dist[u].d + g[u][v])
    && (v in rank ==> rank[u] < rank[v])
  }

  /** Every predecessor link in the tables is sound. */
  ghost predicate LinksOk<N(!new)>(g: Graph<N>, dist: map<N, Dist>, prev: map<N, Option<N>>, rank: map<N, nat>) {
    forall v :: v in prev && prev[v].Some? && v in dist ==> LinkOk(g, dist, prev, rank, v)
  }

  /** Finite distances are non-negative, and only the source lacks a predecessor among the reached nodes. */
  ghost predicate DistancesOk<N(!new)>(s: N, dist: map<N, Dist>, prev: map<N, Option<N>>) {
    && (forall v :: v in dist && dist[v].Fin? ==> dist[v].d >= 0.0)
    && (forall v :: v in prev && prev[v] == None && v != s && v in dist ==> dist[v] == Inf)
  }

  /** Every visited node is a key, was visited in a round before n, and has a finite distance. */
  ghost predicate RanksOk<N(!new)>(g: Graph<N>, dist: map<N, Dist>, rank: map<N, nat>, n: nat) {
    forall u :: u in rank ==> u in g && u in dist && rank[u] < n && dist[u].Fin?
  }

  /**
    What the distance and predecessor tables always satisfy. `rank` maps
    each visited node to the round in which it was visited, and every rank
    is below n.
   */
  ghost predicate ChainInv<N(!new)>(g: Graph<N>, s: N, dist: map<N, Dist>, prev: map<N, Option<N>>,
                                    rank: map<N, nat>, n: nat)
  {
    && dist.Keys == g.Keys && prev.Keys == g.Keys
    && s in g && dist[s] == Fin(0.0) && prev[s] == None
    && DistancesOk(s, dist, prev)
    && LinksOk(g, dist, prev, rank)
    && RanksOk(g, dist, rank, n)
  }

  /** The visited nodes (those with a rank) are exactly the keys not in unvisited. */
  ghost predicate Partition<N(!new)>(g: Graph<N>, unvisited: seq<N>, rank: map<N, nat>) {
    && Distinct(unvisited)
    && (forall x :: x in unvisited ==> x in g)
    && (forall v :: v in g ==> (v in rank <==> v !in unvisited))
  }

  /** Every visited node has a finite distance that no path from s undercuts. */
  ghost predicate Settled<N(!new)>(g: Graph<N>, s: N, dist: map<N, Dist>, rank: map<N, nat>) {
    forall u :: u in rank ==> u in dist && dist[u].Fin? && LowerBound(g, s, u, dist[u].d)
  }

  /** No visited node is farther than an unvisited one. */
  ghost predicate Ordered<N(!new)>(dist: map<N, Dist>, unvisited: seq<N>, rank: map<N, nat>) {
    forall u, x :: u in rank && x in unvisited && u in dist && x in dist ==> Le(dist[u], dist[x])
  }

  /** Every edge out of a visited node has been relaxed. */
  ghost predicate EdgesRelaxed<N(!new)>(g: Graph<N>, dist: map<N, Dist>, rank: map<N, nat>) {
    forall u, v :: u in rank && u in g && u in dist && v in g[u] && v in dist ==> Le(dist[v], Add(dist[u], g[u][v]))
  }

  /**
    The loop invariant of App.js:27-52 between rounds: the tables are
    consistent (ChainInv), the visited nodes are the keys not in unvisited,
    each has its final, minimal distance, no greater than any unvisited
    node's, and all its outgoing edges have been relaxed.
   */
  ghost predicate SearchInv<N(!new)>(g: Graph<N>, s: N, dist: map<N, Dist>, prev: map<N, Option<N>>,
                                     unvisited: seq<N>, rank: map<N, nat>, n: nat)
  {
    && ChainInv(g, s, dist, prev, rank, n)
    && NonNegative(g)
    && Partition(g, unvisited, rank)
    && Settled(g, s, dist, rank)
    && Ordered(dist, unvisited, rank)
    && EdgesRelaxed(g, dist, rank)
  }

  /** The state right after initialisation satisfies the loop invariant. */
  lemma InitialSearchInv<N(!new)>(g: Graph<N>, order: seq<N>, s: N, dist: map<N, Dist>, prev: map<N, Option<N>>)
    requires NonNegative(g) && KeyOrder(g, order) && s in g
    requires dist.Keys == g.Keys && prev.Keys == g.Keys
    requires dist[s] == Fin(0.0)
    requires forall v :: v in dist && v != s ==> dist[v] == Inf
    requires forall v :: v in prev ==> prev[v] == None
    ensures SearchInv(g, s, dist, prev, order, map[], 0)
  {
  }

  /**
    Along any path from s that ends at an unvisited node there is an
    unvisited node whose distance is at most the weight of the path.
   */
  lemma {:induction false} FrontierBound<N(!new)>(g: Graph<N>, s: N, dist: map<N, Dist>,
                                                  unvisited: seq<N>, rank: map<N, nat>, p: seq<N>)
    returns (y: N)
    requires s in g && dist.Keys == g.Keys && dist[s] == Fin(0.0) && NonNegative(g)
    requires Partition(g, unvisited, rank) && Settled(g, s, dist, rank) && EdgesRelaxed(g, dist, rank)
    requires IsPath(g, p) && p[0] == s && p[|p| - 1] in unvisited
    ensures y in unvisited && Le(dist[y], Fin(Weight(g, p)))
    decreases |p|
  {
    if |p| == 1 {
      y := s;
    } else {
      var q := p[..|p| - 1];
      var x, v := p[|p| - 2], p[|p| - 1];
      assert IsPath(g, q) && q[0] == s && q[|q| - 1] == x;
      assert Weight(g, p) == Weight(g, q) + g[x][v];
      assert g[x][v] >= 0.0;
      if x in unvisited {
        y := FrontierBound(g, s, dist, unvisited, rank, q);
      } else {
        assert x in rank;
        assert LowerBound(g, s, x, dist[x].d);
        assert PathFromTo(g, q, s, x);
        assert Le(dist[v], Add(dist[x], g[x][v]));
        y := v;
      }
    }
  }

  /** A node selected as nearest unvisited node has its final, minimal distance. */
  lemma SelectedIsSettled<N(!new)>(g: Graph<N>, s: N, dist: map<N, Dist>, prev: map<N, Option<N>>,
                                   unvisited: seq<N>, rank: map<N, nat>, n: nat, c: N)
    requires SearchInv(g, s, dist, prev, unvisited, rank, n)
    requires c in unvisited && dist[c].Fin?
    requires forall x :: x in unvisited ==> Le(dist[c], dist[x])
    ensures LowerBound(g, s, c, dist[c].d)
  {
    forall p | PathFromTo(g, p, s, c) ensures dist[c].d <= Weight(g, p) {
      var y := FrontierBound(g, s, dist, unvisited, rank, p);
    }
  }

  /**
    While the target is unvisited and reachable, some unvisited node has a
    finite distance, so the scan never comes back with null.
   */
  lemma ReachableLeavesCandidate<N(!new)>(g: Graph<N>, s: N, dist: map<N, Dist>, prev: map<N, Option<N>>,
                                          unvisited: seq<N>, rank: map<N, nat>, n: nat, t: N, route: seq<N>)
    requires SearchInv(g, s, dist, prev, unvisited, rank, n)
    requires t in unvisited && PathFromTo(g, route, s, t)
    ensures exists x :: x in unvisited && dist[x].Fin?
  {
    var y := FrontierBound(g, s, dist, unvisited, rank, route);
  }

  /**
    The facts about one round that visits c and relaxes its edges, taking
    the tables from dist, prev to dist', prev': c is unvisited, finite and
    no nearer than any visited node.
   */
  ghost predicate VisitStep<N(!new)>(g: Graph<N>, s: N, dist: map<N, Dist>, prev: map<N, Option<N>>,
                                     rank: map<N, nat>, c: N, dist': map<N, Dist>, prev': map<N, Option<N>>)
  {
    && NonNegative(g)
    && dist.Keys == g.Keys && prev.Keys == g.Keys
    && s in g && dist[s] == Fin(0.0)
    && c in g && c !in rank && dist[c].Fin? && dist[c].d >= 0.0
    && (forall u :: u in rank ==> u in g && Le(dist[u], dist[c]))
    && RelaxedBy(g, c, dist, prev, dist', prev')
  }

  /** Visiting c improves no visited node, not c itself and not the source. */
  lemma VisitedUnchanged<N(!new)>(g: Graph<N>, s: N, dist: map<N, Dist>, prev: map<N, Option<N>>,
                                  rank: map<N, nat>, c: N, dist': map<N, Dist>, prev': map<N, Option<N>>)
    requires VisitStep(g, s, dist, prev, rank, c, dist', prev')
    ensures forall u :: u in rank || u == c || u == s ==> !Improves(g, c, dist, u)
    ensures forall u :: u in rank || u == c || u == s ==> dist'[u] == dist[u] && prev'[u] == prev[u]
    ensures forall v :: v in dist ==> Le(dist'[v], dist[v])
  {
    forall u | u in rank || u == c || u == s ensures !Improves(g, c, dist, u) {
      if u in g[c] {
        assert g[c][u] >= 0.0;
        if u in rank {
          assert Le(dist[u], dist[c]);
        }
      }
    }
  }

  /** After visiting c, the predecessor link of a single node v is still sound. */
  lemma VisitKeepsLink<N(!new)>(g: Graph<N>, dist: map<N, Dist>, prev: map<N, Option<N>>,
                                rank: map<N, nat>, n: nat, c: N, dist': map<N, Dist>, prev': map<N, Option<N>>, v: N)
    requires c in g && c in dist && dist[c].Fin? && c !in rank && dist.Keys == prev.Keys
    requires RelaxedBy(g, c, dist, prev, dist', prev')
    requires RanksOk(g, dist, rank, n)
    requires forall u :: u in rank || u == c ==> dist'[u] == dist[u]
    requires v in prev' && prev'[v].Some?
    requires prev[v].Some? ==> LinkOk(g, dist, prev, rank, v)
    ensures LinkOk(g, dist', prev', rank[c := n], v)
  {
    if Improves(g, c, dist, v) {
      assert v !in rank && v != c;
    }
  }

  /** After visiting c, every predecessor link is still sound. */
  lemma VisitKeepsLinks<N(!new)>(g: Graph<N>, s: N, dist: map<N, Dist>, prev: map<N, Option<N>>,
                                 rank: map<N, nat>, n: nat, c: N, dist': map<N, Dist>, prev': map<N, Option<N>>)
    requires ChainInv(g, s, dist, prev, rank, n)
    requires VisitStep(g, s, dist, prev, rank, c, dist', prev')
    ensures LinksOk(g, dist', prev', rank[c := n])
  {
    VisitedUnchanged(g, s, dist, prev, rank, c, dist', prev');
    forall v | v in prev' && prev'[v].Some? && v in dist' ensures LinkOk(g, dist', prev', rank[c := n], v) {
      VisitKeepsLink(g, dist, prev, rank, n, c, dist', prev', v);
    }
  }

  /** After visiting c, finite distances stay non-negative and a node without predecessor other than the source stays at Infinity. */
  lemma VisitKeepsDistances<N(!new)>(g: Graph<N>, s: N, dist: map<N, Dist>, prev: map<N, Option<N>>,
                                     rank: map<N, nat>, n: nat, c: N, dist': map<N, Dist>, prev': map<N, Option<N>>)
    requires ChainInv(g, s, dist, prev, rank, n)
    requires VisitStep(g, s, dist, prev, rank, c, dist', prev')
    ensures DistancesOk(s, dist', prev')
  {
    forall v | v in dist' && dist'[v].Fin? ensures dist'[v].d >= 0.0 {
      if Improves(g, c, dist, v) {
        assert g[c][v] >= 0.0;
      }
    }
  }

  /** Visiting c keeps the keys and the source's entries, and ranks c last. */
  lemma VisitKeepsShape<N(!new)>(g: Graph<N>, s: N, dist: map<N, Dist>, prev: map<N, Option<N>>,
                                 rank: map<N, nat>, n: nat, c: N, dist': map<N, Dist>, prev': map<N, Option<N>>)
    requires ChainInv(g, s, dist, prev, rank, n)
    requires VisitStep(g, s, dist, prev, rank, c, dist', prev')
    ensures dist'.Keys == g.Keys && prev'.Keys == g.Keys
    ensures dist'[s] == Fin(0.0) && prev'[s] == None
    ensures RanksOk(g, dist', rank[c := n], n + 1)
  {
    VisitedUnchanged(g, s, dist, prev, rank, c, dist', prev');
  }

  /** Visiting c keeps the tables consistent, with c ranked last. */
  lemma VisitKeepsChainInv<N(!new)>(g: Graph<N>, s: N, dist: map<N, Dist>, prev: map<N, Option<N>>,
                                    rank: map<N, nat>, n: nat, c: N, dist': map<N, Dist>, prev': map<N, Option<N>>)
    requires ChainInv(g, s, dist, prev, rank, n)
    requires VisitStep(g, s, dist, prev, rank, c, dist', prev')
    ensures ChainInv(g, s, dist', prev', rank[c := n], n + 1)
  {
    VisitKeepsShape(g, s, dist, prev, rank, n, c, dist', prev');
    VisitKeepsDistances(g, s, dist, prev, rank, n, c, dist', prev');
    VisitKeepsLinks(g, s, dist, prev, rank, n, c, dist', prev');
  }

  /** Visiting the nearest unvisited node c keeps visited nodes no farther than unvisited ones. */
  lemma VisitKeepsOrder<N(!new)>(g: Graph<N>, s: N, dist: map<N, Dist>, prev: map<N, Option<N>>,
                                 unvisited: seq<N>, rank: map<N, nat>, n: nat, c: N,
                                 dist': map<N, Dist>, prev': map<N, Option<N>>)
    requires VisitStep(g, s, dist, prev, rank, c, dist', prev')
    requires Partition(g, unvisited, rank) && Ordered(dist, unvisited, rank)
    requires c in unvisited && forall x :: x in unvisited ==> Le(dist[c], dist[x])
    ensures Partition(g, Without(unvisited, c), rank[c := n])
    ensures Ordered(dist', Without(unvisited, c), rank[c := n])
  {
    VisitedUnchanged(g, s, dist, prev, rank, c, dist', prev');
    var unvisited', rank' := Without(unvisited, c), rank[c := n];
    forall u, x | u in rank' && x in unvisited' && u in dist' && x in dist' ensures Le(dist'[u], dist'[x]) {
      assert x in unvisited && x != c;
      if Improves(g, c, dist, x) {
        assert g[c][x] >= 0.0;
        if u != c {
          assert Le(dist[u], dist[c]);
        }
      } else if u != c {
        assert Le(dist[u], dist[x]);
      }
    }
  }

  /** Visiting c, whose distance is final, keeps every visited distance final. */
  lemma VisitKeepsSettled<N(!new)>(g: Graph<N>, s: N, dist: map<N, Dist>, prev: map<N, Option<N>>,
                                   rank: map<N, nat>, n: nat, c: N, dist': map<N, Dist>, prev': map<N, Option<N>>)
    requires VisitStep(g, s, dist, prev, rank, c, dist', prev')
    requires Settled(g, s, dist, rank) && LowerBound(g, s, c, dist[c].d)
    ensures Settled(g, s, dist', rank[c := n])
  {
    VisitedUnchanged(g, s, dist, prev, rank, c, dist', prev');
  }

  /** After c's edges are relaxed, every edge out of a visited node stays relaxed. */
  lemma VisitKeepsRelaxed<N(!new)>(g: Graph<N>, s: N, dist: map<N, Dist>, prev: map<N, Option<N>>,
                                   rank: map<N, nat>, n: nat, c: N, dist': map<N, Dist>, prev': map<N, Option<N>>)
    requires VisitStep(g, s, dist, prev, rank, c, dist', prev')
    requires EdgesRelaxed(g, dist, rank)
    requires forall v :: v in g[c] && v in dist ==> Le(dist'[v], Add(dist[c], g[c][v]))
    ensures EdgesRelaxed(g, dist', rank[c := n])
  {
    VisitedUnchanged(g, s, dist, prev, rank, c, dist', prev');
    var rank' := rank[c := n];
    forall u, v | u in rank' && u in g && u in dist' && v in g[u] && v in dist'
      ensures Le(dist'[v], Add(dist'[u], g[u][v]))
    {
      if u != c {
        assert Le(dist[v], Add(dist[u], g[u][v]));
      }
    }
  }

  /** A round that visits the nearest unvisited node c and relaxes its edges keeps the loop invariant. */
  lemma VisitKeepsSearchInv<N(!new)>(g: Graph<N>, s: N, dist: map<N, Dist>, prev: map<N, Option<N>>,
                                     unvisited: seq<N>, rank: map<N, nat>, n: nat, c: N,
                                     dist': map<N, Dist>, prev': map<N, Option<N>>)
    requires SearchInv(g, s, dist, prev, unvisited, rank, n)
    requires c in unvisited && dist[c].Fin?
    requires forall x :: x in unvisited ==> Le(dist[c], dist[x])
    requires RelaxedBy(g, c, dist, prev, dist', prev')
    requires forall v :: v in g[c] && v in dist ==> Le(dist'[v], Add(dist[c], g[c][v]))
    ensures SearchInv(g, s, dist', prev', Without(unvisited, c), rank[c := n], n + 1)
  {
    SelectedIsSettled(g, s, dist, prev, unvisited, rank, n, c);
    assert VisitStep(g, s, dist, prev, rank, c, dist', prev');
    VisitKeepsChainInv(g, s, dist, prev, rank, n, c, dist', prev');
    VisitKeepsOrder(g, s, dist, prev, unvisited, rank, n, c, dist', prev');
    VisitKeepsSettled(g, s, dist, prev, rank, n, c, dist', prev');
    VisitKeepsRelaxed(g, s, dist, prev, rank, n, c, dist', prev');
  }

  /** Ranking one more node with a finite distance keeps the tables consistent. */
  lemma StopKeepsChainInv<N(!new)>(g: Graph<N>, s: N, dist: map<N, Dist>, prev: map<N, Option<N>>,
                                   rank: map<N, nat>, n: nat, c: N)
    requires ChainInv(g, s, dist, prev, rank, n)
    requires c in g && c !in rank && dist[c].Fin?
    ensures ChainInv(g, s, dist, prev, rank[c := n], n + 1)
  {
  }

  /**
    Every node with a finite distance is reached from the source by the
    path its predecessor chain spells out, of exactly that weight. Read
    backwards: a node that cannot be reached from the source keeps
    distance Infinity forever, so the scan never selects it.
   */
  lemma {:induction false} FiniteMeansReachable<N(!new)>(g: Graph<N>, s: N, dist: map<N, Dist>, prev: map<N, Option<N>>,
                                                    rank: map<N, nat>, n: nat, v: N)
    returns (p: seq<N>)
    requires ChainInv(g, s, dist, prev, rank, n)
    requires v in g && dist[v].Fin?
    ensures PathFromTo(g, p, s, v) && Weight(g, p) == dist[v].d
    ensures forall i :: 0 < i < |p| ==> p[i] in prev && prev[p[i]] == Some(p[i - 1])
    decreases if v in rank then rank[v] else n
  {
    if prev[v] == None {
      p := [s];
    } else {
      var u := prev[v].value;
      assert LinkOk(g, dist, prev, rank, v);
      var q := FiniteMeansReachable(g, s, dist, prev, rank, n, u);
      AppendEdge(g, q, v);
      p := q + [v];
      forall i | 0 < i < |p| ensures p[i] in prev && prev[p[i]] == Some(p[i - 1]) {
        if i < |q| {
          assert p[i] == q[i] && p[i - 1] == q[i - 1];
        }
      }
    }
  }

  /** A node that no path from the source reaches has distance Infinity. */
  lemma UnreachableIsInf<N(!new)>(g: Graph<N>, s: N, dist: map<N, Dist>, prev: map<N, Option<N>>,
                                  rank: map<N, nat>, n: nat, t: N)
    requires ChainInv(g, s, dist, prev, rank, n)
    requires t in g && forall p :: !PathFromTo(g, p, s, t)
    ensures dist[t] == Inf
  {
    if dist[t].Fin? {
      var p := FiniteMeansReachable(g, s, dist, prev, rank, n, t);
    }
  }

  /**
    One pass of the `while` body when the target cannot be reached: the
    pass does not break, the target stays unvisited at Infinity (so
    `unvisited.size > 0` still holds), and the loop invariant is kept.
    Every pass is one of these, so the JavaScript loop never ends.
   */
  method UnreachableRound<N(==,!new)>(g: Graph<N>, s: N, t: N, dist: map<N, Dist>, prev: map<N, Option<N>>,
                                      unvisited: seq<N>, ghost rank: map<N, nat>, ghost n: nat)
    returns (reached: bool, dist': map<N, Dist>, prev': map<N, Option<N>>, unvisited': seq<N>,
             ghost rank': map<N, nat>, ghost n': nat)
    requires SearchInv(g, s, dist, prev, unvisited, rank, n)
    requires t in unvisited && forall p :: !PathFromTo(g, p, s, t)
    ensures !reached
    ensures SearchInv(g, s, dist', prev', unvisited', rank', n')
    ensures t in unvisited' && dist'[t] == Inf
  {
    UnreachableIsInf(g, s, dist, prev, rank, n, t);
    var selected;
    selected, reached, dist', prev', unvisited' := Round(g, t, dist, prev, unvisited);
    rank', n' := rank, n;
    if selected.Some? {
      var current := selected.value;
      VisitKeepsSearchInv(g, s, dist, prev, unvisited, rank, n, current, dist', prev');
      rank', n' := rank[current := n], n + 1;
      UnreachableIsInf(g, s, dist', prev', rank', n', t);
    }
  }

  // ---------------------------------------------------------------------
  // Path reconstruction (App.js:54-63)
  // ---------------------------------------------------------------------

  /** Distance from the visit-order measure used to show the walk back ends. */
  ghost function Height<N(!new)>(rank: map<N, nat>, n: nat, v: N): nat {
    if v in rank then rank[v] else n
  }

  /**
    Walks the predecessor links back from the target, pushing each node,
    and reverses the result. With the target at Infinity the path is empty.
   */
  method ReconstructPath<N(==,!new)>(g: Graph<N>, s: N, target: N, dist: map<N, Dist>, prev: map<N, Option<N>>,
                            ghost rank: map<N, nat>, ghost n: nat)
    returns (path: seq<N>)
    requires ChainInv(g, s, dist, prev, rank, n)
    requires target in g
    ensures dist[target] == Inf ==> path == []
    ensures dist[target].Fin? ==> PathFromTo(g, path, s, target) && Weight(g, path) == dist[target].d
    ensures target == s ==> path == [s]
  {
    path := [];
    if dist[target] != Inf {
      var temp := Some(target);
      while temp.Some?
        invariant temp.Some? ==> temp.value in g
        invariant path == [] ==> temp == Some(target)
        invariant path != [] ==>
          var r := Reversed(path);
          && PathFromTo(g, r, r[0], target)
          && dist[r[0]].Fin?
          && Weight(g, r) + dist[r[0]].d == dist[target].d
          && temp == prev[r[0]]
        invariant target == s && path != [] ==> path == [s] && temp == None
        decreases if temp.Some? then Height(rank, n, temp.value) + 1 else 0
      {
        var t := temp.value;
        ghost var r := Reversed(path);
        assert Reversed(path + [t]) == [t] + r by {
          assert (path + [t])[..|path|] == path;
        }
        if path != [] {
          assert LinkOk(g, dist, prev, rank, r[0]);
          PrependEdge(g, t, r);
        }
        path := path + [t];
        temp := prev[t];
        if temp.Some? {
          assert LinkOk(g, dist, prev, rank, t);
        }
      }
      path := Reversed(path);
    }
  }

  // ---------------------------------------------------------------------
  // The engine (App.js:13-66)
  // ---------------------------------------------------------------------

  /**
    `dijkstra(graph, source, target)`. The loop ends only if the target is
    reachable (see UnreachableRound and UnreachableIsInf for what
    happens otherwise), so the caller supplies a route from source to target as
    evidence; it is not used by the computation.

    The returned distance is finite and equals the weight of the returned
    path, which runs from source to target along edges of the graph, and no
    path from source to target is lighter.
   */
  method Dijkstra<N(==,!new)>(g: Graph<N>, order: seq<N>, source: N, target: N, ghost route: seq<N>)
    returns (distance: Dist, path: seq<N>)
    requires NonNegative(g)
    requires KeyOrder(g, order)
    requires source in g && target in g
    requires PathFromTo(g, route, source, target)
    ensures distance.Fin?
    ensures PathFromTo(g, path, source, target)
    ensures distance.d == Weight(g, path)
    ensures forall p :: PathFromTo(g, p, source, target) ==> distance.d <= Weight(g, p)
    ensures source == target ==> distance == Fin(0.0) && path == [source]
  {
    var dist, prev := InitTables(g, order, source);
    var unvisited := order;
    ghost var rank: map<N, nat> := map[];
    ghost var n: nat := 0;
    InitialSearchInv(g, order, source, dist, prev);

    while |unvisited| > 0
      invariant SearchInv(g, source, dist, prev, unvisited, rank, n)
      invariant target in unvisited
      decreases |unvisited|
    {
      ReachableLeavesCandidate(g, source, dist, prev, unvisited, rank, n, target, route);
      var selected, reached, dist', prev', unvisited' := Round(g, target, dist, prev, unvisited);
      var current := selected.value;
      if reached {
        SelectedIsSettled(g, source, dist, prev, unvisited, rank, n, current);
        StopKeepsChainInv(g, source, dist, prev, rank, n, current);
        rank, n := rank[current := n], n + 1;
        unvisited := unvisited';
        break;
      }
      VisitKeepsSearchInv(g, source, dist, prev, unvisited, rank, n, current, dist', prev');
      dist, prev, unvisited := dist', prev', unvisited';
      rank, n := rank[current := n], n + 1;
    }

    path := ReconstructPath(g, source, target, dist, prev, rank, n);
    distance := dist[target];
  }
}
