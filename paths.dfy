/**
 * `ShowShortestPaths` without the drawing: for every node, walk the `previous`
 * chain back to node 0 and read the weight of each edge on the way.
 */
module ShortestPaths {
  import opened Wrappers
  import opened Graph
  import opened Dijkstra

  /** One step of the walk: the edge from `previous[to]` into `to` and its weight. */
  datatype Edge = Edge(from: int, to: int, weight: int)

  /** The sum of the weights shown along a walk. */
  function TotalWeight(edges: seq<Edge>): int
    decreases |edges|
  {
    if |edges| == 0 then 0 else edges[0].weight + TotalWeight(edges[1..])
  }

  /**
   * `edges` is the walk that starts at v and follows `previous` until it stands on u:
   * each edge leaves the predecessor of the node the walk is on, enters that node
   * (never node 0, where the walk stops) and carries the matrix weight between them.
   */
  ghost predicate Chain(W: seq<seq<int>>, previous: seq<int>, edges: seq<Edge>, v: int, u: int)
    requires IsSquare(W) && |previous| == |W|
    decreases |edges|
  {
    if |edges| == 0 then v == u
    else
      0 < v < |W| && 0 <= previous[v] < |W| &&
      edges[0] == Edge(previous[v], v, W[previous[v]][v]) &&
      Chain(W, previous, edges[1..], previous[v], u)
  }

  /** What the walk from v outputs: nothing for an unreached node, else the chain to node 0 weighing distances[v]. */
  ghost predicate Traced(W: seq<seq<int>>, distances: seq<int>, previous: seq<int>, v: int, r: Option<seq<Edge>>)
    requires IsSquare(W) && |distances| == |W| && |previous| == |W| && 0 <= v < |W|
  {
    (r.None? <==> distances[v] == Inf) &&
    (r.Some? ==>
      Chain(W, previous, r.value, v, 0) &&
      TotalWeight(r.value) == distances[v] &&
      |r.value| < |W|)
  }

  lemma {:induction false} TotalWeightAppend(edges: seq<Edge>, e: Edge)
    ensures TotalWeight(edges + [e]) == TotalWeight(edges) + e.weight
    decreases |edges|
  {
    if |edges| > 0 {
      assert (edges + [e])[1..] == edges[1..] + [e];
      TotalWeightAppend(edges[1..], e);
    } else {
      assert (edges + [e])[1..] == [];
    }
  }

  lemma {:induction false} ChainAppend(W: seq<seq<int>>, previous: seq<int>, edges: seq<Edge>, v: int, u: int)
    requires IsSquare(W) && |previous| == |W|
    requires Chain(W, previous, edges, v, u)
    requires 0 < u < |W| && 0 <= previous[u] < |W|
    ensures Chain(W, previous, edges + [Edge(previous[u], u, W[previous[u]][u])], v, previous[u])
    decreases |edges|
  {
    var e := Edge(previous[u], u, W[previous[u]][u]);
    if |edges| == 0 {
      assert ([] + [e])[1..] == [];
    } else {
      assert (edges + [e])[1..] == edges[1..] + [e];
      ChainAppend(W, previous, edges[1..], previous[v], u);
    }
  }

  /**
   * The inner `while` loop of `ShowShortestPaths` for node `target`. Where Form1
   * would index with -1 (an unreached node has no predecessor), it returns None.
   */
  method TracePath(W: seq<seq<int>>, distances: seq<int>, previous: seq<int>, target: int)
    returns (path: Option<seq<Edge>>)
    requires WeightsInRange(W) && PredecessorTree(W, distances, previous)
    requires 0 <= target < |W| && distances[0] == 0
    ensures Traced(W, distances, previous, target, path)
  {
    var currentNode := target;
    var edges: seq<Edge> := [];
    ghost var seen: set<int> := {};  // the nodes the walk has left
    while currentNode != 0
      invariant 0 <= currentNode < |W|
      invariant Chain(W, previous, edges, target, currentNode)
      invariant TotalWeight(edges) + distances[currentNode] == distances[target]
      invariant distances[currentNode] < Inf || (edges == [] && currentNode == target)
      invariant edges != [] ==> distances[target] < Inf
      invariant |seen| == |edges|
      invariant forall x :: x in seen ==> 0 < x < |W| && distances[currentNode] < distances[x]
      decreases distances[currentNode]
    {
      var previousNode := previous[currentNode];
      if previousNode == -1 {
        return None;
      }
      var weight := W[previousNode][currentNode];
      ChainAppend(W, previous, edges, target, currentNode);
      TotalWeightAppend(edges, Edge(previousNode, currentNode, weight));
      edges := edges + [Edge(previousNode, currentNode, weight)];
      seen := seen + {currentNode};
      currentNode := previousNode;
    }
    assert |edges| < |W| by {
      SubsetCard(seen, Nodes(|W|) - {0});
    }
    path := Some(edges);
  }

  /** The outer loop of `ShowShortestPaths`: paths[k] is the walk from node k + 1, for the nodes 1..N-1. */
  method ShowShortestPaths(W: seq<seq<int>>, distances: seq<int>, previous: seq<int>)
    returns (paths: seq<Option<seq<Edge>>>)
    requires WeightsInRange(W) && PredecessorTree(W, distances, previous)
    requires |W| > 0 ==> distances[0] == 0
    ensures |paths| == if |W| == 0 then 0 else |W| - 1
    ensures forall k :: 0 <= k < |paths| ==> Traced(W, distances, previous, k + 1, paths[k])
  {
    paths := [];
    var i := 1;
    while i < |W|
      invariant 1 <= i && (i <= |W| || i == 1)
      invariant |paths| == i - 1
      invariant forall k :: 0 <= k < |paths| ==> k + 1 < |W| && Traced(W, distances, previous, k + 1, paths[k])
    {
      var path := TracePath(W, distances, previous, i);
      paths := paths + [path];
      i := i + 1;
    }
  }

  // ---------------------------------------------------------------------------
  // The walk is a lightest path of the graph
  // ---------------------------------------------------------------------------

  /** The nodes of a walk from v, in path order: node 0 first, v last. */
  function PathOf(v: int, edges: seq<Edge>): (nodes: seq<int>)
    ensures |nodes| == |edges| + 1 && nodes[|nodes| - 1] == v
    decreases |edges|
  {
    if |edges| == 0 then [v] else PathOf(edges[0].from, edges[1..]) + [v]
  }

  /** A walk to node 0 over a predecessor tree, read backwards, is a path from node 0 of the same weight. */
  lemma {:induction false} ChainIsPath(W: seq<seq<int>>, d: seq<int>, p: seq<int>, edges: seq<Edge>, v: int)
    requires PredecessorTree(W, d, p) && Chain(W, p, edges, v, 0)
    requires 0 <= v < |W|
    ensures IsPath(W, PathOf(v, edges)) && PathOf(v, edges)[0] == 0
    ensures PathWeight(W, PathOf(v, edges)) == TotalWeight(edges)
    decreases |edges|
  {
    if |edges| > 0 {
      var u := p[v];
      var front := PathOf(u, edges[1..]);
      ChainIsPath(W, d, p, edges[1..], u);
      var path := front + [v];
      assert path == PathOf(v, edges);
      assert IsPath(W, path) by {
        forall k | 0 <= k < |path| - 1 ensures W[path[k]][path[k + 1]] != Inf {
          if k < |path| - 2 {
            assert path[k] == front[k] && path[k + 1] == front[k + 1];
          }
        }
      }
      PathWeightAppend(W, front, v);
    }
  }

  /** On a result of ComputeShortestPaths, every walk shown is a lightest path from node 0. */
  lemma TracedIsShortest(W: seq<seq<int>>, d: seq<int>, p: seq<int>, v: int, edges: seq<Edge>)
    requires WeightsInRange(W) && ShortestPathResult(W, d, p) && 0 <= v < |W|
    requires Traced(W, d, p, v, Some(edges))
    ensures IsPath(W, PathOf(v, edges)) && PathOf(v, edges)[0] == 0
    ensures PathWeight(W, PathOf(v, edges)) == TotalWeight(edges)
    ensures IsShortestDistance(W, v, TotalWeight(edges))
  {
    ChainIsPath(W, d, p, edges, v);
    DistanceIsShortest(W, d, p, v);
  }
}
