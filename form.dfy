/**
 * The form's state and its two buttons, without the UI: "generate graph" rebuilds
 * the adjacency matrix, "Dijkstra" recomputes `distances` and `previous` and then
 * walks the shortest paths.
 */
module Visualization {
  import opened Wrappers
  import opened Graph
  import opened Dijkstra
  import opened ShortestPaths

  class DijkstraForm {
    var numNodes: nat
    var adjacencyMatrix: seq<seq<int>>
    var distances: seq<int>
    var previous: seq<int>

    /** The matrix is always a graph the generator can build, for the current node count. */
    ghost predicate Valid()
      reads this
    {
      IsGeneratedGraph(adjacencyMatrix, numNodes)
    }

    /** `Form1_Load`: no nodes, an empty matrix and no results. */
    constructor ()
      ensures Valid()
      ensures numNodes == 0 && adjacencyMatrix == [] && distances == [] && previous == []
    {
      numNodes := 0;
      adjacencyMatrix := [];
      distances := [];
      previous := [];
    }

    /**
     * `GenerateGraphButton_Click` for a parsed node count n: an n×n matrix of `Inf`,
     * then one drawn weight per pair i < j. The previous results stay as they were.
     */
    method GenerateGraph(n: nat, weights: seq<int>)
      requires |weights| == PairCount(n)
      requires forall k :: 0 <= k < |weights| ==> MinWeight <= weights[k] <= MaxWeight
      modifies this
      ensures Valid()
      ensures numNodes == n && GeneratedFrom(adjacencyMatrix, n, weights)
      ensures distances == old(distances) && previous == old(previous)
    {
      numNodes := n;
      var m := NewMatrix(n);
      adjacencyMatrix := GenerateRandomGraph(m, n, weights);
      GeneratedFromIsGenerated(adjacencyMatrix, n, weights);
    }

    /**
     * `DijkstraButton_Click`: shortest paths from node 0 over the current graph, which
     * is complete, so every node is reached and every walk shown reaches node 0.
     * `settled` is the order in which the nodes were visited; by
     * `Dijkstra.RunIsDetermined`, the new fields are the only ones a run can leave.
     */
    method RunDijkstra() returns (paths: seq<Option<seq<Edge>>>, ghost settled: seq<int>)
      requires Valid()
      requires numNodes * MaxWeight < Inf  // no distance overflows a C# int
      modifies this
      ensures Valid()
      ensures numNodes == old(numNodes) && adjacencyMatrix == old(adjacencyMatrix)
      ensures DijkstraRun(adjacencyMatrix, distances, previous, settled)
      ensures forall v :: 0 <= v < numNodes ==> distances[v] < Inf
      ensures |paths| == if numNodes == 0 then 0 else numNodes - 1
      ensures forall k :: 0 <= k < |paths| ==> Traced(adjacencyMatrix, distances, previous, k + 1, paths[k])
      ensures forall k :: 0 <= k < |paths| ==> paths[k].Some?
    {
      var d, p;
      d, p, paths, settled := RunOnGraph(adjacencyMatrix, numNodes);
      distances, previous := d, p;
    }
  }

  /** The button's work on a generated graph with n nodes, apart from the form's fields. */
  method RunOnGraph(W: seq<seq<int>>, n: nat)
    returns (distances: seq<int>, previous: seq<int>, paths: seq<Option<seq<Edge>>>, ghost settled: seq<int>)
    requires IsGeneratedGraph(W, n) && n * MaxWeight < Inf
    ensures DijkstraRun(W, distances, previous, settled)
    ensures forall v :: 0 <= v < n ==> distances[v] < Inf
    ensures |paths| == if n == 0 then 0 else n - 1
    ensures forall k :: 0 <= k < |paths| ==> Traced(W, distances, previous, k + 1, paths[k])
    ensures forall k :: 0 <= k < |paths| ==> paths[k].Some?
  {
    GeneratedGraphIsComplete(W, n);
    distances, previous, settled := ComputeShortestPaths(W);
    CompleteGraphSettlesAll(W, distances, previous, settled);
    paths := ShowShortestPaths(W, distances, previous);
    forall k | 0 <= k < |paths| ensures paths[k].Some? {
      assert Traced(W, distances, previous, k + 1, paths[k]);
    }
  }
}
