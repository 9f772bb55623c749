/**
 * Single-source shortest paths from node 0, the list version run by
 * `DijkstraButton_Click` in Form1: initialise `distances` and `previous`, then repeatedly
 * pick the unvisited node with the strictly smallest distance, mark it visited
 * and relax the edges to its unvisited neighbours.
 */
module Dijkstra {
  import opened Graph

  // ---------------------------------------------------------------------------
  // What the algorithm establishes
  // ---------------------------------------------------------------------------

  /**
   * `previous` is a shortest-path tree for `distances`: exactly node 0 and the
   * unreached nodes have no predecessor, and every other node's distance is its
   * predecessor's distance plus the weight of the edge between them.
   */
  ghost predicate PredecessorTree(W: seq<seq<int>>, distances: seq<int>, previous: seq<int>) {
    IsSquare(W) && |distances| == |W| && |previous| == |W| &&
    (forall v :: 0 <= v < |W| ==> 0 <= distances[v] <= Inf) &&
    (forall v {:trigger previous[v]} :: 0 <= v < |W| ==> (previous[v] == -1 <==> v == 0 || distances[v] == Inf)) &&
    forall v :: 0 <= v < |W| && previous[v] != -1 ==>
      0 <= previous[v] < |W| && W[previous[v]][v] != Inf &&
      distances[v] == distances[previous[v]] + W[previous[v]][v]
  }

  /** No edge offers a shortcut: distances[v] <= distances[u] + W[u][v]. */
  ghost predicate Triangle(W: seq<seq<int>>, distances: seq<int>)
    requires IsSquare(W) && |distances| == |W|
  {
    forall u, v {:trigger W[u][v]} :: 0 <= u < |W| && 0 <= v < |W| && W[u][v] != Inf ==>
      distances[v] <= distances[u] + W[u][v]
  }

  /** distances[v] is a lower bound on the weight of every path from node 0 to v. */
  ghost predicate LowerBound(W: seq<seq<int>>, distances: seq<int>)
    requires IsSquare(W) && |distances| == |W|
  {
    forall p {:trigger IsPath(W, p)} :: IsPath(W, p) && p[0] == 0 ==> distances[p[|p| - 1]] <= PathWeight(W, p)
  }

  /** The result of a run: distances and predecessors of single-source shortest paths from node 0. */
  ghost predicate ShortestPathResult(W: seq<seq<int>>, distances: seq<int>, previous: seq<int>) {
    PredecessorTree(W, distances, previous) &&
    (|W| > 0 ==> distances[0] == 0) &&
    Triangle(W, distances) &&
    LowerBound(W, distances) &&
    FiniteExactlyWhenReachable(W, distances)
  }

  /** A node has a finite distance exactly when some path leads to it from node 0. */
  ghost predicate FiniteExactlyWhenReachable(W: seq<seq<int>>, distances: seq<int>)
    requires |distances| == |W|
  {
    forall v :: 0 <= v < |W| ==> (distances[v] < Inf <==> Reachable(W, v))
  }

  /**
   * What one run of `DijkstraButton_Click` leaves: a shortest-path result with node 0
   * at 0 and no predecessor; `settled` (its `visited` list) holds each node with a
   * finite distance once, in the order the scan settles them; and each predecessor
   * is the first settled node offering its distance.
   */
  ghost predicate DijkstraRun(W: seq<seq<int>>, distances: seq<int>, previous: seq<int>, settled: seq<int>) {
    ShortestPathResult(W, distances, previous) &&
    (|W| > 0 ==> distances[0] == 0 && previous[0] == -1) &&
    SettledNodes(W, settled) &&
    (forall v :: 0 <= v < |W| ==> (v in settled <==> distances[v] < Inf)) &&
    SettledInOrder(distances, settled) &&
    FirstPredecessors(W, distances, previous, settled)
  }

  /** distances[v] is the weight of a lightest path from node 0 to v. */
  ghost predicate IsShortestDistance(W: seq<seq<int>>, v: int, d: int) {
    (exists p {:trigger IsPath(W, p)} :: IsPath(W, p) && p[0] == 0 && p[|p| - 1] == v && PathWeight(W, p) == d) &&
    forall p {:trigger IsPath(W, p)} :: IsPath(W, p) && p[0] == 0 && p[|p| - 1] == v ==> d <= PathWeight(W, p)
  }

  predicate Distinct(s: seq<int>) {
    forall a, b :: 0 <= a < b < |s| ==> s[a] != s[b]
  }

  // ---------------------------------------------------------------------------
  // The algorithm
  // ---------------------------------------------------------------------------

  /**
   * `node` is the one the selection scan picks: an unvisited node of finite distance,
   * no farther than any unvisited node and strictly nearer than every unvisited node
   * of lower index.
   */
  predicate Nearest(distances: seq<int>, visited: seq<int>, node: int) {
    0 <= node < |distances| && node !in visited && distances[node] < Inf &&
    (forall j :: 0 <= j < |distances| && j !in visited ==> distances[node] <= distances[j]) &&
    (forall j :: 0 <= j < node && j !in visited ==> distances[node] < distances[j])
  }

  /**
   * The selection scan: the first unvisited node, in index order, whose distance
   * is strictly below every distance seen before it, starting from `Inf`; -1 when
   * no unvisited node has a finite distance.
   */
  method SelectMinDistanceNode(distances: seq<int>, visited: seq<int>) returns (node: int)
    ensures -1 <= node < |distances|
    ensures node == -1 <==> forall j :: 0 <= j < |distances| && j !in visited ==> distances[j] >= Inf
    ensures node != -1 ==> Nearest(distances, visited, node)
  {
    var minDistance := Inf;
    node := -1;
    for j := 0 to |distances|
      invariant -1 <= node < j
      invariant node == -1 ==> minDistance == Inf
      invariant node != -1 ==> node !in visited && minDistance == distances[node] < Inf
      invariant forall k :: 0 <= k < j && k !in visited ==> minDistance <= distances[k]
      invariant node != -1 ==> forall k :: 0 <= k < node && k !in visited ==> minDistance < distances[k]
    {
      if j !in visited && distances[j] < minDistance {
        minDistance := distances[j];
        node := j;
      }
    }
  }

  /**
   * The relaxation loop for the node `node` just marked visited: every unvisited
   * neighbour j whose distance improves through `node` gets the new distance and
   * `node` as its predecessor.
   */
  method Relax(W: seq<seq<int>>, distances: seq<int>, previous: seq<int>, visited: seq<int>, node: int)
    returns (newDistances: seq<int>, newPrevious: seq<int>)
    requires WeightsInRange(W)
    requires |distances| == |W| && |previous| == |W|
    requires 0 <= node < |W| && node in visited
    requires 0 <= distances[node] <= Inf - MaxWeight  // the sums below fit in a C# int
    ensures RelaxedFrom(W, distances, previous, visited, node, newDistances, newPrevious)
    ensures forall j :: 0 <= j < |W| ==> newDistances[j] <= distances[j]
    ensures forall j :: 0 <= j < |W| && j in visited ==>
      newDistances[j] == distances[j] && newPrevious[j] == previous[j]
  {
    newDistances, newPrevious := distances, previous;
    for j := 0 to |W|
      invariant |newDistances| == |W| && |newPrevious| == |W|
      invariant newDistances[node] == distances[node]
      invariant forall k :: 0 <= k < j ==>
        if k !in visited && W[node][k] != Inf && distances[node] + W[node][k] < distances[k] then
          newDistances[k] == distances[node] + W[node][k] && newPrevious[k] == node
        else
          newDistances[k] == distances[k] && newPrevious[k] == previous[k]
      invariant forall k :: j <= k < |W| ==> newDistances[k] == distances[k] && newPrevious[k] == previous[k]
    {
      if j !in visited && W[node][j] != Inf {
        var newDistance := newDistances[node] + W[node][j];
        assert IsInt32(newDistance);
        if newDistance < newDistances[j] {
          newDistances := newDistances[j := newDistance];
          newPrevious := newPrevious[j := node];
        }
      }
    }
  }

  // ---------------------------------------------------------------------------
  // The main loop's invariant, in parts
  // ---------------------------------------------------------------------------

  /** Form1's `visited` list: distinct nodes. */
  predicate SettledNodes(W: seq<seq<int>>, visited: seq<int>) {
    (forall k :: 0 <= k < |visited| ==> 0 <= visited[k] < |W|) && Distinct(visited)
  }

  /** Finite distances grow by at most MaxWeight per settled node; settled nodes are reached. */
  ghost predicate DistanceBounds(W: seq<seq<int>>, d: seq<int>, visited: seq<int>)
    requires |d| == |W| && SettledNodes(W, visited)
  {
    (forall v :: 0 <= v < |W| && d[v] < Inf ==> d[v] <= MaxWeight * |visited|) &&
    (forall k :: 0 <= k < |visited| ==> d[visited[k]] <= MaxWeight * k) &&
    (forall u :: 0 <= u < |W| && u in visited ==> d[u] < Inf)
  }

  /** Every predecessor is a settled node. */
  ghost predicate PredecessorsSettled(W: seq<seq<int>>, p: seq<int>, visited: seq<int>)
    requires |p| == |W|
  {
    forall v :: 0 <= v < |W| && p[v] != -1 ==> p[v] in visited
  }

  /**
   * Every predecessor is the first settled node through which the distance is
   * reached: a later one offering the same distance does not replace it, since
   * relaxation at Form1.cs:201 needs a strict improvement.
   */
  ghost predicate FirstPredecessors(W: seq<seq<int>>, d: seq<int>, p: seq<int>, visited: seq<int>)
    requires IsSquare(W) && |d| == |W| && |p| == |W| && SettledNodes(W, visited)
  {
    forall v, j ::
      (0 <= v < |W| && 0 <= j < |visited| && p[v] != -1 &&
       W[visited[j]][v] != Inf && d[visited[j]] + W[visited[j]][v] == d[v]) ==>
      p[v] in visited[..j + 1]
  }

  /** Every edge out of a settled node has been relaxed. */
  ghost predicate EdgesRelaxed(W: seq<seq<int>>, d: seq<int>, visited: seq<int>)
    requires IsSquare(W) && |d| == |W|
  {
    forall u, v {:trigger W[u][v]} :: 0 <= u < |W| && u in visited && 0 <= v < |W| && W[u][v] != Inf ==>
      d[v] <= d[u] + W[u][v]
  }

  /**
   * The order in which the scan settles nodes: nearer first, and the lower index
   * first among nodes at the same distance.
   */
  predicate SettlesBefore(d: seq<int>, a: int, b: int)
    requires 0 <= a < |d| && 0 <= b < |d|
  {
    d[a] < d[b] || (d[a] == d[b] && a < b)
  }

  /**
   * The last settled node is a frontier: no settled node is farther from node 0,
   * and it settles before every unsettled node.
   */
  ghost predicate SettledFirst(W: seq<seq<int>>, d: seq<int>, visited: seq<int>)
    requires |d| == |W| && SettledNodes(W, visited)
  {
    |visited| > 0 ==>
      (forall k :: 0 <= k < |visited| ==> d[visited[k]] <= d[visited[|visited| - 1]]) &&
      (forall v :: 0 <= v < |W| && v !in visited ==> SettlesBefore(d, visited[|visited| - 1], v))
  }

  /** Each settled node settles after the one settled before it. */
  ghost predicate SettledInOrder(d: seq<int>, visited: seq<int>)
    requires forall k :: 0 <= k < |visited| ==> 0 <= visited[k] < |d|
    decreases |visited|
  {
    |visited| <= 1 ||
    (SettlesBefore(d, visited[|visited| - 2], visited[|visited| - 1]) && SettledInOrder(d, visited[..|visited| - 1]))
  }

  /** The order of the settled nodes depends only on their own distances. */
  lemma {:induction false} SettledInOrderFrame(d: seq<int>, d': seq<int>, visited: seq<int>)
    requires forall k :: 0 <= k < |visited| ==> 0 <= visited[k] < |d| && 0 <= visited[k] < |d'|
    requires forall k :: 0 <= k < |visited| ==> d'[visited[k]] == d[visited[k]]
    requires SettledInOrder(d, visited)
    ensures SettledInOrder(d', visited)
    decreases |visited|
  {
    if |visited| > 1 {
      var front := visited[..|visited| - 1];
      assert forall k :: 0 <= k < |front| ==> front[k] == visited[k];
      SettledInOrderFrame(d, d', front);
    }
  }

  /** What holds between iterations of the main loop, `visited` being the settled nodes in order. */
  ghost predicate LoopInvariant(W: seq<seq<int>>, d: seq<int>, p: seq<int>, visited: seq<int>) {
    PredecessorTree(W, d, p) && (|W| > 0 ==> d[0] == 0) &&
    SettledNodes(W, visited) &&
    DistanceBounds(W, d, visited) &&
    PredecessorsSettled(W, p, visited) &&
    EdgesRelaxed(W, d, visited) &&
    SettledFirst(W, d, visited) &&
    SettledInOrder(d, visited)
  }

  /** The effect of one relaxation pass from `node`, once `visited` includes it. */
  ghost predicate RelaxedFrom(W: seq<seq<int>>, d: seq<int>, p: seq<int>, visited: seq<int>, node: int,
                              d': seq<int>, p': seq<int>)
    requires IsSquare(W) && |d| == |W| && |p| == |W| && 0 <= node < |W|
  {
    |d'| == |W| && |p'| == |W| &&
    forall j :: 0 <= j < |W| ==>
      if j !in visited && W[node][j] != Inf && d[node] + W[node][j] < d[j] then
        d'[j] == d[node] + W[node][j] && p'[j] == node
      else
        d'[j] == d[j] && p'[j] == p[j]
  }

  /**
   * The initialisation: n entries `Inf` and `-1`, then `distances[0] = 0`
   * (Form1 fails there on an empty graph; the model skips the assignment).
   */
  method InitialDistances(n: nat) returns (distances: seq<int>, previous: seq<int>)
    ensures |distances| == n && |previous| == n
    ensures n > 0 ==> distances[0] == 0 && previous[0] == -1
    ensures forall v :: 0 < v < n ==> distances[v] == Inf && previous[v] == -1
  {
    distances, previous := [], [];
    for i := 0 to n
      invariant |distances| == i && |previous| == i
      invariant forall k :: 0 <= k < i ==> distances[k] == Inf && previous[k] == -1
    {
      distances := distances + [Inf];
      previous := previous + [-1];
    }
    if n > 0 {
      distances := distances[0 := 0];
    }
  }

  /** The state after `distances[0] = 0`, before the first iteration. */
  lemma InitialState(W: seq<seq<int>>, d: seq<int>, p: seq<int>)
    requires IsSquare(W) && |d| == |W| && |p| == |W|
    requires |W| > 0 ==> d[0] == 0 && p[0] == -1
    requires forall v :: 0 < v < |W| ==> d[v] == Inf && p[v] == -1
    ensures LoopInvariant(W, d, p, []) && FirstPredecessors(W, d, p, [])
  {
  }

  /** Settling `node` keeps the predecessor tree, node 0's distance and settled predecessors. */
  lemma StepKeepsTree(W: seq<seq<int>>, d: seq<int>, p: seq<int>, visited: seq<int>, node: int,
                      d': seq<int>, p': seq<int>)
    requires WeightsInRange(W) && PredecessorTree(W, d, p) && (|W| > 0 ==> d[0] == 0)
    requires PredecessorsSettled(W, p, visited)
    requires 0 <= node < |W| && d[node] < Inf - MaxWeight
    requires RelaxedFrom(W, d, p, visited + [node], node, d', p')
    ensures PredecessorTree(W, d', p') && d'[0] == 0
    ensures PredecessorsSettled(W, p', visited + [node])
  {
    var n := |W|;
    var vis := visited + [node];
    assert d'[0] == 0 by {
      if 0 !in vis && W[node][0] != Inf {
        assert d[node] + W[node][0] >= 0;
      }
    }
    forall v | 0 <= v < n
      ensures 0 <= d'[v] <= Inf
      ensures p'[v] == -1 <==> v == 0 || d'[v] == Inf
      ensures p'[v] != -1 ==>
        0 <= p'[v] < n && W[p'[v]][v] != Inf && d'[v] == d'[p'[v]] + W[p'[v]][v]
      ensures p'[v] != -1 ==> p'[v] in vis
    {
      assert d'[node] == d[node];
      if p'[v] != p[v] || d'[v] != d[v] {
        assert d'[v] == d[node] + W[node][v] && p'[v] == node;
      } else if p[v] != -1 {
        assert p[v] in visited;
        assert d'[p[v]] == d[p[v]];
      }
    }
  }

  /** Settling `node` keeps the bounds on distances. */
  lemma StepKeepsBounds(W: seq<seq<int>>, d: seq<int>, p: seq<int>, visited: seq<int>, node: int,
                        d': seq<int>, p': seq<int>)
    requires WeightsInRange(W) && |d| == |W| && |p| == |W|
    requires SettledNodes(W, visited) && DistanceBounds(W, d, visited)
    requires 0 <= node < |W| && node !in visited && d[node] < Inf
    requires (|visited| + 1) * MaxWeight < Inf
    requires RelaxedFrom(W, d, p, visited + [node], node, d', p')
    ensures SettledNodes(W, visited + [node]) && DistanceBounds(W, d', visited + [node])
  {
    var vis := visited + [node];
    assert d[node] <= MaxWeight * |visited|;
    assert Distinct(vis) by {
      forall a, b | 0 <= a < b < |vis| ensures vis[a] != vis[b] {
        if b < |visited| {
          assert vis[a] == visited[a] && vis[b] == visited[b];
        } else {
          assert vis[a] == visited[a] && visited[a] in visited;
        }
      }
    }
    forall k | 0 <= k < |vis| ensures d'[vis[k]] <= MaxWeight * k {
      if k < |visited| {
        assert vis[k] == visited[k] && visited[k] in vis;
      }
    }
    forall u | 0 <= u < |W| && u in vis ensures d'[u] < Inf {
      assert d'[u] == d[u];
    }
  }

  /** Settling `node` relaxes its edges and keeps the edges of earlier settled nodes relaxed. */
  lemma StepKeepsRelaxed(W: seq<seq<int>>, d: seq<int>, p: seq<int>, visited: seq<int>, node: int,
                         d': seq<int>, p': seq<int>)
    requires WeightsInRange(W) && |d| == |W| && |p| == |W| && SettledNodes(W, visited)
    requires EdgesRelaxed(W, d, visited) && SettledFirst(W, d, visited)
    requires 0 <= node < |W| && node !in visited
    requires RelaxedFrom(W, d, p, visited + [node], node, d', p')
    ensures EdgesRelaxed(W, d', visited + [node])
  {
    var n := |W|;
    var vis := visited + [node];
    forall u, v | 0 <= u < n && u in vis && 0 <= v < n && W[u][v] != Inf
      ensures d'[v] <= d'[u] + W[u][v]
    {
      assert d'[u] == d[u];
      if u != node {
        assert d'[v] <= d[v] <= d[u] + W[u][v];
      } else if v in visited {
        var k :| 0 <= k < |visited| && visited[k] == v;
        assert d'[v] == d[v] <= d[visited[|visited| - 1]] <= d[node];
      }
    }
  }

  /** Settling the node the scan picks makes it the new frontier and keeps settled nodes in order. */
  lemma StepKeepsOrder(W: seq<seq<int>>, d: seq<int>, p: seq<int>, visited: seq<int>, node: int,
                       d': seq<int>, p': seq<int>)
    requires WeightsInRange(W) && |d| == |W| && |p| == |W|
    requires SettledNodes(W, visited) && SettledFirst(W, d, visited) && SettledInOrder(d, visited)
    requires SettledNodes(W, visited + [node])
    requires Nearest(d, visited, node)
    requires RelaxedFrom(W, d, p, visited + [node], node, d', p')
    ensures SettledFirst(W, d', visited + [node])
    ensures SettledInOrder(d', visited + [node])
  {
    var n := |W|;
    var vis := visited + [node];
    assert vis[|vis| - 1] == node && d'[node] == d[node];
    forall k | 0 <= k < |vis| ensures d'[vis[k]] <= d'[node] {
      if k < |visited| {
        assert vis[k] == visited[k] && visited[k] in visited;
        assert d'[vis[k]] == d[visited[k]] <= d[visited[|visited| - 1]] <= d[node];
      }
    }
    forall v | 0 <= v < n && v !in vis ensures SettlesBefore(d', node, v) {
      assert d[node] <= d[v];
      if v < node {
        assert d[node] < d[v];
      }
    }
    SettledInOrderFrame(d, d', visited);
    assert vis[..|visited|] == visited;
    if |visited| > 0 {
      var last := visited[|visited| - 1];
      assert vis[|vis| - 2] == last && last in visited;
      assert SettlesBefore(d, last, node);
    }
  }

  /** Settling `node` keeps every predecessor the first settled node that offers its distance. */
  lemma StepKeepsFirst(W: seq<seq<int>>, d: seq<int>, p: seq<int>, visited: seq<int>, node: int,
                       d': seq<int>, p': seq<int>)
    requires IsSquare(W) && |d| == |W| && |p| == |W|
    requires SettledNodes(W, visited) && SettledNodes(W, visited + [node])
    requires PredecessorsSettled(W, p, visited) && EdgesRelaxed(W, d, visited)
    requires FirstPredecessors(W, d, p, visited)
    requires 0 <= node < |W| && RelaxedFrom(W, d, p, visited + [node], node, d', p')
    ensures FirstPredecessors(W, d', p', visited + [node])
  {
    var vis := visited + [node];
    forall v, j | 0 <= v < |W| && 0 <= j < |vis| && p'[v] != -1 &&
      W[vis[j]][v] != Inf && d'[vis[j]] + W[vis[j]][v] == d'[v]
      ensures p'[v] in vis[..j + 1]
    {
      var u := vis[j];
      assert u in vis;
      if v !in vis && W[node][v] != Inf && d[node] + W[node][v] < d[v] {
        // v improves through node now, so no earlier settled node offers d'[v]
        if j < |visited| {
          assert false;
        }
        assert vis[..j + 1] == vis;
      } else if j < |visited| {
        assert u == visited[j];
        assert vis[..j + 1] == visited[..j + 1];
      } else {
        assert p[v] in visited;
        assert vis[..j + 1] == vis;
      }
    }
  }

  /** One iteration: settling the selected node and relaxing its edges keeps the invariant. */
  lemma SettleStep(W: seq<seq<int>>, d: seq<int>, p: seq<int>, visited: seq<int>, node: int,
                   d': seq<int>, p': seq<int>)
    requires WeightsInRange(W) && |W| * MaxWeight < Inf
    requires LoopInvariant(W, d, p, visited) && |visited| < |W|
    requires Nearest(d, visited, node)
    requires RelaxedFrom(W, d, p, visited + [node], node, d', p')
    ensures LoopInvariant(W, d', p', visited + [node])
  {
    assert d[node] <= MaxWeight * |visited|;
    assert d[node] < Inf - MaxWeight;
    assert PredecessorTree(W, d, p) && PredecessorsSettled(W, p, visited);
    StepKeepsTree(W, d, p, visited, node, d', p');
    StepKeepsBounds(W, d, p, visited, node, d', p');
    StepKeepsRelaxed(W, d, p, visited, node, d', p');
    StepKeepsOrder(W, d, p, visited, node, d', p');
  }

  /**
   * One iteration of the outer loop: select the nearest unvisited node, add it
   * to `visited` and relax its edges. `found` is false exactly when the selection
   * finds no node (where Form1 goes on with index -1); nothing changes then.
   */
  method SettleNearest(W: seq<seq<int>>, distances: seq<int>, previous: seq<int>, visited: seq<int>)
    returns (found: bool, newDistances: seq<int>, newPrevious: seq<int>, newVisited: seq<int>)
    requires WeightsInRange(W) && |W| * MaxWeight < Inf
    requires LoopInvariant(W, distances, previous, visited) && |visited| < |W|
    requires FirstPredecessors(W, distances, previous, visited)
    ensures LoopInvariant(W, newDistances, newPrevious, newVisited)
    ensures FirstPredecessors(W, newDistances, newPrevious, newVisited)
    ensures !found ==> newDistances == distances && newPrevious == previous && newVisited == visited
    ensures !found ==> forall v :: 0 <= v < |W| && v !in visited ==> distances[v] >= Inf
    ensures found ==> |newVisited| == |visited| + 1 && newVisited == visited + [newVisited[|visited|]]
    ensures found ==> Nearest(distances, visited, newVisited[|visited|])
    ensures found ==> RelaxedFrom(W, distances, previous, newVisited, newVisited[|visited|], newDistances, newPrevious)
    ensures found ==> forall k :: 0 <= k < |visited| ==>
      newDistances[visited[k]] == distances[visited[k]] && newPrevious[visited[k]] == previous[visited[k]]
  {
    var node := SelectMinDistanceNode(distances, visited);
    if node == -1 {
      return false, distances, previous, visited;
    }
    assert distances[node] <= MaxWeight * |visited| < Inf - MaxWeight;
    newVisited := visited + [node];
    newDistances, newPrevious := Relax(W, distances, previous, newVisited, node);
    SettleStep(W, distances, previous, visited, node, newDistances, newPrevious);
    StepKeepsFirst(W, distances, previous, visited, node, newDistances, newPrevious);
    found := true;
    forall k | 0 <= k < |visited|
      ensures newDistances[visited[k]] == distances[visited[k]] && newPrevious[visited[k]] == previous[visited[k]]
    {
      assert visited[k] in newVisited;
    }
  }

  /**
   * `DijkstraButton_Click` without the repaint and the delay. Where Form1
   * would index with -1 (no unvisited node has a finite distance), the loop stops.
   * `settled` is Form1's `visited` list at the end.
   */
  method ComputeShortestPaths(W: seq<seq<int>>) returns (distances: seq<int>, previous: seq<int>, ghost settled: seq<int>)
    requires WeightsInRange(W)
    requires |W| * MaxWeight < Inf  // no distance overflows a C# int
    ensures ShortestPathResult(W, distances, previous) && (|W| > 0 ==> distances[0] == 0 && previous[0] == -1)
    ensures DijkstraRun(W, distances, previous, settled)
  {
    var n := |W|;
    distances, previous := InitialDistances(n);
    InitialState(W, distances, previous);

    var visited: seq<int> := [];
    for i := 0 to n
      invariant |visited| == i
      invariant LoopInvariant(W, distances, previous, visited)
      invariant FirstPredecessors(W, distances, previous, visited)
    {
      var found;
      found, distances, previous, visited := SettleNearest(W, distances, previous, visited);
      if !found {
        break;
      }
    }
    settled := visited;
    RunOutcome(W, distances, previous, settled);
  }

  // ---------------------------------------------------------------------------
  // From the final loop state to the result
  // ---------------------------------------------------------------------------

  /** Every path from node 0 stays among the settled nodes once the loop has stopped. */
  lemma {:induction false} PathStaysSettled(W: seq<seq<int>>, d: seq<int>, p: seq<int>, visited: seq<int>, path: seq<int>)
    requires WeightsInRange(W) && |W| * MaxWeight < Inf
    requires LoopInvariant(W, d, p, visited) && |visited| <= |W|
    requires forall v :: 0 <= v < |W| && v !in visited ==> d[v] == Inf
    requires IsPath(W, path) && path[0] == 0
    ensures forall k :: 0 <= k < |path| ==> path[k] in visited
    decreases |path|
  {
    if |path| == 1 {
      assert path[0] == 0;
    } else {
      var prefix := path[..|path| - 1];
      assert IsPath(W, prefix);
      PathStaysSettled(W, d, p, visited, prefix);
      var u, v := path[|path| - 2], path[|path| - 1];
      assert u == prefix[|prefix| - 1];
      assert u in visited;
      var k :| 0 <= k < |visited| && visited[k] == u;
      assert d[u] <= MaxWeight * (|W| - 1);
      assert d[v] <= d[u] + W[u][v] < Inf;
      forall i | 0 <= i < |path| ensures path[i] in visited {
        if i < |path| - 1 {
          assert path[i] == prefix[i];
        }
      }
    }
  }

  /** Node 0 at distance 0 and the triangle inequality bound every path's weight from below. */
  lemma {:induction false} PathLowerBound(W: seq<seq<int>>, d: seq<int>, path: seq<int>)
    requires IsSquare(W) && |d| == |W| && |W| > 0 && d[0] == 0 && Triangle(W, d)
    requires IsPath(W, path) && path[0] == 0
    ensures d[path[|path| - 1]] <= PathWeight(W, path)
    decreases |path|
  {
    if |path| > 1 {
      var prefix := path[..|path| - 1];
      assert path == prefix + [path[|path| - 1]];
      PathWeightAppend(W, prefix, path[|path| - 1]);
      PathLowerBound(W, d, prefix);
    }
  }

  /**
   * Following the predecessors from a reached node v gives a path from node 0 to v
   * whose weight is distances[v].
   */
  lemma {:induction false} PredecessorPath(W: seq<seq<int>>, d: seq<int>, p: seq<int>, v: int) returns (path: seq<int>)
    requires WeightsInRange(W) && PredecessorTree(W, d, p) && |W| > 0 && d[0] == 0
    requires 0 <= v < |W| && d[v] < Inf
    ensures IsPath(W, path) && path[0] == 0 && path[|path| - 1] == v
    ensures PathWeight(W, path) == d[v]
    ensures forall k :: 0 < k < |path| ==> p[path[k]] == path[k - 1]
    decreases d[v]
  {
    if v == 0 {
      path := [0];
    } else {
      var u := p[v];
      var prefix := PredecessorPath(W, d, p, u);
      path := prefix + [v];
      assert IsPath(W, path) by {
        forall k | 0 <= k < |path| - 1 ensures W[path[k]][path[k + 1]] != Inf {
          if k < |path| - 2 {
            assert path[k] == prefix[k] && path[k + 1] == prefix[k + 1];
          }
        }
      }
      PathWeightAppend(W, prefix, v);
    }
  }

  /** The nodes 0..n-1. */
  ghost function Nodes(n: nat): (s: set<int>)
    ensures |s| == n
    ensures forall x :: x in s <==> 0 <= x < n
  {
    if n == 0 then {} else Nodes(n - 1) + {n - 1}
  }

  /** A distinct sequence of n nodes out of 0..n-1 contains every node. */
  lemma AllSettled(s: seq<int>, n: nat)
    requires Distinct(s) && |s| == n && forall k :: 0 <= k < |s| ==> 0 <= s[k] < n
    ensures forall v :: 0 <= v < n ==> v in s
  {
    DistinctCard(s);
    var elems := Elements(s);
    forall v | 0 <= v < n ensures v in s {
      if v !in s {
        SubsetCard(elems + {v}, Nodes(n));
      }
    }
  }

  /** A distinct sequence containing every node 0..n-1 has length n at least. */
  lemma CoversAll(s: seq<int>, n: nat)
    requires Distinct(s) && forall v :: 0 <= v < n ==> v in s
    ensures |s| >= n
  {
    DistinctCard(s);
    SubsetCard(Nodes(n), Elements(s));
  }

  ghost function Elements(s: seq<int>): (e: set<int>)
    ensures forall x :: x in e <==> x in s
  {
    set x | x in s
  }

  lemma {:induction false} DistinctCard(s: seq<int>)
    requires Distinct(s)
    ensures |Elements(s)| == |s|
  {
    if s != [] {
      var tail := s[1..];
      assert Distinct(tail) by {
        forall a, b | 0 <= a < b < |tail| ensures tail[a] != tail[b] {
          assert tail[a] == s[a + 1] && tail[b] == s[b + 1];
        }
      }
      DistinctCard(tail);
      assert Elements(s) == {s[0]} + Elements(tail);
      assert s[0] !in tail;
    }
  }

  lemma SubsetCard<T>(a: set<T>, b: set<T>)
    requires a <= b
    ensures |a| <= |b|
  {
    assert b == a + (b - a);
  }

  /** Order between consecutive settled nodes extends to every pair of them. */
  lemma {:induction false} SettledInOrderPairs(d: seq<int>, visited: seq<int>)
    requires forall k :: 0 <= k < |visited| ==> 0 <= visited[k] < |d|
    requires SettledInOrder(d, visited)
    ensures forall a, b :: 0 <= a < b < |visited| ==> SettlesBefore(d, visited[a], visited[b])
    decreases |visited|
  {
    if |visited| > 1 {
      var front := visited[..|visited| - 1];
      SettledInOrderPairs(d, front);
      forall a, b | 0 <= a < b < |visited| ensures SettlesBefore(d, visited[a], visited[b]) {
        if b < |visited| - 1 {
          assert visited[a] == front[a] && visited[b] == front[b];
        } else if a < b - 1 {
          assert visited[a] == front[a] && visited[b - 1] == front[b - 1];
        }
      }
    }
  }

  /** What the main loop leaves behind, whether it ran all rounds or stopped early. */
  /** The loop's final state, with the first-predecessor rule, is a run of the algorithm. */
  lemma RunOutcome(W: seq<seq<int>>, d: seq<int>, p: seq<int>, visited: seq<int>)
    requires WeightsInRange(W) && |W| * MaxWeight < Inf
    requires LoopInvariant(W, d, p, visited) && |visited| <= |W|
    requires |visited| == |W| || forall v :: 0 <= v < |W| && v !in visited ==> d[v] >= Inf
    requires FirstPredecessors(W, d, p, visited)
    ensures ShortestPathResult(W, d, p) && (|W| > 0 ==> d[0] == 0 && p[0] == -1)
    ensures DijkstraRun(W, d, p, visited)
  {
    Outcome(W, d, p, visited);
  }

  lemma Outcome(W: seq<seq<int>>, d: seq<int>, p: seq<int>, visited: seq<int>)
    requires WeightsInRange(W) && |W| * MaxWeight < Inf
    requires LoopInvariant(W, d, p, visited) && |visited| <= |W|
    requires |visited| == |W| || forall v :: 0 <= v < |W| && v !in visited ==> d[v] >= Inf
    ensures ShortestPathResult(W, d, p)
    ensures |W| > 0 ==> d[0] == 0 && p[0] == -1
    ensures SettledNodes(W, visited)
    ensures forall v :: 0 <= v < |W| ==> (v in visited <==> d[v] < Inf)
    ensures SettledInOrder(d, visited)
  {
    assert |W| > 0 ==> p[0] == -1 by {
      if |W| > 0 {
        assert p[0] == -1;
      }
    }
    assert forall v :: 0 <= v < |W| && v !in visited ==> d[v] >= Inf by {
      if |visited| == |W| {
        AllSettled(visited, |W|);
      }
    }
    Finish(W, d, p, visited);
  }

  /** The loop's final state is a shortest-path result. */
  lemma Finish(W: seq<seq<int>>, d: seq<int>, p: seq<int>, visited: seq<int>)
    requires WeightsInRange(W) && |W| * MaxWeight < Inf
    requires LoopInvariant(W, d, p, visited) && |visited| <= |W|
    requires forall v :: 0 <= v < |W| && v !in visited ==> d[v] >= Inf
    ensures ShortestPathResult(W, d, p)
    ensures forall v :: 0 <= v < |W| ==> (v in visited <==> d[v] < Inf)
  {
    FinalTriangle(W, d, p, visited);
    FinalLowerBound(W, d, p, visited);
    FinalReachable(W, d, p, visited);
    FinalSettled(W, d, visited);
  }

  lemma FinalSettled(W: seq<seq<int>>, d: seq<int>, visited: seq<int>)
    requires |d| == |W| && SettledNodes(W, visited) && DistanceBounds(W, d, visited)
    requires forall v :: 0 <= v < |W| && v !in visited ==> d[v] >= Inf
    ensures forall v :: 0 <= v < |W| ==> (v in visited <==> d[v] < Inf)
  {
  }

  lemma FinalTriangle(W: seq<seq<int>>, d: seq<int>, p: seq<int>, visited: seq<int>)
    requires WeightsInRange(W)
    requires LoopInvariant(W, d, p, visited)
    requires forall v :: 0 <= v < |W| && v !in visited ==> d[v] >= Inf
    ensures Triangle(W, d)
  {
    var n := |W|;
    forall u, v | 0 <= u < n && 0 <= v < n && W[u][v] != Inf ensures d[v] <= d[u] + W[u][v] {
      if u !in visited {
        assert d[u] == Inf;
      }
    }
  }

  lemma FinalLowerBound(W: seq<seq<int>>, d: seq<int>, p: seq<int>, visited: seq<int>)
    requires WeightsInRange(W)
    requires PredecessorTree(W, d, p) && Triangle(W, d) && (|W| > 0 ==> d[0] == 0)
    ensures LowerBound(W, d)
  {
    forall path | IsPath(W, path) && path[0] == 0
      ensures d[path[|path| - 1]] <= PathWeight(W, path)
    {
      PathLowerBound(W, d, path);
    }
  }

  lemma FinalReachable(W: seq<seq<int>>, d: seq<int>, p: seq<int>, visited: seq<int>)
    requires WeightsInRange(W) && |W| * MaxWeight < Inf
    requires LoopInvariant(W, d, p, visited) && |visited| <= |W|
    requires forall v :: 0 <= v < |W| && v !in visited ==> d[v] >= Inf
    ensures FiniteExactlyWhenReachable(W, d)
  {
    forall v | 0 <= v < |W| ensures d[v] < Inf <==> Reachable(W, v) {
      if d[v] < Inf {
        var path := PredecessorPath(W, d, p, v);
      } else if Reachable(W, v) {
        var path :| IsPath(W, path) && path[0] == 0 && path[|path| - 1] == v;
        PathStaysSettled(W, d, p, visited, path);
      }
    }
  }

  // ---------------------------------------------------------------------------
  // Properties of a result
  // ---------------------------------------------------------------------------

  /**
   * On a complete graph, the generator's kind, every node is reached and all N
   * rounds settle a node, so the selection never comes back empty.
   */
  lemma CompleteGraphSettlesAll(W: seq<seq<int>>, d: seq<int>, p: seq<int>, settled: seq<int>)
    requires WeightsInRange(W) && Complete(W) && ShortestPathResult(W, d, p)
    requires SettledNodes(W, settled)
    requires forall v :: 0 <= v < |W| ==> (v in settled <==> d[v] < Inf)
    ensures forall v :: 0 <= v < |W| ==> d[v] < Inf
    ensures |settled| == |W|
  {
    forall v | 0 <= v < |W| ensures d[v] < Inf {
      if v != 0 {
        assert d[v] <= d[0] + W[0][v];
      }
    }
    CoversAll(settled, |W|);
    DistinctCard(settled);
    SubsetCard(Elements(settled), Nodes(|W|));
  }

  /** Every reached node's distance is the weight of a lightest path from node 0. */
  lemma DistanceIsShortest(W: seq<seq<int>>, d: seq<int>, p: seq<int>, v: int)
    requires WeightsInRange(W) && ShortestPathResult(W, d, p)
    requires 0 <= v < |W| && d[v] < Inf
    ensures IsShortestDistance(W, v, d[v])
  {
    var path := PredecessorPath(W, d, p, v);
  }

  /** Two results for the same graph have the same distances: the run is repeatable. */
  lemma DistancesUnique(W: seq<seq<int>>, d1: seq<int>, p1: seq<int>, d2: seq<int>, p2: seq<int>)
    requires WeightsInRange(W)
    requires ShortestPathResult(W, d1, p1) && ShortestPathResult(W, d2, p2)
    ensures d1 == d2
  {
    forall v | 0 <= v < |W| ensures d1[v] == d2[v] {
      if d1[v] < Inf {
        var path1 := PredecessorPath(W, d1, p1, v);
        if d2[v] < Inf {
          var path2 := PredecessorPath(W, d2, p2, v);
        }
      }
    }
  }

  /** Two lists of the same nodes, both in settlement order, are the same list. */
  lemma {:induction false} SameOrderSameList(d: seq<int>, s1: seq<int>, s2: seq<int>)
    requires forall k :: 0 <= k < |s1| ==> 0 <= s1[k] < |d|
    requires forall k :: 0 <= k < |s2| ==> 0 <= s2[k] < |d|
    requires forall a, b :: 0 <= a < b < |s1| ==> SettlesBefore(d, s1[a], s1[b])
    requires forall a, b :: 0 <= a < b < |s2| ==> SettlesBefore(d, s2[a], s2[b])
    requires forall x :: x in s1 <==> x in s2
    ensures s1 == s2
    decreases |s1|
  {
    assert |s2| > 0 ==> s2[0] in s2;  // so s2 is empty when s1 is
    if |s1| > 0 {
      // both lists start with the node that settles first
      assert s1[0] in s2;
      assert s2[0] in s1;
      assert s1[0] == s2[0];
      var t1, t2 := s1[1..], s2[1..];
      forall x ensures x in t1 <==> x in t2 {
        if x in t1 {
          var i :| 0 <= i < |t1| && t1[i] == x;
          assert s1[i + 1] == x && SettlesBefore(d, s1[0], s1[i + 1]);
          assert x in s2 && x != s2[0];
        }
        if x in t2 {
          var i :| 0 <= i < |t2| && t2[i] == x;
          assert s2[i + 1] == x && SettlesBefore(d, s2[0], s2[i + 1]);
          assert x in s1 && x != s1[0];
        }
      }
      forall a, b | 0 <= a < b < |t1| ensures SettlesBefore(d, t1[a], t1[b]) {
        assert t1[a] == s1[a + 1] && t1[b] == s1[b + 1];
      }
      forall a, b | 0 <= a < b < |t2| ensures SettlesBefore(d, t2[a], t2[b]) {
        assert t2[a] == s2[a + 1] && t2[b] == s2[b + 1];
      }
      SameOrderSameList(d, t1, t2);
      assert s1 == [s1[0]] + t1 && s2 == [s2[0]] + t2;
    }
  }

  /** A settled node offering v's distance comes no earlier than v's predecessor. */
  lemma PredecessorNoLater(W: seq<seq<int>>, d: seq<int>, p: seq<int>, s: seq<int>, v: int, j: int)
    requires IsSquare(W) && |d| == |W| && |p| == |W| && SettledNodes(W, s)
    requires FirstPredecessors(W, d, p, s)
    requires 0 <= v < |W| && 0 <= j < |s| && p[v] != -1
    requires W[s[j]][v] != Inf && d[s[j]] + W[s[j]][v] == d[v]
    ensures forall i :: 0 <= i < |s| && s[i] == p[v] ==> i <= j
  {
    assert p[v] in s[..j + 1];
    var k :| 0 <= k <= j && s[k] == p[v];
  }

  /** With the distances and the settlement order fixed, the first-predecessor rule fixes `previous`. */
  lemma SamePredecessor(W: seq<seq<int>>, d: seq<int>, p1: seq<int>, p2: seq<int>, s: seq<int>, v: int)
    requires PredecessorTree(W, d, p1) && PredecessorTree(W, d, p2)
    requires WeightsInRange(W) && SettledNodes(W, s)
    requires forall x :: 0 <= x < |W| ==> (x in s <==> d[x] < Inf)
    requires FirstPredecessors(W, d, p1, s) && FirstPredecessors(W, d, p2, s)
    requires 0 <= v < |W|
    ensures p1[v] == p2[v]
  {
    assert p1[v] == -1 <==> v == 0 || d[v] == Inf;
    assert p2[v] == -1 <==> v == 0 || d[v] == Inf;
    if p1[v] != -1 {
      var u1, u2 := p1[v], p2[v];
      assert d[v] == d[u1] + W[u1][v] && W[u1][v] != Inf;
      assert d[v] == d[u2] + W[u2][v] && W[u2][v] != Inf;
      assert u1 in s && u2 in s;
      var i1 :| 0 <= i1 < |s| && s[i1] == u1;
      var i2 :| 0 <= i2 < |s| && s[i2] == u2;
      // each predecessor comes no later than the other
      PredecessorNoLater(W, d, p2, s, v, i1);
      PredecessorNoLater(W, d, p1, s, v, i2);
    }
  }

  /**
   * The output of a run is determined by the graph: any two results meeting
   * `DijkstraRun` agree on the distances, the settlement order and the predecessors.
   */
  lemma RunIsDetermined(W: seq<seq<int>>, d1: seq<int>, p1: seq<int>, s1: seq<int>,
                        d2: seq<int>, p2: seq<int>, s2: seq<int>)
    requires WeightsInRange(W)
    requires DijkstraRun(W, d1, p1, s1) && DijkstraRun(W, d2, p2, s2)
    ensures d1 == d2 && s1 == s2 && p1 == p2
  {
    DistancesUnique(W, d1, p1, d2, p2);
    SameSettled(W, d1, s1, s2);
    SamePredecessors(W, d1, p1, p2, s1);
  }

  /** The settled lists of two runs with equal distances are equal. */
  lemma SameSettled(W: seq<seq<int>>, d: seq<int>, s1: seq<int>, s2: seq<int>)
    requires |d| == |W| && SettledNodes(W, s1) && SettledNodes(W, s2)
    requires forall v :: 0 <= v < |W| ==> (v in s1 <==> d[v] < Inf)
    requires forall v :: 0 <= v < |W| ==> (v in s2 <==> d[v] < Inf)
    requires SettledInOrder(d, s1) && SettledInOrder(d, s2)
    ensures s1 == s2
  {
    SettledInOrderPairs(d, s1);
    SettledInOrderPairs(d, s2);
    SameOrderSameList(d, s1, s2);
  }

  /** The predecessors of two runs with equal distances and settled lists are equal. */
  lemma SamePredecessors(W: seq<seq<int>>, d: seq<int>, p1: seq<int>, p2: seq<int>, s: seq<int>)
    requires PredecessorTree(W, d, p1) && PredecessorTree(W, d, p2)
    requires WeightsInRange(W) && SettledNodes(W, s)
    requires forall x :: 0 <= x < |W| ==> (x in s <==> d[x] < Inf)
    requires FirstPredecessors(W, d, p1, s) && FirstPredecessors(W, d, p2, s)
    ensures p1 == p2
  {
    forall v | 0 <= v < |W| ensures p1[v] == p2[v] {
      SamePredecessor(W, d, p1, p2, s, v);
    }
  }
}
