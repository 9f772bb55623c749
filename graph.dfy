/**
 * The weighted graph of the visualization: an N×N adjacency matrix of C# ints
 * in which `Inf` (int.MaxValue) means "no edge", and the generator that fills it
 * as a complete, symmetric graph.
 */
module Graph {

  /** `int.MaxValue`: the "no edge" and "not reached" sentinel. */
  const Inf: int := 0x7fff_ffff

  /** The range of `random.Next(1, 10)`, whose upper bound is exclusive. */
  const MinWeight: int := 1
  const MaxWeight: int := 9

  /** x is representable as a C# `int`. */
  predicate IsInt32(x: int) {
    -0x8000_0000 <= x <= 0x7fff_ffff
  }

  /** W has n rows of n entries each. */
  predicate IsMatrix(W: seq<seq<int>>, n: nat) {
    |W| == n && forall i :: 0 <= i < n ==> |W[i]| == n
  }

  predicate IsSquare(W: seq<seq<int>>) {
    IsMatrix(W, |W|)
  }

  /** Every entry is either "no edge" or a weight the generator can draw. */
  predicate WeightsInRange(W: seq<seq<int>>) {
    IsSquare(W) &&
    forall i, j :: 0 <= i < |W| && 0 <= j < |W| ==>
      W[i][j] == Inf || MinWeight <= W[i][j] <= MaxWeight
  }

  predicate Symmetric(W: seq<seq<int>>) {
    IsSquare(W) &&
    forall i, j :: 0 <= i < |W| && 0 <= j < |W| ==> W[i][j] == W[j][i]
  }

  /** Every pair of distinct nodes is joined by an edge. */
  predicate Complete(W: seq<seq<int>>) {
    IsSquare(W) &&
    forall i, j :: 0 <= i < |W| && 0 <= j < |W| && i != j ==> W[i][j] != Inf
  }

  /** The shape every graph built by the form has. */
  predicate IsGeneratedGraph(W: seq<seq<int>>, n: nat) {
    IsMatrix(W, n) && Symmetric(W) &&
    (forall i :: 0 <= i < n ==> W[i][i] == Inf) &&
    forall i, j :: 0 <= i < n && 0 <= j < n && i != j ==> MinWeight <= W[i][j] <= MaxWeight
  }

  lemma GeneratedGraphIsComplete(W: seq<seq<int>>, n: nat)
    requires IsGeneratedGraph(W, n)
    ensures Complete(W) && WeightsInRange(W) && Symmetric(W)
  {
  }

  // ---------------------------------------------------------------------------
  // Paths
  // ---------------------------------------------------------------------------

  /** p is a non-empty walk along edges of W. */
  predicate IsPath(W: seq<seq<int>>, p: seq<int>) {
    IsSquare(W) && |p| > 0 &&
    (forall k :: 0 <= k < |p| ==> 0 <= p[k] < |W|) &&
    forall k :: 0 <= k < |p| - 1 ==> W[p[k]][p[k + 1]] != Inf
  }

  /** The sum of the edge weights along p. */
  function PathWeight(W: seq<seq<int>>, p: seq<int>): int
    requires IsPath(W, p)
  {
    EdgeSum(W, p, |p| - 1)
  }

  /** The sum of the weights of the first k edges of p. */
  function EdgeSum(W: seq<seq<int>>, p: seq<int>, k: nat): int
    requires IsPath(W, p) && k < |p|
  {
    if k == 0 then 0 else EdgeSum(W, p, k - 1) + W[p[k - 1]][p[k]]
  }

  /** Extending a path by one edge adds that edge's weight. */
  lemma PathWeightAppend(W: seq<seq<int>>, p: seq<int>, v: int)
    requires |p| > 0 && IsPath(W, p + [v])
    ensures IsPath(W, p) && 0 <= v < |W|
    ensures PathWeight(W, p + [v]) == PathWeight(W, p) + W[p[|p| - 1]][v]
  {
    assert forall k :: 0 <= k < |p| ==> (p + [v])[k] == p[k];
    assert (p + [v])[|p|] == v;
    EdgeSumPrefix(W, p, v, |p| - 1);
  }

  lemma {:induction false} EdgeSumPrefix(W: seq<seq<int>>, p: seq<int>, v: int, k: nat)
    requires IsPath(W, p + [v]) && IsPath(W, p) && k < |p|
    ensures EdgeSum(W, p + [v], k) == EdgeSum(W, p, k)
  {
    if k > 0 {
      EdgeSumPrefix(W, p, v, k - 1);
      assert (p + [v])[k - 1] == p[k - 1] && (p + [v])[k] == p[k];
    }
  }

  /** Some path leads from node 0 to v. */
  ghost predicate Reachable(W: seq<seq<int>>, v: int) {
    exists p {:trigger IsPath(W, p)} :: IsPath(W, p) && p[0] == 0 && p[|p| - 1] == v
  }

  // ---------------------------------------------------------------------------
  // Construction
  // ---------------------------------------------------------------------------

  /**
   * The empty matrix of `GenerateGraphButton_Click`: n rows, each built by
   * appending n copies of `Inf`.
   */
  method NewMatrix(n: nat) returns (m: seq<seq<int>>)
    ensures IsMatrix(m, n)
    ensures forall i, j :: 0 <= i < n && 0 <= j < n ==> m[i][j] == Inf
  {
    m := [];
    for i := 0 to n
      invariant |m| == i
      invariant forall r :: 0 <= r < i ==> |m[r]| == n
      invariant forall r, c :: 0 <= r < i && 0 <= c < n ==> m[r][c] == Inf
    {
      m := m + [[]];
      for j := 0 to n
        invariant |m| == i + 1 && |m[i]| == j
        invariant forall r :: 0 <= r < i ==> |m[r]| == n
        invariant forall r, c :: 0 <= r < i && 0 <= c < n ==> m[r][c] == Inf
        invariant forall c :: 0 <= c < j ==> m[i][c] == Inf
      {
        m := m[i := m[i] + [Inf]];
      }
    }
  }

  /** Number of unordered pairs (r, c), r < c < n, with r < i: where row i starts. */
  function RowStart(n: nat, i: nat): nat
    requires i <= n
  {
    if i == 0 then 0 else RowStart(n, i - 1) + (n - i)
  }

  /** Number of unordered pairs of distinct nodes. */
  function PairCount(n: nat): nat {
    n * (n - 1) / 2
  }

  lemma {:induction false} RowStartClosedForm(n: nat, i: nat)
    requires i <= n
    ensures 2 * RowStart(n, i) == i * (2 * n - i - 1)
  {
    if i > 0 {
      RowStartClosedForm(n, i - 1);
      calc {
        2 * RowStart(n, i);
        2 * RowStart(n, i - 1) + 2 * (n - i);
        (i - 1) * (2 * n - i) + 2 * (n - i);
        i * (2 * n - i - 1);
      }
    }
  }

  lemma PairCountIsRowStart(n: nat)
    ensures RowStart(n, n) == PairCount(n)
  {
    RowStartClosedForm(n, n);
  }

  lemma {:induction false} RowStartMonotone(n: nat, i: nat, i': nat)
    requires i <= i' <= n
    ensures RowStart(n, i) <= RowStart(n, i')
    decreases i' - i
  {
    if i < i' {
      RowStartMonotone(n, i, i' - 1);
    }
  }

  /**
   * Position of the weight of pair (i, j), i < j, in the order in which the
   * generator's nested loops draw weights (rows i ascending, then j ascending).
   */
  function PairIndex(n: nat, i: nat, j: nat): (k: nat)
    requires i < j < n
    ensures RowStart(n, i) <= k < RowStart(n, i + 1)
    ensures k < PairCount(n)
  {
    RowStartMonotone(n, i + 1, n);
    PairCountIsRowStart(n);
    RowStart(n, i) + (j - i - 1)
  }

  /** Distinct pairs draw distinct weights: no weight is used twice. */
  lemma PairIndexInjective(n: nat, i: nat, j: nat, i': nat, j': nat)
    requires i < j < n && i' < j' < n
    requires PairIndex(n, i, j) == PairIndex(n, i', j')
    ensures i == i' && j == j'
  {
    if i < i' {
      RowStartMonotone(n, i + 1, i');
    } else if i' < i {
      RowStartMonotone(n, i' + 1, i);
    }
  }

  /** Every weight of the sequence is drawn for some pair. */
  lemma PairIndexSurjective(n: nat, k: nat) returns (i: nat, j: nat)
    requires k < PairCount(n)
    ensures i < j < n && PairIndex(n, i, j) == k
  {
    PairCountIsRowStart(n);
    i := 0;
    while RowStart(n, i + 1) <= k
      invariant i < n && RowStart(n, i) <= k
      decreases n - i
    {
      i := i + 1;
    }
    j := i + 1 + (k - RowStart(n, i));
  }

  /** The matrix holds weight `weights[PairIndex(n, i, j)]` on both sides of every pair. */
  ghost predicate LaidOut(m: seq<seq<int>>, n: nat, weights: seq<int>)
    requires IsMatrix(m, n) && |weights| == PairCount(n)
  {
    forall i, j :: 0 <= i < j < n ==>
      m[i][j] == weights[PairIndex(n, i, j)] && m[j][i] == weights[PairIndex(n, i, j)]
  }

  /** The first `drawn` pairs carry their weights; every other pair is as in m0. */
  ghost predicate DrawnSoFar(m: seq<seq<int>>, m0: seq<seq<int>>, n: nat, weights: seq<int>, drawn: nat)
    requires IsMatrix(m, n) && IsMatrix(m0, n) && |weights| == PairCount(n)
  {
    forall i, j :: 0 <= i < j < n ==>
      if PairIndex(n, i, j) < drawn then
        m[i][j] == weights[PairIndex(n, i, j)] && m[j][i] == weights[PairIndex(n, i, j)]
      else
        m[i][j] == m0[i][j] && m[j][i] == m0[j][i]
  }

  /** The matrix m with weight w stored on both sides of pair (i, j). */
  function SetPair(m: seq<seq<int>>, n: nat, i: nat, j: nat, w: int): (m': seq<seq<int>>)
    requires IsMatrix(m, n) && i < j < n
    ensures IsMatrix(m', n)
    ensures forall r, c :: 0 <= r < n && 0 <= c < n ==>
      m'[r][c] == (if (r == i && c == j) || (r == j && c == i) then w else m[r][c])
  {
    var m1 := m[i := m[i][j := w]];
    m1[j := m1[j][i := w]]
  }

  /** Drawing the weight of pair (i, j) extends the drawn prefix by one. */
  lemma {:induction false} DrawStep(m: seq<seq<int>>, m0: seq<seq<int>>, n: nat, weights: seq<int>, i: nat, j: nat)
    requires IsMatrix(m, n) && IsMatrix(m0, n) && |weights| == PairCount(n) && i < j < n
    requires DrawnSoFar(m, m0, n, weights, PairIndex(n, i, j))
    ensures DrawnSoFar(SetPair(m, n, i, j, weights[PairIndex(n, i, j)]), m0, n, weights, PairIndex(n, i, j) + 1)
  {
    var k := PairIndex(n, i, j);
    var m' := SetPair(m, n, i, j, weights[k]);
    forall r, c | 0 <= r < c < n
      ensures if PairIndex(n, r, c) < k + 1 then
          m'[r][c] == weights[PairIndex(n, r, c)] && m'[c][r] == weights[PairIndex(n, r, c)]
        else
          m'[r][c] == m0[r][c] && m'[c][r] == m0[c][r]
    {
      if PairIndex(n, r, c) == k {
        PairIndexInjective(n, r, c, i, j);
      }
    }
  }

  /**
   * `GenerateRandomGraph`: for every pair i < j, draw the next weight and store it
   * in both directions. The random source is the sequence `weights`, consumed in
   * drawing order; the diagonal is never written.
   */
  method GenerateRandomGraph(m0: seq<seq<int>>, n: nat, weights: seq<int>) returns (m: seq<seq<int>>)
    requires IsMatrix(m0, n)
    requires |weights| == PairCount(n)
    ensures IsMatrix(m, n)
    ensures LaidOut(m, n, weights)
    ensures forall i :: 0 <= i < n ==> m[i][i] == m0[i][i]
  {
    PairCountIsRowStart(n);
    m := m0;
    var k := 0;
    for i := 0 to n
      invariant IsMatrix(m, n)
      invariant k == RowStart(n, i)
      invariant DrawnSoFar(m, m0, n, weights, k)
      invariant forall r :: 0 <= r < n ==> m[r][r] == m0[r][r]
    {
      for j := i + 1 to n
        invariant IsMatrix(m, n)
        invariant k == RowStart(n, i) + (j - i - 1)
        invariant DrawnSoFar(m, m0, n, weights, k)
        invariant forall r :: 0 <= r < n ==> m[r][r] == m0[r][r]
      {
        assert k == PairIndex(n, i, j);
        var weight := weights[k];
        DrawStep(m, m0, n, weights, i, j);
        m := SetPair(m, n, i, j, weight);
        k := k + 1;
      }
    }
    assert k == PairCount(n);
  }

  /** The graph fully determined by the drawn weights, as `GenerateGraphButton_Click` leaves it. */
  ghost predicate GeneratedFrom(m: seq<seq<int>>, n: nat, weights: seq<int>) {
    IsMatrix(m, n) && |weights| == PairCount(n) && LaidOut(m, n, weights) &&
    forall i :: 0 <= i < n ==> m[i][i] == Inf
  }

  /** Weights drawn by `random.Next(1, 10)` make a generated graph. */
  lemma {:induction false} GeneratedFromIsGenerated(m: seq<seq<int>>, n: nat, weights: seq<int>)
    requires GeneratedFrom(m, n, weights)
    requires forall k :: 0 <= k < |weights| ==> MinWeight <= weights[k] <= MaxWeight
    ensures IsGeneratedGraph(m, n)
  {
    forall i, j | 0 <= i < n && 0 <= j < n && i != j
      ensures MinWeight <= m[i][j] <= MaxWeight
    {
      var k := if i < j then PairIndex(n, i, j) else PairIndex(n, j, i);
      assert MinWeight <= weights[k] <= MaxWeight;
    }
  }
}
