/** Lloyd's iterations, which train each codebook, and why they descend. */
module KMeans {
  import opened Vectors
  import opened ProductQuantizer

  /** n points of dimension sd. */
  predicate Points(xs: seq<Vector>, sd: nat) {
    forall v :: 0 <= v < |xs| ==> |xs[v]| == sd
  }

  predicate Assigns(assign: seq<nat>, xs: seq<Vector>, k: nat) {
    |assign| == |xs| && forall v :: 0 <= v < |assign| ==> assign[v] < k
  }

  // ---------------------------------------------------------------------------------------
  // Sums over the first n points of a cluster
  // ---------------------------------------------------------------------------------------

  function CountTo(assign: seq<nat>, c: nat, n: nat): nat
    requires n <= |assign|
  {
    if n == 0 then 0 else CountTo(assign, c, n - 1) + if assign[n - 1] == c then 1 else 0
  }

  function SumTo(xs: seq<Vector>, assign: seq<nat>, c: nat, d: nat, n: nat): real
    requires n <= |assign| == |xs| && forall v :: 0 <= v < n ==> d < |xs[v]|
  {
    if n == 0 then 0.0 else SumTo(xs, assign, c, d, n - 1) + if assign[n - 1] == c then xs[n - 1][d] else 0.0
  }

  /** The squared deviation of the cluster's d-th coordinates from z. */
  function SpreadTo(xs: seq<Vector>, assign: seq<nat>, c: nat, d: nat, n: nat, z: real): real
    requires n <= |assign| == |xs| && forall v :: 0 <= v < n ==> d < |xs[v]|
  {
    if n == 0 then 0.0
    else SpreadTo(xs, assign, c, d, n - 1, z) + if assign[n - 1] == c then Square(xs[n - 1][d] - z) else 0.0
  }

  /** The total squared distance of the first n points to their assigned centroids. */
  function CostTo(xs: seq<Vector>, assign: seq<nat>, centroids: seq<Vector>, sd: nat, n: nat): real
    requires n <= |xs| && Points(xs, sd) && Points(centroids, sd) && Assigns(assign, xs, |centroids|)
  {
    if n == 0 then 0.0
    else CostTo(xs, assign, centroids, sd, n - 1) + L2(xs[n - 1], centroids[assign[n - 1]], sd)
  }

  function Cost(xs: seq<Vector>, assign: seq<nat>, centroids: seq<Vector>, sd: nat): real
    requires Points(xs, sd) && Points(centroids, sd) && Assigns(assign, xs, |centroids|)
  {
    CostTo(xs, assign, centroids, sd, |xs|)
  }

  // ---------------------------------------------------------------------------------------
  // The two steps
  // ---------------------------------------------------------------------------------------

  /** Assigns each point to its nearest centroid, lowest index first. */
  function Assigned(xs: seq<Vector>, centroids: seq<Vector>, sd: nat): (assign: seq<nat>)
    requires Points(xs, sd) && Points(centroids, sd) && centroids != []
    ensures Assigns(assign, xs, |centroids|)
    ensures forall v :: 0 <= v < |xs| ==> assign[v] == NearestOf(xs[v], centroids, |centroids|)
  {
    seq(|xs|, v requires 0 <= v < |xs| => NearestOf(xs[v], centroids, |centroids|))
  }

  /** The mean of a cluster, or the centroid it has when the cluster is empty. */
  function MeanOr(xs: seq<Vector>, assign: seq<nat>, c: nat, sd: nat, kept: Vector): (mean: Vector)
    requires Points(xs, sd) && |assign| == |xs| && |kept| == sd
    ensures |mean| == sd
  {
    var count := CountTo(assign, c, |xs|);
    if count == 0 then kept
    else seq(sd, d requires 0 <= d < sd => SumTo(xs, assign, c, d, |xs|) / count as real)
  }

  /** Moves every centroid to the mean of its cluster. */
  function Updated(xs: seq<Vector>, assign: seq<nat>, centroids: seq<Vector>, sd: nat): (r: seq<Vector>)
    requires Points(xs, sd) && Points(centroids, sd) && |assign| == |xs|
    ensures |r| == |centroids| && Points(r, sd)
    ensures forall c :: 0 <= c < |r| ==> r[c] == MeanOr(xs, assign, c, sd, centroids[c])
  {
    seq(|centroids|, c requires 0 <= c < |centroids| => MeanOr(xs, assign, c, sd, centroids[c]))
  }

  datatype Clustering = Clustering(centroids: seq<Vector>, assign: seq<nat>, converged: bool)

  /** Lloyd's loop, from iteration `iter` on. */
  function Lloyd(xs: seq<Vector>, centroids: seq<Vector>, assign: seq<nat>, sd: nat, iter: nat,
                 iterations: nat): Clustering
    requires Points(xs, sd) && Points(centroids, sd) && centroids != [] && iter <= iterations
    decreases iterations - iter
  {
    if iter == iterations then Clustering(centroids, assign, false)
    else
      var next := Assigned(xs, centroids, sd);
      if next == assign && iter > 0 then Clustering(centroids, next, true)
      else Lloyd(xs, Updated(xs, next, centroids, sd), next, sd, iter + 1, iterations)
  }

  // ---------------------------------------------------------------------------------------
  // The assignment step descends
  // ---------------------------------------------------------------------------------------

  lemma {:induction false} AssignDescendsTo(xs: seq<Vector>, assign: seq<nat>, centroids: seq<Vector>, sd: nat, n: nat)
    requires Points(xs, sd) && Points(centroids, sd) && centroids != [] && Assigns(assign, xs, |centroids|) && n <= |xs|
    ensures CostTo(xs, Assigned(xs, centroids, sd), centroids, sd, n) <= CostTo(xs, assign, centroids, sd, n)
  {
    if n > 0 {
      AssignDescendsTo(xs, assign, centroids, sd, n - 1);
      NearestIsLeast(xs[n - 1], centroids, |centroids|);
    }
  }

  // ---------------------------------------------------------------------------------------
  // The update step descends
  // ---------------------------------------------------------------------------------------

  /** The sum of 2x - w over the cluster's d-th coordinates. */
  function LeanTo(xs: seq<Vector>, assign: seq<nat>, c: nat, d: nat, n: nat, w: real): real
    requires n <= |assign| == |xs| && forall v :: 0 <= v < n ==> d < |xs[v]|
  {
    if n == 0 then 0.0
    else LeanTo(xs, assign, c, d, n - 1, w) + if assign[n - 1] == c then 2.0 * xs[n - 1][d] - w else 0.0
  }

  lemma {:induction false} LeanIsSum(xs: seq<Vector>, assign: seq<nat>, c: nat, d: nat, n: nat, w: real)
    requires n <= |assign| == |xs| && forall v :: 0 <= v < n ==> d < |xs[v]|
    ensures LeanTo(xs, assign, c, d, n, w) == 2.0 * SumTo(xs, assign, c, d, n) - CountTo(assign, c, n) as real * w
  {
    if n > 0 {
      LeanIsSum(xs, assign, c, d, n - 1, w);
      var m := CountTo(assign, c, n - 1) as real;
      if assign[n - 1] == c {
        assert CountTo(assign, c, n) as real == m + 1.0;
        Distribute(w, m, 1.0);
      }
    }
  }

  lemma Distribute(a: real, b: real, c: real)
    ensures a * (b + c) == a * b + a * c
  {
  }

  /** The change of the squared deviation of one point when the centre moves. */
  function PointGap(x: real, y: real, z: real): real {
    (y - z) * (2.0 * x - (z + y))
  }

  /** The changes summed over the cluster's d-th coordinates. */
  function GapTo(xs: seq<Vector>, assign: seq<nat>, c: nat, d: nat, n: nat, y: real, z: real): real
    requires n <= |assign| == |xs| && forall v :: 0 <= v < n ==> d < |xs[v]|
  {
    if n == 0 then 0.0
    else GapTo(xs, assign, c, d, n - 1, y, z) + if assign[n - 1] == c then PointGap(xs[n - 1][d], y, z) else 0.0
  }

  lemma SquareGap(x: real, y: real, z: real)
    ensures Square(x - z) - Square(x - y) == PointGap(x, y, z)
  {
  }

  /** How the spread changes when the centre moves from y to z. */
  lemma {:induction false} SpreadShift(xs: seq<Vector>, assign: seq<nat>, c: nat, d: nat, n: nat, y: real, z: real)
    requires n <= |assign| == |xs| && forall v :: 0 <= v < n ==> d < |xs[v]|
    ensures SpreadTo(xs, assign, c, d, n, z) - SpreadTo(xs, assign, c, d, n, y) == GapTo(xs, assign, c, d, n, y, z)
  {
    if n > 0 {
      SpreadShift(xs, assign, c, d, n - 1, y, z);
      SquareGap(xs[n - 1][d], y, z);
    }
  }

  lemma {:induction false} GapIsLean(xs: seq<Vector>, assign: seq<nat>, c: nat, d: nat, n: nat, y: real, z: real)
    requires n <= |assign| == |xs| && forall v :: 0 <= v < n ==> d < |xs[v]|
    ensures GapTo(xs, assign, c, d, n, y, z) == (y - z) * LeanTo(xs, assign, c, d, n, z + y)
  {
    if n > 0 {
      GapIsLean(xs, assign, c, d, n - 1, y, z);
      Distribute(y - z, LeanTo(xs, assign, c, d, n - 1, z + y),
                 if assign[n - 1] == c then 2.0 * xs[n - 1][d] - (z + y) else 0.0);
    }
  }

  /** Around its mean a cluster leans by its size times the move. */
  lemma LeanAtMean(xs: seq<Vector>, assign: seq<nat>, c: nat, d: nat, y: real, z: real, m: real)
    requires |assign| == |xs| && forall v :: 0 <= v < |xs| ==> d < |xs[v]|
    requires CountTo(assign, c, |xs|) > 0 && m == CountTo(assign, c, |xs|) as real
    requires y == SumTo(xs, assign, c, d, |xs|) / m
    ensures LeanTo(xs, assign, c, d, |xs|, z + y) == m * (y - z)
  {
    LeanIsSum(xs, assign, c, d, |xs|, z + y);
    MeanMove(SumTo(xs, assign, c, d, |xs|), m, y, z);
  }

  lemma MeanMove(s: real, m: real, y: real, z: real)
    requires m > 0.0 && y == s / m
    ensures 2.0 * s - m * (z + y) == m * (y - z)
  {
    assert s == m * y;
  }

  lemma ScaledSquare(a: real, m: real)
    requires m > 0.0
    ensures a * (m * a) >= 0.0
  {
    assert a * (m * a) == m * Square(a);
  }

  /** No centre gives a smaller spread than the mean. */
  lemma MeanIsBest(xs: seq<Vector>, assign: seq<nat>, c: nat, d: nat, mean: real, z: real)
    requires |assign| == |xs| && forall v :: 0 <= v < |xs| ==> d < |xs[v]|
    requires CountTo(assign, c, |xs|) > 0
    requires mean == SumTo(xs, assign, c, d, |xs|) / CountTo(assign, c, |xs|) as real
    ensures SpreadTo(xs, assign, c, d, |xs|, mean) <= SpreadTo(xs, assign, c, d, |xs|, z)
  {
    SpreadShift(xs, assign, c, d, |xs|, mean, z);
    GapAtMean(xs, assign, c, d, mean, z);
  }

  lemma GapAtMean(xs: seq<Vector>, assign: seq<nat>, c: nat, d: nat, mean: real, z: real)
    requires |assign| == |xs| && forall v :: 0 <= v < |xs| ==> d < |xs[v]|
    requires CountTo(assign, c, |xs|) > 0
    requires mean == SumTo(xs, assign, c, d, |xs|) / CountTo(assign, c, |xs|) as real
    ensures GapTo(xs, assign, c, d, |xs|, mean, z) >= 0.0
  {
    var m, g := CountTo(assign, c, |xs|) as real, mean - z;
    calc {
      GapTo(xs, assign, c, d, |xs|, mean, z);
    == { GapIsLean(xs, assign, c, d, |xs|, mean, z); }
      g * LeanTo(xs, assign, c, d, |xs|, z + mean);
    == { LeanAtMean(xs, assign, c, d, mean, z, m); }
      g * (m * g);
    >= { ScaledSquare(g, m); }
      0.0;
    }
  }

  /** The spread of a cluster around a centroid, summed over the first `dims` coordinates. */
  function ClusterCost(xs: seq<Vector>, assign: seq<nat>, c: nat, centroid: Vector, n: nat, dims: nat): real
    requires n <= |assign| == |xs| && dims <= |centroid| && forall v :: 0 <= v < |xs| ==> dims <= |xs[v]|
  {
    if dims == 0 then 0.0
    else ClusterCost(xs, assign, c, centroid, n, dims - 1) + SpreadTo(xs, assign, c, dims - 1, n, centroid[dims - 1])
  }

  /** The clusters' costs, summed over the first `clusters` of them. */
  function AllClusters(xs: seq<Vector>, assign: seq<nat>, centroids: seq<Vector>, sd: nat, n: nat, clusters: nat): real
    requires Points(xs, sd) && Points(centroids, sd) && n <= |assign| == |xs| && clusters <= |centroids|
  {
    if clusters == 0 then 0.0
    else AllClusters(xs, assign, centroids, sd, n, clusters - 1)
         + ClusterCost(xs, assign, clusters - 1, centroids[clusters - 1], n, sd)
  }

  lemma {:induction false} ClusterCostNone(xs: seq<Vector>, assign: seq<nat>, c: nat, centroid: Vector, dims: nat)
    requires |assign| == |xs| && dims <= |centroid| && forall v :: 0 <= v < |xs| ==> dims <= |xs[v]|
    ensures ClusterCost(xs, assign, c, centroid, 0, dims) == 0.0
  {
    if dims > 0 { ClusterCostNone(xs, assign, c, centroid, dims - 1); }
  }

  /** One more point adds its distance to its own cluster, and nothing to the others. */
  lemma {:induction false} ClusterCostNext(xs: seq<Vector>, assign: seq<nat>, c: nat, centroid: Vector, n: nat,
                                           dims: nat)
    requires n < |assign| == |xs| && dims <= |centroid| && forall v :: 0 <= v < |xs| ==> dims <= |xs[v]|
    ensures ClusterCost(xs, assign, c, centroid, n + 1, dims)
         == ClusterCost(xs, assign, c, centroid, n, dims) + if assign[n] == c then L2(xs[n], centroid, dims) else 0.0
  {
    if dims > 0 { ClusterCostNext(xs, assign, c, centroid, n, dims - 1); }
  }

  lemma {:induction false} AllClustersNone(xs: seq<Vector>, assign: seq<nat>, centroids: seq<Vector>, sd: nat,
                                           clusters: nat)
    requires Points(xs, sd) && Points(centroids, sd) && |assign| == |xs| && clusters <= |centroids|
    ensures AllClusters(xs, assign, centroids, sd, 0, clusters) == 0.0
  {
    if clusters > 0 {
      AllClustersNone(xs, assign, centroids, sd, clusters - 1);
      ClusterCostNone(xs, assign, clusters - 1, centroids[clusters - 1], sd);
    }
  }

  lemma {:induction false} AllClustersNext(xs: seq<Vector>, assign: seq<nat>, centroids: seq<Vector>, sd: nat,
                                           n: nat, clusters: nat)
    requires Points(xs, sd) && Points(centroids, sd) && n < |assign| == |xs| && clusters <= |centroids|
    ensures AllClusters(xs, assign, centroids, sd, n + 1, clusters)
         == AllClusters(xs, assign, centroids, sd, n, clusters)
            + if assign[n] < clusters then L2(xs[n], centroids[assign[n]], sd) else 0.0
  {
    if clusters > 0 {
      AllClustersNext(xs, assign, centroids, sd, n, clusters - 1);
      ClusterCostNext(xs, assign, clusters - 1, centroids[clusters - 1], n, sd);
    }
  }

  /** Summing by points or by clusters and coordinates gives the same cost. */
  lemma {:induction false} CostByClusters(xs: seq<Vector>, assign: seq<nat>, centroids: seq<Vector>, sd: nat, n: nat)
    requires Points(xs, sd) && Points(centroids, sd) && Assigns(assign, xs, |centroids|) && n <= |xs|
    ensures CostTo(xs, assign, centroids, sd, n) == AllClusters(xs, assign, centroids, sd, n, |centroids|)
  {
    if n == 0 {
      AllClustersNone(xs, assign, centroids, sd, |centroids|);
    } else {
      CostByClusters(xs, assign, centroids, sd, n - 1);
      AllClustersNext(xs, assign, centroids, sd, n - 1, |centroids|);
    }
  }

  lemma {:induction false} ClusterDescends(xs: seq<Vector>, assign: seq<nat>, c: nat, kept: Vector, sd: nat, dims: nat)
    requires Points(xs, sd) && |assign| == |xs| && |kept| == sd && dims <= sd
    ensures ClusterCost(xs, assign, c, MeanOr(xs, assign, c, sd, kept), |xs|, dims)
            <= ClusterCost(xs, assign, c, kept, |xs|, dims)
  {
    if dims > 0 {
      ClusterDescends(xs, assign, c, kept, sd, dims - 1);
      if CountTo(assign, c, |xs|) > 0 {
        MeanIsBest(xs, assign, c, dims - 1, MeanOr(xs, assign, c, sd, kept)[dims - 1], kept[dims - 1]);
      }
    }
  }

  lemma {:induction false} UpdateDescendsTo(xs: seq<Vector>, assign: seq<nat>, centroids: seq<Vector>, sd: nat,
                                            clusters: nat)
    requires Points(xs, sd) && Points(centroids, sd) && |assign| == |xs| && clusters <= |centroids|
    ensures AllClusters(xs, assign, Updated(xs, assign, centroids, sd), sd, |xs|, clusters)
         <= AllClusters(xs, assign, centroids, sd, |xs|, clusters)
  {
    if clusters > 0 {
      UpdateDescendsTo(xs, assign, centroids, sd, clusters - 1);
      ClusterDescends(xs, assign, clusters - 1, centroids[clusters - 1], sd, sd);
    }
  }

  // ---------------------------------------------------------------------------------------
  // Main results
  // ---------------------------------------------------------------------------------------

  /** Neither step raises the total squared distance. */
  lemma StepsDescend(xs: seq<Vector>, assign: seq<nat>, centroids: seq<Vector>, sd: nat)
    requires Points(xs, sd) && Points(centroids, sd) && centroids != [] && Assigns(assign, xs, |centroids|)
    ensures Cost(xs, Assigned(xs, centroids, sd), centroids, sd) <= Cost(xs, assign, centroids, sd)
    ensures Cost(xs, assign, Updated(xs, assign, centroids, sd), sd) <= Cost(xs, assign, centroids, sd)
  {
    AssignDescendsTo(xs, assign, centroids, sd, |xs|);
    UpdateDescendsTo(xs, assign, centroids, sd, |centroids|);
    CostByClusters(xs, assign, centroids, sd, |xs|);
    CostByClusters(xs, assign, Updated(xs, assign, centroids, sd), sd, |xs|);
  }

  /** A whole training run ends no costlier than it began. */
  lemma {:induction false} LloydDescends(xs: seq<Vector>, centroids: seq<Vector>, assign: seq<nat>, sd: nat,
                                         iter: nat, iterations: nat)
    requires Points(xs, sd) && Points(centroids, sd) && centroids != [] && Assigns(assign, xs, |centroids|)
    requires iter <= iterations
    ensures var r := Lloyd(xs, centroids, assign, sd, iter, iterations);
      && |r.centroids| == |centroids| && Points(r.centroids, sd) && Assigns(r.assign, xs, |r.centroids|)
      && Cost(xs, r.assign, r.centroids, sd) <= Cost(xs, assign, centroids, sd)
    decreases iterations - iter
  {
    if iter < iterations {
      var next := Assigned(xs, centroids, sd);
      StepsDescend(xs, assign, centroids, sd);
      StepsDescend(xs, next, centroids, sd);
      if !(next == assign && iter > 0) {
        LloydDescends(xs, Updated(xs, next, centroids, sd), next, sd, iter + 1, iterations);
      }
    }
  }

  /** Every non-empty cluster's centroid is the mean of its members. */
  ghost predicate AtMeans(xs: seq<Vector>, assign: seq<nat>, centroids: seq<Vector>, sd: nat)
    requires Points(xs, sd) && Points(centroids, sd) && |assign| == |xs|
  {
    forall c, d :: 0 <= c < |centroids| && 0 <= d < sd && CountTo(assign, c, |xs|) > 0 ==>
      centroids[c][d] == SumTo(xs, assign, c, d, |xs|) / CountTo(assign, c, |xs|) as real
  }

  /** Every point is assigned to its nearest centroid, the lowest index among the nearest. */
  ghost predicate AtNearest(xs: seq<Vector>, assign: seq<nat>, centroids: seq<Vector>, sd: nat)
    requires Points(xs, sd) && Points(centroids, sd) && Assigns(assign, xs, |centroids|)
  {
    forall v, c :: 0 <= v < |xs| && 0 <= c < |centroids| ==>
      && L2(xs[v], centroids[assign[v]], sd) <= L2(xs[v], centroids[c], sd)
      && (c < assign[v] ==> L2(xs[v], centroids[assign[v]], sd) < L2(xs[v], centroids[c], sd))
  }

  lemma AssignedAtNearest(xs: seq<Vector>, centroids: seq<Vector>, sd: nat)
    requires Points(xs, sd) && Points(centroids, sd) && centroids != []
    ensures AtNearest(xs, Assigned(xs, centroids, sd), centroids, sd)
  {
    forall v | 0 <= v < |xs|
      ensures forall c :: 0 <= c < |centroids| ==>
        var a := Assigned(xs, centroids, sd)[v];
        && L2(xs[v], centroids[a], sd) <= L2(xs[v], centroids[c], sd)
        && (c < a ==> L2(xs[v], centroids[a], sd) < L2(xs[v], centroids[c], sd))
    {
      NearestIsLeast(xs[v], centroids, |centroids|);
    }
  }

  /** The early exit is a fixed point of both steps. */
  lemma {:induction false} ConvergedIsFixed(xs: seq<Vector>, centroids: seq<Vector>, assign: seq<nat>, sd: nat,
                                            iter: nat, iterations: nat)
    requires Points(xs, sd) && Points(centroids, sd) && centroids != [] && Assigns(assign, xs, |centroids|)
    requires iter <= iterations
    requires iter > 0 ==> AtMeans(xs, assign, centroids, sd)
    requires Lloyd(xs, centroids, assign, sd, iter, iterations).converged
    ensures var r := Lloyd(xs, centroids, assign, sd, iter, iterations);
      && |r.centroids| == |centroids| && Points(r.centroids, sd) && Assigns(r.assign, xs, |r.centroids|)
      && AtMeans(xs, r.assign, r.centroids, sd) && AtNearest(xs, r.assign, r.centroids, sd)
    decreases iterations - iter
  {
    var next := Assigned(xs, centroids, sd);
    if next == assign && iter > 0 {
      AssignedAtNearest(xs, centroids, sd);
    } else {
      ConvergedIsFixed(xs, Updated(xs, next, centroids, sd), next, sd, iter + 1, iterations);
    }
  }

  // ---------------------------------------------------------------------------------------
  // Every iteration of a run
  // ---------------------------------------------------------------------------------------

  /** Non-empty clusters' centroids move to the means of their members; the others stay. */
  ghost predicate Moves(xs: seq<Vector>, assign: seq<nat>, before: seq<Vector>, after: seq<Vector>, sd: nat)
    requires Points(xs, sd) && Points(before, sd) && Points(after, sd) && |assign| == |xs|
  {
    && |after| == |before| && AtMeans(xs, assign, after, sd)
    && forall c :: 0 <= c < |before| && CountTo(assign, c, |xs|) == 0 ==> after[c] == before[c]
  }

  /** Assignment j is the one before it: the one given, after at least one iteration, or the trace's own. */
  predicate Repeats(assigns: seq<seq<nat>>, last: seq<nat>, iter: nat, j: nat)
    requires j < |assigns|
  {
    if j == 0 then iter > 0 && assigns[0] == last else assigns[j] == assigns[j - 1]
  }

  /** Iteration by iteration: every assignment is to the nearest of the centroids before it, and moves them. A
      repeated assignment ends the run without moving them, and nothing else ends it early. */
  ghost predicate IsTraining(centroids: seq<seq<Vector>>, assigns: seq<seq<nat>>, xs: seq<Vector>, sd: nat,
                             last: seq<nat>, iter: nat, iterations: nat)
    requires Points(xs, sd)
  {
    && centroids != [] && |assigns| <= |centroids| <= |assigns| + 1
    && (forall j :: 0 <= j < |centroids| ==> Points(centroids[j], sd) && |centroids[j]| == |centroids[0]|)
    && (forall j :: 0 <= j < |assigns| ==>
          Assigns(assigns[j], xs, |centroids[j]|) && AtNearest(xs, assigns[j], centroids[j], sd))
    && (forall j :: 0 <= j < |centroids| - 1 ==> Moves(xs, assigns[j], centroids[j], centroids[j + 1], sd))
    && (forall j :: 0 <= j < |assigns| - 1 ==> !Repeats(assigns, last, iter, j))
    && if assigns != [] && Repeats(assigns, last, iter, |assigns| - 1) then |centroids| == |assigns|
       else |centroids| == |assigns| + 1 && iter + |assigns| == iterations
  }

  lemma UpdatedMoves(xs: seq<Vector>, assign: seq<nat>, centroids: seq<Vector>, sd: nat)
    requires Points(xs, sd) && Points(centroids, sd) && |assign| == |xs|
    ensures Moves(xs, assign, centroids, Updated(xs, assign, centroids, sd), sd)
  {
  }

  lemma LloydTurn(xs: seq<Vector>, centroids: seq<Vector>, assign: seq<nat>, sd: nat, iter: nat, iterations: nat)
    requires Points(xs, sd) && Points(centroids, sd) && centroids != [] && iter <= iterations
    ensures var next, r := Assigned(xs, centroids, sd), Lloyd(xs, centroids, assign, sd, iter, iterations);
      if iter == iterations || (next == assign && iter > 0) then r.centroids == centroids
      else r == Lloyd(xs, Updated(xs, next, centroids, sd), next, sd, iter + 1, iterations)
  {
  }

  /** A run is such a trace, and ends with its last centroids. */
  lemma {:induction false} LloydIsTraining(xs: seq<Vector>, centroids: seq<Vector>, assign: seq<nat>, sd: nat,
                                           iter: nat, iterations: nat)
    returns (trace: seq<seq<Vector>>, assigns: seq<seq<nat>>)
    requires Points(xs, sd) && Points(centroids, sd) && centroids != [] && |assign| == |xs| && iter <= iterations
    ensures IsTraining(trace, assigns, xs, sd, assign, iter, iterations)
    ensures trace != [] && trace[0] == centroids
    ensures trace[|trace| - 1] == Lloyd(xs, centroids, assign, sd, iter, iterations).centroids
    decreases iterations - iter
  {
    hide IsTraining;
    hide AtNearest;
    hide Moves;
    hide Assigned;
    hide Updated;
    hide Lloyd;
    hide Points;
    LloydTurn(xs, centroids, assign, sd, iter, iterations);
    TrainingEnds(xs, centroids, assign, assign, sd, iter, iterations);
    trace, assigns := [centroids], [];
    if iter < iterations {
      var next := Assigned(xs, centroids, sd);
      AssignedAtNearest(xs, centroids, sd);
      if next == assign && iter > 0 {
        assigns := [next];
        TrainingEnds(xs, centroids, next, assign, sd, iter, iterations);
      } else {
        var moved := Updated(xs, next, centroids, sd);
        UpdatedMoves(xs, next, centroids, sd);
        var later, rest := LloydIsTraining(xs, moved, next, sd, iter + 1, iterations);
        trace, assigns := [centroids] + later, [next] + rest;
        TrainingStarts(later, rest, xs, sd, centroids, next, assign, iter, iterations);
      }
    }
  }

  /** The last iteration of a trace. */
  lemma TrainingEnds(xs: seq<Vector>, centroids: seq<Vector>, next: seq<nat>, last: seq<nat>, sd: nat,
                     iter: nat, iterations: nat)
    requires Points(xs, sd) && Points(centroids, sd) && iter <= iterations
    ensures iter == iterations ==> IsTraining([centroids], [], xs, sd, last, iter, iterations)
    ensures Assigns(next, xs, |centroids|) && AtNearest(xs, next, centroids, sd) && iter > 0 && next == last ==>
      IsTraining([centroids], [next], xs, sd, last, iter, iterations)
  {
  }

  /** One iteration before a trace. */
  lemma TrainingStarts(later: seq<seq<Vector>>, rest: seq<seq<nat>>, xs: seq<Vector>, sd: nat,
                       centroids: seq<Vector>, next: seq<nat>, last: seq<nat>, iter: nat, iterations: nat)
    requires Points(xs, sd) && Points(centroids, sd) && IsTraining(later, rest, xs, sd, next, iter + 1, iterations)
    requires Assigns(next, xs, |centroids|) && AtNearest(xs, next, centroids, sd)
    requires later != [] && Points(later[0], sd) && Moves(xs, next, centroids, later[0], sd)
    requires |later[0]| == |centroids| && (iter == 0 || next != last)
    ensures IsTraining([centroids] + later, [next] + rest, xs, sd, last, iter, iterations)
  {
    hide AtNearest;
    hide Moves;
    var all, assigns := [centroids] + later, [next] + rest;
    forall j | 0 < j < |assigns|
      ensures Repeats(assigns, last, iter, j) <==> Repeats(rest, next, iter + 1, j - 1) {
    }
    forall j | 0 <= j < |all| - 1 ensures Moves(xs, assigns[j], all[j], all[j + 1], sd) {
      if j > 0 { assert Moves(xs, rest[j - 1], later[j - 1], later[j], sd); }
    }
  }

  /** Such a training, from the points picked first, ends with these centroids. */
  ghost predicate IsTrained(result: seq<Vector>, xs: seq<Vector>, picks: seq<nat>, sd: nat, iterations: nat)
    requires Points(xs, sd)
  {
    exists trace: seq<seq<Vector>>, assigns: seq<seq<nat>> ::
      && IsTraining(trace, assigns, xs, sd, [], 0, iterations) && trace[|trace| - 1] == result
      && |trace[0]| == |picks| && forall i :: 0 <= i < |picks| ==> picks[i] < |xs| && trace[0][i] == xs[picks[i]]
  }

  /** What the run before the first iteration assigns plays no part. */
  lemma FirstAssignmentIgnored(trace: seq<seq<Vector>>, assigns: seq<seq<nat>>, xs: seq<Vector>, sd: nat,
                               last: seq<nat>, iterations: nat)
    requires Points(xs, sd) && IsTraining(trace, assigns, xs, sd, last, 0, iterations)
    ensures IsTraining(trace, assigns, xs, sd, [], 0, iterations)
  {
    hide AtNearest;
    hide Moves;
    assert forall j :: 0 <= j < |assigns| ==> (Repeats(assigns, last, 0, j) <==> Repeats(assigns, [], 0, j));
  }

  // ---------------------------------------------------------------------------------------
  // The training loop
  // ---------------------------------------------------------------------------------------

  /** The start of the loop: the chosen points as centroids, everything assigned to cluster 0. */
  function Initial(xs: seq<Vector>, picks: seq<nat>): (centroids: seq<Vector>)
    requires forall i :: 0 <= i < |picks| ==> picks[i] < |xs|
    ensures |centroids| == |picks|
  {
    seq(|picks|, i requires 0 <= i < |picks| => xs[picks[i]])
  }

  lemma TrainedByLloyd(xs: seq<Vector>, picks: seq<nat>, sd: nat, iterations: nat)
    requires Points(xs, sd) && picks != [] && forall i :: 0 <= i < |picks| ==> picks[i] < |xs|
    ensures IsTrained(Lloyd(xs, Initial(xs, picks), seq(|xs|, _ => 0), sd, 0, iterations).centroids, xs, picks, sd,
                      iterations)
  {
    hide IsTraining;
    hide Lloyd;
    var start := seq(|xs|, _ => 0);
    var trace, assigns := LloydIsTraining(xs, Initial(xs, picks), start, sd, 0, iterations);
    TrainingNotEmpty(trace, assigns, xs, sd, start, iterations);
    FirstAssignmentIgnored(trace, assigns, xs, sd, start, iterations);
  }

  lemma TrainingNotEmpty(trace: seq<seq<Vector>>, assigns: seq<seq<nat>>, xs: seq<Vector>, sd: nat, last: seq<nat>,
                         iterations: nat)
    requires Points(xs, sd) && IsTraining(trace, assigns, xs, sd, last, 0, iterations)
    ensures trace != []
  {
  }

  method AssignPoints(xs: seq<Vector>, centroids: seq<Vector>, sd: nat, assignments: seq<nat>)
    returns (assign: seq<nat>, changed: bool)
    requires Points(xs, sd) && Points(centroids, sd) && centroids != [] && |assignments| == |xs|
    ensures assign == Assigned(xs, centroids, sd)
    ensures changed <==> assign != assignments
  {
    assign, changed := assignments, false;
    for v := 0 to |xs|
      invariant |assign| == |xs|
      invariant forall p :: 0 <= p < v ==> assign[p] == NearestOf(xs[p], centroids, |centroids|)
      invariant forall p :: v <= p < |xs| ==> assign[p] == assignments[p]
      invariant changed <==> assign != assignments
    {
      var best: nat, minDist := 0, L2(xs[v], centroids[0], sd);
      for c := 1 to |centroids|
        invariant best < c && minDist == L2(xs[v], centroids[best], sd)
        invariant best == NearestOf(xs[v], centroids, c)
      {
        var dist := L2(xs[v], centroids[c], sd);
        if dist < minDist {
          minDist := dist;
          best := c;
        }
      }
      if assign[v] != best {
        changed := true;
        assign := assign[v := best];
        assert assign[v] != assignments[v];
      }
    }
  }

  method MoveCentroids(xs: seq<Vector>, assign: seq<nat>, centroids: seq<Vector>, sd: nat) returns (moved: seq<Vector>)
    requires Points(xs, sd) && Points(centroids, sd) && Assigns(assign, xs, |centroids|)
    ensures moved == Updated(xs, assign, centroids, sd)
  {
    var counts: seq<nat> := seq(|centroids|, _ => 0);
    var sums: seq<Vector> := seq(|centroids|, _ => seq(sd, _ => 0.0));
    for v := 0 to |xs|
      invariant |counts| == |sums| == |centroids| && Points(sums, sd)
      invariant forall c :: 0 <= c < |counts| ==> counts[c] == CountTo(assign, c, v)
      invariant forall c, d :: 0 <= c < |sums| && 0 <= d < sd ==> sums[c][d] == SumTo(xs, assign, c, d, v)
    {
      var c := assign[v];
      counts := counts[c := counts[c] + 1];
      var row := sums[c];
      for d := 0 to sd
        invariant |row| == sd
        invariant forall e :: 0 <= e < d ==> row[e] == sums[c][e] + xs[v][e]
        invariant forall e :: d <= e < sd ==> row[e] == sums[c][e]
      {
        row := row[d := row[d] + xs[v][d]];
      }
      sums := sums[c := row];
    }
    moved := centroids;
    for c := 0 to |centroids|
      invariant |moved| == |centroids|
      invariant forall p :: 0 <= p < c ==> moved[p] == MeanOr(xs, assign, p, sd, centroids[p])
      invariant forall p :: c <= p < |centroids| ==> moved[p] == centroids[p]
    {
      if counts[c] > 0 {
        var mean := sums[c];
        for d := 0 to sd
          invariant |mean| == sd
          invariant forall e :: 0 <= e < d ==> mean[e] == sums[c][e] / counts[c] as real
          invariant forall e :: d <= e < sd ==> mean[e] == sums[c][e]
        {
          mean := mean[d := mean[d] / counts[c] as real];
        }
        moved := moved[c := mean];
      }
    }
  }

  /** The codebook of one subspace. The points picked first come from a shuffle. */
  method Kmeans(subvectors: seq<Vector>, sd: nat, picks: seq<nat>, numIterations: nat) returns (centroids: seq<Vector>)
    requires Points(subvectors, sd) && 1 <= |picks| <= |subvectors|
    requires forall i :: 0 <= i < |picks| ==> picks[i] < |subvectors|
    ensures centroids
            == Lloyd(subvectors, Initial(subvectors, picks), seq(|subvectors|, _ => 0), sd, 0, numIterations).centroids
    ensures IsTrained(centroids, subvectors, picks, sd, numIterations)
  {
    centroids := Initial(subvectors, picks);
    var assignments: seq<nat> := seq(|subvectors|, _ => 0);
    ghost var outcome := Lloyd(subvectors, centroids, assignments, sd, 0, numIterations);
    var iter := 0;
    while iter < numIterations
      invariant iter <= numIterations && |centroids| == |picks| && Points(centroids, sd)
      invariant |assignments| == |subvectors|
      invariant Lloyd(subvectors, centroids, assignments, sd, iter, numIterations) == outcome
    {
      var assign, changed := AssignPoints(subvectors, centroids, sd, assignments);
      assignments := assign;
      if !changed && iter > 0 { break; }
      centroids := MoveCentroids(subvectors, assignments, centroids, sd);
      iter := iter + 1;
    }
    TrainedByLloyd(subvectors, picks, sd, numIterations);
  }
}
