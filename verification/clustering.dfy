/**
  The k-means loop of the clustering code: assign every point to its nearest
  centroid, replace every centroid by the mean of its points, and stop after
  maxEpochs epochs or as soon as the centroids moved less than the
  tolerance. The result lists, per cluster, its points and their indices.

  Float arithmetic is abstracted to `real`; the FLT_MAX sentinel that every
  running minimum starts from becomes `Infinity`, above every distance.
*/
module Clustering {
  import opened Wrappers
  import opened Distance
  import opened Sampling
  import Page

  /** All vectors have exactly d components. */
  predicate HasWidth(vs: seq<seq<real>>, d: nat)
  {
    forall i | 0 <= i < |vs| :: |vs[i]| == d
  }

  lemma UniformWidth(points: seq<seq<real>>)
    requires Uniform(points) && |points| > 0
    ensures HasWidth(points, |points[0]|)
  {
  }

  // ---------------------------------------------------------------------
  // Assignment (assignPoints)
  // ---------------------------------------------------------------------

  /** A running minimum: a distance seen so far, or the initial sentinel. */
  datatype Bound = Finite(value: real) | Infinity

  /** d improves on the running minimum. */
  predicate Below(d: real, b: Bound)
  {
    b.Infinity? || d < b.value
  }

  /** Every running minimum is the sentinel (the state kMeans and computePoints leave). */
  predicate AllInfinity(minSq: seq<Bound>)
  {
    forall j | 0 <= j < |minSq| :: minSq[j] == Infinity
  }

  function Infinities(n: nat): (r: seq<Bound>)
    ensures |r| == n && AllInfinity(r)
  {
    seq(n, _ => Infinity)
  }

  /**
    The inner loop of assignPoints for one point over centroids 0..n-1:
    a centroid is taken only when it is strictly closer than the best so far.
  */
  function Scan(cs: seq<seq<real>>, p: seq<real>, n: nat, best: Bound, id: nat): (r: (Bound, nat))
    requires n <= |cs| && HasWidth(cs, |p|)
    ensures (r.1 == id && r.0 == best) || (r.1 < n && r.0 == Finite(SquaredDistance(cs[r.1], p)))
    ensures forall i | 0 <= i < n :: !Below(SquaredDistance(cs[i], p), r.0)
  {
    if n == 0 then (best, id)
    else
      var prev := Scan(cs, p, n - 1, best, id);
      var d := SquaredDistance(cs[n - 1], p);
      if Below(d, prev.0) then (Finite(d), n - 1) else prev
  }

  /**
    Centroid k is the first of the nearest among centroids 0..n-1: no
    centroid is closer, and every centroid before k is farther.
  */
  predicate FirstNearest(cs: seq<seq<real>>, p: seq<real>, n: nat, k: nat)
    requires n <= |cs| && HasWidth(cs, |p|)
  {
    && k < n
    && (forall i | 0 <= i < n :: SquaredDistance(cs[k], p) <= SquaredDistance(cs[i], p))
    && (forall i | 0 <= i < k :: SquaredDistance(cs[k], p) < SquaredDistance(cs[i], p))
  }

  /** Starting from the sentinel, the scan ends on the first nearest centroid and its distance. */
  lemma {:induction false} ScanFindsFirstNearest(cs: seq<seq<real>>, p: seq<real>, n: nat, id: nat)
    requires 1 <= n <= |cs| && HasWidth(cs, |p|)
    ensures FirstNearest(cs, p, n, Scan(cs, p, n, Infinity, id).1)
    ensures Scan(cs, p, n, Infinity, id).0 == Finite(SquaredDistance(cs[Scan(cs, p, n, Infinity, id).1], p))
  {
    if n > 1 {
      ScanFindsFirstNearest(cs, p, n - 1, id);
    }
  }

  /** There is only one first nearest centroid. */
  lemma FirstNearestUnique(cs: seq<seq<real>>, p: seq<real>, n: nat, k1: nat, k2: nat)
    requires n <= |cs| && HasWidth(cs, |p|)
    requires FirstNearest(cs, p, n, k1) && FirstNearest(cs, p, n, k2)
    ensures k1 == k2
  {
    assert SquaredDistance(cs[k1], p) == SquaredDistance(cs[k2], p);
  }

  /**
    assignPoints: every point gets the first nearest centroid when its
    running minimum starts at the sentinel; with no centroids nothing changes.
  */
  function AssignPoints(cs: seq<seq<real>>, points: seq<seq<real>>, minSq: seq<Bound>, ids: seq<nat>, d: nat): (r: (seq<Bound>, seq<nat>))
    requires HasWidth(cs, d) && HasWidth(points, d)
    requires |minSq| == |points| && |ids| == |points|
    ensures |r.0| == |points| && |r.1| == |points|
    ensures |cs| == 0 ==> r == (minSq, ids)
    ensures |cs| >= 1 && AllInfinity(minSq) ==>
      forall j | 0 <= j < |points| ::
        && FirstNearest(cs, points[j], |cs|, r.1[j])
        && r.0[j] == Finite(SquaredDistance(cs[r.1[j]], points[j]))
  {
    var scans := seq(|points|, j requires 0 <= j < |points| => Scan(cs, points[j], |cs|, minSq[j], ids[j]));
    var r := (seq(|points|, j requires 0 <= j < |points| => scans[j].0),
              seq(|points|, j requires 0 <= j < |points| => scans[j].1));
    if |cs| == 0 then
      assert r.0 == minSq && r.1 == ids;
      r
    else
      AssignNearest(cs, points, minSq, ids, d, r);
      r
  }

  lemma AssignNearest(cs: seq<seq<real>>, points: seq<seq<real>>, minSq: seq<Bound>, ids: seq<nat>, d: nat, r: (seq<Bound>, seq<nat>))
    requires HasWidth(cs, d) && HasWidth(points, d) && |cs| >= 1
    requires |minSq| == |points| && |ids| == |points|
    requires |r.0| == |points| && |r.1| == |points|
    requires forall j | 0 <= j < |points| :: (r.0[j], r.1[j]) == Scan(cs, points[j], |cs|, minSq[j], ids[j])
    ensures AllInfinity(minSq) ==>
      forall j | 0 <= j < |points| ::
        && FirstNearest(cs, points[j], |cs|, r.1[j])
        && r.0[j] == Finite(SquaredDistance(cs[r.1[j]], points[j]))
  {
    if AllInfinity(minSq) {
      forall j | 0 <= j < |points|
        ensures FirstNearest(cs, points[j], |cs|, r.1[j])
        ensures r.0[j] == Finite(SquaredDistance(cs[r.1[j]], points[j]))
      {
        ScanFindsFirstNearest(cs, points[j], |cs|, ids[j]);
      }
    }
  }

  // ---------------------------------------------------------------------
  // Cluster membership (the final loop of kMeans)
  // ---------------------------------------------------------------------

  /** Per cluster, its member vectors and their indices as u_int32, in index order. */
  datatype Groups = Groups(clusters: seq<seq<seq<real>>>, idClusters: seq<seq<Page.Id>>)

  /** The u_int32 conversion of a point index. */
  function AsId(j: nat): Page.Id
  {
    j % 0x1_0000_0000
  }

  /** Every label names one of k clusters. */
  predicate Labels(ids: seq<nat>, k: nat)
  {
    forall j | 0 <= j < |ids| :: ids[j] < k
  }

  /** One pass over points 0..n-1 pushing each onto the lists of its cluster. */
  function Memberships(points: seq<seq<real>>, ids: seq<nat>, k: nat, n: nat): (g: Groups)
    requires n <= |points| && |ids| == |points| && Labels(ids, k)
    ensures |g.clusters| == k && |g.idClusters| == k
  {
    if n == 0 then Groups(seq(k, _ => []), seq(k, _ => []))
    else
      var g := Memberships(points, ids, k, n - 1);
      var c := ids[n - 1];
      Groups(g.clusters[c := g.clusters[c] + [points[n - 1]]],
             g.idClusters[c := g.idClusters[c] + [AsId(n - 1)]])
  }

  /** The groups of all the points. */
  function Clusters(points: seq<seq<real>>, ids: seq<nat>, k: nat): (g: Groups)
    requires |ids| == |points| && Labels(ids, k)
    ensures |g.clusters| == k && |g.idClusters| == k
  {
    Memberships(points, ids, k, |points|)
  }

  /**
    The groups partition points 0..n-1 by label: every listed index is
    below n, carries the cluster's label and is listed with its own point;
    indices appear in increasing order; every point is listed in its cluster.
  */
  predicate PartitionOf(points: seq<seq<real>>, ids: seq<nat>, n: nat, g: Groups)
    requires n <= |points| && |ids| == |points|
  {
    && |g.clusters| == |g.idClusters|
    && (forall c | 0 <= c < |g.idClusters| :: |g.clusters[c]| == |g.idClusters[c]|)
    && (forall c, t | 0 <= c < |g.idClusters| && 0 <= t < |g.idClusters[c]| ::
          && g.idClusters[c][t] < n
          && ids[g.idClusters[c][t]] == c
          && t < |g.clusters[c]|
          && g.clusters[c][t] == points[g.idClusters[c][t]])
    && (forall c, t1, t2 | 0 <= c < |g.idClusters| && 0 <= t1 < t2 < |g.idClusters[c]| ::
          g.idClusters[c][t1] < g.idClusters[c][t2])
    && (forall j | 0 <= j < n :: ids[j] < |g.idClusters| && j in g.idClusters[ids[j]])
  }

  /** While indices fit in u_int32, the pushed lists partition the points by label. */
  lemma {:induction false} MembershipsPartition(points: seq<seq<real>>, ids: seq<nat>, k: nat, n: nat)
    requires n <= |points| && |ids| == |points| && Labels(ids, k)
    requires n <= 0x1_0000_0000
    ensures PartitionOf(points, ids, n, Memberships(points, ids, k, n))
  {
    if n > 0 {
      MembershipsPartition(points, ids, k, n - 1);
      PushKeepsPartition(points, ids, k, n - 1, Memberships(points, ids, k, n - 1));
    }
  }

  lemma PushKeepsPartition(points: seq<seq<real>>, ids: seq<nat>, k: nat, m: nat, g: Groups)
    requires m < |points| && |ids| == |points| && Labels(ids, k)
    requires m < 0x1_0000_0000
    requires |g.clusters| == k
    requires PartitionOf(points, ids, m, g)
    ensures
      var c := ids[m];
      PartitionOf(points, ids, m + 1,
        Groups(g.clusters[c := g.clusters[c] + [points[m]]], g.idClusters[c := g.idClusters[c] + [AsId(m)]]))
  {
    var c := ids[m];
    var g' := Groups(g.clusters[c := g.clusters[c] + [points[m]]], g.idClusters[c := g.idClusters[c] + [AsId(m)]]);
    assert AsId(m) == m;
    forall j | 0 <= j < m + 1
      ensures ids[j] < |g'.idClusters| && j in g'.idClusters[ids[j]]
    {
      if j < m {
        assert j in g.idClusters[ids[j]];
      } else {
        assert g'.idClusters[c][|g.idClusters[c]|] == j;
      }
    }
  }

  /** Every listed vector has the width of the points. */
  predicate Grouped(g: Groups, d: nat)
  {
    forall c | 0 <= c < |g.clusters| :: HasWidth(g.clusters[c], d)
  }

  lemma {:induction false} MembershipsWidth(points: seq<seq<real>>, ids: seq<nat>, k: nat, n: nat, d: nat)
    requires n <= |points| && |ids| == |points| && Labels(ids, k)
    requires HasWidth(points, d)
    ensures Grouped(Memberships(points, ids, k, n), d)
  {
    if n > 0 {
      MembershipsWidth(points, ids, k, n - 1, d);
    }
  }

  // ---------------------------------------------------------------------
  // Centroid update (computePoints)
  // ---------------------------------------------------------------------

  function AddVec(a: seq<real>, b: seq<real>): (r: seq<real>)
    requires |a| == |b|
    ensures |r| == |a|
  {
    seq(|a|, i requires 0 <= i < |a| => a[i] + b[i])
  }

  /** The componentwise sum of a group of vectors of width d. */
  function VecSum(g: seq<seq<real>>, d: nat): (s: seq<real>)
    requires HasWidth(g, d)
    ensures |s| == d
  {
    if |g| == 0 then Zeros(d) else AddVec(VecSum(g[..|g| - 1], d), g[|g| - 1])
  }

  /** The componentwise mean of a non-empty group of vectors of width d. */
  function Mean(g: seq<seq<real>>, d: nat): (m: seq<real>)
    requires HasWidth(g, d) && |g| > 0
    ensures |m| == d
  {
    var s := VecSum(g, d);
    seq(d, i requires 0 <= i < d => s[i] / (|g| as real))
  }

  /**
    The accumulation loop of computePoints over points 0..n-1: per cluster
    the running componentwise sum and the number of points.
  */
  function Accumulate(points: seq<seq<real>>, ids: seq<nat>, k: nat, d: nat, n: nat): (r: (seq<seq<real>>, seq<nat>))
    requires n <= |points| && |ids| == |points| && Labels(ids, k)
    requires HasWidth(points, d)
    ensures |r.0| == k && |r.1| == k && HasWidth(r.0, d)
  {
    if n == 0 then (seq(k, _ => Zeros(d)), seq(k, _ => 0))
    else
      var acc := Accumulate(points, ids, k, d, n - 1);
      var c := ids[n - 1];
      (acc.0[c := AddVec(acc.0[c], points[n - 1])], acc.1[c := acc.1[c] + 1])
  }

  /** The running sums and counts are the sums and sizes of the groups the final push builds. */
  lemma {:induction false} AccumulateSumsGroups(points: seq<seq<real>>, ids: seq<nat>, k: nat, d: nat, n: nat)
    requires n <= |points| && |ids| == |points| && Labels(ids, k)
    requires HasWidth(points, d)
    ensures Grouped(Memberships(points, ids, k, n), d)
    ensures forall c | 0 <= c < k ::
      && Accumulate(points, ids, k, d, n).0[c] == VecSum(Memberships(points, ids, k, n).clusters[c], d)
      && Accumulate(points, ids, k, d, n).1[c] == |Memberships(points, ids, k, n).clusters[c]|
  {
    MembershipsWidth(points, ids, k, n, d);
    if n > 0 {
      AccumulateSumsGroups(points, ids, k, d, n - 1);
      var g := Memberships(points, ids, k, n - 1);
      var c := ids[n - 1];
      var grown := g.clusters[c] + [points[n - 1]];
      assert grown[..|grown| - 1] == g.clusters[c];
    }
  }

  /** The lowest cluster from c on with no points, if any. */
  function FirstEmpty(counts: seq<nat>, c: nat): (r: Option<nat>)
    requires c <= |counts|
    ensures r.Some? ==> c <= r.value < |counts| && counts[r.value] == 0
    ensures forall i | c <= i < |counts| && (r.None? || i < r.value) :: counts[i] > 0
    decreases |counts| - c
  {
    if c == |counts| then None
    else if counts[c] == 0 then Some(c)
    else FirstEmpty(counts, c + 1)
  }

  /** Pairs of vectors of equal width. */
  predicate Paired(cs: seq<seq<real>>, ns: seq<seq<real>>)
  {
    |cs| == |ns| && forall i | 0 <= i < |cs| :: |cs[i]| == |ns[i]|
  }

  /** The squared Frobenius norm of the centroid move: the sum of each centroid's squared displacement. */
  function Shift(cs: seq<seq<real>>, ns: seq<seq<real>>, n: nat): real
    requires Paired(cs, ns) && n <= |cs|
  {
    if n == 0 then 0.0 else Shift(cs, ns, n - 1) + SquaredDistance(cs[n - 1], ns[n - 1])
  }

  /** The shift is never negative and vanishes exactly when no centroid moved. */
  lemma {:induction false} ShiftZeroIff(cs: seq<seq<real>>, ns: seq<seq<real>>, n: nat)
    requires Paired(cs, ns) && n <= |cs|
    ensures Shift(cs, ns, n) >= 0.0
    ensures Shift(cs, ns, n) == 0.0 <==> cs[..n] == ns[..n]
  {
    if n > 0 {
      ShiftZeroIff(cs, ns, n - 1);
      var a, b := cs[n - 1], ns[n - 1];
      assert b[..|a|] == b;
      assert cs[..n] == cs[..n - 1] + [a];
      assert ns[..n] == ns[..n - 1] + [b];
      if cs[..n] == ns[..n] {
        assert cs[..n - 1] == cs[..n][..n - 1] && ns[..n - 1] == ns[..n][..n - 1];
        assert a == cs[..n][n - 1];
      }
    }
  }

  /**
    The stop rule sqrt(shift) < tol, stated without a square root: for a
    non-negative shift it holds exactly when tol is positive and shift < tol^2.
  */
  predicate Converged(shift: real, tol: real)
  {
    tol > 0.0 && shift < tol * tol
  }

  /** Converged agrees with comparing the square root of the shift against tol. */
  lemma ConvergedIsRootBelow(shift: real, root: real, tol: real)
    requires root >= 0.0 && root * root == shift
    ensures Converged(shift, tol) <==> root < tol
  {
    if root < tol {
      SquareMonotone(root, tol);
    } else if tol > 0.0 {
      SquareMonotoneWeak(tol, root);
    }
  }

  lemma SquareMonotone(a: real, b: real)
    requires 0.0 <= a < b
    ensures a * a < b * b
  {
    ProductPositive(b, b - a, b * (b - a));
    assert b * b - a * b == b * (b - a);
    if a > 0.0 {
      ProductPositive(a, b - a, a * (b - a));
      assert a * b - a * a == a * (b - a);
    }
  }

  lemma SquareMonotoneWeak(a: real, b: real)
    requires 0.0 <= a <= b
    ensures a * a <= b * b
  {
    if a < b {
      SquareMonotone(a, b);
    }
  }

  /** Why k-means stopped short of an answer. */
  datatype KMeansError =
    | DrawsExhausted        // the draw stream ran out before enough distinct points were drawn
    | NoPoints              // points.at(0) on an empty point set
    | EmptyCluster(cluster: nat)  // a centroid with no points: the source divides zero by zero

  /** The moved centroids and the squared norm of the move. */
  datatype Update = Update(centroids: seq<seq<real>>, shift: real)

  /**
    computePoints: every centroid becomes the mean of the points labelled
    with it; the shift measures how far the centroids moved.
  */
  function ComputePoints(cs: seq<seq<real>>, points: seq<seq<real>>, ids: seq<nat>): (r: Result<Update, KMeansError>)
    requires |ids| == |points| && Labels(ids, |cs|) && Uniform(points)
    requires |points| > 0 ==> HasWidth(cs, |points[0]|)
    ensures r == Failure(NoPoints) <==> |points| == 0
    ensures r.Failure? && |points| > 0 ==>
      && r.error.EmptyCluster?
      && r.error.cluster < |cs|
      && |Clusters(points, ids, |cs|).clusters[r.error.cluster]| == 0
      && forall c | 0 <= c < r.error.cluster :: |Clusters(points, ids, |cs|).clusters[c]| > 0
    ensures r.Success? ==>
      && |points| > 0
      && |r.value.centroids| == |cs|
      && HasWidth(r.value.centroids, |points[0]|)
      && Grouped(Clusters(points, ids, |cs|), |points[0]|)
      && forall c | 0 <= c < |cs| ::
           && |Clusters(points, ids, |cs|).clusters[c]| > 0
           && r.value.centroids[c] == Mean(Clusters(points, ids, |cs|).clusters[c], |points[0]|)
    ensures r.Success? ==> r.value.shift >= 0.0 && (r.value.shift == 0.0 <==> r.value.centroids == cs)
  {
    if |points| == 0 then Failure(NoPoints)
    else
      var d := |points[0]|;
      UniformWidth(points);
      var acc := Accumulate(points, ids, |cs|, d, |points|);
      AccumulateSumsGroups(points, ids, |cs|, d, |points|);
      match FirstEmpty(acc.1, 0)
      case Some(c) => Failure(EmptyCluster(c))
      case None =>
        var ns := Divide(acc.0, acc.1, d);
        DivideIsMean(points, ids, |cs|, d);
        assert Paired(cs, ns);
        WholeShift(cs, ns);
        Success(Update(ns, Shift(cs, ns, |cs|)))
  }

  /** The shift over all centroids is never negative and vanishes exactly when none moved. */
  lemma WholeShift(cs: seq<seq<real>>, ns: seq<seq<real>>)
    requires Paired(cs, ns)
    ensures Shift(cs, ns, |cs|) >= 0.0
    ensures Shift(cs, ns, |cs|) == 0.0 <==> cs == ns
  {
    ShiftZeroIff(cs, ns, |cs|);
    assert cs[..|cs|] == cs && ns[..|cs|] == ns;
  }

  /** Each running sum divided componentwise by its count. */
  function Divide(sums: seq<seq<real>>, counts: seq<nat>, d: nat): (ns: seq<seq<real>>)
    requires |sums| == |counts| && HasWidth(sums, d)
    requires forall c | 0 <= c < |counts| :: counts[c] > 0
    ensures |ns| == |sums| && HasWidth(ns, d)
  {
    seq(|sums|, c requires 0 <= c < |sums| =>
      seq(d, i requires 0 <= i < d => sums[c][i] / (counts[c] as real)))
  }

  /** With no empty cluster, dividing the running sums by the counts gives each cluster's mean. */
  lemma DivideIsMean(points: seq<seq<real>>, ids: seq<nat>, k: nat, d: nat)
    requires |ids| == |points| && Labels(ids, k) && HasWidth(points, d)
    requires forall c | 0 <= c < k :: Accumulate(points, ids, k, d, |points|).1[c] > 0
    ensures Grouped(Clusters(points, ids, k), d)
    ensures forall c | 0 <= c < k ::
      && |Clusters(points, ids, k).clusters[c]| > 0
      && Divide(Accumulate(points, ids, k, d, |points|).0, Accumulate(points, ids, k, d, |points|).1, d)[c]
         == Mean(Clusters(points, ids, k).clusters[c], d)
  {
    var acc := Accumulate(points, ids, k, d, |points|);
    AccumulateSumsGroups(points, ids, k, d, |points|);
  }

  // ---------------------------------------------------------------------
  // The epoch loop and kMeans
  // ---------------------------------------------------------------------

  /**
    The loop state when kMeans stops: the centroids, every point's label,
    the centroids those labels were assigned against, and the shift
    measured in every epoch that ran.
  */
  datatype Run = Run(centroids: seq<seq<real>>, ids: seq<nat>, assignedTo: seq<seq<real>>, shifts: seq<real>)

  /**
    The outcome of at least one epoch: every point carries the label of its
    first nearest centroid among those it was assigned against, and every
    centroid is the mean of the points carrying its label.
  */
  predicate Settled(points: seq<seq<real>>, run: Run, d: nat)
  {
    && HasWidth(points, d)
    && HasWidth(run.assignedTo, d)
    && |run.centroids| == |run.assignedTo|
    && |run.ids| == |points|
    && Labels(run.ids, |run.centroids|)
    && (forall j | 0 <= j < |points| :: FirstNearest(run.assignedTo, points[j], |run.assignedTo|, run.ids[j]))
    && Grouped(Clusters(points, run.ids, |run.centroids|), d)
    && forall c | 0 <= c < |run.centroids| ::
         && |Clusters(points, run.ids, |run.centroids|).clusters[c]| > 0
         && run.centroids[c] == Mean(Clusters(points, run.ids, |run.centroids|).clusters[c], d)
  }

  /** The stop rule over a trace of shifts: only the last may be converged, and stopping early means it is. */
  predicate StopRule(shifts: seq<real>, epochs: int, tol: real)
  {
    && |shifts| <= epochs
    && (forall e | 0 <= e < |shifts| - 1 :: !Converged(shifts[e], tol))
    && (|shifts| < epochs ==> |shifts| > 0 && Converged(shifts[|shifts| - 1], tol))
  }

  /** The epoch loop of kMeans from `epoch` on; every epoch starts from the FLT_MAX sentinel. */
  function Epochs(points: seq<seq<real>>, centroids: seq<seq<real>>, ids: seq<nat>, assignedTo: seq<seq<real>>,
                  d: nat, epoch: nat, maxEpochs: nat, tol: real): (r: Result<Run, KMeansError>)
    requires Uniform(points) && HasWidth(points, d) && HasWidth(centroids, d)
    requires |ids| == |points| && Labels(ids, |centroids|)
    requires epoch <= maxEpochs
    ensures epoch == maxEpochs ==> r == Success(Run(centroids, ids, assignedTo, []))
    ensures r.Failure? ==> epoch < maxEpochs && !r.error.DrawsExhausted? && (r.error == NoPoints <==> |points| == 0)
    ensures r.Failure? && |points| > 0 ==> r.error.EmptyCluster? && r.error.cluster < |centroids|
    ensures r.Success? ==>
      && |r.value.centroids| == |centroids|
      && HasWidth(r.value.centroids, d)
      && |r.value.ids| == |points|
      && Labels(r.value.ids, |centroids|)
      && StopRule(r.value.shifts, maxEpochs - epoch, tol)
      && (epoch < maxEpochs ==> |r.value.shifts| >= 1 && Settled(points, r.value, d))
    decreases maxEpochs - epoch
  {
    if epoch == maxEpochs then Success(Run(centroids, ids, assignedTo, []))
    else
      var a := AssignPoints(centroids, points, Infinities(|points|), ids, d);
      AssignKeepsLabels(centroids, points, ids, d, a);
      match ComputePoints(centroids, points, a.1)
      case Failure(e) => Failure(e)
      case Success(u) =>
        EpochSettles(points, centroids, ids, d, a, u, [u.shift]);
        if Converged(u.shift, tol) then Success(Run(u.centroids, a.1, centroids, [u.shift]))
        else
          match Epochs(points, u.centroids, a.1, centroids, d, epoch + 1, maxEpochs, tol)
          case Failure(e) => Failure(e)
          case Success(run) =>
            EpochSettles(points, centroids, ids, d, a, u, run.shifts);
            StopRuleStep(u.shift, run.shifts, maxEpochs - epoch, tol);
            Success(run.(shifts := [u.shift] + run.shifts))
  }

  /** One epoch that completes leaves the points settled around the centroids it started from. */
  lemma EpochSettles(points: seq<seq<real>>, centroids: seq<seq<real>>, ids: seq<nat>, d: nat,
                     a: (seq<Bound>, seq<nat>), u: Update, shifts: seq<real>)
    requires Uniform(points) && HasWidth(points, d) && HasWidth(centroids, d)
    requires |ids| == |points| && Labels(ids, |centroids|)
    requires a == AssignPoints(centroids, points, Infinities(|points|), ids, d)
    requires Labels(a.1, |centroids|)
    requires ComputePoints(centroids, points, a.1) == Success(u)
    ensures |u.centroids| == |centroids| && HasWidth(u.centroids, d)
    ensures Settled(points, Run(u.centroids, a.1, centroids, shifts), d)
  {
    assert d == |points[0]|;
  }

  /** Prepending an unconverged shift to the trace of the remaining epochs keeps the stop rule. */
  lemma StopRuleStep(s: real, rest: seq<real>, epochs: int, tol: real)
    requires !Converged(s, tol)
    requires StopRule(rest, epochs - 1, tol)
    requires epochs - 1 > 0 ==> |rest| >= 1
    ensures StopRule([s] + rest, epochs, tol)
  {
    var t := [s] + rest;
    assert forall e | 1 <= e < |t| :: t[e] == rest[e - 1];
  }

  lemma AssignKeepsLabels(cs: seq<seq<real>>, points: seq<seq<real>>, ids: seq<nat>, d: nat, a: (seq<Bound>, seq<nat>))
    requires HasWidth(cs, d) && HasWidth(points, d)
    requires |ids| == |points| && Labels(ids, |cs|)
    requires a == AssignPoints(cs, points, Infinities(|points|), ids, d)
    ensures |a.1| == |points| && Labels(a.1, |cs|)
    ensures |cs| >= 1 ==> forall j | 0 <= j < |points| :: FirstNearest(cs, points[j], |cs|, a.1[j])
  {
  }

  /** What kMeans returns: per cluster its points and their ids, and the centroids. */
  datatype ClusterData = ClusterData(clusters: seq<seq<seq<real>>>, idClusters: seq<seq<Page.Id>>, centroids: seq<seq<real>>)

  /**
    A finished k-means run: the returned data, plus the loop state it was
    read from (the shift of every epoch, every point's label and the
    centroids the labels were assigned against).
  */
  datatype KMeansRun = KMeansRun(data: ClusterData, shifts: seq<real>, labels: seq<nat>, assignedTo: seq<seq<real>>)

  /**
    The iterations of kMeans after seeding: every label starts at 0, the
    epoch loop runs, and the final labels are pushed into per-cluster lists.
  */
  function Iterate(points: seq<seq<real>>, seeds: seq<seq<real>>, maxEpochs: nat, tol: real): (r: Result<KMeansRun, KMeansError>)
    requires Uniform(points)
    requires |points| == 0 ==> |seeds| == 0
    requires |points| > 0 ==> |seeds| >= 1 && HasWidth(seeds, |points[0]|)
    ensures r != Failure(DrawsExhausted)
    ensures r == Failure(NoPoints) <==> |points| == 0 && maxEpochs >= 1
    ensures r.Failure? && |points| > 0 ==> maxEpochs >= 1 && r.error.EmptyCluster? && r.error.cluster < |seeds|
    ensures r.Success? ==>
      && |r.value.data.clusters| == |seeds|
      && |r.value.data.idClusters| == |seeds|
      && |r.value.data.centroids| == |seeds|
      && |r.value.labels| == |points|
      && Labels(r.value.labels, |seeds|)
      && r.value.data.clusters == Clusters(points, r.value.labels, |seeds|).clusters
      && r.value.data.idClusters == Clusters(points, r.value.labels, |seeds|).idClusters
      && StopRule(r.value.shifts, maxEpochs, tol)
    ensures r.Success? && maxEpochs == 0 ==>
      && r.value.data.centroids == seeds
      && forall j | 0 <= j < |points| :: r.value.labels[j] == 0
    ensures r.Success? && maxEpochs >= 1 ==>
      && |points| > 0
      && Settled(points, Run(r.value.data.centroids, r.value.labels, r.value.assignedTo, r.value.shifts), |points[0]|)
  {
    var d := if |points| == 0 then 0 else |points[0]|;
    var ids: seq<nat> := seq(|points|, _ => 0);
    match Epochs(points, seeds, ids, seeds, d, 0, maxEpochs, tol)
    case Failure(e) => Failure(e)
    case Success(run) =>
      var g := Clusters(points, run.ids, |seeds|);
      Success(KMeansRun(ClusterData(g.clusters, g.idClusters, run.centroids), run.shifts, run.ids, run.assignedTo))
  }

  /**
    kMeans: k-means++ seeding from the draw stream, then up to maxEpochs
    epochs of assignment and update, then the final memberships. A cluster
    count of zero is only meaningful without points (the source indexes an
    empty cluster list otherwise).
  */
  function KMeans(points: seq<seq<real>>, clusterCount: nat, maxEpochs: nat, tol: real, draws: seq<nat>): (r: Result<KMeansRun, KMeansError>)
    requires Uniform(points)
    requires clusterCount >= 1 || |points| == 0
    requires forall i | 0 <= i < |draws| :: draws[i] < |points|
    ensures r == Failure(DrawsExhausted) <==> |Dedup(draws)| < clusterCount
    ensures r == Failure(NoPoints) <==> |points| == 0 && clusterCount == 0 && maxEpochs >= 1
    ensures r.Failure? && |points| > 0 && |Dedup(draws)| >= clusterCount ==>
      maxEpochs >= 1 && r.error.EmptyCluster? && r.error.cluster < clusterCount
    ensures r.Success? ==>
      && |r.value.data.clusters| == clusterCount
      && |r.value.data.idClusters| == clusterCount
      && |r.value.data.centroids| == clusterCount
      && |r.value.labels| == |points|
      && Labels(r.value.labels, clusterCount)
      && r.value.data.clusters == Clusters(points, r.value.labels, clusterCount).clusters
      && r.value.data.idClusters == Clusters(points, r.value.labels, clusterCount).idClusters
      && StopRule(r.value.shifts, maxEpochs, tol)
    ensures r.Success? && maxEpochs == 0 ==>
      && r.value.data.centroids == KMeansSample(points, clusterCount, PlusPlus, draws).value.centroids
      && forall j | 0 <= j < |points| :: r.value.labels[j] == 0
    ensures r.Success? && maxEpochs >= 1 ==>
      && |points| > 0
      && Settled(points, Run(r.value.data.centroids, r.value.labels, r.value.assignedTo, r.value.shifts), |points[0]|)
  {
    match KMeansSample(points, clusterCount, PlusPlus, draws)
    case None => Failure(DrawsExhausted)
    case Some(sample) =>
      SeedsHaveWidth(points, clusterCount, draws, sample);
      Iterate(points, sample.centroids, maxEpochs, tol)
  }

  /**
    Two equal points seeded as two clusters: both take centroid 0, the
    first nearest, so cluster 1 is left empty and the first epoch fails.
  */
  lemma DuplicatePointsLeaveClusterEmpty(p: seq<real>, maxEpochs: nat, tol: real)
    requires maxEpochs >= 1
    ensures KMeans([p, p], 2, maxEpochs, tol, [0, 1]) == Failure(EmptyCluster(1))
  {
    TwinSeeds(p);
    TwinEpochFails(p, maxEpochs, tol);
  }

  /** Draws 0 and 1 seed the two clusters with the two (equal) points. */
  lemma TwinSeeds(p: seq<real>)
    ensures KMeansSample([p, p], 2, PlusPlus, [0, 1]).Some?
    ensures KMeansSample([p, p], 2, PlusPlus, [0, 1]).value.centroids == [p, p]
  {
    var draws: seq<nat> := [0, 1];
    assert Dedup(draws) == [0, 1];
    var sample := KMeansSample([p, p], 2, PlusPlus, draws).value;
    assert sample.chosen[0] < 2 && sample.chosen[1] < 2;
  }

  /** The first epoch from two equal seeds labels both points 0 and fails on cluster 1. */
  lemma TwinEpochFails(p: seq<real>, maxEpochs: nat, tol: real)
    requires maxEpochs >= 1
    ensures Iterate([p, p], [p, p], maxEpochs, tol) == Failure(EmptyCluster(1))
  {
    var ids: seq<nat> := seq(2, _ => 0);
    var cs := [p, p];
    var a := AssignPoints(cs, cs, Infinities(2), ids, |p|);
    assert FirstNearest(cs, cs[0], 2, a.1[0]) && FirstNearest(cs, cs[1], 2, a.1[1]);
    TwinLabels(cs, |p|, a.1);
    TwinComputeFails(p);
  }

  /** Against two equal centroids both points are labelled 0. */
  lemma TwinLabels(cs: seq<seq<real>>, d: nat, labels: seq<nat>)
    requires |cs| == 2 && cs[0] == cs[1] && HasWidth(cs, d) && |labels| == 2
    requires FirstNearest(cs, cs[0], 2, labels[0]) && FirstNearest(cs, cs[1], 2, labels[1])
    ensures labels == [0, 0]
  {
    TwinFirst(cs, cs[0], labels[0]);
    TwinFirst(cs, cs[1], labels[1]);
  }

  /** Of two equal centroids the first is the first nearest. */
  lemma TwinFirst(cs: seq<seq<real>>, p: seq<real>, k: nat)
    requires |cs| == 2 && cs[0] == cs[1] && HasWidth(cs, |p|)
    requires FirstNearest(cs, p, 2, k)
    ensures k == 0
  {
    assert cs[k] == cs[0];
  }

  /** With both points labelled 0, cluster 1 is the lowest empty cluster. */
  lemma TwinComputeFails(p: seq<real>)
    ensures ComputePoints([p, p], [p, p], [0, 0]) == Failure(EmptyCluster(1))
  {
    var points := [p, p];
    var ids: seq<nat> := [0, 0];
    var g0 := Memberships(points, ids, 2, 0);
    assert |g0.clusters[0]| == 0 && |g0.clusters[1]| == 0;
    var g1 := Memberships(points, ids, 2, 1);
    assert g1.clusters == g0.clusters[0 := g0.clusters[0] + [points[0]]];
    assert |g1.clusters[0]| == 1 && |g1.clusters[1]| == 0;
    var g2 := Memberships(points, ids, 2, 2);
    assert g2.clusters == g1.clusters[0 := g1.clusters[0] + [points[1]]];
    assert |g2.clusters[0]| == 2 && |g2.clusters[1]| == 0;
  }

  /** The seeds are copies of points, so they have the points' width. */
  lemma SeedsHaveWidth(points: seq<seq<real>>, clusterCount: nat, draws: seq<nat>, sample: Sample)
    requires Uniform(points)
    requires forall i | 0 <= i < |draws| :: draws[i] < |points|
    requires KMeansSample(points, clusterCount, PlusPlus, draws) == Some(sample)
    ensures |sample.centroids| == clusterCount
    ensures |points| == 0 ==> clusterCount == 0
    ensures |points| > 0 ==> HasWidth(sample.centroids, |points[0]|)
  {
    DedupSpec(draws);
    if |points| > 0 {
      forall c | 0 <= c < |sample.centroids|
        ensures |sample.centroids[c]| == |points[0]|
      {
        assert sample.centroids[c] == points[sample.chosen[c]];
      }
    }
  }

  /**
    After at least one epoch, every vector listed in cluster c is a point
    whose first nearest centroid, among those it was assigned against, is c
    (while indices fit in u_int32).
  */
  lemma SettledClustersNearest(points: seq<seq<real>>, run: Run, d: nat)
    requires Settled(points, run, d)
    requires |points| <= 0x1_0000_0000
    ensures forall c, t | 0 <= c < |run.centroids| && 0 <= t < |Clusters(points, run.ids, |run.centroids|).clusters[c]| ::
      && |Clusters(points, run.ids, |run.centroids|).clusters[c][t]| == d
      && FirstNearest(run.assignedTo, Clusters(points, run.ids, |run.centroids|).clusters[c][t], |run.assignedTo|, c)
  {
    var g := Clusters(points, run.ids, |run.centroids|);
    MembershipsPartition(points, run.ids, |run.centroids|, |points|);
    forall c, t | 0 <= c < |run.centroids| && 0 <= t < |g.clusters[c]|
      ensures |g.clusters[c][t]| == d
      ensures FirstNearest(run.assignedTo, g.clusters[c][t], |run.assignedTo|, c)
    {
      var j := g.idClusters[c][t];
      assert g.clusters[c][t] == points[j] && run.ids[j] == c;
    }
  }

  /** Every cluster lists as many ids as vectors. */
  lemma {:induction false} MembershipsPaired(points: seq<seq<real>>, ids: seq<nat>, k: nat, n: nat)
    requires n <= |points| && |ids| == |points| && Labels(ids, k)
    ensures forall c | 0 <= c < k ::
      |Memberships(points, ids, k, n).clusters[c]| == |Memberships(points, ids, k, n).idClusters[c]|
  {
    if n > 0 {
      MembershipsPaired(points, ids, k, n - 1);
    }
  }

  /**
    The shape of a successful kMeans result: one centroid of the points'
    width per cluster, and per cluster as many ids as vectors, each vector
    of that width. Without points the cluster count is zero.
  */
  lemma KMeansShape(points: seq<seq<real>>, clusterCount: nat, maxEpochs: nat, tol: real, draws: seq<nat>, run: KMeansRun)
    requires Uniform(points)
    requires clusterCount >= 1 || |points| == 0
    requires forall i | 0 <= i < |draws| :: draws[i] < |points|
    requires KMeans(points, clusterCount, maxEpochs, tol, draws) == Success(run)
    ensures |points| == 0 ==> clusterCount == 0
    ensures |run.data.clusters| == |run.data.idClusters| == |run.data.centroids| == clusterCount
    ensures |points| > 0 ==> HasWidth(run.data.centroids, |points[0]|) && Grouped(ClusterGroups(run.data), |points[0]|)
    ensures forall c | 0 <= c < clusterCount :: |run.data.clusters[c]| == |run.data.idClusters[c]|
  {
    var sample := KMeansSample(points, clusterCount, PlusPlus, draws).value;
    SeedsHaveWidth(points, clusterCount, draws, sample);
    MembershipsPaired(points, run.labels, clusterCount, |points|);
    if |points| > 0 {
      var d := |points[0]|;
      UniformWidth(points);
      MembershipsWidth(points, run.labels, clusterCount, |points|, d);
      assert ClusterGroups(run.data) == Clusters(points, run.labels, clusterCount);
      if maxEpochs >= 1 {
        var r := Run(run.data.centroids, run.labels, run.assignedTo, run.shifts);
        assert Settled(points, r, d);
        forall c | 0 <= c < clusterCount
          ensures |run.data.centroids[c]| == d
        {
          assert run.data.centroids[c] == Mean(Clusters(points, r.ids, |r.centroids|).clusters[c], d);
        }
      }
    }
  }

  /** The groups part of a kMeans result. */
  function ClusterGroups(data: ClusterData): Groups
  {
    Groups(data.clusters, data.idClusters)
  }
}
