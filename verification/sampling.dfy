/**
  Initial centroid selection for k-means (kMeansSample). The random source
  is a parameter: `draws` is the sequence of point indices the generator
  produces, consumed one by one. A draw of an index already chosen is
  rejected and the next draw is taken, so the chosen indices are the first
  clusterCount distinct indices of the stream. Under k-means++ the weight
  of every point grows by its squared distance to each chosen centroid.
*/
module Sampling {
  import opened Wrappers
  import opened Distance

  datatype Mode = Normal | PlusPlus

  /** The starting weight of every point under k-means++. */
  const Epsilon: real := 0.000001

  /**
    The outcome of sampling: the centroids, the indices they were copied
    from, the final k-means++ weights and how many draws were consumed.
  */
  datatype Sample = Sample(centroids: seq<seq<real>>, chosen: seq<nat>, weights: seq<real>, used: nat)

  predicate Distinct(s: seq<nat>)
  {
    forall i, j | 0 <= i < j < |s| :: s[i] != s[j]
  }

  /** The distinct values of s in order of first occurrence. */
  function Dedup(s: seq<nat>): seq<nat>
  {
    if |s| == 0 then []
    else
      var d := Dedup(s[..|s| - 1]);
      if s[|s| - 1] in d then d else d + [s[|s| - 1]]
  }

  /** Dedup keeps exactly the values of s, each once. */
  lemma {:induction false} DedupSpec(s: seq<nat>)
    ensures Distinct(Dedup(s))
    ensures forall x :: x in Dedup(s) <==> x in s
  {
    if |s| > 0 {
      DedupSpec(s[..|s| - 1]);
      assert s == s[..|s| - 1] + [s[|s| - 1]];
    }
  }

  /** Taking more of the stream never yields fewer distinct indices. */
  lemma {:induction false} DedupPrefix(s: seq<nat>, i: nat)
    requires i <= |s|
    ensures |Dedup(s[..i])| <= |Dedup(s)|
    decreases |s| - i
  {
    if i < |s| {
      DedupPrefix(s, i + 1);
      assert s[..i + 1][..i] == s[..i];
      if i + 1 == |s| {
        assert s[..i + 1] == s;
      }
      assert |Dedup(s[..i])| <= |Dedup(s[..i + 1])|;
    } else {
      assert s[..i] == s;
    }
  }

  /** Pigeonhole: distinct indices below n number at most n. */
  lemma {:induction false} DistinctBounded(d: seq<nat>, n: nat)
    requires Distinct(d)
    requires forall i | 0 <= i < |d| :: d[i] < n
    ensures |d| <= n
    decreases n
  {
    if |d| > 0 {
      assert d[0] < n;
      if n - 1 in d {
        var k :| 0 <= k < |d| && d[k] == n - 1;
        var d' := d[..k] + d[k + 1..];
        assert forall i | 0 <= i < |d'| :: d'[i] == if i < k then d[i] else d[i + 1];
        DistinctBounded(d', n - 1);
      } else {
        DistinctBounded(d, n - 1);
      }
    }
  }

  /** Sum of the squared distances from p to each of the centroids. */
  function TotalSqDist(p: seq<real>, cs: seq<seq<real>>): (r: real)
    requires Covers(p, cs)
    ensures r >= 0.0
  {
    if |cs| == 0 then 0.0
    else TotalSqDist(p, cs[..|cs| - 1]) + SquaredDistance(p, cs[|cs| - 1])
  }

  /** The k-means++ weights never decrease as centroids are added. */
  lemma {:induction false} WeightsNeverDecrease(p: seq<real>, cs: seq<seq<real>>, a: nat)
    requires Covers(p, cs)
    requires a <= |cs|
    ensures TotalSqDist(p, cs[..a]) <= TotalSqDist(p, cs)
    decreases |cs| - a
  {
    if a < |cs| {
      assert cs[..a + 1][..a] == cs[..a];
      WeightsNeverDecrease(p, cs, a + 1);
    } else {
      assert cs[..a] == cs;
    }
  }

  /** The sampled state after `pos` draws: the distinct draws so far and the points they name. */
  predicate Drawn(points: seq<seq<real>>, draws: seq<nat>, pos: nat, chosen: seq<nat>, centroids: seq<seq<real>>)
    requires pos <= |draws|
  {
    && chosen == Dedup(draws[..pos])
    && |centroids| == |chosen|
    && forall c | 0 <= c < |chosen| :: chosen[c] < |points| && centroids[c] == points[chosen[c]]
  }

  /** Every centroid has at least as many components as p. */
  predicate Covers(p: seq<real>, cs: seq<seq<real>>)
  {
    forall c | 0 <= c < |cs| :: |p| <= |cs[c]|
  }

  /** Every point's weight is epsilon plus its squared distances to the chosen centroids. */
  predicate WeightsOf(points: seq<seq<real>>, centroids: seq<seq<real>>, weights: seq<real>)
  {
    && |weights| == |points|
    && forall j | 0 <= j < |points| ::
         Covers(points[j], centroids) && weights[j] == Epsilon + TotalSqDist(points[j], centroids)
  }

  /** The draw loop of kMeansSample from draw `pos` on. */
  function SampleFrom(points: seq<seq<real>>, clusterCount: nat, mode: Mode, draws: seq<nat>,
                      pos: nat, chosen: seq<nat>, centroids: seq<seq<real>>, weights: seq<real>): (r: Option<Sample>)
    requires mode == PlusPlus ==> Uniform(points)
    requires forall i | 0 <= i < |draws| :: draws[i] < |points|
    requires pos <= |draws| && |chosen| <= clusterCount
    requires Drawn(points, draws, pos, chosen, centroids)
    requires mode == PlusPlus ==> WeightsOf(points, centroids, weights)
    ensures r.Some? ==>
      && |r.value.chosen| == clusterCount
      && pos <= r.value.used <= |draws|
      && Drawn(points, draws, r.value.used, r.value.chosen, r.value.centroids)
      && Short(draws, pos, r.value.used, clusterCount)
      && (mode == PlusPlus ==> WeightsOf(points, r.value.centroids, r.value.weights))
    ensures r.None? ==> |Dedup(draws)| < clusterCount
    decreases |draws| - pos
  {
    if |chosen| == clusterCount then Some(Sample(centroids, chosen, weights, pos))
    else if pos == |draws| then
      assert draws[..pos] == draws;
      None
    else
      var index := draws[pos];
      DrawStep(points, draws, pos, chosen, centroids);
      if index in chosen then
        var r := SampleFrom(points, clusterCount, mode, draws, pos + 1, chosen, centroids, weights);
        r
      else
        var c := points[index];
        var w := if mode == PlusPlus then AddDistances(points, centroids, weights, c) else weights;
        var r := SampleFrom(points, clusterCount, mode, draws, pos + 1, chosen + [index], centroids + [c], w);
        r
  }

  /** Every prefix of the draw stream from pos up to (not including) used has fewer than k distinct indices. */
  predicate Short(draws: seq<nat>, pos: nat, used: nat, k: nat)
    requires used <= |draws|
  {
    forall i | pos <= i < used :: |Dedup(draws[..i])| < k
  }

  /** One draw: a repeated index leaves the sample alone, a new one is appended with its point. */
  lemma DrawStep(points: seq<seq<real>>, draws: seq<nat>, pos: nat, chosen: seq<nat>, centroids: seq<seq<real>>)
    requires pos < |draws| && draws[pos] < |points|
    requires Drawn(points, draws, pos, chosen, centroids)
    ensures draws[pos] in chosen ==> Drawn(points, draws, pos + 1, chosen, centroids)
    ensures draws[pos] !in chosen ==>
      Drawn(points, draws, pos + 1, chosen + [draws[pos]], centroids + [points[draws[pos]]])
  {
    assert draws[..pos + 1][..pos] == draws[..pos];
  }

  /** The k-means++ update: every point's weight grows by its squared distance to the new centroid. */
  function AddDistances(points: seq<seq<real>>, centroids: seq<seq<real>>, weights: seq<real>, c: seq<real>): (w: seq<real>)
    requires Uniform(points) && c in points
    requires WeightsOf(points, centroids, weights)
    ensures WeightsOf(points, centroids + [c], w)
  {
    var w := seq(|points|, j requires 0 <= j < |points| => weights[j] + SquaredDistance(points[j], c));
    AddDistancesWeights(points, centroids, weights, c, w);
    w
  }

  lemma AddDistancesWeights(points: seq<seq<real>>, centroids: seq<seq<real>>, weights: seq<real>, c: seq<real>, w: seq<real>)
    requires Uniform(points) && c in points
    requires WeightsOf(points, centroids, weights)
    requires |w| == |points|
    requires forall j | 0 <= j < |points| :: w[j] == weights[j] + SquaredDistance(points[j], c)
    ensures WeightsOf(points, centroids + [c], w)
  {
    forall j | 0 <= j < |points|
      ensures Covers(points[j], centroids + [c])
      ensures w[j] == Epsilon + TotalSqDist(points[j], centroids + [c])
    {
      assert Covers(points[j], centroids);
      assert |points[j]| <= |c|;
      assert (centroids + [c])[..|centroids|] == centroids;
    }
  }

  /**
    kMeansSample: no centroids for a cluster count of zero; otherwise the
    first clusterCount distinct indices of the draw stream, or None when
    the stream runs out first (the source would keep drawing).
  */
  function KMeansSample(points: seq<seq<real>>, clusterCount: nat, mode: Mode, draws: seq<nat>): (r: Option<Sample>)
    requires mode == PlusPlus ==> Uniform(points)
    requires forall i | 0 <= i < |draws| :: draws[i] < |points|
    ensures clusterCount == 0 ==> r == Some(Sample([], [], [], 0))
    ensures r.Some? <==> |Dedup(draws)| >= clusterCount
    ensures r.Some? ==>
      && |r.value.chosen| == |r.value.centroids| == clusterCount
      && r.value.used <= |draws|
      && r.value.chosen == Dedup(draws[..r.value.used])
      && Short(draws, 0, r.value.used, clusterCount)
      && (forall c | 0 <= c < clusterCount :: r.value.chosen[c] < |points| && r.value.centroids[c] == points[r.value.chosen[c]])
      && (clusterCount > 0 && mode == PlusPlus ==> WeightsOf(points, r.value.centroids, r.value.weights))
  {
    if clusterCount == 0 then Some(Sample([], [], [], 0))
    else
      var w := if mode == PlusPlus then seq(|points|, _ => Epsilon) else [];
      assert draws[..0] == [];
      var r := SampleFrom(points, clusterCount, mode, draws, 0, [], [], w);
      if r.None? then r
      else
        DedupPrefix(draws, r.value.used);
        r
  }

  /** Asking for more centroids than there are points can never succeed. */
  lemma TooFewPoints(points: seq<seq<real>>, clusterCount: nat, mode: Mode, draws: seq<nat>)
    requires mode == PlusPlus ==> Uniform(points)
    requires forall i | 0 <= i < |draws| :: draws[i] < |points|
    requires clusterCount > |points|
    ensures KMeansSample(points, clusterCount, mode, draws).None?
  {
    var d := Dedup(draws);
    DedupSpec(draws);
    forall i | 0 <= i < |d|
      ensures d[i] < |points|
    {
      assert d[i] in draws;
    }
    DistinctBounded(d, |points|);
  }

  /** Every k-means++ weight is at least epsilon, so every point keeps a positive chance of being drawn. */
  lemma WeightsPositive(points: seq<seq<real>>, centroids: seq<seq<real>>, weights: seq<real>, j: nat)
    requires j < |points|
    requires WeightsOf(points, centroids, weights)
    ensures weights[j] >= Epsilon > 0.0
  {
  }
}
