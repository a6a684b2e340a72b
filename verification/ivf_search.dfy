/**
  Search in the IVF-Flat index: rank every centroid of the catalog by its
  squared distance to the query, keep the closest clusterCountToSelect,
  gather the members of their data page chains, rank those by squared
  distance to the query and return the neighbourCount closest.

  Both rankings use an unstable sort, so the model promises only what
  every sort would give: the ranking is ascending and a permutation.
  Clusters are ranked by their position in the catalog, which is what the
  source's pointers into the centroid pages identify.
*/
module IvfSearch {
  import opened Wrappers
  import opened Page
  import opened DataChain
  import opened Distance
  import opened Sorting
  import opened Ivf

  // ---------------------------------------------------------------------
  // The coarse pass over the catalog pages
  // ---------------------------------------------------------------------

  /**
    The centroid tuples the coarse loop reads from page `page` on: from each
    page the first min(tuples on the page, left). With `decrement` the count
    read is taken off `left` after each page (as intended); without it
    `left` stays at its initial value (as written).
  */
  function CoarseFrom(idx: Index, page: Option<nat>, left: nat, decrement: bool): (r: seq<CentroidTuple>)
    requires CatalogShape(idx)
    requires page.Some? ==> page.value < |idx.centroidPages|
    ensures decrement ==> |r| <= left
    ensures forall i | 0 <= i < |r| :: r[i] in Flat(idx.centroidPages)
    decreases if page.Some? then |idx.centroidPages| - page.value else 0
  {
    match page
    case None => []
    case Some(p) =>
      var tuples := idx.centroidPages[p].tuples;
      var count := Min(|tuples|, left);
      PageInFlat(idx.centroidPages, p);
      tuples[..count] + CoarseFrom(idx, idx.centroidPages[p].nextPage, if decrement then left - count else left, decrement)
  }

  /** The coarse loop as written: clustersLeft is never decreased. */
  function CoarseAsWritten(idx: Index): seq<CentroidTuple>
    requires CatalogShape(idx)
  {
    CoarseFrom(idx, idx.firstCentroidPage, idx.clusterCount, false)
  }

  /** The coarse loop as intended: clustersLeft falls by the tuples read from each page. */
  function Coarse(idx: Index): seq<CentroidTuple>
    requires CatalogShape(idx)
  {
    CoarseFrom(idx, idx.firstCentroidPage, idx.clusterCount, true)
  }

  /** The tuples of pages p.. are those of page p followed by those of pages p+1.. */
  lemma FlatFrom(pages: seq<CentroidPage>, p: nat)
    requires p < |pages|
    ensures Flat(pages[p..]) == pages[p].tuples + Flat(pages[p + 1..])
  {
    assert pages[p..] == [pages[p]] + pages[p + 1..];
    FlatConcat([pages[p]], pages[p + 1..]);
    assert Flat([pages[p]]) == pages[p].tuples by {
      assert [pages[p]][..0] == [];
    }
  }

  /** Every tuple of page p is among the tuples of all the pages. */
  lemma PageInFlat(pages: seq<CentroidPage>, p: nat)
    requires p < |pages|
    ensures forall s | 0 <= s < |pages[p].tuples| :: pages[p].tuples[s] in Flat(pages)
  {
    assert pages == pages[..p] + pages[p..];
    FlatConcat(pages[..p], pages[p..]);
    FlatFrom(pages, p);
  }

  /** With `left` never decreased and at least a page's worth, every page is read whole. */
  lemma {:induction false} CoarseWholePages(idx: Index, p: nat, left: nat)
    requires CatalogShape(idx) && p < |idx.centroidPages|
    requires left >= CentroidsPerPage
    ensures CoarseFrom(idx, Some(p), left, false) == Flat(idx.centroidPages[p..])
    decreases |idx.centroidPages| - p
  {
    var pages := idx.centroidPages;
    FlatFrom(pages, p);
    assert pages[p].tuples[..Min(|pages[p].tuples|, left)] == pages[p].tuples;
    if p + 1 < |pages| {
      CoarseWholePages(idx, p + 1, left);
    } else {
      assert pages[p + 1..] == [];
    }
  }

  /** With `left` decreased, the walk reads exactly the first `left` tuples of pages p.. */
  lemma {:induction false} CoarsePrefix(idx: Index, p: nat, left: nat)
    requires CatalogShape(idx) && p < |idx.centroidPages|
    requires left <= |Flat(idx.centroidPages[p..])|
    ensures CoarseFrom(idx, Some(p), left, true) == Flat(idx.centroidPages[p..])[..left]
    decreases |idx.centroidPages| - p
  {
    var pages := idx.centroidPages;
    var tuples := pages[p].tuples;
    var count := Min(|tuples|, left);
    var rest := Flat(pages[p + 1..]);
    FlatFrom(pages, p);
    if p + 1 < |pages| {
      CoarsePrefix(idx, p + 1, left - count);
    } else {
      assert pages[p + 1..] == [];
    }
    PrefixOfConcat(tuples, rest, left);
  }

  /** A prefix of a + b: as much of a as it covers, then the rest from b. */
  lemma PrefixOfConcat<T>(a: seq<T>, b: seq<T>, n: nat)
    requires n <= |a| + |b|
    ensures (a + b)[..n] == a[..Min(|a|, n)] + b[..n - Min(|a|, n)]
  {
    if n <= |a| {
      assert b[..0] == [];
    }
  }

  /**
    The corrected coarse pass reads the first clusterCount tuples of the
    catalog, when the catalog holds that many.
  */
  lemma CoarseReadsCatalog(idx: Index)
    requires CatalogShape(idx)
    requires idx.clusterCount <= |Centroids(idx)|
    ensures Coarse(idx) == Centroids(idx)[..idx.clusterCount]
  {
    CentroidsArePrefix(idx);
    if idx.firstCentroidPage.Some? {
      assert idx.centroidPages[0..] == idx.centroidPages;
      CoarsePrefix(idx, 0, idx.clusterCount);
    }
  }

  /**
    The coarse pass as written, once the catalog spans two pages or more
    and the last is not full: it reads every tuple of every page, so past
    the clusterCount written tuples it reads a default tuple, with an empty
    vector and no data page chain.
  */
  lemma CoarseAsWrittenReadsBlank(idx: Index)
    requires CatalogShape(idx)
    requires |idx.centroidPages| >= 2 && idx.lastCentroidSlot < CentroidsPerPage
    requires idx.clusterCount == |Centroids(idx)|
    ensures |CoarseAsWritten(idx)| > idx.clusterCount
    ensures CoarseAsWritten(idx)[idx.clusterCount] == BlankCentroid
    ensures BlankCentroid.vec == [] && BlankCentroid.firstDataPage.None?
  {
    TwoPagesHoldAPage(idx);
    CoarseWholePages(idx, 0, idx.clusterCount);
    assert idx.centroidPages[0..] == idx.centroidPages;
    CatalogTail(idx);
  }

  /** All the pages' tuples: the written ones, then the rest of the last page. */
  lemma CatalogTail(idx: Index)
    requires CatalogShape(idx) && idx.firstCentroidPage.Some?
    ensures Flat(idx.centroidPages)
      == Centroids(idx) + idx.centroidPages[idx.lastCentroidPage].tuples[idx.lastCentroidSlot..]
  {
    var pages, last, slot := idx.centroidPages, idx.lastCentroidPage, idx.lastCentroidSlot;
    assert pages == pages[..last] + [pages[last]];
    FlatSnoc(pages[..last], pages[last]);
    assert pages[last].tuples == pages[last].tuples[..slot] + pages[last].tuples[slot..];
  }

  /** A catalog on two pages or more has filled its first page. */
  lemma TwoPagesHoldAPage(idx: Index)
    requires CatalogShape(idx) && |idx.centroidPages| >= 2
    ensures |Centroids(idx)| >= CentroidsPerPage
  {
    var pages, last := idx.centroidPages, idx.lastCentroidPage;
    assert Flat(pages[..last]) == Flat(pages[..last - 1]) + pages[last - 1].tuples by {
      assert pages[..last][..last - 1] == pages[..last - 1];
    }
  }

  /** A concrete instance: 205 clusters fill one page and one tuple of the next. */
  lemma CoarseAsWrittenAt205(idx: Index)
    requires CatalogShape(idx) && idx.clusterCount == 205 && |Centroids(idx)| == 205
    ensures |CoarseAsWritten(idx)| == 408
    ensures CoarseAsWritten(idx)[205] == BlankCentroid
  {
    var pages := idx.centroidPages;
    RegressionValues();
    assert idx.firstCentroidPage.Some?;
    var last := idx.lastCentroidPage;
    FlatLength(pages[..last]);
    MulIsProduct(last, CentroidsPerPage);
    assert last == 1 && idx.lastCentroidSlot == 1;
    CoarseAsWrittenReadsBlank(idx);
    CoarseWholePages(idx, 0, 205);
    assert pages[0..] == pages;
    FlatLength(pages);
    MulIsProduct(2, CentroidsPerPage);
  }

  /**
    While the catalog fits on one page, the missing decrement is harmless:
    the coarse pass as written reads exactly the clusterCount written tuples.
  */
  lemma CoarseAsWrittenSmallCatalog(idx: Index)
    requires CatalogShape(idx)
    requires idx.clusterCount == |Centroids(idx)| <= CentroidsPerPage
    ensures CoarseAsWritten(idx) == Centroids(idx)
    ensures Coarse(idx) == Centroids(idx)
  {
    if idx.firstCentroidPage.Some? {
      OnePage(idx);
      SinglePageCoarse(idx, idx.clusterCount, false);
      SinglePageCoarse(idx, idx.clusterCount, true);
    }
  }

  lemma MulAtLeast(a: nat, b: nat)
    ensures a >= 1 ==> b <= Mul(a, b)
  {
    if a >= 1 {
      MulMono(1, a, b);
    }
  }

  /** On a one-page catalog the coarse pass reads the first `left` tuples of that page. */
  lemma SinglePageCoarse(idx: Index, left: nat, decrement: bool)
    requires CatalogShape(idx) && |idx.centroidPages| == 1 && left <= CentroidsPerPage
    ensures CoarseFrom(idx, Some(0), left, decrement) == idx.centroidPages[0].tuples[..left]
  {
    assert idx.centroidPages[0].nextPage == None;
  }

  /** A catalog of at most one page's worth of tuples is a single page, with its first tuples written. */
  lemma OnePage(idx: Index)
    requires CatalogShape(idx) && idx.firstCentroidPage.Some?
    requires |Centroids(idx)| <= CentroidsPerPage
    ensures |idx.centroidPages| == 1 && idx.lastCentroidPage == 0
    ensures Centroids(idx) == idx.centroidPages[0].tuples[..idx.lastCentroidSlot]
  {
    var pages, last := idx.centroidPages, idx.lastCentroidPage;
    FlatLength(pages[..last]);
    MulAtLeast(last, CentroidsPerPage);
    assert pages[..last] == [];
  }

  // ---------------------------------------------------------------------
  // Ranking the clusters
  // ---------------------------------------------------------------------

  /** The coarse distance: the squared distance over min(|q|, dimension) components. */
  function ClusterDist(idx: Index, q: seq<real>, k: nat): (r: real)
    requires Inv(idx) && k < |Centroids(idx)|
    ensures r >= 0.0
  {
    var m := Min(|q|, idx.dimension);
    SumSqDiffNonNegative(Centroids(idx)[k].vec, q, m);
    SumSqDiff(Centroids(idx)[k].vec, q, m)
  }

  /** The catalog positions 0 .. n-1. */
  function Range(n: nat): (r: seq<nat>)
    ensures |r| == n && forall i | 0 <= i < n :: r[i] == i
  {
    seq(n, i => i)
  }

  /** The coarse pass: every cluster read by the corrected loop with its coarse distance. */
  function Ranked(idx: Index, q: seq<real>): (r: seq<Scored<nat>>)
    requires Inv(idx) && idx.clusterCount <= |Centroids(idx)|
    ensures |r| == idx.clusterCount
    ensures forall i | 0 <= i < |r| :: r[i] == Scored(i, ClusterDist(idx, q, i))
  {
    var cs := Coarse(idx);
    CoarseReadsCatalog(idx);
    var m := Min(|q|, idx.dimension);
    seq(|cs|, i requires 0 <= i < |cs| => Scored(i, SumSqDiff(cs[i].vec, q, m)))
  }

  /** Every entry of a permutation of the ranking is a cluster with its coarse distance. */
  lemma RankedEntries(idx: Index, q: seq<real>, sorted: seq<Scored<nat>>)
    requires Inv(idx) && idx.clusterCount <= |Centroids(idx)|
    requires multiset(sorted) == multiset(Ranked(idx, q))
    ensures forall i | 0 <= i < |sorted| ::
      sorted[i].item < idx.clusterCount && sorted[i].dist == ClusterDist(idx, q, sorted[i].item)
  {
    var ranked := Ranked(idx, q);
    forall i | 0 <= i < |sorted|
      ensures sorted[i].item < idx.clusterCount && sorted[i].dist == ClusterDist(idx, q, sorted[i].item)
    {
      assert sorted[i] in multiset(ranked);
      var t :| 0 <= t < |ranked| && ranked[t] == sorted[i];
    }
  }

  /**
    topClusters: the first clusterCountToSelect clusters of the ascending
    ranking. Each is a cluster of the catalog, none twice, and no cluster
    left out is strictly closer than one selected.
  */
  function Select(idx: Index, q: seq<real>, count: nat): (r: seq<nat>)
    requires Inv(idx) && idx.clusterCount <= |Centroids(idx)| && count <= idx.clusterCount
    ensures |r| == count
    ensures multiset(r) <= multiset(Range(idx.clusterCount))
    ensures forall i | 0 <= i < count :: r[i] < idx.clusterCount
    ensures forall i, k | 0 <= i < count && 0 <= k < idx.clusterCount && k !in r ::
      ClusterDist(idx, q, r[i]) <= ClusterDist(idx, q, k)
  {
    var ranked := Ranked(idx, q);
    var sorted := SortByDist(ranked);
    SelectFacts(idx, q, count, ranked, sorted);
    Items(sorted[..count])
  }

  lemma SelectFacts(idx: Index, q: seq<real>, count: nat, ranked: seq<Scored<nat>>, sorted: seq<Scored<nat>>)
    requires Inv(idx) && idx.clusterCount <= |Centroids(idx)| && count <= idx.clusterCount
    requires ranked == Ranked(idx, q)
    requires SortedByDist(sorted) && multiset(sorted) == multiset(ranked) && |sorted| == |ranked|
    ensures multiset(Items(sorted[..count])) <= multiset(Range(idx.clusterCount))
    ensures forall i | 0 <= i < count :: sorted[i].item < idx.clusterCount
    ensures forall i, k | 0 <= i < count && 0 <= k < idx.clusterCount && k !in Items(sorted[..count]) ::
      ClusterDist(idx, q, sorted[i].item) <= ClusterDist(idx, q, k)
  {
    assert Items(ranked) == Range(idx.clusterCount);
    SplitItems(sorted, ranked, count);
    RankedEntries(idx, q, sorted);
    SelectNoneCloser(idx, q, count, sorted);
  }

  lemma SelectNoneCloser(idx: Index, q: seq<real>, count: nat, sorted: seq<Scored<nat>>)
    requires Inv(idx) && idx.clusterCount <= |Centroids(idx)| && count <= |sorted|
    requires SortedByDist(sorted)
    requires forall i | 0 <= i < |sorted| ::
      sorted[i].item < idx.clusterCount && sorted[i].dist == ClusterDist(idx, q, sorted[i].item)
    requires multiset(Items(sorted[..count])) + multiset(Items(sorted[count..])) == multiset(Range(idx.clusterCount))
    ensures forall i, k | 0 <= i < count && 0 <= k < idx.clusterCount && k !in Items(sorted[..count]) ::
      ClusterDist(idx, q, sorted[i].item) <= ClusterDist(idx, q, k)
  {
    forall i, k | 0 <= i < count && 0 <= k < idx.clusterCount && k !in Items(sorted[..count])
      ensures ClusterDist(idx, q, sorted[i].item) <= ClusterDist(idx, q, k)
    {
      var front, back := Items(sorted[..count]), Items(sorted[count..]);
      var c: nat := k;
      assert Range(idx.clusterCount)[c] == c;
      assert multiset(Range(idx.clusterCount))[c] >= 1;
      var mf: multiset<nat>, mb: multiset<nat> := multiset(front), multiset(back);
      assert mf[c] == 0;
      assert mb[c] >= 1;
      assert c in back;
      var b :| 0 <= b < |sorted| - count && Items(sorted[count..])[b] == k;
      assert sorted[count + b].item == k;
    }
  }

  // ---------------------------------------------------------------------
  // Gathering and re-ranking the members
  // ---------------------------------------------------------------------

  /** The members of every cluster of the catalog, as its chain is walked. */
  function Chains(idx: Index): (r: seq<seq<Member>>)
    requires Inv(idx)
    ensures |r| == |Centroids(idx)|
    ensures forall k | 0 <= k < |r| :: r[k] == MembersOf(idx, k) && Width(r[k], idx.dimension)
  {
    seq(|Centroids(idx)|, k requires 0 <= k < |Centroids(idx)| => MembersOf(idx, k))
  }

  /** The chains of the chosen clusters, one after the other. */
  function GatherFrom(chains: seq<seq<Member>>, chosen: seq<nat>): seq<Member>
    requires forall i | 0 <= i < |chosen| :: chosen[i] < |chains|
  {
    if |chosen| == 0 then []
    else GatherFrom(chains, chosen[..|chosen| - 1]) + chains[chosen[|chosen| - 1]]
  }

  lemma {:induction false} GatherFromWidth(chains: seq<seq<Member>>, chosen: seq<nat>, d: nat)
    requires forall i | 0 <= i < |chosen| :: chosen[i] < |chains|
    requires forall k | 0 <= k < |chains| :: Width(chains[k], d)
    ensures Width(GatherFrom(chains, chosen), d)
  {
    if |chosen| > 0 {
      GatherFromWidth(chains, chosen[..|chosen| - 1], d);
    }
  }

  /** The members of the given clusters, cluster after cluster, as their chains are walked. */
  function Gather(idx: Index, chosen: seq<nat>): (r: seq<Member>)
    requires Inv(idx)
    requires forall i | 0 <= i < |chosen| :: chosen[i] < |Centroids(idx)|
    ensures Width(r, idx.dimension)
  {
    GatherFromWidth(Chains(idx), chosen, idx.dimension);
    GatherFrom(Chains(idx), chosen)
  }

  /** The re-ranking distance: the squared distance over the index's dimension. */
  function MemberDist(q: seq<real>, d: nat, m: Member): real
    requires d <= |q| && d <= |m.vec|
  {
    SumSqDiff(q, m.vec, d)
  }

  /** The members the search ranks: those of the selected clusters. */
  function Candidates(idx: Index, q: seq<real>, clusterCountToSelect: nat): (r: seq<Member>)
    requires Inv(idx) && idx.clusterCount <= |Centroids(idx)| && clusterCountToSelect <= idx.clusterCount
    ensures Width(r, idx.dimension)
  {
    Gather(idx, Select(idx, q, clusterCountToSelect))
  }

  function ReRank(q: seq<real>, d: nat, ms: seq<Member>): (r: seq<Scored<Member>>)
    requires d <= |q| && Width(ms, d)
    ensures |r| == |ms|
    ensures forall i | 0 <= i < |r| :: r[i] == Scored(ms[i], MemberDist(q, d, ms[i]))
  {
    seq(|ms|, i requires 0 <= i < |ms| => Scored(ms[i], MemberDist(q, d, ms[i])))
  }

  /** Every member's vector has d components. */
  predicate Width(ms: seq<Member>, d: nat)
  {
    forall i | 0 <= i < |ms| :: |ms[i].vec| == d
  }

  /**
    r is a nearest-first answer drawn from cands: members of cands (counted
    with multiplicity), in ascending distance to q, and no member of cands
    left out is strictly closer than one in r.
  */
  predicate NearestOf(q: seq<real>, d: nat, cands: seq<Member>, r: seq<Member>)
    requires d <= |q| && Width(cands, d)
  {
    && Width(r, d)
    && multiset(r) <= multiset(cands)
    && (forall i, j | 0 <= i < j < |r| :: MemberDist(q, d, r[i]) <= MemberDist(q, d, r[j]))
    && forall i, x | 0 <= i < |r| && x in cands && multiset(r)[x] < multiset(cands)[x] ::
         MemberDist(q, d, r[i]) <= MemberDist(q, d, x)
  }

  /** The re-ranking of search: sort the candidates by distance and keep the first n. */
  function Nearest(q: seq<real>, d: nat, n: nat, cands: seq<Member>): (r: seq<Member>)
    requires d <= |q| && Width(cands, d) && n <= |cands|
    ensures |r| == n
    ensures NearestOf(q, d, cands, r)
  {
    var scored := ReRank(q, d, cands);
    var sorted := SortByDist(scored);
    SearchFacts(q, d, n, cands, scored, sorted);
    Items(sorted[..n])
  }

  /**
    search: the neighbourCount members of the selected clusters nearest to
    the query, nearest first.
  */
  function Search(idx: Index, q: seq<real>, neighbourCount: nat, clusterCountToSelect: nat): (r: seq<Member>)
    requires Inv(idx) && |q| >= idx.dimension
    requires idx.clusterCount <= |Centroids(idx)| && clusterCountToSelect <= idx.clusterCount
    requires neighbourCount <= |Candidates(idx, q, clusterCountToSelect)|
    ensures |r| == neighbourCount
    ensures NearestOf(q, idx.dimension, Candidates(idx, q, clusterCountToSelect), r)
  {
    Nearest(q, idx.dimension, neighbourCount, Candidates(idx, q, clusterCountToSelect))
  }

  lemma SearchFacts(q: seq<real>, d: nat, n: nat, cands: seq<Member>, scored: seq<Scored<Member>>, sorted: seq<Scored<Member>>)
    requires d <= |q| && Width(cands, d)
    requires scored == ReRank(q, d, cands)
    requires SortedByDist(sorted) && multiset(sorted) == multiset(scored) && |sorted| == |scored|
    requires n <= |cands|
    ensures NearestOf(q, d, cands, Items(sorted[..n]))
  {
    assert Items(scored) == cands;
    SplitItems(sorted, scored, n);
    ReRankedEntries(q, d, cands, sorted);
    PrefixOrdered(q, d, sorted, n);
    SearchNoneCloser(q, d, cands, sorted, n);
    assert multiset(Items(sorted[..n])) <= multiset(cands);
  }

  /** The first n entries of a distance-sorted re-ranking are members of width d in ascending distance. */
  lemma PrefixOrdered(q: seq<real>, d: nat, sorted: seq<Scored<Member>>, n: nat)
    requires d <= |q| && n <= |sorted|
    requires SortedByDist(sorted)
    requires forall i | 0 <= i < |sorted| :: |sorted[i].item.vec| == d && sorted[i].dist == MemberDist(q, d, sorted[i].item)
    ensures Width(Items(sorted[..n]), d)
    ensures forall i, j | 0 <= i < j < n ::
      MemberDist(q, d, Items(sorted[..n])[i]) <= MemberDist(q, d, Items(sorted[..n])[j])
  {
  }

  /** Every entry of a permutation of the re-ranking is a member of width d with its distance. */
  lemma ReRankedEntries(q: seq<real>, d: nat, cands: seq<Member>, sorted: seq<Scored<Member>>)
    requires d <= |q| && Width(cands, d)
    requires multiset(sorted) == multiset(ReRank(q, d, cands))
    ensures forall i | 0 <= i < |sorted| :: |sorted[i].item.vec| == d && sorted[i].dist == MemberDist(q, d, sorted[i].item)
  {
    var scored := ReRank(q, d, cands);
    forall i | 0 <= i < |sorted|
      ensures |sorted[i].item.vec| == d && sorted[i].dist == MemberDist(q, d, sorted[i].item)
    {
      assert sorted[i] in multiset(scored);
      var t :| 0 <= t < |scored| && scored[t] == sorted[i];
    }
  }

  lemma SearchNoneCloser(q: seq<real>, d: nat, cands: seq<Member>, sorted: seq<Scored<Member>>, n: nat)
    requires d <= |q| && Width(cands, d) && n <= |sorted|
    requires SortedByDist(sorted)
    requires forall i | 0 <= i < |sorted| :: |sorted[i].item.vec| == d && sorted[i].dist == MemberDist(q, d, sorted[i].item)
    requires multiset(Items(sorted[..n])) + multiset(Items(sorted[n..])) == multiset(cands)
    ensures forall i, x | 0 <= i < n && x in cands && multiset(Items(sorted[..n]))[x] < multiset(cands)[x] ::
      MemberDist(q, d, sorted[i].item) <= MemberDist(q, d, x)
  {
    forall i, x | 0 <= i < n && x in cands && multiset(Items(sorted[..n]))[x] < multiset(cands)[x]
      ensures MemberDist(q, d, sorted[i].item) <= MemberDist(q, d, x)
    {
      assert x in multiset(Items(sorted[n..]));
      var b :| 0 <= b < |sorted| - n && Items(sorted[n..])[b] == x;
      assert sorted[n + b].item == x;
    }
  }

  /** The vectors of a list of members, in order. */
  function Vectors(ms: seq<Member>): (r: seq<seq<real>>)
    ensures |r| == |ms| && forall i | 0 <= i < |ms| :: r[i] == ms[i].vec
  {
    seq(|ms|, i requires 0 <= i < |ms| => ms[i].vec)
  }

  /** The ids of a list of members, in order. */
  function Ids(ms: seq<Member>): (r: seq<Id>)
    ensures |r| == |ms| && forall i | 0 <= i < |ms| :: r[i] == ms[i].id
  {
    seq(|ms|, i requires 0 <= i < |ms| => ms[i].id)
  }

  /** Every vector has d components. */
  predicate VecWidth(vs: seq<seq<real>>, d: nat)
  {
    forall i | 0 <= i < |vs| :: |vs[i]| == d
  }

  /**
    NearestOf on vectors alone: r is drawn from cands (counted with
    multiplicity), in ascending distance to q, and no vector of cands left
    out is strictly closer than one in r.
  */
  predicate NearestVectorsOf(q: seq<real>, d: nat, cands: seq<seq<real>>, r: seq<seq<real>>)
    requires d <= |q| && VecWidth(cands, d)
  {
    && VecWidth(r, d)
    && multiset(r) <= multiset(cands)
    && (forall i, j | 0 <= i < j < |r| :: SumSqDiff(q, r[i], d) <= SumSqDiff(q, r[j], d))
    && forall i, k | 0 <= i < |r| && 0 <= k < |cands| && multiset(r)[cands[k]] < multiset(cands)[cands[k]] ::
         SumSqDiff(q, r[i], d) <= SumSqDiff(q, cands[k], d)
  }

  /** findNearestVectors: the vectors of the search result, nearest first. */
  function FindNearestVectors(idx: Index, q: seq<real>, neighbourCount: nat, clusterCountToSelect: nat): (r: seq<seq<real>>)
    requires Inv(idx) && |q| >= idx.dimension
    requires idx.clusterCount <= |Centroids(idx)| && clusterCountToSelect <= idx.clusterCount
    requires neighbourCount <= |Candidates(idx, q, clusterCountToSelect)|
    ensures |r| == neighbourCount
    ensures VecWidth(Vectors(Candidates(idx, q, clusterCountToSelect)), idx.dimension)
    ensures NearestVectorsOf(q, idx.dimension, Vectors(Candidates(idx, q, clusterCountToSelect)), r)
  {
    var s := Search(idx, q, neighbourCount, clusterCountToSelect);
    NearestVectors(q, idx.dimension, Candidates(idx, q, clusterCountToSelect), s);
    Vectors(s)
  }

  /** findNearestVectorIds: the ids of the search result, nearest first. */
  function FindNearestVectorIds(idx: Index, q: seq<real>, neighbourCount: nat, clusterCountToSelect: nat): (r: seq<Id>)
    requires Inv(idx) && |q| >= idx.dimension
    requires idx.clusterCount <= |Centroids(idx)| && clusterCountToSelect <= idx.clusterCount
    requires neighbourCount <= |Candidates(idx, q, clusterCountToSelect)|
    ensures |r| == neighbourCount
    ensures NearestOf(q, idx.dimension, Candidates(idx, q, clusterCountToSelect),
                      Zip(FindNearestVectors(idx, q, neighbourCount, clusterCountToSelect), r))
  {
    var s := Search(idx, q, neighbourCount, clusterCountToSelect);
    assert Zip(Vectors(s), Ids(s)) == s;
    Ids(s)
  }

  lemma VectorsConcat(a: seq<Member>, b: seq<Member>)
    ensures Vectors(a + b) == Vectors(a) + Vectors(b)
  {
  }

  /** Permuting members permutes their vectors the same way. */
  lemma {:induction false} VectorsPermutation(s1: seq<Member>, s2: seq<Member>)
    requires multiset(s1) == multiset(s2)
    ensures multiset(Vectors(s1)) == multiset(Vectors(s2))
    decreases |s1|
  {
    if |s1| == 0 {
      assert |multiset(s2)| == 0;
      assert s2 == [];
    } else {
      var x := s1[0];
      assert x in multiset(s2);
      var i :| 0 <= i < |s2| && s2[i] == x;
      var s2' := s2[..i] + s2[i + 1..];
      assert s2 == s2[..i] + [x] + s2[i + 1..];
      assert s1 == [x] + s1[1..];
      assert multiset(s1[1..]) == multiset(s1) - multiset{x};
      assert multiset(s2') == multiset(s2) - multiset{x};
      VectorsPermutation(s1[1..], s2');
      VectorsConcat([x], s1[1..]);
      VectorsConcat(s2[..i] + [x], s2[i + 1..]);
      VectorsConcat(s2[..i], [x]);
      VectorsConcat(s2[..i], s2[i + 1..]);
    }
  }

  /** The members of cands that s leaves out, as a sequence. */
  lemma {:induction false} Remainder(s: seq<Member>, cands: seq<Member>) returns (rest: seq<Member>)
    requires multiset(s) <= multiset(cands)
    ensures multiset(cands) == multiset(s) + multiset(rest)
    decreases |cands| - |s|
  {
    var left := multiset(cands) - multiset(s);
    if |left| == 0 {
      assert multiset(cands) == multiset(s) + left;
      rest := [];
    } else {
      var x :| x in left;
      assert multiset(s + [x]) <= multiset(cands);
      assert |multiset(s)| < |multiset(cands)|;
      var more := Remainder(s + [x], cands);
      rest := [x] + more;
    }
  }

  /** Dropping the ids from a nearest-first answer leaves a nearest-first answer over the candidates' vectors. */
  lemma NearestVectors(q: seq<real>, d: nat, cands: seq<Member>, s: seq<Member>)
    requires d <= |q| && Width(cands, d) && NearestOf(q, d, cands, s)
    ensures VecWidth(Vectors(cands), d)
    ensures NearestVectorsOf(q, d, Vectors(cands), Vectors(s))
  {
    var rest := Remainder(s, cands);
    VectorsPermutation(cands, s + rest);
    VectorsConcat(s, rest);
    var vc, vs, vr := Vectors(cands), Vectors(s), Vectors(rest);
    assert multiset(vc) == multiset(vs) + multiset(vr);
    forall i, k | 0 <= i < |vs| && 0 <= k < |vc| && multiset(vs)[vc[k]] < multiset(vc)[vc[k]]
      ensures SumSqDiff(q, vs[i], d) <= SumSqDiff(q, vc[k], d)
    {
      var v := vc[k];
      assert v in multiset(vr);
      var b :| 0 <= b < |rest| && vr[b] == v;
      assert rest[b] in multiset(rest);
      assert multiset(s)[rest[b]] < multiset(cands)[rest[b]];
      assert rest[b] in cands;
      assert MemberDist(q, d, s[i]) <= MemberDist(q, d, rest[b]);
    }
  }

  /**
    A candidate equal to the query on the index's dimension is at distance
    zero, so the first result is one too.
  */
  lemma ExactMatchFirst(idx: Index, q: seq<real>, neighbourCount: nat, clusterCountToSelect: nat, m: Member)
    requires Inv(idx) && |q| >= idx.dimension
    requires idx.clusterCount <= |Centroids(idx)| && clusterCountToSelect <= idx.clusterCount
    requires 1 <= neighbourCount <= |Candidates(idx, q, clusterCountToSelect)|
    requires m in Candidates(idx, q, clusterCountToSelect) && m.vec == q[..idx.dimension]
    ensures Search(idx, q, neighbourCount, clusterCountToSelect)[0].vec == q[..idx.dimension]
  {
    NearestFindsExact(q, idx.dimension, Candidates(idx, q, clusterCountToSelect), Search(idx, q, neighbourCount, clusterCountToSelect), m);
  }

  lemma NearestFindsExact(q: seq<real>, d: nat, cands: seq<Member>, r: seq<Member>, m: Member)
    requires d <= |q| && Width(cands, d)
    requires NearestOf(q, d, cands, r) && |r| >= 1
    requires m in cands && m.vec == q[..d]
    ensures r[0].vec == q[..d]
  {
    SumSqDiffZeroIff(q, m.vec, d);
    assert m.vec[..d] == m.vec;
    assert MemberDist(q, d, m) == 0.0;
    if multiset(r)[m] < multiset(cands)[m] {
      assert MemberDist(q, d, r[0]) <= MemberDist(q, d, m);
    } else {
      assert m in multiset(r);
      var t :| 0 <= t < |r| && r[t] == m;
      if t > 0 {
        assert MemberDist(q, d, r[0]) <= MemberDist(q, d, r[t]);
      }
    }
    SumSqDiffNonNegative(q, r[0].vec, d);
    SumSqDiffZeroIff(q, r[0].vec, d);
    assert r[0].vec[..d] == r[0].vec;
  }

  // ---------------------------------------------------------------------
  // Selecting every cluster
  // ---------------------------------------------------------------------

  lemma {:induction false} GatherConcat(chains: seq<seq<Member>>, a: seq<nat>, b: seq<nat>)
    requires forall i | 0 <= i < |a| :: a[i] < |chains|
    requires forall i | 0 <= i < |b| :: b[i] < |chains|
    ensures GatherFrom(chains, a + b) == GatherFrom(chains, a) + GatherFrom(chains, b)
    decreases |b|
  {
    if |b| > 0 {
      assert (a + b)[..|a + b| - 1] == a + b[..|b| - 1];
      GatherConcat(chains, a, b[..|b| - 1]);
    } else {
      assert a + b == a;
    }
  }

  /** Gathering the same clusters in another order gathers the same members. */
  lemma {:induction false} GatherPermutation(chains: seq<seq<Member>>, a: seq<nat>, b: seq<nat>)
    requires forall i | 0 <= i < |a| :: a[i] < |chains|
    requires forall i | 0 <= i < |b| :: b[i] < |chains|
    requires multiset(a) == multiset(b)
    ensures multiset(GatherFrom(chains, a)) == multiset(GatherFrom(chains, b))
    decreases |a|
  {
    if |a| == 0 {
      assert |multiset(b)| == 0;
      assert b == [];
    } else {
      var x := a[|a| - 1];
      var b1, b2 := RemoveOne(a, b);
      assert forall i | 0 <= i < |b1| :: b1[i] == b[i];
      assert forall i | 0 <= i < |b2| :: b2[i] == b[|b1| + 1 + i];
      assert forall i | 0 <= i < |b1 + b2| :: (b1 + b2)[i] < |chains|;
      GatherPermutation(chains, a[..|a| - 1], b1 + b2);
      GatherSplit(chains, b1, x, b2);
    }
  }

  /** b is a permutation of a: it splits around an occurrence of a's last element, leaving a permutation of the rest of a. */
  lemma RemoveOne(a: seq<nat>, b: seq<nat>) returns (b1: seq<nat>, b2: seq<nat>)
    requires |a| > 0 && multiset(a) == multiset(b)
    ensures b == b1 + [a[|a| - 1]] + b2
    ensures multiset(a[..|a| - 1]) == multiset(b1 + b2)
  {
    var x, a' := a[|a| - 1], a[..|a| - 1];
    assert a == a' + [x];
    assert x in multiset(b);
    var k :| 0 <= k < |b| && b[k] == x;
    b1, b2 := b[..k], b[k + 1..];
    assert b == b1 + [x] + b2;
    MultisetOfThree(b1, [x], b2);
    assert multiset(a) == multiset(a') + multiset{x};
    CancelOne(multiset(a'), multiset(b1 + b2), x);
  }

  lemma CancelOne<T>(p: multiset<T>, q: multiset<T>, x: T)
    requires p + multiset{x} == q + multiset{x}
    ensures p == q
  {
    assert p == (p + multiset{x}) - multiset{x};
    assert q == (q + multiset{x}) - multiset{x};
  }

  /** Gathering with one cluster taken out of the middle and put last gathers the same members. */
  lemma GatherSplit(chains: seq<seq<Member>>, b1: seq<nat>, x: nat, b2: seq<nat>)
    requires x < |chains|
    requires forall i | 0 <= i < |b1| :: b1[i] < |chains|
    requires forall i | 0 <= i < |b2| :: b2[i] < |chains|
    ensures multiset(GatherFrom(chains, b1 + [x] + b2)) == multiset(GatherFrom(chains, b1 + b2)) + multiset(chains[x])
  {
    GatherOne(chains, b1, x);
    GatherConcat(chains, b1 + [x], b2);
    GatherConcat(chains, b1, b2);
    MultisetOfThree(GatherFrom(chains, b1), chains[x], GatherFrom(chains, b2));
  }

  lemma GatherOne(chains: seq<seq<Member>>, b1: seq<nat>, x: nat)
    requires x < |chains|
    requires forall i | 0 <= i < |b1| :: b1[i] < |chains|
    ensures GatherFrom(chains, b1 + [x]) == GatherFrom(chains, b1) + chains[x]
  {
    var b1x := b1 + [x];
    assert b1x[..|b1x| - 1] == b1;
  }

  lemma MultisetOfThree<T>(g1: seq<T>, gx: seq<T>, g2: seq<T>)
    ensures multiset(g1 + gx + g2) == multiset(g1 + g2) + multiset(gx)
  {
    assert multiset(g1 + gx + g2) == multiset(g1) + multiset(gx) + multiset(g2);
    assert multiset(g1 + g2) == multiset(g1) + multiset(g2);
  }

  /** Every member stored in the first clusterCount clusters, cluster by cluster. */
  function AllMembers(idx: Index): seq<Member>
    requires Inv(idx) && idx.clusterCount <= |Centroids(idx)|
  {
    Gather(idx, Range(idx.clusterCount))
  }

  lemma SubMultisetOfSameSize(a: multiset<nat>, b: multiset<nat>)
    requires a <= b && |a| == |b|
    ensures a == b
  {
    assert b == a + (b - a);
  }

  /**
    Selecting every cluster makes the search exhaustive: the candidates are
    all the stored members, in some order.
  */
  lemma SelectAllIsExhaustive(idx: Index, q: seq<real>)
    requires Inv(idx) && idx.clusterCount <= |Centroids(idx)|
    ensures multiset(Candidates(idx, q, idx.clusterCount)) == multiset(AllMembers(idx))
  {
    var all := Select(idx, q, idx.clusterCount);
    SubMultisetOfSameSize(multiset(all), multiset(Range(idx.clusterCount)));
    GatherPermutation(Chains(idx), all, Range(idx.clusterCount));
  }
}
