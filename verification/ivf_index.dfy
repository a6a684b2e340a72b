/**
  The in-memory IVF-Flat index: a catalog of centroid tuples on a chain of
  centroid pages, each tuple heading the data page chain of its cluster.

  Centroid pages live in their own arena and are appended in order, so page
  p links to page p + 1; lastCentroidPage and lastCentroidSlot are the
  source's last page pointer and the iterator to its first free tuple.
*/
module Ivf {
  import opened Wrappers
  import opened Page
  import opened DataChain
  import opened Distance
  import Sampling
  import Clustering

  datatype Index = Index(
    dimension: nat,
    clusterCount: nat,
    layout: Layout,
    dataPages: seq<DataPage>,
    centroidPages: seq<CentroidPage>,
    firstCentroidPage: Option<nat>,
    lastCentroidPage: nat,
    lastCentroidSlot: nat)

  datatype IndexError =
    | VectorTooBig                            // the constructor's logic_error
    | InconsistentClusterSize                 // add's runtime_error
    | KMeansFailed(cause: Clustering.KMeansError)

  // ---------------------------------------------------------------------
  // The centroid catalog
  // ---------------------------------------------------------------------

  /** The tuples of the pages, page after page. */
  function Flat(pages: seq<CentroidPage>): seq<CentroidTuple>
  {
    if |pages| == 0 then [] else Flat(pages[..|pages| - 1]) + pages[|pages| - 1].tuples
  }

  lemma {:induction false} FlatConcat(a: seq<CentroidPage>, b: seq<CentroidPage>)
    ensures Flat(a + b) == Flat(a) + Flat(b)
    decreases |b|
  {
    if |b| > 0 {
      assert (a + b)[..|a + b| - 1] == a + b[..|b| - 1];
      FlatConcat(a, b[..|b| - 1]);
    } else {
      assert a + b == a;
    }
  }

  /** Appending one page appends its tuples. */
  lemma FlatSnoc(before: seq<CentroidPage>, closed: CentroidPage)
    ensures Flat(before + [closed]) == Flat(before) + closed.tuples
  {
    FlatConcat(before, [closed]);
    assert [closed][..0] == [];
  }

  /** Every centroid page holds CentroidsPerPage tuples. */
  predicate PagesSized(pages: seq<CentroidPage>)
  {
    forall p | 0 <= p < |pages| :: |pages[p].tuples| == CentroidsPerPage
  }

  lemma {:induction false} FlatLength(pages: seq<CentroidPage>)
    requires PagesSized(pages)
    ensures |Flat(pages)| == Mul(|pages|, CentroidsPerPage)
  {
    if |pages| > 0 {
      FlatLength(pages[..|pages| - 1]);
    }
  }

  /**
    The shape of the catalog between calls: no pages until the first
    centroid, then pages 0..lastCentroidPage linked in order, each of
    CentroidsPerPage tuples, the last one filled up to lastCentroidSlot
    and blank after it.
  */
  predicate CatalogShape(idx: Index)
  {
    && PagesSized(idx.centroidPages)
    && (forall p | 0 <= p < |idx.centroidPages| ::
          idx.centroidPages[p].nextPage == if p + 1 < |idx.centroidPages| then Some(p + 1) else None)
    && (idx.firstCentroidPage.None? <==> |idx.centroidPages| == 0)
    && (idx.firstCentroidPage.Some? ==>
          && idx.firstCentroidPage.value == 0
          && idx.lastCentroidPage == |idx.centroidPages| - 1
          && 1 <= idx.lastCentroidSlot <= CentroidsPerPage
          && forall s | idx.lastCentroidSlot <= s < CentroidsPerPage ::
               idx.centroidPages[idx.lastCentroidPage].tuples[s] == BlankCentroid)
  }

  /** The centroid tuples written so far, in the order they were added. */
  function Centroids(idx: Index): seq<CentroidTuple>
    requires CatalogShape(idx)
  {
    if idx.firstCentroidPage.None? then []
    else
      var last := idx.lastCentroidPage;
      Flat(idx.centroidPages[..last]) + idx.centroidPages[last].tuples[..idx.lastCentroidSlot]
  }

  /** The written tuples are the first ones of the pages' tuples. */
  lemma CentroidsArePrefix(idx: Index)
    requires CatalogShape(idx)
    ensures |Centroids(idx)| <= |Flat(idx.centroidPages)|
    ensures Centroids(idx) == Flat(idx.centroidPages)[..|Centroids(idx)|]
  {
    if idx.firstCentroidPage.Some? {
      var last := idx.lastCentroidPage;
      assert idx.centroidPages == idx.centroidPages[..last] + [idx.centroidPages[last]];
      FlatSnoc(idx.centroidPages[..last], idx.centroidPages[last]);
    }
  }

  /**
    A written tuple: the centroid has at least the index's dimension (the
    search reads only that many of its components) and heads a chain in
    the arena.
  */
  predicate TupleOK(idx: Index, t: CentroidTuple)
  {
    && |t.vec| >= idx.dimension
    && t.firstDataPage.Some?
    && t.firstDataPage.value < |idx.dataPages|
  }

  /** The index invariant kept by every operation. */
  predicate Inv(idx: Index)
  {
    && Valid(idx.layout)
    && idx.layout == LayoutFor(idx.dimension, idx.layout.idStride)
    && DataArena(idx.dataPages)
    && CatalogShape(idx)
    && forall k | 0 <= k < |Centroids(idx)| :: TupleOK(idx, Centroids(idx)[k])
  }

  /** The members stored for the k-th centroid, as the search reads them back. */
  function MembersOf(idx: Index, k: nat): seq<Member>
    requires Inv(idx) && k < |Centroids(idx)|
  {
    var t := Centroids(idx)[k];
    Walk(idx.dataPages, idx.layout, t.firstDataPage, t.vectorCount)
  }

  // ---------------------------------------------------------------------
  // Construction
  // ---------------------------------------------------------------------

  function Empty(dimension: nat, clusterCount: nat, idStride: nat): Index
  {
    Index(dimension, clusterCount, LayoutFor(dimension, idStride), [], [], None, 0, 0)
  }

  /**
    The constructor as written: it refuses only a dimension above the tuple
    count of a data page, and ids are written 4 words apart.
  */
  function NewIndexAsWritten(dimension: nat, clusterCount: nat): (r: Result<Index, IndexError>)
    ensures r.Failure? <==> dimension > DataTuples
    ensures r.Failure? ==> r.error == VectorTooBig
    ensures r.Success? ==> r.value == Empty(dimension, clusterCount, 4)
  {
    if dimension > DataTuples then Failure(VectorTooBig)
    else Success(Empty(dimension, clusterCount, 4))
  }

  /** A dimension that fills the page is accepted, yet then not even one vector fits. */
  lemma AsWrittenAcceptsFullPage(clusterCount: nat)
    ensures NewIndexAsWritten(DataTuples, clusterCount).Success?
    ensures Capacity(DataTuples) == 0
    ensures !Inv(NewIndexAsWritten(DataTuples, clusterCount).value)
  {
  }

  /**
    With ids 4 words apart, a page of one-component vectors overruns: the
    id of slot 256 would land on word 2047, past the 2046 words of the page.
  */
  lemma AsWrittenIdsOverrun()
    ensures Capacity(1) == 1023 && IdRegion(1) == 1023
    ensures 256 < Capacity(1) && IdWord(1, 4, 256) == 2047 && 2047 >= DataTuples
    ensures !LayoutValid(1, 4)
    ensures NewIndexAsWritten(1, 1).Success? && !Inv(NewIndexAsWritten(1, 1).value)
  {
    assert DataTuples == 2046;
    assert Capacity(1) == 2046 * 4 / 8;
    LayoutForValid(1, 4);
  }

  /** For the common dimension 128 the 4-word stride still fits (ids end at word 1976). */
  lemma AsWrittenFitsAt128()
    ensures LayoutValid(128, 4)
    ensures IdWord(128, 4, Capacity(128) - 1) == 1976
  {
  }

  /**
    Wherever the 4-word id stride fits the page, the constructor as written
    builds an index that satisfies the invariant, so every operation of the
    model applies to it (at dimension 128, for one, by AsWrittenFitsAt128).
  */
  lemma AsWrittenInvIffLayoutFits(dimension: nat, clusterCount: nat)
    ensures (NewIndexAsWritten(dimension, clusterCount).Success? && Inv(NewIndexAsWritten(dimension, clusterCount).value))
        <==> LayoutValid(dimension, 4)
  {
    LayoutForValid(dimension, 4);
    if dimension > DataTuples {
      VectorCountAntitone(ElemSize, DataTuples, dimension);
    }
  }

  /**
    The constructor as intended: refuse every dimension for which no vector
    fits on a page (and the degenerate dimension 0), and write ids one word
    apart, so the id region holds exactly the page's vectors.
  */
  function NewIndex(dimension: nat, clusterCount: nat): (r: Result<Index, IndexError>)
    ensures r.Failure? <==> dimension == 0 || Capacity(dimension) == 0
    ensures r.Failure? ==> r.error == VectorTooBig
    ensures r.Success? ==> Inv(r.value) && Centroids(r.value) == [] && r.value.dimension == dimension
    ensures r.Success? ==> r.value.clusterCount == clusterCount && r.value.layout.idStride == 1
  {
    if dimension == 0 || Capacity(dimension) == 0 then Failure(VectorTooBig)
    else
      UnitStrideFits(dimension);
      LayoutForValid(dimension, 1);
      Success(Empty(dimension, clusterCount, 1))
  }

  /** Every dimension the intended constructor accepts is one the written constructor accepts too. */
  lemma NewIndexNarrowsAsWritten(dimension: nat, clusterCount: nat)
    ensures NewIndex(dimension, clusterCount).Success? ==> NewIndexAsWritten(dimension, clusterCount).Success?
  {
    if dimension > DataTuples {
      VectorCountAntitone(ElemSize, DataTuples, dimension);
    }
  }

  // ---------------------------------------------------------------------
  // Adding a centroid (addCentroid)
  // ---------------------------------------------------------------------

  /**
    The catalog half of addCentroid: create the first centroid page if
    there is none, start a new page when the last one is full, then write
    the tuple into the first free slot.
  */
  function AppendCentroid(idx: Index, t: CentroidTuple): (r: Index)
    requires CatalogShape(idx)
    ensures CatalogShape(r)
    ensures Centroids(r) == Centroids(idx) + [t]
    ensures r.dataPages == idx.dataPages && r.layout == idx.layout
    ensures r.dimension == idx.dimension && r.clusterCount == idx.clusterCount
  {
    var started :=
      if idx.firstCentroidPage.None? then
        idx.(centroidPages := [NewCentroidPage()], firstCentroidPage := Some(0), lastCentroidPage := 0, lastCentroidSlot := 0)
      else idx;
    var pages, last := started.centroidPages, started.lastCentroidPage;
    var room :=
      if started.lastCentroidSlot == |pages[last].tuples| then
        started.(centroidPages := pages[last := pages[last].(nextPage := Some(|pages|))] + [NewCentroidPage()],
                 lastCentroidPage := |pages|, lastCentroidSlot := 0)
      else started;
    var page := room.centroidPages[room.lastCentroidPage];
    var r := room.(centroidPages := room.centroidPages[room.lastCentroidPage := page.(tuples := page.tuples[room.lastCentroidSlot := t])],
                   lastCentroidSlot := room.lastCentroidSlot + 1);
    if idx.firstCentroidPage.None? then
      AppendFirst(idx, t, r);
      r
    else if idx.lastCentroidSlot == CentroidsPerPage then
      AppendNewPage(idx, t, r);
      r
    else
      AppendSamePage(idx, t, r);
      r
  }

  lemma AppendFirst(idx: Index, t: CentroidTuple, r: Index)
    requires CatalogShape(idx) && idx.firstCentroidPage.None?
    requires r == idx.(centroidPages := [NewCentroidPage().(tuples := NewCentroidPage().tuples[0 := t])],
                       firstCentroidPage := Some(0), lastCentroidPage := 0, lastCentroidSlot := 1)
    ensures CatalogShape(r) && Centroids(r) == Centroids(idx) + [t]
  {
    assert r.centroidPages[..0] == [];
  }

  lemma AppendSamePage(idx: Index, t: CentroidTuple, r: Index)
    requires CatalogShape(idx) && idx.firstCentroidPage.Some? && idx.lastCentroidSlot < CentroidsPerPage
    requires
      var last, slot := idx.lastCentroidPage, idx.lastCentroidSlot;
      var page := idx.centroidPages[last];
      r == idx.(centroidPages := idx.centroidPages[last := page.(tuples := page.tuples[slot := t])], lastCentroidSlot := slot + 1)
    ensures CatalogShape(r) && Centroids(r) == Centroids(idx) + [t]
  {
    var last, slot := idx.lastCentroidPage, idx.lastCentroidSlot;
    assert r.centroidPages[..last] == idx.centroidPages[..last];
    assert r.centroidPages[last].tuples[..slot + 1] == idx.centroidPages[last].tuples[..slot] + [t];
  }

  lemma AppendNewPage(idx: Index, t: CentroidTuple, r: Index)
    requires CatalogShape(idx) && idx.firstCentroidPage.Some? && idx.lastCentroidSlot == CentroidsPerPage
    requires
      var pages, last := idx.centroidPages, idx.lastCentroidPage;
      r == idx.(centroidPages := pages[last := pages[last].(nextPage := Some(|pages|))]
                                 + [NewCentroidPage().(tuples := NewCentroidPage().tuples[0 := t])],
                lastCentroidPage := |pages|, lastCentroidSlot := 1)
    ensures CatalogShape(r) && Centroids(r) == Centroids(idx) + [t]
  {
    var pages, last := idx.centroidPages, idx.lastCentroidPage;
    var closed := pages[last].(nextPage := Some(|pages|));
    assert r.centroidPages[..|pages|] == pages[..last] + [closed];
    FlatSnoc(pages[..last], closed);
    assert closed.tuples == pages[last].tuples[..idx.lastCentroidSlot];
  }

  /** The data page chain and catalog entry of the k-th centroid survive appending data pages. */
  lemma MembersSurviveGrowth(idx: Index, r: Index, k: nat)
    requires Inv(idx) && Inv(r) && k < |Centroids(idx)| && k < |Centroids(r)|
    requires r.layout == idx.layout
    requires |idx.dataPages| <= |r.dataPages| && r.dataPages[..|idx.dataPages|] == idx.dataPages
    requires Centroids(r)[k] == Centroids(idx)[k]
    ensures MembersOf(r, k) == MembersOf(idx, k)
  {
    var t := Centroids(idx)[k];
    WalkExtend(idx.dataPages, r.dataPages, idx.layout, t.firstDataPage, t.vectorCount);
  }

  /**
    addCentroid: lay the vectors and their ids out on a fresh data page
    chain and append a catalog tuple for it. Reading the new cluster back
    gives exactly the vectors with their ids; every earlier cluster reads
    back as before.
  */
  method AddCentroid(idx: Index, data: seq<seq<real>>, ids: seq<Id>, centroid: seq<real>) returns (r: Index)
    requires Inv(idx)
    requires |data| <= |ids|
    requires forall i | 0 <= i < |data| :: |data[i]| == idx.dimension
    requires |centroid| >= idx.dimension
    ensures Inv(r)
    ensures r.dimension == idx.dimension && r.clusterCount == idx.clusterCount && r.layout == idx.layout
    ensures |r.dataPages| >= |idx.dataPages| && r.dataPages[..|idx.dataPages|] == idx.dataPages
    ensures |Centroids(r)| == |Centroids(idx)| + 1
    ensures Centroids(r)[..|Centroids(idx)|] == Centroids(idx)
    ensures Centroids(r)[|Centroids(idx)|].vec == centroid
    ensures Centroids(r)[|Centroids(idx)|].vectorCount == |data|
    ensures MembersOf(r, |Centroids(idx)|) == Zip(data, ids)
    ensures forall k | 0 <= k < |Centroids(idx)| :: MembersOf(r, k) == MembersOf(idx, k)
  {
    var members := Zip(data, ids);
    var pages, head := BuildChain(idx.dataPages, idx.layout, members);
    WalkLaidOutChain(pages, head, idx.layout, members);
    var t := CentroidTuple(centroid, Some(head), |data|);
    r := AppendCentroid(idx.(dataPages := pages), t);
    AppendKeepsInv(idx, t, r);
    AppendKeepsMembers(idx, t, r, members);
  }

  /** A tuple heading a chain in the grown arena keeps the invariant when appended to the catalog. */
  lemma AppendKeepsInv(idx: Index, t: CentroidTuple, r: Index)
    requires Inv(idx) && CatalogShape(r) && DataArena(r.dataPages)
    requires r.dimension == idx.dimension && r.layout == idx.layout
    requires |idx.dataPages| <= |r.dataPages|
    requires TupleOK(r, t)
    requires Centroids(r) == Centroids(idx) + [t]
    ensures Inv(r)
  {
    var n := |Centroids(idx)|;
    assert forall k | 0 <= k < n :: Centroids(r)[k] == Centroids(idx)[k];
  }

  /** After the append the new cluster reads back as `members` and every earlier one as before. */
  lemma AppendKeepsMembers(idx: Index, t: CentroidTuple, r: Index, members: seq<Member>)
    requires Inv(idx) && Inv(r) && r.layout == idx.layout
    requires |idx.dataPages| <= |r.dataPages| && r.dataPages[..|idx.dataPages|] == idx.dataPages
    requires Centroids(r) == Centroids(idx) + [t] && TupleOK(r, t)
    requires Walk(r.dataPages, r.layout, t.firstDataPage, t.vectorCount) == members
    ensures MembersOf(r, |Centroids(idx)|) == members
    ensures forall k | 0 <= k < |Centroids(idx)| :: MembersOf(r, k) == MembersOf(idx, k)
  {
    var n := |Centroids(idx)|;
    assert Centroids(r)[n] == t;
    forall k | 0 <= k < n
      ensures MembersOf(r, k) == MembersOf(idx, k)
    {
      assert Centroids(r)[k] == Centroids(idx)[k];
      MembersSurviveGrowth(idx, r, k);
    }
  }

  // ---------------------------------------------------------------------
  // Training and adding points
  // ---------------------------------------------------------------------

  /**
    After i steps of train: r keeps the clusters of idx and their members,
    then holds one cluster per centroid of data, in order, each reading
    back as the cluster's vectors paired with their ids.
  */
  predicate Extends(idx: Index, r: Index, data: Clustering.ClusterData, i: nat)
    requires Inv(idx) && Inv(r)
  {
    var base := |Centroids(idx)|;
    && r.dimension == idx.dimension && r.clusterCount == idx.clusterCount && r.layout == idx.layout
    && |idx.dataPages| <= |r.dataPages| && r.dataPages[..|idx.dataPages|] == idx.dataPages
    && i <= |data.clusters| && i <= |data.idClusters| && i <= |data.centroids|
    && |Centroids(r)| == base + i
    && Centroids(r)[..base] == Centroids(idx)
    && (forall k | 0 <= k < base :: MembersOf(r, k) == MembersOf(idx, k))
    && forall c | 0 <= c < i ::
         && |data.clusters[c]| <= |data.idClusters[c]|
         && Centroids(r)[base + c].vec == data.centroids[c]
         && MembersOf(r, base + c) == Zip(data.clusters[c], data.idClusters[c])
  }

  /**
    train: cluster the points with kMeans and add one centroid per cluster
    with the cluster's points and ids, in cluster order; a kMeans failure
    is passed on.
  */
  method Train(idx: Index, points: seq<seq<real>>, maxEpochs: nat, tol: real, draws: seq<nat>) returns (r: Result<Index, IndexError>)
    requires Inv(idx)
    requires forall j | 0 <= j < |points| :: |points[j]| == idx.dimension
    requires idx.clusterCount >= 1 || |points| == 0
    requires forall i | 0 <= i < |draws| :: draws[i] < |points|
    ensures r.Failure? <==> Clustering.KMeans(points, idx.clusterCount, maxEpochs, tol, draws).Failure?
    ensures r.Failure? ==> r.error == KMeansFailed(Clustering.KMeans(points, idx.clusterCount, maxEpochs, tol, draws).error)
    ensures r.Success? ==>
      && Inv(r.value)
      && Extends(idx, r.value, Clustering.KMeans(points, idx.clusterCount, maxEpochs, tol, draws).value.data, idx.clusterCount)
  {
    var km := Clustering.KMeans(points, idx.clusterCount, maxEpochs, tol, draws);
    if km.Failure? {
      return Failure(KMeansFailed(km.error));
    }
    Clustering.KMeansShape(points, idx.clusterCount, maxEpochs, tol, draws, km.value);
    var trained := AddClusters(idx, km.value.data);
    r := Success(trained);
  }

  /** The loop of train: one addCentroid per cluster of a kMeans result, in order. */
  method AddClusters(idx: Index, data: Clustering.ClusterData) returns (r: Index)
    requires Inv(idx)
    requires |data.clusters| == |data.idClusters| == |data.centroids| == idx.clusterCount
    requires forall c | 0 <= c < idx.clusterCount ::
      && |data.centroids[c]| == idx.dimension
      && |data.clusters[c]| == |data.idClusters[c]|
      && Clustering.HasWidth(data.clusters[c], idx.dimension)
    ensures Inv(r) && Extends(idx, r, data, idx.clusterCount)
  {
    r := idx;
    var i := 0;
    assert idx.dataPages[..|idx.dataPages|] == idx.dataPages;
    assert Centroids(idx)[..|Centroids(idx)|] == Centroids(idx);
    while i < idx.clusterCount
      invariant i <= idx.clusterCount
      invariant Inv(r) && Extends(idx, r, data, i)
    {
      var next := AddCentroid(r, data.clusters[i], data.idClusters[i], data.centroids[i]);
      TrainStep(idx, r, next, data, i);
      r := next;
      i := i + 1;
    }
  }

  lemma TrainStep(idx: Index, cur: Index, next: Index, data: Clustering.ClusterData, i: nat)
    requires Inv(idx) && Inv(cur) && Inv(next)
    requires Extends(idx, cur, data, i)
    requires i < |data.clusters| && i < |data.idClusters| && i < |data.centroids|
    requires |data.clusters[i]| <= |data.idClusters[i]|
    requires next.dimension == cur.dimension && next.clusterCount == cur.clusterCount && next.layout == cur.layout
    requires |next.dataPages| >= |cur.dataPages| && next.dataPages[..|cur.dataPages|] == cur.dataPages
    requires |Centroids(next)| == |Centroids(cur)| + 1
    requires Centroids(next)[..|Centroids(cur)|] == Centroids(cur)
    requires Centroids(next)[|Centroids(cur)|].vec == data.centroids[i]
    requires MembersOf(next, |Centroids(cur)|) == Zip(data.clusters[i], data.idClusters[i])
    requires forall k | 0 <= k < |Centroids(cur)| :: MembersOf(next, k) == MembersOf(cur, k)
    ensures Extends(idx, next, data, i + 1)
  {
    var ci, cc, cn := Centroids(idx), Centroids(cur), Centroids(next);
    PrefixOfPrefix(next.dataPages, cur.dataPages, idx.dataPages);
    PrefixOfPrefix(cn, cc, ci);
    PrefixAgrees(cn, cc);
  }

  lemma PrefixOfPrefix<T>(a: seq<T>, b: seq<T>, c: seq<T>)
    requires |c| <= |b| <= |a| && a[..|b|] == b && b[..|c|] == c
    ensures a[..|c|] == c
  {
    assert a[..|c|] == a[..|b|][..|c|];
  }

  lemma PrefixAgrees<T>(a: seq<T>, b: seq<T>)
    requires |b| <= |a| && a[..|b|] == b
    ensures forall k | 0 <= k < |b| :: a[k] == b[k]
  {
    forall k | 0 <= k < |b|
      ensures a[k] == b[k]
    {
      assert a[..|b|][k] == a[k];
    }
  }

  /**
    add: with a cluster list of the wrong size it fails; otherwise it stores
    nothing (its assignment loop has an empty body), so the index is unchanged.
  */
  function Add(idx: Index, points: seq<seq<real>>, clusters: seq<seq<real>>): (r: Result<Index, IndexError>)
    ensures r.Failure? <==> |clusters| != idx.clusterCount
    ensures r.Failure? ==> r.error == InconsistentClusterSize
    ensures r.Success? ==> r.value == idx
  {
    if |clusters| != idx.clusterCount then Failure(InconsistentClusterSize) else Success(idx)
  }
}
