/**
  Fixed-size page arithmetic and the page records of the index.

  A page is 8192 bytes: a forward pointer to the next page and as many
  fixed-size tuples as fit in the rest. Data pages hold 4-byte components
  (float or int32) followed by a region of 4-byte vector ids; centroid pages
  hold centroid tuples. Pages live in an arena and link forward by arena index.
*/
module Page {
  import opened Wrappers

  const PageSize: nat := 8192
  const PointerSize: nat := 8
  /** Bytes reserved per vector for its u_int32 id. */
  const IdSize: nat := 4
  /** sizeof(T) for the 4-byte component types the index stores. */
  const ElemSize: nat := 4
  /** sizeof(size_t). */
  const SizeTSize: nat := 8
  /** sizeof(CentroidTuple<float>): a std::vector (three pointers), the first data page pointer and a size_t count. */
  const CentroidTupleSize: nat := 3 * PointerSize + PointerSize + SizeTSize

  /** A caller-supplied 32-bit unsigned vector id. */
  type Id = x: int | 0 <= x < 0x1_0000_0000

  /** calcTuplesSize: how many records of the given size fit beside the forward pointer. */
  function TuplesSize(recordSize: nat): (n: nat)
    requires recordSize > 0
    ensures n * recordSize <= PageSize - PointerSize < (n + 1) * recordSize
  {
    var room := PageSize - PointerSize;
    DivFloor(room, recordSize);
    room / recordSize
  }

  /**
    calcVectorCount: how many vectors of the given dimension, each with a
    4-byte id, fit in the tuple storage of a page of elemSize-byte elements.
  */
  function VectorCount(elemSize: nat, dimension: nat): (cap: nat)
    requires elemSize > 0
    ensures cap * (elemSize * dimension + IdSize) <= TuplesSize(elemSize) * elemSize
    ensures TuplesSize(elemSize) * elemSize < (cap + 1) * (elemSize * dimension + IdSize)
  {
    DivFloor(TuplesSize(elemSize) * elemSize, elemSize * dimension + IdSize);
    TuplesSize(elemSize) * elemSize / (elemSize * dimension + IdSize)
  }

  /**
    getEndTuples: the tuple offset where the vectors end and the id region
    starts. It lies inside the page, and the id region behind it has room
    for VectorCount 4-byte ids.
  */
  function EndTuples(elemSize: nat, dimension: nat): (e: nat)
    requires elemSize > 0
    ensures e <= TuplesSize(elemSize)
    ensures (TuplesSize(elemSize) - e) * elemSize >= VectorCount(elemSize, dimension) * IdSize
  {
    var cap := VectorCount(elemSize, dimension);
    IdRegionRoom(elemSize, dimension, cap, TuplesSize(elemSize));
    cap * dimension
  }

  /** From cap * (s * d + 4) <= t * s: the vectors end inside the page and leave room for cap ids. */
  lemma IdRegionRoom(s: nat, d: nat, cap: nat, t: nat)
    requires s > 0
    requires cap * (s * d + IdSize) <= t * s
    ensures cap * d <= t
    ensures (t - cap * d) * s >= cap * IdSize
  {
    assert cap * (s * d + IdSize) == s * (cap * d) + cap * IdSize;
    assert s * (cap * d) <= s * t;
    if cap * d > t {
      MulMonotone(s, t + 1, cap * d);
    }
    assert (t - cap * d) * s == t * s - s * (cap * d);
  }

  lemma DivFloor(a: nat, b: nat)
    requires b > 0
    ensures 0 <= a / b
    ensures (a / b) * b <= a < (a / b + 1) * b
  {
  }

  /** A larger dimension never gives more vectors per page. */
  lemma VectorCountAntitone(elemSize: nat, d1: nat, d2: nat)
    requires elemSize > 0 && d1 <= d2
    ensures VectorCount(elemSize, d2) <= VectorCount(elemSize, d1)
  {
    var c1, c2 := VectorCount(elemSize, d1), VectorCount(elemSize, d2);
    var w1, w2 := elemSize * d1 + IdSize, elemSize * d2 + IdSize;
    var room := TuplesSize(elemSize) * elemSize;
    assert elemSize * d1 <= elemSize * d2 by { MulMonotone(elemSize, d1, d2); }
    assert c2 * w1 <= c2 * w2 by { MulMonotone(c2, w1, w2); }
    assert c2 * w1 < (c1 + 1) * w1;
    MulCancel(w1, c2, c1 + 1);
  }

  lemma MulCancel(k: nat, a: nat, b: nat)
    requires a * k < b * k
    ensures a < b
  {
    if a >= b {
      MulMonotone(k, b, a);
    }
  }

  lemma MulMonotone(k: nat, a: nat, b: nat)
    requires a <= b
    ensures k * a <= k * b
  {
  }

  /** The only q with q * b <= a < (q + 1) * b is a / b. */
  lemma QuotientUnique(a: nat, b: nat, q: nat)
    requires b > 0 && q * b <= a < (q + 1) * b
    ensures q == a / b
  {
    DivFloor(a, b);
  }

  /**
    a * b as repeated addition. Proofs about page offsets use it so that
    the solver only meets linear arithmetic; MulIsProduct relates it to *.
  */
  function Mul(a: nat, b: nat): nat
  {
    if a == 0 then 0 else Mul(a - 1, b) + b
  }

  lemma {:induction false} MulIsProduct(a: nat, b: nat)
    ensures Mul(a, b) == a * b
  {
    if a > 0 {
      MulIsProduct(a - 1, b);
    }
  }

  lemma {:induction false} MulMono(a: nat, a': nat, b: nat)
    requires a <= a'
    ensures Mul(a, b) <= Mul(a', b)
    decreases a' - a
  {
    if a < a' {
      MulMono(a, a' - 1, b);
    }
  }

  /** For a positive factor, Mul is strictly increasing in its first argument. */
  lemma {:induction false} MulStrict(a: nat, a': nat, b: nat)
    requires a < a' && b >= 1
    ensures Mul(a, b) + b <= Mul(a', b)
  {
    MulMono(a + 1, a', b);
  }

  /** A page of records: the tuple storage and the link to the next page of its chain. */
  datatype Page<T> = Page(tuples: seq<T>, nextPage: Option<nat>) {
    /** hasNextPage */
    predicate HasNextPage() {
      nextPage.Some?
    }
  }

  /** Every link of the arena points to a page further along it: chains are finite and acyclic. */
  predicate ForwardLinked<T>(pages: seq<Page<T>>)
  {
    forall p | 0 <= p < |pages| :: pages[p].nextPage.Some? ==> p < pages[p].nextPage.value < |pages|
  }

  /** A freshly constructed page: calcTuplesSize blank records and no next page. */
  function NewPage<T>(recordSize: nat, blank: T): (p: Page<T>)
    requires recordSize > 0
    ensures |p.tuples| == TuplesSize(recordSize)
    ensures !p.HasNextPage()
    ensures forall k | 0 <= k < |p.tuples| :: p.tuples[k] == blank
  {
    Page(seq(TuplesSize(recordSize), _ => blank), None)
  }

  /** One 4-byte word of a data page: a vector component or an id copied in with memcpy. */
  datatype Slot = Comp(c: real) | Word(w: Id)

  type DataPage = Page<Slot>

  /**
    One entry of the centroid catalog: the centroid vector, the head of its
    data page chain and how many vectors that chain holds.
  */
  datatype CentroidTuple = CentroidTuple(vec: seq<real>, firstDataPage: Option<nat>, vectorCount: nat)

  /**
    A value-initialised tuple: empty vector, a null chain pointer (None
    here, which the destructor relies on) and no members.
  */
  const BlankCentroid: CentroidTuple := CentroidTuple([], None, 0)

  type CentroidPage = Page<CentroidTuple>

  /** Words of tuple storage in a data page (2046). */
  const DataTuples: nat := TuplesSize(ElemSize)

  /** Centroid tuples per centroid page (204). */
  const CentroidsPerPage: nat := TuplesSize(CentroidTupleSize)

  /** A fresh data page: every word zero. */
  function NewDataPage(): (p: DataPage)
    ensures |p.tuples| == DataTuples && !p.HasNextPage()
  {
    NewPage(ElemSize, Comp(0.0))
  }

  /** A fresh centroid page: every tuple blank. */
  function NewCentroidPage(): (p: CentroidPage)
    ensures |p.tuples| == CentroidsPerPage && !p.HasNextPage()
  {
    NewPage(CentroidTupleSize, BlankCentroid)
  }

  /** Vectors per data page for the given dimension. */
  function Capacity(dimension: nat): nat
  {
    VectorCount(ElemSize, dimension)
  }

  /** Word offset of the id region of a data page. */
  function IdRegion(dimension: nat): (e: nat)
    ensures e <= DataTuples
  {
    EndTuples(ElemSize, dimension)
  }

  /**
    The word where the id of the vector in slot s of a page is stored, when
    consecutive ids are idStride words apart.
  */
  function IdWord(dimension: nat, idStride: nat, s: nat): nat
  {
    IdRegion(dimension) + idStride * s
  }

  /**
    A page layout in which members and ids can be stored: at least one
    vector per page, ids a positive stride apart, and the id of the last
    slot still inside the page.
  */
  predicate LayoutValid(dimension: nat, idStride: nat)
  {
    && dimension >= 1
    && idStride >= 1
    && Capacity(dimension) >= 1
    && IdWord(dimension, idStride, Capacity(dimension) - 1) < DataTuples
  }

  /** Regression values: 204 centroid tuples per page, 2046 data words, 15 vectors of dimension 128. */
  lemma RegressionValues()
    ensures CentroidTupleSize == 40
    ensures CentroidsPerPage == 204
    ensures DataTuples == 2046
    ensures Capacity(128) == 15 && IdRegion(128) == 1920
  {
  }

  /** With ids one word apart, every layout with room for a vector is valid. */
  lemma UnitStrideFits(dimension: nat)
    requires dimension >= 1 && Capacity(dimension) >= 1
    ensures LayoutValid(dimension, 1)
  {
    var cap := Capacity(dimension);
    assert cap * (ElemSize * dimension + IdSize) <= DataTuples * ElemSize;
    assert cap * (ElemSize * dimension + IdSize) == ElemSize * (cap * dimension + cap);
    assert cap * dimension + cap <= DataTuples;
  }
}
