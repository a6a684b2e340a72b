/**
  The data page chain of one cluster: how addCentroid lays the member
  vectors and their ids out over a fresh chain of data pages, and how the
  search reads them back by walking that chain.

  A Layout fixes the geometry of a data page for one index: the dimension,
  how many vectors fit (calcVectorCount), where the id region starts
  (getEndTuples) and how many words apart consecutive ids are written. In
  slot s the vector occupies the words from SlotStart(l, s) on and its id
  the word IdAt(l, s).
*/
module DataChain {
  import opened Wrappers
  import opened Page

  /** One stored vector with its id. */
  datatype Member = Member(vec: seq<real>, id: Id)

  datatype Layout = Layout(dimension: nat, capacity: nat, idRegion: nat, idStride: nat)

  /** The first word of the vector in slot s. */
  function SlotStart(l: Layout, s: nat): nat
  {
    Mul(s, l.dimension)
  }

  /** The word holding the id of the vector in slot s. */
  function IdAt(l: Layout, s: nat): nat
  {
    l.idRegion + Mul(s, l.idStride)
  }

  /**
    A layout that can hold members: at least one vector per page, the
    vectors ending exactly where the id region starts, ids a positive stride
    apart and the id of the last slot inside the page.
  */
  predicate Valid(l: Layout)
  {
    && l.dimension >= 1
    && l.capacity >= 1
    && l.idStride >= 1
    && SlotStart(l, l.capacity) == l.idRegion
    && IdAt(l, l.capacity - 1) < DataTuples
  }

  /** The geometry the index derives from its dimension and id stride. */
  function LayoutFor(dimension: nat, idStride: nat): (l: Layout)
    ensures l.dimension == dimension && l.idStride == idStride
  {
    Layout(dimension, Capacity(dimension), IdRegion(dimension), idStride)
  }

  /** The page-level validity condition and the layout-level one agree. */
  lemma LayoutForValid(dimension: nat, idStride: nat)
    ensures LayoutValid(dimension, idStride) <==> Valid(LayoutFor(dimension, idStride))
  {
    var cap, region := Capacity(dimension), IdRegion(dimension);
    assert region == cap * dimension;
    LayoutAgrees(Layout(dimension, cap, region, idStride));
  }

  /** Valid, restated with * for a layout whose vectors end where its id region starts. */
  lemma LayoutAgrees(l: Layout)
    requires l.idRegion == l.capacity * l.dimension
    ensures Valid(l) <==>
      && l.dimension >= 1 && l.idStride >= 1 && l.capacity >= 1
      && l.idRegion + l.idStride * (l.capacity - 1) < DataTuples
  {
    MulIsProduct(l.capacity, l.dimension);
    if l.capacity >= 1 {
      MulIsProduct(l.capacity - 1, l.idStride);
      assert Mul(l.capacity - 1, l.idStride) == l.idStride * (l.capacity - 1);
    }
  }

  /** The members of a cluster: the i-th vector with the i-th id. */
  function Zip(data: seq<seq<real>>, ids: seq<Id>): (r: seq<Member>)
    requires |data| <= |ids|
    ensures |r| == |data|
    ensures forall i | 0 <= i < |data| :: r[i] == Member(data[i], ids[i])
  {
    seq(|data|, i requires 0 <= i < |data| => Member(data[i], ids[i]))
  }

  /**
    A word read as a component. On a valid layout only words holding
    components are read this way, so the id case never arises; the model
    gives it the value 0.
  */
  function ReadComp(w: Slot): real
  {
    match w
    case Comp(c) => c
    case Word(_) => 0.0
  }

  /**
    A word read as an id. A fresh page is all zero words, so a word that was
    never written reads as id 0; a word holding a component is never read
    as an id on a valid layout.
  */
  function ReadWord(w: Slot): Id
  {
    match w
    case Word(x) => x
    case Comp(_) => 0
  }

  function Comps(v: seq<real>): (r: seq<Slot>)
    ensures |r| == |v|
    ensures forall j | 0 <= j < |v| :: r[j] == Comp(v[j])
  {
    seq(|v|, j requires 0 <= j < |v| => Comp(v[j]))
  }

  function ReadComps(w: seq<Slot>): (r: seq<real>)
    ensures |r| == |w|
    ensures forall j | 0 <= j < |w| :: r[j] == ReadComp(w[j])
  {
    seq(|w|, j requires 0 <= j < |w| => ReadComp(w[j]))
  }

  /** Every page of the arena is full-sized and links forward. */
  predicate DataArena(pages: seq<DataPage>)
  {
    && ForwardLinked(pages)
    && forall p | 0 <= p < |pages| :: |pages[p].tuples| == DataTuples
  }

  lemma SlotInPage(l: Layout, s: nat)
    requires Valid(l) && s < l.capacity
    ensures SlotStart(l, s) + l.dimension <= l.idRegion
  {
    MulMono(s + 1, l.capacity, l.dimension);
  }

  lemma IdInPage(l: Layout, s: nat)
    requires Valid(l) && s < l.capacity
    ensures l.idRegion <= IdAt(l, s) < DataTuples
  {
    MulMono(s, l.capacity - 1, l.idStride);
  }

  /** The vector in slot s of a data page. */
  function StoredVec(page: DataPage, l: Layout, s: nat): (v: seq<real>)
    requires Valid(l) && |page.tuples| == DataTuples && s < l.capacity
    ensures |v| == l.dimension
  {
    SlotInPage(l, s);
    ReadComps(page.tuples[SlotStart(l, s) .. SlotStart(l, s) + l.dimension])
  }

  /** The id of the vector in slot s of a data page. */
  function StoredId(page: DataPage, l: Layout, s: nat): Id
    requires Valid(l) && |page.tuples| == DataTuples && s < l.capacity
  {
    IdInPage(l, s);
    ReadWord(page.tuples[IdAt(l, s)])
  }

  /** The vector and id stored in slot s of a data page. */
  function StoredMember(page: DataPage, l: Layout, s: nat): Member
    requires Valid(l) && |page.tuples| == DataTuples && s < l.capacity
  {
    Member(StoredVec(page, l, s), StoredId(page, l, s))
  }

  /** Slot s of the page holds the member m. */
  predicate Holds(page: DataPage, l: Layout, s: nat, m: Member)
    requires Valid(l) && |page.tuples| == DataTuples && s < l.capacity
  {
    StoredMember(page, l, s) == m
  }

  /**
    Words t with v copied over positions off .. off+|v|-1 and then w stored
    at position at: the effect of std::copy followed by memcpy.
  */
  function Splice(t: seq<Slot>, off: nat, v: seq<Slot>, at: nat, w: Slot): (r: seq<Slot>)
    requires off + |v| <= |t| && at < |t|
    ensures |r| == |t|
    ensures r[at] == w
    ensures forall j | 0 <= j < |v| && off + j != at :: r[off + j] == v[j]
    ensures forall k | 0 <= k < |t| && (k < off || off + |v| <= k) && k != at :: r[k] == t[k]
  {
    (t[.. off] + v + t[off + |v| ..])[at := w]
  }

  /** Reading back words that hold the components of v gives v. */
  lemma ReadBack(t: seq<Slot>, lo: nat, v: seq<real>)
    requires lo + |v| <= |t|
    requires forall j | 0 <= j < |v| :: t[lo + j] == Comp(v[j])
    ensures ReadComps(t[lo .. lo + |v|]) == v
  {
  }

  /** Two word sequences that agree on a range read the same there. */
  lemma SameRange(t: seq<Slot>, r: seq<Slot>, lo: nat, len: nat)
    requires lo + len <= |t| && |r| == |t|
    requires forall k | lo <= k < lo + len :: r[k] == t[k]
    ensures r[lo .. lo + len] == t[lo .. lo + len]
  {
  }

  /** The copy of a vector into slot s followed by the memcpy of its id into the id region. */
  function WriteMember(page: DataPage, l: Layout, s: nat, m: Member): (r: DataPage)
    requires Valid(l) && |page.tuples| == DataTuples && s < l.capacity
    requires |m.vec| == l.dimension
    ensures |r.tuples| == DataTuples && r.nextPage == page.nextPage
  {
    SlotInPage(l, s);
    IdInPage(l, s);
    Page(Splice(page.tuples, SlotStart(l, s), Comps(m.vec), IdAt(l, s), Word(m.id)), page.nextPage)
  }

  /** Writing a member into slot s stores it there and leaves every other slot as it was. */
  lemma WriteMemberEffect(page: DataPage, l: Layout, s: nat, m: Member)
    requires Valid(l) && |page.tuples| == DataTuples && s < l.capacity
    requires |m.vec| == l.dimension
    ensures Holds(WriteMember(page, l, s, m), l, s, m)
    ensures forall s' | 0 <= s' < l.capacity && s' != s ::
      StoredVec(WriteMember(page, l, s, m), l, s') == StoredVec(page, l, s') &&
      StoredId(WriteMember(page, l, s, m), l, s') == StoredId(page, l, s')
  {
    var r := WriteMember(page, l, s, m);
    SlotInPage(l, s);
    IdInPage(l, s);
    ReadBack(r.tuples, SlotStart(l, s), m.vec);
    forall s' | 0 <= s' < l.capacity && s' != s
      ensures StoredVec(r, l, s') == StoredVec(page, l, s')
      ensures StoredId(r, l, s') == StoredId(page, l, s')
    {
      OtherSlot(page, l, s, s', m);
    }
  }

  lemma OtherSlot(page: DataPage, l: Layout, s: nat, s': nat, m: Member)
    requires Valid(l) && |page.tuples| == DataTuples && s < l.capacity
    requires |m.vec| == l.dimension && s' < l.capacity && s' != s
    ensures StoredVec(WriteMember(page, l, s, m), l, s') == StoredVec(page, l, s')
    ensures StoredId(WriteMember(page, l, s, m), l, s') == StoredId(page, l, s')
  {
    OtherSlotVec(page, l, s, s', m);
    OtherSlotId(page, l, s, s', m);
  }

  /** Writing slot s leaves the vector words of every other slot alone. */
  lemma OtherSlotVec(page: DataPage, l: Layout, s: nat, s': nat, m: Member)
    requires Valid(l) && |page.tuples| == DataTuples && s < l.capacity
    requires |m.vec| == l.dimension && s' < l.capacity && s' != s
    ensures StoredVec(WriteMember(page, l, s, m), l, s') == StoredVec(page, l, s')
  {
    var r := WriteMember(page, l, s, m);
    SlotInPage(l, s);
    SlotInPage(l, s');
    IdInPage(l, s);
    if s < s' {
      MulStrict(s, s', l.dimension);
    } else {
      MulStrict(s', s, l.dimension);
    }
    SameRange(page.tuples, r.tuples, SlotStart(l, s'), l.dimension);
  }

  /** Writing slot s leaves the id word of every other slot alone. */
  lemma OtherSlotId(page: DataPage, l: Layout, s: nat, s': nat, m: Member)
    requires Valid(l) && |page.tuples| == DataTuples && s < l.capacity
    requires |m.vec| == l.dimension && s' < l.capacity && s' != s
    ensures StoredId(WriteMember(page, l, s, m), l, s') == StoredId(page, l, s')
  {
    SlotInPage(l, s);
    IdInPage(l, s);
    IdInPage(l, s');
    if s < s' {
      MulStrict(s, s', l.idStride);
    } else {
      MulStrict(s', s, l.idStride);
    }
  }

  /** Slot of member i of a chain: i minus the full pages before it. */
  function SlotOf(i: nat, cap: nat): (s: nat)
    requires cap >= 1
    ensures s < cap
  {
    if i < cap then i else SlotOf(i - cap, cap)
  }

  /** Page (counted from the head of the chain) of member i. */
  function PageOf(i: nat, cap: nat): nat
    requires cap >= 1
  {
    if i < cap then 0 else 1 + PageOf(i - cap, cap)
  }

  /** How many pages a chain of n members occupies, counting the trailing page. */
  function ChainLength(n: nat, cap: nat): nat
    requires cap >= 1
  {
    if n < cap then 1 else 1 + ChainLength(n - cap, cap)
  }

  /** Member i sits at page PageOf and slot SlotOf: i == PageOf * cap + SlotOf. */
  lemma {:induction false} PageSlotSplit(i: nat, cap: nat)
    requires cap >= 1
    ensures Mul(PageOf(i, cap), cap) + SlotOf(i, cap) == i
  {
    if i >= cap {
      PageSlotSplit(i - cap, cap);
    }
  }

  /** Conversely, q * cap + s with s < cap is at page q, slot s. */
  lemma {:induction false} PageSlotOf(q: nat, s: nat, cap: nat)
    requires cap >= 1 && s < cap
    ensures PageOf(Mul(q, cap) + s, cap) == q && SlotOf(Mul(q, cap) + s, cap) == s
  {
    if q > 0 {
      PageSlotOf(q - 1, s, cap);
    }
  }

  /** The page and slot of member i + 1 follow from those of member i. */
  lemma {:induction false} PageSlotStep(i: nat, cap: nat)
    requires cap >= 1
    ensures SlotOf(i, cap) + 1 == cap ==> PageOf(i + 1, cap) == PageOf(i, cap) + 1 && SlotOf(i + 1, cap) == 0
    ensures SlotOf(i, cap) + 1 < cap ==> PageOf(i + 1, cap) == PageOf(i, cap) && SlotOf(i + 1, cap) == SlotOf(i, cap) + 1
  {
    if i >= cap {
      PageSlotStep(i - cap, cap);
    }
  }

  lemma {:induction false} PageOfMono(i: nat, j: nat, cap: nat)
    requires cap >= 1 && i <= j
    ensures PageOf(i, cap) <= PageOf(j, cap)
  {
    if i >= cap {
      PageOfMono(i - cap, j - cap, cap);
    }
  }

  /** The chain of n members has room for member i < n: its page is one of the chain's. */
  lemma {:induction false} PageInChain(i: nat, n: nat, cap: nat)
    requires cap >= 1 && i < n
    ensures PageOf(i, cap) < ChainLength(n, cap)
  {
    if i >= cap {
      PageInChain(i - cap, n - cap, cap);
    }
  }

  /** The chain length is the quotient plus one, and its last page holds fewer than cap members. */
  lemma {:induction false} ChainLengthBounds(n: nat, cap: nat)
    requires cap >= 1
    ensures Mul(ChainLength(n, cap) - 1, cap) <= n < Mul(ChainLength(n, cap), cap)
  {
    if n >= cap {
      ChainLengthBounds(n - cap, cap);
    }
  }

  lemma ChainLengthIsQuotient(n: nat, cap: nat)
    requires cap >= 1
    ensures ChainLength(n, cap) == n / cap + 1
  {
    var c := ChainLength(n, cap);
    ChainLengthBounds(n, cap);
    MulIsProduct(c - 1, cap);
    MulIsProduct(c, cap);
    QuotientUnique(n, cap, c - 1);
  }

  /** Pages head .. last form one chain: each links to the next and the last to none. */
  predicate Linked(pages: seq<DataPage>, head: nat, last: nat)
    requires last < |pages|
  {
    forall q | head <= q <= last :: pages[q].nextPage == if q < last then Some(q + 1) else None
  }

  /** Member k of a chain starting at `head` sits in slot SlotOf(k) of page head + PageOf(k). */
  predicate MemberAt(pages: seq<DataPage>, head: nat, l: Layout, members: seq<Member>, k: nat)
    requires Valid(l) && DataArena(pages) && k < |members|
  {
    && head + PageOf(k, l.capacity) < |pages|
    && Holds(pages[head + PageOf(k, l.capacity)], l, SlotOf(k, l.capacity), members[k])
  }

  /** Members 0 .. i-1 are all in place. */
  predicate Placed(pages: seq<DataPage>, head: nat, l: Layout, members: seq<Member>, i: nat)
    requires Valid(l) && DataArena(pages) && i <= |members|
  {
    forall k | 0 <= k < i :: MemberAt(pages, head, l, members, k)
  }

  /**
    The chain addCentroid builds for `members` from arena index `base`:
    ChainLength pages, each linked to the next and the last to none, with
    member i in slot SlotOf(i) of page base + PageOf(i). A chain whose
    member count is a multiple of the capacity ends in an empty page.
  */
  predicate ChainLaidOut(pages: seq<DataPage>, base: nat, l: Layout, members: seq<Member>)
    requires Valid(l) && DataArena(pages)
  {
    var n := ChainLength(|members|, l.capacity);
    && base + n <= |pages|
    && Linked(pages, base, base + n - 1)
    && Placed(pages, base, l, members, |members|)
  }

  /**
    The state of addCentroid's loop after i members: the old arena
    untouched, pages head .. last one chain whose last page is the one
    being filled, and members 0 .. i-1 in place.
  */
  predicate Building(pages: seq<DataPage>, pages': seq<DataPage>, head: nat, last: nat, l: Layout, members: seq<Member>, i: nat)
    requires Valid(l)
  {
    && i <= |members|
    && head == |pages| && last == head + PageOf(i, l.capacity) && |pages'| == last + 1
    && (i == 0 || PageOf(i - 1, l.capacity) <= PageOf(i, l.capacity))
    && pages'[..head] == pages
    && DataArena(pages')
    && Linked(pages', head, last)
    && Placed(pages', head, l, members, i)
  }

  /**
    The data-page half of addCentroid: lays the members out over a fresh
    chain appended to the arena and returns the arena index of its head.
    A new page is started whenever the vectors reach the id region.
  */
  method BuildChain(pages: seq<DataPage>, l: Layout, members: seq<Member>)
    returns (pages': seq<DataPage>, head: nat)
    requires Valid(l) && DataArena(pages)
    requires forall i | 0 <= i < |members| :: |members[i].vec| == l.dimension
    ensures DataArena(pages')
    ensures head == |pages|
    ensures |pages'| == |pages| + ChainLength(|members|, l.capacity)
    ensures pages'[..|pages|] == pages
    ensures ChainLaidOut(pages', head, l, members)
  {
    var cap := l.capacity;
    head := |pages|;
    pages' := pages + [NewDataPage()];
    var last: nat := head;
    var pos := 0;
    var idPos := l.idRegion;
    var i := 0;
    assert Building(pages, pages', head, last, l, members, i) by {
      assert pages'[..head] == pages;
    }
    while i < |members|
      invariant i <= |members|
      invariant Building(pages, pages', head, last, l, members, i)
      invariant pos == SlotStart(l, SlotOf(i, cap)) && idPos == IdAt(l, SlotOf(i, cap))
    {
      var s := SlotOf(i, cap);
      ghost var before := pages';
      var written := pages'[last := WriteMember(pages'[last], l, s, members[i])];
      pos := pos + l.dimension;
      idPos := idPos + l.idStride;
      PageSlotStep(i, cap);
      LastSlot(l, s);
      if pos == l.idRegion {
        pages' := written[last := written[last].(nextPage := Some(|written|))] + [NewDataPage()];
        StepNewPage(pages, before, written, pages', head, last, l, members, i);
        last := |pages'| - 1;
        pos := 0;
        idPos := l.idRegion;
      } else {
        pages' := written;
        StepSamePage(pages, before, written, head, last, l, members, i);
      }
      i := i + 1;
    }
    ChainFromPageOf(|members|, cap);
  }

  /** The vector in slot s ends at the id region exactly when s is the last slot. */
  lemma LastSlot(l: Layout, s: nat)
    requires Valid(l) && s < l.capacity
    ensures SlotStart(l, s) + l.dimension == l.idRegion <==> s + 1 == l.capacity
  {
    if s + 1 < l.capacity {
      MulStrict(s + 1, l.capacity, l.dimension);
    }
  }

  lemma {:induction false} ChainFromPageOf(n: nat, cap: nat)
    requires cap >= 1
    ensures ChainLength(n, cap) == PageOf(n, cap) + 1
  {
    if n >= cap {
      ChainFromPageOf(n - cap, cap);
    }
  }

  /** A member that did not fill its page: the state moves on to i + 1 on the same page. */
  lemma StepSamePage(pages: seq<DataPage>, before: seq<DataPage>, written: seq<DataPage>, head: nat, last: nat, l: Layout, members: seq<Member>, i: nat)
    requires Valid(l) && i < |members| && |members[i].vec| == l.dimension
    requires SlotOf(i, l.capacity) + 1 < l.capacity
    requires Building(pages, before, head, last, l, members, i)
    requires written == before[last := WriteMember(before[last], l, SlotOf(i, l.capacity), members[i])]
    ensures Building(pages, written, head, last, l, members, i + 1)
  {
    PageSlotStep(i, l.capacity);
    Written(before, written, head, last, l, members, i);
    assert written[..head] == before[..head];
  }

  /** A member that filled its page: the page is linked to a fresh one and the state moves on to i + 1 there. */
  lemma StepNewPage(pages: seq<DataPage>, before: seq<DataPage>, written: seq<DataPage>, after: seq<DataPage>, head: nat, last: nat, l: Layout, members: seq<Member>, i: nat)
    requires Valid(l) && i < |members| && |members[i].vec| == l.dimension
    requires SlotOf(i, l.capacity) + 1 == l.capacity
    requires Building(pages, before, head, last, l, members, i)
    requires written == before[last := WriteMember(before[last], l, SlotOf(i, l.capacity), members[i])]
    requires after == written[last := written[last].(nextPage := Some(|written|))] + [NewDataPage()]
    ensures Building(pages, after, head, |after| - 1, l, members, i + 1)
  {
    PageSlotStep(i, l.capacity);
    Written(before, written, head, last, l, members, i);
    assert written[..head] == pages by {
      assert forall q | 0 <= q < head :: written[q] == before[q];
    }
    Relinked(written, after, head, l, members, i + 1);
  }

  /** After writing member i into its slot of page `last`, members 0 .. i are all in place. */
  lemma Written(before: seq<DataPage>, after: seq<DataPage>, head: nat, last: nat, l: Layout, members: seq<Member>, i: nat)
    requires Valid(l) && DataArena(before) && i < |members| && |members[i].vec| == l.dimension
    requires last == head + PageOf(i, l.capacity) && |before| == last + 1
    requires i == 0 || PageOf(i - 1, l.capacity) <= PageOf(i, l.capacity)
    requires Placed(before, head, l, members, i) && Linked(before, head, last)
    requires after == before[last := WriteMember(before[last], l, SlotOf(i, l.capacity), members[i])]
    ensures DataArena(after) && Linked(after, head, last)
    ensures Placed(after, head, l, members, i + 1)
  {
    WrittenFrame(before, after, head, last, l, members, i);
    forall k | 0 <= k < i + 1
      ensures MemberAt(after, head, l, members, k)
    {
      WrittenMember(before, after, head, last, l, members, i, k);
    }
  }

  lemma WrittenFrame(before: seq<DataPage>, after: seq<DataPage>, head: nat, last: nat, l: Layout, members: seq<Member>, i: nat)
    requires Valid(l) && DataArena(before) && i < |members| && |members[i].vec| == l.dimension
    requires last == head + PageOf(i, l.capacity) && |before| == last + 1
    requires Linked(before, head, last)
    requires after == before[last := WriteMember(before[last], l, SlotOf(i, l.capacity), members[i])]
    ensures DataArena(after) && Linked(after, head, last)
  {
    assert forall q | 0 <= q < |after| :: after[q].nextPage == before[q].nextPage;
  }

  lemma WrittenMember(before: seq<DataPage>, after: seq<DataPage>, head: nat, last: nat, l: Layout, members: seq<Member>, i: nat, k: nat)
    requires Valid(l) && DataArena(before) && i < |members| && |members[i].vec| == l.dimension
    requires last == head + PageOf(i, l.capacity) && |before| == last + 1
    requires i == 0 || PageOf(i - 1, l.capacity) <= PageOf(i, l.capacity)
    requires Placed(before, head, l, members, i)
    requires after == before[last := WriteMember(before[last], l, SlotOf(i, l.capacity), members[i])]
    requires k <= i
    ensures DataArena(after)
    ensures MemberAt(after, head, l, members, k)
  {
    if k == i {
      WriteMemberEffect(before[last], l, SlotOf(i, l.capacity), members[i]);
    } else {
      WrittenEarlier(before, after, head, last, l, members, i, k);
    }
  }

  /** Writing member i leaves every earlier member where it was. */
  lemma WrittenEarlier(before: seq<DataPage>, after: seq<DataPage>, head: nat, last: nat, l: Layout, members: seq<Member>, i: nat, k: nat)
    requires Valid(l) && DataArena(before) && i < |members| && |members[i].vec| == l.dimension
    requires last == head + PageOf(i, l.capacity) && |before| == last + 1
    requires i == 0 || PageOf(i - 1, l.capacity) <= PageOf(i, l.capacity)
    requires Placed(before, head, l, members, i)
    requires after == before[last := WriteMember(before[last], l, SlotOf(i, l.capacity), members[i])]
    requires k < i
    ensures DataArena(after)
    ensures MemberAt(after, head, l, members, k)
  {
    var cap := l.capacity;
    WriteMemberEffect(before[last], l, SlotOf(i, cap), members[i]);
    PageOfMono(k, i - 1, cap);
    assert MemberAt(before, head, l, members, k);
    if PageOf(k, cap) == PageOf(i, cap) {
      PageSlotSplit(k, cap);
      PageSlotSplit(i, cap);
      assert SlotOf(k, cap) != SlotOf(i, cap);
    }
  }

  /** Linking the last page to a fresh one keeps every member where it was and extends the chain. */
  lemma Relinked(linked: seq<DataPage>, after: seq<DataPage>, head: nat, l: Layout, members: seq<Member>, i: nat)
    requires Valid(l) && DataArena(linked) && 1 <= i <= |members|
    requires head <= |linked| - 1 == head + PageOf(i - 1, l.capacity)
    requires Placed(linked, head, l, members, i) && Linked(linked, head, |linked| - 1)
    requires after == linked[|linked| - 1 := linked[|linked| - 1].(nextPage := Some(|linked|))] + [NewDataPage()]
    ensures DataArena(after) && Linked(after, head, |linked|)
    ensures after[..|linked| - 1] == linked[..|linked| - 1]
    ensures Placed(after, head, l, members, i)
  {
    RelinkedFrame(linked, after, head);
    forall k | 0 <= k < i
      ensures MemberAt(after, head, l, members, k)
    {
      PageOfMono(k, i - 1, l.capacity);
      assert MemberAt(linked, head, l, members, k);
      assert after[head + PageOf(k, l.capacity)].tuples == linked[head + PageOf(k, l.capacity)].tuples;
    }
  }

  lemma RelinkedFrame(linked: seq<DataPage>, after: seq<DataPage>, head: nat)
    requires DataArena(linked) && head <= |linked| - 1 && Linked(linked, head, |linked| - 1)
    requires after == linked[|linked| - 1 := linked[|linked| - 1].(nextPage := Some(|linked|))] + [NewDataPage()]
    ensures DataArena(after) && Linked(after, head, |linked|)
    ensures after[..|linked| - 1] == linked[..|linked| - 1]
  {
  }

  /** The members of the first `count` slots of a page, in slot order. */
  function PageMembers(page: DataPage, l: Layout, count: nat): (r: seq<Member>)
    requires Valid(l) && |page.tuples| == DataTuples && count <= l.capacity
    ensures |r| == count
  {
    seq(count, s requires 0 <= s < count => StoredMember(page, l, s))
  }

  function Min(a: nat, b: nat): nat
  {
    if a <= b then a else b
  }

  /**
    The search's read-back of a cluster: from page `page`, each page gives
    its first min(capacity, left) members and `left` falls by that many,
    until the chain ends.
  */
  function Walk(pages: seq<DataPage>, l: Layout, page: Option<nat>, left: nat): (r: seq<Member>)
    requires Valid(l) && DataArena(pages)
    requires page.Some? ==> page.value < |pages|
    ensures |r| <= left
    ensures forall i | 0 <= i < |r| :: |r[i].vec| == l.dimension
    decreases if page.Some? then |pages| - page.value else 0
  {
    match page
    case None => []
    case Some(p) =>
      var count := Min(l.capacity, left);
      PageMembers(pages[p], l, count) + Walk(pages, l, pages[p].nextPage, left - count)
  }

  /** Round trip: walking a laid-out chain for |members| vectors yields exactly the members, in order. */
  lemma WalkLaidOutChain(pages: seq<DataPage>, base: nat, l: Layout, members: seq<Member>)
    requires Valid(l) && DataArena(pages)
    requires ChainLaidOut(pages, base, l, members)
    ensures base < |pages|
    ensures Walk(pages, l, Some(base), |members|) == members
  {
    var n := ChainLength(|members|, l.capacity);
    forall q | 0 <= q < n
      ensures PageRead(pages, base, l, members, q)
    {
      ChainPageRead(pages, base, l, members, q);
    }
    WalkLaidOutFrom(pages, base, l, members, 0);
  }

  lemma ChainPageRead(pages: seq<DataPage>, base: nat, l: Layout, members: seq<Member>, q: nat)
    requires Valid(l) && DataArena(pages)
    requires ChainLaidOut(pages, base, l, members)
    requires q < ChainLength(|members|, l.capacity)
    ensures PageRead(pages, base, l, members, q)
  {
    ChainPageBounds(pages, base, l, members, q);
    var start := Mul(q, l.capacity);
    ChainPage(pages, base, l, members, q, start, Min(l.capacity, |members| - start));
  }

  /**
    What the walk finds at page q of a laid-out chain: the page is in the
    arena, links to page q + 1 unless it is the last, and holds the next
    min(capacity, left) members, the last page holding all that is left.
  */
  predicate PageRead(pages: seq<DataPage>, base: nat, l: Layout, members: seq<Member>, q: nat)
    requires Valid(l) && DataArena(pages)
  {
    var n := ChainLength(|members|, l.capacity);
    var start := Mul(q, l.capacity);
    && base + q < |pages| && start <= |members|
    && (q + 1 < n ==> pages[base + q].nextPage == Some(base + q + 1) && Mul(q + 1, l.capacity) == start + l.capacity <= |members|)
    && (q + 1 == n ==> pages[base + q].nextPage == None && |members| - start < l.capacity)
    && PageMembers(pages[base + q], l, Min(l.capacity, |members| - start))
       == members[start .. start + Min(l.capacity, |members| - start)]
  }

  lemma {:induction false} WalkLaidOutFrom(pages: seq<DataPage>, base: nat, l: Layout, members: seq<Member>, q: nat)
    requires Valid(l) && DataArena(pages)
    requires forall j | 0 <= j < ChainLength(|members|, l.capacity) :: PageRead(pages, base, l, members, j)
    requires q < ChainLength(|members|, l.capacity)
    ensures base + q < |pages| && Mul(q, l.capacity) <= |members|
    ensures Walk(pages, l, Some(base + q), |members| - Mul(q, l.capacity)) == members[Mul(q, l.capacity) ..]
    decreases ChainLength(|members|, l.capacity) - q
  {
    if q + 1 < ChainLength(|members|, l.capacity) {
      WalkLaidOutFrom(pages, base, l, members, q + 1);
    }
    WalkPage(pages, base, l, members, q);
  }

  /** One step of the walk over a laid-out chain: page q's members, then the rest of the chain. */
  lemma WalkPage(pages: seq<DataPage>, base: nat, l: Layout, members: seq<Member>, q: nat)
    requires Valid(l) && DataArena(pages)
    requires q < ChainLength(|members|, l.capacity) && PageRead(pages, base, l, members, q)
    requires q + 1 < ChainLength(|members|, l.capacity) ==>
      Walk(pages, l, Some(base + q + 1), |members| - Mul(q + 1, l.capacity)) == members[Mul(q + 1, l.capacity) ..]
    ensures base + q < |pages| && Mul(q, l.capacity) <= |members|
    ensures Walk(pages, l, Some(base + q), |members| - Mul(q, l.capacity)) == members[Mul(q, l.capacity) ..]
  {
    var start := Mul(q, l.capacity);
    if q + 1 == ChainLength(|members|, l.capacity) {
      WalkLastPage(pages, l, base + q, members, start);
    } else {
      WalkMiddlePage(pages, l, base + q, members, start);
    }
  }

  /** The last page of a chain holds everything that is left, and the walk ends there. */
  lemma WalkLastPage(pages: seq<DataPage>, l: Layout, p: nat, members: seq<Member>, start: nat)
    requires Valid(l) && DataArena(pages) && p < |pages| && pages[p].nextPage == None
    requires start <= |members| && |members| - start < l.capacity
    requires PageMembers(pages[p], l, |members| - start) == members[start .. |members|]
    ensures Walk(pages, l, Some(p), |members| - start) == members[start ..]
  {
    WalkStep(pages, l, p, |members| - start);
  }

  /** A full page links to the next one, where the walk goes on with capacity fewer members left. */
  lemma WalkMiddlePage(pages: seq<DataPage>, l: Layout, p: nat, members: seq<Member>, start: nat)
    requires Valid(l) && DataArena(pages) && p < |pages| && pages[p].nextPage == Some(p + 1)
    requires start + l.capacity <= |members|
    requires PageMembers(pages[p], l, l.capacity) == members[start .. start + l.capacity]
    requires Walk(pages, l, Some(p + 1), |members| - (start + l.capacity)) == members[start + l.capacity ..]
    ensures Walk(pages, l, Some(p), |members| - start) == members[start ..]
  {
    var left := |members| - start;
    assert Min(l.capacity, left) == l.capacity;
    WalkStep(pages, l, p, left);
    Glue(Walk(pages, l, Some(p), left), PageMembers(pages[p], l, l.capacity),
         Walk(pages, l, Some(p + 1), left - l.capacity), members, start, l.capacity);
  }

  /** A concatenation of two consecutive slices of s is the slice they span. */
  lemma Glue<T>(x: seq<T>, a: seq<T>, b: seq<T>, s: seq<T>, start: nat, count: nat)
    requires start + count <= |s|
    requires x == a + b && a == s[start .. start + count] && b == s[start + count ..]
    ensures x == s[start ..]
  {
    assert s[start ..] == s[start .. start + count] + s[start + count ..];
  }

  /** One page of a walk: its members, then the walk from the next page for what is left. */
  lemma WalkStep(pages: seq<DataPage>, l: Layout, p: nat, left: nat)
    requires Valid(l) && DataArena(pages) && p < |pages|
    ensures Walk(pages, l, Some(p), left)
      == PageMembers(pages[p], l, Min(l.capacity, left)) + Walk(pages, l, pages[p].nextPage, left - Min(l.capacity, left))
  {
  }

  /**
    Page q of a laid-out chain lies in the arena; every page but the last
    is full and links to the next, and the last holds what is left.
  */
  lemma ChainPageBounds(pages: seq<DataPage>, base: nat, l: Layout, members: seq<Member>, q: nat)
    requires Valid(l) && DataArena(pages)
    requires ChainLaidOut(pages, base, l, members)
    requires q < ChainLength(|members|, l.capacity)
    ensures base + q < |pages| && Mul(q, l.capacity) <= |members|
    ensures q + 1 < ChainLength(|members|, l.capacity) ==>
      pages[base + q].nextPage == Some(base + q + 1) && Mul(q + 1, l.capacity) <= |members|
    ensures q + 1 == ChainLength(|members|, l.capacity) ==>
      pages[base + q].nextPage == None && |members| - Mul(q, l.capacity) < l.capacity
  {
    var cap := l.capacity;
    var n := ChainLength(|members|, cap);
    ChainLengthBounds(|members|, cap);
    MulMono(q, n - 1, cap);
    if q + 1 < n {
      MulMono(q + 1, n - 1, cap);
    }
  }

  /** Page q of a laid-out chain holds `count` members from member `start` = q * cap on. */
  lemma ChainPage(pages: seq<DataPage>, base: nat, l: Layout, members: seq<Member>, q: nat, start: nat, count: nat)
    requires Valid(l) && DataArena(pages)
    requires ChainLaidOut(pages, base, l, members)
    requires base + q < |pages| && start == Mul(q, l.capacity) && start <= |members|
    requires count == Min(l.capacity, |members| - start)
    ensures PageMembers(pages[base + q], l, count) == members[start .. start + count]
  {
    var page := pages[base + q];
    forall s | 0 <= s < count
      ensures StoredMember(page, l, s) == members[start + s]
    {
      ChainSlot(pages, base, l, members, q, s);
    }
    PageMembersRange(page, l, members, start, count);
  }

  lemma PageMembersRange(page: DataPage, l: Layout, members: seq<Member>, start: nat, count: nat)
    requires Valid(l) && |page.tuples| == DataTuples && count <= l.capacity && start + count <= |members|
    requires forall s | 0 <= s < count :: StoredMember(page, l, s) == members[start + s]
    ensures PageMembers(page, l, count) == members[start .. start + count]
  {
  }

  /** Slot s of page q of a laid-out chain holds member q * cap + s. */
  lemma ChainSlot(pages: seq<DataPage>, base: nat, l: Layout, members: seq<Member>, q: nat, s: nat)
    requires Valid(l) && DataArena(pages)
    requires ChainLaidOut(pages, base, l, members)
    requires s < l.capacity && Mul(q, l.capacity) + s < |members|
    ensures base + q < |pages|
    ensures Holds(pages[base + q], l, s, members[Mul(q, l.capacity) + s])
  {
    PageSlotOf(q, s, l.capacity);
    assert MemberAt(pages, base, l, members, Mul(q, l.capacity) + s);
  }

  /** Appending pages to the arena does not change any walk that starts in the old part. */
  lemma {:induction false} WalkExtend(pages: seq<DataPage>, pages': seq<DataPage>, l: Layout, page: Option<nat>, left: nat)
    requires Valid(l) && DataArena(pages) && DataArena(pages')
    requires |pages| <= |pages'| && pages'[..|pages|] == pages
    requires page.Some? ==> page.value < |pages|
    ensures Walk(pages', l, page, left) == Walk(pages, l, page, left)
    decreases if page.Some? then |pages| - page.value else 0
  {
    if page.Some? {
      var p := page.value;
      assert pages'[p] == pages[p];
      var count := Min(l.capacity, left);
      WalkExtend(pages, pages', l, pages[p].nextPage, left - count);
    }
  }
}
