/** Data spans and their metadata spans.

    When the central free list takes a span from the page heap for small objects, it takes a second
    span to hold the objects' metadata and enters it in the meta-pagetable; when the data span
    goes back, the entry is read to find the metadata span, cleared, and both are returned.
    This module runs those two steps on the page heap and the meta-pagetable themselves.
 */
module SpanMetadata {
  import opened Arithmetic
  import opened Basics
  import opened Spans
  import opened PageHeaps
  import opened MetaPagetable
  import opened SizeMap

  const ADDRESS_LIMIT := 0x1_0000_0000_0000  // kAddressBits is 48

  /** The metadata span of a data span, and the size class the data span was cut for. */
  datatype Pairing = Pairing(meta: SpanId, size: nat)

  type Pairs = map<SpanId, Pairing>

  function HeapAddress(page: nat): nat { page * PAGE_SIZE }

  /** The data span as a range of 4 KiB pages of the meta-pagetable. */
  ghost function RegionFor(data: Span, meta: Span, size: nat): Region
    requires data.start >= 0 && meta.start >= 0
  {
    Region(HeapAddress(data.start), 2 * data.length, HeapAddress(meta.start), AlignmentBits(size))
  }

  /** One pairing is sound: both spans are in use, the meta-pagetable leads from one into the other,
      and the metadata span has room for every slot. */
  ghost predicate Paired(spans: Store, entries: PageTable, bytes: nat, s: SpanId, p: Pairing) {
    && s in spans && spans[s].location == IN_USE && spans[s].sizeclass > 0 && spans[s].start > 0
    && p.meta in spans && spans[p.meta].location == IN_USE && spans[p.meta].sizeclass == 0 && spans[p.meta].start > 0
    && p.size > 0 && Aligned(p.size)
    && Configured(entries, bytes, RegionFor(spans[s], spans[p.meta], p.size))
    && Roomy(spans[s].length, spans[p.meta].length, p.size, bytes)
  }

  ghost predicate Roomy(pages: nat, metaPages: nat, size: nat, bytes: nat) {
    Slots(Shr(HeapAddress(pages), AlignmentBits(size)), bytes) <= HeapAddress(metaPages)
  }

  ghost predicate CoversEntry(s: Span, page: nat) { 2 * s.start <= page < 2 * s.Limit() }

  ghost predicate InData(spans: Store, pairs: Pairs, page: nat) {
    exists s :: s in pairs && s in spans && CoversEntry(spans[s], page)
  }

  /** The pairing is one to one, and outside paired data spans every entry is zero. */
  ghost predicate Linked(spans: Store, entries: PageTable, bytes: nat, pairs: Pairs) {
    && (forall s | s in pairs :: Paired(spans, entries, bytes, s, pairs[s]))
    && (forall s, t | s in pairs && t in pairs && pairs[s].meta == pairs[t].meta :: s == t)
    && (forall page: nat | EntryOf(entries, page) != 0 :: InData(spans, pairs, page))
  }

  // ----- Room for the metadata

  /** The number of metadata pages asked for: one slot of `bytes` for each granule, rounded up. */
  function MetaPages(pages: nat, size: nat, bytes: nat): int {
    Shr(pages * bytes + Pow2(AlignmentBits(size)) - 1, AlignmentBits(size))
  }

  lemma RoomSuffices(pages: nat, d: nat, e: nat, bytes: nat)
    requires d > 0 && e > 0
    ensures pages * (e * d) / d * bytes <= (pages * bytes + d - 1) / d * (e * d)
    ensures pages > 0 && bytes > 0 ==> (pages * bytes + d - 1) / d > 0
    ensures pages > 0 && bytes > 0 ==> pages * (e * d) / d * bytes > ((pages * bytes + d - 1) / d - 1) * (e * d)
  {
    var n := (pages * bytes + d - 1) / d;
    Quotient(pages * bytes + d - 1, d);
    assert n * d >= pages * bytes;
    FineDivision(pages, 0, e, d);
    Associative(pages, e, d);
    DivModUnique(pages * (e * d), d, pages * e, 0);
    assert pages * e * bytes == pages * bytes * e;
    assert n * (e * d) == n * d * e by { Associative(n, d, e); assert e * d == d * e; }
    Scale(pages * bytes, n * d, e);
    if pages > 0 && bytes > 0 {
      assert pages * bytes > 0;
      if n <= 0 { Scale(n, 0, d); }
      assert (n - 1) * d < pages * bytes;
      assert (n - 1) * (e * d) == (n - 1) * d * e by { Associative(n - 1, d, e); assert e * d == d * e; }
      Scale((n - 1) * d + 1, pages * bytes, e);
    }
  }

  /** So many pages have room for the metadata, and one less would not. */
  lemma MetaPagesSuffice(pages: nat, size: nat, bytes: nat)
    ensures MetaPages(pages, size, bytes) >= 0 && Roomy(pages, MetaPages(pages, size, bytes), size, bytes)
    ensures pages > 0 && bytes > 0 ==> MetaPages(pages, size, bytes) > 0 && !Roomy(pages, MetaPages(pages, size, bytes) - 1, size, bytes)
  {
    AlignmentIsPowerOfTwo(size);
    Powers();
    var a := AlignmentBits(size);
    Pow2Sum(13 - a, a);
    hide Pow2, AlignmentBits, AlignmentForSize;
    RoomSuffices(pages, Pow2(a), Pow2(13 - a), bytes);
  }

  // ----- Keeping the links

  ghost predicate Keeps(was: Store, now: Store, pairs: Pairs) {
    forall s | s in pairs :: (s in was ==> s in now && now[s] == was[s]) && (pairs[s].meta in was ==> pairs[s].meta in now && now[pairs[s].meta] == was[pairs[s].meta])
  }

  /** The page heap's promise not to touch other in-use spans keeps every pairing. */
  lemma SameInUseKeeps(was: Store, now: Store, entries: PageTable, bytes: nat, pairs: Pairs, except: set<SpanId>)
    requires Linked(was, entries, bytes, pairs) && SameInUse(was, now, except)
    requires forall s | s in pairs :: s !in except && pairs[s].meta !in except
    ensures Keeps(was, now, pairs)
  {
    forall s | s in pairs ensures s in now && now[s] == was[s] && pairs[s].meta in now && now[pairs[s].meta] == was[pairs[s].meta] {
      assert Paired(was, entries, bytes, s, pairs[s]);
    }
  }

  lemma KeepsLinked(was: Store, now: Store, entries: PageTable, bytes: nat, pairs: Pairs)
    requires Linked(was, entries, bytes, pairs) && Keeps(was, now, pairs)
    ensures Linked(now, entries, bytes, pairs)
  {
    forall s | s in pairs ensures Paired(now, entries, bytes, s, pairs[s]) && now[s] == was[s] {
      assert Paired(was, entries, bytes, s, pairs[s]);
    }
    forall page: nat | EntryOf(entries, page) != 0 ensures InData(now, pairs, page) {
      assert InData(was, pairs, page);
      var s :| s in pairs && s in was && CoversEntry(was[s], page);
      assert CoversEntry(now[s], page);
    }
  }

  /** Entries written for one span leave the pages of a span apart from it alone. */
  lemma OtherConfigured(was: PageTable, now: PageTable, bytes: nat, r: Region, s: Span, t: Span, metaptr: nat, alignment: nat)
    requires s.start > 0 && t.start > 0 && Assigned(was, now, 2 * s.start, 2 * s.length, metaptr, alignment, bytes)
    requires Apart(s, t) && r.start / PAGE == 2 * t.start && r.pages == 2 * t.length && Configured(was, bytes, r)
    ensures Configured(now, bytes, r)
  { }

  lemma ZeroEntry(bytes: nat, i: nat)
    ensures PageEntry(0, 0, bytes, i) == 0
  { }

  lemma RegionPages(data: Span, meta: Span, size: nat)
    requires data.start > 0 && meta.start > 0
    ensures RegionFor(data, meta, size).start / PAGE == 2 * data.start && RegionFor(data, meta, size).start % PAGE == 0
  { }

  /** Configuring a new pair leaves the others linked. */
  lemma LinkedAdd(spans: Store, was: PageTable, now: PageTable, bytes: nat, pairs: Pairs, s: SpanId, p: Pairing)
    requires Linked(spans, was, bytes, pairs) && s !in pairs && forall t | t in pairs :: pairs[t].meta != p.meta
    requires s in spans && spans[s].start > 0 && forall t | t in pairs && t in spans :: Apart(spans[s], spans[t])
    requires p.meta in spans && spans[p.meta].start > 0
    requires Assigned(was, now, 2 * spans[s].start, 2 * spans[s].length, HeapAddress(spans[p.meta].start), AlignmentBits(p.size), bytes)
    requires Paired(spans, now, bytes, s, p)
    ensures Linked(spans, now, bytes, pairs[s := p])
  {
    hide Configured, Roomy, PageEntry, Aligned;
    forall t | t in pairs ensures Paired(spans, now, bytes, t, pairs[t]) {
      assert Paired(spans, was, bytes, t, pairs[t]);
      RegionPages(spans[t], spans[pairs[t].meta], pairs[t].size);
      OtherConfigured(was, now, bytes, RegionFor(spans[t], spans[pairs[t].meta], pairs[t].size), spans[s], spans[t], HeapAddress(spans[p.meta].start), AlignmentBits(p.size));
    }
    forall page: nat | EntryOf(now, page) != 0 ensures InData(spans, pairs[s := p], page) {
      if CoversEntry(spans[s], page) {
        assert s in pairs[s := p];
      } else {
        assert InData(spans, pairs, page);
        var t :| t in pairs && t in spans && CoversEntry(spans[t], page);
        assert t in pairs[s := p] && CoversEntry(spans[t], page);
      }
    }
  }

  /** Clearing the entries of one data span unlinks exactly it. */
  lemma LinkedRemove(spans: Store, was: PageTable, now: PageTable, bytes: nat, pairs: Pairs, s: SpanId)
    requires Linked(spans, was, bytes, pairs) && s in pairs && s in spans && spans[s].start > 0
    requires forall t | t in pairs && t in spans && t != s :: Apart(spans[s], spans[t])
    requires Assigned(was, now, 2 * spans[s].start, 2 * spans[s].length, 0, 0, bytes)
    ensures Linked(spans, now, bytes, pairs - {s})
    ensures forall page: nat | CoversEntry(spans[s], page) :: EntryOf(now, page) == 0
  {
    hide Configured, Roomy, PageEntry, Aligned;
    forall t | t in pairs - {s} ensures Paired(spans, now, bytes, t, pairs[t]) {
      assert Paired(spans, was, bytes, t, pairs[t]);
      RegionPages(spans[t], spans[pairs[t].meta], pairs[t].size);
      OtherConfigured(was, now, bytes, RegionFor(spans[t], spans[pairs[t].meta], pairs[t].size), spans[s], spans[t], 0, 0);
    }
    forall page: nat ensures CoversEntry(spans[s], page) ==> EntryOf(now, page) == 0
                     ensures EntryOf(now, page) != 0 ==> InData(spans, pairs - {s}, page) {
      if CoversEntry(spans[s], page) {
        ZeroEntry(bytes, page - 2 * spans[s].start);
      } else if EntryOf(now, page) != 0 {
        assert InData(spans, pairs, page);
        var t :| t in pairs && t in spans && CoversEntry(spans[t], page);
        assert t in pairs - {s} && CoversEntry(spans[t], page);
      }
    }
  }

  // ----- What the links give

  lemma PairFits(data: Span, meta: Span, size: nat, bytes: nat)
    requires data.start > 0 && meta.start > 0 && 0 < bytes <= 16 && Roomy(data.length, meta.length, size, bytes)
    requires HeapAddress(meta.start + meta.length) <= ADDRESS_LIMIT
    ensures RegionFor(data, meta, size).Fits(bytes)
  {
    AlignmentIsPowerOfTwo(size);
    hide AlignmentBits, AlignmentForSize, Shr;
    SlotsSum(Shr(HeapAddress(data.length), AlignmentBits(size)), 1, bytes);
    OneSlot(bytes);
    assert 2 * data.length * PAGE == HeapAddress(data.length);
  }

  /** The first entry of a data span, shifted right by 8, is the start of its metadata span. */
  lemma FirstEntryRecovers(spans: Store, entries: PageTable, bytes: nat, s: SpanId, p: Pairing)
    requires Paired(spans, entries, bytes, s, p) && 0 < bytes <= 16 && spans[s].length > 0
    requires HeapAddress(spans[p.meta].start + spans[p.meta].length) <= ADDRESS_LIMIT
    ensures Base(EntryOf(entries, 2 * spans[s].start)) == HeapAddress(spans[p.meta].start)
  {
    var r := RegionFor(spans[s], spans[p.meta], p.size);
    PairFits(spans[s], spans[p.meta], p.size, bytes);
    RegionPages(spans[s], spans[p.meta], p.size);
    EntryUnpacks(entries, bytes, r, r.start);
    assert Slots(Shr(0, r.alignment), bytes) == 0 by { ZeroSlots(r.alignment, bytes); }
  }

  lemma ZeroSlots(a: nat, bytes: nat)
    ensures Shr(0, a) == 0 && Slots(Shr(0, a), bytes) == 0
  {
    DivModUnique(0, Pow2(a), 0, 0);
  }

  /** The bytes of metadata of the `i`-th object of a paired span. */
  ghost function ObjectSlot(entries: PageTable, bytes: nat, data: Span, size: nat, i: nat): int
    requires data.start >= 0
  {
    SlotOf(entries, bytes, HeapAddress(data.start) + i * size)
  }

  ghost function ObjectBytes(size: nat, bytes: nat): int {
    Slots(MetaSize(size, AlignmentBits(size)), bytes)
  }

  /** In granules: objects start and end on granule boundaries, so their slots tile. */
  lemma ObjectStretch(data: Span, meta: Span, size: nat, bytes: nat, i: nat)
    requires data.start > 0 && meta.start > 0 && Aligned(size) && Roomy(data.length, meta.length, size, bytes)
    requires (i + 1) * size <= HeapAddress(data.length)
    ensures RegionFor(data, meta, size).Flat(bytes, HeapAddress(data.start) + i * size) == HeapAddress(meta.start) + i * ObjectBytes(size, bytes)
    ensures 0 <= ObjectBytes(size, bytes) && (i + 1) * ObjectBytes(size, bytes) <= HeapAddress(meta.length)
  {
    var d := Pow2(AlignmentBits(size));
    AlignmentIsPowerOfTwo(size);
    hide Pow2, AlignmentForSize, AlignmentBits, HeapAddress, Aligned;
    assert size % d == 0 by { AlignedSize(size); }
    WholeGranules(size, d, i, HeapAddress(data.length));
    var n := size / d;
    assert MetaSize(size, AlignmentBits(size)) == n && Shr(i * size, AlignmentBits(size)) == i * n;
    StretchSlots(i, n, bytes);
    StretchSlots(i + 1, n, bytes);
    SlotsMonotone((i + 1) * n, Shr(HeapAddress(data.length), AlignmentBits(size)), bytes);
    hide Slots;
    Quotient(size, d);
    assert Slots(n, bytes) >= 0;
  }

  lemma AlignedSize(size: nat)
    requires Aligned(size)
    ensures size % Pow2(AlignmentBits(size)) == 0
  {
    AlignmentIsPowerOfTwo(size);
  }

  lemma StretchSlots(i: nat, n: nat, bytes: nat)
    ensures Slots(i * n, bytes) == i * Slots(n, bytes)
  {
    Associative(i, n, bytes);
  }

  lemma SlotsMonotone(x: int, y: int, bytes: nat)
    requires x <= y
    ensures Slots(x, bytes) <= Slots(y, bytes)
  {
    Scale(x, y, bytes);
  }

  /** The metadata of the `i`-th object is the `i`-th stretch of the metadata span, and inside it. */
  lemma ObjectSlots(spans: Store, entries: PageTable, bytes: nat, s: SpanId, p: Pairing, i: nat)
    requires Paired(spans, entries, bytes, s, p) && 0 < bytes <= 16
    requires HeapAddress(spans[p.meta].start + spans[p.meta].length) <= ADDRESS_LIMIT
    requires (i + 1) * p.size <= HeapAddress(spans[s].length)
    ensures ObjectSlot(entries, bytes, spans[s], p.size, i) == HeapAddress(spans[p.meta].start) + i * ObjectBytes(p.size, bytes)
    ensures 0 <= ObjectBytes(p.size, bytes) && (i + 1) * ObjectBytes(p.size, bytes) <= HeapAddress(spans[p.meta].length)
  {
    hide Configured, Pow2, Shr, AlignmentForSize, AlignmentBits, SlotOf, Roomy, ObjectBytes, Aligned;
    var data, meta := spans[s], spans[p.meta];
    ObjectInside(data, meta, p.size, i);
    PairFits(data, meta, p.size, bytes);
    ObjectStretch(data, meta, p.size, bytes, i);
    PackedIsFlat(entries, bytes, RegionFor(data, meta, p.size), HeapAddress(data.start) + i * p.size);
  }

  lemma ObjectInside(data: Span, meta: Span, size: nat, i: nat)
    requires data.start > 0 && meta.start > 0 && size > 0 && (i + 1) * size <= HeapAddress(data.length)
    ensures RegionFor(data, meta, size).Has(HeapAddress(data.start) + i * size)
  {
    assert i * size + size == (i + 1) * size;
    Scale(0, i, size);
  }

  lemma WholeGranules(size: nat, d: nat, i: nat, limit: nat)
    requires d > 0 && size % d == 0 && (i + 1) * size <= limit
    ensures i * size / d == i * (size / d) && (size + d - 1) / d == size / d && (i + 1) * (size / d) <= limit / d
  {
    var n := size / d;
    Quotient(size, d);
    Associative(i, n, d);
    DivModUnique(i * size, d, i * n, 0);
    DivModUnique(size + d - 1, d, n, d - 1);
    Associative(i + 1, n, d);
    Quotient(limit, d);
    assert (i + 1) * n * d <= limit;
    ProductAtLeast((i + 1) * n - limit / d, d);
    assert ((i + 1) * n - limit / d) * d == (i + 1) * n * d - limit / d * d;
  }

  /** No two heap objects, of the same span or of different ones, share a byte of metadata. */
  lemma ObjectsDoNotShare(spans: Store, pagemap: PageMap, owner: Owner, entries: PageTable, bytes: nat, pairs: Pairs,
                          s: SpanId, i: nat, t: SpanId, j: nat)
    requires Layout(spans, pagemap, owner) && Linked(spans, entries, bytes, pairs) && 0 < bytes <= 16
    requires forall id | id in spans && spans[id].start > 0 :: HeapAddress(spans[id].start + spans[id].length) <= ADDRESS_LIMIT
    requires s in pairs && t in pairs && (s != t || i != j)
    requires s in spans && t in spans && (i + 1) * pairs[s].size <= HeapAddress(spans[s].length) && (j + 1) * pairs[t].size <= HeapAddress(spans[t].length)
    requires spans[s].start > 0 && spans[t].start > 0
    ensures var x, y := ObjectSlot(entries, bytes, spans[s], pairs[s].size, i), ObjectSlot(entries, bytes, spans[t], pairs[t].size, j);
            x + ObjectBytes(pairs[s].size, bytes) <= y || y + ObjectBytes(pairs[t].size, bytes) <= x
  {
    hide Layout, Configured, Roomy, ObjectSlot, ObjectBytes, Aligned, HeapAddress;
    assert Paired(spans, entries, bytes, s, pairs[s]) && Paired(spans, entries, bytes, t, pairs[t]);
    hide Linked;
    ObjectSlots(spans, entries, bytes, s, pairs[s], i);
    ObjectSlots(spans, entries, bytes, t, pairs[t], j);
    if s != t {
      SpansApart(spans, pagemap, owner, pairs[s].meta, pairs[t].meta);
      MetaApart(spans[pairs[s].meta], spans[pairs[t].meta], i, ObjectBytes(pairs[s].size, bytes), j, ObjectBytes(pairs[t].size, bytes));
    } else {
      StretchesApart(i, j, ObjectBytes(pairs[s].size, bytes));
    }
  }

  lemma StretchesApart(i: nat, j: nat, n: nat)
    requires i != j
    ensures i * n + n <= j * n || j * n + n <= i * n
  {
    if i < j { Scale(i + 1, j, n); assert (i + 1) * n == i * n + n; } else { Scale(j + 1, i, n); assert (j + 1) * n == j * n + n; }
  }

  lemma MetaApart(a: Span, b: Span, i: nat, m: nat, j: nat, n: nat)
    requires Apart(a, b) && a.start > 0 && b.start > 0
    requires (i + 1) * m <= HeapAddress(a.length) && (j + 1) * n <= HeapAddress(b.length)
    ensures HeapAddress(a.start) + i * m + m <= HeapAddress(b.start) + j * n || HeapAddress(b.start) + j * n + n <= HeapAddress(a.start) + i * m
  {
    assert (i + 1) * m == i * m + m && (j + 1) * n == j * n + n;
    Scale(0, i, m);
    Scale(0, j, n);
  }

  // ----- Taking and returning pairs of spans

  /** Entries and pairs stand as they are while the page heap is at work. */
  lemma Undisturbed(was: Store, now: Store, entries: PageTable, bytes: nat, pairs: Pairs, except: set<SpanId>)
    requires Linked(was, entries, bytes, pairs) && SameInUse(was, now, except)
    requires forall s | s in pairs :: s !in except && pairs[s].meta !in except
    ensures Linked(now, entries, bytes, pairs)
  {
    SameInUseKeeps(was, now, entries, bytes, pairs, except);
    KeepsLinked(was, now, entries, bytes, pairs);
  }

  /** A span the page heap hands out is in no pair. */
  lemma FreshSpan(was: Store, entries: PageTable, bytes: nat, pairs: Pairs, id: SpanId)
    requires Linked(was, entries, bytes, pairs) && (id in was ==> was[id].Free())
    ensures forall s | s in pairs :: s != id && pairs[s].meta != id
  {
    forall s | s in pairs ensures s != id && pairs[s].meta != id {
      assert Paired(was, entries, bytes, s, pairs[s]);
    }
  }

  /** What taking a pair leaves: two new in-use spans, all others as before. */
  ghost predicate TookPair(was: Store, now: Store, s: SpanId, m: SpanId, pages: nat, sizeclass: nat) {
    && s in now && now[s].location == IN_USE && now[s].length == pages && now[s].sizeclass == sizeclass
    && m in now && now[m].location == IN_USE && now[m].sizeclass == 0 && m != s
    && (s in was ==> was[s].Free()) && (m in was ==> was[m].Free()) && SameInUse(was, now, {s, m})
  }

  ghost predicate TookAs(was: Store, now: Store, id: SpanId, n: nat, sizeclass: nat) {
    && id in now && now[id].length == n && now[id].location == IN_USE && now[id].sizeclass == sizeclass
    && (id in was ==> was[id].Free()) && SameInUse(was, now, {id})
  }

  lemma Registered(s0: Store, s1: Store, s2: Store, s: SpanId, pages: nat, sizeclass: nat)
    requires Took(s0, s1, s, pages) && s in s1 && s2 == s1[s := s1[s].(sizeclass := sizeclass)]
    ensures TookAs(s0, s2, s, pages, sizeclass)
  { }

  lemma TookTwo(s0: Store, s2: Store, s3: Store, s: SpanId, m: SpanId, pages: nat, metaPages: nat, sizeclass: nat)
    requires TookAs(s0, s2, s, pages, sizeclass) && Took(s2, s3, m, metaPages)
    ensures TookPair(s0, s3, s, m, pages, sizeclass) && m in s3 && s3[m].length == metaPages && s in s3
    ensures s3[s].length == pages && s3[s].location == s3[m].location == IN_USE && s3[s].sizeclass == sizeclass && s3[m].sizeclass == 0
  { }

  lemma StillThere(s0: Store, s2: Store, s3: Store, s: SpanId, pages: nat, sizeclass: nat)
    requires TookAs(s0, s2, s, pages, sizeclass) && SameInUse(s2, s3, {})
    ensures s in s3 && s3[s].location == IN_USE
  { }

  lemma TookBack(s0: Store, s2: Store, s3: Store, s4: Store, s: SpanId, pages: nat, sizeclass: nat)
    requires TookAs(s0, s2, s, pages, sizeclass)
    requires SameInUse(s2, s3, {}) && SameInUse(s3, s4, {s}) && (s in s4 ==> s4[s].Free())
    ensures SameInUse(s0, s4, {})
  { }

  class SpanSource {
    const heap: PageHeap
    const table: Metadata
    const bytes: nat
    ghost var pairs: Pairs

    ghost predicate Valid()
      reads this, heap, table
    {
      && heap.Valid() && HeapAddress(heap.addressPages) <= ADDRESS_LIMIT && 0 < bytes <= 16
      && Linked(heap.spans, table.entries, bytes, pairs)
    }

    constructor (heap: PageHeap, table: Metadata, bytes: nat)
      requires heap.Valid() && HeapAddress(heap.addressPages) <= ADDRESS_LIMIT && 0 < bytes <= 16
      requires forall page: nat :: EntryOf(table.entries, page) == 0
      ensures Valid() && pairs == map[] && this.heap == heap && this.table == table && this.bytes == bytes
    {
      this.heap, this.table, this.bytes, pairs := heap, table, bytes, map[];
    }

    lemma InLimit(id: SpanId)
      requires Valid() && id in heap.spans
      ensures heap.spans[id].start > 0 && heap.spans[id].length > 0
      ensures HeapAddress(heap.spans[id].start + heap.spans[id].length) <= ADDRESS_LIMIT
    {
      hide Layout, Holds, SumAll, Linked;
      heap.SpanInAddressSpace(id);
      LiveSpan(heap.spans, heap.pagemap, heap.owner, id);
    }

    /** The page heap's part of `Populate`: a data span for a size class and a metadata span, or,
        when either is refused, neither. With a system that works and no limit, neither is refused
        while there is address space for it. */
    method Populate(sizeclass: nat, size: nat, pages: nat) returns (r: Option<SpanId>, ghost m: SpanId)
      requires Valid() && sizeclass > 0 && size > 0 && Aligned(size) && pages > 0
      modifies `pairs, heap, table`entries
      ensures Valid()
      ensures r.None? ==> pairs == old(pairs) && table.entries == old(table.entries) && SameInUse(old(heap.spans), heap.spans, {})
      ensures MetaPages(pages, size, bytes) >= 0
      ensures Unlimited(pages) && Unlimited(MetaPages(pages, size, bytes)) && r.None? ==> !old(heap.CanGrant(pages)) || !heap.CanGrant(MetaPages(pages, size, bytes))
      ensures r.Some? ==> pairs == old(pairs)[r.value := Pairing(m, size)] && TookPair(old(heap.spans), heap.spans, r.value, m, pages, sizeclass)
    {
      hide Linked, SameInUse, Aligned, MetaPages, Took, TookAs, TookPair, PageHeap.State, PageHeap.Regular;
      m := 0;
      MetaPagesSuffice(pages, size, bytes);
      ghost var s0 := heap.spans;
      r := TakeRegistered(sizeclass, pages);
      if r.None? { return; }
      ghost var s2 := heap.spans;
      var s := r.value;
      var metaspan := Take(MetaPages(pages, size, bytes));
      if metaspan.Some? {
        m := metaspan.value;
        TookTwo(s0, s2, heap.spans, s, m, pages, MetaPages(pages, size, bytes), sizeclass);
        Link(s, metaspan.value, size);
      } else {
        StillThere(s0, s2, heap.spans, s, pages, sizeclass);
        ghost var s3 := heap.spans;
        heap.Delete(s);
        Undisturbed(s3, heap.spans, table.entries, bytes, pairs, {s});
        TookBack(s0, s2, s3, heap.spans, s, pages, sizeclass);
        r := None;
      }
    }

    /** Nothing but address space limits a request for so many pages. */
    ghost predicate Unlimited(pages: nat) {
      heap.systemWorks && heap.limit == 0 && pages <= heap.maxValidPages
    }

    /** `PageHeap::New`, seen from here. */
    method Take(pages: nat) returns (r: Option<SpanId>)
      requires Valid() && pages > 0
      modifies heap
      ensures Valid() && old(heap.systemRange) <= heap.systemRange && (Unlimited(pages) && r.None? ==> !heap.CanGrant(pages) && !old(heap.CanGrant(pages)))
      ensures r.None? ==> SameInUse(old(heap.spans), heap.spans, {})
      ensures r.Some? ==> Took(old(heap.spans), heap.spans, r.value, pages) && forall t | t in pairs :: t != r.value && pairs[t].meta != r.value
    {
      hide Linked, SameInUse, PageHeap.State, PageHeap.Regular;
      ghost var s0 := heap.spans;
      r := heap.New(pages);
      if heap.CanGrant(pages) { heap.GrantsFewer(pages); }
      if r.Some? { FreshSpan(s0, table.entries, bytes, pairs, r.value); }
      Undisturbed(s0, heap.spans, table.entries, bytes, pairs, if r.Some? then {r.value} else {});
    }

    /** A span registered with a size class. */
    method TakeRegistered(sizeclass: nat, pages: nat) returns (r: Option<SpanId>)
      requires Valid() && sizeclass > 0 && pages > 0
      modifies heap
      ensures Valid() && old(heap.systemRange) <= heap.systemRange && (Unlimited(pages) && r.None? ==> !heap.CanGrant(pages) && !old(heap.CanGrant(pages)))
      ensures r.None? ==> SameInUse(old(heap.spans), heap.spans, {})
      ensures r.Some? ==> TookAs(old(heap.spans), heap.spans, r.value, pages, sizeclass) && forall t | t in pairs :: t != r.value && pairs[t].meta != r.value
    {
      hide Linked, SameInUse, PageHeap.State, PageHeap.Regular;
      ghost var s0 := heap.spans;
      r := Take(pages);
      if r.Some? {
        ghost var s1 := heap.spans;
        heap.RegisterSizeClass(r.value, sizeclass);
        KeepsLinked(s1, heap.spans, table.entries, bytes, pairs);
        Registered(s0, s1, heap.spans, r.value, pages, sizeclass);
      }
    }

    /** Enter a metadata span for a data span. */
    method Link(s: SpanId, m: SpanId, size: nat)
      requires Valid() && size > 0 && Aligned(size)
      requires forall t | t in pairs :: t != s && pairs[t].meta != m
      requires s in heap.spans && heap.spans[s].location == IN_USE && heap.spans[s].sizeclass > 0
      requires m in heap.spans && heap.spans[m].location == IN_USE && heap.spans[m].sizeclass == 0
      requires Roomy(heap.spans[s].length, heap.spans[m].length, size, bytes)
      modifies `pairs, table`entries
      ensures Valid() && pairs == old(pairs)[s := Pairing(m, size)]
    {
      hide Linked, SameInUse, Layout, Holds, SumAll, Aligned, Roomy;
      ghost var spans := heap.spans;
      InLimit(s);
      InLimit(m);
      forall t | t in pairs && t in spans ensures Apart(spans[s], spans[t]) {
        SpansApart(spans, heap.pagemap, heap.owner, s, t);
      }
      ghost var was := table.entries;
      var alignment := AlignmentBits(size);
      var _ := table.SetEntries(HeapAddress(heap.spans[s].start), HeapAddress(heap.spans[s].length), HeapAddress(heap.spans[m].start), alignment, bytes);
      RegionPages(spans[s], spans[m], size);
      assert Configured(table.entries, bytes, RegionFor(spans[s], spans[m], size));
      LinkedAdd(spans, was, table.entries, bytes, pairs, s, Pairing(m, size));
      pairs := pairs[s := Pairing(m, size)];
    }

    /** The page heap's part of `ReleaseToSpans`: the metadata span is found through the first
        entry, the entries are cleared, and both spans go back. */
    method Release(s: SpanId)
      requires Valid() && s in pairs
      modifies `pairs, heap, table`entries
      ensures Valid() && pairs == old(pairs) - {s}
      ensures old(s in heap.spans) && forall page: nat | CoversEntry(old(heap.spans[s]), page) :: EntryOf(table.entries, page) == 0
      ensures SameInUse(old(heap.spans), heap.spans, {s, old(pairs[s].meta)})
      ensures (s in heap.spans ==> heap.spans[s].Free()) && (old(pairs[s].meta) in heap.spans ==> heap.spans[old(pairs[s].meta)].Free())
    {
      hide Linked, SameInUse, Layout, Holds, SumAll, Aligned, CoversEntry;
      ghost var s0, m := heap.spans, pairs[s].meta;
      assert Paired(s0, table.entries, bytes, s, pairs[s]) by { LinkedPair(s0, table.entries, bytes, pairs, s); }
      InLimit(s);
      InLimit(m);
      FirstEntryRecovers(s0, table.entries, bytes, s, pairs[s]);
      LiveSpan(s0, heap.pagemap, heap.owner, m);
      var entry := EntryOf(table.entries, 2 * heap.spans[s].start);
      var metaspan := heap.pagemap[Base(entry) / PAGE_SIZE];
      assert metaspan == m;
      Unlink(s);
      heap.Delete(metaspan);
      ghost var s1 := heap.spans;
      Undisturbed(s0, s1, table.entries, bytes, pairs, {m});
      OthersKeep(s0, s1, s, m);
      heap.Delete(s);
      Undisturbed(s1, heap.spans, table.entries, bytes, pairs, {s});
      DeletedTwo(s0, s1, heap.spans, s, m);
    }

    /** In every state: the metadata of an object lies inside the metadata span of its data span, and
        no two objects, of one data span or of two, share a byte of it. */
    lemma MetadataIsPrivate(s: SpanId, i: nat, t: SpanId, j: nat)
      requires Valid() && s in pairs && t in pairs && (s != t || i != j)
      requires s in heap.spans && t in heap.spans
      requires (i + 1) * pairs[s].size <= HeapAddress(heap.spans[s].length) && (j + 1) * pairs[t].size <= HeapAddress(heap.spans[t].length)
      ensures pairs[s].meta in heap.spans && heap.spans[s].start > 0 && heap.spans[t].start > 0 && heap.spans[pairs[s].meta].start > 0
      ensures var x, y := ObjectSlot(table.entries, bytes, heap.spans[s], pairs[s].size, i), ObjectSlot(table.entries, bytes, heap.spans[t], pairs[t].size, j);
              var m := heap.spans[pairs[s].meta];
              && HeapAddress(m.start) <= x && x + ObjectBytes(pairs[s].size, bytes) <= HeapAddress(m.start) + HeapAddress(m.length)
              && (x + ObjectBytes(pairs[s].size, bytes) <= y || y + ObjectBytes(pairs[t].size, bytes) <= x)
    {
      hide PageHeap.Regular, Layout, Holds, SumAll, Aligned, Configured, Roomy, HeapAddress, ObjectSlot, ObjectBytes;
      ghost var p := pairs[s];
      LinkedPair(heap.spans, table.entries, bytes, pairs, s);
      LinkedPair(heap.spans, table.entries, bytes, pairs, t);
      hide Linked;
      forall id | id in heap.spans ensures heap.spans[id].start > 0 && HeapAddress(heap.spans[id].start + heap.spans[id].length) <= ADDRESS_LIMIT { InLimit(id); }
      ObjectSlots(heap.spans, table.entries, bytes, s, p, i);
      ObjectsDoNotShare(heap.spans, heap.pagemap, heap.owner, table.entries, bytes, pairs, s, i, t, j);
      Scale(0, i, ObjectBytes(p.size, bytes));
      assert (i + 1) * ObjectBytes(p.size, bytes) == i * ObjectBytes(p.size, bytes) + ObjectBytes(p.size, bytes);
    }

    /** Clear the entries of a data span. */
    method Unlink(s: SpanId)
      requires Valid() && s in pairs
      modifies `pairs, table`entries
      ensures Valid() && pairs == old(pairs) - {s} && s in heap.spans
      ensures forall page: nat | CoversEntry(heap.spans[s], page) :: EntryOf(table.entries, page) == 0
      ensures forall t | t in pairs :: t != s && t != old(pairs[s].meta) && pairs[t].meta != s && pairs[t].meta != old(pairs[s].meta)
    {
      hide SameInUse, Layout, Holds, SumAll, CoversEntry, Linked, PageHeap.Regular, HeapAddress, Assigned;
      ghost var spans, was := heap.spans, table.entries;
      LinkedIn(spans, was, bytes, pairs, s);
      InLimit(s);
      forall t | t in pairs && t in spans && t != s ensures Apart(spans[s], spans[t]) {
        SpansApart(spans, heap.pagemap, heap.owner, s, t);
      }
      HeapPages(spans[s].start);
      HeapPages(spans[s].length);
      var _ := table.SetEntries(HeapAddress(heap.spans[s].start), HeapAddress(heap.spans[s].length), 0, 0, bytes);
      LinkedRemove(spans, was, table.entries, bytes, pairs, s);
      OneToOne(spans, was, bytes, pairs, s);
      pairs := pairs - {s};
    }
  }

  /** A page of the heap is two pages of the table. */
  lemma HeapPages(n: nat)
    ensures HeapAddress(n) % PAGE == 0 && HeapAddress(n) / PAGE == 2 * n
  { }

  lemma LinkedIn(spans: Store, entries: PageTable, bytes: nat, pairs: Pairs, s: SpanId)
    requires Linked(spans, entries, bytes, pairs) && s in pairs
    ensures s in spans
  {
    assert Paired(spans, entries, bytes, s, pairs[s]);
  }

  lemma LinkedPair(spans: Store, entries: PageTable, bytes: nat, pairs: Pairs, s: SpanId)
    requires Linked(spans, entries, bytes, pairs) && s in pairs
    ensures Paired(spans, entries, bytes, s, pairs[s])
  { }

  /** Data and metadata spans of different pairs are all different. */
  lemma OneToOne(spans: Store, entries: PageTable, bytes: nat, pairs: Pairs, s: SpanId)
    requires Linked(spans, entries, bytes, pairs) && s in pairs
    ensures forall t | t in pairs && t != s :: t != pairs[s].meta && pairs[t].meta != s && pairs[t].meta != pairs[s].meta
  {
    assert Paired(spans, entries, bytes, s, pairs[s]);
    forall t | t in pairs && t != s ensures t != pairs[s].meta && pairs[t].meta != s && pairs[t].meta != pairs[s].meta {
      assert Paired(spans, entries, bytes, t, pairs[t]);
    }
  }

  lemma OthersKeep(was: Store, now: Store, s: SpanId, m: SpanId)
    requires SameInUse(was, now, {m}) && s in was && was[s].location == IN_USE && s != m
    ensures s in now && now[s] == was[s]
  { }

  lemma DeletedTwo(s0: Store, s1: Store, s2: Store, s: SpanId, m: SpanId)
    requires SameInUse(s0, s1, {m}) && SameInUse(s1, s2, {s}) && s != m
    requires (m in s1 ==> s1[m].Free()) && (s in s2 ==> s2[s].Free())
    ensures SameInUse(s0, s2, {s, m}) && (m in s2 ==> s2[m].Free())
  { }
}
