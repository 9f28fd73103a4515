/** The page heap: `New`, `Delete`, `Split` and `RegisterSizeClass` for clients, and under them
    best-fit search, carving, boundary-tag coalescing, release to the system and heap growth.

    `Valid` is what every operation keeps in every mode: the layout of Spans.Layout, every span
    on the one list for its length and location, and the page counts of those lists. `Regular`
    is what a heap keeps whose decommit mode was fixed from construction: free spans stay
    maximally coalesced and unmapped + committed = system.

    The system is an adversary: SystemAlloc and SystemRelease answer arbitrarily within their
    contracts. Counts are in pages.
 */
module PageHeaps {
  import opened Basics
  import opened Spans

  const DEFAULT_RELEASE_DELAY := 0x4_0000
  const MAX_RELEASE_DELAY := 0x10_0000
  const FORCED_COALESCE_INTERVAL := 128 * 1024 * 1024
  const ALL_PAGES := 0x7fff_ffff

  // ----- How one store of spans may evolve into another

  /** Both stores have the same in-use spans, those in `except` aside. */
  ghost predicate SameInUse(was: Store, now: Store, except: set<SpanId>) {
    && (forall x | x in was && x !in except && was[x].location == IN_USE :: x in now && now[x] == was[x])
    && (forall x | x in now && x !in except && now[x].location == IN_USE :: x in was && was[x] == now[x])
  }

  ghost predicate Within(a: Span, b: Span) {
    b.start <= a.start && a.Limit() <= b.Limit()
  }

  ghost predicate InFree(now: Store, s: Span) {
    exists y :: y in now && now[y].Free() && (s.location == RETURNED ==> now[y].location == RETURNED) && Within(s, now[y])
  }

  /** What releasing memory may do: in-use spans are untouched, every free span survives whole
      inside a free span, and what was returned to the system stays returned. */
  ghost predicate Settles(was: Store, now: Store) {
    && SameInUse(was, now, {})
    && (forall x | x in was && was[x].Free() :: InFree(now, was[x]))
  }

  lemma SettlesTransitive(a: Store, b: Store, c: Store)
    requires Settles(a, b) && Settles(b, c)
    ensures Settles(a, c)
  {
    forall x | x in a && a[x].Free() ensures InFree(c, a[x]) {
      var y :| y in b && b[y].Free() && (a[x].location == RETURNED ==> b[y].location == RETURNED) && Within(a[x], b[y]);
      var z :| z in c && c[z].Free() && (b[y].location == RETURNED ==> c[z].location == RETURNED) && Within(b[y], c[z]);
      assert Within(a[x], c[z]);
    }
  }

  lemma SettlesReflexive(a: Store)
    ensures Settles(a, a)
  {
    forall x | x in a && a[x].Free() ensures InFree(a, a[x]) { assert Within(a[x], a[x]); }
  }

  /** Merging a newly returned span settles. */
  lemma AbsorbedSettles(was: Store, mid: Store, now: Store, id: SpanId)
    requires id in was && was[id].location == NORMAL && mid == was[id := was[id].(location := RETURNED)]
    requires Absorbed(mid, now, id) && now[id].location == RETURNED
    ensures Settles(was, now)
  {
    forall x | x in was && was[x].Free() ensures InFree(now, was[x]) {
      var y := if x in now then x else id;
      assert Within(was[x], now[y]);
    }
  }

  /** `now` is `was` with some free spans absorbed into the free span `id`. */
  ghost predicate Absorbed(was: Store, now: Store, id: SpanId) {
    && id in was && id in now && now.Keys <= was.Keys && Within(was[id], now[id])
    && now[id].sizeclass == was[id].sizeclass
    && (forall x | x in now && x != id :: now[x] == was[x])
    && (forall x | x in was && x !in now :: was[x].Free() && Within(was[x], now[id]))
  }

  /** The page before, or after, `id` belongs to no span it should have been merged with. */
  ghost predicate LeftClear(spans: Store, id: SpanId, tight: bool) {
    id in spans && forall a | a in spans && spans[a].Limit() == spans[id].start && spans[a].Free() ::
      !tight && spans[a].location != spans[id].location
  }

  ghost predicate RightClear(spans: Store, id: SpanId, tight: bool) {
    id in spans && forall b | b in spans && spans[id].Limit() == spans[b].start && spans[b].Free() ::
      !tight && spans[b].location != spans[id].location
  }

  /** Spans other than `id` are maximally coalesced, in the sense of the mode. */
  ghost predicate PackedBut(spans: Store, id: SpanId, tight: bool) {
    if tight then TightBut(spans, {id}) else CoalescedBut(spans, {id})
  }

  /** `was` with the first `n` pages of the free span `id` put in use and the rest left as the new
      free span `rest` in the same location. */
  ghost function CarvedStore(was: Store, id: SpanId, rest: SpanId, n: nat): Store
    requires id in was && n < was[id].length
  {
    was[id := was[id].(length := n, location := IN_USE)]
       [rest := Span(was[id].start + n, was[id].length - n, was[id].location, 0)]
  }

  ghost predicate Carved(was: Store, now: Store, id: SpanId, n: nat) {
    && id in was && was[id].Free() && n <= was[id].length
    && if n == was[id].length then now == was[id := was[id].(location := IN_USE)] else
         exists rest :: rest !in was && now == CarvedStore(was, id, rest, n)
  }

  /** What a caller of `New` sees: `id` is a fresh in-use span of `n` pages and all other in-use
      spans are as before. */
  ghost predicate Took(was: Store, now: Store, id: SpanId, n: nat) {
    && id in now && now[id].length == n && now[id].location == IN_USE && now[id].sizeclass == 0
    && (id in was ==> was[id].Free()) && SameInUse(was, now, {id})
  }

  lemma CarvedTook(was: Store, now: Store, id: SpanId, n: nat)
    requires Carved(was, now, id, n) && was[id].sizeclass == 0
    ensures Took(was, now, id, n)
  { }

  ghost predicate Packed(spans: Store, tight: bool) {
    if tight then TightBut(spans, {}) else CoalescedBut(spans, {})
  }

  /** Only spans of `id`'s own kind were absorbed. */
  ghost predicate SameKind(was: Store, now: Store, id: SpanId) {
    id in was && forall x | x in was && x !in now :: was[x].location == was[id].location
  }

  /** `CheckAndHandlePreMerge`. */
  ghost predicate MayMerge(aggressive: bool, span: Span, other: Span) {
    if aggressive then other.Free() else span.location == other.location
  }

  /** A neighbour lookup that found NULL, or a span not to be merged, proves there is nothing
      left to coalesce on that side. */
  lemma RefusedIsClear(spans: Store, pagemap: PageMap, owner: Owner, id: SpanId, tight: bool)
    requires Layout(spans, pagemap, owner) && id in spans
    ensures var p := spans[id].start - 1;
            (p in pagemap && pagemap[p] in spans ==> !MayMerge(tight, spans[id], spans[pagemap[p]])) ==> LeftClear(spans, id, tight)
    ensures var q := spans[id].Limit();
            (q in pagemap && pagemap[q] in spans ==> !MayMerge(tight, spans[id], spans[pagemap[q]])) ==> RightClear(spans, id, tight)
  {
    NeighbourIsLive(spans, pagemap, owner, id);
    forall a | a in spans && spans[a].Limit() == spans[id].start ensures MapsTo(pagemap, spans[id].start - 1, a) {
      assert Mapped(pagemap, a, spans[a]);
    }
    forall b | b in spans && spans[id].Limit() == spans[b].start ensures MapsTo(pagemap, spans[id].Limit(), b) {
      assert Mapped(pagemap, b, spans[b]);
    }
  }

  /** Absorbing a mergeable left neighbour clears the left side: whatever lies before that
      neighbour was already packed against it. Symmetrically on the right. */
  lemma AbsorbClears(spans: Store, id: SpanId, other: SpanId, tight: bool)
    requires id in spans && other in spans && id != other && PackedBut(spans, id, tight)
    requires MayMerge(tight, spans[id], spans[other]) && spans[id].Free()
    requires forall x | x in spans :: spans[x].length > 0
    requires spans[other].Limit() == spans[id].start || spans[id].Limit() == spans[other].start
    ensures var now := Swallow(spans, id, other);
            && PackedBut(now, id, tight)
            && if spans[other].Limit() == spans[id].start
               then LeftClear(now, id, tight) && (RightClear(spans, id, tight) ==> RightClear(now, id, tight))
               else RightClear(now, id, tight) && (LeftClear(spans, id, tight) ==> LeftClear(now, id, tight))
  { }

  lemma ClearIsPacked(spans: Store, id: SpanId, tight: bool)
    requires PackedBut(spans, id, tight) && LeftClear(spans, id, tight) && RightClear(spans, id, tight)
    requires spans[id].length > 0
    ensures Packed(spans, tight)
  { }

  /** Closest to the wanted size; among equals, lowest address. */
  ghost predicate Better(a: Span, b: Span) {
    a.length < b.length || (a.length == b.length && a.start < b.start)
  }

  ghost predicate NoFit(spans: Store, n: nat) {
    forall x | x in spans && spans[x].Free() :: spans[x].length < n
  }

  ghost predicate NoLargeFit(spans: Store, top: nat, n: nat) {
    forall x | x in spans && spans[x].Free() && spans[x].length >= top :: spans[x].length < n
  }

  ghost predicate BestLargeFit(spans: Store, top: nat, best: SpanId, n: nat) {
    && best in spans && spans[best].Free() && spans[best].length >= n && spans[best].length >= top
    && forall x | x in spans && spans[x].Free() && spans[x].length >= n && spans[x].length >= top :: !Better(spans[x], spans[best])
  }

  /** `id` was the best fit when it was carved, after releasing if need be. */
  ghost predicate CarvedBest(was: Store, now: Store, top: nat, id: SpanId, n: nat) {
    exists mid :: Settles(was, mid) && BestLargeFit(mid, top, id, n) && Carved(mid, now, id, n)
  }

  /** Nothing was long enough at some point since `was`; only releasing has happened after that. */
  ghost predicate FailedSearch(was: Store, now: Store, n: nat) {
    exists mid :: SameInUse(was, mid, {}) && NoFit(mid, n) && Settles(mid, now)
  }

  /** `best` is the best fit on a list seen so far. */
  ghost predicate BestOf(spans: Store, list: seq<SpanId>, best: Option<SpanId>, n: nat) {
    && (forall x | x in list :: x in spans)
    && (best.None? ==> forall x | x in list :: spans[x].length < n)
    && (best.Some? ==> best.value in list && spans[best.value].length >= n
                       && forall x | x in list && spans[x].length >= n :: !Better(spans[x], spans[best.value]))
  }

  ghost predicate ClosestFit(spans: Store, id: SpanId, n: nat) {
    && id in spans && spans[id].Free() && spans[id].length >= n
    && forall x | x in spans && spans[x].Free() && spans[x].length >= n :: spans[id].length <= spans[x].length
  }

  ghost predicate NoneBetween(spans: Store, n: nat, s: nat) {
    forall x | x in spans && spans[x].Free() && n <= spans[x].length :: s <= spans[x].length
  }

  /** A returned large span that fits still fits, perhaps within a larger one, after releasing. */
  lemma SettledStillFits(was: Store, now: Store, top: nat, id: SpanId, n: nat)
    requires Settles(was, now) && id in was && was[id].Free() && was[id].length >= n && was[id].length >= top
    ensures !NoLargeFit(now, top, n)
  {
    assert InFree(now, was[id]);
    var y :| y in now && now[y].Free() && Within(was[id], now[y]);
    assert Within(was[id], now[y]);
  }

  lemma SettlesTook(a: Store, b: Store, c: Store, id: SpanId, n: nat)
    requires Settles(a, b) && Took(b, c, id, n)
    ensures Took(a, c, id, n)
  { }

  /** The part of a heap's state that releasing memory reports against. */
  datatype Books = Books(spans: Store, free: int, unmapped: int, mapped: int, regular: bool)

  class PageHeap {
    const maxPages: nat       // kMaxPages: spans this long or longer share one list
    const maxValidPages: nat  // kMaxValidPages
    const addressPages: nat   // the address space ends here
    const limit: nat          // heap limit, 0 for none
    const releaseWorks: bool  // SystemRelease always succeeds on this platform
    const systemWorks: bool   // nor is a request for memory, or for a page-map node, ever refused that can be met
    const releaseRateTiny: bool

    var spans: Store
    var pagemap: PageMap
    // Index k < maxPages is free_[k]; index maxPages is large_.
    var normal: Lists
    var returned: Lists
    ghost var inUse: Lists
    ghost var owner: Owner
    ghost var granted: set<int>  // every page entered in the page map

    var systemPages: nat
    var freePages: int
    var unmappedPages: int
    var committedPages: int
    ghost var lostPages: nat  // obtained from the system but never entered in the page map

    var systemTaken: nat      // TCMalloc_SystemTaken, which also counts metadata
    var systemRange: set<int> // every page the system has handed out
    var releaseIndex: nat
    var scavengeCounter: int
    var aggressive: bool

    /** The heap's invariant while the spans in `limbo`, of `pages` pages in all, are on no list. */
    ghost predicate State(limbo: set<SpanId>, pages: int)
      reads `spans, `pagemap, `owner, `granted, `systemRange, `inUse, `normal, `returned,
            `freePages, `unmappedPages, `lostPages, `systemPages, `systemTaken
    {
      && Layout(spans, pagemap, owner) && owner.Keys == granted <= systemRange
      && |inUse| == |normal| == |returned| == maxPages + 1
      && Holds(spans, inUse, IN_USE, limbo) && Holds(spans, normal, NORMAL, limbo) && Holds(spans, returned, RETURNED, limbo)
      && Counted(pages)
    }

    /** The page counts: free and unmapped pages are the sums of their lists, and every page
        obtained from the system is in use, free, unmapped, in limbo or lost. */
    ghost predicate Counted(pages: int)
      reads `spans, `inUse, `normal, `returned, `freePages, `unmappedPages, `lostPages, `systemPages, `systemTaken
    {
      && freePages == SumAll(spans, normal) && unmappedPages == SumAll(spans, returned)
      && SumAll(spans, inUse) + freePages + unmappedPages + pages + lostPages == systemPages
      && systemPages <= systemTaken
    }

    /** Every page obtained from the system is granted or lost. */
    ghost predicate Tallied()
      reads `granted, `lostPages, `systemPages
    {
      |granted| + lostPages == systemPages
    }

    ghost predicate Valid()
      reads this
    {
      State({}, 0) && releaseIndex <= maxPages + 1 && InAddressSpace()
    }

    ghost predicate InAddressSpace()
      reads `systemRange
    {
      forall p | p in systemRange :: p < addressPages
    }

    ghost predicate Regular()
      reads `spans, `unmappedPages, `committedPages, `systemPages, `aggressive
    {
      && unmappedPages + committedPages == systemPages
      && Packed(spans, aggressive)
      && (aggressive ==> releaseWorks && NoNormalBut(spans, {}))
    }

    /** Regular, but for `id`, which is about to be merged. */
    ghost predicate RegularBut(id: SpanId)
      reads this
    {
      && id in spans && PackedBut(spans, id, aggressive)
      && unmappedPages + committedPages + (if spans[id].location == RETURNED then spans[id].length else 0) == systemPages
      && (aggressive ==> releaseWorks && spans[id].location == NORMAL && NoNormalBut(spans, {id}))
    }

    constructor (maxPages: nat, maxValidPages: nat, addressPages: nat, limit: nat, releaseWorks: bool, systemWorks: bool, releaseRateTiny: bool)
      ensures Valid() && Regular() && Tallied() && spans == map[] && systemPages == 0 && granted == systemRange == {}
      ensures systemTaken == 0 && scavengeCounter == 0 && releaseIndex == maxPages
      ensures !aggressive && this.limit == limit && this.maxPages == maxPages && this.releaseWorks == releaseWorks && this.systemWorks == systemWorks
      ensures this.addressPages == addressPages && this.maxValidPages == maxValidPages && this.releaseRateTiny == releaseRateTiny
    {
      this.maxPages, this.maxValidPages, this.addressPages, this.limit := maxPages, maxValidPages, addressPages, limit;
      this.releaseWorks, this.systemWorks, this.releaseRateTiny := releaseWorks, systemWorks, releaseRateTiny;
      spans, pagemap, owner, granted := map[], map[], map[], {};
      normal, returned, inUse := seq(maxPages + 1, _ => []), seq(maxPages + 1, _ => []), seq(maxPages + 1, _ => []);
      systemPages, freePages, unmappedPages, committedPages, lostPages, systemTaken := 0, 0, 0, 0, 0, 0;
      systemRange, releaseIndex, scavengeCounter, aggressive := {}, maxPages, 0, false;
      new;
      SumAllEmpty(spans, normal);
    }

    /** No span reaches past the end of the address space. */
    lemma SpanInAddressSpace(id: SpanId)
      requires Valid() && id in spans
      ensures spans[id].Limit() <= addressPages
    {
      hide Holds, SumAll, Layout;
      LiveSpan(spans, pagemap, owner, id);
    }

    /** `SetAggressiveDecommit`. Switching off is always harmless. Switching on keeps the heap
        regular exactly when no normal free span is waiting, and release works. */
    method SetAggressiveDecommit(on: bool)
      requires Valid()
      modifies `aggressive
      ensures Valid() && aggressive == on
      ensures !on && old(Regular()) ==> Regular()
      ensures on && old(Regular()) ==> (Regular() <==> releaseWorks && NoNormalBut(spans, {}))
    {
      hide Layout, Holds, SumAll, TightBut, NoNormalBut, CoalescedBut;
      ReturnedIsTight(spans);
      aggressive := on;
    }

    /** Free spans all of one kind that are coalesced are not adjacent at all. */
    lemma ReturnedIsTight(spans: Store)
      ensures NoNormalBut(spans, {}) && CoalescedBut(spans, {}) ==> TightBut(spans, {})
      ensures TightBut(spans, {}) ==> CoalescedBut(spans, {})
    { }

    // ----- Free lists

    method RemoveFromFreeList(id: SpanId, ghost limbo: set<SpanId>, ghost pages: int)
      requires State(limbo, pages) && id in spans && id !in limbo && spans[id].Free()
      modifies `normal, `returned, `freePages, `unmappedPages
      ensures State(limbo + {id}, pages + spans[id].length)
      ensures freePages == old(freePages) - if spans[id].location == NORMAL then spans[id].length else 0
      ensures unmappedPages == old(unmappedPages) - if spans[id].location == RETURNED then spans[id].length else 0
    {
      hide Layout, Holds, SumAll;
      var s := spans[id];
      var k := Slot(s.length, maxPages);
      HoldsFrame(spans, spans, inUse, IN_USE, limbo, limbo + {id});
      if s.location == NORMAL {
        HoldsRemove(spans, normal, NORMAL, limbo, id);
        HoldsFrame(spans, spans, returned, RETURNED, limbo, limbo + {id});
        freePages := freePages - s.length;
        normal := normal[k := Without(normal[k], id)];
      } else {
        HoldsRemove(spans, returned, RETURNED, limbo, id);
        HoldsFrame(spans, spans, normal, NORMAL, limbo, limbo + {id});
        unmappedPages := unmappedPages - s.length;
        returned := returned[k := Without(returned[k], id)];
      }
    }

    method PrependToFreeList(id: SpanId, ghost limbo: set<SpanId>, ghost pages: int)
      requires State(limbo, pages) && id in spans && id in limbo && spans[id].Free()
      modifies `normal, `returned, `freePages, `unmappedPages
      ensures State(limbo - {id}, pages - spans[id].length)
      ensures freePages == old(freePages) + if spans[id].location == NORMAL then spans[id].length else 0
      ensures unmappedPages == old(unmappedPages) + if spans[id].location == RETURNED then spans[id].length else 0
    {
      hide Layout, Holds, SumAll;
      var s := spans[id];
      var k := Slot(s.length, maxPages);
      HoldsFrame(spans, spans, inUse, IN_USE, limbo, limbo - {id});
      if s.location == NORMAL {
        HoldsPrepend(spans, normal, NORMAL, limbo, id);
        HoldsFrame(spans, spans, returned, RETURNED, limbo, limbo - {id});
        freePages := freePages + s.length;
        normal := normal[k := [id] + normal[k]];
      } else {
        HoldsPrepend(spans, returned, RETURNED, limbo, id);
        HoldsFrame(spans, spans, normal, NORMAL, limbo, limbo - {id});
        unmappedPages := unmappedPages + s.length;
        returned := returned[k := [id] + returned[k]];
      }
    }

    /** Take an in-use span off the books, as the first step of freeing it. */
    ghost method Retire(id: SpanId)
      requires Valid() && id in spans && spans[id].location == IN_USE
      modifies `inUse
      ensures State({id}, spans[id].length)
    {
      hide Layout, Holds, SumAll;
      HoldsRemove(spans, inUse, IN_USE, {}, id);
      HoldsFrame(spans, spans, normal, NORMAL, {}, {} + {id});
      HoldsFrame(spans, spans, returned, RETURNED, {}, {} + {id});
      assert {} + {id} == {id};
      var k := Slot(spans[id].length, maxPages);
      inUse := inUse[k := Without(inUse[k], id)];
    }

    /** Book a span in limbo as in use. */
    ghost method Enlist(id: SpanId, limbo: set<SpanId>, pages: int)
      requires State(limbo, pages) && id in spans && id in limbo && spans[id].location == IN_USE
      modifies `inUse
      ensures State(limbo - {id}, pages - spans[id].length)
    {
      hide Layout, Holds, SumAll;
      HoldsPrepend(spans, inUse, IN_USE, limbo, id);
      HoldsFrame(spans, spans, normal, NORMAL, limbo, limbo - {id});
      HoldsFrame(spans, spans, returned, RETURNED, limbo, limbo - {id});
      var k := Slot(spans[id].length, maxPages);
      inUse := inUse[k := [id] + inUse[k]];
    }

    /** The lists do not see what happens to spans in limbo. */
    lemma ListsFrame(now: Store, limbo: set<SpanId>, limbo': set<SpanId>)
      requires Holds(spans, inUse, IN_USE, limbo) && Holds(spans, normal, NORMAL, limbo) && Holds(spans, returned, RETURNED, limbo)
      requires forall x :: x in spans && x !in limbo <==> x in now && x !in limbo'
      requires forall x | x in spans && x !in limbo :: now[x] == spans[x]
      ensures Holds(now, inUse, IN_USE, limbo') && Holds(now, normal, NORMAL, limbo') && Holds(now, returned, RETURNED, limbo')
      ensures SumAll(now, inUse) == SumAll(spans, inUse) && SumAll(now, normal) == SumAll(spans, normal)
      ensures SumAll(now, returned) == SumAll(spans, returned)
    {
      HoldsFrame(spans, now, inUse, IN_USE, limbo, limbo');
      HoldsFrame(spans, now, normal, NORMAL, limbo, limbo');
      HoldsFrame(spans, now, returned, RETURNED, limbo, limbo');
    }

    /** Change the location or size class of a span in limbo. */
    method Relabel(id: SpanId, s: Span, ghost limbo: set<SpanId>, ghost pages: int)
      requires State(limbo, pages) && id in spans && id in limbo
      requires s.start == spans[id].start && s.length == spans[id].length && s.sizeclass == 0
      modifies `spans
      ensures State(limbo, pages) && spans == old(spans)[id := s]
    {
      hide Layout, Holds, SumAll;
      RelabelLayout(spans, pagemap, owner, id, s) by { LiveSpan(spans, pagemap, owner, id); assert Mapped(pagemap, id, spans[id]) && WellFormed(spans[id]); }
      ListsFrame(spans[id := s], limbo, limbo);
      spans := spans[id := s];
    }

    // ----- Coalescing

    /** Merge the free neighbour `other` into `id`, which is in limbo. */
    method Absorb(id: SpanId, other: SpanId)
      requires id in spans && State({id}, spans[id].length) && spans[id].Free()
      requires other in spans && other != id && spans[other].Free()
      requires spans[other].Limit() == spans[id].start || spans[id].Limit() == spans[other].start
      modifies `spans, `pagemap, `owner, `normal, `returned, `freePages, `unmappedPages
      ensures spans == Swallow(old(spans), id, other) && State({id}, spans[id].length)
      ensures freePages == old(freePages) - if old(spans[other]).location == NORMAL then old(spans[other]).length else 0
      ensures unmappedPages == old(unmappedPages) - if old(spans[other]).location == RETURNED then old(spans[other]).length else 0
    {
      hide Layout, Holds, SumAll, Swallow;
      LiveSpan(spans, pagemap, owner, id);
      RemoveFromFreeList(other, {id}, spans[id].length);
      Fuse(id, other);
    }

    /** Extend `id` over its neighbour `other`, both in limbo. */
    method Fuse(id: SpanId, other: SpanId)
      requires id in spans && other in spans && other != id && State({id} + {other}, spans[id].length + spans[other].length)
      requires spans[id].sizeclass == 0 && (spans[other].Limit() == spans[id].start || spans[id].Limit() == spans[other].start)
      modifies `spans, `pagemap, `owner
      ensures spans == Swallow(old(spans), id, other) && id in spans && State({id}, spans[id].length)
    {
      hide Layout, Holds, SumAll, MergeOwner, Swallow;
      var before := spans[other].Limit() == spans[id].start;
      SwallowLayout(spans, pagemap, owner, id, other);
      MergeOwnerKeys(owner, other, id);
      SwallowFrame(spans, id, other);
      ListsFrame(Swallow(spans, id, other), {id} + {other}, {id});
      spans := Swallow(spans, id, other);
      pagemap := pagemap[if before then spans[id].start else spans[id].Limit() - 1 := id];
      owner := MergeOwner(owner, other, id);
    }

    /** `CommitSpan`. */
    method CommitSpan(id: SpanId)
      requires id in spans
      modifies `committedPages
      ensures committedPages == old(committedPages) + spans[id].length
    {
      committedPages := committedPages + spans[id].length;
    }

    /** `DecommitSpan`: the system may refuse, unless the platform always releases. */
    method DecommitSpan(id: SpanId) returns (rv: bool)
      requires id in spans
      modifies `committedPages
      ensures releaseWorks ==> rv
      ensures committedPages == old(committedPages) - if rv then spans[id].length else 0
    {
      rv := *;
      if releaseWorks { rv := true; }
      if rv { committedPages := committedPages - spans[id].length; }
    }

    /** One side of `MergeIntoFreeList`: look up the page next to `id` and merge what is there if
        the mode allows. `returnedPages` is how much the merged neighbour had unmapped. */
    method MergeNeighbour(id: SpanId, page: int) returns (returnedPages: int)
      requires id in spans && State({id}, spans[id].length) && spans[id].Free()
      requires page == spans[id].start - 1 || page == spans[id].Limit()
      modifies `spans, `pagemap, `owner, `normal, `returned, `freePages, `unmappedPages
      ensures id in spans && State({id}, spans[id].length) && Absorbed(old(spans), spans, id)
      ensures spans[id].location == old(spans[id]).location
      ensures page < old(spans[id]).start ==> spans[id].Limit() == old(spans[id]).Limit()
      ensures freePages <= old(freePages) && returnedPages == old(unmappedPages) - unmappedPages >= 0
      ensures old(spans[id]).length + old(freePages + unmappedPages) == spans[id].length + freePages + unmappedPages
      ensures !aggressive ==> if spans[id].location == NORMAL then returnedPages == 0 else freePages == old(freePages)
      ensures !aggressive ==> SameKind(old(spans), spans, id)
      ensures old(PackedBut(spans, id, aggressive)) ==>
        && PackedBut(spans, id, aggressive)
        && (page < old(spans[id]).start ==> LeftClear(spans, id, aggressive))
        && (page > old(spans[id]).start ==> RightClear(spans, id, aggressive))
        && (old(LeftClear(spans, id, aggressive)) ==> LeftClear(spans, id, aggressive))
    {
      hide Layout, Holds, SumAll, CoalescedBut, TightBut, LeftClear, RightClear;
      returnedPages := 0;
      AllPositive();
      NeighbourIsLive(spans, pagemap, owner, id);
      RefusedIsClear(spans, pagemap, owner, id, aggressive);
      var mergeable := page in pagemap && spans[pagemap[page]].location != IN_USE;
      if mergeable && !aggressive { mergeable := spans[pagemap[page]].location == spans[id].location; }
      if mergeable {
        var other := pagemap[page];
        if spans[other].location == RETURNED { returnedPages := spans[other].length; }
        if PackedBut(spans, id, aggressive) { AbsorbClears(spans, id, other, aggressive); }
        Absorb(id, other);
      }
    }

    /** Both sides of `MergeIntoFreeList`. Given a heap packed elsewhere, the result is packed. */
    method Coalesce(id: SpanId) returns (returnedPages: int)
      requires id in spans && State({id}, spans[id].length) && spans[id].Free()
      modifies `spans, `pagemap, `owner, `normal, `returned, `freePages, `unmappedPages
      ensures id in spans && State({id}, spans[id].length) && Absorbed(old(spans), spans, id)
      ensures spans[id].location == old(spans[id]).location
      ensures freePages <= old(freePages) && returnedPages == old(unmappedPages) - unmappedPages >= 0
      ensures old(spans[id]).length + old(freePages + unmappedPages) == spans[id].length + freePages + unmappedPages
      ensures !aggressive ==> if spans[id].location == NORMAL then returnedPages == 0 else freePages == old(freePages)
      ensures !aggressive ==> SameKind(old(spans), spans, id)
      ensures old(PackedBut(spans, id, aggressive)) ==> Packed(spans, aggressive)
    {
      hide Layout, Holds, SumAll, CoalescedBut, TightBut, LeftClear, RightClear;
      LiveSpan(spans, pagemap, owner, id);
      var p, n := spans[id].start, spans[id].length;
      ghost var s0, packed := spans, PackedBut(spans, id, aggressive);
      returnedPages := MergeNeighbour(id, p - 1);
      var more := MergeNeighbour(id, p + n);
      returnedPages := returnedPages + more;
      LiveSpan(spans, pagemap, owner, id);
      if packed { ClearIsPacked(spans, id, aggressive); }
    }

    /** The eager tail of `MergeIntoFreeList`: decommit all of the merged span. The part that came
        from the returned lists is not decommitted twice in the books. */
    method DecommitMerged(id: SpanId, tempCommitted: int, ghost s0: Store)
      requires id in spans && State({id}, spans[id].length) && spans[id].Free() && Absorbed(s0, spans, id)
      modifies `spans, `committedPages
      ensures id in spans && State({id}, spans[id].length) && spans[id].Free() && Absorbed(s0, spans, id)
      ensures spans[id].length == old(spans[id]).length
      ensures releaseWorks ==> spans[id].location == RETURNED && committedPages == old(committedPages) - spans[id].length + tempCommitted
      ensures (spans == old(spans) && committedPages == old(committedPages)) ||
              (spans[id].location == RETURNED && committedPages == old(committedPages) - spans[id].length + tempCommitted)
      ensures old(Packed(spans, true)) ==> Packed(spans, true)
      ensures releaseWorks && NoNormalBut(s0, {id}) ==> NoNormalBut(spans, {})
    {
      hide Layout, Holds, SumAll, Packed, NoNormalBut, Absorbed;
      var released := DecommitSpan(id);
      if released {
        LiveSpan(spans, pagemap, owner, id);
        EagerRelabel(s0, spans, id);
        Relabel(id, spans[id].(location := RETURNED), {id}, spans[id].length);
        committedPages := committedPages + tempCommitted;
      }
    }

    /** `MergeIntoFreeList`. `id` swallows its mergeable neighbours and joins a free list; in the
        eager mode the whole of it is decommitted first. */
    method MergeIntoFreeList(id: SpanId)
      requires id in spans && State({id}, spans[id].length) && spans[id].Free()
      modifies `spans, `pagemap, `owner, `normal, `returned, `freePages, `unmappedPages, `committedPages
      ensures State({}, 0) && Absorbed(old(spans), spans, id) && spans[id].Free()
      ensures old(RegularBut(id)) ==> Regular()
      ensures old(spans[id]).location == RETURNED ==>
        && spans[id].location == RETURNED && freePages <= old(freePages)
        && unmappedPages >= old(unmappedPages) + old(spans[id]).length
      ensures !aggressive ==>
        && spans[id].location == old(spans[id]).location && committedPages == old(committedPages)
        && freePages == old(freePages) + (if spans[id].location == NORMAL then old(spans[id]).length else 0)
        && unmappedPages == old(unmappedPages) + (if spans[id].location == RETURNED then old(spans[id]).length else 0)
        && SameKind(old(spans), spans, id)
      ensures aggressive && releaseWorks ==>
        spans[id].location == RETURNED && unmappedPages + committedPages == old(unmappedPages + committedPages)
    {
      hide Layout, Holds, SumAll, Packed, PackedBut, TightBut, NoNormalBut, SameKind, Absorbed;
      ghost var s0 := spans;
      var tempCommitted := Coalesce(id);
      if aggressive { DecommitMerged(id, tempCommitted, s0); }
      PrependToFreeList(id, {id}, spans[id].length);
      assert {id} - {id} == {};
    }

    /** Decommitting the merged span leaves an eager heap with no normal span and nothing to merge. */
    lemma EagerRelabel(s0: Store, s1: Store, id: SpanId)
      requires Absorbed(s0, s1, id) && s1[id].Free()
      ensures var now := s1[id := s1[id].(location := RETURNED)];
              && Absorbed(s0, now, id)
              && (Packed(s1, true) ==> Packed(now, true))
              && (NoNormalBut(s0, {id}) ==> NoNormalBut(now, {}))
    { }

    lemma AllPositive()
      requires Layout(spans, pagemap, owner)
      ensures forall x | x in spans :: spans[x].length > 0
    {
      forall x | x in spans ensures spans[x].length > 0 { LiveSpan(spans, pagemap, owner, x); }
    }

    // ----- Releasing memory to the system

    /** `ReleaseLastNormalSpan`. In the lazy mode exactly `n` pages turn from free to unmapped and
        the books stay balanced. In the eager mode the span is decommitted once here and once
        more inside MergeIntoFreeList, so unmapped + committed falls short by `n`. */
    method ReleaseLastNormalSpan(k: nat) returns (n: nat)
      requires Valid() && k <= maxPages && normal[k] != []
      modifies `spans, `pagemap, `owner, `normal, `returned, `freePages, `unmappedPages, `committedPages
      ensures Valid() && Settles(old(spans), spans)
      ensures old(Regular()) ==> Regular()
      ensures releaseWorks ==> n > 0
      ensures freePages <= old(freePages) - n && unmappedPages >= old(unmappedPages) + n
      ensures n == 0 ==> spans == old(spans) && freePages == old(freePages) && unmappedPages == old(unmappedPages) && committedPages == old(committedPages)
      ensures old(normal[k])[|old(normal[k])| - 1] in old(spans) && old(spans)[old(normal[k])[|old(normal[k])| - 1]].location == NORMAL
      ensures !aggressive ==> NormalsKept(old(spans), spans)
      ensures n > 0 ==> ReleasedWhole(old(spans), spans, old(normal[k])[|old(normal[k])| - 1], n)
      ensures !aggressive ==> freePages == old(freePages) - n && unmappedPages == old(unmappedPages) + n
      ensures !aggressive ==> unmappedPages + committedPages == old(unmappedPages + committedPages)
      ensures aggressive && releaseWorks ==> unmappedPages + committedPages == old(unmappedPages + committedPages) - n
    {
      hide Layout, SumAll, NormalsKept, Within, Counted, Absorbed, CoalescedBut, TightBut, PackedBut, Settles;
      var id := normal[k][|normal[k]| - 1];
      assert id in normal[k];
      assert Belongs(spans, id, NORMAL, {});
      LiveSpan(spans, pagemap, owner, id);
      assert aggressive ==> !NoNormalBut(spans, {});
      NormalsKeptSame(spans);
      SettlesReflexive(spans);
      var released := DecommitSpan(id);
      if released {
        n := Release(id);
      } else {
        n := 0;
      }
    }

    /** The span `id`, of `n` pages, is returned, perhaps as part of a larger one. */
    ghost predicate ReleasedWhole(was: Store, now: Store, id: SpanId, n: nat) {
      id in was && id in now && was[id].length == n && now[id].location == RETURNED && Within(was[id], now[id])
    }

    /** Move a normal span, already decommitted, to the returned lists. */
    method Release(id: SpanId) returns (n: nat)
      requires Valid() && id in spans && spans[id].location == NORMAL
      modifies `spans, `pagemap, `owner, `normal, `returned, `freePages, `unmappedPages, `committedPages
      ensures !aggressive ==> NormalsKept(old(spans), spans)
      ensures Valid() && Settles(old(spans), spans) && n == old(spans[id]).length > 0 && ReleasedWhole(old(spans), spans, id, n)
      ensures !aggressive && old(CoalescedBut(spans, {}) && unmappedPages + committedPages + spans[id].length == systemPages) ==> Regular()
      ensures freePages <= old(freePages) - n && unmappedPages >= old(unmappedPages) + n
      ensures !aggressive ==> freePages == old(freePages) - n && unmappedPages == old(unmappedPages) + n && committedPages == old(committedPages)
      ensures aggressive && releaseWorks ==> unmappedPages + committedPages == old(unmappedPages + committedPages)
    {
      hide Layout, Holds, SumAll, Absorbed, Settles, CoalescedBut, TightBut, NoNormalBut;
      LiveSpan(spans, pagemap, owner, id);
      n := spans[id].length;
      ghost var s0 := spans;
      RemoveFromFreeList(id, {}, 0);
      assert {} + {id} == {id};
      Relabel(id, spans[id].(location := RETURNED), {id}, n);
      ghost var s1 := spans;
      RelabelCoalesced(s0, s1, id);
      MergeIntoFreeList(id);
      AbsorbedSettles(s0, s1, spans, id);
      AbsorbedWithin(s0, s1, spans, id);
    }

    lemma AbsorbedWithin(was: Store, mid: Store, now: Store, id: SpanId)
      requires id in was && mid == was[id := was[id].(location := RETURNED)] && Absorbed(mid, now, id) && now[id].location == RETURNED
      ensures id in now && Within(was[id], now[id]) && NormalsKept(was, now)
    { }

    lemma RelabelCoalesced(s0: Store, s1: Store, id: SpanId)
      requires id in s0 && s1 == s0[id := s0[id].(location := RETURNED)]
      ensures CoalescedBut(s0, {}) ==> CoalescedBut(s1, {id})
    { }

    /** The list visited at step `i` of a round that begins with release_index_ == `r`. */
    ghost function Visited(r: nat, i: nat): nat {
      if r + i <= maxPages then r + i else r + i - (maxPages + 1)
    }

    /** A round visits every list. */
    lemma RoundIsComplete(r: nat, k: nat)
      requires r <= maxPages + 1 && k <= maxPages
      ensures exists i :: 0 <= i <= maxPages && Visited(r, i) == k
    {
      var i := if r <= k then k - r else k + maxPages + 1 - r;
      assert 0 <= i <= maxPages && Visited(r, i) == k;
    }

    /** If free pages remain, some list visited in a round is non-empty. */
    lemma RoundFindsSpan(r: nat)
      requires Valid() && r <= maxPages + 1 && freePages > 0
      ensures exists i :: 0 <= i <= maxPages && normal[Visited(r, i)] != []
    {
      if forall k | 0 <= k <= maxPages :: normal[k] == [] {
        SumAllEmpty(spans, normal);
        assert false;
      }
      var k :| 0 <= k <= maxPages && normal[k] != [];
      RoundIsComplete(r, k);
    }

    ghost function Snapshot(): Books
      reads this
    {
      Books(spans, freePages, unmappedPages, unmappedPages + committedPages, Regular())
    }

    /** What releasing `r` pages since `b` amounts to. */
    ghost predicate Released(b: Books, r: int)
      reads this
    {
      && Valid() && Settles(b.spans, spans) && (b.regular ==> Regular())
      && freePages <= b.free - r && unmappedPages >= b.unmapped + r && (r == 0 ==> freePages == b.free)
      && (!aggressive ==> freePages == b.free - r && unmappedPages == b.unmapped + r && unmappedPages + committedPages == b.mapped)
      && (aggressive && releaseWorks ==> unmappedPages + committedPages == b.mapped - r)
      && (!aggressive ==> NormalsKept(b.spans, spans))
    }

    /** No normal span is new or has changed. */
    ghost predicate NormalsKept(was: Store, now: Store) {
      forall x | x in now && now[x].location == NORMAL :: x in was && was[x] == now[x]
    }

    lemma NormalsKeptSame(a: Store)
      ensures NormalsKept(a, a)
    { }

    lemma NormalsKeptThen(a: Store, b: Store, c: Store)
      requires NormalsKept(a, b) && NormalsKept(b, c)
      ensures NormalsKept(a, c)
    { }

    lemma StillShort(was: Store, r: nat, released: nat, num: nat)
      requires r < num && released > 0 && exists x :: x in was && was[x].location == NORMAL && was[x].length == released
      ensures NoMoreThan(was, r + released, num)
    { }

    /** One of the spans released would have been left, had `r` pages not still been short of `num`. */
    ghost predicate NoMoreThan(was: Store, r: int, num: int) {
      r > 0 ==> exists x :: x in was && was[x].location == NORMAL && r - was[x].length < num
    }

    /** One step of a round: release from the list at releaseIndex, if it has a span. */
    method ReleaseStep(ghost b: Books, r: nat) returns (released: nat, stop: bool)
      requires Released(b, r) && releaseIndex <= maxPages
      modifies `spans, `pagemap, `owner, `normal, `returned, `freePages, `unmappedPages, `committedPages
      ensures Released(b, r + released) && freePages <= old(freePages) - released
      ensures old(normal)[releaseIndex] != [] ==> released > 0 || stop
      ensures old(normal)[releaseIndex] == [] ==> released == 0 && !stop && normal == old(normal) && freePages == old(freePages)
      ensures stop ==> !releaseWorks && released == 0
      ensures !aggressive && released > 0 ==> exists x :: x in b.spans && b.spans[x].location == NORMAL && b.spans[x].length == released
    {
      hide Layout, Holds, SumAll, Regular, Settles;
      released, stop := 0, false;
      if normal[releaseIndex] != [] {
        ghost var s1 := spans;
        released := ReleaseLastNormalSpan(releaseIndex);
        SettlesTransitive(b.spans, s1, spans);
        if !aggressive { NormalsKeptThen(b.spans, s1, spans); }
        stop := released == 0;
      }
    }

    lemma ListCount()
      requires Valid()
      ensures |normal| == maxPages + 1
    { }

    /** One round over all lists. It lowers the number of free pages, unless the system refused. */
    method ReleaseRound(ghost b: Books, r0: nat, num: nat) returns (r: nat, stop: bool)
      requires Released(b, r0) && r0 < num && freePages > 0
      modifies `spans, `pagemap, `owner, `normal, `returned, `freePages, `unmappedPages, `committedPages, `releaseIndex
      ensures Released(b, r) && r >= r0 && (!aggressive && r > r0 ==> NoMoreThan(b.spans, r, num))
      ensures !stop ==> freePages < old(freePages)
      ensures stop ==> !releaseWorks
    {
      hide State, Regular, Settles, InAddressSpace, NoMoreThan, NormalsKept;
      ListCount();
      r, stop := r0, false;
      ghost var start := releaseIndex;
      RoundFindsSpan(start);
      ghost var hit :| 0 <= hit <= maxPages && normal[Visited(start, hit)] != [];
      var i := 0;
      while i < maxPages + 1 && r < num
        invariant 0 <= i <= maxPages + 1 && |normal| == maxPages + 1
        invariant Released(b, r) && r >= r0 && (!aggressive && r > r0 ==> NoMoreThan(b.spans, r, num))
        invariant releaseIndex == start + i || releaseIndex == start + i - (maxPages + 1)
        invariant freePages < old(freePages) ||
                  (freePages == old(freePages) && i <= hit && normal[Visited(start, hit)] != [] && r < num)
      {
        if releaseIndex > maxPages { releaseIndex := 0; }
        assert releaseIndex == Visited(start, i);
        var released;
        released, stop := ReleaseStep(b, r);
        if stop { return; }
        ListCount();
        if !aggressive && released > 0 { StillShort(b.spans, r, released, num); }
        r := r + released;
        i, releaseIndex := i + 1, releaseIndex + 1;
      }
    }

    /** `ReleaseAtLeastNPages`: whole round-robin passes over the normal lists until enough is
        released or nothing is left. In the lazy mode exactly the pages reported move; in the eager
        mode the books drift by exactly as many. */
    method ReleaseAtLeastNPages(num: nat) returns (r: nat)
      requires Valid()
      modifies `spans, `pagemap, `owner, `normal, `returned, `freePages, `unmappedPages, `committedPages, `releaseIndex
      ensures Released(old(Snapshot()), r)
      ensures releaseWorks ==> r >= num || freePages == 0
      ensures !aggressive ==> NoMoreThan(old(spans), r, num)
    {
      hide Layout, Holds, SumAll, Regular, Settles;
      r := 0;
      SettlesReflexive(spans);
      ghost var b := Snapshot();
      var stop := false;
      while r < num && freePages > 0
        invariant Released(b, r) && (!aggressive ==> NoMoreThan(b.spans, r, num))
        decreases freePages
      {
        r, stop := ReleaseRound(b, r, num);
        if stop { return; }
      }
    }

    /** `IncrementalScavenge`. The delay computed from the release rate is any bounded number. */
    method IncrementalScavenge(n: nat)
      requires Valid()
      modifies `spans, `pagemap, `owner, `normal, `returned, `freePages, `unmappedPages, `committedPages, `releaseIndex, `scavengeCounter
      ensures Valid() && Settles(old(spans), spans)
      ensures old(Regular()) ==> Regular()
      ensures !aggressive ==> freePages + unmappedPages == old(freePages + unmappedPages)
      ensures if old(scavengeCounter) >= n then spans == old(spans) && scavengeCounter == old(scavengeCounter) - n else scavengeCounter >= 0
      ensures old(scavengeCounter) < n ==> if freePages == old(freePages) then scavengeCounter == DEFAULT_RELEASE_DELAY else scavengeCounter <= MAX_RELEASE_DELAY
      ensures !aggressive && freePages != old(freePages) ==> exists x :: x in old(spans) && old(spans)[x].location == NORMAL && freePages >= old(freePages) - old(spans)[x].length
      ensures releaseRateTiny ==> spans == old(spans) && freePages == old(freePages)
      ensures old(scavengeCounter) < n && releaseWorks && !releaseRateTiny ==> freePages < old(freePages) || freePages == 0
    {
      hide Layout, Holds, SumAll, Regular, Settles;
      SettlesReflexive(spans);
      scavengeCounter := scavengeCounter - n;
      if scavengeCounter < 0 {
        if releaseRateTiny {
          scavengeCounter := DEFAULT_RELEASE_DELAY;
        } else {
          var released := ReleaseAtLeastNPages(1);
          if released == 0 {
            scavengeCounter := DEFAULT_RELEASE_DELAY;
          } else {
            var wait :| 0 <= wait <= MAX_RELEASE_DELAY;
            scavengeCounter := wait;
          }
        }
      }
    }

    /** `Delete`. Only `id` stops being in use; its pages end up inside one free span. */
    method Delete(id: SpanId)
      requires Valid() && id in spans && spans[id].location == IN_USE
      modifies `spans, `pagemap, `owner, `normal, `returned, `inUse, `freePages, `unmappedPages, `committedPages, `releaseIndex, `scavengeCounter
      ensures Valid() && SameInUse(old(spans), spans, {id})
      ensures id in spans ==> spans[id].Free()
      ensures InFree(spans, old(spans[id]).(location := NORMAL))
      ensures old(Regular()) ==> Regular()
      ensures !aggressive ==> freePages + unmappedPages == old(freePages + unmappedPages) + old(spans[id]).length
      ensures !aggressive && releaseRateTiny ==> freePages == old(freePages) + old(spans[id]).length
    {
      hide Layout, Holds, SumAll, Regular, RegularBut, Settles, SameInUse, InFree;
      var n := spans[id].length;
      ghost var s0 := spans;
      Unuse(id);
      ghost var s1 := spans;
      MergeIntoFreeList(id);
      ghost var s2 := spans;
      IncrementalScavenge(n);
      DeleteKeeps(s0, s1, s2, spans, id);
      DeleteSettles(s0, s1, s2, spans, id);
    }

    /** From in use to about to be merged. */
    method Unuse(id: SpanId)
      requires Valid() && id in spans && spans[id].location == IN_USE
      modifies `spans, `inUse
      ensures spans == old(spans)[id := old(spans[id]).(sizeclass := 0, location := NORMAL)] && State({id}, spans[id].length)
      ensures old(Regular()) ==> RegularBut(id)
    {
      hide Layout, Holds, SumAll;
      var n := spans[id].length;
      Retire(id);
      Relabel(id, spans[id].(sizeclass := 0, location := NORMAL), {id}, n);
    }

    lemma DeleteKeeps(s0: Store, s1: Store, s2: Store, s3: Store, id: SpanId)
      requires id in s0 && s0[id].location == IN_USE && s1 == s0[id := s0[id].(sizeclass := 0, location := NORMAL)]
      requires Absorbed(s1, s2, id) && id in s2 && s2[id].Free() && Settles(s2, s3)
      ensures SameInUse(s0, s3, {id}) && (id in s3 ==> s3[id].Free())
    {
      hide InFree, Within;
    }

    lemma DeleteSettles(s0: Store, s1: Store, s2: Store, s3: Store, id: SpanId)
      requires id in s0 && s0[id].location == IN_USE && s1 == s0[id := s0[id].(sizeclass := 0, location := NORMAL)]
      requires Absorbed(s1, s2, id) && id in s2 && s2[id].Free() && Settles(s2, s3)
      ensures InFree(s3, s0[id].(location := NORMAL))
    {
      hide SameInUse;
      assert InFree(s3, s2[id]);
      var z :| z in s3 && s3[z].Free() && Within(s2[id], s3[z]);
      assert Within(s2[id], s3[z]) && Within(s1[id], s2[id]) && Within(s0[id].(location := NORMAL), s3[z]);
    }

    // ----- Cutting spans

    /** `NewSpan`: any unused descriptor; metadata allocation may take more from the system. */
    method NewSpan() returns (id: SpanId)
      requires Valid()
      modifies `systemTaken
      ensures Valid() && id !in spans
    {
      ghost var n := FreshExists(spans.Keys);
      assert n !in spans;
      id :| id !in spans;
      var extra :| 0 <= extra;
      systemTaken := systemTaken + extra;
    }

    /** Cut the span `id`, which is in limbo, after `s.length` pages; both parts are in limbo. */
    method Cut(id: SpanId, rest: SpanId, s: Span, tail: Span)
      requires id in spans && State({id}, spans[id].length) && rest !in spans
      requires s.start == spans[id].start && 0 < s.length < spans[id].length && s.sizeclass == 0
      requires tail.start == s.Limit() && tail.Limit() == spans[id].Limit() && tail.sizeclass == 0
      modifies `spans, `pagemap, `owner
      ensures spans == old(spans)[id := s][rest := tail] && State({id, rest}, s.length + tail.length)
    {
      hide Layout, Holds, SumAll;
      SplitLayout(spans, pagemap, owner, id, rest, s, tail);
      ListsFrame(spans[id := s][rest := tail], {id}, {id, rest});
      pagemap := SplitMap(pagemap, spans[id], s.length, id, rest);
      owner := SplitOwner(owner, tail, rest);
      spans := spans[id := s][rest := tail];
    }

    /** The list work of `Carve`: unlink `id`, cut it, link the leftover; `id` is left in limbo. */
    method Shorten(id: SpanId, n: nat)
      requires Valid() && id in spans && spans[id].Free() && 0 < n <= spans[id].length
      modifies `spans, `pagemap, `owner, `normal, `returned, `freePages, `unmappedPages, `systemTaken
      ensures id in spans && spans[id].location == IN_USE && spans[id].length == n
      ensures State({id}, n) && Carved(old(spans), spans, id, n)
      ensures old(Packed(spans, aggressive)) ==> Packed(spans, aggressive)
      ensures old(NoNormalBut(spans, {})) ==> NoNormalBut(spans, {})
      ensures freePages == old(freePages) - (if old(spans[id]).location == NORMAL then n else 0)
      ensures unmappedPages == old(unmappedPages) - (if old(spans[id]).location == RETURNED then n else 0)
    {
      hide Layout, Holds, SumAll, Packed, NoNormalBut, Carved;
      var s := spans[id];
      LiveSpan(spans, pagemap, owner, id);
      if s.length > n {
        var rest := NewSpan();
        CarvedPacked(id, rest, n, aggressive);
        CutOff(id, rest, n);
      } else {
        CarvedWhole(spans, id, aggressive);
        RemoveFromFreeList(id, {}, 0);
        assert {} + {id} == {id};
        Relabel(id, s.(location := IN_USE), {id}, n);
      }
    }

    /** `id` keeps its first `n` pages, in limbo; the leftover `rest` goes on the list it came from. */
    method CutOff(id: SpanId, rest: SpanId, n: nat)
      requires Valid() && id in spans && spans[id].Free() && 0 < n < spans[id].length && rest !in spans
      modifies `spans, `pagemap, `owner, `normal, `returned, `freePages, `unmappedPages
      ensures State({id}, n) && spans == CarvedStore(old(spans), id, rest, n)
      ensures freePages == old(freePages) - (if old(spans[id]).location == NORMAL then n else 0)
      ensures unmappedPages == old(unmappedPages) - (if old(spans[id]).location == RETURNED then n else 0)
    {
      hide Layout, Holds, SumAll;
      var s := spans[id];
      LiveSpan(spans, pagemap, owner, id);
      RemoveFromFreeList(id, {}, 0);
      assert {} + {id} == {id};
      Cut(id, rest, s.(length := n, location := IN_USE), Span(s.start + n, s.length - n, s.location, 0));
      PrependToFreeList(rest, {id, rest}, s.length);
      assert {id, rest} - {rest} == {id};
    }

    /** `Carve`: the first `n` pages of a free span become in use, any leftover stays free where it was. */
    method Carve(id: SpanId, n: nat)
      requires Valid() && id in spans && spans[id].Free() && 0 < n <= spans[id].length
      modifies `spans, `pagemap, `owner, `normal, `returned, `inUse, `freePages, `unmappedPages, `committedPages, `systemTaken
      ensures Valid() && Carved(old(spans), spans, id, n) && Took(old(spans), spans, id, n)
      ensures old(Regular()) ==> Regular()
      ensures freePages == old(freePages) - (if old(spans[id]).location == NORMAL then n else 0)
      ensures unmappedPages == old(unmappedPages) - (if old(spans[id]).location == RETURNED then n else 0)
      ensures committedPages == old(committedPages) + (if old(spans[id]).location == RETURNED then n else 0)
    {
      hide Layout, Holds, SumAll, Packed, NoNormalBut, Carved, Took;
      var location := spans[id].location;
      LiveSpan(spans, pagemap, owner, id);
      ghost var s0 := spans;
      Shorten(id, n);
      CarvedTook(s0, spans, id, n);
      Enlist(id, {id}, n);
      assert {id} - {id} == {};
      if location == RETURNED { CommitSpan(id); }
    }

    /** The leftover need not be coalesced: what follows it was already packed against the whole. */
    lemma CarvedPacked(id: SpanId, rest: SpanId, n: nat, tight: bool)
      requires Layout(spans, pagemap, owner) && id in spans && spans[id].Free() && 0 < n < spans[id].length && rest !in spans
      ensures var now := CarvedStore(spans, id, rest, n);
        && Carved(spans, now, id, n)
        && (Packed(spans, tight) ==> Packed(now, tight)) && (NoNormalBut(spans, {}) ==> NoNormalBut(now, {}))
    {
      forall a | a in spans && a != id ensures Apart(spans[a], spans[id]) && spans[a].length > 0 {
        SpansApart(spans, pagemap, owner, a, id);
        LiveSpan(spans, pagemap, owner, a);
      }
      CutPacked(spans, id, rest, n, tight);
    }

    lemma CarvedWhole(was: Store, id: SpanId, tight: bool)
      requires id in was && was[id].Free()
      ensures var now := was[id := was[id].(location := IN_USE)];
        && Carved(was, now, id, was[id].length)
        && (Packed(was, tight) ==> Packed(now, tight)) && (NoNormalBut(was, {}) ==> NoNormalBut(now, {}))
    { }

    lemma CutPacked(was: Store, id: SpanId, rest: SpanId, n: nat, tight: bool)
      requires id in was && rest !in was && was[id].Free() && 0 < n < was[id].length
      requires forall a | a in was && a != id :: Apart(was[a], was[id]) && was[a].length > 0
      ensures var now := CarvedStore(was, id, rest, n);
        && (Packed(was, tight) ==> Packed(now, tight)) && (NoNormalBut(was, {}) ==> NoNormalBut(now, {}))
    {
      var now := CarvedStore(was, id, rest, n);
      forall a, b | a in now && b in now && now[a].Limit() == now[b].start && now[a].Free() && now[b].Free()
        ensures var a', b' := if a == rest then id else a, if b == rest then id else b;
                was[a'].Limit() == was[b'].start && was[a'].location == now[a].location && was[b'].location == now[b].location
      { }
    }

    /** `Split`: an in-use span becomes two in-use spans that tile it. */
    method Split(id: SpanId, n: nat) returns (rest: SpanId)
      requires Valid() && id in spans && spans[id].location == IN_USE && spans[id].sizeclass == 0 && 0 < n < spans[id].length
      modifies `spans, `pagemap, `owner, `inUse, `systemTaken
      ensures Valid() && rest !in old(spans)
      ensures spans == old(spans)[id := old(spans[id]).(length := n)]
                                 [rest := Span(old(spans[id]).start + n, old(spans[id]).length - n, IN_USE, 0)]
      ensures old(Regular()) ==> Regular()
    {
      hide Layout, Holds, SumAll, Packed, NoNormalBut, State;
      rest := NewSpan();
      SplitPacked(spans, id, rest, n, aggressive);
      CutInUse(id, rest, n);
    }

    method CutInUse(id: SpanId, rest: SpanId, n: nat)
      requires Valid() && id in spans && spans[id].location == IN_USE && spans[id].sizeclass == 0 && 0 < n < spans[id].length && rest !in spans
      modifies `spans, `pagemap, `owner, `inUse
      ensures Valid()
      ensures spans == old(spans)[id := old(spans[id]).(length := n)]
                                 [rest := Span(old(spans[id]).start + n, old(spans[id]).length - n, IN_USE, 0)]
    {
      hide Layout, Holds, SumAll;
      var s := spans[id];
      Retire(id);
      Cut(id, rest, s.(length := n), Span(s.start + n, s.length - n, IN_USE, 0));
      Enlist(rest, {id, rest}, s.length);
      assert {id, rest} - {rest} == {id};
      Enlist(id, {id}, n);
      assert {id} - {id} == {};
    }

    lemma SplitPacked(was: Store, id: SpanId, rest: SpanId, n: nat, tight: bool)
      requires id in was && rest !in was && !was[id].Free() && 0 < n < was[id].length
      ensures var now := was[id := was[id].(length := n)][rest := Span(was[id].start + n, was[id].length - n, IN_USE, 0)];
        && (Packed(was, tight) ==> Packed(now, tight)) && (NoNormalBut(was, {}) ==> NoNormalBut(now, {}))
    { }

    /** `RegisterSizeClass`: from now on every page of the span leads to it. */
    method RegisterSizeClass(id: SpanId, sc: nat)
      requires Valid() && id in spans && spans[id].location == IN_USE
      modifies `spans, `pagemap
      ensures Valid() && spans == old(spans)[id := old(spans[id]).(sizeclass := sc)]
      ensures forall p | old(spans[id]).Covers(p) :: MapsTo(pagemap, p, id)
      ensures old(Regular()) ==> Regular()
    {
      hide Layout, Holds, SumAll;
      var s := spans[id];
      LiveSpan(spans, pagemap, owner, id);
      ghost var before := pagemap;
      var i := 1;
      while i < s.length - 1
        modifies `pagemap
        invariant 1 <= i <= s.length
        invariant forall p | p in before && !s.Covers(p) :: MapsTo(pagemap, p, before[p])
        invariant forall p | p in pagemap && !s.Covers(p) :: p in before
        invariant forall p | s.start <= p < s.start + i :: p in pagemap && pagemap[p] == id
        invariant MapsTo(pagemap, s.Limit() - 1, id)
      {
        assert s.Covers(s.start + i);
        pagemap := pagemap[s.start + i := id];
        i := i + 1;
      }
      RegisterLayout(before, pagemap, id, sc);
      ListsFrameSameKind(spans[id := s.(sizeclass := sc)]);
      spans := spans[id := s.(sizeclass := sc)];
    }

    lemma RegisterLayout(before: PageMap, after: PageMap, id: SpanId, sc: nat)
      requires Layout(spans, before, owner) && id in spans && spans[id].location == IN_USE
      requires forall p | p in before && !spans[id].Covers(p) :: MapsTo(after, p, before[p])
      requires forall p | p in after && !spans[id].Covers(p) :: p in before
      requires forall p | spans[id].Covers(p) :: MapsTo(after, p, id)
      ensures Layout(spans[id := spans[id].(sizeclass := sc)], after, owner)
    {
      var now := spans[id := spans[id].(sizeclass := sc)];
      RelabelTiles(spans, owner, id, spans[id].(sizeclass := sc));
      assert AllMapped(now, after) by {
        hide Layout;
        forall t | t in now ensures WellFormed(now[t]) && Mapped(after, t, now[t]) {
          LiveSpan(spans, before, owner, t);
          if t != id {
            SpansApart(spans, before, owner, t, id);
            MappedFrame(before, after, spans[id], t, spans[t]);
          }
        }
      }
      assert after.Keys <= owner.Keys by {
        hide Layout;
        LiveSpan(spans, before, owner, id);
        forall p | p in after ensures p in owner { PageLookup(spans, before, owner, p); }
      }
    }

    lemma ListsFrameSameKind(now: Store)
      requires Holds(spans, inUse, IN_USE, {}) && Holds(spans, normal, NORMAL, {}) && Holds(spans, returned, RETURNED, {})
      requires now.Keys == spans.Keys && forall x | x in spans :: now[x].location == spans[x].location && now[x].length == spans[x].length
      ensures Holds(now, inUse, IN_USE, {}) && Holds(now, normal, NORMAL, {}) && Holds(now, returned, RETURNED, {})
      ensures SumAll(now, inUse) == SumAll(spans, inUse) && SumAll(now, normal) == SumAll(spans, normal)
      ensures SumAll(now, returned) == SumAll(spans, returned)
    {
      HoldsFrame(spans, now, inUse, IN_USE, {}, {});
      HoldsFrame(spans, now, normal, NORMAL, {}, {});
      HoldsFrame(spans, now, returned, RETURNED, {}, {});
    }

    // ----- The heap limit

    ghost predicate WithinLimit(n: nat)
      reads `systemTaken, `unmappedPages
    {
      limit == 0 || systemTaken - unmappedPages + n <= limit
    }

    /** No unmapped pages were taken, or the limit is met with them. */
    twostate predicate LimitKept()
      reads `unmappedPages
    {
      unmappedPages >= old(unmappedPages) || limit == 0 || old(systemTaken) - unmappedPages <= limit
    }

    /** `EnsureLimit`. A yes is always right. In the lazy mode a no is too, and if the platform can
        release then a no means there was nothing left to release. */
    method EnsureLimit(n: nat, withRelease: bool) returns (ok: bool)
      requires Valid()
      modifies `spans, `pagemap, `owner, `normal, `returned, `freePages, `unmappedPages, `committedPages, `releaseIndex
      ensures Valid() && Settles(old(spans), spans) && (old(Regular()) ==> Regular())
      ensures old(WithinLimit(n)) || !withRelease ==> unchanged(this)
      ensures unmappedPages >= old(unmappedPages)
      ensures !aggressive ==> freePages + unmappedPages == old(freePages + unmappedPages)
      ensures ok ==> WithinLimit(n)
      ensures !withRelease || !aggressive ==> (ok <==> WithinLimit(n))
      ensures !ok && withRelease && releaseWorks ==> freePages == 0
      ensures old(WithinLimit(n)) ==> ok
      ensures !aggressive && unmappedPages != old(unmappedPages) ==>
        exists x :: x in old(spans) && old(spans)[x].location == NORMAL && systemTaken - unmappedPages + old(spans)[x].length + n > limit
    {
      hide Layout, Holds, SumAll, Regular, Settles;
      SettlesReflexive(spans);
      if limit == 0 { return true; }
      var takenPages := systemTaken - unmappedPages;
      if takenPages + n > limit && withRelease {
        var released := ReleaseAtLeastNPages(takenPages + n - limit);
        takenPages := takenPages - released;
      }
      ok := takenPages + n <= limit;
    }

    // ----- Finding a span

    /** One loop of `AllocLarge`: carry the best fit across a further list. */
    method ScanList(list: seq<SpanId>, best0: Option<SpanId>, n: nat, ghost seen: seq<SpanId>) returns (best: Option<SpanId>)
      requires (forall x | x in list :: x in spans) && BestOf(spans, seen, best0, n)
      ensures BestOf(spans, seen + list, best, n)
      ensures best == best0 || (best.Some? && best.value in list)
    {
      best := best0;
      assert seen + list[..0] == seen;
      for i := 0 to |list|
        invariant BestOf(spans, seen + list[..i], best, n)
        invariant best == best0 || (best.Some? && best.value in list)
      {
        var x := list[i];
        if spans[x].length >= n && (best.None? || spans[x].length < spans[best.value].length
                                      || (spans[x].length == spans[best.value].length && spans[x].start < spans[best.value].start)) {
          best := Some(x);
        }
        assert seen + list[..i + 1] == seen + list[..i] + [x];
      }
      assert seen + list[..|list|] == seen + list;
    }

    /** The scan of `AllocLarge`: address-ordered best fit over both large lists. */
    method FindBestFit(n: nat) returns (best: Option<SpanId>, bestNormal: Option<SpanId>)
      requires Valid()
      ensures best.None? ==> NoLargeFit(spans, maxPages, n)
      ensures best.Some? ==> BestLargeFit(spans, maxPages, best.value, n)
      ensures best == bestNormal && best.Some? ==> spans[best.value].location == NORMAL
      ensures best != bestNormal ==> best.Some? && spans[best.value].location == RETURNED
    {
      hide Layout, Holds, SumAll;
      LargeLists();
      best := ScanList(normal[maxPages], None, n, []);
      bestNormal := best;
      best := ScanList(returned[maxPages], best, n, [] + normal[maxPages]);
    }

    /** The two large lists hold exactly the free spans of at least maxPages pages. */
    lemma LargeLists()
      requires Valid()
      ensures forall x :: x in normal[maxPages] <==> x in spans && spans[x].location == NORMAL && spans[x].length >= maxPages
      ensures forall x :: x in returned[maxPages] <==> x in spans && spans[x].location == RETURNED && spans[x].length >= maxPages
    {
      hide Layout, SumAll;
      forall x ensures x in normal[maxPages] <==> x in spans && spans[x].location == NORMAL && spans[x].length >= maxPages {
        assert Belongs(spans, x, NORMAL, {}) <==> x in spans && spans[x].location == NORMAL;
      }
      forall x ensures x in returned[maxPages] <==> x in spans && spans[x].location == RETURNED && spans[x].length >= maxPages {
        assert Belongs(spans, x, RETURNED, {}) <==> x in spans && spans[x].location == RETURNED;
      }
    }

    /** `AllocLarge`. What it carves is always the best fit: at once within the limit, and otherwise
        perhaps after releasing memory and one retry, for which the limit is ensured and the
        returned span found first has survived, possibly inside a larger one. */
    method AllocLarge(n: nat) returns (r: Option<SpanId>)
      requires Valid() && n > 0
      modifies `spans, `pagemap, `owner, `normal, `returned, `inUse, `freePages, `unmappedPages, `committedPages, `releaseIndex, `systemTaken
      ensures Valid() && (old(Regular()) ==> Regular())
      ensures r.Some? ==> Took(old(spans), spans, r.value, n)
      ensures r.None? ==> Settles(old(spans), spans) && unmappedPages >= old(unmappedPages) && systemTaken == old(systemTaken)
      ensures r.Some? ==> LimitKept()
      ensures r.Some? ==> CarvedBest(old(spans), spans, maxPages, r.value, n)
      ensures NoLargeFit(old(spans), maxPages, n) ==> r.None? && unchanged(this)
      ensures old(WithinLimit(n)) && !NoLargeFit(old(spans), maxPages, n) ==>
        r.Some? && BestLargeFit(old(spans), maxPages, r.value, n) && Carved(old(spans), spans, r.value, n)
      ensures r.None? && !NoLargeFit(old(spans), maxPages, n) ==> (!aggressive ==> !WithinLimit(n)) && (releaseWorks ==> freePages == 0)
      decreases if WithinLimit(n) then 0 else 1
    {
      hide State, Regular, Settles, Took, Carved;
      SettlesReflexive(spans);
      ghost var s0 := spans;
      var best, bestNormal := FindBestFit(n);
      if best == bestNormal {
        if best.Some? { Carve(best.value, n); }
        return best;
      }
      var ok := EnsureLimit(n, false);
      if ok {
        Carve(best.value, n);
        return best;
      }
      ok := EnsureLimit(n, true);
      if ok {
        ghost var s1 := spans;
        SettledStillFits(s0, s1, maxPages, best.value, n);
        r := AllocLarge(n);
        SettlesTook(s0, s1, spans, r.value, n);
        assert CarvedBest(s0, spans, maxPages, r.value, n);
      } else {
        r := None;
      }
    }

    /** `SearchFreeAndLargeLists`. Within the limit it carves a span of the least sufficient length
        in the whole heap, and fails exactly if no free span is long enough. Over it, in the lazy
        mode with a release that works, failure means that nothing was long enough or that the
        limit is not met with everything released. */
    method SearchFreeAndLargeLists(n: nat) returns (r: Option<SpanId>)
      requires Valid() && n > 0
      modifies `spans, `pagemap, `owner, `normal, `returned, `inUse, `freePages, `unmappedPages, `committedPages, `releaseIndex, `systemTaken
      ensures Valid() && (old(Regular()) ==> Regular())
      ensures r.Some? ==> Took(old(spans), spans, r.value, n)
      ensures r.None? ==> Settles(old(spans), spans) && unmappedPages >= old(unmappedPages) && systemTaken == old(systemTaken)
      ensures r.Some? ==> LimitKept()
      ensures old(WithinLimit(n)) ==>
        if NoFit(old(spans), n) then r.None? && unchanged(this)
        else r.Some? && ClosestFit(old(spans), r.value, n) && Carved(old(spans), spans, r.value, n)
      ensures r.None? && !aggressive && releaseWorks ==>
        (NoFit(old(spans), n) && spans == old(spans)) || (!WithinLimit(n) && freePages == 0)
    {
      hide State, Regular, Settles, Took, Carved, CarvedBest;
      SettlesReflexive(spans);
      var s := n;
      while s < maxPages
        invariant unmappedPages >= old(unmappedPages) && systemTaken == old(systemTaken)
        invariant Valid() && Settles(old(spans), spans) && (old(Regular()) ==> Regular())
        invariant s >= n && (old(WithinLimit(n)) ==> unchanged(this) && NoneBetween(spans, n, s))
        invariant !aggressive && releaseWorks ==> (spans == old(spans) && NoneBetween(spans, n, s)) || Stuck(n) || Ahead(n, s)
      {
        ghost var s1 := spans;
        r := TryLength(n, s);
        if r.Some? { SettlesTook(old(spans), s1, spans, r.value, n); return; }
        SettlesTransitive(old(spans), s1, spans);
        s := s + 1;
      }
      ghost var s1 := spans;
      r := AllocLarge(n);
      if r.Some? { SettlesTook(old(spans), s1, spans, r.value, n); } else { SettlesTransitive(old(spans), s1, spans); }
    }

    /** One round of the search: the lists of spans of `s` pages. */
    method TryLength(n: nat, s: nat) returns (r: Option<SpanId>)
      requires Valid() && 0 < n <= s < maxPages
      modifies `spans, `pagemap, `owner, `normal, `returned, `inUse, `freePages, `unmappedPages, `committedPages, `releaseIndex, `systemTaken
      ensures Valid() && (old(Regular()) ==> Regular())
      ensures r.Some? ==> Took(old(spans), spans, r.value, n)
      ensures r.Some? && old(WithinLimit(n)) ==> r.value in old(spans) && old(spans)[r.value].Free() && old(spans)[r.value].length == s && Carved(old(spans), spans, r.value, n)
      ensures old(normal)[s] != [] ==> r == Some(old(normal)[s][0]) && Carved(old(spans), spans, r.value, n)
      ensures old(normal)[s] == [] && old(returned)[s] != [] && old(WithinLimit(n)) ==> r == Some(old(returned)[s][0])
      ensures r.None? ==> Settles(old(spans), spans) && unmappedPages >= old(unmappedPages) && systemTaken == old(systemTaken)
      ensures r.Some? ==> LimitKept()
      ensures r.None? && old(WithinLimit(n)) ==> unchanged(this) && NoneOf(spans, s)
      ensures r.None? ==> (unchanged(this) && NoneOf(spans, s)) || (!aggressive && releaseWorks ==> Stuck(n) || Ahead(n, s + 1))
    {
      hide Layout, Holds, SumAll, Regular, Settles, Took, Carved;
      SettlesReflexive(spans);
      r := None;
      ghost var s0 := spans;
      SmallLists(s);
      if normal[s] != [] {
        r := Some(normal[s][0]);
        Carve(r.value, n);
      } else if returned[s] != [] {
        ghost var hit := returned[s][0];
        var ok := EnsureLimit(n, true);
        ReturnedSurvives(s0, spans, hit);
        ghost var s1 := spans;
        SmallLists(s);
        if ok && returned[s] != [] {
          r := Some(returned[s][0]);
          Carve(r.value, n);
          SettlesTook(s0, s1, spans, r.value, n);
        }
      }
    }

    ghost predicate NoneOf(spans: Store, s: nat) {
      forall x | x in spans && spans[x].Free() :: spans[x].length != s
    }

    /** Over the limit with nothing left to release. */
    ghost predicate Stuck(n: nat)
      reads this
    {
      !WithinLimit(n) && freePages == 0
    }

    /** Within the limit, with a long enough span still to come. */
    ghost predicate Ahead(n: nat, s: nat)
      reads this
    {
      WithinLimit(n) && exists x :: x in spans && spans[x].Free() && spans[x].length >= s
    }

    lemma ReturnedSurvives(was: Store, now: Store, id: SpanId)
      requires Settles(was, now) && id in was && was[id].location == RETURNED
      ensures exists y :: y in now && now[y].location == RETURNED && now[y].length >= was[id].length
    {
      assert InFree(now, was[id]);
      var y :| y in now && now[y].Free() && (was[id].location == RETURNED ==> now[y].location == RETURNED) && Within(was[id], now[y]);
      assert Within(was[id], now[y]);
    }

    /** The lists for length `s` hold exactly the free spans of that length. */
    lemma SmallLists(s: nat)
      requires Valid() && s < maxPages
      ensures forall x :: x in normal[s] <==> x in spans && spans[x].location == NORMAL && spans[x].length == s
      ensures forall x :: x in returned[s] <==> x in spans && spans[x].location == RETURNED && spans[x].length == s
    {
      hide Layout, SumAll;
      forall x ensures x in normal[s] <==> x in spans && spans[x].location == NORMAL && spans[x].length == s {
        assert Belongs(spans, x, NORMAL, {}) <==> x in spans && spans[x].location == NORMAL;
      }
      forall x ensures x in returned[s] <==> x in spans && spans[x].location == RETURNED && spans[x].length == s {
        assert Belongs(spans, x, RETURNED, {}) <==> x in spans && spans[x].location == RETURNED;
      }
    }

    // ----- Growing the heap

    /** The `n` pages from `p` on are in the address space and were never handed out. */
    predicate Grantable(p: int, n: nat)
      reads `systemRange
    {
      0 < p && p + n <= addressPages && PagesOf(Span(p, n, IN_USE, 0)) !! systemRange
    }

    /** There is address space for `n` more pages. */
    predicate CanGrant(n: nat)
      reads `systemRange
    {
      exists p | 0 < p < addressPages :: Grantable(p, n)
    }

    /** As pages are handed out, there is only less room. */
    twostate lemma GrantsFewer(n: nat)
      requires old(systemRange) <= systemRange && CanGrant(n)
      ensures old(CanGrant(n))
    {
      var p :| 0 < p < addressPages && Grantable(p, n);
      assert old(Grantable(p, n));
    }

    /** `TCMalloc_SystemAlloc`: hand out at least `ask` pages never handed out before, or refuse, which
        a system that works does only if there are none. */
    method SystemAlloc(ask: nat) returns (r: Option<Span>)
      requires Valid() && ask > 0
      modifies `systemTaken, `systemRange
      ensures Valid() && (systemWorks && old(CanGrant(ask)) ==> r.Some?)
      ensures r.None? ==> unchanged(this)
      ensures r.Some? ==> WellFormed(r.value) && r.value.length >= ask && r.value.location == IN_USE && r.value.sizeclass == 0
      ensures r.Some? ==> PagesOf(r.value) !! old(systemRange) && systemRange == old(systemRange) + PagesOf(r.value)
      ensures r.Some? ==> systemTaken == old(systemTaken) + r.value.length
    {
      hide Layout, Holds, SumAll;
      var p: int, actual: int := *, *;
      if actual < ask || !Grantable(p, actual) {
        if !systemWorks || !CanGrant(ask) { return None; }
        p :| 0 < p < addressPages && Grantable(p, ask);
        actual := ask;
      }
      var s := Span(p, actual, IN_USE, 0);
      systemTaken, systemRange := systemTaken + actual, systemRange + PagesOf(s);
      r := Some(s);
    }

    /** Record newly obtained pages as a span, on no list yet. */
    method Enter(id: SpanId, s: Span)
      requires Valid() && id !in spans && WellFormed(s) && s.sizeclass == 0 && lostPages >= s.length
      requires PagesOf(s) !! owner.Keys && PagesOf(s) <= systemRange
      modifies `spans, `pagemap, `owner, `granted, `lostPages
      ensures spans == old(spans)[id := s] && State({id}, s.length)
      ensures granted == old(granted) + PagesOf(s) && lostPages == old(lostPages) - s.length
    {
      hide Layout, Holds, SumAll, Recorded, GrantOwner, PagesOf;
      GrantLayout(spans, pagemap, owner, id, s);
      ListsFrame(spans[id := s], {}, {id});
      spans, pagemap, owner := spans[id := s], Recorded(pagemap, id, s), GrantOwner(owner, id, s);
      granted, lostPages := granted + PagesOf(s), lostPages - s.length;
    }

    lemma StateOwns()
      requires Valid()
      ensures owner.Keys == granted
    { }

    lemma TallyMore(pages: set<int>, s: Span)
      requires PagesOf(s) !! pages && s.length >= 0
      ensures |pages + PagesOf(s)| == |pages| + s.length
    {
      PageCount(s);
    }

    /** Enter newly obtained pages as an in-use span. */
    method Grant(s: Span) returns (id: SpanId)
      requires Valid() && WellFormed(s) && s.location == IN_USE && s.sizeclass == 0 && lostPages >= s.length
      requires PagesOf(s) !! owner.Keys && PagesOf(s) <= systemRange
      modifies `spans, `pagemap, `owner, `granted, `inUse, `systemTaken, `lostPages
      ensures Valid() && id !in old(spans) && spans == old(spans)[id := s]
      ensures granted == old(granted) + PagesOf(s) && lostPages == old(lostPages) - s.length
      ensures old(Regular()) ==> Regular()
    {
      hide Layout, Holds, SumAll, Packed, NoNormalBut, PagesOf;
      id := NewSpan();
      GrantPacked(spans, id, s, aggressive);
      Enter(id, s);
      Enlist(id, {id}, s.length);
      assert {id} - {id} == {};
    }

    lemma GrantPacked(was: Store, id: SpanId, s: Span, tight: bool)
      requires id !in was && !s.Free()
      ensures Packed(was, tight) ==> Packed(was[id := s], tight)
      ensures NoNormalBut(was, {}) ==> NoNormalBut(was[id := s], {})
    { }

    /** The two attempts of `GrowHeap` to obtain pages: a generous one, then just `n`. */
    method Obtain(n: nat) returns (r: Option<Span>)
      requires Valid() && n > 0
      modifies `spans, `pagemap, `owner, `normal, `returned, `freePages, `unmappedPages, `committedPages, `releaseIndex, `systemTaken, `systemRange
      ensures Valid() && Settles(old(spans), spans) && (old(Regular()) ==> Regular())
      ensures limit == 0 ==> spans == old(spans)
      ensures !aggressive && old(Stuck(n)) ==> r.None? && Stuck(n)
      ensures systemWorks && old(WithinLimit(n)) && old(CanGrant(n)) ==> r.Some?
      ensures old(systemRange) <= systemRange
      ensures r.Some? && systemWorks && old(WithinLimit(maxPages)) && old(CanGrant(maxPages)) ==> r.value.length >= maxPages
      ensures r.Some? ==> PagesOf(r.value) !! old(systemRange)
      ensures r.Some? ==> WellFormed(r.value) && r.value.length >= n && r.value.location == IN_USE && r.value.sizeclass == 0
      ensures r.Some? ==> PagesOf(r.value) !! owner.Keys && PagesOf(r.value) <= systemRange && systemTaken >= systemPages + r.value.length
    {
      hide Layout, Holds, SumAll, Regular, Settles, PagesOf, Counted, InAddressSpace;
      var ask := if n > maxPages then n else maxPages;
      r := Attempt(ask, n);
      if r.None? && n < ask {
        ghost var s1 := spans;
        r := Attempt(n, n);
        SettlesTransitive(old(spans), s1, spans);
      }
    }

    /** One attempt: `ask` pages, if the limit allows. */
    method Attempt(ask: nat, ghost n: nat) returns (r: Option<Span>)
      requires Valid() && 0 < n <= ask
      modifies `spans, `pagemap, `owner, `normal, `returned, `freePages, `unmappedPages, `committedPages, `releaseIndex, `systemTaken, `systemRange
      ensures Valid() && Settles(old(spans), spans) && (old(Regular()) ==> Regular())
      ensures limit == 0 ==> spans == old(spans)
      ensures !aggressive && old(Stuck(n)) ==> r.None? && Stuck(n)
      ensures r.None? ==> systemRange == old(systemRange) && (old(WithinLimit(n)) ==> WithinLimit(n))
      ensures old(systemRange) <= systemRange
      ensures systemWorks && old(WithinLimit(ask)) && old(CanGrant(ask)) ==> r.Some?
      ensures r.Some? ==> PagesOf(r.value) !! old(systemRange)
      ensures r.Some? ==> WellFormed(r.value) && r.value.length >= ask && r.value.location == IN_USE && r.value.sizeclass == 0
      ensures r.Some? ==> PagesOf(r.value) !! owner.Keys && PagesOf(r.value) <= systemRange && systemTaken >= systemPages + r.value.length
    {
      hide Layout, Holds, SumAll, Regular, Settles, PagesOf;
      r := None;
      var ok := EnsureLimit(ask, true);
      if ok { r := SystemAlloc(ask); }
    }

    /** Count pages just obtained, as lost until they are in the page map. */
    method Book(pages: nat)
      requires Valid() && systemTaken >= systemPages + pages
      modifies `systemPages, `committedPages, `lostPages
      ensures Valid() && (old(Regular()) ==> Regular()) && lostPages == old(lostPages) + pages && systemPages == old(systemPages) + pages
      ensures old(Tallied()) ==> Tallied()
    {
      hide Layout, Holds, SumAll, Packed, NoNormalBut;
      systemPages, committedPages, lostPages := systemPages + pages, committedPages + pages, lostPages + pages;
    }

    /** `now` has a run of at least `n` pages more than `was`, none of them handed out before. */
    ghost predicate Grew(was: set<int>, now: set<int>, before: set<int>, n: nat, pages: int) {
      exists s: Span :: WellFormed(s) && n <= s.length == pages && PagesOf(s) !! before && now == was + PagesOf(s)
    }

    /** `GrowHeap`. Success leaves a free span of at least `n` pages, by pretending the new area is in
        use and deleting it: exactly its pages join those granted. If the page map cannot cover the
        new area, its pages are lost. With a system that works, it fails only for lack of address
        space or because of the limit. */
    method GrowHeap(n: nat) returns (ok: bool)
      requires Valid() && n > 0
      modifies this
      ensures Valid() && SameInUse(old(spans), spans, {}) && (old(Regular()) ==> Regular())
      ensures ok ==> !NoFit(spans, n)
      ensures !ok ==> Settles(old(spans), spans) && (limit == 0 ==> spans == old(spans))
      ensures !aggressive && old(Stuck(n)) ==> !ok && Stuck(n)
      ensures ok && !aggressive && releaseRateTiny ==> freePages > 0
      ensures old(systemRange) <= systemRange
      ensures if ok then Grew(old(granted), granted, old(systemRange), n, systemPages - old(systemPages)) else granted == old(granted)
      ensures lostPages == (old(lostPages) + if ok then 0 else systemPages - old(systemPages)) && (old(Tallied()) ==> Tallied())
      ensures systemWorks && n <= maxValidPages && old(WithinLimit(n)) && old(CanGrant(n)) ==> ok
      ensures ok && systemWorks && old(WithinLimit(maxPages)) && old(CanGrant(maxPages)) ==> systemPages - old(systemPages) >= maxPages
      ensures n > maxValidPages ==> !ok && unchanged(this)
      ensures aggressive == old(aggressive)
    {
      hide Regular, SameInUse, Settles, PagesOf, NoFit, Layout, Holds, SumAll, Tallied;
      SameInUseReflexive(spans);
      SettlesReflexive(spans);
      if n > maxValidPages { return false; }
      var got := Obtain(n);
      SettlesKeeps(old(spans), spans);
      if got.None? { return false; }
      Book(got.value.length);
      var refused: bool := *;
      ok := systemWorks || !refused;  // pagemap_.Ensure
      if ok {
        ghost var s1 := spans;
        Install(got.value, n);
        KeepsThen(old(spans), s1, spans);
        assert WellFormed(got.value);
      }
    }

    /** Enter pages that are booked as lost, and delete the span at once. */
    method Install(s: Span, ghost n: nat)
      requires Valid() && WellFormed(s) && s.location == IN_USE && s.sizeclass == 0 && lostPages >= s.length >= n > 0
      requires PagesOf(s) !! owner.Keys && PagesOf(s) <= systemRange
      modifies `spans, `pagemap, `owner, `granted, `normal, `returned, `inUse, `freePages, `unmappedPages, `committedPages, `releaseIndex, `scavengeCounter, `systemTaken, `lostPages
      ensures Valid() && SameInUse(old(spans), spans, {}) && (old(Regular()) ==> Regular()) && !NoFit(spans, n)
      ensures granted == old(granted) + PagesOf(s) && lostPages == old(lostPages) - s.length && (old(Tallied()) ==> Tallied())
      ensures !aggressive && releaseRateTiny ==> freePages == old(freePages) + s.length
    {
      hide Regular, SameInUse, PagesOf, NoFit, State;
      SameInUseReflexive(spans);
      TallyMore(granted, s) by { StateOwns(); }
      ghost var s1 := spans;
      var id := Grant(s);
      ghost var s2 := spans;
      Delete(id);
      GrownFits(s1, s1, s2, spans, id, n);
    }

    lemma GrownFits(s0: Store, s1: Store, s2: Store, s3: Store, id: SpanId, n: nat)
      requires SameInUse(s0, s1, {}) && id !in s1 && s2.Keys == s1.Keys + {id} && s2 == s1[id := s2[id]] && s2[id].length >= n
      requires SameInUse(s2, s3, {id}) && (id in s3 ==> s3[id].Free()) && InFree(s3, s2[id].(location := NORMAL))
      ensures SameInUse(s0, s3, {}) && !NoFit(s3, n)
    {
      var z :| z in s3 && s3[z].Free() && Within(s2[id].(location := NORMAL), s3[z]);
      assert Within(s2[id].(location := NORMAL), s3[z]);
    }

    lemma SameInUseReflexive(s: Store)
      ensures SameInUse(s, s, {})
    { }

    lemma SettlesKeeps(was: Store, now: Store)
      requires Settles(was, now)
      ensures SameInUse(was, now, {})
    { }

    /** `New`. The caller gets a fresh span of exactly `n` pages and no other client is disturbed. It
        is the closest fit when one is there within the limit, before the heap is grown.
        Without a heap limit, failure means no free run of `n` pages is left anywhere. With one, in
        the lazy mode and with a release that works, it means that the limit stands in the way with
        everything released, or that nothing was long enough when the heap was last searched; what
        was released after that, in the attempt to grow, may since have coalesced. With a system that
        works and no limit it succeeds as long as there is address space. */
    method New(n: nat) returns (r: Option<SpanId>)
      requires Valid() && n > 0
      modifies this
      ensures Valid() && (old(Regular()) ==> Regular()) && aggressive == old(aggressive)
      ensures r.Some? ==> Took(old(spans), spans, r.value, n)
      ensures r.None? ==> SameInUse(old(spans), spans, {})
      ensures r.None? && limit == 0 ==> NoFit(spans, n)
      ensures r.None? && !aggressive && releaseWorks ==> Stuck(n) || FailedSearch(old(spans), spans, n)
      ensures old(WithinLimit(n)) && !NoFit(old(spans), n) ==> r.Some? && ClosestFit(old(spans), r.value, n) && Carved(old(spans), spans, r.value, n)
      ensures old(granted) <= granted && old(systemRange) <= systemRange && (r.Some? ==> lostPages == old(lostPages)) && (old(Tallied()) ==> Tallied())
      ensures systemWorks && n <= maxValidPages && old(CanGrant(n)) && limit == 0 ==> r.Some?
      ensures !aggressive && releaseWorks && old(WithinLimit(n)) && NoFit(old(spans), n) && old(Crowded(n)) ==>
        Compacted(old(spans), spans, n, r, systemPages == old(systemPages))
      ensures r.None? && limit == 0 && !old(Crowded(n)) && old(freePages) <= ALL_PAGES ==> spans == old(spans)
    {
      hide State, Regular, NoFit, Carved, Settles, SameInUse, Took, FailedSearch, Tallied, ClosestFit, CanGrant, Compacted, NoNormalBut, Crowded;
      r := SearchFreeAndLargeLists(n);
      if r.Some? { return; }
      ghost var s1 := spans;
      SettlesKeeps(old(spans), s1);
      CrowdedIs(n);
      if freePages != 0 && unmappedPages != 0
         && 4 * (freePages + unmappedPages) >= systemPages
         && systemPages * PAGE_SIZE / FORCED_COALESCE_INTERVAL != (systemPages + n) * PAGE_SIZE / FORCED_COALESCE_INTERVAL
      {
        ghost var all;
        r, all := Compact(n);
        if r.Some? {
          if NoNormalBut(all, {}) && old(WithinLimit(n)) && NoFit(old(spans), n) { CompactedBy(old(spans), all, spans, n, r, true); }
          KeepsTook(old(spans), s1, spans, r.value, n);
          return;
        }
        SettlesKeeps(s1, spans);
        KeepsThen(old(spans), s1, spans);
        s1 := spans;
        r := Extend(n);
        if NoNormalBut(all, {}) && old(WithinLimit(n)) && NoFit(old(spans), n) { CompactedBy(old(spans), all, spans, n, r, systemPages == old(systemPages)); }
      } else {
        r := Extend(n);
      }
      if r.Some? { KeepsTook(old(spans), s1, spans, r.value, n); } else { KeepsThen(old(spans), s1, spans); }
      if r.None? && !aggressive && releaseWorks && !Stuck(n) { FailedSince(old(spans), s1, spans, n); }
    }

    /** Many free pages next to unmapped ones, and a request that takes the heap past the next 128MB:
        everything is released before the heap grows. */
    ghost predicate Crowded(n: nat)
      reads `freePages, `unmappedPages, `systemPages
    {
      && 0 < freePages <= ALL_PAGES && unmappedPages > 0 && 4 * (freePages + unmappedPages) >= systemPages
      && systemPages * PAGE_SIZE / FORCED_COALESCE_INTERVAL < (systemPages + n) * PAGE_SIZE / FORCED_COALESCE_INTERVAL
    }

    lemma CrowdedIs(n: nat)
      requires Valid()
      ensures Crowded(n) <==>
        && freePages != 0 && unmappedPages != 0 && 4 * (freePages + unmappedPages) >= systemPages && freePages <= ALL_PAGES
        && systemPages * PAGE_SIZE / FORCED_COALESCE_INTERVAL != (systemPages + n) * PAGE_SIZE / FORCED_COALESCE_INTERVAL
    {
      hide State;
      CountsAreSums();
    }

    /** With everything released, and so coalesced, the closest fit is carved if there is one, without
        growing the heap. */
    ghost predicate Compacted(was: Store, now: Store, n: nat, r: Option<SpanId>, sameSize: bool) {
      exists mid :: Settles(was, mid) && NoNormalBut(mid, {}) && (NoFit(mid, n) || (r.Some? && ClosestFit(mid, r.value, n) && Carved(mid, now, r.value, n) && sameSize))
    }

    lemma CompactedBy(was: Store, mid: Store, now: Store, n: nat, r: Option<SpanId>, sameSize: bool)
      requires Settles(was, mid) && NoNormalBut(mid, {}) && (NoFit(mid, n) || (r.Some? && ClosestFit(mid, r.value, n) && Carved(mid, now, r.value, n) && sameSize))
      ensures Compacted(was, now, n, r, sameSize)
    { }

    /** Release everything and search again; `all` is the heap in between. */
    method Compact(n: nat) returns (r: Option<SpanId>, ghost all: Store)
      requires Valid() && n > 0
      modifies `spans, `pagemap, `owner, `normal, `returned, `inUse, `freePages, `unmappedPages, `committedPages, `releaseIndex, `systemTaken
      ensures Valid() && (old(Regular()) ==> Regular()) && Settles(old(spans), all)
      ensures r.Some? ==> Took(old(spans), spans, r.value, n)
      ensures r.None? ==> Settles(old(spans), spans)
      ensures !aggressive && releaseWorks && old(freePages) <= ALL_PAGES ==> NoNormalBut(all, {})
      ensures old(WithinLimit(n)) ==>
        if NoFit(all, n) then r.None? && spans == all && WithinLimit(n)
        else r.Some? && ClosestFit(all, r.value, n) && Carved(all, spans, r.value, n)
      ensures r.None? && !aggressive && releaseWorks ==> NoFit(spans, n) || Stuck(n)
    {
      hide Layout, Holds, SumAll, Regular, NoFit, Carved, Settles, Took, ClosestFit, NoNormalBut;
      CountsAreSums();
      var _ := ReleaseAtLeastNPages(ALL_PAGES);
      all := spans;
      CountsAreSums();
      r := SearchFreeAndLargeLists(n);
      if r.Some? { SettlesTook(old(spans), all, spans, r.value, n); } else { SettlesTransitive(old(spans), all, spans); }
    }

    lemma CountsAreSums()
      requires Valid()
      ensures freePages >= 0 && unmappedPages >= 0 && (freePages == 0 ==> NoNormalBut(spans, {}))
    {
      hide Layout, SumAll, Sum;
      if freePages == 0 {
        forall x | x in spans && x !in {} ensures spans[x].location != NORMAL {
          if spans[x].location == NORMAL {
            assert Belongs(spans, x, NORMAL, {});
            var k := Slot(spans[x].length, |normal| - 1);
            SumAllPart(spans, normal, k, x);
            LiveSpan(spans, pagemap, owner, x);
          }
        }
      }
    }

    /** Grow the heap and search once more. */
    method Extend(n: nat) returns (r: Option<SpanId>)
      requires Valid() && n > 0
      modifies this
      ensures Valid() && (old(Regular()) ==> Regular()) && aggressive == old(aggressive)
      ensures r.Some? ==> Took(old(spans), spans, r.value, n)
      ensures r.None? ==> SameInUse(old(spans), spans, {})
      ensures r.None? && limit == 0 ==> spans == old(spans)
      ensures r.None? && !aggressive && releaseWorks ==> Stuck(n) || (Settles(old(spans), spans) && !old(Stuck(n)))
      ensures old(granted) <= granted && old(systemRange) <= systemRange && (r.Some? ==> lostPages == old(lostPages)) && (old(Tallied()) ==> Tallied())
      ensures systemWorks && n <= maxValidPages && old(CanGrant(n)) && limit == 0 ==> r.Some?
    {
      hide State, Regular, NoFit, Carved, Settles, SameInUse, Took, Tallied;
      r := None;
      var grown := GrowHeap(n);
      if grown {
        ghost var s1 := spans;
        r := SearchFreeAndLargeLists(n);
        if r.Some? {
          KeepsTook(old(spans), s1, spans, r.value, n);
        } else {
          SettlesKeeps(s1, spans);
          KeepsThen(old(spans), s1, spans);
        }
      }
    }

    lemma FailedSince(a: Store, b: Store, c: Store, n: nat)
      requires SameInUse(a, b, {}) && Settles(b, c)
      ensures NoFit(b, n) ==> FailedSearch(a, c, n)
    { }

    lemma KeepsThen(a: Store, b: Store, c: Store)
      requires SameInUse(a, b, {}) && SameInUse(b, c, {})
      ensures SameInUse(a, c, {})
    { }

    lemma KeepsTook(a: Store, b: Store, c: Store, id: SpanId, n: nat)
      requires SameInUse(a, b, {}) && Took(b, c, id, n)
      ensures Took(a, c, id, n)
    { }
  }

  /** The eager mode on a heap with a normal free span: once the first pages are granted, as they are
      for every request the heap admits, releasing leaves unmapped and committed pages short of the system's by exactly what was
      released, because it was decommitted twice. */
  method EagerDrift(n: nat) returns (heap: PageHeap, grown: bool, released: nat)
    requires n > 0
    ensures fresh(heap) && heap.Valid() && heap.aggressive && heap.releaseWorks
    ensures n <= 0x1_0000_0000 ==> grown
    ensures grown ==> released > 0 && heap.unmappedPages + heap.committedPages == heap.systemPages - released && !heap.Regular()
  {
    hide PageHeap.State, Packed, NoNormalBut, Settles, SameInUse;
    heap := new PageHeap(128, 0x1_0000_0000, 0x8_0000_0000, 0, true, true, true);
    assert n <= 0x1_0000_0000 ==> heap.Grantable(1, n);
    grown := heap.GrowHeap(n);
    heap.SetAggressiveDecommit(true);
    released := heap.ReleaseAtLeastNPages(1);
  }
}
