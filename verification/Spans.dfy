/** The data of the page heap: span descriptors, the page map, and the segregated
    free lists, with the invariants that tie them together.

    A descriptor is named by its address, a `SpanId`. Descriptor memory is recycled, so a
    stale page-map entry may name a descriptor that now describes other pages; nothing
    below assumes otherwise. An absent page-map key stands for a NULL entry.
 */
module Spans {
  import opened Basics

  type SpanId = nat

  datatype Location = IN_USE | NORMAL | RETURNED

  datatype Span = Span(start: int, length: nat, location: Location, sizeclass: nat) {
    function Limit(): int { start + length }
    predicate Covers(p: int) { start <= p < start + length }
    predicate Free() { location != IN_USE }
  }

  type Store = map<SpanId, Span>
  type PageMap = map<int, SpanId>
  type Lists = seq<seq<SpanId>>

  // ----- Layout: spans tile the granted pages, the page map is exact at span boundaries

  /** Which live span each granted page belongs to. */
  type Owner = map<int, SpanId>

  ghost predicate Apart(a: Span, b: Span) {
    a.Limit() <= b.start || b.Limit() <= a.start
  }

  ghost predicate MapsTo(pagemap: PageMap, p: int, id: SpanId) {
    p in pagemap && pagemap[p] == id
  }

  /** What the page map must say about one live span: both boundary pages name it, and a
      span registered with a size class is named by every page. */
  ghost predicate Mapped(pagemap: PageMap, id: SpanId, s: Span) {
    && s.Covers(s.start) && MapsTo(pagemap, s.start, id)
    && s.Covers(s.Limit() - 1) && MapsTo(pagemap, s.Limit() - 1, id)
    && (s.sizeclass > 0 ==> forall p | s.Covers(p) :: MapsTo(pagemap, p, id))
  }

  ghost predicate WellFormed(s: Span) {
    s.length > 0 && s.start > 0 && (s.sizeclass > 0 ==> s.location == IN_USE)
  }

  /** The spans partition exactly the pages in `owner`. */
  ghost predicate Tiles(spans: Store, owner: Owner) {
    && (forall p | p in owner :: owner[p] in spans && spans[owner[p]].Covers(p))
    && (forall id, p | id in spans && spans[id].Covers(p) :: p in owner && owner[p] == id)
  }

  ghost predicate AllMapped(spans: Store, pagemap: PageMap) {
    forall id | id in spans :: WellFormed(spans[id]) && Mapped(pagemap, id, spans[id])
  }

  /** The page heap's standing layout: a partition of the granted pages, exact page-map
      entries at span boundaries, and NULL outside granted pages. */
  ghost predicate Layout(spans: Store, pagemap: PageMap, owner: Owner) {
    && Tiles(spans, owner)
    && AllMapped(spans, pagemap)
    && pagemap.Keys <= owner.Keys
  }

  /** Distinct live spans never share a page. */
  lemma SpansApart(spans: Store, pagemap: PageMap, owner: Owner, a: SpanId, b: SpanId)
    requires Layout(spans, pagemap, owner) && a in spans && b in spans && a != b
    ensures Apart(spans[a], spans[b])
  {
    assert WellFormed(spans[a]) && WellFormed(spans[b]);
    assert !(spans[a].Covers(spans[b].start) || spans[b].Covers(spans[a].start));
  }

  /** The entry on either side of a live span is NULL exactly when that page was never
      granted; otherwise it names a live span that ends, or starts, right there. Interior
      entries may be stale, but no boundary lookup ever meets one. */
  lemma NeighbourIsLive(spans: Store, pagemap: PageMap, owner: Owner, id: SpanId)
    requires Layout(spans, pagemap, owner) && id in spans
    ensures var p := spans[id].start - 1;
            && (p in pagemap <==> p in owner)
            && (p in pagemap ==> pagemap[p] in spans && pagemap[p] != id && spans[pagemap[p]].Limit() == spans[id].start)
    ensures var q := spans[id].Limit();
            && (q in pagemap <==> q in owner)
            && (q in pagemap ==> pagemap[q] in spans && pagemap[q] != id && spans[pagemap[q]].start == q)
  {
    hide Layout;
    var p, q := spans[id].start - 1, spans[id].Limit();
    LiveSpan(spans, pagemap, owner, id);
    PageLookup(spans, pagemap, owner, p);
    PageLookup(spans, pagemap, owner, q);
    if p in owner { SpansApart(spans, pagemap, owner, owner[p], id); }
    if q in owner { SpansApart(spans, pagemap, owner, owner[q], id); }
  }

  lemma LiveSpan(spans: Store, pagemap: PageMap, owner: Owner, id: SpanId)
    requires Layout(spans, pagemap, owner) && id in spans
    ensures WellFormed(spans[id]) && Mapped(pagemap, id, spans[id])
    ensures forall p | spans[id].Covers(p) :: p in owner && owner[p] == id
  { }

  lemma PageLookup(spans: Store, pagemap: PageMap, owner: Owner, p: int)
    requires Layout(spans, pagemap, owner)
    ensures p in pagemap ==> p in owner
    ensures p in owner ==> var t := owner[p]; t in spans && spans[t].Covers(p) && WellFormed(spans[t]) && Mapped(pagemap, t, spans[t])
  { }

  /** Every page of a span registered with a size class leads back to that span. */
  lemma RegisteredPagesResolve(spans: Store, pagemap: PageMap, owner: Owner, id: SpanId, p: int)
    requires Layout(spans, pagemap, owner) && id in spans
    requires spans[id].sizeclass > 0 && spans[id].Covers(p)
    ensures MapsTo(pagemap, p, id)
  {
    assert Mapped(pagemap, id, spans[id]);
  }

  /** Writing the page map inside one span leaves every other span's entries alone. */
  lemma MappedFrame(pagemap: PageMap, pagemap': PageMap, s: Span, id: SpanId, t: Span)
    requires Mapped(pagemap, id, t) && Apart(t, s) && WellFormed(t)
    requires forall p | p in pagemap && !s.Covers(p) :: MapsTo(pagemap', p, pagemap[p])
    ensures Mapped(pagemap', id, t)
  {
    forall p | t.Covers(p) && p in pagemap ensures MapsTo(pagemap', p, pagemap[p]) { }
    assert t.Covers(t.start) && t.Covers(t.Limit() - 1);
    if t.sizeclass > 0 {
      forall p | t.Covers(p) ensures MapsTo(pagemap', p, id) { assert MapsTo(pagemap, p, id); }
    }
  }

  lemma RelabelTiles(spans: Store, owner: Owner, id: SpanId, s: Span)
    requires Tiles(spans, owner) && id in spans
    requires s.start == spans[id].start && s.length == spans[id].length
    ensures Tiles(spans[id := s], owner)
  {
    var spans' := spans[id := s];
    forall p | p in owner ensures owner[p] in spans' && spans'[owner[p]].Covers(p) {
      assert spans[owner[p]].Covers(p);
    }
    forall t, p | t in spans' && spans'[t].Covers(p) ensures p in owner && owner[p] == t {
      assert spans[t].Covers(p);
    }
  }

  /** Changing a span's location, or clearing its size class, does not disturb the layout. */
  lemma RelabelLayout(spans: Store, pagemap: PageMap, owner: Owner, id: SpanId, s: Span)
    requires Layout(spans, pagemap, owner) && id in spans
    requires s.start == spans[id].start && s.length == spans[id].length && WellFormed(s) && Mapped(pagemap, id, s)
    ensures Layout(spans[id := s], pagemap, owner)
  {
    RelabelTiles(spans, owner, id, s);
    var spans' := spans[id := s];
    forall t | t in spans' ensures WellFormed(spans'[t]) && Mapped(pagemap, t, spans'[t]) {
      assert t != id ==> WellFormed(spans[t]) && Mapped(pagemap, t, spans[t]);
    }
  }

  /** The page map after a split: the new span's boundaries and the old span's new end. */
  function SplitMap(pagemap: PageMap, s: Span, n: nat, id: SpanId, added: SpanId): PageMap {
    Recorded(pagemap, added, s.(start := s.start + n, length := if n <= s.length then s.length - n else 0))[s.start + n - 1 := id]
  }

  ghost function SplitOwner(owner: Owner, rest: Span, added: SpanId): Owner {
    map p | p in owner :: if rest.Covers(p) then added else owner[p]
  }

  lemma SplitTiles(spans: Store, owner: Owner, id: SpanId, added: SpanId, s: Span, rest: Span)
    requires Tiles(spans, owner) && id in spans && added !in spans
    requires s.start == spans[id].start && rest.start == s.Limit() && rest.Limit() == spans[id].Limit()
    ensures Tiles(spans[id := s][added := rest], SplitOwner(owner, rest, added))
  {
    var spans', owner' := spans[id := s][added := rest], SplitOwner(owner, rest, added);
    forall p | p in owner' ensures owner'[p] in spans' && spans'[owner'[p]].Covers(p) {
      assert spans[owner[p]].Covers(p);
    }
    forall t, p | t in spans' && spans'[t].Covers(p) ensures p in owner' && owner'[p] == t {
      assert spans[if t == added then id else t].Covers(p);
      assert rest.Covers(p) ==> spans[id].Covers(p);
    }
  }

  lemma SplitMapped(spans: Store, pagemap: PageMap, id: SpanId, added: SpanId, s: Span, rest: Span)
    requires AllMapped(spans, pagemap) && id in spans && added !in spans
    requires forall t | t in spans && t != id :: Apart(spans[t], spans[id])
    requires s.start == spans[id].start && 0 < s.length < spans[id].length && s.sizeclass == 0
    requires rest.start == s.Limit() && rest.Limit() == spans[id].Limit() && rest.sizeclass == 0
    ensures AllMapped(spans[id := s][added := rest], SplitMap(pagemap, spans[id], s.length, id, added))
  {
    var was := spans[id];
    var spans', pagemap' := spans[id := s][added := rest], SplitMap(pagemap, was, s.length, id, added);
    assert was.Covers(s.Limit() - 1) && was.Covers(s.Limit()) && was.Covers(was.Limit() - 1);
    forall t | t in spans' ensures WellFormed(spans'[t]) && Mapped(pagemap', t, spans'[t]) {
      if t != id && t != added { MappedFrame(pagemap, pagemap', was, t, spans[t]); }
    }
  }

  lemma SplitLayout(spans: Store, pagemap: PageMap, owner: Owner, id: SpanId, added: SpanId, s: Span, rest: Span)
    requires Layout(spans, pagemap, owner) && id in spans && added !in spans
    requires s.start == spans[id].start && 0 < s.length < spans[id].length && s.sizeclass == 0
    requires rest.start == s.Limit() && rest.Limit() == spans[id].Limit() && rest.sizeclass == 0
    ensures Layout(spans[id := s][added := rest], SplitMap(pagemap, spans[id], s.length, id, added), SplitOwner(owner, rest, added))
  {
    hide Mapped;
    SplitTiles(spans, owner, id, added, s, rest);
    forall t | t in spans && t != id ensures Apart(spans[t], spans[id]) { SpansApart(spans, pagemap, owner, t, id); }
    SplitMapped(spans, pagemap, id, added, s, rest);
    assert spans[id].Covers(s.Limit() - 1) && spans[id].Covers(s.Limit()) && spans[id].Covers(rest.Limit() - 1);
  }

  /** The span that covers two adjacent ones, described by `keep`. */
  function Joined(low: Span, high: Span, keep: Span): Span {
    keep.(start := low.start, length := low.length + high.length)
  }

  /** `id` swallows its neighbour `other`, on whichever side that lies. */
  function Swallow(spans: Store, id: SpanId, other: SpanId): Store
    requires id in spans && other in spans
  {
    (spans - {other})[id := if spans[other].Limit() == spans[id].start
                            then Joined(spans[other], spans[id], spans[id])
                            else Joined(spans[id], spans[other], spans[id])]
  }

  ghost function MergeOwner(owner: Owner, gone: SpanId, keep: SpanId): Owner {
    map p | p in owner :: if owner[p] == gone then keep else owner[p]
  }

  lemma MergeOwnerKeys(owner: Owner, gone: SpanId, keep: SpanId)
    ensures MergeOwner(owner, gone, keep).Keys == owner.Keys
  { }


  lemma MergeTiles(spans: Store, owner: Owner, low: SpanId, high: SpanId, keep: SpanId)
    requires Tiles(spans, owner) && low in spans && high in spans && low != high
    requires spans[low].Limit() == spans[high].start && (keep == low || keep == high)
    ensures var gone := if keep == low then high else low;
            Tiles((spans - {gone})[keep := Joined(spans[low], spans[high], spans[keep])], MergeOwner(owner, gone, keep))
  {
    var gone := if keep == low then high else low;
    var spans', owner' := (spans - {gone})[keep := Joined(spans[low], spans[high], spans[keep])], MergeOwner(owner, gone, keep);
    forall p | p in owner' ensures owner'[p] in spans' && spans'[owner'[p]].Covers(p) {
      assert spans[owner[p]].Covers(p);
    }
    forall t, p | t in spans' && spans'[t].Covers(p) ensures p in owner' && owner'[p] == t {
      assert spans[if t != keep then t else if p < spans[high].start then low else high].Covers(p);
    }
  }

  lemma MergeMapped(spans: Store, pagemap: PageMap, low: SpanId, high: SpanId, keep: SpanId)
    requires AllMapped(spans, pagemap) && low in spans && high in spans && low != high
    requires forall t | t in spans && t != low && t != high :: Apart(spans[t], spans[low]) && Apart(spans[t], spans[high])
    requires spans[low].Limit() == spans[high].start && (keep == low || keep == high) && spans[keep].sizeclass == 0
    ensures var gone := if keep == low then high else low;
            var all := Joined(spans[low], spans[high], spans[keep]);
            AllMapped((spans - {gone})[keep := all], pagemap[if keep == low then all.Limit() - 1 else all.start := keep])
  {
    var gone := if keep == low then high else low;
    var all := Joined(spans[low], spans[high], spans[keep]);
    var spans' := (spans - {gone})[keep := all];
    var pagemap' := pagemap[if keep == low then all.Limit() - 1 else all.start := keep];
    assert Mapped(pagemap, low, spans[low]) && Mapped(pagemap, high, spans[high]);
    forall t | t in spans' ensures WellFormed(spans'[t]) && Mapped(pagemap', t, spans'[t]) {
      if t != keep { MappedFrame(pagemap, pagemap', all, t, spans[t]); }
    }
  }

  lemma MergeLayout(spans: Store, pagemap: PageMap, owner: Owner, low: SpanId, high: SpanId, keep: SpanId)
    requires Layout(spans, pagemap, owner) && low in spans && high in spans && low != high
    requires spans[low].Limit() == spans[high].start && (keep == low || keep == high) && spans[keep].sizeclass == 0
    ensures var gone := if keep == low then high else low;
            var all := Joined(spans[low], spans[high], spans[keep]);
            Layout((spans - {gone})[keep := all],
                   pagemap[if keep == low then all.Limit() - 1 else all.start := keep], MergeOwner(owner, gone, keep))
  {
    hide Mapped;
    MergeTiles(spans, owner, low, high, keep);
    forall t | t in spans && t != low && t != high ensures Apart(spans[t], spans[low]) && Apart(spans[t], spans[high]) {
      SpansApart(spans, pagemap, owner, t, low);
      SpansApart(spans, pagemap, owner, t, high);
    }
    MergeMapped(spans, pagemap, low, high, keep);
    assert spans[low].Covers(spans[low].start) && spans[high].Covers(spans[high].Limit() - 1);
  }

  lemma SwallowFrame(spans: Store, id: SpanId, other: SpanId)
    requires id in spans && other in spans && id != other && (spans[other].Limit() == spans[id].start || spans[id].Limit() == spans[other].start)
    ensures var now := Swallow(spans, id, other);
            && id in now && other !in now && now[id].length == spans[id].length + spans[other].length
            && forall x | x != id && x != other :: (x in spans <==> x in now) && (x in spans ==> now[x] == spans[x])
  { }

  /** Merging, with the neighbour on either side. */
  lemma SwallowLayout(spans: Store, pagemap: PageMap, owner: Owner, id: SpanId, other: SpanId)
    requires Layout(spans, pagemap, owner) && id in spans && other in spans && id != other && spans[id].sizeclass == 0
    requires spans[other].Limit() == spans[id].start || spans[id].Limit() == spans[other].start
    ensures var now := Swallow(spans, id, other);
            Layout(now, pagemap[if spans[other].Limit() == spans[id].start then now[id].start else now[id].Limit() - 1 := id], MergeOwner(owner, other, id))
  {
    hide Layout, MergeOwner;
    if spans[other].Limit() == spans[id].start {
      MergeLayout(spans, pagemap, owner, other, id, id);
    } else {
      MergeLayout(spans, pagemap, owner, id, other, id);
    }
  }

  function PagesOf(s: Span): (pages: set<int>)
    ensures forall p :: p in pages <==> s.Covers(p)
  {
    set p | s.start <= p < s.Limit() && s.Covers(p)
  }

  lemma {:induction false} PageCount(s: Span)
    requires s.length >= 0
    ensures |PagesOf(s)| == s.length
    decreases s.length
  {
    if s.length == 0 {
      assert PagesOf(s) == {};
    } else {
      var less := s.(length := s.length - 1);
      PageCount(less);
      assert PagesOf(s) == PagesOf(less) + {less.Limit()};
    }
  }

  /** `RecordSpan`: name the span at its first and last page. */
  function Recorded(pagemap: PageMap, id: SpanId, s: Span): PageMap {
    if s.length > 1 then pagemap[s.start := id][s.Limit() - 1 := id] else pagemap[s.start := id]
  }

  ghost function GrantOwner(owner: Owner, added: SpanId, s: Span): Owner {
    owner + map p | p in PagesOf(s) :: added
  }

  lemma GrantTiles(spans: Store, owner: Owner, added: SpanId, s: Span)
    requires Tiles(spans, owner) && added !in spans && PagesOf(s) !! owner.Keys
    ensures Tiles(spans[added := s], GrantOwner(owner, added, s))
  {
    var spans', owner' := spans[added := s], GrantOwner(owner, added, s);
    forall p | p in owner' ensures owner'[p] in spans' && spans'[owner'[p]].Covers(p) {
      if p !in PagesOf(s) { assert spans[owner[p]].Covers(p); }
    }
    forall t, p | t in spans' && spans'[t].Covers(p) ensures p in owner' && owner'[p] == t {
      if t != added { assert spans[t].Covers(p); }
    }
  }

  lemma GrantMapped(spans: Store, pagemap: PageMap, added: SpanId, s: Span)
    requires AllMapped(spans, pagemap) && added !in spans && WellFormed(s) && s.sizeclass == 0
    requires forall t | t in spans :: Apart(spans[t], s)
    ensures AllMapped(spans[added := s], Recorded(pagemap, added, s))
  {
    var spans', pagemap' := spans[added := s], Recorded(pagemap, added, s);
    forall t | t in spans' ensures WellFormed(spans'[t]) && Mapped(pagemap', t, spans'[t]) {
      if t != added { MappedFrame(pagemap, pagemap', s, t, spans[t]); }
    }
  }

  /** Recording a span over pages never granted before extends the partition. */
  lemma GrantLayout(spans: Store, pagemap: PageMap, owner: Owner, added: SpanId, s: Span)
    requires Layout(spans, pagemap, owner) && added !in spans
    requires WellFormed(s) && s.sizeclass == 0 && PagesOf(s) !! owner.Keys
    ensures Layout(spans[added := s], Recorded(pagemap, added, s), GrantOwner(owner, added, s))
    ensures GrantOwner(owner, added, s).Keys == owner.Keys + PagesOf(s)
  {
    hide Mapped;
    GrantTiles(spans, owner, added, s);
    forall t | t in spans ensures Apart(spans[t], s) {
      assert !spans[t].Covers(s.start) by { assert s.start in PagesOf(s); }
      assert !s.Covers(spans[t].start) by { assert spans[t].Covers(spans[t].start); }
    }
    GrantMapped(spans, pagemap, added, s);
    assert s.Covers(s.start) && s.Covers(s.Limit() - 1);
  }

  // ----- Coalescing

  /** No two adjacent free spans share a location; pairs involving `except` are not judged. */
  ghost predicate CoalescedBut(spans: Store, except: set<SpanId>) {
    forall a, b | a in spans && b in spans && a !in except && b !in except
      && spans[a].Limit() == spans[b].start && spans[a].Free() :: spans[a].location != spans[b].location
  }

  /** No two free spans are adjacent at all. */
  ghost predicate TightBut(spans: Store, except: set<SpanId>) {
    forall a, b | a in spans && b in spans && a !in except && b !in except
      && spans[a].Limit() == spans[b].start && spans[a].Free() :: !spans[b].Free()
  }

  ghost predicate NoNormalBut(spans: Store, except: set<SpanId>) {
    forall id | id in spans && id !in except :: spans[id].location != NORMAL
  }

  // ----- Segregated lists

  /** The list a span of this length lives on: exact lengths below `top`, then one list for the rest. */
  function Slot(length: nat, top: nat): (k: nat)
    ensures k <= top
  {
    if length < top then length else top
  }

  ghost predicate Belongs(spans: Store, id: SpanId, loc: Location, limbo: set<SpanId>) {
    id in spans && id !in limbo && spans[id].location == loc
  }

  /** `lists` holds exactly the spans at `loc`, each once and on the list for its length. Spans
      in `limbo` have been unlinked and are on no list. */
  ghost predicate Holds(spans: Store, lists: Lists, loc: Location, limbo: set<SpanId>) {
    && |lists| > 0
    && (forall k, id | 0 <= k < |lists| && id in lists[k] ::
          Belongs(spans, id, loc, limbo) && Slot(spans[id].length, |lists| - 1) == k)
    && (forall id | Belongs(spans, id, loc, limbo) :: id in lists[Slot(spans[id].length, |lists| - 1)])
    && (forall k | 0 <= k < |lists| :: NoDup(lists[k]))
  }

  function Len(spans: Store, id: SpanId): nat {
    if id in spans then spans[id].length else 0
  }

  ghost function Sum(spans: Store, list: seq<SpanId>): nat {
    if list == [] then 0 else Len(spans, list[0]) + Sum(spans, list[1..])
  }

  /** Pages on all the lists together. */
  ghost function SumAll(spans: Store, lists: Lists): nat {
    if lists == [] then 0 else Sum(spans, lists[0]) + SumAll(spans, lists[1..])
  }

  lemma {:induction false} SumPart(spans: Store, list: seq<SpanId>, x: SpanId)
    requires x in list
    ensures Sum(spans, list) >= Len(spans, x)
  {
    if list[0] != x { SumPart(spans, list[1..], x); }
  }

  lemma {:induction false} SumAllPart(spans: Store, lists: Lists, k: nat, x: SpanId)
    requires k < |lists| && x in lists[k]
    ensures SumAll(spans, lists) >= Len(spans, x)
  {
    if k == 0 { SumPart(spans, lists[0], x); } else { SumAllPart(spans, lists[1..], k - 1, x); }
  }

  /** `DLL_Remove`. */
  function Without(list: seq<SpanId>, id: SpanId): seq<SpanId> {
    if list == [] then [] else if list[0] == id then list[1..] else [list[0]] + Without(list[1..], id)
  }

  lemma {:induction false} WithoutFacts(spans: Store, list: seq<SpanId>, id: SpanId)
    requires NoDup(list) && id in list
    ensures NoDup(Without(list, id))
    ensures forall x :: x in Without(list, id) <==> x in list && x != id
    ensures Sum(spans, Without(list, id)) == Sum(spans, list) - Len(spans, id)
  {
    if list[0] != id {
      WithoutFacts(spans, list[1..], id);
      var rest := Without(list[1..], id);
      assert forall x :: x in list <==> x == list[0] || x in list[1..];
      assert list[0] !in list[1..] && ([list[0]] + rest)[1..] == rest;
    } else {
      assert forall x :: x in list <==> x == id || x in list[1..];
      assert NoDup(list[1..]);
    }
  }

  lemma {:induction false} SumAllUpdate(spans: Store, lists: Lists, k: nat, list: seq<SpanId>)
    requires k < |lists|
    ensures SumAll(spans, lists[k := list]) == SumAll(spans, lists) - Sum(spans, lists[k]) + Sum(spans, list)
  {
    if k > 0 {
      SumAllUpdate(spans, lists[1..], k - 1, list);
      assert lists[k := list][1..] == lists[1..][k - 1 := list];
    } else {
      assert lists[k := list][1..] == lists[1..];
    }
  }

  lemma SumPrepend(spans: Store, lists: Lists, k: nat, id: SpanId)
    requires k < |lists|
    ensures SumAll(spans, lists[k := [id] + lists[k]]) == SumAll(spans, lists) + Len(spans, id)
  {
    assert ([id] + lists[k])[1..] == lists[k];
    SumAllUpdate(spans, lists, k, [id] + lists[k]);
  }

  lemma {:induction false} SumFrame(spans: Store, spans': Store, list: seq<SpanId>)
    requires forall id | id in list :: Len(spans, id) == Len(spans', id)
    ensures Sum(spans, list) == Sum(spans', list)
  {
    if list != [] {
      assert list[0] in list;
      forall id | id in list[1..] ensures Len(spans, id) == Len(spans', id) { assert id in list; }
      SumFrame(spans, spans', list[1..]);
    }
  }

  lemma {:induction false} SumAllFrame(spans: Store, spans': Store, lists: Lists)
    requires forall k, id | 0 <= k < |lists| && id in lists[k] :: Len(spans, id) == Len(spans', id)
    ensures SumAll(spans, lists) == SumAll(spans', lists)
  {
    if lists != [] {
      SumFrame(spans, spans', lists[0]);
      forall k, id | 0 <= k < |lists[1..]| && id in lists[1..][k] ensures Len(spans, id) == Len(spans', id) {
        assert lists[1..][k] == lists[k + 1];
      }
      SumAllFrame(spans, spans', lists[1..]);
    }
  }

  lemma {:induction false} SumAllEmpty(spans: Store, lists: Lists)
    requires forall k | 0 <= k < |lists| :: lists[k] == []
    ensures SumAll(spans, lists) == 0
  {
    if lists != [] { SumAllEmpty(spans, lists[1..]); }
  }

  /** Nothing on the lists changes when spans outside them, or in limbo, do. */
  lemma HoldsFrame(spans: Store, spans': Store, lists: Lists, loc: Location, limbo: set<SpanId>, limbo': set<SpanId>)
    requires Holds(spans, lists, loc, limbo)
    requires forall id :: Belongs(spans, id, loc, limbo) <==> Belongs(spans', id, loc, limbo')
    requires forall id | Belongs(spans, id, loc, limbo) :: Len(spans, id) == Len(spans', id)
    ensures Holds(spans', lists, loc, limbo') && SumAll(spans', lists) == SumAll(spans, lists)
  {
    hide Sum, SumAll, NoDup;
    forall k, id | 0 <= k < |lists| && id in lists[k]
      ensures Belongs(spans', id, loc, limbo') && Len(spans, id) == Len(spans', id) && Slot(spans'[id].length, |lists| - 1) == k {
      assert Belongs(spans, id, loc, limbo);
    }
    SumAllFrame(spans, spans', lists);
  }

  lemma HoldsRemove(spans: Store, lists: Lists, loc: Location, limbo: set<SpanId>, id: SpanId)
    requires Holds(spans, lists, loc, limbo) && Belongs(spans, id, loc, limbo)
    ensures var k := Slot(spans[id].length, |lists| - 1);
            var lists' := lists[k := Without(lists[k], id)];
            Holds(spans, lists', loc, limbo + {id}) && SumAll(spans, lists') == SumAll(spans, lists) - spans[id].length
  {
    hide Sum, SumAll, Without;
    var k := Slot(spans[id].length, |lists| - 1);
    WithoutFacts(spans, lists[k], id);
    SumAllUpdate(spans, lists, k, Without(lists[k], id));
    var lists' := lists[k := Without(lists[k], id)];
    forall j, x | 0 <= j < |lists'| && x in lists'[j] ensures Belongs(spans, x, loc, limbo + {id}) && Slot(spans[x].length, |lists'| - 1) == j {
      assert x in lists[j];
      assert Belongs(spans, x, loc, limbo);
    }
    forall x | Belongs(spans, x, loc, limbo + {id}) ensures x in lists'[Slot(spans[x].length, |lists'| - 1)] {
      assert Belongs(spans, x, loc, limbo);
    }
  }

  lemma NoDupPrepend(x: SpanId, list: seq<SpanId>)
    requires NoDup(list) && x !in list
    ensures NoDup([x] + list)
  { }

  lemma HoldsPrepend(spans: Store, lists: Lists, loc: Location, limbo: set<SpanId>, id: SpanId)
    requires Holds(spans, lists, loc, limbo) && id in limbo && id in spans && spans[id].location == loc
    ensures var k := Slot(spans[id].length, |lists| - 1);
            var lists' := lists[k := [id] + lists[k]];
            Holds(spans, lists', loc, limbo - {id}) && SumAll(spans, lists') == SumAll(spans, lists) + spans[id].length
  {
    var k := Slot(spans[id].length, |lists| - 1);
    hide Sum, SumAll, NoDup;
    SumPrepend(spans, lists, k, id);
    assert !Belongs(spans, id, loc, limbo);
    NoDupPrepend(id, lists[k]);
    var lists' := lists[k := [id] + lists[k]];
    forall j, x | 0 <= j < |lists'| && x in lists'[j] ensures Belongs(spans, x, loc, limbo - {id}) && Slot(spans[x].length, |lists'| - 1) == j {
      if x != id { assert x in lists[j]; assert Belongs(spans, x, loc, limbo); }
    }
    forall x | Belongs(spans, x, loc, limbo - {id}) ensures x in lists'[Slot(spans[x].length, |lists'| - 1)] {
      if x != id { assert Belongs(spans, x, loc, limbo); }
    }
  }

  // ----- Fresh names

  /** Some descriptor address, and some page, lies above all those used so far. */
  lemma {:induction false} FreshExists(used: set<int>) returns (n: nat)
    ensures n > 0 && forall x | x in used :: x < n
  {
    if x: int :| x in used {
      n := FreshExists(used - {x});
      assert used == used - {x} + {x};
      n := if x < n then n else x + 1;
    } else {
      n := 1;
    }
  }
}
