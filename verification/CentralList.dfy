/** The central free list of one size class.

    Spans are cut into objects; every object is on the list of its span, in a chain of the
    transfer cache, or handed out. The list's lock is dropped inside several operations while the
    page heap is at work, so the operations below are built from the pieces that run under the
    lock, with `Interfere`, any number of such pieces run by other threads, at every point where the
    lock is not held. The page heap appears by what it promises: spans it hands out are apart, and
    every page of a registered span leads to it.
 */
module CentralLists {
  import opened Arithmetic
  import opened Basics
  import opened Spans
  import opened Chains

  const MAX_ENTRIES := 64
  const FIRST_ENTRIES := 16
  const CACHE_BYTES := 0x10_0000

  datatype Place = InSpan(span: SpanId) | InSlot(slot: nat) | Out

  datatype Entry = Entry(head: Addr, tail: Addr)

  type Where = map<Addr, Place>
  type Content = map<Place, seq<Addr>>

  /** As many entries of `bytes` each as fit the limit, and at least one; the division truncates. */
  function MostEntries(bytes: int): (n: nat)
    requires bytes != 0
    ensures 1 <= n <= MAX_ENTRIES && (n > 1 ==> bytes > 0 && n * bytes <= CACHE_BYTES)
    ensures bytes > 0 && n < MAX_ENTRIES ==> (n + 1) * bytes > CACHE_BYTES
  {
    if bytes < 0 then 1 else
      Quotient(CACHE_BYTES, bytes);
      var k := CACHE_BYTES / bytes;
      if k < 1 then 1 else if k < MAX_ENTRIES then k else
        ProductAtLeast(k - MAX_ENTRIES, bytes);
        MAX_ENTRIES
  }

  // ----- Where objects are

  /** Every list and slot holds exactly the objects whose place it is. */
  ghost predicate Filed(where: Where, content: Content) {
    && Out !in content
    && (forall p, o | p in content && o in content[p] :: o in where && where[o] == p)
    && (forall o | o in where && where[o] != Out :: where[o] in content && o in content[where[o]])
  }

  ghost function At(where: Where, p: Place): set<Addr> {
    set o | o in where && where[o] == p
  }

  ghost function Moved(where: Where, c: seq<Addr>, p: Place): Where {
    map o | o in where :: if o in c then p else where[o]
  }

  ghost function Added(where: Where, c: seq<Addr>, p: Place): Where {
    where + map o | o in c :: p
  }

  lemma FiledTake(where: Where, content: Content, p: Place, k: nat)
    requires Filed(where, content) && p in content && k <= |content[p]| && NoDup(content[p])
    ensures Filed(Moved(where, content[p][..k], Out), content[p := content[p][k..]])
  {
    var c := content[p];
    assert forall o :: o in c <==> o in c[..k] || o in c[k..] by { assert c == c[..k] + c[k..]; }
    assert forall o | o in c[k..] :: o !in c[..k];
  }

  lemma FiledDrop(where: Where, content: Content, p: Place)
    requires Filed(where, content) && p in content
    ensures Filed(Moved(where, content[p], Out), content - {p})
  { }

  lemma FiledPut(where: Where, content: Content, p: Place, c: seq<Addr>)
    requires Filed(where, content) && p !in content && p != Out && forall o | o in c :: o in where && where[o] == Out
    ensures Filed(Moved(where, c, p), content[p := c])
  { }

  lemma FiledPush(where: Where, content: Content, p: Place, o: Addr)
    requires Filed(where, content) && p in content && o in where && where[o] == Out
    ensures Filed(where[o := p], content[p := [o] + content[p]])
  { }

  lemma FiledAdopt(where: Where, content: Content, p: Place, c: seq<Addr>)
    requires Filed(where, content) && p !in content && p != Out && forall o | o in c :: o !in where
    ensures Filed(Added(where, c, p), content[p := c])
  { }

  lemma FiledDetach(where: Where, content: Content, p: Place, objects: set<Addr>)
    requires Filed(where, content) && p in content && (forall o | o in content[p] :: o in objects)
    requires forall o | o in objects && o in where :: where[o] == p || where[o] == Out
    ensures Filed(where - objects, content - {p})
  { }

  // ----- Which objects there are

  function Page(o: Addr): nat { o / PAGE_SIZE }

  ghost predicate HomeIs(pagemap: map<nat, SpanId>, o: Addr, s: SpanId) {
    Page(o) in pagemap && pagemap[Page(o)] == s
  }

  /** Every page of a held span leads to it, so held spans are apart. */
  ghost predicate Held(start: map<SpanId, nat>, pagemap: map<nat, SpanId>, pages: nat) {
    forall s | s in start :: start[s] > 0 && forall p | start[s] <= p < start[s] + pages :: p in pagemap && pagemap[p] == s
  }

  /** What the page heap's layout gives: with its registered spans of one length as the held ones,
      every page of a held span leads to it, and a further span of the heap is clear of them. */
  lemma HeldByHeap(spans: Store, heapMap: PageMap, owner: Owner, start: map<SpanId, nat>, pagemap: map<nat, SpanId>, pages: nat)
    requires Layout(spans, heapMap, owner)
    requires forall s | s in start :: s in spans && spans[s].sizeclass > 0 && spans[s].start == start[s] && spans[s].length == pages
    requires forall p: nat | p in heapMap :: p in pagemap && pagemap[p] == heapMap[p]
    ensures Held(start, pagemap, pages)
    ensures forall id | id in spans && id !in start && spans[id].length == pages :: spans[id].start > 0 && Clear(start, spans[id].start, pages)
  {
    hide Layout;
    forall s | s in start ensures start[s] > 0 && forall p | start[s] <= p < start[s] + pages :: p in pagemap && pagemap[p] == s {
      LiveSpan(spans, heapMap, owner, s);
      forall p | start[s] <= p < start[s] + pages ensures p in pagemap && pagemap[p] == s {
        RegisteredPagesResolve(spans, heapMap, owner, s, p);
      }
    }
    forall id | id in spans && id !in start && spans[id].length == pages ensures spans[id].start > 0 && Clear(start, spans[id].start, pages) {
      LiveSpan(spans, heapMap, owner, id);
      forall s | s in start ensures start[s] + pages <= spans[id].start || spans[id].start + pages <= start[s] {
        SpansApart(spans, heapMap, owner, s, id);
      }
    }
  }

  datatype Shape = Shape(size: nat, pages: nat) {
    ghost predicate Ok() { 0 < size <= pages * PAGE_SIZE }
    function PerSpan(): nat requires size > 0 { pages * PAGE_SIZE / size }
    ghost function Of(start: nat): set<Addr> requires size > 0 { Objects(start * PAGE_SIZE, size, PerSpan()) }
    function Listing(start: nat, k: nat): seq<Addr> { seq(k, i => start * PAGE_SIZE + i * size) }
  }

  lemma SpanObjects(shape: Shape, start: map<SpanId, nat>, pagemap: map<nat, SpanId>, s: SpanId)
    requires shape.Ok() && Held(start, pagemap, shape.pages) && s in start
    ensures |shape.Of(start[s])| == shape.PerSpan() > 0
    ensures forall o | o in shape.Of(start[s]) :: o != NULL && HomeIs(pagemap, o, s)
  {
    var n := shape.PerSpan();
    ObjectsFacts(start[s] * PAGE_SIZE, shape.size, n);
    Quotient(shape.pages * PAGE_SIZE, shape.size);
    ProductAtLeast(n, shape.size);
    forall o | o in shape.Of(start[s]) ensures o != NULL && HomeIs(pagemap, o, s) {
      assert start[s] <= Page(o) < start[s] + shape.pages;
    }
  }

  lemma {:induction false} ListingIs(shape: Shape, start: nat, k: nat)
    requires shape.size > 0
    ensures forall o :: o in shape.Listing(start, k) <==> o in Objects(start * PAGE_SIZE, shape.size, k)
    decreases k
  {
    if k > 0 {
      ListingIs(shape, start, k - 1);
      assert shape.Listing(start, k) == shape.Listing(start, k - 1) + [start * PAGE_SIZE + (k - 1) * shape.size];
    }
  }

  /** The known objects are those of the listed spans, and no others. */
  ghost predicate Located(where: Where, listed: set<SpanId>, start: map<SpanId, nat>, pagemap: map<nat, SpanId>, shape: Shape)
    requires shape.Ok()
  {
    && (forall s | s in listed :: s in start && shape.Of(start[s]) <= where.Keys)
    && (forall o | o in where :: Page(o) in pagemap
          && var s := pagemap[Page(o)]; s in listed && s in start && o in shape.Of(start[s]))
    && (forall o | o in where && where[o].InSpan? :: HomeIs(pagemap, o, where[o].span))
  }

  // ----- How they are linked

  ghost function First(head: map<SpanId, Addr>, slots: seq<Entry>, p: Place): Addr {
    match p
    case InSpan(s) => if s in head then head[s] else NULL
    case InSlot(k) => if k < |slots| then slots[k].head else NULL
    case Out => NULL
  }

  ghost predicate Threaded(mem: Words, head: map<SpanId, Addr>, slots: seq<Entry>, content: Content) {
    && (forall s :: InSpan(s) in content <==> s in head)
    && (forall k: nat :: InSlot(k) in content <==> k < |slots|)
    && (forall p | p in content :: Chain(mem, First(head, slots, p), content[p]))
  }

  /** Transfer-cache entries are whole batches. */
  ghost predicate Batches(slots: seq<Entry>, content: Content, batch: int) {
    forall k | 0 <= k < |slots| && InSlot(k) in content ::
      |content[InSlot(k)]| == batch && content[InSlot(k)] != [] && content[InSlot(k)][batch - 1] == slots[k].tail
  }

  // ----- Lists of spans and the counters

  ghost function Free(content: Content, s: SpanId): seq<Addr> {
    if InSpan(s) in content then content[InSpan(s)] else []
  }

  ghost function Prefix(c: seq<Addr>, n: nat): seq<Addr> {
    if n < |c| then c[..n] else c
  }

  ghost predicate Listed(nonempty: seq<SpanId>, empty: seq<SpanId>, listed: set<SpanId>, content: Content) {
    && NoDup(nonempty) && NoDup(empty)
    && (forall s :: s in listed <==> s in nonempty || s in empty)
    && (forall s | s in nonempty :: Free(content, s) != [])
    && (forall s | s in empty :: Free(content, s) == [])
  }

  ghost predicate Counted(refcount: map<SpanId, int>, listed: set<SpanId>, content: Content, n: nat) {
    && refcount.Keys == listed
    && forall s | s in refcount :: |Free(content, s)| + refcount[s] == n
  }

  /** A span without references is one that nothing has been taken from since it was added. */
  ghost predicate NoneIdle(refcount: map<SpanId, int>, untouched: set<SpanId>) {
    untouched <= refcount.Keys && forall s | s in refcount :: refcount[s] >= 0 && (refcount[s] == 0 <==> s in untouched)
  }

  lemma IdleMore(refcount: map<SpanId, int>, untouched: set<SpanId>, s: SpanId, k: nat)
    requires NoneIdle(refcount, untouched) && s in refcount && k > 0
    ensures NoneIdle(refcount[s := refcount[s] + k], untouched - {s})
  { }

  lemma IdleLess(refcount: map<SpanId, int>, untouched: set<SpanId>, s: SpanId)
    requires NoneIdle(refcount, untouched) && s in refcount && refcount[s] > 1
    ensures NoneIdle(refcount[s := refcount[s] - 1], untouched)
  { }

  lemma IdleDetach(refcount: map<SpanId, int>, untouched: set<SpanId>, s: SpanId)
    requires NoneIdle(refcount, untouched) && s in refcount && refcount[s] > 0
    ensures NoneIdle(refcount - {s}, untouched)
  { }

  lemma IdleAdopt(refcount: map<SpanId, int>, untouched: set<SpanId>, s: SpanId)
    requires NoneIdle(refcount, untouched)
    ensures NoneIdle(refcount[s := 0], untouched + {s})
  { }

  ghost function Total(content: Content, list: seq<SpanId>): nat {
    if list == [] then 0 else |Free(content, list[0])| + Total(content, list[1..])
  }

  lemma {:induction false} TotalFrame(was: Content, now: Content, list: seq<SpanId>)
    requires forall s | s in list :: |Free(now, s)| == |Free(was, s)|
    ensures Total(now, list) == Total(was, list)
  {
    if list != [] { TotalFrame(was, now, list[1..]); }
  }

  lemma {:induction false} TotalWithout(content: Content, list: seq<SpanId>, s: SpanId)
    requires NoDup(list) && s in list
    ensures Total(content, Without(list, s)) == Total(content, list) - |Free(content, s)|
  {
    if list[0] != s {
      TotalWithout(content, list[1..], s);
      assert ([list[0]] + Without(list[1..], s))[1..] == Without(list[1..], s);
    }
  }

  /** One span's list changed. */
  lemma TotalChange(was: Content, now: Content, list: seq<SpanId>, s: SpanId)
    requires NoDup(list) && s in list && forall t | t in list && t != s :: |Free(now, t)| == |Free(was, t)|
    ensures Total(now, list) == Total(was, list) - |Free(was, s)| + |Free(now, s)|
  {
    TotalWithout(was, list, s);
    TotalWithout(now, list, s);
    WithoutFacts(map[], list, s);
    TotalFrame(was, now, Without(list, s));
  }

  // ----- Pieces of the invariant, step by step

  lemma ChainLink(mem: Words, first: Addr, c: seq<Addr>, i: nat)
    requires Chain(mem, first, c) && i < |c|
    ensures Next(mem, c[i]) == if i + 1 < |c| then c[i + 1] else NULL
  {
    if i + 1 < |c| {
      var j := i + 1;
      assert Next(mem, c[i]) == c[j];
    }
  }

  lemma LocatedMoved(where: Where, listed: set<SpanId>, start: map<SpanId, nat>, pagemap: map<nat, SpanId>, shape: Shape, c: seq<Addr>, p: Place)
    requires shape.Ok() && Located(where, listed, start, pagemap, shape) && !p.InSpan?
    ensures Located(Moved(where, c, p), listed, start, pagemap, shape)
  {
    assert Moved(where, c, p).Keys == where.Keys;
  }

  /** Chains in other places do not see a write to an object of this one. */
  lemma ThreadedWrite(mem: Words, head: map<SpanId, Addr>, slots: seq<Entry>, where: Where, content: Content, p: Place, o: Addr, v: Addr, q: Place)
    requires Filed(where, content) && Threaded(mem, head, slots, content) && q in content && q != p
    requires o in where && (where[o] == p || where[o] == Out)
    ensures Chain(mem[o := v], First(head, slots, q), content[q])
  {
    ChainFrame(mem, mem[o := v], First(head, slots, q), content[q]);
  }

  lemma ThreadedCut(mem: Words, head: map<SpanId, Addr>, slots: seq<Entry>, where: Where, content: Content, s: SpanId, k: nat)
    requires Filed(where, content) && Threaded(mem, head, slots, content) && InSpan(s) in content && s in head && 0 < k <= |content[InSpan(s)]|
    ensures var f := content[InSpan(s)];
            var mem' := mem[f[k - 1] := NULL];
            && Threaded(mem', head[s := Next(mem, f[k - 1])], slots, content[InSpan(s) := f[k..]])
            && Chain(mem', head[s], f[..k])
  {
    var f, p := content[InSpan(s)], InSpan(s);
    var mem', head', content' := mem[f[k - 1] := NULL], head[s := Next(mem, f[k - 1])], content[p := f[k..]];
    ChainCut(mem, head[s], f, k);
    forall q | q in content' ensures Chain(mem', First(head', slots, q), content'[q]) {
      if q != p {
        ThreadedWrite(mem, head, slots, where, content, p, f[k - 1], NULL, q);
        assert First(head', slots, q) == First(head, slots, q);
      }
    }
  }

  lemma CountedChange(refcount: map<SpanId, int>, listed: set<SpanId>, content: Content, n: nat, s: SpanId, c: seq<Addr>)
    requires Counted(refcount, listed, content, n) && s in listed
    ensures Counted(refcount[s := n - |c|], listed, content[InSpan(s) := c], n)
  { }

  lemma ListedTake(nonempty: seq<SpanId>, empty: seq<SpanId>, listed: set<SpanId>, content: Content, s: SpanId, c: seq<Addr>)
    requires Listed(nonempty, empty, listed, content) && nonempty != [] && nonempty[0] == s
    ensures c != [] ==> Listed(nonempty, empty, listed, content[InSpan(s) := c])
    ensures c == [] ==> Listed(nonempty[1..], [s] + empty, listed, content[InSpan(s) := c])
    ensures var content' := content[InSpan(s) := c];
            Total(content', if c == [] then nonempty[1..] else nonempty) == Total(content, nonempty) - |Free(content, s)| + |c|
  {
    assert forall t :: t in nonempty <==> t == s || t in nonempty[1..];
    assert s !in nonempty[1..] && s !in empty;
    TotalFrame(content, content[InSpan(s) := c], nonempty[1..]);
  }

  lemma FiledPrefix(where: Where, content: Content, p: Place, k: nat)
    requires Filed(where, content) && p in content && k <= |content[p]|
    ensures forall o | o in content[p][..k] :: o in where && where[o] == p
  {
    assert forall o | o in content[p][..k] :: o in content[p];
  }

  lemma BatchesKeep(slots: seq<Entry>, content: Content, batch: int, s: SpanId, c: seq<Addr>)
    requires Batches(slots, content, batch)
    ensures Batches(slots, content[InSpan(s) := c], batch)
  { }

  lemma NothingMoved(where: Where, mem: Words)
    ensures Moved(where, [], Out) == where && Chain(mem, NULL, [])
  { }

  lemma WriteNothing(mem: Words)
    ensures AgreeBut(mem, mem, Elements([]))
  { }

  lemma ThreadedOthers(mem: Words, head: map<SpanId, Addr>, slots: seq<Entry>, content: Content, mem': Words)
    requires Threaded(mem, head, slots, content) && forall p, o | p in content && o in content[p] :: Next(mem', o) == Next(mem, o)
    ensures Threaded(mem', head, slots, content)
  {
    forall p | p in content ensures Chain(mem', First(head, slots, p), content[p]) {
      ChainFrame(mem, mem', First(head, slots, p), content[p]);
    }
  }

  lemma ThreadedPop(mem: Words, head: map<SpanId, Addr>, slots: seq<Entry>, content: Content)
    requires Threaded(mem, head, slots, content) && slots != []
    ensures Threaded(mem, head, slots[..|slots| - 1], content - {InSlot(|slots| - 1)})
  {
    var slots', content' := slots[..|slots| - 1], content - {InSlot(|slots| - 1)};
    forall p | p in content' ensures Chain(mem, First(head, slots', p), content'[p]) {
      assert First(head, slots', p) == First(head, slots, p);
    }
  }

  lemma ThreadedPushSlot(mem: Words, head: map<SpanId, Addr>, slots: seq<Entry>, content: Content, e: Entry, c: seq<Addr>)
    requires Threaded(mem, head, slots, content) && Chain(mem, e.head, c)
    ensures Threaded(mem, head, slots + [e], content[InSlot(|slots|) := c])
  {
    var slots', content' := slots + [e], content[InSlot(|slots|) := c];
    forall p | p in content' ensures Chain(mem, First(head, slots', p), content'[p]) {
      if p != InSlot(|slots|) { assert First(head, slots', p) == First(head, slots, p); }
    }
  }

  lemma ThreadedPush(mem: Words, head: map<SpanId, Addr>, slots: seq<Entry>, where: Where, content: Content, s: SpanId, o: Addr)
    requires Filed(where, content) && Threaded(mem, head, slots, content) && s in head && o in where && where[o] == Out && o != NULL
    ensures InSpan(s) in content && Threaded(mem[o := head[s]], head[s := o], slots, content[InSpan(s) := [o] + content[InSpan(s)]])
  {
    var p := InSpan(s);
    var mem', head', content' := mem[o := head[s]], head[s := o], content[p := [o] + content[p]];
    ChainPush(mem, head[s], content[p], o);
    forall q | q in content' ensures Chain(mem', First(head', slots, q), content'[q]) {
      if q != p {
        ThreadedWrite(mem, head, slots, where, content, p, o, head[s], q);
        assert First(head', slots, q) == First(head, slots, q);
      }
    }
  }

  lemma ThreadedAdopt(mem: Words, head: map<SpanId, Addr>, slots: seq<Entry>, content: Content, s: SpanId, first: Addr, c: seq<Addr>)
    requires Threaded(mem, head, slots, content) && s !in head && Chain(mem, first, c)
    ensures Threaded(mem, head[s := first], slots, content[InSpan(s) := c])
  {
    var head', content' := head[s := first], content[InSpan(s) := c];
    forall q | q in content' ensures Chain(mem, First(head', slots, q), content'[q]) {
      if q != InSpan(s) { assert First(head', slots, q) == First(head, slots, q); }
    }
  }

  lemma ThreadedDetach(mem: Words, head: map<SpanId, Addr>, slots: seq<Entry>, content: Content, s: SpanId)
    requires Threaded(mem, head, slots, content)
    ensures Threaded(mem, head - {s}, slots, content - {InSpan(s)})
  {
    var head', content' := head - {s}, content - {InSpan(s)};
    forall q | q in content' ensures Chain(mem, First(head', slots, q), content'[q]) {
      assert First(head', slots, q) == First(head, slots, q);
    }
  }

  lemma BatchesPop(slots: seq<Entry>, content: Content, batch: int)
    requires Batches(slots, content, batch) && slots != []
    ensures Batches(slots[..|slots| - 1], content - {InSlot(|slots| - 1)}, batch)
  { }

  lemma BatchesPush(slots: seq<Entry>, content: Content, batch: int, e: Entry, c: seq<Addr>)
    requires Batches(slots, content, batch) && |c| == batch > 0 && c[batch - 1] == e.tail
    ensures Batches(slots + [e], content[InSlot(|slots|) := c], batch)
  { }

  lemma BatchesDetach(slots: seq<Entry>, content: Content, batch: int, s: SpanId)
    requires Batches(slots, content, batch)
    ensures Batches(slots, content - {InSpan(s)}, batch)
  { }

  /** Slots do not show in the span lists and counters. */
  lemma SlotsDoNotCount(was: Content, now: Content, nonempty: seq<SpanId>, empty: seq<SpanId>, refcount: map<SpanId, int>, listed: set<SpanId>, n: nat)
    requires Listed(nonempty, empty, listed, was) && Counted(refcount, listed, was, n) && forall s :: Free(now, s) == Free(was, s)
    ensures Listed(nonempty, empty, listed, now) && Counted(refcount, listed, now, n) && Total(now, nonempty) == Total(was, nonempty)
  {
    TotalFrame(was, now, nonempty);
  }

  lemma TotalCons(content: Content, s: SpanId, list: seq<SpanId>)
    ensures Total(content, [s] + list) == |Free(content, s)| + Total(content, list)
  {
    assert ([s] + list)[1..] == list;
  }

  lemma OnLists(nonempty: seq<SpanId>, empty: seq<SpanId>, listed: set<SpanId>, content: Content, s: SpanId)
    requires Listed(nonempty, empty, listed, content) && s in listed
    ensures NoDup(nonempty) && NoDup(empty)
    ensures Free(content, s) == [] ==> s in empty && s !in nonempty
    ensures Free(content, s) != [] ==> s in nonempty && s !in empty
  { }

  lemma ListedPush(nonempty: seq<SpanId>, empty: seq<SpanId>, listed: set<SpanId>, content: Content, s: SpanId, c: seq<Addr>)
    requires Listed(nonempty, empty, listed, content) && s in listed && c != []
    ensures Free(content, s) == [] ==> Listed([s] + nonempty, Without(empty, s), listed, content[InSpan(s) := c])
    ensures Free(content, s) != [] ==> Listed(nonempty, empty, listed, content[InSpan(s) := c])
  {
    hide Without;
    if Free(content, s) == [] { WithoutFacts(map[], empty, s); }
  }

  lemma TotalPush(nonempty: seq<SpanId>, empty: seq<SpanId>, listed: set<SpanId>, content: Content, s: SpanId, c: seq<Addr>)
    requires Listed(nonempty, empty, listed, content) && s in listed && c != []
    ensures Total(content[InSpan(s) := c], if Free(content, s) == [] then [s] + nonempty else nonempty) == Total(content, nonempty) - |Free(content, s)| + |c|
  {
    hide Total, NoDup, Without, Listed;
    OnLists(nonempty, empty, listed, content, s);
    var content' := content[InSpan(s) := c];
    if Free(content, s) == [] {
      TotalFrame(content, content', nonempty);
      TotalCons(content', s, nonempty);
    } else {
      TotalChange(content, content', nonempty, s);
    }
  }

  lemma ListedDetach(nonempty: seq<SpanId>, empty: seq<SpanId>, listed: set<SpanId>, content: Content, s: SpanId)
    requires Listed(nonempty, empty, listed, content) && s in listed
    ensures Free(content, s) == [] ==> Listed(nonempty, Without(empty, s), listed - {s}, content - {InSpan(s)})
    ensures Free(content, s) != [] ==> Listed(Without(nonempty, s), empty, listed - {s}, content - {InSpan(s)})
  {
    hide Without;
    if Free(content, s) == [] { WithoutFacts(map[], empty, s); } else { WithoutFacts(map[], nonempty, s); }
  }

  lemma TotalDetach(nonempty: seq<SpanId>, empty: seq<SpanId>, listed: set<SpanId>, content: Content, s: SpanId)
    requires Listed(nonempty, empty, listed, content) && s in listed
    ensures Total(content - {InSpan(s)}, if Free(content, s) == [] then nonempty else Without(nonempty, s)) == Total(content, nonempty) - |Free(content, s)|
  {
    hide Total, NoDup, Without, Listed;
    OnLists(nonempty, empty, listed, content, s);
    var content' := content - {InSpan(s)};
    if Free(content, s) == [] {
      TotalFrame(content, content', nonempty);
    } else {
      WithoutFacts(map[], nonempty, s);
      TotalWithout(content, nonempty, s);
      TotalFrame(content, content', Without(nonempty, s));
    }
  }

  lemma ListedAdopt(nonempty: seq<SpanId>, empty: seq<SpanId>, listed: set<SpanId>, content: Content, s: SpanId, c: seq<Addr>)
    requires Listed(nonempty, empty, listed, content) && s !in listed && c != []
    ensures Listed([s] + nonempty, empty, listed + {s}, content[InSpan(s) := c])
    ensures Total(content[InSpan(s) := c], [s] + nonempty) == Total(content, nonempty) + |c|
  {
    hide Total;
    TotalFrame(content, content[InSpan(s) := c], nonempty);
    TotalCons(content[InSpan(s) := c], s, nonempty);
  }

  lemma CountedDetach(refcount: map<SpanId, int>, listed: set<SpanId>, content: Content, n: nat, s: SpanId)
    requires Counted(refcount, listed, content, n)
    ensures Counted(refcount - {s}, listed - {s}, content - {InSpan(s)}, n)
  { }

  lemma CountedAdopt(refcount: map<SpanId, int>, listed: set<SpanId>, content: Content, n: nat, s: SpanId, c: seq<Addr>)
    requires Counted(refcount, listed, content, n) && s !in listed && |c| == n
    ensures Counted(refcount[s := 0], listed + {s}, content[InSpan(s) := c], n)
  { }

  lemma LocatedReturn(where: Where, listed: set<SpanId>, start: map<SpanId, nat>, pagemap: map<nat, SpanId>, shape: Shape, o: Addr, s: SpanId)
    requires shape.Ok() && Located(where, listed, start, pagemap, shape) && o in where && HomeIs(pagemap, o, s)
    ensures Located(where[o := InSpan(s)], listed, start, pagemap, shape)
  {
    hide Shape.Of, Page;
    assert where[o := InSpan(s)].Keys == where.Keys;
  }

  lemma LocatedAdopt(where: Where, listed: set<SpanId>, start: map<SpanId, nat>, pagemap: map<nat, SpanId>, shape: Shape, s: SpanId, c: seq<Addr>)
    requires shape.Ok() && Held(start, pagemap, shape.pages) && Located(where, listed, start, pagemap, shape) && s in start && s !in listed
    requires Elements(c) == shape.Of(start[s])
    ensures Located(Added(where, c, InSpan(s)), listed + {s}, start, pagemap, shape)
    ensures forall o | o in c :: o !in where
  {
    hide Shape.Of, Shape.PerSpan, Page, Held, Added, Elements;
    SpanObjects(shape, start, pagemap, s);
    AddedIs(where, c, InSpan(s));
    var where', listed' := Added(where, c, InSpan(s)), listed + {s};
    forall o | o in c ensures o !in where { assert o in Elements(c) by { ElementIs(c, o); } }
    forall t | t in listed' ensures t in start && shape.Of(start[t]) <= where'.Keys { }
    forall o | o in where'
      ensures Page(o) in pagemap && var t := pagemap[Page(o)]; t in listed' && t in start && o in shape.Of(start[t])
      ensures where'[o].InSpan? ==> HomeIs(pagemap, o, where'[o].span)
    {
      if o in Elements(c) { assert HomeIs(pagemap, o, s); }
    }
  }

  lemma ElementIs(c: seq<Addr>, o: Addr)
    ensures o in Elements(c) <==> o in c
  { }

  lemma AddedIs(where: Where, c: seq<Addr>, p: Place)
    ensures Added(where, c, p).Keys == where.Keys + Elements(c)
    ensures forall o | o in Added(where, c, p) :: Added(where, c, p)[o] == if o in Elements(c) then p else where[o]
  { }

  lemma LocatedDetach(where: Where, listed: set<SpanId>, start: map<SpanId, nat>, pagemap: map<nat, SpanId>, shape: Shape, s: SpanId)
    requires shape.Ok() && Held(start, pagemap, shape.pages) && Located(where, listed, start, pagemap, shape) && s in listed && s in start
    ensures Located(where - shape.Of(start[s]), listed - {s}, start, pagemap, shape)
  {
    hide Shape.Of, Shape.PerSpan, Page, Held;
    var where' := where - shape.Of(start[s]);
    SpanObjects(shape, start, pagemap, s);
    forall t | t in listed - {s} ensures t in start && shape.Of(start[t]) <= where'.Keys {
      SpanObjects(shape, start, pagemap, t);
    }
  }

  /** Taking a span apart from all held ones. */
  function Mapping(pagemap: map<nat, SpanId>, page: nat, pages: nat, id: SpanId): map<nat, SpanId> {
    if pages == 0 then pagemap else Mapping(pagemap, page, pages - 1, id)[page + pages - 1 := id]
  }

  lemma {:induction false} MappingIs(pagemap: map<nat, SpanId>, page: nat, pages: nat, id: SpanId, p: nat)
    ensures page <= p < page + pages ==> p in Mapping(pagemap, page, pages, id) && Mapping(pagemap, page, pages, id)[p] == id
    ensures !(page <= p < page + pages) ==>
              (p in Mapping(pagemap, page, pages, id) <==> p in pagemap) && (p in pagemap ==> Mapping(pagemap, page, pages, id)[p] == pagemap[p])
  {
    if pages > 0 { MappingIs(pagemap, page, pages - 1, id, p); }
  }

  predicate Clear(start: map<SpanId, nat>, page: nat, pages: nat) {
    forall s | s in start :: start[s] + pages <= page || page + pages <= start[s]
  }

  /** There is always room further up. */
  lemma {:induction false} Beyond(start: map<SpanId, nat>, pages: nat) returns (page: nat)
    ensures page > 0 && Clear(start, page, pages) && forall s | s in start :: start[s] + pages <= page
    decreases start.Keys
  {
    page := 1;
    if start != map[] {
      var s :| s in start;
      var rest := start - {s};
      page := Beyond(rest, pages);
      assert forall t | t in start && t != s :: t in rest && rest[t] == start[t];
      if page < start[s] + pages { page := start[s] + pages; }
    }
  }

  lemma HeldTake(start: map<SpanId, nat>, pagemap: map<nat, SpanId>, pages: nat, id: SpanId, page: nat)
    requires Held(start, pagemap, pages) && id !in start && page > 0 && Clear(start, page, pages)
    ensures Held(start[id := page], Mapping(pagemap, page, pages, id), pages)
  {
    forall p: nat { MappingIs(pagemap, page, pages, id, p); }
  }

  lemma LocatedTake(where: Where, listed: set<SpanId>, start: map<SpanId, nat>, pagemap: map<nat, SpanId>, shape: Shape, id: SpanId, page: nat)
    requires shape.Ok() && Held(start, pagemap, shape.pages) && Located(where, listed, start, pagemap, shape)
    requires id !in start && page > 0 && Clear(start, page, shape.pages)
    ensures Located(where, listed, start[id := page], Mapping(pagemap, page, shape.pages, id), shape)
  {
    hide Shape.Of, Shape.PerSpan, Page, Held, Mapping;
    var pagemap' := Mapping(pagemap, page, shape.pages, id);
    forall o | o in where ensures Page(o) in pagemap' && pagemap'[Page(o)] == pagemap[Page(o)] {
      ObjectPage(shape, start[pagemap[Page(o)]], o);
      MappingIs(pagemap, page, shape.pages, id, Page(o));
    }
  }

  /** Page `p` is in no held span. */
  predicate Outside(start: map<SpanId, nat>, pages: nat, p: nat) {
    forall s | s in start :: p < start[s] || start[s] + pages <= p
  }

  lemma LocatedRemap(where: Where, listed: set<SpanId>, start: map<SpanId, nat>, pagemap: map<nat, SpanId>, shape: Shape, p: nat, pagemap': map<nat, SpanId>)
    requires shape.Ok() && Located(where, listed, start, pagemap, shape) && Outside(start, shape.pages, p)
    requires forall q | q in pagemap && q != p :: q in pagemap' && pagemap'[q] == pagemap[q]
    ensures Located(where, listed, start, pagemap', shape)
  {
    hide Shape.Of, Shape.PerSpan, Page;
    forall o | o in where ensures Page(o) in pagemap' && pagemap'[Page(o)] == pagemap[Page(o)] {
      ObjectPage(shape, start[pagemap[Page(o)]], o);
    }
  }

  lemma ObjectPage(shape: Shape, start: nat, o: Addr)
    requires shape.Ok() && o in shape.Of(start)
    ensures start <= Page(o) < start + shape.pages
  {
    ObjectsFacts(start * PAGE_SIZE, shape.size, shape.PerSpan());
    Quotient(shape.pages * PAGE_SIZE, shape.size);
  }

  lemma ThreadedKeys(mem: Words, head: map<SpanId, Addr>, slots: seq<Entry>, content: Content)
    requires Threaded(mem, head, slots, content)
    ensures InSlot(|slots|) !in content && forall s | s !in head :: InSpan(s) !in content
  { }

  lemma Top(mem: Words, head: map<SpanId, Addr>, slots: seq<Entry>, where: Where, content: Content, batch: int, k: nat)
    requires Threaded(mem, head, slots, content) && Batches(slots, content, batch) && Filed(where, content) && k < |slots|
    ensures InSlot(k) in content && |content[InSlot(k)]| == batch > 0 && content[InSlot(k)][batch - 1] == slots[k].tail
    ensures Chain(mem, slots[k].head, content[InSlot(k)]) && forall o | o in content[InSlot(k)] :: o in where && where[o] == InSlot(k)
    ensures forall o | o in where && where[o] == InSlot(k) :: o in content[InSlot(k)]
  {
    hide Chain;
    assert First(head, slots, InSlot(k)) == slots[k].head;
  }

  lemma OffLists(where: Where, content: Content, objects: set<Addr>)
    requires Filed(where, content) && forall o | o in objects && o in where :: where[o] == Out
    ensures forall p, o | p in content && o in content[p] :: o !in objects
  { }

  lemma AtHome(where: Where, content: Content, listed: set<SpanId>, start: map<SpanId, nat>, pagemap: map<nat, SpanId>, shape: Shape, s: SpanId)
    requires shape.Ok() && Filed(where, content) && Located(where, listed, start, pagemap, shape) && InSpan(s) in content && s in start
    ensures forall x | x in content[InSpan(s)] :: x in shape.Of(start[s])
  {
    hide Shape.Of, Shape.PerSpan, Page;
    forall x | x in content[InSpan(s)] ensures x in shape.Of(start[s]) {
      assert x in where && where[x] == InSpan(s);
      assert HomeIs(pagemap, x, where[x].span);
    }
  }

  lemma LocatedDrop(where: Where, listed: set<SpanId>, start: map<SpanId, nat>, pagemap: map<nat, SpanId>, shape: Shape, s: SpanId)
    requires shape.Ok() && Held(start, pagemap, shape.pages) && Located(where, listed, start, pagemap, shape) && s !in listed
    ensures Held(start - {s}, pagemap, shape.pages) && Located(where, listed, start - {s}, pagemap, shape)
  {
    hide Shape.Of, Shape.PerSpan, Page;
  }

  lemma {:induction false} WithoutFirst(s: SpanId, list: seq<SpanId>)
    ensures Without([s] + list, s) == list
  {
    assert ([s] + list)[1..] == list;
  }

  lemma AddedFrame(where: Where, c: seq<Addr>, p: Place)
    requires forall o | o in c :: o !in where
    ensures forall o | o in where :: o in Added(where, c, p) && Added(where, c, p)[o] == where[o]
    ensures forall o | o in Added(where, c, p) && o !in where :: Added(where, c, p)[o] == p
  { }

  // ----- Cutting up a span

  /** `num` objects are chained, and the last one's word is still to be written. */
  ghost predicate Open(mem: Words, first: Addr, tail: Addr, shape: Shape, page: nat, num: nat) {
    var c := shape.Listing(page, num);
    && (num == 0 ==> tail == NULL)
    && (num > 0 ==> first == c[0] && tail == c[num - 1] && tail != NULL)
    && (forall i, j | 0 <= i < |c| && 0 <= j < |c| && j == i + 1 :: Next(mem, c[i]) == c[j])
  }

  lemma Open0(mem: Words, shape: Shape, page: nat)
    ensures Open(mem, NULL, NULL, shape, page, 0) && AgreeBut(mem, mem, Objects(page * PAGE_SIZE, shape.size, 0))
  { }

  lemma ListingMore(shape: Shape, page: nat, num: nat)
    ensures shape.Listing(page, num + 1) == shape.Listing(page, num) + [page * PAGE_SIZE + num * shape.size]
  { }

  lemma ListingDistinct(shape: Shape, page: nat, num: nat)
    requires shape.size > 0 && page > 0
    ensures NoDup(shape.Listing(page, num)) && NULL !in shape.Listing(page, num)
  {
    var c := shape.Listing(page, num);
    forall i, j | 0 <= i < j < |c| ensures c[i] != c[j] {
      ProductAtLeast(j - i, shape.size);
      assert (j - i) * shape.size == j * shape.size - i * shape.size;
    }
    forall i | 0 <= i < |c| ensures c[i] != NULL { assert i * shape.size >= 0; }
  }

  lemma OpenFirst(old0: Words, mem: Words, first: Addr, tail: Addr, shape: Shape, page: nat, num: nat)
    requires shape.size > 0 && page > 0 && Open(mem, first, tail, shape, page, num) && tail == NULL && AgreeBut(old0, mem, Objects(page * PAGE_SIZE, shape.size, num))
    ensures var ptr := page * PAGE_SIZE + num * shape.size;
            ptr > 0 && Open(mem, ptr, ptr, shape, page, num + 1) && AgreeBut(old0, mem, Objects(page * PAGE_SIZE, shape.size, num + 1))
  { }

  lemma OpenNext(mem: Words, first: Addr, tail: Addr, shape: Shape, page: nat, num: nat)
    requires shape.size > 0 && page > 0 && Open(mem, first, tail, shape, page, num) && tail != NULL
    ensures var ptr := page * PAGE_SIZE + num * shape.size;
            ptr > 0 && Open(mem[tail := ptr], first, ptr, shape, page, num + 1)
  {
    hide Shape.Listing;
    var ptr, c, d := page * PAGE_SIZE + num * shape.size, shape.Listing(page, num), shape.Listing(page, num + 1);
    assert num * shape.size >= 0;
    ListingMore(shape, page, num);
    ListingDistinct(shape, page, num);
    ListingSize(shape, page, num);
    forall i, j | 0 <= i < |d| && 0 <= j < |d| && j == i + 1 ensures Next(mem[tail := ptr], d[i]) == d[j] {
      if j < |c| { assert Next(mem, c[i]) == c[j]; }
    }
  }

  lemma OpenWrites(old0: Words, mem: Words, tail: Addr, ptr: Addr, first: Addr, shape: Shape, page: nat, num: nat)
    requires shape.size > 0 && Open(mem, first, tail, shape, page, num) && tail != NULL && AgreeBut(old0, mem, Objects(page * PAGE_SIZE, shape.size, num))
    ensures AgreeBut(old0, mem[tail := ptr], Objects(page * PAGE_SIZE, shape.size, num))
    ensures AgreeBut(old0, mem[tail := ptr], Objects(page * PAGE_SIZE, shape.size, num + 1))
  {
    ListingIs(shape, page, num);
    assert tail in shape.Listing(page, num);
  }

  lemma ListingSize(shape: Shape, page: nat, num: nat)
    ensures |shape.Listing(page, num)| == num
  { }

  lemma OpenClose(old0: Words, mem: Words, first: Addr, tail: Addr, shape: Shape, page: nat, num: nat)
    requires shape.size > 0 && page > 0 && num > 0 && Open(mem, first, tail, shape, page, num) && AgreeBut(old0, mem, Objects(page * PAGE_SIZE, shape.size, num))
    ensures Chain(mem[tail := NULL], first, shape.Listing(page, num)) && AgreeBut(old0, mem[tail := NULL], Objects(page * PAGE_SIZE, shape.size, num))
  {
    hide Shape.Listing;
    ListingDistinct(shape, page, num);
    ListingSize(shape, page, num);
    OpenWrites(old0, mem, tail, NULL, first, shape, page, num);
  }

  lemma OpenTail(mem: Words, first: Addr, tail: Addr, shape: Shape, page: nat, num: nat)
    requires Open(mem, first, tail, shape, page, num) && num > 0
    ensures tail != NULL
  { }

  // ----- What a thread relies on

  /** The objects of `mine` are handed out, to the thread in question, and those of `theirs` to
      others; `priv` is a span it holds that is on no list, and those of `away` are such spans of
      others. */
  ghost predicate Rely(mine: set<Addr>, priv: Option<SpanId>, st: State) {
    && (forall o | o in mine :: o in st.where && st.where[o] == Out)
    && (forall o | o in st.theirs :: o in st.where && st.where[o] == Out && o !in mine)
    && (priv.Some? ==> priv.value in st.start && priv.value !in st.head && priv.value !in st.away)
    && (forall s | s in st.away :: s in st.start && s !in st.head)
  }

  /** What belongs to other threads is as before, and no span has come onto a list. */
  ghost predicate OthersKept(was: State, now: State) {
    now.shape == was.shape && now.start == was.start && now.theirs == was.theirs && now.away == was.away && now.head.Keys <= was.head.Keys
  }

  ghost function PrivateObjects(priv: Option<SpanId>, st: State): set<Addr> {
    if priv.Some? && priv.value in st.start && st.shape.size > 0 then st.shape.Of(st.start[priv.value]) else {}
  }

  /** What others leave alone: those objects, their words, and that span. */
  ghost predicate Left(mine: set<Addr>, priv: Option<SpanId>, was: State, now: State) {
    && Rely(mine, priv, now) && now.shape == was.shape
    && Agree(was.mem, now.mem, mine) && Agree(was.mem, now.mem, PrivateObjects(priv, was))
    && (priv.Some? ==> priv.value in was.start && now.start[priv.value] == was.start[priv.value])
  }

  lemma LeftTransitive(mine: set<Addr>, priv: Option<SpanId>, s0: State, s1: State, s2: State)
    requires Left(mine, priv, s0, s1) && Left(mine, priv, s1, s2)
    ensures Left(mine, priv, s0, s2)
  { }

  lemma LeftSame(mine: set<Addr>, priv: Option<SpanId>, st: State)
    requires Rely(mine, priv, st)
    ensures Left(mine, priv, st, st)
  { }

  lemma LeftRelies(mine: set<Addr>, priv: Option<SpanId>, was: State, now: State)
    requires Left(mine, priv, was, now)
    ensures Rely(mine, priv, now)
  { }

  /** Writes outside the guarded words, with no change to the guarded places. */
  lemma LeftBy(mine: set<Addr>, priv: Option<SpanId>, was: State, now: State, written: set<Addr>)
    requires Rely(mine, priv, was) && Rely(mine, priv, now) && now.shape == was.shape
    requires AgreeBut(was.mem, now.mem, written) && written !! mine && written !! PrivateObjects(priv, was)
    requires priv.Some? ==> now.start[priv.value] == was.start[priv.value]
    ensures Left(mine, priv, was, now)
  {
    hide Shape.Of;
  }

  lemma RelyWeaker(mine: set<Addr>, more: set<Addr>, priv: Option<SpanId>, st: State)
    requires Rely(more, priv, st) && mine <= more
    ensures Rely(mine, priv, st) && Rely(mine, None, st)
  { }

  lemma RelyBoth(mine: set<Addr>, more: set<Addr>, st: State)
    requires Rely(mine, None, st) && Rely(more, None, st)
    ensures Rely(mine + more, None, st)
  { }

  lemma OwnOut(mine: set<Addr>, c: seq<Addr>, st: State)
    requires Rely(mine + Elements(c), None, st)
    ensures forall o | o in c :: o in st.where && st.where[o] == Out
  {
    assert forall o | o in c :: o in mine + Elements(c);
  }

  lemma CapacityLeft(mine: set<Addr>, priv: Option<SpanId>, st: State, k: nat)
    requires Rely(mine, priv, st)
    ensures Left(mine, priv, st, st.(cacheSize := k)) && Rely(mine, priv, st.(cacheSize := k))
  { }

  lemma LeftWeaker(mine: set<Addr>, more: set<Addr>, priv: Option<SpanId>, was: State, now: State)
    requires Left(more, priv, was, now) && mine <= more
    ensures Left(mine, None, was, now)
  { }

  /** A chain of one's own objects stays as it is. */
  lemma LeftChain(mine: set<Addr>, c: seq<Addr>, first: Addr, was: State, now: State)
    requires Left(mine + Elements(c), None, was, now) && Chain(was.mem, first, c)
    ensures Chain(now.mem, first, c) && Left(mine, None, was, now) && Rely(mine + Elements(c), None, now)
  {
    assert forall o | o in c :: o in mine + Elements(c);
    ChainFrame(was.mem, now.mem, first, c);
  }

  lemma HeadOf(mem: Words, p: Addr, c: seq<Addr>)
    requires Chain(mem, p, c) && p != NULL
    ensures c != [] && c[0] == p && Elements(c) == {p} + Elements(c[1..]) && p !in Elements(c[1..])
  {
    ChainNoDup(mem, p, c);
    assert c == [c[0]] + c[1..];
  }

  lemma NullHead(mem: Words, c: seq<Addr>)
    requires Chain(mem, NULL, c)
    ensures c == [] && Elements(c) == {}
  { }

  lemma GaveNothing(where: Where)
    ensures GaveBack(where, where, {})
  { }

  lemma ReturnLeft(mine: set<Addr>, was: State, now: State, o: Addr, home: SpanId, dead: Option<SpanId>)
    requires Rely(mine + {o}, None, was) && o !in mine && OthersKept(was, now)
    requires AgreeBut(was.mem, now.mem, {o})
    requires dead.None? ==> now.where == was.where[o := InSpan(home)]
    requires dead.Some? ==> dead.value in was.start && was.shape.size > 0 && now.where == was.where - was.shape.Of(was.start[dead.value])
    requires dead.Some? ==> forall x | x in was.shape.Of(was.start[dead.value]) && x != o :: x in was.where && was.where[x] == InSpan(dead.value)
    ensures Left(mine, None, was, now)
  {
    hide Shape.Of;
    LeftBy(mine, None, was, now, {o});
  }

  lemma ReturnGaveBack(was: State, now: State, o: Addr, home: SpanId, dead: Option<SpanId>)
    requires o in was.where
    requires dead.None? ==> now.where == was.where[o := InSpan(home)]
    requires dead.Some? ==> dead.value in was.start && was.shape.size > 0 && now.where == was.where - was.shape.Of(was.start[dead.value])
    requires dead.Some? ==> o in was.shape.Of(was.start[dead.value])
    requires dead.Some? ==> forall x | x in was.shape.Of(was.start[dead.value]) && x != o :: x in was.where && was.where[x] == InSpan(dead.value)
    ensures GaveBack(was.where, now.where, {o})
  {
    hide Shape.Of;
  }

  lemma AgreeSelf(mem: Words)
    ensures AgreeBut(mem, mem, {})
  { }

  lemma ChainSize(mem: Words, first: Addr, c: seq<Addr>)
    requires Chain(mem, first, c)
    ensures |Elements(c)| == |c|
  {
    ChainNoDup(mem, first, c);
    NoDupSize(c);
  }

  lemma PushLeft(mine: set<Addr>, c: seq<Addr>, was: State, now: State)
    requires Rely(mine + Elements(c), None, was) && mine !! Elements(c) && OthersKept(was, now) && now.mem == was.mem
    requires now.where == Moved(was.where, c, InSlot(|was.slots|))
    ensures Left(mine, None, was, now) && forall o | o in c :: o in now.where && now.where[o] == InSlot(|was.slots|)
  {
    assert forall o | o in c :: o in Elements(c);
    LeftBy(mine, None, was, now, {});
  }

  lemma PopLeft(mine: set<Addr>, was: State, now: State, c: seq<Addr>)
    requires Rely(mine, None, was) && OthersKept(was, now) && now.mem == was.mem && now.where == Moved(was.where, c, Out)
    requires forall o | o in c :: o in was.where && was.where[o].InSlot?
    ensures Left(mine, None, was, now) && mine !! Elements(c) && Rely(Elements(c), None, now) && TookOut(was.where, now.where, Elements(c))
  {
    LeftBy(mine, None, was, now, {});
  }

  lemma FetchLeft(mine: set<Addr>, was: State, now: State, c: seq<Addr>)
    requires Rely(mine, None, was) && OthersKept(was, now)
    requires AgreeBut(was.mem, now.mem, Elements(c)) && now.where == Moved(was.where, c, Out)
    requires forall o | o in c :: o in was.where && was.where[o].InSpan?
    ensures Left(mine, None, was, now) && mine !! Elements(c) && Rely(Elements(c), None, now) && TookOut(was.where, now.where, Elements(c))
  {
    LeftBy(mine, None, was, now, Elements(c));
  }

  /** Objects handed out, and not to other threads. */
  ghost function OursOf(where: Where, theirs: set<Addr>): set<Addr> {
    set o | o in where && where[o] == Out && o !in theirs
  }

  lemma OursTake(where: Where, theirs: set<Addr>, c: seq<Addr>)
    requires forall o | o in c :: o in where && where[o] != Out && o !in theirs
    ensures OursOf(Moved(where, c, Out), theirs) == OursOf(where, theirs) + Elements(c)
    ensures OursOf(Moved(where, c, Out), theirs + Elements(c)) == OursOf(where, theirs)
  { }

  lemma FetchOurs(mine: set<Addr>, was: State, c: seq<Addr>)
    requires Rely(mine, None, was) && forall o | o in c :: o in was.where && was.where[o] != Out
    ensures OursOf(Moved(was.where, c, Out), was.theirs) == OursOf(was.where, was.theirs) + Elements(c) && OursOf(was.where, was.theirs) !! Elements(c)
  {
    OursTake(was.where, was.theirs, c);
  }

  lemma ElementsNone()
    ensures Elements([]) == {}
  { }

  lemma OursGive(where: Where, theirs: set<Addr>, c: seq<Addr>, p: Place)
    requires p != Out
    ensures OursOf(Moved(where, c, p), theirs) == OursOf(where, theirs) - Elements(c)
    ensures Elements(c) <= theirs ==> OursOf(Moved(where, c, p), theirs - Elements(c)) == OursOf(where, theirs)
  { }

  lemma OursReturn(was: State, now: State, o: Addr, home: SpanId, dead: Option<SpanId>)
    requires dead.None? ==> now.where == was.where[o := InSpan(home)]
    requires dead.Some? ==> dead.value in was.start && was.shape.size > 0 && now.where == was.where - was.shape.Of(was.start[dead.value])
    requires dead.Some? ==> o in was.shape.Of(was.start[dead.value])
    requires dead.Some? ==> forall x | x in was.shape.Of(was.start[dead.value]) && x != o :: x in was.where && was.where[x] == InSpan(dead.value)
    ensures OursOf(now.where, was.theirs) == OursOf(was.where, was.theirs) - {o}
    ensures o in was.theirs ==> OursOf(now.where, was.theirs - {o}) == OursOf(was.where, was.theirs)
  {
    hide Shape.Of;
  }

  lemma OursAdopt(was: Where, now: Where, theirs: set<Addr>)
    requires forall o | o in was :: o in now && now[o] == was[o]
    requires forall o | o in now && o !in was :: now[o] != Out
    ensures OursOf(now, theirs) == OursOf(was, theirs)
  { }

  lemma TookNothing(where: Where)
    ensures TookOut(where, where, Elements([]))
  { }

  lemma LastIn(c: seq<Addr>)
    requires c != []
    ensures c[|c| - 1] in Elements(c)
  { }

  lemma ElementsSum(c: seq<Addr>, d: seq<Addr>)
    ensures Elements(c + d) == Elements(c) + Elements(d)
  { }

  /** A fetched chunk can be linked in front of a chain already taken. */
  lemma FetchJoins(mine: set<Addr>, was: State, now: State, first: Addr, c: seq<Addr>, head: Addr, more: seq<Addr>)
    requires Rely(mine, None, was) && Rely(Elements(c), None, was) && Chain(was.mem, first, c) && Chain(now.mem, head, more) && more != []
    requires OthersKept(was, now) && AgreeBut(was.mem, now.mem, Elements(more)) && now.where == Moved(was.where, more, Out)
    requires forall o | o in more :: o in was.where && was.where[o].InSpan?
    ensures Left(mine, None, was, now) && mine !! Elements(more) && TookOut(was.where, now.where, Elements(more))
    ensures Rely(mine, None, now) && Rely(Elements(more), None, now) && Rely(Elements(more + c), None, now)
    ensures Chain(now.mem[more[|more| - 1] := first], head, more + c)
  {
    hide Chain;
    FetchLeft(mine, was, now, more);
    FetchLeft(Elements(c), was, now, more);
    ElementsSum(more, c);
    assert forall o | o in c :: o in Elements(c) && o !in Elements(more);
    ChainFrame(was.mem, now.mem, first, c);
    assert more[|more| - 1] in Elements(more);
    ChainJoin(now.mem, head, more, first, c);
  }

  lemma LeftPrivate(mine: set<Addr>, s: SpanId, was: State, now: State, first: Addr, num: nat)
    requires Left(mine, Some(s), was, now) && was.shape.size > 0 && s in was.start && num == was.shape.PerSpan()
    requires Chain(was.mem, first, was.shape.Listing(was.start[s], num))
    ensures Rely(mine, Some(s), now) && now.start[s] == was.start[s] && Chain(now.mem, first, was.shape.Listing(was.start[s], num))
  {
    ListingIs(was.shape, was.start[s], num);
    hide Shape.Listing, Objects, Chain;
    assert forall o | o in was.shape.Listing(was.start[s], num) :: o in PrivateObjects(Some(s), was);
    ChainFrame(was.mem, now.mem, first, was.shape.Listing(was.start[s], num));
  }

  /** Returning objects: those of `c` are back with their spans, and a span with nothing left out is
      gone altogether. */
  ghost predicate GaveBack(was: Where, now: Where, c: set<Addr>) {
    && (forall x | x in c && x in now :: now[x].InSpan?)
    && (forall x | x in now && x !in c :: x in was && now[x] == was[x])
    && (forall x | x in was && x !in now && x !in c :: was[x].InSpan?)
  }

  lemma GaveBackMore(w0: Where, w1: Where, w2: Where, c: set<Addr>, d: set<Addr>)
    requires GaveBack(w0, w1, c) && GaveBack(w1, w2, d)
    ensures GaveBack(w0, w2, c + d)
  { }

  lemma GaveBackSlot(was: Where, now: Where, c: seq<Addr>)
    requires GaveBack(Moved(was, c, Out), now, Elements(c)) && forall o | o in c :: o in was
    ensures GaveBack(was, now, Elements(c))
  { }

  /** Taking objects: those of `c` were not out and are now, other objects stay where they were, and
      new ones are with their span. */
  ghost predicate TookOut(was: Where, now: Where, c: set<Addr>) {
    && (forall x | x in c :: x in now && now[x] == Out && (x in was ==> was[x] != Out))
    && (forall x | x in was && x !in c :: x in now && now[x] == was[x])
    && (forall x | x in now && x !in was && x !in c :: now[x].InSpan?)
  }

  lemma TookOutMore(w0: Where, w1: Where, w2: Where, c: set<Addr>, d: set<Addr>)
    requires TookOut(w0, w1, c) && TookOut(w1, w2, d)
    ensures TookOut(w0, w2, c + d)
  { }

  // ----- The list as a value

  datatype State = State(
    shape: Shape, batch: int, maxCache: nat,
    start: map<SpanId, nat>, pagemap: map<nat, SpanId>, mem: Words,
    head: map<SpanId, Addr>, refcount: map<SpanId, int>, nonempty: seq<SpanId>, empty: seq<SpanId>,
    slots: seq<Entry>, cacheSize: nat, counter: int, numSpans: int, theirs: set<Addr>, away: set<SpanId>, untouched: set<SpanId>, where: Where, content: Content) {

    /** Every object of every listed span is in exactly one place; each list and slot is a chain in
        memory of exactly its objects; free objects and references of a span add up to all its
        objects; the counters are the sums; a span is on `nonempty` iff its list is not; the slots in
        use are within the capacity; and no span stays listed once all its objects are back. */
    ghost predicate Inv() {
      && shape.Ok() && batch != 0
      && Held(start, pagemap, shape.pages)
      && Located(where, head.Keys, start, pagemap, shape)
      && Filed(where, content)
      && Threaded(mem, head, slots, content)
      && Batches(slots, content, batch) && |slots| <= cacheSize <= maxCache
      && Listed(nonempty, empty, head.Keys, content)
      && Counted(refcount, head.Keys, content, shape.PerSpan()) && NoneIdle(refcount, untouched)
      && counter == Total(content, nonempty) && numSpans == |head|
    }

    lemma Front()
      requires Inv() && nonempty != []
      ensures nonempty[0] in head && nonempty[0] in refcount && InSpan(nonempty[0]) in content
      ensures Free(content, nonempty[0]) != [] && Chain(mem, head[nonempty[0]], Free(content, nonempty[0]))
      ensures refcount[nonempty[0]] == shape.PerSpan() - |Free(content, nonempty[0])|
    {
      hide NoneIdle, Held, Located, Filed, Batches, Total, NoDup, Chain;
    }

    /** Objects `c` of the first span on `nonempty` handed out, `rest` left on its list. */
    ghost function Fetched(c: seq<Addr>, rest: seq<Addr>): State
      requires nonempty != [] && nonempty[0] in refcount && c != []
    {
      var s := nonempty[0];
      this.(mem := mem[c[|c| - 1] := NULL], head := head[s := if rest == [] then NULL else rest[0]], refcount := refcount[s := refcount[s] + |c|],
            nonempty := if rest == [] then nonempty[1..] else nonempty, empty := if rest == [] then [s] + empty else empty,
            counter := counter - |c|, untouched := untouched - {s}, where := Moved(where, c, Out), content := content[InSpan(s) := rest])
    }

    lemma FetchKeeps(c: seq<Addr>, rest: seq<Addr>)
      requires Inv() && nonempty != [] && nonempty[0] in head && nonempty[0] in refcount && c != [] && Free(content, nonempty[0]) == c + rest
      ensures Fetched(c, rest).Inv() && Chain(Fetched(c, rest).mem, head[nonempty[0]], c)
      ensures forall o | o in c :: o in where && where[o].InSpan?
      ensures Fetched(c, rest).head.Keys == head.Keys && AgreeBut(mem, Fetched(c, rest).mem, Elements(c))
    {
      hide NoneIdle, Held, Located, Filed, Threaded, Batches, Listed, Counted, Total, NoDup, Chain, Moved, Next;
      var s, n, k := nonempty[0], shape.PerSpan(), |c|;
      Front();
      var f := content[InSpan(s)];
      assert f[..k] == c && f[k..] == rest;
      ChainNoDup(mem, head[s], f);
      ChainLink(mem, head[s], f, k - 1);
      FiledPrefix(where, content, InSpan(s), k);
      FiledTake(where, content, InSpan(s), k);
      LocatedMoved(where, head.Keys, start, pagemap, shape, c, Out);
      ThreadedCut(mem, head, slots, where, content, s, k);
      BatchesKeep(slots, content, batch, s, rest);
      ListedTake(nonempty, empty, head.Keys, content, s, rest);
      CountedChange(refcount, head.Keys, content, n, s, rest);
      IdleMore(refcount, untouched, s, k);
      KeysKept(head, s, Next(mem, f[k - 1]));
      WriteInside(mem, f[k - 1], NULL, c);
    }

    // --- transfer cache

    /** The top slot emptied, its batch handed out. */
    ghost function Popped(): State
      requires slots != [] && InSlot(|slots| - 1) in content
    {
      var p := InSlot(|slots| - 1);
      this.(slots := slots[..|slots| - 1], where := Moved(where, content[p], Out), content := content - {p})
    }

    lemma TopSlot()
      requires Inv() && slots != []
      ensures InSlot(|slots| - 1) in content && var c, e := content[InSlot(|slots| - 1)], slots[|slots| - 1];
              |c| == batch > 0 && Chain(mem, e.head, c) && e.tail == c[batch - 1] && forall o | o in c :: o in where && where[o] == InSlot(|slots| - 1)
      ensures forall o | o in where && where[o] == InSlot(|slots| - 1) :: o in content[InSlot(|slots| - 1)]
    {
      hide NoneIdle, Held, Located, Filed, Threaded, Batches, Listed, Counted, Total, NoDup, Chain, Moved, Next, Shape.Of, Shape.PerSpan, Without;
      Top(mem, head, slots, where, content, batch, |slots| - 1);
    }

    lemma PopKeeps()
      requires Inv() && slots != [] && InSlot(|slots| - 1) in content
      ensures Popped().Inv()
    {
      hide NoneIdle, Held, Located, Filed, Threaded, Batches, Listed, Counted, Total, NoDup, Chain, Moved, Next, Shape.Of, Shape.PerSpan, Without;
      var p := InSlot(|slots| - 1);
      FiledDrop(where, content, p);
      LocatedMoved(where, head.Keys, start, pagemap, shape, content[p], Out);
      ThreadedPop(mem, head, slots, content);
      BatchesPop(slots, content, batch);
      SlotsDoNotCount(content, content - {p}, nonempty, empty, refcount, head.Keys, shape.PerSpan());
    }

    /** Batch `c` put in a new slot. */
    ghost function Pushed(e: Entry, c: seq<Addr>): State {
      var p := InSlot(|slots|);
      this.(slots := slots + [e], where := Moved(where, c, p), content := content[p := c])
    }

    lemma PushKeeps(e: Entry, c: seq<Addr>)
      requires Inv() && |slots| < cacheSize && |c| == batch && c[batch - 1] == e.tail && Chain(mem, e.head, c)
      requires forall o | o in c :: o in where && where[o] == Out
      ensures Pushed(e, c).Inv()
    {
      hide NoneIdle, Held, Located, Filed, Threaded, Batches, Listed, Counted, Total, NoDup, Chain, Moved, Next, Shape.Of, Shape.PerSpan, Without;
      var p := InSlot(|slots|);
      ThreadedKeys(mem, head, slots, content);
      FiledPut(where, content, p, c);
      LocatedMoved(where, head.Keys, start, pagemap, shape, c, p);
      ThreadedPushSlot(mem, head, slots, content, e, c);
      BatchesPush(slots, content, batch, e, c);
      SlotsDoNotCount(content, content[p := c], nonempty, empty, refcount, head.Keys, shape.PerSpan());
    }

    lemma Bounded()
      requires Inv()
      ensures |slots| <= cacheSize <= maxCache
    { }

    lemma CapacityKeeps(k: nat)
      requires Inv() && |slots| <= k <= maxCache
      ensures this.(cacheSize := k).Inv()
    { }

    lemma OwnersKeep(owned: set<Addr>, held: set<SpanId>)
      requires Inv()
      ensures this.(theirs := owned, away := held).Inv()
    { }

    // --- returning objects

    /** The span of a handed-out object is listed, and has a reference to account for it. */
    lemma Owner(o: Addr)
      requires Inv() && o in where && where[o] == Out
      ensures Page(o) in pagemap && var s := pagemap[Page(o)];
              && s in head && s in refcount && s in start && InSpan(s) in content && o in shape.Of(start[s]) && o != NULL
              && o !in content[InSpan(s)] && shape.size > 0 && refcount[s] > 0 && |content[InSpan(s)]| + refcount[s] == shape.PerSpan()
              && Chain(mem, head[s], content[InSpan(s)]) && forall x | x in content[InSpan(s)] :: x in where && where[x] == InSpan(s)
    {
      hide NoneIdle, Shape.Of, Shape.PerSpan, Page, Batches, Held, Listed, Total, Objects, NoDup, Chain;
      var s := pagemap[Page(o)];
      SpanObjects(shape, start, pagemap, s);
      var c := content[InSpan(s)];
      InItsSpan(s);
      ChainNoDup(mem, head[s], c);
      NotExhausted(c, shape.Of(start[s]), o);
    }

    lemma InItsSpan(s: SpanId)
      requires Inv() && InSpan(s) in content && s in start
      ensures forall x | x in content[InSpan(s)] :: x in shape.Of(start[s])
    {
      hide NoneIdle, Held, Located, Filed, Threaded, Batches, Listed, Counted, Total, NoDup, Chain, Moved, Next, Shape.Of, Shape.PerSpan, Without;
      AtHome(where, content, head.Keys, start, pagemap, shape, s);
    }

    ghost function Returned(o: Addr, s: SpanId): State
      requires s in head && s in refcount
    {
      var none := Free(content, s) == [];
      this.(mem := mem[o := head[s]], head := head[s := o], refcount := refcount[s := refcount[s] - 1],
            nonempty := if none then [s] + nonempty else nonempty, empty := if none then Without(empty, s) else empty,
            counter := counter + 1, where := where[o := InSpan(s)], content := content[InSpan(s) := [o] + Free(content, s)])
    }

    lemma ReturnKeeps(o: Addr)
      requires Inv() && o in where && where[o] == Out && Page(o) in pagemap && pagemap[Page(o)] in head && pagemap[Page(o)] in refcount
      requires refcount[pagemap[Page(o)]] != 1
      ensures Returned(o, pagemap[Page(o)]).Inv()
    {
      hide NoneIdle, Held, Located, Filed, Threaded, Batches, Listed, Counted, Total, NoDup, Chain, Moved, Next, Shape.Of, Shape.PerSpan, Without;
      hide Page;
      var s, n := pagemap[Page(o)], shape.PerSpan();
      Owner(o);
      var c := [o] + content[InSpan(s)];
      FiledPush(where, content, InSpan(s), o);
      LocatedReturn(where, head.Keys, start, pagemap, shape, o, s);
      ThreadedPush(mem, head, slots, where, content, s, o);
      BatchesKeep(slots, content, batch, s, c);
      ListedPush(nonempty, empty, head.Keys, content, s, c);
      TotalPush(nonempty, empty, head.Keys, content, s, c);
      CountedChange(refcount, head.Keys, content, n, s, c);
      IdleLess(refcount, untouched, s);
      KeysKept(head, s, o);
    }

    /** The last reference is back: the span is taken off its list, and its objects are no more. */
    ghost function Detached(s: SpanId): State
      requires s in start && shape.size > 0
    {
      var none := Free(content, s) == [];
      this.(head := head - {s}, refcount := refcount - {s},
            nonempty := if none then nonempty else Without(nonempty, s), empty := if none then Without(empty, s) else empty,
            counter := counter + 1 - shape.PerSpan(), numSpans := numSpans - 1,
            where := where - shape.Of(start[s]), content := content - {InSpan(s)})
    }

    /** With one reference left, every other object of the span is on its list: none is in the
        transfer cache, and none is handed out. */
    lemma LastReference(o: Addr)
      requires Inv() && o in where && where[o] == Out && Page(o) in pagemap && pagemap[Page(o)] in refcount && pagemap[Page(o)] in start
      requires refcount[pagemap[Page(o)]] == 1
      ensures forall x | x in shape.Of(start[pagemap[Page(o)]]) && x != o :: x in where && where[x] == InSpan(pagemap[Page(o)])
    {
      hide NoneIdle, Shape.Of, Shape.PerSpan, Page, Batches, Held, Listed, Total, Objects, Located, Filed, Threaded, Counted;
      var s := pagemap[Page(o)];
      Owner(o);
      SpanObjects(shape, start, pagemap, s);
      var c := content[InSpan(s)];
      ChainNoDup(mem, head[s], c);
      hide Chain;
      InItsSpan(s);
      Exhausted([o] + c, shape.Of(start[s]));
    }

    lemma DetachKeeps(o: Addr)
      requires Inv() && o in where && where[o] == Out && Page(o) in pagemap && pagemap[Page(o)] in refcount && pagemap[Page(o)] in start
      requires refcount[pagemap[Page(o)]] == 1
      ensures Detached(pagemap[Page(o)]).Inv()
    {
      hide NoneIdle, Held, Located, Filed, Threaded, Batches, Listed, Counted, Total, NoDup, Chain, Moved, Next, Shape.Of, Shape.PerSpan, Without;
      hide Page;
      var s, n := pagemap[Page(o)], shape.PerSpan();
      Owner(o);
      LastReference(o);
      InItsSpan(s);
      FiledDetach(where, content, InSpan(s), shape.Of(start[s]));
      LocatedDetach(where, head.Keys, start, pagemap, shape, s);
      ThreadedDetach(mem, head, slots, content, s);
      BatchesDetach(slots, content, batch, s);
      ListedDetach(nonempty, empty, head.Keys, content, s);
      TotalDetach(nonempty, empty, head.Keys, content, s);
      CountedDetach(refcount, head.Keys, content, n, s);
      IdleDetach(refcount, untouched, s);
      KeysLess(head, s);
    }

    // --- spans from and to the page heap

    ghost function Taken(id: SpanId, page: nat): State {
      this.(start := start[id := page], pagemap := Mapping(pagemap, page, shape.pages, id))
    }

    lemma TakeKeeps(id: SpanId, page: nat)
      requires Inv() && id !in start && page > 0 && Clear(start, page, shape.pages)
      ensures Taken(id, page).Inv()
    {
      hide NoneIdle, Held, Located, Filed, Threaded, Batches, Listed, Counted, Total, NoDup, Chain, Moved, Next, Shape.Of, Shape.PerSpan, Without;
      hide Mapping, Clear;
      HeldTake(start, pagemap, shape.pages, id, page);
      LocatedTake(where, head.Keys, start, pagemap, shape, id, page);
    }

    /** Page-map entries outside the held spans may be anything. */
    lemma RemapKeeps(p: nat, pagemap': map<nat, SpanId>)
      requires Inv() && Outside(start, shape.pages, p) && forall q | q in pagemap && q != p :: q in pagemap' && pagemap'[q] == pagemap[q]
      ensures this.(pagemap := pagemap').Inv()
    {
      hide NoneIdle, Located, Filed, Threaded, Batches, Listed, Counted, Total, NoDup, Chain, Moved, Next, Shape.Of, Shape.PerSpan, Without;
      LocatedRemap(where, head.Keys, start, pagemap, shape, p, pagemap');
    }

    lemma DropKeeps(s: SpanId)
      requires Inv() && s !in head
      ensures this.(start := start - {s}).Inv()
    {
      hide NoneIdle, Held, Located, Filed, Threaded, Batches, Listed, Counted, Total, NoDup, Chain, Moved, Next, Shape.Of, Shape.PerSpan, Without;
      LocatedDrop(where, head.Keys, start, pagemap, shape, s);
    }

    /** Words of objects on no list and in no slot may hold anything. */
    lemma WriteKeeps(mem': Words, objects: set<Addr>)
      requires Inv() && AgreeBut(mem, mem', objects) && forall o | o in objects && o in where :: where[o] == Out
      ensures this.(mem := mem').Inv()
    {
      hide NoneIdle, Held, Located, Filed, Threaded, Batches, Listed, Counted, Total, NoDup, Chain, Moved, Next, Shape.Of, Shape.PerSpan, Without;
      OffLists(where, content, objects);
      ThreadedOthers(mem, head, slots, content, mem');
    }

    ghost function Adopted(s: SpanId, first: Addr, c: seq<Addr>): State {
      this.(head := head[s := first], refcount := refcount[s := 0], nonempty := [s] + nonempty,
            counter := counter + |c|, numSpans := numSpans + 1, untouched := untouched + {s}, where := Added(where, c, InSpan(s)), content := content[InSpan(s) := c])
    }

    lemma AdoptKeeps(s: SpanId, first: Addr, c: seq<Addr>)
      requires Inv() && s in start && s !in head && Chain(mem, first, c) && 0 < |c| == shape.PerSpan() && Elements(c) == shape.Of(start[s])
      ensures Adopted(s, first, c).Inv()
    {
      hide NoneIdle, Held, Located, Filed, Threaded, Batches, Listed, Counted, Total, NoDup, Chain, Moved, Next, Shape.Of, Shape.PerSpan, Without;
      ThreadedKeys(mem, head, slots, content);
      hide Added, Elements, HomeIs, Page;
      LocatedAdopt(where, head.Keys, start, pagemap, shape, s, c);
      FiledAdopt(where, content, InSpan(s), c);
      ThreadedAdopt(mem, head, slots, content, s, first, c);
      BatchesKeep(slots, content, batch, s, c);
      ListedAdopt(nonempty, empty, head.Keys, content, s, c);
      CountedAdopt(refcount, head.Keys, content, shape.PerSpan(), s, c);
      IdleAdopt(refcount, untouched, s);
      KeysMore(head, s, first);
    }

    lemma NullIsEmpty(s: SpanId)
      requires Inv() && s in head
      ensures InSpan(s) in content && (head[s] == NULL <==> Free(content, s) == [])
    {
      hide NoneIdle, Held, Located, Batches, Listed, Counted, Total, Filed;
      assert First(head, slots, InSpan(s)) == head[s];
    }

    lemma HeadsHeld()
      requires Inv()
      ensures forall s | s in head :: s in start
    {
      hide NoneIdle, Held, Filed, Threaded, Batches, Listed, Counted, Total;
    }

    /** The objects of a span on no list are known to nobody else. */
    lemma Private(s: SpanId)
      requires Inv() && s in start && s !in head
      ensures start[s] > 0 && forall o | o in shape.Of(start[s]) :: o !in where
    {
      hide NoneIdle, Filed, Threaded, Batches, Listed, Counted, Total, Shape.Of, Shape.PerSpan, Page, Objects;
      SpanObjects(shape, start, pagemap, s);
    }

    lemma Listing(s: SpanId, num: nat)
      requires Inv() && s in start && s !in head && num == shape.PerSpan()
      ensures |shape.Listing(start[s], num)| == num && Elements(shape.Listing(start[s], num)) == shape.Of(start[s])
    {
      hide NoneIdle, Filed, Threaded, Batches, Listed, Counted, Total, Held, Located, Objects;
      ListingIs(shape, start[s], num);
      assert forall o :: o in Elements(shape.Listing(start[s], num)) <==> o in shape.Of(start[s]);
    }

    lemma AdoptFrame(s: SpanId, c: seq<Addr>)
      requires Inv() && s in start && s !in head && Elements(c) == shape.Of(start[s])
      ensures forall o | o in where :: o in Added(where, c, InSpan(s)) && Added(where, c, InSpan(s))[o] == where[o]
      ensures forall o | o in Added(where, c, InSpan(s)) && o !in where :: Added(where, c, InSpan(s))[o] == InSpan(s)
    {
      Private(s);
      hide Inv, Added, Shape.Of;
      assert forall o | o in c :: o in Elements(c);
      AddedFrame(where, c, InSpan(s));
    }

    /** Objects of listed spans are not objects of a private one. */
    lemma PrivateApart(priv: Option<SpanId>, objects: set<Addr>)
      requires Inv() && (priv.Some? ==> priv.value in start && priv.value !in head) && objects <= where.Keys
      ensures objects !! PrivateObjects(priv, this)
    {
      if priv.Some? { Private(priv.value); }
    }

    /** Nor are those of two private spans the same. */
    lemma PrivatesApart(s: SpanId, t: SpanId)
      requires Inv() && s in start && t in start && s != t
      ensures shape.Of(start[s]) !! shape.Of(start[t])
    {
      hide NoneIdle, Located, Filed, Threaded, Batches, Listed, Counted, Total, Shape.Of, Shape.PerSpan, Page, Objects, Held;
      SpanObjects(shape, start, pagemap, s);
      SpanObjects(shape, start, pagemap, t);
      forall o | o in shape.Of(start[s]) ensures o !in shape.Of(start[t]) { }
    }

    lemma Sane()
      requires Inv()
      ensures shape.Ok() && shape.PerSpan() > 0 && batch != 0
    {
      hide NoneIdle, Located, Filed, Threaded, Batches, Listed, Counted, Total, Held;
      Quotient(shape.pages * PAGE_SIZE, shape.size);
    }
  }

  lemma WriteInside(mem: Words, o: Addr, v: Addr, c: seq<Addr>)
    requires o in c
    ensures AgreeBut(mem, mem[o := v], Elements(c))
  { }

  lemma WriteOne(mem: Words, o: Addr, v: Addr)
    ensures AgreeBut(mem, mem, {o}) && AgreeBut(mem, mem[o := v], {o})
  { }

  lemma KeysKept<K, V>(m: map<K, V>, k: K, v: V)
    requires k in m
    ensures m[k := v].Keys == m.Keys && |m[k := v]| == |m|
  {
    assert m[k := v].Keys == m.Keys;
    assert |m[k := v]| == |m[k := v].Keys| && |m| == |m.Keys|;
  }

  lemma KeysLess<K, V>(m: map<K, V>, k: K)
    requires k in m
    ensures (m - {k}).Keys == m.Keys - {k} && |m - {k}| == |m| - 1
  {
    assert (m - {k}).Keys == m.Keys - {k};
    assert |m - {k}| == |(m - {k}).Keys| && |m| == |m.Keys|;
  }

  lemma KeysMore<K, V>(m: map<K, V>, k: K, v: V)
    requires k !in m
    ensures m[k := v].Keys == m.Keys + {k} && |m[k := v]| == |m| + 1
  {
    assert m[k := v].Keys == m.Keys + {k};
    assert |m[k := v]| == |m[k := v].Keys| && |m| == |m.Keys|;
  }

  class CentralList {
    const shape: Shape
    const batch: int
    const maxCache: nat
    const heapWorks: bool  // the page heap never refuses a span
    // Held from the page heap.
    var start: map<SpanId, nat>
    var pagemap: map<nat, SpanId>
    // The first word of each object.
    var mem: Words
    // The list itself.
    var head: map<SpanId, Addr>
    var refcount: map<SpanId, int>
    var nonempty: seq<SpanId>
    var empty: seq<SpanId>
    var slots: seq<Entry>
    var cacheSize: nat
    var counter: int
    var numSpans: int
    // Objects other threads have been handed, and spans they have that are on no list.
    var theirs: set<Addr>
    var away: set<SpanId>
    // Where each object is, and the order in each place.
    ghost var where: Where
    ghost var content: Content
    // Listed spans that nothing has been taken from since they were added.
    ghost var untouched: set<SpanId>

    ghost function Now(): State
      reads this
    {
      State(shape, batch, maxCache, start, pagemap, mem, head, refcount, nonempty, empty, slots, cacheSize, counter, numSpans, theirs, away, untouched, where, content)
    }

    ghost predicate Valid()
      reads this
    {
      Now().Inv()
    }

    /** Objects handed out, and not to other threads. */
    ghost function Ours(): set<Addr>
      reads `where, `theirs
    {
      OursOf(where, theirs)
    }

    /** Spans taken from the page heap that are on no list, and with no other thread. */
    ghost function Loose(): set<SpanId>
      reads `start, `head, `away
    {
      start.Keys - head.Keys - away
    }

    /** A slot is free. */
    ghost predicate Roomy()
      reads `slots, `cacheSize
    {
      |slots| < cacheSize
    }

    /** Room for a batch can be made; `evicts` is whether another class has an entry to spare. */
    ghost predicate Fits(evicts: bool)
      reads `slots, `cacheSize
    {
      Roomy() || (cacheSize < maxCache && evicts)
    }

    /** Room is made, or found lacking, with no other thread getting in between. */
    ghost predicate LockKept(alone: bool)
      reads `slots, `cacheSize
    {
      alone || Roomy() || cacheSize == maxCache
    }

    /** `Init`. The cache is limited to 1MB of objects or one entry. The limit is found by dividing by
        the bytes of a batch, so a batch of no objects is ruled out; one of less is not. */
    constructor (shape: Shape, batch: int, heapWorks: bool)
      requires shape.Ok() && batch != 0
      ensures Valid() && head == map[] && slots == [] && where == map[] && theirs == {} && away == {} && this.heapWorks == heapWorks
      ensures shape.size * batch != 0 && maxCache == MostEntries(shape.size * batch)
      ensures cacheSize == if maxCache < FIRST_ENTRIES then maxCache else FIRST_ENTRIES
    {
      ProductAtLeast(batch, shape.size);
      var max := MostEntries(shape.size * batch);
      this.shape, this.batch, this.heapWorks, maxCache := shape, batch, heapWorks, max;
      start, pagemap, mem, head, refcount := map[], map[], map[], map[], map[];
      nonempty, empty, slots, counter, numSpans := [], [], [], 0, 0;
      cacheSize, theirs, away := if max < FIRST_ENTRIES then max else FIRST_ENTRIES, {}, {};
      where, content, untouched := map[], map[], {};
    }

    // ----- Under the lock

    /** `FetchFromOneSpans`: up to `n` objects from the first span that has any. */
    method FetchFromOneSpans(n: nat) returns (result: nat, first: Addr, last: Addr, ghost c: seq<Addr>)
      requires Valid() && n > 0
      modifies `mem, `head, `refcount, `nonempty, `empty, `counter, `untouched, `where, `content
      ensures Valid() && head.Keys == old(head.Keys) && Loose() == old(Loose())
      ensures result == |c| <= n && (result == 0 <==> old(nonempty) == [])
      ensures old(nonempty) != [] ==> c == Prefix(Free(old(content), old(nonempty)[0]), n)
      ensures Chain(mem, first, c) && (c != [] ==> last == c[|c| - 1])
      ensures (forall o | o in c :: o in old(where) && old(where)[o].InSpan?) && where == Moved(old(where), c, Out)
      ensures AgreeBut(old(mem), mem, Elements(c)) && (result == 0 ==> Now() == old(Now()))
    {
      hide State.Inv, Chain, Moved, AgreeBut, Elements;
      if nonempty == [] {
        NothingMoved(where, mem);
        WriteNothing(mem);
        return 0, NULL, NULL, [];
      }
      ghost var was := Now();
      was.Front();
      var curr;
      ghost var rest;
      result, last, curr, c, rest := Walk(head[nonempty[0]], n, Free(content, nonempty[0]));
      was.FetchKeeps(c, rest);
      first := head[nonempty[0]];
      HandOut(nonempty[0], last, curr, result, c, rest);
    }

    /** Hand out `c` and leave `rest`. */
    method HandOut(s: SpanId, last: Addr, curr: Addr, result: nat, ghost c: seq<Addr>, ghost rest: seq<Addr>)
      requires nonempty != [] && nonempty[0] == s && s in refcount && result == |c| > 0
      requires last == c[|c| - 1] && curr == (if rest == [] then NULL else rest[0]) && (rest == [] <==> curr == NULL)
      modifies `mem, `head, `refcount, `nonempty, `empty, `counter, `untouched, `where, `content
      ensures Now() == old(Now()).Fetched(c, rest)
    {
      hide Moved;
      Unhook(s, last, curr, result, c, rest);
    }

    method Unhook(s: SpanId, last: Addr, curr: Addr, result: nat, ghost c: seq<Addr>, ghost rest: seq<Addr>)
      requires nonempty != [] && nonempty[0] == s && s in refcount && result == |c| > 0
      requires last == c[|c| - 1] && curr == (if rest == [] then NULL else rest[0]) && (rest == [] <==> curr == NULL)
      modifies `mem, `head, `refcount, `nonempty, `empty, `counter, `untouched, `where, `content
      ensures mem == old(mem)[last := NULL] && head == old(head)[s := curr]
      ensures refcount == old(refcount)[s := old(refcount)[s] + |c|] && counter == old(counter) - |c|
      ensures nonempty == (if rest == [] then old(nonempty)[1..] else old(nonempty))
      ensures empty == if rest == [] then [s] + old(empty) else old(empty)
      ensures untouched == old(untouched) - {s} && where == Moved(old(where), c, Out) && content == old(content)[InSpan(s) := rest]
    {
      hide Moved;
      if curr == NULL {
        nonempty, empty := nonempty[1..], [s] + empty;
      }
      head := head[s := curr];
      mem := mem[last := NULL];
      refcount := refcount[s := refcount[s] + result];
      counter := counter - result;
      untouched := untouched - {s};
      where := Moved(where, c, Out);
      content := content[InSpan(s) := rest];
    }

    /** The do-while loop along the chain. */
    method Walk(first: Addr, n: nat, ghost f: seq<Addr>) returns (result: nat, prev: Addr, curr: Addr, ghost c: seq<Addr>, ghost rest: seq<Addr>)
      requires n > 0 && f != [] && Chain(mem, first, f)
      ensures f == c + rest && c == Prefix(f, n) && 0 < result == |c|
      ensures prev == c[result - 1] && curr == (if rest == [] then NULL else rest[0]) && (rest == [] <==> curr == NULL)
    {
      prev, curr := first, Next(mem, first);
      result := 1;
      ChainLink(mem, first, f, 0);
      while result < n && curr != NULL
        invariant 1 <= result <= |f| && result <= n && prev == f[result - 1]
        invariant curr == Next(mem, prev) == if result < |f| then f[result] else NULL
      {
        ChainLink(mem, first, f, result);
        prev, curr := curr, Next(mem, curr);
        result := result + 1;
      }
      c, rest := f[..result], f[result..];
    }

    /** The transfer-cache part of `RemoveRange`: the top slot, if there is one. */
    method PopSlot() returns (r: Option<Entry>, ghost c: seq<Addr>)
      requires Valid()
      modifies `slots, `where, `content
      ensures Valid() && (r.None? <==> old(slots) == [])
      ensures slots == (if old(slots) == [] then [] else old(slots)[..|old(slots)| - 1]) && |slots| <= |old(slots)|
      ensures r.None? ==> c == [] && where == old(where)
      ensures r.Some? ==> r.value == old(slots)[|old(slots)| - 1]
      ensures r.Some? ==> |c| == batch > 0 && Chain(mem, r.value.head, c) && r.value.tail == c[batch - 1] && where == Moved(old(where), c, Out)
      ensures forall o | o in old(where) :: o in c <==> r.Some? && old(where)[o] == InSlot(|old(slots)| - 1)
      ensures forall o | o in c :: o in old(where) && old(where)[o].InSlot?
    {
      hide State.Inv, Chain, Moved;
      c := [];
      if slots == [] { return None, []; }
      ghost var was := Now();
      was.TopSlot();
      was.PopKeeps();
      ghost var p := InSlot(|slots| - 1);
      c := content[p];
      r := Some(slots[|slots| - 1]);
      where := Moved(where, c, Out);
      slots := slots[..|slots| - 1];
      content := content - {p};
    }

    /** The transfer-cache part of `InsertRange`: the batch `c`, from `e.head` to `e.tail`, in a new slot. */
    method PushSlot(e: Entry, ghost c: seq<Addr>)
      requires Valid() && |slots| < cacheSize && |c| == batch && c[batch - 1] == e.tail && Chain(mem, e.head, c)
      requires forall o | o in c :: o in where && where[o] == Out
      modifies `slots, `where, `content
      ensures Valid() && slots == old(slots) + [e] && where == Moved(old(where), c, InSlot(|old(slots)|))
    {
      hide State.Inv, Chain, Moved;
      ghost var was := Now();
      was.PushKeeps(e, c);
      content := content[InSlot(|slots|) := c];
      where := Moved(where, c, InSlot(|slots|));
      slots := slots + [e];
    }

    /** `ReleaseToSpans` while the lock is held. When the last object is back the span is off the
        list, on its way to the page heap. */
    method ReturnObject(o: Addr) returns (dead: Option<SpanId>)
      requires Valid() && o in where && where[o] == Out
      modifies `mem, `head, `refcount, `nonempty, `empty, `counter, `numSpans, `where, `content
      ensures Valid() && Page(o) in pagemap && pagemap[Page(o)] in old(refcount) && (dead.Some? <==> old(refcount)[pagemap[Page(o)]] == 1)
      ensures AgreeBut(old(mem), mem, {o})
      ensures dead.None? ==> where == old(where)[o := InSpan(pagemap[Page(o)])] && head.Keys == old(head.Keys)
      ensures dead.Some? ==> dead.value == pagemap[Page(o)] && dead.value in start && dead.value in old(head) && head.Keys == old(head.Keys) - {dead.value}
      ensures dead.Some? ==> o in shape.Of(start[dead.value])
      ensures dead.Some? ==> where == old(where) - shape.Of(start[dead.value])
      ensures dead.Some? ==> forall x | x in shape.Of(start[dead.value]) && x != o :: x in old(where) && old(where)[x] == InSpan(dead.value)
    {
      hide AgreeBut, Free;
      hide State.Inv, Chain, Page, Without, Shape.Of, Shape.PerSpan;
      ghost var was := Now();
      was.Owner(o);
      was.NullIsEmpty(pagemap[Page(o)]);
      var s := pagemap[Page(o)];
      WriteOne(mem, o, head[s]);
      if refcount[s] == 1 {
        was.LastReference(o);
        DropLast(o, s);
        dead := Some(s);
      } else {
        was.ReturnKeeps(o);
        KeysKept(head, s, o);
        TakeBack(s, o);
        dead := None;
      }
    }

    method DropLast(ghost o: Addr, s: SpanId)
      requires Valid() && o in where && where[o] == Out && Page(o) in pagemap && s == pagemap[Page(o)]
      requires s in head && s in refcount && s in start && shape.size > 0 && refcount[s] == 1 && (head[s] == NULL <==> Free(content, s) == [])
      modifies `head, `refcount, `nonempty, `empty, `counter, `numSpans, `where, `content
      ensures Valid() && head.Keys == old(head.Keys) - {s} && where == old(where) - shape.Of(start[s])
    {
      hide State.Inv, Page, Free, Without, Shape.Of, Shape.PerSpan;
      Now().DetachKeeps(o);
      Unlist(s);
    }

    method Unlist(s: SpanId)
      requires s in head && s in refcount && s in start && shape.size > 0 && (head[s] == NULL <==> Free(content, s) == [])
      modifies `head, `refcount, `nonempty, `empty, `counter, `numSpans, `where, `content
      ensures head == old(head) - {s} && refcount == old(refcount) - {s}
      ensures nonempty == (if Free(old(content), s) == [] then old(nonempty) else Without(old(nonempty), s))
      ensures empty == (if Free(old(content), s) == [] then Without(old(empty), s) else old(empty))
      ensures counter == old(counter) + 1 - shape.PerSpan() && numSpans == old(numSpans) - 1
      ensures where == old(where) - shape.Of(start[s]) && content == old(content) - {InSpan(s)}
    {
      hide Free, Without, Shape.Of, Shape.PerSpan;
      WithoutFirst(s, nonempty);
      if head[s] == NULL {
        empty := Without(empty, s);
        nonempty := [s] + nonempty;
      }
      counter := counter + 1;
      counter := counter - shape.PerSpan();
      nonempty := Without(nonempty, s);
      numSpans := numSpans - 1;
      head, refcount := head - {s}, refcount - {s};
      where := where - shape.Of(start[s]);
      content := content - {InSpan(s)};
    }

    method TakeBack(s: SpanId, o: Addr)
      requires s in head && s in refcount && (head[s] == NULL <==> Free(content, s) == [])
      modifies `mem, `head, `refcount, `nonempty, `empty, `counter, `where, `content
      ensures Now() == old(Now()).Returned(o, s)
    {
      hide Free, Without;
      Relist(s, o);
    }

    method Relist(s: SpanId, o: Addr)
      requires s in head && s in refcount && (head[s] == NULL <==> Free(content, s) == [])
      modifies `mem, `head, `refcount, `nonempty, `empty, `counter, `where, `content
      ensures mem == old(mem)[o := old(head)[s]] && head == old(head)[s := o] && refcount == old(refcount)[s := old(refcount)[s] - 1]
      ensures nonempty == (if Free(old(content), s) == [] then [s] + old(nonempty) else old(nonempty))
      ensures empty == (if Free(old(content), s) == [] then Without(old(empty), s) else old(empty))
      ensures counter == old(counter) + 1
      ensures where == old(where)[o := InSpan(s)] && content == old(content)[InSpan(s) := [o] + Free(old(content), s)]
    {
      hide Free, Without;
      content := content[InSpan(s) := [o] + Free(content, s)];
      if head[s] == NULL {
        empty := Without(empty, s);
        nonempty := [s] + nonempty;
      }
      counter := counter + 1;
      refcount := refcount[s := refcount[s] - 1];
      mem := mem[o := head[s]];
      head := head[s := o];
      where := where[o := InSpan(s)];
    }

    // ----- With the page heap

    /** The page heap's answer to `New`: nothing, or a span apart from every held one, with all its
        pages entered in the page map. */
    method TakeSpan() returns (r: Option<SpanId>)
      requires Valid()
      modifies `start, `pagemap
      ensures Valid() && (heapWorks ==> r.Some?)
      ensures r.None? ==> start == old(start)
      ensures r.Some? ==> r.value in start && r.value !in old(start) && start == old(start)[r.value := start[r.value]] && r.value !in head
    {
      hide State.Inv, Mapping, Clear;
      var ok, id, page := PickSpan();
      ghost var was := Now();
      was.HeadsHeld();
      if !ok { return None; }
      was.TakeKeeps(id, page);
      start := start[id := page];
      pagemap := Mapping(pagemap, page, shape.pages, id);
      r := Some(id);
    }

    method PickSpan() returns (ok: bool, id: SpanId, page: nat)
      ensures ok ==> id !in start && page > 0 && Clear(start, page, shape.pages)
      ensures heapWorks ==> ok
    {
      id, page := *, *;
      ok := id !in start && page > 0 && Clear(start, page, shape.pages);
      if !ok && heapWorks {
        ghost var n := FreshExists(start.Keys);
        ghost var p := Beyond(start, shape.pages);
        assert n !in start && Clear(start, p, shape.pages);
        id :| id !in start;
        page :| page > 0 && Clear(start, page, shape.pages);
        ok := true;
      }
    }

    /** `Delete`. Page-map entries stay behind. */
    method DropSpan(s: SpanId)
      requires Valid() && s !in head
      modifies `start
      ensures Valid() && start == old(start) - {s}
    {
      hide State.Inv;
      ghost var was := Now();
      was.DropKeeps(s);
      start := start - {s};
    }

    /** Cut a span into objects and chain them, before it is on any list. */
    method Carve(s: SpanId) returns (first: Addr, num: nat)
      requires Valid() && s in start && s !in head
      modifies `mem
      ensures Valid() && num == shape.PerSpan() > 0 && AgreeBut(old(mem), mem, shape.Of(start[s]))
      ensures Chain(mem, first, shape.Listing(start[s], num))
    {
      hide State.Inv, Chain, AgreeBut, Shape.Of, Shape.PerSpan, Shape.Listing;
      ghost var was := Now();
      was.Private(s);
      was.Sane();
      first, num := CutUp(start[s]);
      was.WriteKeeps(mem, shape.Of(start[s]));
    }

    /** The loop of `Populate`. `tail` is the word the next object's address goes to; NULL stands for
        the span's own list head. */
    method CutUp(page: nat) returns (first: Addr, num: nat)
      requires shape.Ok() && page > 0
      modifies `mem
      ensures num == shape.PerSpan() > 0 && AgreeBut(old(mem), mem, shape.Of(page))
      ensures Chain(mem, first, shape.Listing(page, num))
    {
      hide Chain, AgreeBut, Shape.Listing, Objects, Open;
      var base := page * PAGE_SIZE;
      var tail: Addr, ptr: Addr, limit := NULL, base, base + shape.pages * PAGE_SIZE;
      first, num := NULL, 0;
      Open0(mem, shape, page);
      while ptr + shape.size <= limit
        invariant ptr == base + num * shape.size <= limit
        invariant Open(mem, first, tail, shape, page, num)
        invariant AgreeBut(old(mem), mem, Objects(base, shape.size, num))
        decreases limit - ptr
      {
        assert (num + 1) * shape.size == num * shape.size + shape.size;
        if tail == NULL {
          OpenFirst(old(mem), mem, first, tail, shape, page, num);
          first := ptr;
        } else {
          OpenNext(mem, first, tail, shape, page, num);
          OpenWrites(old(mem), mem, tail, ptr, first, shape, page, num);
          mem := mem[tail := ptr];
        }
        tail := ptr;
        ptr := ptr + shape.size;
        num := num + 1;
      }
      DivModUnique(shape.pages * PAGE_SIZE, shape.size, num, limit - ptr);
      assert num > 0;
      OpenTail(mem, first, tail, shape, page, num);
      OpenClose(old(mem), mem, first, tail, shape, page, num);
      mem := mem[tail := NULL];
    }

    /** The end of `Populate`, under the lock again. */
    method Adopt(s: SpanId, first: Addr, num: nat)
      requires Valid() && s in start && s !in head && num == shape.PerSpan() > 0 && Chain(mem, first, shape.Listing(start[s], num))
      modifies `head, `refcount, `nonempty, `counter, `numSpans, `untouched, `where, `content
      ensures Valid() && head.Keys == old(head.Keys) + {s} && nonempty == [s] + old(nonempty)
      ensures counter == old(counter) + num && numSpans == old(numSpans) + 1 && Free(content, s) == shape.Listing(start[s], num)
      ensures forall o | o in old(where) :: o in where && where[o] == old(where)[o]
      ensures forall o | o in where && o !in old(where) :: where[o] == InSpan(s)
    {
      hide State.Inv, Chain, Added, Shape.Of, Shape.PerSpan, Shape.Listing, Elements;
      ghost var was := Now();
      ghost var c := shape.Listing(start[s], num);
      was.Listing(s, num);
      was.Private(s);
      was.AdoptKeeps(s, first, c);
      was.AdoptFrame(s, c);
      KeysMore(head, s, first);
      AddTo(s, first, num, c);
    }

    method AddTo(s: SpanId, first: Addr, num: nat, ghost c: seq<Addr>)
      requires num == |c|
      modifies `head, `refcount, `nonempty, `counter, `numSpans, `untouched, `where, `content
      ensures Now() == old(Now()).Adopted(s, first, c)
    {
      hide Added;
      Enlist(s, first, num, c);
    }

    method Enlist(s: SpanId, first: Addr, num: nat, ghost c: seq<Addr>)
      modifies `head, `refcount, `nonempty, `counter, `numSpans, `untouched, `where, `content
      ensures head == old(head)[s := first] && refcount == old(refcount)[s := 0] && nonempty == [s] + old(nonempty)
      ensures counter == old(counter) + num && numSpans == old(numSpans) + 1
      ensures untouched == old(untouched) + {s} && where == Added(old(where), c, InSpan(s)) && content == old(content)[InSpan(s) := c]
    {
      hide Added;
      head, refcount := head[s := first], refcount[s := 0];
      nonempty := [s] + nonempty;
      numSpans := numSpans + 1;
      counter := counter + num;
      untouched := untouched + {s};
      where, content := Added(where, c, InSpan(s)), content[InSpan(s) := c];
    }

    // ----- What other threads do meanwhile

    /** The owner of a handed-out object writes to it. */
    method OtherWrites(ghost mine: set<Addr>, ghost priv: Option<SpanId>)
      requires Valid() && Rely(mine, priv, Now())
      modifies `mem
      ensures Valid() && Left(mine, priv, old(Now()), Now())
      ensures Ours() == old(Ours()) && Loose() == old(Loose())
    {
      hide State.Inv, PrivateObjects;
      ghost var was := Now();
      var o: Addr, v: Addr := *, *;
      was.PrivateApart(priv, {});
      if o in theirs {
        was.WriteKeeps(mem[o := v], {o});
        was.PrivateApart(priv, {o});
        mem := mem[o := v];
      }
      LeftBy(mine, priv, was, Now(), if mem == was.mem then {} else {o});
    }

    /** A thread has got the chain from `first` on. */
    method Keep(first: Addr, ghost c: seq<Addr>)
      requires Valid() && Chain(mem, first, c)
      modifies `theirs
      ensures Valid() && theirs == old(theirs) + Elements(c)
    {
      hide State.Inv, Chain, Elements, Next;
      ghost var was := Now();
      var p := first;
      ghost var rest := c;
      while p != NULL
        invariant Chain(mem, p, rest) && theirs + Elements(rest) == old(theirs) + Elements(c)
        decreases |rest|
      {
        HeadOf(mem, p, rest);
        ChainRest(mem, p, rest);
        theirs := theirs + {p};
        p, rest := Next(mem, p), rest[1..];
      }
      NullHead(mem, rest);
      was.OwnersKeep(theirs, away);
    }

    /** A thread has given `objects` up. */
    method Yield(objects: set<Addr>)
      requires Valid()
      modifies `theirs
      ensures Valid() && theirs == old(theirs) - objects
    {
      hide State.Inv;
      ghost var was := Now();
      was.OwnersKeep(theirs - objects, away);
      theirs := theirs - objects;
    }

    /** What other threads have that is on no list is now `spans`. */
    method Away(spans: set<SpanId>)
      requires Valid()
      modifies `away
      ensures Valid() && away == spans
    {
      hide State.Inv;
      ghost var was := Now();
      was.OwnersKeep(theirs, spans);
      away := spans;
    }

    method OtherFetches(ghost mine: set<Addr>, ghost priv: Option<SpanId>)
      requires Valid() && Rely(mine, priv, Now())
      modifies this
      ensures Valid() && Left(mine, priv, old(Now()), Now())
      ensures Ours() == old(Ours()) && Loose() == old(Loose())
    {
      hide OursOf, State.Inv, PrivateObjects, AgreeBut, Chain;
      ghost var was := Now();
      var n: int := *;
      if n > 0 {
        var _, first, _, c := FetchFromOneSpans(n);
        Keep(first, c);
        OursTake(was.where, was.theirs, c);
        was.PrivateApart(priv, Elements(c));
        LeftBy(mine, priv, was, Now(), Elements(c));
      } else {
        LeftSame(mine, priv, was);
      }
    }

    method OtherPops(ghost mine: set<Addr>, ghost priv: Option<SpanId>)
      requires Valid() && Rely(mine, priv, Now())
      modifies this
      ensures Valid() && Left(mine, priv, old(Now()), Now())
      ensures Ours() == old(Ours()) && Loose() == old(Loose())
    {
      hide OursOf, State.Inv, PrivateObjects, Chain;
      ghost var was := Now();
      var e, c := PopSlot();
      if e.Some? {
        Keep(e.value.head, c);
        OursTake(was.where, was.theirs, c);
      }
      LeftBy(mine, priv, was, Now(), {});
    }

    method OtherPushes(ghost mine: set<Addr>, ghost priv: Option<SpanId>)
      requires Valid() && Rely(mine, priv, Now())
      modifies this
      ensures Valid() && Left(mine, priv, old(Now()), Now())
      ensures Ours() == old(Ours()) && Loose() == old(Loose())
    {
      hide OursOf, State.Inv, PrivateObjects, Chain;
      ghost var was := Now();
      var c: seq<Addr> := *;
      if |slots| < cacheSize && |c| == batch > 0 && Chain(mem, c[0], c) && forall o | o in c :: o in theirs {
        Yield(set o | o in c);
        OursGive(was.where, was.theirs, c, InSlot(|slots|));
        PushSlot(Entry(c[0], c[batch - 1]), c);
      }
      LeftBy(mine, priv, was, Now(), {});
    }

    /** `MakeCacheSpace` for another batch, or `ShrinkCache`, whose eviction from a full cache is a pop
        before this. */
    method OtherResizes(ghost mine: set<Addr>, ghost priv: Option<SpanId>)
      requires Valid() && Rely(mine, priv, Now())
      modifies `cacheSize
      ensures Valid() && Left(mine, priv, old(Now()), Now())
      ensures Ours() == old(Ours()) && Loose() == old(Loose())
    {
      hide State.Inv, Left, Rely;
      var k: int := *;
      if |slots| <= k <= maxCache {
        Resize(k, mine, priv);
      } else {
        LeftSame(mine, priv, Now());
      }
    }

    /** The capacity as another thread leaves it, or as this one changes it. */
    method Resize(k: nat, ghost mine: set<Addr>, ghost priv: Option<SpanId>)
      requires Valid() && |slots| <= k <= maxCache && Rely(mine, priv, Now())
      modifies `cacheSize
      ensures Valid() && Now() == old(Now()).(cacheSize := k) && Left(mine, priv, old(Now()), Now()) && Rely(mine, priv, Now())
    {
      hide State.Inv, Left, Rely;
      ghost var was := Now();
      was.CapacityKeeps(k);
      CapacityLeft(mine, priv, was, k);
      cacheSize := k;
    }

    method OtherReturns(ghost mine: set<Addr>, ghost priv: Option<SpanId>)
      requires Valid() && Rely(mine, priv, Now())
      modifies this
      ensures Valid() && Left(mine, priv, old(Now()), Now())
      ensures Ours() == old(Ours()) && Loose() == old(Loose())
    {
      hide OursOf, State.Inv, PrivateObjects, AgreeBut, Page, Shape.Of;
      ghost var was := Now();
      was.Sane();
      var o: Addr := *;
      if o in theirs {
        was.PrivateApart(priv, {o});
        Yield({o});
        var dead := ReturnObject(o);
        if dead.Some? { Away(away + {dead.value}); }
        OursReturn(was, Now(), o, pagemap[Page(o)], dead);
        LeftBy(mine, priv, was, Now(), {o});
      } else {
        LeftSame(mine, priv, was);
      }
    }

    method OtherHeap(ghost mine: set<Addr>, ghost priv: Option<SpanId>)
      requires Valid() && Rely(mine, priv, Now())
      modifies `start, `pagemap, `away
      ensures Valid() && Left(mine, priv, old(Now()), Now())
      ensures Ours() == old(Ours()) && Loose() == old(Loose())
    {
      hide State.Inv, PrivateObjects;
      ghost var was := Now();
      var s: SpanId, take: bool := *, *;
      if take {
        var r := TakeSpan();
        if r.Some? { Away(away + {r.value}); }
      } else if s in away {
        DropSpan(s);
        Away(away - {s});
      }
      LeftBy(mine, priv, was, Now(), {});
    }

    /** Other size classes, and the page heap itself, write the page map outside the held spans. */
    method OtherMaps(ghost mine: set<Addr>, ghost priv: Option<SpanId>)
      requires Valid() && Rely(mine, priv, Now())
      modifies `pagemap
      ensures Valid() && Left(mine, priv, old(Now()), Now())
      ensures Ours() == old(Ours()) && Loose() == old(Loose())
    {
      hide State.Inv, PrivateObjects;
      ghost var was := Now();
      var p: nat, id: SpanId, clear: bool := *, *, *;
      if Outside(start, shape.pages, p) {
        var now := if clear then pagemap - {p} else pagemap[p := id];
        was.RemapKeeps(p, now);
        pagemap := now;
      }
      LeftBy(mine, priv, was, Now(), {});
    }

    method OtherCarves(ghost mine: set<Addr>, ghost priv: Option<SpanId>)
      requires Valid() && Rely(mine, priv, Now())
      modifies `mem
      ensures Valid() && Left(mine, priv, old(Now()), Now())
      ensures Ours() == old(Ours()) && Loose() == old(Loose())
    {
      hide State.Inv, AgreeBut, Shape.Of, Chain, Shape.PerSpan;
      ghost var was := Now();
      was.Sane();
      var s: SpanId := *;
      if s in away {
        var _, _ := Carve(s);
        was.Private(s);
        if priv.Some? { was.PrivatesApart(s, priv.value); }
        LeftBy(mine, priv, was, Now(), shape.Of(start[s]));
      } else {
        LeftSame(mine, priv, was);
      }
    }

    method OtherAdopts(ghost mine: set<Addr>, ghost priv: Option<SpanId>)
      requires Valid() && Rely(mine, priv, Now())
      modifies this
      ensures Valid() && Left(mine, priv, old(Now()), Now())
      ensures Ours() == old(Ours()) && Loose() == old(Loose())
    {
      hide OursOf, State.Inv, PrivateObjects, Chain, Shape.PerSpan, Shape.Listing;
      ghost var was := Now();
      was.Sane();
      var s: SpanId, first: Addr := *, *;
      var num := shape.PerSpan();
      if s in away && Chain(mem, first, shape.Listing(start[s], num)) {
        Adopt(s, first, num);
        Away(away - {s});
        OursAdopt(was.where, where, theirs);
      }
      LeftBy(mine, priv, was, Now(), {});
    }

    /** Any number of steps of other threads, while the lock is free. A caller that is `alone` sees
        none. */
    method Interfere(alone: bool, ghost mine: set<Addr>, ghost priv: Option<SpanId>)
      requires Valid() && Rely(mine, priv, Now())
      modifies this
      ensures Valid() && Left(mine, priv, old(Now()), Now()) && (alone ==> Now() == old(Now()))
      ensures Ours() == old(Ours()) && Loose() == old(Loose())
    {
      hide State.Inv, Left, Ours, Loose;
      LeftSame(mine, priv, Now());
      if alone { return; }
      var steps: int := *;
      for i := 0 to if steps > 0 then steps else 0
        invariant Valid() && Rely(mine, priv, Now()) && Left(mine, priv, old(Now()), Now()) && Ours() == old(Ours()) && Loose() == old(Loose())
      {
        ghost var mid := Now();
        Step(mine, priv);
        LeftTransitive(mine, priv, old(Now()), mid, Now());
        LeftRelies(mine, priv, mid, Now());
      }
    }

    method Step(ghost mine: set<Addr>, ghost priv: Option<SpanId>)
      requires Valid() && Rely(mine, priv, Now())
      modifies this
      ensures Valid() && Left(mine, priv, old(Now()), Now())
      ensures Ours() == old(Ours()) && Loose() == old(Loose())
    {
      hide State.Inv, Left, Rely, Ours, Loose;
      var kind: int := *;
      match kind % 10 {
        case 0 => OtherWrites(mine, priv);
        case 1 => OtherFetches(mine, priv);
        case 2 => OtherPops(mine, priv);
        case 3 => OtherPushes(mine, priv);
        case 4 => OtherReturns(mine, priv);
        case 5 => OtherHeap(mine, priv);
        case 6 => OtherCarves(mine, priv);
        case 7 => OtherResizes(mine, priv);
        case 8 => OtherMaps(mine, priv);
        case _ => OtherAdopts(mine, priv);
      }
    }

    // ----- The operations

    /** `ReleaseToSpans`. The lock is dropped while a whole span goes back to the page heap. */
    method ReleaseToSpans(alone: bool, o: Addr, ghost mine: set<Addr>)
      requires Valid() && o !in mine && Rely(mine + {o}, None, Now())
      modifies this
      ensures Valid() && Left(mine, None, old(Now()), Now())
      ensures Ours() == old(Ours()) - {o} && Loose() == old(Loose())
      ensures Page(o) in old(pagemap) && old(pagemap)[Page(o)] in old(refcount)
      ensures alone ==> (o !in where <==> old(refcount)[old(pagemap)[Page(o)]] == 1) && untouched == old(untouched)
      ensures alone ==> GaveBack(old(where), where, {o}) && slots == old(slots) && cacheSize == old(cacheSize)
    {
      hide OursOf, State.Inv, Page, Shape.Of, Left, GaveBack, AgreeBut;
      ghost var was := Now();
      was.Sane();
      RelyWeaker(mine, mine + {o}, None, was);
      assert o in mine + {o};
      var dead := ReturnObject(o);
      ReturnLeft(mine, was, Now(), o, pagemap[Page(o)], dead);
      OursReturn(was, Now(), o, pagemap[Page(o)], dead);
      ReturnGaveBack(was, Now(), o, pagemap[Page(o)], dead);
      if dead.Some? {
        ghost var s1 := Now();
        LeftRelies(mine, None, was, s1);
        Surrender(alone, dead.value, mine);
        LeftTransitive(mine, None, was, s1, Now());
      }
    }

    /** A span that is off the list goes to the page heap, with the lock dropped. */
    method Surrender(alone: bool, s: SpanId, ghost mine: set<Addr>)
      requires Valid() && Rely(mine, Some(s), Now())
      modifies this
      ensures Valid() && Left(mine, None, old(Now()), Now())
      ensures Ours() == old(Ours()) && Loose() == old(Loose()) - {s}
      ensures alone ==> untouched == old(untouched) && where == old(where) && slots == old(slots) && cacheSize == old(cacheSize)
    {
      hide OursOf, State.Inv, PrivateObjects, Left, AgreeBut;
      ghost var s1 := Now();
      Interfere(alone, mine, Some(s));
      LeftWeaker(mine, mine, Some(s), s1, Now());
      LeftRelies(mine, Some(s), s1, Now());
      ghost var s2 := Now();
      DropSpan(s);
      LeftBy(mine, None, s2, Now(), {}) by { AgreeSelf(mem); }
      LeftTransitive(mine, None, s1, s2, Now());
      ghost var s3 := Now();
      Interfere(alone, mine, None);
      LeftTransitive(mine, None, s1, s3, Now());
    }

    /** `ReleaseListToSpans`. The next object is read before its predecessor is given up. */
    method ReleaseListToSpans(alone: bool, first: Addr, ghost c: seq<Addr>, ghost mine: set<Addr>)
      requires Valid() && Chain(mem, first, c) && mine !! Elements(c) && Rely(mine + Elements(c), None, Now())
      modifies this
      ensures Valid() && Left(mine, None, old(Now()), Now())
      ensures Ours() == old(Ours()) - Elements(c) && Loose() == old(Loose())
      ensures alone ==> untouched == old(untouched) && GaveBack(old(where), where, Elements(c)) && slots == old(slots) && cacheSize == old(cacheSize)
    {
      hide Ours, Loose, State.Inv, Chain, Left, GaveBack, Agree;
      var p := first;
      ghost var rest, given := c, {};
      RelyWeaker(mine, mine + Elements(c), None, Now());
      LeftSame(mine, None, Now());
      GaveNothing(where);
      ChainNoDup(mem, first, c);
      while p != NULL
        invariant Valid() && Chain(mem, p, rest) && mine !! Elements(rest) && Rely(mine + Elements(rest), None, Now())
        invariant Left(mine, None, old(Now()), Now())
        invariant alone ==> untouched == old(untouched) && GaveBack(old(where), where, given) && slots == old(slots) && cacheSize == old(cacheSize)
        invariant given + Elements(rest) == Elements(c) && Ours() == old(Ours()) - given && Loose() == old(Loose())
        decreases |rest|
      {
        ghost var mid := Now();
        HeadOf(mem, p, rest);
        ChainRest(mem, p, rest);
        var next := Next(mem, p);
        assert mine + Elements(rest) == mine + Elements(rest[1..]) + {p};
        ReleaseToSpans(alone, p, mine + Elements(rest[1..]));
        LeftChain(mine, rest[1..], next, mid, Now());
        LeftTransitive(mine, None, old(Now()), mid, Now());
        if alone { GaveBackMore(old(where), mid.where, where, given, {p}); }
        given := given + {p};
        p, rest := next, rest[1..];
      }
      NullHead(mem, rest);
    }

    /** `MakeCacheSpace`. Growing takes an entry from another size class, which drops the lock;
        `evicts` is whether one of the two attempts finds any. */
    method MakeCacheSpace(alone: bool, evicts: bool, ghost mine: set<Addr>) returns (room: bool)
      requires Valid() && Rely(mine, None, Now())
      modifies this
      ensures Valid() && Left(mine, None, old(Now()), Now()) && (room ==> |slots| < cacheSize)
      ensures Ours() == old(Ours()) && Loose() == old(Loose())
      ensures old(LockKept(alone)) ==> (room <==> old(Fits(evicts))) && Resized(old(cacheSize) + if room && !old(Roomy()) then 1 else 0)
    {
      hide Ours, Loose, State.Inv, Left, Rely, Resized;
      LeftSame(mine, None, Now());
      Now().Bounded();
      NotResized();
      if |slots| < cacheSize { return true; }
      if cacheSize == maxCache { return false; }
      room := GrowCache(alone, evicts, mine);
    }

    /** Nothing but the capacity has changed. */
    twostate predicate Resized(k: nat)
      reads this
    {
      Now() == old(Now()).(cacheSize := k)
    }

    /** The eviction elsewhere, and the second look at the capacity. */
    method GrowCache(alone: bool, evicts: bool, ghost mine: set<Addr>) returns (room: bool)
      requires Valid() && Rely(mine, None, Now())
      modifies this
      ensures Valid() && Left(mine, None, old(Now()), Now()) && (room ==> |slots| < cacheSize)
      ensures Ours() == old(Ours()) && Loose() == old(Loose())
      ensures alone ==> (room <==> evicts && old(cacheSize) < maxCache) && Resized(old(cacheSize) + if room then 1 else 0)
    {
      hide OursOf, State.Inv, Left, Rely;
      Interfere(alone, mine, None);
      Now().Bounded();
      ghost var mid := Now();
      LeftRelies(mine, None, old(Now()), mid);
      room := evicts && cacheSize < maxCache;
      if room {
        Resize(cacheSize + 1, mine, None);
        LeftTransitive(mine, None, old(Now()), mid, Now());
      }
    }

    twostate lemma NotResized()
      requires unchanged(this)
      ensures Resized(old(cacheSize))
    { }

    twostate lemma ResizedFields(k: nat)
      requires Resized(k)
      ensures slots == old(slots) && where == old(where) && cacheSize == k && start == old(start) && head == old(head) && untouched == old(untouched)
    { }

    /** `InsertRange`: a full batch goes to the transfer cache when there is room or room can be made,
        in which case the lock may be dropped; anything else goes back to the spans. */
    method InsertRange(alone: bool, evicts: bool, first: Addr, last: Addr, n: nat, ghost c: seq<Addr>, ghost mine: set<Addr>) returns (cached: bool)
      requires Valid() && Chain(mem, first, c) && n == |c| && (c != [] ==> last == c[|c| - 1])
      requires mine !! Elements(c) && Rely(mine + Elements(c), None, Now())
      modifies this
      ensures Valid() && Left(mine, None, old(Now()), Now())
      ensures Ours() == old(Ours()) - Elements(c) && Loose() == old(Loose())
      ensures cached ==> n == batch && slots != [] && slots[|slots| - 1] == Entry(first, last) && forall o | o in c :: o in where && where[o] == InSlot(|slots| - 1)
      ensures old(LockKept(alone)) ==> (cached <==> n == batch && old(Fits(evicts)))
      ensures alone ==> untouched == old(untouched) && cacheSize == old(cacheSize) + if cached && !old(Roomy()) then 1 else 0
      ensures cached && old(LockKept(alone)) ==> slots == old(slots) + [Entry(first, last)] && where == Moved(old(where), c, InSlot(|old(slots)|))
      ensures alone && !cached ==> slots == old(slots) && GaveBack(old(where), where, Elements(c))
    {
      hide Ours, Loose, State.Inv, Chain, Left, GaveBack, Rely, Moved, Elements, Fits;
      cached := false;
      ghost var was := Now();
      LeftSame(mine + Elements(c), None, was);
      LeftChain(mine, c, first, was, was);
      if n == batch { cached := Cache(alone, evicts, first, last, c, mine); }
      if !cached {
        ghost var mid := Now();
        ReleaseListToSpans(alone, first, c, mine);
        LeftTransitive(mine, None, was, mid, Now());
      }
    }

    /** The batch goes to the transfer cache, or nothing happens to it. */
    method Cache(alone: bool, evicts: bool, first: Addr, last: Addr, ghost c: seq<Addr>, ghost mine: set<Addr>) returns (cached: bool)
      requires Valid() && Chain(mem, first, c) && batch == |c| && (c != [] ==> last == c[|c| - 1])
      requires mine !! Elements(c) && Rely(mine + Elements(c), None, Now())
      modifies this
      ensures Valid() && Left(mine, None, old(Now()), Now())
      ensures Ours() == (if cached then old(Ours()) - Elements(c) else old(Ours())) && Loose() == old(Loose())
      ensures cached ==> slots != [] && slots[|slots| - 1] == Entry(first, last) && forall o | o in c :: o in where && where[o] == InSlot(|slots| - 1)
      ensures !cached ==> Chain(mem, first, c) && Rely(mine + Elements(c), None, Now())
      ensures old(LockKept(alone)) ==> (cached <==> old(Fits(evicts)))
      ensures old(LockKept(alone)) ==> untouched == old(untouched) && cacheSize == old(cacheSize) + if cached && !old(Roomy()) then 1 else 0
      ensures cached && old(LockKept(alone)) ==> slots == old(slots) + [Entry(first, last)] && where == Moved(old(where), c, InSlot(|old(slots)|))
      ensures !cached && old(LockKept(alone)) ==> slots == old(slots) && where == old(where)
    {
      hide OursOf, State.Inv, Chain, Left, Moved, Rely, Elements, Fits, LockKept, Loose, Resized;
      ghost var was := Now();
      was.Sane();
      cached := MakeCacheSpace(alone, evicts, mine + Elements(c));
      if old(LockKept(alone)) { ResizedFields(old(cacheSize) + if cached && !old(Roomy()) then 1 else 0); }
      LeftChain(mine, c, first, was, Now());
      if cached {
        ghost var mid := Now();
        OwnOut(mine, c, mid);
        OursGive(where, theirs, c, InSlot(|slots|));
        PushSlot(Entry(first, last), c);
        PushLeft(mine, c, mid, Now());
        LeftTransitive(mine, None, was, mid, Now());
      }
    }

    /** One span, with all its objects in address order, is new in front of `nonempty`. */
    twostate predicate Refilled(s: SpanId)
      reads this
    {
      && s in start && nonempty == [s] + old(nonempty) && numSpans == old(numSpans) + 1
      && shape.size > 0 && counter == old(counter) + shape.PerSpan() && Free(content, s) == shape.Listing(start[s], shape.PerSpan())
    }

    /** `Populate`: the lock is dropped from the start until the new span is complete. */
    method Populate(alone: bool, ghost mine: set<Addr>) returns (ghost added: Option<SpanId>)
      requires Valid() && Rely(mine, None, Now())
      modifies this
      ensures Valid() && Left(mine, None, old(Now()), Now()) && (alone ==> TookOut(old(where), where, {}))
      ensures Ours() == old(Ours()) && Loose() == old(Loose())
      ensures alone && added.None? ==> nonempty == old(nonempty) && counter == old(counter) && numSpans == old(numSpans)
      ensures alone && added.Some? ==> added.value !in old(start) && Refilled(added.value)
      ensures heapWorks ==> added.Some?
    {
      hide OursOf, State.Inv, Chain, Left, PrivateObjects, Shape.Of, Shape.PerSpan, Shape.Listing;
      ghost var s0 := Now();
      Interfere(alone, mine, None);
      ghost var s1 := Now();
      LeftRelies(mine, None, s0, s1);
      var r := TakeSpan();
      added := r;
      LeftBy(mine, None, s1, Now(), {});
      LeftTransitive(mine, None, s0, s1, Now());
      ghost var s2 := Now();
      if r.None? {
        Interfere(alone, mine, None);
        LeftTransitive(mine, None, s0, s2, Now());
      } else {
        Fill(alone, r.value, mine);
        LeftTransitive(mine, None, s0, s2, Now());
      }
    }

    /** Cut up a span just taken, unlocked, and adopt it. */
    method Fill(alone: bool, s: SpanId, ghost mine: set<Addr>)
      requires Valid() && Rely(mine, Some(s), Now())
      modifies this
      ensures Valid() && Left(mine, None, old(Now()), Now()) && (alone ==> TookOut(old(where), where, {}))
      ensures Ours() == old(Ours()) && Loose() == old(Loose()) - {s}
      ensures alone ==> start == old(start) && head.Keys == old(head.Keys) + {s} && Refilled(s)
    {
      hide OursOf, State.Inv, Chain, Left, Shape.Of, Shape.PerSpan, Shape.Listing, AgreeBut, Agree;
      ghost var s2 := Now();
      s2.Sane();
      var first, num := CarveApart(alone, s, mine);
      ghost var s4 := Now();
      Adopt(s, first, num);
      OursAdopt(s4.where, where, theirs);
      LeftBy(mine, None, s4, Now(), {}) by { AgreeSelf(mem); }
      LeftTransitive(mine, None, s2, s4, Now());
    }

    /** Cut up a span of one's own, and have it as it was cut when the lock is taken. */
    method CarveApart(alone: bool, s: SpanId, ghost mine: set<Addr>) returns (first: Addr, num: nat)
      requires Valid() && Rely(mine, Some(s), Now())
      modifies this
      ensures Valid() && Left(mine, None, old(Now()), Now()) && Rely(mine, Some(s), Now())
      ensures Ours() == old(Ours()) && Loose() == old(Loose())
      ensures num == shape.PerSpan() > 0 && Chain(mem, first, shape.Listing(start[s], num))
      ensures alone ==> Now() == old(Now()).(mem := mem)
    {
      hide OursOf, State.Inv, Chain, Left, Shape.Of, Shape.PerSpan, Shape.Listing, AgreeBut, Agree;
      ghost var s2 := Now();
      s2.Sane();
      first, num := Carve(s);
      s2.Private(s);
      LeftBy(mine, None, s2, Now(), shape.Of(start[s]));
      ghost var s3 := Now();
      Interfere(alone, mine, Some(s));
      LeftWeaker(mine, mine, Some(s), s3, Now());
      LeftTransitive(mine, None, s2, s3, Now());
      LeftPrivate(mine, s, s3, Now(), first, num);
    }

    /** `FetchFromOneSpansSafe`: the first objects of the first span that has any, or else, after one
        refill, of the new span. */
    method FetchFromOneSpansSafe(alone: bool, n: nat, ghost mine: set<Addr>) returns (result: nat, first: Addr, last: Addr, ghost c: seq<Addr>, ghost added: Option<SpanId>)
      requires Valid() && n > 0 && Rely(mine, None, Now())
      modifies this
      ensures Valid() && Left(mine, None, old(Now()), Now()) && mine !! Elements(c) && Rely(Elements(c), None, Now())
      ensures Ours() == old(Ours()) + Elements(c) && Loose() == old(Loose())
      ensures result == |c| <= n && (result == 0 ==> nonempty == [])
      ensures old(nonempty) != [] ==> added.None? && c == Prefix(Free(old(content), old(nonempty)[0]), n)
      ensures alone && old(nonempty) == [] && added.None? ==> result == 0
      ensures alone && added.Some? ==> added.value in start && added.value !in old(start) && shape.size > 0 && c == Prefix(shape.Listing(start[added.value], shape.PerSpan()), n)
      ensures alone ==> numSpans == (old(numSpans) + if added.Some? then 1 else 0) && (heapWorks ==> result > 0)
      ensures Chain(mem, first, c) && (c != [] ==> last == c[|c| - 1])
      ensures alone ==> TookOut(old(where), where, Elements(c))
    {
      hide OursOf, Loose, State.Inv, Chain, Left, Elements, TookOut, Moved, Rely, AgreeBut;
      ghost var was := Now();
      added := None;
      result, first, last, c := FetchOwn(n, mine);
      if result == 0 {
        LeftRelies(mine, None, was, was) by { LeftSame(mine, None, was); }
        result, first, last, c, added := FetchRefilled(alone, n, mine);
      }
    }

    /** The refill, and the fetch after it. */
    method FetchRefilled(alone: bool, n: nat, ghost mine: set<Addr>) returns (result: nat, first: Addr, last: Addr, ghost c: seq<Addr>, ghost added: Option<SpanId>)
      requires Valid() && n > 0 && Rely(mine, None, Now()) && nonempty == []
      modifies this
      ensures Valid() && Left(mine, None, old(Now()), Now()) && mine !! Elements(c) && Rely(Elements(c), None, Now())
      ensures Ours() == old(Ours()) + Elements(c) && Loose() == old(Loose())
      ensures result == |c| <= n && (result == 0 ==> nonempty == [])
      ensures alone && added.None? ==> result == 0
      ensures alone && added.Some? ==> added.value in start && added.value !in old(start) && shape.size > 0 && c == Prefix(shape.Listing(start[added.value], shape.PerSpan()), n)
      ensures alone ==> numSpans == (old(numSpans) + if added.Some? then 1 else 0) && (heapWorks ==> result > 0)
      ensures Chain(mem, first, c) && (c != [] ==> last == c[|c| - 1])
      ensures alone ==> TookOut(old(where), where, Elements(c))
    {
      hide OursOf, Loose, State.Inv, Chain, Left, Elements, TookOut, Moved, Rely, AgreeBut;
      ghost var was := Now();
      added := Populate(alone, mine);
      ghost var s2 := Now();
      LeftRelies(mine, None, was, s2);
      result, first, last, c := FetchOwn(n, mine);
      LeftTransitive(mine, None, was, s2, Now());
      if alone { TookOutMore(was.where, s2.where, where, {}, Elements(c)); }
      assert {} + Elements(c) == Elements(c);
    }

    /** `FetchFromOneSpans`, seen by the thread that gets the objects. */
    method FetchOwn(n: nat, ghost mine: set<Addr>) returns (result: nat, first: Addr, last: Addr, ghost c: seq<Addr>)
      requires Valid() && n > 0 && Rely(mine, None, Now())
      modifies `mem, `head, `refcount, `nonempty, `empty, `counter, `untouched, `where, `content
      ensures Valid() && Left(mine, None, old(Now()), Now()) && mine !! Elements(c) && Rely(Elements(c), None, Now())
      ensures Ours() == old(Ours()) + Elements(c) && Loose() == old(Loose()) && TookOut(old(where), where, Elements(c))
      ensures result == |c| <= n && (result == 0 <==> old(nonempty) == []) && (result == 0 ==> Now() == old(Now()))
      ensures old(nonempty) != [] ==> c == Prefix(Free(old(content), old(nonempty)[0]), n)
      ensures Chain(mem, first, c) && (c != [] ==> last == c[|c| - 1])
    {
      hide OursOf, Loose, State.Inv, Chain, Left, Elements, TookOut, Moved, Rely, AgreeBut;
      ghost var was := Now();
      result, first, last, c := FetchFromOneSpans(n);
      FetchLeft(mine, was, Now(), c);
      FetchOurs(mine, was, c);
    }

    /** `RemoveRange`: a chain of exactly `result` distinct objects, none of them anybody else's. */
    method RemoveRange(alone: bool, n: nat, ghost mine: set<Addr>) returns (result: nat, first: Addr, last: Addr, ghost c: seq<Addr>)
      requires Valid() && n > 0 && Rely(mine, None, Now())
      modifies this
      ensures Valid() && Left(mine, None, old(Now()), Now()) && mine !! Elements(c) && Rely(Elements(c), None, Now())
      ensures Ours() == old(Ours()) + Elements(c) && Loose() == old(Loose())
      ensures result == |c| == |Elements(c)| <= n && (result < n ==> nonempty == [])
      ensures Chain(mem, first, c) && (c != [] ==> last == c[|c| - 1])
      ensures n == batch && old(slots) != [] ==> old(slots) == slots + [Entry(first, last)]
      ensures alone && heapWorks ==> result > 0
      ensures alone ==> TookOut(old(where), where, Elements(c))
    {
      hide OursOf, State.Inv, Chain, Left, Elements, Rely, TookOut, Moved;
      ghost var was := Now();
      if n == batch && slots != [] {
        var e;
        e, c := PopSlot();
        PopLeft(mine, was, Now(), c);
        FetchOurs(mine, was, c);
        ChainSize(mem, e.value.head, c);
        return n, e.value.head, e.value.tail, c;
      }
      ghost var refill;
      result, first, last, c, refill := FetchFromOneSpansSafe(alone, n, mine);
      if result != 0 {
        ghost var s1, c0 := Now(), c;
        LeftRelies(mine, None, was, s1);
        ghost var d;
        result, first, c, d := FetchRest(n, mine, result, first, last, c);
        LeftTransitive(mine, None, was, s1, Now());
        ElementsSum(d, c0);
        if alone { TookOutMore(was.where, s1.where, where, Elements(c0), Elements(d)); }
        assert Elements(c0) + Elements(d) == Elements(c);
      }
      ChainSize(mem, first, c);
    }

    /** The loop of `RemoveRange`: further chunks, each put in front. */
    method FetchRest(n: nat, ghost mine: set<Addr>, got: nat, first0: Addr, ghost last: Addr, ghost c0: seq<Addr>) returns (result: nat, first: Addr, ghost c: seq<Addr>, ghost d: seq<Addr>)
      requires Valid() && 0 < got == |c0| <= n && Chain(mem, first0, c0) && last == c0[|c0| - 1]
      requires mine !! Elements(c0) && Rely(mine, None, Now()) && Rely(Elements(c0), None, Now())
      modifies this
      ensures Valid() && Left(mine, None, old(Now()), Now()) && mine !! Elements(c) && Rely(Elements(c), None, Now())
      ensures Ours() == old(Ours()) + Elements(d)
      ensures result == |c| <= n && (result < n ==> nonempty == []) && c != [] && Chain(mem, first, c) && last == c[|c| - 1]
      ensures c == d + c0 && TookOut(old(where), where, Elements(d)) && Loose() == old(Loose())
    {
      hide Ours, State.Inv, Chain, Left, Elements, TookOut;
      TookNothing(where);
      ElementsNone();
      result, first, c, d := got, first0, c0, [];
      LeftSame(mine, None, Now());
      while result < n
        invariant Valid() && Left(mine, None, old(Now()), Now()) && mine !! Elements(c) && Rely(mine, None, Now()) && Rely(Elements(c), None, Now())
        invariant result == |c| <= n && c == d + c0 && c != [] && Chain(mem, first, c) && last == c[|c| - 1]
        invariant TookOut(old(where), where, Elements(d)) && Loose() == old(Loose()) && Ours() == old(Ours()) + Elements(d)
      {
        ghost var mid := Now();
        var more, head, chunk := FetchMore(n - result, mine, first, c);
        if more == 0 { break; }
        LeftTransitive(mine, None, old(Now()), mid, Now());
        TookOutMore(old(where), mid.where, where, Elements(d), Elements(chunk));
        ElementsSum(chunk, d);
        ElementsSum(chunk, c);
        assert Elements(d) + Elements(chunk) == Elements(chunk + d);
        d, c, first, result := chunk + d, chunk + c, head, result + more;
      }
    }

    /** One more chunk in front of `c`: fetch it and link its tail to `first`. */
    method FetchMore(n: nat, ghost mine: set<Addr>, first: Addr, ghost c: seq<Addr>) returns (got: nat, head: Addr, ghost more: seq<Addr>)
      requires Valid() && n > 0 && Chain(mem, first, c) && mine !! Elements(c) && Rely(mine, None, Now()) && Rely(Elements(c), None, Now())
      modifies this
      ensures Valid() && got == |more| <= n && (got == 0 ==> nonempty == [] && Now() == old(Now())) && Loose() == old(Loose()) && Ours() == old(Ours()) + Elements(more)
      ensures got > 0 ==> Left(mine, None, old(Now()), Now()) && Rely(mine, None, Now()) && TookOut(old(where), where, Elements(more))
      ensures got > 0 ==> mine !! Elements(more) && Rely(Elements(more + c), None, Now()) && Chain(mem, head, more + c)
    {
      hide OursOf, Loose, State.Inv, Chain, Left, Elements, TookOut;
      ghost var was := Now();
      var tail;
      got, head, tail, more := FetchFromOneSpans(n);
      FetchOurs(mine, was, more);
      if got == 0 { return; }
      ghost var s1 := Now();
      FetchJoins(mine, was, s1, first, c, head, more);
      LastIn(more);
      s1.WriteKeeps(mem[tail := first], {tail});
      mem := mem[tail := first];
      LeftBy(mine, None, s1, Now(), {tail});
      LeftTransitive(mine, None, was, s1, Now());
    }

    /** `ShrinkCache`, on behalf of another size class: one entry less, out of a full cache only when
        forced, and then the top slot goes back to the spans. The first tests are made before the
        lock is taken. */
    method ShrinkCache(alone: bool, force: bool, ghost mine: set<Addr>) returns (shrunk: bool)
      requires Valid() && Rely(mine, None, Now())
      modifies this
      ensures Valid() && Left(mine, None, old(Now()), Now())
      ensures Ours() == old(Ours()) && Loose() == old(Loose())
      ensures alone ==> (shrunk <==> old(cacheSize) > 0 && (force || old(Roomy())))
      ensures alone ==> untouched == old(untouched) && cacheSize == old(cacheSize) - if shrunk then 1 else 0
      ensures alone && (shrunk ==> old(Roomy())) ==> slots == old(slots) && where == old(where)
      ensures alone && shrunk && !old(Roomy()) ==> slots == old(slots)[..|old(slots)| - 1]
      ensures alone && shrunk && !old(Roomy()) ==> GaveBack(old(where), where, At(old(where), InSlot(|old(slots)| - 1)))
    {
      hide OursOf, State.Inv, Left, GaveBack;
      ghost var was := Now();
      LeftSame(mine, None, was);
      if cacheSize == 0 || (!force && |slots| == cacheSize) { return false; }
      Interfere(alone, mine, None);
      ghost var s1 := Now();
      LeftRelies(mine, None, was, s1);
      s1.Bounded();
      if cacheSize == 0 || (|slots| == cacheSize && !force) { return false; }
      if |slots| == cacheSize {
        EvictTop(alone, mine);
      } else {
        Resize(cacheSize - 1, mine, None);
      }
      LeftTransitive(mine, None, was, s1, Now());
      shrunk := true;
    }

    /** The entry and the slot go first, since the lock is dropped on the way to the spans. */
    method EvictTop(alone: bool, ghost mine: set<Addr>)
      requires Valid() && Rely(mine, None, Now()) && 0 < |slots| == cacheSize
      modifies this
      ensures Valid() && Left(mine, None, old(Now()), Now())
      ensures Ours() == old(Ours()) && Loose() == old(Loose())
      ensures alone ==> untouched == old(untouched) && cacheSize == old(cacheSize) - 1 && slots == old(slots)[..|old(slots)| - 1]
      ensures alone ==> GaveBack(old(where), where, At(old(where), InSlot(|old(slots)| - 1)))
    {
      hide OursOf, State.Inv, Chain, Left, GaveBack;
      ghost var was := Now();
      var e, c := PopSlot();
      assert Elements(c) == At(was.where, InSlot(|was.slots| - 1));
      PopLeft(mine, was, Now(), c);
      FetchOurs(mine, was, c);
      ghost var s1 := Now();
      LeftRelies(mine, None, was, s1);
      was.Bounded();
      RelyBoth(mine, Elements(c), s1);
      Resize(cacheSize - 1, mine + Elements(c), None);
      ghost var s2 := Now();
      LeftChain(mine, c, e.value.head, s1, s2);
      ReleaseListToSpans(alone, e.value.head, c, mine);
      LeftTransitive(mine, None, s1, s2, Now());
      LeftTransitive(mine, None, was, s1, Now());
      if alone { GaveBackSlot(was.where, where, c); }
    }
  }
}
