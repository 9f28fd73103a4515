/** The mark phase of the heap leak checker and the snapshot taken after it.

    The checker floods from a stack of memory pieces known to be live. Every aligned word in a live
    piece that points into a recorded allocation makes that allocation live too. What is not
    marked at the end, and was not there before, is reported as leaked.
 */
module LeakGraph {
  import opened AddressMap
  import opened Arithmetic
  import opened Basics

  const WORD_SIZE := 8

  /** What the flood reads but does not change: memory, the alignment of pointers to look for, the
      heap's address bounds, and how far into an object a pointer may point. */
  datatype Env = Env(mem: nat -> nat, align: nat, minAddress: nat, maxAddress: nat, maxOffset: nat)

  /** The size of every recorded allocation, by its start, and which word counts as a pointer to which
      allocation. */
  datatype Heap = Heap(sizes: map<nat, nat>, points: iset<(nat, nat)>)

  /** A piece of live memory; `onHeap` is MUST_BE_ON_HEAP. */
  datatype Piece = Piece(ptr: nat, size: nat, onHeap: bool)

  ghost predicate Scanned(env: Env, p: Piece, a: nat) {
    env.align > 0 && a % env.align == 0 && p.ptr <= a && a + WORD_SIZE <= p.ptr + p.size
  }

  /** The word `w` counts as a pointer to the allocation at `k`. */
  ghost predicate Hits(heap: Heap, w: nat, k: nat) {
    (w, k) in heap.points && k in heap.sizes
  }

  ghost predicate EdgeAt(env: Env, heap: Heap, p: Piece, k: nat, a: nat) {
    Scanned(env, p, a) && Hits(heap, env.mem(a), k)
  }

  ghost predicate Edge(env: Env, heap: Heap, p: Piece, k: nat) {
    exists a: nat :: EdgeAt(env, heap, p, k, a)
  }

  /** The whole of a recorded allocation, as a piece of memory. */
  ghost function Whole(heap: Heap, k: nat): Piece
    requires k in heap.sizes
  {
    Piece(k, heap.sizes[k], false)
  }

  /** What a root makes live directly. */
  ghost predicate Starts(env: Env, heap: Heap, root: Piece, k: nat) {
    Edge(env, heap, root, k) || (root.onHeap && root.ptr == k && k in heap.sizes)
  }

  ghost predicate Follows(env: Env, heap: Heap, p: seq<nat>, i: nat)
    requires 0 < i < |p|
  {
    p[i - 1] in heap.sizes && Edge(env, heap, Whole(heap, p[i - 1]), p[i])
  }

  /** A chain of pointers from a root. */
  ghost predicate IsPath(env: Env, heap: Heap, roots: seq<Piece>, p: seq<nat>) {
    && |p| > 0 && (exists r :: r in roots && Starts(env, heap, r, p[0]))
    && forall i | 0 < i < |p| :: Follows(env, heap, p, i)
  }

  ghost predicate Reachable(env: Env, heap: Heap, roots: seq<Piece>, k: nat) {
    exists p :: IsPath(env, heap, roots, p) && p[|p| - 1] == k
  }

  lemma ReachableFromRoot(env: Env, heap: Heap, roots: seq<Piece>, r: Piece, k: nat)
    requires r in roots && Starts(env, heap, r, k)
    ensures Reachable(env, heap, roots, k)
  {
    assert IsPath(env, heap, roots, [k]);
  }

  lemma ReachableNext(env: Env, heap: Heap, roots: seq<Piece>, k: nat, t: nat)
    requires Reachable(env, heap, roots, k) && k in heap.sizes && Edge(env, heap, Whole(heap, k), t)
    ensures Reachable(env, heap, roots, t)
  {
    var p :| IsPath(env, heap, roots, p) && p[|p| - 1] == k;
    assert IsPath(env, heap, roots, p);
    var q := p + [t];
    forall i | 0 < i < |q| ensures Follows(env, heap, q, i) {
      assert i < |p| ==> Follows(env, heap, p, i);
    }
    assert IsPath(env, heap, roots, q);
  }

  /** Everything in the set points only into the set. */
  ghost predicate Closed(env: Env, heap: Heap, live: set<nat>) {
    forall k, t | k in live && k in heap.sizes && Edge(env, heap, Whole(heap, k), t) :: t in live
  }

  /** A closed set that holds what the roots make live holds all that is reachable. */
  lemma {:induction false} ClosedHoldsPath(env: Env, heap: Heap, roots: seq<Piece>, live: set<nat>, p: seq<nat>)
    requires Closed(env, heap, live) && IsPath(env, heap, roots, p)
    requires forall r, t | r in roots && Starts(env, heap, r, t) :: t in live
    ensures p[|p| - 1] in live
    decreases |p|
  {
    var n := |p| - 1;
    if n > 0 {
      var q := p[..n];
      forall i | 0 < i < |q| ensures Follows(env, heap, q, i) { assert Follows(env, heap, p, i); }
      ClosedHoldsPath(env, heap, roots, live, q);
      assert Follows(env, heap, p, n);
    }
  }

  // ----- The state of the flood

  /** Nothing still to be found from this piece. */
  ghost predicate Drained(env: Env, heap: Heap, live: set<nat>, p: Piece) {
    forall t | Edge(env, heap, p, t) :: t in live
  }

  /** The standing invariant of the flood: all marks are justified, and every live piece that has
      not been drained is on the stack. */
  ghost predicate Flooding(env: Env, heap: Heap, roots: seq<Piece>, before: set<nat>, live: set<nat>, stack: seq<Piece>) {
    && before <= live <= heap.sizes.Keys
    && (forall k | k in live :: k in before || Reachable(env, heap, roots, k))
    && (forall s | s in stack :: s in roots || (s.ptr in heap.sizes && s == Whole(heap, s.ptr) && Reachable(env, heap, roots, s.ptr)))
    && (forall k | k in live :: Whole(heap, k) in stack || Drained(env, heap, live, Whole(heap, k)))
    && (forall r | r in roots :: r in stack || Processed(env, heap, live, r))
  }

  ghost predicate Processed(env: Env, heap: Heap, live: set<nat>, r: Piece) {
    Drained(env, heap, live, r) && (r.onHeap && r.ptr in heap.sizes ==> r.ptr in live)
  }

  /** Roots that claim to be on the heap carry the size of the allocation there. */
  ghost predicate SizesMatch(heap: Heap, roots: seq<Piece>) {
    forall r | r in roots && r.onHeap && r.ptr in heap.sizes :: r.size == heap.sizes[r.ptr]
  }

  lemma FloodStart(env: Env, heap: Heap, roots: seq<Piece>, before: set<nat>)
    requires before <= heap.sizes.Keys && Closed(env, heap, before)
    ensures Flooding(env, heap, roots, before, before, roots)
  { }

  /** With the stack empty, exactly the reachable allocations have been added. */
  lemma FloodEnd(env: Env, heap: Heap, roots: seq<Piece>, before: set<nat>, live: set<nat>)
    requires Flooding(env, heap, roots, before, live, []) && Closed(env, heap, before)
    ensures Closed(env, heap, live)
    ensures forall k: nat :: k in live <==> k in before || Reachable(env, heap, roots, k)
  {
    assert Closed(env, heap, live);
    forall k: nat | Reachable(env, heap, roots, k) ensures k in live {
      var p :| IsPath(env, heap, roots, p) && p[|p| - 1] == k;
      assert IsPath(env, heap, roots, p);
      ClosedHoldsPath(env, heap, roots, live, p);
    }
  }

  /** What scanning the piece `p` does: marks everything it points to and stacks what is new. */
  ghost predicate Scans(env: Env, heap: Heap, p: Piece, live: set<nat>, live': set<nat>, pushed: seq<Piece>) {
    && live <= live' <= heap.sizes.Keys && Drained(env, heap, live', p)
    && (forall k | k in live' && k !in live :: Whole(heap, k) in pushed && Edge(env, heap, p, k))
    && (forall s | s in pushed :: s.ptr in live' && s.ptr !in live && s == Whole(heap, s.ptr) && Edge(env, heap, p, s.ptr))
  }

  /** The scan part way: done with the words of `p` before address `a`. */
  ghost predicate Scanning(env: Env, heap: Heap, p: Piece, before: set<nat>, live: set<nat>, pushed: seq<Piece>, a: nat) {
    && before <= live <= heap.sizes.Keys
    && (forall k: nat, b: nat | b < a && EdgeAt(env, heap, p, k, b) :: k in live)
    && (forall k | k in live && k !in before :: Whole(heap, k) in pushed && Edge(env, heap, p, k))
    && (forall s | s in pushed :: s.ptr in live && s.ptr !in before && s == Whole(heap, s.ptr) && Edge(env, heap, p, s.ptr))
  }

  /** One word: `hit` is the allocation it points into, pushed if that was not live before. */
  lemma ScanStep(env: Env, heap: Heap, p: Piece, before: set<nat>, live: set<nat>, live': set<nat>,
                 pushed: seq<Piece>, pushed': seq<Piece>, a: nat, hit: Option<nat>)
    requires Scanning(env, heap, p, before, live, pushed, a) && Scanned(env, p, a)
    requires forall k: nat :: Hits(heap, env.mem(a), k) <==> hit == Some(k)
    requires live' == live + (if hit.Some? then {hit.value} else {})
    requires pushed' == pushed + (if hit.Some? && hit.value !in live && hit.value in heap.sizes then [Whole(heap, hit.value)] else [])
    ensures Scanning(env, heap, p, before, live', pushed', a + env.align)
  {
    if hit.Some? {
      assert Hits(heap, env.mem(a), hit.value);
      assert EdgeAt(env, heap, p, hit.value, a);
    }
    forall k: nat, b: nat | b < a + env.align && EdgeAt(env, heap, p, k, b) ensures k in live' {
      if b >= a {
        NextAligned(a, b, env.align);
        assert Hits(heap, env.mem(a), k);
      }
    }
  }

  lemma NextAligned(a: nat, b: nat, align: nat)
    requires align > 0 && a % align == 0 && b % align == 0 && a <= b < a + align
    ensures a == b
  {
    var i, j := a / align, b / align;
    assert a == i * align && b == j * align;
    assert (j - i) * align == b - a;
    ProductAtLeast(j - i, align);
  }

  /** The scan starts at the first aligned address and ends when no whole word is left. */
  lemma ScanEnds(env: Env, heap: Heap, p: Piece, before: set<nat>, live: set<nat>, pushed: seq<Piece>, a: nat)
    requires Scanning(env, heap, p, before, live, pushed, a) && a + WORD_SIZE > p.ptr + p.size
    ensures Scans(env, heap, p, before, live, pushed)
  {
    forall k: nat | Edge(env, heap, p, k) ensures k in live {
      var b: nat :| EdgeAt(env, heap, p, k, b);
      assert EdgeAt(env, heap, p, k, b);
    }
  }

  /** `ptr` rounded up to the alignment, as the flood does it. */
  function AlignUp(ptr: nat, align: nat): nat
    requires align > 0
  {
    if ptr % align == 0 then ptr else ptr + (align - ptr % align)
  }

  lemma AlignUpIsFirst(ptr: nat, align: nat)
    requires align > 0
    ensures AlignUp(ptr, align) % align == 0 && AlignUp(ptr, align) >= ptr
    ensures forall b: nat | ptr <= b && b % align == 0 :: b >= AlignUp(ptr, align)
  {
    var a := AlignUp(ptr, align);
    var i := a / align;
    assert a % align == 0 by { Rounded(ptr, align); }
    forall b: nat | ptr <= b && b % align == 0 ensures b >= a {
      if b < a {
        var low := a - align;
        assert low % align == 0 by { assert a == i * align; assert low == (i - 1) * align; DivModUnique(low, align, i - 1, 0); }
        NextAligned(low, b, align);
        assert false;
      }
    }
  }

  lemma Rounded(ptr: nat, align: nat)
    requires align > 0
    ensures AlignUp(ptr, align) % align == 0
  {
    if ptr % align != 0 {
      assert ptr == ptr / align * align + ptr % align;
      assert AlignUp(ptr, align) == (ptr / align + 1) * align;
      DivModUnique(AlignUp(ptr, align), align, ptr / align + 1, 0);
    }
  }

  lemma ScanBegins(env: Env, heap: Heap, p: Piece, live: set<nat>)
    requires live <= heap.sizes.Keys && env.align > 0
    ensures Scanning(env, heap, p, live, live, [], AlignUp(p.ptr, env.align))
  {
    AlignUpIsFirst(p.ptr, env.align);
  }

  /** Popping a piece, marking it if it is on the heap, and scanning it keeps the invariant. */
  lemma FloodStep(env: Env, heap: Heap, roots: seq<Piece>, before: set<nat>,
                  live: set<nat>, marked: set<nat>, live': set<nat>, rest: seq<Piece>, p: Piece, pushed: seq<Piece>)
    requires Flooding(env, heap, roots, before, live, rest + [p]) && SizesMatch(heap, roots)
    requires marked == live + (if p.onHeap && p.ptr in heap.sizes then {p.ptr} else {})
    requires Scans(env, heap, p, marked, live', pushed)
    ensures Flooding(env, heap, roots, before, live', rest + pushed)
  {
    assert p in rest + [p];
    forall k | k in live' ensures k in before || Reachable(env, heap, roots, k) {
      if k !in live { NewIsReachable(env, heap, roots, p, k); }
    }
    forall s | s in rest + pushed
      ensures s in roots || (s.ptr in heap.sizes && s == Whole(heap, s.ptr) && Reachable(env, heap, roots, s.ptr)) {
      if s in rest { assert s in rest + [p]; } else { NewIsReachable(env, heap, roots, p, s.ptr); }
    }
    forall k | k in live' ensures Whole(heap, k) in rest + pushed || Drained(env, heap, live', Whole(heap, k)) {
      if k in live {
        assert Whole(heap, k) in rest + [p] || Drained(env, heap, live, Whole(heap, k));
        assert Whole(heap, k) in rest + [p] ==> Whole(heap, k) in rest || Whole(heap, k) == p;
      } else if k in marked {
        SameEdges(env, heap, p, k, live');
      }
    }
    forall r | r in roots ensures r in rest + pushed || Processed(env, heap, live', r) {
      assert r in rest + [p] || Processed(env, heap, live, r);
      assert r in rest + [p] ==> r in rest || r == p;
    }
  }

  lemma SameEdges(env: Env, heap: Heap, p: Piece, k: nat, live: set<nat>)
    requires k in heap.sizes && p.ptr == k && p.size == heap.sizes[k] && Drained(env, heap, live, p)
    ensures Drained(env, heap, live, Whole(heap, k))
  {
    forall t | Edge(env, heap, Whole(heap, k), t) ensures t in live {
      var a: nat :| EdgeAt(env, heap, Whole(heap, k), t, a);
      assert EdgeAt(env, heap, Whole(heap, k), t, a);
      assert EdgeAt(env, heap, p, t, a);
    }
  }

  lemma NewIsReachable(env: Env, heap: Heap, roots: seq<Piece>, p: Piece, k: nat)
    requires p in roots || (p.ptr in heap.sizes && p == Whole(heap, p.ptr) && Reachable(env, heap, roots, p.ptr))
    requires Starts(env, heap, p, k)
    ensures Reachable(env, heap, roots, k)
  {
    if p in roots { ReachableFromRoot(env, heap, roots, p, k); } else { ReachableNext(env, heap, roots, p.ptr, k); }
  }
}

module LeakChecker {
  import opened AddressMap
  import opened Arithmetic
  import opened Basics
  import opened LeakGraph

  /** A record of the heap profile: size, and the live and ignore bits. */
  datatype Alloc = Alloc(bytes: nat, live: bool, ignore: bool)

  function AllocSize(v: Alloc): nat { v.bytes }

  ghost function RangesOf(contents: map<nat, Alloc>): map<nat, nat> {
    map k | k in contents :: contents[k].bytes
  }

  ghost function LiveOf(contents: map<nat, Alloc>): set<nat> {
    set k | k in contents && contents[k].live
  }

  /** Marking changes live bits only. */
  ghost predicate SameButLive(a: map<nat, Alloc>, b: map<nat, Alloc>) {
    a.Keys == b.Keys && forall k | k in a :: b[k] == a[k].(live := b[k].live)
  }

  lemma SameRanges(a: map<nat, Alloc>, b: map<nat, Alloc>)
    requires SameButLive(a, b)
    ensures RangesOf(a) == RangesOf(b) && (NonNested(a, AllocSize) ==> NonNested(b, AllocSize))
  { }

  lemma SameReflexive(a: map<nat, Alloc>)
    ensures SameButLive(a, a)
  { }

  lemma SameThen(a: map<nat, Alloc>, b: map<nat, Alloc>, c: map<nat, Alloc>)
    requires SameButLive(a, b) && SameButLive(b, c)
    ensures SameButLive(a, c)
  { }

  lemma RangesKeys(a: map<nat, Alloc>)
    ensures RangesOf(a).Keys == a.Keys && LiveOf(a) <= a.Keys
  { }

  lemma MoreLive(all: set<nat>, a: set<nat>, b: set<nat>)
    requires a < b <= all || a == b
    ensures a < b ==> all - b < all - a
  {
    if a < b {
      var x :| x in b && x !in a;
      assert x in all - a && x !in all - b;
    }
  }

  /** The word `w` points at the start of the allocation at `k`, or into it, within the heap's bounds. */
  ghost predicate PointsInto(env: Env, ranges: map<nat, nat>, w: nat, k: nat) {
    && env.minAddress <= w <= env.maxAddress
    && k in ranges && (k == w || k < w < k + ranges[k]) && Searched(k, w, env.maxOffset)
  }

  /** The heap in which a word is a pointer to the allocation it points into. */
  ghost function Plain(env: Env, ranges: map<nat, nat>): Heap {
    Heap(ranges, iset w: nat, k: nat | PointsInto(env, ranges, w, k) :: (w, k))
  }

  /** `FindInside` on the profile is the pointer test. */
  lemma AnswerIsHit(contents: map<nat, Alloc>, env: Env, w: nat, k: nat)
    requires env.minAddress <= w <= env.maxAddress
    ensures PointsInto(env, RangesOf(contents), w, k) <==> Contains(contents, AllocSize, k, w) && Searched(k, w, env.maxOffset)
  { }

  lemma OutOfBounds(env: Env, ranges: map<nat, nat>, w: nat, k: nat)
    requires !(env.minAddress <= w <= env.maxAddress)
    ensures !PointsInto(env, ranges, w, k)
  { }

  /** A range apart from all recorded ones at other addresses. */
  ghost predicate Clear(c: map<nat, Alloc>, ptr: nat, bytes: nat) {
    forall k | k in c && k != ptr :: if k < ptr then k + c[k].bytes <= ptr else ptr + bytes <= k
  }

  lemma ClearIff(c: map<nat, Alloc>, ptr: nat, bytes: nat)
    requires NonNested(c, AllocSize)
    ensures NonNested(c[ptr := Alloc(bytes, false, false)], AllocSize) <==> Clear(c, ptr, bytes)
  {
    var now := c[ptr := Alloc(bytes, false, false)];
    if NonNested(now, AllocSize) {
      forall k | k in c && k != ptr ensures if k < ptr then k + c[k].bytes <= ptr else ptr + bytes <= k {
        assert k in now && ptr in now && AllocSize(now[k]) == c[k].bytes && AllocSize(now[ptr]) == bytes;
      }
    }
    if Clear(c, ptr, bytes) {
      forall a, b | a in now && b in now && a < b ensures a + AllocSize(now[a]) <= b { }
    }
  }

  // ----- The sweep

  /** The entries of a map, each once. */
  ghost predicate Listing(c: map<nat, Alloc>, es: seq<Entry<Alloc>>) {
    && (forall i, j | 0 <= i < j < |es| :: es[i].key != es[j].key)
    && (forall i | 0 <= i < |es| :: es[i].key in c && c[es[i].key] == es[i].value)
    && (forall k | k in c :: exists i :: 0 <= i < |es| && es[i].key == k)
  }

  lemma ListingOf(c: map<nat, Alloc>, es: seq<Entry<Alloc>>)
    requires Distinct(es) && forall e :: e in es <==> e.key in c && c[e.key] == e.value
    ensures Listing(c, es)
  {
    forall i | 0 <= i < |es| ensures es[i].key in c && c[es[i].key] == es[i].value { assert es[i] in es; }
    forall k | k in c ensures exists i :: 0 <= i < |es| && es[i].key == k {
      assert Entry(k, c[k]) in es;
      var i :| 0 <= i < |es| && es[i] == Entry(k, c[k]);
    }
  }

  /** The first `n` entries of `c0` have been gone through: their live bits are clear in `c1`, and
      those that were not live nor known are in `d`. */
  ghost predicate Swept(c0: map<nat, Alloc>, c1: map<nat, Alloc>, d: map<nat, Alloc>, known: set<nat>, es: seq<Entry<Alloc>>, n: nat) {
    && SameButLive(c0, c1)
    && (forall j | 0 <= j < |es| && es[j].key in c1 :: if j < n then !c1[es[j].key].live else c1[es[j].key] == es[j].value)
    && (forall k | k in d :: k in c0 && !c0[k].live && k !in known && d[k] == c0[k])
    && (forall j | 0 <= j < n && j < |es| && !es[j].value.live && es[j].key !in known :: es[j].key in d)
  }

  lemma SweptStart(c: map<nat, Alloc>, known: set<nat>, es: seq<Entry<Alloc>>)
    requires Listing(c, es)
    ensures Swept(c, c, map[], known, es, 0)
  { }

  lemma SweptMore(c0: map<nat, Alloc>, c1: map<nat, Alloc>, d: map<nat, Alloc>, known: set<nat>, es: seq<Entry<Alloc>>, n: nat)
    requires Listing(c0, es) && Swept(c0, c1, d, known, es, n) && n < |es|
    ensures var e := es[n];
            && e.key in c1 && c1[e.key] == e.value
            && Swept(c0, c1[e.key := e.value.(live := false)], if e.value.live || e.key in known then d else d[e.key := e.value], known, es, n + 1)
  {
    assert es[n].key in c0;
  }

  lemma SweptEnd(c0: map<nat, Alloc>, c1: map<nat, Alloc>, d: map<nat, Alloc>, known: set<nat>, es: seq<Entry<Alloc>>)
    requires Listing(c0, es) && Swept(c0, c1, d, known, es, |es|)
    ensures SameButLive(c0, c1) && LiveOf(c1) == {}
    ensures d == map k | k in c0 && !c0[k].live && k !in known :: c0[k]
  {
    forall k | k in c0 ensures !c1[k].live && (!c0[k].live && k !in known ==> k in d) {
      var i :| 0 <= i < |es| && es[i].key == k;
      assert es[i].key in c1;
    }
  }

  class Checker {
    const env: Env
    const allocs: Map<Alloc>
    var stack: seq<Piece>  // live_objects

    ghost predicate Valid()
      reads allocs
    {
      allocs.Valid() && env.align > 0
    }

    /** The recorded ranges do not overlap, as those of a heap do not. */
    ghost predicate Sound()
      reads allocs
    {
      Valid() && NonNested(allocs.contents, AllocSize)
    }

    /** What the checker takes for pointers: the allocation that the profile finds for a word. */
    ghost function View(): Heap
      requires Valid()
      reads allocs
    {
      Heap(RangesOf(allocs.contents), iset w: nat, k: nat | env.minAddress <= w <= env.maxAddress && allocs.Picks(AllocSize, env.maxOffset, w, k) :: (w, k))
    }

    /** With ranges that do not overlap, a word is a pointer to the allocation it points into. */
    lemma SoundView()
      requires Sound()
      ensures View() == Plain(env, RangesOf(allocs.contents))
    {
      hide Represents, Map.Picks, RangesOf, NonNested, Contains, Searched, PointsInto;
      forall w: nat, k: nat
        ensures env.minAddress <= w <= env.maxAddress && allocs.Picks(AllocSize, env.maxOffset, w, k) <==> PointsInto(env, RangesOf(allocs.contents), w, k) {
        if env.minAddress <= w <= env.maxAddress {
          allocs.PicksApart(AllocSize, env.maxOffset, w, k);
          AnswerIsHit(allocs.contents, env, w, k);
        } else {
          OutOfBounds(env, RangesOf(allocs.contents), w, k);
        }
      }
    }

    /** Marking changes nothing of what is taken for a pointer. */
    twostate lemma ViewKept()
      requires old(Valid()) && Valid() && SameButLive(old(allocs.contents), allocs.contents) && SameOrder(old(allocs.table), allocs.table)
      ensures View() == old(View())
    {
      hide Shaped, Represents, Searched, FirstInside, Entries, SameOrder;
      SameRanges(old(allocs.contents), allocs.contents);
      forall w: nat, k: nat
        ensures allocs.Picks(AllocSize, env.maxOffset, w, k) <==> old(allocs.Picks(AllocSize, env.maxOffset, w, k)) {
        allocs.PicksSame(old(allocs.table), old(allocs.contents), AllocSize, env.maxOffset, w, k);
      }
    }

    constructor (env: Env)
      requires env.align > 0
      ensures Sound() && this.env == env && allocs.contents == map[] && stack == [] && fresh(allocs)
    {
      this.env := env;
      allocs := new Map();
      stack := [];
    }

    /** `RecordAlloc`: the range replaces what was recorded at its address. Ranges stay apart exactly
        if this one is apart from the others. */
    method RecordAlloc(ptr: nat, bytes: nat)
      requires Valid()
      modifies allocs
      ensures Valid() && allocs.contents == old(allocs.contents)[ptr := Alloc(bytes, false, false)]
      ensures old(Sound()) ==> (Sound() <==> Clear(old(allocs.contents), ptr, bytes))
    {
      hide Shaped, Represents, NonNested, Clear;
      if NonNested(allocs.contents, AllocSize) { ClearIff(allocs.contents, ptr, bytes); }
      allocs.Insert(ptr, Alloc(bytes, false, false));
    }

    /** `RecordFree`. */
    method RecordFree(ptr: nat)
      requires Valid()
      modifies allocs
      ensures Valid() && allocs.contents == old(allocs.contents) - {ptr} && (old(Sound()) ==> Sound())
    {
      var _ := allocs.FindAndRemove(ptr);
    }

    /** `MarkAsLive`: true if the allocation exists and was not live yet. */
    method MarkAsLive(ptr: nat) returns (marked: bool)
      requires Valid()
      modifies allocs
      ensures Valid() && SameButLive(old(allocs.contents), allocs.contents) && (old(Sound()) ==> Sound())
      ensures marked <==> ptr in allocs.contents && !old(allocs.contents)[ptr].live
      ensures LiveOf(allocs.contents) == LiveOf(old(allocs.contents)) + (if ptr in allocs.contents then {ptr} else {})
      ensures View() == old(View())
    {
      hide Shaped, Represents, NonNested, SameOrder, Map.Picks;
      var v := allocs.Find(ptr);
      marked := v.Some? && !v.value.live;
      if marked {
        allocs.Insert(ptr, v.value.(live := true));
        ViewKept();
      }
      SameRanges(old(allocs.contents), allocs.contents);
    }

    /** `HaveOnHeapLocked` with its quick range test: an allocation the word points into, which none at
        or below the word follows in a later block. With ranges that do not overlap, it is the one the
        word points into. */
    method Lookup(w: nat) returns (r: Option<nat>)
      requires Valid()
      ensures forall k: nat :: Hits(View(), w, k) <==> r == Some(k)
      ensures r.Some? ==> PointsInto(env, RangesOf(allocs.contents), w, r.value) && allocs.Above(w, r.value)
      ensures r.None? ==> forall k: nat | PointsInto(env, RangesOf(allocs.contents), w, k) :: !allocs.Above(w, k)
      ensures Sound() ==> forall k: nat :: PointsInto(env, RangesOf(allocs.contents), w, k) <==> r == Some(k)
    {
      r := None;
      if env.minAddress <= w <= env.maxAddress {
        r := allocs.FindInside(AllocSize, env.maxOffset, w);
        allocs.AnswerPicks(AllocSize, env.maxOffset, w, r);
      }
      LookedUp(w, r);
    }

    lemma LookedUp(w: nat, r: Option<nat>)
      requires Valid()
      requires if env.minAddress <= w <= env.maxAddress then allocs.Answer(AllocSize, env.maxOffset, w, r) && forall k: nat :: r == Some(k) <==> allocs.Picks(AllocSize, env.maxOffset, w, k) else r.None?
      ensures forall k: nat :: Hits(View(), w, k) <==> r == Some(k)
      ensures r.Some? ==> PointsInto(env, RangesOf(allocs.contents), w, r.value) && allocs.Above(w, r.value)
      ensures r.None? ==> forall k: nat | PointsInto(env, RangesOf(allocs.contents), w, k) :: !allocs.Above(w, k)
      ensures Sound() ==> forall k: nat :: PointsInto(env, RangesOf(allocs.contents), w, k) <==> r == Some(k)
    {
      hide Map.Valid, Map.Above, PointsInto, NonNested, Searched, Map.Chosen;
      forall k: nat ensures PointsInto(env, RangesOf(allocs.contents), w, k) <==> env.minAddress <= w <= env.maxAddress && Contains(allocs.contents, AllocSize, k, w) && Searched(k, w, env.maxOffset) {
        if env.minAddress <= w <= env.maxAddress { AnswerIsHit(allocs.contents, env, w, k); } else { OutOfBounds(env, RangesOf(allocs.contents), w, k); }
      }
      if NonNested(allocs.contents, AllocSize) && env.minAddress <= w <= env.maxAddress { allocs.AnswerApart(AllocSize, env.maxOffset, w, r); }
    }

    /** Mark an allocation just found and, if it was not live yet, stack it for scanning. */
    method Discover(ptr: nat)
      requires Valid() && ptr in allocs.contents
      modifies `stack, allocs
      ensures Valid() && SameButLive(old(allocs.contents), allocs.contents) && View() == old(View())
      ensures LiveOf(allocs.contents) == LiveOf(old(allocs.contents)) + {ptr}
      ensures stack == old(stack) + if ptr in LiveOf(old(allocs.contents)) then [] else [Whole(View(), ptr)]
    {
      hide Shaped, Represents, NonNested;
      var v := allocs.Find(ptr);
      var marked := MarkAsLive(ptr);
      if marked { stack := stack + [Piece(ptr, v.value.bytes, false)]; }
    }

    /** The inner loop's state before it looks at address `a`. */
    ghost predicate ScanState(p: Piece, heap: Heap, c0: map<nat, Alloc>, base: seq<Piece>, a: nat)
      reads this, allocs
    {
      && Valid() && View() == heap && SameButLive(c0, allocs.contents) && base <= stack
      && a % env.align == 0 && a >= p.ptr
      && Scanning(env, heap, p, LiveOf(c0), LiveOf(allocs.contents), stack[|base|..], a)
    }

    /** One aligned word. */
    method ScanWord(p: Piece, a: nat, ghost heap: Heap, ghost c0: map<nat, Alloc>, ghost base: seq<Piece>)
      requires ScanState(p, heap, c0, base, a) && a + WORD_SIZE <= p.ptr + p.size
      modifies `stack, allocs
      ensures ScanState(p, heap, c0, base, a + env.align)
    {
      hide Scanning, Map.Valid, NonNested, SameButLive, LiveOf, RangesOf, Map.Picks, PointsInto, Map.Above;
      ghost var c1, s1 := allocs.contents, stack;
      var hit := Lookup(env.mem(a));
      SameReflexive(c1);
      if hit.Some? {
        assert Hits(heap, env.mem(a), hit.value);
        RangesKeys(c1);
        Discover(hit.value);
      }
      SameThen(c0, c1, allocs.contents);
      assert stack[|base|..] == s1[|base|..] + stack[|s1|..];
      ScanStep(env, heap, p, LiveOf(c0), LiveOf(c1), LiveOf(allocs.contents), s1[|base|..], stack[|base|..], a, hit);
      DivAddMultiple(a, env.align, 1);
    }

    /** The inner loop: look at every aligned word of a piece. */
    method Scan(p: Piece)
      requires Valid()
      modifies `stack, allocs
      ensures Valid() && SameButLive(old(allocs.contents), allocs.contents) && old(stack) <= stack && View() == old(View())
      ensures Scans(env, View(), p, LiveOf(old(allocs.contents)), LiveOf(allocs.contents), stack[|old(stack)|..])
    {
      hide Scanning, Scans, Map.Valid, NonNested, SameButLive, LiveOf, RangesOf, Map.Picks;
      ghost var heap, c0, base := View(), allocs.contents, stack;
      var a := AlignUp(p.ptr, env.align);
      AlignUpIsFirst(p.ptr, env.align);
      RangesKeys(c0);
      SameReflexive(c0);
      ScanBegins(env, heap, p, LiveOf(c0));
      assert stack[|base|..] == [];
      while a + WORD_SIZE <= p.ptr + p.size
        invariant ScanState(p, heap, c0, base, a)
      {
        ScanWord(p, a, heap, c0, base);
        a := a + env.align;
      }
      ScanEnds(env, heap, p, LiveOf(c0), LiveOf(allocs.contents), stack[|base|..], a);
    }

    /** `IgnoreLiveObjectsLocked`. Starting from a closed set of marks, the flood ends, and it has
        marked exactly the allocations reachable from the pieces on the stack, for any recorded
        ranges. */
    method IgnoreLiveObjects()
      requires Valid() && SizesMatch(View(), stack)
      requires Closed(env, View(), LiveOf(allocs.contents))
      modifies `stack, allocs
      ensures Valid() && SameButLive(old(allocs.contents), allocs.contents) && stack == [] && View() == old(View()) && (old(Sound()) ==> Sound())
      ensures forall k: nat :: k in LiveOf(allocs.contents) <==>
        k in LiveOf(old(allocs.contents)) || Reachable(env, View(), old(stack), k)
      ensures Closed(env, View(), LiveOf(allocs.contents))
    {
      hide Flooding, Closed, Reachable, SizesMatch, Scans, NonNested, Map.Valid, SameButLive, LiveOf, RangesOf, Map.Picks;
      ghost var heap, before, roots := View(), LiveOf(allocs.contents), stack;
      RangesKeys(allocs.contents);
      SameReflexive(allocs.contents);
      FloodStart(env, heap, roots, before);
      while stack != []
        invariant Valid() && SameButLive(old(allocs.contents), allocs.contents) && View() == heap
        invariant Flooding(env, heap, roots, before, LiveOf(allocs.contents), stack)
        decreases heap.sizes.Keys - LiveOf(allocs.contents), |stack|
      {
        ghost var c1 := allocs.contents;
        Drain(roots, before);
        SameThen(old(allocs.contents), c1, allocs.contents);
        RangesKeys(allocs.contents);
        MoreLive(heap.sizes.Keys, LiveOf(c1), LiveOf(allocs.contents));
      }
      SameRanges(old(allocs.contents), allocs.contents);
      FloodEnd(env, heap, roots, before, LiveOf(allocs.contents));
    }

    /** One piece off the stack. Either something new was marked, or the stack got shorter. */
    method Drain(ghost roots: seq<Piece>, ghost before: set<nat>)
      requires Valid() && stack != [] && SizesMatch(View(), roots)
      requires Flooding(env, View(), roots, before, LiveOf(allocs.contents), stack)
      modifies `stack, allocs
      ensures Valid() && SameButLive(old(allocs.contents), allocs.contents) && View() == old(View())
      ensures Flooding(env, View(), roots, before, LiveOf(allocs.contents), stack)
      ensures LiveOf(old(allocs.contents)) < LiveOf(allocs.contents) <= allocs.contents.Keys ||
              (LiveOf(old(allocs.contents)) == LiveOf(allocs.contents) && |stack| < |old(stack)|)
    {
      hide Flooding, SizesMatch, NonNested, Map.Valid, SameButLive, LiveOf, RangesOf, Map.Picks;
      ghost var heap, c0, rest := View(), allocs.contents, stack[..|stack| - 1];
      var p := stack[|stack| - 1];
      assert stack == rest + [p];
      stack := stack[..|stack| - 1];
      SameReflexive(c0);
      RangesKeys(c0);
      if p.onHeap { var _ := MarkAsLive(p.ptr); }
      ghost var c1 := allocs.contents;
      RangesKeys(c1);
      assert heap.sizes == RangesOf(c0) && heap.sizes == RangesOf(c1);
      Scan(p);
      SameThen(c0, c1, allocs.contents);
      RangesKeys(allocs.contents);
      FloodStep(env, heap, roots, before, LiveOf(c0), LiveOf(c1), LiveOf(allocs.contents), rest, p, stack[|rest|..]);
      assert stack == rest + stack[|rest|..];
      assert stack != rest ==> stack[|rest|..][0] in stack[|rest|..];
    }

    /** `AddIfNonLive`, the callback of the iteration. */
    method AddIfNonLive(e: Entry<Alloc>, base: Map?<Alloc>, dest: Map<Alloc>)
      requires Valid() && dest.Valid() && (base != null ==> base.Valid()) && dest != allocs && dest != base && base != allocs
      requires e.key in allocs.contents && allocs.contents[e.key] == e.value
      modifies allocs, dest
      ensures Valid() && dest.Valid() && (base != null ==> base.Valid())
      ensures allocs.contents == old(allocs.contents)[e.key := e.value.(live := false)]
      ensures dest.contents == if e.value.live || (base != null && e.key in base.contents) then old(dest.contents) else old(dest.contents)[e.key := e.value]
    {
      hide Shaped, Represents, NonNested;
      if e.value.live {
        allocs.Insert(e.key, e.value.(live := false));
        SameRanges(old(allocs.contents), allocs.contents);
      } else {
        assert allocs.contents == allocs.contents[e.key := e.value.(live := false)];
        var known: Option<Alloc> := None;
        if base != null { known := base.Find(e.key); }
        if known.None? { dest.Insert(e.key, e.value); }
      }
    }

    /** `NonLiveSnapshot`: exactly the allocations not marked live and not in the base snapshot, if
        there is one; every live bit is cleared for the next pass. */
    method NonLiveSnapshot(base: Map?<Alloc>) returns (dest: Map<Alloc>)
      requires Valid() && (base != null ==> base.Valid() && base != allocs)
      modifies allocs
      ensures Valid() && fresh(dest) && dest.Valid()
      ensures dest.contents == map k | k in old(allocs.contents) && !old(allocs.contents)[k].live
                                       && (base != null ==> k !in base.contents) :: old(allocs.contents)[k]
      ensures SameButLive(old(allocs.contents), allocs.contents) && LiveOf(allocs.contents) == {} && (old(Sound()) ==> Sound())
    {
      hide NonNested, Shaped, Represents, Swept, SameButLive, Listing;
      dest := new Map();
      ghost var c0, known := allocs.contents, if base == null then {} else base.contents.Keys;
      var es := allocs.Iterate();
      assert Listing(c0, es) by { ListingOf(c0, es); }
      SweptStart(c0, known, es);
      for i := 0 to |es|
        invariant Valid() && dest.Valid() && (base != null ==> base.Valid() && base.contents.Keys == known)
        invariant Swept(c0, allocs.contents, dest.contents, known, es, i)
      {
        SweptMore(c0, allocs.contents, dest.contents, known, es, i);
        AddIfNonLive(es[i], base, dest);
      }
      SweptEnd(c0, allocs.contents, dest.contents, known, es);
      SameRanges(c0, allocs.contents);
    }
  }
}
