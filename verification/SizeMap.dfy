/** The size classes of the allocator: which sizes are served, from spans of how many pages, and
    which class serves a request.

    `SizeMap::Init` asserts at run time that its alignments divide its sizes and re-checks the
    finished lookup table. Here neither check can fail.
 */
module SizeMap {
  import opened Arithmetic
  import opened Basics

  const ALIGNMENT := 8
  const MIN_ALIGN := 16
  const PAGE_SHIFT := 13
  const MAX_SIZE := 0x8_0000
  const INT_LIMIT := 0x8000_0000
  const ROUNDS := 0x8_0000_0000_0000
  const MAX_SMALL_SIZE := 1024
  const MIN_PAGES := 32
  const CLASS_ARRAY_SIZE := (MAX_SIZE + 127 + 15360) / 128 + 1

  // ----- Logarithms

  function Lg(n: nat): nat
    requires n > 0
  {
    if n == 1 then 0 else 1 + Lg(n / 2)
  }

  lemma {:induction false} LgBounds(n: nat)
    requires n > 0
    ensures Pow2(Lg(n)) <= n < Pow2(Lg(n) + 1)
  {
    if n > 1 { LgBounds(n / 2); }
  }

  lemma {:induction false} Pow2Monotone(a: nat, b: nat)
    requires a < b
    ensures 2 * Pow2(a) <= Pow2(b)
    decreases b
  {
    if a < b - 1 { Pow2Monotone(a, b - 1); }
  }

  lemma LgUnique(n: nat, k: nat)
    requires Pow2(k) <= n < Pow2(k + 1)
    ensures n > 0 && Lg(n) == k
  {
    LgBounds(n);
    if Lg(n) < k { Pow2Monotone(Lg(n), k); }
    if k < Lg(n) { Pow2Monotone(k, Lg(n)); }
  }

  lemma Powers()
    ensures Pow2(3) == 8 && Pow2(4) == 16 && Pow2(7) == 128 && Pow2(10) == 1024 && Pow2(13) == 8192 && Pow2(19) == MAX_SIZE
  {
    assert Pow2(3) == 8;
    Pow2Sum(3, 4);
    Pow2Sum(3, 7);
    Pow2Sum(3, 10);
    Pow2Sum(13, 3);
    Pow2Sum(16, 3);
  }

  /** `LgFloor`: binary search for the highest bit of a 32-bit number. */
  method LgFloor(n: nat) returns (log: nat)
    requires 0 < n < 0x1_0000_0000
    ensures Pow2(log) <= n < Pow2(log + 1)
  {
    log := 0;
    var x := n;
    Bits32();
    hide Pow2;
    var i := 5;
    while i > 0
      invariant 0 <= i <= 5 && 0 < x < Pow2(Pow2(i)) && x == n / Pow2(log)
    {
      i := i - 1;
      var shift := Pow2(i);
      Doubles(i);
      Halves(x, shift);
      if x / Pow2(shift) != 0 {
        DivDiv(n, Pow2(log), Pow2(shift));
        Pow2Sum(log, shift);
        x := x / Pow2(shift);
        log := log + shift;
      }
    }
    assert x == 1;
    Quotient(n, Pow2(log));
  }

  lemma Bits32()
    ensures Pow2(Pow2(5)) == 0x1_0000_0000 && Pow2(Pow2(0)) == 2 && Pow2(0) == 1
  {
    assert Pow2(4) == 16 && Pow2(3) == 8;
    Pow2Sum(16, 16);
    Pow2Sum(8, 8);
    Pow2Sum(4, 4);
  }

  lemma Doubles(i: nat)
    ensures Pow2(i + 1) == 2 * Pow2(i)
  { }

  lemma Halves(x: nat, shift: nat)
    requires x < Pow2(2 * shift)
    ensures 0 <= x / Pow2(shift) < Pow2(shift)
    ensures x / Pow2(shift) == 0 ==> x < Pow2(shift)
  {
    Pow2Sum(shift, shift);
    hide Pow2;
    SquareQuotient(x, Pow2(shift));
  }

  lemma SquareQuotient(x: nat, d: nat)
    requires d > 0 && x < d * d
    ensures 0 <= x / d < d && (x / d == 0 ==> x < d)
  {
    Quotient(x, d);
    ProductAtLeast(x / d - d, d);
    assert (x / d - d) * d == x / d * d - d * d;
  }

  // ----- Alignment

  /** `AlignmentForSize`. */
  function AlignmentForSize(size: nat): nat {
    var alignment :=
      if size > MAX_SIZE then PAGE_SIZE
      else if size >= 128 then Pow2(Lg(size)) / 8
      else if size >= MIN_ALIGN then MIN_ALIGN
      else ALIGNMENT;
    if alignment > PAGE_SIZE then PAGE_SIZE else alignment
  }

  /** `AlignmentBitsForSize`: the shift of the alignment. */
  function AlignmentBits(size: nat): nat {
    if size > MAX_SIZE then PAGE_SHIFT
    else if size >= 128 then (if Lg(size) < 3 then 0 else if Lg(size) - 3 > PAGE_SHIFT then PAGE_SHIFT else Lg(size) - 3)
    else if size >= MIN_ALIGN then 4
    else 3
  }

  lemma LgLarge(size: nat)
    requires size >= 128
    ensures Lg(size) >= 7
  {
    LgBounds(size);
    Powers();
    if Lg(size) < 7 { Pow2AtLeast(Lg(size) + 1, 7); }
  }

  /** Every alignment is a power of two between 8 and the page size. */
  lemma AlignmentIsPowerOfTwo(size: nat)
    ensures AlignmentForSize(size) == Pow2(AlignmentBits(size)) && 3 <= AlignmentBits(size) <= PAGE_SHIFT
    ensures ALIGNMENT <= AlignmentForSize(size) <= PAGE_SIZE && (size >= MIN_ALIGN ==> AlignmentForSize(size) >= MIN_ALIGN)
  {
    Powers();
    if 128 <= size <= MAX_SIZE {
      LgLarge(size);
      var k := Lg(size);
      Pow2Sum(k - 3, 3);
      if k - 3 > 13 { Pow2Monotone(13, k - 3); }
      if k - 3 < 13 { Pow2Monotone(k - 3, 13); }
      if k > 7 { Pow2Monotone(4, k - 3); }
    }
  }

  ghost predicate Aligned(size: nat)
  {
    AlignmentIsPowerOfTwo(size);
    size % AlignmentForSize(size) == 0
  }

  lemma {:induction false} Pow2Divides(a: nat, b: nat)
    requires a <= b
    ensures Pow2(b) % Pow2(a) == 0 && Pow2(b) == Pow2(b - a) * Pow2(a)
  {
    Pow2Sum(b - a, a);
    DivModUnique(Pow2(b), Pow2(a), Pow2(b - a), 0);
  }

  lemma NextStays(size: nat, d: nat, m: nat)
    requires d > 0 && size % d == 0 && size < m * d
    ensures size + d <= m * d && (size + d) % d == 0
  {
    var q := size / d;
    Quotient(size, d);
    ProductAtLeast(q - m, d);
    assert (q - m) * d == q * d - m * d;
    ProductAtLeast(q + 1 - m, d);
    assert (q + 1 - m) * d == q * d + d - m * d;
    DivModUnique(size + d, d, q + 1, 0);
  }

  /** The sizes the loop visits stay aligned, and none steps over MAX_SIZE without meeting it. */
  lemma NextAligned(size: nat)
    requires ALIGNMENT <= size < MAX_SIZE && Aligned(size)
    ensures size + AlignmentForSize(size) <= MAX_SIZE && Aligned(size + AlignmentForSize(size))
  {
    if size >= 128 { NextAlignedLarge(size); } else { NextAlignedSmall(size); }
  }

  lemma NextAlignedSmall(size: nat)
    requires ALIGNMENT <= size < 128 && Aligned(size)
    ensures size + AlignmentForSize(size) <= MAX_SIZE && Aligned(size + AlignmentForSize(size))
  {
    Powers();
    LgUnique(128, 7);
    hide Pow2, Lg;
    assert AlignmentForSize(128) == 16;
    var next := size + AlignmentForSize(size);
    assert size < MIN_ALIGN ==> size == 8;
    assert next <= 128 && next % 16 == 0 && AlignmentForSize(next) == 16;
  }

  lemma AlignedIff(size: nat)
    ensures AlignmentForSize(size) == Pow2(AlignmentBits(size)) > 0
    ensures Aligned(size) <==> size % Pow2(AlignmentBits(size)) == 0
  {
    AlignmentIsPowerOfTwo(size);
  }

  lemma BitsOf(size: nat)
    requires 128 <= size <= MAX_SIZE
    ensures Lg(size) >= 7 && AlignmentBits(size) == if Lg(size) - 3 > PAGE_SHIFT then PAGE_SHIFT else Lg(size) - 3
  {
    LgLarge(size);
  }

  lemma NextAlignedLarge(size: nat)
    requires 128 <= size < MAX_SIZE && Aligned(size)
    ensures size + AlignmentForSize(size) <= MAX_SIZE && Aligned(size + AlignmentForSize(size))
  {
    hide Pow2, Lg, AlignmentForSize, AlignmentBits, Aligned;
    AlignedIff(size);
    BitsOf(size);
    LgBounds(size);
    var k, b := Lg(size), AlignmentBits(size);
    Pow2Divides(b, k + 1);
    NextStays(size, Pow2(b), Pow2(k + 1 - b));
    assert k < 19 by { Powers(); if k >= 19 { Pow2AtLeast(19, k); } }
    assert Pow2(k + 1) <= MAX_SIZE by { Powers(); Pow2AtLeast(k + 1, 19); }
    var next := size + Pow2(b);
    AlignedIff(next);
    BitsOf(next);
    if next < Pow2(k + 1) {
      LgUnique(next, k);
    } else {
      Pow2Monotone(k + 1, k + 2);
      LgUnique(next, k + 1);
      Pow2Divides(AlignmentBits(next), k + 1);
    }
  }

  lemma Pow2AtLeast(a: nat, b: nat)
    requires a <= b
    ensures Pow2(a) <= Pow2(b)
  {
    if a < b { Pow2Monotone(a, b); }
  }

  // ----- Building the classes

  datatype Class = Class(size: nat, pages: nat)

  /** `NumMoveSize`, with the cap taken from the environment. */
  function NumMoveSize(size: nat, cap: int): int {
    if size == 0 then 0 else
    var num := 0x1_0000 / size;
    var num' := if num < 2 then 2 else num;
    if num' > cap then cap else num'
  }

  /** C division by four, which truncates toward zero. */
  function QuarterOf(n: int): (q: int)
    ensures if n >= 0 then 4 * q <= n < 4 * q + 4 else 4 * q - 4 < n <= 4 * q
  {
    if n >= 0 then n / 4 else -(-n / 4)
  }

  /** Enough whole pages that at most one eighth is left over and `blocks` objects fit. */
  ghost predicate Suits(size: nat, blocks: int, psize: nat)
    requires size > 0
  {
    psize > 0 && psize % PAGE_SIZE == 0 && psize % size <= psize / 8 && psize / size >= blocks
  }

  ghost predicate LeastSpan(size: nat, blocks: int, psize: nat)
    requires size > 0
  {
    Suits(size, blocks, psize) && forall p: nat | Suits(size, blocks, p) :: p >= psize
  }

  /** A number compared with a `size_t`: a negative one is taken modulo 2^64. */
  function Unsigned(n: int): (r: nat)
    ensures 0 <= n < WORD ==> r == n
    ensures -WORD <= n < 0 ==> r == n + WORD
  {
    n % WORD
  }

  /** The span size after `k` pages have been added, in 64 bits. */
  ghost function After(k: nat): nat { k * PAGE_SIZE % WORD }

  /** The loops stop at this size: not too much is left over, and there are objects enough. */
  ghost predicate Stops(size: nat, blocks: int, psize: nat)
    requires size > 0
  {
    psize % size <= psize / 8 && psize / size >= Unsigned(blocks)
  }

  /** The loops do not stop at any of the first `k` sizes they try. */
  ghost predicate RunsOn(size: nat, blocks: int, k: nat)
    requires size > 0
  {
    forall j: nat | 0 < j <= k :: !Stops(size, blocks, After(j))
  }

  /** What `Init` can pass: a size class and a 32-bit batch. */
  ghost predicate Passed(size: nat, blocks: int) { ALIGNMENT <= size <= MAX_SIZE && -INT_LIMIT <= blocks < INT_LIMIT }

  /** The page-count loops of `Init`, for at most `rounds` pages. Within as many rounds as they run
      they give the least span that suits; with a batch that is not negative they stop in time, and
      with a negative one never. */
  method SpanBytes(size: nat, blocks: int, rounds: nat) returns (psize: Option<nat>)
    requires Passed(size, blocks)
    ensures psize.Some? <==> !RunsOn(size, blocks, rounds)
    ensures psize.Some? ==> psize.value >= size && LeastSpan(size, blocks, psize.value)
    ensures blocks < 0 ==> psize.None?
    ensures blocks >= 0 && rounds >= ROUNDS ==> psize.Some?
  {
    hide Suits, LeastSpan, After, Stops;
    StopsIff(size, blocks, rounds);
    var p, k := 0, 0;
    AfterNone();
    while true
      invariant k <= rounds && p == After(k) && RunsOn(size, blocks, k)
      decreases rounds - k
    {
      if k == rounds { return None; }
      AfterMore(k);
      p, k := (p + PAGE_SIZE) % WORD, k + 1;
      while p % size > p / 8
        invariant 0 < k <= rounds && p == After(k) && RunsOn(size, blocks, k - 1)
        decreases rounds - k
      {
        assert !Stops(size, blocks, p) by { Wasteful(size, blocks, p); }
        if k == rounds { return None; }
        AfterMore(k);
        p, k := (p + PAGE_SIZE) % WORD, k + 1;
      }
      StopsIs(size, blocks, p);
      if p / size >= Unsigned(blocks) {
        FirstStop(size, blocks, k);
        return Some(p);
      }
    }
  }

  lemma AfterNone()
    ensures After(0) == 0
  { }

  lemma AfterMore(k: nat)
    ensures After(k + 1) == (After(k) + PAGE_SIZE) % WORD
  { }

  lemma Wasteful(size: nat, blocks: int, psize: nat)
    requires size > 0 && psize % size > psize / 8
    ensures !Stops(size, blocks, psize)
  { }

  lemma StopsIs(size: nat, blocks: int, psize: nat)
    requires size > 0 && psize % size <= psize / 8
    ensures Stops(size, blocks, psize) <==> psize / size >= Unsigned(blocks)
  { }

  /** No size below 2^64 is enough for a negative batch. */
  lemma NeverEnough(size: nat, blocks: int, psize: nat)
    requires Passed(size, blocks) && blocks < 0 && psize < WORD
    ensures !Stops(size, blocks, psize)
  {
    Quotient(psize, size);
    ProductAtLeast(psize / size - WORD / 8, size);
    assert (psize / size - WORD / 8) * size == psize / size * size - WORD / 8 * size;
    assert psize / size <= WORD / 8 by { assert WORD / 8 * size >= WORD; }
    DivModUnique(blocks, WORD, -1, blocks + WORD);
  }

  /** A batch that is not negative is met by some size, well below 2^64. */
  lemma SomeSize(size: nat, blocks: int) returns (k: nat)
    requires Passed(size, blocks) && blocks >= 0
    ensures 0 < k <= ROUNDS && k * PAGE_SIZE < WORD && After(k) == k * PAGE_SIZE && Stops(size, blocks, After(k))
  {
    k := (8 + blocks) * size;
    assert k == 8 * size + blocks * size;
    Scale(8 + blocks, 8 + INT_LIMIT, size);
    assert 0 <= blocks * size && k <= (8 + INT_LIMIT) * MAX_SIZE;
    var p := k * PAGE_SIZE;
    hide After, Stops;
    assert After(k) == p by { AfterSmall(k); }
    Quotient(p, size);
    assert p >= 8 * size && p >= blocks * size;
    ProductAtLeast(blocks - p / size, size);
    assert (blocks - p / size) * size == blocks * size - p / size * size;
    assert p / 8 >= size > p % size;
    StopsIs(size, blocks, p);
    assert Unsigned(blocks) == blocks;
  }

  lemma AfterSmall(k: nat)
    requires k * PAGE_SIZE < WORD
    ensures After(k) == k * PAGE_SIZE
  { }

  /** The loops of `Init` end if and only if the batch is not negative. */
  lemma StopsIff(size: nat, blocks: int, rounds: nat)
    requires Passed(size, blocks)
    ensures blocks < 0 ==> RunsOn(size, blocks, rounds)
    ensures blocks >= 0 && rounds >= ROUNDS ==> !RunsOn(size, blocks, rounds)
  {
    if blocks < 0 {
      forall j: nat | 0 < j <= rounds ensures !Stops(size, blocks, After(j)) { NeverEnough(size, blocks, After(j)); }
    } else if rounds >= ROUNDS {
      var k := SomeSize(size, blocks);
    }
  }

  /** A size the loops stop at holds an object at least: less than one would all be left over. */
  lemma StopHoldsOne(size: nat, blocks: int, p: nat)
    requires size > 0 && p > 0 && Stops(size, blocks, p)
    ensures p >= size
  {
    if p < size { DivModUnique(p, size, 0, p); }
  }

  /** Among whole numbers of pages, the ones that suit are those the loops stop at. */
  lemma SuitsStops(size: nat, blocks: int, p: nat)
    requires Passed(size, blocks) && 0 <= blocks && 0 < p < WORD && p % PAGE_SIZE == 0
    ensures Suits(size, blocks, p) <==> Stops(size, blocks, p)
  {
    assert Unsigned(blocks) == blocks;
  }

  /** The first size the loops stop at is the least that suits: nothing has wrapped around. */
  lemma FirstStop(size: nat, blocks: int, k: nat)
    requires Passed(size, blocks) && k > 0 && RunsOn(size, blocks, k - 1) && Stops(size, blocks, After(k))
    ensures After(k) >= size && LeastSpan(size, blocks, After(k))
  {
    if blocks < 0 { NeverEnough(size, blocks, After(k)); }
    var k0 := SomeSize(size, blocks);
    assert k <= k0;
    AfterSmall(k);
    hide Stops, Suits, After, Unsigned;
    SuitsStops(size, blocks, k * PAGE_SIZE);
    StopHoldsOne(size, blocks, k * PAGE_SIZE);
    forall p: nat | Suits(size, blocks, p) ensures p >= k * PAGE_SIZE {
      if p < k * PAGE_SIZE { NotBefore(size, blocks, k, p); }
    }
  }

  lemma NotBefore(size: nat, blocks: int, k: nat, p: nat)
    requires Passed(size, blocks) && blocks >= 0 && p < k * PAGE_SIZE < WORD && RunsOn(size, blocks, k - 1)
    ensures !Suits(size, blocks, p)
  {
    if p == 0 || p % PAGE_SIZE != 0 { return; }
    var j := p / PAGE_SIZE;
    assert p == j * PAGE_SIZE && 0 < j <= k - 1;
    AfterSmall(j);
    SuitsStops(size, blocks, p);
  }

  /** With a cap of -4 in the environment, the first size already keeps the loops going for ever. */
  lemma CapMinusFour(rounds: nat)
    ensures RunsOn(ALIGNMENT, QuarterOf(NumMoveSize(ALIGNMENT, -4)), rounds)
  {
    StopsIff(ALIGNMENT, -1, rounds);
  }

  // ----- Merging sizes into classes

  /** How many objects a span of the class has room for. */
  ghost function ObjectsIn(c: Class): nat
    requires c.size > 0
  {
    c.pages * PAGE_SIZE / c.size
  }

  method SameObjects(c: Class, d: Class) returns (same: bool)
    requires c.size > 0 && d.size > 0
    ensures same <==> ObjectsIn(c) == ObjectsIn(d)
  {
    same := c.pages * PAGE_SIZE / c.size == d.pages * PAGE_SIZE / d.size;
  }

  /** The size is served by the smallest class that is large enough, in spans of the pages it asked
      for, and with as many objects to a span as if it had a class of its own. */
  ghost predicate Served(classes: seq<Class>, c: Class) {
    c.size > 0 && exists k :: 0 < k < |classes| && ServedBy(classes, c, k)
  }

  ghost predicate ServedBy(classes: seq<Class>, c: Class, k: nat)
    requires c.size > 0 && 0 < k < |classes|
  {
    && c.size <= classes[k].size && (k > 1 ==> classes[k - 1].size < c.size)
    && classes[k].pages == c.pages && ObjectsIn(classes[k]) == ObjectsIn(c)
  }

  /** No class could have been merged into the next. */
  ghost predicate Distinct(classes: seq<Class>) {
    forall k, l | 0 < k < |classes| && 0 < l < |classes| && l == k + 1 && classes[k].size > 0 && classes[l].size > 0 ::
      classes[k].pages != classes[l].pages || ObjectsIn(classes[k]) != ObjectsIn(classes[l])
  }

  ghost predicate AllServed(classes: seq<Class>, plan: seq<Class>) {
    forall i | 0 <= i < |plan| :: Served(classes, plan[i])
  }

  lemma Append(classes: seq<Class>, plan: seq<Class>, c: Class)
    requires Ascending(classes) && AllServed(classes, plan) && Distinct(classes) && Serves(c) && classes[|classes| - 1].size < c.size
    requires |classes| == 1 || classes[|classes| - 1].pages != c.pages || ObjectsIn(classes[|classes| - 1]) != ObjectsIn(c)
    ensures Ascending(classes + [c]) && AllServed(classes + [c], plan + [c]) && Distinct(classes + [c])
  {
    hide ObjectsIn, Aligned;
    var classes', plan' := classes + [c], plan + [c];
    forall i | 0 <= i < |plan'| ensures Served(classes', plan'[i]) {
      if i < |plan| {
        var k :| 0 < k < |classes| && ServedBy(classes, plan[i], k);
        assert ServedBy(classes', plan'[i], k);
      } else {
        assert ServedBy(classes', plan'[i], |classes|);
      }
    }
  }

  lemma Merge(classes: seq<Class>, plan: seq<Class>, c: Class)
    requires Ascending(classes) && AllServed(classes, plan) && Distinct(classes) && Serves(c) && |classes| > 1
    requires classes[|classes| - 1].size < c.size && classes[|classes| - 1].pages == c.pages && ObjectsIn(classes[|classes| - 1]) == ObjectsIn(c)
    ensures var classes' := classes[|classes| - 1 := c];
            Ascending(classes') && AllServed(classes', plan + [c]) && Distinct(classes')
  {
    hide ObjectsIn, Aligned;
    var classes', plan' := classes[|classes| - 1 := c], plan + [c];
    forall i | 0 <= i < |plan'| ensures Served(classes', plan'[i]) {
      if i < |plan| {
        var k :| 0 < k < |classes| && ServedBy(classes, plan[i], k);
        assert ServedBy(classes', plan'[i], k);
      } else {
        assert ServedBy(classes', plan'[i], |classes| - 1);
      }
    }
  }

  /** The sizes `Init` visits, from 8 up to the maximum, each with the pages it asks for. */
  ghost predicate Planned(plan: seq<Class>, cap: int) {
    && (forall i | 0 <= i < |plan| :: plan[i].size > 0 && Asks(plan[i], cap))
    && (forall i, j | 0 <= i < |plan| && 0 <= j < |plan| && j == i + 1 :: plan[j].size == plan[i].size + AlignmentForSize(plan[i].size))
    && (plan != [] ==> plan[0].size == ALIGNMENT)
  }

  ghost predicate Asks(c: Class, cap: int)
    requires c.size > 0
  {
    exists psize: nat :: LeastSpan(c.size, QuarterOf(NumMoveSize(c.size, cap)), psize) && c.pages == AtLeast(psize / PAGE_SIZE, MIN_PAGES)
  }

  function AtLeast(x: nat, least: nat): (r: nat)
    ensures r >= x && r >= least && (r == x || r == least)
  {
    if x < least then least else x
  }

  /** What every class promises: aligned, and at least one object fits a span. */
  ghost predicate Serves(c: Class) {
    ALIGNMENT <= c.size <= MAX_SIZE && Aligned(c.size) && c.pages >= MIN_PAGES && c.pages * PAGE_SIZE >= c.size
  }

  /** Class 0 is unused; the others ascend. */
  ghost predicate Ascending(classes: seq<Class>) {
    && |classes| > 0 && classes[0] == Class(0, 0)
    && (forall c | 0 < c < |classes| :: Serves(classes[c]))
    && (forall c, d | 0 <= c < d < |classes| :: classes[c].size < classes[d].size)
  }

  /** What the class loop of `Init` builds: the largest class is exactly MAX_SIZE; every size visited
      is served by the smallest class large enough without losing objects to a span, and no two
      neighbouring classes could have been merged. */
  ghost predicate Built(classes: seq<Class>, plan: seq<Class>, cap: int) {
    && Ascending(classes) && classes[|classes| - 1].size == MAX_SIZE
    && Planned(plan, cap) && plan != [] && plan[|plan| - 1].size == MAX_SIZE
    && AllServed(classes, plan) && Distinct(classes)
  }

  /** As many objects as 64K hold, but two at least, and then no more than the cap. */
  lemma MoveSizeIs(size: nat, cap: int)
    ensures var m := NumMoveSize(size, cap);
            if size == 0 then m == 0 else
            && m <= cap && (m > 2 ==> m * size <= 0x1_0000)
            && (m < cap ==> m >= 2 && (m + 1) * size > 0x1_0000)
  {
    if size == 0 { return; }
    var m, num := NumMoveSize(size, cap), 0x1_0000 / size;
    Quotient(0x1_0000, size);
    if m > 2 { Scale(m, num, size); }
    if m < cap { Scale(num + 1, m + 1, size); }
  }

  /** The number of objects moved at a time, by which the central list divides, is 0 exactly for a cap
      of 0, although the loops above end for it; it has the sign of the cap. */
  lemma MoveSizeSign(size: nat, cap: int)
    requires size > 0
    ensures (NumMoveSize(size, cap) == 0 <==> cap == 0) && (NumMoveSize(size, cap) > 0 <==> cap > 0)
  { }

  /** The batch of a size is not negative if and only if the cap is at least -3. */
  lemma BatchSign(size: nat, cap: int)
    requires ALIGNMENT <= size <= MAX_SIZE && -INT_LIMIT <= cap < INT_LIMIT
    ensures Passed(size, QuarterOf(NumMoveSize(size, cap))) && (QuarterOf(NumMoveSize(size, cap)) >= 0 <==> cap >= -3)
  { }

  /** The class loop of `Init`, with at most `rounds` rounds of the page-count loops for each size. It
      ends, given rounds enough, if and only if the cap is at least -3. */
  method BuildClasses(cap: int, rounds: nat) returns (r: Option<seq<Class>>, ghost plan: seq<Class>)
    requires -INT_LIMIT <= cap < INT_LIMIT
    ensures r.Some? ==> Built(r.value, plan, cap)
    ensures cap < -3 ==> r.None?
    ensures cap >= -3 && rounds >= ROUNDS ==> r.Some?
  {
    var classes: seq<Class>;
    hide Aligned, AlignmentForSize, AlignmentBits, NumMoveSize, QuarterOf, Ascending, AllServed, Distinct, Planned, ObjectsIn, LeastSpan;
    classes, plan := [Class(0, 0)], [];
    var size: nat := ALIGNMENT;
    FirstAligned();
    NoClasses(cap);
    while size <= MAX_SIZE
      invariant Ascending(classes) && AllServed(classes, plan) && Distinct(classes) && Planned(plan, cap)
      invariant size >= ALIGNMENT && (size <= MAX_SIZE ==> Aligned(size))
      invariant |classes| > 0 && (|classes| > 1 <==> plan != []) && (|classes| > 1 ==> classes[|classes| - 1].size > 0)
      invariant if plan == [] then classes == [Class(0, 0)] && size == ALIGNMENT
                else classes[|classes| - 1].size == plan[|plan| - 1].size < size == plan[|plan| - 1].size + AlignmentForSize(plan[|plan| - 1].size)
      invariant size > MAX_SIZE ==> plan != [] && plan[|plan| - 1].size == MAX_SIZE
      invariant cap < -3 ==> plan == []
      decreases MAX_SIZE + 1 - size
    {
      AlignmentIsPowerOfTwo(size);
      BatchSign(size, cap);
      var span := SpanBytes(size, QuarterOf(NumMoveSize(size, cap)), rounds);
      if span.None? { return None, plan; }
      var psize := span.value;
      var pages := AtLeast(psize / PAGE_SIZE, MIN_PAGES);
      var last, c := |classes| - 1, Class(size, pages);
      EnoughPages(psize, size, QuarterOf(NumMoveSize(size, cap)), pages);
      PlanMore(plan, cap, c, psize);
      var same := last > 0 && pages == classes[last].pages;
      if same { same := SameObjects(c, classes[last]); }
      if same {
        Merge(classes, plan, c);
        classes := classes[last := c];
      } else {
        Append(classes, plan, c);
        classes := classes + [c];
      }
      plan := plan + [c];
      if size < MAX_SIZE { NextAligned(size); }
      size := size + AlignmentForSize(size);
    }
    r := Some(classes);
  }

  lemma NoClasses(cap: int)
    ensures Ascending([Class(0, 0)]) && AllServed([Class(0, 0)], []) && Distinct([Class(0, 0)]) && Planned([], cap)
  { }

  lemma EnoughPages(psize: nat, size: nat, blocks: int, pages: nat)
    requires size > 0 && LeastSpan(size, blocks, psize) && psize >= size && pages == AtLeast(psize / PAGE_SIZE, MIN_PAGES)
    ensures pages >= MIN_PAGES && pages * PAGE_SIZE >= size
  { }

  lemma PlanMore(plan: seq<Class>, cap: int, c: Class, psize: nat)
    requires Planned(plan, cap) && c.size > 0 && LeastSpan(c.size, QuarterOf(NumMoveSize(c.size, cap)), psize) && c.pages == AtLeast(psize / PAGE_SIZE, MIN_PAGES)
    requires c.size == if plan == [] then ALIGNMENT else plan[|plan| - 1].size + AlignmentForSize(plan[|plan| - 1].size)
    ensures Planned(plan + [c], cap)
  {
    hide AlignmentForSize, NumMoveSize, QuarterOf, LeastSpan;
    assert Asks(c, cap);
    var plan' := plan + [c];
    forall i, j | 0 <= i < |plan'| && 0 <= j < |plan'| && j == i + 1 ensures plan'[j].size == plan'[i].size + AlignmentForSize(plan'[i].size) {
      if j < |plan| { assert plan[j].size == plan[i].size + AlignmentForSize(plan[i].size); }
    }
  }

  lemma FirstAligned()
    ensures Aligned(ALIGNMENT)
  {
    AlignmentIsPowerOfTwo(ALIGNMENT);
    assert AlignmentForSize(8) == 8;
  }

  // ----- Looking a class up

  function ClassIndex(s: nat): nat {
    if s <= MAX_SMALL_SIZE then (s + 7) / 8 else (s + 127 + 15360) / 128
  }

  /** The first class from `c` on that is large enough: the reference for the lookup table. */
  ghost function ClassOf(classes: seq<Class>, q: nat, c: nat): (r: nat)
    requires c < |classes| && q <= classes[|classes| - 1].size
    ensures c <= r < |classes| && classes[r].size >= q && forall d | c <= d < r :: classes[d].size < q
    decreases |classes| - c
  {
    if classes[c].size >= q then c else ClassOf(classes, q, c + 1)
  }

  lemma DivideThrough(z: nat, d: nat, e: nat)
    requires d > 0 && e > 0 && z % (d * e) == 0
    ensures z % e == 0
  {
    var q := z / (d * e);
    Quotient(z, d * e);
    Associative(q, d, e);
    DivModUnique(z, e, q * d, 0);
  }

  /** Class sizes are multiples of 8, and above 1024 of 128. */
  lemma Granularity(z: nat)
    requires ALIGNMENT <= z <= MAX_SIZE && Aligned(z)
    ensures z % 8 == 0 && (z > MAX_SMALL_SIZE ==> z % 128 == 0)
  {
    AlignmentIsPowerOfTwo(z);
    Powers();
    var b := AlignmentBits(z);
    Pow2Sum(b - 3, 3);
    DivideThrough(z, Pow2(b - 3), 8);
    if z > MAX_SMALL_SIZE {
      LgBounds(z);
      if Lg(z) < 10 { Pow2AtLeast(Lg(z) + 1, 10); }
      hide Pow2, Lg;
      Pow2Sum(b - 7, 7);
      DivideThrough(z, Pow2(b - 7), 128);
    }
  }

  /** Sizes with the same table index have the same class. */
  lemma IndexDeterminesClass(classes: seq<Class>, q: nat, s: nat)
    requires Ascending(classes) && |classes| > 1 && classes[|classes| - 1].size == MAX_SIZE
    requires q <= MAX_SIZE && s <= MAX_SIZE && ClassIndex(q) == ClassIndex(s)
    ensures ClassOf(classes, q, 1) == ClassOf(classes, s, 1)
  {
    forall c | 0 < c < |classes| ensures classes[c].size >= q <==> classes[c].size >= s {
      assert Serves(classes[c]);
      Granularity(classes[c].size);
      SameSide(classes[c].size, q, s);
    }
  }

  lemma SameSide(z: nat, q: nat, s: nat)
    requires z % 8 == 0 && (z > MAX_SMALL_SIZE ==> z % 128 == 0)
    requires q <= MAX_SIZE && s <= MAX_SIZE && ClassIndex(q) == ClassIndex(s)
    ensures z >= q <==> z >= s
  { }

  ghost predicate Complete(classes: seq<Class>) {
    Ascending(classes) && |classes| > 1 && classes[|classes| - 1].size == MAX_SIZE
  }

  /** The table is right for all multiples of 8 below `upto`. */
  ghost predicate RightBelow(classes: seq<Class>, arr: seq<nat>, upto: nat)
    requires Complete(classes)
  {
    && |arr| == CLASS_ARRAY_SIZE
    && forall s: nat | s < upto && s % 8 == 0 && s <= MAX_SIZE :: arr[ClassIndex(s)] == ClassOf(classes, s, 1)
  }

  lemma RightAt(classes: seq<Class>, arr: seq<nat>, s: nat, t: nat)
    requires Complete(classes) && RightBelow(classes, arr, s) && s <= MAX_SIZE && s % 8 == 0
    requires t < s + ALIGNMENT && t % 8 == 0
    ensures t <= MAX_SIZE && ClassIndex(t) < |arr| && ClassIndex(s) < |arr|
    ensures arr[ClassIndex(s) := ClassOf(classes, s, 1)][ClassIndex(t)] == ClassOf(classes, t, 1)
  {
    hide Ascending, ClassIndex, ClassOf;
    assert t == s || t < s;
    IndexBound(s);
    IndexBound(t);
    if ClassIndex(t) == ClassIndex(s) { IndexDeterminesClass(classes, t, s); }
  }

  lemma RightMore(classes: seq<Class>, arr: seq<nat>, s: nat)
    requires Complete(classes) && RightBelow(classes, arr, s) && s <= MAX_SIZE && s % 8 == 0
    ensures ClassIndex(s) < |arr| && RightBelow(classes, arr[ClassIndex(s) := ClassOf(classes, s, 1)], s + ALIGNMENT)
  {
    RightAt(classes, arr, s, s);
    var arr' := arr[ClassIndex(s) := ClassOf(classes, s, 1)];
    assert |arr'| == CLASS_ARRAY_SIZE;
    hide Ascending, ClassIndex, ClassOf;
    forall t: nat | t < s + ALIGNMENT && t % 8 == 0 && t <= MAX_SIZE ensures ClassIndex(t) < |arr'| && arr'[ClassIndex(t)] == ClassOf(classes, t, 1) {
      RightAt(classes, arr, s, t);
    }
  }

  lemma IndexBound(s: nat)
    requires s <= MAX_SIZE
    ensures ClassIndex(s) < CLASS_ARRAY_SIZE
  { }

  /** A size above the previous class and not above this one belongs to this class. */
  lemma BelongsHere(classes: seq<Class>, s: nat, c: nat)
    requires Complete(classes) && 0 < c < |classes| && s <= classes[c].size
    requires c > 1 ==> s > classes[c - 1].size
    ensures s <= MAX_SIZE && ClassOf(classes, s, 1) == c
  {
    assert Serves(classes[c]);
    assert forall d | 0 < d < c :: classes[d].size <= classes[c - 1].size;
  }

  lemma ClassGranularity(classes: seq<Class>, c: nat)
    requires Complete(classes) && 0 < c < |classes|
    ensures classes[c].size % 8 == 0 && classes[c].size <= MAX_SIZE && (c > 1 ==> classes[c - 1].size < classes[c].size)
  {
    assert Serves(classes[c]);
    Granularity(classes[c].size);
  }

  /** The table fill of `Init`. For every size up to the maximum the table gives the smallest class
      that is large enough. */
  method FillClassArray(classes: seq<Class>) returns (arr: seq<nat>)
    requires Complete(classes)
    ensures |arr| == CLASS_ARRAY_SIZE
    ensures forall q: nat | q <= MAX_SIZE :: ClassIndex(q) < |arr| && arr[ClassIndex(q)] == ClassOf(classes, q, 1)
  {
    hide Ascending, ClassIndex;
    arr := seq(CLASS_ARRAY_SIZE, _ => 0);
    var next := 0;
    for c := 1 to |classes|
      invariant next == (if c == 1 then 0 else classes[c - 1].size + ALIGNMENT) && RightBelow(classes, arr, next)
    {
      arr := FillClass(classes, arr, c, next);
      next := classes[c].size + ALIGNMENT;
    }
    Rounded(classes, arr);
  }

  /** One class: all multiples of 8 above the previous class. */
  method FillClass(classes: seq<Class>, arr0: seq<nat>, c: nat, next: nat) returns (arr: seq<nat>)
    requires Complete(classes) && 0 < c < |classes| && next == (if c == 1 then 0 else classes[c - 1].size + ALIGNMENT)
    requires RightBelow(classes, arr0, next)
    ensures RightBelow(classes, arr, classes[c].size + ALIGNMENT)
  {
    hide Ascending, ClassIndex, RightBelow;
    ClassGranularity(classes, c);
    if c > 1 { ClassGranularity(classes, c - 1); }
    arr := arr0;
    var s := next;
    while s <= classes[c].size
      invariant s % 8 == 0 && next <= s <= classes[c].size + ALIGNMENT && RightBelow(classes, arr, s)
      decreases MAX_SIZE + ALIGNMENT - s
    {
      BelongsHere(classes, s, c);
      RightMore(classes, arr, s);
      arr := arr[ClassIndex(s) := c];
      s := s + ALIGNMENT;
    }
  }

  lemma SameIndex(q: nat)
    requires q <= MAX_SIZE
    ensures var s := (q + 7) / 8 * 8; s % 8 == 0 && s <= MAX_SIZE && ClassIndex(s) == ClassIndex(q) < CLASS_ARRAY_SIZE
  {
    IndexBound(q);
    var i := (q + 7) / 8;
    DivModUnique(8 * i + 7, 8, i, 7);
    if q > MAX_SMALL_SIZE { SameLargeIndex(q, i); }
  }

  lemma SameLargeIndex(q: nat, i: nat)
    requires 8 * i - 8 < q <= 8 * i
    ensures (8 * i + 127 + 15360) / 128 == (q + 127 + 15360) / 128
  {
    var j := (q + 127) / 128;
    Quotient(q + 127, 128);
    assert 128 * j - 128 < q <= 128 * j;
    assert i - 1 < 16 * j;
    DivModUnique(8 * i + 127 + 15360, 128, j + 120, 8 * i + 127 - 128 * j);
    DivModUnique(q + 127 + 15360, 128, j + 120, q + 127 - 128 * j);
  }

  lemma Rounded(classes: seq<Class>, arr: seq<nat>)
    requires Complete(classes) && RightBelow(classes, arr, MAX_SIZE + ALIGNMENT)
    ensures forall q: nat | q <= MAX_SIZE :: ClassIndex(q) < |arr| && arr[ClassIndex(q)] == ClassOf(classes, q, 1)
  {
    hide Ascending, ClassIndex;
    forall q: nat | q <= MAX_SIZE ensures ClassIndex(q) < |arr| && arr[ClassIndex(q)] == ClassOf(classes, q, 1) {
      var s := (q + 7) / 8 * 8;
      SameIndex(q);
      IndexDeterminesClass(classes, q, s);
    }
  }
}
