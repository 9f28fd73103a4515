/** The meta-pagetable: a two-level map from addresses to metadata.

    Every 4 KiB page has an entry that packs the address of its metadata with the alignment shift
    of the objects on it. `metaset` and `metaget` go through these entries page by page; the
    theorems below say that together they address one flat array, indexed by
    (p - start) >> alignment, whatever the shift.
 */
module MetaPagetable {
  import opened Arithmetic
  import opened Basics

  const PAGE := 4096
  const PAGE_SHIFT := 12
  const INT_SHIFT := 31  // the setters shift an int, by less than this

  /** `n` slots of `bytes` bytes. */
  function Slots(n: int, bytes: nat): (r: int)
    ensures n >= 0 ==> r >= 0
  {
    n * bytes
  }

  lemma PageIsPow2()
    ensures Pow2(PAGE_SHIFT) == PAGE
  {
    assert Pow2(4) == 16;
    Pow2Sum(4, 4);
    Pow2Sum(8, 4);
  }

  // ----- Packing

  type PageTable = map<nat, nat>

  function EntryOf(table: PageTable, page: nat): nat {
    if page in table then table[page] else 0
  }

  function Pack(metaptr: nat, alignment: nat): nat {
    metaptr * 0x100 % WORD + alignment
  }

  function Base(entry: nat): nat { entry / 0x100 }

  function Alignment(entry: nat): nat { entry % 0x100 }

  lemma PackRoundTrip(metaptr: nat, alignment: nat)
    requires metaptr * 0x100 < WORD && alignment < 0x100
    ensures Base(Pack(metaptr, alignment)) == metaptr && Alignment(Pack(metaptr, alignment)) == alignment
  { }

  /** What `set_metapagetable_entries` stores for the `i`-th page of a range. */
  function PageEntry(metaptr: nat, alignment: nat, bytes: nat, i: nat): nat {
    Pack(if metaptr == 0 then 0 else metaptr + Slots(Shr(i * PAGE, alignment), bytes), alignment)
  }

  /** `metaptr` as computed by `metaset_N` and `metaget_N`. */
  function SlotOf(table: PageTable, bytes: nat, p: nat): nat {
    var entry := EntryOf(table, p / PAGE);
    Base(entry) + Slots(Shr(p % PAGE, Alignment(entry)), bytes)
  }

  /** The same through an entry remembered from the page of `ref`, with signed arithmetic as in
      `metaset_fast_N`. */
  function SlotFrom(entry: nat, bytes: nat, ref: nat, p: nat): int {
    Base(entry) + Slots(Shr(p - ref / PAGE * PAGE, Alignment(entry)), bytes)
  }

  /** The same with unsigned 64-bit arithmetic, as in `metaget_base_N`. */
  function SlotFromUnsigned(entry: nat, bytes: nat, ref: nat, p: nat): int {
    (Base(entry) + Slots(Shr((p - ref / PAGE * PAGE) % WORD, Alignment(entry)), bytes)) % WORD
  }

  // ----- The flat view

  /** A range of whole pages whose metadata is one array at `metaptr`. */
  datatype Region = Region(start: nat, pages: nat, metaptr: nat, alignment: nat) {
    ghost predicate Has(p: nat) { start <= p < start + pages * PAGE }
    ghost predicate Fits(bytes: nat) {
      && start % PAGE == 0 && metaptr > 0 && alignment < 64
      && (metaptr + Slots(Shr(pages * PAGE, alignment) + 1, bytes)) * 0x100 < WORD
    }
    ghost function Granule(p: int): int { Shr(p - start, alignment) }
    ghost function Flat(bytes: nat, p: int): int { metaptr + Slots(Granule(p), bytes) }
  }

  ghost predicate Configured(table: PageTable, bytes: nat, r: Region) {
    forall page: nat | r.start / PAGE <= page < r.start / PAGE + r.pages ::
      EntryOf(table, page) == PageEntry(r.metaptr, r.alignment, bytes, page - r.start / PAGE)
  }

  lemma GranulesWithinPage(i: nat, off: nat, a: nat)
    requires a <= PAGE_SHIFT
    ensures Shr(i * PAGE, a) + Shr(off, a) == Shr(i * PAGE + off, a) && i * PAGE % Pow2(a) == 0
  {
    PageIsPow2();
    Pow2Sum(PAGE_SHIFT - a, a);
    hide Pow2;
    FineDivision(i, off, Pow2(PAGE_SHIFT - a), Pow2(a));
  }

  lemma GranulesAcrossPages(i: nat, off: nat, a: nat)
    requires off < PAGE && a > PAGE_SHIFT
    ensures Shr(i * PAGE, a) == Shr(i * PAGE + off, a) && Shr(off, a) == 0
  {
    PageIsPow2();
    Pow2Sum(PAGE_SHIFT, a - PAGE_SHIFT);
    hide Pow2;
    CoarseDivision(i, off, PAGE, Pow2(a - PAGE_SHIFT));
  }

  /** The heart of it: granules counted page by page and within the page add up, both when a page
      holds many granules and when a granule spans many pages. */
  lemma GranulesAddUp(i: nat, off: nat, a: nat)
    requires off < PAGE
    ensures Shr(i * PAGE, a) + Shr(off, a) == Shr(i * PAGE + off, a)
  {
    if a <= PAGE_SHIFT { GranulesWithinPage(i, off, a); } else { GranulesAcrossPages(i, off, a); }
  }

  lemma ShrMonotone(x: int, y: int, a: nat)
    requires x <= y
    ensures Shr(x, a) <= Shr(y, a)
  {
    var d := Pow2(a);
    assert x == x / d * d + x % d && y == y / d * d + y % d;
    ProductAtLeast(x / d - y / d, d);
    assert (x / d - y / d) * d == x / d * d - y / d * d;
  }

  /** The entry of the page of `p`, unpacked. */
  lemma EntryUnpacks(table: PageTable, bytes: nat, r: Region, p: nat)
    requires Configured(table, bytes, r) && r.Fits(bytes) && r.Has(p)
    ensures var i := p / PAGE - r.start / PAGE;
            0 <= i < r.pages && p - r.start == i * PAGE + p % PAGE
            && Base(EntryOf(table, p / PAGE)) == r.metaptr + Slots(Shr(i * PAGE, r.alignment), bytes)
            && Alignment(EntryOf(table, p / PAGE)) == r.alignment
  {
    var i := p / PAGE - r.start / PAGE;
    assert EntryOf(table, p / PAGE) == PageEntry(r.metaptr, r.alignment, bytes, i);
    ShrMonotone(0, i * PAGE, r.alignment);
    ShrMonotone(i * PAGE, r.pages * PAGE, r.alignment);
    Scale(0, Shr(i * PAGE, r.alignment), bytes);
    Scale(Shr(i * PAGE, r.alignment), Shr(r.pages * PAGE, r.alignment) + 1, bytes);
    PackRoundTrip(r.metaptr + Slots(Shr(i * PAGE, r.alignment), bytes), r.alignment);
  }

  lemma SlotsSum(m: int, n: int, bytes: nat)
    ensures Slots(m + n, bytes) == Slots(m, bytes) + Slots(n, bytes)
  { }

  /** For every address of a configured region and every shift, the packed lookup is the flat one. */
  lemma PackedIsFlat(table: PageTable, bytes: nat, r: Region, p: nat)
    requires Configured(table, bytes, r) && r.Fits(bytes) && r.Has(p)
    ensures SlotOf(table, bytes, p) == r.Flat(bytes, p)
  {
    EntryUnpacks(table, bytes, r, p);
    var i := p / PAGE - r.start / PAGE;
    GranulesAddUp(i, p % PAGE, r.alignment);
    SlotsSum(Shr(i * PAGE, r.alignment), Shr(p % PAGE, r.alignment), bytes);
  }

  // ----- Lookups through a remembered entry

  /** Splitting a sum of granule counts is exact iff the remainders do not carry. */
  lemma ShrSplits(x: int, y: int, a: nat)
    ensures Shr(x, a) + Shr(y, a) == Shr(x + y, a) <==> x % Pow2(a) + y % Pow2(a) < Pow2(a)
  {
    var d := Pow2(a);
    hide Pow2;
    Quotient(x, d);
    Quotient(y, d);
    assert (x / d + y / d) * d == x / d * d + y / d * d;
    if x % d + y % d < d {
      DivModUnique(x + y, d, x / d + y / d, x % d + y % d);
    } else {
      assert (x / d + y / d + 1) * d == x / d * d + y / d * d + d;
      DivModUnique(x + y, d, x / d + y / d + 1, x % d + y % d - d);
    }
  }

  /** A base-relative lookup finds the right slot iff the granule of the remembered page and the
      offset from it do not carry into one another. */
  lemma BaseFormExact(table: PageTable, bytes: nat, r: Region, ref: nat, p: nat)
    requires Configured(table, bytes, r) && r.Fits(bytes) && r.Has(ref) && bytes > 0
    ensures var page := ref / PAGE * PAGE;
            SlotFrom(EntryOf(table, ref / PAGE), bytes, ref, p) == r.Flat(bytes, p)
            <==> (page - r.start) % Pow2(r.alignment) + (p - page) % Pow2(r.alignment) < Pow2(r.alignment)
  {
    EntryUnpacks(table, bytes, r, ref);
    hide Configured, Pow2, Shr, Base, Alignment, EntryOf;
    var page := ref / PAGE * PAGE;
    var x, y := page - r.start, p - page;
    ShrSplits(x, y, r.alignment);
    assert x + y == p - r.start;
    SlotsSum(Shr(x, r.alignment), Shr(y, r.alignment), bytes);
    ProductInjective(Shr(x, r.alignment) + Shr(y, r.alignment), Shr(p - r.start, r.alignment), bytes);
  }

  lemma ProductInjective(m: int, n: int, k: nat)
    requires k > 0
    ensures m * k == n * k <==> m == n
  {
    ProductAtLeast(m - n, k);
    assert (m - n) * k == m * k - n * k;
  }

  /** For granules no larger than a page the base-relative lookup is always right, in both
      directions from the remembered page. */
  lemma BaseFormSmallGranules(table: PageTable, bytes: nat, r: Region, ref: nat, p: nat)
    requires Configured(table, bytes, r) && r.Fits(bytes) && r.Has(ref) && bytes > 0 && r.alignment <= PAGE_SHIFT
    ensures SlotFrom(EntryOf(table, ref / PAGE), bytes, ref, p) == r.Flat(bytes, p)
  {
    BaseFormExact(table, bytes, r, ref, p);
    hide Configured, Pow2, Shr;
    var i := ref / PAGE - r.start / PAGE;
    assert ref / PAGE * PAGE - r.start == i * PAGE && i >= 0;
    GranulesWithinPage(i, 0, r.alignment);
  }

  /** The table entries of a region of four pages, for slots of 8 bytes. */
  ghost function FourPages(first: nat, r: Region): PageTable {
    map[first := PageEntry(r.metaptr, r.alignment, 8, 0), first + 1 := PageEntry(r.metaptr, r.alignment, 8, 1),
        first + 2 := PageEntry(r.metaptr, r.alignment, 8, 2), first + 3 := PageEntry(r.metaptr, r.alignment, 8, 3)]
  }

  /** For granules larger than a page it is not: for two addresses of one region it lands one slot
      short. */
  lemma BaseFormLargeGranules()
    ensures var r := Region(0x1_0000, 4, 0x2_0000, 13);
            var table := FourPages(16, r);
            && Configured(table, 8, r) && r.Fits(8) && r.Has(0x1_1000) && r.Has(0x1_2000)
            && SlotFrom(EntryOf(table, 0x1_1000 / PAGE), 8, 0x1_1000, 0x1_2000) == r.Flat(8, 0x1_2000) - 8
  {
    PageIsPow2();
    Pow2Sum(12, 1);
    assert Pow2(13) == 0x2000;
    hide Pow2;
    assert Shr(0x1000, 13) == 0 && Shr(0x2000, 13) == 1 && Shr(0x4000, 13) == 2;
    var entry := PageEntry(0x2_0000, 13, 8, 1);
    assert Base(entry) == 0x2_0000 && Alignment(entry) == 13;
    assert SlotFrom(entry, 8, 0x1_1000, 0x1_2000) == 0x2_0000;
  }

  /** The unsigned form agrees with the signed one, modulo 2^64, at or after the remembered page;
      before it, iff the shift's granule size divides the slot size. */
  lemma UnsignedBaseForm(entry: nat, bytes: nat, ref: nat, p: nat)
    requires Alignment(entry) < 64 && -WORD < p - ref / PAGE * PAGE < WORD
    ensures SlotFromUnsigned(entry, bytes, ref, p) == SlotFrom(entry, bytes, ref, p) % WORD
            <==> p >= ref / PAGE * PAGE || bytes % Pow2(Alignment(entry)) == 0
  {
    var a, d := Alignment(entry), p - ref / PAGE * PAGE;
    if d >= 0 {
      assert d % WORD == d;
    } else {
      ShiftWraps(d, a);
      hide Pow2, Slots, Shr, Base;
      var k := Pow2(64 - a);
      SlotsSum(k, Shr(d, a), bytes);
      SlotsAre(k, bytes);
      ModShift(SlotFrom(entry, bytes, ref, p), k * bytes, WORD);
      DivisibleBy(bytes, k, Pow2(a));
    }
  }

  /** One byte before the remembered page, with granules of 16 bytes and slots of 8: the signed
      form is right and the unsigned one is not. */
  lemma UnsignedBaseFormMisses()
    ensures var r := Region(0x1_0000, 4, 0x2_0000, 4);
            var table := FourPages(16, r);
            var entry := EntryOf(table, 0x1_1000 / PAGE);
            && Configured(table, 8, r) && r.Fits(8) && r.Has(0x1_1000) && r.Has(0x1_0fff)
            && SlotFrom(entry, 8, 0x1_1000, 0x1_0fff) == r.Flat(8, 0x1_0fff)
            && SlotFromUnsigned(entry, 8, 0x1_1000, 0x1_0fff) != r.Flat(8, 0x1_0fff)
  {
    var r := Region(0x1_0000, 4, 0x2_0000, 4);
    assert Pow2(4) == 16;
    hide Pow2;
    assert Shr(0x4000, 4) == 0x400 && Shr(0xfff, 4) == 0xff && Shr(0x1000, 4) == 0x100 && Shr(-1, 4) == -1;
    assert Configured(FourPages(16, r), 8, r) && r.Fits(8);
    var entry := PageEntry(0x2_0000, 4, 8, 1);
    assert EntryOf(FourPages(16, r), 0x1_1000 / PAGE) == entry;
    assert Base(entry) == 0x2_0800 && Alignment(entry) == 4;
    assert SlotFrom(entry, 8, 0x1_1000, 0x1_0fff) == 0x2_07f8 == r.Flat(8, 0x1_0fff);
    UnsignedBaseForm(entry, 8, 0x1_1000, 0x1_0fff);
  }

  /** Shifting a negative difference as an unsigned word. */
  lemma ShiftWraps(d: int, a: nat)
    requires -WORD < d < 0 && a < 64
    ensures Shr(d % WORD, a) == Pow2(64 - a) + Shr(d, a) && WORD == Pow2(64 - a) * Pow2(a)
  {
    WordIsPow2();
    Pow2Sum(64 - a, a);
    hide Pow2;
    assert d % WORD == d + WORD by { DivAddMultiple(d + WORD, WORD, -1); }
    DivAddMultiple(d, Pow2(a), Pow2(64 - a));
  }

  lemma SlotsAre(n: int, bytes: nat)
    ensures Slots(n, bytes) == n * bytes
  { }

  lemma WordIsPow2()
    ensures Pow2(64) == WORD
  {
    PageIsPow2();
    assert Pow2(4) == 16;
    hide Pow2;
    Pow2Sum(12, 4);
    Pow2Sum(16, 16);
    Pow2Sum(32, 32);
  }

  lemma ModShift(s: int, t: int, m: int)
    requires m > 0
    ensures (s + t) % m == s % m <==> t % m == 0
  {
    assert s == s / m * m + s % m && t == t / m * m + t % m;
    var q := s / m + t / m;
    assert q * m == s / m * m + t / m * m;
    if s % m + t % m < m {
      DivModUnique(s + t, m, q, s % m + t % m);
    } else {
      assert (q + 1) * m == q * m + m;
      DivModUnique(s + t, m, q + 1, s % m + t % m - m);
    }
  }

  lemma ScaleSplit(k: nat, q: nat, r: nat, d: nat)
    requires k > 0 && r < d
    ensures k * (q * d + r) == q * (k * d) + k * r && 0 <= k * r < k * d
  {
    assert k * (q * d + r) == k * (q * d) + k * r;
    Associative(k, q, d);
    Associative(q, k, d);
    assert k * r <= k * (d - 1) == k * d - k;
  }

  lemma DivisibleBy(n: nat, k: nat, d: nat)
    requires k > 0 && d > 0
    ensures k * d > 0 && ((k * n) % (k * d) == 0 <==> n % d == 0)
  {
    var q, r := n / d, n % d;
    assert n == q * d + r;
    ScaleSplit(k, q, r, d);
    DivModUnique(k * n, k * d, q, k * r);
    ProductInjective(r, 0, k);
  }

  // ----- Setting and getting

  type Memory = map<nat, int>

  ghost function Byte(mem: Memory, a: nat): int {
    if a in mem then mem[a] else 0
  }

  ghost function Load(mem: Memory, a: nat, n: nat): seq<int> {
    seq(n, i requires 0 <= i < n => Byte(mem, a + i))
  }

  /** Byte `k` of a run of copies of `value`. */
  ghost function Cell(value: seq<int>, k: int): int
    requires |value| > 0
  {
    value[k % |value|]
  }

  /** `now` is `was` with `n` copies of `value` stored from address `at` on. */
  ghost predicate Filled(was: Memory, now: Memory, at: nat, n: nat, value: seq<int>) {
    forall a: nat :: Byte(now, a) ==
      if |value| > 0 && 0 <= a - at < Slots(n, |value|) then Cell(value, a - at) else Byte(was, a)
  }

  /** The granules an object of `count` bytes occupies. */
  ghost function MetaSize(count: nat, alignment: nat): int {
    Shr(count + Pow2(alignment) - 1, alignment)
  }

  /** Where in the filled area the `j`-th slot lies. */
  lemma FilledSlot(was: Memory, now: Memory, at: nat, n: nat, value: seq<int>, j: int)
    requires Filled(was, now, at, n, value) && |value| > 0 && at + Slots(j, |value|) >= 0
    ensures 0 <= j < n ==> Load(now, at + Slots(j, |value|), |value|) == value
    ensures j < 0 || j >= n ==> Load(now, at + Slots(j, |value|), |value|) == Load(was, at + Slots(j, |value|), |value|)
  {
    hide Slots, Cell, Byte;
    var b := at + Slots(j, |value|);
    forall i | 0 <= i < |value|
      ensures Load(now, b, |value|)[i] == if 0 <= j < n then value[i] else Load(was, b, |value|)[i]
    {
      SlotOffset(j, n, |value|, i, value);
      var k := Slots(j, |value|) + i;
      assert b + i == at + k;
    }
    if !(0 <= j < n) { assert Load(now, b, |value|) == Load(was, b, |value|); }
  }

  lemma SlotOffset(j: int, n: nat, m: nat, i: nat, value: seq<int>)
    requires i < m == |value|
    ensures Cell(value, Slots(j, m) + i) == value[i]
    ensures 0 <= Slots(j, m) + i < Slots(n, m) <==> 0 <= j < n
  {
    DivModUnique(j * m + i, m, j, i);
    ProductAtLeast(j, m);
    ProductAtLeast(n - j, m);
    assert (n - j) * m == n * m - j * m;
  }

  /** A byte of a granule-aligned object lies in one of the object's granules. */
  lemma ObjectGranule(r: Region, p: nat, count: nat, q: nat)
    requires (p - r.start) % Pow2(r.alignment) == 0 && p <= q < p + count
    ensures 0 <= r.Granule(q) - r.Granule(p) < MetaSize(count, r.alignment)
  {
    var d := Pow2(r.alignment);
    hide Pow2;
    Quotient(p - r.start, d);
    DivAddMultiple(q - p, d, (p - r.start) / d);
    Quotient(q - p, d);
    DivAddMultiple(count - 1, d, 1);
    CeilExceeds(q - p, count, d);
  }

  lemma CeilExceeds(x: nat, count: nat, d: nat)
    requires d > 0 && x < count
    ensures x / d < (count + d - 1) / d
  {
    var y := count + d - 1;
    Quotient(x, d);
    Quotient(y, d);
    ProductAtLeast(x / d - y / d, d);
    assert (x / d - y / d) * d == x / d * d - y / d * d;
    if x / d == y / d { assert false; }
  }

  /** Setting the metadata of a granule-aligned object makes every byte of it read the value, and
      changes what is read at no address in another granule. */
  lemma SetThenGet(table: PageTable, was: Memory, now: Memory, r: Region, p: nat, count: nat, value: seq<int>, q: nat)
    requires |value| > 0 && Configured(table, |value|, r) && r.Fits(|value|) && r.Has(p) && r.Has(q)
    requires (p - r.start) % Pow2(r.alignment) == 0 && r.alignment < INT_SHIFT && MetaSize(count, r.alignment) >= 0
    requires Filled(was, now, SlotOf(table, |value|, p), MetaSize(count, r.alignment), value)
    ensures p <= q < p + count ==> Load(now, SlotOf(table, |value|, q), |value|) == value
    ensures !(0 <= r.Granule(q) - r.Granule(p) < MetaSize(count, r.alignment)) ==>
              Load(now, SlotOf(table, |value|, q), |value|) == Load(was, SlotOf(table, |value|, q), |value|)
  {
    hide Pow2, Configured, Shr, Slots, SlotOf, MetaSize, Filled, Load, Region.Fits;
    PackedIsFlat(table, |value|, r, p);
    PackedIsFlat(table, |value|, r, q);
    var j := r.Granule(q) - r.Granule(p);
    SlotsSum(r.Granule(p), j, |value|);
    if p <= q < p + count { ObjectGranule(r, p, count, q); }
    FilledSlot(was, now, SlotOf(table, |value|, p), MetaSize(count, r.alignment), value, j);
  }

  /** `now` is `was` with `value` stored at `a`. */
  ghost predicate StoredAt(was: Memory, now: Memory, a: nat, value: seq<int>) {
    forall b: nat :: Byte(now, b) == if a <= b < a + |value| then value[b - a] else Byte(was, b)
  }

  lemma FilledMore(was: Memory, mid: Memory, now: Memory, at: nat, n: nat, value: seq<int>)
    requires |value| > 0 && Filled(was, mid, at, n, value) && StoredAt(mid, now, at + Slots(n, |value|), value)
    ensures Filled(was, now, at, n + 1, value)
  {
    hide Slots, Cell, Byte;
    var m := |value|;
    SlotsSum(n, 1, m);
    assert Slots(1, m) == m by { OneSlot(m); }
    forall a: nat ensures Byte(now, a) == if 0 <= a - at < Slots(n + 1, m) then Cell(value, a - at) else Byte(was, a) {
      var i := a - at - Slots(n, m);
      if 0 <= i < m { SlotOffset(n, n + 1, m, i, value); assert a - at == Slots(n, m) + i; }
    }
  }

  lemma OneSlot(m: nat)
    ensures Slots(1, m) == m && Slots(0, m) == 0
  { }

  /** `now` is `was` with entries for `count` pages from `page` on, leading into the array at `metaptr`. */
  ghost predicate Assigned(was: PageTable, now: PageTable, page: nat, count: nat, metaptr: nat, alignment: nat, bytes: nat) {
    forall q: nat :: EntryOf(now, q) ==
                     if page <= q < page + count then PageEntry(metaptr, alignment, bytes, q - page) else EntryOf(was, q)
  }

  lemma AssignedNone(was: PageTable, page: nat, metaptr: nat, alignment: nat, bytes: nat)
    ensures Assigned(was, was, page, 0, metaptr, alignment, bytes)
  { }

  lemma AssignedMore(was: PageTable, mid: PageTable, page: nat, i: nat, metaptr: nat, alignment: nat, bytes: nat)
    requires Assigned(was, mid, page, i, metaptr, alignment, bytes)
    ensures Assigned(was, mid[page + i := PageEntry(metaptr, alignment, bytes, i)], page, i + 1, metaptr, alignment, bytes)
  {
    var now: PageTable := mid[page + i := PageEntry(metaptr, alignment, bytes, i)];
    hide PageEntry;
    forall q: nat ensures EntryOf(now, q) == if page <= q < page + i + 1 then PageEntry(metaptr, alignment, bytes, q - page) else EntryOf(was, q) {
      assert EntryOf(mid, q) == if page <= q < page + i then PageEntry(metaptr, alignment, bytes, q - page) else EntryOf(was, q);
    }
  }

  class Metadata {
    var entries: PageTable
    var mem: Memory

    /** An empty table: pages that were never set read as zero. */
    constructor ()
      ensures forall page: nat :: EntryOf(entries, page) == 0
    {
      entries, mem := map[], map[];
    }

    /** `set_metapagetable_entries`. A range that is not made of whole pages ends the program. */
    method SetEntries(ptr: nat, size: nat, metaptr: nat, alignment: nat, bytes: nat) returns (ok: bool)
      modifies `entries
      ensures ok <==> size % PAGE == 0
      ensures !ok ==> entries == old(entries)
      ensures ok ==> Assigned(old(entries), entries, ptr / PAGE, size / PAGE, metaptr, alignment, bytes)
    {
      hide PageEntry, Assigned;
      AssignedNone(entries, ptr / PAGE, metaptr, alignment, bytes);
      if size % PAGE != 0 { return false; }
      var page, count := ptr / PAGE, size / PAGE;
      for i := 0 to count
        invariant Assigned(old(entries), entries, page, i, metaptr, alignment, bytes)
      {
        AssignedMore(old(entries), entries, page, i, metaptr, alignment, bytes);
        entries := entries[page + i := PageEntry(metaptr, alignment, bytes, i)];
      }
      ok := true;
    }

    /** A store of one value, byte by byte. */
    method Store(a: nat, value: seq<int>)
      modifies `mem
      ensures StoredAt(old(mem), mem, a, value)
    {
      for i := 0 to |value|
        invariant forall b: nat :: Byte(mem, b) == if a <= b < a + i then value[b - a] else Byte(old(mem), b)
      {
        ghost var prev := mem;
        mem := mem[a + i := value[i]];
        assert forall b: nat :: Byte(mem, b) == if b == a + i then value[i] else Byte(prev, b);
      }
    }

    /** `metaset_N`: fill the slots of an object's granules. */
    method MetaSet(p: nat, count: nat, value: seq<int>) returns (entry: nat)
      requires |value| > 0 && Alignment(EntryOf(entries, p / PAGE)) < INT_SHIFT
      modifies `mem
      ensures entry == EntryOf(entries, p / PAGE) && MetaSize(count, Alignment(entry)) >= 0
      ensures Filled(old(mem), mem, SlotOf(entries, |value|, p), MetaSize(count, Alignment(entry)), value)
    {
      hide Slots, Cell, Byte, StoredAt, Shr;
      entry := EntryOf(entries, p / PAGE);
      var alignment := Alignment(entry);
      var metaptr := Base(entry) + Slots(Shr(p % PAGE, alignment), |value|);
      ghost var at := metaptr;
      var metasize := Shr(count + Pow2(alignment) - 1, alignment);
      OneSlot(|value|);
      for i := 0 to metasize
        invariant Filled(old(mem), mem, at, i, value) && metaptr == at + Slots(i, |value|)
      {
        ghost var mid := mem;
        Store(metaptr, value);
        FilledMore(old(mem), mid, mem, at, i, value);
        SlotsSum(i, 1, |value|);
        metaptr := metaptr + |value|;
      }
    }
  }
}
