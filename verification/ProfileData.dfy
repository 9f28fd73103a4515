/** The CPU profile collector: a 4-way hash table of stack traces that spills into an eviction
    buffer, which is written to the profile file as a stream of slots.

    The table looks lossy, since any entry may be thrown out for another, but nothing is lost:
    the stream decodes uniquely, and the records for a trace add up to the samples taken of it.
 */
module ProfileData {
  import opened Arithmetic
  import opened Basics

  const MAX_STACK_DEPTH := 64
  const ASSOCIATIVITY := 4
  const BUCKETS := 1024
  const TABLE_SIZE := BUCKETS * ASSOCIATIVITY
  const BUFFER_LENGTH := 0x4_0000

  type Trace = seq<nat>

  /** A table entry or an emitted record; the depth is the length of the stack. */
  datatype Entry = Entry(count: nat, stack: Trace)

  // ----- The profile format: what is written, and how a reader takes it apart

  ghost function Encode(e: Entry): seq<nat> {
    [e.count, |e.stack|] + e.stack
  }

  ghost function EncodeAll(records: seq<Entry>): seq<nat> {
    if records == [] then [] else EncodeAll(records[..|records| - 1]) + Encode(records[|records| - 1])
  }

  ghost function Header(period: nat): seq<nat> { [0, 3, 0, period, 0] }

  const TRAILER: seq<nat> := [0, 1, 0]

  /** One record off the front of a stream. */
  function ReadRecord(s: seq<nat>): Option<(Entry, seq<nat>)> {
    if |s| < 2 || |s| - 2 < s[1] then None
    else Some((Entry(s[0], s[2..2 + s[1]]), s[2 + s[1]..]))
  }

  /** Records up to the end-of-data marker, and whatever follows it. */
  ghost function ReadRecords(s: seq<nat>): Option<(seq<Entry>, seq<nat>)>
    decreases |s|
  {
    match ReadRecord(s)
    case None => None
    case Some((e, rest)) =>
      if e == Entry(0, [0]) then Some(([], rest)) else
      match ReadRecords(rest)
      case None => None
      case Some((es, tail)) => Some(([e] + es, tail))
  }

  datatype Profile = Profile(period: nat, records: seq<Entry>, maps: seq<nat>)

  ghost function Decode(s: seq<nat>): Option<Profile> {
    match ReadRecord(s)
    case None => None
    case Some((h, rest)) =>
      if h.count != 0 || |h.stack| != 3 || h.stack[0] != 0 || h.stack[2] != 0 then None else
      match ReadRecords(rest)
      case None => None
      case Some((es, maps)) => Some(Profile(h.stack[1], es, maps))
  }

  lemma ReadEncoded(e: Entry, rest: seq<nat>)
    ensures ReadRecord(Encode(e) + rest) == Some((e, rest))
  {
    var s := Encode(e) + rest;
    assert s[2..2 + s[1]] == e.stack && s[2 + s[1]..] == rest;
  }

  lemma {:induction false} EncodeAllFront(records: seq<Entry>)
    requires records != []
    ensures EncodeAll(records) == Encode(records[0]) + EncodeAll(records[1..])
  {
    var last := |records| - 1;
    if last > 0 {
      EncodeAllFront(records[..last]);
      assert records[..last][1..] == records[1..][..last - 1];
    } else {
      assert records[..0] == [] && records[1..] == [];
    }
  }

  lemma AppendRecord(period: nat, records: seq<Entry>, e: Entry, before: seq<nat>, after: seq<nat>)
    requires before == Header(period) + EncodeAll(records) && after == before + [e.count, |e.stack|] + e.stack
    ensures after == Header(period) + EncodeAll(records + [e])
  {
    assert (records + [e])[..|records|] == records;
    assert after == Header(period) + (EncodeAll(records) + Encode(e));
  }

  /** Only the end marker has count zero, so the reader cannot stop early or run on. */
  lemma {:induction false} ReadRecordsBack(records: seq<Entry>, maps: seq<nat>)
    requires forall r | r in records :: r.count > 0
    ensures ReadRecords(EncodeAll(records) + TRAILER + maps) == Some((records, maps))
  {
    if records == [] {
      var s := EncodeAll(records) + TRAILER + maps;
      assert s == Encode(Entry(0, [0])) + maps;
      ReadEncoded(Entry(0, [0]), maps);
    } else {
      EncodeAllFront(records);
      var rest := EncodeAll(records[1..]) + TRAILER + maps;
      assert EncodeAll(records) + TRAILER + maps == Encode(records[0]) + rest;
      ReadEncoded(records[0], rest);
      ReadRecordsBack(records[1..], maps);
      assert records == [records[0]] + records[1..] && records[0] in records;
    }
  }

  /** A written profile decodes to exactly what was written. */
  lemma DecodeRoundTrip(period: nat, records: seq<Entry>, maps: seq<nat>)
    requires forall r | r in records :: r.count > 0
    ensures Decode(Header(period) + EncodeAll(records) + TRAILER + maps) == Some(Profile(period, records, maps))
  {
    var rest := EncodeAll(records) + TRAILER + maps;
    var h := Entry(0, [0, period, 0]);
    assert Header(period) + EncodeAll(records) + TRAILER + maps == Encode(h) + rest;
    ReadEncoded(h, rest);
    ReadRecordsBack(records, maps);
  }

  // ----- Sample counts

  /** Samples of `trace` among the entries. */
  ghost function Count(es: seq<Entry>, trace: Trace): nat {
    if es == [] then 0 else Count(es[..|es| - 1], trace) + Weight(es[|es| - 1], trace)
  }

  ghost function Weight(e: Entry, trace: Trace): nat {
    if e.stack == trace then e.count else 0
  }

  /** Every sample taken is in the table or in a record, and nothing else is. */
  ghost predicate Balanced(table: seq<Entry>, records: seq<Entry>, added: multiset<Trace>) {
    forall trace :: Count(table, trace) + Count(records, trace) == added[trace]
  }

  lemma {:induction false} CountUpdate(es: seq<Entry>, i: nat, e: Entry, trace: Trace)
    requires i < |es|
    ensures Count(es[i := e], trace) == Count(es, trace) - Weight(es[i], trace) + Weight(e, trace)
  {
    var last := |es| - 1;
    if i < last {
      CountUpdate(es[..last], i, e, trace);
      assert es[i := e][..last] == es[..last][i := e];
    } else {
      assert es[i := e][..last] == es[..last];
    }
  }

  lemma CountAppend(es: seq<Entry>, e: Entry, trace: Trace)
    ensures Count(es + [e], trace) == Count(es, trace) + Weight(e, trace)
  {
    assert (es + [e])[..|es|] == es;
  }

  lemma {:induction false} CountNone(es: seq<Entry>, trace: Trace)
    requires forall e | e in es :: e.count == 0
    ensures Count(es, trace) == 0
  {
    if es != [] {
      assert es[|es| - 1] in es;
      CountNone(es[..|es| - 1], trace);
    }
  }

  lemma EncodeNone()
    ensures EncodeAll([]) == []
  { }

  lemma BalancedEmpty(table: seq<Entry>)
    requires forall e | e in table :: e.count == 0
    ensures Balanced(table, [], multiset{})
  {
    forall trace ensures Count(table, trace) + Count([], trace) == multiset{}[trace] { CountNone(table, trace); }
  }

  /** Moving an entry from the table to the records keeps the balance. */
  lemma BalancedEvict(table: seq<Entry>, i: nat, records: seq<Entry>, added: multiset<Trace>)
    requires Balanced(table, records, added) && i < |table|
    ensures Balanced(table[i := Entry(0, [])], records + [table[i]], added)
  {
    forall trace ensures Count(table[i := Entry(0, [])], trace) + Count(records + [table[i]], trace) == added[trace] {
      CountUpdate(table, i, Entry(0, []), trace);
      CountAppend(records, table[i], trace);
      assert Count(table, trace) + Count(records, trace) == added[trace];
    }
  }

  lemma {:induction false} CountFront(es: seq<Entry>, trace: Trace)
    requires es != []
    ensures Count(es, trace) == Weight(es[0], trace) + Count(es[1..], trace)
  {
    var last := |es| - 1;
    if last > 0 {
      CountFront(es[..last], trace);
      assert es[..last][1..] == es[1..][..last - 1];
    }
  }

  /** Emitting the entries in table order, leaving out empty ones, keeps the balance. */
  lemma BalancedMove(table: seq<Entry>, records: seq<Entry>, added: multiset<Trace>)
    requires Balanced(table, records, added) && table != []
    ensures Balanced(table[1..], if table[0].count > 0 then records + [table[0]] else records, added)
  {
    forall trace ensures Count(table[1..], trace) + Count(if table[0].count > 0 then records + [table[0]] else records, trace) == added[trace] {
      CountFront(table, trace);
      CountAppend(records, table[0], trace);
      assert Count(table, trace) + Count(records, trace) == added[trace];
    }
  }

  /** Adding one sample to an entry for its trace, or to an empty one, balances one more sample. */
  lemma BalancedAdd(table: seq<Entry>, i: nat, records: seq<Entry>, added: multiset<Trace>, trace: Trace)
    requires Balanced(table, records, added) && i < |table| && (table[i].stack == trace || table[i].count == 0)
    ensures var n := if table[i].stack == trace then table[i].count else 0;
            Balanced(table[i := Entry(n + 1, trace)], records, added + multiset{trace})
  {
    var e := Entry((if table[i].stack == trace then table[i].count else 0) + 1, trace);
    forall t ensures Count(table[i := e], t) + Count(records, t) == (added + multiset{trace})[t] {
      CountUpdate(table, i, e, t);
      assert Count(table, t) + Count(records, t) == added[t];
    }
  }

  // ----- The collector

  /** One round of the trace hash: rotate by a byte and mix in a program counter, in 64 bits. */
  function HashStep(h: nat, pc: nat): (r: nat)
    requires h < WORD
    ensures r < WORD
  {
    (h * 0x100 % WORD + h / 0x100_0000_0000_0000 + pc * 31 + pc * 7 + pc * 3) % WORD
  }

  ghost function HashOf(trace: Trace): (r: nat)
    ensures r < WORD
  {
    if trace == [] then 0 else HashStep(HashOf(trace[..|trace| - 1]), trace[|trace| - 1])
  }

  /** C division truncates toward zero; the period is then stored as an unsigned slot. */
  ghost function PeriodOf(frequency: int): (p: nat)
    requires frequency != 0
    ensures frequency > 0 ==> p * frequency <= 1000000 < (p + 1) * frequency
    ensures frequency < 0 ==> var q := if p == 0 then 0 else WORD - p; q * -frequency <= 1000000 < (q + 1) * -frequency
  {
    if frequency > 0 then
      Quotient(1000000, frequency);
      Scale(1, frequency, 1000000 / frequency);
      1000000 / frequency
    else
      Quotient(1000000, -frequency);
      Scale(1, -frequency, 1000000 / -frequency);
      if 1000000 / -frequency == 0 then 0 else WORD - 1000000 / -frequency
  }

  ghost predicate GoodEntry(e: Entry) {
    (e.count == 0 <==> e.stack == []) && |e.stack| <= MAX_STACK_DEPTH
  }

  class Collector {
    var enabled: bool
    var hash: array<Entry>
    var evict: array<nat>
    var numEvicted: nat
    var out: seq<nat>
    var count: nat
    var evictions: nat
    ghost var period: nat
    ghost var records: seq<Entry>
    ghost var added: multiset<Trace>

    /** The stream so far: what is in the file and what is still in the buffer. */
    ghost function Stream(): seq<nat>
      reads `out, `evict, `numEvicted, evict
      requires numEvicted <= evict.Length
    {
      out + evict[..numEvicted]
    }

    /** Buffer and file together hold the header and the records so far, in order. */
    ghost predicate Buffered()
      reads `out, `evict, `numEvicted, `period, `records, evict
    {
      && evict.Length == BUFFER_LENGTH && numEvicted <= BUFFER_LENGTH
      && Stream() == Header(period) + EncodeAll(records)
      && forall r | r in records :: r.count > 0 && |r.stack| <= MAX_STACK_DEPTH
    }

    ghost predicate TableOk()
      reads `hash, `records, `added, hash
    {
      && hash.Length == TABLE_SIZE
      && (forall i | 0 <= i < TABLE_SIZE :: GoodEntry(hash[i]))
      && Balanced(hash[..], records, added)
    }

    ghost predicate Valid()
      reads this, hash, evict
    {
      enabled ==> Buffered() && TableOk() && count == |added|
    }

    constructor ()
      ensures Valid() && !enabled && fresh(hash) && fresh(evict)
    {
      enabled, numEvicted, out, count, evictions := false, 0, [], 0, 0;
      hash, evict := new Entry[0], new nat[0];
      period, records, added := 0, [], multiset{};
    }

    /** `Start`; `opens` is whether the file can be opened. */
    method Start(frequency: int, opens: bool) returns (ok: bool)
      requires Valid() && frequency != 0
      modifies this
      ensures Valid()
      ensures (ok <==> opens && !old(enabled)) && (!ok ==> unchanged(this))
      ensures ok ==> enabled && added == multiset{} && records == [] && period == PeriodOf(frequency) && fresh(hash) && fresh(evict)
    {
      hide Buffered, TableOk;
      if enabled { return false; }
      if !opens { return false; }
      Reset(frequency);
      WriteHeader(frequency);
      enabled := true;
      ok := true;
    }

    /** Empty table and buffer. */
    method Reset(ghost frequency: int)
      requires frequency != 0
      modifies this
      ensures TableOk() && fresh(hash) && fresh(evict) && evict.Length == BUFFER_LENGTH && !enabled && count == 0
      ensures numEvicted == 0 && out == [] && period == PeriodOf(frequency) && records == [] && added == multiset{}
    {
      hide Balanced;
      enabled, numEvicted, count, evictions, out := false, 0, 0, 0, [];
      hash := new Entry[TABLE_SIZE](_ => Entry(0, []));
      evict := new nat[BUFFER_LENGTH](_ => 0);
      period, records, added := PeriodOf(frequency), [], multiset{};
      BalancedEmpty(hash[..]);
    }

    /** The five slots of the header. */
    method WriteHeader(frequency: int)
      requires frequency != 0 && period == PeriodOf(frequency) && evict.Length == BUFFER_LENGTH && numEvicted == 0 && out == [] && records == []
      modifies `out, `numEvicted, evict
      ensures Buffered()
    {
      hide EncodeAll;
      var q := if frequency > 0 then 1000000 / frequency else -(1000000 / -frequency);
      Put([0, 3, 0, q % WORD, 0]);
      assert Stream() == Header(period);
      EncodeNone();
    }

    /** Store slots at the end of the buffer. */
    method Put(slots: seq<nat>)
      requires numEvicted + |slots| <= evict.Length
      modifies `numEvicted, evict
      ensures numEvicted == old(numEvicted) + |slots| && Stream() == old(Stream()) + slots
    {
      for i := 0 to |slots|
        modifies evict
        invariant evict[..numEvicted] == old(evict[..numEvicted]) && evict[numEvicted..numEvicted + i] == slots[..i]
      {
        evict[numEvicted + i] := slots[i];
      }
      numEvicted := numEvicted + |slots|;
      assert evict[..numEvicted] == old(evict[..numEvicted]) + slots;
    }

    /** `FlushEvicted`. */
    method FlushEvicted()
      requires numEvicted <= evict.Length
      modifies `out, `numEvicted
      ensures numEvicted == 0 && out == Stream() == old(Stream())
    {
      if numEvicted > 0 { out := out + evict[..numEvicted]; }
      numEvicted := 0;
      assert evict[..0] == [];
    }

    /** `Evict`: append the entry to the stream. The buffer never overflows. */
    method Evict(e: Entry)
      requires Buffered() && e.count > 0 && |e.stack| <= MAX_STACK_DEPTH
      modifies `out, `numEvicted, `records, evict
      ensures Buffered() && records == old(records) + [e]
      ensures old(numEvicted) + |e.stack| + 2 <= BUFFER_LENGTH ==> out == old(out)
    {
      hide Stream, Header, EncodeAll;
      var d := |e.stack|;
      if numEvicted + d + 2 > BUFFER_LENGTH { FlushEvicted(); }
      ghost var before := Stream();
      Put([e.count, d]);
      Put(e.stack);
      AppendRecord(period, records, e, before, Stream());
      records := records + [e];
    }

    /** Evict the entry in slot `i` and leave the slot empty. */
    method EvictSlot(i: nat)
      requires Buffered() && TableOk() && i < TABLE_SIZE && hash[i].count > 0
      modifies `out, `numEvicted, `records, evict, hash
      ensures records == old(records) + [old(hash[i])]
      ensures Buffered() && TableOk() && hash[..] == old(hash[..])[i := Entry(0, [])]
    {
      BalancedEvict(hash[..], i, records, added);
      assert GoodEntry(hash[i]);
      Evict(hash[i]);
      ghost var table := hash[..];
      hash[i] := Entry(0, []);
      assert hash[..] == table[i := Entry(0, [])];
    }

    /** `FlushTable`: everything goes to the file, nothing changes in the balance. */
    method FlushTable()
      requires Valid()
      modifies this, hash, evict
      ensures Valid() && added == old(added) && enabled == old(enabled) && hash == old(hash) && evict == old(evict) && period == old(period)
      ensures enabled ==> numEvicted == 0 && forall i | 0 <= i < TABLE_SIZE :: hash[i].count == 0
    {
      if !enabled { return; }
      for i := 0 to TABLE_SIZE
        invariant Buffered() && TableOk() && forall j | 0 <= j < i :: hash[j].count == 0
        invariant added == old(added) && enabled && hash == old(hash) && evict == old(evict) && period == old(period) && count == |added|
      {
        if hash[i].count > 0 { EvictSlot(i); }
      }
      FlushEvicted();
    }

    /** The entry of the bucket that holds `trace`, if any. */
    method FindTrace(base: nat, trace: Trace) returns (found: Option<nat>)
      requires hash.Length == TABLE_SIZE && base + ASSOCIATIVITY <= TABLE_SIZE
      ensures found.Some? ==> base <= found.value < base + ASSOCIATIVITY && hash[found.value].stack == trace
      ensures found.None? ==> forall a | base <= a < base + ASSOCIATIVITY :: hash[a].stack != trace
    {
      found := None;
      for a := base to base + ASSOCIATIVITY
        invariant forall j | base <= j < a :: hash[j].stack != trace
      {
        if hash[a].stack == trace { return Some(a); }
      }
    }

    /** The entry of the bucket with the smallest count, the first of them in table order. */
    method FindVictim(base: nat) returns (v: nat)
      requires hash.Length == TABLE_SIZE && base + ASSOCIATIVITY <= TABLE_SIZE
      ensures base <= v < base + ASSOCIATIVITY
      ensures forall a | base <= a < base + ASSOCIATIVITY :: hash[v].count <= hash[a].count
      ensures forall a | base <= a < v :: hash[v].count < hash[a].count
    {
      v := base;
      for a := base + 1 to base + ASSOCIATIVITY
        invariant base <= v < a
        invariant forall j | base <= j < a :: hash[v].count <= hash[j].count
        invariant forall j | base <= j < v :: hash[v].count < hash[j].count
      {
        if hash[a].count < hash[v].count { v := a; }
      }
    }

    /** The slot for a new sample: the one that already counts this trace, or the least used one of
        the bucket, evicted. */
    method MakeRoom(base: nat, trace: Trace) returns (v: nat)
      requires Buffered() && TableOk() && base + ASSOCIATIVITY <= TABLE_SIZE
      modifies `out, `numEvicted, `records, `evictions, evict, hash
      ensures Buffered() && TableOk() && base <= v < base + ASSOCIATIVITY
      ensures hash[v].stack == trace || hash[v].count == 0
      ensures (exists a :: base <= a < base + ASSOCIATIVITY && old(hash[a]).stack == trace) ==>
        hash[v].stack == trace && hash[..] == old(hash[..]) && records == old(records) && evictions == old(evictions)
      ensures (forall a | base <= a < base + ASSOCIATIVITY :: old(hash[a]).stack != trace) ==>
        && (forall a | base <= a < base + ASSOCIATIVITY :: old(hash[v]).count <= old(hash[a]).count)
        && (if old(hash[v]).count == 0 then hash[..] == old(hash[..]) && records == old(records) && evictions == old(evictions)
            else hash[..] == old(hash[..])[v := Entry(0, [])] && records == old(records) + [old(hash[v])] && evictions == old(evictions) + 1)
    {
      var slot := FindTrace(base, trace);
      if slot.Some? { return slot.value; }
      v := FindVictim(base);
      if hash[v].count > 0 {
        evictions := evictions + 1;
        EvictSlot(v);
      }
    }

    method HashTrace(trace: Trace) returns (h: nat)
      ensures h == HashOf(trace)
    {
      h := 0;
      for i := 0 to |trace|
        invariant h == HashOf(trace[..i])
      {
        h := HashStep(h, trace[i]);
        assert trace[..i + 1][..i] == trace[..i];
      }
      assert trace[..|trace|] == trace;
    }

    /** `Add`: one more sample of the trace, cut to MAX_STACK_DEPTH frames. */
    method Add(depth: nat, stack: seq<nat>)
      requires Valid() && 0 < depth <= |stack|
      modifies this, hash, evict
      ensures Valid() && enabled == old(enabled) && hash == old(hash) && evict == old(evict) && period == old(period)
      ensures count == old(count) + (if enabled then 1 else 0) && old(records) <= records
      ensures added == old(added) + if enabled then multiset{stack[..if depth > MAX_STACK_DEPTH then MAX_STACK_DEPTH else depth]} else multiset{}
    {
      if enabled { AddTrace(stack[..if depth > MAX_STACK_DEPTH then MAX_STACK_DEPTH else depth]); }
    }

    method AddTrace(trace: Trace)
      requires Valid() && enabled && 0 < |trace| <= MAX_STACK_DEPTH
      modifies this, hash, evict
      ensures Valid() && enabled && hash == old(hash) && evict == old(evict) && period == old(period)
      ensures added == old(added) + multiset{trace} && count == old(count) + 1 && old(records) <= records
    {
      hide Buffered, TableOk, HashOf;
      var h := HashTrace(trace);
      count := count + 1;
      var v := MakeRoom(h % BUCKETS * ASSOCIATIVITY, trace);
      Tally(v, trace);
    }

    /** Count one more sample of `trace` in slot `v`. */
    method Tally(v: nat, trace: Trace)
      requires TableOk() && v < TABLE_SIZE && 0 < |trace| <= MAX_STACK_DEPTH && (hash[v].stack == trace || hash[v].count == 0)
      modifies `added, hash
      ensures TableOk() && added == old(added) + multiset{trace}
    {
      hide Balanced;
      BalancedAdd(hash[..], v, records, added, trace);
      ghost var table := hash[..];
      hash[v] := Entry((if hash[v].stack == trace then hash[v].count else 0) + 1, trace);
      assert hash[..] == table[v := hash[v]];
      added := added + multiset{trace};
    }

    /** The loop of `Stop`: emit every entry in use. */
    method EmitTable()
      requires Buffered() && TableOk()
      modifies `out, `numEvicted, `records, evict
      ensures Buffered() && forall trace :: Count(records, trace) == added[trace]
    {
      hide EncodeAll, Stream, Header;
      assert hash[0..] == hash[..];
      for i := 0 to TABLE_SIZE
        invariant Buffered() && Balanced(hash[i..], records, added)
      {
        BalancedMove(hash[i..], records, added);
        assert hash[i..][1..] == hash[i + 1..] && GoodEntry(hash[i]);
        if hash[i].count > 0 { Evict(hash[i]); }
      }
      forall trace ensures Count(records, trace) == added[trace] {
        assert Count(hash[TABLE_SIZE..], trace) + Count(records, trace) == added[trace];
      }
    }

    /** The tail of `Stop`: end marker, final flush, memory map. */
    method Finish(maps: seq<nat>) returns (ghost profile: Profile)
      requires Buffered()
      modifies `out, `numEvicted, evict
      ensures profile == Profile(period, records, maps) && Decode(out) == Some(profile)
    {
      hide EncodeAll, Stream, Header, Decode;
      if numEvicted + 3 > BUFFER_LENGTH { FlushEvicted(); }
      Put([0, 1, 0]);
      FlushEvicted();
      assert out == Header(period) + EncodeAll(records) + TRAILER;
      out := out + maps;
      DecodeRoundTrip(period, records, maps);
      profile := Profile(period, records, maps);
    }

    /** `Stop`. The file is header, records, end marker and the memory map, it decodes to exactly
        that, and for every trace the records count the samples taken of it. */
    method Stop(maps: seq<nat>) returns (ghost profile: Profile)
      requires Valid()
      modifies this, hash, evict
      ensures Valid() && !enabled && (old(enabled) ==> numEvicted == 0)
      ensures old(enabled) ==> Decode(out) == Some(profile) && profile.period == old(period) && profile.maps == maps
      ensures old(enabled) ==> forall trace :: Count(profile.records, trace) == old(added)[trace]
    {
      hide EncodeAll, Decode, Stream, Header;
      profile := Profile(0, [], []);
      if !enabled { return; }
      EmitTable();
      profile := Finish(maps);
      enabled, numEvicted := false, 0;
      hash, evict := new Entry[0], new nat[0];
    }
  }
}
