/** The debug allocator's queue of recently freed blocks: a ring of 1024 entries, and
    `ProcessFreeQueue`, which puts a block on it and frees enough old ones to stay within a byte
    limit, in batches of four for which the lock is dropped.
 */
module FreeQueues {
  import opened Basics

  const SLOTS := 1024
  const BATCH := 4

  datatype Entry = Entry(block: nat, size: nat)

  // ----- The ring

  function Wrap(i: int): (r: nat)
    requires 0 <= i < 2 * SLOTS
    ensures r == if i < SLOTS then i else i - SLOTS
  {
    i % SLOTS
  }

  ghost function Place(back: nat, i: nat): (r: nat)
    requires back < SLOTS && i < SLOTS
    ensures r < SLOTS
  {
    Wrap(back + i)
  }

  class FreeQueue {
    const q: array<Entry>
    var front: nat
    var back: nat
    ghost var contents: seq<Entry>

    ghost predicate Valid()
      reads this, q
    {
      && q.Length == SLOTS && front < SLOTS && back < SLOTS
      && |contents| == Wrap(front - back + SLOTS)
      && forall i: nat | i < |contents| :: contents[i] == q[Place(back, i)]
    }

    constructor ()
      ensures Valid() && contents == [] && fresh(q)
    {
      q := new Entry[SLOTS](_ => Entry(0, 0));
      front, back, contents := 0, 0, [];
    }

    /** One slot always stays unused, so that a full ring can be told from an empty one. */
    function Full(): bool
      requires Valid()
      reads this, q
      ensures Full() <==> |contents| == SLOTS - 1
    {
      Wrap(front + 1) == back
    }

    method Push(e: Entry)
      requires Valid() && !Full()
      modifies this, q
      ensures Valid() && contents == old(contents) + [e]
    {
      hide Wrap;
      q[front] := e;
      front := Wrap(front + 1);
      contents := contents + [e];
    }

    method Pop() returns (e: Entry)
      requires Valid() && contents != []
      modifies this
      ensures Valid() && old(contents) == [e] + contents
    {
      hide Wrap;
      e := q[back];
      back := Wrap(back + 1);
      contents := contents[1..];
    }

    method Size() returns (n: nat)
      requires Valid()
      ensures n == |contents|
    {
      n := Wrap(front - back + SLOTS);
    }
  }

  // ----- Sizes and accounts

  /** Bytes held by queued entries, each with the queue's own overhead. */
  ghost function Total(c: seq<Entry>, overhead: nat): nat {
    if c == [] then 0 else c[0].size + overhead + Total(c[1..], overhead)
  }

  lemma {:induction false} TotalAppend(c: seq<Entry>, e: Entry, overhead: nat)
    ensures Total(c + [e], overhead) == Total(c, overhead) + e.size + overhead
  {
    if c != [] {
      TotalAppend(c[1..], e, overhead);
      assert (c + [e])[1..] == c[1..] + [e];
    } else {
      assert [e][1..] == [];
    }
  }

  lemma TotalPop(e: Entry, c: seq<Entry>, overhead: nat)
    ensures Total([e] + c, overhead) == Total(c, overhead) + e.size + overhead
  {
    assert ([e] + c)[1..] == c;
  }

  /** Of the first `n` blocks ever queued, each is waiting to be freed or has been freed, once. */
  ghost predicate Accounted(freed: seq<nat>, pending: set<nat>, n: nat) {
    && (forall i: nat :: i < n <==> i in pending || i in freed)
    && (forall i | i in freed :: i !in pending)
    && NoDup(freed)
  }

  lemma AccountPop(freed: seq<nat>, pending: set<nat>, n: nat)
    requires Accounted(freed, pending, n)
    ensures Accounted(freed, pending + {n}, n + 1) && n !in pending && n !in freed
  { }

  lemma AccountFree(freed: seq<nat>, pending: set<nat>, n: nat, i: nat)
    requires Accounted(freed, pending, n) && i in pending
    ensures Accounted(freed + [i], pending - {i}, n)
  { }

  /** The positions from `i` up to `j`. */
  ghost function Positions(i: nat, j: nat): set<nat> {
    if j <= i then {} else Positions(i, j - 1) + {j - 1}
  }

  ghost function Range(i: nat, j: nat): seq<nat> {
    if j <= i then [] else Range(i, j - 1) + [j - 1]
  }

  lemma {:induction false} PositionsAre(i: nat, j: nat)
    ensures forall k: nat :: k in Positions(i, j) <==> i <= k < j
    decreases j
  {
    if j > i { PositionsAre(i, j - 1); }
  }

  lemma OneMore(i: nat, j: nat)
    requires i <= j
    ensures Positions(i, j + 1) == Positions(i, j) + {j} && Range(i, j + 1) == Range(i, j) + [j]
    ensures Positions(i, i) == {} && Range(i, i) == []
  { }

  lemma TakenBack(base: set<nat>, i: nat, j: nat)
    requires forall x | x in base :: x < i
    ensures base + Positions(i, j) - Positions(i, j) == base
  {
    PositionsAre(i, j);
  }

  lemma {:induction false} RangeJoins(i: nat, j: nat, k: nat)
    requires i <= j <= k
    ensures Range(i, j) + Range(j, k) == Range(i, k)
    decreases k
  {
    if k > j { RangeJoins(i, j, k - 1); }
  }

  /** All blocks ever queued and ever taken off, in order, and the positions in that order that have
      been freed, in the order they were. */
  datatype History = History(pushed: seq<Entry>, popped: seq<Entry>, freed: seq<nat>)

  /** Nothing that happened is undone. */
  ghost predicate Later(was: History, now: History) {
    was.pushed <= now.pushed && was.popped <= now.popped && was.freed <= now.freed
  }

  /** The positions from `i` up to `j` are among those freed, and in that order. */
  ghost predicate FreedInOrder(freed: seq<nat>, i: nat, j: nat) {
    && (forall a | i <= a < j :: a in freed)
    && (forall a, b | i <= a < b < j :: Before(freed, a, b))
  }

  ghost predicate Before(freed: seq<nat>, a: nat, b: nat) {
    exists x, y :: 0 <= x < y < |freed| && freed[x] == a && freed[y] == b
  }

  lemma NoneFreed(freed: seq<nat>, i: nat)
    ensures FreedInOrder(freed, i, i)
  { }

  lemma FreedLater(was: seq<nat>, now: seq<nat>, i: nat, j: nat)
    requires FreedInOrder(was, i, j) && was <= now
    ensures FreedInOrder(now, i, j)
  {
    forall a | i <= a < j ensures a in now { assert a in was; }
    forall a, b | i <= a < b < j ensures Before(now, a, b) {
      assert Before(was, a, b);
      var x, y :| 0 <= x < y < |was| && was[x] == a && was[y] == b;
      assert now[x] == a && now[y] == b;
    }
  }

  lemma FreedNext(freed: seq<nat>, i: nat, j: nat)
    requires FreedInOrder(freed, i, j) && i <= j
    ensures FreedInOrder(freed + [j], i, j + 1)
  {
    FreedLater(freed, freed + [j], i, j);
    assert (freed + [j])[|freed|] == j;
    forall a | i <= a < j ensures Before(freed + [j], a, j) {
      assert a in freed;
      var x :| 0 <= x < |freed| && freed[x] == a;
      assert (freed + [j])[x] == a;
    }
  }

  lemma LaterSame(a: History)
    ensures Later(a, a)
  { }

  lemma LaterStill(a: History, b: History, c: History)
    requires Later(a, b) && Later(b, c)
    ensures Later(a, c)
  { }

  ghost predicate KeepingIsOver(popped: seq<Entry>, size: nat, queued: nat, limit: nat) {
    popped != [] && (size + popped[|popped| - 1].size > limit || queued + 1 == SLOTS - 1)
  }

  lemma RangeNone(i: nat)
    ensures Range(i, i) == []
  { }

  class Reclaimer {
    const queue: FreeQueue
    const overhead: nat
    var size: nat
    ghost var pushed: seq<Entry>
    ghost var popped: seq<Entry>
    ghost var freed: seq<nat>
    // Positions taken off but not freed yet.
    ghost var pending: set<nat>
    // Of these, the ones other threads took off.
    ghost var theirs: set<nat>

    /** Positions this thread has taken off and not freed yet. */
    ghost function Ours(): set<nat>
      reads `pending, `theirs
    {
      pending - theirs
    }

    ghost function Log(): History
      reads this
    {
      History(pushed, popped, freed)
    }

    /** While the lock is held. */
    ghost predicate Locked()
      reads this, queue, queue.q
    {
      && queue.Valid() && overhead > 0
      && pushed == popped + queue.contents
      && size == Total(queue.contents, overhead)
      && Accounted(freed, pending, |popped|) && theirs <= pending
    }

    /** While the lock is free: also, the queue is not full. */
    ghost predicate Valid()
      reads this, queue, queue.q
    {
      Locked() && !queue.Full()
    }

    constructor (overhead: nat)
      requires overhead > 0
      ensures Valid() && pushed == [] && popped == [] && Ours() == {} && fresh(queue) && fresh(queue.q)
    {
      queue := new FreeQueue();
      this.overhead := overhead;
      size, pushed, popped, freed, pending, theirs := 0, [], [], [], {}, {};
    }

    method PushBlock(e: Entry)
      requires Valid()
      modifies `size, `pushed, queue, queue.q
      ensures Locked() && pushed == old(pushed) + [e] && |queue.contents| == |old(queue.contents)| + 1
    {
      hide Total, Accounted;
      TotalAppend(queue.contents, e, overhead);
      size := size + e.size + overhead;
      queue.Push(e);
      pushed := pushed + [e];
    }

    method PopBlock() returns (e: Entry)
      requires Locked() && queue.contents != []
      modifies `size, `popped, `pending, queue
      ensures Locked() && popped == old(popped) + [e] && pending == old(pending) + {|old(popped)|} && |old(popped)| !in old(pending)
      ensures old(queue.contents) == [e] + queue.contents && old(size) == size + e.size + overhead
    {
      hide Total, Accounted;
      AccountPop(freed, pending, |popped|);
      e := queue.Pop();
      TotalPop(e, queue.contents, overhead);
      size := size - (e.size + overhead);
      pending := pending + {|popped|};
      popped := popped + [e];
    }

    /** `do_free` of the block taken off at position `i`. */
    ghost method FreeBlock(e: Entry, i: nat)
      requires Valid() && i in Ours() && i < |popped| && e == popped[i]
      modifies `freed, `pending
      ensures Valid() && freed == old(freed) + [i] && pending == old(pending) - {i}
    {
      hide Total, Accounted;
      AccountFree(freed, pending, |popped|, i);
      freed := freed + [i];
      pending := pending - {i};
    }

    lemma OursBelow()
      requires Locked()
      ensures forall i | i in Ours() :: i < |popped|
    { }

    /** Over the limit or full: there is something to take off. */
    predicate Over(limit: nat)
      requires Locked()
      reads this, queue, queue.q
    {
      size > limit || queue.Full()
    }

    /** `entries` are the last blocks taken off, and not freed. */
    ghost predicate TakenOff(entries: seq<Entry>)
      reads this
    {
      |entries| <= |popped| && entries == popped[|popped| - |entries|..] && Positions(|popped| - |entries|, |popped|) <= Ours()
    }

    /** One stretch under the lock: blocks are taken off until there are four of them or enough. */
    method Drain(limit: nat) returns (entries: seq<Entry>)
      requires Locked()
      modifies `size, `popped, `pending, queue
      ensures Locked() && |entries| <= BATCH && popped == old(popped) + entries && TakenOff(entries)
      ensures pending == old(pending) + Positions(|old(popped)|, |popped|) && Ours() == old(Ours()) + Positions(|old(popped)|, |popped|)
      ensures |entries| < BATCH ==> !Over(limit)
      ensures old(queue.contents) == entries + queue.contents
      ensures entries != [] ==> Needed(limit)
      ensures entries == [] ==> size == old(size)
    {
      entries := [];
      hide Total, Accounted, FreeQueue.Valid;
      while |entries| < BATCH && Over(limit)
        modifies `size, `popped, `pending, queue
        invariant Locked() && |entries| <= BATCH && popped == old(popped) + entries
        invariant pending == old(pending) + Positions(|old(popped)|, |popped|) && Ours() == old(Ours()) + Positions(|old(popped)|, |popped|)
        invariant old(queue.contents) == entries + queue.contents
        invariant entries != [] ==> Needed(limit)
        invariant entries == [] ==> size == old(size)
      {
        assert queue.contents != [] by { EmptyTotal(overhead); }
        var e := PopBlock();
        entries := entries + [e];
      }
    }

    // ----- Other threads

    /** One step of another thread while the lock is free: a stretch under the lock, with or without
        a block of its own to queue, or one of its blocks freed. */
    method Step()
      requires Valid()
      modifies this, queue, queue.q
      ensures Valid() && Ours() == old(Ours()) && |queue.contents| <= |old(queue.contents)| + 1
      ensures Later(old(Log()), Log())
    {
      hide Total, Accounted;
      var kind: int, e: Entry, max: int := *, *, *;
      ghost var i: int := *;
      if kind == 0 {
        if 0 <= i < |popped| && i in theirs {
          theirs := theirs - {i};
          FreeBlock(popped[i], i);
        }
      } else if 0 <= max {
        if kind == 1 { PushBlock(e); }
        var _ := Drain(max);
        theirs := theirs + (Ours() - old(Ours()));
      }
    }

    /** Nothing has happened since. */
    twostate predicate Same()
      reads this, queue
    {
      queue.contents == old(queue.contents) && size == old(size) && pushed == old(pushed) && popped == old(popped)
    }

    /** At most `others` such steps; `left` remain. */
    method Interfere(others: nat) returns (left: nat)
      requires Valid()
      modifies this, queue, queue.q
      ensures Valid() && Ours() == old(Ours()) && left <= others && |queue.contents| + left <= |old(queue.contents)| + others
      ensures Later(old(Log()), Log())
      ensures others == 0 ==> Same() && freed == old(freed)
    {
      hide Locked, Ours;
      left := others;
      while left > 0
        modifies this, queue, queue.q
        invariant Valid() && Ours() == old(Ours()) && left <= others && |queue.contents| + left <= |old(queue.contents)| + others
        invariant Later(old(Log()), Log())
        invariant others == 0 ==> Same() && freed == old(freed)
      {
        var stop: bool := *;
        if stop { return; }
        Step();
        left := left - 1;
      }
    }

    // ----- ProcessFreeQueue

    /** Free the blocks of a batch, taken off at positions from `from` on, in order, without the lock. */
    method FreeBatch(entries: seq<Entry>, others: nat, ghost from: nat) returns (left: nat)
      requires Valid() && from + |entries| <= |popped| && entries == popped[from..from + |entries|] && Positions(from, from + |entries|) <= Ours()
      modifies this, queue, queue.q
      ensures Valid() && left <= others && |queue.contents| + left <= |old(queue.contents)| + others
      ensures Later(old(Log()), Log()) && FreedInOrder(freed, from, from + |entries|)
      ensures Ours() == old(Ours()) - Positions(from, from + |entries|)
      ensures others == 0 ==> Same() && freed == old(freed) + Range(from, from + |entries|)
    {
      hide Locked, FreedInOrder, Positions, Range;
      left := others;
      ghost var to := from + |entries|;
      PositionsAre(from, to);
      NoneFreed(freed, from);
      OneMore(from, from);
      for k := 0 to |entries|
        modifies this, queue, queue.q
        invariant Valid() && left <= others && |queue.contents| + left <= |old(queue.contents)| + others
        invariant Later(old(Log()), Log()) && FreedInOrder(freed, from, from + k)
        invariant Ours() == old(Ours()) - Positions(from, from + k)
        invariant others == 0 ==> Same() && freed == old(freed) + Range(from, from + k)
      {
        ghost var i := from + k;
        PositionsAre(from, i);
        assert i in Ours() by { assert i in Positions(from, to); }
        assert entries[k] == old(popped)[i];
        ghost var soFar := freed;
        left := FreeOne(entries[k], left, i);
        FreedNext(soFar, from, i);
        FreedLater(soFar + [i], freed, from, i + 1);
        OneMore(from, i);
      }
    }

    /** One block freed, and then what others do. */
    method FreeOne(e: Entry, others: nat, ghost i: nat) returns (left: nat)
      requires Valid() && i in Ours() && i < |popped| && e == popped[i]
      modifies this, queue, queue.q
      ensures Valid() && left <= others && |queue.contents| + left <= |old(queue.contents)| + others
      ensures Later(old(Log()), Log()) && old(freed) + [i] <= freed && Ours() == old(Ours()) - {i}
      ensures others == 0 ==> Same() && freed == old(freed) + [i]
    {
      hide Locked;
      FreeBlock(e, i);
      left := Interfere(others);
    }

    /** Besides the positions of `base`, all of them earlier, this thread holds those of `entries`. */
    ghost predicate Holding(base: set<nat>, entries: seq<Entry>)
      reads this
    {
      && TakenOff(entries) && Ours() == base + Positions(|popped| - |entries|, |popped|)
      && forall x | x in base :: x < |popped| - |entries|
    }

    /** Free a batch without the lock, and take the lock for the next one. */
    method Advance(limit: nat, entries: seq<Entry>, others: nat, ghost base: set<nat>) returns (next: seq<Entry>, left: nat)
      requires Valid() && Holding(base, entries)
      modifies this, queue, queue.q
      ensures Valid() && |next| <= BATCH && Holding(base, next)
      ensures left <= others && |queue.contents| + left + |next| <= |old(queue.contents)| + others
      ensures (|next| < BATCH ==> size <= limit) && (next != [] ==> Needed(limit))
      ensures Later(old(Log()), Log()) && |old(popped)| <= |popped| - |next|
      ensures others == 0 ==> pushed == old(pushed) && popped == old(popped) + next && freed == old(freed) + Range(|old(popped)| - |entries|, |old(popped)|)
      ensures others == 0 && next == [] ==> Same()
    {
      hide Total, Accounted, Positions, Range, FreedInOrder;
      left := FinishBatch(entries, others, base);
      next := Drain(limit);
    }

    /** Free a batch; this thread is left with what it held besides. */
    method FinishBatch(entries: seq<Entry>, others: nat, ghost base: set<nat>) returns (left: nat)
      requires Valid() && Holding(base, entries)
      modifies this, queue, queue.q
      ensures Valid() && Ours() == base && left <= others && |queue.contents| + left <= |old(queue.contents)| + others
      ensures Later(old(Log()), Log())
      ensures others == 0 ==> Same() && freed == old(freed) + Range(|old(popped)| - |entries|, |old(popped)|)
    {
      hide Locked, Positions, Range, FreedInOrder;
      TakenBack(base, |popped| - |entries|, |popped|);
      left := FreeBatch(entries, others, |popped| - |entries|);
    }

    /** `ProcessFreeQueue`, while other threads take at most `others` steps in between. Whatever it
        took off is freed when it returns. Alone, it queues the block, frees the oldest blocks in the order they were queued, no more of them
        than needed, and ends within the limit. */
    method ProcessFreeQueue(b: Option<Entry>, max: int, others: nat)
      requires Valid() && -WORD < max < WORD
      modifies this, queue, queue.q
      ensures Valid() && Later(old(Log()), Log()) && old(pushed) + (if b.Some? then [b.value] else []) <= pushed && Ours() == old(Ours())
      ensures others == 0 ==> pushed == old(pushed) + if b.Some? then [b.value] else []
      ensures others == 0 && max >= 0 ==> size <= max && (popped != old(popped) ==> Needed(max))
      ensures others == 0 && max < 0 ==> size <= WORD + max && (popped != old(popped) ==> Needed(WORD + max))
      ensures others == 0 ==> freed == old(freed) + Range(|old(popped)|, |popped|)
    {
      hide Total, Accounted, Positions, Range, KeepingIsOver;
      OursBelow();
      if b.Some? { PushBlock(b.value); }
      // An `int` compared with a `size_t`: a negative limit is a very large one.
      var limit := if max < 0 then max + WORD else max;
      var entries := Drain(limit);
      Cycle(limit, entries, others, old(Ours()));
    }

    /** The rest of `ProcessFreeQueue`, from the first batch on. */
    method Cycle(limit: nat, first: seq<Entry>, others: nat, ghost base: set<nat>)
      requires Valid() && |first| <= BATCH && |first| <= |popped| && Holding(base, first)
      requires (|first| < BATCH ==> size <= limit) && (first != [] ==> Needed(limit))
      modifies this, queue, queue.q
      ensures Valid() && Later(old(Log()), Log()) && Ours() == base
      ensures others == 0 ==> pushed == old(pushed) && size <= limit
      ensures others == 0 ==> freed == old(freed) + Range(|old(popped)| - |first|, |popped|)
      ensures others == 0 && (first != [] || popped != old(popped)) ==> Needed(limit)
    {
      hide Total, Accounted, FreeQueue.Valid, Later, KeepingIsOver, Range, Holding, Ours;
      LaterSame(Log());
      RangeNone(|popped| - |first|);
      var entries, left: nat := first, others;
      ghost var from: nat := |popped| - |first|;
      while |entries| == BATCH
        modifies this, queue, queue.q
        invariant Valid() && |entries| <= BATCH && Holding(base, entries) && from <= |popped| - |entries|
        invariant (|entries| < BATCH ==> size <= limit) && (entries != [] ==> Needed(limit)) && left <= others
        invariant Later(old(Log()), Log())
        invariant others == 0 ==> pushed == old(pushed)
        invariant others == 0 ==> freed == old(freed) + Range(from, |popped| - |entries|) && (first != [] || popped != old(popped) ==> Needed(limit))
        decreases |queue.contents| + left, |entries|
      {
        RangeJoins(from, |popped| - |entries|, |popped|);
        ghost var mid := Log();
        entries, left := Advance(limit, entries, left, base);
        LaterStill(old(Log()), mid, Log());
      }
      RangeJoins(from, |popped| - |entries|, |popped|);
      ghost var mid := Log();
      left := FinishBatch(entries, left, base);
      LaterStill(old(Log()), mid, Log());
    }

    /** Keeping the last block taken off would have meant staying over the limit, or full. */
    ghost predicate Needed(limit: nat)
      requires Locked()
      reads this, queue, queue.q
    {
      KeepingIsOver(popped, size + overhead, |queue.contents|, limit)
    }
  }

  lemma EmptyTotal(overhead: nat)
    ensures Total([], overhead) == 0
  { }
}
