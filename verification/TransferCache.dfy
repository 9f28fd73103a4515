/** The transfer cache of the central free lists, as a protocol between threads.

    Each size class has a lock, a number of used slots, a current capacity and a maximum. A
    thread inserting into a full cache tries to steal one unit of capacity from another class,
    and for that gives up its own class's lock, takes the victim's, and comes back. A step is
    what one thread does between two lock operations; reads made without a lock return
    anything. Runs interleave the steps of any number of threads arbitrarily.
 */
module TransferCache {
  import opened Basics

  datatype Class = Class(used: int, size: int, max: int, holder: Option<nat>)

  /** Where a thread is. `cl` is the class it works for, `victim` the one it steals from. */
  datatype Pc =
    | Idle
    | Enter(cl: nat)                              // InsertRange, waiting for the lock
    | Make(cl: nat)                               // MakeCacheSpace
    | Evict(cl: nat, force: bool)                 // EvictRandomSizeClass
    | Invert(cl: nat, victim: nat, force: bool)   // LockInverter: own lock dropped
    | Shrink(cl: nat, victim: nat, force: bool)   // ShrinkCache under the victim's lock
    | Drain(cl: nat, victim: nat)                 // releasing the victim's last chain
    | DrainOut(cl: nat, victim: nat)              // the same, lock dropped for the page heap
    | Revert(cl: nat, force: bool, got: bool)     // ~LockInverter: waiting for the own lock
    | Grown(cl: nat)                              // an eviction succeeded, own lock held again
    | Store(cl: nat)                              // MakeCacheSpace said yes
    | Spill(cl: nat)                              // ReleaseListToSpans of the caller's chain
    | SpillOut(cl: nat)
    | Fetch(cl: nat)                              // RemoveRange, waiting for the lock
    | Take(cl: nat)
    | TakeOut(cl: nat)                            // Populate, lock dropped
    | Refill(cl: nat)

  /** `lost` counts capacity given up by a victim that its thief could no longer use. */
  datatype State = State(classes: seq<Class>, pcs: seq<Pc>, lost: nat)

  /** The lock a thread holds: by construction never more than one. */
  ghost function Held(pc: Pc): Option<nat> {
    match pc
    case Make(c) => Some(c)
    case Evict(c, _) => Some(c)
    case Shrink(_, v, _) => Some(v)
    case Drain(_, v) => Some(v)
    case Grown(c) => Some(c)
    case Store(c) => Some(c)
    case Spill(c) => Some(c)
    case Take(c) => Some(c)
    case Refill(c) => Some(c)
    case _ => None
  }

  /** The lock a thread is waiting for. */
  ghost function Wants(pc: Pc): Option<nat> {
    match pc
    case Enter(c) => Some(c)
    case Invert(_, v, _) => Some(v)
    case DrainOut(_, v) => Some(v)
    case Revert(c, _, _) => Some(c)
    case SpillOut(c) => Some(c)
    case Fetch(c) => Some(c)
    case TakeOut(c) => Some(c)
    case _ => None
  }

  /** The thread has lowered a victim's capacity and not yet raised its own. */
  ghost predicate Owes(pc: Pc) {
    pc.Drain? || pc.DrainOut? || (pc.Revert? && pc.got) || pc.Grown?
  }

  /** A failed eviction: try once more with force, then give up. */
  function Failed(cl: nat, force: bool): Pc {
    if force then Spill(cl) else Evict(cl, true)
  }

  /** One step of thread `th`, at `pc`, touching class `c`, one of `n`, whose state is `x`. */
  ghost predicate Moves(th: nat, n: nat, c: nat, x: Class, pc: Pc, x': Class, pc': Pc, lost: nat) {
    var locked := x.(holder := Some(th));
    var unlocked := x.(holder := None);
    match pc
    case Idle => x' == x && (pc' == Enter(c) || pc' == Fetch(c)) && lost == 0
    case Enter(cl) => c == cl && x.holder == None && x' == locked && (pc' == Make(cl) || pc' == Spill(cl)) && lost == 0
    case Make(cl) => c == cl && x' == x && lost == 0 &&
      pc' == (if x.used < x.size then Store(cl) else if x.size == x.max then Spill(cl) else Evict(cl, false))
    case Evict(cl, force) => c == cl && lost == 0 &&
      ((x' == x && pc' == Failed(cl, force)) ||
       (x' == unlocked && pc'.Invert? && pc' == Invert(cl, pc'.victim, force) && pc'.victim != cl && pc'.victim < n))
    case Invert(cl, v, force) => c == v && x.holder == None && x' == locked && pc' == Shrink(cl, v, force) && lost == 0
    case Shrink(cl, v, force) => c == v && lost == 0 &&
      (if x.size == 0 || (x.used == x.size && !force) then x' == unlocked && pc' == Revert(cl, force, false)
       else if x.used == x.size then x' == x.(size := x.size - 1, used := x.used - 1) && pc' == Drain(cl, v)
       else x' == unlocked.(size := x.size - 1) && pc' == Revert(cl, force, true))
    case Drain(cl, v) => c == v && x' == unlocked && (pc' == DrainOut(cl, v) || pc' == Revert(cl, true, true)) && lost == 0
    case DrainOut(cl, v) => c == v && x.holder == None && x' == locked && pc' == Drain(cl, v) && lost == 0
    case Revert(cl, force, got) => c == cl && x.holder == None && x' == locked && lost == 0 &&
      pc' == (if got then Grown(cl) else Failed(cl, force))
    case Grown(cl) => c == cl &&
      (if x.size < x.max then x' == x.(size := x.size + 1) && pc' == Store(cl) && lost == 0
       else x' == x && pc' == Spill(cl) && lost == 1)
    case Store(cl) => c == cl && x' == unlocked.(used := x.used + 1) && pc' == Idle && lost == 0
    case Spill(cl) => c == cl && x' == unlocked && (pc' == Idle || pc' == SpillOut(cl)) && lost == 0
    case SpillOut(cl) => c == cl && x.holder == None && x' == locked && pc' == Spill(cl) && lost == 0
    case Fetch(cl) => c == cl && x.holder == None && x' == locked && pc' == Take(cl) && lost == 0
    case Take(cl) => c == cl && lost == 0 &&
      ((x.used > 0 && x' == unlocked.(used := x.used - 1) && pc' == Idle) ||
       (x' == unlocked && (pc' == Idle || pc' == TakeOut(cl))))
    case TakeOut(cl) => c == cl && x.holder == None && x' == locked && pc' == Refill(cl) && lost == 0
    case Refill(cl) => c == cl && x' == unlocked && pc' == Idle && lost == 0
  }

  ghost predicate Step(s: State, s': State, th: nat, c: nat) {
    && th < |s.pcs| == |s'.pcs| && c < |s.classes| == |s'.classes| && s.lost <= s'.lost
    && s'.classes == s.classes[c := s'.classes[c]] && s'.pcs == s.pcs[th := s'.pcs[th]]
    && Moves(th, |s.classes|, c, s.classes[c], s.pcs[th], s'.classes[c], s'.pcs[th], s'.lost - s.lost)
  }

  ghost predicate Init(s: State) {
    && (forall c | 0 <= c < |s.classes| :: s.classes[c].used == 0 <= s.classes[c].size <= s.classes[c].max && s.classes[c].holder == None)
    && (forall th | 0 <= th < |s.pcs| :: s.pcs[th] == Idle)
    && s.lost == 0
  }

  // ----- The invariant

  ghost function Capacity(classes: seq<Class>): int {
    if classes == [] then 0 else classes[0].size + Capacity(classes[1..])
  }

  ghost function Owed(pcs: seq<Pc>): nat {
    if pcs == [] then 0 else (if Owes(pcs[0]) then 1 else 0) + Owed(pcs[1..])
  }

  ghost predicate InRange(n: nat, pc: Pc) {
    && (pc != Idle ==> pc.cl < n)
    && (pc.Invert? || pc.Shrink? || pc.Drain? || pc.DrainOut? ==> pc.victim < n && pc.victim != pc.cl)
  }

  ghost predicate Bounded(x: Class) {
    0 <= x.used <= x.size <= x.max
  }

  ghost predicate Locked(s: State) {
    && (forall th | 0 <= th < |s.pcs| && Held(s.pcs[th]).Some? ::
          Held(s.pcs[th]).value < |s.classes| && s.classes[Held(s.pcs[th]).value].holder == Some(th))
    && (forall c | 0 <= c < |s.classes| && s.classes[c].holder.Some? ::
          var th := s.classes[c].holder.value; th < |s.pcs| && Held(s.pcs[th]) == Some(c))
  }

  ghost predicate Inv(s: State, total: int) {
    && (forall th | 0 <= th < |s.pcs| :: InRange(|s.classes|, s.pcs[th]))
    && (forall c | 0 <= c < |s.classes| :: Bounded(s.classes[c]))
    && StoresFit(s) && Locked(s)
    && Capacity(s.classes) + Owed(s.pcs) + s.lost == total
  }

  lemma {:induction false} CapacityUpdate(classes: seq<Class>, c: nat, x: Class)
    requires c < |classes|
    ensures Capacity(classes[c := x]) == Capacity(classes) - classes[c].size + x.size
  {
    if c > 0 {
      CapacityUpdate(classes[1..], c - 1, x);
      assert classes[c := x][1..] == classes[1..][c - 1 := x];
    } else {
      assert classes[c := x][1..] == classes[1..];
    }
  }

  lemma {:induction false} OwedUpdate(pcs: seq<Pc>, th: nat, pc: Pc)
    requires th < |pcs|
    ensures Owed(pcs[th := pc]) == Owed(pcs) - (if Owes(pcs[th]) then 1 else 0) + (if Owes(pc) then 1 else 0)
  {
    if th > 0 {
      OwedUpdate(pcs[1..], th - 1, pc);
      assert pcs[th := pc][1..] == pcs[1..][th - 1 := pc];
    } else {
      assert pcs[th := pc][1..] == pcs[1..];
    }
  }

  lemma {:induction false} OwedNone(pcs: seq<Pc>)
    requires forall th | 0 <= th < |pcs| :: pcs[th] == Idle
    ensures Owed(pcs) == 0
  {
    if pcs != [] { OwedNone(pcs[1..]); }
  }

  lemma InitInv(s: State)
    requires Init(s)
    ensures Inv(s, Capacity(s.classes))
  {
    OwedNone(s.pcs);
  }

  /** What one step does to the class and the thread it touches. */
  lemma MovesLocally(th: nat, n: nat, c: nat, x: Class, pc: Pc, x': Class, pc': Pc, lost: nat)
    requires Moves(th, n, c, x, pc, x', pc', lost) && c < n && Bounded(x) && InRange(n, pc)
    requires pc == Store(c) ==> x.used < x.size
    requires Held(pc).Some? && Held(pc).value == c ==> x.holder == Some(th)
    ensures Bounded(x') && InRange(n, pc') && (pc'.Store? ==> pc'.cl == c && x'.used < x'.size)
    ensures x'.size + (if Owes(pc') then 1 else 0) + lost == x.size + (if Owes(pc) then 1 else 0)
    ensures x' != x ==> Held(pc) == Some(c) || (x.holder == None && x' == x.(holder := Some(th)))
    ensures Held(pc').Some? ==> Held(pc').value == c && x'.holder == Some(th)
    ensures Held(pc).None? && Held(pc').None? ==> x' == x
    ensures Held(pc).Some? ==> Held(pc).value == c
    ensures Held(pc).Some? && Held(pc').None? ==> x'.holder == None
    ensures Held(pc).None? && Held(pc').Some? ==> x.holder == None
  { }

  /** Every step of every thread keeps the invariant. */
  lemma StepInv(s: State, s': State, th: nat, c: nat, total: int)
    requires Inv(s, total) && Step(s, s', th, c)
    ensures Inv(s', total)
  {
    hide Moves, Locked;
    var x, pc, x', pc' := s.classes[c], s.pcs[th], s'.classes[c], s'.pcs[th];
    LockOfHolder(s, th);
    MovesLocally(th, |s.classes|, c, x, pc, x', pc', s'.lost - s.lost);
    LocksStep(s, s', th, c);
    CapacityUpdate(s.classes, c, x');
    OwedUpdate(s.pcs, th, pc');
    StoresStep(s, s', th, c);
  }

  lemma LockOfHolder(s: State, th: nat)
    requires Locked(s) && th < |s.pcs|
    ensures Held(s.pcs[th]).Some? ==> Held(s.pcs[th]).value < |s.classes| && s.classes[Held(s.pcs[th]).value].holder == Some(th)
  { }

  lemma HolderOfLock(s: State, c: nat)
    requires Locked(s) && c < |s.classes| && s.classes[c].holder.Some?
    ensures var th := s.classes[c].holder.value; th < |s.pcs| && Held(s.pcs[th]) == Some(c)
  { }

  ghost predicate StoresFit(s: State) {
    forall th | 0 <= th < |s.pcs| && s.pcs[th].Store? ::
      s.pcs[th].cl < |s.classes| && s.classes[s.pcs[th].cl].used < s.classes[s.pcs[th].cl].size
  }

  lemma StoresStep(s: State, s': State, th: nat, c: nat)
    requires Locked(s) && StoresFit(s) && Step(s, s', th, c)
    requires s'.pcs[th].Store? ==> s'.pcs[th].cl == c && s'.classes[c].used < s'.classes[c].size
    ensures StoresFit(s')
  {
    hide Moves, Locked;
    LockOfHolder(s, th);
    forall t | 0 <= t < |s'.pcs| && s'.pcs[t].Store?
      ensures s'.pcs[t].cl < |s'.classes| && s'.classes[s'.pcs[t].cl].used < s'.classes[s'.pcs[t].cl].size {
      if t != th { OnlyHolderMoves(s, s', th, c, t); }
    }
  }

  /** A class whose lock another thread holds does not change. */
  lemma OnlyHolderMoves(s: State, s': State, th: nat, c: nat, t: nat)
    requires Locked(s) && Step(s, s', th, c) && t < |s.pcs| && t != th && Held(s.pcs[t]).Some?
    requires Held(s.pcs[th]).Some? ==> Held(s.pcs[th]).value < |s.classes|
    ensures var d := Held(s.pcs[t]).value; d < |s.classes| && s'.classes[d] == s.classes[d]
  {
    hide Moves, Locked;
    LockOfHolder(s, t);
    LockOfHolder(s, th);
    if c == Held(s.pcs[t]).value {
      LockedOut(th, |s.classes|, c, s.classes[c], s.pcs[th], s'.classes[c], s'.pcs[th], s'.lost - s.lost);
    }
  }

  lemma LockedOut(th: nat, n: nat, c: nat, x: Class, pc: Pc, x': Class, pc': Pc, lost: nat)
    requires Moves(th, n, c, x, pc, x', pc', lost) && x.holder.Some? && Held(pc) != Some(c)
    ensures x' == x
  { }

  lemma LocksStep(s: State, s': State, th: nat, c: nat)
    requires Locked(s) && Step(s, s', th, c) && InRange(|s.classes|, s.pcs[th]) && Bounded(s.classes[c])
    requires s.pcs[th] == Store(c) ==> s.classes[c].used < s.classes[c].size
    ensures Locked(s')
  {
    hide Moves;
    var x, pc, x', pc' := s.classes[c], s.pcs[th], s'.classes[c], s'.pcs[th];
    LockOfHolder(s, th);
    MovesLocally(th, |s.classes|, c, x, pc, x', pc', s'.lost - s.lost);
    forall t | 0 <= t < |s'.pcs| && Held(s'.pcs[t]).Some?
      ensures Held(s'.pcs[t]).value < |s'.classes| && s'.classes[Held(s'.pcs[t]).value].holder == Some(t) {
      if t != th {
        assert s.classes[Held(s.pcs[t]).value].holder == Some(t);
      }
    }
    forall d | 0 <= d < |s'.classes| && s'.classes[d].holder.Some?
      ensures var t := s'.classes[d].holder.value; t < |s'.pcs| && Held(s'.pcs[t]) == Some(d) {
      if d != c {
        var t := s.classes[d].holder.value;
        assert Held(s.pcs[t]) == Some(d);
      }
    }
  }

  // ----- Runs

  /** A run: a sequence of states, each got from the one before by a step of some thread. */
  ghost predicate Run(run: seq<State>) {
    && |run| > 0 && Init(run[0])
    && forall i | 0 < i < |run| :: Linked(run, i)
  }

  ghost predicate Linked(run: seq<State>, i: nat)
    requires 0 < i < |run|
  {
    Next(run[i - 1], run[i])
  }

  ghost predicate Next(s: State, s': State) {
    exists th: nat, c: nat :: Step(s, s', th, c)
  }

  lemma {:induction false} RunInv(run: seq<State>, i: nat)
    requires Run(run) && i < |run|
    ensures Inv(run[i], Capacity(run[0].classes)) && |run[i].classes| == |run[0].classes|
    decreases i
  {
    if i == 0 {
      InitInv(run[0]);
    } else {
      RunInv(run, i - 1);
      assert Linked(run, i);
      hide Step, Inv;
      var th: nat, c: nat :| Step(run[i - 1], run[i], th, c);
      StepInv(run[i - 1], run[i], th, c, Capacity(run[0].classes));
    }
  }

  /** In every state of every run: used <= capacity <= maximum for every class, no thread holds two
      locks, and the capacities together never exceed what they were at the start. */
  lemma RunSafe(run: seq<State>, i: nat)
    requires Run(run) && i < |run|
    ensures forall c | 0 <= c < |run[i].classes| :: 0 <= run[i].classes[c].used <= run[i].classes[c].size <= run[i].classes[c].max
    ensures forall c, d | 0 <= c < |run[i].classes| && 0 <= d < |run[i].classes|
              && run[i].classes[c].holder.Some? && run[i].classes[c].holder == run[i].classes[d].holder :: c == d
    ensures Capacity(run[i].classes) <= Capacity(run[0].classes)
  {
    RunInv(run, i);
    forall c | 0 <= c < |run[i].classes| ensures Bounded(run[i].classes[c]) { }
    forall c, d | 0 <= c < |run[i].classes| && 0 <= d < |run[i].classes|
      && run[i].classes[c].holder.Some? && run[i].classes[c].holder == run[i].classes[d].holder ensures c == d {
      assert Held(run[i].pcs[run[i].classes[c].holder.value]) == Some(c);
    }
  }

  /** The slot a thread stores into is free and in bounds, although its lock may have been dropped
      and retaken inside MakeCacheSpace. */
  lemma RunSlotInBounds(run: seq<State>, i: nat, th: nat, c: nat)
    requires Run(run) && 0 < i < |run| && Step(run[i - 1], run[i], th, c) && run[i - 1].pcs[th].Store?
    ensures var slot := run[i - 1].classes[c].used;
            0 <= slot < run[i - 1].classes[c].size <= run[i - 1].classes[c].max && run[i].classes[c].used == slot + 1
  {
    RunInv(run, i - 1);
    SlotInBounds(run[i - 1], run[i], th, c, Capacity(run[0].classes));
  }

  lemma SlotInBounds(s: State, s': State, th: nat, c: nat, total: int)
    requires Inv(s, total) && Step(s, s', th, c) && s.pcs[th].Store?
    ensures 0 <= s.classes[c].used < s.classes[c].size <= s.classes[c].max && s'.classes[c].used == s.classes[c].used + 1
  {
    hide Locked;
    assert Bounded(s.classes[c]);
  }

  /** Used slots and capacity of a class only change under that class's lock. */
  lemma RunGuarded(run: seq<State>, i: nat, th: nat, c: nat, d: nat)
    requires Run(run) && 0 < i < |run| && Step(run[i - 1], run[i], th, c) && d < |run[i].classes|
    requires run[i].classes[d].used != run[i - 1].classes[d].used || run[i].classes[d].size != run[i - 1].classes[d].size
    ensures run[i - 1].classes[d].holder == Some(th)
  {
    RunInv(run, i - 1);
    var s, s' := run[i - 1], run[i];
    assert d == c;
    MovesLocally(th, |s.classes|, c, s.classes[c], s.pcs[th], s'.classes[c], s'.pcs[th], s'.lost - s.lost) by {
      assert InRange(|s.classes|, s.pcs[th]) && Bounded(s.classes[c]);
      assert Held(s.pcs[th]).Some? ==> s.classes[Held(s.pcs[th]).value].holder == Some(th);
    }
    assert Held(s.pcs[th]) == Some(c);
  }

  // ----- Deadlock freedom

  /** A thread that waits for no lock can always go on. */
  lemma HolderMoves(th: nat, n: nat, c: nat, x: Class, pc: Pc) returns (x': Class, pc': Pc, lost: nat)
    requires pc != Idle && Wants(pc).None? && Held(pc) == Some(c)
    ensures Moves(th, n, c, x, pc, x', pc', lost)
  {
    var unlocked := x.(holder := None);
    x', pc', lost := unlocked, Idle, 0;
    match pc
    case Make(cl) =>
      x', pc' := x, if x.used < x.size then Store(cl) else if x.size == x.max then Spill(cl) else Evict(cl, false);
    case Evict(cl, force) => x', pc' := x, Failed(cl, force);
    case Shrink(cl, v, force) =>
      if x.size == 0 || (x.used == x.size && !force) { pc' := Revert(cl, force, false); }
      else if x.used == x.size { x', pc' := x.(size := x.size - 1, used := x.used - 1), Drain(cl, v); }
      else { x', pc' := unlocked.(size := x.size - 1), Revert(cl, force, true); }
    case Drain(cl, v) => pc' := Revert(cl, true, true);
    case Grown(cl) =>
      if x.size < x.max { x', pc' := x.(size := x.size + 1), Store(cl); } else { x', pc', lost := x, Spill(cl), 1; }
    case Store(cl) => x' := unlocked.(used := x.used + 1);
    case _ =>
  }

  /** A thread that waits for a free lock can take it. */
  lemma WaiterMoves(th: nat, n: nat, c: nat, x: Class, pc: Pc) returns (pc': Pc)
    requires Wants(pc) == Some(c) && x.holder == None
    ensures Moves(th, n, c, x, pc, x.(holder := Some(th)), pc', 0)
  {
    match pc
    case Enter(cl) => pc' := Make(cl);
    case Invert(cl, v, force) => pc' := Shrink(cl, v, force);
    case DrainOut(cl, v) => pc' := Drain(cl, v);
    case Revert(cl, force, got) => pc' := if got then Grown(cl) else Failed(cl, force);
    case SpillOut(cl) => pc' := Spill(cl);
    case Fetch(cl) => pc' := Take(cl);
    case TakeOut(cl) => pc' := Refill(cl);
  }

  /** Because no thread waits while holding a lock, some busy thread can always take a step. */
  lemma NoDeadlock(s: State, total: int, th: nat)
    requires Inv(s, total) && th < |s.pcs| && s.pcs[th] != Idle
    ensures exists t: nat, c: nat, s': State :: t < |s.pcs| && s.pcs[t] != Idle && Step(s, s', t, c)
  {
    var t := Runnable(s, total, th);
    var pc := s.pcs[t];
    hide Inv, Moves;
    if Wants(pc).Some? {
      var c := Wants(pc).value;
      var pc' := WaiterMoves(t, |s.classes|, c, s.classes[c], pc);
      StepExists(s, t, c, s.classes[c].(holder := Some(t)), pc', 0);
    } else {
      var c := Held(pc).value;
      var x', pc', lost := HolderMoves(t, |s.classes|, c, s.classes[c], pc);
      StepExists(s, t, c, x', pc', lost);
    }
  }

  lemma StepExists(s: State, t: nat, c: nat, x': Class, pc': Pc, lost: nat)
    requires t < |s.pcs| && c < |s.classes| && s.pcs[t] != Idle
    requires Moves(t, |s.classes|, c, s.classes[c], s.pcs[t], x', pc', lost)
    ensures exists t: nat, c: nat, s': State :: t < |s.pcs| && s.pcs[t] != Idle && Step(s, s', t, c)
  {
    hide Moves;
    var s' := State(s.classes[c := x'], s.pcs[t := pc'], s.lost + lost);
    assert Step(s, s', t, c);
  }

  /** A busy thread, or the holder of the lock it waits for, waits for no held lock. */
  lemma Runnable(s: State, total: int, th: nat) returns (t: nat)
    requires Inv(s, total) && th < |s.pcs| && s.pcs[th] != Idle
    ensures t < |s.pcs| && s.pcs[t] != Idle
    ensures Wants(s.pcs[t]).Some? ==> Wants(s.pcs[t]).value < |s.classes| && s.classes[Wants(s.pcs[t]).value].holder == None
    ensures Wants(s.pcs[t]).None? ==> Held(s.pcs[t]).Some? && Held(s.pcs[t]).value < |s.classes|
  {
    hide Locked, StoresFit, Capacity, Owed, Bounded;
    t := th;
    assert InRange(|s.classes|, s.pcs[th]);
    if Wants(s.pcs[th]).Some? && s.classes[Wants(s.pcs[th]).value].holder.Some? {
      HolderOfLock(s, Wants(s.pcs[th]).value);
      t := s.classes[Wants(s.pcs[th]).value].holder.value;
    }
    assert InRange(|s.classes|, s.pcs[t]);
  }
}
