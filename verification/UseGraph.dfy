/** The pointer-use analysis of the instrumentation passes: which uses of an allocation are reached
    from it through casts, phis and address arithmetic, and which of those are unsafe.

    The compiler's intermediate representation appears as a finite graph of values and uses. What
    scalar evolution says of an access, and the attributes of calls, are part of the graph.
 */
module UseGraph {

  type Value = nat

  /** An argument of a call, and what its attributes promise. */
  datatype Arg = Arg(value: Value, noCapture: bool, noAccess: bool)

  datatype Kind =
    | Load | VAArg | Store(stored: Value) | Ret
    | Call(lifetime: bool, memory: bool, constantLength: bool, noAccess: bool, args: seq<Arg>)
    | Constant | Other

  /** A use: its user, whether it is the destination of a memory intrinsic, and whether the access
      made through it is within the allocation. */
  datatype Use = Use(user: Value, dest: bool, inBounds: bool)

  datatype Graph = Graph(uses: map<Value, seq<Use>>, kinds: map<Value, Kind>) {
    function UsesOf(v: Value): seq<Use> { if v in uses then uses[v] else [] }
    function KindOf(v: Value): Kind { if v in kinds then kinds[v] else Other }

    /** All users there are. */
    ghost function Users(): set<Value> { set v, i | v in uses && 0 <= i < |uses[v]| :: uses[v][i].user }

    // ----- Classification of one use

    /** A write through a destination that is not of constant length, or not within bounds. */
    ghost predicate MemUnsafe(u: Use) {
      u.dest && !(KindOf(u.user).Call? && KindOf(u.user).constantLength && u.inBounds)
    }

    ghost predicate ArgUnsafe(v: Value, call: Kind, i: nat)
      requires call.Call? && i < |call.args|
    {
      call.args[i].value == v && !(call.args[i].noCapture && (call.args[i].noAccess || call.noAccess))
    }

    ghost predicate CallUnsafe(v: Value, call: Kind)
      requires call.Call?
    {
      exists i: nat :: i < |call.args| && ArgUnsafe(v, call, i)
    }

    /** The use of `v` by `u` is unsafe. */
    ghost predicate Unsafe(v: Value, u: Use) {
      match KindOf(u.user)
      case Load => !u.inBounds
      case Store(stored) => v == stored || !u.inBounds
      case Ret => true
      case Call(lifetime, memory, _, _, _) => if memory then MemUnsafe(u) else CallUnsafe(v, KindOf(u.user))
      case _ => false
    }

    ghost predicate Lifetime(u: Use) { KindOf(u.user).Call? && KindOf(u.user).lifetime }

    ghost predicate Effect(u: Use) {
      var k := KindOf(u.user);
      k.Load? || k.Store? || k.Ret? || k.Call?
    }

    // ----- Reachability

    /** The user is another name for the pointer, or for an address made from it. */
    ghost predicate Passes(u: Use) { KindOf(u.user).Other? || KindOf(u.user).Constant? }

    ghost predicate Follows(v: Value, w: Value) {
      exists i :: 0 <= i < |UsesOf(v)| && UsesOf(v)[i].user == w && Passes(UsesOf(v)[i])
    }

    ghost predicate Path(p: seq<Value>) {
      |p| > 0 && forall i, j | 0 <= i < j < |p| && j == i + 1 :: Follows(p[i], p[j])
    }

    ghost predicate Reach(root: Value, v: Value) {
      exists p :: Path(p) && p[0] == root && p[|p| - 1] == v
    }

    ghost predicate Closed(s: set<Value>) {
      forall v, w | v in s && Follows(v, w) :: w in s
    }

    lemma ReachRoot(root: Value)
      ensures Reach(root, root)
    {
      assert Path([root]);
    }

    lemma ReachStep(root: Value, v: Value, w: Value)
      requires Reach(root, v) && Follows(v, w)
      ensures Reach(root, w)
    {
      var p :| Path(p) && p[0] == root && p[|p| - 1] == v;
      var q := p + [w];
      forall i, j | 0 <= i < j < |q| && j == i + 1 ensures Follows(q[i], q[j]) {
        if j < |p| { assert Follows(p[i], p[j]); }
      }
      assert Path(q) && q[|q| - 1] == w;
    }

    /** Whatever is made from a value reached by a user that is no load, store, return, call or
        `va_arg` is reached. */
    lemma ReachThrough(root: Value, v: Value, i: nat)
      requires Reach(root, v) && i < |UsesOf(v)|
      requires var k := KindOf(UsesOf(v)[i].user); !k.Load? && !k.VAArg? && !k.Store? && !k.Ret? && !k.Call?
      ensures Reach(root, UsesOf(v)[i].user)
    {
      assert Follows(v, UsesOf(v)[i].user);
      ReachStep(root, v, UsesOf(v)[i].user);
    }

    /** And nothing else is, besides the allocation itself. */
    lemma ReachedIsMade(root: Value, w: Value)
      requires Reach(root, w) && w != root
      ensures KindOf(w).Other? || KindOf(w).Constant?
      ensures exists v, i: nat :: Reach(root, v) && i < |UsesOf(v)| && UsesOf(v)[i].user == w
    {
      var p :| Path(p) && p[0] == root && p[|p| - 1] == w;
      var j := |p| - 1;
      assert Follows(p[j - 1], p[j]);
      var i: int :| 0 <= i < |UsesOf(p[j - 1])| && UsesOf(p[j - 1])[i].user == w && Passes(UsesOf(p[j - 1])[i]);
      var q := p[..j];
      forall a, b | 0 <= a < b < |q| && b == a + 1 ensures Follows(q[a], q[b]) { assert Follows(p[a], p[b]); }
      assert Path(q);
    }

    lemma ClosedHolds(s: set<Value>, p: seq<Value>, k: nat)
      requires Closed(s) && Path(p) && p[0] in s && k < |p|
      ensures p[k] in s
    {
      if k > 0 {
        var i := k - 1;
        ClosedHolds(s, p, i);
        assert Follows(p[i], p[k]);
      }
    }

    lemma ReachInClosed(root: Value, s: set<Value>)
      requires Closed(s) && root in s
      ensures forall v | Reach(root, v) :: v in s
    {
      forall v | Reach(root, v) ensures v in s {
        var p :| Path(p) && p[0] == root && p[|p| - 1] == v;
        ClosedHolds(s, p, |p| - 1);
      }
    }

    // ----- What the analyses are to compute

    ghost predicate Reached(root: Value, v: Value, i: nat) {
      Reach(root, v) && i < |UsesOf(v)|
    }

    /** Users of everything reached are instructions, as `IsSafeStackAlloca` takes for granted. */
    ghost predicate InstructionUsers(root: Value) {
      forall v, i: nat | Reached(root, v, i) :: !KindOf(UsesOf(v)[i].user).Constant?
    }

    ghost predicate Safe(root: Value) {
      forall v, i: nat | Reached(root, v, i) :: Lifetime(UsesOf(v)[i]) || !Unsafe(v, UsesOf(v)[i])
    }

    ghost predicate Recorded(root: Value, user: Value, v: Value) {
      exists i: nat :: Reached(root, v, i) && UsesOf(v)[i].user == user && Unsafe(v, UsesOf(v)[i])
    }

    ghost predicate Touches(root: Value, user: Value) {
      exists v, i: nat :: Reached(root, v, i) && UsesOf(v)[i].user == user && Effect(UsesOf(v)[i])
    }

    /** An allocation that is not safe has an unsafe effect, so its first one can be looked at. */
    lemma UnsafeHasEffects(root: Value)
      requires !Safe(root)
      ensures exists user, v :: Recorded(root, user, v)
    {
      var v, i: nat :| Reached(root, v, i) && !(Lifetime(UsesOf(v)[i]) || !Unsafe(v, UsesOf(v)[i]));
      assert Recorded(root, UsesOf(v)[i].user, v);
    }

    /** The converse needs that no lifetime marker is itself recorded. */
    lemma NoEffectsIffSafe(root: Value)
      ensures (forall user: Value, v: Value :: !Recorded(root, user, v)) <==>
              Safe(root) && forall v, i: nat | Reached(root, v, i) && Lifetime(UsesOf(v)[i]) :: !Unsafe(v, UsesOf(v)[i])
    {
      if forall user: Value, v: Value :: !Recorded(root, user, v) {
        forall v, i: nat | Reached(root, v, i) ensures !Unsafe(v, UsesOf(v)[i]) {
          assert !Recorded(root, UsesOf(v)[i].user, v);
        }
      }
    }

    /** Every unsafe effect is a side effect. */
    lemma RecordedTouches(root: Value, user: Value, v: Value)
      requires Recorded(root, user, v)
      ensures Touches(root, user)
    {
      var i: nat :| Reached(root, v, i) && UsesOf(v)[i].user == user && Unsafe(v, UsesOf(v)[i]);
      assert Effect(UsesOf(v)[i]);
    }
  }

  /** A lifetime marker on a safe allocation is recorded: its argument is not free of access. */
  lemma LifetimeIsRecorded()
    ensures var g := Graph(map[1 := [Use(2, false, true)]], map[2 := Call(true, false, false, false, [Arg(1, true, false)])]);
            g.Safe(1) && g.Recorded(1, 2, 1)
  {
    var g := Graph(map[1 := [Use(2, false, true)]], map[2 := Call(true, false, false, false, [Arg(1, true, false)])]);
    forall v, i: nat | g.Reached(1, v, i) ensures g.Lifetime(g.UsesOf(v)[i]) { }
    g.ReachRoot(1);
    assert g.ArgUnsafe(1, g.KindOf(2), 0);
    assert g.Reached(1, 1, 0) && g.Unsafe(1, g.UsesOf(1)[0]);
  }

  // ----- The worklist

  /** `done` has been gone through, and `v` up to its `n`-th use. */
  ghost predicate Flooding(g: Graph, root: Value, visited: set<Value>, work: seq<Value>, done: set<Value>, v: Value, n: nat) {
    && (root in done || root in work || root == v)
    && g.Reach(root, v) && (forall w | w in work || w in done :: g.Reach(root, w))
    && (forall w | w in visited :: w in g.Users() && (w in done || w in work || w == v))
    && (forall x, w | x in done && g.Follows(x, w) :: w in visited)
    && (forall i | 0 <= i < n && i < |g.UsesOf(v)| && g.Passes(g.UsesOf(v)[i]) :: g.UsesOf(v)[i].user in visited)
  }

  /** Between two values: nothing is in the middle of being gone through. */
  ghost predicate Flooded(g: Graph, root: Value, visited: set<Value>, work: seq<Value>, done: set<Value>) {
    && (root in done || root in work)
    && (forall w | w in work || w in done :: g.Reach(root, w))
    && (forall w | w in visited :: w in g.Users() && (w in done || w in work))
    && (forall x, w | x in done && g.Follows(x, w) :: w in visited)
  }

  lemma FloodStart(g: Graph, root: Value)
    ensures Flooded(g, root, {}, [root], {})
  {
    g.ReachRoot(root);
  }

  lemma FloodPop(g: Graph, root: Value, visited: set<Value>, work: seq<Value>, done: set<Value>)
    requires Flooded(g, root, visited, work, done) && work != []
    ensures Flooding(g, root, visited, work[..|work| - 1], done, work[|work| - 1], 0)
  {
    assert work == work[..|work| - 1] + [work[|work| - 1]];
  }

  lemma FloodDone(g: Graph, root: Value, visited: set<Value>, work: seq<Value>, done: set<Value>, v: Value)
    requires Flooding(g, root, visited, work, done, v, |g.UsesOf(v)|)
    ensures Flooded(g, root, visited, work, done + {v})
  { }

  /** An empty worklist means everything reached has been gone through. */
  lemma FloodEnd(g: Graph, root: Value, visited: set<Value>, done: set<Value>)
    requires Flooded(g, root, visited, [], done)
    ensures forall v :: v in done <==> g.Reach(root, v)
  {
    g.ReachInClosed(root, done);
  }

  /** Handling one use: a user the pointer passes through is queued the first time it is met. */
  method Enqueue(g: Graph, ghost root: Value, visited: set<Value>, work: seq<Value>, ghost done: set<Value>, ghost v: Value, u: Use, ghost n: nat)
    returns (visited': set<Value>, work': seq<Value>)
    requires Flooding(g, root, visited, work, done, v, n) && n < |g.UsesOf(v)| && u == g.UsesOf(v)[n]
    ensures Flooding(g, root, visited', work', done, v, n + 1)
    ensures visited <= visited' && (visited' == visited ==> work' == work)
  {
    visited', work' := visited, work;
    match g.KindOf(u.user) {
      case Load | VAArg | Store(_) | Ret | Call(_, _, _, _, _) =>
      case _ =>
        if u.user !in visited {
          assert g.Follows(v, u.user);
          g.ReachStep(root, v, u.user);
          assert v in g.uses && u.user in g.Users();
          visited', work' := visited + {u.user}, work + [u.user];
        }
    }
  }

  /** `IsMemIntrinsicSafe`. */
  method MemIntrinsicSafe(g: Graph, u: Use) returns (safe: bool)
    requires g.KindOf(u.user).Call?
    ensures safe <==> !g.MemUnsafe(u)
  {
    if !u.dest { return true; }
    if !g.KindOf(u.user).constantLength { return false; }
    safe := u.inBounds;
  }

  method HasUnsafeArg(g: Graph, v: Value, call: Kind) returns (unsafe: bool)
    requires call.Call?
    ensures unsafe <==> g.CallUnsafe(v, call)
  {
    for i := 0 to |call.args|
      invariant forall j: nat | j < i :: !g.ArgUnsafe(v, call, j)
    {
      if call.args[i].value == v && !(call.args[i].noCapture && (call.args[i].noAccess || call.noAccess)) {
        assert g.ArgUnsafe(v, call, i);
        return true;
      }
    }
    unsafe := false;
  }

  // ----- IsSafeStackAlloca

  /** One use, as `IsSafeStackAlloca` looks at it. */
  method SafeUse(g: Graph, v: Value, u: Use) returns (safe: bool)
    ensures safe <==> g.Lifetime(u) || !g.Unsafe(v, u)
  {
    var k := g.KindOf(u.user);
    match k {
      case Load => safe := u.inBounds;
      case VAArg => safe := true;
      case Store(stored) => safe := v != stored && u.inBounds;
      case Ret => safe := false;
      case Call(lifetime, memory, _, _, _) =>
        if lifetime { return true; }
        if memory {
          safe := MemIntrinsicSafe(g, u);
          return;
        }
        var unsafe := HasUnsafeArg(g, v, k);
        safe := !unsafe;
      case _ => safe := true;
    }
  }

  ghost predicate AllSafe(g: Graph, v: Value, n: nat) {
    forall i: nat | i < n && i < |g.UsesOf(v)| :: g.Lifetime(g.UsesOf(v)[i]) || !g.Unsafe(v, g.UsesOf(v)[i])
  }

  method SafeUses(g: Graph, ghost root: Value, visited: set<Value>, work: seq<Value>, ghost done: set<Value>, v: Value)
    returns (safe: bool, visited': set<Value>, work': seq<Value>)
    requires Flooding(g, root, visited, work, done, v, 0)
    ensures safe ==> Flooded(g, root, visited', work', done + {v}) && AllSafe(g, v, |g.UsesOf(v)|)
    ensures !safe ==> !g.Safe(root)
    ensures visited <= visited' && (visited' == visited ==> work' == work)
  {
    visited', work' := visited, work;
    hide Flooding, Flooded, Graph.Unsafe;
    for i := 0 to |g.UsesOf(v)|
      invariant Flooding(g, root, visited', work', done, v, i) && AllSafe(g, v, i)
      invariant visited <= visited' && (visited' == visited ==> work' == work)
    {
      var u := g.UsesOf(v)[i];
      safe := SafeUse(g, v, u);
      if !safe {
        assert g.Reached(root, v, i) by { Current(g, root, visited', work', done, v, i); }
        return;
      }
      visited', work' := Enqueue(g, root, visited', work', done, v, u, i);
    }
    FloodDone(g, root, visited', work', done, v);
    safe := true;
  }

  lemma Current(g: Graph, root: Value, visited: set<Value>, work: seq<Value>, done: set<Value>, v: Value, n: nat)
    requires Flooding(g, root, visited, work, done, v, n)
    ensures g.Reach(root, v)
  { }

  lemma VisitedUsers(g: Graph, root: Value, visited: set<Value>, work: seq<Value>, done: set<Value>)
    requires Flooded(g, root, visited, work, done)
    ensures visited <= g.Users()
  { }

  /** True iff no use that is reached is unsafe. */
  method IsSafeStackAlloca(g: Graph, root: Value) returns (safe: bool)
    requires g.InstructionUsers(root)
    ensures safe <==> g.Safe(root)
  {
    var visited: set<Value>, work := {}, [root];
    ghost var done: set<Value> := {};
    FloodStart(g, root);
    hide Flooding, Flooded, AllSafe;
    while work != []
      invariant Flooded(g, root, visited, work, done) && forall v | v in done :: AllSafe(g, v, |g.UsesOf(v)|)
      decreases g.Users() - visited, |work|
    {
      FloodPop(g, root, visited, work, done);
      var v, ok := work[|work| - 1], true;
      ghost var before := visited;
      ok, visited, work := SafeUses(g, root, visited, work[..|work| - 1], done, v);
      if !ok { return false; }
      done := done + {v};
      VisitedUsers(g, root, visited, work, done);
      assert before != visited ==> exists w :: w in visited && w !in before;
    }
    FloodEnd(g, root, visited, done);
    forall v, i: nat | g.Reached(root, v, i) ensures g.Lifetime(g.UsesOf(v)[i]) || !g.Unsafe(v, g.UsesOf(v)[i]) {
      SafeAt(g, v, i);
    }
    safe := true;
  }

  lemma SafeAt(g: Graph, v: Value, i: nat)
    requires AllSafe(g, v, |g.UsesOf(v)|) && i < |g.UsesOf(v)|
    ensures g.Lifetime(g.UsesOf(v)[i]) || !g.Unsafe(v, g.UsesOf(v)[i])
  { }

  // ----- AccumulateUnsafeSideEffects

  /** One use, as `AccumulateUnsafeSideEffects` looks at it: lifetime markers get no exemption. */
  method UnsafeUse(g: Graph, v: Value, u: Use) returns (unsafe: bool)
    ensures unsafe <==> g.Unsafe(v, u)
  {
    var k := g.KindOf(u.user);
    match k {
      case Load => unsafe := !u.inBounds;
      case Store(stored) => unsafe := v == stored || !u.inBounds;
      case Ret => unsafe := true;
      case Call(_, memory, _, _, _) =>
        if memory {
          var safe := MemIntrinsicSafe(g, u);
          return !safe;
        }
        unsafe := HasUnsafeArg(g, v, k);
      case _ => unsafe := false;
    }
  }

  ghost predicate UnsafeBelow(g: Graph, user: Value, v: Value, n: nat) {
    exists i: nat :: i < n && i < |g.UsesOf(v)| && g.UsesOf(v)[i].user == user && g.Unsafe(v, g.UsesOf(v)[i])
  }

  /** `effects` are `before` and the unsafe uses of `v` up to the `n`-th. */
  ghost predicate Collected(g: Graph, before: set<(Value, Value)>, effects: set<(Value, Value)>, v: Value, n: nat) {
    forall user: Value, w: Value :: (user, w) in effects <==> (user, w) in before || (w == v && UnsafeBelow(g, user, v, n))
  }

  lemma CollectMore(g: Graph, before: set<(Value, Value)>, effects: set<(Value, Value)>, v: Value, n: nat)
    requires Collected(g, before, effects, v, n) && n < |g.UsesOf(v)|
    ensures var u := g.UsesOf(v)[n];
            Collected(g, before, if g.Unsafe(v, u) then effects + {(u.user, v)} else effects, v, n + 1)
  {
    hide Graph.Unsafe;
    var u := g.UsesOf(v)[n];
    forall user: Value ensures UnsafeBelow(g, user, v, n + 1) <==> UnsafeBelow(g, user, v, n) || (user == u.user && g.Unsafe(v, u)) {
      if UnsafeBelow(g, user, v, n + 1) {
        var i: nat :| i < n + 1 && i < |g.UsesOf(v)| && g.UsesOf(v)[i].user == user && g.Unsafe(v, g.UsesOf(v)[i]);
      }
    }
  }

  method UnsafeUses(g: Graph, ghost root: Value, visited: set<Value>, work: seq<Value>, ghost done: set<Value>, v: Value, effects: set<(Value, Value)>)
    returns (visited': set<Value>, work': seq<Value>, effects': set<(Value, Value)>)
    requires Flooding(g, root, visited, work, done, v, 0)
    ensures Flooded(g, root, visited', work', done + {v}) && Collected(g, effects, effects', v, |g.UsesOf(v)|)
    ensures visited <= visited' && (visited' == visited ==> work' == work)
  {
    visited', work', effects' := visited, work, effects;
    hide Flooding, Flooded, Graph.Unsafe;
    for i := 0 to |g.UsesOf(v)|
      invariant Flooding(g, root, visited', work', done, v, i) && Collected(g, effects, effects', v, i)
      invariant visited <= visited' && (visited' == visited ==> work' == work)
    {
      var u := g.UsesOf(v)[i];
      CollectMore(g, effects, effects', v, i);
      var unsafe := UnsafeUse(g, v, u);
      if unsafe { effects' := effects' + {(u.user, v)}; }
      visited', work' := Enqueue(g, root, visited', work', done, v, u, i);
    }
    FloodDone(g, root, visited', work', done, v);
  }

  /** Exactly the unsafe uses that are reached, each with the value it uses. */
  method AccumulateUnsafeSideEffects(g: Graph, root: Value) returns (effects: set<(Value, Value)>)
    ensures forall user: Value, v: Value :: (user, v) in effects <==> g.Recorded(root, user, v)
    ensures !g.Safe(root) ==> effects != {}
  {
    var visited: set<Value>, work := {}, [root];
    ghost var done: set<Value> := {};
    effects := {};
    FloodStart(g, root);
    hide Flooding, Flooded, UnsafeBelow, Graph.Unsafe;
    while work != []
      invariant Flooded(g, root, visited, work, done)
      invariant forall user: Value, v: Value :: (user, v) in effects <==> v in done && UnsafeBelow(g, user, v, |g.UsesOf(v)|)
      decreases g.Users() - visited, |work|
    {
      FloodPop(g, root, visited, work, done);
      var v := work[|work| - 1];
      ghost var before := visited;
      visited, work, effects := UnsafeUses(g, root, visited, work[..|work| - 1], done, v, effects);
      done := done + {v};
      VisitedUsers(g, root, visited, work, done);
      assert before != visited ==> exists w :: w in visited && w !in before;
    }
    FloodEnd(g, root, visited, done);
    forall user: Value, v: Value ensures (user, v) in effects <==> g.Recorded(root, user, v) { RecordedIs(g, root, user, v); }
    if !g.Safe(root) {
      g.UnsafeHasEffects(root);
      ghost var user: Value, v: Value :| g.Recorded(root, user, v);
      assert (user, v) in effects;
    }
  }

  lemma RecordedIs(g: Graph, root: Value, user: Value, v: Value)
    ensures g.Recorded(root, user, v) <==> g.Reach(root, v) && UnsafeBelow(g, user, v, |g.UsesOf(v)|)
  {
    hide Graph.Unsafe;
    if g.Recorded(root, user, v) {
      var i: nat :| g.Reached(root, v, i) && g.UsesOf(v)[i].user == user && g.Unsafe(v, g.UsesOf(v)[i]);
      assert UnsafeBelow(g, user, v, |g.UsesOf(v)|);
    }
    if g.Reach(root, v) && UnsafeBelow(g, user, v, |g.UsesOf(v)|) {
      var i: nat :| i < |g.UsesOf(v)| && g.UsesOf(v)[i].user == user && g.Unsafe(v, g.UsesOf(v)[i]);
      assert g.Reached(root, v, i);
    }
  }

  // ----- AccumulateSideEffects

  ghost predicate EffectBelow(g: Graph, user: Value, v: Value, n: nat) {
    exists i: nat :: i < n && i < |g.UsesOf(v)| && g.UsesOf(v)[i].user == user && g.Effect(g.UsesOf(v)[i])
  }

  method EffectUses(g: Graph, ghost root: Value, visited: set<Value>, work: seq<Value>, ghost done: set<Value>, v: Value, effects: set<Value>)
    returns (visited': set<Value>, work': seq<Value>, effects': set<Value>)
    requires Flooding(g, root, visited, work, done, v, 0)
    ensures Flooded(g, root, visited', work', done + {v})
    ensures forall user: Value :: user in effects' <==> user in effects || EffectBelow(g, user, v, |g.UsesOf(v)|)
    ensures visited <= visited' && (visited' == visited ==> work' == work)
  {
    visited', work', effects' := visited, work, effects;
    hide Flooding, Flooded;
    for i := 0 to |g.UsesOf(v)|
      invariant Flooding(g, root, visited', work', done, v, i)
      invariant forall user: Value :: user in effects' <==> user in effects || EffectBelow(g, user, v, i)
      invariant visited <= visited' && (visited' == visited ==> work' == work)
    {
      var u := g.UsesOf(v)[i];
      ghost var before := effects';
      match g.KindOf(u.user) {
        case Load | Store(_) | Ret | Call(_, _, _, _, _) => effects' := effects' + {u.user};
        case _ =>
      }
      forall user: Value ensures user in effects' <==> user in effects || EffectBelow(g, user, v, i + 1) {
        if EffectBelow(g, user, v, i + 1) {
          ghost var j: nat :| j < i + 1 && j < |g.UsesOf(v)| && g.UsesOf(v)[j].user == user && g.Effect(g.UsesOf(v)[j]);
          assert j < i ==> EffectBelow(g, user, v, i);
        }
        assert user in before ==> user in effects || EffectBelow(g, user, v, i);
      }
      visited', work' := Enqueue(g, root, visited', work', done, v, u, i);
    }
    FloodDone(g, root, visited', work', done, v);
  }

  /** Exactly the loads, stores, returns and calls that are reached. */
  method AccumulateSideEffects(g: Graph, root: Value) returns (effects: set<Value>)
    ensures forall user: Value :: user in effects <==> g.Touches(root, user)
  {
    var visited: set<Value>, work := {}, [root];
    ghost var done: set<Value> := {};
    effects := {};
    FloodStart(g, root);
    hide Flooding, Flooded, EffectBelow;
    while work != []
      invariant Flooded(g, root, visited, work, done)
      invariant forall user: Value :: user in effects <==> exists v: Value :: v in done && EffectBelow(g, user, v, |g.UsesOf(v)|)
      decreases g.Users() - visited, |work|
    {
      FloodPop(g, root, visited, work, done);
      var v := work[|work| - 1];
      ghost var before := visited;
      visited, work, effects := EffectUses(g, root, visited, work[..|work| - 1], done, v, effects);
      done := done + {v};
      VisitedUsers(g, root, visited, work, done);
      assert before != visited ==> exists w :: w in visited && w !in before;
    }
    FloodEnd(g, root, visited, done);
    forall user: Value ensures user in effects <==> g.Touches(root, user) { TouchesIs(g, root, user, done); }
  }

  lemma TouchesIs(g: Graph, root: Value, user: Value, done: set<Value>)
    requires forall v :: v in done <==> g.Reach(root, v)
    ensures g.Touches(root, user) <==> exists v: Value :: v in done && EffectBelow(g, user, v, |g.UsesOf(v)|)
  {
    if g.Touches(root, user) {
      var v, i: nat :| g.Reached(root, v, i) && g.UsesOf(v)[i].user == user && g.Effect(g.UsesOf(v)[i]);
      assert v in done && EffectBelow(g, user, v, |g.UsesOf(v)|);
    }
    if v: Value :| v in done && EffectBelow(g, user, v, |g.UsesOf(v)|) {
      var i: nat :| i < |g.UsesOf(v)| && g.UsesOf(v)[i].user == user && g.Effect(g.UsesOf(v)[i]);
      assert g.Reached(root, v, i);
    }
  }
}
