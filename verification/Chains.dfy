/** Singly linked chains threaded through the first word of free objects. An absent word reads as
    NULL, and NULL is 0.
 */
module Chains {
  import opened Basics

  type Addr = nat
  type Words = map<Addr, Addr>

  const NULL: Addr := 0

  function Next(mem: Words, o: Addr): Addr {
    if o in mem then mem[o] else NULL
  }

  /** From `head`, the links visit exactly the objects of `c`, in order, and then stop. */
  predicate Chain(mem: Words, head: Addr, c: seq<Addr>) {
    && head == (if c == [] then NULL else c[0])
    && NULL !in c
    && (forall i, j | 0 <= i < |c| && 0 <= j < |c| && j == i + 1 :: Next(mem, c[i]) == c[j])
    && (c != [] ==> Next(mem, c[|c| - 1]) == NULL)
  }

  /** The two memories agree on `objects`. */
  ghost predicate Agree(was: Words, now: Words, objects: set<Addr>) {
    forall o | o in objects :: Next(now, o) == Next(was, o)
  }

  ghost predicate AgreeBut(was: Words, now: Words, objects: set<Addr>) {
    forall o | o !in objects :: Next(now, o) == Next(was, o)
  }

  ghost function Elements(c: seq<Addr>): set<Addr> { set o | o in c }

  /** A chain is determined by its head, so walking it is walking `c`. */
  lemma {:induction false} ChainUnique(mem: Words, head: Addr, c: seq<Addr>, d: seq<Addr>)
    requires Chain(mem, head, c) && Chain(mem, head, d)
    ensures c == d
    decreases |c|
  {
    if c != [] && d != [] {
      ChainRest(mem, head, c);
      ChainRest(mem, head, d);
      ChainUnique(mem, Next(mem, head), c[1..], d[1..]);
    }
  }

  lemma {:induction false} ChainSuffix(mem: Words, head: Addr, c: seq<Addr>, k: nat)
    requires Chain(mem, head, c) && k < |c|
    ensures Chain(mem, c[k], c[k..])
    decreases k
  {
    if k > 0 {
      ChainRest(mem, head, c);
      ChainSuffix(mem, Next(mem, head), c[1..], k - 1);
      assert c[1..][k - 1..] == c[k..];
    }
  }

  /** A chain that ends visits no object twice. */
  lemma ChainNoDup(mem: Words, head: Addr, c: seq<Addr>)
    requires Chain(mem, head, c)
    ensures NoDup(c)
  {
    forall i, j | 0 <= i < j < |c| ensures c[i] != c[j] {
      ChainSuffix(mem, head, c, i);
      ChainSuffix(mem, head, c, j);
      if c[i] == c[j] { ChainUnique(mem, c[i], c[i..], c[j..]); }
    }
  }

  lemma ChainFrame(was: Words, now: Words, head: Addr, c: seq<Addr>)
    requires Chain(was, head, c) && forall o | o in c :: Next(now, o) == Next(was, o)
    ensures Chain(now, head, c)
  { }

  lemma ChainRest(mem: Words, head: Addr, c: seq<Addr>)
    requires Chain(mem, head, c) && c != []
    ensures Chain(mem, Next(mem, head), c[1..]) && head == c[0] && head != NULL
  {
    if |c| > 1 { assert Next(mem, c[0]) == c[1]; }
  }

  /** Pushing one object: `*object = head`. */
  lemma ChainPush(mem: Words, head: Addr, c: seq<Addr>, o: Addr)
    requires Chain(mem, head, c) && o != NULL && o !in c
    ensures Chain(mem[o := head], o, [o] + c)
  {
    var d, now := [o] + c, mem[o := head];
    forall i, j | 0 <= i < j < |d| && j == i + 1 ensures Next(now, d[i]) == d[j] {
      if i > 0 { assert Next(mem, c[i - 1]) == c[j - 1]; }
    }
  }

  /** Cutting after `k` objects. */
  lemma ChainCut(mem: Words, head: Addr, c: seq<Addr>, k: nat)
    requires Chain(mem, head, c) && 0 < k <= |c|
    ensures Chain(mem[c[k - 1] := NULL], head, c[..k])
    ensures Chain(mem[c[k - 1] := NULL], Next(mem, c[k - 1]), c[k..])
  {
    ChainNoDup(mem, head, c);
    var d, now := c[k..], mem[c[k - 1] := NULL];
    assert forall i | 0 <= i < |d| :: d[i] == c[k + i] && d[i] != c[k - 1];
    forall i, j | 0 <= i < j < |d| && j == i + 1 ensures Next(now, d[i]) == d[j] {
      assert Next(mem, c[k + i]) == c[k + j];
    }
    if d != [] { assert Next(mem, c[k - 1]) == c[k]; }
    assert NULL !in d && NULL !in c[..k] by { assert forall o | o in d || o in c[..k] :: o in c; }
  }

  /** Linking the tail of one chain to the head of another, as `SLL_PushRange` does. */
  lemma ChainJoin(mem: Words, head: Addr, c: seq<Addr>, head': Addr, d: seq<Addr>)
    requires Chain(mem, head, c) && Chain(mem, head', d) && c != [] && c[|c| - 1] !in d
    ensures Chain(mem[c[|c| - 1] := head'], head, c + d)
  {
    ChainNoDup(mem, head, c);
    var e, now := c + d, mem[c[|c| - 1] := head'];
    forall i, j | 0 <= i < j < |e| && j == i + 1 ensures Next(now, e[i]) == e[j] {
      if j < |c| { assert Next(mem, c[i]) == c[j]; }
      else if i >= |c| { assert Next(mem, d[i - |c|]) == d[j - |c|]; }
    }
  }

  // ----- Objects of a span

  /** The first `k` objects of `size` bytes from `base` on. */
  ghost function Objects(base: nat, size: nat, k: nat): set<Addr> {
    if k == 0 then {} else Objects(base, size, k - 1) + {base + (k - 1) * size}
  }

  lemma {:induction false} ObjectsFacts(base: nat, size: nat, k: nat)
    requires size > 0
    ensures |Objects(base, size, k)| == k
    ensures forall o | o in Objects(base, size, k) :: base <= o && o + size <= base + k * size
  {
    if k > 0 {
      ObjectsFacts(base, size, k - 1);
      assert (k - 1) * size + size == k * size;
      assert base + (k - 1) * size !in Objects(base, size, k - 1);
    }
  }

  lemma {:induction false} NoDupSize(c: seq<Addr>)
    requires NoDup(c)
    ensures |Elements(c)| == |c|
  {
    if c != [] {
      NoDupSize(c[1..]);
      assert Elements(c) == {c[0]} + Elements(c[1..]);
    }
  }

  lemma SameSize(a: set<Addr>, b: set<Addr>)
    requires a <= b && |a| == |b|
    ensures a == b
  {
    if b - a != {} {
      var o :| o in b - a;
      Smaller(a, b - {o});
    }
    assert b == a + (b - a);
  }

  lemma {:induction false} Smaller(a: set<Addr>, b: set<Addr>)
    requires a <= b
    ensures |a| <= |b|
  {
    if a != {} {
      var o :| o in a;
      Smaller(a - {o}, b - {o});
    }
  }

  /** Distinct objects of a span that are as many as it has are all of them. */
  lemma Exhausted(c: seq<Addr>, objects: set<Addr>)
    requires NoDup(c) && (forall o | o in c :: o in objects) && |c| == |objects|
    ensures forall o | o in objects :: o in c
  {
    NoDupSize(c);
    SameSize(Elements(c), objects);
  }

  /** Distinct objects that are not all of a span's are fewer. */
  lemma NotExhausted(c: seq<Addr>, objects: set<Addr>, o: Addr)
    requires NoDup(c) && (forall x | x in c :: x in objects) && o in objects && o !in c
    ensures |c| < |objects|
  {
    NoDupSize(c);
    Smaller(Elements(c), objects - {o});
  }
}
