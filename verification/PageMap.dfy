/** `TCMalloc_PageMap3`: a three-level radix tree from page numbers to pointers.

    A root of `interior` pointers leads to nodes of `interior` pointers, which lead to leaves of
    `leafLength` values; both lengths are powers of two in the original, and nothing here depends
    on that. The map the tree stands for is `Lookup`: `None` where there is no leaf yet.
 */
module PageMaps {
  import opened Arithmetic
  import opened Basics


  type Value = nat

  const NULL: Value := 0

  // ----- Keys

  function Quo(n: nat, d: nat): nat
    requires d > 0
  {
    n / d
  }

  function Rem(n: nat, d: nat): (r: nat)
    requires d > 0
    ensures r < d
  {
    n % d
  }

  lemma SplitInjective(j: nat, k: nat, d: nat)
    requires d > 0 && Quo(j, d) == Quo(k, d) && Rem(j, d) == Rem(k, d)
    ensures j == k
  {
    Quotient(j, d);
    Quotient(k, d);
  }

  lemma SplitOf(q: nat, r: nat, d: nat)
    requires r < d
    ensures q * d + r >= 0 && Quo(q * d + r, d) == q && Rem(q * d + r, d) == r
  {
    assert q * d >= 0;
    DivModUnique(q * d + r, d, q, r);
  }

  function Capacity(interior: nat, leafLength: nat): nat { interior * interior * leafLength }

  /** The number of a key's leaf, split in turn, gives the two pointer indices. */
  lemma KeySplit(k: nat, interior: nat, leafLength: nat)
    requires interior > 0 && leafLength > 0
    ensures leafLength * interior > 0 && Quo(k, leafLength * interior) == Quo(Quo(k, leafLength), interior)
    ensures k < Capacity(interior, leafLength) <==> Quo(Quo(k, leafLength), interior) < interior
  {
    DivDiv(k, leafLength, interior);
    var b := leafLength * interior;
    Quotient(k, b);
    assert interior * interior * leafLength == interior * b by { Associative(interior, interior, leafLength); }
    ProductAtLeast(k / b - interior, b);
    ProductAtLeast(interior - k / b, b);
    assert (k / b - interior) * b == k / b * b - interior * b;
    assert (interior - k / b) * b == interior * b - k / b * b;
  }

  /** The keys of leaf `q` are those from `q * d` up to the next leaf's first. */
  lemma LeafRange(k: nat, q: nat, d: nat)
    requires d > 0
    ensures Quo(k, d) == q <==> q * d <= k < (q + 1) * d
  {
    Quotient(k, d);
    assert (q + 1) * d == q * d + d;
    if q * d <= k < (q + 1) * d { DivModUnique(k, d, q, k - q * d); }
  }

  lemma QuoMonotone(i: nat, j: nat, d: nat)
    requires d > 0 && i <= j
    ensures Quo(i, d) <= Quo(j, d)
  {
    Quotient(i, d);
    Quotient(j, d);
    ProductAtLeast(i / d - j / d, d);
    assert (i / d - j / d) * d == i / d * d - j / d * d;
  }

  lemma Between(i: nat, j: nat, k: nat, d: nat)
    requires d > 0 && i <= j < k && Quo(i, d) == Quo(k, d)
    ensures Quo(j, d) == Quo(k, d) && Rem(j, d) < Rem(k, d)
  {
    var q := Quo(k, d);
    LeafRange(i, q, d);
    LeafRange(k, q, d);
    LeafRange(j, q, d);
    Quotient(j, d);
    Quotient(k, d);
  }

  // ----- Nodes

  class Leaf {
    var values: seq<Value>

    constructor (n: nat)
      ensures values == seq(n, _ => NULL)
    {
      values := seq(n, _ => NULL);
    }
  }

  class Node {
    var ptrs: seq<Leaf?>

    constructor (n: nat)
      ensures ptrs == seq(n, _ => null)
    {
      ptrs := seq(n, _ => null);
    }
  }

  class PageMap3 {
    const interior: nat
    const leafLength: nat
    const allocWorks: bool  // the allocator never refuses
    var root: seq<Node?>
    ghost var nodes: set<Node>
    ghost var leaves: set<Leaf>

    function Size(): nat { Capacity(interior, leafLength) }

    ghost function LeafAt(q: nat): Leaf?
      reads this, nodes
    {
      if interior > 0 && Quo(q, interior) < |root| && root[Quo(q, interior)] in nodes && Rem(q, interior) < |root[Quo(q, interior)].ptrs|
      then root[Quo(q, interior)].ptrs[Rem(q, interior)] else null
    }

    ghost predicate Shaped()
      reads this, nodes
    {
      && interior > 0 && leafLength > 0 && Size() < WORD && |root| == interior
      && (forall i | 0 <= i < |root| && root[i] != null :: root[i] in nodes && |root[i].ptrs| == interior)
      && (forall i, j | 0 <= i < j < |root| && root[i] != null :: root[i] != root[j])
    }

    ghost predicate Valid()
      reads this, nodes, leaves
    {
      && Shaped()
      && (forall q: nat | LeafAt(q) != null :: LeafAt(q) in leaves && |LeafAt(q).values| == leafLength)
      && (forall q: nat, r: nat | LeafAt(q) != null && LeafAt(q) == LeafAt(r) :: q == r)
    }

    ghost function Lookup(k: nat): Option<Value>
      requires Valid()
      reads this, nodes, leaves
    {
      var leaf := LeafAt(Quo(k, leafLength));
      if leaf == null then None else Some(leaf.values[Rem(k, leafLength)])
    }

    ghost function Read(k: nat): Value
      requires Valid()
      reads this, nodes, leaves
    {
      if Lookup(k).Some? then Lookup(k).value else NULL
    }

    constructor (interior: nat, leafLength: nat, allocWorks: bool)
      requires interior > 0 && leafLength > 0 && Capacity(interior, leafLength) < WORD
      ensures Valid() && forall k: nat :: Lookup(k) == None
      ensures this.interior == interior && this.leafLength == leafLength && this.allocWorks == allocWorks && fresh(nodes) && fresh(leaves)
    {
      hide Quo, Rem, Capacity;
      this.interior, this.leafLength, this.allocWorks := interior, leafLength, allocWorks;
      root := seq(interior, _ => null);
      nodes, leaves := {}, {};
    }

    /** `get`. */
    method Get(k: nat) returns (v: Value)
      requires Valid()
      ensures v == Read(k)
    {
      hide Quo, Rem, Capacity;
      KeySplit(k, interior, leafLength);
      var i1, i2, i3 := Quo(k, leafLength * interior), Rem(Quo(k, leafLength), interior), Rem(k, leafLength);
      if k >= Size() || root[i1] == null || root[i1].ptrs[i2] == null { return NULL; }
      assert LeafAt(Quo(k, leafLength)) == root[i1].ptrs[i2];
      v := root[i1].ptrs[i2].values[i3];
    }

    /** `set`, on a key that has been ensured. */
    method Set(k: nat, v: Value)
      requires Valid() && Lookup(k).Some?
      modifies leaves
      ensures Valid() && forall j: nat :: Lookup(j) == if j == k then Some(v) else old(Lookup(j))
    {
      hide Quo, Rem, Capacity;
      KeySplit(k, interior, leafLength);
      var i1, i2, i3 := Quo(k, leafLength * interior), Rem(Quo(k, leafLength), interior), Rem(k, leafLength);
      var leaf := root[i1].ptrs[i2];
      leaf.values := leaf.values[i3 := v];
      forall j: nat | j != k ensures Lookup(j) == old(Lookup(j)) {
        if Quo(j, leafLength) == Quo(k, leafLength) && Rem(j, leafLength) == Rem(k, leafLength) { SplitInjective(j, k, leafLength); }
      }
    }

    /** Values are kept, and leaves only added, with numbers from `lo` up to `hi`. */
    twostate predicate Kept(lo: nat, hi: nat)
      requires old(Valid()) && Valid()
      reads this, nodes, leaves
    {
      && fresh(nodes - old(nodes)) && fresh(leaves - old(leaves))
      && forall k: nat :: Lookup(k) == old(Lookup(k)) || (old(Lookup(k)) == None && Lookup(k) == Some(NULL) && lo <= Quo(k, leafLength) < hi)
    }

    /** A second-level node where there is none. */
    method MakeNode(i1: nat)
      requires Valid() && i1 < interior && root[i1] == null
      modifies this
      ensures Valid() && Kept(0, 0) && leaves == old(leaves) && root[i1] != null
    {
      hide Quo, Rem, Capacity;
      var node := new Node(interior);
      root := root[i1 := node];
      nodes := nodes + {node};
      assert forall q: nat :: LeafAt(q) == old(LeafAt(q));
    }

    /** A leaf of NULLs where there is none. */
    method MakeLeaf(q: nat)
      requires Valid() && Quo(q, interior) < interior && root[Quo(q, interior)] != null && LeafAt(q) == null
      modifies this`leaves, nodes
      ensures Valid() && Kept(q, q + 1) && LeafAt(q) != null
    {
      hide Quo, Rem, Capacity;
      var leaf := new Leaf(leafLength);
      var node := root[Quo(q, interior)];
      node.ptrs := node.ptrs[Rem(q, interior) := leaf];
      leaves := leaves + {leaf};
      forall r: nat ensures LeafAt(r) == if r == q then leaf else old(LeafAt(r)) {
        if r != q && Quo(r, interior) == Quo(q, interior) && Rem(r, interior) == Rem(q, interior) { SplitInjective(r, q, interior); }
      }
    }

    /** One round of `Ensure`: a node and a leaf for `key`, unless the allocator refuses. */
    method EnsureLeaf(key: nat) returns (ok: bool)
      requires Valid() && key < Size()
      modifies this, nodes
      ensures Valid() && Kept(Quo(key, leafLength), Quo(key, leafLength) + 1)
      ensures (ok ==> forall k: nat | Quo(k, leafLength) == Quo(key, leafLength) :: Lookup(k).Some?) && (allocWorks ==> ok)
    {
      hide Quo, Rem, Capacity;
      KeySplit(key, interior, leafLength);
      var i1, i2 := Quo(key, leafLength * interior), Rem(Quo(key, leafLength), interior);
      var refuse: bool := *;
      if root[i1] == null {
        if refuse && !allocWorks { return false; }
        MakeNode(i1);
      }
      label made:
      refuse := *;
      assert LeafAt(Quo(key, leafLength)) == root[i1].ptrs[i2];
      if root[i1].ptrs[i2] == null {
        if refuse && !allocWorks { return false; }
        MakeLeaf(Quo(key, leafLength));
        assert Kept@made(Quo(key, leafLength), Quo(key, leafLength) + 1);
      }
      ok := true;
    }

    /** `start + n - 1` in 64 bits. */
    ghost function Last(start: nat, n: nat): nat {
      if start + n == 0 then WORD - 1 else if start + n > WORD then start + n - 1 - WORD else start + n - 1
    }

    /** `Ensure(start, n)`. The last key is computed in 64 bits, so a range that wraps around is taken
        as the code takes it. It succeeds only if the keys from `start` to the last, if there are
        any, fit, and always if they do and the allocator works; then all of them can be set. Leaves
        are added for that range only. */
    method Ensure(start: nat, n: nat) returns (ok: bool)
      requires Valid() && start < WORD && n < WORD
      modifies this, nodes
      ensures Valid() && Kept(Quo(start, leafLength), Quo(Last(start, n), leafLength) + 1)
      ensures start > Last(start, n) ==> Kept(0, 0)
      ensures ok ==> start <= Last(start, n) ==> Last(start, n) < Size()
      ensures allocWorks || start > Last(start, n) ==> (ok <==> (start <= Last(start, n) ==> Last(start, n) < Size()))
      ensures ok ==> forall k: nat | start <= k <= Last(start, n) :: Lookup(k).Some?
      ensures ok && n > 0 && start + n <= WORD ==> start + n <= Size() && forall k: nat | start <= k < start + n :: Lookup(k).Some?
      ensures allocWorks && n > 0 && start + n <= Size() && start + n <= WORD ==> ok
    {
      hide Quo, Rem, Capacity, LeafAt, Lookup;
      ok := EnsureTo(start, (start + n - 1) % WORD);
    }

    /** The loop of `Ensure`: a leaf for every key from `start` to `last`. */
    method EnsureTo(start: nat, last: nat) returns (ok: bool)
      requires Valid()
      modifies this, nodes
      ensures Valid() && Kept(Quo(start, leafLength), Quo(last, leafLength) + 1) && (start > last ==> Kept(0, 0))
      ensures ok ==> (start <= last ==> last < Size()) && forall k: nat | start <= k <= last :: Lookup(k).Some?
      ensures allocWorks || start > last ==> (ok <==> (start <= last ==> last < Size()))
    {
      hide Quo, Rem, Capacity, LeafAt, Lookup;
      var key := start;
      ghost var lo, hi := Quo(start, leafLength), Quo(last, leafLength) + 1;
      while key <= last
        invariant Valid() && Kept(lo, hi) && start <= key && (key > start ==> start <= last && key <= Size()) && (key == start ==> Kept(0, 0))
        invariant forall k: nat | start <= k < key :: Lookup(k).Some?
        decreases last - key
      {
        KeySplit(key, interior, leafLength);
        if Quo(key, leafLength * interior) >= interior { return false; }
        label before:
        QuoMonotone(start, key, leafLength);
        QuoMonotone(key, last, leafLength);
        var made := EnsureLeaf(key);
        assert Kept@before(lo, hi);
        if !made { return false; }
        NextLeaf(key);
        key := (Quo(key, leafLength) + 1) * leafLength;
      }
      ok := true;
    }

    /** A range of no keys: nothing is asked for, except at 0, where the last key is 2^64 - 1 and the
        call fails on every map. */
    method EnsureNone(start: nat) returns (ok: bool)
      requires Valid() && start < WORD
      modifies this, nodes
      ensures Valid() && (ok <==> start > 0)
      ensures start > 0 ==> forall k: nat :: Lookup(k) == old(Lookup(k))
    {
      hide Quo, Rem, Capacity;
      assert start > 0 ==> Last(start, 0) == start - 1;
      ok := Ensure(start, 0);
    }

    /** `Next(k)`: the value at the least key from `k` on that is not NULL. */
    method Next(k: nat) returns (v: Value, ghost at: nat)
      requires Valid()
      ensures v == NULL ==> forall j: nat | j >= k :: Read(j) == NULL
      ensures v != NULL ==> at >= k && Read(at) == v && forall j: nat | k <= j < at :: Read(j) == NULL
    {
      hide Quo, Rem, Capacity;
      var key := k;
      while key < Size()
        invariant key >= k && forall j: nat | k <= j < key :: Read(j) == NULL
        decreases Size() - key
      {
        KeySplit(key, interior, leafLength);
        var i1, i2 := Quo(key, leafLength * interior), Rem(Quo(key, leafLength), interior);
        if root[i1] == null {
          NextNode(key);
          key := (i1 + 1) * (leafLength * interior);
        } else {
          NextLeaf(key);
          var leaf := root[i1].ptrs[i2];
          assert LeafAt(Quo(key, leafLength)) == leaf;
          if leaf != null {
            v, at := SearchLeaf(key, leaf);
            if v != NULL { return; }
          }
          key := (Quo(key, leafLength) + 1) * leafLength;
        }
      }
      v, at := NULL, 0;
      forall j: nat | j >= key ensures Read(j) == NULL { KeySplit(j, interior, leafLength); }
    }

    /** The rest of the leaf of `key`. */
    method SearchLeaf(key: nat, leaf: Leaf) returns (v: Value, ghost at: nat)
      requires Valid() && LeafAt(Quo(key, leafLength)) == leaf
      ensures v == NULL ==> forall j: nat | j >= key && Quo(j, leafLength) == Quo(key, leafLength) :: Read(j) == NULL
      ensures v != NULL ==> at >= key && Read(at) == v && forall j: nat | key <= j < at :: Read(j) == NULL
    {
      ghost var base := Quo(key, leafLength) * leafLength;
      Quotient(key, leafLength);
      var i3 := Rem(key, leafLength);
      hide Quo, Rem, Capacity;
      while i3 < leafLength
        invariant Rem(key, leafLength) <= i3 <= leafLength
        invariant forall j: nat | j >= key && Quo(j, leafLength) == Quo(key, leafLength) && Rem(j, leafLength) < i3 :: Read(j) == NULL
      {
        SplitOf(Quo(key, leafLength), i3, leafLength);
        if leaf.values[i3] != NULL {
          at := base + i3;
          forall j: nat | key <= j < at ensures Read(j) == NULL { Between(key, j, at, leafLength); }
          return leaf.values[i3], at;
        }
        i3 := i3 + 1;
      }
      v, at := NULL, 0;
    }

    lemma NextNode(key: nat)
      requires Valid() && key < Size() && Quo(Quo(key, leafLength), interior) < interior && root[Quo(Quo(key, leafLength), interior)] == null
      ensures leafLength * interior > 0
      ensures var next := (Quo(key, leafLength * interior) + 1) * (leafLength * interior);
              key < next && forall j: nat | key <= j < next :: Read(j) == NULL
    {
      hide Quo, Rem, Capacity;
      KeySplit(key, interior, leafLength);
      var b := leafLength * interior;
      var i1 := Quo(key, b);
      LeafRange(key, i1, b);
      forall j: nat | key <= j < (i1 + 1) * b ensures Read(j) == NULL {
        LeafRange(j, i1, b);
        KeySplit(j, interior, leafLength);
      }
    }

    lemma NextLeaf(key: nat)
      requires Valid() && key < Size()
      ensures var next := (Quo(key, leafLength) + 1) * leafLength;
              key < next <= Size() && forall k: nat | key <= k < next :: Quo(k, leafLength) == Quo(key, leafLength)
    {
      var q := Quo(key, leafLength);
      LeafRange(key, q, leafLength);
      forall k: nat | key <= k < (q + 1) * leafLength ensures Quo(k, leafLength) == q {
        assert q * leafLength <= k;
        LeafRange(k, q, leafLength);
      }
      LastLeaf(key, interior * interior, leafLength);
    }
  }

  lemma LastLeaf(key: nat, n: nat, d: nat)
    requires d > 0 && key < n * d
    ensures (Quo(key, d) + 1) * d <= n * d
  {
    Quotient(key, d);
    if n <= Quo(key, d) { Scale(n, Quo(key, d), d); } else { Scale(Quo(key, d) + 1, n, d); }
  }
}
