/** The address map of the heap profiler: a hash table of clusters, each cluster an array of blocks,
    each block a list of the entries whose addresses fall in it.

    The class refines a plain map, its ghost field `contents`. `FindInside` answers which
    recorded range contains an address by walking blocks and clusters backwards.
 */
module AddressMap {
  import opened Basics

  const BLOCK_SIZE := 128
  const CLUSTER_BLOCKS := 8192
  const CLUSTER_SIZE := BLOCK_SIZE * CLUSTER_BLOCKS
  const HASH_SIZE := 4096

  datatype Entry<V> = Entry(key: nat, value: V)
  datatype Cluster<V> = Cluster(id: nat, blocks: seq<seq<Entry<V>>>)
  type Table<V> = seq<seq<Cluster<V>>>

  /** The top 12 of the low 32 bits of a multiplicative hash. */
  function HashInt(x: nat): (h: nat)
    ensures h < HASH_SIZE
  {
    x % 0x1_0000_0000 * 2654435769 % 0x1_0000_0000 / 0x10_0000
  }

  function BlockOf(a: nat): nat { a / BLOCK_SIZE }

  ghost function ChainOf(a: nat): nat { HashInt(a / CLUSTER_SIZE) }

  // ----- The table as a family of blocks

  /** Position of the first cluster with this id, or the length of the chain. */
  ghost function Seek<V>(chain: seq<Cluster<V>>, id: nat): (i: nat)
    ensures i <= |chain| && (i < |chain| ==> chain[i].id == id) && forall j | 0 <= j < i :: chain[j].id != id
  {
    if chain == [] || chain[0].id == id then 0 else 1 + Seek(chain[1..], id)
  }

  /** Chains hold whole clusters under their own hash, no cluster twice. */
  ghost predicate Shaped<V>(table: Table<V>) {
    && |table| == HASH_SIZE
    && (forall h, c | 0 <= h < |table| && c in table[h] :: |c.blocks| == CLUSTER_BLOCKS && HashInt(c.id) == h)
    && (forall h, i, j | 0 <= h < |table| && 0 <= i < j < |table[h]| :: table[h][i].id != table[h][j].id)
  }

  /** The entries of the `g`-th block of the address space. */
  ghost function Entries<V>(table: Table<V>, g: nat): seq<Entry<V>>
    requires Shaped(table)
  {
    var chain := table[HashInt(g / CLUSTER_BLOCKS)];
    var i := Seek(chain, g / CLUSTER_BLOCKS);
    if i == |chain| then [] else (assert chain[i] in chain; chain[i].blocks[g % CLUSTER_BLOCKS])
  }

  /** The value in the first entry for `key`. */
  ghost function Scan<V>(list: seq<Entry<V>>, key: nat): Option<V> {
    if list == [] then None else if list[0].key == key then Some(list[0].value) else Scan(list[1..], key)
  }

  ghost predicate Distinct<V>(list: seq<Entry<V>>) {
    forall i, j | 0 <= i < j < |list| :: list[i].key != list[j].key
  }

  /** A block lists keys of that block only, each once. */
  ghost predicate InBlock<V>(list: seq<Entry<V>>, g: nat) {
    Distinct(list) && forall e | e in list :: BlockOf(e.key) == g
  }

  ghost predicate Represents<V>(table: Table<V>, contents: map<nat, V>)
    requires Shaped(table)
  {
    && (forall g: nat :: InBlock(Entries(table, g), g))
    && (forall k: nat :: Scan(Entries(table, BlockOf(k)), k) == if k in contents then Some(contents[k]) else None)
  }

  lemma {:induction false} ScanFinds<V>(list: seq<Entry<V>>, key: nat)
    requires Distinct(list)
    ensures forall e | e in list && e.key == key :: Scan(list, key) == Some(e.value)
    ensures Scan(list, key).Some? ==> Entry(key, Scan(list, key).value) in list
  {
    if list != [] {
      ScanFinds(list[1..], key);
      assert forall e :: e in list <==> e == list[0] || e in list[1..];
    }
  }

  /** Entries and contents are the same thing. */
  lemma EntryIsContent<V>(table: Table<V>, contents: map<nat, V>, g: nat, key: nat, value: V)
    requires Shaped(table) && Represents(table, contents)
    ensures Entry(key, value) in Entries(table, g) <==> BlockOf(key) == g && key in contents && contents[key] == value
  {
    assert InBlock(Entries(table, g), g);
    ScanFinds(Entries(table, g), key);
    assert Scan(Entries(table, BlockOf(key)), key) == if key in contents then Some(contents[key]) else None;
  }

  // ----- Changing one block

  /** The table with another list for the `g`-th block, whose cluster is at position `i`. */
  function WithBlock<V>(table: Table<V>, g: nat, i: nat, list: seq<Entry<V>>): Table<V>
    requires HashInt(g / CLUSTER_BLOCKS) < |table| && i < |table[HashInt(g / CLUSTER_BLOCKS)]|
    requires |table[HashInt(g / CLUSTER_BLOCKS)][i].blocks| == CLUSTER_BLOCKS
  {
    var h := HashInt(g / CLUSTER_BLOCKS);
    var c := table[h][i];
    table[h := table[h][i := c.(blocks := c.blocks[g % CLUSTER_BLOCKS := list])]]
  }

  lemma {:induction false} SeekUpdate<V>(chain: seq<Cluster<V>>, i: nat, c: Cluster<V>, id: nat)
    requires i < |chain| && c.id == chain[i].id
    ensures Seek(chain[i := c], id) == Seek(chain, id)
  {
    if i > 0 {
      SeekUpdate(chain[1..], i - 1, c, id);
      assert chain[i := c][1..] == chain[1..][i - 1 := c];
    } else {
      assert chain[i := c][1..] == chain[1..];
    }
  }

  lemma WithBlockShaped<V>(table: Table<V>, g: nat, i: nat, list: seq<Entry<V>>)
    requires Shaped(table) && i == Seek(table[HashInt(g / CLUSTER_BLOCKS)], g / CLUSTER_BLOCKS) < |table[HashInt(g / CLUSTER_BLOCKS)]|
    requires table[HashInt(g / CLUSTER_BLOCKS)][i] in table[HashInt(g / CLUSTER_BLOCKS)]
    ensures Shaped(WithBlock(table, g, i, list))
  {
    var h := HashInt(g / CLUSTER_BLOCKS);
    var table': Table<V> := WithBlock(table, g, i, list);
    forall k, c | 0 <= k < |table'| && c in table'[k] ensures |c.blocks| == CLUSTER_BLOCKS && HashInt(c.id) == k {
      if k == h {
        var j :| 0 <= j < |table'[h]| && table'[h][j] == c;
        assert table[h][j] in table[h];
      }
    }
    forall k, a, b | 0 <= k < |table'| && 0 <= a < b < |table'[k]| ensures table'[k][a].id != table'[k][b].id {
      assert table[k][a].id != table[k][b].id;
    }
  }

  lemma WithBlockEntries<V>(table: Table<V>, g: nat, i: nat, list: seq<Entry<V>>, g': nat)
    requires Shaped(table) && i == Seek(table[HashInt(g / CLUSTER_BLOCKS)], g / CLUSTER_BLOCKS) < |table[HashInt(g / CLUSTER_BLOCKS)]|
    requires table[HashInt(g / CLUSTER_BLOCKS)][i] in table[HashInt(g / CLUSTER_BLOCKS)]
    ensures Shaped(WithBlock(table, g, i, list))
    ensures Entries(WithBlock(table, g, i, list), g') == if g' == g then list else Entries(table, g')
  {
    WithBlockShaped(table, g, i, list);
    var h, h' := HashInt(g / CLUSTER_BLOCKS), HashInt(g' / CLUSTER_BLOCKS);
    var c := table[h][i];
    if h == h' {
      SeekUpdate(table[h], i, c.(blocks := c.blocks[g % CLUSTER_BLOCKS := list]), g' / CLUSTER_BLOCKS);
      if g' / CLUSTER_BLOCKS == g / CLUSTER_BLOCKS {
        assert g' % CLUSTER_BLOCKS == g % CLUSTER_BLOCKS ==> g' == g;
      }
    }
  }

  function EmptyCluster<V>(id: nat): Cluster<V> {
    Cluster(id, seq(CLUSTER_BLOCKS, _ => []))
  }

  /** Adding an empty cluster changes no block. */
  lemma CreateShaped<V>(table: Table<V>, id: nat)
    requires Shaped(table) && Seek(table[HashInt(id)], id) == |table[HashInt(id)]|
    ensures Shaped(table[HashInt(id) := [EmptyCluster(id)] + table[HashInt(id)]])
  {
    var h := HashInt(id);
    var chain': seq<Cluster<V>> := [EmptyCluster(id)] + table[h];
    assert forall c | c in chain' :: c == EmptyCluster(id) || c in table[h];
    forall a, b | 0 <= a < b < |chain'| ensures chain'[a].id != chain'[b].id {
      if a == 0 { assert table[h][b - 1].id != id; }
      else { assert table[h][a - 1].id != table[h][b - 1].id; }
    }
  }

  lemma CreateEntries<V>(table: Table<V>, id: nat, g: nat)
    requires Shaped(table) && |table| == HASH_SIZE && Seek(table[HashInt(id)], id) == |table[HashInt(id)]|
    ensures var table' := table[HashInt(id) := [EmptyCluster(id)] + table[HashInt(id)]];
            Shaped(table') && Entries(table', g) == Entries(table, g)
  {
    CreateShaped(table, id);
    hide Shaped, Seek;
    SeekCons(EmptyCluster(id), table[HashInt(id)], g / CLUSTER_BLOCKS);
  }

  lemma SeekCons<V>(c: Cluster<V>, chain: seq<Cluster<V>>, id: nat)
    ensures Seek([c] + chain, id) == if c.id == id then 0 else 1 + Seek(chain, id)
  {
    assert ([c] + chain)[1..] == chain;
  }

  /** Replacing one block's list by one that says what `contents'` says. */
  lemma RepresentsUpdate<V>(table: Table<V>, contents: map<nat, V>, contents': map<nat, V>, g: nat, i: nat, list: seq<Entry<V>>)
    requires Shaped(table) && Represents(table, contents)
    requires i == Seek(table[HashInt(g / CLUSTER_BLOCKS)], g / CLUSTER_BLOCKS) < |table[HashInt(g / CLUSTER_BLOCKS)]|
    requires table[HashInt(g / CLUSTER_BLOCKS)][i] in table[HashInt(g / CLUSTER_BLOCKS)]
    requires InBlock(list, g)
    requires forall k: nat | BlockOf(k) == g :: Scan(list, k) == if k in contents' then Some(contents'[k]) else None
    requires forall k: nat | BlockOf(k) != g :: (k in contents' <==> k in contents) && (k in contents ==> contents'[k] == contents[k])
    ensures Shaped(WithBlock(table, g, i, list)) && Represents(WithBlock(table, g, i, list), contents')
  {
    WithBlockShaped(table, g, i, list);
    forall g': nat ensures InBlock(Entries(WithBlock(table, g, i, list), g'), g') {
      WithBlockEntries(table, g, i, list, g');
      assert InBlock(Entries(table, g'), g');
    }
    forall k: nat ensures Scan(Entries(WithBlock(table, g, i, list), BlockOf(k)), k) == if k in contents' then Some(contents'[k]) else None {
      WithBlockEntries(table, g, i, list, BlockOf(k));
      assert Scan(Entries(table, BlockOf(k)), k) == if k in contents then Some(contents[k]) else None;
    }
  }

  lemma {:induction false} ScanReplace<V>(list: seq<Entry<V>>, j: nat, value: V, k: nat)
    requires j < |list| && Distinct(list)
    ensures Scan(list[j := Entry(list[j].key, value)], k) == if k == list[j].key then Some(value) else Scan(list, k)
  {
    var e := Entry(list[j].key, value);
    if j > 0 {
      ScanReplace(list[1..], j - 1, value, k);
      assert list[j := e][1..] == list[1..][j - 1 := e];
      assert list[0].key != list[j].key;
    } else {
      assert list[j := e][1..] == list[1..];
    }
  }

  lemma ScanCons<V>(e: Entry<V>, list: seq<Entry<V>>, k: nat)
    ensures Scan([e] + list, k) == if e.key == k then Some(e.value) else Scan(list, k)
  {
    assert ([e] + list)[1..] == list;
  }

  lemma {:induction false} ScanAbsent<V>(list: seq<Entry<V>>, k: nat)
    requires forall j | 0 <= j < |list| :: list[j].key != k
    ensures Scan(list, k) == None
  {
    if list != [] { ScanAbsent(list[1..], k); }
  }

  lemma {:induction false} ScanRemove<V>(list: seq<Entry<V>>, j: nat, k: nat)
    requires j < |list| && Distinct(list)
    ensures Scan(list[..j] + list[j + 1..], k) == if k == list[j].key then None else Scan(list, k)
  {
    hide Scan;
    var tail := list[1..];
    assert list == [list[0]] + tail;
    ScanCons(list[0], tail, k);
    if j > 0 {
      var rest := tail[..j - 1] + tail[j..];
      ScanRemove(tail, j - 1, k);
      assert list[..j] + list[j + 1..] == [list[0]] + rest;
      ScanCons(list[0], rest, k);
      assert list[0].key != list[j].key;
    } else {
      if k == list[0].key { ScanAbsent(tail, k); }
      assert list[..0] + list[1..] == tail;
    }
  }

  // ----- Ranges

  /** `key` points at the start of the range of `k`, or inside it. */
  ghost predicate Contains<V>(contents: map<nat, V>, size: V -> nat, k: nat, key: nat) {
    k in contents && (k == key || k < key < k + size(contents[k]))
  }

  /** No key lies inside another range. */
  ghost predicate NonNested<V>(contents: map<nat, V>, size: V -> nat) {
    forall a, b | a in contents && b in contents && a < b :: a + size(contents[a]) <= b
  }

  /** How far back `FindInside` looks: to the block of `key`, or to any block ending within `maxSize` of it. */
  ghost predicate Searched(k: nat, key: nat, maxSize: nat) {
    BlockOf(k) == BlockOf(key) || key - (BlockOf(k) * BLOCK_SIZE + BLOCK_SIZE - 1) <= maxSize
  }

  /** With `maxSize` bounding every range, the search reaches every range that contains the key. */
  lemma MaxSizeSuffices<V>(contents: map<nat, V>, size: V -> nat, maxSize: nat, k: nat, key: nat)
    requires Contains(contents, size, k, key) && size(contents[k]) <= maxSize
    ensures Searched(k, key, maxSize)
  { }

  /** The first entry of a list whose range contains `key`. */
  ghost function FirstInside<V>(list: seq<Entry<V>>, size: V -> nat, key: nat): Option<nat> {
    if list == [] then None
    else if list[0].key <= key && (list[0].key == key || key < list[0].key + size(list[0].value)) then Some(list[0].key)
    else FirstInside(list[1..], size, key)
  }

  lemma {:induction false} FirstInsideAt<V>(list: seq<Entry<V>>, size: V -> nat, key: nat, j: nat)
    requires j < |list| && list[j].key <= key && (list[j].key == key || key < list[j].key + size(list[j].value))
    requires forall i | 0 <= i < j && list[i].key <= key :: list[i].key != key && list[i].key + size(list[i].value) <= key
    ensures FirstInside(list, size, key) == Some(list[j].key)
  {
    if j > 0 { FirstInsideAt(list[1..], size, key, j - 1); }
  }

  lemma {:induction false} FirstInsideIs<V>(list: seq<Entry<V>>, size: V -> nat, key: nat)
    ensures match FirstInside(list, size, key)
            case Some(k) => exists e :: e in list && e.key == k && k <= key && (k == key || key < k + size(e.value))
            case None => forall e | e in list && e.key <= key :: e.key != key && e.key + size(e.value) <= key
  {
    if list != [] {
      FirstInsideIs(list[1..], size, key);
      assert list[0] in list && forall e | e in list :: e == list[0] || e in list[1..];
      assert forall e | e in list[1..] :: e in list;
    }
  }

  /** The same keys in the same order. */
  ghost predicate SameKeys<V>(a: seq<Entry<V>>, b: seq<Entry<V>>) {
    |a| == |b| && forall i | 0 <= i < |a| :: a[i].key == b[i].key
  }

  lemma {:induction false} FirstInsideSame<V>(a: seq<Entry<V>>, b: seq<Entry<V>>, size: V -> nat, key: nat)
    requires SameKeys(a, b) && forall i | 0 <= i < |a| :: size(a[i].value) == size(b[i].value)
    ensures FirstInside(a, size, key) == FirstInside(b, size, key)
  {
    if a != [] { FirstInsideSame(a[1..], b[1..], size, key); }
  }

  ghost predicate SameOrder<V>(a: Table<V>, b: Table<V>)
    requires Shaped(a) && Shaped(b)
  {
    forall g: nat :: SameKeys(Entries(a, g), Entries(b, g))
  }

  lemma SameOrderThen<V>(a: Table<V>, b: Table<V>, c: Table<V>)
    requires Shaped(a) && Shaped(b) && Shaped(c) && SameOrder(a, b) && SameOrder(b, c)
    ensures SameOrder(a, c)
  {
    forall g: nat ensures SameKeys(Entries(a, g), Entries(c, g)) {
      assert SameKeys(Entries(a, g), Entries(b, g)) && SameKeys(Entries(b, g), Entries(c, g));
    }
  }

  class Map<V> {
    var table: Table<V>
    ghost var contents: map<nat, V>

    ghost predicate Valid()
      reads this
    {
      Shaped(table) && Represents(table, contents)
    }

    constructor ()
      ensures Valid() && contents == map[]
    {
      table, contents := seq(HASH_SIZE, _ => []), map[];
    }

    /** The search of `FindCluster`: position in its chain of the cluster of `address`. */
    method FindCluster(address: nat) returns (i: nat)
      requires Shaped(table)
      ensures i == Seek(table[HashInt(address / CLUSTER_SIZE)], address / CLUSTER_SIZE)
    {
      var id := address / CLUSTER_SIZE;
      var chain := table[HashInt(id)];
      i := 0;
      while i < |chain| && chain[i].id != id
        invariant i <= |chain| && forall j | 0 <= j < i :: chain[j].id != id
      {
        i := i + 1;
      }
    }

    /** `FindCluster` with create. */
    method MakeCluster(address: nat) returns (i: nat)
      requires Valid()
      modifies `table
      ensures Valid() && old(Shaped(table)) && SameOrder(old(table), table)
      ensures var chain := table[HashInt(address / CLUSTER_SIZE)];
              i == Seek(chain, address / CLUSTER_SIZE) < |chain| && chain[i] in chain
    {
      hide Shaped, Represents;
      i := FindCluster(address);
      var id := address / CLUSTER_SIZE;
      ShapedSize(table);
      if i == |table[HashInt(id)]| {
        CreateRepresents(table, contents, id);
        CreateOrder(table, id);
        table := table[HashInt(id) := [EmptyCluster(id)] + table[HashInt(id)]];
        ShapedSize(table);
        i := 0;
      }
    }

    lemma CreateOrder(t: Table<V>, id: nat)
      requires Shaped(t) && |t| == HASH_SIZE && Seek(t[HashInt(id)], id) == |t[HashInt(id)]|
      ensures var t' := t[HashInt(id) := [EmptyCluster(id)] + t[HashInt(id)]]; Shaped(t') && SameOrder(t, t')
    {
      hide Shaped, Seek, Entries, HashInt;
      CreateEntries(t, id, 0);
      var t' := t[HashInt(id) := [EmptyCluster(id)] + t[HashInt(id)]];
      forall g: nat ensures SameKeys(Entries(t, g), Entries(t', g)) { CreateEntries(t, id, g); }
    }

    lemma SameOrderSelf(t: Table<V>)
      requires Shaped(t)
      ensures SameOrder(t, t)
    { }

    lemma ReplaceOrder(t: Table<V>, key: nat, value: V, i: nat, j: nat, list: seq<Entry<V>>)
      requires Shaped(t)
      requires var chain := t[HashInt(key / CLUSTER_SIZE)]; i == Seek(chain, key / CLUSTER_SIZE) < |chain| && chain[i] in chain
      requires list == Entries(t, BlockOf(key)) && j < |list| && list[j].key == key
      ensures BlockOf(key) / CLUSTER_BLOCKS == key / CLUSTER_SIZE
      ensures |t[HashInt(key / CLUSTER_SIZE)][i].blocks| == CLUSTER_BLOCKS
      ensures var t' := WithBlock(t, BlockOf(key), i, list[j := Entry(key, value)]); Shaped(t') && SameOrder(t, t')
    {
      ClusterOfBlock(key);
      ShapedSize(t);
      ShapedBlocks(t, HashInt(key / CLUSTER_SIZE), i);
      hide Entries, HashInt, WithBlock, Shaped, Seek;
      var t' := WithBlock(t, BlockOf(key), i, list[j := Entry(key, value)]);
      WithBlockEntries(t, BlockOf(key), i, list[j := Entry(key, value)], 0);
      forall g: nat ensures SameKeys(Entries(t, g), Entries(t', g)) {
        WithBlockEntries(t, BlockOf(key), i, list[j := Entry(key, value)], g);
      }
    }

    lemma ShapedBlocks(t: Table<V>, h: nat, i: nat)
      requires Shaped(t) && h < |t| && i < |t[h]| && t[h][i] in t[h]
      ensures |t[h][i].blocks| == CLUSTER_BLOCKS
    { }

    lemma ShapedSize(t: Table<V>)
      requires Shaped(t)
      ensures |t| == HASH_SIZE
    { }

    lemma CreateRepresents(t: Table<V>, c: map<nat, V>, id: nat)
      requires Shaped(t) && Represents(t, c) && Seek(t[HashInt(id)], id) == |t[HashInt(id)]|
      ensures var t' := t[HashInt(id) := [EmptyCluster(id)] + t[HashInt(id)]]; Shaped(t') && Represents(t', c)
    {
      var t': Table<V> := t[HashInt(id) := [EmptyCluster(id)] + t[HashInt(id)]];
      CreateEntries(t, id, 0);
      forall g: nat ensures Entries(t', g) == Entries(t, g) { CreateEntries(t, id, g); }
      forall g: nat ensures InBlock(Entries(t', g), g) { assert InBlock(Entries(t, g), g); }
      forall k: nat ensures Scan(Entries(t', BlockOf(k)), k) == if k in c then Some(c[k]) else None {
        assert Scan(Entries(t, BlockOf(k)), k) == if k in c then Some(c[k]) else None;
      }
    }

    /** Position of the entry for `key` in a block's list, or the length of the list. */
    method FindEntry(list: seq<Entry<V>>, key: nat) returns (j: nat)
      requires Distinct(list)
      ensures j <= |list| && (j < |list| ==> list[j].key == key)
      ensures j == |list| ==> forall i | 0 <= i < |list| :: list[i].key != key
      ensures Scan(list, key) == if j < |list| then Some(list[j].value) else None
    {
      j := 0;
      while j < |list| && list[j].key != key
        invariant j <= |list| && forall i | 0 <= i < j :: list[i].key != key
      {
        j := j + 1;
      }
      if j < |list| { ScanFinds(list, key); assert list[j] in list; } else { ScanAbsent(list, key); }
    }

    /** The list of the block of `key`, given its cluster. */
    lemma BlockList(i: nat, key: nat)
      requires Valid()
      requires var chain := table[HashInt(key / CLUSTER_SIZE)]; i == Seek(chain, key / CLUSTER_SIZE) < |chain| && chain[i] in chain
      ensures BlockOf(key) / CLUSTER_BLOCKS == key / CLUSTER_SIZE
      ensures |table[HashInt(key / CLUSTER_SIZE)][i].blocks| == CLUSTER_BLOCKS
      ensures Entries(table, BlockOf(key)) == table[HashInt(key / CLUSTER_SIZE)][i].blocks[BlockOf(key) % CLUSTER_BLOCKS]
      ensures InBlock(Entries(table, BlockOf(key)), BlockOf(key))
    {
      ClusterOfBlock(key);
    }

    lemma ClusterOfBlock(key: nat)
      ensures BlockOf(key) / CLUSTER_BLOCKS == key / CLUSTER_SIZE
    { }

    /** `Find` and `FindMutable`. */
    method Find(key: nat) returns (r: Option<V>)
      requires Valid()
      ensures r == if key in contents then Some(contents[key]) else None
    {
      var i := FindCluster(key);
      var chain := table[HashInt(key / CLUSTER_SIZE)];
      ClusterOfBlock(key);
      assert Scan(Entries(table, BlockOf(key)), key) == if key in contents then Some(contents[key]) else None;
      r := None;
      if i < |chain| {
        assert chain[i] in chain;
        BlockList(i, key);
        var list := chain[i].blocks[BlockOf(key) % CLUSTER_BLOCKS];
        var j := FindEntry(list, key);
        if j < |list| { r := Some(list[j].value); }
      }
    }

    /** `Insert`: any old value for the key is forgotten, nothing else changes. */
    method Insert(key: nat, value: V)
      requires Valid()
      modifies this
      ensures Valid() && contents == old(contents)[key := value]
      ensures old(Shaped(table)) && (key in old(contents) ==> SameOrder(old(table), table))
    {
      hide Shaped, Represents, InBlock, Seek, Scan, SameOrder;
      var i := MakeCluster(key);
      BlockList(i, key);
      ShapedSize(table);
      var g := BlockOf(key);
      var list := table[HashInt(key / CLUSTER_SIZE)][i].blocks[g % CLUSTER_BLOCKS];
      assert Distinct(list) by { BlockIsDistinct(list, g); }
      var j := FindEntry(list, key);
      var list' := if j < |list| then list[j := Entry(key, value)] else [Entry(key, value)] + list;
      InsertRepresents(table, contents, key, value, i, j, list, list');
      if key in contents {
        PresentListed(table, contents, key, list, j);
        ReplaceOrder(table, key, value, i, j, list);
        SameOrderThen(old(table), table, WithBlock(table, g, i, list'));
      }
      table := WithBlock(table, g, i, list');
      contents := contents[key := value];
    }

    lemma PresentListed(t: Table<V>, c: map<nat, V>, key: nat, list: seq<Entry<V>>, j: nat)
      requires Shaped(t) && Represents(t, c) && key in c && list == Entries(t, BlockOf(key))
      requires j <= |list| && (j == |list| ==> forall i | 0 <= i < |list| :: list[i].key != key)
      ensures j < |list|
    {
      EntryIsContent(t, c, BlockOf(key), key, c[key]);
    }

    lemma BlockIsDistinct(list: seq<Entry<V>>, g: nat)
      requires InBlock(list, g)
      ensures Distinct(list)
    { }

    lemma InsertRepresents(t: Table<V>, c: map<nat, V>, key: nat, value: V, i: nat, j: nat, list: seq<Entry<V>>, list': seq<Entry<V>>)
      requires Shaped(t) && Represents(t, c)
      requires var chain := t[HashInt(key / CLUSTER_SIZE)]; i == Seek(chain, key / CLUSTER_SIZE) < |chain| && chain[i] in chain
      requires list == Entries(t, BlockOf(key)) && j <= |list| && (j < |list| ==> list[j].key == key)
      requires j == |list| ==> forall i | 0 <= i < |list| :: list[i].key != key
      requires list' == if j < |list| then list[j := Entry(key, value)] else [Entry(key, value)] + list
      ensures BlockOf(key) / CLUSTER_BLOCKS == key / CLUSTER_SIZE
      ensures |t[HashInt(key / CLUSTER_SIZE)][i].blocks| == CLUSTER_BLOCKS
      ensures var t' := WithBlock(t, BlockOf(key), i, list'); Shaped(t') && Represents(t', c[key := value])
    {
      ClusterOfBlock(key);
      var g := BlockOf(key);
      BlockSays(t, c, g);
      InsertedList(list, g, key, value, j);
      hide Represents, Scan, InBlock;
      RepresentsUpdate(t, c, c[key := value], g, i, list');
    }

    lemma InsertedList(list: seq<Entry<V>>, g: nat, key: nat, value: V, j: nat)
      requires InBlock(list, g) && BlockOf(key) == g && j <= |list| && (j < |list| ==> list[j].key == key)
      requires j == |list| ==> forall i | 0 <= i < |list| :: list[i].key != key
      ensures var list' := if j < |list| then list[j := Entry(key, value)] else [Entry(key, value)] + list;
              InBlock(list', g) && forall k: nat :: Scan(list', k) == if k == key then Some(value) else Scan(list, k)
    {
      hide Scan;
      var list' := if j < |list| then list[j := Entry(key, value)] else [Entry(key, value)] + list;
      forall k: nat ensures Scan(list', k) == if k == key then Some(value) else Scan(list, k) {
        if j < |list| { ScanReplace(list, j, value, k); } else { ScanCons(Entry(key, value), list, k); }
      }
    }

    /** `FindAndRemove`. */
    method FindAndRemove(key: nat) returns (removed: Option<V>)
      requires Valid()
      modifies this
      ensures Valid() && contents == old(contents) - {key}
      ensures removed == if key in old(contents) then Some(old(contents)[key]) else None
    {
      hide Represents, InBlock, Seek;
      removed := Find(key);
      if removed.None? { assert contents - {key} == contents; return; }
      var i := FindCluster(key);
      PresentHasCluster(table, contents, key);
      assert table[HashInt(key / CLUSTER_SIZE)][i] in table[HashInt(key / CLUSTER_SIZE)];
      BlockList(i, key);
      var g := BlockOf(key);
      var list := table[HashInt(key / CLUSTER_SIZE)][i].blocks[g % CLUSTER_BLOCKS];
      assert Distinct(list) by { BlockIsDistinct(list, g); }
      var j := FindEntry(list, key);
      RemoveRepresents(table, contents, key, i, j, list);
      table := WithBlock(table, g, i, list[..j] + list[j + 1..]);
      contents := contents - {key};
    }

    lemma PresentHasCluster(t: Table<V>, c: map<nat, V>, key: nat)
      requires Shaped(t) && Represents(t, c) && key in c
      ensures BlockOf(key) / CLUSTER_BLOCKS == key / CLUSTER_SIZE
      ensures Seek(t[HashInt(key / CLUSTER_SIZE)], key / CLUSTER_SIZE) < |t[HashInt(key / CLUSTER_SIZE)]|
      ensures Scan(Entries(t, BlockOf(key)), key) == Some(c[key])
    {
      ClusterOfBlock(key);
      assert Scan(Entries(t, BlockOf(key)), key) == Some(c[key]);
    }

    lemma RemoveRepresents(t: Table<V>, c: map<nat, V>, key: nat, i: nat, j: nat, list: seq<Entry<V>>)
      requires Shaped(t) && Represents(t, c)
      requires var chain := t[HashInt(key / CLUSTER_SIZE)]; i == Seek(chain, key / CLUSTER_SIZE) < |chain| && chain[i] in chain
      requires list == Entries(t, BlockOf(key)) && j < |list| && list[j].key == key
      ensures BlockOf(key) / CLUSTER_BLOCKS == key / CLUSTER_SIZE
      ensures |t[HashInt(key / CLUSTER_SIZE)][i].blocks| == CLUSTER_BLOCKS
      ensures var t' := WithBlock(t, BlockOf(key), i, list[..j] + list[j + 1..]); Shaped(t') && Represents(t', c - {key})
    {
      hide Represents, Scan, InBlock, Entries, WithBlock, HashInt;
      ClusterOfBlock(key);
      var g := BlockOf(key);
      BlockSays(t, c, g);
      RemovedList(list, g, j);
      RepresentsUpdate(t, c, c - {key}, g, i, list[..j] + list[j + 1..]);
    }

    lemma BlockSays(t: Table<V>, c: map<nat, V>, g: nat)
      requires Shaped(t) && Represents(t, c)
      ensures InBlock(Entries(t, g), g)
      ensures forall k: nat | BlockOf(k) == g :: Scan(Entries(t, g), k) == if k in c then Some(c[k]) else None
    {
      forall k: nat | BlockOf(k) == g ensures Scan(Entries(t, g), k) == if k in c then Some(c[k]) else None {
        assert Scan(Entries(t, BlockOf(k)), k) == if k in c then Some(c[k]) else None;
      }
    }

    lemma RemovedList(list: seq<Entry<V>>, g: nat, j: nat)
      requires InBlock(list, g) && j < |list|
      ensures var list' := list[..j] + list[j + 1..];
              InBlock(list', g) && forall k: nat :: Scan(list', k) == if k == list[j].key then None else Scan(list, k)
    {
      hide Scan;
      var list' := list[..j] + list[j + 1..];
      forall k: nat ensures Scan(list', k) == if k == list[j].key then None else Scan(list, k) {
        ScanRemove(list, j, k);
      }
    }

    /** Every key at or below `key` lies at or below the block of `num`: where the backward walk of
        `FindInside` has got to. */
    ghost predicate Above(key: nat, num: nat)
      reads this
    {
      forall k | k in contents && k <= key :: BlockOf(k) <= BlockOf(num)
    }

    /** Scan one block for a range that contains `key`. */
    method ScanBlock(list: seq<Entry<V>>, size: V -> nat, key: nat) returns (found: Option<nat>, hadSmaller: bool)
      ensures found.Some? ==> exists e :: e in list && e.key == found.value && (e.key == key || e.key < key < e.key + size(e.value))
      ensures found.None? ==> forall e | e in list && e.key <= key :: hadSmaller && e.key + size(e.value) <= key && e.key != key
      ensures found.None? && hadSmaller ==> exists e :: e in list && e.key <= key
      ensures found.Some? ==> FirstInside(list, size, key) == found
    {
      hide FirstInside;
      found, hadSmaller := None, false;
      for j := 0 to |list|
        invariant forall i | 0 <= i < j && list[i].key <= key :: hadSmaller && list[i].key + size(list[i].value) <= key && list[i].key != key
        invariant hadSmaller ==> exists e :: e in list && e.key <= key
      {
        var e := list[j];
        if e.key <= key {
          if e.key == key || key < e.key + size(e.value) {
            assert e in list;
            FirstInsideAt(list, size, key, j);
            return Some(e.key), false;
          }
          assert e in list;
          hadSmaller := true;
        }
      }
    }

    /** What `FindInside` must answer, whatever the ranges: one within reach that contains the key and
        has no key at or below `key` in a later block, if there is any. */
    ghost predicate Answer(size: V -> nat, maxSize: nat, key: nat, r: Option<nat>)
      reads this
    {
      match r
      case Some(k) => Contains(contents, size, k, key) && Searched(k, key, maxSize) && Above(key, k)
      case None => forall k: nat | Contains(contents, size, k, key) && Searched(k, key, maxSize) :: !Above(key, k)
    }

    /** With ranges that do not overlap, that is the one range within reach that contains the key, if
        there is one. */
    lemma AnswerApart(size: V -> nat, maxSize: nat, key: nat, r: Option<nat>)
      requires Answer(size, maxSize, key, r) && NonNested(contents, size)
      ensures forall k: nat :: r == Some(k) <==> Contains(contents, size, k, key) && Searched(k, key, maxSize)
    {
      forall k: nat | Contains(contents, size, k, key) ensures Above(key, k) {
        forall k' | k' in contents && k' <= key ensures BlockOf(k') <= BlockOf(k) {
          assert k' <= k;
        }
      }
      forall k: nat, k': nat | Contains(contents, size, k, key) && Contains(contents, size, k', key) ensures k == k' { }
    }

    /** The entry at `k` is the first of its block whose range contains the key. */
    ghost predicate Chosen(size: V -> nat, key: nat, k: nat)
      requires Shaped(table)
      reads this
    {
      FirstInside(Entries(table, BlockOf(k)), size, key) == Some(k)
    }

    /** What the search finds, as a function of the table: the first range that contains the key, in
        the last block with a key at or below it, if that is in reach. */
    ghost predicate Picks(size: V -> nat, maxSize: nat, key: nat, k: nat)
      requires Shaped(table)
      reads this
    {
      Contains(contents, size, k, key) && Searched(k, key, maxSize) && Above(key, k) && Chosen(size, key, k)
    }

    lemma AnswerPicks(size: V -> nat, maxSize: nat, key: nat, r: Option<nat>)
      requires Valid() && Answer(size, maxSize, key, r) && (r.Some? ==> Chosen(size, key, r.value))
      ensures forall k: nat :: r == Some(k) <==> Picks(size, maxSize, key, k)
    {
      hide Shaped, Represents, Searched, FirstInside, Entries;
      forall k: nat | Picks(size, maxSize, key, k) ensures r == Some(k) {
        if r.Some? { assert BlockOf(k) == BlockOf(r.value); }
      }
    }

    /** With ranges that do not overlap it is the range that contains the key. */
    lemma PicksApart(size: V -> nat, maxSize: nat, key: nat, k: nat)
      requires Valid() && NonNested(contents, size)
      ensures Picks(size, maxSize, key, k) <==> Contains(contents, size, k, key) && Searched(k, key, maxSize)
    {
      hide Shaped, Represents, Searched, FirstInside, Entries;
      if Contains(contents, size, k, key) {
        forall k' | k' in contents && k' <= key ensures BlockOf(k') <= BlockOf(k) { assert k' <= k; }
        var list := Entries(table, BlockOf(k));
        BlockContents(list, BlockOf(k));
        assert Entry(k, contents[k]) in list;
        FirstInsideIs(list, size, key);
      }
    }

    /** Replacing values by others of the same size changes nothing of what is found. */
    lemma PicksSame(was: Table<V>, before: map<nat, V>, size: V -> nat, maxSize: nat, key: nat, k: nat)
      requires Valid() && Shaped(was) && Represents(was, before) && SameOrder(was, table)
      requires before.Keys == contents.Keys && forall x | x in before :: size(before[x]) == size(contents[x])
      ensures Picks(size, maxSize, key, k) <==>
        Contains(before, size, k, key) && Searched(k, key, maxSize) && (forall x | x in before && x <= key :: BlockOf(x) <= BlockOf(k))
        && FirstInside(Entries(was, BlockOf(k)), size, key) == Some(k)
    {
      hide Shaped, Represents, Searched, Entries, SameOrder, FirstInside;
      BlockSame(was, before, size, key, BlockOf(k));
    }

    lemma BlockSame(was: Table<V>, before: map<nat, V>, size: V -> nat, key: nat, g: nat)
      requires Valid() && Shaped(was) && Represents(was, before) && SameOrder(was, table)
      requires before.Keys == contents.Keys && forall x | x in before :: size(before[x]) == size(contents[x])
      ensures FirstInside(Entries(was, g), size, key) == FirstInside(Entries(table, g), size, key)
    {
      hide Shaped, Represents, Entries;
      var a, b := Entries(was, g), Entries(table, g);
      assert SameKeys(a, b);
      forall i | 0 <= i < |a| ensures size(a[i].value) == size(b[i].value) {
        EntryIsContent(was, before, g, a[i].key, a[i].value);
        EntryIsContent(table, contents, g, b[i].key, b[i].value);
        assert a[i] in a && b[i] in b;
      }
      FirstInsideSame(a, b, size, key);
    }

    /** `num` is where the walk may be: at the key itself, or at the end of an earlier block in reach. */
    ghost predicate InReach(num: nat, key: nat, maxSize: nat) {
      num == key || (num < key && num % BLOCK_SIZE == BLOCK_SIZE - 1 && key - num <= maxSize)
    }

    /** A key below in this block, which has no range that contains `key`, ends the search. */
    lemma SmallerKeyEnds(size: V -> nat, maxSize: nat, key: nat, num: nat, e: nat)
      requires Above(key, num) && e in contents && e <= key && BlockOf(e) == BlockOf(num)
      requires forall k | k in contents && k <= key && BlockOf(k) == BlockOf(num) :: k + size(contents[k]) <= key && k != key
      ensures Answer(size, maxSize, key, None)
    {
      forall k: nat | Contains(contents, size, k, key) ensures !Above(key, k) {
        assert BlockOf(k) < BlockOf(e);
      }
    }

    /** Past the reach of the search nothing can be found. */
    lemma OutOfReach(size: V -> nat, maxSize: nat, key: nat, num: nat)
      requires Above(key, num) && num < key && num % BLOCK_SIZE == BLOCK_SIZE - 1 && key - num > maxSize
      ensures Answer(size, maxSize, key, None)
    {
      forall k: nat | Contains(contents, size, k, key) ensures !Searched(k, key, maxSize) {
        assert BlockOf(k) <= BlockOf(num);
        assert num == BlockOf(num) * BLOCK_SIZE + BLOCK_SIZE - 1;
      }
    }

    /** With nothing at or below `key` in this block, the walk moves one block back. */
    lemma PreviousBlock(key: nat, num: nat)
      requires Above(key, num) && num <= key && BlockOf(num) > 0
      requires forall k | k in contents && k <= key :: BlockOf(k) != BlockOf(num)
      ensures var num' := BlockOf(num) * BLOCK_SIZE - 1;
              num' < num && num' % BLOCK_SIZE == BLOCK_SIZE - 1 && BlockOf(num') == BlockOf(num) - 1 && Above(key, num')
    {
      var num' := BlockOf(num) * BLOCK_SIZE - 1;
      assert num' == (BlockOf(num) - 1) * BLOCK_SIZE + (BLOCK_SIZE - 1);
    }

    /** The entries of a block are the contents at its keys. */
    lemma BlockContents(list: seq<Entry<V>>, g: nat)
      requires Valid() && list == Entries(table, g)
      ensures forall e | e in list :: e.key in contents && contents[e.key] == e.value && BlockOf(e.key) == g
      ensures forall k | k in contents && BlockOf(k) == g :: Entry(k, contents[k]) in list
    {
      hide Represents;
      forall e | e in list ensures e.key in contents && contents[e.key] == e.value && BlockOf(e.key) == g {
        EntryIsContent(table, contents, g, e.key, e.value);
      }
      forall k | k in contents && BlockOf(k) == g ensures Entry(k, contents[k]) in list {
        EntryIsContent(table, contents, g, k, contents[k]);
      }
    }

    /** One block of the walk. Without an answer, nothing at or below `key` lies in this block. */
    method VisitBlock(i: nat, size: V -> nat, maxSize: nat, key: nat, num: nat) returns (done: bool, r: Option<nat>)
      requires Valid() && Above(key, num) && InReach(num, key, maxSize)
      requires var chain := table[HashInt(num / CLUSTER_SIZE)]; i == Seek(chain, num / CLUSTER_SIZE) < |chain| && chain[i] in chain
      ensures done ==> Answer(size, maxSize, key, r) && (r.Some? ==> Chosen(size, key, r.value))
      ensures !done ==> forall k | k in contents && k <= key :: BlockOf(k) != BlockOf(num)
    {
      hide Represents, Shaped;
      BlockList(i, num);
      ShapedSize(table);
      var list := table[HashInt(num / CLUSTER_SIZE)][i].blocks[BlockOf(num) % CLUSTER_BLOCKS];
      BlockContents(list, BlockOf(num));
      var found, hadSmaller := ScanBlock(list, size, key);
      if found.Some? { return true, found; }
      if hadSmaller {
        ghost var e :| e in list && e.key <= key;
        SmallerKeyEnds(size, maxSize, key, num, e.key);
        return true, None;
      }
      return false, None;
    }

    /** The inner loop: back through the blocks of one cluster. */
    method WalkCluster(i: nat, size: V -> nat, maxSize: nat, key: nat, num0: nat) returns (done: bool, r: Option<nat>, num: nat)
      requires Valid() && num0 <= key && Above(key, num0) && InReach(num0, key, maxSize)
      requires var chain := table[HashInt(num0 / CLUSTER_SIZE)]; i == Seek(chain, num0 / CLUSTER_SIZE) < |chain| && chain[i] in chain
      ensures done ==> Answer(size, maxSize, key, r) && (r.Some? ==> Chosen(size, key, r.value))
      ensures !done ==> num <= num0 && num / CLUSTER_SIZE == num0 / CLUSTER_SIZE && forall k | k in contents && k <= key :: k / CLUSTER_SIZE < num / CLUSTER_SIZE
    {
      hide Represents, Shaped, Answer;
      num := num0;
      while true
        invariant num <= num0 && num / CLUSTER_SIZE == num0 / CLUSTER_SIZE && Above(key, num) && InReach(num, key, maxSize)
        decreases num
      {
        done, r := VisitBlock(i, size, maxSize, key, num);
        if done { return; }
        if BlockOf(num) % CLUSTER_BLOCKS == 0 {
          FirstBlock(key, num);
          return;
        }
        PreviousBlock(key, num);
        SameCluster(num);
        num := BlockOf(num) * BLOCK_SIZE - 1;
        if key - num > maxSize {
          OutOfReach(size, maxSize, key, num);
          return true, None, num;
        }
      }
    }

    /** Below the first block of a cluster lie only earlier clusters. */
    lemma FirstBlock(key: nat, num: nat)
      requires Above(key, num) && BlockOf(num) % CLUSTER_BLOCKS == 0
      requires forall k | k in contents && k <= key :: BlockOf(k) != BlockOf(num)
      ensures forall k | k in contents && k <= key :: k / CLUSTER_SIZE < num / CLUSTER_SIZE
    {
      ClusterOfBlock(num);
      forall k | k in contents && k <= key ensures k / CLUSTER_SIZE < num / CLUSTER_SIZE {
        ClusterOfBlock(k);
        assert BlockOf(k) < BlockOf(num);
      }
    }

    lemma SameCluster(num: nat)
      requires BlockOf(num) % CLUSTER_BLOCKS != 0
      ensures BlockOf(num) > 0 && (BlockOf(num) * BLOCK_SIZE - 1) / CLUSTER_SIZE == num / CLUSTER_SIZE
    {
      ClusterOfBlock(num);
      ClusterOfBlock(BlockOf(num) * BLOCK_SIZE - 1);
      assert BlockOf(BlockOf(num) * BLOCK_SIZE - 1) == BlockOf(num) - 1;
    }

    /** The end of the previous cluster is where earlier keys can still be. */
    lemma PreviousCluster(key: nat, num: nat)
      requires num <= key && num >= CLUSTER_SIZE && forall k | k in contents && k <= key :: k / CLUSTER_SIZE < num / CLUSTER_SIZE
      ensures var num' := num / CLUSTER_SIZE * CLUSTER_SIZE - 1;
              0 <= num' < num && num' % BLOCK_SIZE == BLOCK_SIZE - 1 && Above(key, num')
    {
      var q := num / CLUSTER_SIZE;
      assert q * CLUSTER_SIZE - 1 == (q * CLUSTER_BLOCKS - 1) * BLOCK_SIZE + (BLOCK_SIZE - 1);
      assert BlockOf(q * CLUSTER_SIZE - 1) == q * CLUSTER_BLOCKS - 1;
      forall k | k in contents && k <= key ensures BlockOf(k) <= q * CLUSTER_BLOCKS - 1 {
        ClusterOfBlock(k);
      }
    }

    /** A cluster that is not in the table has no keys. */
    lemma MissingCluster(key: nat, num: nat)
      requires Valid() && Above(key, num)
      requires var chain := table[HashInt(num / CLUSTER_SIZE)]; Seek(chain, num / CLUSTER_SIZE) == |chain|
      ensures forall k | k in contents && k <= key :: k / CLUSTER_SIZE < num / CLUSTER_SIZE
    {
      hide Represents;
      ClusterOfBlock(num);
      forall k | k in contents && k <= key ensures k / CLUSTER_SIZE < num / CLUSTER_SIZE {
        ClusterOfBlock(k);
        PresentHasCluster(table, contents, k);
        assert BlockOf(k) <= BlockOf(num);
      }
    }

    /** `FindInside`: the walk ends, and its early exits miss only what a later key hides. */
    method FindInside(size: V -> nat, maxSize: nat, key: nat) returns (r: Option<nat>)
      requires Valid()
      ensures Answer(size, maxSize, key, r) && (r.Some? ==> Chosen(size, key, r.value))
    {
      hide Represents, Shaped, Answer;
      var num: nat := key;
      assert Above(key, num) by { assert forall k: nat | k in contents && k <= key :: BlockOf(k) <= BlockOf(num); }
      while true
        invariant num <= key && Above(key, num) && InReach(num, key, maxSize)
        decreases num
      {
        ShapedSize(table);
        var i := FindCluster(num);
        if i < |table[HashInt(num / CLUSTER_SIZE)]| {
          assert table[HashInt(num / CLUSTER_SIZE)][i] in table[HashInt(num / CLUSTER_SIZE)];
          var done;
          done, r, num := WalkCluster(i, size, maxSize, key, num);
          if done { return; }
        } else {
          MissingCluster(key, num);
        }
        if num < CLUSTER_SIZE {
          FirstCluster(size, maxSize, key, num);
          return None;
        }
        PreviousCluster(key, num);
        num := num / CLUSTER_SIZE * CLUSTER_SIZE - 1;
        if key - num > maxSize {
          OutOfReach(size, maxSize, key, num);
          return None;
        }
      }
    }

    lemma FirstCluster(size: V -> nat, maxSize: nat, key: nat, num: nat)
      requires num < CLUSTER_SIZE && forall k | k in contents && k <= key :: k / CLUSTER_SIZE < num / CLUSTER_SIZE
      ensures Answer(size, maxSize, key, None)
    { }

    // ----- Iteration

    ghost predicate Content(e: Entry<V>)
      reads this
    {
      e.key in contents && contents[e.key] == e.value
    }

    /** The entries of one cluster, block by block. */
    method CollectCluster(h: nat, i: nat) returns (es: seq<Entry<V>>)
      requires Valid() && h < |table| && i < |table[h]|
      ensures Distinct(es)
      ensures forall e :: e in es <==> Content(e) && e.key / CLUSTER_SIZE == table[h][i].id
    {
      hide Represents;
      var c := table[h][i];
      assert c in table[h];
      assert Seek(table[h], c.id) == i;
      es := [];
      for b := 0 to CLUSTER_BLOCKS
        invariant Distinct(es)
        invariant forall e :: e in es <==> Content(e) && e.key / CLUSTER_SIZE == c.id && BlockOf(e.key) % CLUSTER_BLOCKS < b
      {
        ghost var g := c.id * CLUSTER_BLOCKS + b;
        BlockNumber(c.id, b);
        BlockContents(c.blocks[b], g);
        assert InBlock(c.blocks[b], g) by { BlockSays(table, contents, g); }
        forall e ensures e in es + c.blocks[b] <==> Content(e) && e.key / CLUSTER_SIZE == c.id && BlockOf(e.key) % CLUSTER_BLOCKS < b + 1 {
          ClusterOfBlock(e.key);
          BlockPosition(BlockOf(e.key), c.id, b);
        }
        DistinctAppend(es, c.blocks[b]);
        es := es + c.blocks[b];
      }
    }

    lemma BlockNumber(id: nat, b: nat)
      requires b < CLUSTER_BLOCKS
      ensures (id * CLUSTER_BLOCKS + b) / CLUSTER_BLOCKS == id && (id * CLUSTER_BLOCKS + b) % CLUSTER_BLOCKS == b
    { }

    lemma BlockPosition(g: nat, id: nat, b: nat)
      ensures g / CLUSTER_BLOCKS == id && g % CLUSTER_BLOCKS == b ==> g == id * CLUSTER_BLOCKS + b
    { }

    lemma DistinctAppend(a: seq<Entry<V>>, b: seq<Entry<V>>)
      requires Distinct(a) && Distinct(b) && forall x, y | x in a && y in b :: x.key != y.key
      ensures Distinct(a + b)
    {
      forall i, j | 0 <= i < j < |a + b| ensures (a + b)[i].key != (a + b)[j].key {
        if i < |a| && j >= |a| { assert a[i] in a && b[j - |a|] in b; }
      }
    }

    /** The entries of one hash chain, cluster by cluster. */
    method CollectChain(h: nat) returns (es: seq<Entry<V>>)
      requires h < HASH_SIZE && Valid()
      ensures Distinct(es)
      ensures forall e :: e in es <==> Content(e) && ChainOf(e.key) == h
    {
      hide Represents;
      es := [];
      for i := 0 to |table[h]|
        invariant Distinct(es)
        invariant forall e :: e in es <==> Content(e) && ChainOf(e.key) == h && Seek(table[h], e.key / CLUSTER_SIZE) < i
      {
        var more := CollectCluster(h, i);
        assert table[h][i] in table[h];
        assert Seek(table[h], table[h][i].id) == i;
        DistinctAppend(es, more);
        es := es + more;
      }
      forall e | Content(e) && ChainOf(e.key) == h ensures e in es {
        PresentHasCluster(table, contents, e.key);
      }
    }

    /** `Iterate`: every entry of the map is visited exactly once. */
    method Iterate() returns (es: seq<Entry<V>>)
      requires Valid()
      ensures Distinct(es)
      ensures forall e :: e in es <==> e.key in contents && contents[e.key] == e.value
    {
      hide Represents;
      es := [];
      for h := 0 to HASH_SIZE
        invariant Distinct(es)
        invariant forall e :: e in es <==> Content(e) && ChainOf(e.key) < h
      {
        var more := CollectChain(h);
        DistinctAppend(es, more);
        es := es + more;
      }
    }
  }
}
