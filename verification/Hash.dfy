/** The growing hash table: chained slots and rehashing, proved to be a map. */
module Hash {
  import opened Common

  const INITIAL_SLOTS := 32

  type ItemId = nat
  /** Which slot a key belongs in, for a given number of slots. */
  type HashFn = (int, nat) -> nat
  type Map = map<int, ItemId>

  /** nn_hash_item: the key an item was inserted with, and which item it is. */
  datatype Entry = Entry(key: int, item: ItemId)
  type Chain = seq<Entry>

  /** nn_hash_key. */
  function HashKey(key: bv32): bv32 {
    var k1 := (key ^ 61) ^ (key >> 16);
    var k2 := k1 + (k1 << 3);
    var k3 := k2 ^ (k2 >> 4);
    var k4 := k3 * 0x27d4eb2d;
    k4 ^ (k4 >> 15)
  }

  lemma HashKnown()
    ensures HashKey(0) == 0xc0a9496a && HashKey(1) == 0x27922c9d && HashKey(0x8000_0000) == 0xad16aa14
  {}

  /** The slot the source uses. The table works with any other function into the slots. */
  function SourceSlot(key: int, slots: nat): (i: nat)
    ensures slots > 0 ==> i < slots
  {
    if slots == 0 || !(0 <= key < TWO_32) then 0 else HashKey(key as bv32) as nat % slots
  }

  ghost predicate IntoSlots(hash: HashFn) {
    forall key, slots: nat | slots > 0 :: hash(key, slots) < slots
  }

  /** Position of the entry with `key` in a chain, or the length of the chain. */
  function FindKey(chain: Chain, key: int): (i: nat)
    ensures i <= |chain|
    ensures i < |chain| ==> chain[i].key == key
    ensures forall j | 0 <= j < i :: chain[j].key != key
  {
    if chain == [] || chain[0].key == key then 0 else
    var r := FindKey(chain[1..], key);
    assert forall j | 0 < j < 1 + r :: chain[j] == chain[1..][j - 1];
    1 + r
  }

  ghost predicate Has(chain: Chain, key: int) {
    exists j :: 0 <= j < |chain| && chain[j].key == key
  }

  /** A chain holds entries of `m` that belong in slot `i`, no key twice. */
  ghost predicate ChainOk(hash: HashFn, chain: Chain, i: nat, slots: nat, m: Map)
    requires slots > 0
  {
    && (forall j | 0 <= j < |chain| ::
          chain[j].key in m && m[chain[j].key] == chain[j].item && hash(chain[j].key, slots) == i)
    && (forall j, k | 0 <= j < k < |chain| :: chain[j].key != chain[k].key)
  }

  /** The table stores exactly the map `m`. */
  ghost predicate Stores(hash: HashFn, table: seq<Chain>, m: Map) {
    && |table| > 0
    && IntoSlots(hash)
    && (forall i | 0 <= i < |table| :: ChainOk(hash, table[i], i, |table|, m))
    && (forall key | key in m :: Has(table[hash(key, |table|)], key))
  }

  /** An entry is appended to the chain of its slot. */
  function Put(hash: HashFn, table: seq<Chain>, e: Entry): (r: seq<Chain>)
    requires |table| > 0 && IntoSlots(hash)
    ensures |r| == |table|
  {
    var i := hash(e.key, |table|);
    table[i := table[i] + [e]]
  }

  lemma HasAppend(chain: Chain, e: Entry, key: int)
    ensures Has(chain + [e], key) <==> Has(chain, key) || key == e.key
  {
    if j :| 0 <= j < |chain| && chain[j].key == key { assert (chain + [e])[j].key == key; }
    assert (chain + [e])[|chain|].key == e.key;
  }

  lemma PutStores(hash: HashFn, table: seq<Chain>, m: Map, e: Entry)
    requires Stores(hash, table, m) && e.key !in m
    ensures Stores(hash, Put(hash, table, e), m[e.key := e.item])
  {
    var s, m' := hash(e.key, |table|), m[e.key := e.item];
    var t := Put(hash, table, e);
    forall i | 0 <= i < |t| ensures ChainOk(hash, t[i], i, |t|, m') {
      if i == s { PutChain(hash, table[s], s, |t|, m, e); } else { WidenChain(hash, table[i], i, |t|, m, e); }
    }
    forall key | key in m' ensures Has(t[hash(key, |t|)], key) { HasAppend(table[s], e, key); }
  }

  lemma PutChain(hash: HashFn, chain: Chain, i: nat, slots: nat, m: Map, e: Entry)
    requires slots > 0 && ChainOk(hash, chain, i, slots, m) && e.key !in m && hash(e.key, slots) == i
    ensures ChainOk(hash, chain + [e], i, slots, m[e.key := e.item])
  {
  }

  lemma WidenChain(hash: HashFn, chain: Chain, i: nat, slots: nat, m: Map, e: Entry)
    requires slots > 0 && ChainOk(hash, chain, i, slots, m) && e.key !in m
    ensures ChainOk(hash, chain, i, slots, m[e.key := e.item])
  {}

  /** The entry at position `j` is taken out of chain `i`. */
  function Take(table: seq<Chain>, i: nat, j: nat): (r: seq<Chain>)
    requires i < |table| && j < |table[i]|
    ensures |r| == |table|
  {
    table[i := table[i][..j] + table[i][j + 1..]]
  }

  lemma HasCut(chain: Chain, j: nat, key: int)
    requires j < |chain| && chain[j].key != key && Has(chain, key)
    ensures Has(chain[..j] + chain[j + 1..], key)
  {
    var k :| 0 <= k < |chain| && chain[k].key == key;
    assert (chain[..j] + chain[j + 1..])[if k < j then k else k - 1].key == key;
  }

  lemma CutChain(hash: HashFn, chain: Chain, i: nat, slots: nat, m: Map, j: nat)
    requires slots > 0 && ChainOk(hash, chain, i, slots, m) && j < |chain|
    ensures ChainOk(hash, chain[..j] + chain[j + 1..], i, slots, m - {chain[j].key})
  {
    var c := chain[..j] + chain[j + 1..];
    assert forall k | 0 <= k < |c| :: c[k] == if k < j then chain[k] else chain[k + 1];
  }

  lemma NarrowChain(hash: HashFn, chain: Chain, i: nat, slots: nat, m: Map, key: int)
    requires slots > 0 && ChainOk(hash, chain, i, slots, m) && hash(key, slots) != i
    ensures ChainOk(hash, chain, i, slots, m - {key})
  {}

  lemma TakeStores(hash: HashFn, table: seq<Chain>, m: Map, i: nat, j: nat)
    requires Stores(hash, table, m) && i < |table| && j < |table[i]|
    ensures Stores(hash, Take(table, i, j), m - {table[i][j].key})
  {
    var e, t := table[i][j], Take(table, i, j);
    forall k | 0 <= k < |t| ensures ChainOk(hash, t[k], k, |t|, m - {e.key}) {
      if k == i { CutChain(hash, table[i], i, |t|, m, j); } else { NarrowChain(hash, table[k], k, |t|, m, e.key); }
    }
    forall key | key in m - {e.key}
      ensures Has(t[hash(key, |t|)], key)
    {
      if hash(key, |t|) == i { HasCut(table[i], j, key); }
    }
  }

  lemma EmptyStores(hash: HashFn, table: seq<Chain>)
    requires IntoSlots(hash) && |table| > 0 && forall i | 0 <= i < |table| :: table[i] == []
    ensures Stores(hash, table, map[])
  {}

  lemma OnlyEmpty(hash: HashFn, table: seq<Chain>, m: Map)
    requires Stores(hash, table, m) && forall i | 0 <= i < |table| :: table[i] == []
    ensures m == map[]
  {
    forall key ensures key !in m {
      var i := hash(key, |table|);
      assert table[i] == [] && !Has(table[i], key);
    }
  }

  lemma {:induction false} AtMost(s: set<int>, n: nat)
    requires forall x | x in s :: 0 <= x < n
    ensures |s| <= n
  {
    if n > 0 {
      AtMost(s - {n - 1}, n - 1);
    } else {
      assert forall x :: x !in s;
      assert s == {};
    }
  }

  lemma InsertSize(m: Map, key: int, item: ItemId)
    requires key !in m && 0 <= key < TWO_32 && forall k | k in m :: 0 <= k < TWO_32
    ensures |m[key := item]| == |m| + 1 <= TWO_32
  {
    var all := m[key := item];
    assert all.Keys == m.Keys + {key};
    AtMost(all.Keys, TWO_32);
  }

  /** Keys are 32-bit numbers, `items` is their number in 32 bits, and at most half as many items as slots
      are stored while the table can still grow. */
  ghost predicate Counts(m: Map, items: nat, slots: nat) {
    && (forall key | key in m :: 0 <= key < TWO_32)
    && items == (if |m| == TWO_32 then 0 else |m|)
    && (slots < TWO_31 ==> |m| * 2 <= slots)
  }

  lemma EraseCounts(m: Map, items: nat, slots: nat, key: int)
    requires Counts(m, items, slots) && key in m
    ensures Counts(m - {key}, Dec32(items), slots)
  {
    EraseSize(m, key);
  }

  lemma InsertCounts(m: Map, items: nat, slots: nat, key: uint32, item: ItemId)
    requires Counts(m, items, slots) && key !in m && INITIAL_SLOTS <= slots < TWO_32
    ensures var n := Inc32(items);
            if Double32(n) > slots && slots < TWO_31 then Counts(m[key := item], n, slots * 2)
            else Counts(m[key := item], n, slots)
  {
    InsertSize(m, key, item);
    InsertCounter(|m|, slots);
  }

  /** The counter after an insert, and when it makes the table grow. */
  lemma InsertCounter(size: nat, slots: nat)
    requires size < TWO_32 && INITIAL_SLOTS <= slots && (slots < TWO_31 ==> size * 2 <= slots)
    ensures Inc32(size) == if size + 1 == TWO_32 then 0 else size + 1
    ensures slots < TWO_31 ==> Double32(Inc32(size)) == (size + 1) * 2 <= slots * 2
  {}

  lemma EraseSize(m: Map, key: int)
    requires key in m && forall k | k in m :: 0 <= k < TWO_32
    ensures |m - {key}| + 1 == |m| <= TWO_32
  {
    assert (m - {key}).Keys == m.Keys - {key};
    AtMost(m.Keys, TWO_32);
  }

  /** The list operation of nn_hash_insert. */
  method Linked(hash: HashFn, table: seq<Chain>, ghost m: Map, key: int, item: ItemId) returns (r: seq<Chain>)
    requires Stores(hash, table, m) && key !in m
    ensures |r| == |table| && Stores(hash, r, m[key := item])
  {
    PutStores(hash, table, m, Entry(key, item));
    r := Put(hash, table, Entry(key, item));
  }

  /** The list operation of nn_hash_erase. */
  method Unlinked(hash: HashFn, table: seq<Chain>, ghost m: Map, key: int) returns (r: seq<Chain>)
    requires Stores(hash, table, m) && key in m
    ensures |r| == |table| && Stores(hash, r, m - {key})
  {
    var i := hash(key, |table|);
    var j := FindKey(table[i], key);
    TakeStores(hash, table, m, i, j);
    r := Take(table, i, j);
  }

  /** Moves one chain, an item at a time. */
  method MoveChain(hash: HashFn, from: seq<Chain>, to: seq<Chain>, i: nat, ghost was: Map, ghost had: Map)
    returns (rest: seq<Chain>, table: seq<Chain>, ghost left: Map, ghost moved: Map)
    requires Stores(hash, from, was) && Stores(hash, to, had) && was.Keys !! had.Keys && i < |from|
    ensures |rest| == |from| && |table| == |to|
    ensures Stores(hash, rest, left) && Stores(hash, table, moved)
    ensures left.Keys !! moved.Keys && left + moved == was + had
    ensures rest[i] == [] && forall k | 0 <= k < |from| && k != i :: rest[k] == from[k]
  {
    rest, table, left, moved := from, to, was, had;
    while rest[i] != []
      invariant |rest| == |from| && |table| == |to|
      invariant Stores(hash, rest, left) && Stores(hash, table, moved)
      invariant left.Keys !! moved.Keys && left + moved == was + had
      invariant forall k | 0 <= k < |from| && k != i :: rest[k] == from[k]
      decreases |rest[i]|
    {
      var e := rest[i][0];
      TakeStores(hash, rest, left, i, 0);
      PutStores(hash, table, moved, e);
      MoveKey(left, moved, e.key);
      rest := Take(rest, i, 0);
      table := Put(hash, table, e);
      left, moved := left - {e.key}, moved[e.key := e.item];
    }
  }

  /** Moves every chain into a new array. */
  method Redistribute(hash: HashFn, from: seq<Chain>, slots: nat, ghost m: Map) returns (table: seq<Chain>)
    requires Stores(hash, from, m) && slots > 0
    ensures |table| == slots && Stores(hash, table, m)
  {
    var rest := from;
    table := seq(slots, _ => []);
    EmptyStores(hash, table);
    ghost var left: Map, moved: Map := m, map[];
    var i := 0;
    while i != |rest|
      invariant i <= |rest| && |table| == slots
      invariant Stores(hash, rest, left) && Stores(hash, table, moved)
      invariant left.Keys !! moved.Keys && left + moved == m
      invariant forall k | 0 <= k < i :: rest[k] == []
      decreases |rest| - i
    {
      rest, table, left, moved := MoveChain(hash, rest, table, i, left, moved);
      i := i + 1;
    }
    OnlyEmpty(hash, rest, left);
    assert left + moved == moved;
  }

  lemma MoveKey(left: Map, moved: Map, k: int)
    requires k in left && left.Keys !! moved.Keys
    ensures (left - {k}).Keys !! moved[k := left[k]].Keys
    ensures (left - {k}) + moved[k := left[k]] == left + moved
  {}

  class Hash {
    const hash: HashFn
    var slots: nat
    /** `items` as a `uint32_t`. */
    var items: nat
    var table: seq<Chain>
    ghost var contents: Map

    /** The table stores `contents`, `items` is its size, and at most half as many items as slots
        are stored while the table can still grow. */
    ghost predicate Valid()
      reads this
    {
      && INITIAL_SLOTS <= slots < TWO_32
      && |table| == slots
      && Stores(hash, table, contents)
      && Counts(contents, items, slots)
    }

    /** nn_hash_init. */
    constructor (hash: HashFn)
      requires IntoSlots(hash)
      ensures Valid() && contents == map[] && slots == INITIAL_SLOTS && this.hash == hash
    {
      this.hash := hash;
      slots := INITIAL_SLOTS;
      items := 0;
      table := seq(INITIAL_SLOTS, _ => []);
      contents := map[];
    }

    /** nn_hash_insert: the source asserts that the key is not there yet. */
    method Insert(key: uint32, item: ItemId)
      requires Valid() && key !in contents
      modifies this`slots, this`items, this`table, this`contents
      ensures Valid() && contents == old(contents)[key := item]
      ensures slots == old(slots) || slots == 2 * old(slots)
    {
      InsertCounts(contents, items, slots, key, item);
      items := Inc32(items);
      var t := Linked(hash, table, contents, key, item);
      contents := contents[key := item];
      Settle(t);
    }

    /** nn_hash_rehash, if the table has become too small. */
    method Settle(t: seq<Chain>)
      requires INITIAL_SLOTS <= slots < TWO_32 && |t| == slots && Stores(hash, t, contents)
      modifies this`slots, this`table
      ensures slots == if Double32(items) > old(slots) && old(slots) < TWO_31 then old(slots) * 2 else old(slots)
      ensures |table| == slots && Stores(hash, table, contents)
    {
      if Double32(items) > slots && slots < TWO_31 {
        slots := slots * 2;
        table := Redistribute(hash, t, slots, contents);
      } else {
        table := t;
      }
    }

    /** nn_hash_erase. */
    method Erase(key: uint32)
      requires Valid() && key in contents
      modifies this`items, this`table, this`contents
      ensures Valid() && contents == old(contents) - {key}
    {
      EraseCounts(contents, items, slots, key);
      items := Dec32(items);
      table := Unlinked(hash, table, contents, key);
      contents := contents - {key};
    }

    /** nn_hash_get. */
    method Get(key: uint32) returns (r: Option<ItemId>)
      requires Valid()
      ensures r == if key in contents then Some(contents[key]) else None
    {
      var chain := table[hash(key, slots)];
      var j := 0;
      while j != |chain|
        invariant j <= |chain|
        invariant forall k | 0 <= k < j :: chain[k].key != key
      {
        if chain[j].key == key {
          return Some(chain[j].item);
        }
        j := j + 1;
      }
      return None;
    }
  }
}
