/** The ordered list of timeouts of the worker thread, on the linked list itself. */
module TimerSet {
  import opened Common
  import opened List

  /** Conversion of a 64-bit difference to `int`. */
  function ToInt(d: int): int {
    var m := d % 0x1_0000_0000;
    if m < 0x8000_0000 then m else m - 0x1_0000_0000
  }

  ghost predicate Sorted(keys: seq<int>) {
    forall i, j | 0 <= i < j < |keys| :: keys[i] <= keys[j]
  }

  /** The first `k` keys are at most `t`, the others are larger. */
  ghost predicate Split(keys: seq<int>, k: int, t: int) {
    0 <= k <= |keys| && (forall i | 0 <= i < k :: keys[i] <= t) && forall i | k <= i < |keys| :: t < keys[i]
  }

  /** The new key is behind the keys that are at most as large and in front of the larger ones. */
  ghost predicate InOrder(keys: seq<int>, k: int, t: int) {
    0 <= k < |keys| && (forall i | 0 <= i < k :: keys[i] <= t) && forall i | k < i < |keys| :: t < keys[i]
  }

  ghost predicate Keyed(items: seq<Item>, keys: seq<int>)
    reads items
  {
    |items| == |keys| && forall i | 0 <= i < |items| :: items[i].key == keys[i]
  }

  class TimerSet {
    const timeouts: List
    /** When the items of the list are due. */
    ghost var keys: seq<int>

    ghost predicate Valid()
      reads this, timeouts, timeouts.items
    {
      timeouts.Valid() && Keyed(timeouts.items, keys) && Sorted(keys)
    }

    constructor ()
      ensures Valid() && timeouts.items == [] && fresh(timeouts)
    {
      timeouts := new List();
      keys := [];
    }

    /** The search loop of nn_timerset_add: the first timeout that is due after `t`. */
    method FirstAfter(t: int) returns (it: Item?, ghost k: nat)
      requires Valid()
      ensures k <= |timeouts.items| && it == if k == |timeouts.items| then null else timeouts.items[k]
      ensures Split(keys, k, t)
      ensures it == null <==> forall i | 0 <= i < |keys| :: keys[i] <= t
      ensures it == timeouts.first <==> k == 0
    {
      it, k := timeouts.first, 0;
      while it != null
        invariant k <= |timeouts.items| && it == if k == |timeouts.items| then null else timeouts.items[k]
        invariant forall i | 0 <= i < k :: keys[i] <= t
        decreases |timeouts.items| - k
      {
        if t < it.key { return; }
        it, k := it.next, k + 1;
      }
    }

    /** nn_timerset_add: at position `k`, behind every timeout that is due no later and in front of
        every later one; 1 if the head has changed. */
    method Add(now: nat, timeout: nat, hndl: Item) returns (first: int, ghost k: nat)
      requires Valid() && !hndl.linked
      modifies this, timeouts, timeouts.items, hndl
      ensures Valid() && hndl.key == now + timeout
      ensures k <= |old(timeouts.items)|
      ensures timeouts.items == old(timeouts.items)[..k] + [hndl] + old(timeouts.items)[k..]
      ensures keys == old(keys)[..k] + [now + timeout] + old(keys)[k..]
      ensures InOrder(keys, k, now + timeout)
      ensures first == 1 <==> k == 0
    {
      var it;
      it, k := FirstAfter(now + timeout);
      first := if timeouts.first == it then 1 else 0;
      Place(now + timeout, hndl, it, k);
    }

    /** The item is inserted where its key belongs. */
    method Place(t: int, hndl: Item, it: Item?, ghost k: nat)
      requires Valid() && !hndl.linked && Split(keys, k, t)
      requires it == if k == |timeouts.items| then null else timeouts.items[k]
      modifies this, timeouts, timeouts.items, hndl
      ensures Valid() && hndl.key == t && InOrder(keys, k, t)
      ensures timeouts.items == old(timeouts.items)[..k] + [hndl] + old(timeouts.items)[k..]
      ensures keys == old(keys)[..k] + [t] + old(keys)[k..]
    {
      InsertSorted(keys, k, t);
      InsertAt(t, hndl, it, k);
    }

    /** The item is inserted at position `k`. */
    method InsertAt(t: int, hndl: Item, it: Item?, ghost k: nat)
      requires timeouts.Valid() && Keyed(timeouts.items, keys) && !hndl.linked
      requires k <= |timeouts.items| && it == if k == |timeouts.items| then null else timeouts.items[k]
      modifies this, timeouts, timeouts.items, hndl
      ensures timeouts.Valid() && Keyed(timeouts.items, keys) && hndl.key == t
      ensures timeouts.items == old(timeouts.items)[..k] + [hndl] + old(timeouts.items)[k..]
      ensures keys == old(keys)[..k] + [t] + old(keys)[k..]
    {
      ghost var was := timeouts.items;
      timeouts.Insert(hndl, t, it, k);
      InsertKeyed(was, timeouts.items, keys, k, hndl, t);
      keys := keys[..k] + [t] + keys[k..];
    }

    /** nn_timerset_rm: 1 if the head was removed, 0 also if the handle was not active. */
    method Rm(hndl: Item) returns (first: int)
      requires Valid() && (hndl.linked ==> hndl in timeouts.items)
      modifies this, timeouts, timeouts.items
      ensures Valid() && !hndl.linked
      ensures !old(hndl.linked) ==> first == 0 && timeouts.items == old(timeouts.items) && keys == old(keys)
      ensures forall k | 0 <= k < |old(timeouts.items)| && old(timeouts.items)[k] == hndl ::
                && timeouts.items == old(timeouts.items)[..k] + old(timeouts.items)[k + 1..]
                && keys == old(keys)[..k] + old(keys)[k + 1..]
                && (first == 1 <==> k == 0)
    {
      if !hndl.linked { return 0; }
      ghost var k :| 0 <= k < |timeouts.items| && timeouts.items[k] == hndl;
      first := if timeouts.first == hndl then 1 else 0;
      RmAt(hndl, k);
    }

    /** The k-th item is erased. */
    method RmAt(hndl: Item, ghost k: nat)
      requires Valid() && k < |timeouts.items| && timeouts.items[k] == hndl
      modifies this, timeouts, timeouts.items
      ensures Valid() && !hndl.linked && hndl.key == old(hndl.key)
      ensures timeouts.items == old(timeouts.items)[..k] + old(timeouts.items)[k + 1..]
      ensures keys == old(keys)[..k] + old(keys)[k + 1..]
    {
      ghost var was := timeouts.items;
      var next := timeouts.Erase(hndl, k);
      EraseKeyed(was, timeouts.items, keys, k);
      keys := keys[..k] + keys[k + 1..];
    }

    method RmFirst(hndl: Item)
      requires Valid() && timeouts.items != [] && timeouts.items[0] == hndl
      modifies this, timeouts, timeouts.items
      ensures Valid() && !hndl.linked
      ensures timeouts.items == old(timeouts.items)[1..] && keys == old(keys)[1..]
    {
      RmAt(hndl, 0);
    }

    /** nn_timerset_timeout: -1 if there is none, otherwise how long to wait for the earliest. */
    method Timeout(now: nat) returns (r: int)
      requires Valid()
      ensures timeouts.items == [] ==> r == -1
      ensures timeouts.items != [] ==>
                var d := ToInt(timeouts.items[0].key - now); r == if d < 0 then 0 else d
    {
      if timeouts.Empty() { return -1; }
      var d := ToInt(timeouts.first.key - now);
      r := if d < 0 then 0 else d;
    }

    /** nn_timerset_event: takes out the earliest timeout if it is due. */
    method Event(now: nat) returns (hndl: Option<Item>)
      requires Valid()
      modifies this, timeouts, timeouts.items
      ensures Valid()
      ensures hndl.None? <==> forall i | 0 <= i < |old(keys)| :: old(keys)[i] > now
      ensures hndl.None? ==> timeouts.items == old(timeouts.items) && keys == old(keys)
      ensures hndl.Some? ==>
                && old(keys) != [] && old(keys)[0] <= now && hndl.value == old(timeouts.items)[0]
                && timeouts.items == old(timeouts.items)[1..] && keys == old(keys)[1..]
                && !hndl.value.linked
    {
      if timeouts.Empty() { return None; }
      var first := timeouts.first;
      if first.key > now { return None; }
      RmFirst(first);
      return Some(first);
    }
  }

  /** Inserting keeps the other keys. */
  lemma InsertKeyed(was: seq<Item>, items: seq<Item>, keys: seq<int>, k: nat, hndl: Item, t: int)
    requires k <= |was| == |keys| && items == was[..k] + [hndl] + was[k..]
    requires hndl.key == t && forall i | 0 <= i < |was| :: was[i].key == keys[i]
    ensures Keyed(items, keys[..k] + [t] + keys[k..])
  {}

  lemma InsertSorted(keys: seq<int>, k: nat, t: int)
    requires Sorted(keys) && Split(keys, k, t)
    ensures var all := keys[..k] + [t] + keys[k..]; Sorted(all) && InOrder(all, k, t)
  {}

  lemma EraseKeyed(was: seq<Item>, items: seq<Item>, keys: seq<int>, k: nat)
    requires k < |was| == |keys| && items == was[..k] + was[k + 1..]
    requires forall i | 0 <= i < |was| :: was[i].key == keys[i]
    ensures Keyed(items, keys[..k] + keys[k + 1..])
  {}

  /** The wait for a timeout that is still to come is exact if and only if it is less than 2^31 ms
      away; a timeout that is overdue by at most that much needs no wait. */
  lemma WaitExact(due: nat, now: nat)
    ensures due >= now ==>
              ((if ToInt(due - now) < 0 then 0 else ToInt(due - now)) == due - now <==> due - now < 0x8000_0000)
    ensures now - 0x8000_0000 <= due < now ==> ToInt(due - now) < 0
  {}
}
