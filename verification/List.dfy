/** The intrusive doubly linked list: pointer surgery that refines insertion into and
    removal from a sequence. The other modules use the sequence. */
module List {
  /** A list item. `key` stands for the fields of the structure it is embedded in, and `linked` is
      false while both pointers hold the NN_LIST_NOTINLIST mark. */
  class Item {
    var prev: Item?
    var next: Item?
    var linked: bool
    var key: int

    /** nn_list_item_init. */
    constructor (key: int)
      ensures !linked && this.key == key
    {
      prev, next, linked := null, null, false;
      this.key := key;
    }
  }

  class List {
    var first: Item?
    var last: Item?
    ghost var items: seq<Item>

    ghost predicate Valid()
      reads this, items
    {
      && (forall i, j | 0 <= i < j < |items| :: items[i] != items[j])
      && first == (if |items| == 0 then null else items[0])
      && last == (if |items| == 0 then null else items[|items| - 1])
      && (forall i {:trigger items[i].prev} | 0 <= i < |items| ::
            items[i].prev == if i == 0 then null else items[i - 1])
      && (forall i {:trigger items[i].next} | 0 <= i < |items| ::
            items[i].next == if i == |items| - 1 then null else items[i + 1])
      && (forall x | x in items :: x.linked)
    }

    /** nn_list_init. */
    constructor ()
      ensures Valid() && items == []
    {
      first, last, items := null, null, [];
    }

    /** nn_list_empty. */
    predicate Empty()
      requires Valid()
      reads this, items
      ensures Empty() <==> items == []
    {
      first == null
    }

    /** The pointer writes of nn_list_insert, after the owner has set its own field. */
    method Splice(item: Item, key: int, it: Item?, ghost k: nat)
      requires Valid() && !item.linked
      requires k <= |items| && it == if k == |items| then null else items[k]
      modifies this, items, item
      ensures items == old(items) && item.linked && item !in items
      ensures item.prev == (if k == 0 then null else items[k - 1]) && item.next == it
      ensures first == if k == 0 then item else items[0]
      ensures last == if k == |items| then item else items[|items| - 1]
      ensures forall i {:trigger items[i].prev} | 0 <= i < |items| ::
                items[i].prev == if i == k then item else if i == 0 then null else items[i - 1]
      ensures forall i {:trigger items[i].next} | 0 <= i < |items| ::
                items[i].next == if i == k - 1 then item else if i == |items| - 1 then null else items[i + 1]
      ensures forall x | x in items :: x.linked && x.key == old(x.key)
      ensures item.key == key
    {
      item.key := key;
      item.prev := if it != null then it.prev else last;
      item.next := it;
      item.linked := true;
      if item.prev != null { item.prev.next := item; }
      if item.next != null { item.next.prev := item; }
      if first == null || first == it { first := item; }
      if it == null { last := item; }
    }

    /** nn_list_insert: in front of `it`, or at the end if `it` is NULL. */
    method Insert(item: Item, key: int, it: Item?, ghost k: nat)
      requires Valid() && !item.linked
      requires k <= |items| && it == if k == |items| then null else items[k]
      modifies this, items, item
      ensures Valid()
      ensures items == old(items)[..k] + [item] + old(items)[k..]
      ensures item.key == key && forall x | x in old(items) :: x.key == old(x.key)
    {
      Splice(item, key, it, k);
      items := items[..k] + [item] + items[k..];
    }

    /** The pointer writes of nn_list_erase. */
    method Unlink(item: Item, ghost k: nat) returns (next: Item?)
      requires Valid() && k < |items| && items[k] == item
      modifies this, items
      ensures items == old(items) && !item.linked
      ensures next == (if k < |items| - 1 then items[k + 1] else null)
      ensures first == if k > 0 then items[0] else next
      ensures last == if k < |items| - 1 then items[|items| - 1] else if k > 0 then items[k - 1] else null
      ensures forall i {:trigger items[i].prev} | 0 <= i < |items| && i != k ::
                items[i].prev == if i == 0 || (i == 1 && k == 0) then null
                                 else if i == k + 1 then items[k - 1] else items[i - 1]
      ensures forall i {:trigger items[i].next} | 0 <= i < |items| && i != k ::
                items[i].next == if i == k - 1 then next else if i == |items| - 1 then null else items[i + 1]
      ensures forall x | x in items :: (x != item ==> x.linked) && x.key == old(x.key)
    {
      if item.prev != null { item.prev.next := item.next; } else { first := item.next; }
      if item.next != null { item.next.prev := item.prev; } else { last := item.prev; }
      next := item.next;
      item.prev, item.next, item.linked := null, null, false;
    }

    /** nn_list_erase: returns the item that followed. */
    method Erase(item: Item, ghost k: nat) returns (next: Item?)
      requires Valid() && k < |items| && items[k] == item
      modifies this, items
      ensures Valid() && !item.linked
      ensures items == old(items)[..k] + old(items)[k + 1..]
      ensures next == if k < |items| then items[k] else null
      ensures forall x | x in old(items) :: x.key == old(x.key)
    {
      next := Unlink(item, k);
      items := items[..k] + items[k + 1..];
    }
  }
}
