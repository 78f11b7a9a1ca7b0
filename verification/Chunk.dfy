/** A message chunk as bytes in memory: behind the header structure stand some empty space, its size,
    a tag and the data, and trimming moves the last three of them forward over each other. */
module Chunk {
  import opened Common
  import opened Wire

  const TAG: uint32 := 0xdeadcafe

  class Chunk {
    /** The memory behind `struct nn_chunk`; a pointer to data is an offset into it. */
    const mem: array<byte>
    var size: nat

    /** The two numbers in front of offset `p`. */
    predicate Marked(p: nat)
      reads mem
    {
      8 <= p <= mem.Length && GetL(mem[p - 8..p - 4]) == p - 8 && GetL(mem[p - 4..p]) == TAG
    }

    /** `p` is where the data begins. */
    ghost predicate Valid(p: nat)
      reads this, mem
    {
      Marked(p) && p + size == mem.Length
    }

    /** What a user of the pointer `p` finds: nothing if nn_chunk_getptr does not accept it. */
    function Seen(p: nat): Option<seq<byte>>
      reads this, mem
    {
      if Marked(p) && p + size <= mem.Length then Some(mem[p..p + size]) else None
    }

    /** nn_chunk_alloc, filled with `data`. */
    constructor (data: seq<byte>)
      ensures fresh(mem) && Valid(8) && Seen(8) == Some(data)
    {
      var m := new byte[8 + |data|](i requires 0 <= i < 8 + |data| => if i < 8 then 0 else data[i - 8]);
      mem := m;
      size := |data|;
      new;
      assert mem[8..] == data;
      Mark(8);
      assert mem[8..8 + size] == mem[8..];
    }

    /** nn_chunk_getptr: how far the header structure is in front of `p`; None if the tag is missing. */
    method GetPtr(p: nat) returns (r: Option<int>)
      requires 8 <= p <= mem.Length
      ensures r == Some(0) <==> Marked(p)
    {
      if GetL(mem[p - 4..p]) != TAG { return None; }
      return Some(p - 8 - GetL(mem[p - 8..p - 4]));
    }

    /** nn_chunk_trim: the first n bytes go; None if an assertion fails. Whoever else still has the old
        pointer does not find the old data there, unless nothing was trimmed. */
    method Trim(p: nat, n: nat) returns (r: Option<nat>)
      requires Valid(p)
      modifies this`size, mem
      ensures r == if n <= old(size) && p + n - 8 < TWO_32 - 1 then Some(p + n) else None
      ensures r.Some? ==> Valid(r.value) && Seen(r.value) == Some(old(Seen(p)).value[n..])
      ensures r.Some? && n > 0 ==> Seen(p) != old(Seen(p))
      ensures r.None? ==> Valid(p) && Seen(p) == old(Seen(p))
    {
      if n > size { return None; }
      var q := p + n;
      if q - 8 >= TWO_32 - 1 { return None; }
      ghost var data := mem[p..];
      assert data[n..] == mem[q..] && data == mem[p..p + size];
      Mark(q);
      size := size - n;
      assert mem[q..q + size] == mem[q..];
      r := Some(q);
    }

    /** The tag and the size of the empty space are written in front of `q`. */
    method Mark(q: nat)
      requires 8 <= q <= mem.Length && q - 8 < TWO_32
      modifies mem
      ensures Marked(q) && mem[q..] == old(mem[q..])
    {
      Put(mem, q - 4, TAG);
      assert mem[q - 4..q] == PutL(TAG) && mem[q..] == old(mem[q..]);
      ghost var rest := mem[q - 4..];
      Put(mem, q - 8, q - 8);
      assert mem[q - 8..q - 4] == PutL(q - 8) && mem[q - 4..] == rest;
      assert mem[q - 4..q] == rest[..4] && mem[q..] == rest[4..];
      GetPut(TAG);
      GetPut(q - 8);
    }
  }

  function Sum(ns: seq<nat>): nat {
    if ns == [] then 0 else Sum(ns[..|ns| - 1]) + ns[|ns| - 1]
  }

  /** `a` bytes of `data` are trimmed, and n more go. */
  method TrimMore(c: Chunk, p: nat, n: nat, ghost data: seq<byte>, ghost a: nat) returns (q: nat)
    requires c.Valid(p) && a + n <= |data| && c.Seen(p) == Some(data[a..]) && p + n - 8 < TWO_32 - 1
    modifies c`size, c.mem
    ensures q == p + n && c.Valid(q) && c.Seen(q) == Some(data[a + n..])
  {
    assert data[a..][n..] == data[a + n..];
    var r := c.Trim(p, n);
    q := r.value;
  }

  /** Any number of trims, one after the other, leaves the rest of the data. */
  method TrimAll(c: Chunk, ns: seq<nat>) returns (p: nat)
    requires c.Valid(8) && Sum(ns) <= c.size && Sum(ns) < TWO_32 - 1
    modifies c`size, c.mem
    ensures p == 8 + Sum(ns) && c.Valid(p) && c.Seen(p) == Some(old(c.Seen(8)).value[Sum(ns)..])
  {
    p := 8;
    ghost var data, a := c.Seen(8).value, 0;
    for i := 0 to |ns|
      invariant a == Sum(ns[..i]) <= |data| && p == 8 + a
      invariant c.Valid(p) && c.Seen(p) == Some(data[a..])
    {
      assert ns[..i + 1][..i] == ns[..i];
      SumPrefix(ns, i + 1);
      p := TrimMore(c, p, ns[i], data, a);
      a := a + ns[i];
    }
    assert ns[..|ns|] == ns;
  }

  lemma {:induction false} SumPrefix(ns: seq<nat>, i: nat)
    requires i <= |ns|
    ensures Sum(ns[..i]) <= Sum(ns)
  {
    if i < |ns| {
      assert ns[..|ns| - 1][..i] == ns[..i];
      SumPrefix(ns[..|ns| - 1], i);
    } else {
      assert ns[..i] == ns;
    }
  }
}
