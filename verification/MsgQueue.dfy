/** The inbound queue of an inproc session: a chain of twelve-message chunks with one cached chunk,
    proved to be a bounded first-in first-out sequence. */
module MsgQueue {
  import opened Common
  import opened Message

  const GRANULARITY := 12

  class Chunk {
    var msgs: seq<Msg>
    var next: Chunk?

    constructor ()
      ensures |msgs| == GRANULARITY && next == null
    {
      msgs := seq(GRANULARITY, _ => Msg([], []));
      next := null;
    }
  }

  /** The bound: one message of any size, beyond that less than `maxmem` bytes. */
  predicate Accepts(q: seq<Msg>, maxmem: nat, m: Msg) {
    !(|q| > 0 && TotalSize(q) + Size(m) >= maxmem)
  }

  ghost predicate Full(rows: seq<seq<Msg>>) {
    forall i | 0 <= i < |rows| :: |rows[i]| == GRANULARITY
  }

  /** The rows one after the other. */
  function Flat(rows: seq<seq<Msg>>): (f: seq<Msg>)
    ensures Full(rows) ==> |f| == 12 * |rows|
  {
    if rows == [] then [] else Flat(rows[..|rows| - 1]) + rows[|rows| - 1]
  }

  lemma {:induction false} FlatHead(rows: seq<seq<Msg>>)
    requires rows != []
    ensures Flat(rows) == rows[0] + Flat(rows[1..])
  {
    var l := |rows| - 1;
    if l > 0 {
      FlatHead(rows[..l]);
      assert rows[..l][1..] == rows[1..][..l - 1];
    }
  }

  /** The queue laid out in rows of twelve, from position `inPos` of the first row to position
      `outPos` of the last. */
  ghost predicate Layout(rows: seq<seq<Msg>>, inPos: nat, outPos: nat, q: seq<Msg>) {
    && rows != [] && Full(rows)
    && inPos <= GRANULARITY && outPos <= GRANULARITY
    && inPos + |q| == 12 * (|rows| - 1) + outPos
    && Flat(rows)[inPos..inPos + |q|] == q
  }

  lemma LayoutWrite(rows: seq<seq<Msg>>, inPos: nat, outPos: nat, q: seq<Msg>, m: Msg)
    requires Layout(rows, inPos, outPos, q) && outPos < GRANULARITY
    ensures var l := |rows| - 1; Layout(rows[l := rows[l][outPos := m]], inPos, outPos + 1, q + [m])
  {
    var l := |rows| - 1;
    var after := rows[l := rows[l][outPos := m]];
    assert after[..l] == rows[..l] && Full(rows[..l]);
    assert Flat(after)[inPos..inPos + |q|] == Flat(rows)[inPos..inPos + |q|];
  }

  lemma LayoutExtend(rows: seq<seq<Msg>>, inPos: nat, q: seq<Msg>, row: seq<Msg>)
    requires Layout(rows, inPos, GRANULARITY, q) && |row| == GRANULARITY
    ensures Layout(rows + [row], inPos, 0, q)
  {
    assert (rows + [row])[..|rows|] == rows;
  }

  lemma LayoutRead(rows: seq<seq<Msg>>, inPos: nat, outPos: nat, q: seq<Msg>)
    requires Layout(rows, inPos, outPos, q) && inPos < GRANULARITY && q != []
    ensures rows[0][inPos] == q[0] && Layout(rows, inPos + 1, outPos, q[1..])
  {
    FlatHead(rows);
    assert q[0] == Flat(rows)[inPos];
  }

  lemma LayoutDrop(rows: seq<seq<Msg>>, outPos: nat, q: seq<Msg>)
    requires Layout(rows, GRANULARITY, outPos, q) && outPos < GRANULARITY
    ensures |rows| > 1 && Layout(rows[1..], 0, outPos, q)
  {
    FlatHead(rows);
    assert Flat(rows)[12..12 + |q|] == Flat(rows[1..])[..|q|];
  }

  class MsgQueue {
    var outChunk: Chunk
    var outPos: nat
    var inChunk: Chunk
    var inPos: nat
    var count: nat
    var mem: nat
    const maxmem: nat
    var cache: Chunk?

    /** The messages in the queue, the chunks between the two positions and what they hold, and all
        the chunks that are allocated. */
    ghost var queue: seq<Msg>
    ghost var chain: seq<Chunk>
    ghost var rows: seq<seq<Msg>>
    ghost var chunks: set<Chunk>

    /** The chain runs from the chunk being read to the chunk being written. Nothing is said about
        the `next` pointer of its last chunk, nor of the cached one: they may be stale. */
    ghost predicate Linked()
      reads this`chain, this`rows, this`cache, this`inChunk, this`outChunk, chain, cache
    {
      && chain != [] && |rows| == |chain|
      && (forall i, j | 0 <= i < j < |chain| :: chain[i] != chain[j])
      && (cache != null ==> cache !in chain && |cache.msgs| == GRANULARITY)
      && inChunk == chain[0] && outChunk == chain[|chain| - 1]
      && (forall i {:trigger chain[i].msgs} | 0 <= i < |chain| :: chain[i].msgs == rows[i])
      && (forall i {:trigger chain[i].next} | 0 <= i < |chain| - 1 :: chain[i].next == chain[i + 1])
    }

    /** What is allocated is the chain and the cached chunk. */
    ghost predicate Owned()
      reads this`chain, this`chunks, this`cache
    {
      chunks == (set c | c in chain) + (if cache == null then {} else {cache})
    }

    ghost predicate Counted()
      reads this`count, this`mem, this`queue
    {
      && count == |queue|
      && mem == TotalSize(queue)
      && (count <= 1 || mem < maxmem)
    }

    ghost predicate Valid()
      reads this, chain, cache
    {
      && Linked() && Owned()
      && inPos < GRANULARITY && outPos < GRANULARITY && Layout(rows, inPos, outPos, queue)
      && Counted()
    }

    /** nn_msgqueue_init. */
    constructor (maxmem: nat)
      ensures Valid() && queue == [] && this.maxmem == maxmem && fresh(chunks)
    {
      var chunk := new Chunk();
      count, mem := 0, 0;
      this.maxmem := maxmem;
      outChunk, outPos := chunk, 0;
      inChunk, inPos := chunk, 0;
      cache := null;
      queue, chain, chunks, rows := [], [chunk], {chunk}, [chunk.msgs];
    }

    /** nn_msgqueue_empty. */
    predicate Empty()
      requires Valid()
      reads this, chain, cache
      ensures Empty() <==> queue == []
    {
      count == 0
    }

    /** nn_msgqueue_send. */
    method Send(m: Msg) returns (ok: bool)
      requires Valid()
      modifies this, chain
      ensures Valid() && fresh(chunks - old(chunks))
      ensures ok <==> Accepts(old(queue), maxmem, m)
      ensures queue == if ok then old(queue) + [m] else old(queue)
    {
      var msgsz := Size(m);
      if count > 0 && mem + msgsz >= maxmem { return false; }
      count := count + 1;
      mem := mem + msgsz;
      AppendSize(queue, m);
      Append(m);
      return true;
    }

    /** The message goes to the end of the chain, which has room for another afterwards. */
    method Append(m: Msg)
      requires Linked() && Owned() && outPos < GRANULARITY && Layout(rows, inPos, outPos, queue)
      modifies this`queue, this`outChunk, this`outPos, this`cache, this`chain, this`rows, this`chunks, outChunk
      ensures Linked() && Owned() && outPos < GRANULARITY && Layout(rows, inPos, outPos, queue)
      ensures queue == old(queue) + [m] && fresh(chunks - old(chunks))
    {
      Store(m);
      if outPos == GRANULARITY { Extend(); }
    }

    /** Moves the message to the chain. */
    method Store(m: Msg)
      requires Linked() && outPos < GRANULARITY && Layout(rows, inPos, outPos, queue)
      modifies this`queue, this`outPos, this`rows, outChunk`msgs
      ensures Linked() && Layout(rows, inPos, outPos, queue)
      ensures queue == old(queue) + [m] && outPos == old(outPos) + 1
    {
      LayoutWrite(rows, inPos, outPos, queue, m);
      outChunk.msgs := outChunk.msgs[outPos := m];
      rows := rows[|rows| - 1 := outChunk.msgs];
      queue := queue + [m];
      outPos := outPos + 1;
    }

    /** The cached chunk, or a new one. */
    method Spare() returns (c: Chunk)
      requires Linked() && Owned()
      modifies this`cache, this`chunks
      ensures Linked() && cache == null && c !in chain && |c.msgs| == GRANULARITY
      ensures chunks == (set x | x in chain) + {c} && fresh(chunks - old(chunks))
    {
      if cache == null {
        c := new Chunk();
        chunks := chunks + {c};
      } else {
        c := cache;
        cache := null;
      }
    }

    /** Links one more chunk at the end of the chain. */
    method Extend()
      requires Linked() && Owned() && outPos == GRANULARITY && Layout(rows, inPos, outPos, queue)
      modifies this`outChunk, this`outPos, this`cache, this`chain, this`rows, this`chunks, outChunk`next
      ensures Linked() && Owned() && outPos == 0 && Layout(rows, inPos, outPos, queue)
      ensures fresh(chunks - old(chunks))
    {
      var c := Spare();
      LayoutExtend(rows, inPos, queue, c.msgs);
      outChunk.next := c;
      outChunk := c;
      chain := chain + [c];
      rows := rows + [c.msgs];
      outPos := 0;
    }

    /** nn_msgqueue_recv. */
    method Recv() returns (r: Option<Msg>)
      requires Valid()
      modifies this
      ensures Valid() && chunks <= old(chunks)
      ensures r.None? <==> old(queue) == []
      ensures r.None? ==> queue == []
      ensures r.Some? ==> old(queue) == [r.value] + queue
    {
      if count == 0 { return None; }
      var m := Take();
      Uncount(m, old(queue));
      r := Some(m);
      assert Linked() && Owned() && Layout(rows, inPos, outPos, queue);
    }

    /** The counters after the first of the messages `was`. */
    method Uncount(m: Msg, ghost was: seq<Msg>)
      requires was == [m] + queue && count == |was| && mem == TotalSize(was) && (count <= 1 || mem < maxmem)
      modifies this`count, this`mem
      ensures Counted()
    {
      TotalSizeConcat([m], queue);
      TotalSizeOne(m);
      count := count - 1;
      mem := mem - Size(m);
    }

    /** The first message leaves the chain. */
    method Take() returns (m: Msg)
      requires Linked() && Owned() && queue != []
      requires inPos < GRANULARITY && outPos < GRANULARITY && Layout(rows, inPos, outPos, queue)
      modifies this`queue, this`inChunk, this`inPos, this`cache, this`chain, this`rows, this`chunks
      ensures Linked() && Owned() && inPos < GRANULARITY && Layout(rows, inPos, outPos, queue)
      ensures old(queue) == [m] + queue && chunks <= old(chunks)
    {
      m := Fetch();
      if inPos == GRANULARITY { Shift(); }
    }

    /** Moves the first message out of the chain. */
    method Fetch() returns (m: Msg)
      requires Linked() && inPos < GRANULARITY && Layout(rows, inPos, outPos, queue) && queue != []
      modifies this`queue, this`inPos
      ensures Linked() && Layout(rows, inPos, outPos, queue)
      ensures old(queue) == [m] + queue && inPos == old(inPos) + 1
    {
      LayoutRead(rows, inPos, outPos, queue);
      m := inChunk.msgs[inPos];
      inPos := inPos + 1;
      queue := queue[1..];
    }

    /** Unlinks the chunk that was read to its end; it becomes the cached one or is freed. */
    method Shift()
      requires Linked() && Owned() && inPos == GRANULARITY && outPos < GRANULARITY && Layout(rows, inPos, outPos, queue)
      modifies this`inChunk, this`inPos, this`cache, this`chain, this`rows, this`chunks
      ensures Linked() && Owned() && inPos == 0 && Layout(rows, inPos, outPos, queue)
      ensures chunks <= old(chunks)
    {
      LayoutDrop(rows, outPos, queue);
      var o := inChunk;
      inChunk := inChunk.next;
      inPos := 0;
      chain := chain[1..];
      rows := rows[1..];
      if cache == null { cache := o; } else { chunks := chunks - {o}; }
    }

    /** nn_msgqueue_term: every chunk still allocated is freed. */
    method Term()
      requires Valid()
      modifies this
      ensures queue == [] && chunks == {}
    {
      while true
        invariant Valid()
        decreases |queue|
      {
        var m := Recv();
        if m.None? { break; }
      }
      FreeLast();
    }

    method FreeLast()
      requires Linked() && Owned() && queue == []
      requires inPos < GRANULARITY && outPos < GRANULARITY && Layout(rows, inPos, outPos, queue)
      modifies this`chunks
      ensures chunks == {}
    {
      assert |chain| == 1;
      assert chunks == {inChunk} + (if cache == null then {} else {cache});
      chunks := chunks - {inChunk};
      if cache != null { chunks := chunks - {cache}; }
    }
  }

  lemma AppendSize(q: seq<Msg>, m: Msg)
    ensures TotalSize(q + [m]) == TotalSize(q) + Size(m)
  {
    TotalSizeConcat(q, [m]);
    TotalSizeOne(m);
  }
}
