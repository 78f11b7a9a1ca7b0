/** Reference-counted chunks, and a distributor that sends one message to many pipes by counting
    its references up in bulk and handing out plain copies. */
module Dist {
  import opened Common

  type ChunkId = nat
  type Pipe = nat

  datatype Chunk = Chunk(refcount: nat, data: Bytes)

  /** A chunkref holds a short string itself and a longer one in a chunk. */
  datatype Ref = Inline(data: Bytes) | Heap(id: ChunkId)
  datatype Msg = Msg(sphdr: Ref, hdrs: Ref, body: Ref)

  /** How many references to a chunk `n` copies of a chunkref have. */
  function RefUses(r: Ref, n: nat, id: ChunkId): nat {
    if r == Heap(id) then n else 0
  }

  function MsgUses(m: Msg, n: nat, id: ChunkId): nat {
    RefUses(m.sphdr, n, id) + RefUses(m.hdrs, n, id) + RefUses(m.body, n, id)
  }

  /** How many references to a chunk all messages in a list have. */
  function Uses(ms: seq<Msg>, id: ChunkId): nat {
    if ms == [] then 0 else Uses(ms[..|ms| - 1], id) + MsgUses(ms[|ms| - 1], 1, id)
  }

  lemma {:induction false} UsesConcat(a: seq<Msg>, b: seq<Msg>, id: ChunkId)
    ensures Uses(a + b, id) == Uses(a, id) + Uses(b, id)
  {
    if b == [] {
      assert a + b == a;
    } else {
      assert (a + b)[..|a + b| - 1] == a + b[..|b| - 1];
      UsesConcat(a, b[..|b| - 1], id);
    }
  }

  lemma UsesWithout(ms: seq<Msg>, k: nat, id: ChunkId)
    requires k < |ms|
    ensures Uses(ms, id) == Uses(ms[..k] + ms[k + 1..], id) + MsgUses(ms[k], 1, id)
  {
    assert ms == ms[..k] + [ms[k]] + ms[k + 1..];
    UsesConcat(ms[..k] + [ms[k]], ms[k + 1..], id);
    UsesConcat(ms[..k], [ms[k]], id);
    UsesConcat(ms[..k], ms[k + 1..], id);
  }

  function Repeat<T>(x: T, n: nat): seq<T> {
    seq(n, i requires 0 <= i < n => x)
  }

  lemma {:induction false} UsesRepeat(m: Msg, n: nat, id: ChunkId)
    ensures Uses(Repeat(m, n), id) == MsgUses(m, n, id)
  {
    if n > 0 {
      assert Repeat(m, n)[..n - 1] == Repeat(m, n - 1);
      UsesRepeat(m, n - 1, id);
    }
  }

  /** The counter of a chunk, zero if there is no such chunk. */
  function Count(chunks: map<ChunkId, Chunk>, id: ChunkId): nat {
    if id in chunks then chunks[id].refcount else 0
  }

  ghost predicate Positive(chunks: map<ChunkId, Chunk>) {
    forall id | id in chunks :: chunks[id].refcount > 0
  }

  /** The chunks hold what they held before. */
  ghost predicate SameData(before: map<ChunkId, Chunk>, after: map<ChunkId, Chunk>) {
    forall id | id in after :: id in before && after[id].data == before[id].data
  }

  /** The chunks that exist, and the messages that refer to them. */
  class Pool {
    var chunks: map<ChunkId, Chunk>
    var nextId: ChunkId
    ghost var held: seq<Msg>

    /** The counter of every chunk is the number of references to it; without a reference there is no
        chunk, and there is no reference without a chunk. */
    ghost predicate Valid()
      reads this
    {
      && Numbered()
      && forall id :: Count(chunks, id) == Uses(held, id)
    }

    ghost predicate Numbered()
      reads this
    {
      Positive(chunks) && forall id | id in chunks :: id < nextId
    }

    constructor ()
      ensures Valid() && chunks == map[] && held == []
    {
      chunks, nextId, held := map[], 0, [];
    }

    /** nn_chunk_alloc. */
    method Alloc(data: Bytes) returns (id: ChunkId)
      requires Numbered()
      modifies this`chunks, this`nextId
      ensures Numbered() && id !in old(chunks)
      ensures chunks == old(chunks)[id := Chunk(1, data)]
    {
      id := nextId;
      chunks := chunks[id := Chunk(1, data)];
      nextId := nextId + 1;
    }

    /** nn_chunkref_bulkcopy_start: `copies` references more, of which the copies are made later. */
    method BulkCopyStart(r: Ref, copies: nat)
      requires Numbered() && (r.Heap? ==> Count(chunks, r.id) > 0)
      modifies this`chunks
      ensures Numbered() && SameData(old(chunks), chunks)
      ensures forall id :: Count(chunks, id) == Count(old(chunks), id) + RefUses(r, copies, id)
    {
      if r.Heap? {
        var c := chunks[r.id];
        chunks := chunks[r.id := c.(refcount := c.refcount + copies)];
      }
    }

    /** nn_chunkref_term: the chunk is deallocated with its last reference. */
    method Term(r: Ref)
      requires Numbered() && (r.Heap? ==> Count(chunks, r.id) > 0)
      modifies this`chunks
      ensures Numbered() && SameData(old(chunks), chunks)
      ensures forall id :: Count(chunks, id) == Count(old(chunks), id) - RefUses(r, 1, id)
    {
      if r.Heap? {
        var c := chunks[r.id];
        if c.refcount <= 1 {
          chunks := chunks - {r.id};
        } else {
          chunks := chunks[r.id := c.(refcount := c.refcount - 1)];
        }
      }
    }

    /** nn_msg_bulkcopy_start. */
    method MsgBulkCopyStart(m: Msg, copies: nat)
      requires Valid() && held != [] && held[|held| - 1] == m
      modifies this`chunks, this`held
      ensures Valid() && SameData(old(chunks), chunks)
      ensures held == old(held) + Repeat(m, copies)
    {
      assert forall id :: Count(chunks, id) >= MsgUses(m, 1, id);
      BulkCopyStart(m.sphdr, copies);
      BulkCopyStart(m.hdrs, copies);
      BulkCopyStart(m.body, copies);
      forall id ensures Uses(held + Repeat(m, copies), id) == Uses(held, id) + MsgUses(m, copies, id) {
        UsesConcat(held, Repeat(m, copies), id);
        UsesRepeat(m, copies, id);
      }
      held := held + Repeat(m, copies);
    }

    /** nn_msg_term. */
    method MsgTerm(m: Msg, ghost k: nat)
      requires Valid() && k < |held| && held[k] == m
      modifies this`chunks, this`held
      ensures Valid() && SameData(old(chunks), chunks)
      ensures held == old(held)[..k] + old(held)[k + 1..]
    {
      forall id ensures Uses(held, id) == Uses(held[..k] + held[k + 1..], id) + MsgUses(m, 1, id) {
        UsesWithout(held, k, id);
      }
      held := held[..k] + held[k + 1..];
      assert forall id :: Count(chunks, id) == Uses(held, id) + MsgUses(m, 1, id);
      Term(m.sphdr);
      Term(m.hdrs);
      Term(m.body);
    }
  }

  /** The pipes that get a copy. */
  function Targets(pipes: seq<Pipe>, exclude: Option<Pipe>): seq<Pipe> {
    if pipes == [] then []
    else
      var p := pipes[|pipes| - 1];
      Targets(pipes[..|pipes| - 1], exclude) + if exclude == Some(p) then [] else [p]
  }

  /** A pipe stays ready if it got no copy or can take another. */
  predicate Stays(p: Pipe, exclude: Option<Pipe>, release: set<Pipe>) {
    exclude == Some(p) || p !in release
  }

  function Staying(pipes: seq<Pipe>, exclude: Option<Pipe>, release: set<Pipe>): seq<Pipe> {
    if pipes == [] then []
    else
      var p := pipes[|pipes| - 1];
      Staying(pipes[..|pipes| - 1], exclude, release) +
      if Stays(p, exclude, release) then [p] else []
  }

  lemma {:induction false} StayingDistinct(pipes: seq<Pipe>, exclude: Option<Pipe>, release: set<Pipe>)
    requires Distinct(pipes)
    ensures Distinct(Staying(pipes, exclude, release))
    ensures forall p :: p in Staying(pipes, exclude, release) <==>
                          p in pipes && Stays(p, exclude, release)
  {
    if pipes != [] {
      var front, p := pipes[..|pipes| - 1], pipes[|pipes| - 1];
      assert pipes == front + [p];
      StayingDistinct(front, exclude, release);
    }
  }

  /** Every pipe but `exclude` gets exactly one copy. */
  lemma {:induction false} TargetsOnce(pipes: seq<Pipe>, exclude: Option<Pipe>)
    requires Distinct(pipes)
    ensures Distinct(Targets(pipes, exclude))
    ensures forall p :: p in Targets(pipes, exclude) <==> p in pipes && exclude != Some(p)
  {
    if pipes != [] {
      var front, p := pipes[..|pipes| - 1], pipes[|pipes| - 1];
      assert pipes == front + [p];
      TargetsOnce(front, exclude);
    }
  }

  datatype Delivery = Delivery(pipe: Pipe, msg: Msg)

  function Deliveries(pipes: seq<Pipe>, m: Msg): seq<Delivery> {
    seq(|pipes|, i requires 0 <= i < |pipes| => Delivery(pipes[i], m))
  }

  class Dist {
    const pool: Pool
    var count: nat
    var pipes: seq<Pipe>
    /** The messages that the pipes hold, in the order they were sent. */
    var sent: seq<Delivery>

    ghost predicate Valid()
      reads this, pool
    {
      && pool.Valid()
      && count == |pipes|
      && Distinct(pipes)
    }

    /** nn_dist_init. */
    constructor (pool: Pool)
      requires pool.Valid()
      ensures Valid() && this.pool == pool && pipes == [] && sent == []
    {
      this.pool := pool;
      count, pipes, sent := 0, [], [];
    }

    /** nn_dist_out, of a pipe that is not in the list. */
    method MarkOut(p: Pipe)
      requires Valid() && p !in pipes
      modifies this`count, this`pipes
      ensures Valid() && pipes == old(pipes) + [p]
    {
      count := count + 1;
      pipes := pipes + [p];
    }

    /** nn_dist_rm, of a pipe that may be in the list. */
    method Rm(p: Pipe)
      requires Valid()
      modifies this`count, this`pipes
      ensures Valid()
      ensures p !in pipes && forall q :: q != p ==> (q in pipes <==> q in old(pipes))
      ensures p !in old(pipes) ==> pipes == old(pipes)
    {
      if p in pipes {
        var i :| 0 <= i < |pipes| && pipes[i] == p;
        count := count - 1;
        pipes := pipes[..i] + pipes[i + 1..];
      }
    }

    /** One pass of the loop of nn_dist_send: the i-th pipe gets a copy or not, and stays or not. */
    method SendNext(i: nat, m: Msg, exclude: Option<Pipe>, release: set<Pipe>) returns (next: nat)
      requires pool.Valid() && count == |pipes| && i < |pipes|
      requires pool.held != [] && pool.held[|pool.held| - 1] == m
      modifies this, pool
      ensures pool.Valid() && SameData(old(pool.chunks), pool.chunks) && count == |pipes|
      ensures next <= |pipes| && pipes[next..] == old(pipes)[i..][1..]
      ensures var p := old(pipes)[i];
              && pipes[..next] == old(pipes)[..i] + (if Stays(p, exclude, release) then [p] else [])
              && sent == old(sent) + (if exclude == Some(p) then [] else [Delivery(p, m)])
              && pool.held == if exclude == Some(p) then old(pool.held)[..|old(pool.held)| - 1] else old(pool.held)
    {
      next := i + 1;
      if exclude == Some(pipes[i]) {
        pool.MsgTerm(m, |pool.held| - 1);
      } else {
        sent := sent + [Delivery(pipes[i], m)];
        if pipes[i] in release {
          count := count - 1;
          pipes := pipes[..i] + pipes[i + 1..];
          next := i;
        }
      }
    }

    /** The loop of nn_dist_send; the references of all copies are counted already. */
    method SendAll(m: Msg, exclude: Option<Pipe>, release: set<Pipe>, ghost rest: seq<Msg>)
      requires Valid() && pool.held == rest + Repeat(m, |pipes| + 1)
      modifies this, pool
      ensures pool.Valid() && SameData(old(pool.chunks), pool.chunks) && count == |pipes|
      ensures pipes == Staying(old(pipes), exclude, release)
      ensures sent == old(sent) + Deliveries(Targets(old(pipes), exclude), m)
      ensures pool.held == rest + Repeat(m, |Targets(old(pipes), exclude)| + 1)
    {
      ghost var all := pipes;
      ghost var n: nat := 0;
      var i: nat := 0;
      while i < |pipes|
        invariant i <= |pipes| && n <= |all|
        invariant Passed(all, n, exclude, release, pipes[..i], pipes[i..])
        invariant Handed(all, n, exclude, m, old(sent), rest, sent, pool.held)
        invariant pool.Valid() && SameData(old(pool.chunks), pool.chunks) && count == |pipes|
        decreases |all| - n
      {
        PassedStep(all, n, exclude, release, pipes[..i], pipes[i..]);
        HandedStep(all, n, exclude, m, old(sent), rest, sent, pool.held);
        i := SendNext(i, m, exclude, release);
        n := n + 1;
      }
      assert n == |all| && all[..n] == all && pipes[..i] == pipes;
    }

    /** nn_dist_send: every pipe in the list but `exclude` gets one equal copy, in order; those that
        cannot take another (the set `release`) leave the list. The references of the message become
        those of the copies, so that a message nobody gets is deallocated. */
    method Send(m: Msg, exclude: Option<Pipe>, release: set<Pipe>, ghost rest: seq<Msg>)
      requires Valid() && pool.held == rest + [m]
      modifies this, pool
      ensures Valid() && SameData(old(pool.chunks), pool.chunks)
      ensures pipes == Staying(old(pipes), exclude, release)
      ensures sent == old(sent) + Deliveries(Targets(old(pipes), exclude), m)
      ensures pool.held == rest + Repeat(m, |Targets(old(pipes), exclude)|)
    {
      StayingDistinct(pipes, exclude, release);
      if count == 0 {
        pool.MsgTerm(m, |rest|);
        return;
      }
      pool.MsgBulkCopyStart(m, count);
      assert rest + [m] + Repeat(m, count) == rest + Repeat(m, count + 1);
      ghost var copies := |Targets(pipes, exclude)|;
      SendAll(m, exclude, release, rest);
      RepeatLess(rest, m, copies + 1);
      pool.MsgTerm(m, |rest| + copies);
    }
  }

  lemma RepeatLess(rest: seq<Msg>, m: Msg, n: nat)
    requires n > 0
    ensures var all := rest + Repeat(m, n);
            all[|all| - 1] == m && all[..|all| - 1] == rest + Repeat(m, n - 1)
  {}

  /** After n pipes: those behind the loop and those before it. */
  ghost predicate Passed(all: seq<Pipe>, n: nat, exclude: Option<Pipe>, release: set<Pipe>,
                         done: seq<Pipe>, todo: seq<Pipe>)
    requires n <= |all|
  {
    done == Staying(all[..n], exclude, release) && todo == all[n..]
  }

  lemma PassedStep(all: seq<Pipe>, n: nat, exclude: Option<Pipe>, release: set<Pipe>,
                   done: seq<Pipe>, todo: seq<Pipe>)
    requires n <= |all| && todo != [] && Passed(all, n, exclude, release, done, todo)
    ensures n < |all| && todo[0] == all[n]
    ensures Passed(all, n + 1, exclude, release,
                   done + (if Stays(todo[0], exclude, release) then [todo[0]] else []), todo[1..])
  {
    assert all[..n + 1][..n] == all[..n];
  }

  /** After n pipes: the copies handed over, and those that are still to be made. */
  ghost predicate Handed(all: seq<Pipe>, n: nat, exclude: Option<Pipe>, m: Msg, was: seq<Delivery>, rest: seq<Msg>,
                         sent: seq<Delivery>, held: seq<Msg>)
    requires n <= |all|
  {
    && sent == was + Deliveries(Targets(all[..n], exclude), m)
    && held == rest + Repeat(m, |Targets(all[..n], exclude)| + |all| - n + 1)
  }

  lemma HandedStep(all: seq<Pipe>, n: nat, exclude: Option<Pipe>, m: Msg, was: seq<Delivery>, rest: seq<Msg>,
                   sent: seq<Delivery>, held: seq<Msg>)
    requires n < |all| && Handed(all, n, exclude, m, was, rest, sent, held)
    ensures held != [] && held[|held| - 1] == m
    ensures if exclude == Some(all[n])
            then Handed(all, n + 1, exclude, m, was, rest, sent, held[..|held| - 1])
            else Handed(all, n + 1, exclude, m, was, rest, sent + [Delivery(all[n], m)], held)
  {
    assert all[..n + 1][..n] == all[..n];
    RepeatLess(rest, m, |Targets(all[..n], exclude)| + |all| - n + 1);
  }

  /** What a reader of the reference sees. */
  function Contents(chunks: map<ChunkId, Chunk>, r: Ref): Option<Bytes> {
    match r
    case Inline(data) => Some(data)
    case Heap(id) => if id in chunks then Some(chunks[id].data) else None
  }

  const CHUNKREF_MAX := 32

  /** nn_chunkref_init, filled with `data`, which is stored in the reference itself if there is room for
      it beside its length. */
  method MakeRef(pool: Pool, data: Bytes) returns (r: Ref)
    requires pool.Numbered()
    modifies pool`chunks, pool`nextId
    ensures pool.Numbered() && Contents(pool.chunks, r) == Some(data)
    ensures r.Inline? <==> 1 + |data| <= CHUNKREF_MAX
    ensures forall id :: Count(pool.chunks, id) == Count(old(pool.chunks), id) + RefUses(r, 1, id)
    ensures SameData(pool.chunks, old(pool.chunks))
  {
    if |data| < CHUNKREF_MAX { return Inline(data); }
    var id := pool.Alloc(data);
    return Heap(id);
  }

  /** A message with the given header and body. */
  method MakeMsg(pool: Pool, sphdr: Bytes, body: Bytes) returns (m: Msg)
    requires pool.Valid()
    modifies pool
    ensures pool.Valid() && pool.held == old(pool.held) + [m]
    ensures Contents(pool.chunks, m.sphdr) == Some(sphdr) && Contents(pool.chunks, m.body) == Some(body)
    ensures SameData(pool.chunks, old(pool.chunks))
  {
    var h := MakeRef(pool, sphdr);
    var b := MakeRef(pool, body);
    m := Msg(h, Inline([]), b);
    forall id ensures Uses(pool.held + [m], id) == Uses(pool.held, id) + MsgUses(m, 1, id) {
      UsesConcat(pool.held, [m], id);
    }
    pool.held := pool.held + [m];
  }

  function Messages(ds: seq<Delivery>): seq<Msg> {
    seq(|ds|, i requires 0 <= i < |ds| => ds[i].msg)
  }

  /** Between calls, only the messages in the pipes refer to chunks. */
  ghost predicate Settled(d: Dist)
    reads d, d.pool
  {
    d.Valid() && d.pool.held == Messages(d.sent)
  }

  datatype Text = Text(sphdr: Bytes, body: Bytes)

  /** The messages read as `texts` says. */
  ghost predicate Reads(ms: seq<Msg>, chunks: map<ChunkId, Chunk>, texts: seq<Text>) {
    |ms| == |texts| && forall k | 0 <= k < |ms| ::
      Contents(chunks, ms[k].sphdr) == Some(texts[k].sphdr) && Contents(chunks, ms[k].body) == Some(texts[k].body)
  }

  /** A message that is still held reads the same, whatever happened to the other references. */
  lemma ReadsKept(ms: seq<Msg>, before: map<ChunkId, Chunk>, after: map<ChunkId, Chunk>, texts: seq<Text>)
    requires Reads(ms, before, texts)
    requires SameData(before, after) && forall id :: Count(after, id) == Uses(ms, id)
    ensures Reads(ms, after, texts)
  {
    forall k | 0 <= k < |ms|
      ensures Contents(after, ms[k].sphdr) == Some(texts[k].sphdr) && Contents(after, ms[k].body) == Some(texts[k].body)
    {
      if ms[k].sphdr.Heap? { UsesWithout(ms, k, ms[k].sphdr.id); }
      if ms[k].body.Heap? { UsesWithout(ms, k, ms[k].body.id); }
    }
  }

  /** A message is made and sent to all ready pipes but one. */
  method PublishTo(d: Dist, text: Text, exclude: Option<Pipe>, release: set<Pipe>, ghost texts: seq<Text>)
    requires Settled(d) && Reads(d.pool.held, d.pool.chunks, texts)
    modifies d, d.pool
    ensures Settled(d)
    ensures Reads(d.pool.held, d.pool.chunks, texts + Repeat(text, |Targets(old(d.pipes), exclude)|))
  {
    ghost var rest, copies := d.pool.held, |Targets(d.pipes, exclude)|;
    var m := MakeMsg(d.pool, text.sphdr, text.body);
    ghost var filled := d.pool.chunks;
    d.Send(m, exclude, release, rest);
    assert Reads(rest + Repeat(m, copies), filled, texts + Repeat(text, copies));
    ReadsKept(rest + Repeat(m, copies), filled, d.pool.chunks, texts + Repeat(text, copies));
    assert Messages(d.sent) == rest + Repeat(m, copies);
  }

  /** The reader of a pipe is done with the k-th message. */
  method Finish(d: Dist, k: nat, ghost texts: seq<Text>)
    requires Settled(d) && Reads(d.pool.held, d.pool.chunks, texts) && k < |d.sent|
    modifies d, d.pool
    ensures Settled(d)
    ensures Reads(d.pool.held, d.pool.chunks, texts[..k] + texts[k + 1..])
  {
    ghost var before := d.pool.chunks;
    d.pool.MsgTerm(d.sent[k].msg, k);
    d.sent := d.sent[..k] + d.sent[k + 1..];
    assert Messages(d.sent) == d.pool.held;
    assert Reads(d.pool.held, before, texts[..k] + texts[k + 1..]);
    ReadsKept(d.pool.held, before, d.pool.chunks, texts[..k] + texts[k + 1..]);
  }

  datatype Input =
    | PipeOut(p: Pipe)
    | RmPipe(p: Pipe)
    | Publish(text: Text, exclude: Option<Pipe>, release: set<Pipe>)
    | Consume(k: nat)

  /** Any run from an empty socket: the counters are always right, every message in a pipe reads as it
      was published, and when the pipes hold no message there is no chunk left. */
  method Run(inputs: seq<Input>) returns (d: Dist, ghost texts: seq<Text>)
    ensures Settled(d) && Reads(d.pool.held, d.pool.chunks, texts)
    ensures d.sent == [] ==> d.pool.chunks == map[]
  {
    var pool := new Pool();
    d := new Dist(pool);
    texts := [];
    for n := 0 to |inputs|
      invariant fresh(d) && fresh(d.pool)
      invariant Settled(d) && Reads(d.pool.held, d.pool.chunks, texts)
    {
      match inputs[n] {
        case PipeOut(p) => if p !in d.pipes { d.MarkOut(p); }
        case RmPipe(p) => d.Rm(p);
        case Publish(text, exclude, release) =>
          ghost var copies := |Targets(d.pipes, exclude)|;
          PublishTo(d, text, exclude, release, texts);
          texts := texts + Repeat(text, copies);
        case Consume(k) =>
          if k < |d.sent| {
            Finish(d, k, texts);
            texts := texts[..k] + texts[k + 1..];
          }
      }
    }
    assert d.sent == [] ==> forall id :: Count(d.pool.chunks, id) == 0;
    assert d.sent == [] ==> forall id | id in d.pool.chunks :: Count(d.pool.chunks, id) > 0;
  }
}
