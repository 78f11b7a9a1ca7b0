/** The raw REP socket and the REP socket on top of it: pipe keys, and one stored backtrace. */
module XRep {
  import opened Common
  import opened Message
  import opened Wire
  import opened Routing

  /** The key of the p-th pipe that was added: the counter without its top bit. */
  function KeyOf(start: uint32, p: nat): uint32 {
    (start + p) % 0x8000_0000
  }

  /** Of any 2^31 pipes added in a row, no two have the same key. */
  lemma KeysDiffer(start: uint32, p: nat, q: nat)
    requires p < q < p + TWO_31
    ensures KeyOf(start, p) != KeyOf(start, q)
  {
    var low, n := KeyOf(start, p), q - p;
    assert KeyOf(start, q) == if low + n < 0x8000_0000 then low + n else low + n - 0x8000_0000;
  }

  lemma CounterKey(start: uint32, p: nat)
    ensures ((start + p) % 0x1_0000_0000) % 0x8000_0000 == KeyOf(start, p)
    ensures Inc32((start + p) % 0x1_0000_0000) == (start + p + 1) % 0x1_0000_0000
  {
    var n := start + p;
    var q, r := n / 0x1_0000_0000, n % 0x1_0000_0000;
    assert n == 2 * q * 0x8000_0000 + r;
    LowBits(2 * q, r);
  }

  lemma LowBits(q: nat, r: nat)
    ensures (q * 0x8000_0000 + r) % 0x8000_0000 == r % 0x8000_0000
  {}

  /** Every pipe is stored under its own key. */
  ghost predicate Numbered(start: uint32, added: nat, out: Routes) {
    forall key | key in out :: out[key].pipe < added && key == KeyOf(start, out[key].pipe)
  }

  predicate Ready(out: Routes, p: nat) {
    exists key | key in out :: out[key] == Out(p, true)
  }

  class XRep {
    var maxttl: int
    var nextKey: uint32
    var out: Routes
    /** How many pipes were added so far; a pipe is known by its number. */
    var added: nat
    /** nn_hash_insert has found the key in use. */
    var aborted: bool
    ghost const start: uint32

    ghost predicate Valid()
      reads this
    {
      && !aborted
      && nextKey == (start + added) % 0x1_0000_0000
      && Numbered(start, added, out)
    }

    /** nn_xrep_init: the first key is random. */
    constructor (seed: uint32)
      ensures Valid() && out == map[] && added == 0
    {
      maxttl, nextKey, out, added, aborted := 8, seed, map[], 0, false;
      start := seed;
    }

    /** nn_xrep_add: it fails if and only if a pipe added a multiple of 2^31 pipes ago is still there. */
    method Add() returns (p: nat)
      requires Valid()
      modifies this
      ensures p == old(added)
      ensures aborted <==> KeyOf(start, p) in old(out)
      ensures old(added) < TWO_31 ==> !aborted
      ensures aborted ==> added == old(added)
      ensures !aborted ==>
                && Valid() && added == old(added) + 1
                && KeyOf(start, p) < TWO_31
                && out == old(out)[KeyOf(start, p) := Out(p, false)]
    {
      CounterKey(start, added);
      forall key | key in out && out[key].pipe > added - TWO_31 ensures key != KeyOf(start, added) {
        KeysDiffer(start, out[key].pipe, added);
      }
      p := added;
      var key := nextKey % 0x8000_0000;
      if key in out {
        aborted := true;
        return;
      }
      out := out[key := Out(p, false)];
      nextKey := Inc32(nextKey);
      added := added + 1;
    }

    /** nn_xrep_rm; `key` is the one stored with the pipe. */
    method Rm(key: uint32)
      requires Valid() && key in out
      modifies this`out
      ensures Valid() && out == old(out) - {key}
    {
      out := out - {key};
    }

    /** nn_xrep_out. */
    method MarkOut(key: uint32)
      requires Valid() && key in out
      modifies this`out
      ensures Valid() && out == old(out)[key := old(out)[key].(writable := true)]
    {
      out := out[key := out[key].(writable := true)];
    }

    /** nn_xrep_send. `release` is what the pipe says when it has taken the message. */
    method Send(m: Msg, release: bool) returns (r: Option<(nat, Bytes)>)
      requires Valid()
      modifies this`out
      ensures Valid()
      ensures r == XRepSend(old(out), m)
      ensures if r.Some? && release
              then var key := GetL(m.sphdr);
                   key in old(out) && out == old(out)[key := old(out)[key].(writable := false)]
              else out == old(out)
    {
      if |m.sphdr| < 4 { return None; }
      var key := GetL(m.sphdr);
      if key !in out || !out[key].writable { return None; }
      r := Some((out[key].pipe, OnWire(Msg(m.sphdr[4..], m.body))));
      if release { out := out[key := out[key].(writable := false)]; }
    }

    /** nn_xrep_recv on a message from the pipe with `key`. */
    method Recv(key: uint32, wire: Bytes) returns (r: Option<Msg>)
      ensures r == XRepRecv(key, maxttl, wire)
    {
      var bottom := FindBottom(wire);
      if bottom.None? { return None; }
      var i := bottom.value + 1;
      if i > maxttl { return None; }
      return Some(Msg(PutL(key) + wire[..4 * i], wire[4 * i..]));
    }
  }

  /** The loop of nn_xrep_recv over the words of the header. */
  method FindBottom(wire: Bytes) returns (r: Option<nat>)
    ensures r == Bottom(wire, 0)
  {
    var i: nat := 0;
    while true
      invariant Bottom(wire, 0) == Bottom(wire, i)
      decreases |wire| - 4 * i
    {
      if (i + 1) * 4 > |wire| { return None; }
      if GetL(wire[4 * i..]) >= TWO_31 { return Some(i); }
      i := i + 1;
    }
  }

  /** A reply is given up silently if its pipe is gone or busy. */
  datatype SendResult = EFSM | Dropped | Delivered(pipe: nat, wire: Bytes)

  /** A request handed to the user, or a reply put on a pipe. */
  datatype Event = Request(pipe: nat, wire: Bytes) | Reply(pipe: nat, wire: Bytes, body: Bytes)

  /** The words of a request up to the bottom of its stack. */
  function Header(wire: Bytes): Bytes {
    match Bottom(wire, 0)
    case None => []
    case Some(i) => wire[..4 * (i + 1)]
  }

  /** A reply stands right after the request it answers: it has that request's header, and the pipes
      have the same key. */
  ghost predicate Paired(start: uint32, log: seq<Event>) {
    forall k | 0 <= k < |log| && log[k].Reply? ::
      && k > 0 && log[k - 1].Request?
      && KeyOf(start, log[k].pipe) == KeyOf(start, log[k - 1].pipe)
      && log[k].wire == Header(log[k - 1].wire) + log[k].body
  }

  ghost predicate Known(log: seq<Event>, added: nat) {
    forall k | 0 <= k < |log| :: log[k].pipe < added
  }

  /** No reply goes to another pipe than the one its request came from. */
  ghost predicate Faithful(log: seq<Event>) {
    forall k | 0 <= k < |log| && log[k].Reply? ::
      && k > 0 && log[k - 1].Request? && log[k - 1].pipe == log[k].pipe
      && log[k].wire == Header(log[k - 1].wire) + log[k].body
  }

  lemma PairedFaithful(start: uint32, log: seq<Event>, added: nat)
    requires Paired(start, log) && Known(log, added) && added <= TWO_31
    ensures Faithful(log)
  {
    forall k | 0 <= k < |log| && log[k].Reply? ensures log[k - 1].pipe == log[k].pipe {
      var p, q := log[k - 1].pipe, log[k].pipe;
      if p < q { KeysDiffer(start, p, q); } else if q < p { KeysDiffer(start, q, p); }
    }
  }

  /** A key leads to its own pipe or to none. */
  lemma OwnKey(start: uint32, added: nat, out: Routes, p: nat)
    requires p < added <= TWO_31
    requires Numbered(start, added, out)
    ensures forall key | key in out :: out[key].pipe == p <==> key == KeyOf(start, p)
  {
    forall key | key in out ensures out[key].pipe == p <==> key == KeyOf(start, p) {
      var q := out[key].pipe;
      if q < p { KeysDiffer(start, q, p); } else if p < q { KeysDiffer(start, p, q); }
    }
  }

  /** Where the reply to `request` goes. */
  lemma ReplyRoute(start: uint32, added: nat, out: Routes, request: Event, m: Msg)
    requires Numbered(start, added, out) && request.Request? && request.pipe < added
    requires m.sphdr == PutL(KeyOf(start, request.pipe)) + Header(request.wire)
    ensures var r := XRepSend(out, m);
            && (r.Some? ==>
                  && r.value.0 < added && KeyOf(start, r.value.0) == KeyOf(start, request.pipe)
                  && r.value.1 == Header(request.wire) + m.body)
            && (added <= TWO_31 ==> (r.Some? <==> Ready(out, request.pipe)))
  {
    var key := KeyOf(start, request.pipe);
    GetPut(key);
    GetLFirst(PutL(key), Header(request.wire));
    assert m.sphdr[4..] == Header(request.wire);
    if added <= TWO_31 { OwnKey(start, added, out, request.pipe); }
  }

  lemma PairedReply(start: uint32, log: seq<Event>, e: Event)
    requires Paired(start, log) && log != [] && log[|log| - 1].Request? && e.Reply?
    requires KeyOf(start, e.pipe) == KeyOf(start, log[|log| - 1].pipe)
    requires e.wire == Header(log[|log| - 1].wire) + e.body
    ensures Paired(start, log + [e])
  {}

  /** A message the fair queue delivers, with the key of its pipe. */
  datatype Inbound = Inbound(key: uint32, wire: Bytes)

  class Rep {
    const xrep: XRep
    var inProgress: bool
    var backtrace: Bytes
    ghost var log: seq<Event>

    ghost predicate Valid()
      reads this, xrep
    {
      && xrep.Valid()
      && Paired(xrep.start, log) && Known(log, xrep.added)
      && (inProgress ==>
            && log != [] && log[|log| - 1].Request?
            && backtrace == PutL(KeyOf(xrep.start, log[|log| - 1].pipe)) + Header(log[|log| - 1].wire))
    }

    constructor (xrep: XRep)
      requires xrep.Valid()
      ensures Valid() && this.xrep == xrep && !inProgress && log == []
    {
      this.xrep := xrep;
      inProgress, backtrace, log := false, [], [];
    }

    /** nn_rep_recv: a request that is still being processed is given up first, even if there is no
        message to receive. */
    method Recv(inbound: Option<Inbound>) returns (body: Option<Bytes>)
      requires Valid() && (inbound.Some? ==> inbound.value.key in xrep.out)
      modifies this
      ensures Valid()
      ensures inProgress == body.Some?
      ensures body.Some? <==>
                inbound.Some? && Bottom(inbound.value.wire, 0).Some? && |Header(inbound.value.wire)| <= 4 * xrep.maxttl
      ensures body.Some? ==> inbound.value.wire == Header(inbound.value.wire) + body.value
      ensures log == old(log) +
                if body.Some? then [Request(xrep.out[inbound.value.key].pipe, inbound.value.wire)] else []
    {
      inProgress := false;
      if inbound.None? { return None; }
      var Inbound(key, wire) := inbound.value;
      var m := xrep.Recv(key, wire);
      if m.None? { return None; }
      backtrace := m.value.sphdr;
      inProgress := true;
      log := log + [Request(xrep.out[key].pipe, wire)];
      return Some(m.value.body);
    }

    /** nn_rep_send: EFSM if and only if no request is in progress, and a request takes one reply. Up
        to 2^31 pipes, the reply is delivered if and only if the pipe its request came from is there
        and ready. */
    method Send(body: Bytes, release: bool) returns (r: SendResult)
      requires Valid()
      modifies this, xrep`out
      ensures Valid() && !inProgress
      ensures r == EFSM <==> !old(inProgress)
      ensures log == old(log) + if r.Delivered? then [Reply(r.pipe, r.wire, body)] else []
      ensures xrep.added <= TWO_31 && old(inProgress) ==>
                (r.Delivered? <==> Ready(old(xrep.out), old(log)[|old(log)| - 1].pipe))
    {
      if !inProgress { return EFSM; }
      var m := Msg(backtrace, body);
      inProgress := false;
      ReplyRoute(xrep.start, xrep.added, xrep.out, log[|log| - 1], m);
      var sent := xrep.Send(m, release);
      if sent.None? { return Dropped; }
      r := Delivered(sent.value.0, sent.value.1);
      PairedReply(xrep.start, log, Reply(r.pipe, r.wire, body));
      log := log + [Reply(r.pipe, r.wire, body)];
    }
  }

  /** So the raw socket is a hop of the kind the exchange theorem speaks of. */
  lemma HopKeyed(start: uint32, added: nat, out: Routes, p: nat, maxttl: int, there: Leg, back: Leg)
    requires p < added <= TWO_31
    requires Numbered(start, added, out)
    ensures Keyed(Hop(p, KeyOf(start, p), maxttl, out, there, back))
  {
    OwnKey(start, added, out, p);
  }

  datatype Input =
    | AddPipe
    | RmPipe(key: uint32)
    | OutReady(key: uint32)
    | Receive(inbound: Option<Inbound>)
    | SendReply(body: Bytes, release: bool)

  /** One step; the pipe it is about is one of the socket's pipes. */
  method Perform(rep: Rep, input: Input)
    requires rep.Valid()
    modifies rep, rep.xrep
    ensures !rep.xrep.aborted ==> rep.Valid()
    ensures old(rep.xrep.added) <= rep.xrep.added <= old(rep.xrep.added) + 1
    ensures rep.xrep.aborted ==> rep.xrep.added >= TWO_31
    ensures old(rep.log) <= rep.log
  {
    match input {
      case AddPipe => var _ := rep.xrep.Add();
      case RmPipe(key) => if key in rep.xrep.out { rep.xrep.Rm(key); }
      case OutReady(key) => if key in rep.xrep.out { rep.xrep.MarkOut(key); }
      case Receive(inbound) =>
        if inbound.Some? ==> inbound.value.key in rep.xrep.out { var _ := rep.Recv(inbound); }
      case SendReply(body, release) => var _ := rep.Send(body, release);
    }
  }

  /** Any run: with at most 2^31 pipes nothing fails, the pipes have different keys, and every reply
      goes to the pipe that its own request came from, whatever pipes come and go in between. */
  method Run(seed: uint32, inputs: seq<Input>) returns (rep: Rep)
    ensures !rep.xrep.aborted ==> rep.Valid()
    ensures rep.xrep.added <= |inputs|
    ensures rep.xrep.aborted ==> rep.xrep.added >= TWO_31
    ensures rep.xrep.added <= TWO_31 && !rep.xrep.aborted ==> Faithful(rep.log)
  {
    var xrep := new XRep(seed);
    rep := new Rep(xrep);
    for n := 0 to |inputs|
      invariant rep.xrep.added <= n && fresh(rep) && fresh(rep.xrep)
      invariant rep.Valid()
    {
      Perform(rep, inputs[n]);
      if rep.xrep.aborted { return; }
    }
    if rep.xrep.added <= TWO_31 { PairedFaithful(rep.xrep.start, rep.log, rep.xrep.added); }
  }
}
