/** The backtrace of a request: each raw REP socket on its way pushes the key of the pipe the request
    came from, and the reply pops the keys again, through any number of devices. */
module Routing {
  import opened Common
  import opened Message
  import opened Wire
  import Req
  import Cmsg

  /** A pipe a reply can go to, and whether it is ready for sending. */
  datatype Out = Out(pipe: nat, writable: bool)
  type Routes = map<uint32, Out>

  /** Every transport sends the header and the body as one string of bytes. */
  function OnWire(m: Msg): Bytes {
    m.sphdr + m.body
  }

  /** The first 32-bit word, from word `i` on, that has its top bit set. */
  function Bottom(wire: Bytes, i: nat): (r: Option<nat>)
    ensures r.Some? ==> i <= r.value && 4 * (r.value + 1) <= |wire|
    decreases |wire| - 4 * i
  {
    if 4 * (i + 1) > |wire| then None
    else if GetL(wire[4 * i..]) >= TWO_31 then Some(i)
    else Bottom(wire, i + 1)
  }

  /** nn_xrep_recv: None if the message is malformed or has come too far. */
  function XRepRecv(key: uint32, maxttl: int, wire: Bytes): Option<Msg> {
    match Bottom(wire, 0)
    case None => None
    case Some(i) =>
      var n := 4 * (i + 1);
      if i + 1 > maxttl then None else Some(Msg(PutL(key) + wire[..n], wire[n..]))
  }

  /** nn_xrep_send: the pipe the message goes to and what is sent, None if it is dropped. */
  function XRepSend(routes: Routes, m: Msg): Option<(nat, Bytes)> {
    if |m.sphdr| < 4 then None
    else
      var key := GetL(m.sphdr);
      if key !in routes || !routes[key].writable then None
      else Some((routes[key].pipe, OnWire(Msg(m.sphdr[4..], m.body))))
  }

  /** nn_xreq_recv. */
  function XReqRecv(wire: Bytes): Option<Msg> {
    if |wire| < 4 then None else Some(Msg(wire[..4], wire[4..]))
  }

  /** What is left of the buffer behind a header of size `n`. */
  function Padding(n: nat, junk: nat -> byte): (pad: Bytes)
    ensures |pad| == Cmsg.RoundUp(n + 8) - (n + 8)
  {
    seq(Cmsg.RoundUp(n + 8) - (n + 8), i requires i >= 0 => junk(i))
  }

  /** What a message meets in a device besides its header: the old contents of the buffer and the other
      properties of the message. */
  datatype Leg = Leg(junk: nat -> byte, hdrs: Bytes)

  /** nn_device_mvmsg: the message is received into a control buffer and sent again from it. */
  function Forward(m: Msg, leg: Leg): Option<Msg> {
    match Cmsg.SpHdr(Cmsg.Control(m.sphdr, Padding(|m.sphdr|, leg.junk), leg.hdrs))
    case Header(h) => Some(Msg(h, m.body))
    case _ => None
  }

  lemma ForwardKeeps(m: Msg, leg: Leg)
    requires |m.sphdr| < Cmsg.SIZE_LIMIT - 64
    ensures Forward(m, leg) == Some(m)
  {
    Cmsg.ControlRoundTrip(m.sphdr, Padding(|m.sphdr|, leg.junk), leg.hdrs);
  }

  /** A raw REP socket on the way, as the request finds it: the pipe it arrives on, that pipe's key,
      the routes there are when the reply comes back, and what request and reply meet in the device. */
  datatype Hop = Hop(pipe: nat, key: uint32, maxttl: int, routes: Routes, there: Leg, back: Leg)

  /** Keys have a clear top bit and lead back to their own pipe. */
  predicate Keyed(h: Hop) {
    h.key < TWO_31 && (h.key in h.routes ==> h.routes[h.key].pipe == h.pipe)
  }

  predicate Open(h: Hop) {
    h.key in h.routes && h.routes[h.key].writable
  }

  /** A device passes a request on. */
  function PassOn(h: Hop, wire: Bytes): Option<Bytes> {
    match XRepRecv(h.key, h.maxttl, wire)
    case None => None
    case Some(m) =>
      match Forward(m, h.there)
      case None => None
      case Some(m') => Some(OnWire(m'))
  }

  /** A request on its way through the devices `hops`. */
  function RequestPath(hops: seq<Hop>, wire: Bytes): Option<Bytes> {
    if hops == [] then Some(wire) else
    match PassOn(hops[0], wire)
    case None => None
    case Some(w) => RequestPath(hops[1..], w)
  }

  /** The reply leaves `h` by the pipe the request came from. */
  function Back(h: Hop, m: Msg): Option<Bytes> {
    match XRepSend(h.routes, m)
    case None => None
    case Some((pipe, wire)) => if pipe == h.pipe then Some(wire) else None
  }

  /** A device passes a reply back. */
  function PassBack(h: Hop, wire: Bytes): Option<Bytes> {
    match XReqRecv(wire)
    case None => None
    case Some(m) =>
      match Forward(m, h.back)
      case None => None
      case Some(m') => Back(h, m')
  }

  /** A reply on its way back through the devices `hops`. */
  function ReplyPath(hops: seq<Hop>, wire: Bytes): Option<Bytes> {
    if hops == [] then Some(wire) else
    match PassBack(hops[|hops| - 1], wire)
    case None => None
    case Some(w) => ReplyPath(hops[..|hops| - 1], w)
  }

  /** A REP socket: the request is received, answered, and the reply sent with its backtrace. */
  function Reply(rep: Hop, wire: Bytes, answer: Bytes -> Bytes): Option<Bytes> {
    match XRepRecv(rep.key, rep.maxttl, wire)
    case None => None
    case Some(m) => Back(rep, Msg(m.sphdr, answer(m.body)))
  }

  /** A request from a REQ socket through `hops` to the REP socket `rep`, its reply, and the way back. */
  function Exchange(id: uint32, body: Bytes, hops: seq<Hop>, rep: Hop, answer: Bytes -> Bytes): Option<Msg> {
    match RequestPath(hops, OnWire(Msg(PutL(Req.WireId(id)), body)))
    case None => None
    case Some(wire) =>
      match Reply(rep, wire, answer)
      case None => None
      case Some(w) =>
        match ReplyPath(hops, w)
        case None => None
        case Some(w') => XReqRecv(w')
  }

  /** The backtrace stack: the keys of `hops`, the last one on top, above the request id. */
  function Stack(hops: seq<Hop>, id: uint32): (r: Bytes)
    ensures |r| == 4 * (|hops| + 1)
  {
    if hops == [] then PutL(Req.WireId(id))
    else PutL(hops[|hops| - 1].key) + Stack(hops[..|hops| - 1], id)
  }

  lemma {:induction false} BottomShift(h: Bytes, wire: Bytes, i: nat)
    requires |h| == 4
    ensures Bottom(h + wire, i + 1) ==
            match Bottom(wire, i) { case None => None case Some(k) => Some(k + 1) }
    decreases |wire| - 4 * i
  {
    if 4 * (i + 1) <= |wire| {
      assert (h + wire)[4 * (i + 1)..] == wire[4 * i..];
      BottomShift(h, wire, i + 1);
    }
  }

  lemma {:induction false} BottomOfStack(hops: seq<Hop>, id: uint32, body: Bytes)
    requires forall h | h in hops :: Keyed(h)
    ensures Bottom(Stack(hops, id) + body, 0) == Some(|hops|)
  {
    var wire := Stack(hops, id) + body;
    assert wire[4 * 0..] == wire;
    if hops == [] {
      GetPut(Req.WireId(id));
      GetLFirst(PutL(Req.WireId(id)), body);
    } else {
      var k := |hops| - 1;
      var under := Stack(hops[..k], id) + body;
      assert wire == PutL(hops[k].key) + under;
      assert Keyed(hops[k]);
      BottomOfStack(hops[..k], id, body);
      BottomShift(PutL(hops[k].key), under, 0);
      GetPut(hops[k].key);
      GetLFirst(PutL(hops[k].key), under);
      assert Bottom(wire, 0) == Bottom(wire, 0 + 1);
    }
  }

  /** A receiver that is `|hops| + 1` words away pushes its key, unless that is too far. */
  lemma Push(hops: seq<Hop>, h: Hop, id: uint32, body: Bytes)
    requires forall x | x in hops :: Keyed(x)
    ensures XRepRecv(h.key, h.maxttl, Stack(hops, id) + body) ==
            if |hops| + 1 > h.maxttl then None else Some(Msg(Stack(hops + [h], id), body))
  {
    BottomOfStack(hops, id, body);
    var wire := Stack(hops, id) + body;
    assert wire[..4 * (|hops| + 1)] == Stack(hops, id);
    assert wire[4 * (|hops| + 1)..] == body;
    assert (hops + [h])[..|hops|] == hops;
  }

  /** A reply pops the key that was pushed last and takes that pipe, unless it is gone or not ready. */
  lemma Pop(hops: seq<Hop>, h: Hop, id: uint32, body: Bytes, sphdr: Bytes)
    requires Keyed(h) && sphdr <= Stack(hops + [h], id) && |sphdr| >= 4
    ensures Back(h, Msg(sphdr, Stack(hops + [h], id)[|sphdr|..] + body)) ==
            if Open(h) then Some(Stack(hops, id) + body) else None
  {
    var stack := Stack(hops + [h], id);
    assert (hops + [h])[..|hops|] == hops;
    assert stack == PutL(h.key) + Stack(hops, id);
    assert sphdr == PutL(h.key) + sphdr[4..] by { assert sphdr[..4] == stack[..4]; }
    GetPut(h.key);
    GetLFirst(PutL(h.key), sphdr[4..]);
    assert sphdr[4..] + (stack[|sphdr|..] + body) == Stack(hops, id) + body by {
      assert sphdr + stack[|sphdr|..] == stack;
      assert sphdr[4..] + stack[|sphdr|..] == stack[4..] == Stack(hops, id);
    }
  }

  lemma PassOnPushes(done: seq<Hop>, h: Hop, id: uint32, body: Bytes)
    requires (forall x | x in done :: Keyed(x)) && |done| < TWO_31
    ensures PassOn(h, Stack(done, id) + body) ==
            if |done| + 1 > h.maxttl then None else Some(Stack(done + [h], id) + body)
  {
    Push(done, h, id, body);
    ForwardKeeps(Msg(Stack(done + [h], id), body), h.there);
  }

  lemma PassBackPops(hops: seq<Hop>, h: Hop, id: uint32, body: Bytes)
    requires Keyed(h)
    ensures PassBack(h, Stack(hops + [h], id) + body) == if Open(h) then Some(Stack(hops, id) + body) else None
  {
    var stack := Stack(hops + [h], id);
    var wire := stack + body;
    assert wire[..4] == stack[..4] && wire[4..] == stack[4..] + body;
    ForwardKeeps(Msg(wire[..4], wire[4..]), h.back);
    Pop(hops, h, id, body, stack[..4]);
  }

  /** Each receiver is within its own limit, the first one `n + 1` words away. */
  predicate Within(n: nat, hops: seq<Hop>)
    decreases |hops|
  {
    hops == [] || (n + 1 <= hops[0].maxttl && Within(n + 1, hops[1..]))
  }

  /** Every pipe on the way back is live and ready. */
  predicate AllOpen(hops: seq<Hop>) {
    hops == [] || (Open(hops[|hops| - 1]) && AllOpen(hops[..|hops| - 1]))
  }

  /** The request gets through `hops`, having passed `done`, if and only if no receiver finds it has
      come too far. */
  lemma {:induction false} RequestArrives(done: seq<Hop>, hops: seq<Hop>, id: uint32, body: Bytes)
    requires (forall h | h in done :: Keyed(h)) && (forall h | h in hops :: Keyed(h))
    requires |done| + |hops| < TWO_31
    ensures RequestPath(hops, Stack(done, id) + body) ==
            if Within(|done|, hops) then Some(Stack(done + hops, id) + body) else None
    decreases |hops|
  {
    if hops == [] {
      assert done + hops == done;
    } else {
      var h, rest := hops[0], hops[1..];
      PassOnPushes(done, h, id, body);
      assert done + hops == (done + [h]) + rest;
      if |done| + 1 <= h.maxttl { RequestArrives(done + [h], rest, id, body); }
    }
  }

  /** The reply gets back through `hops` if and only if every pipe on the way is live and ready. */
  lemma {:induction false} ReplyReturns(hops: seq<Hop>, id: uint32, body: Bytes)
    requires forall h | h in hops :: Keyed(h)
    ensures ReplyPath(hops, Stack(hops, id) + body) ==
            if AllOpen(hops) then Some(Stack([], id) + body) else None
    decreases |hops|
  {
    if hops != [] {
      var h, rest := hops[|hops| - 1], hops[..|hops| - 1];
      assert hops == rest + [h];
      assert Keyed(h);
      PassBackPops(rest, h, id, body);
      ReplyReturns(rest, id, body);
    }
  }

  lemma {:induction false} WithinMeans(n: nat, hops: seq<Hop>)
    ensures Within(n, hops) <==> forall i | 0 <= i < |hops| :: n + i + 1 <= hops[i].maxttl
    decreases |hops|
  {
    if hops != [] {
      var rest := hops[1..];
      WithinMeans(n + 1, rest);
      assert forall i | 0 <= i < |rest| :: rest[i] == hops[i + 1];
      if forall i | 0 <= i < |rest| :: n + 1 + i + 1 <= rest[i].maxttl {
        forall i | 0 < i < |hops| ensures n + i + 1 <= hops[i].maxttl { assert rest[i - 1] == hops[i]; }
      }
      if forall i | 0 <= i < |hops| :: n + i + 1 <= hops[i].maxttl {
        forall i | 0 <= i < |rest| ensures n + 1 + i + 1 <= rest[i].maxttl { assert rest[i] == hops[i + 1]; }
      }
    }
  }

  lemma {:induction false} AllOpenMeans(hops: seq<Hop>)
    ensures AllOpen(hops) <==> forall h | h in hops :: Open(h)
  {
    if hops != [] {
      AllOpenMeans(hops[..|hops| - 1]);
      assert hops == hops[..|hops| - 1] + [hops[|hops| - 1]];
    }
  }

  lemma ReplySent(hops: seq<Hop>, rep: Hop, id: uint32, body: Bytes, answer: Bytes -> Bytes)
    requires Keyed(rep) && forall h | h in hops :: Keyed(h)
    ensures Reply(rep, Stack(hops, id) + body, answer) ==
            if |hops| + 1 <= rep.maxttl && Open(rep) then Some(Stack(hops, id) + answer(body)) else None
  {
    Push(hops, rep, id, body);
    var trace := Stack(hops + [rep], id);
    Pop(hops, rep, id, answer(body), trace);
    assert trace[|trace|..] + answer(body) == answer(body);
  }

  lemma ExchangeChain(id: uint32, body: Bytes, hops: seq<Hop>, rep: Hop, answer: Bytes -> Bytes)
    requires Keyed(rep) && forall h | h in hops :: Keyed(h)
    requires |hops| < TWO_31
    ensures Exchange(id, body, hops, rep, answer) ==
            if Within(0, hops) && |hops| + 1 <= rep.maxttl && Open(rep) && AllOpen(hops)
            then Some(Msg(PutL(Req.WireId(id)), answer(body))) else None
  {
    assert [] + hops == hops;
    RequestArrives([], hops, id, body);
    ReplySent(hops, rep, id, body, answer);
    ReplyReturns(hops, id, answer(body));
    var wire := Stack([], id) + answer(body);
    assert wire[..4] == PutL(Req.WireId(id)) && wire[4..] == answer(body);
  }

  /** The whole exchange: through any number of devices, the reply reaches the REQ socket that asked,
      with its own request id and the reply's body unchanged, if and only if no receiver is further away
      than its limit allows and every pipe on the way back is live and ready. */
  lemma ExchangeExact(id: uint32, body: Bytes, hops: seq<Hop>, rep: Hop, answer: Bytes -> Bytes)
    requires Keyed(rep) && forall h | h in hops :: Keyed(h)
    requires |hops| < TWO_31
    ensures Exchange(id, body, hops, rep, answer) ==
            if && (forall i | 0 <= i < |hops| :: i + 1 <= hops[i].maxttl) && |hops| + 1 <= rep.maxttl
               && (forall h | h in hops :: Open(h)) && Open(rep)
            then Some(Msg(PutL(Req.WireId(id)), answer(body))) else None
  {
    WithinMeans(0, hops);
    AllOpenMeans(hops);
    ExchangeChain(id, body, hops, rep, answer);
  }

  /** So the REQ socket takes it as the answer to that request. */
  lemma ExchangeAnswers(id: uint32, body: Bytes)
    ensures Req.Answers(Msg(PutL(Req.WireId(id)), body), id)
  {
    GetPut(Req.WireId(id));
  }
}
