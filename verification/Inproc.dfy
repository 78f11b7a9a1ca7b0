/** Two connected inproc sessions in their data phase: pipes, sessions, and the SENT and RECEIVED
    events that travel between their contexts in any order. */
module Inproc {
  import opened Message
  import opened MsgQueue

  /** The states of a pipe's inbound and outbound side that occur between and during calls. */
  datatype InState = InIdle | Receiving | Received | InAsync
  datatype OutState = OutIdle | Sending | Sent | OutAsync

  class Session {
    const maxmem: nat
    // nn_sinproc
    var sending: bool           // NN_SINPROC_FLAG_SENDING
    var receiving: bool         // NN_SINPROC_FLAG_RECEIVING
    var msg: Msg                // the message exposed to the peer
    var queue: seq<Msg>         // the inbound message queue
    var eventSent: bool         // SENT is on its way to this session
    var eventReceived: bool     // RECEIVED is on its way to this session
    // nn_pipebase
    var instate: InState
    var outstate: OutState
    var inPending: bool         // the IN event is queued in this session's context
    var outPending: bool        // the OUT event is queued in this session's context
    // the socket's lists of pipes
    var readable: bool          // in the fair queue
    var writable: bool          // among the pipes ready for sending
    // history
    ghost var sent: seq<Msg>
    ghost var received: seq<Msg>

    /** A session that has just become active: nn_pipebase_start has raised the OUT event. */
    constructor (maxmem: nat)
      ensures this.maxmem == maxmem && Fresh()
    {
      this.maxmem := maxmem;
      sending, receiving, msg, queue := false, false, Msg([], []), [];
      eventSent, eventReceived := false, false;
      instate, outstate, inPending, outPending := InAsync, OutIdle, false, true;
      readable, writable := false, false;
      sent, received := [], [];
    }

    ghost predicate Fresh()
      reads this
    {
      && !sending && !receiving && !eventSent && !eventReceived && queue == []
      && instate == InAsync && outstate == OutIdle && !inPending && outPending && !readable && !writable
      && sent == [] && received == []
    }
  }

  /** What is underway from `a` to `b`. */
  ghost function Underway(a: Session, b: Session): seq<Msg>
    reads a`msg, b`queue, b`eventSent, b`receiving
  {
    if b.eventSent || b.receiving then b.queue + [a.msg] else b.queue
  }

  /** The outbound side of a session. */
  ghost predicate OutOk(a: Session, b: Session)
    reads a`sending, a`eventReceived, a`outstate, a`writable, a`outPending, b`eventSent, b`receiving
  {
    && !(b.eventSent && b.receiving) && !(b.eventSent && a.eventReceived) && !(b.receiving && a.eventReceived)
    && (a.sending <==> b.eventSent || b.receiving || a.eventReceived)
    && a.outstate == (if a.sending then OutAsync else OutIdle)
    && (a.writable || a.outPending <==> !a.sending)
    && !(a.writable && a.outPending)
  }

  /** The inbound side of a session. */
  ghost predicate InOk(b: Session)
    reads b`instate, b`queue, b`receiving, b`readable, b`inPending
  {
    && b.instate == (if b.queue == [] then InAsync else InIdle)
    && (b.receiving ==> b.queue != [])
    && (b.readable || b.inPending <==> b.queue != [])
    && !(b.readable && b.inPending)
  }

  /** The bound of the message queue. */
  ghost predicate Bounded(q: seq<Msg>, maxmem: nat) {
    |q| <= 1 || TotalSize(q) < maxmem
  }

  /** A message is accepted exactly if the queue keeps its bound with it. */
  lemma AcceptsExact(q: seq<Msg>, maxmem: nat, m: Msg)
    ensures Accepts(q, maxmem, m) <==> Bounded(q + [m], maxmem)
  {
    AppendSize(q, m);
  }

  /** The queue `q` was offered the message `m`: it is left with the peer exactly if the bound does not
      allow it. */
  ghost predicate Offered(q: seq<Msg>, m: Msg, maxmem: nat, after: seq<Msg>, left: bool) {
    (left <==> !Accepts(q, maxmem, m)) && after == if left then q else q + [m]
  }

  lemma OfferedBounded(q: seq<Msg>, m: Msg, maxmem: nat, after: seq<Msg>, left: bool)
    requires Bounded(q, maxmem) && Offered(q, m, maxmem, after, left)
    ensures Bounded(after, maxmem)
  {
    AcceptsExact(q, maxmem, m);
  }

  lemma TailBounded(q: seq<Msg>, maxmem: nat)
    requires q != [] && Bounded(q, maxmem)
    ensures Bounded(q[1..], maxmem)
  {
    TotalSizeHead(q);
  }

  /** Nothing is lost, duplicated or reordered from `a` to `b`. */
  ghost predicate Conserved(a: Session, b: Session)
    reads a`sent, a`msg, b`received, b`queue, b`eventSent, b`receiving
  {
    a.sent == b.received + Underway(a, b)
  }

  /** A message of `a` is left with it only because the queue of `b` has no room for it. */
  ghost predicate Refused(a: Session, b: Session)
    reads a`msg, b`queue, b`receiving
  {
    b.receiving ==> !Accepts(b.queue, b.maxmem, a.msg)
  }

  /** The events on their way to a session and in its context, weighed by what they bring about. */
  function Pending(s: Session): nat
    reads s`eventSent, s`eventReceived, s`inPending, s`outPending
  {
    (if s.eventSent then 4 else 0) + (if s.eventReceived then 2 else 0) +
    (if s.inPending then 1 else 0) + (if s.outPending then 1 else 0)
  }

  ghost predicate PairOk(a: Session, b: Session)
    reads a, b
  {
    && a != b
    && OutOk(a, b) && InOk(b) && Conserved(a, b) && Bounded(b.queue, b.maxmem) && Refused(a, b)
    && OutOk(b, a) && InOk(a) && Conserved(b, a) && Bounded(a.queue, a.maxmem) && Refused(b, a)
  }

  /** nn_pipebase_received. */
  method PipeReceived(s: Session)
    requires s.instate == Receiving || (s.instate == InAsync && !s.inPending)
    modifies s`instate, s`inPending
    ensures old(s.instate) == Receiving ==> s.instate == Received && s.inPending == old(s.inPending)
    ensures old(s.instate) == InAsync ==> s.instate == InIdle && s.inPending
  {
    if s.instate == Receiving {
      s.instate := Received;
      return;
    }
    s.instate := InIdle;
    s.inPending := true;
  }

  /** The message moves from the peer into the queue, and RECEIVED is raised to the peer. */
  method Accept(s: Session, peer: Session)
    requires s != peer && Accepts(s.queue, s.maxmem, peer.msg) && !peer.eventReceived
    modifies s`queue, peer`msg, peer`eventReceived
    ensures s.queue == old(s.queue) + [old(peer.msg)] && peer.msg == Msg([], []) && peer.eventReceived
  {
    s.queue := s.queue + [peer.msg];
    peer.msg := Msg([], []);
    peer.eventReceived := true;
  }

  /** A user's send on a ready pipe: nn_pipe_send and nn_sinproc_send. */
  method Send(s: Session, peer: Session, m: Msg)
    requires PairOk(s, peer) && s.writable
    modifies s, peer
    ensures PairOk(s, peer)
    ensures s.sent == old(s.sent) + [Msg([], m.sphdr + m.body)] && peer.sent == old(peer.sent)
    ensures s.received == old(s.received) && peer.received == old(peer.received)
  {
    assert s.outstate == OutIdle;
    s.outstate := Sending;
    assert !s.sending;
    s.msg := Msg([], m.sphdr + m.body);
    s.sending := true;
    assert !peer.eventSent;
    peer.eventSent := true;
    // No RECEIVED can have been processed meanwhile: the pipe is released.
    s.outstate := OutAsync;
    s.writable := false;
    s.sent := s.sent + [s.msg];
  }

  /** A user's receive on a readable pipe: nn_pipe_recv and nn_sinproc_recv. */
  method Recv(s: Session, peer: Session) returns (m: Msg)
    requires PairOk(s, peer) && s.readable
    modifies s, peer
    ensures PairOk(s, peer) && Continued(s, peer) && m == old(s.queue)[0]
    ensures s.received == old(s.received) + [m] && peer.received == old(peer.received)
    ensures s.sent == old(s.sent) && peer.sent == old(peer.sent)
  {
    ghost var q, kept, lingering := s.queue, peer.msg, s.receiving;
    m := Collect(s, peer);
    TailBounded(q, s.maxmem);
    if lingering { OfferedBounded(q[1..], kept, s.maxmem, s.queue, s.receiving); }
  }

  /** After a receive: the rest of the queue, and a message that was left with the peer is offered again. */
  twostate predicate Continued(s: Session, peer: Session)
    requires old(s.queue) != []
    reads s, peer
  {
    if old(s.receiving) then
      && Offered(old(s.queue)[1..], old(peer.msg), s.maxmem, s.queue, s.receiving)
      && (s.receiving ==> peer.msg == old(peer.msg))
    else s.queue == old(s.queue)[1..] && !s.receiving
  }

  method Collect(s: Session, peer: Session) returns (m: Msg)
    requires s != peer && s.readable && OutOk(peer, s) && InOk(s) && Conserved(peer, s)
    modifies s`queue, s`received, s`receiving, s`instate, s`inPending, s`readable, peer`msg, peer`eventReceived
    ensures OutOk(peer, s) && InOk(s) && Conserved(peer, s) && s.received == old(s.received) + [m] && m == old(s.queue)[0]
    ensures Continued(s, peer)
  {
    assert s.instate == InIdle;
    s.instate := Receiving;
    assert s.queue != [];
    m := TakeNext(s, peer);
    assert Conserved(peer, s);
    Settle(s);
    assert Conserved(peer, s);
  }

  /** The first message is taken, and a message that the peer had to keep may follow. */
  method TakeNext(s: Session, peer: Session) returns (m: Msg)
    requires s != peer && s.queue != [] && OutOk(peer, s) && Conserved(peer, s)
    modifies s`queue, s`received, s`receiving, peer`msg, peer`eventReceived
    ensures OutOk(peer, s) && Conserved(peer, s) && s.received == old(s.received) + [m] && m == old(s.queue)[0]
    ensures Continued(s, peer)
    ensures s.receiving ==> s.queue != []
  {
    m := Dequeue(s, peer);
    if s.receiving { Refill(s, peer); }
  }

  /** The end of a receive: the pipe is released unless there is more to receive. */
  method Settle(s: Session)
    requires s.instate == Receiving
    modifies s`instate, s`inPending, s`readable
    ensures s.instate == if s.queue == [] then InAsync else InIdle
    ensures s.inPending == old(s.inPending)
    ensures s.readable == (s.queue != [] && old(s.readable))
  {
    if s.queue != [] { PipeReceived(s); }
    if s.instate == Received {
      s.instate := InIdle;
    } else {
      s.instate := InAsync;
      s.readable := false;
    }
  }

  /** nn_msgqueue_recv on behalf of the user. */
  method Dequeue(s: Session, peer: Session) returns (m: Msg)
    requires s != peer && s.queue != [] && Conserved(peer, s)
    modifies s`queue, s`received
    ensures Conserved(peer, s) && s.received == old(s.received) + [m]
    ensures m == old(s.queue)[0] && s.queue == old(s.queue)[1..]
  {
    m := s.queue[0];
    ghost var all := s.received + Underway(peer, s);
    s.queue := s.queue[1..];
    s.received := s.received + [m];
    assert all == s.received + Underway(peer, s);
  }

  /** A message that was left with the peer because the queue was full is tried once more. */
  method Refill(s: Session, peer: Session)
    requires s != peer && s.receiving && !s.eventSent && !peer.eventReceived && Conserved(peer, s)
    modifies s`queue, s`receiving, peer`msg, peer`eventReceived
    ensures Conserved(peer, s) && Offered(old(s.queue), old(peer.msg), s.maxmem, s.queue, s.receiving)
    ensures peer.eventReceived == !s.receiving && (s.receiving ==> peer.msg == old(peer.msg))
    ensures s.queue != []
  {
    if Accepts(s.queue, s.maxmem, peer.msg) {
      Accept(s, peer);
      s.receiving := false;
    }
  }

  /** SENT reaches its session. */
  method DeliverSent(s: Session, peer: Session)
    requires PairOk(s, peer) && s.eventSent
    modifies s, peer
    ensures PairOk(s, peer)
    ensures s.receiving <==> !Accepts(old(s.queue), s.maxmem, old(peer.msg))
    ensures s.queue == old(s.queue) + if s.receiving then [] else [old(peer.msg)]
    ensures s.sent == old(s.sent) && peer.sent == old(peer.sent)
    ensures s.received == old(s.received) && peer.received == old(peer.received)
    ensures Pending(s) + Pending(peer) < old(Pending(s) + Pending(peer))
  {
    ghost var q, m := s.queue, peer.msg;
    Arrive(s, peer);
    OfferedBounded(q, m, s.maxmem, s.queue, s.receiving);
  }

  /** The message is taken from the peer, or stays there until the queue has room for it. */
  method Arrive(s: Session, peer: Session)
    requires s != peer && s.eventSent && OutOk(peer, s) && InOk(s) && Conserved(peer, s)
    modifies s`eventSent, s`queue, s`receiving, s`instate, s`inPending, peer`msg, peer`eventReceived
    ensures OutOk(peer, s) && InOk(s) && Conserved(peer, s)
    ensures Offered(old(s.queue), old(peer.msg), s.maxmem, s.queue, s.receiving)
    ensures s.receiving ==> peer.msg == old(peer.msg)
    ensures Pending(s) + Pending(peer) < old(Pending(s) + Pending(peer))
  {
    s.eventSent := false;
    var empty := s.queue == [];
    if !Accepts(s.queue, s.maxmem, peer.msg) {
      s.receiving := true;
      return;
    }
    Accept(s, peer);
    if empty { PipeReceived(s); }
  }

  /** RECEIVED reaches its session: nn_pipebase_sent. */
  method DeliverReceived(s: Session, peer: Session)
    requires PairOk(s, peer) && s.eventReceived
    modifies s
    ensures PairOk(s, peer)
    ensures s.sent == old(s.sent) && s.received == old(s.received)
    ensures Pending(s) < old(Pending(s)) && Pending(peer) == old(Pending(peer))
  {
    s.eventReceived := false;
    assert s.sending;
    assert s.outstate == OutAsync && !s.outPending;
    s.outstate := OutIdle;
    s.outPending := true;
    s.sending := false;
  }

  /** The context of the session processes its IN event: the pipe joins the fair queue. */
  method ProcessIn(s: Session, peer: Session)
    requires PairOk(s, peer) && s.inPending
    modifies s
    ensures PairOk(s, peer)
    ensures s.sent == old(s.sent) && s.received == old(s.received)
    ensures Pending(s) < old(Pending(s)) && Pending(peer) == old(Pending(peer))
  {
    s.inPending := false;
    assert !s.readable;
    s.readable := true;
  }

  /** The context of the session processes its OUT event: the pipe becomes ready for sending. */
  method ProcessOut(s: Session, peer: Session)
    requires PairOk(s, peer) && s.outPending
    modifies s
    ensures PairOk(s, peer)
    ensures s.sent == old(s.sent) && s.received == old(s.received)
    ensures Pending(s) < old(Pending(s)) && Pending(peer) == old(Pending(peer))
  {
    s.outPending := false;
    assert !s.writable;
    s.writable := true;
  }

  /** One step of either session, chosen by a schedule. A step that is not enabled does nothing. */
  datatype Step =
    | UserSend(first: bool, m: Msg)
    | UserRecv(first: bool)
    | SentArrives(first: bool)
    | ReceivedArrives(first: bool)
    | InProcessed(first: bool)
    | OutProcessed(first: bool)

  method Perform(a: Session, b: Session, step: Step)
    requires PairOk(a, b)
    modifies a, b
    ensures PairOk(a, b)
    ensures old(a.sent) <= a.sent && old(b.received) <= b.received
    ensures old(b.sent) <= b.sent && old(a.received) <= a.received
  {
    var s, peer := a, b;
    if !step.first { s, peer := b, a; }
    match step {
      case UserSend(_, m) => if s.writable { Send(s, peer, m); }
      case UserRecv(_) => if s.readable { var m := Recv(s, peer); }
      case SentArrives(_) => if s.eventSent { DeliverSent(s, peer); }
      case ReceivedArrives(_) => if s.eventReceived { DeliverReceived(s, peer); }
      case InProcessed(_) => if s.inPending { ProcessIn(s, peer); }
      case OutProcessed(_) => if s.outPending { ProcessOut(s, peer); }
    }
  }

  /** Any schedule, from the start of the data phase on: no assertion of the source fails, and what
      one session has received is at all times an initial part of what the other one has sent. */
  method Run(a: Session, b: Session, schedule: seq<Step>)
    requires a != b && a.Fresh() && b.Fresh()
    modifies a, b
    ensures PairOk(a, b)
    ensures b.received <= a.sent && a.received <= b.sent
  {
    for i := 0 to |schedule|
      invariant PairOk(a, b)
    {
      Perform(a, b, schedule[i]);
    }
  }

  /** The messages that were sent and not received yet. */
  ghost function Unreceived(a: Session, b: Session): nat
    requires PairOk(a, b)
    reads a, b
  {
    |Underway(a, b)| + |Underway(b, a)|
  }

  /** The session has an event to deliver or to process, or a message to receive. */
  predicate Busy(s: Session)
    reads s
  {
    s.eventSent || s.eventReceived || s.inPending || s.outPending || s.readable
  }

  /** Any one of these steps brings the pair further. */
  method Advance(s: Session, peer: Session)
    requires PairOk(s, peer) && Busy(s)
    modifies s, peer
    ensures PairOk(s, peer) && s.sent == old(s.sent) && peer.sent == old(peer.sent)
    ensures Unreceived(s, peer) <= old(Unreceived(s, peer))
    ensures Unreceived(s, peer) == old(Unreceived(s, peer)) ==>
              Pending(s) + Pending(peer) < old(Pending(s) + Pending(peer))
  {
    if
    case s.eventSent => DeliverSent(s, peer);
    case s.eventReceived => DeliverReceived(s, peer);
    case s.inPending => ProcessIn(s, peer);
    case s.outPending => ProcessOut(s, peer);
    case s.readable => var m := Recv(s, peer);
  }

  /** No message is stranded. Whatever the order in which events are delivered and messages received,
      there are only finitely many steps until the next send, and when there is none left all that was
      sent was received, and both sides can send again. */
  method Deliver(a: Session, b: Session)
    requires PairOk(a, b)
    modifies a, b
    ensures PairOk(a, b) && a.writable && b.writable
    ensures a.sent == old(a.sent) == b.received && b.sent == old(b.sent) == a.received
  {
    while
      invariant PairOk(a, b) && a.sent == old(a.sent) && b.sent == old(b.sent)
      decreases Unreceived(a, b), Pending(a) + Pending(b)
    {
      case Busy(a) => Advance(a, b);
      case Busy(b) => Advance(b, a);
    }
    QuietMeansDelivered(a, b);
    QuietMeansDelivered(b, a);
  }

  /** Every message that is sent is received: when nothing more can happen without the user, and the
      user has received all there is, the histories agree and both sides can send again. */
  lemma QuietMeansDelivered(a: Session, b: Session)
    requires PairOk(a, b)
    requires !b.eventSent && !b.inPending && !b.readable && !a.eventReceived && !a.outPending
    ensures a.sent == b.received && a.writable
  {}
}
