/** The REQ socket: its nine-state machine, its timer and the event queue of its context. */
module Req {
  import opened Common
  import opened Message
  import opened Wire
  import Timer

  type Pipe = nat

  datatype State = Idle | Passive | Delayed | Active | TimedOut | Cancelling | StoppingTimer | Done | Stopping

  /** What the handler is fed: an action of its own socket, or an event of its timer. */
  datatype Input =
    | ActionStart | ActionIn | ActionOut | ActionSent | ActionReceived | ActionPipeRm
    | FromTimer(event: Timer.Event)

  /** The content of `task.reply`: freed memory, or a message body. */
  datatype Stored = Freed | Live(body: Bytes)

  /** A message that was handed to a pipe. */
  datatype Handover = Handover(to: Pipe, msg: Msg)

  datatype RecvResult = EFSM | EAGAIN | Ok(reply: Stored)

  /** The request id on the wire: the counter with the top bit set. */
  function WireId(id: uint32): uint32 {
    TWO_31 + id % 0x8000_0000
  }

  /** The checks of nn_req_in on a pulled reply. */
  predicate Answers(m: Msg, id: uint32) {
    |m.sphdr| == 4 && GetL(m.sphdr) >= TWO_31 && GetL(m.sphdr) == WireId(id)
  }

  ghost predicate NoneAnswers(replies: seq<Msg>, id: uint32) {
    forall k | 0 <= k < |replies| :: !Answers(replies[k], id)
  }

  /** The phase of the timer in each state of a running socket. */
  function PhaseIn(state: State): Timer.Phase {
    match state
    case Active => Timer.Active
    case TimedOut | Cancelling | StoppingTimer => Timer.Stopping
    case _ => Timer.Idle
  }

  /** What the handler makes of an input: the next state, None for a bad action or source. `canSend`
      says that some pipe is ready. */
  function Next(state: State, input: Input, canSend: bool): Option<State> {
    var sent := Some(if canSend then Active else Delayed);
    match (state, input)
    case (Idle, ActionStart) => Some(Passive)
    case (Passive, ActionSent) => sent
    case (Delayed, ActionOut) => if canSend then Some(Active) else None
    case (Delayed, ActionSent) => Some(Delayed)
    case (Active, ActionIn) => Some(StoppingTimer)
    case (Active, ActionSent) => Some(Cancelling)
    case (Active, ActionPipeRm) => Some(TimedOut)
    case (Active, FromTimer(TimedOut)) => Some(TimedOut)
    case (TimedOut, FromTimer(Stopped)) => sent
    case (TimedOut, ActionSent) => Some(Cancelling)
    case (Cancelling, FromTimer(Stopped)) => sent
    case (Cancelling, ActionSent) => Some(Cancelling)
    case (StoppingTimer, FromTimer(Stopped)) => Some(Done)
    case (StoppingTimer, ActionSent) => Some(Cancelling)
    case (Done, ActionReceived) => Some(Passive)
    case (Done, ActionSent) => sent
    case _ => None
  }

  class Req {
    const timer: Timer.Timer
    var fsm: Timer.Phase
    var state: State
    var id: uint32
    var sentTo: Option<Pipe>
    var request: Msg
    var reply: Stored
    var resendIvl: int
    var ready: set<Pipe>              // the load balancer's active pipes
    var events: seq<Timer.Event>      // raised in this context and not yet processed
    var aborted: bool                 // bad action, bad source, bad state or a failed assertion
    // history of the current request: what was pulled since it was submitted, and which of it was
    // taken as the reply
    ghost var pulled: seq<Msg>
    ghost var taken: Option<nat>
    ghost var handed: seq<Handover>   // history of the socket: what was handed to its pipes

    /** The timer's phase is decided by the state, and so is `sent_to`. A request that waits for its
        reply has a timeout to come. */
    ghost predicate Phased()
      reads this, timer
    {
      && (fsm == Timer.Active ==>
            && timer.state == PhaseIn(state)
            && (sentTo.Some? <==> state == Active)
            && (state == Active && events == [] ==> timer.Ticking())
            && state != Idle && state != Stopping)
      && (fsm == Timer.Stopping ==> state == Stopping && timer.state == Timer.Stopping)
      && (fsm == Timer.Idle ==> state == Idle && timer.state == Timer.Idle)
    }

    /** The reply that is kept, or was kept before it was freed, is the last message pulled. */
    ghost predicate Recorded()
      reads this
    {
      && (state == StoppingTimer || state == Done ==>
            taken.Some? && taken.value < |pulled| && Answers(pulled[taken.value], id))
      && (InProgress() && pulled != [] ==>
            reply == if Answers(pulled[|pulled| - 1], id) then Live(pulled[|pulled| - 1].body) else Freed)
    }

    /** A request waits for a pipe only if none is ready. One that waits for a reply, or has it, was
        handed over last. */
    ghost predicate Delivered()
      reads this
    {
      && (state == Delayed ==> ready == {})
      && (state == Active || state == StoppingTimer || state == Done ==>
            handed != [] && handed[|handed| - 1].msg == request)
      && (state == Active && sentTo.Some? ==> handed[|handed| - 1].to == sentTo.value)
    }

    ghost predicate Valid()
      reads this, timer
    {
      !aborted && timer.Valid() && events == [] && Phased() && Recorded() && Delivered()
    }

    /** nn_req_inprogress. */
    predicate InProgress()
      reads this
    {
      state != Idle && state != Passive && state != Stopping
    }

    /** nn_req_init: the first id is random. */
    constructor (lastid: uint32)
      ensures Valid() && fsm == Timer.Active && state == Passive && id == lastid && ready == {} && fresh(timer)
      ensures resendIvl == 60000 && pulled == [] && handed == []
    {
      timer := new Timer.Timer();
      fsm, state, id := Timer.Active, Idle, lastid;
      sentTo, request, reply := None, Msg([], []), Live([]);
      resendIvl, ready, events, aborted := 60000, {}, [], false;
      pulled, taken, handed := [], None, [];
      new;
      Handler(ActionStart);
    }

    /** The current request is handed to the pipe in `sent_to`, and nothing else is; every other pipe stays
        ready. */
    twostate predicate HandsOver()
      reads this
    {
      && sentTo.Some? && handed == old(handed) + [Handover(sentTo.value, request)]
      && old(ready) - {sentTo.value} <= ready
    }

    /** nn_req_action_send: to some pipe that is ready, which may or may not stay ready. */
    method ActionSend(allowDelay: bool)
      requires timer.Valid() && !aborted && timer.state == Timer.Idle && Timer.Stopped !in events
      modifies this`state, this`sentTo, this`ready, this`aborted, this`handed, timer
      ensures ready <= old(ready) && (old(ready) == {} ==> ready == {} && handed == old(handed))
      ensures aborted <==> if old(ready) == {} then !allowDelay else resendIvl < 0
      ensures !aborted ==> timer.Valid() && timer.state == PhaseIn(state)
      ensures !aborted && old(ready) == {} ==> state == Delayed && sentTo == old(sentTo)
      ensures !aborted && old(ready) != {} ==>
                && state == Active && timer.Ticking() && timer.given == resendIvl
                && HandsOver() && sentTo.value in old(ready)
    {
      if ready == {} {
        if !allowDelay {
          aborted := true;
          return;
        }
        state := Delayed;
        return;
      }
      var to :| to in ready;
      var released: bool := *;
      if released { ready := ready - {to}; }
      handed := handed + [Handover(to, request)];
      timer.Start(resendIvl, Timer.Stopped in events);
      if timer.aborted {
        aborted := true;
        return;
      }
      sentTo := Some(to);
      state := Active;
    }

    /** The input starts the re-send timer. */
    ghost predicate Starts(input: Input)
      reads this
    {
      state != Active && Next(state, input, ready != {}) == Some(Active)
    }

    /** nn_req_handler. The stopped event of the timer arrives when the timer is idle already. */
    method Handler(input: Input)
      requires timer.Valid() && !aborted && Timer.Stopped !in events && (sentTo.Some? <==> state == Active)
      requires timer.state == if input == FromTimer(Timer.Stopped) then Timer.Idle else PhaseIn(state)
      modifies this`state, this`sentTo, this`ready, this`aborted, this`handed, timer
      ensures ready <= old(ready) && (!old(Starts(input)) ==> ready == old(ready) && handed == old(handed))
      ensures !aborted && old(Starts(input)) ==>
                && timer.Ticking() && timer.given == resendIvl && HandsOver() && sentTo.value in old(ready)
      ensures aborted <==> Next(old(state), input, old(ready) != {}).None? || (old(Starts(input)) && resendIvl < 0)
      ensures !aborted ==>
                && state == Next(old(state), input, old(ready) != {}).value
                && timer.Valid() && timer.state == PhaseIn(state) && (sentTo.Some? <==> state == Active)
    {
      match state {
        case Idle =>
          if input == ActionStart { state := Passive; } else { aborted := true; }
        case Passive =>
          if input == ActionSent { ActionSend(true); } else { aborted := true; }
        case Delayed =>
          if input == ActionOut { ActionSend(false); }
          else if input == ActionSent { }
          else { aborted := true; }
        case Active =>
          match input {
            case ActionIn =>
              timer.Stop();
              sentTo := None;
              state := StoppingTimer;
            case ActionSent =>
              timer.Stop();
              sentTo := None;
              state := Cancelling;
            case ActionPipeRm =>
              timer.Stop();
              sentTo := None;
              state := TimedOut;
            case FromTimer(TimedOut) =>
              timer.Stop();
              sentTo := None;
              state := TimedOut;
            case _ => aborted := true;
          }
        case TimedOut =>
          if input == FromTimer(Timer.Stopped) { ActionSend(true); }
          else if input == ActionSent { state := Cancelling; }
          else { aborted := true; }
        case Cancelling =>
          if input == FromTimer(Timer.Stopped) { ActionSend(true); }
          else if input == ActionSent { }
          else { aborted := true; }
        case StoppingTimer =>
          if input == FromTimer(Timer.Stopped) { state := Done; }
          else if input == ActionSent { state := Cancelling; }
          else { aborted := true; }
        case Done =>
          if input == ActionReceived { state := Passive; }
          else if input == ActionSent { ActionSend(true); }
          else { aborted := true; }
        case Stopping =>
          aborted := true;
      }
    }

    /** nn_req_shutdown; `stop` for the STOP action itself. */
    method Shutdown(stop: bool)
      requires timer.Valid() && !aborted && fsm == Timer.Stopping
      requires !stop ==> state == Stopping && timer.state != Timer.Active
      modifies this`state, this`fsm, timer
      ensures timer.Valid()
      ensures fsm == Timer.Idle ==> state == Idle && timer.state == Timer.Idle && Timer.Stopped !in events
      ensures fsm != Timer.Idle ==>
                && fsm == Timer.Stopping && state == Stopping
                && (timer.state == Timer.Stopping || Timer.Stopped in events)
      ensures !stop ==> timer.state == old(timer.state)
    {
      if stop {
        timer.Stop();
        state := Stopping;
      }
      if state == Stopping {
        if timer.fsm != Timer.Idle || Timer.Stopped in events { return; }
        state := Idle;
        fsm := Timer.Idle;
        return;
      }
      assert false;
    }

    /** The states in which the context may be left: at most one event of the timer is to be processed. */
    ghost predicate Due()
      reads this, timer
    {
      && timer.Valid() && !aborted && Recorded() && Delivered()
      && (events == [] || events == [Timer.TimedOut] ==> Phased())
      && (events == [] || events == [Timer.TimedOut] || events == [Timer.Stopped])
      && (events == [Timer.TimedOut] ==> timer.state == Timer.Active)
      && (events == [Timer.Stopped] ==>
            && timer.state == Timer.Idle && fsm != Timer.Idle
            && (fsm == Timer.Active ==> PhaseIn(state) == Timer.Stopping && sentTo.None?)
            && (fsm == Timer.Stopping ==> state == Stopping))
    }

    /** The current request is to be sent when the timer has stopped, for the first time or again. */
    ghost predicate Unsent()
      reads this
    {
      state == TimedOut || state == Cancelling
    }

    /** What the processing of an event comes to: none is raised by it. */
    twostate predicate Processed()
      requires old(events) != []
      reads this, timer
    {
      var sends := old(events) == [Timer.Stopped] && old(Unsent()) && old(ready) != {};
      && events == [] && (!aborted ==> Valid())
      && (aborted <==> sends && resendIvl < 0)
      && (!aborted ==> if sends then HandsOver() && sentTo.value in old(ready)
                       else handed == old(handed) && ready == old(ready))
      && (!aborted && old(fsm) == Timer.Active ==>
            && fsm == Timer.Active
            && state == if old(events) == [Timer.TimedOut] then TimedOut
                        else if !old(Unsent()) then Done else if sends then Active else Delayed)
      && (old(fsm) != Timer.Active ==> state != Done)
    }

    /** An event for a socket that runs. */
    method Handle()
      requires Due() && events != [] && fsm == Timer.Active
      modifies this`state, this`sentTo, this`ready, this`aborted, this`events, this`handed, timer
      ensures Processed()
    {
      var e := events[0];
      events := events[1..];
      Handler(FromTimer(e));
    }

    /** One event is processed. */
    method Process()
      requires Due() && events != []
      modifies this`fsm, this`state, this`sentTo, this`ready, this`aborted, this`events, this`handed, timer
      ensures Processed()
    {
      if fsm != Timer.Stopping { Handle(); return; }
      events := events[1..];
      Shutdown(false);
    }

    /** nn_ctx_leave: every event is processed before the context is unlocked. */
    method Drain()
      requires Due()
      modifies this`fsm, this`state, this`sentTo, this`ready, this`aborted, this`events, this`handed, timer
      ensures if old(events) == [] then unchanged(this) && unchanged(timer) else Processed()
    {
      while events != [] && !aborted
        invariant (unchanged(this) && unchanged(timer)) || (old(events) != [] && Processed())
        decreases |events|
      {
        Process();
      }
    }

    /** Everything but the pipes, the option and the machine's own fields stays. */
    twostate predicate KeepsRequest()
      reads this
    {
      id == old(id) && request == old(request) && resendIvl == old(resendIvl)
    }

    /** The state machine hears of a request that was just stored. */
    method Submit()
      requires timer.Valid() && !aborted && events == [] && fsm == Timer.Active && Phased() && pulled == []
      requires state == Delayed ==> ready == {}
      modifies this`state, this`sentTo, this`ready, this`aborted, this`handed, timer
      ensures !aborted ==> Valid()
      ensures aborted <==> (old(state) == Passive || old(state) == Done) && old(ready) != {} && resendIvl < 0
      ensures !aborted ==> state == if old(timer.state) != Timer.Idle then Cancelling
                                    else if old(ready) != {} then Active else Delayed
      ensures !aborted ==> if old(state) in {Passive, Done} && old(ready) != {} then HandsOver()
                           else handed == old(handed) && ready == old(ready)
    {
      Handler(ActionSent);
    }

    /** nn_req_csend: a new request, under a new id; it replaces any request before it. */
    method Send(body: Bytes)
      requires Valid() && fsm == Timer.Active
      modifies this, timer
      ensures !aborted ==> Valid() && fsm == Timer.Active
      ensures aborted <==> (old(state) == Passive || old(state) == Done) && old(ready) != {} && resendIvl < 0
      ensures id == Inc32(old(id)) && request == Msg(PutL(WireId(id)), body) && resendIvl == old(resendIvl)
      ensures !aborted ==> state == if old(timer.state) != Timer.Idle then Cancelling
                                    else if old(ready) != {} then Active else Delayed
      ensures pulled == []
      ensures !aborted ==> if old(state) in {Passive, Done} && old(ready) != {} then HandsOver()
                           else handed == old(handed) && ready == old(ready)
    {
      id := Inc32(id);
      request := Msg(PutL(WireId(id)), body);
      pulled, taken := [], None;
      Submit();
    }

    /** nn_req_crecv. In state DONE it hands over whatever was pulled last, which is the reply that
        was taken unless something else was pulled after it. */
    method Recv() returns (r: RecvResult)
      requires Valid() && fsm == Timer.Active
      modifies this, timer
      ensures Valid() && fsm == Timer.Active && KeepsRequest()
      ensures r == EFSM <==> !old(InProgress())
      ensures r == EAGAIN <==> old(InProgress()) && old(state) != Done
      ensures r.Ok? ==>
                && state == Passive && reply == Live([])
                && old(taken).Some? && old(taken).value < |old(pulled)|
                && Answers(old(pulled)[old(taken).value], id)
                && (r.reply.Live? <==> Answers(old(pulled)[|old(pulled)| - 1], id))
                && (r.reply.Live? ==> r.reply.body == old(pulled)[|old(pulled)| - 1].body)
    {
      if !InProgress() { return EFSM; }
      if state != Done { return EAGAIN; }
      r := Ok(reply);
      reply := Live([]);
      Handler(ActionReceived);
    }

    /** nn_req_in: pulls replies until one answers the request or there are no more. */
    method In(replies: seq<Msg>) returns (n: nat)
      requires Valid() && fsm == Timer.Active
      modifies this`reply, this`pulled, this`taken, this`state, this`sentTo, this`ready, this`aborted, this`handed, timer
      ensures Valid() && ready == old(ready) && handed == old(handed)
      ensures n <= |replies| && pulled == old(pulled) + replies[..n]
      ensures InProgress() && n > 0 ==> NoneAnswers(replies[..n - 1], id)
      ensures n < |replies| ==> n > 0 && Answers(replies[n - 1], id)
      ensures state == if old(state) == Active && n > 0 && Answers(replies[n - 1], id) then StoppingTimer else old(state)
      ensures state == StoppingTimer && old(state) == Active ==> taken == Some(|pulled| - 1)
    {
      var answer;
      n, answer := PullAll(replies);
      if answer { Accept(); }
    }

    /** The pulling loop of nn_req_in. */
    method PullAll(replies: seq<Msg>) returns (n: nat, answer: bool)
      requires Valid() && fsm == Timer.Active
      modifies this`reply, this`pulled
      ensures Valid() && n <= |replies| && pulled == old(pulled) + replies[..n]
      ensures InProgress() && n > 0 ==> NoneAnswers(replies[..n - 1], id)
      ensures answer <==> n > 0 && InProgress() && Answers(replies[n - 1], id)
      ensures !answer ==> n == |replies|
    {
      n, answer := 0, false;
      while n < |replies| && !answer
        invariant Valid() && n <= |replies| && pulled == old(pulled) + replies[..n]
        invariant InProgress() && n > 0 ==> NoneAnswers(replies[..n - 1], id)
        invariant answer <==> n > 0 && InProgress() && Answers(replies[n - 1], id)
      {
        answer := Pull(replies[n]);
        n := n + 1;
      }
    }

    /** The reply that was pulled last answers the request, and stops it being sent again. */
    method Accept()
      requires Valid() && fsm == Timer.Active && InProgress() && pulled != [] && Answers(pulled[|pulled| - 1], id)
      modifies this`state, this`sentTo, this`ready, this`aborted, this`handed, this`taken, timer
      ensures Valid() && ready == old(ready) && handed == old(handed)
      ensures state == if old(state) == Active then StoppingTimer else old(state)
      ensures state == StoppingTimer && old(state) == Active ==> taken == Some(|pulled| - 1)
    {
      if state == Active {
        taken := Some(|pulled| - 1);
        Handler(ActionIn);
      }
    }

    /** One round of nn_req_in: the reply is pulled into `task.reply` first and checked afterwards. */
    method Pull(m: Msg) returns (answer: bool)
      requires Valid() && fsm == Timer.Active
      modifies this`reply, this`pulled
      ensures Valid() && pulled == old(pulled) + [m]
      ensures answer <==> InProgress() && Answers(m, id)
    {
      reply := Live(m.body);
      pulled := pulled + [m];
      if !InProgress() || |m.sphdr| != 4 || GetL(m.sphdr) < TWO_31 || GetL(m.sphdr) != WireId(id) {
        reply := Freed;
        return false;
      }
      return true;
    }

    /** nn_req_out: a pipe has become ready for sending. */
    method Out(p: Pipe)
      requires Valid() && fsm == Timer.Active
      modifies this, timer
      ensures !aborted ==> Valid() && fsm == Timer.Active
      ensures aborted <==> old(state) == Delayed && resendIvl < 0
      ensures KeepsRequest() && pulled == old(pulled)
      ensures !aborted ==> state == if old(state) == Delayed then Active else old(state)
      ensures if old(state) != Delayed then ready == old(ready) + {p} && handed == old(handed)
              else !aborted ==> HandsOver() && sentTo.value == p
    {
      ready := ready + {p};
      if state == Delayed { Handler(ActionOut); }
    }

    /** nn_req_rm: if the request went to the pipe that is removed, it is sent again. */
    method Rm(p: Pipe)
      requires Valid() && fsm == Timer.Active
      modifies this, timer
      ensures Valid() && fsm == Timer.Active && KeepsRequest() && pulled == old(pulled)
      ensures ready == old(ready) - {p} && handed == old(handed)
      ensures state == if old(sentTo) == Some(p) then TimedOut else old(state)
    {
      ready := ready - {p};
      if sentTo == Some(p) { Handler(ActionPipeRm); }
    }

    /** nn_req_stop: the socket is closed. */
    method Stop()
      requires Valid() && fsm == Timer.Active
      modifies this, timer
      ensures Valid() && fsm != Timer.Active && KeepsRequest()
    {
      fsm := Timer.Stopping;
      Shutdown(true);
    }

    /** The task after which the timer has stopped. */
    ghost predicate LastTask()
      reads timer
    {
      timer.state == Timer.Stopping && timer.tasks == [Timer.StopTask]
    }

    /** The next task of the timer, and the event it raises. */
    method ExecuteTask()
      requires Valid() && timer.tasks != [] && !timer.fired
      modifies this`events, timer
      ensures Due() && events == if old(LastTask()) then [Timer.Stopped] else []
      ensures !old(LastTask()) ==> timer.tasks == old(timer.tasks)[1..] && timer.fired == old(timer.fired)
      ensures state == Active ==> timer.armed && timer.wait == timer.given == old(timer.given)
    {
      var e := timer.Execute();
      if e.Some? {
        events := events + [e.value];
        assert events == [e.value];
      }
    }

    /** The worker executes a task of the timer. */
    method WorkerExecute()
      requires Valid() && timer.tasks != [] && !timer.fired
      modifies this, timer
      ensures !aborted ==> Valid()
      ensures aborted <==> old(LastTask() && Unsent() && ready != {}) && resendIvl < 0
      ensures KeepsRequest() && pulled == old(pulled) && taken == old(taken)
      ensures !aborted && old(fsm) == Timer.Active ==>
                && fsm == Timer.Active
                && state == if old(LastTask() && Unsent()) then (if old(ready) != {} then Active else Delayed)
                            else if old(LastTask()) then Done else old(state)
      ensures !old(LastTask()) ==> timer.tasks == old(timer.tasks)[1..] && timer.fired == old(timer.fired)
      ensures !aborted ==> if old(LastTask() && Unsent() && ready != {}) then HandsOver() && sentTo.value in old(ready)
                           else handed == old(handed) && ready == old(ready)
      ensures old(state) == Active ==> timer.armed && timer.wait == timer.given == old(timer.given)
    {
      ExecuteTask();
      Drain();
    }

    /** The worker feeds an expiration to the timer. */
    method WorkerFeed()
      requires Valid() && timer.fired
      modifies this, timer
      ensures Valid()
      ensures KeepsRequest() && pulled == old(pulled) && taken == old(taken)
      ensures state == if old(state) == Active then TimedOut else old(state)
      ensures handed == old(handed) && ready == old(ready)
      ensures old(state) != Active ==> timer.tasks == old(timer.tasks) && !timer.fired && fsm == old(fsm)
    {
      var e := timer.Feed();
      if e.Some? {
        events := events + [e.value];
        assert events == [e.value];
      }
      Drain();
    }
  }

  /** What can happen to a socket: calls of the user, events of pipes, steps of the worker. */
  datatype Stimulus =
    | UserSend(body: Bytes)
    | UserRecv
    | SetResendIvl(ms: int)
    | PipeIn(replies: seq<Msg>)
    | PipeOut(p: Pipe)
    | PipeRm(p: Pipe)
    | Close
    | TaskExecuted
    | TimerExpired
    | ExpirationFed

  /** Anything but a call that starts or ends a request. */
  predicate Waits(s: Stimulus) {
    !s.UserSend? && !s.UserRecv? && !s.Close? && (s.SetResendIvl? ==> s.ms >= 0)
  }

  /** One step. The socket layer lets no call or pipe event through once it is closed, and the worker
      does one thing at a time. */
  method Perform(req: Req, s: Stimulus)
    requires req.Valid()
    modifies req, req.timer
    ensures !req.aborted ==> req.Valid()
    ensures req.aborted ==> old(req.resendIvl) < 0
    ensures req.resendIvl == if s.SetResendIvl? then s.ms else old(req.resendIvl)
    ensures Waits(s) && !req.aborted && old(req.fsm) == Timer.Active && old(req.InProgress()) ==>
              && req.fsm == Timer.Active && req.InProgress()
              && req.id == old(req.id) && req.request == old(req.request)
  {
    var running := req.fsm == Timer.Active;
    match s {
      case UserSend(body) => if running { req.Send(body); }
      case UserRecv => if running { var r := req.Recv(); }
      case SetResendIvl(ms) => req.resendIvl := ms;
      case PipeIn(replies) => if running { var n := req.In(replies); }
      case PipeOut(p) => if running { req.Out(p); }
      case PipeRm(p) => if running { req.Rm(p); }
      case Close => if running { req.Stop(); }
      case TaskExecuted => if req.timer.tasks != [] && !req.timer.fired { req.WorkerExecute(); }
      case TimerExpired => if req.timer.armed && !req.timer.fired { req.timer.Expire(); }
      case ExpirationFed => if req.timer.fired { req.WorkerFeed(); }
    }
  }

  /** No run aborts unless the user has set a negative re-send interval: in every order of calls, pipe
      events and worker steps, the state, the timer and `sent_to` fit together. */
  method Run(req: Req, run: seq<Stimulus>)
    requires req.Valid()
    modifies req, req.timer
    ensures !req.aborted ==> req.Valid()
    ensures req.aborted ==>
              old(req.resendIvl) < 0 || exists k | 0 <= k < |run| :: run[k].SetResendIvl? && run[k].ms < 0
  {
    for i := 0 to |run|
      invariant req.Valid()
      invariant req.resendIvl < 0 ==>
                  old(req.resendIvl) < 0 || exists k | 0 <= k < i :: run[k].SetResendIvl? && run[k].ms < 0
    {
      Perform(req, run[i]);
      if req.aborted { return; }
    }
  }

  /** A new socket: no run aborts as long as every interval that is set is non-negative. */
  method FreshRun(lastid: uint32, run: seq<Stimulus>) returns (req: Req)
    ensures (forall k | 0 <= k < |run| :: run[k].SetResendIvl? ==> run[k].ms >= 0) ==> req.Valid()
  {
    req := new Req(lastid);
    Run(req, run);
  }

  /** A request that was submitted in any state stays in progress through every run that follows, and
      once the worker has no task left and a pipe is ready, it is what was handed over last. */
  method Submitted(req: Req, body: Bytes, run: seq<Stimulus>)
    requires req.Valid() && req.fsm == Timer.Active && req.resendIvl >= 0
    requires forall k | 0 <= k < |run| :: Waits(run[k])
    modifies req, req.timer
    ensures req.Valid() && req.fsm == Timer.Active && req.InProgress()
    ensures req.id == Inc32(old(req.id)) && req.request == Msg(PutL(WireId(req.id)), body)
    ensures req.timer.tasks == [] && req.ready != {} ==>
              req.handed != [] && req.handed[|req.handed| - 1].msg == Msg(PutL(WireId(req.id)), body)
  {
    req.Send(body);
    for i := 0 to |run|
      invariant req.Valid() && req.fsm == Timer.Active && req.InProgress() && req.resendIvl >= 0
      invariant req.id == Inc32(old(req.id)) && req.request == Msg(PutL(WireId(req.id)), body)
    {
      Perform(req, run[i]);
    }
  }

  /** So the user is never told that there is no request to receive a reply to. */
  method Polled(req: Req, body: Bytes, run: seq<Stimulus>) returns (r: RecvResult)
    requires req.Valid() && req.fsm == Timer.Active && req.resendIvl >= 0
    requires forall k | 0 <= k < |run| :: Waits(run[k])
    modifies req, req.timer
    ensures req.Valid() && r != EFSM
  {
    Submitted(req, body, run);
    r := req.Recv();
  }

  /** The worker executes the tasks of the timer. What was cancelled or has timed out is handed over
      once, if a pipe is ready, and an answered request is done. */
  method Settle(req: Req)
    requires req.Valid() && req.fsm == Timer.Active && req.resendIvl >= 0
    modifies req, req.timer
    ensures req.Valid() && req.fsm == Timer.Active && req.timer.tasks == []
    ensures req.KeepsRequest() && req.pulled == old(req.pulled)
    ensures req.state == if old(req.Unsent()) then (if old(req.ready) != {} then Active else Delayed)
                         else if old(req.state) == StoppingTimer then Done else old(req.state)
    ensures if old(req.Unsent() && req.ready != {})
            then req.HandsOver() && req.sentTo.value in old(req.ready) else req.handed == old(req.handed)
  {
    if req.timer.fired && req.timer.tasks != [] { req.WorkerFeed(); }
    if |req.timer.tasks| == 2 { req.WorkerExecute(); }
    if req.timer.tasks != [] { req.WorkerExecute(); }
    if req.timer.tasks != [] { req.WorkerExecute(); }
  }

  /** A request that is not answered times out: the worker arms its timer, for the interval it was sent
      with, takes the expired timer out of its set and feeds the expiration to it. */
  method TimesOut(req: Req)
    requires req.Valid() && req.fsm == Timer.Active && req.state == Active
    modifies req, req.timer
    ensures req.Valid() && req.fsm == Timer.Active && req.state == TimedOut
    ensures req.KeepsRequest() && req.handed == old(req.handed) && req.ready == old(req.ready)
  {
    if req.timer.tasks != [] { req.WorkerExecute(); }
    if req.timer.armed { req.timer.Expire(); }
    req.WorkerFeed();
  }

  /** It is then sent again, the same message under the same id, at once or as soon as there is a pipe. */
  method SentAgain(req: Req, p: Pipe)
    requires req.Valid() && req.fsm == Timer.Active && req.resendIvl >= 0 && req.state == Active
    modifies req, req.timer
    ensures req.Valid() && req.state == Active && req.KeepsRequest()
    ensures req.HandsOver() && (req.sentTo.value == p || req.sentTo.value in old(req.ready))
  {
    TimesOut(req);
    Settle(req);
    if req.state == Delayed { req.Out(p); }
  }

  /** A new socket with one pipe sends a request and pulls its answer: the request is done. */
  method Answered(lastid: uint32, p: Pipe, answer: Msg) returns (req: Req)
    requires Answers(answer, Inc32(lastid))
    ensures fresh(req) && fresh(req.timer) && req.Valid() && req.fsm == Timer.Active && req.state == Done
    ensures req.id == Inc32(lastid) && req.pulled == [answer]
  {
    req := new Req(lastid);
    req.Out(p);
    req.Send([]);
    assert req.state == Active;
    var n := req.In([answer]);
    assert n == 1;
    Settle(req);
  }

  /** The user then gets the body of the answer. */
  method AnswerReceived(lastid: uint32, p: Pipe, answer: Msg) returns (r: RecvResult)
    requires Answers(answer, Inc32(lastid))
    ensures r == Ok(Live(answer.body))
  {
    var req := Answered(lastid, p, answer);
    r := req.Recv();
  }

  /** Unless one more message is pulled first: then the user gets memory that was freed. */
  method LaterMessageSpoils(lastid: uint32, p: Pipe, answer: Msg, later: Msg) returns (r: RecvResult)
    requires Answers(answer, Inc32(lastid)) && !Answers(later, Inc32(lastid))
    ensures r == Ok(Freed)
  {
    var req := Answered(lastid, p, answer);
    var n := req.In([later]);
    assert n == 1 && req.pulled == [answer, later];
    r := req.Recv();
  }

  /** With a negative interval, the first request that finds a ready pipe aborts the program. */
  method NegativeIntervalAborts(lastid: uint32, p: Pipe) returns (req: Req)
    ensures req.aborted
  {
    req := new Req(lastid);
    req.resendIvl := -1;
    req.Out(p);
    req.Send([]);
  }

  /** The id of the n-th request after one with id `id`. */
  function LaterId(id: uint32, n: nat): uint32 {
    (id + n) % 0x1_0000_0000
  }

  lemma LaterIdStep(id: uint32, n: nat)
    ensures LaterId(id, n + 1) == Inc32(LaterId(id, n))
  {}

  /** The ids of requests that are sent one after the other. */
  method SendAll(req: Req, bodies: seq<Bytes>)
    requires req.Valid() && req.fsm == Timer.Active && req.resendIvl >= 0
    modifies req, req.timer
    ensures req.Valid() && req.id == LaterId(old(req.id), |bodies|)
    ensures bodies != [] ==> req.request == Msg(PutL(WireId(req.id)), bodies[|bodies| - 1])
  {
    for i := 0 to |bodies|
      invariant req.Valid() && req.fsm == Timer.Active && req.resendIvl >= 0
      invariant req.id == LaterId(old(req.id), i)
      invariant i > 0 ==> req.request == Msg(PutL(WireId(req.id)), bodies[i - 1])
    {
      LaterIdStep(old(req.id), i);
      req.Send(bodies[i]);
    }
  }

  /** Requests less than 2^31 apart never share a wire id, so a late reply to an earlier one of them
      does not answer the current one. */
  lemma WireIdsDiffer(id: uint32, n: nat)
    requires 0 < n < TWO_31
    ensures WireId(LaterId(id, n)) != WireId(id)
  {
    assert LaterId(id, n) % 0x8000_0000 == (id + n) % 0x8000_0000;
    var low := id % 0x8000_0000;
    assert (id + n) % 0x8000_0000 == if low + n < 0x8000_0000 then low + n else low + n - 0x8000_0000;
  }

  lemma StaleReplyIgnored(id: uint32, n: nat, body: Bytes)
    requires 0 < n < TWO_31
    ensures Answers(Msg(PutL(WireId(id)), body), id)
    ensures !Answers(Msg(PutL(WireId(id)), body), LaterId(id, n))
  {
    GetPut(WireId(id));
    WireIdsDiffer(id, n);
  }
}
