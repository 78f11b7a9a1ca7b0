/** The SURVEYOR socket: its state machine, its deadline timer and its receive loop. */
module Surveyor {
  import opened Common
  import opened Message
  import opened Wire
  import Timer

  datatype State = Idle | Passive | Active | Cancelling | StoppingTimer | Stopping

  datatype Input = ActionInit | ActionStart | ActionCancel | FromTimer(event: Timer.Event)

  datatype RecvResult = EFSM | ETIMEDOUT | EAGAIN | Ok(body: Bytes)

  /** The id of the next survey: the counter goes up, and its top bit is always set. */
  function NextId(id: uint32): uint32 {
    TWO_31 + Inc32(id) % 0x8000_0000
  }

  function PhaseIn(state: State): Timer.Phase {
    match state
    case Active => Timer.Active
    case Cancelling | StoppingTimer => Timer.Stopping
    case _ => Timer.Idle
  }

  /** What the handler makes of an input, None for a bad action or source. */
  function Next(state: State, input: Input): Option<State> {
    match (state, input)
    case (Idle, ActionInit) => Some(Passive)
    case (Passive, ActionStart) => Some(Active)
    case (Active, ActionCancel) => Some(Cancelling)
    case (Active, FromTimer(TimedOut)) => Some(StoppingTimer)
    case (Cancelling, ActionCancel) => Some(Cancelling)
    case (Cancelling, FromTimer(Stopped)) => Some(Active)
    case (StoppingTimer, ActionCancel) => Some(Cancelling)
    case (StoppingTimer, FromTimer(Stopped)) => Some(Passive)
    case _ => None
  }

  predicate Responds(m: Msg, id: uint32) {
    |m.sphdr| == 4 && GetL(m.sphdr) == id
  }

  class Surveyor {
    const timer: Timer.Timer
    var fsm: Timer.Phase
    var state: State
    var surveyid: uint32
    var tosend: Msg
    var deadline: int
    var timedout: bool
    var events: seq<Timer.Event>
    var aborted: bool
    /** The surveys that went out to the respondents. */
    ghost var published: seq<Msg>

    /** The timer's phase is decided by the state. An active survey has a timeout to come. */
    ghost predicate Phased()
      reads this, timer
    {
      && (fsm == Timer.Active ==>
            && timer.state == PhaseIn(state) && state != Idle && state != Stopping
            && (state == Active && events == [] ==> timer.Ticking()))
      && (fsm == Timer.Stopping ==> state == Stopping && timer.state == Timer.Stopping)
      && (fsm == Timer.Idle ==> state == Idle && timer.state == Timer.Idle)
    }

    /** While a survey is active or has just timed out, it is the last one that was published. */
    ghost predicate Current()
      reads this
    {
      && (state == Active || state == StoppingTimer ==> published != [] && published[|published| - 1] == tosend)
      && (InProgress() ==> tosend.sphdr == PutL(surveyid))
      && (state == StoppingTimer ==> timedout)
    }

    ghost predicate Valid()
      reads this, timer
    {
      !aborted && timer.Valid() && events == [] && Phased() && Current()
    }

    /** nn_surveyor_inprogress. */
    predicate InProgress()
      reads this
    {
      state != Idle && state != Passive && state != Stopping
    }

    /** nn_surveyor_init. */
    constructor (id: uint32)
      ensures Valid() && fsm == Timer.Active && state == Passive && deadline == 1000 && fresh(timer)
      ensures published == [] && !timedout && surveyid == id
    {
      timer := new Timer.Timer();
      fsm, state, surveyid := Timer.Active, Idle, id;
      tosend, deadline, timedout := Msg([], []), 1000, false;
      events, aborted, published := [], false, [];
      new;
      Handler(ActionInit);
    }

    /** nn_surveyor_resend, and the start of the deadline timer. */
    method Publish()
      requires timer.Valid() && !aborted && timer.state == Timer.Idle && Timer.Stopped !in events
      modifies this`state, this`aborted, this`published, timer
      ensures published == old(published) + [tosend]
      ensures aborted <==> deadline < 0
      ensures !aborted ==> timer.Valid() && timer.state == Timer.Active && state == Active
      ensures !aborted ==> timer.Ticking() && timer.given == deadline
    {
      published := published + [tosend];
      timer.Start(deadline, Timer.Stopped in events);
      if timer.aborted { aborted := true; } else { state := Active; }
    }

    /** nn_surveyor_handler. */
    method Handler(input: Input)
      requires timer.Valid() && !aborted && Timer.Stopped !in events
      requires timer.state == if input == FromTimer(Timer.Stopped) then Timer.Idle else PhaseIn(state)
      modifies this`state, this`aborted, this`timedout, this`published, timer
      ensures aborted <==>
                Next(old(state), input).None? ||
                (old(state) != Active && Next(old(state), input) == Some(Active) && deadline < 0)
      ensures !aborted ==>
                && state == Next(old(state), input).value && timer.Valid() && timer.state == PhaseIn(state)
                && (old(state) != Active && state == Active ==> timer.Ticking() && timer.given == deadline)
      ensures !aborted ==>
                published == if old(state) != Active && state == Active then old(published) + [tosend] else old(published)
      ensures !aborted ==> timedout == (old(timedout) || (old(state) == Active && state == StoppingTimer))
    {
      match state {
        case Idle =>
          if input == ActionInit { state := Passive; } else { aborted := true; }
        case Passive =>
          if input == ActionStart { Publish(); } else { aborted := true; }
        case Active =>
          if input == ActionCancel {
            timer.Stop();
            state := Cancelling;
          } else if input == FromTimer(Timer.TimedOut) {
            timer.Stop();
            state := StoppingTimer;
            timedout := true;
          } else {
            aborted := true;
          }
        case Cancelling =>
          if input == ActionCancel { }
          else if input == FromTimer(Timer.Stopped) { Publish(); }
          else { aborted := true; }
        case StoppingTimer =>
          if input == ActionCancel { state := Cancelling; }
          else if input == FromTimer(Timer.Stopped) { state := Passive; }
          else { aborted := true; }
        case Stopping =>
          aborted := true;
      }
    }

    /** nn_surveyor_shutdown; `stop` for the STOP action itself. */
    method Shutdown(stop: bool)
      requires timer.Valid() && !aborted && fsm == Timer.Stopping
      requires !stop ==> state == Stopping && timer.state != Timer.Active
      modifies this`state, this`fsm, timer
      ensures timer.Valid()
      ensures fsm == Timer.Idle ==> state == Idle && timer.state == Timer.Idle
      ensures fsm != Timer.Idle ==>
                && fsm == Timer.Stopping && state == Stopping
                && (timer.state == Timer.Stopping || Timer.Stopped in events)
    {
      if stop {
        timer.Stop();
        state := Stopping;
      }
      if state == Stopping {
        if timer.fsm != Timer.Idle || Timer.Stopped in events { return; }
        state := Idle;
        fsm := Timer.Idle;
        return;
      }
      assert false;
    }

    /** The states in which the context may be left: at most one event of the timer is to be processed. */
    ghost predicate Due()
      reads this, timer
    {
      && timer.Valid() && !aborted && Current()
      && (events == [] || events == [Timer.TimedOut] ==> Phased())
      && (events == [] || events == [Timer.TimedOut] || events == [Timer.Stopped])
      && (events == [Timer.TimedOut] ==> timer.state == Timer.Active)
      && (events == [Timer.Stopped] ==>
            && timer.state == Timer.Idle && fsm != Timer.Idle
            && (fsm == Timer.Active ==> PhaseIn(state) == Timer.Stopping)
            && (fsm == Timer.Stopping ==> state == Stopping))
    }

    /** What the processing of an event comes to: none is raised by it. */
    twostate predicate Processed()
      requires old(events) != []
      reads this, timer
    {
      var sends := old(events) == [Timer.Stopped] && old(state) == Cancelling;
      && events == [] && (!aborted ==> Valid())
      && (aborted <==> sends && deadline < 0)
      && (!aborted ==>
            && published == old(published) + (if sends then [tosend] else [])
            && timedout == (old(timedout) || old(events) == [Timer.TimedOut]))
      && (!aborted && old(fsm) == Timer.Active ==>
            && fsm == Timer.Active
            && state == if old(events) == [Timer.TimedOut] then StoppingTimer else if sends then Active else Passive)
    }

    /** One event is processed. */
    method Process()
      requires Due() && events != []
      modifies this`fsm, this`state, this`aborted, this`timedout, this`published, this`events, timer
      ensures Processed()
    {
      var e := events[0];
      events := events[1..];
      if fsm != Timer.Stopping { Handler(FromTimer(e)); } else { Shutdown(false); }
    }

    /** nn_ctx_leave: every event is processed before the context is unlocked. */
    method Drain()
      requires Due()
      modifies this`fsm, this`state, this`aborted, this`timedout, this`published, this`events, timer
      ensures if old(events) == [] then unchanged(this) && unchanged(timer) else Processed()
    {
      while events != [] && !aborted
        invariant (unchanged(this) && unchanged(timer)) || (old(events) != [] && Processed())
        decreases |events|
      {
        Process();
      }
    }

    /** The survey, the option and its deadline stay. */
    twostate predicate KeepsSurvey()
      reads this
    {
      surveyid == old(surveyid) && tosend == old(tosend) && deadline == old(deadline)
    }

    /** nn_surveyor_send: a new survey cancels the one in progress. */
    method Send(body: Bytes)
      requires Valid() && fsm == Timer.Active
      modifies this, timer
      ensures !aborted ==> Valid() && fsm == Timer.Active
      ensures aborted <==> old(state) == Passive && deadline < 0
      ensures surveyid == NextId(old(surveyid)) && tosend == Msg(PutL(surveyid), body) && deadline == old(deadline)
      ensures !aborted ==> state == if old(state) == Passive then Active else Cancelling
      ensures !aborted ==> published == old(published) + if state == Active then [tosend] else []
    {
      surveyid := NextId(surveyid);
      tosend := Msg(PutL(surveyid), body);
      // A survey can always be sent: nn_xsurveyor_events reports OUT unconditionally.
      if InProgress() { Handler(ActionCancel); } else { Handler(ActionStart); }
    }

    /** nn_surveyor_recv: the first response to the current survey; all others are thrown away. */
    method Recv(responses: seq<Msg>) returns (r: RecvResult, n: nat)
      requires Valid() && fsm == Timer.Active
      modifies this`timedout
      ensures Valid()
      ensures !InProgress() ==> n == 0 && r == (if old(timedout) then ETIMEDOUT else EFSM) && !timedout
      ensures InProgress() ==>
                && n <= |responses| && timedout == old(timedout)
                && (forall k | 0 <= k < n - 1 :: !Responds(responses[k], surveyid))
                && (r.Ok? ==> n > 0 && Responds(responses[n - 1], surveyid) && r.body == responses[n - 1].body)
                && (!r.Ok? ==> r == EAGAIN && n == |responses| && forall m | m in responses :: !Responds(m, surveyid))
    {
      n := 0;
      if !InProgress() {
        if timedout {
          timedout := false;
          return ETIMEDOUT, 0;
        }
        return EFSM, 0;
      }
      while n < |responses|
        invariant n <= |responses|
        invariant forall k | 0 <= k < n :: !Responds(responses[k], surveyid)
      {
        var m := responses[n];
        n := n + 1;
        if |m.sphdr| != 4 || GetL(m.sphdr) != surveyid { continue; }
        return Ok(m.body), n;
      }
      r := EAGAIN;
    }

    /** nn_surveyor_stop. */
    method Stop()
      requires Valid() && fsm == Timer.Active
      modifies this, timer
      ensures Valid() && fsm != Timer.Active && deadline == old(deadline)
    {
      fsm := Timer.Stopping;
      Shutdown(true);
    }

    /** The task after which the timer has stopped. */
    ghost predicate LastTask()
      reads timer
    {
      timer.state == Timer.Stopping && timer.tasks == [Timer.StopTask]
    }

    /** The worker executes a task of the timer. */
    method WorkerExecute()
      requires Valid() && timer.tasks != [] && !timer.fired
      modifies this, timer
      ensures !aborted ==> Valid()
      ensures aborted <==> old(LastTask() && state == Cancelling) && deadline < 0
      ensures KeepsSurvey() && (!aborted ==> timedout == old(timedout))
      ensures !aborted && old(fsm) == Timer.Active ==>
                && fsm == Timer.Active
                && state == if !old(LastTask()) then old(state) else if old(state) == Cancelling then Active else Passive
      ensures !aborted ==> published == old(published) + if old(LastTask() && state == Cancelling) then [tosend] else []
      ensures !old(LastTask()) ==> timer.tasks == old(timer.tasks)[1..] && timer.fired == old(timer.fired)
      ensures old(state) == Active ==> timer.armed && timer.wait == timer.given == old(timer.given)
    {
      var e := timer.Execute();
      if e.Some? {
        events := events + [e.value];
        assert events == [e.value];
      }
      Drain();
    }

    /** The worker feeds an expiration to the timer. */
    method WorkerFeed()
      requires Valid() && timer.fired
      modifies this, timer
      ensures Valid() && KeepsSurvey() && published == old(published)
      ensures state == if old(state) == Active then StoppingTimer else old(state)
      ensures timedout == (old(timedout) || old(state) == Active)
      ensures old(state) != Active ==> timer.tasks == old(timer.tasks) && !timer.fired && fsm == old(fsm)
      ensures old(fsm) == Timer.Active ==> fsm == Timer.Active
    {
      var e := timer.Feed();
      if e.Some? {
        events := events + [e.value];
        assert events == [e.value];
      }
      Drain();
    }
  }

  datatype Stimulus =
    | UserSend(body: Bytes)
    | UserRecv(responses: seq<Msg>)
    | SetDeadline(ms: int)
    | Close
    | TaskExecuted
    | TimerExpired
    | ExpirationFed

  /** One step of the user or of the worker. */
  method Perform(s: Surveyor, step: Stimulus)
    requires s.Valid()
    modifies s, s.timer
    ensures !s.aborted ==> s.Valid()
    ensures s.aborted ==> old(s.deadline) < 0
    ensures s.deadline == if step.SetDeadline? then step.ms else old(s.deadline)
  {
    var running := s.fsm == Timer.Active;
    match step {
      case UserSend(body) => if running { s.Send(body); }
      case UserRecv(responses) => if running { var r, n := s.Recv(responses); }
      case SetDeadline(ms) => s.deadline := ms;
      case Close => if running { s.Stop(); }
      case TaskExecuted => if s.timer.tasks != [] && !s.timer.fired { s.WorkerExecute(); }
      case TimerExpired => if s.timer.armed && !s.timer.fired { s.timer.Expire(); }
      case ExpirationFed => if s.timer.fired { s.WorkerFeed(); }
    }
  }

  /** No run aborts unless the user has set a negative deadline. */
  method Run(s: Surveyor, run: seq<Stimulus>)
    requires s.Valid()
    modifies s, s.timer
    ensures !s.aborted ==> s.Valid()
    ensures s.aborted ==>
              old(s.deadline) < 0 || exists k | 0 <= k < |run| :: run[k].SetDeadline? && run[k].ms < 0
  {
    for i := 0 to |run|
      invariant s.Valid()
      invariant s.deadline < 0 ==>
                  old(s.deadline) < 0 || exists k | 0 <= k < i :: run[k].SetDeadline? && run[k].ms < 0
    {
      Perform(s, run[i]);
      if s.aborted { return; }
    }
  }

  /** The worker executes the tasks of the timer. A survey that replaced another goes out once, and one
      whose deadline has passed ends. */
  method Settle(s: Surveyor)
    requires s.Valid() && s.fsm == Timer.Active && s.deadline >= 0
    modifies s, s.timer
    ensures s.Valid() && s.fsm == Timer.Active && s.timer.tasks == []
    ensures s.KeepsSurvey() && s.timedout == old(s.timedout)
    ensures s.state == if old(s.state) == Cancelling then Active
                       else if old(s.state) == StoppingTimer then Passive else old(s.state)
    ensures s.published == old(s.published) + if old(s.state) == Cancelling then [s.tosend] else []
  {
    if s.timer.fired && s.timer.tasks != [] { s.WorkerFeed(); }
    if |s.timer.tasks| == 2 { s.WorkerExecute(); }
    if s.timer.tasks != [] { s.WorkerExecute(); }
    if s.timer.tasks != [] { s.WorkerExecute(); }
  }

  /** A survey that is sent in any state is what goes out last once the worker has no task left, and the
      user can receive responses to it. */
  method Submitted(s: Surveyor, body: Bytes, responses: seq<Msg>) returns (r: RecvResult)
    requires s.Valid() && s.fsm == Timer.Active && s.deadline >= 0
    modifies s, s.timer
    ensures s.Valid() && s.state == Active && s.timer.tasks == []
    ensures s.published == old(s.published) + [Msg(PutL(NextId(old(s.surveyid))), body)]
    ensures r != EFSM && r != ETIMEDOUT
  {
    s.Send(body);
    Settle(s);
    var n;
    r, n := s.Recv(responses);
  }

  /** A survey runs out: the worker arms its timer, for the deadline it was sent with, takes the expired
      timer out of its set and feeds the expiration to it. */
  method TimesOut(s: Surveyor)
    requires s.Valid() && s.fsm == Timer.Active && s.state == Active
    modifies s, s.timer
    ensures s.Valid() && s.fsm == Timer.Active && s.state == StoppingTimer && s.timedout
    ensures s.KeepsSurvey() && s.published == old(s.published)
  {
    if s.timer.tasks != [] { s.WorkerExecute(); }
    if s.timer.armed { s.timer.Expire(); }
    s.WorkerFeed();
  }

  /** The user is told so once. Before that, responses may still be received. */
  method Expired(s: Surveyor, responses: seq<Msg>) returns (before: RecvResult, first: RecvResult, second: RecvResult)
    requires s.Valid() && s.fsm == Timer.Active && s.deadline >= 0 && s.state == Active
    modifies s, s.timer
    ensures s.Valid() && s.state == Passive
    ensures before != EFSM && before != ETIMEDOUT && first == ETIMEDOUT && second == EFSM
  {
    TimesOut(s);
    var n;
    before, n := s.Recv(responses);
    Settle(s);
    first, n := s.Recv(responses);
    second, n := s.Recv(responses);
  }

  /** With a negative deadline, the first survey aborts the program. */
  method NegativeDeadlineAborts(id: uint32, body: Bytes) returns (s: Surveyor)
    ensures s.aborted
  {
    s := new Surveyor(id);
    s.deadline := -1;
    s.Send(body);
  }

  function LaterId(id: uint32, n: nat): uint32 {
    if n == 0 then id else NextId(LaterId(id, n - 1))
  }

  lemma NextLow(low: nat, n: nat)
    requires low == n % 0x8000_0000
    ensures Inc32(TWO_31 + low) % 0x8000_0000 == (n + 1) % 0x8000_0000
  {
    var q := n / 0x8000_0000;
    assert n == q * 0x8000_0000 + low;
    if low + 1 == 0x8000_0000 { assert n + 1 == (q + 1) * 0x8000_0000; }
  }

  /** Surveys less than 2^31 apart have different ids. */
  lemma {:induction false} LaterIdValue(id: uint32, n: nat)
    requires id >= TWO_31
    ensures LaterId(id, n) == TWO_31 + (id + n) % 0x8000_0000
  {
    if n > 0 {
      LaterIdValue(id, n - 1);
      NextLow((id + n - 1) % 0x8000_0000, id + n - 1);
    }
  }

  lemma SurveyIdsDiffer(id: uint32, n: nat)
    requires id >= TWO_31 && 0 < n < TWO_31
    ensures LaterId(id, n) != id
  {
    LaterIdValue(id, n);
  }

  /** A response to a survey is one to it and to none of the next 2^31 - 1 surveys. */
  lemma StaleResponseIgnored(id: uint32, n: nat, body: Bytes)
    requires id >= TWO_31 && 0 < n < TWO_31
    ensures Responds(Msg(PutL(id), body), id)
    ensures !Responds(Msg(PutL(id), body), LaterId(id, n))
  {
    GetPut(id);
    SurveyIdsDiffer(id, n);
  }
}
