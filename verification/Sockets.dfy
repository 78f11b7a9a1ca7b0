/** The table of socket descriptors, and how a socket is closed while other threads still use it. Every
    step is what a thread does under the global lock or inside the socket's context. */
module Sockets {
  import opened Common

  const MAX_SOCKETS := 512

  type CallId = nat

  datatype State = Active | StoppingEps | Stopping | Fini

  /** Where the thread that closes the socket is. */
  datatype Closer = NotClosing | AwaitsTerm | AwaitsRelease | Released

  /** A socket: `users` are the calls that have a hold on it, `canStop` says that its protocol needs time
      to stop, `late` that an endpoint was added after the socket was closed. */
  datatype Sock = Sock(state: State, holds: nat, eps: nat, sdeps: nat, canStop: bool,
                       termsem: nat, relesem: nat, users: set<CallId>, closer: Closer, late: bool)

  ghost predicate SockOk(k: Sock) {
    // A hold for every call, and one for the owner until the socket is closed.
    && k.holds == |k.users| + (if k.closer == NotClosing then 1 else 0)
    && (k.state == Active <==> k.closer == NotClosing)
    // Each semaphore is posted once: when the socket has stopped, and when the last hold is dropped.
    && k.termsem == (if k.state == Fini && k.closer == AwaitsTerm then 1 else 0)
    && k.relesem == (if k.holds == 0 && k.closer != Released then 1 else 0)
    && (k.closer == AwaitsRelease || k.closer == Released ==> k.state == Fini)
    && (k.closer == Released ==> k.holds == 0)
    && (k.state == StoppingEps ==> k.sdeps > 0)
    && (k.state == Stopping ==> k.canStop)
    // A stopped socket has endpoints only if they were added too late.
    && (k.state == Stopping || k.state == Fini ==> k.sdeps == 0 || k.late)
    && (k.state != Active ==> k.eps == 0 || k.late)
    && (k.late ==> k.state != Active)
  }

  /** A socket between two steps. */
  type OkSock = k: Sock | SockOk(k) witness Sock(Active, 1, 0, 0, false, 0, 0, {}, NotClosing, false)

  /** The endpoints of a socket, running and shutting down. */
  function Endpoints(k: Sock): nat {
    k.eps + k.sdeps
  }

  /** Neither the endpoints of a socket nor its protocol change. */
  predicate SameParts(k: Sock, r: Sock) {
    Endpoints(r) == Endpoints(k) && r.canStop == k.canStop && r.late == k.late
  }

  /** nn_sock_hold, for a call. */
  function Hold(k: OkSock, c: CallId): (r: Option<OkSock>)
    requires c !in k.users
    ensures r.Some? <==> k.closer == NotClosing
    ensures r.Some? ==> r.value.users == k.users + {c} && SameParts(k, r.value)
  {
    if k.state == Active then Some(k.(holds := k.holds + 1, users := k.users + {c})) else None
  }

  /** nn_sock_rele without the bookkeeping of who had the hold. */
  function Rele(k: Sock): Sock
    requires k.holds > 0
  {
    k.(holds := k.holds - 1, relesem := if k.holds == 1 then k.relesem + 1 else k.relesem)
  }

  /** A call drops its hold. */
  function Drop(k: OkSock, c: CallId): (r: OkSock)
    requires c in k.users
    ensures r.users == k.users - {c} && SameParts(k, r)
  {
    Rele(k).(users := k.users - {c})
  }

  /** The end of nn_sock_shutdown: the protocol is gone and the closing thread may go on. */
  function Finished(k: Sock): Sock {
    k.(state := Fini, termsem := k.termsem + 1)
  }

  /** The part of nn_sock_shutdown behind the label finish2; None if its assertion fails. */
  function CheckEps(k: Sock): Option<Sock> {
    if k.sdeps > 0 then Some(k)
    else if k.eps > 0 then None
    else if k.canStop then Some(k.(state := Stopping))
    else Some(Finished(k))
  }

  /** nn_sock_stop. */
  function Stop(k: Sock): (r: Option<Sock>)
    requires k.state == Active
    ensures r.Some? && SameParts(k, r.value) && r.value.eps == 0
  {
    CheckEps(k.(state := StoppingEps, sdeps := k.sdeps + k.eps, eps := 0))
  }

  /** The locked part of nn_close: a hold is taken, and with it the owner's hold is dropped. */
  function Close(k: OkSock): (r: OkSock)
    requires k.closer == NotClosing
    ensures r.users == k.users && r.closer == AwaitsTerm && SameParts(k, r) && r.eps == 0
  {
    Rele(Rele(Stop(k.(holds := k.holds + 1)).value)).(closer := AwaitsTerm)
  }

  /** nn_sock_add_ep. */
  function AddEp(k: OkSock): (r: OkSock)
    ensures r.users == k.users && Endpoints(r) == Endpoints(k) + 1 && r.eps > k.eps && r.canStop == k.canStop
  {
    k.(eps := k.eps + 1, late := k.late || k.state != Active)
  }

  /** nn_sock_rm_ep: an endpoint starts shutting down. */
  function RmEp(k: OkSock): (r: OkSock)
    requires k.eps > 0
    ensures r.users == k.users && SameParts(k, r) && r.eps == k.eps - 1
  {
    k.(eps := k.eps - 1, sdeps := k.sdeps + 1)
  }

  /** The socket cannot take it that an endpoint stops: another one was added after the socket was
      closed, and is still there when the last one stops, or stops when the socket has stopped. */
  predicate TooLate(k: Sock) {
    || k.state == Stopping || k.state == Fini
    || (k.state == StoppingEps && k.sdeps == 1 && k.eps > 0)
  }

  /** The socket's state machine hears that an endpoint has stopped; None if it aborts. */
  function EpStopped(k: OkSock): (r: Option<OkSock>)
    requires k.sdeps > 0
    ensures r.None? <==> TooLate(k)
    ensures r.None? ==> k.late
    ensures r.Some? ==> r.value.users == k.users && r.value.eps == k.eps && r.value.sdeps == k.sdeps - 1
    ensures r.Some? ==> r.value.canStop == k.canStop && r.value.late == k.late
  {
    match k.state
    case Active => Some(k.(sdeps := k.sdeps - 1))
    case StoppingEps => CheckEps(k.(sdeps := k.sdeps - 1))
    case Stopping => None
    case Fini => None
  }

  /** The protocol has stopped. */
  function ProtocolStopped(k: OkSock): (r: OkSock)
    requires k.state == Stopping
    ensures r.users == k.users && SameParts(k, r) && r.eps == k.eps
  {
    Finished(k)
  }

  /** The closing thread gets past the first wait in nn_sock_term. */
  function PassTerm(k: OkSock): (r: OkSock)
    requires k.closer == AwaitsTerm && k.termsem > 0
    ensures r.users == k.users && SameParts(k, r) && r.eps == k.eps
  {
    k.(termsem := k.termsem - 1, closer := AwaitsRelease)
  }

  /** The closing thread gets past the second wait in nn_sock_term. */
  function PassRelease(k: OkSock): (r: OkSock)
    requires k.closer == AwaitsRelease && k.relesem > 0
    ensures r.users == k.users == {} && SameParts(k, r) && r.eps == k.eps
  {
    k.(relesem := k.relesem - 1, closer := Released)
  }

  /** What brings the close of a socket further: an endpoint or the protocol stops, a call drops its hold,
      or the closing thread gets past one of its waits. */
  datatype CloseStep = EpStops | ProtStops | CallLeaves(c: CallId) | TermPasses | ReleasePasses

  predicate Enabled(k: OkSock, step: CloseStep) {
    match step
    case EpStops => k.sdeps > 0 && !TooLate(k)
    case ProtStops => k.state == Stopping
    case CallLeaves(c) => c in k.users
    case TermPasses => k.closer == AwaitsTerm && k.termsem > 0
    case ReleasePasses => k.closer == AwaitsRelease && k.relesem > 0
  }

  function Taken(k: OkSock, step: CloseStep): OkSock
    requires Enabled(k, step)
  {
    match step
    case EpStops => EpStopped(k).value
    case ProtStops => ProtocolStopped(k)
    case CallLeaves(c) => Drop(k, c)
    case TermPasses => PassTerm(k)
    case ReleasePasses => PassRelease(k)
  }

  /** What is still to be done before the socket can be freed. */
  function Remaining(k: Sock): nat {
    k.sdeps + |k.users| +
    (match k.state case Active => 3 case StoppingEps => 2 case Stopping => 1 case Fini => 0) +
    (match k.closer case NotClosing => 3 case AwaitsTerm => 2 case AwaitsRelease => 1 case Released => 0)
  }

  /** Every step leaves less to be done. */
  lemma CloseProgress(k: OkSock, step: CloseStep)
    requires Enabled(k, step)
    ensures Remaining(Taken(k, step)) < Remaining(k)
    ensures Taken(k, step).late == k.late && (k.closer != NotClosing ==> Taken(k, step).closer != NotClosing)
  {}

  /** A socket that is being closed is freed next or has a step to take. */
  lemma CloseNotStuck(k: OkSock)
    requires k.closer != NotClosing && !k.late
    ensures (k.closer == Released && k.users == {} && k.eps == 0 && k.sdeps == 0) || exists step :: Enabled(k, step)
  {
    if k.sdeps > 0 {
      assert Enabled(k, EpStops);
    } else if k.state == Stopping {
      assert Enabled(k, ProtStops);
    } else if k.closer == AwaitsTerm {
      assert Enabled(k, TermPasses);
    } else if c :| c in k.users {
      assert Enabled(k, CallLeaves(c));
    } else if k.closer == AwaitsRelease {
      assert Enabled(k, ReleasePasses);
    }
  }

  /** The steps can be taken one after the other. */
  predicate Possible(k: OkSock, steps: seq<CloseStep>)
    decreases |steps|
  {
    steps == [] || (Enabled(k, steps[0]) && Possible(Taken(k, steps[0]), steps[1..]))
  }

  function TakenAll(k: OkSock, steps: seq<CloseStep>): OkSock
    requires Possible(k, steps)
    decreases |steps|
  {
    if steps == [] then k else TakenAll(Taken(k, steps[0]), steps[1..])
  }

  /** A close comes to its end whatever the order of the steps: there are at most as many as there is to
      be done, and when there is none left the socket can be freed, without a call and without an
      endpoint. */
  lemma {:induction false} CloseCompletes(k: OkSock, steps: seq<CloseStep>)
    requires k.closer != NotClosing && !k.late && Possible(k, steps)
    ensures |steps| <= Remaining(k)
    ensures var end := TakenAll(k, steps);
            (forall step :: !Enabled(end, step)) ==>
              end.closer == Released && end.users == {} && end.eps == 0 && end.sdeps == 0
    decreases |steps|
  {
    if steps == [] {
      CloseNotStuck(k);
    } else {
      CloseProgress(k, steps[0]);
      CloseCompletes(Taken(k, steps[0]), steps[1..]);
    }
  }

  /** The stack lists every free descriptor once, and no open one. */
  ghost predicate Lists(slots: seq<Option<OkSock>>, free: seq<nat>) {
    && Distinct(free)
    && (forall s | s in free :: s < |slots|)
    && (forall s | 0 <= s < |slots| :: s in free <==> slots[s].None?)
  }

  /** The same with the place of every descriptor in the stack. */
  ghost predicate Places(slots: seq<Option<OkSock>>, free: seq<nat>, place: seq<nat>) {
    && |place| == |slots|
    && (forall i | 0 <= i < |free| :: free[i] < |slots| && slots[free[i]].None? && place[free[i]] == i)
    && (forall s | 0 <= s < |slots| && slots[s].None? :: place[s] < |free| && free[place[s]] == s)
  }

  lemma PlacesLists(slots: seq<Option<OkSock>>, free: seq<nat>, place: seq<nat>)
    requires Places(slots, free, place)
    ensures Lists(slots, free)
  {
    forall s | 0 <= s < |slots| && slots[s].None? ensures s in free { assert free[place[s]] == s; }
  }

  /** The stack has room for one more as long as a socket is open. */
  lemma Room(free: seq<nat>, n: nat, s: nat)
    requires Distinct(free) && s !in free && s < n && forall t | t in free :: t < n
    ensures |free| < n
  {
    var all := free + [s];
    forall i | 0 <= i < |all| ensures all[i] < n { assert all[i] in free || all[i] == s; }
    DistinctBound(all, n);
  }

  lemma AllFree(slots: seq<Option<OkSock>>, free: seq<nat>, place: seq<nat>, s: nat)
    requires Places(slots, free, place) && |free| == |slots| && s < |slots|
    ensures slots[s] == None
  {
    if slots[s].Some? {
      PlacesLists(slots, free, place);
      Room(free, |slots|, s);
    }
  }

  class Table {
    var inited: bool
    var slots: seq<Option<OkSock>>
    var unused: seq<nat>
    var nsocks: nat
    ghost var place: seq<nat>

    ghost predicate Valid()
      reads this
    {
      && nsocks <= MAX_SOCKETS
      && (inited ==> |slots| == |unused| == MAX_SOCKETS && Places(slots, Free(), place))
      && (!inited ==> nsocks == 0)
    }

    /** The stack of the descriptors that are free. */
    ghost function Free(): seq<nat>
      requires nsocks <= MAX_SOCKETS && |unused| == MAX_SOCKETS
      reads this
    {
      unused[..MAX_SOCKETS - nsocks]
    }

    constructor ()
      ensures Valid() && !inited
    {
      inited, slots, unused, nsocks, place := false, [], [], 0, [];
    }

    /** nn_global_init. */
    method Init()
      requires Valid()
      modifies this
      ensures Valid() && inited && nsocks == old(nsocks)
      ensures old(inited) ==> slots == old(slots)
      ensures !old(inited) ==> forall s | 0 <= s < MAX_SOCKETS :: slots[s] == None
    {
      if inited { return; }
      var empty, stack := [], [];
      for i := 0 to MAX_SOCKETS
        invariant |empty| == i && forall s | 0 <= s < i :: empty[s] == None
      {
        empty := empty + [None];
      }
      for i := 0 to MAX_SOCKETS
        invariant |stack| == i && forall k | 0 <= k < i :: stack[k] == MAX_SOCKETS - k - 1
      {
        stack := stack + [MAX_SOCKETS - i - 1];
      }
      slots, unused, nsocks, inited := empty, stack, 0, true;
      place := stack;
      assert Free() == unused;
    }

    /** nn_global_term. */
    method Term()
      requires Valid()
      modifies this`inited
      ensures Valid() && inited == (old(inited) && nsocks > 0)
    {
      if nsocks > 0 { return; }
      inited := false;
    }

    /** The top of the stack is taken. */
    method Take(k: OkSock) returns (s: nat)
      requires Valid() && inited && nsocks < MAX_SOCKETS
      modifies this
      ensures Valid() && inited && nsocks == old(nsocks) + 1
      ensures s < MAX_SOCKETS && old(slots)[s] == None && slots == old(slots)[s := Some(k)]
    {
      ghost var free := Free();
      s := unused[MAX_SOCKETS - nsocks - 1];
      assert free[|free| - 1] == s;
      slots := slots[s := Some(k)];
      nsocks := nsocks + 1;
      assert Free() == free[..|free| - 1];
    }

    /** The descriptor goes back on the stack. */
    method Give(s: nat)
      requires Valid() && inited && s < MAX_SOCKETS && slots[s].Some?
      modifies this
      ensures Valid() && inited && nsocks == old(nsocks) - 1
      ensures slots == old(slots)[s := None]
    {
      ghost var free := Free();
      PlacesLists(slots, free, place);
      Room(free, MAX_SOCKETS, s);
      slots := slots[s := None];
      unused := unused[MAX_SOCKETS - nsocks := s];
      nsocks := nsocks - 1;
      place := place[s := |free|];
      assert Free() == free + [s];
    }

    /** A socket changes. */
    method Set(s: nat, k: OkSock)
      requires Valid() && inited && s < MAX_SOCKETS && slots[s].Some?
      modifies this`slots
      ensures Valid() && slots == old(slots)[s := Some(k)]
    {
      slots := slots[s := Some(k)];
    }
  }

  /** A running call has a hold on an open socket, and every hold is that of a running call. */
  ghost predicate CallsOk(calls: map<CallId, nat>, slots: seq<Option<OkSock>>, nextCall: CallId) {
    && (forall c | c in calls ::
          c < nextCall && calls[c] < |slots| && slots[calls[c]].Some? && c in slots[calls[c]].value.users)
    && (forall s, c | 0 <= s < |slots| && slots[s].Some? && c in slots[s].value.users :: c in calls && calls[c] == s)
  }

  lemma CallsSame(calls: map<CallId, nat>, slots: seq<Option<OkSock>>, nextCall: CallId, s: nat, k: OkSock)
    requires CallsOk(calls, slots, nextCall) && s < |slots|
    requires k.users == if slots[s].Some? then slots[s].value.users else {}
    ensures CallsOk(calls, slots[s := Some(k)], nextCall)
  {}

  lemma CallsEnter(calls: map<CallId, nat>, slots: seq<Option<OkSock>>, c: CallId, s: nat)
    requires CallsOk(calls, slots, c) && s < |slots| && slots[s].Some?
    ensures c !in calls && c !in slots[s].value.users
    ensures forall k: OkSock | k.users == slots[s].value.users + {c} :: CallsOk(calls[c := s], slots[s := Some(k)], c + 1)
  {
    assert c !in calls;
  }

  lemma CallsLeave(calls: map<CallId, nat>, slots: seq<Option<OkSock>>, nextCall: CallId, c: CallId, k: OkSock)
    requires CallsOk(calls, slots, nextCall) && c in calls && k.users == slots[calls[c]].value.users - {c}
    ensures CallsOk(calls - {c}, slots[calls[c] := Some(k)], nextCall)
  {}

  lemma CallsFree(calls: map<CallId, nat>, slots: seq<Option<OkSock>>, nextCall: CallId, s: nat)
    requires CallsOk(calls, slots, nextCall) && s < |slots| && slots[s].Some? && slots[s].value.users == {}
    ensures CallsOk(calls, slots[s := None], nextCall)
  {}

  datatype Error = EAFNOSUPPORT | EMFILE | EINVAL | ENOMEM | EBADF

  datatype Result = Ok(value: nat) | Err(error: Error)

  /** The descriptor is open and nobody has begun to close it. */
  predicate Usable(slots: seq<Option<OkSock>>, s: int) {
    0 <= s < |slots| && slots[s].Some? && slots[s].value.closer == NotClosing
  }

  /** What a descriptor stands for. */
  function At(slots: seq<Option<OkSock>>, s: nat): Option<OkSock> {
    if s < |slots| then slots[s] else None
  }

  /** An endpoint was added to a socket after its close had begun. */
  ghost predicate SomeLate(slots: seq<Option<OkSock>>) {
    exists s: nat :: At(slots, s).Some? && At(slots, s).value.late
  }

  /** The endpoints of the socket that a descriptor stands for. */
  function EndpointsAt(slots: seq<Option<OkSock>>, s: nat): nat {
    var k := At(slots, s);
    if k.Some? then Endpoints(k.value) else 0
  }

  ghost predicate SameEndpoints(slots: seq<Option<OkSock>>, after: seq<Option<OkSock>>) {
    forall s: nat :: EndpointsAt(after, s) == EndpointsAt(slots, s)
  }

  /** One socket changes, and neither its endpoints nor whether one of them is late. */
  lemma SameAt(slots: seq<Option<OkSock>>, after: seq<Option<OkSock>>, s: nat)
    requires forall t: nat | t != s :: At(after, t) == At(slots, t)
    requires At(after, s).Some? && EndpointsAt(after, s) == EndpointsAt(slots, s)
    requires At(after, s).value.late ==> At(slots, s).Some? && At(slots, s).value.late
    ensures SameEndpoints(slots, after)
    ensures SomeLate(after) ==> SomeLate(slots)
  {
    forall t: nat ensures EndpointsAt(after, t) == EndpointsAt(slots, t) {
      if t != s { assert At(after, t) == At(slots, t); }
    }
    if t: nat :| At(after, t).Some? && At(after, t).value.late {
      assert t != s ==> At(after, t) == At(slots, t);
    }
  }

  /** The thread that closes the socket has done all its waiting. */
  predicate Freeable(slots: seq<Option<OkSock>>, s: nat) {
    At(slots, s).Some? && At(slots, s).value.closer == Released
  }

  class Global {
    const table: Table
    /** The API calls that are running, and the descriptor of the socket each of them uses. */
    var calls: map<CallId, nat>
    var nextCall: CallId
    var aborted: bool

    ghost predicate Valid()
      reads this, table
    {
      && table.Valid()
      && (table.inited <==> table.nsocks > 0)
      && CallsOk(calls, Slots(), nextCall)
    }

    /** The table of sockets; without one, no descriptor is open. */
    function Slots(): seq<Option<OkSock>>
      reads this, table
    {
      if table.inited then table.slots else []
    }

    constructor ()
      ensures Valid() && !aborted && calls == map[] && Slots() == [] && fresh(table)
    {
      table := new Table();
      calls, nextCall, aborted := map[], 0, false;
    }

    /** nn_socket: the descriptor was free. `fault` is what goes wrong when the socket is made. */
    method Open(domainOk: bool, typeFound: bool, fault: Option<Error>, canStop: bool) returns (r: Result)
      requires Valid()
      modifies this, table
      ensures Valid() && calls == old(calls) && aborted == old(aborted)
      ensures r.Err? ==> Slots() == old(Slots())
      ensures r.Ok? ==>
                && At(old(Slots()), r.value) == None
                && At(Slots(), r.value) == Some(Sock(Active, 1, 0, 0, canStop, 0, 0, {}, NotClosing, false))
                && forall s: nat | s != r.value :: At(Slots(), s) == At(old(Slots()), s)
      ensures SameEndpoints(old(Slots()), Slots()) && (SomeLate(Slots()) ==> SomeLate(old(Slots())))
      ensures domainOk && old(table.nsocks) == MAX_SOCKETS ==> r == Err(EMFILE)
      ensures domainOk && typeFound && fault == None && old(table.nsocks) < MAX_SOCKETS ==> r.Ok?
    {
      table.Init();
      assert CallsOk(calls, table.slots, nextCall);
      if !domainOk { r := Err(EAFNOSUPPORT); }
      else if table.nsocks >= MAX_SOCKETS { r := Err(EMFILE); }
      else if !typeFound { r := Err(EINVAL); }
      else if fault.Some? { r := Err(fault.value); }
      else {
        var k := Sock(Active, 1, 0, 0, canStop, 0, 0, {}, NotClosing, false);
        ghost var slots := table.slots;
        var s := table.Take(k);
        CallsSame(calls, slots, nextCall, s, k);
        SameAt(old(Slots()), Slots(), s);
        r := Ok(s);
        return;
      }
      table.Term();
    }

    /** nn_global_hold_socket: a call starts. It gets a hold if and only if the descriptor is open and
        nobody has begun to close its socket. */
    method Enter(s: int) returns (r: Result)
      requires Valid()
      modifies this, table
      ensures Valid() && aborted == old(aborted)
      ensures r.Ok? <==> Usable(old(Slots()), s)
      ensures r.Err? ==> r.error == EBADF && Slots() == old(Slots()) && calls == old(calls)
      ensures SameEndpoints(old(Slots()), Slots()) && (SomeLate(Slots()) ==> SomeLate(old(Slots())))
      ensures r.Ok? ==>
                && r.value !in old(calls) && calls == old(calls)[r.value := s]
                && r.value !in old(Slots())[s].value.users
                && Slots() == old(Slots())[s := Hold(old(Slots())[s].value, r.value)]
    {
      if s < 0 || s >= MAX_SOCKETS || !table.inited { return Err(EBADF); }
      if table.slots[s] == None { return Err(EBADF); }
      CallsEnter(calls, table.slots, nextCall, s);
      var held := Hold(table.slots[s].value, nextCall);
      if held == None { return Err(EBADF); }
      table.Set(s, held.value);
      SameAt(old(Slots()), Slots(), s);
      calls := calls[nextCall := s];
      r := Ok(nextCall);
      nextCall := nextCall + 1;
    }

    /** nn_global_rele_socket: the call ends. */
    method Leave(c: CallId)
      requires Valid() && c in calls
      modifies this, table
      ensures Valid() && aborted == old(aborted) && calls == old(calls) - {c}
      ensures var s := old(calls[c]); Slots() == old(Slots())[s := Some(Drop(old(Slots())[s].value, c))]
      ensures SameEndpoints(old(Slots()), Slots()) && (SomeLate(Slots()) ==> SomeLate(old(Slots())))
    {
      var s := calls[c];
      var k := Drop(table.slots[s].value, c);
      CallsLeave(calls, table.slots, nextCall, c, k);
      table.Set(s, k);
      SameAt(old(Slots()), Slots(), s);
      calls := calls - {c};
    }

    /** A step of the socket itself, which leaves its calls alone. */
    method Change(s: nat, k: OkSock)
      requires Valid() && s < |Slots()| && Slots()[s].Some? && k.users == Slots()[s].value.users
      modifies this, table
      ensures Valid() && aborted == old(aborted) && calls == old(calls)
      ensures Slots() == old(Slots())[s := Some(k)]
    {
      CallsSame(calls, table.slots, nextCall, s, k);
      table.Set(s, k);
    }

    /** The first part of nn_close, which succeeds for one thread only. */
    method StartClose(s: int) returns (r: Result)
      requires Valid()
      modifies this, table
      ensures Valid() && aborted == old(aborted) && calls == old(calls)
      ensures r.Ok? <==> Usable(old(Slots()), s)
      ensures r.Ok? ==> !Usable(Slots(), s) && Slots() == old(Slots())[s := Some(Close(old(Slots())[s].value))]
      ensures SameEndpoints(old(Slots()), Slots()) && (SomeLate(Slots()) ==> SomeLate(old(Slots())))
      ensures r.Err? ==> r.error == EBADF && Slots() == old(Slots())
    {
      if s < 0 || s >= MAX_SOCKETS || !table.inited { return Err(EBADF); }
      if table.slots[s] == None || table.slots[s].value.state != Active { return Err(EBADF); }
      Change(s, Close(table.slots[s].value));
      SameAt(old(Slots()), Slots(), s);
      return Ok(s);
    }

    /** The last part of nn_close: the descriptor is free again. No call has a hold on the socket, which
        is proved and not asked for. It aborts if and only if there are endpoints left. */
    method EndClose(s: nat)
      requires Valid() && !aborted && s < |Slots()| && Slots()[s].Some? && Slots()[s].value.closer == Released
      modifies this, table
      ensures Valid() && calls == old(calls) && s !in calls.Values
      ensures aborted == (old(Slots())[s].value.eps > 0 || old(Slots())[s].value.sdeps > 0)
      ensures aborted ==> old(Slots())[s].value.late && Slots() == old(Slots())
      ensures !aborted ==> At(Slots(), s) == None && forall t: nat | t != s :: At(Slots(), t) == At(old(Slots()), t)
    {
      var k := table.slots[s].value;
      assert k.users == {};
      if k.eps > 0 || k.sdeps > 0 {
        aborted := true;
        return;
      }
      CallsFree(calls, table.slots, nextCall, s);
      table.Give(s);
      if table.nsocks == 0 {
        forall t | 0 <= t < MAX_SOCKETS ensures table.slots[t] == None {
          AllFree(table.slots, table.Free(), table.place, t);
        }
      }
      ghost var slots := table.slots;
      table.Term();
      assert forall t: nat :: At(Slots(), t) == At(slots, t);
    }
  }

  datatype Input =
    | Opens(domainOk: bool, typeFound: bool, fault: Option<Error>, canStop: bool)
    | Enters(s: int)
    | Leaves(c: CallId)
    | AddsEndpoint(c: CallId)
    | RemovesEndpoint(c: CallId)
    | EndpointStops(s: int)
    | ProtocolStops(s: int)
    | StartsClose(s: int)
    | PassesTerm(s: int)
    | PassesRelease(s: int)
    | EndsClose(s: int)

  /** The step adds an endpoint to a socket whose close has begun. */
  ghost predicate AddsLate(slots: seq<Option<OkSock>>, calls: map<CallId, nat>, input: Input) {
    && input.AddsEndpoint? && input.c in calls
    && var k := At(slots, calls[input.c]); k.Some? && k.value.closer != NotClosing
  }

  /** How many endpoints the step adds to the socket with descriptor `s`, and how many of it stop. */
  function Adds(calls: map<CallId, nat>, input: Input, s: nat): nat {
    if input.AddsEndpoint? && input.c in calls && calls[input.c] == s then 1 else 0
  }

  function Ends(slots: seq<Option<OkSock>>, input: Input, s: nat): nat {
    if input == EndpointStops(s) && At(slots, s).Some? && At(slots, s).value.sdeps > 0 then 1 else 0
  }

  /** No endpoint appears or disappears in a step. */
  ghost predicate Balanced(slots: seq<Option<OkSock>>, calls: map<CallId, nat>, input: Input,
                           after: seq<Option<OkSock>>)
  {
    forall s: nat :: EndpointsAt(after, s) + Ends(slots, input, s) == EndpointsAt(slots, s) + Adds(calls, input, s)
  }

  /** The step makes an assertion fail: an endpoint stops too late, or a socket is freed that has one. */
  ghost predicate Aborts(slots: seq<Option<OkSock>>, input: Input) {
    match input
    case EndpointStops(s) =>
      s >= 0 && (var k := At(slots, s); k.Some? && k.value.sdeps > 0 && TooLate(k.value))
    case EndsClose(s) =>
      s >= 0 && (var k := At(slots, s); k.Some? && k.value.closer == Released && (k.value.eps > 0 || k.value.sdeps > 0))
    case _ => false
  }

  /** A step of one socket, if it can take it; None if the library aborts. */
  function Next(k: OkSock, input: Input): (r: Option<OkSock>)
    ensures r.None? <==> input.EndpointStops? && k.sdeps > 0 && TooLate(k)
    ensures r.None? ==> k.late
    ensures r.Some? ==> r.value.users == k.users
    ensures r.Some? && r.value.late ==> k.late || (input.AddsEndpoint? && k.closer != NotClosing)
    ensures r.Some? ==>
              && r.value.canStop == k.canStop
              && Endpoints(r.value) + (if input.EndpointStops? && k.sdeps > 0 then 1 else 0)
                 == Endpoints(k) + (if input.AddsEndpoint? then 1 else 0)
  {
    match input
    case AddsEndpoint(_) => Some(AddEp(k))
    case RemovesEndpoint(_) => Some(if k.eps > 0 then RmEp(k) else k)
    case EndpointStops(_) => if k.sdeps > 0 then EpStopped(k) else Some(k)
    case ProtocolStops(_) => Some(if k.state == Stopping then ProtocolStopped(k) else k)
    case PassesTerm(_) => Some(if k.closer == AwaitsTerm && k.termsem > 0 then PassTerm(k) else k)
    case PassesRelease(_) => Some(if k.closer == AwaitsRelease && k.relesem > 0 then PassRelease(k) else k)
    case _ => Some(k)
  }

  /** The input that makes a socket take a step of its close. */
  function InputFor(step: CloseStep, s: int): Input
    requires !step.CallLeaves?
  {
    match step
    case EpStops => EndpointStops(s)
    case ProtStops => ProtocolStops(s)
    case TermPasses => PassesTerm(s)
    case ReleasePasses => PassesRelease(s)
  }

  /** Every step of a close is taken in a run, and one that is not enabled changes nothing. */
  lemma NextTakes(k: OkSock, step: CloseStep, s: int)
    requires !step.CallLeaves? && !(step.EpStops? && k.sdeps > 0 && TooLate(k))
    ensures Next(k, InputFor(step, s)) == Some(if Enabled(k, step) then Taken(k, step) else k)
  {}

  lemma LateSet(slots: seq<Option<OkSock>>, s: nat, k: OkSock)
    requires s < |slots| && slots[s].Some?
    ensures SomeLate(slots[s := Some(k)]) ==> SomeLate(slots) || k.late
    ensures slots[s].value.late ==> SomeLate(slots)
  {
    var after := slots[s := Some(k)];
    forall t: nat | t != s ensures At(slots, t) == At(after, t) {}
    assert At(slots, s) == slots[s];
  }

  /** It is enough to look at the one socket that the step changes. */
  lemma BalancedAt(slots: seq<Option<OkSock>>, calls: map<CallId, nat>, input: Input,
                   after: seq<Option<OkSock>>, s: nat)
    requires forall t: nat | t != s :: At(after, t) == At(slots, t)
    requires input.AddsEndpoint? && input.c in calls ==> calls[input.c] == s
    requires input.EndpointStops? ==> input.s == s
    requires EndpointsAt(after, s) + Ends(slots, input, s) == EndpointsAt(slots, s) + Adds(calls, input, s)
    ensures Balanced(slots, calls, input, after)
  {
    forall t: nat | t != s
      ensures EndpointsAt(after, t) + Ends(slots, input, t) == EndpointsAt(slots, t) + Adds(calls, input, t)
    {
      assert At(after, t) == At(slots, t);
    }
  }

  lemma BalancedSame(slots: seq<Option<OkSock>>, calls: map<CallId, nat>, input: Input, after: seq<Option<OkSock>>)
    requires SameEndpoints(slots, after) && !input.AddsEndpoint? && !input.EndpointStops?
    ensures Balanced(slots, calls, input, after)
  {}

  method Advance(g: Global, input: Input, s: nat)
    requires g.Valid() && !g.aborted && s < |g.Slots()| && g.Slots()[s].Some?
    requires input.AddsEndpoint? ==> input.c in g.calls && g.calls[input.c] == s
    requires input.EndpointStops? ==> input.s == s
    requires !input.EndsClose?
    modifies g, g.table
    ensures g.Valid() && g.calls == old(g.calls)
    ensures g.aborted <==> Aborts(old(g.Slots()), input)
    ensures !g.aborted ==> g.Slots() == old(g.Slots())[s := Next(old(g.Slots())[s].value, input)]
    ensures g.aborted ==> SomeLate(old(g.Slots()))
    ensures SomeLate(g.Slots()) ==> SomeLate(old(g.Slots())) || AddsLate(old(g.Slots()), g.calls, input)
    ensures !g.aborted ==> Balanced(old(g.Slots()), g.calls, input, g.Slots())
  {
    var k := g.table.slots[s].value;
    var after := Next(k, input);
    LateSet(g.table.slots, s, if after.Some? then after.value else k);
    if after == None {
      g.aborted := true;
    } else {
      g.Change(s, after.value);
      BalancedAt(old(g.Slots()), g.calls, input, g.Slots(), s);
    }
  }

  method AdvanceClose(g: Global, s: nat)
    requires g.Valid() && !g.aborted && s < |g.Slots()| && g.Slots()[s].Some?
    modifies g, g.table
    ensures g.Valid() && g.calls == old(g.calls)
    ensures g.aborted <==> Aborts(old(g.Slots()), EndsClose(s))
    ensures g.aborted ==> SomeLate(old(g.Slots()))
    ensures SomeLate(g.Slots()) ==> SomeLate(old(g.Slots()))
    ensures !g.aborted ==> Balanced(old(g.Slots()), g.calls, EndsClose(s), g.Slots()) && !Freeable(g.Slots(), s)
  {
    LateSet(g.table.slots, s, g.table.slots[s].value);
    if g.table.slots[s].value.closer == Released {
      g.EndClose(s);
      if !g.aborted { BalancedAt(old(g.Slots()), g.calls, EndsClose(s), g.Slots(), s); }
    }
  }

  /** A socket is opened or its close begins, or a call starts or ends. */
  method AdvanceCalls(g: Global, input: Input)
    requires g.Valid() && !g.aborted && (input.Opens? || input.Enters? || input.Leaves? || input.StartsClose?)
    modifies g, g.table
    ensures g.Valid() && !g.aborted
    ensures SameEndpoints(old(g.Slots()), g.Slots()) && (SomeLate(g.Slots()) ==> SomeLate(old(g.Slots())))
    ensures input.Leaves? ==> input.c !in g.calls
  {
    match input {
      case Opens(domainOk, typeFound, fault, canStop) => var _ := g.Open(domainOk, typeFound, fault, canStop);
      case Enters(s) => var _ := g.Enter(s);
      case Leaves(c) => if c in g.calls { g.Leave(c); }
      case StartsClose(s) => var _ := g.StartClose(s);
    }
  }

  /** The descriptor of the socket of which the input is a step, -1 if it is none of a single socket. */
  function Of(calls: map<CallId, nat>, input: Input): int {
    match input
    case AddsEndpoint(c) => if c in calls then calls[c] else -1
    case RemovesEndpoint(c) => if c in calls then calls[c] else -1
    case EndpointStops(s) => s
    case ProtocolStops(s) => s
    case PassesTerm(s) => s
    case PassesRelease(s) => s
    case _ => -1
  }

  /** One step of any thread. */
  method Perform(g: Global, input: Input)
    requires g.Valid() && !g.aborted
    modifies g, g.table
    ensures g.Valid()
    ensures g.aborted <==> Aborts(old(g.Slots()), input)
    ensures g.aborted ==> SomeLate(old(g.Slots()))
    ensures SomeLate(g.Slots()) ==> SomeLate(old(g.Slots())) || AddsLate(old(g.Slots()), old(g.calls), input)
    ensures !g.aborted ==> Balanced(old(g.Slots()), old(g.calls), input, g.Slots())
    ensures var s := Of(old(g.calls), input);
            !g.aborted && 0 <= s < |old(g.Slots())| && old(g.Slots())[s].Some? ==>
              g.Slots() == old(g.Slots())[s := Next(old(g.Slots())[s].value, input)]
    ensures input.Leaves? ==> input.c !in g.calls
    ensures !g.aborted && input.EndsClose? && input.s >= 0 ==> !Freeable(g.Slots(), input.s)
  {
    match input {
      case AddsEndpoint(c) => if c in g.calls { Advance(g, input, g.calls[c]); }
      case RemovesEndpoint(c) => if c in g.calls { Advance(g, input, g.calls[c]); }
      case EndsClose(s) => if 0 <= s < |g.Slots()| && g.Slots()[s].Some? { AdvanceClose(g, s); }
      case EndpointStops(s) => if 0 <= s < |g.Slots()| && g.Slots()[s].Some? { Advance(g, input, s); }
      case ProtocolStops(s) => if 0 <= s < |g.Slots()| && g.Slots()[s].Some? { Advance(g, input, s); }
      case PassesTerm(s) => if 0 <= s < |g.Slots()| && g.Slots()[s].Some? { Advance(g, input, s); }
      case PassesRelease(s) => if 0 <= s < |g.Slots()| && g.Slots()[s].Some? { Advance(g, input, s); }
      case _ =>
        AdvanceCalls(g, input);
        BalancedSame(old(g.Slots()), old(g.calls), input, g.Slots());
    }
  }

  /** What a run looked like before one of its steps. */
  datatype Snapshot = Snapshot(slots: seq<Option<OkSock>>, calls: map<CallId, nat>)

  /** One of the steps of a run made an assertion fail. */
  ghost predicate SomeAborts(trace: seq<Snapshot>, inputs: seq<Input>)
    requires |trace| <= |inputs|
  {
    exists n | 0 <= n < |trace| :: Aborts(trace[n].slots, inputs[n])
  }

  /** One of the steps of a run added an endpoint too late. */
  ghost predicate SomeAddsLate(trace: seq<Snapshot>, inputs: seq<Input>)
    requires |trace| <= |inputs|
  {
    exists n | 0 <= n < |trace| :: AddsLate(trace[n].slots, trace[n].calls, inputs[n])
  }

  lemma OneMore(trace: seq<Snapshot>, inputs: seq<Input>, last: Snapshot)
    requires |trace| < |inputs|
    ensures SomeAborts(trace + [last], inputs) <==> SomeAborts(trace, inputs) || Aborts(last.slots, inputs[|trace|])
    ensures SomeAddsLate(trace + [last], inputs) <==>
            SomeAddsLate(trace, inputs) || AddsLate(last.slots, last.calls, inputs[|trace|])
  {
    var n, all := |trace|, trace + [last];
    assert all[n] == last;
    if SomeAborts(trace, inputs) {
      var k :| 0 <= k < n && Aborts(trace[k].slots, inputs[k]);
      assert all[k] == trace[k];
    }
    if SomeAddsLate(trace, inputs) {
      var k :| 0 <= k < n && AddsLate(trace[k].slots, trace[k].calls, inputs[k]);
      assert all[k] == trace[k];
    }
  }

  /** The endpoints that were added to the socket with descriptor `s`, and those of it that have stopped,
      in the first `n` steps of a run. */
  ghost function AddedIn(trace: seq<Snapshot>, inputs: seq<Input>, s: nat, n: nat): nat
    requires n <= |trace| <= |inputs|
  {
    if n == 0 then 0 else AddedIn(trace, inputs, s, n - 1) + Adds(trace[n - 1].calls, inputs[n - 1], s)
  }

  ghost function EndedIn(trace: seq<Snapshot>, inputs: seq<Input>, s: nat, n: nat): nat
    requires n <= |trace| <= |inputs|
  {
    if n == 0 then 0 else EndedIn(trace, inputs, s, n - 1) + Ends(trace[n - 1].slots, inputs[n - 1], s)
  }

  lemma {:induction false} TraceKeeps(trace: seq<Snapshot>, inputs: seq<Input>, last: Snapshot, s: nat, n: nat)
    requires n <= |trace| < |inputs|
    ensures AddedIn(trace + [last], inputs, s, n) == AddedIn(trace, inputs, s, n)
    ensures EndedIn(trace + [last], inputs, s, n) == EndedIn(trace, inputs, s, n)
  {
    if n > 0 { TraceKeeps(trace, inputs, last, s, n - 1); }
  }

  /** Every endpoint that was added and has not stopped belongs to the socket it was added to. */
  ghost predicate Accounted(trace: seq<Snapshot>, inputs: seq<Input>, slots: seq<Option<OkSock>>)
    requires |trace| <= |inputs|
  {
    forall s: nat ::
      AddedIn(trace, inputs, s, |trace|) == EndedIn(trace, inputs, s, |trace|) + EndpointsAt(slots, s)
  }

  lemma AccountedStep(trace: seq<Snapshot>, inputs: seq<Input>, last: Snapshot, after: seq<Option<OkSock>>)
    requires |trace| < |inputs| && Accounted(trace, inputs, last.slots)
    requires Balanced(last.slots, last.calls, inputs[|trace|], after)
    ensures Accounted(trace + [last], inputs, after)
  {
    var n, all := |trace|, trace + [last];
    forall s: nat ensures AddedIn(all, inputs, s, n + 1) == EndedIn(all, inputs, s, n + 1) + EndpointsAt(after, s) {
      TraceKeeps(trace, inputs, last, s, n);
      assert all[n] == last;
      assert EndpointsAt(after, s) + Ends(last.slots, inputs[n], s) ==
             EndpointsAt(last.slots, s) + Adds(last.calls, inputs[n], s);
    }
  }

  /** What a run without an abort has come to. */
  ghost predicate Explained(trace: seq<Snapshot>, inputs: seq<Input>, slots: seq<Option<OkSock>>)
    requires |trace| <= |inputs|
  {
    && !SomeAborts(trace, inputs)
    && (SomeLate(slots) ==> SomeAddsLate(trace, inputs))
    && Accounted(trace, inputs, slots)
  }

  lemma ExplainedStep(trace: seq<Snapshot>, inputs: seq<Input>, last: Snapshot, after: seq<Option<OkSock>>)
    requires |trace| < |inputs| && Explained(trace, inputs, last.slots)
    requires !Aborts(last.slots, inputs[|trace|]) && Balanced(last.slots, last.calls, inputs[|trace|], after)
    requires SomeLate(after) ==> SomeLate(last.slots) || AddsLate(last.slots, last.calls, inputs[|trace|])
    ensures Explained(trace + [last], inputs, after)
  {
    OneMore(trace, inputs, last);
    AccountedStep(trace, inputs, last, after);
  }

  /** Any interleaving of opens, calls and closes: the stack and the table agree, and every running call has
      a hold on a socket that is there. The library aborts if and only if a step meets an endpoint that
      was added to its socket too late, and then one was added after the close of its socket began. Otherwise
      no endpoint is lost: a socket is freed only after each of its endpoints has stopped. */
  method Run(inputs: seq<Input>) returns (g: Global, ghost trace: seq<Snapshot>)
    ensures g.Valid() && |trace| <= |inputs| && (!g.aborted ==> |trace| == |inputs|)
    ensures g.table.inited ==> Lists(g.table.slots, g.table.Free())
    ensures forall c | c in g.calls :: At(g.Slots(), g.calls[c]).Some? && c in At(g.Slots(), g.calls[c]).value.users
    ensures g.aborted <==> SomeAborts(trace, inputs)
    ensures g.aborted ==> SomeAddsLate(trace, inputs)
    ensures !g.aborted ==> Accounted(trace, inputs, g.Slots())
  {
    g := new Global();
    trace := [];
    for n := 0 to |inputs|
      invariant fresh(g) && fresh(g.table)
      invariant g.Valid() && !g.aborted && |trace| == n && Explained(trace, inputs, g.Slots())
    {
      ghost var before, sofar := Snapshot(g.Slots(), g.calls), trace;
      trace := sofar + [before];
      Perform(g, inputs[n]);
      if g.aborted {
        OneMore(sofar, inputs, before);
        break;
      }
      ExplainedStep(sofar, inputs, before, g.Slots());
    }
    if g.table.inited { PlacesLists(g.table.slots, g.table.Free(), g.table.place); }
  }

  /** A socket with one endpoint is closed while a call still uses it. */
  method CloseDuringCall() returns (g: Global, s: nat, c: CallId)
    ensures g.Valid() && !g.aborted && fresh(g) && fresh(g.table)
    ensures c in g.calls && g.calls[c] == s && s < |g.Slots()|
    ensures g.Slots()[s] == Some(Sock(StoppingEps, 1, 0, 1, false, 0, 0, {c}, AwaitsTerm, false))
  {
    g := new Global();
    var fd := g.Open(true, true, None, false);
    s := fd.value;
    var entered := g.Enter(s);
    c := entered.value;
    assert g.Slots()[s] == Some(Sock(Active, 2, 0, 0, false, 0, 0, {c}, NotClosing, false));
    Advance(g, AddsEndpoint(c), s);
    assert g.Slots()[s] == Some(Sock(Active, 2, 1, 0, false, 0, 0, {c}, NotClosing, false));
    var closed := g.StartClose(s);
  }

  /** The call adds another endpoint, and the first one stops. */
  method LateEndpointAborts() returns (g: Global)
    ensures g.aborted
  {
    var s, c;
    g, s, c := CloseDuringCall();
    Advance(g, AddsEndpoint(c), s);
    assert g.Slots()[s] == Some(Sock(StoppingEps, 1, 1, 1, false, 0, 0, {c}, AwaitsTerm, true));
    Advance(g, EndpointStops(s), s);
  }
}
