/** The prioritised list of pipes behind load balancing and fair queueing: sixteen circular lists,
    each with a cursor, proved to be sixteen round-robin rings of which the best one is served. */
module PrioList {
  import opened Common

  type Pipe = nat

  const SLOTS := 16

  /** nn_priolist_slot: the list of active pipes and the cursor. */
  datatype Slot = Slot(pipes: seq<Pipe>, current: Option<Pipe>)

  predicate IsFirst(s: seq<Pipe>, p: Pipe, i: int) {
    0 <= i < |s| && s[i] == p && forall j | 0 <= j < i :: s[j] != p
  }

  lemma {:induction false} HasFirst(s: seq<Pipe>, p: Pipe, n: nat)
    requires n <= |s| && p in s[..n]
    ensures exists i :: IsFirst(s, p, i)
  {
    if p in s[..n - 1] {
      HasFirst(s, p, n - 1);
    } else {
      assert s[..n] == s[..n - 1] + [s[n - 1]];
      forall j | 0 <= j < n - 1 ensures s[j] != p { assert s[..n - 1][j] == s[j]; }
      assert IsFirst(s, p, n - 1);
    }
  }

  /** The first position of `p`. */
  function IndexOf(s: seq<Pipe>, p: Pipe): (i: nat)
    requires p in s
    ensures IsFirst(s, p, i)
  {
    assert s[..|s|] == s;
    HasFirst(s, p, |s|);
    var i :| 0 <= i < |s| && IsFirst(s, p, i);
    i
  }

  /** No pipe occurs twice. */
  ghost predicate Once(s: seq<Pipe>) {
    forall i {:trigger IndexOf(s, s[i])} | 0 <= i < |s| :: IndexOf(s, s[i]) == i
  }

  lemma OnceDistinct(s: seq<Pipe>)
    ensures Once(s) <==> Distinct(s)
  {
    if Once(s) {
      forall i, j | 0 <= i < j < |s| ensures s[i] != s[j] { assert IndexOf(s, s[i]) != IndexOf(s, s[j]); }
    }
  }

  lemma IndexOfAt(s: seq<Pipe>, i: nat)
    requires Once(s) && i < |s|
    ensures IndexOf(s, s[i]) == i
  {}

  /** `s` read from position `c` on, wrapping around. */
  function Turned(s: seq<Pipe>, c: nat): (r: seq<Pipe>)
    requires c <= |s|
    ensures |r| == |s|
  {
    s[c..] + s[..c]
  }

  /** `s` without the element at position `i`. */
  function Without(s: seq<Pipe>, i: nat): (r: seq<Pipe>)
    requires i < |s|
    ensures |r| == |s| - 1
  {
    s[..i] + s[i + 1..]
  }

  lemma TurnedNext(s: seq<Pipe>, c: nat)
    requires c < |s|
    ensures Turned(s, if c + 1 < |s| then c + 1 else 0) == Turned(s, c)[1..] + [Turned(s, c)[0]]
  {}

  lemma TurnedWithout(s: seq<Pipe>, c: nat, i: nat)
    requires c < |s| && i < |s|
    ensures i < c ==> Turned(Without(s, i), c - 1) == Without(Turned(s, c), |s| - c + i)
    ensures i >= c ==> Turned(Without(s, i), if c < |s| - 1 then c else 0) == Without(Turned(s, c), i - c)
  {
    var t, rest := Turned(s, c), Without(s, i);
    if i < c {
      var a, b, z := s[..i], s[i + 1..c], s[c..];
      assert rest[c - 1..] == z && rest[..c - 1] == a + b;
      assert t[..|z| + i] == z + a && t[|z| + i + 1..] == b;
      assert z + (a + b) == z + a + b;
    } else {
      var a, b, z := s[..c], s[c..i], s[i + 1..];
      assert t[..i - c] == b && t[i - c + 1..] == z + a;
      if c < |s| - 1 {
        assert rest[c..] == b + z && rest[..c] == a;
        assert b + z + a == b + (z + a);
      }
    }
  }

  /** The cursor is a member of the list, NULL only if the list is empty. */
  ghost predicate SlotOk(s: Slot) {
    && Once(s.pipes)
    && (s.current.None? <==> s.pipes == [])
    && (s.current.Some? ==> s.current.value in s.pipes)
  }

  /** A slot as it is served: `order` starts at the cursor, and the list ends after `seam` pipes. */
  datatype Ring = Ring(order: seq<Pipe>, seam: nat)

  function RingOf(s: Slot): Ring
    requires SlotOk(s)
  {
    if s.pipes == [] then Ring([], 0) else
    var c := IndexOf(s.pipes, s.current.value);
    Ring(Turned(s.pipes, c), |s.pipes| - c)
  }

  ghost predicate RingOk(r: Ring) {
    && Once(r.order)
    && r.seam <= |r.order|
    && (r.order != [] ==> r.seam > 0)
  }

  /** A new pipe queues up where the list ends. */
  function Push(r: Ring, p: Pipe): Ring
    requires r.seam <= |r.order|
  {
    Ring(r.order[..r.seam] + [p] + r.order[r.seam..], r.seam + 1)
  }

  /** The pipe at the cursor is served and stays. */
  function Rotate(r: Ring): Ring
    requires r.order != []
  {
    Ring(r.order[1..] + [r.order[0]], if r.seam <= 1 then |r.order| else r.seam - 1)
  }

  /** The pipe at position `i` leaves. */
  function Leave(r: Ring, i: nat): Ring
    requires i < |r.order|
  {
    var rest := Without(r.order, i);
    Ring(rest, if i >= r.seam then r.seam else if r.seam <= 1 then |rest| else r.seam - 1)
  }

  /** The smallest non-empty priority, or -1. */
  ghost predicate IsBest(slots: seq<Slot>, current: int) {
    && |slots| == SLOTS
    && if current == -1 then forall i | 0 <= i < SLOTS :: slots[i].pipes == []
       else
         && 1 <= current <= SLOTS
         && slots[current - 1].pipes != []
         && forall i | 0 <= i < current - 1 :: slots[i].pipes == []
  }

  /** nn_list_erase on a slot's list, with the step of the cursor when the pipe at the cursor goes. */
  function Erase(s: Slot, p: Pipe): (r: Slot)
    requires SlotOk(s) && p in s.pipes
  {
    var i := IndexOf(s.pipes, p);
    var pipes := Without(s.pipes, i);
    if s.current != Some(p) then Slot(pipes, s.current)
    else if i < |pipes| then Slot(pipes, Some(pipes[i]))
    else if pipes != [] then Slot(pipes, Some(pipes[0]))
    else Slot(pipes, None)
  }

  /** nn_list_insert at the end of a slot's list. */
  function Append(s: Slot, p: Pipe): Slot {
    Slot(s.pipes + [p], if s.pipes == [] then Some(p) else s.current)
  }

  /** The cursor moves to the next pipe, wrapping around. */
  function Step(s: Slot): Slot
    requires SlotOk(s) && s.pipes != []
  {
    var c := IndexOf(s.pipes, s.current.value);
    s.(current := Some(if c + 1 < |s.pipes| then s.pipes[c + 1] else s.pipes[0]))
  }

  /** The ring, from the position of the cursor. */
  lemma RingAt(s: Slot, c: nat)
    requires SlotOk(s) && c < |s.pipes| && s.pipes[c] == s.current.value
    ensures RingOf(s) == Ring(Turned(s.pipes, c), |s.pipes| - c)
  {
    IndexOfAt(s.pipes, c);
  }

  lemma RingOfOk(s: Slot)
    requires SlotOk(s)
    ensures RingOk(RingOf(s)) && |RingOf(s).order| == |s.pipes|
    ensures s.pipes != [] ==> RingOf(s).order[0] == s.current.value
  {
    OnceDistinct(s.pipes);
    OnceDistinct(RingOf(s).order);
  }

  lemma AppendOk(s: Slot, p: Pipe)
    requires SlotOk(s) && p !in s.pipes
    ensures SlotOk(Append(s, p))
  {
    OnceDistinct(s.pipes);
    OnceDistinct(s.pipes + [p]);
  }

  lemma TurnedAppend(s: seq<Pipe>, c: nat, p: Pipe)
    requires c <= |s|
    ensures Turned(s + [p], c) == Turned(s, c)[..|s| - c] + [p] + Turned(s, c)[|s| - c..]
  {}

  /** Appending to the list is queueing up in the ring. */
  lemma AppendRing(s: Slot, p: Pipe)
    requires SlotOk(s) && p !in s.pipes
    ensures SlotOk(Append(s, p))
    ensures RingOf(s).seam <= |RingOf(s).order| && RingOf(Append(s, p)) == Push(RingOf(s), p)
  {
    AppendOk(s, p);
    if s.pipes == [] {
      RingAt(Append(s, p), 0);
    } else {
      var c := IndexOf(s.pipes, s.current.value);
      RingAt(Append(s, p), c);
      TurnedAppend(s.pipes, c, p);
    }
  }

  /** Moving the cursor on is rotating the ring. */
  lemma StepRing(s: Slot)
    requires SlotOk(s) && s.pipes != []
    ensures SlotOk(Step(s)) && RingOf(s).order != [] && RingOf(Step(s)) == Rotate(RingOf(s))
  {
    var c := IndexOf(s.pipes, s.current.value);
    IndexOfAt(s.pipes, if c + 1 < |s.pipes| then c + 1 else 0);
    TurnedNext(s.pipes, c);
  }

  /** The position in the ring of a pipe of the slot. */
  function Wait(r: Ring, p: Pipe): nat
    requires p in r.order
  {
    IndexOf(r.order, p)
  }

  /** The position in the ring of the i-th pipe of a list of n, if the cursor is at c. */
  function Around(i: nat, c: nat, n: nat): (w: nat)
    requires i < n && c < n
    ensures w < n
  {
    if i >= c then i - c else n - c + i
  }

  /** Where the cursor is when the i-th pipe is gone. */
  function Cursor(i: nat, c: nat, n: nat): (d: nat)
    requires i < n && c < n
    ensures n > 1 ==> d < n - 1
  {
    if i < c then c - 1 else if c < n - 1 then c else 0
  }

  /** Erasing from the list is leaving the ring. */
  lemma EraseRing(s: Slot, p: Pipe)
    requires SlotOk(s) && p in s.pipes
    ensures SlotOk(Erase(s, p))
    ensures p in RingOf(s).order && RingOf(Erase(s, p)) == Leave(RingOf(s), Wait(RingOf(s), p))
  {
    EraseOk(s, p);
    WaitOf(s, p);
    EraseTurned(s, p, Wait(RingOf(s), p));
  }

  lemma EraseTurned(s: Slot, p: Pipe, w: nat)
    requires SlotOk(s) && p in s.pipes && SlotOk(Erase(s, p))
    requires w == Around(IndexOf(s.pipes, p), IndexOf(s.pipes, s.current.value), |s.pipes|)
    ensures w < |RingOf(s).order| && RingOf(Erase(s, p)) == Leave(RingOf(s), w)
  {
    if |s.pipes| > 1 {
      EraseMany(s, p, Erase(s, p), w);
    } else {
      LastLeaves(s.pipes);
      assert Erase(s, p).pipes == [];
    }
  }

  lemma EraseMany(s: Slot, p: Pipe, e: Slot, w: nat)
    requires SlotOk(s) && p in s.pipes && |s.pipes| > 1 && e == Erase(s, p) && SlotOk(e)
    requires w == Around(IndexOf(s.pipes, p), IndexOf(s.pipes, s.current.value), |s.pipes|)
    ensures w < |RingOf(s).order| && RingOf(e) == Leave(RingOf(s), w)
  {
    var i, c := IndexOf(s.pipes, p), IndexOf(s.pipes, s.current.value);
    var d := Cursor(i, c, |s.pipes|);
    EraseCursor(s, p, i, c, d);
    CutRing(e, RingOf(s), s.pipes, i, c, d, w);
  }

  lemma LastLeaves(s: seq<Pipe>)
    requires |s| == 1
    ensures Leave(Ring(Turned(s, 0), 1), 0) == Ring([], 0) && Without(s, 0) == []
  {
    assert Turned(s, 0) == s;
  }

  /** The ring of a list without its i-th pipe, from the new position of the cursor. */
  lemma CutRing(e: Slot, r: Ring, s: seq<Pipe>, i: nat, c: nat, d: nat, w: nat)
    requires c < |s| && i < |s| && |s| > 1 && d == Cursor(i, c, |s|) && w == Around(i, c, |s|)
    requires SlotOk(e) && e.pipes == Without(s, i) && e.current == Some(e.pipes[d])
    requires r == Ring(Turned(s, c), |s| - c)
    ensures RingOf(e) == Leave(r, w)
  {
    RingAt(e, d);
    TurnedWithout(s, c, i);
  }

  lemma WaitOf(s: Slot, p: Pipe)
    requires SlotOk(s) && p in s.pipes
    ensures var i, c := IndexOf(s.pipes, p), IndexOf(s.pipes, s.current.value);
            p in RingOf(s).order && Wait(RingOf(s), p) == Around(i, c, |s.pipes|)
  {
    var i, c := IndexOf(s.pipes, p), IndexOf(s.pipes, s.current.value);
    var w := Around(i, c, |s.pipes|);
    RingOfOk(s);
    assert RingOf(s).order[w] == p;
    IndexOfAt(RingOf(s).order, w);
  }

  /** Where the cursor stands after an erase. */
  lemma EraseCursor(s: Slot, p: Pipe, i: nat, c: nat, d: nat)
    requires SlotOk(s) && p in s.pipes && |s.pipes| > 1
    requires i == IndexOf(s.pipes, p) && c == IndexOf(s.pipes, s.current.value)
    requires d == Cursor(i, c, |s.pipes|)
    ensures Erase(s, p).pipes == Without(s.pipes, i)
    ensures Erase(s, p).current == Some(Without(s.pipes, i)[d])
  {
    if i != c { assert s.current != Some(p); }
  }

  lemma EraseOk(s: Slot, p: Pipe)
    requires SlotOk(s) && p in s.pipes
    ensures SlotOk(Erase(s, p))
  {
    EraseMembers(s, p);
    WithoutOnce(s.pipes, IndexOf(s.pipes, p));
  }

  lemma WithoutOnce(s: seq<Pipe>, i: nat)
    requires Once(s) && i < |s|
    ensures Once(Without(s, i))
  {
    OnceDistinct(s);
    OnceDistinct(Without(s, i));
  }

  lemma EraseMembers(s: Slot, p: Pipe)
    requires SlotOk(s) && p in s.pipes
    ensures forall x :: x in Erase(s, p).pipes <==> x in s.pipes && x != p
  {
    var i := IndexOf(s.pipes, p);
    var t := Erase(s, p);
    forall x | x in s.pipes && x != p ensures x in t.pipes {
      var j :| 0 <= j < |s.pipes| && s.pipes[j] == x;
      assert t.pipes[if j < i then j else j - 1] == x;
    }
  }

  /** What happens to the ring of one priority while it is the best one. */
  datatype Event =
    | Joins(p: Pipe)       // another pipe is activated
    | Served(stays: bool)  // the pipe at the cursor is used, and released or not
    | Removed(p: Pipe)     // a pipe is removed

  ghost predicate Possible(r: Ring, e: Event) {
    match e
    case Joins(p) => p !in r.order
    case Served(_) => r.order != []
    case Removed(p) => p in r.order
  }

  ghost function Next(r: Ring, e: Event): Ring
    requires RingOk(r) && Possible(r, e)
  {
    match e
    case Joins(p) => Push(r, p)
    case Served(stays) => if stays then Rotate(r) else Leave(r, 0)
    case Removed(p) => Leave(r, Wait(r, p))
  }

  lemma NextOk(r: Ring, e: Event)
    requires RingOk(r) && Possible(r, e)
    ensures RingOk(Next(r, e))
  {
    match e {
      case Joins(p) => PushOk(r, p);
      case Served(stays) => if stays { RotateOk(r); } else { WithoutOnce(r.order, 0); }
      case Removed(p) => WithoutOnce(r.order, Wait(r, p));
    }
  }

  lemma PushOk(r: Ring, p: Pipe)
    requires RingOk(r) && p !in r.order
    ensures RingOk(Push(r, p))
  {
    OnceDistinct(r.order);
    OnceDistinct(Push(r, p).order);
  }

  lemma RotateOk(r: Ring)
    requires RingOk(r) && r.order != []
    ensures RingOk(Rotate(r))
  {
    OnceDistinct(r.order);
    OnceDistinct(Rotate(r).order);
  }

  /** The pipe `q` is neither served nor removed by `e`. */
  ghost predicate Waits(r: Ring, e: Event, q: Pipe) {
    && q in r.order
    && match e
       case Joins(_) => true
       case Served(_) => r.order != [] && r.order[0] != q
       case Removed(p) => p != q
  }

  /** The wait falls by one each time a pipe is served, and rises by at most one each time a pipe
      joins. */
  lemma WaitStep(r: Ring, e: Event, q: Pipe)
    requires RingOk(r) && Possible(r, e) && Waits(r, e, q)
    ensures q in Next(r, e).order
    ensures match e
            case Joins(_) => Wait(r, q) <= Wait(Next(r, e), q) <= Wait(r, q) + 1
            case Served(_) => Wait(Next(r, e), q) == Wait(r, q) - 1
            case Removed(_) => Wait(r, q) - 1 <= Wait(Next(r, e), q) <= Wait(r, q)
  {
    var w := Wait(r, q);
    NextOk(r, e);
    var t := Next(r, e);
    var v := match e {
      case Joins(p) => if w < r.seam then w else w + 1
      case Served(stays) => w - 1
      case Removed(p) => if w < Wait(r, p) then w else w - 1
    };
    assert t.order[v] == q;
    IndexOfAt(t.order, v);
  }

  ghost predicate PassesOver(r: Ring, es: seq<Event>, q: Pipe)
    decreases |es|
  {
    && RingOk(r)
    && (es != [] ==> Possible(r, es[0]) && Waits(r, es[0], q) && PassesOver(Next(r, es[0]), es[1..], q))
  }

  function Count(es: seq<Event>, served: bool): nat {
    if es == [] then 0
    else (if (if served then es[0].Served? else es[0].Joins?) then 1 else 0) + Count(es[1..], served)
  }

  /** No pipe starves: in any run in which an active pipe is passed over, the number of times others
      are served is at most its wait at the start plus the number of pipes that joined. */
  lemma {:induction false} BoundedWait(r: Ring, es: seq<Event>, q: Pipe)
    requires q in r.order && PassesOver(r, es, q)
    ensures Count(es, true) <= Wait(r, q) + Count(es, false)
    decreases |es|
  {
    if es != [] {
      WaitStep(r, es[0], q);
      BoundedWait(Next(r, es[0]), es[1..], q);
    }
  }

  /** The ring after `k` pipes were served and stayed. */
  function RotateN(r: Ring, k: nat): Ring
    requires r.order != []
  {
    if k == 0 then r else Rotate(RotateN(r, k - 1))
  }

  lemma {:induction false} RotateNOrder(r: Ring, k: nat)
    requires r.order != [] && k <= |r.order|
    ensures RotateN(r, k).order == Turned(r.order, k)
  {
    if k > 0 {
      RotateNOrder(r, k - 1);
      TurnedNext(r.order, k - 1);
      if k == |r.order| { assert Turned(r.order, k) == Turned(r.order, 0); }
    }
  }

  /** Undisturbed, a ring of n pipes serves each of them exactly once in n turns. */
  lemma RoundRobin(r: Ring, k: nat)
    requires RingOk(r) && k < |r.order|
    ensures RotateN(r, k).order[0] == r.order[k]
    ensures RotateN(r, |r.order|).order == r.order
  {
    RotateNOrder(r, k);
    RotateNOrder(r, |r.order|);
  }

  /** Every active pipe is in the slot of its own priority. */
  ghost predicate Placed(slots: seq<Slot>, priority: map<Pipe, int>) {
    && |slots| == SLOTS
    && (forall p | p in priority :: 1 <= priority[p] <= SLOTS)
    && (forall i, p | 0 <= i < SLOTS && p in slots[i].pipes :: p in priority && priority[p] == i + 1)
  }

  ghost predicate SlotsOk(slots: seq<Slot>) {
    forall i | 0 <= i < |slots| :: SlotOk(slots[i])
  }

  lemma ReplaceSlot(slots: seq<Slot>, priority: map<Pipe, int>, i: nat, t: Slot, p: Pipe)
    requires SlotsOk(slots) && Placed(slots, priority) && i < SLOTS && SlotOk(t)
    requires forall x | x in t.pipes && x != p :: x in slots[i].pipes
    requires p in t.pipes ==> p in priority && priority[p] == i + 1
    ensures SlotsOk(slots[i := t]) && Placed(slots[i := t], priority)
    ensures p !in t.pipes && (p in priority ==> priority[p] == i + 1) ==> Placed(slots[i := t], priority - {p})
  {}

  /** A slot after a pipe was removed that may be in its list. */
  function AfterRemove(s: Slot, p: Pipe): Slot
    requires SlotOk(s)
  {
    if p in s.pipes then Erase(s, p) else s
  }

  lemma RemoveSlots(slots: seq<Slot>, priority: map<Pipe, int>, i: nat, p: Pipe)
    requires SlotsOk(slots) && Placed(slots, priority) && i < SLOTS && p in priority && priority[p] == i + 1
    ensures var after := slots[i := AfterRemove(slots[i], p)];
            SlotsOk(after) && Placed(after, priority - {p})
  {
    var s := slots[i];
    if p in s.pipes {
      EraseOk(s, p);
      EraseMembers(s, p);
    }
    ReplaceSlot(slots, priority, i, AfterRemove(s, p), p);
  }

  /** A slot after the pipe at its cursor was served, and released or not. */
  function AfterServe(s: Slot, release: bool): Slot
    requires SlotOk(s) && s.pipes != []
  {
    if release then Erase(s, s.current.value) else Step(s)
  }

  lemma AfterServeOk(s: Slot, release: bool)
    requires SlotOk(s) && s.pipes != []
    ensures SlotOk(AfterServe(s, release)) && forall p | p in AfterServe(s, release).pipes :: p in s.pipes
  {
    if release {
      EraseOk(s, s.current.value);
      EraseMembers(s, s.current.value);
    }
  }

  /** On the ring the first pipe is served, and goes to the end or leaves. */
  lemma ServeRing(s: Slot, release: bool)
    requires SlotOk(s) && s.pipes != []
    ensures RingOf(s).order != [] && RingOf(s).order[0] == s.current.value
    ensures SlotOk(AfterServe(s, release))
    ensures RingOf(AfterServe(s, release)) == if release then Leave(RingOf(s), 0) else Rotate(RingOf(s))
  {
    RingOfOk(s);
    if release {
      EraseRing(s, s.current.value);
      assert Wait(RingOf(s), s.current.value) == 0;
    } else {
      StepRing(s);
    }
  }

  class PrioList {
    var slots: seq<Slot>
    var current: int
    /** The priority each added pipe was given; an added pipe is active if it is in a slot's list. */
    var priority: map<Pipe, int>

    predicate Active(p: Pipe)
      reads this
    {
      p in priority && 1 <= priority[p] <= |slots| && p in slots[priority[p] - 1].pipes
    }

    ghost predicate Valid()
      reads this
    {
      SlotsOk(slots) && Placed(slots, priority) && IsBest(slots, current)
    }

    /** nn_priolist_init. */
    constructor ()
      ensures Valid() && priority == map[] && current == -1
    {
      slots := seq(SLOTS, _ => Slot([], None));
      current := -1;
      priority := map[];
    }

    /** nn_priolist_add. */
    method Add(p: Pipe, prio: int)
      requires Valid() && p !in priority && 1 <= prio <= SLOTS
      modifies this`priority
      ensures Valid() && !Active(p)
      ensures priority == old(priority)[p := prio]
    {
      priority := priority[p := prio];
    }

    /** The loop that moves on to lower priorities while the current slot is empty. */
    method SkipEmpty()
      requires |slots| == SLOTS && 1 <= current <= SLOTS
      requires forall i | 0 <= i < current - 1 :: slots[i].pipes == []
      modifies this`current
      ensures IsBest(slots, current)
    {
      while slots[current - 1].pipes == []
        invariant 1 <= current <= SLOTS
        invariant forall i | 0 <= i < current - 1 :: slots[i].pipes == []
        decreases SLOTS - current
      {
        current := current + 1;
        if current > SLOTS {
          current := -1;
          return;
        }
      }
    }

    /** nn_priolist_rm. */
    method Rm(p: Pipe)
      requires Valid() && p in priority
      modifies this
      ensures Valid() && priority == old(priority) - {p}
      ensures var i := old(priority[p]) - 1; slots == old(slots)[i := AfterRemove(old(slots[i]), p)]
    {
      var i := priority[p] - 1;
      var slot := slots[i];
      RemoveSlots(slots, priority, i, p);
      if p in slot.pipes { slots := slots[i := Erase(slot, p)]; }
      priority := priority - {p};
      assert SlotsOk(slots) && Placed(slots, priority);
      if slot.current != Some(p) || current != i + 1 { return; }
      SkipEmpty();
    }

    /** nn_priolist_activate. */
    method Activate(p: Pipe)
      requires Valid() && p in priority && !Active(p)
      modifies this`slots, this`current
      ensures Valid() && Active(p)
      ensures var i := priority[p] - 1; slots == old(slots)[i := Append(old(slots[i]), p)]
    {
      var i := priority[p] - 1;
      var slot := slots[i];
      AppendOk(slot, p);
      ReplaceSlot(slots, priority, i, Append(slot, p), p);
      if slot.pipes != [] {
        slots := slots[i := slot.(pipes := slot.pipes + [p])];
        return;
      }
      assert Append(slot, p) == Slot([p], Some(p));
      slots := slots[i := Slot([p], Some(p))];
      if current == -1 || current > priority[p] { current := priority[p]; }
    }

    /** nn_priolist_getpipe: the pipe at the cursor of the best priority that has one. */
    method GetPipe() returns (r: Option<Pipe>)
      requires Valid()
      ensures r.None? <==> forall p | p in priority :: !Active(p)
      ensures r.Some? ==>
                && 1 <= current <= SLOTS && r == slots[current - 1].current
                && Active(r.value) && forall p | Active(p) :: priority[r.value] <= priority[p]
    {
      if current == -1 { return None; }
      r := slots[current - 1].current;
      assert Active(r.value);
    }

    /** nn_priolist_advance. */
    method Advance(release: bool)
      requires Valid() && current > 0
      modifies this`slots, this`current
      ensures Valid()
      ensures var i := old(current) - 1;
              old(slots[i]).pipes != [] && slots == old(slots)[i := AfterServe(old(slots[i]), release)]
    {
      var i := current - 1;
      var slot := slots[i];
      AfterServeOk(slot, release);
      ReplaceSlot(slots, priority, i, AfterServe(slot, release), slot.current.value);
      if release {
        slots := slots[i := Erase(slot, slot.current.value)];
      } else {
        slots := slots[i := Step(slot)];
      }
      assert SlotsOk(slots) && Placed(slots, priority);
      SkipEmpty();
    }

    /** nn_lb_send and nn_fq_recv around the transfer itself: none iff no pipe is active, otherwise the
        pipe at the cursor of the best slot. */
    method Serve(release: bool) returns (r: Option<Pipe>)
      requires Valid()
      modifies this`slots, this`current
      ensures Valid()
      ensures r.None? <==> forall p | p in priority :: !old(Active(p))
      ensures r.None? ==> slots == old(slots)
      ensures r.Some? ==>
                && old(Active(r.value)) && (forall p | old(Active(p)) :: priority[r.value] <= priority[p])
                && var i := priority[r.value] - 1;
                   && SlotOk(old(slots)[i]) && old(slots)[i].current == Some(r.value)
                   && slots == old(slots)[i := AfterServe(old(slots)[i], release)]
    {
      r := GetPipe();
      if r.None? { return; }
      assert priority[r.value] == current && SlotOk(slots[current - 1]);
      Advance(release);
      assert Valid();
    }
  }

  lemma RingMember(s: Slot, p: Pipe)
    requires SlotOk(s)
    ensures p in RingOf(s).order <==> p in s.pipes
  {
    if s.pipes != [] {
      var c := IndexOf(s.pipes, s.current.value);
      assert s.pipes == s.pipes[..c] + s.pipes[c..];
    }
  }

  /** How many pipes of its slot are served before `q`. */
  ghost function SlotWait(s: Slot, q: Pipe): nat
    requires SlotOk(s) && q in s.pipes
  {
    RingMember(s, q);
    Wait(RingOf(s), q)
  }

  lemma ServedWait(before: Slot, release: bool, q: Pipe)
    requires SlotOk(before) && q in before.pipes && before.current != Some(q)
    ensures var after := AfterServe(before, release);
            SlotOk(after) && q in after.pipes && SlotWait(after, q) == SlotWait(before, q) - 1
  {
    var after := AfterServe(before, release);
    RingOfOk(before);
    ServeRing(before, release);
    RingMember(before, q);
    WaitStep(RingOf(before), Served(!release), q);
    RingMember(after, q);
  }

  lemma JoinedWait(before: Slot, p: Pipe, q: Pipe)
    requires SlotOk(before) && q in before.pipes && p !in before.pipes
    ensures var after := Append(before, p);
            SlotOk(after) && q in after.pipes && SlotWait(after, q) <= SlotWait(before, q) + 1
  {
    RingOfOk(before);
    RingMember(before, q);
    RingMember(before, p);
    AppendRing(before, p);
    WaitStep(RingOf(before), Joins(p), q);
  }

  lemma RemovedWait(before: Slot, p: Pipe, q: Pipe)
    requires SlotOk(before) && q in before.pipes && p != q
    ensures var after := AfterRemove(before, p);
            SlotOk(after) && q in after.pipes && SlotWait(after, q) <= SlotWait(before, q)
  {
    if p in before.pipes {
      RingOfOk(before);
      RingMember(before, q);
      RingMember(before, p);
      EraseRing(before, p);
      WaitStep(RingOf(before), Removed(p), q);
      RingMember(Erase(before, p), q);
    }
  }

  /** The pipes in front of `q` in its own slot. */
  ghost function WaitIn(list: PrioList, q: Pipe): nat
    requires list.Valid() && list.Active(q)
    reads list
  {
    SlotWait(list.slots[list.priority[q] - 1], q)
  }

  /** A slot after a pipe of the same or of another priority was served. */
  ghost function SlotAfter(s: Slot, same: bool, release: bool): Slot
    requires SlotOk(s) && s.pipes != []
  {
    if same then AfterServe(s, release) else s
  }

  lemma SlotAfterWait(s: Slot, same: bool, release: bool, q: Pipe)
    requires SlotOk(s) && q in s.pipes && (same ==> s.current != Some(q))
    ensures var after := SlotAfter(s, same, release);
            SlotOk(after) && q in after.pipes && SlotWait(after, q) == SlotWait(s, q) - if same then 1 else 0
  {
    if same { ServedWait(s, release, q); }
  }

  /** While `q` waits, a pipe of its own priority or of a better one is served. */
  method ServeWhile(list: PrioList, release: bool, q: Pipe) returns (served: Pipe)
    requires list.Valid() && list.Active(q)
    modifies list`slots, list`current
    ensures list.Valid() && served in list.priority && list.priority[served] <= list.priority[q]
    ensures served != q ==>
              && list.Active(q)
              && WaitIn(list, q) == old(WaitIn(list, q)) - if list.priority[served] == list.priority[q] then 1 else 0
  {
    ghost var i := list.priority[q] - 1;
    ghost var before := list.slots[i];
    var r := list.Serve(release);
    served := r.value;
    ghost var same := list.priority[served] == list.priority[q];
    assert list.slots[i] == SlotAfter(before, same, release);
    if served != q { SlotAfterWait(before, same, release, q); }
  }

  datatype Op = Adds(p: Pipe, prio: int) | Removes(p: Pipe) | Activates(p: Pipe) | Serves(release: bool)

  /** A pipe other than `q` is removed. */
  method RemoveOther(list: PrioList, p: Pipe, q: Pipe)
    requires list.Valid() && list.Active(q) && p in list.priority && p != q
    modifies list
    ensures list.Valid() && list.priority == old(list.priority) - {p}
    ensures list.Active(q) && WaitIn(list, q) <= old(WaitIn(list, q))
  {
    ghost var i := list.priority[q] - 1;
    ghost var before := list.slots[i];
    ghost var same := list.priority[p] == list.priority[q];
    list.Rm(p);
    assert list.slots[i] == if same then AfterRemove(before, p) else before;
    if same { RemovedWait(before, p, q); }
  }

  /** Another pipe becomes active. */
  method ActivateOther(list: PrioList, p: Pipe, q: Pipe)
    requires list.Valid() && list.Active(q) && p in list.priority && !list.Active(p)
    modifies list`slots, list`current
    ensures list.Valid() && list.Active(q)
    ensures WaitIn(list, q) <= old(WaitIn(list, q)) + if list.priority[p] == list.priority[q] then 1 else 0
  {
    ghost var i := list.priority[q] - 1;
    ghost var before := list.slots[i];
    ghost var joins := list.priority[p] == list.priority[q];
    list.Activate(p);
    assert list.slots[i] == if joins then Append(before, p) else before;
    if joins { JoinedWait(before, p, q); }
  }

  /** Any run of the list while the active pipe `q` waits; it is over when `q` is served or removed. Every
      service goes to a better priority or to the priority of `q`, and those at its own priority are at
      most as many as the pipes in front of `q` at the start and those activated at its priority later. */
  method Run(list: PrioList, ops: seq<Op>, q: Pipe)
    returns (over: bool, ghost served: seq<Pipe>, ghost better: nat, ghost own: nat, ghost joined: nat)
    requires list.Valid() && list.Active(q)
    modifies list
    ensures list.Valid() && (!over ==> list.Active(q))
    ensures over <==> q in served || q !in list.priority
    ensures |served| == better + own + (if q in served then 1 else 0) && own <= old(WaitIn(list, q)) + joined
    ensures !over ==> own + WaitIn(list, q) <= old(WaitIn(list, q)) + joined
  {
    over := false;
    served, better, own, joined := [], 0, 0, 0;
    for n := 0 to |ops|
      invariant list.Valid() && list.Active(q)
      invariant q !in served && |served| == better + own && own + WaitIn(list, q) <= old(WaitIn(list, q)) + joined
    {
      match ops[n] {
        case Adds(p, prio) => if p !in list.priority && 1 <= prio <= SLOTS { list.Add(p, prio); }
        case Removes(p) =>
          if p == q {
            list.Rm(p);
            over := true;
            return;
          }
          if p in list.priority { RemoveOther(list, p, q); }
        case Activates(p) =>
          if p in list.priority && !list.Active(p) {
            ActivateOther(list, p, q);
            joined := joined + if list.priority[p] == list.priority[q] then 1 else 0;
          }
        case Serves(release) =>
          var p := ServeWhile(list, release, q);
          served := served + [p];
          if p == q {
            over := true;
            return;
          }
          if list.priority[p] == list.priority[q] { own := own + 1; } else { better := better + 1; }
      }
    }
  }
}
