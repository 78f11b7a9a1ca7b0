/** A timer object shared by its socket and the worker thread. Each method is what happens while the
    context of the socket is locked. */
module Timer {
  import opened Common

  datatype Phase = Idle | Active | Stopping

  /** The tasks a timer hands to the worker, and the events it raises to its owner. */
  datatype Task = StartTask | StopTask
  datatype Event = TimedOut | Stopped

  class Timer {
    var fsm: Phase            // nn_fsm.state
    var state: Phase          // nn_timer.state
    var timeout: int
    var tasks: seq<Task>      // handed to the worker and not yet executed, first in first out
    var armed: bool           // in the worker's timer set
    var wait: int             // how long it was put there for
    var fired: bool           // taken out of the timer set, about to be fed to the timer
    var aborted: bool         // an assertion of the source has failed
    ghost var given: int      // the time it was last started with

    /** What each phase means to the worker. At most one start and one stop are underway, in this order. */
    ghost predicate Valid()
      reads this
    {
      && !aborted
      && fsm == state
      && !(armed && fired)
      && match state
         case Idle => tasks == [] && !armed && !fired
         case Active =>
           || (tasks == [StartTask] && timeout == given >= 0 && !armed && !fired)
           || (tasks == [] && timeout == -1 && wait == given)
         case Stopping =>
           || (tasks == [StartTask, StopTask] && !armed && !fired)
           || tasks == [StopTask]
    }

    /** A timeout is still to come. */
    ghost predicate Ticking()
      reads this
    {
      tasks == [StartTask] || armed || fired
    }

    /** nn_timer_init. */
    constructor ()
      ensures Valid() && state == Idle
    {
      fsm, state, timeout, tasks := Idle, Idle, -1, [];
      armed, wait, fired, aborted := false, 0, false, false;
    }

    /** nn_timer_start: `queued` says that the timer's stopped event still waits to be processed. */
    method Start(ms: int, queued: bool)
      requires Valid()
      modifies this
      ensures if ms >= 0 && old(state) == Idle && !queued then Valid() && state == Active && Ticking() && given == ms
              else aborted
    {
      if ms < 0 || fsm != Idle || queued || state != Idle || StartTask in tasks {
        aborted := true;
        return;
      }
      timeout, given := ms, ms;
      state := Active;
      tasks := tasks + [StartTask];
      fsm := Active;
    }

    /** nn_timer_stop: does nothing unless the timer is active. */
    method Stop()
      requires Valid()
      modifies this
      ensures Valid()
      ensures state == if old(state) == Active then Stopping else old(state)
      ensures tasks == old(tasks) + if old(state) == Active then [StopTask] else []
      ensures armed == old(armed) && fired == old(fired)
    {
      if fsm != Active { return; }
      fsm, state := Stopping, Stopping;
      assert StopTask !in tasks;
      tasks := tasks + [StopTask];
    }

    /** The worker executes the next task. */
    method Execute() returns (event: Option<Event>)
      requires Valid() && tasks != [] && !fired
      modifies this
      ensures Valid()
      ensures event == if old(state) == Stopping && old(tasks) == [StopTask] then Some(Stopped) else None
      ensures state == (if event.Some? then Idle else old(state)) && tasks == old(tasks)[1..] && fired == old(fired)
      ensures given == old(given) && (state == Active ==> armed && wait == given)
    {
      var task := tasks[0];
      tasks := tasks[1..];
      event := None;
      if fsm != Stopping {
        if state == Active && task == StartTask && timeout >= 0 && !armed {
          armed, wait := true, timeout;
          timeout := -1;
        } else {
          assert false;
        }
      } else if state == Stopping {
        if task == StopTask {
          armed := false;
          state := Idle;
          event := Some(Stopped);
          fsm := Idle;
        }
      } else {
        assert false;
      }
    }

    /** The worker takes the expired timer out of its set. */
    method Expire()
      requires Valid() && armed
      modifies this
      ensures Valid() && state == old(state) && fired && tasks == old(tasks) && given == old(given)
    {
      armed, fired := false, true;
    }

    /** The worker feeds the expiration to the timer. */
    method Feed() returns (event: Option<Event>)
      requires Valid() && fired
      modifies this
      ensures Valid() && state == old(state) && !fired && tasks == old(tasks) && armed == old(armed)
      ensures event == if state == Active then Some(TimedOut) else None
    {
      fired := false;
      event := None;
      if fsm != Stopping {
        if state == Active && timeout == -1 {
          event := Some(TimedOut);
        } else {
          assert false;
        }
      } else if state != Stopping {
        assert false;
      }
    }
  }
}
