/**
 * The timer-driven animator used where the platform has no animation engine.
 * Its fields are those of the Java class; the handler's queue is reduced to the
 * number of ticks posted, and listeners to whether one is attached, with every
 * call on them appended to `events`.
 */
module EmulatedAnimatorImpl {
  import opened JavaInt
  import opened AnimatorModel

  class EmulatedAnimator {
    var startTime: int64
    var running: bool
    var duration: int32
    var interpolator: Option<Interpolator>
    var hasListener: bool
    var hasUpdateListener: bool
    var fraction: Fraction
    var repeatCount: int32
    var currentIteration: int32
    var repeatMode: int32
    var pendingTicks: nat
    var events: seq<Event>

    /** The animator's fields as a value. */
    function Snapshot(): State
      reads this
    {
      State(startTime, running, duration, interpolator, hasListener, hasUpdateListener,
            fraction, repeatCount, currentIteration, repeatMode, pendingTicks, events)
    }

    ghost predicate Valid()
      reads this
    {
      AnimatorModel.Valid(Snapshot())
    }

    constructor ()
      ensures Snapshot() == Initial()
      ensures Valid()
    {
      startTime := 0;
      running := false;
      duration := DEFAULT_DURATION;
      interpolator := None;
      hasListener := false;
      hasUpdateListener := false;
      fraction := Zero;
      repeatCount := 0;
      currentIteration := 0;
      repeatMode := RESTART;
      pendingTicks := 0;
      events := [];
    }

    method SetRepeatMode(value: int32)
      modifies this
      ensures Snapshot() == old(Snapshot()).(repeatMode := value)
      ensures old(Valid()) ==> Valid()
    {
      repeatMode := value;
    }

    method GetRepeatMode() returns (r: int32)
      ensures r == repeatMode
    {
      r := repeatMode;
    }

    method SetRepeatCount(value: int32)
      modifies this
      ensures Snapshot() == old(Snapshot()).(repeatCount := value)
      ensures old(Valid()) ==> Valid()
    {
      repeatCount := value;
    }

    method GetRepeatCount() returns (r: int32)
      ensures r == repeatCount
    {
      r := repeatCount;
    }

    method Start(now: int64)
      modifies this
      ensures Snapshot() == StartStep(old(Snapshot()), now)
      ensures old(Valid()) ==> Valid()
    {
      if running {
        return;
      }
      if interpolator.None? {
        interpolator := Some(AccelerateDecelerate);
      }
      startTime := now;
      running := true;
      events := events + Notify(hasListener, OnStart);
      pendingTicks := pendingTicks + 1;
    }

    method IsRunning() returns (r: bool)
      ensures r == running
    {
      r := running;
    }

    method SetInterpolator(curve: Option<Interpolator>)
      modifies this
      ensures Snapshot() == old(Snapshot()).(interpolator := curve)
      ensures old(Valid()) ==> Valid()
    {
      interpolator := curve;
    }

    method SetListener(attached: bool)
      modifies this
      ensures Snapshot() == old(Snapshot()).(hasListener := attached)
      ensures old(Valid()) ==> Valid()
    {
      hasListener := attached;
    }

    method SetUpdateListener(attached: bool)
      modifies this
      ensures Snapshot() == old(Snapshot()).(hasUpdateListener := attached)
      ensures old(Valid()) ==> Valid()
    {
      hasUpdateListener := attached;
    }

    method SetDuration(d: int32)
      modifies this
      ensures Snapshot() == old(Snapshot()).(duration := d)
      ensures old(Valid()) ==> Valid()
    {
      duration := d;
    }

    method Cancel()
      modifies this
      ensures Snapshot() == CancelStep(old(Snapshot()))
      ensures Valid()
    {
      running := false;
      pendingTicks := 0;
      events := events + Notify(hasListener, OnCancel);
    }

    method GetAnimatedFraction() returns (f: Fraction)
      ensures f == fraction
    {
      f := fraction;
    }

    method End()
      modifies this
      ensures Snapshot() == EndStep(old(Snapshot()))
      ensures old(Valid()) ==> Valid()
    {
      if running {
        running := false;
        pendingTicks := 0;
        fraction := One;
        events := events + Notify(hasUpdateListener, OnUpdate);
        events := events + Notify(hasListener, OnEnd);
      }
    }

    /** The posted tick, run by the handler; `clock` holds its three readings of the clock. */
    method Update(clock: Clock)
      requires pendingTicks > 0
      modifies this
      ensures Snapshot() == UpdateStep(old(Snapshot()), clock)
      ensures old(Valid()) ==> Valid()
    {
      pendingTicks := pendingTicks - 1;  // the handler has taken this tick off its queue
      if running {
        UpdateRunning(clock);
      }
      if running {
        pendingTicks := pendingTicks + 1;
      }
    }

    /** The part of a tick that runs while the animator is running. */
    method UpdateRunning(clock: Clock)
      modifies this
      ensures Snapshot() == Advance(old(Snapshot()), clock)
    {
      var elapsed := Sub64(clock.fractionTime, startTime);
      fraction := if interpolator.Some? then Eased(interpolator.value, elapsed, duration)
                  else Linear(elapsed, duration);
      events := events + Notify(hasUpdateListener, OnUpdate);
      if clock.checkTime >= Add64(startTime, duration as int64) {
        if (repeatCount == INFINITE && repeatMode == RESTART)
           || (repeatCount > 0 && repeatMode == RESTART && currentIteration <= repeatCount)
        {
          startTime := clock.restartTime;
          events := events + Notify(hasListener, OnRepeat);
          currentIteration := Inc32(currentIteration);
        } else {
          running := false;
          events := events + Notify(hasListener, OnEnd);
        }
      }
    }
  }
}
