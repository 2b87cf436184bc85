/** Short client runs of the animator class, as a caller on the UI thread would make them. */
module Scenarios {
  import opened JavaInt
  import opened AnimatorModel
  import opened EmulatedAnimatorImpl

  /** cancel() right after start(), before any tick: stopped, nothing posted,
      and the listeners saw OnStart and OnCancel only. */
  method CancelBeforeFirstTick(now: int64) returns (running: bool, posted: nat, calls: seq<Event>)
    ensures !running && posted == 0
    ensures calls == [OnStart, OnCancel]
  {
    var a := new EmulatedAnimator();
    a.SetListener(true);
    a.SetUpdateListener(true);
    a.Start(now);
    a.Cancel();
    running := a.IsRunning();
    posted := a.pendingTicks;
    calls := a.events;
  }

  /** A tick before the deadline and then end(): the fraction is exactly 1 and
      the last two calls are OnUpdate and OnEnd. */
  method EndAfterOneTick(now: int64) returns (running: bool, f: Fraction, calls: seq<Event>)
    requires now as int + 100 < LONG_MAX as int
    ensures !running && f == One
    ensures calls == [OnStart, OnUpdate, OnUpdate, OnEnd]
  {
    var a := new EmulatedAnimator();
    a.SetListener(true);
    a.SetUpdateListener(true);
    a.SetDuration(100);
    a.Start(now);
    a.Update(Clock(now + 10, now + 10, now + 10));
    assert a.running;
    a.End();
    running := a.IsRunning();
    f := a.GetAnimatedFraction();
    calls := a.events;
  }

  /** With the default repeat count a single overdue tick ends the animation and
      leaves the fraction the curve computed, not the One that end() writes. */
  method NaturalEnd(now: int64) returns (running: bool, f: Fraction, calls: seq<Event>)
    requires now as int + 300 < LONG_MAX as int
    ensures !running
    ensures f == Eased(AccelerateDecelerate, 250, DEFAULT_DURATION)
    ensures calls == [OnStart, OnUpdate, OnEnd]
  {
    var a := new EmulatedAnimator();
    a.SetListener(true);
    a.SetUpdateListener(true);
    a.Start(now);
    a.Update(Clock(now + 250, now + 250, now + 250));
    running := a.IsRunning();
    f := a.GetAnimatedFraction();
    calls := a.events;
  }
}
