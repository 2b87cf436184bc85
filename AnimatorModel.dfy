/**
 * The emulated animator as a value: its fields, the listener notifications it
 * has made so far and the number of ticks it has posted to the UI-thread
 * handler, together with one step function per operation.
 */
module AnimatorModel {
  import opened JavaInt

  const DEFAULT_DURATION: int32 := 200

  /** Repeat modes and the "repeat forever" count. Android's values; the
      proofs need only that the two modes differ and that INFINITE is negative. */
  const RESTART: int32 := 1
  const REVERSE: int32 := 2
  const INFINITE: int32 := -1

  datatype Option<T> = None | Some(value: T)

  /** An interpolator object: the platform's ease-in-ease-out curve, or one the client supplied. */
  datatype Interpolator = AccelerateDecelerate | Custom(id: nat)

  /**
   * The float held in the animated fraction, kept symbolically: the initial 0,
   * the exact 1 written by end(), the linear fraction elapsed / duration, or an
   * interpolator applied to that linear fraction.
   */
  datatype Fraction =
    | Zero
    | One
    | Linear(elapsed: int64, duration: int32)
    | Eased(curve: Interpolator, elapsed: int64, duration: int32)

  /** A call made on the attached lifecycle or update listener. */
  datatype Event = OnStart | OnUpdate | OnRepeat | OnEnd | OnCancel

  /** The three clock readings of one tick: for the fraction, for the deadline
      check and for the new start time of a repetition. */
  datatype Clock = Clock(fractionTime: int64, checkTime: int64, restartTime: int64)

  datatype State = State(
    startTime: int64,
    running: bool,
    duration: int32,
    interpolator: Option<Interpolator>,
    hasListener: bool,
    hasUpdateListener: bool,
    fraction: Fraction,
    repeatCount: int32,
    currentIteration: int32,
    repeatMode: int32,
    pendingTicks: nat,    // ticks posted to the handler and not yet delivered or removed
    events: seq<Event>)   // every listener call so far, oldest first

  /** A freshly constructed animator. */
  function Initial(): (r: State)
    ensures Valid(r) && !r.running && r.events == []
  {
    State(0, false, DEFAULT_DURATION, None, false, false, Zero, 0, 0, RESTART, 0, [])
  }

  /** The handler holds exactly one tick of this animator while it runs, and none otherwise. */
  predicate Valid(s: State) {
    s.pendingTicks == if s.running then 1 else 0
  }

  /** The calls a notification makes: one if the listener is attached, none otherwise. */
  function Notify(attached: bool, e: Event): seq<Event> {
    if attached then [e] else []
  }

  /** start(): ignored while running; otherwise defaults the interpolator, records
      the start time, notifies OnStart and posts a tick. */
  function StartStep(s: State, now: int64): (r: State)
    ensures Valid(s) ==> Valid(r)
  {
    if s.running then s
    else
      s.(interpolator := if s.interpolator.None? then Some(AccelerateDecelerate) else s.interpolator,
         startTime := now,
         running := true,
         events := s.events + Notify(s.hasListener, OnStart),
         pendingTicks := s.pendingTicks + 1)
  }

  /** cancel(): stops, removes every posted tick and notifies OnCancel, whatever the state. */
  function CancelStep(s: State): (r: State)
    ensures Valid(r)
  {
    s.(running := false,
       pendingTicks := 0,
       events := s.events + Notify(s.hasListener, OnCancel))
  }

  /** end(): when running, stops, removes every posted tick, sets the fraction to
      exactly 1 and notifies OnUpdate then OnEnd; otherwise does nothing. */
  function EndStep(s: State): (r: State)
    ensures Valid(s) ==> Valid(r)
  {
    if !s.running then s
    else
      s.(running := false,
         pendingTicks := 0,
         fraction := One,
         events := s.events + Notify(s.hasUpdateListener, OnUpdate) + Notify(s.hasListener, OnEnd))
  }

  /** The time at which the current iteration is over: `mStartTime + mDuration` on longs. */
  function Deadline(s: State): (d: int64)
    ensures LONG_MIN as int <= s.startTime as int + s.duration as int <= LONG_MAX as int
            ==> d as int == s.startTime as int + s.duration as int
  {
    Add64(s.startTime, s.duration as int64)
  }

  /** Whether an overdue tick starts another iteration instead of ending. */
  predicate RepeatAllowed(s: State) {
    (s.repeatCount == INFINITE && s.repeatMode == RESTART)
    || (s.repeatCount > 0 && s.repeatMode == RESTART && s.currentIteration <= s.repeatCount)
  }

  /** The fraction a tick computes from the clock reading `now`. */
  function TickFraction(s: State, now: int64): Fraction {
    var elapsed := Sub64(now, s.startTime);
    match s.interpolator
    case Some(curve) => Eased(curve, elapsed, s.duration)
    case None => Linear(elapsed, s.duration)
  }

  /** The body of a tick while running: new fraction and OnUpdate, then, once the
      deadline has passed, either a repetition or the natural end. */
  function Advance(s: State, c: Clock): State {
    var updated := s.(fraction := TickFraction(s, c.fractionTime),
                      events := s.events + Notify(s.hasUpdateListener, OnUpdate));
    if c.checkTime < Deadline(s) then updated
    else if RepeatAllowed(s) then
      updated.(startTime := c.restartTime,
               events := updated.events + Notify(s.hasListener, OnRepeat),
               currentIteration := Inc32(s.currentIteration))
    else
      updated.(running := false,
               events := updated.events + Notify(s.hasListener, OnEnd))
  }

  /** A posted tick delivered by the handler: it leaves the queue, does its work
      if still running, and posts the next tick if still running afterwards. */
  function UpdateStep(s: State, c: Clock): (r: State)
    requires s.pendingTicks > 0
    ensures Valid(s) ==> Valid(r)
    ensures r.running ==> s.running
  {
    var delivered := s.(pendingTicks := s.pendingTicks - 1);
    var after := if s.running then Advance(delivered, c) else delivered;
    if after.running then after.(pendingTicks := after.pendingTicks + 1) else after
  }

  /** Everything a client or the handler can do to the animator. */
  datatype Op =
    | Start(now: int64)
    | Cancel
    | End
    | Tick(clock: Clock)
    | SetDuration(duration: int32)
    | SetRepeatCount(count: int32)
    | SetRepeatMode(mode: int32)
    | SetInterpolator(curve: Option<Interpolator>)
    | SetListener(attached: bool)
    | SetUpdateListener(attached: bool)

  /** One operation; a tick is delivered only when one is posted. */
  function Apply(s: State, op: Op): State {
    match op
    case Start(now) => StartStep(s, now)
    case Cancel => CancelStep(s)
    case End => EndStep(s)
    case Tick(c) => if s.pendingTicks > 0 then UpdateStep(s, c) else s
    case SetDuration(d) => s.(duration := d)
    case SetRepeatCount(n) => s.(repeatCount := n)
    case SetRepeatMode(m) => s.(repeatMode := m)
    case SetInterpolator(i) => s.(interpolator := i)
    case SetListener(b) => s.(hasListener := b)
    case SetUpdateListener(b) => s.(hasUpdateListener := b)
  }

  /** A sequence of operations, first to last. */
  function Run(s: State, ops: seq<Op>): State
    decreases |ops|
  {
    if |ops| == 0 then s else Run(Apply(s, ops[0]), ops[1..])
  }

  /** A sequence of handler ticks, first to last. */
  function RunTicks(s: State, cs: seq<Clock>): State
    decreases |cs|
  {
    if |cs| == 0 then s else RunTicks(Apply(s, Tick(cs[0])), cs[1..])
  }

  /** Every tick in `cs` finds its iteration's deadline passed. */
  predicate AllOverdue(s: State, cs: seq<Clock>)
    decreases |cs|
  {
    |cs| == 0 || (cs[0].checkTime >= Deadline(s) && AllOverdue(Apply(s, Tick(cs[0])), cs[1..]))
  }

  /** `k` ticks that each notify OnUpdate and then OnRepeat. */
  function Cycles(k: nat): seq<Event> {
    if k == 0 then [] else [OnUpdate, OnRepeat] + Cycles(k - 1)
  }
}
