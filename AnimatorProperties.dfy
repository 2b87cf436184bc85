/**
 * What the emulated animator guarantees: the transition each operation makes,
 * the tick/running invariant, how repetition is counted, and silence after
 * cancellation.
 */
module AnimatorProperties {
  import opened JavaInt
  import opened AnimatorModel

  // ---------------------------------------------------------------------------
  // One operation at a time
  // ---------------------------------------------------------------------------

  /** start() on a running animator changes nothing: no field, no call, no extra tick. */
  lemma StartWhileRunningIsIgnored(s: State, now: int64)
    requires s.running
    ensures StartStep(s, now) == s
  {
  }

  /** start() on a stopped animator: running from `now` with an interpolator,
      one OnStart, one more posted tick, and the iteration counter untouched. */
  lemma StartWhenStopped(s: State, now: int64)
    requires !s.running
    ensures var r := StartStep(s, now);
      && r.running && r.startTime == now && r.interpolator.Some?
      && (s.interpolator.Some? ==> r.interpolator == s.interpolator)
      && r.events == s.events + Notify(s.hasListener, OnStart)
      && r.pendingTicks == s.pendingTicks + 1
      && r.currentIteration == s.currentIteration
      && r.fraction == s.fraction
      && (Valid(s) ==> r.pendingTicks == 1)
  {
  }

  /** cancel() in any state: stopped, nothing posted, one OnCancel and no other
      call, the fraction and the iteration counter as they were. */
  lemma CancelInAnyState(s: State)
    ensures var r := CancelStep(s);
      && !r.running && r.pendingTicks == 0 && Valid(r)
      && r.events == s.events + Notify(s.hasListener, OnCancel)
      && OnUpdate !in r.events[|s.events|..] && OnEnd !in r.events[|s.events|..]
      && r.fraction == s.fraction
      && r.currentIteration == s.currentIteration && r.startTime == s.startTime
  {
  }

  /** end() on a running animator: stopped, nothing posted, fraction exactly 1,
      OnUpdate and then OnEnd. */
  lemma EndWhenRunning(s: State)
    requires s.running
    ensures var r := EndStep(s);
      && !r.running && r.pendingTicks == 0 && Valid(r)
      && r.fraction == One
      && r.events == s.events + Notify(s.hasUpdateListener, OnUpdate) + Notify(s.hasListener, OnEnd)
      && r.currentIteration == s.currentIteration && r.startTime == s.startTime
  {
  }

  /** end() on a stopped animator does nothing. */
  lemma EndWhenStoppedIsIgnored(s: State)
    requires !s.running
    ensures EndStep(s) == s
  {
  }

  /** A tick delivered to a stopped animator only leaves the handler's queue.
      This is the guard of the tick itself; from a valid state no such tick is
      ever delivered (see TickNeverReachesStoppedAnimator). */
  lemma TickWhenStopped(s: State, c: Clock)
    requires s.pendingTicks > 0 && !s.running
    ensures UpdateStep(s, c) == s.(pendingTicks := s.pendingTicks - 1)
  {
  }

  /** In a valid state a stopped animator has no tick posted, so a tick changes nothing. */
  lemma TickNeverReachesStoppedAnimator(s: State, c: Clock)
    requires Valid(s) && !s.running
    ensures Apply(s, Tick(c)) == s
  {
  }

  /** A tick before the deadline: a new fraction, OnUpdate only, same start time
      and iteration, and the next tick posted in place of this one. */
  lemma TickBeforeDeadline(s: State, c: Clock)
    requires s.pendingTicks > 0 && s.running
    requires c.checkTime < Deadline(s)
    ensures UpdateStep(s, c)
         == s.(fraction := TickFraction(s, c.fractionTime),
               events := s.events + Notify(s.hasUpdateListener, OnUpdate))
  {
  }

  /** An overdue tick that may repeat: restart at the third clock reading,
      OnUpdate then OnRepeat, one more iteration, still running and posted. */
  lemma TickRepeats(s: State, c: Clock)
    requires s.pendingTicks > 0 && s.running
    requires c.checkTime >= Deadline(s) && RepeatAllowed(s)
    ensures UpdateStep(s, c)
         == s.(fraction := TickFraction(s, c.fractionTime),
               startTime := c.restartTime,
               currentIteration := Inc32(s.currentIteration),
               events := s.events + Notify(s.hasUpdateListener, OnUpdate) + Notify(s.hasListener, OnRepeat))
  {
  }

  /** An overdue tick that may not repeat: OnUpdate then OnEnd, stopped, the
      fraction left as the curve gave it (not replaced by the One that end()
      writes), and no new tick. */
  lemma TickEnds(s: State, c: Clock)
    requires s.pendingTicks > 0 && s.running
    requires c.checkTime >= Deadline(s) && !RepeatAllowed(s)
    ensures UpdateStep(s, c)
         == s.(running := false,
               pendingTicks := s.pendingTicks - 1,
               fraction := TickFraction(s, c.fractionTime),
               events := s.events + Notify(s.hasUpdateListener, OnUpdate) + Notify(s.hasListener, OnEnd))
  {
  }

  /** An overdue tick keeps the animator running exactly when the mode is
      RESTART and the count is INFINITE, or positive and not yet exceeded by
      the iteration counter; otherwise that tick ends the animation. */
  lemma OverdueTickKeepsRunningIff(s: State, c: Clock)
    requires s.pendingTicks > 0 && s.running && c.checkTime >= Deadline(s)
    ensures UpdateStep(s, c).running <==>
      s.repeatMode == RESTART
      && (s.repeatCount == INFINITE || (0 < s.repeatCount && s.currentIteration <= s.repeatCount))
  {
  }

  /** In REVERSE mode, or with a repeat count of 0, an overdue tick always ends. */
  lemma ReverseOrNoRepeatEnds(s: State, c: Clock)
    requires s.pendingTicks > 0 && s.running && c.checkTime >= Deadline(s)
    requires s.repeatMode == REVERSE || s.repeatCount == 0
    ensures !UpdateStep(s, c).running
    ensures UpdateStep(s, c).events == s.events + Notify(s.hasUpdateListener, OnUpdate) + Notify(s.hasListener, OnEnd)
  {
  }

  /** With the largest repeat count the counter wraps: from INT_MAX an overdue
      tick repeats and the next iteration number is INT_MIN, which is again below the count. */
  lemma LargestRepeatCountWraps(s: State, c: Clock)
    requires s.pendingTicks > 0 && s.running && c.checkTime >= Deadline(s)
    requires s.repeatMode == RESTART && s.repeatCount == INT_MAX && s.currentIteration == INT_MAX
    ensures var r := UpdateStep(s, c);
      r.running && r.currentIteration == INT_MIN && RepeatAllowed(r)
  {
  }

  // ---------------------------------------------------------------------------
  // The tick/running invariant
  // ---------------------------------------------------------------------------

  /** Every operation keeps "a tick is posted exactly when running". */
  lemma ApplyPreservesValid(s: State, op: Op)
    requires Valid(s)
    ensures Valid(Apply(s, op))
  {
  }

  /** Any sequence of operations from a valid state ends in a valid state: the
      handler never holds a tick of a stopped animator, nor two of a running one. */
  lemma {:induction false} RunPreservesValid(s: State, ops: seq<Op>)
    requires Valid(s)
    ensures Valid(Run(s, ops))
    decreases |ops|
  {
    if |ops| > 0 {
      ApplyPreservesValid(s, ops[0]);
      RunPreservesValid(Apply(s, ops[0]), ops[1..]);
    }
  }

  /** The freshly constructed animator is valid, and so is every state it can reach. */
  lemma ReachableStatesAreValid(ops: seq<Op>)
    ensures Valid(Run(Initial(), ops))
  {
    RunPreservesValid(Initial(), ops);
  }

  // ---------------------------------------------------------------------------
  // The iteration counter
  // ---------------------------------------------------------------------------

  /** An operation leaves the counter alone or adds one; only a repeating tick adds. */
  lemma ApplyIteration(s: State, op: Op)
    requires s.currentIteration < INT_MAX
    ensures var r := Apply(s, op);
      r.currentIteration == s.currentIteration || r.currentIteration as int == s.currentIteration as int + 1
    ensures !op.Tick? ==> Apply(s, op).currentIteration == s.currentIteration
  {
  }

  /** No operation lowers or resets the counter: while it cannot overflow, `n`
      operations raise it by at most `n`. */
  lemma {:induction false} RunIterationNeverDecreases(s: State, ops: seq<Op>)
    requires s.currentIteration as int + |ops| <= INT_MAX as int
    ensures s.currentIteration <= Run(s, ops).currentIteration
    ensures Run(s, ops).currentIteration as int <= s.currentIteration as int + |ops|
    decreases |ops|
  {
    if |ops| > 0 {
      ApplyIteration(s, ops[0]);
      RunIterationNeverDecreases(Apply(s, ops[0]), ops[1..]);
    }
  }

  // ---------------------------------------------------------------------------
  // Repetition
  // ---------------------------------------------------------------------------

  lemma {:induction false} CyclesRepeatCount(k: nat)
    ensures |Cycles(k)| == 2 * k
    ensures multiset(Cycles(k))[OnRepeat] == k
    ensures multiset(Cycles(k))[OnEnd] == 0
  {
    if k > 0 {
      CyclesRepeatCount(k - 1);
    }
  }

  /** In RESTART mode with a finite count N and both listeners attached, the
      overdue ticks from iteration i repeat N + 1 - i times and the next one
      ends: the calls are that many OnUpdate, OnRepeat pairs and then OnUpdate,
      OnEnd; the counter stops at N + 1 and nothing stays posted. */
  lemma {:induction false} FiniteRestartRun(s: State, cs: seq<Clock>)
    requires Valid(s) && s.running && s.hasListener && s.hasUpdateListener
    requires s.repeatMode == RESTART && 0 < s.repeatCount < INT_MAX
    requires 0 <= s.currentIteration <= s.repeatCount + 1
    requires |cs| == s.repeatCount as int - s.currentIteration as int + 2
    requires AllOverdue(s, cs)
    ensures var r := RunTicks(s, cs);
      && !r.running && r.pendingTicks == 0
      && r.currentIteration as int == s.repeatCount as int + 1
      && r.events == s.events + Cycles(s.repeatCount as nat + 1 - s.currentIteration as nat) + [OnUpdate, OnEnd]
    decreases |cs|
  {
    var c := cs[0];
    var s1 := Apply(s, Tick(c));
    if s.currentIteration <= s.repeatCount {
      TickRepeats(s, c);
      assert s1.events == s.events + [OnUpdate, OnRepeat];
      FiniteRestartRun(s1, cs[1..]);
      var k := s.repeatCount as nat + 1 - s.currentIteration as nat;
      assert Cycles(k) == [OnUpdate, OnRepeat] + Cycles(k - 1);
      assert s.events + [OnUpdate, OnRepeat] + Cycles(k - 1) + [OnUpdate, OnEnd]
          == s.events + Cycles(k) + [OnUpdate, OnEnd];
    } else {
      TickEnds(s, c);
      assert cs[1..] == [];
    }
  }

  /** A stopped animator with nothing posted is left as it is by any ticks. */
  lemma {:induction false} StoppedIgnoresTicks(s: State, cs: seq<Clock>)
    requires !s.running && s.pendingTicks == 0
    ensures RunTicks(s, cs) == s
    decreases |cs|
  {
    if |cs| > 0 {
      StoppedIgnoresTicks(s, cs[1..]);
    }
  }

  /** What a finite RESTART run from `s` has done by the time it reaches `r`:
      the calls so far extend those of `s`, repeat settings are unchanged and
      one tick is posted exactly while running; the counter has risen by the
      number of OnRepeat calls and stays within N + 1; no OnEnd while running,
      and once stopped the counter is N + 1 and a single OnEnd was the last call. */
  ghost predicate FiniteProgress(s: State, r: State) {
    && |s.events| <= |r.events| && r.events[..|s.events|] == s.events
    && r.repeatMode == s.repeatMode && r.repeatCount == s.repeatCount
    && r.hasListener == s.hasListener && Valid(r)
    && s.currentIteration <= r.currentIteration
    && r.currentIteration as int <= s.repeatCount as int + 1
    && multiset(r.events[|s.events|..])[OnRepeat] == r.currentIteration as int - s.currentIteration as int
    && (r.running ==> multiset(r.events[|s.events|..])[OnEnd] == 0)
    && (!r.running ==>
          && r.currentIteration as int == s.repeatCount as int + 1
          && multiset(r.events[|s.events|..])[OnEnd] == 1
          && |s.events| < |r.events| && r.events[|r.events| - 1] == OnEnd)
  }

  /** One tick of a finite RESTART run, on time or overdue. */
  lemma FiniteRestartTick(s: State, c: Clock)
    requires Valid(s) && s.running && s.hasListener
    requires s.repeatMode == RESTART && 0 < s.repeatCount < INT_MAX
    requires 0 <= s.currentIteration <= s.repeatCount + 1
    ensures FiniteProgress(s, Apply(s, Tick(c)))
  {
    if c.checkTime < Deadline(s) {
      FiniteRestartTickEarly(s, c);
    } else if RepeatAllowed(s) {
      FiniteRestartTickRepeats(s, c);
    } else {
      FiniteRestartTickEnds(s, c);
    }
  }

  lemma FiniteRestartTickEarly(s: State, c: Clock)
    requires Valid(s) && s.running && s.hasListener
    requires s.repeatMode == RESTART && 0 < s.repeatCount < INT_MAX
    requires 0 <= s.currentIteration <= s.repeatCount + 1
    requires c.checkTime < Deadline(s)
    ensures FiniteProgress(s, Apply(s, Tick(c)))
  {
    TickBeforeDeadline(s, c);
    OneTickProgress(s, Apply(s, Tick(c)), Notify(s.hasUpdateListener, OnUpdate));
  }

  lemma FiniteRestartTickRepeats(s: State, c: Clock)
    requires Valid(s) && s.running && s.hasListener
    requires s.repeatMode == RESTART && 0 < s.repeatCount < INT_MAX
    requires 0 <= s.currentIteration <= s.repeatCount + 1
    requires c.checkTime >= Deadline(s) && RepeatAllowed(s)
    ensures FiniteProgress(s, Apply(s, Tick(c)))
  {
    var r := Apply(s, Tick(c));
    var added := Notify(s.hasUpdateListener, OnUpdate) + [OnRepeat];
    RepeatTickFacts(s, c);
    assert OnRepeat in added && OnEnd !in added;
    OneTickProgress(s, r, added);
  }

  /** The fields of a repeating tick of a finite RESTART run that FiniteProgress looks at. */
  lemma RepeatTickFacts(s: State, c: Clock)
    requires Valid(s) && s.running && s.hasListener
    requires s.repeatMode == RESTART && 0 < s.repeatCount < INT_MAX
    requires 0 <= s.currentIteration <= s.repeatCount + 1
    requires c.checkTime >= Deadline(s) && RepeatAllowed(s)
    ensures var r := Apply(s, Tick(c));
      && r.currentIteration as int == s.currentIteration as int + 1
      && r.currentIteration as int <= s.repeatCount as int + 1
      && r.running && Valid(r)
      && r.repeatMode == s.repeatMode && r.repeatCount == s.repeatCount && r.hasListener == s.hasListener
      && r.events == s.events + (Notify(s.hasUpdateListener, OnUpdate) + [OnRepeat])
  {
    TickRepeats(s, c);
    assert s.currentIteration <= s.repeatCount;
  }

  lemma FiniteRestartTickEnds(s: State, c: Clock)
    requires Valid(s) && s.running && s.hasListener
    requires s.repeatMode == RESTART && 0 < s.repeatCount < INT_MAX
    requires 0 <= s.currentIteration <= s.repeatCount + 1
    requires c.checkTime >= Deadline(s) && !RepeatAllowed(s)
    ensures FiniteProgress(s, Apply(s, Tick(c)))
  {
    var r := Apply(s, Tick(c));
    var added := Notify(s.hasUpdateListener, OnUpdate) + [OnEnd];
    EndTickFacts(s, c);
    assert OnRepeat !in added && OnEnd in added;
    OneTickProgress(s, r, added);
  }

  /** The fields of an ending tick of a finite RESTART run that FiniteProgress looks at. */
  lemma EndTickFacts(s: State, c: Clock)
    requires Valid(s) && s.running && s.hasListener
    requires s.repeatMode == RESTART && 0 < s.repeatCount < INT_MAX
    requires 0 <= s.currentIteration <= s.repeatCount + 1
    requires c.checkTime >= Deadline(s) && !RepeatAllowed(s)
    ensures var r := Apply(s, Tick(c));
      && r.currentIteration == s.currentIteration
      && r.currentIteration as int == s.repeatCount as int + 1
      && !r.running && Valid(r)
      && r.repeatMode == s.repeatMode && r.repeatCount == s.repeatCount && r.hasListener == s.hasListener
      && r.events == s.events + (Notify(s.hasUpdateListener, OnUpdate) + [OnEnd])
  {
    TickEnds(s, c);
  }

  /** The bookkeeping of FiniteProgress for a step that appends `added`. */
  lemma OneTickProgress(s: State, r: State, added: seq<Event>)
    requires r.events == s.events + added
    requires added == [] || added == [OnUpdate] || added == [OnRepeat] || added == [OnUpdate, OnRepeat]
          || added == [OnEnd] || added == [OnUpdate, OnEnd]
    requires r.repeatMode == s.repeatMode && r.repeatCount == s.repeatCount
    requires r.hasListener == s.hasListener && Valid(r)
    requires s.currentIteration <= r.currentIteration
    requires r.currentIteration as int <= s.repeatCount as int + 1
    requires r.currentIteration as int - s.currentIteration as int == if OnRepeat in added then 1 else 0
    requires r.running <==> OnEnd !in added
    requires !r.running ==> r.currentIteration as int == s.repeatCount as int + 1
    ensures FiniteProgress(s, r)
  {
    assert r.events[|s.events|..] == added;
    assert r.events[..|s.events|] == s.events;
  }

  /** Progress from `s` to a running `m`, then from `m` to `r`, is progress from `s` to `r`. */
  lemma FiniteProgressCompose(s: State, m: State, r: State)
    requires FiniteProgress(s, m) && m.running && FiniteProgress(m, r)
    ensures FiniteProgress(s, r)
  {
    var a := m.events[|s.events|..];
    var b := r.events[|m.events|..];
    assert r.events[|s.events|..] == a + b;
    assert r.events[..|s.events|] == s.events;
  }

  /** Any schedule of ticks, on time or overdue, in RESTART mode with a finite
      count N from iteration i <= N + 1 makes FiniteProgress: every repetition
      is announced by one OnRepeat, the counter stays within N + 1, and if the
      animator stopped, the counter is N + 1 and a single OnEnd was the last call. */
  lemma {:induction false} FiniteRestartAnySchedule(s: State, cs: seq<Clock>)
    requires Valid(s) && s.running && s.hasListener
    requires s.repeatMode == RESTART && 0 < s.repeatCount < INT_MAX
    requires 0 <= s.currentIteration <= s.repeatCount + 1
    ensures FiniteProgress(s, RunTicks(s, cs))
    decreases |cs|
  {
    if |cs| == 0 {
      assert RunTicks(s, cs) == s;
      assert s.events[|s.events|..] == [];
    } else {
      var s1 := Apply(s, Tick(cs[0]));
      FiniteRestartTick(s, cs[0]);
      assert RunTicks(s, cs) == RunTicks(s1, cs[1..]);
      if s1.running {
        FiniteRestartAnySchedule(s1, cs[1..]);
        FiniteProgressCompose(s, s1, RunTicks(s1, cs[1..]));
      } else {
        StoppedIgnoresTicks(s1, cs[1..]);
      }
    }
  }

  /** From iteration 0 with repeat count N (finite, RESTART), whatever the
      schedule of ticks: once the animator has stopped by itself, exactly N + 1
      OnRepeat calls and a single OnEnd were made, and OnEnd was the last. */
  lemma FiniteRestartRepeatsBeforeEnd(s: State, cs: seq<Clock>)
    requires Valid(s) && s.running && s.hasListener
    requires s.repeatMode == RESTART && 0 < s.repeatCount < INT_MAX && s.currentIteration == 0
    requires !RunTicks(s, cs).running
    ensures |s.events| < |RunTicks(s, cs).events| && RunTicks(s, cs).events[..|s.events|] == s.events
    ensures var added := RunTicks(s, cs).events[|s.events|..];
      && multiset(added)[OnRepeat] == s.repeatCount as int + 1
      && multiset(added)[OnEnd] == 1
      && added[|added| - 1] == OnEnd
  {
    FiniteRestartAnySchedule(s, cs);
  }

  /** From iteration 0 with repeat count N (finite, RESTART), exactly N + 2
      overdue ticks produce N + 1 OnRepeat calls and then a single OnEnd, last. */
  lemma FiniteRestartRepeatCount(s: State, cs: seq<Clock>)
    requires Valid(s) && s.running && s.hasListener && s.hasUpdateListener
    requires s.repeatMode == RESTART && 0 < s.repeatCount < INT_MAX && s.currentIteration == 0
    requires |cs| == s.repeatCount as int + 2 && AllOverdue(s, cs)
    ensures |s.events| < |RunTicks(s, cs).events| && RunTicks(s, cs).events[..|s.events|] == s.events
    ensures var added := RunTicks(s, cs).events[|s.events|..];
      && multiset(added)[OnRepeat] == s.repeatCount as int + 1
      && multiset(added)[OnEnd] == 1
      && added[|added| - 1] == OnEnd
      && !RunTicks(s, cs).running
  {
    FiniteRestartRun(s, cs);
    var r := RunTicks(s, cs);
    var k := s.repeatCount as nat + 1;
    CyclesRepeatCount(k);
    assert r.events[|s.events|..] == Cycles(k) + [OnUpdate, OnEnd];
  }

  /** With an INFINITE count in RESTART mode no tick ever ends the animation:
      it stays running with one tick posted, and tick calls are only OnUpdate and OnRepeat. */
  lemma {:induction false} InfiniteRestartNeverEnds(s: State, cs: seq<Clock>)
    requires Valid(s) && s.running
    requires s.repeatMode == RESTART && s.repeatCount == INFINITE
    ensures var r := RunTicks(s, cs);
      && r.running && r.pendingTicks == 1
      && r.repeatMode == RESTART && r.repeatCount == INFINITE
      && |s.events| <= |r.events| && r.events[..|s.events|] == s.events
      && forall i :: |s.events| <= i < |r.events| ==> r.events[i] in {OnUpdate, OnRepeat}
    decreases |cs|
  {
    if |cs| > 0 {
      var s1 := Apply(s, Tick(cs[0]));
      assert s1.events[..|s.events|] == s.events;
      InfiniteRestartNeverEnds(s1, cs[1..]);
    }
  }

  /** start() does not reset the counter, so once a finite count is used up a
      later run never repeats: its first overdue tick ends it. */
  lemma ExhaustedCountStaysExhausted(s: State, now: int64, c: Clock)
    requires !s.running && s.repeatCount != INFINITE && s.currentIteration > s.repeatCount
    requires c.checkTime >= Deadline(StartStep(s, now))
    ensures var r := UpdateStep(StartStep(s, now), c);
      !r.running && r.currentIteration == s.currentIteration
  {
  }

  /** With a finite count already used up, no tick repeats: whatever the clock
      readings, the counter stays put and no OnRepeat is added to the log. */
  lemma {:induction false} NoRepeatTicks(t: State, cs: seq<Clock>)
    requires t.repeatCount != INFINITE && t.currentIteration > t.repeatCount
    ensures var r := RunTicks(t, cs);
      && r.currentIteration == t.currentIteration && r.repeatCount == t.repeatCount
      && |t.events| <= |r.events| && r.events[..|t.events|] == t.events
      && OnRepeat !in r.events[|t.events|..]
    decreases |cs|
  {
    if |cs| > 0 {
      var t1 := Apply(t, Tick(cs[0]));
      assert !RepeatAllowed(t);
      assert t1.currentIteration == t.currentIteration && t1.repeatCount == t.repeatCount;
      assert |t.events| <= |t1.events| && t1.events[..|t.events|] == t.events;
      assert OnRepeat !in t1.events[|t.events|..];
      NoRepeatTicks(t1, cs[1..]);
      var r := RunTicks(t, cs);
      assert r == RunTicks(t1, cs[1..]);
      assert r.events[|t.events|..] == t1.events[|t.events|..] + r.events[|t1.events|..];
    }
  }

  /** start() does not reset the counter, so once a finite count is used up no
      later run repeats, whatever ticks the handler delivers after the start. */
  lemma ExhaustedRunNeverRepeats(s: State, now: int64, cs: seq<Clock>)
    requires s.repeatCount != INFINITE && s.currentIteration > s.repeatCount
    ensures var t := StartStep(s, now);
      var r := RunTicks(t, cs);
      && r.currentIteration == s.currentIteration
      && |t.events| <= |r.events| && r.events[..|t.events|] == t.events
      && OnRepeat !in r.events[|t.events|..]
  {
    NoRepeatTicks(StartStep(s, now), cs);
  }

  /** Any sequence of ticks from a valid state ends in a valid state. */
  lemma {:induction false} RunTicksPreservesValid(s: State, cs: seq<Clock>)
    requires Valid(s)
    ensures Valid(RunTicks(s, cs))
    decreases |cs|
  {
    if |cs| > 0 {
      ApplyPreservesValid(s, Tick(cs[0]));
      RunTicksPreservesValid(Apply(s, Tick(cs[0])), cs[1..]);
    }
  }

  /** After start() on a used-up finite count, whatever on-time ticks come first,
      the first tick that finds the deadline passed ends the run. */
  lemma ExhaustedRunEndsAtFirstOverdue(s: State, now: int64, cs: seq<Clock>, c: Clock)
    requires Valid(s) && s.repeatCount != INFINITE && s.currentIteration > s.repeatCount
    requires var t := RunTicks(StartStep(s, now), cs); t.running && c.checkTime >= Deadline(t)
    ensures var t := RunTicks(StartStep(s, now), cs);
      var r := Apply(t, Tick(c));
      && !r.running && r.pendingTicks == 0
      && r.currentIteration == s.currentIteration
      && r.events == t.events + Notify(t.hasUpdateListener, OnUpdate) + Notify(t.hasListener, OnEnd)
  {
    var t := RunTicks(StartStep(s, now), cs);
    NoRepeatTicks(StartStep(s, now), cs);
    RunTicksPreservesValid(StartStep(s, now), cs);
    assert !RepeatAllowed(t);
    TickEnds(t, c);
  }

  // ---------------------------------------------------------------------------
  // Cancellation
  // ---------------------------------------------------------------------------

  /** A stopped animator with nothing posted stays silent until the next start():
      the only calls any other operations make are OnCancel. */
  lemma {:induction false} QuietUntilStart(s: State, ops: seq<Op>)
    requires !s.running && s.pendingTicks == 0
    requires forall i :: 0 <= i < |ops| ==> !ops[i].Start?
    ensures var r := Run(s, ops);
      && !r.running && r.pendingTicks == 0
      && |s.events| <= |r.events| && r.events[..|s.events|] == s.events
      && forall i :: |s.events| <= i < |r.events| ==> r.events[i] == OnCancel
    decreases |ops|
  {
    if |ops| > 0 {
      var s1 := Apply(s, ops[0]);
      assert s1.events[..|s.events|] == s.events;
      QuietUntilStart(s1, ops[1..]);
    }
  }

  /** After cancel(), whatever the state before, no OnUpdate, OnRepeat or OnEnd
      is ever made again until the next start(). */
  lemma CancelSilencesUntilStart(s: State, ops: seq<Op>)
    requires forall i :: 0 <= i < |ops| ==> !ops[i].Start?
    ensures var r := Run(CancelStep(s), ops);
      && !r.running
      && forall i :: |s.events| <= i < |r.events| ==> r.events[i] == OnCancel
  {
    var c := CancelStep(s);
    QuietUntilStart(c, ops);
  }
}
