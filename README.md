# Emulated ValueAnimator (ValueAnimatorCompat)

A Dafny model of `ValueAnimatorCompatImplEclairMr1`, the animator that
ValueAnimatorCompat uses on Android versions without `android.animation`. It
is a small state machine on the UI thread. `start()` records the start time
and posts a runnable to a shared `Handler`. Each run of that runnable
(`update()`) computes the animated fraction, notifies the update listener,
and then repeats, ends naturally or reposts itself. `cancel()` and `end()`
stop the machine early.

Files:

- `JavaInt.dfy`: Java `int` and `long` as newtypes, with two's complement wrap-around for `x++`, `a + b` and `a - b`.
- `AnimatorModel.dfy`: the animator's state as a value (`State`) and one step function per operation (`StartStep`, `CancelStep`, `EndStep`, `UpdateStep`). It also has `Apply`/`Run` over sequences of operations and the invariant `Valid`: one tick is posted while running and none otherwise.
- `EmulatedAnimator.dfy`: the class `EmulatedAnimator`, with the Java fields and one method per Java method. Each mutating method's contract says that its new `Snapshot()` is the step function (or field update) applied to the old one, and that `Valid` is kept; `Cancel` establishes it from any state. The exception is `UpdateRunning`, the running part of a tick: it runs after the tick has left the handler's queue and before the next one is posted, so its contract states only its new `Snapshot()`, and `Update` around it keeps `Valid`.
- `AnimatorProperties.dfy`: what the steps guarantee. Idempotent start, cancel without end, forced end at fraction 1, repetition only in RESTART mode, rescheduling only while running. Also the exact number of repeats, that the counter never decreases, and that after cancel no update, repeat or end call is made until the next `start()`.
- `Scenarios.dfy`: short client runs of the class.

How the environment is modelled:

- **Clock.** `SystemClock.uptimeMillis()` becomes parameters: `start(now)`, and a `Clock` holding the three readings one tick makes. These are the fraction reading (line 171), the deadline check (line 183) and the new start time of a repetition (line 186).
- **Handler.** The handler's queue becomes `pendingTicks`, the number of posted runnables. `postDelayed` adds one. `removeCallbacks` removes all. A delivered tick removes itself first. The handler only runs a tick that was posted, so `Update` requires `pendingTicks > 0`.
- **Listeners.** A listener is a flag saying whether one is attached. Every call made on a listener is appended to `events`, and a call on a null listener is skipped, as at lines 80, 139, 158, 162, 178, 187 and 194.
- **Animated fraction.** The fraction is a float. It is kept symbolically as `Fraction`: `Zero` initially, `One` after `end()`, `Linear(elapsed, duration)` when no interpolator is set, and `Eased(curve, elapsed, duration)` otherwise.
- **Constants.** `RESTART = 1`, `REVERSE = 2` and `INFINITE = -1` are Android's values. The class defining them is not part of this model. The proofs use only that the two modes differ and that `INFINITE` is negative.

Behaviour of the code worth knowing, which the model follows:

- **Number of repeats.** The repeat test is `mCurrentIteration <= mRepeatCount`, starting from 0. So a positive repeat count N below `Integer.MAX_VALUE`, counted from iteration 0, gives N + 1 repeats and N + 2 plays, not N repeats, whatever mix of on-time and overdue ticks the handler delivers (`FiniteRestartRepeatsBeforeEnd`). A count of 0, or a negative one other than INFINITE, gives none, so going from 0 to 1 jumps from no repeat to two (`ReverseOrNoRepeatEnds`, `OverdueTickKeepsRunningIff`).
- **Counter reset.** `start()` never resets `mCurrentIteration`. Once a finite count is used up, a later run never repeats, whatever ticks the handler delivers (`NoRepeatTicks`, `ExhaustedRunNeverRepeats`); after any number of on-time ticks, its first overdue tick ends it (`ExhaustedRunEndsAtFirstOverdue`; `ExhaustedCountStaysExhausted` is the case where the first tick after `start()` is already overdue).
- **Cancel notification.** `cancel()` notifies `onAnimationCancel` even when the animator is already stopped. Cancelling right after `start()` therefore records OnStart and then OnCancel (`Scenarios.CancelBeforeFirstTick`).
- **Counter overflow.** The iteration counter is a Java `int`. With `mRepeatCount == Integer.MAX_VALUE` it wraps to `Integer.MIN_VALUE`, which again passes the repeat test (`LargestRepeatCountWraps`).

## Model

| member | source | states |
|---|---|---|
| JavaInt.Inc32 | library/src/main/java/me/yugy/github/valueanimatorcompat/ValueAnimatorCompatImplEclairMr1.java:190 | `mCurrentIteration++` adds one, except that the largest int wraps to the smallest |
| JavaInt.Add64 | library/src/main/java/me/yugy/github/valueanimatorcompat/ValueAnimatorCompatImplEclairMr1.java:183 | `mStartTime + mDuration` on longs: congruent to the exact sum mod 2^64, and equal to it when the sum fits |
| JavaInt.Sub64 | library/src/main/java/me/yugy/github/valueanimatorcompat/ValueAnimatorCompatImplEclairMr1.java:171 | `uptimeMillis() - mStartTime` on longs: congruent to the exact difference mod 2^64, and equal to it when it fits |
| EmulatedAnimatorImpl.EmulatedAnimator.constructor | library/src/main/java/me/yugy/github/valueanimatorcompat/ValueAnimatorCompatImplEclairMr1.java:14-44 | the initial state: stopped, duration 200, no interpolator or listeners, fraction 0, repeat count 0, iteration 0, RESTART mode, nothing posted, no calls |
| EmulatedAnimatorImpl.EmulatedAnimator.SetRepeatMode | library/src/main/java/me/yugy/github/valueanimatorcompat/ValueAnimatorCompatImplEclairMr1.java:47-49 | only the repeat mode changes, to the given value |
| EmulatedAnimatorImpl.EmulatedAnimator.GetRepeatMode | library/src/main/java/me/yugy/github/valueanimatorcompat/ValueAnimatorCompatImplEclairMr1.java:52-54 | returns the stored repeat mode |
| EmulatedAnimatorImpl.EmulatedAnimator.SetRepeatCount | library/src/main/java/me/yugy/github/valueanimatorcompat/ValueAnimatorCompatImplEclairMr1.java:57-59 | only the repeat count changes, to the given value |
| EmulatedAnimatorImpl.EmulatedAnimator.GetRepeatCount | library/src/main/java/me/yugy/github/valueanimatorcompat/ValueAnimatorCompatImplEclairMr1.java:62-64 | returns the stored repeat count |
| EmulatedAnimatorImpl.EmulatedAnimator.Start | library/src/main/java/me/yugy/github/valueanimatorcompat/ValueAnimatorCompatImplEclairMr1.java:67-85 | the new state is `StartStep` of the old one, and the one-tick-while-running invariant is kept |
| EmulatedAnimatorImpl.EmulatedAnimator.IsRunning | library/src/main/java/me/yugy/github/valueanimatorcompat/ValueAnimatorCompatImplEclairMr1.java:88-90 | returns whether the animator is running |
| EmulatedAnimatorImpl.EmulatedAnimator.SetInterpolator | library/src/main/java/me/yugy/github/valueanimatorcompat/ValueAnimatorCompatImplEclairMr1.java:93-95 | only the interpolator changes; null becomes None |
| EmulatedAnimatorImpl.EmulatedAnimator.SetListener | library/src/main/java/me/yugy/github/valueanimatorcompat/ValueAnimatorCompatImplEclairMr1.java:98-100 | only whether a lifecycle listener is attached changes |
| EmulatedAnimatorImpl.EmulatedAnimator.SetUpdateListener | library/src/main/java/me/yugy/github/valueanimatorcompat/ValueAnimatorCompatImplEclairMr1.java:103-105 | only whether an update listener is attached changes |
| EmulatedAnimatorImpl.EmulatedAnimator.SetDuration | library/src/main/java/me/yugy/github/valueanimatorcompat/ValueAnimatorCompatImplEclairMr1.java:130-132 | only the duration changes, with no validation |
| EmulatedAnimatorImpl.EmulatedAnimator.Cancel | library/src/main/java/me/yugy/github/valueanimatorcompat/ValueAnimatorCompatImplEclairMr1.java:135-142 | the new state is `CancelStep` of the old one, and it satisfies the invariant whatever the old state |
| EmulatedAnimatorImpl.EmulatedAnimator.GetAnimatedFraction | library/src/main/java/me/yugy/github/valueanimatorcompat/ValueAnimatorCompatImplEclairMr1.java:145-147 | returns the last fraction written |
| EmulatedAnimatorImpl.EmulatedAnimator.End | library/src/main/java/me/yugy/github/valueanimatorcompat/ValueAnimatorCompatImplEclairMr1.java:150-166 | the new state is `EndStep` of the old one, and the invariant is kept |
| EmulatedAnimatorImpl.EmulatedAnimator.Update | library/src/main/java/me/yugy/github/valueanimatorcompat/ValueAnimatorCompatImplEclairMr1.java:168-205 | a delivered tick: the new state is `UpdateStep` of the old one, and the invariant is kept |
| EmulatedAnimatorImpl.EmulatedAnimator.UpdateRunning | library/src/main/java/me/yugy/github/valueanimatorcompat/ValueAnimatorCompatImplEclairMr1.java:169-198 | the running part of a tick: the new state is `Advance` of the old one |
| AnimatorModel.Initial | library/src/main/java/me/yugy/github/valueanimatorcompat/ValueAnimatorCompatImplEclairMr1.java:14-44 | a new animator is stopped, has no calls and satisfies the invariant; its fields are the Java initialisers and defaults |
| AnimatorModel.StartStep | library/src/main/java/me/yugy/github/valueanimatorcompat/ValueAnimatorCompatImplEclairMr1.java:67-85 | the value-level start(), following the Java branches; keeps the invariant |
| AnimatorModel.CancelStep | library/src/main/java/me/yugy/github/valueanimatorcompat/ValueAnimatorCompatImplEclairMr1.java:135-142 | the value-level cancel(); its result satisfies the invariant whatever the state |
| AnimatorModel.EndStep | library/src/main/java/me/yugy/github/valueanimatorcompat/ValueAnimatorCompatImplEclairMr1.java:150-166 | the value-level end(); keeps the invariant |
| AnimatorModel.Deadline | library/src/main/java/me/yugy/github/valueanimatorcompat/ValueAnimatorCompatImplEclairMr1.java:183 | `mStartTime + mDuration` on longs; equal to the exact sum when that fits in a long |
| AnimatorModel.Valid | library/src/main/java/me/yugy/github/valueanimatorcompat/ValueAnimatorCompatImplEclairMr1.java:84 | the invariant: exactly one tick posted while running (lines 84, 201-204), none after a stop (lines 137, 153, 192) |
| AnimatorModel.RepeatAllowed | library/src/main/java/me/yugy/github/valueanimatorcompat/ValueAnimatorCompatImplEclairMr1.java:184-185 | the repeat test: INFINITE in RESTART mode, or a positive count in RESTART mode with iteration <= count |
| AnimatorModel.TickFraction | library/src/main/java/me/yugy/github/valueanimatorcompat/ValueAnimatorCompatImplEclairMr1.java:171-175 | the fraction from the elapsed long time: through the interpolator if one is set, linear otherwise |
| AnimatorModel.Advance | library/src/main/java/me/yugy/github/valueanimatorcompat/ValueAnimatorCompatImplEclairMr1.java:169-198 | the running body of a tick: new fraction and OnUpdate, then at the deadline a repetition or the natural end |
| AnimatorModel.UpdateStep | library/src/main/java/me/yugy/github/valueanimatorcompat/ValueAnimatorCompatImplEclairMr1.java:168-205 | a delivered tick at value level; keeps the invariant and never starts a stopped animator |
| AnimatorProperties.StartWhileRunningIsIgnored | library/src/main/java/me/yugy/github/valueanimatorcompat/ValueAnimatorCompatImplEclairMr1.java:67-71 | start() while running leaves the whole state equal: no field, call or posted tick changes |
| AnimatorProperties.StartWhenStopped | library/src/main/java/me/yugy/github/valueanimatorcompat/ValueAnimatorCompatImplEclairMr1.java:73-84 | start() when stopped: running, start time = now, interpolator set (kept if one was there), exactly one OnStart, one more posted tick (exactly one from a valid state), iteration and fraction untouched |
| AnimatorProperties.CancelInAnyState | library/src/main/java/me/yugy/github/valueanimatorcompat/ValueAnimatorCompatImplEclairMr1.java:135-142 | cancel() in any state: stopped, nothing posted, exactly one OnCancel, no OnUpdate or OnEnd, fraction, start time and iteration unchanged |
| AnimatorProperties.EndWhenRunning | library/src/main/java/me/yugy/github/valueanimatorcompat/ValueAnimatorCompatImplEclairMr1.java:150-166 | end() while running: stopped, nothing posted, fraction exactly One, OnUpdate then OnEnd |
| AnimatorProperties.EndWhenStoppedIsIgnored | library/src/main/java/me/yugy/github/valueanimatorcompat/ValueAnimatorCompatImplEclairMr1.java:150-151 | end() while stopped leaves the whole state equal |
| AnimatorProperties.TickWhenStopped | library/src/main/java/me/yugy/github/valueanimatorcompat/ValueAnimatorCompatImplEclairMr1.java:168-169 | a tick delivered while stopped (the guard at line 169, not reachable from a valid state) changes nothing beyond taking itself off the queue, and posts nothing |
| AnimatorProperties.TickNeverReachesStoppedAnimator | library/src/main/java/me/yugy/github/valueanimatorcompat/ValueAnimatorCompatImplEclairMr1.java:201-204 | in a valid state a stopped animator has no tick posted, so a tick operation leaves the state equal |
| AnimatorProperties.TickBeforeDeadline | library/src/main/java/me/yugy/github/valueanimatorcompat/ValueAnimatorCompatImplEclairMr1.java:168-183 | before the deadline a tick sets the new fraction, calls OnUpdate only, keeps start time and iteration, and the next tick replaces it |
| AnimatorProperties.TickRepeats | library/src/main/java/me/yugy/github/valueanimatorcompat/ValueAnimatorCompatImplEclairMr1.java:183-190 | an overdue tick that may repeat: start time = third clock reading, OnUpdate then OnRepeat, iteration + 1, still running and posted |
| AnimatorProperties.TickEnds | library/src/main/java/me/yugy/github/valueanimatorcompat/ValueAnimatorCompatImplEclairMr1.java:183-197 | an overdue tick that may not repeat: stopped, OnUpdate then OnEnd, the curve's fraction kept (no clamp to 1), no new tick |
| AnimatorProperties.OverdueTickKeepsRunningIff | library/src/main/java/me/yugy/github/valueanimatorcompat/ValueAnimatorCompatImplEclairMr1.java:183-197 | an overdue tick leaves the animator running iff the mode is RESTART and the count is INFINITE, or positive with iteration <= count; otherwise it ends it |
| AnimatorProperties.ReverseOrNoRepeatEnds | library/src/main/java/me/yugy/github/valueanimatorcompat/ValueAnimatorCompatImplEclairMr1.java:184-197 | in REVERSE mode, or with repeat count 0, an overdue tick always ends, calling OnUpdate then OnEnd |
| AnimatorProperties.LargestRepeatCountWraps | library/src/main/java/me/yugy/github/valueanimatorcompat/ValueAnimatorCompatImplEclairMr1.java:185-190 | with count = iteration = Integer.MAX_VALUE an overdue tick repeats and the counter wraps to Integer.MIN_VALUE, which still allows repetition |
| AnimatorProperties.ApplyPreservesValid | library/src/main/java/me/yugy/github/valueanimatorcompat/ValueAnimatorCompatImplEclairMr1.java:84 | every single operation keeps "a tick is posted exactly when running" |
| AnimatorProperties.RunPreservesValid | library/src/main/java/me/yugy/github/valueanimatorcompat/ValueAnimatorCompatImplEclairMr1.java:201-204 | every sequence of operations from a valid state ends in a valid state |
| AnimatorProperties.ReachableStatesAreValid | library/src/main/java/me/yugy/github/valueanimatorcompat/ValueAnimatorCompatImplEclairMr1.java:14-44 | every state reachable from a new animator has one tick posted while running and none otherwise |
| AnimatorProperties.ApplyIteration | library/src/main/java/me/yugy/github/valueanimatorcompat/ValueAnimatorCompatImplEclairMr1.java:185-190 | for a counter below Integer.MAX_VALUE, an operation leaves it alone or adds exactly one, and only a tick can add |
| AnimatorProperties.RunIterationNeverDecreases | library/src/main/java/me/yugy/github/valueanimatorcompat/ValueAnimatorCompatImplEclairMr1.java:37 | no sequence of operations lowers or resets the counter, and n operations raise it by at most n |
| AnimatorProperties.CyclesRepeatCount | library/src/main/java/me/yugy/github/valueanimatorcompat/ValueAnimatorCompatImplEclairMr1.java:187-190 | k repetitions make k OnRepeat calls and no OnEnd |
| AnimatorProperties.FiniteRestartRun | library/src/main/java/me/yugy/github/valueanimatorcompat/ValueAnimatorCompatImplEclairMr1.java:183-197 | finite count N in RESTART mode from iteration i: the overdue ticks make N + 1 - i (OnUpdate, OnRepeat) pairs, then OnUpdate, OnEnd; the counter ends at N + 1 and nothing stays posted |
| AnimatorProperties.StoppedIgnoresTicks | library/src/main/java/me/yugy/github/valueanimatorcompat/ValueAnimatorCompatImplEclairMr1.java:137 | a stopped animator with nothing posted is left equal by any sequence of ticks |
| AnimatorProperties.FiniteRestartAnySchedule | library/src/main/java/me/yugy/github/valueanimatorcompat/ValueAnimatorCompatImplEclairMr1.java:183-204 | finite count N in RESTART mode from iteration i <= N + 1, any mix of on-time and overdue ticks: the counter rises by the number of OnRepeat calls and stays within N + 1; no OnEnd while running; once stopped, counter N + 1, nothing posted, a single OnEnd as the last call |
| AnimatorProperties.FiniteRestartRepeatsBeforeEnd | library/src/main/java/me/yugy/github/valueanimatorcompat/ValueAnimatorCompatImplEclairMr1.java:185-195 | from iteration 0 with count N, any schedule of ticks that stops the animator made exactly N + 1 OnRepeat calls and a single OnEnd, which came last |
| AnimatorProperties.FiniteRestartRepeatCount | library/src/main/java/me/yugy/github/valueanimatorcompat/ValueAnimatorCompatImplEclairMr1.java:185 | from iteration 0 with count N, N + 2 overdue ticks do stop the animator, with exactly N + 1 OnRepeat calls and one OnEnd, which comes last |
| AnimatorProperties.InfiniteRestartNeverEnds | library/src/main/java/me/yugy/github/valueanimatorcompat/ValueAnimatorCompatImplEclairMr1.java:184 | with count INFINITE in RESTART mode no sequence of ticks stops the animator; they call only OnUpdate and OnRepeat |
| AnimatorProperties.ExhaustedCountStaysExhausted | library/src/main/java/me/yugy/github/valueanimatorcompat/ValueAnimatorCompatImplEclairMr1.java:77-78 | start() does not reset the counter, so after a used-up finite count, when the first tick after start() is already overdue, it ends the run with the counter unchanged |
| AnimatorProperties.NoRepeatTicks | library/src/main/java/me/yugy/github/valueanimatorcompat/ValueAnimatorCompatImplEclairMr1.java:183-193 | with a finite count below the iteration counter, any sequence of ticks keeps the counter and the count, only appends to the calls, and appends no OnRepeat |
| AnimatorProperties.ExhaustedRunNeverRepeats | library/src/main/java/me/yugy/github/valueanimatorcompat/ValueAnimatorCompatImplEclairMr1.java:77-78 | start() does not reset the counter, so after a used-up finite count the run it starts makes no OnRepeat and keeps the counter, whatever ticks follow |
| AnimatorProperties.RunTicksPreservesValid | library/src/main/java/me/yugy/github/valueanimatorcompat/ValueAnimatorCompatImplEclairMr1.java:169-204 | any sequence of ticks from a valid state keeps one tick posted while running and none otherwise |
| AnimatorProperties.ExhaustedRunEndsAtFirstOverdue | library/src/main/java/me/yugy/github/valueanimatorcompat/ValueAnimatorCompatImplEclairMr1.java:183-197 | after start() on a used-up finite count and any ticks that leave it running, the first overdue tick stops it, posts nothing, keeps the counter and calls OnUpdate then OnEnd |
| AnimatorProperties.QuietUntilStart | library/src/main/java/me/yugy/github/valueanimatorcompat/ValueAnimatorCompatImplEclairMr1.java:137 | a stopped animator with nothing posted makes no call but OnCancel until the next start() |
| AnimatorProperties.CancelSilencesUntilStart | library/src/main/java/me/yugy/github/valueanimatorcompat/ValueAnimatorCompatImplEclairMr1.java:135-142 | after cancel(), whatever the state before, no OnUpdate, OnRepeat or OnEnd is ever made before the next start() |
| Scenarios.CancelBeforeFirstTick | library/src/main/java/me/yugy/github/valueanimatorcompat/ValueAnimatorCompatImplEclairMr1.java:67-142 | cancel() right after start(): stopped, nothing posted, calls are OnStart then OnCancel |
| Scenarios.EndAfterOneTick | library/src/main/java/me/yugy/github/valueanimatorcompat/ValueAnimatorCompatImplEclairMr1.java:150-183 | start, an early tick, then end(): stopped, fraction exactly One, calls OnStart, OnUpdate, OnUpdate, OnEnd |
| Scenarios.NaturalEnd | library/src/main/java/me/yugy/github/valueanimatorcompat/ValueAnimatorCompatImplEclairMr1.java:168-197 | with default settings one overdue tick ends the animation, leaving the AccelerateDecelerate fraction for elapsed 250 of 200 |

## Left out

- `ValueAnimatorCompatImplHoneycombMr1`: the native-engine variant. Every method forwards to `android.animation.ValueAnimator` and has no logic of its own.
- `lerp`, `getAnimatedIntValue`, `getAnimatedFloatValue`, `setIntValues`, `setFloatValues` (lines 22-23, 107-127, 216-223): float arithmetic and `Math.round`. The only readers of the stored values are the float `lerp` helpers.
- The float value of the fraction: `elapsed / (float) mDuration` and the interpolator's curve are kept as symbolic `Fraction` terms and not evaluated. So the model does not decide whether an `Eased` value happens to equal 1.
- `HANDLER_DELAY`: the 10 ms delay of each post. When a tick is delivered is decided by the environment, which supplies the clock readings.
- The Android `Handler`, `Looper` and `SystemClock`: replaced by the tick count and the clock parameters described above.
- Listener re-entrancy: listeners are recorded, and never call back into the animator.
- The identity of listener and interpolator objects: reduced to "attached or not" and to a `Custom(id)` tag.
- RunIterationNeverDecreases: holds only while the counter cannot pass Integer.MAX_VALUE, because Java's `int` wraps (see LargestRepeatCountWraps).
