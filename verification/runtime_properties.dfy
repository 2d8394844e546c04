/**
 Properties of the session runtime over single events and event sequences.
 */
module RuntimeProperties {
  import opened Options
  import opened Catalog
  import opened Breath
  import opened TimeFormat
  import opened Runtime

  /** Running `e` first and then `es` is stepping by `e` and running `es`. */
  lemma RunCons(st: State, e: Event, es: seq<Event>)
    ensures Run(st, [e] + es) == Run(Step(st, e), es)
  {
    assert ([e] + es)[1..] == es;
  }

  /** Every transition keeps the phase interval in step with the phase effect's guard. */
  lemma StepKeepsTimerConsistent(st: State, e: Event)
    requires TimerConsistent(st)
    ensures TimerConsistent(Step(st, e))
  {
  }

  /** Any sequence of events keeps the phase interval in step with its guard. */
  lemma {:induction false} RunKeepsTimerConsistent(st: State, es: seq<Event>)
    requires TimerConsistent(st)
    ensures TimerConsistent(Run(st, es))
    decreases |es|
  {
    if |es| > 0 {
      StepKeepsTimerConsistent(st, es[0]);
      RunKeepsTimerConsistent(Step(st, es[0]), es[1..]);
    }
  }

  /** An available event preserves the invariant. */
  lemma StepKeepsInvariant(st: State, e: Event)
    requires Invariant(st)
    requires Available(st, e)
    ensures Invariant(Step(st, e))
  {
    CatalogWellFormed();
    match e
    case Start(s) =>
      var i :| 0 <= i < |Sessions| && Sessions[i] == s;
      assert s.duration > 0;
    case _ =>
  }

  /** Every sequence of available events preserves the invariant; from mount, it holds throughout. */
  lemma {:induction false} AvailableRunsKeepInvariant(st: State, es: seq<Event>)
    requires Invariant(st)
    requires AllAvailable(st, es)
    ensures Invariant(Run(st, es))
    decreases |es|
  {
    if |es| > 0 {
      StepKeepsInvariant(st, es[0]);
      AvailableRunsKeepInvariant(Step(st, es[0]), es[1..]);
    }
  }

  /** The mount state satisfies the invariant. */
  lemma InitialSatisfiesInvariant()
    ensures Invariant(Initial)
  {
  }

  /** In every state satisfying the invariant, the countdown display reads back to the seconds left. */
  lemma InvariantDisplayRoundTrip(st: State)
    requires Invariant(st)
    ensures ParseTime(FormatTime(st.timeLeft)) == Some(st.timeLeft)
  {
    FormatTimeRoundTrip(st.timeLeft);
  }

  /**
   `n` uninterrupted ticks from a playing state with at least `n` seconds left
   take exactly `n` seconds off; playing stops with the last second, and only
   then is the phase interval cleared. The session and phase stay as they were.
   */
  lemma {:induction false} TicksCountDown(st: State, n: nat)
    requires st.isPlaying
    requires n <= st.timeLeft
    ensures Run(st, Repeat(Tick, n)).timeLeft == st.timeLeft - n
    ensures Run(st, Repeat(Tick, n)).isPlaying <==> n == 0 || n < st.timeLeft
    ensures Run(st, Repeat(Tick, n)).activeSession == st.activeSession
    ensures Run(st, Repeat(Tick, n)).breathPhase == st.breathPhase
    ensures n < st.timeLeft ==> Run(st, Repeat(Tick, n)).phaseTimer == st.phaseTimer
    ensures 0 < n == st.timeLeft ==> Run(st, Repeat(Tick, n)).phaseTimer == Disarmed
    decreases n
  {
    if n > 0 {
      assert Repeat(Tick, n) == [Tick] + Repeat(Tick, n - 1);
      RunCons(st, Tick, Repeat(Tick, n - 1));
      if st.timeLeft > 1 {
        TicksCountDown(CountdownTick(st), n - 1);
      }
    }
  }

  /** Ticks do nothing once the countdown's guard fails. */
  lemma {:induction false} TicksWhileDisarmed(st: State, n: nat)
    requires !CountdownArmed(st)
    ensures Run(st, Repeat(Tick, n)) == st
    decreases n
  {
    if n > 0 {
      assert Repeat(Tick, n) == [Tick] + Repeat(Tick, n - 1);
      RunCons(st, Tick, Repeat(Tick, n - 1));
      TicksWhileDisarmed(st, n - 1);
    }
  }

  /**
   Starting a session and letting `n` seconds tick, up to its length, leaves
   `duration * 60 - n` seconds, still on that session and still breathing in.
   */
  lemma StartThenTicks(st: State, s: Session, n: nat)
    requires n <= s.duration * 60
    ensures Run(st, [Start(s)] + Repeat(Tick, n)).timeLeft == s.duration * 60 - n
    ensures Run(st, [Start(s)] + Repeat(Tick, n)).activeSession == Some(s)
    ensures Run(st, [Start(s)] + Repeat(Tick, n)).breathPhase == Inhale
    ensures Run(st, [Start(s)] + Repeat(Tick, n)).isPlaying <==> n == 0 || n < s.duration * 60
  {
    RunCons(st, Start(s), Repeat(Tick, n));
    TicksCountDown(StartSession(st, s), n);
  }

  /**
   Once a session's time is used up the countdown stops at 0 and playing is
   off, but the session stays active: there is no return to the picker, however
   many more ticks are offered.
   */
  lemma NoAutoReturnToIdle(st: State, s: Session, m: nat)
    requires s.duration > 0
    requires m >= s.duration * 60
    ensures Run(st, [Start(s)] + Repeat(Tick, m)).timeLeft == 0
    ensures !Run(st, [Start(s)] + Repeat(Tick, m)).isPlaying
    ensures Run(st, [Start(s)] + Repeat(Tick, m)).activeSession == Some(s)
  {
    var d := s.duration * 60;
    var started := StartSession(st, s);
    RunCons(st, Start(s), Repeat(Tick, m));
    assert Repeat(Tick, m) == Repeat(Tick, d) + Repeat(Tick, m - d);
    RunAppend(started, Repeat(Tick, d), Repeat(Tick, m - d));
    TicksCountDown(started, d);
    TicksWhileDisarmed(Run(started, Repeat(Tick, d)), m - d);
  }

  /** Running two sequences one after the other is running their concatenation. */
  lemma {:induction false} RunAppend(st: State, a: seq<Event>, b: seq<Event>)
    ensures Run(st, a + b) == Run(Run(st, a), b)
    decreases |a|
  {
    if |a| == 0 {
      assert a + b == b;
    } else {
      assert (a + b)[0] == a[0] && (a + b)[1..] == a[1..] + b;
      RunAppend(Step(st, a[0]), a[1..], b);
    }
  }

  /** A five-minute breathing session ("Deep Breathing") is finished by 300 ticks. */
  lemma DeepBreathingScenario()
    ensures Sessions[1].kind == Breathing && Sessions[1].duration == 5
    ensures Run(Initial, [Start(Sessions[1])] + Repeat(Tick, 300)).timeLeft == 0
    ensures !Run(Initial, [Start(Sessions[1])] + Repeat(Tick, 300)).isPlaying
    ensures Run(Initial, [Start(Sessions[1])] + Repeat(Tick, 300)).activeSession == Some(Sessions[1])
  {
    StartThenTicks(Initial, Sessions[1], 300);
  }

  /** Starting from the picker gives the same state whatever ran before. */
  lemma StartForgetsPast(st1: State, st2: State, s: Session)
    requires st1.activeSession.None? && st2.activeSession.None?
    ensures StartSession(st1, s) == StartSession(st2, s)
  {
  }

  /** Stopping a consistent state gives exactly the mount state. */
  lemma StopYieldsInitial(st: State)
    requires TimerConsistent(st)
    ensures StopSession(st) == Initial
  {
  }

  /**
   Toggling twice restores every hook; the phase interval comes back freshly
   armed (index 0) if it runs at all, so its closure's index is not restored.
   */
  lemma ToggleTwice(st: State)
    ensures SameHooks(TogglePlay(TogglePlay(st)), st)
    ensures TogglePlay(TogglePlay(st)).phaseTimer == FreshTimer(st)
    ensures TimerConsistent(st) && (st.phaseTimer.Armed? ==> st.phaseTimer.index == 0)
            ==> TogglePlay(TogglePlay(st)) == st
  {
  }

  /** The phase on screen is the one the armed interval's index points at (true after every firing). */
  predicate InSync(st: State) {
    st.phaseTimer.Armed? ==> st.phaseTimer.index == IndexOf(st.breathPhase)
  }

  /** From a phase the interval has set itself, a firing moves to the next phase of the breathing cycle. */
  lemma AdvanceFollowsCycle(st: State)
    requires st.phaseTimer.Armed? && InSync(st)
    ensures AdvanceBreath(st).breathPhase == NextPhase(st.breathPhase)
    ensures InSync(AdvanceBreath(st))
  {
    IndexStepIsNextPhase(st.phaseTimer.index);
  }

  /** Four firings bring the interval's index back, and the phase too once the interval set it. */
  lemma FourAdvancesCycle(st: State)
    requires TimerConsistent(st)
    ensures Run(st, Repeat(AdvancePhase, 4)).phaseTimer == st.phaseTimer
    ensures InSync(st) ==> Run(st, Repeat(AdvancePhase, 4)) == st
  {
    var s1 := AdvanceBreath(st);
    var s2 := AdvanceBreath(s1);
    var s3 := AdvanceBreath(s2);
    var s4 := AdvanceBreath(s3);
    assert Repeat(AdvancePhase, 4)[1..] == Repeat(AdvancePhase, 3);
    assert Repeat(AdvancePhase, 3)[1..] == Repeat(AdvancePhase, 2);
    assert Repeat(AdvancePhase, 2)[1..] == Repeat(AdvancePhase, 1);
    assert Repeat(AdvancePhase, 1)[1..] == [];
    assert Run(s3, Repeat(AdvancePhase, 1)) == s4;
    assert Run(s2, Repeat(AdvancePhase, 2)) == s4;
    assert Run(s1, Repeat(AdvancePhase, 3)) == s4;
    assert Run(st, Repeat(AdvancePhase, 4)) == s4;
  }

  /** Ticks never re-arm the phase interval: they keep it, or clear it with the last second. */
  lemma {:induction false} TicksKeepOrClearTimer(st: State, n: nat)
    ensures Run(st, Repeat(Tick, n)).phaseTimer in {st.phaseTimer, Disarmed}
    decreases n
  {
    if n > 0 {
      assert Repeat(Tick, n) == [Tick] + Repeat(Tick, n - 1);
      RunCons(st, Tick, Repeat(Tick, n - 1));
      TicksKeepOrClearTimer(CountdownTick(st), n - 1);
    }
  }

  /**
   The first phase firing after a start or a resume always shows "hold", however
   many seconds ticked in between: the effect re-ran and restarted its index at
   0, whatever phase was frozen, and ticks do not move that index.
   */
  lemma FirstAdvanceAfterRearm(st: State, e: Event, n: nat)
    requires e.Start? || e.TogglePlayPause?
    requires Available(st, e)
    requires Run(Step(st, e), Repeat(Tick, n)).phaseTimer.Armed?
    ensures AdvanceBreath(Run(Step(st, e), Repeat(Tick, n))).breathPhase == Hold
  {
    TicksKeepOrClearTimer(Step(st, e), n);
  }

  /**
   Resuming a breathing session paused on "exhale" does not go on to "pause":
   the first firing after the resume shows "hold".
   */
  lemma ResumeRestartsCycle(s: Session)
    requires s.kind == Breathing
    ensures var paused := State(Some(s), 60, false, Exhale, Disarmed);
            var resumed := TogglePlay(paused);
            resumed.breathPhase == Exhale
            && AdvanceBreath(resumed).breathPhase == Hold
            && AdvanceBreath(resumed).breathPhase != NextPhase(Exhale)
  {
  }

  /**
   When the countdown finishes, playing stops and the phase interval goes with
   it. Pressing play again at 0:00 leaves the countdown idle but, on a breathing
   session, restarts the phase cycle, which then runs with no time left.
   */
  lemma PlayAfterFinish(st: State)
    requires Invariant(st)
    requires st.activeSession.Some? && st.timeLeft == 0 && !st.isPlaying
    ensures !CountdownArmed(TogglePlay(st))
    ensures CountdownTick(TogglePlay(st)) == TogglePlay(st)
    ensures st.activeSession.value.kind == Breathing <==> TogglePlay(st).phaseTimer == Armed(0)
  {
  }

}
