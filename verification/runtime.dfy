/**
 The session runtime of the page component (app/page.tsx:23-79): the four state
 hooks, the closure state of the breathing-phase interval, the user's handlers
 and the two interval callbacks, each as a pure function on one record.

 The intervals are not modelled as time. Each firing is an event (`Tick`,
 `AdvancePhase`) that can occur exactly while its effect has an interval armed.
 The countdown effect depends on `[isPlaying, timeLeft]`: every change to
 either clears its interval and arms a new one only if the guard holds, so its
 interval is armed exactly while that guard holds. Its callback reads the
 latest value through the updater, so `Tick` needs no closure state.
 The phase callback keeps `currentPhaseIndex` in its closure: that is
 `phaseTimer`, which restarts at index 0 whenever the effect re-runs, that is,
 whenever a transition changes `isPlaying` or `activeSession`.
 */
module Runtime {
  import opened Options
  import opened Catalog
  import opened Breath

  /** The breathing-phase interval: none, or one whose closure holds `currentPhaseIndex`. */
  datatype PhaseTimer = Disarmed | Armed(index: nat)

  datatype State = State(
    activeSession: Option<Session>,
    timeLeft: int,
    isPlaying: bool,
    breathPhase: Phase,
    phaseTimer: PhaseTimer)

  /** A user action or an interval firing. */
  datatype Event = Start(session: Session) | TogglePlayPause | Stop | Tick | AdvancePhase

  /** The state on mount: the initial values of the four hooks, no interval armed. */
  const Initial: State := State(None, 0, false, Inhale, Disarmed)

  /** The four hook values agree; the phase interval's closure may differ. */
  predicate SameHooks(a: State, b: State) {
    a.activeSession == b.activeSession && a.timeLeft == b.timeLeft
    && a.isPlaying == b.isPlaying && a.breathPhase == b.breathPhase
  }

  /** Guard of the countdown effect (app/page.tsx:32). */
  predicate CountdownArmed(st: State) {
    st.isPlaying && st.timeLeft > 0
  }

  /** Guard of the phase effect (app/page.tsx:49): playing a breathing session. */
  predicate BreathingActive(st: State) {
    st.isPlaying && st.activeSession.Some? && st.activeSession.value.kind == Breathing
  }

  /** The phase interval a fresh run of the phase effect leaves behind. */
  function FreshTimer(st: State): (t: PhaseTimer)
    ensures t.Armed? <==> BreathingActive(st)
    ensures t.Armed? ==> t.index == 0
  {
    if BreathingActive(st) then Armed(0) else Disarmed
  }

  /** The phase effect's dependencies `[isPlaying, activeSession]` changed between two states. */
  predicate PhaseDepsChanged(before: State, after: State) {
    before.isPlaying != after.isPlaying || before.activeSession != after.activeSession
  }

  /**
   Commits a handler's batched writes: if they changed a dependency of the phase
   effect, its cleanup clears the old interval and it re-runs against the new
   values; otherwise the old interval keeps running with its index.
   */
  function Commit(before: State, after: State): (r: State)
    ensures SameHooks(r, after)
    ensures PhaseDepsChanged(before, after) ==> (r.phaseTimer.Armed? <==> BreathingActive(after))
    ensures PhaseDepsChanged(before, after) && r.phaseTimer.Armed? ==> r.phaseTimer.index == 0
    ensures !PhaseDepsChanged(before, after) ==> r.phaseTimer == after.phaseTimer
    ensures TimerConsistent(before) && after.phaseTimer == before.phaseTimer ==> TimerConsistent(r)
  {
    if PhaseDepsChanged(before, after) then after.(phaseTimer := FreshTimer(after)) else after
  }

  /** `startSession(session)`: a fresh run of `session`, whatever ran before. */
  function StartSession(st: State, s: Session): (r: State)
    ensures r.activeSession == Some(s)
    ensures r.timeLeft == s.duration * 60
    ensures r.isPlaying
    ensures r.breathPhase == Inhale
    ensures PhaseDepsChanged(st, r) ==> r.phaseTimer == (if s.kind == Breathing then Armed(0) else Disarmed)
    ensures !PhaseDepsChanged(st, r) ==> r.phaseTimer == st.phaseTimer
  {
    Commit(st, st.(activeSession := Some(s), timeLeft := s.duration * 60, isPlaying := true, breathPhase := Inhale))
  }

  /** `togglePlayPause()`: flips `isPlaying`, and so always re-runs the phase effect. */
  function TogglePlay(st: State): (r: State)
    ensures r.isPlaying == !st.isPlaying
    ensures r.activeSession == st.activeSession && r.timeLeft == st.timeLeft && r.breathPhase == st.breathPhase
    ensures r.phaseTimer == (if BreathingActive(r) then Armed(0) else Disarmed)
  {
    Commit(st, st.(isPlaying := !st.isPlaying))
  }

  /** `stopSession()`: back to the hook values of the mount state. */
  function StopSession(st: State): (r: State)
    ensures SameHooks(r, Initial)
    ensures !BreathingActive(r)
    ensures r.phaseTimer == Disarmed || r.phaseTimer == st.phaseTimer
    ensures TimerConsistent(st) ==> r.phaseTimer == Disarmed
  {
    Commit(st, State(None, 0, false, Inhale, st.phaseTimer))
  }

  /**
   One firing of the countdown interval (the updater at app/page.tsx:34-40),
   which exists only while the guard at app/page.tsx:32 holds.
   */
  function CountdownTick(st: State): (r: State)
    ensures !CountdownArmed(st) ==> r == st
    ensures CountdownArmed(st) && st.timeLeft > 1 ==> r == st.(timeLeft := st.timeLeft - 1)
    ensures CountdownArmed(st) && st.timeLeft <= 1 ==>
      && r.timeLeft == 0 && !r.isPlaying && r.phaseTimer == Disarmed
      && r.activeSession == st.activeSession && r.breathPhase == st.breathPhase
    ensures st.timeLeft >= 0 ==> 0 <= r.timeLeft <= st.timeLeft
  {
    if !CountdownArmed(st) then st
    else if st.timeLeft <= 1 then Commit(st, st.(timeLeft := 0, isPlaying := false))
    else st.(timeLeft := st.timeLeft - 1)
  }

  /**
   One firing of the phase interval (app/page.tsx:54-55), which exists only
   while the phase effect has one armed.
   */
  function AdvanceBreath(st: State): (r: State)
    ensures st.phaseTimer.Disarmed? ==> r == st
    ensures st.phaseTimer.Armed? ==>
      && r.phaseTimer == Armed((st.phaseTimer.index + 1) % |Phases|)
      && r.breathPhase == Phases[r.phaseTimer.index]
      && r.activeSession == st.activeSession && r.timeLeft == st.timeLeft && r.isPlaying == st.isPlaying
  {
    match st.phaseTimer
    case Disarmed => st
    case Armed(i) =>
      var j := (i + 1) % |Phases|;
      st.(breathPhase := Phases[j], phaseTimer := Armed(j))
  }

  function Step(st: State, e: Event): State {
    match e
    case Start(s) => StartSession(st, s)
    case TogglePlayPause => TogglePlay(st)
    case Stop => StopSession(st)
    case Tick => CountdownTick(st)
    case AdvancePhase => AdvanceBreath(st)
  }

  /** The state after a sequence of events, in order. */
  function Run(st: State, es: seq<Event>): State
    decreases |es|
  {
    if |es| == 0 then st else Run(Step(st, es[0]), es[1..])
  }

  /**
   Whether an event can occur: the picker (app/page.tsx:173-194, choosing a
   catalog entry) is shown only with no active session, the toggle and stop
   buttons (app/page.tsx:96-144) only with one, and each interval fires only
   while armed.
   */
  predicate Available(st: State, e: Event) {
    match e
    case Start(s) => st.activeSession.None? && s in Sessions
    case TogglePlayPause => st.activeSession.Some?
    case Stop => st.activeSession.Some?
    case Tick => CountdownArmed(st)
    case AdvancePhase => st.phaseTimer.Armed?
  }

  /** Every event of `es` is available in the state it is applied to. */
  predicate AllAvailable(st: State, es: seq<Event>)
    decreases |es|
  {
    |es| == 0 || (Available(st, es[0]) && AllAvailable(Step(st, es[0]), es[1..]))
  }

  /** The phase interval is armed exactly while the phase effect's guard holds, with an index into `Phases`. */
  predicate TimerConsistent(st: State) {
    (st.phaseTimer.Armed? <==> BreathingActive(st))
    && (st.phaseTimer.Armed? ==> st.phaseTimer.index < |Phases|)
  }

  /**
   An inductive invariant that every state the page can reach from mount
   satisfies. It over-approximates reachability: it does not, for example, tie
   the phase shown to the session's kind.
   */
  predicate Invariant(st: State) {
    && TimerConsistent(st)
    && st.timeLeft >= 0
    && (st.activeSession.None? ==> st == Initial)
    && (st.activeSession.Some? ==>
          st.activeSession.value in Sessions && st.timeLeft <= st.activeSession.value.duration * 60)
  }

  /** `n` copies of one event. */
  function Repeat(e: Event, n: nat): (es: seq<Event>)
    ensures |es| == n && forall i :: 0 <= i < n ==> es[i] == e
  {
    seq(n, _ => e)
  }

}
