# Mindful session runtime, in Dafny

A model of the page component of a small meditation and breathing timer
(`app/page.tsx`). The page offers a fixed catalog of sessions. Choosing one starts
a run: a countdown of the session's minutes, a play/pause toggle, a stop button,
and, for breathing sessions, a four-phase breathing cycle (inhale, hold, exhale,
pause) that advances every four seconds. The countdown is shown as `m:ss`.

The model is functional. The page's four state hooks (`activeSession`,
`timeLeft`, `isPlaying`, `breathPhase`) and the closure-local
`currentPhaseIndex` of the phase interval form one immutable `State` record.
Every handler and every interval firing is a pure function on that record.

- `options.dfy`: `Option`, standing for `Session | null`.
- `catalog.dfy` (module `Catalog`): the `Session` record, the six catalog entries, and the catalog invariants.
- `breath.dfy` (module `Breath`): the phases, the phase array the timer indexes, and the captions.
- `decimal.dfy` (module `Decimal`): integer `toString` and the reading of numerals back.
- `time_format.dfy` (module `TimeFormat`): `formatTime` with JavaScript's `Math.floor`, `%` and `padStart` written out. It also has a parser for the display, used for the round-trip.
- `runtime.dfy` (module `Runtime`): the state, the events, the transitions, and which events the page makes available.
- `runtime_properties.dfy` (module `RuntimeProperties`): lemmas over single events and event sequences.

## How the timers are modelled

The two `setInterval` timers are not modelled as time. Each firing is a discrete
event: `Tick` for the countdown and `AdvancePhase` for the breathing cycle.
`Run` applies any sequence of events in order, so every interleaving of user
actions and firings is covered.

- The countdown effect depends on `[isPlaying, timeLeft]`. Every change to
  either value clears its interval and arms a new one only if
  `isPlaying && timeLeft > 0` holds, so the interval exists exactly while that
  guard holds (`CountdownArmed`). The callback reads the latest value through
  the updater, so `Tick` needs no closure state. A `Tick` outside the guard
  leaves the state unchanged.
- The phase callback keeps `currentPhaseIndex` in its closure. This is the
  `phaseTimer` field: `Disarmed`, or `Armed(index)`. React re-runs the phase
  effect whenever `isPlaying` or `activeSession` changes. On a re-run the old
  interval is cleared. If the guard holds, a new interval starts at index 0.
  `Commit` applies this after every transition.
- React compares `activeSession` by object identity. The model compares it with
  datatype equality instead. The two agree on the catalog because its entries
  are pairwise distinct.
- Starting the session that is already playing changes neither dependency. The
  phase interval then keeps its index. The picker is hidden while a session is
  active, so the page itself never does this.

Three consequences of the code are easy to miss:

- **Resuming the breathing cycle.** Resuming re-runs the phase effect, which
  restarts its index at 0. The frozen phase stays on screen until the first
  firing, and that firing shows "hold", not the successor of the frozen phase
  (`FirstAdvanceAfterRearm`, `ResumeRestartsCycle`).
- **Toggling with no session.** The handler flips `isPlaying` unconditionally.
  Its button is rendered only with an active session, so `Available` offers
  the event only then.
- **Breathing after the countdown ends.** The final tick clears `isPlaying`,
  which also stops the phase interval. The cycle runs on at 0:00 only if play
  is pressed again (`TicksCountDown`, `PlayAfterFinish`).

## Model

| member | source | states |
|---|---|---|
| Catalog.CatalogWellFormed | app/page.tsx:14-21 | catalog ids are pairwise distinct (as a quantified fact and by the recursive `DistinctIds` check) and every duration is positive |
| Breath.IndexOf | app/page.tsx:50 | every phase sits at some position of the phase array |
| Breath.IndexStepIsNextPhase | app/page.tsx:50-55 | the timer's step `(i + 1) % 4` over the phase array is the cycle inhale, hold, exhale, pause, inhale |
| Breath.PhaseText | app/page.tsx:87-94 | the caption is defined for all four phases and reads back to its phase |
| Breath.PhaseTextInjective | app/page.tsx:87-94 | distinct phases get distinct captions |
| Decimal.IntToString | app/page.tsx:84 | an integer's `toString` starts with '-' exactly when it is negative, and the rest is the canonical numeral reading back to its magnitude |
| Decimal.NatToString | app/page.tsx:84 | an integer's numeral is non-empty, all digits, and has no leading zero except for "0" |
| Decimal.ParseNatToString | app/page.tsx:84 | reading a numeral back gives the number it was written from |
| Decimal.NatToStringParse | app/page.tsx:84 | every canonical numeral is the numeral of its value |
| TimeFormat.WholeMinutes | app/page.tsx:82 | `Math.floor(seconds / 60)` is the unique q with 60q <= seconds < 60q + 60 |
| TimeFormat.LeftoverSeconds | app/page.tsx:83 | JavaScript's `seconds % 60` has the dividend's sign, magnitude below 60, and differs from seconds by a multiple of 60 |
| TimeFormat.PadStart | app/page.tsx:84 | `padStart` gives length max(len, width) |
| TimeFormat.PadStartSpec | app/page.tsx:84 | `padStart` keeps the string as a suffix and fills only on the left, with the fill character |
| TimeFormat.FormatTime | app/page.tsx:81-85 | for seconds >= 0 the display is the unpadded minute numeral of `seconds / 60`, a colon, and exactly two digits for `seconds % 60` |
| TimeFormat.FormatTimeRoundTrip | app/page.tsx:81-85 | a non-negative count is recovered from its display |
| TimeFormat.ParseTimeRoundTrip | app/page.tsx:81-85 | every well-formed `m:ss` display is the display of the count it reads as |
| TimeFormat.FormatTimeInjective | app/page.tsx:81-85 | distinct non-negative counts have distinct displays |
| TimeFormat.FormatSixtyFive | app/page.tsx:81-85 | 65 seconds shows as "1:05" |
| TimeFormat.FormatFive | app/page.tsx:81-85 | 5 seconds shows as "0:05" |
| TimeFormat.FormatMinusFive | app/page.tsx:81-85 | -5 seconds shows as "-1:-5" under JavaScript's floor and remainder |
| Runtime.CountdownArmed | app/page.tsx:32 | the countdown effect's guard `isPlaying && timeLeft > 0`; no contract of its own, it is the guard in `CountdownTick`'s contract |
| Runtime.BreathingActive | app/page.tsx:49 | the phase effect's guard, playing a breathing session; no contract of its own, it is the guard in `FreshTimer`'s and `Commit`'s contracts |
| Runtime.PhaseDepsChanged | app/page.tsx:61 | the phase effect's dependency array `[isPlaying, activeSession]` changed; no contract of its own, it selects the cases of `Commit`'s contract |
| Runtime.FreshTimer | app/page.tsx:49-53 | a fresh run of the phase effect arms an interval exactly when its guard holds, with the closure index at 0 |
| Runtime.Commit | app/page.tsx:48-61 | committing a transition changes no hook; when a dependency changed the interval is re-armed at index 0 exactly when the guard holds, otherwise the old interval keeps its index; the timer stays consistent with its guard |
| Runtime.Available | app/page.tsx:96-194 | which events can occur: the picker only with no session, toggle and stop only with one, each interval only while armed; no contract of its own, it is the premise of `StepKeepsInvariant` |
| Runtime.StartSession | app/page.tsx:63-68 | sets the session, `duration * 60` seconds, playing, inhale, whatever the prior state; re-arms the phase interval at index 0 for a breathing session when a dependency changed |
| Runtime.TogglePlay | app/page.tsx:70-72 | flips `isPlaying`, changes no other hook, and always re-runs the phase effect |
| Runtime.StopSession | app/page.tsx:74-79 | yields the mount values of all four hooks; from a consistent state no phase interval is left running |
| Runtime.CountdownTick | app/page.tsx:31-40 | fires only when playing with time left; takes one second off above 1; at 1 goes to 0 and stops playing; never goes below 0; session and phase unchanged |
| Runtime.AdvanceBreath | app/page.tsx:48-56 | fires only while the phase interval is armed; index becomes (index + 1) mod 4 and the phase becomes that entry; no other hook changes |
| RuntimeProperties.StepKeepsTimerConsistent | app/page.tsx:48-61 | after any transition the phase interval is armed exactly while playing a breathing session |
| RuntimeProperties.RunKeepsTimerConsistent | app/page.tsx:48-61 | the same holds after any event sequence |
| RuntimeProperties.StepKeepsInvariant | app/page.tsx:24-79 | an event the page offers preserves the invariant (an over-approximation of reachability): time left between 0 and the session's length, idle only as the mount state |
| RuntimeProperties.AvailableRunsKeepInvariant | app/page.tsx:24-79 | every sequence of offered events preserves that invariant, so it holds in every state reached from mount |
| RuntimeProperties.InitialSatisfiesInvariant | app/page.tsx:24-27 | the mount state satisfies the invariant |
| RuntimeProperties.InvariantDisplayRoundTrip | app/page.tsx:123-125 | in every state satisfying the invariant, the countdown on screen reads back to the seconds left |
| RuntimeProperties.TicksCountDown | app/page.tsx:31-40 | n ticks with at least n seconds left take off exactly n; playing and the phase interval stop only with the last second |
| RuntimeProperties.TicksWhileDisarmed | app/page.tsx:32 | ticks change nothing once the countdown guard fails |
| RuntimeProperties.StartThenTicks | app/page.tsx:32-40 | after start and n <= duration*60 ticks, duration*60 - n seconds are left on the same session |
| RuntimeProperties.NoAutoReturnToIdle | app/page.tsx:32-40 | after duration*60 or more ticks the time is 0, playing is off, and the session is still active |
| RuntimeProperties.RunAppend | app/page.tsx:31-61 | running two event sequences in turn is running their concatenation |
| RuntimeProperties.DeepBreathingScenario | app/page.tsx:16 | the five-minute "Deep Breathing" session is finished by 300 ticks |
| RuntimeProperties.StartForgetsPast | app/page.tsx:63-68 | starting from the picker gives the same state whatever came before |
| RuntimeProperties.StopYieldsInitial | app/page.tsx:74-79 | stopping any consistent state gives exactly the mount state |
| RuntimeProperties.ToggleTwice | app/page.tsx:70-72 | two toggles restore every hook; the phase interval returns at index 0 |
| RuntimeProperties.AdvanceFollowsCycle | app/page.tsx:54-55 | once the interval has set the phase, each firing moves to the next phase of the cycle |
| RuntimeProperties.FourAdvancesCycle | app/page.tsx:54-55 | four firings restore the index, and the whole state once the interval has set the phase |
| RuntimeProperties.TicksKeepOrClearTimer | app/page.tsx:32-46 | countdown ticks never re-arm the phase interval: they keep it as it was or clear it with the last second |
| RuntimeProperties.FirstAdvanceAfterRearm | app/page.tsx:41-61 | the first phase firing after a start or a resume shows "hold", after any number of countdown ticks in between |
| RuntimeProperties.ResumeRestartsCycle | app/page.tsx:51-61 | resuming with "exhale" frozen moves to "hold" on the first firing, not to "pause" |
| RuntimeProperties.PlayAfterFinish | app/page.tsx:32-61 | pressing play at 0:00 leaves the countdown idle but restarts the phase cycle of a breathing session |

## Left out

- Rendering: the JSX, CSS classes, captions of buttons, and the icon and colour choice (app/page.tsx:96-204). The model keeps only which controls are on screen, through `Available`.
- The "Daily Streak" and "Total Time" figures (app/page.tsx:159-164) are fixed text with no logic.
- Real time: the 1000 ms and 4000 ms periods, the interval handles in `useRef` (app/page.tsx:28-29), and the `setInterval`/`clearInterval` calls. They are replaced by the `Tick`/`AdvancePhase` events and the `phaseTimer` field.
- React's scheduling: batching, render timing and effect ordering. Each handler's writes are committed together, and the effects are then evaluated against the committed values.
- Number magnitude: `timeLeft` and `seconds` are unbounded integers. JavaScript numbers are doubles, so `toString` writes 1e21 and above in exponent form, and above 2^53 `seconds / 60` is rounded before `Math.floor`. `FormatTime`, `IntToString` and `WholeMinutes` match JavaScript only below those bounds. States satisfying the invariant never exceed 1200 seconds.
- Floating point: `duration` and `timeLeft` are integers. JavaScript numbers with a fractional part, `NaN` and `-0` are not modelled. For `-0` the display is the same.
- Layout metadata and build configuration (app/layout.tsx, tailwind.config.ts) hold no behaviour.
