/**
 The four breathing phases, the order in which the phase timer steps through
 them (app/page.tsx:50, 54-55) and their on-screen captions (app/page.tsx:87-94).
 */
module Breath {
  import opened Options

  datatype Phase = Inhale | Hold | Exhale | Pause

  /** The phase array the timer indexes into. */
  const Phases: seq<Phase> := [Inhale, Hold, Exhale, Pause]

  /** The breathing cycle: inhale, hold, exhale, pause, and around again. */
  function NextPhase(p: Phase): Phase {
    match p
    case Inhale => Hold
    case Hold => Exhale
    case Exhale => Pause
    case Pause => Inhale
  }

  /** The position of `p` in `Phases`. */
  function IndexOf(p: Phase): (i: nat)
    ensures i < |Phases| && Phases[i] == p
  {
    match p
    case Inhale => 0
    case Hold => 1
    case Exhale => 2
    case Pause => 3
  }

  /** The timer's step `(i + 1) % 4` over `Phases` is the breathing cycle. */
  lemma IndexStepIsNextPhase(i: nat)
    requires i < |Phases|
    ensures Phases[(i + 1) % |Phases|] == NextPhase(Phases[i])
  {
  }

  /** Reads a caption back into its phase; `None` for any other text. */
  function PhaseFromText(t: string): Option<Phase> {
    if t == "Breathe In" then Some(Inhale)
    else if t == "Hold" then Some(Hold)
    else if t == "Breathe Out" then Some(Exhale)
    else if t == "Pause" then Some(Pause)
    else None
  }

  /** The caption shown for a phase: defined for all four phases, and it identifies the phase. */
  function PhaseText(p: Phase): (t: string)
    ensures PhaseFromText(t) == Some(p)
  {
    match p
    case Inhale => "Breathe In"
    case Hold => "Hold"
    case Exhale => "Breathe Out"
    case Pause => "Pause"
  }

  /** Distinct phases get distinct captions. */
  lemma PhaseTextInjective(p: Phase, q: Phase)
    ensures PhaseText(p) == PhaseText(q) ==> p == q
  {
    assert PhaseFromText(PhaseText(p)) == Some(p);
    assert PhaseFromText(PhaseText(q)) == Some(q);
  }

}
