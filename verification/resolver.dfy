/** Periodic resolution of a channel's observation window into a status. */
module Resolver {
  import opened Types

  /** The status of a window: more than one blink is Blinking whatever the
      signal; otherwise a Low (light) signal is Activated and a High one is
      Desactivated. Unknown is never produced. */
  function Classify(blinks: nat, signal: Level): (s: Status)
    ensures s != Unknown
    ensures s == Blinking <==> blinks > 1
    ensures s == Activated <==> blinks <= 1 && signal == Low
    ensures s == Desactivated <==> blinks <= 1 && signal == High
  {
    if blinks > 1 then Blinking
    else if signal == Low then Activated
    else assert signal.High?; Desactivated
  }

  /** The status a channel resolves to at the end of its window. */
  function Resolved(c: Channel): Status
  {
    Classify(c.blinks, c.signal)
  }

  /** A single edge in a window never reads as blinking: the status then only
      depends on where the signal ended. */
  lemma SingleEdgeIsSteady(signal: Level)
    ensures Classify(1, signal) == (if signal == Low then Activated else Desactivated)
    ensures Classify(0, signal) == Classify(1, signal)
  {
  }
}
