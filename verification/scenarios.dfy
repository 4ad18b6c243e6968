/** Worked runs of the monitor: classification of a few sampling windows, the
    operation channel's absorption of every other change, and threshold
    narrowing on reconfiguration. */
module Scenarios {
  import opened Types
  import opened EdgeCounter
  import opened Resolver
  import opened Reporter
  import opened Monitor

  /** A fresh channel with the default threshold of 70. */
  function FreshChannel(): Channel
  {
    Channel(70, High, 0, Unknown)
  }

  /** Levels that stay above the threshold: no edge, the LED is off. */
  lemma DarkWindowIsDesactivated()
    ensures SampleAll(FreshChannel(), [80, 80, 80]).blinks == 0
    ensures Resolved(SampleAll(FreshChannel(), [80, 80, 80])) == Desactivated
  {

  }

  /** Light that comes and goes twice: two edges, the LED is blinking. */
  lemma AlternatingWindowIsBlinking()
    ensures SampleAll(FreshChannel(), [60, 80, 60, 80]).blinks == 2
    ensures Resolved(SampleAll(FreshChannel(), [60, 80, 60, 80])) == Blinking
  {

  }

  /** Light that comes on once and stays: one edge is not a blink, the LED is
      steadily on. */
  lemma SingleEdgeWindowIsActivated()
    ensures SampleAll(FreshChannel(), [80, 80, 60, 60]).blinks == 1
    ensures Resolved(SampleAll(FreshChannel(), [80, 80, 60, 60])) == Activated
  {

  }

  /** From startup, the operation channel resolving Desactivated, then
      Activated twice, reports Activated at the second resolution: the first
      change is absorbed without updating the last reported status, so the
      second resolution still differs from Unknown. */
  lemma OperationStartupReportsSecondResolution()
    ensures Reported(OperationRun(Unknown, true, [Desactivated, Activated]).events, OPERATION_CHILD) == [Activated]
    ensures Reported(OperationRun(Unknown, true, [Desactivated, Activated, Activated]).events, OPERATION_CHILD) == [Activated]
  {

  }

  /** The two differing resolutions the operation channel needs before it
      reports need not be consecutive: an equal resolution in between does not
      re-arm the absorption. */
  lemma OperationDebounceIsNotConsecutive()
    ensures Reported(OperationRun(Activated, true, [Blinking, Activated, Blinking]).events, OPERATION_CHILD) == [Blinking]
  {

  }

  /** A received threshold of 150 is kept as 150, and 300 wraps to 44. */
  lemma ReceivedThresholdsAreTruncatedNotClamped(m: Monitor)
    requires Valid(m)
    ensures Receive(m, Message(Var1, BELL_CHILD, 150)).0.channels[BELL_CHILD].threshold == 150
    ensures Receive(m, Message(Var1, BELL_CHILD, 300)).0.channels[BELL_CHILD].threshold == 44
  {
  }
}
