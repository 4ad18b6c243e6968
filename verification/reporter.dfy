/** Change reporting and actuation: a resolved status is compared with the
    status last reported for its channel; on a change the channel's outputs are
    driven and the new status is sent to the gateway. The operation channel (0)
    additionally absorbs every other detected change through its skip flag. */
module Reporter {
  import opened Types

  // ---------------------------------------------------------------------------
  // Reading an event log

  /** The statuses one event sends for `child`. */
  function SentIn(e: Event, child: nat): seq<Status>
  {
    match e
    case Send(k, s) => if k == child then [s] else []
    case _ => []
  }

  /** The level of `pin` after event `e`, the pin having been at `level`. */
  function Drive(e: Event, pin: nat, level: Level): Level
  {
    match e
    case Write(p, l) => if p == pin then l else level
    case _ => level
  }

  /** The statuses sent for `child`, in order. */
  function Reported(events: seq<Event>, child: nat): seq<Status>
    decreases |events|
  {
    if |events| == 0 then [] else SentIn(events[0], child) + Reported(events[1..], child)
  }

  /** The level of `pin` after replaying the writes of `events` on a pin that
      was at `level`. */
  function PinLevel(events: seq<Event>, pin: nat, level: Level): Level
    decreases |events|
  {
    if |events| == 0 then level else PinLevel(events[1..], pin, Drive(events[0], pin, level))
  }

  lemma {:induction false} ReportedAppend(a: seq<Event>, b: seq<Event>, child: nat)
    ensures Reported(a + b, child) == Reported(a, child) + Reported(b, child)
    decreases |a|
  {
    if |a| > 0 {
      assert (a + b)[1..] == a[1..] + b;
      ReportedAppend(a[1..], b, child);
    } else {
      assert a + b == b;
    }
  }

  lemma {:induction false} PinLevelAppend(a: seq<Event>, b: seq<Event>, pin: nat, level: Level)
    ensures PinLevel(a + b, pin, level) == PinLevel(b, pin, PinLevel(a, pin, level))
    decreases |a|
  {
    if |a| > 0 {
      assert (a + b)[1..] == a[1..] + b;
      PinLevelAppend(a[1..], b, pin, Drive(a[0], pin, level));
    } else {
      assert a + b == b;
    }
  }

  lemma ReplayOne(a: Event)
    ensures forall child :: Reported([a], child) == SentIn(a, child)
    ensures forall pin, level :: PinLevel([a], pin, level) == Drive(a, pin, level)
  {
    assert [a][1..] == [];
  }

  lemma ReplayTwo(a: Event, b: Event)
    ensures forall child :: Reported([a, b], child) == SentIn(a, child) + SentIn(b, child)
    ensures forall pin, level :: PinLevel([a, b], pin, level) == Drive(b, pin, Drive(a, pin, level))
  {
    assert [a, b][1..] == [b];
    ReplayOne(b);
  }

  lemma ReplayThree(a: Event, b: Event, c: Event)
    ensures forall child :: Reported([a, b, c], child) == SentIn(a, child) + SentIn(b, child) + SentIn(c, child)
    ensures forall pin, level :: PinLevel([a, b, c], pin, level) == Drive(c, pin, Drive(b, pin, Drive(a, pin, level)))
  {
    assert [a, b, c][1..] == [b, c];
    ReplayTwo(b, c);
  }

  // ---------------------------------------------------------------------------
  // Actuation

  /** The level an indicator pin is driven to: High unless Desactivated. */
  function IndicatorLevel(status: Status): Level
  {
    if status != Desactivated then High else Low
  }

  /** The writes for a reported operation status: both outputs are first
      released (High), then Partial is pulled Low for Blinking or Full for
      Activated; any other status leaves both released. */
  function OperationActuation(status: Status): (events: seq<Event>)
    ensures 2 <= |events| <= 3
    ensures events[..2] == [Write(OPERATION_FULL_LED_PIN, High), Write(OPERATION_PARTIAL_LED_PIN, High)]
    ensures forall x :: PinLevel(events, OPERATION_PARTIAL_LED_PIN, x) == (if status == Blinking then Low else High)
    ensures forall x :: PinLevel(events, OPERATION_FULL_LED_PIN, x) == (if status == Activated then Low else High)
    ensures forall p, x :: p != OPERATION_FULL_LED_PIN && p != OPERATION_PARTIAL_LED_PIN ==> PinLevel(events, p, x) == x
    ensures forall k :: Reported(events, k) == []
  {
    var releaseFull := Write(OPERATION_FULL_LED_PIN, High);
    var releasePartial := Write(OPERATION_PARTIAL_LED_PIN, High);
    match status
    case Blinking =>
      ReplayThree(releaseFull, releasePartial, Write(OPERATION_PARTIAL_LED_PIN, Low));
      [releaseFull, releasePartial, Write(OPERATION_PARTIAL_LED_PIN, Low)]
    case Activated =>
      ReplayThree(releaseFull, releasePartial, Write(OPERATION_FULL_LED_PIN, Low));
      [releaseFull, releasePartial, Write(OPERATION_FULL_LED_PIN, Low)]
    case _ =>
      ReplayTwo(releaseFull, releasePartial);
      [releaseFull, releasePartial]
  }

  /** The two operation outputs are never both active (Low) while a report is
      being actuated: not after its first write, whatever they were before,
      and not after any later one. */
  lemma OperationOutputsExclusive(status: Status, full: Level, partial: Level)
    ensures var events := OperationActuation(status);
            forall n :: 0 < n <= |events| ==>
              !(PinLevel(events[..n], OPERATION_FULL_LED_PIN, full) == Low
                && PinLevel(events[..n], OPERATION_PARTIAL_LED_PIN, partial) == Low)
  {
    var events := OperationActuation(status);
    var release := events[..2];
    ReplayTwo(release[0], release[1]);
    assert events[..1] == [release[0]];
    ReplayOne(release[0]);
    if |events| == 3 {
      assert events[..3] == events;
    }
  }

  // ---------------------------------------------------------------------------
  // Reporting one resolution

  /** What an indicator channel keeps after a resolution, and what it emits. */
  datatype Outcome = Outcome(last: Status, events: seq<Event>)

  /** An indicator channel (Trigger, Bell, Maintenance) reports every change. */
  function ReportIndicator(child: nat, status: Status, last: Status): (o: Outcome)
    requires TRIGGER_CHILD <= child < SENSORS
    ensures o.last == status
    ensures o.events == [] <==> status == last
    ensures Reported(o.events, child) == (if status != last then [status] else [])
    ensures forall k :: k != child ==> Reported(o.events, k) == []
    ensures forall x :: PinLevel(o.events, IndicatorPin(child), x) == (if status != last then IndicatorLevel(status) else x)
    ensures forall p, x :: p != IndicatorPin(child) ==> PinLevel(o.events, p, x) == x
  {
    if last != status then
      ReplayTwo(Send(child, status), Write(IndicatorPin(child), IndicatorLevel(status)));
      Outcome(status, [Send(child, status), Write(IndicatorPin(child), IndicatorLevel(status))])
    else
      Outcome(last, [])
  }

  /** What the operation channel keeps after a resolution, and what it emits. */
  datatype OperationOutcome = OperationOutcome(last: Status, skip: bool, events: seq<Event>)

  /** The operation channel: a status equal to the last reported one changes
      nothing; a differing one is absorbed when `skip` is set (clearing it), and
      otherwise reported, actuated and re-arms `skip`. */
  function ReportOperation(status: Status, last: Status, skip: bool): (o: OperationOutcome)
    ensures status == last ==> o == OperationOutcome(last, skip, [])
    ensures status != last ==> o.skip == !skip
    ensures status != last && skip ==> o.last == last && o.events == []
    ensures status != last && !skip ==> o.last == status
    ensures status != last && !skip ==> o.events == OperationActuation(status) + [Send(OPERATION_CHILD, status)]
    ensures Reported(o.events, OPERATION_CHILD) == (if status != last && !skip then [status] else [])
    ensures forall k :: k != OPERATION_CHILD ==> Reported(o.events, k) == []
    ensures forall x :: PinLevel(o.events, OPERATION_PARTIAL_LED_PIN, x) == (if status != last && !skip then (if status == Blinking then Low else High) else x)
    ensures forall x :: PinLevel(o.events, OPERATION_FULL_LED_PIN, x) == (if status != last && !skip then (if status == Activated then Low else High) else x)
    ensures forall p, x :: p != OPERATION_FULL_LED_PIN && p != OPERATION_PARTIAL_LED_PIN ==> PinLevel(o.events, p, x) == x
  {
    if status != last then
      if skip then
        OperationOutcome(last, false, [])
      else
        var actuation := OperationActuation(status);
        var events := actuation + [Send(OPERATION_CHILD, status)];
        ReplayOne(Send(OPERATION_CHILD, status));
        forall k ensures Reported(events, k) == Reported([Send(OPERATION_CHILD, status)], k) {
          ReportedAppend(actuation, [Send(OPERATION_CHILD, status)], k);
        }
        forall p, x ensures PinLevel(events, p, x) == PinLevel(actuation, p, x) {
          PinLevelAppend(actuation, [Send(OPERATION_CHILD, status)], p, x);
        }
        OperationOutcome(status, true, events)
    else
      OperationOutcome(last, skip, [])
  }

  // ---------------------------------------------------------------------------
  // Reporting over a sequence of resolutions

  /** The statuses of `statuses` that differ from the one before them, the
      one before the first being `prev`. */
  function Changes(prev: Status, statuses: seq<Status>): seq<Status>
    decreases |statuses|
  {
    if |statuses| == 0 then []
    else (if statuses[0] != prev then [statuses[0]] else []) + Changes(statuses[0], statuses[1..])
  }

  /** An indicator channel fed one resolution after another. */
  function IndicatorRun(child: nat, last: Status, statuses: seq<Status>): Outcome
    requires TRIGGER_CHILD <= child < SENSORS
    decreases |statuses|
  {
    if |statuses| == 0 then Outcome(last, [])
    else
      var o := ReportIndicator(child, statuses[0], last);
      var rest := IndicatorRun(child, o.last, statuses[1..]);
      Outcome(rest.last, o.events + rest.events)
  }

  /** An indicator channel reports exactly the changes of its resolved status
      stream, and ends remembering the last resolution. */
  lemma {:induction false} IndicatorRunReportsChanges(child: nat, last: Status, statuses: seq<Status>)
    requires TRIGGER_CHILD <= child < SENSORS
    ensures Reported(IndicatorRun(child, last, statuses).events, child) == Changes(last, statuses)
    ensures IndicatorRun(child, last, statuses).last == if |statuses| == 0 then last else statuses[|statuses| - 1]
    decreases |statuses|
  {
    if |statuses| > 0 {
      var o := ReportIndicator(child, statuses[0], last);
      var rest := IndicatorRun(child, o.last, statuses[1..]);
      assert o.last == statuses[0];
      assert IndicatorRun(child, last, statuses).events == o.events + rest.events;
      IndicatorRunReportsChanges(child, o.last, statuses[1..]);
      ReportedAppend(o.events, rest.events, child);
      assert Reported(o.events, child) == (if statuses[0] != last then [statuses[0]] else []);
      if |statuses| > 1 {
        assert statuses[1..][|statuses[1..]| - 1] == statuses[|statuses| - 1];
      }
    }
  }

  /** The operation channel fed one resolution after another. */
  function OperationRun(last: Status, skip: bool, statuses: seq<Status>): OperationOutcome
    decreases |statuses|
  {
    if |statuses| == 0 then OperationOutcome(last, skip, [])
    else
      var o := ReportOperation(statuses[0], last, skip);
      var rest := OperationRun(o.last, o.skip, statuses[1..]);
      OperationOutcome(rest.last, rest.skip, o.events + rest.events)
  }

  /** How many resolutions of a run differ from the status last reported at
      the time they are made. */
  function Differing(last: Status, skip: bool, statuses: seq<Status>): nat
    decreases |statuses|
  {
    if |statuses| == 0 then 0
    else
      var o := ReportOperation(statuses[0], last, skip);
      (if statuses[0] != last then 1 else 0) + Differing(o.last, o.skip, statuses[1..])
  }

  /** The operation channel reports every second differing resolution: with
      `skip` set at the start, the reports are half the differing resolutions,
      rounded down, and the flag ends clear exactly when that count is odd. */
  lemma {:induction false} OperationRunReportsHalf(last: Status, skip: bool, statuses: seq<Status>)
    ensures var r := OperationRun(last, skip, statuses);
            2 * |Reported(r.events, OPERATION_CHILD)| + (if r.skip then 0 else 1)
            == Differing(last, skip, statuses) + (if skip then 0 else 1)
    ensures skip ==> |Reported(OperationRun(last, skip, statuses).events, OPERATION_CHILD)| == Differing(last, skip, statuses) / 2
    decreases |statuses|
  {
    if |statuses| > 0 {
      var o := ReportOperation(statuses[0], last, skip);
      var rest := OperationRun(o.last, o.skip, statuses[1..]);
      OperationRunReportsHalf(o.last, o.skip, statuses[1..]);
      ReportedAppend(o.events, rest.events, OPERATION_CHILD);
    }
  }

  /** Each operation report differs from the one before it (the first from the
      status reported before the run), so the outputs never see a repeat. */
  lemma {:induction false} OperationRunNeverRepeats(last: Status, skip: bool, statuses: seq<Status>)
    ensures var reports := Reported(OperationRun(last, skip, statuses).events, OPERATION_CHILD);
            Changes(last, reports) == reports
    decreases |statuses|
  {
    if |statuses| > 0 {
      var o := ReportOperation(statuses[0], last, skip);
      var rest := OperationRun(o.last, o.skip, statuses[1..]);
      OperationRunNeverRepeats(o.last, o.skip, statuses[1..]);
      ReportedAppend(o.events, rest.events, OPERATION_CHILD);
      var tail := Reported(rest.events, OPERATION_CHILD);
      if statuses[0] != last && !skip {
        var reports := [statuses[0]] + tail;
        assert Reported(o.events, OPERATION_CHILD) == [statuses[0]];
        assert reports[0] == statuses[0] && reports[1..] == tail;
        assert Changes(last, reports) == [statuses[0]] + Changes(statuses[0], tail);
      } else {
        assert Reported(o.events, OPERATION_CHILD) == [] && o.last == last;
        assert Reported(o.events, OPERATION_CHILD) + tail == tail;
      }
    }
  }
}
