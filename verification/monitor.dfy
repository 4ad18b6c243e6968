/** The whole monitor: four channels plus the operation channel's skip flag,
    with the startup initialisation, the per-iteration sampling pass, the
    periodic resolution pass and the threshold reconfiguration message. */
module Monitor {
  import opened Types
  import opened EdgeCounter
  import opened Resolver
  import opened Reporter

  /** The monitor's state: one record per channel, indexed by child id, and
      the operation channel's one-shot skip flag. */
  datatype Monitor = Monitor(channels: seq<Channel>, skip: bool)

  predicate Valid(m: Monitor)
  {
    |m.channels| == SENSORS
  }

  // ---------------------------------------------------------------------------
  // Startup

  /** A threshold restored from storage, capped at MAX_THRESHOLD. */
  function Clamp(stored: Byte): Byte
  {
    if stored > MAX_THRESHOLD then MAX_THRESHOLD else stored
  }

  /** The state after startup, given the thresholds held in storage: every
      threshold is capped at 99 and otherwise kept, every signal is idle
      (High), no blink is counted, nothing has been reported (Unknown) and the
      operation channel will absorb its first change. */
  function Before(stored: seq<Byte>): (m: Monitor)
    requires |stored| == SENSORS
    ensures Valid(m) && m.skip
    ensures forall i :: 0 <= i < SENSORS ==>
              && m.channels[i].threshold <= MAX_THRESHOLD
              && (stored[i] <= MAX_THRESHOLD ==> m.channels[i].threshold == stored[i])
              && (stored[i] > MAX_THRESHOLD ==> m.channels[i].threshold == MAX_THRESHOLD)
              && m.channels[i].signal == High
              && m.channels[i].blinks == 0
              && m.channels[i].last == Unknown
  {
    Monitor(seq(SENSORS, i requires 0 <= i < SENSORS => Channel(Clamp(stored[i]), High, 0, Unknown)), true)
  }

  // ---------------------------------------------------------------------------
  // Sampling

  /** One pass of the control loop over the four sensors, `levels[i]` being
      the light level read for channel i. */
  function Tick(m: Monitor, levels: seq<int>): (m': Monitor)
    requires Valid(m) && |levels| == SENSORS
    ensures Valid(m') && m'.skip == m.skip
    ensures forall i :: 0 <= i < SENSORS ==>
              && (m'.channels[i].signal == Low <==> levels[i] < m.channels[i].threshold)
              && m'.channels[i].blinks == m.channels[i].blinks + (if m.channels[i].signal == High && m'.channels[i].signal == Low then 1 else 0)
              && m'.channels[i].threshold == m.channels[i].threshold
              && m'.channels[i].last == m.channels[i].last
  {
    Monitor(seq(SENSORS, i requires 0 <= i < SENSORS => Sample(m.channels[i], levels[i])), m.skip)
  }

  /** Every row of `trace` holds one level per sensor. */
  predicate WellFormed(trace: seq<seq<int>>)
  {
    forall t :: 0 <= t < |trace| ==> |trace[t]| == SENSORS
  }

  /** The state after one sampling pass per row of `trace`. */
  function Ticks(m: Monitor, trace: seq<seq<int>>): Monitor
    requires Valid(m) && WellFormed(trace)
    decreases |trace|
  {
    if |trace| == 0 then m else Ticks(Tick(m, trace[0]), trace[1..])
  }

  /** The levels channel i saw across `trace`. */
  function Column(trace: seq<seq<int>>, i: nat): (levels: seq<int>)
    requires WellFormed(trace) && i < SENSORS
    ensures |levels| == |trace|
    ensures forall t :: 0 <= t < |trace| ==> levels[t] == trace[t][i]
  {
    seq(|trace|, t requires 0 <= t < |trace| => trace[t][i])
  }

  /** Channels are sampled independently: after a run of passes each channel
      is what sampling its own column alone gives. */
  lemma {:induction false} TicksSampleEachChannel(m: Monitor, trace: seq<seq<int>>)
    requires Valid(m) && WellFormed(trace)
    ensures Valid(Ticks(m, trace)) && Ticks(m, trace).skip == m.skip
    ensures forall i :: 0 <= i < SENSORS ==> Ticks(m, trace).channels[i] == SampleAll(m.channels[i], Column(trace, i))
    decreases |trace|
  {
    if |trace| > 0 {
      var m1 := Tick(m, trace[0]);
      TicksSampleEachChannel(m1, trace[1..]);
      forall i | 0 <= i < SENSORS
        ensures Ticks(m, trace).channels[i] == SampleAll(m.channels[i], Column(trace, i))
      {
        assert Column(trace, i)[0] == trace[0][i];
        assert Column(trace, i)[1..] == Column(trace[1..], i);
      }
    }
  }

  /** Over any run of passes, a channel's blink counter grows by exactly the
      number of idle-to-light transitions of its sensed signal, and its
      threshold and reported status do not move. */
  lemma TicksCountFallingEdges(m: Monitor, trace: seq<seq<int>>, i: nat)
    requires Valid(m) && WellFormed(trace) && i < SENSORS
    ensures Valid(Ticks(m, trace))
    ensures Ticks(m, trace).channels[i].blinks
            == m.channels[i].blinks + FallingEdges(m.channels[i].signal, Senses(Column(trace, i), m.channels[i].threshold))
    ensures Ticks(m, trace).channels[i].threshold == m.channels[i].threshold
    ensures Ticks(m, trace).channels[i].last == m.channels[i].last
  {
    TicksSampleEachChannel(m, trace);
    SampleAllCountsFallingEdges(m.channels[i], Column(trace, i));
  }

  // ---------------------------------------------------------------------------
  // Resolution

  /** Whether resolving channel i, in state `c`, reports: its status differs
      from the last reported one and, for the operation channel, the skip flag
      is clear. */
  predicate Reports(i: nat, c: Channel, skip: bool)
  {
    Resolved(c) != c.last && (i != OPERATION_CHILD || !skip)
  }

  /** One channel after its resolution, the operation skip flag after it,
      and what the channel emitted. */
  datatype Resolution = Resolution(channel: Channel, skip: bool, events: seq<Event>)

  /** Resolves channel i: its status is classified, reported through the
      channel's policy, and its blink counter cleared. Only the operation
      channel reads or changes the skip flag, and a channel's events concern
      only its own child id. */
  function ResolveChannel(m: Monitor, i: nat): (r: Resolution)
    requires Valid(m) && i < SENSORS
    ensures r.channel.threshold == m.channels[i].threshold
    ensures r.channel.signal == m.channels[i].signal
    ensures r.channel.blinks == 0
    ensures i != OPERATION_CHILD ==> r.skip == m.skip && r.channel.last == Resolved(m.channels[i])
    ensures i == OPERATION_CHILD ==>
              && r.channel.last == (if Reports(i, m.channels[i], m.skip) then Resolved(m.channels[i]) else m.channels[i].last)
              && r.skip == (if Resolved(m.channels[i]) != m.channels[i].last then !m.skip else m.skip)
    ensures Reported(r.events, i) == (if Reports(i, m.channels[i], m.skip) then [Resolved(m.channels[i])] else [])
    ensures forall k: nat :: k != i ==> Reported(r.events, k) == []
  {
    var c := m.channels[i];
    if i == OPERATION_CHILD then
      var o := ReportOperation(Resolved(c), c.last, m.skip);
      Resolution(c.(blinks := 0, last := o.last), o.skip, o.events)
    else
      var o := ReportIndicator(i, Resolved(c), c.last);
      Resolution(c.(blinks := 0, last := o.last), m.skip, o.events)
  }

  /** The channel whose outputs include `pin`, or SENSORS for a pin no
      channel drives. */
  function PinOwner(pin: nat): (owner: nat)
    ensures owner <= SENSORS
  {
    if pin == OPERATION_FULL_LED_PIN || pin == OPERATION_PARTIAL_LED_PIN then OPERATION_CHILD
    else if pin == TRIGGER_LED_PIN then TRIGGER_CHILD
    else if pin == BELL_LED_PIN then BELL_CHILD
    else if pin == MAINTENANCE_LED_PIN then MAINTENANCE_CHILD
    else SENSORS
  }

  /** The actuation table: the level `pin` is left at when channel i, in
      state `c`, is resolved with the pin at `level`. Only a reporting channel
      drives its own pins; the operation pair shows Partial active (Low) for
      Blinking and Full active for Activated, an indicator pin is High unless
      Desactivated. */
  function Driven(i: nat, c: Channel, skip: bool, pin: nat, level: Level): Level
  {
    if PinOwner(pin) != i || !Reports(i, c, skip) then level
    else if i == OPERATION_CHILD then
      if pin == OPERATION_PARTIAL_LED_PIN then (if Resolved(c) == Blinking then Low else High)
      else (if Resolved(c) == Activated then Low else High)
    else IndicatorLevel(Resolved(c))
  }

  /** Resolving channel i writes its pins as the actuation table says and no
      other pin. */
  lemma ResolveChannelDrives(m: Monitor, i: nat, pin: nat, level: Level)
    requires Valid(m) && i < SENSORS
    ensures PinLevel(ResolveChannel(m, i).events, pin, level) == Driven(i, m.channels[i], m.skip, pin, level)
  {
  }

  /** While the operation channel's resolution is carried out, its two
      outputs are never both active (Low), after any of its events and
      whatever levels they started from. */
  lemma OperationResolutionOutputsExclusive(m: Monitor, full: Level, partial: Level)
    requires Valid(m)
    ensures var ev := ResolveChannel(m, OPERATION_CHILD).events;
            forall n :: 0 < n <= |ev| ==>
              !(PinLevel(ev[..n], OPERATION_FULL_LED_PIN, full) == Low
                && PinLevel(ev[..n], OPERATION_PARTIAL_LED_PIN, partial) == Low)
  {
    var c := m.channels[OPERATION_CHILD];
    var s := Resolved(c);
    var ev := ResolveChannel(m, OPERATION_CHILD).events;
    if Reports(OPERATION_CHILD, c, m.skip) {
      var act := OperationActuation(s);
      var send := Send(OPERATION_CHILD, s);
      assert ev == act + [send];
      OperationOutputsExclusive(s, full, partial);
      forall n | 0 < n <= |ev|
        ensures !(PinLevel(ev[..n], OPERATION_FULL_LED_PIN, full) == Low
                  && PinLevel(ev[..n], OPERATION_PARTIAL_LED_PIN, partial) == Low)
      {
        if n <= |act| {
          assert ev[..n] == act[..n];
        } else {
          assert ev[..n] == act + [send] && act[..|act|] == act;
          ReplayOne(send);
          PinLevelAppend(act, [send], OPERATION_FULL_LED_PIN, full);
          PinLevelAppend(act, [send], OPERATION_PARTIAL_LED_PIN, partial);
        }
      }
    } else {
      assert ev == [];
    }
  }

  /** The events of the resolution pass from channel i on, in the order the
      sketch's loop over the sensors emits them. */
  function PassEvents(m: Monitor, i: nat): seq<Event>
    requires Valid(m) && i <= SENSORS
    decreases SENSORS - i
  {
    if i == SENSORS then [] else ResolveChannel(m, i).events + PassEvents(m, i + 1)
  }

  /** The periodic resolution pass over all channels. Each channel's step
      reads and writes only that channel's record (and, for the operation
      channel, the skip flag), so the pass is the per-channel resolutions
      side by side, their events in channel order. */
  function Resolve(m: Monitor): (r: (Monitor, seq<Event>))
    requires Valid(m)
    ensures Valid(r.0)
  {
    var channels := seq(SENSORS, i requires 0 <= i < SENSORS => ResolveChannel(m, i).channel);
    (Monitor(channels, ResolveChannel(m, OPERATION_CHILD).skip), PassEvents(m, 0))
  }

  /** The state a resolution pass leaves: every blink counter cleared,
      thresholds and signals untouched; indicator channels remember their new
      status; the operation channel remembers it only when it reports it, and
      its skip flag flips on every status differing from the last reported
      one. */
  lemma ResolveUpdatesChannels(m: Monitor)
    requires Valid(m)
    ensures forall i :: 0 <= i < SENSORS ==>
              && Resolve(m).0.channels[i].blinks == 0
              && Resolve(m).0.channels[i].threshold == m.channels[i].threshold
              && Resolve(m).0.channels[i].signal == m.channels[i].signal
    ensures forall k: nat :: TRIGGER_CHILD <= k < SENSORS ==> Resolve(m).0.channels[k].last == Resolved(m.channels[k])
    ensures var c0 := m.channels[OPERATION_CHILD];
            && Resolve(m).0.channels[OPERATION_CHILD].last == (if Resolved(c0) != c0.last && !m.skip then Resolved(c0) else c0.last)
            && Resolve(m).0.skip == (if Resolved(c0) != c0.last then !m.skip else m.skip)
  {
  }

  /** The sends of the pass from channel i on, for one child: a channel from
      i on sends its status exactly when it reports, and nothing else is
      sent. */
  lemma {:induction false} PassEventsReports(m: Monitor, i: nat, k: nat)
    requires Valid(m) && i <= SENSORS
    ensures Reported(PassEvents(m, i), k)
            == (if i <= k < SENSORS && Reports(k, m.channels[k], m.skip) then [Resolved(m.channels[k])] else [])
    decreases SENSORS - i
  {
    if i < SENSORS {
      PassEventsReports(m, i + 1, k);
      ReportedAppend(ResolveChannel(m, i).events, PassEvents(m, i + 1), k);
    }
  }

  /** What a resolution pass sends: each indicator channel sends its status
      exactly when it differs from the last reported one; the operation
      channel does so only when, in addition, its skip flag is clear; no other
      child is reported. */
  lemma ResolveReports(m: Monitor)
    requires Valid(m)
    ensures forall k: nat :: Reported(Resolve(m).1, k)
              == (if k < SENSORS && Reports(k, m.channels[k], m.skip) then [Resolved(m.channels[k])] else [])
  {
    forall k: nat
      ensures Reported(Resolve(m).1, k)
              == (if k < SENSORS && Reports(k, m.channels[k], m.skip) then [Resolved(m.channels[k])] else [])
    {
      PassEventsReports(m, 0, k);
    }
  }

  /** The pin writes of the pass from channel i on, for one pin: a pin of a
      channel from i on ends as the actuation table says, any other pin keeps
      its level. */
  lemma {:induction false} PassEventsDrive(m: Monitor, i: nat, pin: nat, level: Level)
    requires Valid(m) && i <= SENSORS
    ensures PinLevel(PassEvents(m, i), pin, level)
            == (if i <= PinOwner(pin) < SENSORS
                then Driven(PinOwner(pin), m.channels[PinOwner(pin)], m.skip, pin, level)
                else level)
    decreases SENSORS - i
  {
    if i < SENSORS {
      var here := ResolveChannel(m, i).events;
      PinLevelAppend(here, PassEvents(m, i + 1), pin, level);
      ResolveChannelDrives(m, i, pin, level);
      PassEventsDrive(m, i + 1, pin, PinLevel(here, pin, level));
    }
  }

  /** How a resolution pass leaves the outputs: an indicator pin is driven
      (High unless Desactivated) exactly when its channel's status changed;
      the operation pins are driven only on an operation report, Partial
      active (Low) for Blinking and Full active for Activated. */
  lemma ResolveDrivesOutputs(m: Monitor)
    requires Valid(m)
    ensures var ev := Resolve(m).1;
            var c0 := m.channels[OPERATION_CHILD];
            var s0 := Resolved(c0);
            var reported := s0 != c0.last && !m.skip;
            && (forall k: nat, x :: TRIGGER_CHILD <= k < SENSORS ==>
                  PinLevel(ev, IndicatorPin(k), x)
                  == (if Resolved(m.channels[k]) != m.channels[k].last then IndicatorLevel(Resolved(m.channels[k])) else x))
            && (forall x :: PinLevel(ev, OPERATION_PARTIAL_LED_PIN, x) == (if reported then (if s0 == Blinking then Low else High) else x))
            && (forall x :: PinLevel(ev, OPERATION_FULL_LED_PIN, x) == (if reported then (if s0 == Activated then Low else High) else x))
  {
    var ev := Resolve(m).1;
    assert ev == PassEvents(m, 0);
    forall k: nat, x | TRIGGER_CHILD <= k < SENSORS
      ensures PinLevel(ev, IndicatorPin(k), x)
              == (if Resolved(m.channels[k]) != m.channels[k].last then IndicatorLevel(Resolved(m.channels[k])) else x)
    {
      PassEventsDrive(m, 0, IndicatorPin(k), x);
      assert PinOwner(IndicatorPin(k)) == k;
    }
    forall x
      ensures PinLevel(ev, OPERATION_PARTIAL_LED_PIN, x)
              == Driven(OPERATION_CHILD, m.channels[OPERATION_CHILD], m.skip, OPERATION_PARTIAL_LED_PIN, x)
      ensures PinLevel(ev, OPERATION_FULL_LED_PIN, x)
              == Driven(OPERATION_CHILD, m.channels[OPERATION_CHILD], m.skip, OPERATION_FULL_LED_PIN, x)
    {
      PassEventsDrive(m, 0, OPERATION_PARTIAL_LED_PIN, x);
      PassEventsDrive(m, 0, OPERATION_FULL_LED_PIN, x);
    }
  }

  /** The first resolution after startup, whatever was sampled before it,
      reports nothing on the operation channel and leaves its outputs alone
      (the change from Unknown is absorbed), while every indicator channel
      reports its status. */
  lemma FirstResolutionAfterStartup(stored: seq<Byte>, trace: seq<seq<int>>)
    requires |stored| == SENSORS && WellFormed(trace)
    ensures Valid(Ticks(Before(stored), trace))
    ensures var m := Ticks(Before(stored), trace);
            var r := Resolve(m);
            && Reported(r.1, OPERATION_CHILD) == []
            && (forall x :: PinLevel(r.1, OPERATION_FULL_LED_PIN, x) == x && PinLevel(r.1, OPERATION_PARTIAL_LED_PIN, x) == x)
            && !r.0.skip
            && r.0.channels[OPERATION_CHILD].last == Unknown
            && (forall k: nat :: TRIGGER_CHILD <= k < SENSORS ==> Reported(r.1, k) == [Resolved(m.channels[k])])
  {
    var m0 := Before(stored);
    TicksSampleEachChannel(m0, trace);
    var m := Ticks(m0, trace);
    forall i | 0 <= i < SENSORS
      ensures m.channels[i].last == Unknown
    {
      SampleAllCountsFallingEdges(m0.channels[i], Column(trace, i));
    }
    assert m.skip;
    var r := Resolve(m);
    ResolveUpdatesChannels(m);
    ResolveReports(m);
    assert !Reports(OPERATION_CHILD, m.channels[OPERATION_CHILD], m.skip);
    forall k: nat | TRIGGER_CHILD <= k < SENSORS
      ensures Reported(r.1, k) == [Resolved(m.channels[k])]
    {
      assert Reports(k, m.channels[k], m.skip);
    }
    ResolveDrivesOutputs(m);
  }

  // ---------------------------------------------------------------------------
  // Reconfiguration

  /** The variable type of an incoming message: only V_VAR1 carries a new
      threshold. */
  datatype VariableType = Var1 | OtherVariable

  /** An incoming controller message: its type, the child id it addresses and
      its integer payload. */
  datatype Message = Message(kind: VariableType, sensor: nat, payload: int)

  /** The payload narrowed to `uint8_t`, i.e. reduced modulo 256. */
  function Truncate(value: int): Byte
  {
    value % 256
  }

  /** A V_VAR1 message sets the addressed channel's threshold to the payload
      truncated to 8 bits (not clamped) and asks for it to be saved at the
      channel's storage position; nothing else changes. Any other message
      changes nothing. */
  function Receive(m: Monitor, msg: Message): (r: (Monitor, seq<Event>))
    requires Valid(m) && msg.sensor < SENSORS
    ensures Valid(r.0) && r.0.skip == m.skip
    ensures msg.kind != Var1 ==> r.0 == m && r.1 == []
    ensures msg.kind == Var1 ==>
              var t := r.0.channels[msg.sensor].threshold;
              && (msg.payload - t) % 256 == 0
              && (0 <= msg.payload < 256 ==> t == msg.payload)
              && r.1 == [Save(msg.sensor, t)]
    ensures forall j :: 0 <= j < SENSORS && j != msg.sensor ==> r.0.channels[j] == m.channels[j]
    ensures r.0.channels[msg.sensor].signal == m.channels[msg.sensor].signal
    ensures r.0.channels[msg.sensor].blinks == m.channels[msg.sensor].blinks
    ensures r.0.channels[msg.sensor].last == m.channels[msg.sensor].last
  {
    if msg.kind == Var1 then
      var threshold := Truncate(msg.payload);
      var c := m.channels[msg.sensor];
      (m.(channels := m.channels[msg.sensor := c.(threshold := threshold)]), [Save(msg.sensor, threshold)])
    else
      (m, [])
  }

  /** A received threshold above 99 is used as is until the next startup,
      which restores it from storage capped at 99. */
  lemma ReceiveIsNotClamped(m: Monitor, stored: seq<Byte>, msg: Message)
    requires Valid(m) && |stored| == SENSORS && msg.sensor < SENSORS
    requires msg.kind == Var1 && Truncate(msg.payload) > MAX_THRESHOLD
    ensures Receive(m, msg).0.channels[msg.sensor].threshold == Truncate(msg.payload)
    ensures Receive(m, msg).1 == [Save(msg.sensor, Truncate(msg.payload))]
    ensures Before(stored[msg.sensor := Truncate(msg.payload)]).channels[msg.sensor].threshold == MAX_THRESHOLD
  {
  }

  /** Applying the same message twice leaves the state the first application
      left: a threshold update does not depend on the previous threshold. */
  lemma ReceiveIsIdempotent(m: Monitor, msg: Message)
    requires Valid(m) && msg.sensor < SENSORS
    ensures Receive(Receive(m, msg).0, msg).0 == Receive(m, msg).0
    ensures Receive(Receive(m, msg).0, msg).1 == Receive(m, msg).1
  {
  }

  /** A threshold received in range survives the next startup: saving it at
      the channel's storage position and restoring from there gives it back. */
  lemma ReceivedThresholdSurvivesRestart(m: Monitor, stored: seq<Byte>, msg: Message)
    requires Valid(m) && |stored| == SENSORS && msg.sensor < SENSORS
    requires msg.kind == Var1 && 0 <= msg.payload <= MAX_THRESHOLD
    ensures Receive(m, msg).1 == [Save(msg.sensor, msg.payload)]
    ensures Before(stored[msg.sensor := msg.payload]).channels[msg.sensor].threshold
            == Receive(m, msg).0.channels[msg.sensor].threshold
  {
  }

  // ---------------------------------------------------------------------------
  // Runs of the node

  /** One thing the node does: a sampling pass over the four sensors, a
      periodic resolution pass, or the handling of a controller message. */
  datatype Step = Sampling(levels: seq<int>) | ResolutionPass | Reconfiguration(msg: Message)

  /** A step the node can take: a level per sensor, a message for a child id
      below SENSORS. */
  predicate StepOk(s: Step)
  {
    match s
    case Sampling(levels) => |levels| == SENSORS
    case ResolutionPass => true
    case Reconfiguration(msg) => msg.sensor < SENSORS
  }

  predicate StepsOk(steps: seq<Step>)
  {
    forall t :: 0 <= t < |steps| ==> StepOk(steps[t])
  }

  /** The state after one step and the events it emits; sampling emits none. */
  function Apply(m: Monitor, s: Step): (r: (Monitor, seq<Event>))
    requires Valid(m) && StepOk(s)
    ensures Valid(r.0)
  {
    match s
    case Sampling(levels) => (Tick(m, levels), [])
    case ResolutionPass => Resolve(m)
    case Reconfiguration(msg) => Receive(m, msg)
  }

  /** The state after a run of steps and everything it emitted, in order. */
  function Run(m: Monitor, steps: seq<Step>): (r: (Monitor, seq<Event>))
    requires Valid(m) && StepsOk(steps)
    ensures Valid(r.0)
    decreases |steps|
  {
    if |steps| == 0 then (m, [])
    else
      var here := Apply(m, steps[0]);
      var rest := Run(here.0, steps[1..]);
      (rest.0, here.1 + rest.1)
  }

  /** The statuses channel `child` resolves to at the resolution passes of a
      run. */
  function Resolutions(m: Monitor, steps: seq<Step>, child: nat): seq<Status>
    requires Valid(m) && StepsOk(steps) && child < SENSORS
    decreases |steps|
  {
    if |steps| == 0 then []
    else
      (if steps[0].ResolutionPass? then [Resolved(m.channels[child])] else [])
      + Resolutions(Apply(m, steps[0]).0, steps[1..], child)
  }

  /** The steps after the first of a run are steps the node can take. */
  lemma StepsOkTail(steps: seq<Step>)
    requires StepsOk(steps) && |steps| > 0
    ensures StepsOk(steps[1..])
  {
    forall t | 0 <= t < |steps[1..]| ensures StepOk(steps[1..][t]) {
      assert steps[1..][t] == steps[t + 1];
    }
  }

  /** A sampling pass or a controller message sends no status and leaves
      every channel's last reported status and the skip flag alone. */
  lemma QuietStep(m: Monitor, s: Step)
    requires Valid(m) && StepOk(s) && !s.ResolutionPass?
    ensures forall k: nat :: Reported(Apply(m, s).1, k) == []
    ensures forall k :: 0 <= k < SENSORS ==> Apply(m, s).0.channels[k].last == m.channels[k].last
    ensures Apply(m, s).0.skip == m.skip
  {
    if s.Reconfiguration? && s.msg.kind == Var1 {
      ReplayOne(Save(s.msg.sensor, Truncate(s.msg.payload)));
    }
  }

  /** On the operation channel a resolution pass does what the channel's
      reporting rule does with its resolved status. */
  lemma ResolutionPassOperationStep(m: Monitor)
    requires Valid(m)
    ensures var c0 := m.channels[OPERATION_CHILD];
            var o := ReportOperation(Resolved(c0), c0.last, m.skip);
            && Reported(Resolve(m).1, OPERATION_CHILD) == Reported(o.events, OPERATION_CHILD)
            && Resolve(m).0.channels[OPERATION_CHILD].last == o.last
            && Resolve(m).0.skip == o.skip
  {
    ResolveReports(m);
    ResolveUpdatesChannels(m);
  }

  /** Sampling passes and controller messages leave the operation channel's
      last reported status and the skip flag alone and send nothing, so over
      any run of the node the operation channel reports exactly what the
      channel alone, fed the statuses of the run's resolution passes, reports;
      and it ends with the same last status and skip flag. */
  lemma {:induction false} RunReportsAsOperationRun(m: Monitor, steps: seq<Step>)
    requires Valid(m) && StepsOk(steps)
    ensures var o := OperationRun(m.channels[OPERATION_CHILD].last, m.skip, Resolutions(m, steps, OPERATION_CHILD));
            && Reported(Run(m, steps).1, OPERATION_CHILD) == Reported(o.events, OPERATION_CHILD)
            && Run(m, steps).0.channels[OPERATION_CHILD].last == o.last
            && Run(m, steps).0.skip == o.skip
    decreases |steps|
  {
    if |steps| > 0 {
      var here := Apply(m, steps[0]);
      var m1 := here.0;
      var rest := Run(m1, steps[1..]);
      StepsOkTail(steps);
      RunReportsAsOperationRun(m1, steps[1..]);
      ReportedAppend(here.1, rest.1, OPERATION_CHILD);
      var c0 := m.channels[OPERATION_CHILD];
      var statuses := Resolutions(m1, steps[1..], OPERATION_CHILD);
      if steps[0].ResolutionPass? {
        assert Resolutions(m, steps, OPERATION_CHILD) == [Resolved(c0)] + statuses;
        var o := ReportOperation(Resolved(c0), c0.last, m.skip);
        assert OperationRun(c0.last, m.skip, [Resolved(c0)] + statuses).events
               == o.events + OperationRun(o.last, o.skip, statuses).events by {
          assert ([Resolved(c0)] + statuses)[1..] == statuses;
        }
        ReportedAppend(o.events, OperationRun(o.last, o.skip, statuses).events, OPERATION_CHILD);
        ResolutionPassOperationStep(m);
      } else {
        assert Resolutions(m, steps, OPERATION_CHILD) == statuses;
        QuietStep(m, steps[0]);
      }
    }
  }

  /** From startup, whatever is sampled and received in between, the
      operation channel reports half (rounded down) of the resolution passes
      whose status differs from the one last reported. */
  lemma NodeReportsHalfTheOperationChanges(stored: seq<Byte>, steps: seq<Step>)
    requires |stored| == SENSORS && StepsOk(steps)
    ensures var m := Before(stored);
            |Reported(Run(m, steps).1, OPERATION_CHILD)|
            == Differing(Unknown, true, Resolutions(m, steps, OPERATION_CHILD)) / 2
  {
    var m := Before(stored);
    RunReportsAsOperationRun(m, steps);
    OperationRunReportsHalf(Unknown, true, Resolutions(m, steps, OPERATION_CHILD));
  }

  /** On an indicator channel a resolution pass sends the resolved status
      exactly when it differs from the last reported one, and remembers it. */
  lemma ResolutionPassIndicatorStep(m: Monitor, child: nat)
    requires Valid(m) && TRIGGER_CHILD <= child < SENSORS
    ensures var c := m.channels[child];
            && Reported(Resolve(m).1, child) == (if Resolved(c) != c.last then [Resolved(c)] else [])
            && Resolve(m).0.channels[child].last == Resolved(c)
  {
    ResolveReports(m);
    ResolveUpdatesChannels(m);
  }

  /** Over any run of the node, an indicator channel sends exactly the
      changes of the statuses it resolves to at the run's resolution passes,
      the first compared with the status it last reported before the run. */
  lemma {:induction false} RunReportsIndicatorChanges(m: Monitor, steps: seq<Step>, child: nat)
    requires Valid(m) && StepsOk(steps) && TRIGGER_CHILD <= child < SENSORS
    ensures Reported(Run(m, steps).1, child) == Changes(m.channels[child].last, Resolutions(m, steps, child))
    decreases |steps|
  {
    if |steps| > 0 {
      var here := Apply(m, steps[0]);
      var m1 := here.0;
      var rest := Run(m1, steps[1..]);
      StepsOkTail(steps);
      RunReportsIndicatorChanges(m1, steps[1..], child);
      ReportedAppend(here.1, rest.1, child);
      var c := m.channels[child];
      var statuses := Resolutions(m1, steps[1..], child);
      if steps[0].ResolutionPass? {
        assert Resolutions(m, steps, child) == [Resolved(c)] + statuses;
        assert Changes(c.last, [Resolved(c)] + statuses)
               == (if Resolved(c) != c.last then [Resolved(c)] else []) + Changes(Resolved(c), statuses) by {
          assert ([Resolved(c)] + statuses)[1..] == statuses;
        }
        ResolutionPassIndicatorStep(m, child);
      } else {
        assert Resolutions(m, steps, child) == statuses;
        QuietStep(m, steps[0]);
      }
    }
  }
}
