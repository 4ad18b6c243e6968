# Alarm-panel LED monitor

A model of the Alarm Monitoring Sensor sketch (`src/main.cpp`). This is a
MySensors node that watches four LEDs of a home alarm control panel through
light sensors. The channels are:

- operation mode, child 0;
- trigger, child 1;
- bell, child 2;
- maintenance, child 3.

The node classifies each LED as off (Desactivated), steadily on (Activated) or
blinking and mirrors the result on five output pins. Channels 1-3 report every
change of status to the gateway. The operation channel reports only every
second status that differs from the one it last reported: the one in between
is absorbed by its skip flag.

The model is a functional state machine. `Monitor.Monitor` holds four
`Channel` records and the operation channel's one-shot skip flag. Each
`Channel` holds:

- the threshold (`uint8_t`);
- the last sampled signal (High is idle, Low is light);
- the blink counter;
- the status last reported.

Hardware and radio calls become an event log:

- `Write(pin, level)` for `digitalWrite`;
- `Send(child, status)` for a gateway report;
- `Save(position, value)` for `saveState`.

Two projections read the log. `Reporter.Reported` gives the statuses sent for
one child. `Reporter.PinLevel` replays the writes on one pin.

The modules follow the sketch's phases:

- `Types`: constants, the `Status` enumeration in the sketch's order, the
  channel record, events, and the indicator pin of each child.
- `EdgeCounter`: the per-iteration sampling loop (`loop`, lines 181-195).
  Light below the threshold reads Low. Each High-to-Low change counts one
  blink.
- `Resolver`: the classifier. More than one blink is Blinking, otherwise a
  Low signal is Activated, otherwise Desactivated.
- `Reporter`: change reporting and actuation.
  - An indicator channel reports and drives its pin on every change.
  - The operation channel absorbs every other differing resolution through
    its skip flag.
  - When the operation channel reports, it releases both operation outputs
    and then activates Partial for Blinking or Full for Activated.
- `Monitor`: the whole node.
  - `Before`: startup, with thresholds restored from storage and capped at 99.
  - `Tick`: one sampling pass.
  - `Resolve`: the periodic resolution pass.
  - `Receive`: the threshold reconfiguration message.
  - `Run`: any sequence of sampling passes, resolution passes and controller
    messages.
- `Scenarios`: worked runs.

The resolution pass visits channels 0 to 3 in order. Each channel's step
reads and writes only that channel's record, plus the skip flag for channel
0. So `Resolve` is the four per-channel resolutions side by side, with their
events concatenated in channel order (`Monitor.PassEvents`). This gives the
same state and the same event sequence as the sketch's loop.

## Model

| member | source | states |
|---|---|---|
| `Types.IndicatorPin` | src/main.cpp:62-67 | An indicator channel never drives either operation output pin (8 or 7). |
| `Monitor.Before` | src/main.cpp:136-155 | At startup every threshold is at most 99. A stored value above 99 becomes 99, and any other value is kept. Every signal starts High, every blink counter 0, every last status Unknown, and the operation skip flag is set. |
| `EdgeCounter.Sample` | src/main.cpp:185-194 | After one sample the signal is Low exactly when the level is below the threshold. The counter grows by one exactly on a High-to-Low change and is otherwise unchanged. Threshold and last status are untouched. |
| `EdgeCounter.SampleAllCountsFallingEdges` | src/main.cpp:181-195 | Over any run of samples the counter grows by exactly the number of High-to-Low transitions of the sensed signal. The signal ends at the last sample's value, and threshold and last status do not move. |
| `EdgeCounter.FallingEdgesBound` | src/main.cpp:191-193 | A run of n samples holds at most (n+1)/2 falling edges, so the counter grows by at most one per two samples. |
| `Monitor.Tick` | src/main.cpp:181-195 | One sampling pass applies the single-sample rule to each of the four channels with its own level and threshold, and keeps the skip flag. |
| `Monitor.TicksSampleEachChannel` | src/main.cpp:181-195 | Channels are sampled independently: after any number of passes, each channel is what sampling its own column of levels alone gives. |
| `Monitor.TicksCountFallingEdges` | src/main.cpp:185-194 | Over any number of passes a channel's counter grows by exactly the number of High-to-Low transitions it saw. Its threshold and last status stay fixed. |
| `Resolver.Classify` | src/main.cpp:214-226 | The status is never Unknown. It is Blinking if and only if there was more than one blink, whatever the signal. It is Activated if and only if there was at most one blink and the signal is Low. It is Desactivated if and only if there was at most one blink and the signal is High. |
| `Resolver.SingleEdgeIsSteady` | src/main.cpp:215-226 | A single edge never reads as blinking, so a window with one edge classifies as one with none. |
| `Reporter.OperationActuation` | src/main.cpp:239-252 | On an operation report, the first two writes release Full and then Partial (High), and at most one more write follows. Partial ends Low exactly for Blinking and Full ends Low exactly for Activated. Both end High (released) for any other status. No other pin is touched and nothing is sent. |
| `Reporter.OperationOutputsExclusive` | src/main.cpp:239-252 | While an operation report is actuated, the two operation outputs are never both active after any of its writes, whatever levels they started from. |
| `Reporter.ReportIndicator` | src/main.cpp:261-295 | An indicator channel emits events exactly when its status differs from the last reported one. It then sends that status for its own child only, and leaves its pin High unless the status is Desactivated. No other pin is touched. Afterwards the last status equals the resolved one. |
| `Reporter.ReportOperation` | src/main.cpp:229-260 | For the operation channel, an equal status changes nothing. A differing status with skip set only clears skip, with no write and no send. A differing status with skip clear is actuated first (both outputs released, then at most one driven Low) and sent after that. It then becomes the last status and sets skip again. |
| `Reporter.IndicatorRunReportsChanges` | src/main.cpp:264-268 | Fed a stream of resolutions, an indicator channel reports exactly the changes of the stream. It ends remembering the last resolution. |
| `Reporter.OperationRunReportsHalf` | src/main.cpp:232-257 | With skip set at the start, the operation channel reports the differing resolutions halved and rounded down. The skip flag ends clear exactly when the count of differing resolutions is odd. |
| `Reporter.OperationRunNeverRepeats` | src/main.cpp:232-256 | Consecutive operation reports always differ: each one differs from the status reported before it. |
| `Monitor.ResolveChannel` | src/main.cpp:214-298 | Resolving one channel clears its counter and keeps its threshold and signal. It sends the resolved status for its own child exactly when the channel reports, and sends nothing for any other child. An indicator remembers the new status. The operation channel remembers it only when it reports, and flips skip on every status that differs from the last reported one. |
| `Monitor.OperationResolutionOutputsExclusive` | src/main.cpp:232-257 | While the operation channel's resolution is carried out, the two operation outputs are never both active after any of its events, whatever levels they started from. |
| `Monitor.ResolveChannelDrives` | src/main.cpp:239-292 | Resolving one channel leaves each pin as the actuation table `Driven` says. Only a reporting channel's own pins move. |
| `Monitor.Resolve` | src/main.cpp:204-299 | The periodic resolution pass, resolving channels 0 to 3 in order. Its contract is carried by three lemmas. `Monitor.ResolveUpdatesChannels` gives the state it leaves. `Monitor.ResolveReports` gives what it sends. `Monitor.ResolveDrivesOutputs` gives how it leaves every pin. |
| `Monitor.ResolveUpdatesChannels` | src/main.cpp:228-298 | After a resolution pass every counter is 0, while thresholds and signals are untouched. Indicator channels remember their resolved status. The operation channel updates its last status only on a report, and flips skip on any status that differs from the last reported one. |
| `Monitor.ResolveReports` | src/main.cpp:228-295 | A resolution pass sends, for every child id, exactly the one resolved status of a reporting channel, or nothing. |
| `Monitor.ResolveDrivesOutputs` | src/main.cpp:239-292 | After a pass, an indicator pin is driven (High unless Desactivated) exactly when its channel's status changed. The operation pins move only on an operation report: Partial goes Low for Blinking and Full goes Low for Activated. |
| `Monitor.FirstResolutionAfterStartup` | src/main.cpp:232-235 | Whatever is sampled after startup, the first resolution sends nothing for the operation channel and leaves its outputs alone. It clears skip and keeps last at Unknown. Every indicator channel reports its status. |
| `Monitor.Receive` | src/main.cpp:307-322 | A V_VAR1 message sets the addressed channel's threshold to the payload reduced modulo 256, which is the payload itself when it is already 0-255. It asks for that value to be saved at the channel's position. All other channels and the channel's other fields are unchanged. Any other message type changes nothing. |
| `Monitor.ReceiveIsNotClamped` | src/main.cpp:311-315 | A received threshold above 99 is used and saved as is. Only the next startup caps it to 99. |
| `Monitor.ReceiveIsIdempotent` | src/main.cpp:309-315 | Handling a message a second time leaves the state the first handling left, and emits the same events again: one save request for a V_VAR1 message, nothing otherwise. |
| `Monitor.ReceivedThresholdSurvivesRestart` | src/main.cpp:311-315 | A received threshold of at most 99 is saved and restored unchanged at the next startup. |
| `Monitor.RunReportsAsOperationRun` | src/main.cpp:181-322 | Sampling passes and controller messages send nothing for the operation channel and leave its last status and skip flag alone. So over any run of the node, the operation channel reports exactly what it reports alone when fed the statuses of the run's resolution passes. It ends with the same last status and skip flag. |
| `Monitor.RunReportsIndicatorChanges` | src/main.cpp:261-295 | Over any run of the node, an indicator channel sends exactly the changes of the statuses it resolves to at the run's resolution passes. The first is compared with the status it last reported before the run. |
| `Monitor.NodeReportsHalfTheOperationChanges` | src/main.cpp:232-257 | From startup, whatever is sampled and received in between, the operation channel reports half, rounded down, of the resolution passes whose status differs from the one last reported. |
| `Scenarios.DarkWindowIsDesactivated` | src/main.cpp:185-226 | Levels that stay above the threshold give no blink and Desactivated. |
| `Scenarios.AlternatingWindowIsBlinking` | src/main.cpp:185-226 | Light that comes and goes twice gives two blinks and Blinking. |
| `Scenarios.SingleEdgeWindowIsActivated` | src/main.cpp:185-226 | Light that comes on once and stays gives one blink and Activated. |
| `Scenarios.OperationStartupReportsSecondResolution` | src/main.cpp:232-257 | From startup, operation resolutions Desactivated, Activated, Activated report Activated once, at the second resolution. |
| `Scenarios.OperationDebounceIsNotConsecutive` | src/main.cpp:232-257 | The two differing resolutions needed for a report need not be consecutive. An equal resolution in between does not re-arm the absorption. |
| `Scenarios.ReceivedThresholdsAreTruncatedNotClamped` | src/main.cpp:311-315 | A received 150 stays 150, and 300 becomes 44. |

### Behaviour worth noting

- `receive` narrows the payload to `uint8_t` and does not clamp it: 150 stays
  150 and 300 becomes 44. A value above 99 is capped only when it is restored
  at the next startup. See `Monitor.ReceiveIsNotClamped` and
  `Scenarios.ReceivedThresholdsAreTruncatedNotClamped`.
- The operation skip flag flips on every resolution that differs from the
  last *reported* status. A resolution equal to that status leaves the flag
  alone. See `Scenarios.OperationDebounceIsNotConsecutive`.
- From startup, the operation channel reports the second differing
  resolution. After the first one is absorbed, the last reported status is
  still Unknown. See `Scenarios.OperationStartupReportsSecondResolution`.

## Left out

- Radio presentation, `sleep` and `MyMessage` framing: foreign library calls.
  A report is the event `Send(child, status)`, which carries the status and
  not its wire encoding.
- `loadState` and `saveState` (EEPROM): persistence I/O.
  - The values loaded at startup are the input of `Monitor.Before`.
  - A save is the event `Save(position, value)`.
- The analog conversion `(1023 - analogRead(...)) / 10.23` uses floating
  point. The light level is an integer input of `Monitor.Tick`.
- The `millis()` / `loops == 10000` schedule is wall-clock timing. A
  resolution pass is the explicit call `Monitor.Resolve`, made between any
  number of `Monitor.Tick` passes.
- `pinMode`, the startup LED animation and its delays are hardware side
  effects with no decision logic. The pin levels they leave are not modelled.
- Serial diagnostics, including the "Unknown" line printed for an operation
  status other than Blinking or Activated: output only.
- `pending_states`: it is written at startup and never read.
- The `levelThreshold < 0` test on a `uint8_t` in `before`: it can never hold.
- `EdgeCounter.Sample`: the blink counter is an unbounded `nat`, while the
  sketch's `int` is 16 bits on the target. `EdgeCounter.FallingEdgesBound`
  shows the counter grows by at most one per two samples. It is reset on
  every resolution pass, so wrap-around needs more than 65 000 samples
  between passes.
- `Monitor.Receive`: requires the addressed child id to be below 4. The sketch
  indexes the threshold array with it unchecked, so a larger id writes
  outside the array, which the model does not describe. The id is also
  narrowed to `uint8_t` by the sketch; below 4 this changes nothing.
