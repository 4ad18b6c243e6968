/** Shared vocabulary of the alarm-panel LED monitor: pin levels, the status
    enumeration, the per-channel record and the output events that stand in for
    the hardware and radio calls of the sketch. */
module Types {

  /** Number of monitored LED sensors (the sketch's SENSORS). */
  const SENSORS: nat := 4

  /** Child ids under which the four channels are reported. */
  const OPERATION_CHILD: nat := 0
  const TRIGGER_CHILD: nat := 1
  const BELL_CHILD: nat := 2
  const MAINTENANCE_CHILD: nat := 3

  /** Output pins driven by the monitor. */
  const OPERATION_FULL_LED_PIN: nat := 8
  const OPERATION_PARTIAL_LED_PIN: nat := 7
  const TRIGGER_LED_PIN: nat := 3
  const BELL_LED_PIN: nat := 4
  const MAINTENANCE_LED_PIN: nat := 5

  /** An unsigned 8-bit value (`uint8_t`). */
  type Byte = x: int | 0 <= x < 256

  /** Largest threshold accepted when thresholds are restored at startup. */
  const MAX_THRESHOLD: Byte := 99

  /** A digital level. On a sensor, High is idle (no light) and Low is light. */
  datatype Level = High | Low

  /** The resolved state of one LED, in the order of the sketch's enumeration. */
  datatype Status = Unknown | Desactivated | Blinking | Activated

  /** One monitored LED: its sensitivity threshold, the last sampled signal,
      the falling edges counted since the last resolution and the status last
      reported for it. */
  datatype Channel = Channel(threshold: Byte, signal: Level, blinks: nat, last: Status)

  /** Observable effects: a digital pin write, a report to the gateway, and a
      request to persist a threshold. */
  datatype Event =
    | Write(pin: nat, level: Level)
    | Send(child: nat, status: Status)
    | Save(position: nat, value: Byte)

  /** The output pin of an indicator channel (Trigger, Bell, Maintenance). */
  function IndicatorPin(child: nat): (pin: nat)
    requires TRIGGER_CHILD <= child < SENSORS
    ensures pin != OPERATION_FULL_LED_PIN && pin != OPERATION_PARTIAL_LED_PIN
  {
    if child == TRIGGER_CHILD then TRIGGER_LED_PIN
    else if child == BELL_CHILD then BELL_LED_PIN
    else MAINTENANCE_LED_PIN
  }
}
