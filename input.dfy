/**
 * Constants of the Linux input-event interface that the proxy relies on
 * (event classes and the per-class code ranges), and the event record that
 * a virtual device receives.
 */
module Input {
  import opened Bytes

  const EV_SYN: uint16 := 0x00
  const EV_KEY: uint16 := 0x01
  const EV_REL: uint16 := 0x02
  const EV_ABS: uint16 := 0x03
  /** Number of event classes the client scans (`EV_MAX`). */
  const EV_MAX: nat := 0x1f

  /** Highest key code; the client's index maps hold `KEY_MAX` entries per class. */
  const KEY_MAX: nat := 0x2ff
  /** Capacities of the id arrays of the configuration record. */
  const KEY_CNT: nat := 0x300
  const ABS_CNT: nat := 0x40
  const REL_CNT: nat := 0x10

  /** `struct input_event` without its (ignored) timestamp. */
  datatype InputEvent = InputEvent(evType: uint16, code: uint16, value: int32)
}
