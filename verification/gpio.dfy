/**
  The actuator state store: the process-wide `gpio_state` flag together
  with the level last driven onto the GPIO4 pin through `GPIO4_set`. The
  register-level driver is not part of this model; only the level it was
  last asked to output is recorded.
 */
module Gpio {
  import opened Wrappers

  /**
    `gpioState` is the flag responses report; `pinLevel` is the last level
    handed to `GPIO4_set`, `None` while the pin has never been driven.
   */
  datatype Actuator = Actuator(gpioState: bool, pinLevel: Option<bool>)

  /** The pin outputs exactly what the flag reports. */
  predicate InSync(a: Actuator)
  {
    a.pinLevel == Some(a.gpioState)
  }

  /** `GPIO4_set(level); gpio_state = level;` — the two writes always made together. */
  function Drive(level: bool): (a: Actuator)
    ensures InSync(a)
    ensures a.gpioState == level
  {
    Actuator(level, Some(level))
  }
}
