/**
 * The host's input state as the bridge reads it (frontend_im/src/js_api/input.rs).
 * Every host query returns an `i32`; the decoders here turn the sentinel
 * conventions into typed presence or absence. Reading the host has no side
 * effect, so one tick's readings are a snapshot value.
 */
module JsInput {
  import opened Base

  /** One consistent set of host input readings, one field per host query. */
  datatype InputReadings = InputReadings(
    lock: i32,            // js_acquire_input_lock
    mousePositionFlag: i32,
    mouseX: i32,
    mouseY: i32,
    mouseDeltaX: i32,
    mouseDeltaY: i32,
    mouseButtonState: i32,
    keyEventFlag: i32,
    keyCode: i32,
    keyState: i32,
    speedFlag: i32,
    speed: i32)

  /** The single-attempt advisory lock: taken exactly when the host answers non-zero. */
  function AcquireLock(h: InputReadings): (acquired: bool)
    ensures acquired <==> h.lock != 0
  {
    h.lock != 0
  }

  /** Button state: a negative reading means "no data", zero "released", positive "pressed". */
  function MouseButtonState(h: InputReadings): (state: Option<bool>)
    ensures state.None? <==> h.mouseButtonState < 0
    ensures state == Some(true) <==> h.mouseButtonState > 0
    ensures state == Some(false) <==> h.mouseButtonState == 0
  {
    if h.mouseButtonState < 0 then None else Some(h.mouseButtonState != 0)
  }

  /** The canonical reading for a button state: -1 for none, 0 released, 1 pressed. */
  function ButtonReading(state: Option<bool>): i32 {
    match state
    case None => -1
    case Some(pressed) => if pressed then 1 else 0
  }

  /** Decoding the canonical reading of a state gives that state back. */
  lemma ButtonRoundTrip(h: InputReadings, state: Option<bool>)
    requires h.mouseButtonState == ButtonReading(state)
    ensures MouseButtonState(h) == state
  {
  }

  function HasMousePosition(h: InputReadings): (present: bool)
    ensures present <==> h.mousePositionFlag != 0
  {
    h.mousePositionFlag != 0
  }

  function HasKeyEvent(h: InputReadings): (present: bool)
    ensures present <==> h.keyEventFlag != 0
  {
    h.keyEventFlag != 0
  }

  /**
   * A pending speed request: None when the flag reads zero (the speed query is
   * then not consulted), otherwise the raw speed reading.
   */
  function SpeedEvent(h: InputReadings): (event: Option<i32>)
    ensures event.None? <==> h.speedFlag == 0
    ensures event.Some? ==> event.value == h.speed
  {
    if h.speedFlag == 0 then None else Some(h.speed)
  }

  /** With the flag down, the speed reading has no influence on the result. */
  lemma SpeedIgnoredWithoutFlag(h: InputReadings, other: i32)
    requires h.speedFlag == 0
    ensures SpeedEvent(h) == SpeedEvent(h.(speed := other)) == None
  {
  }
}
