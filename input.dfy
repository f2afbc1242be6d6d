/**
 * The input translator (frontend_im/src/input.rs): once per tick, under the
 * host's single-attempt lock, turn one snapshot of host input readings into
 * emulator commands — mouse first, then keyboard, then speed — and release
 * the lock. Sending is best-effort and never fails from the bridge's point of
 * view, so a tick is modelled as the ordered list of its effects.
 */
module InputTranslator {
  import opened Base
  import opened JsInput

  datatype MouseMode = RelativeHw | Absolute | Disabled

  datatype Keymap = Universal

  datatype KeyEvent = KeyUp(scancode: u8, keymap: Keymap) | KeyDown(scancode: u8, keymap: Keymap)

  datatype EmulatorSpeed = Accurate | Dynamic | Uncapped | Video

  /** The emulator commands this translator can send. */
  datatype EmulatorCommand =
    | MouseUpdateRelative(relx: i16, rely: i16, btn: Option<bool>)
    | MouseUpdateAbsolute(x: u16, y: u16)
    | KeyCommand(event: KeyEvent)
    | SetSpeed(speed: EmulatorSpeed)

  /** What one tick does, in order: commands sent to the emulator and the lock release. */
  datatype InputEffect = Send(command: EmulatorCommand) | ReleaseLock

  // ---------------------------------------------------------------------------
  // Saturating conversions

  function Dist(a: int, b: int): nat {
    if a <= b then b - a else a - b
  }

  /**
   * `value.clamp(lo, hi)`: the value of [lo, hi] nearest to `v`, which is `v`
   * itself when it is in range and the bound it overshoots otherwise.
   */
  function Clamp(v: int, lo: int, hi: int): (r: int)
    requires lo <= hi
    ensures lo <= r <= hi
    ensures lo <= v <= hi ==> r == v
    ensures v < lo ==> r == lo
    ensures v > hi ==> r == hi
  {
    if v < lo then lo else if v > hi then hi else v
  }

  /** No value of the range lies closer to the input than the clamped one. */
  lemma ClampIsNearest(v: int, lo: int, hi: int, y: int)
    requires lo <= hi && lo <= y <= hi
    ensures Dist(Clamp(v, lo, hi), v) <= Dist(y, v)
  {
  }

  function ClampI32ToU16(v: i32): (r: u16)
    ensures 0 <= v <= U16_MAX ==> r == v
    ensures v < 0 ==> r == 0
    ensures v > U16_MAX ==> r == U16_MAX
  {
    Clamp(v, 0, U16_MAX)
  }

  function ClampI32ToI16(v: i32): (r: i16)
    ensures I16_MIN <= v <= I16_MAX ==> r == v
    ensures v < I16_MIN ==> r == I16_MIN
    ensures v > I16_MAX ==> r == I16_MAX
    ensures (r == 0) <==> (v == 0)
    ensures (r < 0) <==> (v < 0)
  {
    Clamp(v, I16_MIN, I16_MAX)
  }

  function ClampI32ToU8(v: i32): (r: u8)
    ensures 0 <= v <= U8_MAX ==> r == v
    ensures v < 0 ==> r == 0
    ensures v > U8_MAX ==> r == U8_MAX
  {
    Clamp(v, 0, U8_MAX)
  }

  // ---------------------------------------------------------------------------
  // Handlers

  /** Which handler a command comes from: 0 mouse, 1 keyboard, 2 speed. */
  function Rank(c: EmulatorCommand): nat {
    match c
    case MouseUpdateRelative(_, _, _) => 0
    case MouseUpdateAbsolute(_, _) => 0
    case KeyCommand(_) => 1
    case SetSpeed(_) => 2
  }

  /** A button edge is reported as a relative update with no displacement. */
  function ButtonCommand(h: InputReadings): (cmds: seq<EmulatorCommand>)
    ensures MouseButtonState(h).None? ==> cmds == []
    ensures MouseButtonState(h).Some? ==> cmds == [MouseUpdateRelative(0, 0, MouseButtonState(h))]
  {
    match MouseButtonState(h)
    case None => []
    case Some(pressed) => [MouseUpdateRelative(0, 0, Some(pressed))]
  }

  /** Motion, depending on the mouse mode, only when the host has a position. */
  function MotionCommand(mode: MouseMode, h: InputReadings): (cmds: seq<EmulatorCommand>)
    ensures |cmds| <= 1
    ensures !HasMousePosition(h) || mode == Disabled ==> cmds == []
    ensures HasMousePosition(h) && mode == RelativeHw ==>
      (cmds == [] <==> h.mouseDeltaX == 0 && h.mouseDeltaY == 0)
    ensures mode == RelativeHw && cmds != [] ==>
      cmds[0] == MouseUpdateRelative(ClampI32ToI16(h.mouseDeltaX), ClampI32ToI16(h.mouseDeltaY), None)
    ensures HasMousePosition(h) && mode == Absolute ==>
      cmds == [MouseUpdateAbsolute(ClampI32ToU16(h.mouseX), ClampI32ToU16(h.mouseY))]
  {
    if !HasMousePosition(h) then []
    else match mode
      case RelativeHw =>
        if h.mouseDeltaX != 0 || h.mouseDeltaY != 0 then
          [MouseUpdateRelative(ClampI32ToI16(h.mouseDeltaX), ClampI32ToI16(h.mouseDeltaY), None)]
        else []
      case Absolute => [MouseUpdateAbsolute(ClampI32ToU16(h.mouseX), ClampI32ToU16(h.mouseY))]
      case Disabled => []
  }

  function HandleMouse(mode: MouseMode, h: InputReadings): (cmds: seq<EmulatorCommand>)
    ensures cmds == ButtonCommand(h) + MotionCommand(mode, h)
    ensures |cmds| <= 2
    ensures forall i :: 0 <= i < |cmds| ==> Rank(cmds[i]) == 0
  {
    ButtonCommand(h) + MotionCommand(mode, h)
  }

  /** A motion command in relative mode never carries a zero displacement. */
  lemma RelativeMotionNeverZero(h: InputReadings)
    requires MotionCommand(RelativeHw, h) != []
    ensures MotionCommand(RelativeHw, h)[0].relx != 0 || MotionCommand(RelativeHw, h)[0].rely != 0
    ensures MotionCommand(RelativeHw, h)[0].btn.None?
  {
    var c := MotionCommand(RelativeHw, h)[0];
    assert h.mouseDeltaX != 0 || h.mouseDeltaY != 0;
    assert c.relx == ClampI32ToI16(h.mouseDeltaX) && c.rely == ClampI32ToI16(h.mouseDeltaY);
  }

  function HandleKeyboard(h: InputReadings): (cmds: seq<EmulatorCommand>)
    ensures |cmds| == (if HasKeyEvent(h) then 1 else 0)
    ensures forall i :: 0 <= i < |cmds| ==> Rank(cmds[i]) == 1
    ensures cmds != [] ==> cmds[0].KeyCommand?
    ensures cmds != [] ==> cmds[0].event.scancode == ClampI32ToU8(h.keyCode)
    ensures cmds != [] ==> cmds[0].event.keymap == Universal
    ensures cmds != [] ==> (cmds[0].event.KeyUp? <==> h.keyState == 0)
  {
    if HasKeyEvent(h) then
      var scancode := ClampI32ToU8(h.keyCode);
      var event := if h.keyState == 0 then KeyUp(scancode, Universal) else KeyDown(scancode, Universal);
      [KeyCommand(event)]
    else []
  }

  /** The fixed table of speed codes. */
  function SpeedFromCode(code: i32): (speed: Option<EmulatorSpeed>)
    ensures speed.Some? <==> code in {-2, 7, -1, 9}
  {
    match code
    case -2 => Some(Accurate)
    case 7 => Some(Dynamic)
    case -1 => Some(Uncapped)
    case 9 => Some(Video)
    case _ => None
  }

  /** The code the host uses to request each speed mode. */
  function SpeedCode(speed: EmulatorSpeed): i32 {
    match speed
    case Accurate => -2
    case Dynamic => 7
    case Uncapped => -1
    case Video => 9
  }

  /** The table is a bijection between the four codes and the four modes. */
  lemma SpeedCodeRoundTrip(code: i32, speed: EmulatorSpeed)
    ensures SpeedFromCode(SpeedCode(speed)) == Some(speed)
    ensures SpeedFromCode(code) == Some(speed) <==> code == SpeedCode(speed)
  {
  }

  function HandleSpeed(h: InputReadings): (cmds: seq<EmulatorCommand>)
    ensures |cmds| <= 1
    ensures forall i :: 0 <= i < |cmds| ==> Rank(cmds[i]) == 2
    ensures cmds != [] <==> SpeedEvent(h).Some? && SpeedFromCode(SpeedEvent(h).value).Some?
    ensures cmds != [] ==> cmds[0].SetSpeed? && SpeedCode(cmds[0].speed) == h.speed
  {
    match SpeedEvent(h)
    case None => []
    case Some(raw) =>
      match SpeedFromCode(raw)
      case None => []
      case Some(speed) => [SetSpeed(speed)]
  }

  // ---------------------------------------------------------------------------
  // One tick

  function Sends(cmds: seq<EmulatorCommand>): (effects: seq<InputEffect>)
    ensures |effects| == |cmds|
    ensures forall i :: 0 <= i < |cmds| ==> effects[i] == Send(cmds[i])
  {
    if cmds == [] then [] else [Send(cmds[0])] + Sends(cmds[1..])
  }

  /**
   * `Receiver::tick`: nothing at all when the lock is not acquired; otherwise
   * the mouse, keyboard and speed commands in that order, then one release.
   */
  function Tick(mode: MouseMode, h: InputReadings): (effects: seq<InputEffect>)
    ensures !AcquireLock(h) ==> effects == []
    ensures AcquireLock(h) ==>
      && 1 <= |effects| <= 5
      && effects[|effects| - 1] == ReleaseLock
      && (forall i :: 0 <= i < |effects| - 1 ==> effects[i].Send?)
    ensures forall i, j :: 0 <= i < j < |effects| && effects[i].Send? && effects[j].Send? ==>
      Rank(effects[i].command) <= Rank(effects[j].command)
    ensures AcquireLock(h) ==>
      effects == Sends(HandleMouse(mode, h) + HandleKeyboard(h) + HandleSpeed(h)) + [ReleaseLock]
  {
    if !AcquireLock(h) then []
    else
      var cmds := HandleMouse(mode, h) + HandleKeyboard(h) + HandleSpeed(h);
      Sends(cmds) + [ReleaseLock]
  }
}
