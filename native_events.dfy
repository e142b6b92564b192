/** The event classification of cpp_src/wxbridge.cpp: the C enum bridge_event_type,
    whose enumerators take the values 0, 1, 2, ... in declaration order, and
    wxEventTypeToBridgeEventType, which maps a wx event type to one of them. */
module NativeEvents {

  /** The wx event types the bridge recognises, and every other one. */
  datatype WxEventType =
    | Motion | LeftDown | LeftUp | LeftDclick
    | MiddleDown | MiddleUp | MiddleDclick
    | RightDown | RightUp | RightDclick
    | Aux1Down | Aux1Up | Aux1Dclick
    | Aux2Down | Aux2Up | Aux2Dclick
    | MouseWheel | EnterWindow | LeaveWindow
    | KeyDown | KeyUp | Size | Move | Activate | Timer | CloseWindow | Menu
    | Other(code: int)

  // enum bridge_event_type
  const UNKNOWN_EVENT: int := 0
  const MOUSE_MOTION: int := 1
  const MOUSE_LEFT_DOWN: int := 2
  const MOUSE_LEFT_UP: int := 3
  const MOUSE_MIDDLE_DOWN: int := 4
  const MOUSE_MIDDLE_UP: int := 5
  const MOUSE_RIGHT_DOWN: int := 6
  const MOUSE_RIGHT_UP: int := 7
  const MOUSE_AUX1_DOWN: int := 8
  const MOUSE_AUX1_UP: int := 9
  const MOUSE_AUX2_DOWN: int := 10
  const MOUSE_AUX2_UP: int := 11
  const MOUSE_RIGHT_DCLICK: int := 12
  const MOUSE_LEFT_DCLICK: int := 13
  const MOUSE_MIDDLE_DCLICK: int := 14
  const MOUSE_AUX1_DCLICK: int := 15
  const MOUSE_AUX2_DCLICK: int := 16
  const MOUSE_WHEEL: int := 17
  const MOUSE_ENTER_WINDOW: int := 18
  const MOUSE_LEAVE_WINDOW: int := 19
  const KEY_DOWN: int := 20
  const KEY_UP: int := 21
  const RESIZE: int := 22
  const WINDOW_MOVE: int := 23
  const FOCUS: int := 24
  const TIMER: int := 25
  const EXIT: int := 26
  const MENU: int := 27
  /** The number of enumerators of bridge_event_type. */
  const BRIDGE_EVENT_TYPE_COUNT: int := 28

  /** wxEventTypeToBridgeEventType: a recognised type gets a non-zero code of the
      enum, any other type UNKNOWN_EVENT. */
  function WxEventTypeToBridgeEventType(t: WxEventType): (code: int)
    ensures 0 <= code < BRIDGE_EVENT_TYPE_COUNT
    ensures code == UNKNOWN_EVENT <==> t.Other?
  {
    match t
    case Motion => MOUSE_MOTION
    case LeftDown => MOUSE_LEFT_DOWN
    case LeftUp => MOUSE_LEFT_UP
    case LeftDclick => MOUSE_LEFT_DCLICK
    case MiddleDown => MOUSE_MIDDLE_DOWN
    case MiddleUp => MOUSE_MIDDLE_UP
    case MiddleDclick => MOUSE_MIDDLE_DCLICK
    case RightDown => MOUSE_RIGHT_DOWN
    case RightUp => MOUSE_RIGHT_UP
    case RightDclick => MOUSE_RIGHT_DCLICK
    case Aux1Down => MOUSE_AUX1_DOWN
    case Aux1Up => MOUSE_AUX1_UP
    case Aux1Dclick => MOUSE_AUX1_DCLICK
    case Aux2Down => MOUSE_AUX2_DOWN
    case Aux2Up => MOUSE_AUX2_UP
    case Aux2Dclick => MOUSE_AUX2_DCLICK
    case MouseWheel => MOUSE_WHEEL
    case EnterWindow => MOUSE_ENTER_WINDOW
    case LeaveWindow => MOUSE_LEAVE_WINDOW
    case KeyDown => KEY_DOWN
    case KeyUp => KEY_UP
    case Size => RESIZE
    case Move => WINDOW_MOVE
    case Activate => FOCUS
    case Timer => TIMER
    case CloseWindow => EXIT
    case Menu => MENU
    case Other(_) => UNKNOWN_EVENT
  }

  /** The recognised wx event type each non-zero code stands for. */
  function WxEventTypeOfCode(code: int): (t: WxEventType)
    requires 0 < code < BRIDGE_EVENT_TYPE_COUNT
    ensures !t.Other?
  {
    match code
    case 1 => Motion
    case 2 => LeftDown
    case 3 => LeftUp
    case 4 => MiddleDown
    case 5 => MiddleUp
    case 6 => RightDown
    case 7 => RightUp
    case 8 => Aux1Down
    case 9 => Aux1Up
    case 10 => Aux2Down
    case 11 => Aux2Up
    case 12 => RightDclick
    case 13 => LeftDclick
    case 14 => MiddleDclick
    case 15 => Aux1Dclick
    case 16 => Aux2Dclick
    case 17 => MouseWheel
    case 18 => EnterWindow
    case 19 => LeaveWindow
    case 20 => KeyDown
    case 21 => KeyUp
    case 22 => Size
    case 23 => Move
    case 24 => Activate
    case 25 => Timer
    case 26 => CloseWindow
    case _ => Menu
  }

  /** Every recognised type can be told back from its code, so the 27 recognised
      types get 27 distinct codes. */
  lemma CodeDeterminesEventType(t: WxEventType)
    requires !t.Other?
    ensures WxEventTypeOfCode(WxEventTypeToBridgeEventType(t)) == t
  {
  }

  lemma {:induction false} RecognisedCodesDistinct(t1: WxEventType, t2: WxEventType)
    requires !t1.Other? && !t2.Other?
    requires WxEventTypeToBridgeEventType(t1) == WxEventTypeToBridgeEventType(t2)
    ensures t1 == t2
  {
    CodeDeterminesEventType(t1);
    CodeDeterminesEventType(t2);
  }

  /** Every code of the enum but UNKNOWN_EVENT is produced by some recognised type. */
  lemma {:induction false} EveryCodeProduced(code: int)
    requires 0 < code < BRIDGE_EVENT_TYPE_COUNT
    ensures WxEventTypeToBridgeEventType(WxEventTypeOfCode(code)) == code
  {
    if code < 10 {
    } else if code < 19 {
    } else {
    }
  }
}
