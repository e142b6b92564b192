/** The plain types src/bridge.rs shares with the C side: the #[repr(u32)] enums
    EventType and CursorType, whose values are their declaration ordinals, and the
    Modifiers bit flags. */
module BridgeTypes {
  import opened Wrappers
  import NativeEvents
  import NativeCursors

  /** EventType, in declaration order. */
  datatype EventType =
    | Unknown | MouseMotion
    | MouseLeftDown | MouseLeftUp | MouseMiddleDown | MouseMiddleUp
    | MouseRightDown | MouseRightUp | MouseAux1Down | MouseAux1Up
    | MouseAux2Down | MouseAux2Up
    | MouseRightDclick | MouseLeftDclick | MouseMiddleDclick | MouseAux1Dclick | MouseAux2Dclick
    | MouseWheel | MouseEnterWindow | MouseLeaveWindow
    | KeyDown | KeyUp | Resize | WindowMove | Focus | Timer | Exit | Menu

  /** The variants of EventType by ordinal. */
  const EVENT_TYPES: seq<EventType> := [
    Unknown, MouseMotion,
    MouseLeftDown, MouseLeftUp, MouseMiddleDown, MouseMiddleUp,
    MouseRightDown, MouseRightUp, MouseAux1Down, MouseAux1Up,
    MouseAux2Down, MouseAux2Up,
    MouseRightDclick, MouseLeftDclick, MouseMiddleDclick, MouseAux1Dclick, MouseAux2Dclick,
    MouseWheel, MouseEnterWindow, MouseLeaveWindow,
    KeyDown, KeyUp, Resize, WindowMove, Focus, Timer, Exit, Menu]

  /** The u32 value of an EventType. */
  function EventTypeOrdinal(e: EventType): (n: nat)
    ensures n < |EVENT_TYPES| && EVENT_TYPES[n] == e
  {
    match e
    case Unknown => 0
    case MouseMotion => 1
    case MouseLeftDown => 2
    case MouseLeftUp => 3
    case MouseMiddleDown => 4
    case MouseMiddleUp => 5
    case MouseRightDown => 6
    case MouseRightUp => 7
    case MouseAux1Down => 8
    case MouseAux1Up => 9
    case MouseAux2Down => 10
    case MouseAux2Up => 11
    case MouseRightDclick => 12
    case MouseLeftDclick => 13
    case MouseMiddleDclick => 14
    case MouseAux1Dclick => 15
    case MouseAux2Dclick => 16
    case MouseWheel => 17
    case MouseEnterWindow => 18
    case MouseLeaveWindow => 19
    case KeyDown => 20
    case KeyUp => 21
    case Resize => 22
    case WindowMove => 23
    case Focus => 24
    case Timer => 25
    case Exit => 26
    case Menu => 27
  }

  /** How the Rust side reads the int returned by get_event_type: the variant with
      that ordinal. Rust does not check the value: None stands for an out-of-range
      value, which is undefined behaviour for a #[repr(u32)] enum, not a recoverable
      "no variant". */
  function EventTypeFromRepr(code: int): (r: Option<EventType>)
    ensures r.Some? <==> 0 <= code < |EVENT_TYPES|
    ensures r.Some? ==> EventTypeOrdinal(r.value) == code
  {
    if 0 <= code < |EVENT_TYPES| then
      TableOrdinal(code);
      Some(EVENT_TYPES[code])
    else None
  }

  /** The variant at each index of the table has that index as its ordinal. */
  lemma TableOrdinal(code: nat)
    requires code < |EVENT_TYPES|
    ensures EventTypeOrdinal(EVENT_TYPES[code]) == code
  {
    if code < 7 {
    } else if code < 14 {
    } else if code < 21 {
    } else {
    }
  }

  /** What each wx event type means on the Rust side, variant by variant. */
  function IntendedEventType(t: NativeEvents.WxEventType): EventType
  {
    match t
    case Motion => MouseMotion
    case LeftDown => MouseLeftDown
    case LeftUp => MouseLeftUp
    case LeftDclick => MouseLeftDclick
    case MiddleDown => MouseMiddleDown
    case MiddleUp => MouseMiddleUp
    case MiddleDclick => MouseMiddleDclick
    case RightDown => MouseRightDown
    case RightUp => MouseRightUp
    case RightDclick => MouseRightDclick
    case Aux1Down => MouseAux1Down
    case Aux1Up => MouseAux1Up
    case Aux1Dclick => MouseAux1Dclick
    case Aux2Down => MouseAux2Down
    case Aux2Up => MouseAux2Up
    case Aux2Dclick => MouseAux2Dclick
    case MouseWheel => MouseWheel
    case EnterWindow => MouseEnterWindow
    case LeaveWindow => MouseLeaveWindow
    case KeyDown => KeyDown
    case KeyUp => KeyUp
    case Size => Resize
    case Move => WindowMove
    case Activate => Focus
    case Timer => Timer
    case CloseWindow => Exit
    case Menu => Menu
    case Other(_) => Unknown
  }

  /** The C enum bridge_event_type and the Rust EventType agree ordinal for ordinal:
      the code the C side computes for any wx event reads back on the Rust side as
      the variant of the same meaning. */
  lemma EventCodesAgree(t: NativeEvents.WxEventType)
    ensures EventTypeFromRepr(NativeEvents.WxEventTypeToBridgeEventType(t)) == Some(IntendedEventType(t))
  {
    match t {
      case Motion =>
      case LeftDown =>
      case LeftUp =>
      case LeftDclick =>
      case MiddleDown =>
      case MiddleUp =>
      case MiddleDclick =>
      case RightDown =>
      case RightUp =>
      case RightDclick =>
      case Aux1Down =>
      case Aux1Up =>
      case Aux1Dclick =>
      case Aux2Down =>
      case Aux2Up =>
      case Aux2Dclick =>
      case MouseWheel =>
      case EnterWindow =>
      case LeaveWindow =>
      case KeyDown =>
      case KeyUp =>
      case Size =>
      case Move =>
      case Activate =>
      case Timer =>
      case CloseWindow =>
      case Menu =>
      case Other(_) =>
    }
  }

  /** Both enums have the same number of values. */
  lemma EventEnumsSameSize()
    ensures |EVENT_TYPES| == NativeEvents.BRIDGE_EVENT_TYPE_COUNT
  {
  }

  /** CursorType, in declaration order. */
  datatype CursorType =
    | NoCursor | Arrow | Cross | Hand | Ibeam | Magnify | NoEntry | Pencil
    | Size | SizeNESW | SizeNS | SizeNWSE | SizeWE

  /** The u32 value of a CursorType, passed to set_cursor. */
  function CursorTypeOrdinal(c: CursorType): (n: nat)
    ensures n < NativeCursors.NUMBER_OF_CURSORS
  {
    match c
    case NoCursor => 0
    case Arrow => 1
    case Cross => 2
    case Hand => 3
    case Ibeam => 4
    case Magnify => 5
    case NoEntry => 6
    case Pencil => 7
    case Size => 8
    case SizeNESW => 9
    case SizeNS => 10
    case SizeNWSE => 11
    case SizeWE => 12
  }

  /** The stock cursor each CursorType means, variant by variant. */
  function IntendedStock(c: CursorType): NativeCursors.StockCursor
  {
    match c
    case NoCursor => NativeCursors.StockBlank
    case Arrow => NativeCursors.StockArrow
    case Cross => NativeCursors.StockCross
    case Hand => NativeCursors.StockHand
    case Ibeam => NativeCursors.StockIbeam
    case Magnify => NativeCursors.StockMagnifier
    case NoEntry => NativeCursors.StockNoEntry
    case Pencil => NativeCursors.StockPencil
    case Size => NativeCursors.StockSizing
    case SizeNESW => NativeCursors.StockSizeNesw
    case SizeNS => NativeCursors.StockSizeNs
    case SizeNWSE => NativeCursors.StockSizeNwse
    case SizeWE => NativeCursors.StockSizeWe
  }

  /** The C enum cursor and the Rust CursorType agree ordinal for ordinal: set_cursor
      with any CursorType indexes the table in bounds and shows the cursor of that
      name. */
  lemma CursorCodesAgree(c: CursorType)
    ensures 0 <= CursorTypeOrdinal(c) < NativeCursors.NUMBER_OF_CURSORS
    ensures NativeCursors.CursorToStock(CursorTypeOrdinal(c)) == IntendedStock(c)
  {
  }

  /** Modifiers: the raw bits of a key event; Modifiers::new keeps them all. */
  type Modifiers = bv32

  const NONE: Modifiers := 0x0
  const ALT: Modifiers := 0x1
  const CONTROL: Modifiers := 0x2
  const SHIFT: Modifiers := 0x4
  const META: Modifiers := 0x8

  /** a - b on bit flags: the bits of a that are not in b. */
  function Difference(a: Modifiers, b: Modifiers): (r: Modifiers)
    ensures r & b == 0
    ensures r | (a & b) == a
  {
    a & !b
  }

  /** Taking SHIFT away leaves nothing exactly when the bits are NONE or SHIFT. */
  lemma OnlyShiftLeavesNothing(m: Modifiers)
    ensures Difference(m, SHIFT) == NONE <==> m == NONE || m == SHIFT
  {
  }
}
