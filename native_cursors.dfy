/** The cursors of cpp_src/wxbridge.cpp: the C enum cursor, cursorToStock, the
    frame's table of cursors filled by InitCursors, and set_cursor. */
module NativeCursors {

  // enum cursor
  const NO_CURSOR: int := 0
  const ARROW_CURSOR: int := 1
  const CROSS_CURSOR: int := 2
  const HAND_CURSOR: int := 3
  const IBEAM_CURSOR: int := 4
  const MAGNIFY_CURSOR: int := 5
  const NO_ENTRY_CURSOR: int := 6
  const PENCIL_CURSOR: int := 7
  const SIZE_CURSOR: int := 8
  const SIZE_NESW_CURSOR: int := 9
  const SIZE_NS_CURSOR: int := 10
  const SIZE_NWSE_CURSOR: int := 11
  const SIZE_WE_CURSOR: int := 12
  /** The last enumerator: the number of cursors, and the size of the table. */
  const NUMBER_OF_CURSORS: int := 13

  /** The wx stock cursors the bridge uses. */
  datatype StockCursor =
    | StockArrow | StockBlank | StockCross | StockHand | StockIbeam | StockMagnifier
    | StockNoEntry | StockPencil | StockSizing | StockSizeNesw | StockSizeNs
    | StockSizeNwse | StockSizeWe

  /** cursorToStock: NO_CURSOR is the blank cursor, each other enumerator its stock
      cursor, and any other value the arrow. */
  function CursorToStock(c: int): (s: StockCursor)
    ensures c == NO_CURSOR ==> s == StockBlank
    ensures (c < 0 || NUMBER_OF_CURSORS <= c) ==> s == StockArrow
    ensures s == StockArrow ==> c == ARROW_CURSOR || c < 0 || NUMBER_OF_CURSORS <= c
  {
    if c == ARROW_CURSOR then StockArrow
    else if c == NO_CURSOR then StockBlank
    else if c == CROSS_CURSOR then StockCross
    else if c == HAND_CURSOR then StockHand
    else if c == IBEAM_CURSOR then StockIbeam
    else if c == MAGNIFY_CURSOR then StockMagnifier
    else if c == PENCIL_CURSOR then StockPencil
    else if c == SIZE_CURSOR then StockSizing
    else if c == SIZE_NESW_CURSOR then StockSizeNesw
    else if c == SIZE_NS_CURSOR then StockSizeNs
    else if c == SIZE_NWSE_CURSOR then StockSizeNwse
    else if c == SIZE_WE_CURSOR then StockSizeWe
    else if c == NO_ENTRY_CURSOR then StockNoEntry
    else StockArrow
  }

  /** The enumerator a stock cursor is made from. */
  function CursorOfStock(s: StockCursor): (c: int)
    ensures 0 <= c < NUMBER_OF_CURSORS
  {
    match s
    case StockBlank => NO_CURSOR
    case StockArrow => ARROW_CURSOR
    case StockCross => CROSS_CURSOR
    case StockHand => HAND_CURSOR
    case StockIbeam => IBEAM_CURSOR
    case StockMagnifier => MAGNIFY_CURSOR
    case StockNoEntry => NO_ENTRY_CURSOR
    case StockPencil => PENCIL_CURSOR
    case StockSizing => SIZE_CURSOR
    case StockSizeNesw => SIZE_NESW_CURSOR
    case StockSizeNs => SIZE_NS_CURSOR
    case StockSizeNwse => SIZE_NWSE_CURSOR
    case StockSizeWe => SIZE_WE_CURSOR
  }

  /** On the enumerators, cursorToStock is one-to-one and onto the stock cursors:
      no two cursors of the enum look the same. */
  lemma {:induction false} CursorToStockBijective(c: int, s: StockCursor)
    requires 0 <= c < NUMBER_OF_CURSORS
    ensures CursorOfStock(CursorToStock(c)) == c
    ensures CursorToStock(CursorOfStock(s)) == s
  {
    assert c in {0, 1, 2, 3, 4, 5, 6, 7, 8, 9, 10, 11, 12};
  }

  /** The part of MyFrame that holds the cursors. */
  class CursorFrame {
    /** MyFrame::cursors, of length NUMBER_OF_CURSORS. */
    var cursors: array<StockCursor>
    /** The cursor last set on the frame. */
    var current: StockCursor

    /** MyFrame::MyFrame: the cursor table is filled by InitCursors before the frame
        is shown, so no frame exists without its cursors. */
    constructor ()
      ensures fresh(cursors) && Initialised()
      ensures current == StockArrow
    {
      cursors := new StockCursor[NUMBER_OF_CURSORS](_ => StockArrow);
      current := StockArrow;
      new;
      InitCursors();
    }

    /** MyFrame::InitCursors: slot i holds the cursor made from enumerator i. */
    method InitCursors()
      requires cursors.Length == NUMBER_OF_CURSORS
      modifies cursors
      ensures forall i :: 0 <= i < NUMBER_OF_CURSORS ==> cursors[i] == CursorToStock(i)
    {
      var i := 0;
      while i < NUMBER_OF_CURSORS
        invariant 0 <= i <= NUMBER_OF_CURSORS
        invariant forall k :: 0 <= k < i ==> cursors[k] == CursorToStock(k)
      {
        cursors[i] := CursorToStock(i);
        i := i + 1;
      }
    }

    /** Filled: InitCursors has run. */
    ghost predicate Initialised()
      reads this, cursors
    {
      cursors.Length == NUMBER_OF_CURSORS &&
      forall i :: 0 <= i < NUMBER_OF_CURSORS ==> cursors[i] == CursorToStock(i)
    }

    /** set_cursor: the frame shows the cursor in slot c. The C function does not check
        c, so c must be an enumerator below NUMBER_OF_CURSORS. */
    method SetCursor(c: int)
      requires Initialised()
      requires 0 <= c < NUMBER_OF_CURSORS
      modifies this
      ensures cursors == old(cursors) && Initialised()
      ensures current == CursorToStock(c)
    {
      current := cursors[c];
    }
  }
}
