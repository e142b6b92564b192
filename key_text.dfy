/** get_event_string of src/bridge.rs: the text a key event types, if any. The native
    accessors get_event_char, get_modifiers and shift_down become the fields of a
    key event record. */
module KeyText {
  import opened Wrappers
  import opened BridgeTypes

  /** A u32 of the C interface. */
  newtype u32 = x: int | 0 <= x < 0x1_0000_0000

  /** What get_event_string asks of the native key event. */
  datatype KeyEvent = KeyEvent(code: u32, modifiers: Modifiers, shiftDown: bool)

  /** NUL, backspace, tab, carriage return, escape and delete type nothing. */
  predicate IsControlCode(c: u32)
  {
    c == 0 || c == 8 || c == 9 || c == 13 || c == 27 || c == 127
  }

  /** char::from_u32 succeeds: c is a Unicode scalar value. */
  predicate IsScalarValue(c: u32)
  {
    c < 0xD800 || (0xDFFF < c && c <= 0x10_FFFF)
  }

  /** The 20 keys whose shifted symbol wxWidgets does not report, unshifted ... */
  const UNSHIFTED: string := ",-./0123456789;=[\\]`"
  /** ... and the symbol each types with shift held, in the same order. */
  const SHIFTED: string := "<_>?)!@#$%^&*(:+{|}~"

  /** The text of a valid code typed with shift held: the 20 listed codes give their
      listed symbol, any other code its own character. */
  function ShiftedText(c: u32): string
    requires IsScalarValue(c)
  {
    match c
    case 44 => "<"
    case 45 => "_"
    case 46 => ">"
    case 47 => "?"
    case 48 => ")"
    case 49 => "!"
    case 50 => "@"
    case 51 => "#"
    case 52 => "$"
    case 53 => "%"
    case 54 => "^"
    case 55 => "&"
    case 56 => "*"
    case 57 => "("
    case 59 => ":"
    case 61 => "+"
    case 91 => "{"
    case 92 => "|"
    case 93 => "}"
    case 96 => "~"
    case _ => [c as int as char]
  }

  /** char::to_lowercase on ASCII: 'A'..'Z' become 'a'..'z', the rest stays. */
  function LowerCase(ch: char): (r: string)
    ensures |r| == 1
    ensures 'A' <= ch <= 'Z' ==> r[0] as int == ch as int + 32
    ensures !('A' <= ch <= 'Z') ==> r == [ch]
    ensures !('A' <= r[0] <= 'Z')
    ensures ('a' <= r[0] <= 'z') <==> ('a' <= ch <= 'z' || 'A' <= ch <= 'Z')
  {
    if 'A' <= ch <= 'Z' then [(ch as int + 32) as char] else [ch]
  }

  /** Lower-casing twice is lower-casing once. */
  lemma LowerCaseIdempotent(ch: char)
    ensures LowerCase(LowerCase(ch)[0]) == LowerCase(ch)
  {
  }

  /** get_event_string: no text for a control code, for any modifier but SHIFT, or for
      a code that is not a character; otherwise one character, shifted through the
      table with shift held and lower-cased without. */
  function GetEventString(e: KeyEvent): (r: Option<string>)
    ensures r.Some? <==>
      !IsControlCode(e.code) && Difference(e.modifiers, SHIFT) == NONE && IsScalarValue(e.code)
    ensures r.Some? ==> |r.value| == 1
  {
    if IsControlCode(e.code) then None
    else if Difference(e.modifiers, SHIFT) != NONE then None
    else if !IsScalarValue(e.code) then None
    else if e.shiftDown then Some(ShiftedText(e.code))
    else Some(LowerCase(e.code as int as char))
  }

  /** With shift held, each listed key types exactly its listed symbol. */
  lemma {:induction false} ShiftTable(e: KeyEvent, k: nat)
    requires k < |UNSHIFTED|
    requires e.code as int == UNSHIFTED[k] as int
    requires e.shiftDown && (e.modifiers == NONE || e.modifiers == SHIFT)
    ensures GetEventString(e) == Some([SHIFTED[k]])
  {
    OnlyShiftLeavesNothing(e.modifiers);
    assert k in {0, 1, 2, 3, 4, 5, 6, 7, 8, 9, 10, 11, 12, 13, 14, 15, 16, 17, 18, 19};
  }

  /** Each code the shifted match lists is the code of a symbol of the table. */
  lemma UnshiftedIndex(c: int) returns (k: nat)
    requires c in {44, 45, 46, 47, 48, 49, 50, 51, 52, 53, 54, 55, 56, 57, 59, 61, 91, 92, 93, 96}
    ensures k < |UNSHIFTED| && UNSHIFTED[k] as int == c
  {
    k := if c <= 57 then c - 44 else if c == 59 then 14 else if c == 61 then 15
      else if c <= 93 then c - 75 else 19;
  }

  /** With shift held, any other valid code types its own character. */
  lemma {:induction false} ShiftKeepsOtherCodes(e: KeyEvent)
    requires e.shiftDown && (e.modifiers == NONE || e.modifiers == SHIFT)
    requires !IsControlCode(e.code) && IsScalarValue(e.code)
    requires forall k :: 0 <= k < |UNSHIFTED| ==> UNSHIFTED[k] as int != e.code as int
    ensures GetEventString(e) == Some([e.code as int as char])
  {
    OnlyShiftLeavesNothing(e.modifiers);
    var c := e.code as int;
    if c in {44, 45, 46, 47, 48, 49, 50, 51, 52, 53, 54, 55, 56, 57, 59, 61, 91, 92, 93, 96} {
      var k := UnshiftedIndex(c);
      assert false;
    }
  }

  /** With shift held, the text is never one of the unshifted symbols of the table. */
  lemma {:induction false} ShiftedTextNeverUnshifted(e: KeyEvent)
    requires e.shiftDown && GetEventString(e).Some?
    ensures GetEventString(e).value[0] !in UNSHIFTED
  {
    var c := e.code;
    if GetEventString(e).value[0] in UNSHIFTED {
      var k :| 0 <= k < |UNSHIFTED| && UNSHIFTED[k] == GetEventString(e).value[0];
      OnlyShiftLeavesNothing(e.modifiers);
      assert false;
    }
  }

  /** Without shift, upper-case ASCII letters type their lower-case letter and every
      other ASCII code types itself. */
  lemma {:induction false} UnshiftedAscii(e: KeyEvent)
    requires !e.shiftDown && (e.modifiers == NONE || e.modifiers == SHIFT)
    requires !IsControlCode(e.code) && e.code < 128
    ensures 65 <= e.code <= 90 ==> GetEventString(e) == Some([(e.code as int + 32) as char])
    ensures !(65 <= e.code <= 90) ==> GetEventString(e) == Some([e.code as int as char])
  {
    OnlyShiftLeavesNothing(e.modifiers);
  }
}
