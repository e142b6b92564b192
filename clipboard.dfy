/** put_on_clipboard and get_from_clipboard of src/bridge.rs: the Rust data types and
    the "probe the length, then fetch" protocol over the native clipboard functions. */
module ClipboardBridge {
  import opened Wrappers
  import opened NativeClipboard

  /** A continuation byte 10xxxxxx. */
  predicate IsContinuation(b: byte)
  {
    0x80 <= b <= 0xBF
  }

  /** Well-formed UTF-8, byte sequence by byte sequence as Table 3-7 of the Unicode
      Standard (section 3.9) lists them: what String::from_utf8 accepts. */
  predicate ValidUtf8(s: seq<byte>)
    decreases |s|
  {
    if s == [] then true
    else if s[0] <= 0x7F then ValidUtf8(s[1..])
    else if 0xC2 <= s[0] <= 0xDF then
      |s| >= 2 && IsContinuation(s[1]) && ValidUtf8(s[2..])
    else if s[0] == 0xE0 then
      |s| >= 3 && 0xA0 <= s[1] <= 0xBF && IsContinuation(s[2]) && ValidUtf8(s[3..])
    else if (0xE1 <= s[0] <= 0xEC) || (0xEE <= s[0] <= 0xEF) then
      |s| >= 3 && IsContinuation(s[1]) && IsContinuation(s[2]) && ValidUtf8(s[3..])
    else if s[0] == 0xED then
      |s| >= 3 && 0x80 <= s[1] <= 0x9F && IsContinuation(s[2]) && ValidUtf8(s[3..])
    else if s[0] == 0xF0 then
      |s| >= 4 && 0x90 <= s[1] <= 0xBF && IsContinuation(s[2]) && IsContinuation(s[3]) && ValidUtf8(s[4..])
    else if 0xF1 <= s[0] <= 0xF3 then
      |s| >= 4 && IsContinuation(s[1]) && IsContinuation(s[2]) && IsContinuation(s[3]) && ValidUtf8(s[4..])
    else if s[0] == 0xF4 then
      |s| >= 4 && 0x80 <= s[1] <= 0x8F && IsContinuation(s[2]) && IsContinuation(s[3]) && ValidUtf8(s[4..])
    else false
  }

  /** The bytes of a Rust String: always well-formed UTF-8. */
  type Utf8Bytes = s: seq<byte> | ValidUtf8(s) witness []

  /** Data: a string, held as its UTF-8 bytes, or an application-defined buffer. */
  datatype Data = String(utf8: Utf8Bytes) | Custom(bytes: seq<byte>)

  const U32_MODULUS: int := 0x1_0000_0000

  /** The C int put_buffer_on_clipboard receives for `b.len() as u32`: the length
      modulo 2^32, read as a signed 32-bit value. */
  function BufferLenArgument(n: nat): (r: int)
    ensures -0x8000_0000 <= r <= INT_MAX
    ensures r >= 0 ==> r == n % U32_MODULUS && r <= n
    ensures n <= INT_MAX ==> r == n
  {
    var w := n % U32_MODULUS;
    if w <= INT_MAX then w else w - U32_MODULUS
  }

  /** What put_on_clipboard(d) leaves on the clipboard. */
  function AfterPut(st: ClipboardState, d: Data): ClipboardState
    requires d.Custom? ==> BufferLenArgument(|d.bytes|) >= 0
  {
    if !st.openable then st
    else match d
      case String(s) => ClipboardState(true, Some(s), None)
      case Custom(b) => ClipboardState(true, None, Some(b[..BufferLenArgument(|b|)]))
  }

  /** put_on_clipboard: a string goes to the text format only, a buffer to the custom
      format only, with the length the C side receives. The string must not contain
      a NUL byte (CString::new panics on one), and the buffer length must arrive as a
      non-negative C int. */
  method PutOnClipboard(cb: Clipboard, d: Data)
    requires cb.Valid()
    requires d.String? ==> 0 !in d.utf8
    requires d.Custom? ==> BufferLenArgument(|d.bytes|) >= 0
    modifies cb
    ensures cb.Valid()
    ensures cb.State() == AfterPut(old(cb.State()), d)
  {
    match d
    case String(s) =>
      cb.PutStringOnClipboard(s);
    case Custom(b) =>
      cb.PutBufferOnClipboard(b, BufferLenArgument(|b|));
  }

  /** What get_from_clipboard returns for a clipboard: custom bytes if there are any;
      else the text up to its first NUL, if that is non-empty and well-formed UTF-8;
      else nothing. */
  function ReadClipboard(st: ClipboardState): Option<Data>
  {
    if !st.openable then None
    else if st.custom.Some? && |st.custom.value| > 0 then Some(Custom(st.custom.value))
    else if st.text.Some? then
      var t := st.text.value[..CStrLen(st.text.value)];
      if t != [] && ValidUtf8(t) then Some(String(t)) else None
    else None
  }

  /** get_from_clipboard: probe the custom length; if positive, fetch that many bytes
      into a zeroed vector. Otherwise probe the text length; if positive, fetch the
      text into a zeroed vector and accept it only if it is UTF-8. */
  method GetFromClipboard(cb: Clipboard) returns (r: Option<Data>)
    requires cb.Valid()
    ensures r == ReadClipboard(cb.State())
  {
    var len := cb.GetClipboardBufferLen();
    if len > 0 {
      var dest := new byte[len](_ => 0);
      cb.GetBufferFromClipboard(dest);
      assert dest[..] == dest[..len];
      return Some(Custom(dest[..]));
    }
    var slen := cb.GetClipboardStringLen();
    if slen > 0 {
      var dest := new byte[slen](_ => 0);
      cb.GetStringFromClipboard(dest);
      assert dest[..] == cb.text.value[..CStrLen(cb.text.value)];
      if ValidUtf8(dest[..]) {
        r := Some(String(dest[..]));
      } else {
        r := None;
      }
    } else {
      r := None;
    }
  }

  /** The custom format is checked first: when it holds bytes, the text is never
      looked at. */
  lemma ReadPrefersCustom(st: ClipboardState, text: Option<seq<byte>>)
    requires st.openable && st.custom.Some? && |st.custom.value| > 0
    ensures ReadClipboard(st) == ReadClipboard(st.(text := text)) == Some(Custom(st.custom.value))
  {
  }

  /** A string without NUL bytes reads back as itself; the empty string reads back as
      nothing. */
  lemma {:induction false} StringRoundTrip(st: ClipboardState, s: Utf8Bytes)
    requires st.openable && 0 !in s
    ensures ReadClipboard(AfterPut(st, String(s))) == if s == [] then None else Some(String(s))
  {
    NoNulMeansFullLength(s);
    assert s[..|s|] == s;
  }

  /** strlen of bytes without a NUL is their length. */
  lemma {:induction false} NoNulMeansFullLength(s: seq<byte>)
    requires 0 !in s
    ensures CStrLen(s) == |s|
  {
    if s != [] {
      assert s[0] != 0;
      NoNulMeansFullLength(s[1..]);
    }
  }

  /** A buffer of at most INT_MAX bytes reads back as itself; the empty buffer reads
      back as nothing (and the text slot is empty after a buffer put). */
  lemma CustomRoundTrip(st: ClipboardState, b: seq<byte>)
    requires st.openable && |b| <= INT_MAX
    ensures ReadClipboard(AfterPut(st, Custom(b))) == if b == [] then None else Some(Custom(b))
  {
    assert b[..|b|] == b;
  }

  /** Nothing is read from a clipboard that does not open, whatever was put. */
  lemma UnopenableReadsNothing(st: ClipboardState, d: Data)
    requires !st.openable
    requires d.Custom? ==> BufferLenArgument(|d.bytes|) >= 0
    ensures ReadClipboard(AfterPut(st, d)) == None
  {
  }

  /** A buffer of 2^32 + 3 bytes arrives as length 3: only its first three bytes are
      put on the clipboard. */
  lemma HugeBufferTruncated(st: ClipboardState, b: seq<byte>)
    requires st.openable && |b| == U32_MODULUS + 3
    ensures ReadClipboard(AfterPut(st, Custom(b))) == Some(Custom(b[..3]))
  {
  }

  /** Text from elsewhere that is not UTF-8 (an overlong encoding of '/') reads as
      nothing. */
  lemma MalformedTextReadsNothing(st: ClipboardState)
    requires st.openable && st.custom == None && st.text == Some([0xC0, 0xAF])
    ensures ReadClipboard(st) == None
  {
    assert CStrLen([0xC0, 0xAF]) == 2;
  }

  /** Text from elsewhere holding a NUL reads only up to it. */
  lemma TextCutAtNul(st: ClipboardState)
    requires st.openable && st.custom == None && st.text == Some([0x61, 0x00, 0x62])
    ensures ReadClipboard(st) == Some(String([0x61]))
  {
    assert CStrLen([0x61, 0x00, 0x62]) == 1;
    assert st.text.value[..1] == [0x61];
    assert ValidUtf8([0x61]) by {
      assert [0x61 as byte][1..] == [];
    }
  }
}
