/** The clipboard functions of cpp_src/wxbridge.cpp. The system clipboard is seen
    through what the bridge can read from it: whether it opens, the text it holds
    (as the UTF-8 bytes wxString::mb_str(wxConvUTF8) gives) and the bytes of the
    "wx_bridge/custom" format. */
module NativeClipboard {
  import opened Wrappers

  newtype byte = x: int | 0 <= x < 256

  /** INT_MAX of a 32-bit C int. */
  const INT_MAX: int := 0x7FFF_FFFF

  /** strlen: the number of bytes before the first NUL, or all of them. */
  function CStrLen(s: seq<byte>): (n: nat)
    ensures n <= |s|
    ensures forall k :: 0 <= k < n ==> s[k] != 0
    ensures n < |s| ==> s[n] == 0
  {
    if s == [] || s[0] == 0 then 0 else 1 + CStrLen(s[1..])
  }

  /** The value of a clipboard that cannot be opened, or of the two formats. */
  datatype ClipboardState = ClipboardState(openable: bool, text: Option<seq<byte>>, custom: Option<seq<byte>>)

  /** CustomDataObject: a wxDataObjectSimple of format "wx_bridge/custom" that
      remembers a size and the bytes at a buffer address. */
  class CustomDataObject {
    var size: nat
    /** The memory the buffer pointer refers to. */
    var buffer: seq<byte>

    /** The buffer holds at least size bytes. */
    ghost predicate Valid()
      reads this
    {
      size <= |buffer|
    }

    /** CustomDataObject::CustomDataObject leaves size and buffer uninitialised: their
        indeterminate values are the parameters. */
    constructor (size0: nat, buffer0: seq<byte>)
      ensures size == size0 && buffer == buffer0
    {
      size, buffer := size0, buffer0;
    }

    /** CustomDataObject::SetData: remember len and buf; the caller hands over a
        buffer of at least len bytes. */
    method SetData(len: nat, buf: seq<byte>) returns (ok: bool)
      requires len <= |buf|
      modifies this
      ensures Valid() && ok
      ensures GetDataSize() == len && buffer == buf
    {
      size, buffer := len, buf;
      ok := true;
    }

    /** CustomDataObject::GetDataSize. */
    function GetDataSize(): nat
      reads this
    {
      size
    }

    /** CustomDataObject::GetDataHere: memcpy of exactly size bytes of the buffer into
        dest; the rest of dest is untouched. */
    method GetDataHere(dest: array<byte>) returns (ok: bool)
      requires Valid() && GetDataSize() <= dest.Length
      modifies dest
      ensures ok
      ensures dest[..size] == buffer[..size]
      ensures dest[size..] == old(dest[size..])
    {
      forall k | 0 <= k < size {
        dest[k] := buffer[k];
      }
      ok := true;
    }
  }

  /** What SetData then GetDataHere copies: exactly the first len bytes of buf. */
  method CustomDataRoundTrip(len: nat, buf: seq<byte>, dest: array<byte>)
    requires len <= |buf| && len <= dest.Length
    modifies dest
    ensures dest[..len] == buf[..len]
    ensures dest[len..] == old(dest[len..])
  {
    var data := new CustomDataObject(0, []);
    var ok := data.SetData(len, buf);
    assert data.GetDataSize() == len;
    ok := data.GetDataHere(dest);
  }

  /** get_string_from_clipboard as written (cpp_src/wxbridge.cpp:546-547). In a
      wide-character wx build, mb_str(wxConvUTF8) returns a buffer object by value that
      is destroyed at the end of the declaration of src, so src points to released
      memory. released stands for the bytes found there when strncpy runs: it copies
      them up to their first NUL into dest. None stands for a copy that runs past the
      end of dest. */
  function StringFetchAsWritten(dest: seq<byte>, released: seq<byte>): Option<seq<byte>>
  {
    var n := CStrLen(released);
    if n <= |dest| then Some(released[..n] + dest[n..]) else None
  }

  /** Whatever the clipboard text, the fetch as written can miss it. The Rust side sizes
      a zeroed vector by the probe, which measured the text correctly. If the released
      buffer starts with a NUL, nothing is copied and the vector stays zero; if it holds
      more bytes than the probe counted before its first NUL, strncpy writes past the
      vector. */
  lemma {:induction false} StringFetchAsWrittenMissesText(text: seq<byte>)
    requires CStrLen(text) > 0
    ensures var dest := seq(CStrLen(text), _ => 0 as byte);
      && StringFetchAsWritten(dest, [0]) == Some(dest)
      && dest != text[..CStrLen(text)]
      && StringFetchAsWritten(dest, seq(CStrLen(text) + 1, _ => 1 as byte) + [0]) == None
  {
    var n := CStrLen(text);
    var dest := seq(n, _ => 0 as byte);
    assert text[..n][0] == text[0] != 0;
    assert CStrLen([0]) == 0;
    assert [0][..0] + dest[0..] == dest;
    var released := seq(n + 1, _ => 1 as byte) + [0];
    assert released[n + 1] == 0;
  }

  /** wxTheClipboard as the bridge sees it. A put replaces what the clipboard held:
      it holds one data object at a time. */
  class Clipboard {
    /** Whether wxTheClipboard->Open() succeeds. */
    var openable: bool
    var text: Option<seq<byte>>
    var custom: Option<seq<byte>>

    function State(): ClipboardState
      reads this
    {
      ClipboardState(openable, text, custom)
    }

    /** The custom size fits the int that get_clipboard_buffer_len returns. */
    ghost predicate Valid()
      reads this
    {
      custom.Some? ==> |custom.value| <= INT_MAX
    }

    constructor (openable: bool, text: Option<seq<byte>>, custom: Option<seq<byte>>)
      requires custom.Some? ==> |custom.value| <= INT_MAX
      ensures Valid() && State() == ClipboardState(openable, text, custom)
    {
      this.openable, this.text, this.custom := openable, text, custom;
    }

    /** put_string_on_clipboard: if the clipboard opens, it now holds this text only. */
    method PutStringOnClipboard(s: seq<byte>)
      requires Valid()
      modifies this
      ensures Valid()
      ensures openable == old(openable)
      ensures old(openable) ==> text == Some(s) && custom == None
      ensures !old(openable) ==> text == old(text) && custom == old(custom)
    {
      if openable {
        text, custom := Some(s), None;
      }
    }

    /** get_clipboard_string_len: -1 when the clipboard does not open or holds no text,
        else strlen of the text's UTF-8 bytes. */
    method GetClipboardStringLen() returns (len: int)
      ensures len == -1 <==> !openable || text.None?
      ensures len != -1 ==> len == CStrLen(text.value)
    {
      if openable {
        if text.Some? {
          len := CStrLen(text.value);
        } else {
          len := -1;
        }
      } else {
        len := -1;
      }
    }

    /** get_string_from_clipboard, as evidently intended: strncpy of strlen(src) bytes
        of the text's UTF-8 form into dest, without a terminator; nothing is written when
        the clipboard does not open. The code as written reads that form through a
        released buffer; see StringFetchAsWritten. */
    method GetStringFromClipboard(dest: array<byte>)
      requires openable && text.Some? ==> CStrLen(text.value) <= dest.Length
      modifies dest
      ensures openable && text.Some? ==>
        (dest[..CStrLen(text.value)] == text.value[..CStrLen(text.value)] &&
         dest[CStrLen(text.value)..] == old(dest[CStrLen(text.value)..]))
      ensures !(openable && text.Some?) ==> dest[..] == old(dest[..])
    {
      if openable && text.Some? {
        var n := CStrLen(text.value);
        forall k | 0 <= k < n {
          dest[k] := text.value[k];
        }
      }
    }

    /** put_buffer_on_clipboard: if the clipboard opens, it now holds the first len
        bytes of buf in the custom format only. */
    method PutBufferOnClipboard(buf: seq<byte>, len: int)
      requires Valid()
      requires 0 <= len <= |buf| && len <= INT_MAX
      modifies this
      ensures Valid()
      ensures openable == old(openable)
      ensures old(openable) ==> text == None && custom == Some(buf[..len])
      ensures !old(openable) ==> text == old(text) && custom == old(custom)
    {
      if openable {
        var data := new CustomDataObject(0, []);
        var ok := data.SetData(len, buf);
        text, custom := None, Some(data.buffer[..data.GetDataSize()]);
      }
    }

    /** get_clipboard_buffer_len: -1 when the clipboard does not open or holds no
        custom data, else the size of that data. */
    method GetClipboardBufferLen() returns (len: int)
      requires Valid()
      ensures len == -1 <==> !openable || custom.None?
      ensures len != -1 ==> len == |custom.value|
    {
      if openable {
        if custom.Some? {
          var data := new CustomDataObject(0, []);
          var ok := data.SetData(|custom.value|, custom.value);
          len := data.GetDataSize();
        } else {
          len := -1;
        }
      } else {
        len := -1;
      }
    }

    /** get_buffer_from_clipboard: the custom bytes, copied into dest. */
    method GetBufferFromClipboard(dest: array<byte>)
      requires openable ==> custom.Some? && |custom.value| <= dest.Length
      modifies dest
      ensures openable ==>
        (dest[..|custom.value|] == custom.value && dest[|custom.value|..] == old(dest[|custom.value|..]))
      ensures !openable ==> dest[..] == old(dest[..])
    {
      if openable {
        var data := new CustomDataObject(0, []);
        var ok := data.SetData(|custom.value|, custom.value);
        ok := data.GetDataHere(dest);
      }
    }
  }
}
