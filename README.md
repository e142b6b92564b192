# wx-rs bridge: menus, key text, clipboard, event and cursor tables

This project is a Dafny model of the sequential core of the wx-rs bridge. The bridge
is a Rust crate that drives wxWidgets through a thin C layer. The model covers:

- **Menus** (`src/menu.rs`). A `Menu<T>` owns an ordered list of entries, separators
  and submenus. A `MenuBar<T>` owns menus. Every insert and remove goes straight to a
  native `wxMenu` / `wxMenuBar`, and each inserted entry records the native id that
  wx hands out.
  - `Menu` and `MenuBar` are classes (`Menus.Menu`, `Menus.MenuBar`) whose lists are
    updated in place.
  - Once a menu is moved into its parent or into a bar, no Rust API changes it again,
    so it is held there as a value (`MenuTrees.MenuTree`).
  - The native side is the class `NativeMenus.Toolkit`. It maps every native menu to
    its item list and every bar to its slots, and holds the frame's bar and the id
    allocator.
  - `Menu.Valid` states that the native menu mirrors the Rust list position for
    position, nested menus included.
- **Native guards** (`cpp_src/wxbridge.cpp`). The insert, remove and enable functions
  act only inside `i <= count` (insert) or `i < count` (remove, enable).
  `delete_menu_bar` detaches a bar from the frame before deleting it.
- **Reverse lookup and toggling by id**. `get_entry_from_event_id` is shown equal to a
  first-match search over the depth-first list of entries. The positions that
  `enable_item_by_id` / `disable_item_by_id` toggle are given by `MenuTrees.Targets`.
- **Key text** (`get_event_string`). The native accessors become the fields of a
  `KeyEvent` record.
- **Clipboard** (`put_on_clipboard`, `get_from_clipboard`, the C length probes and
  `CustomDataObject`).
  - The system clipboard is seen as: whether it opens, its text as UTF-8 bytes, and
    the bytes of the custom format.
  - The length probes return -1 when the clipboard does not open or the format is
    missing.
- **Tables**. The `bridge_event_type` and `cursor` enums of the C side, the
  `EventType` and `CursorType` enums of the Rust side, and the `Modifiers` bits.

## Model

| member | source | states |
|---|---|---|
| Sequences.InsertAt | src/menu.rs:165 | `Vec::insert`: one longer, the item at i, earlier items kept, later ones shifted up by one |
| Sequences.RemoveAt | src/menu.rs:170 | `Vec::remove`: one shorter, earlier items kept, later ones shifted down by one |
| Sequences.RemoveInsertedIsIdentity | src/menu.rs:142-171 | removing at i what was just inserted at i restores the list |
| NativeMenus.Toolkit.CreateMenu | cpp_src/wxbridge.cpp:587-589 | a new empty native menu at an address not in use |
| NativeMenus.Toolkit.InsertSeparatorToMenu | cpp_src/wxbridge.cpp:591-595 | inserts a separator at i when i <= count; otherwise nothing changes |
| NativeMenus.Toolkit.InsertToMenu | cpp_src/wxbridge.cpp:597-601 | inserts an entry at i with a freshly allocated id and returns that id (only the guarded path returns) |
| NativeMenus.Toolkit.InsertSubmenu | cpp_src/wxbridge.cpp:603-607 | inserts an item opening the submenu at i when i <= count, consuming an id; otherwise nothing changes |
| NativeMenus.Toolkit.RemoveFromMenu | cpp_src/wxbridge.cpp:609-613 | (corrected; see Findings) removes position i when i < count; otherwise nothing changes |
| NativeMenus.Toolkit.EnableMenuItem | cpp_src/wxbridge.cpp:615-619 | (corrected; see Findings) sets the flag at position i when i < count; otherwise nothing changes |
| NativeMenus.Toolkit.CreateMenuBar | cpp_src/wxbridge.cpp:629-631 | a new empty native bar at an address not in use |
| NativeMenus.Toolkit.InsertToMenuBar | cpp_src/wxbridge.cpp:633-637 | inserts the menu at i when i <= count; otherwise nothing changes |
| NativeMenus.Toolkit.RemoveFromMenuBar | cpp_src/wxbridge.cpp:639-643 | removes slot i when i < count; otherwise nothing changes |
| NativeMenus.Toolkit.SetMenuBar | cpp_src/wxbridge.cpp:645-647 | the frame shows the bar |
| NativeMenus.Toolkit.DeleteMenuBar | cpp_src/wxbridge.cpp:649-654 | the bar is gone, and the frame no longer shows it if it did; the frame never refers to a deleted bar |
| NativeMenus.SetEnabledEffect | cpp_src/wxbridge.cpp:615-619 | only the flag at the position changes, and only when it is in range; no item kind changes |
| NativeMenus.EnableAllEffect | src/menu.rs:53-81 | toggling positions in turn: every listed position in range gets the flag, every other item is unchanged |
| NativeMenus.RemoveChildWithId | cpp_src/wxbridge.cpp:611 | `wxMenu::Remove(int id)` drops at most one child, and none when no child has that id |
| NativeMenus.EnableChildWithId | cpp_src/wxbridge.cpp:617 | `wxMenu::Enable(int id, bool)` changes nothing when no child has that id |
| NativeMenus.AsWrittenIgnoresPositions | cpp_src/wxbridge.cpp:609-619 | with wx-allocated (negative) ids only, remove and enable as written never act, whatever the position |
| NativeMenus.RemoveAsWrittenDesynchronises | cpp_src/wxbridge.cpp:609-613 | removing position 0 of a one-entry menu as written leaves the native menu full while the Rust list empties |
| NativeMenus.EnableAsWrittenMissesPosition | cpp_src/wxbridge.cpp:615-619 | disabling position 0 as written leaves the entry enabled; the positional version disables it |
| NativeMenus.RemoveByPositionUndoesInsert | cpp_src/wxbridge.cpp:609-613 | the evidently intended removal at position i undoes an insert at i of any native item |
| MenuTrees.NewEntryFoundByItsNativeId | src/menu.rs:37-49 | an entry built by `MenuEntry::new`, with or without `help`, keeps its name and help, and once stored under a fresh native id is found by that id and answers the id it was built with |
| MenuTrees.FirstMatch | src/menu.rs:114-132 | reference search: None exactly when no entry has the id, else the id of the first entry that has it |
| MenuTrees.FindIsFirstMatch | src/menu.rs:114-132 | the recursive walk (submenus before later siblings) equals the first-match search over the depth-first entries |
| MenuTrees.LookupMissIff | src/menu.rs:114-132 | the lookup fails exactly when no entry at any depth recorded that native id |
| MenuTrees.LookupHitIsFirst | src/menu.rs:114-132 | a hit is the first entry, depth first, that recorded that native id |
| MenuTrees.LookupRoundTrip | src/menu.rs:114-132 | with distinct native ids, looking up any entry's recorded id gives that entry's application id |
| MenuTrees.EntriesAfterInsert | src/menu.rs:142-166 | after an insert at i, the new item's entries sit between those before i and those from i on |
| MenuTrees.EntriesAfterRemove | src/menu.rs:168-171 | after a remove at i, the removed item's entries are gone and the rest keep their order |
| MenuTrees.LookupAfterInsertEntry | src/menu.rs:142-166 | an inserted entry with a fresh native id is found by it; every other id finds what it found before |
| MenuTrees.LookupAfterInsertSeparator | src/menu.rs:163 | inserting a separator changes no lookup |
| MenuTrees.LookupAfterRemoveEntry | src/menu.rs:168-171 | with distinct ids, a removed entry's id is no longer found; every other id finds what it found before |
| MenuTrees.TargetsAreMatchingEntries | src/menu.rs:53-81 | every toggled position holds an entry, at some depth, with the requested id |
| MenuTrees.TargetsEmptyIff | src/menu.rs:53-81 | nothing is toggled exactly when no entry at any depth has the id |
| MenuTrees.TargetsStopAtFirstDirect | src/menu.rs:56-60 | the first direct entry with the id is the last position toggled: that level's scan returns there |
| MenuTrees.SeveralEntriesToggled | src/menu.rs:62 | a hit inside a submenu does not stop the scan: two entries with the same id are both toggled |
| MenuTrees.MirroredHandlesPresent | src/menu.rs:142-166 | every menu of a mirrored tree exists natively |
| MenuTrees.MirrorsFrame | src/menu.rs:134-140 | mirroring depends only on item kinds: changing enabled flags or other menus keeps it |
| MenuTrees.MirrorsElsewhere | src/menu.rs:142-171 | changing a native menu outside a subtree keeps that subtree mirrored |
| MenuTrees.NativeKindCorresponds | src/menu.rs:143-163 | the native item built for a Rust item corresponds to it (a submenu needs a name) |
| MenuTrees.MirrorsAfterInsert | src/menu.rs:142-166 | the same insert on both sides keeps the tree mirrored |
| MenuTrees.MirrorsAfterRemove | src/menu.rs:168-171 | the same remove on both sides keeps the tree mirrored |
| MenuTrees.FindInMenusIsFirstMatch | src/menu.rs:228-236 | the bar's search equals the first-match search over the entries of all its menus in order |
| MenuTrees.FindInMenusFirstHit | src/menu.rs:228-236 | the first menu whose search succeeds answers for the bar |
| MenuTrees.FindInMenusFindsNothing | src/menu.rs:228-236 | the bar's search fails exactly when every menu's search fails |
| Menus.ToggleById | src/menu.rs:53-81 | the loop with early return and recursion toggles exactly the positions of `Targets`, in order |
| Menus.ToggleItem | src/menu.rs:55-63 | one step of the scan: a hit exactly for a direct entry with the id, which is then the only position toggled; a submenu is toggled in full before the scan moves on |
| Menus.Menu.constructor | src/menu.rs:85-92 | a new empty native menu; the Rust list is empty and mirrors it |
| Menus.Menu.SetHelp | src/menu.rs:94-97 | sets the help and nothing else |
| Menus.Menu.Insert | src/menu.rs:142-166 | the same insert on both sides; an entry records the id the native insert returned and is then found by it; other lookups are unchanged; the mirror is kept |
| Menus.Menu.PushSeparator | src/menu.rs:99-102 | insert at the end: the separator is the last item on both sides |
| Menus.Menu.PushEntry | src/menu.rs:104-107 | insert at the end: the entry is last, records the next id, and that id finds it |
| Menus.Menu.PushSubmenu | src/menu.rs:109-112 | insert at the end: the submenu is last; the native item opens it, titled with its name |
| Menus.Menu.Remove | src/menu.rs:168-171 | the same remove on both sides; later items move down and keep their native ids; a removed entry is no longer found |
| Menus.Menu.SetItemEnabled | src/menu.rs:134-140 | the native flag at i changes when i is in range; the list and the mirror are unchanged |
| Menus.Menu.EnableItem | src/menu.rs:134-136 | enables native position i when it is in range |
| Menus.Menu.DisableItem | src/menu.rs:138-140 | disables native position i when it is in range |
| Menus.Menu.SetEnabledById | src/menu.rs:53-81 | toggles exactly the positions of `Targets` |
| Menus.Menu.EnableItemById | src/menu.rs:53-66 | enables exactly the positions of `Targets` |
| Menus.Menu.DisableItemById | src/menu.rs:68-81 | disables exactly the positions of `Targets` |
| Menus.Menu.GetEntryFromEventId | src/menu.rs:114-132 | the first entry, depth first, with that native id |
| Menus.MenuBar.constructor | src/menu.rs:185-190 | a new empty native bar; the Rust list is empty |
| Menus.MenuBar.Show | src/menu.rs:192-194 | the frame shows this bar |
| Menus.MenuBar.Append | src/menu.rs:196-204 | native insert at index `menus.len()` under the name or "Default"; the menu becomes the last one |
| Menus.MenuBar.Insert | src/menu.rs:206-214 | the same insert on both sides |
| Menus.MenuBar.Remove | src/menu.rs:216-219 | the same remove on both sides |
| Menus.MenuBar.Clear | src/menu.rs:221-226 | removing from the last index down keeps every native index in range and leaves both sides empty |
| Menus.MenuBar.GetEntryFromEventId | src/menu.rs:228-236 | the first entry with that native id over all menus in order |
| Menus.MenuBar.Drop | src/menu.rs:239-244 | clear, then delete the bar (detached from the frame first if shown) |
| NativeEvents.WxEventTypeToBridgeEventType | cpp_src/wxbridge.cpp:249-278 | a code of the enum; UNKNOWN_EVENT exactly for unrecognised types |
| NativeEvents.WxEventTypeOfCode | cpp_src/wxbridge.cpp:218-247 | every non-zero code names a recognised type |
| NativeEvents.CodeDeterminesEventType | cpp_src/wxbridge.cpp:249-278 | a recognised type can be told back from its code |
| NativeEvents.RecognisedCodesDistinct | cpp_src/wxbridge.cpp:249-278 | the 27 recognised types get 27 distinct codes |
| NativeEvents.EveryCodeProduced | cpp_src/wxbridge.cpp:218-278 | every code but UNKNOWN_EVENT is produced by some type |
| BridgeTypes.EventTypeOrdinal | src/bridge.rs:43-71 | the `repr(u32)` value is the declaration ordinal |
| BridgeTypes.EventTypeFromRepr | src/bridge.rs:43-71 | a code reads as a variant exactly when it is below 28, and then as the variant with that ordinal |
| BridgeTypes.TableOrdinal | src/bridge.rs:43-71 | the variant at each position of the declaration order has that position as its `repr(u32)` value |
| BridgeTypes.EventCodesAgree | cpp_src/wxbridge.cpp:218-278 | the C code of every wx event type reads on the Rust side as the variant of the same meaning |
| BridgeTypes.EventEnumsSameSize | cpp_src/wxbridge.cpp:218-247 | the two enums have the same number of values |
| BridgeTypes.CursorTypeOrdinal | src/bridge.rs:92-106 | every `CursorType` value is below NUMBER_OF_CURSORS |
| BridgeTypes.CursorCodesAgree | cpp_src/wxbridge.cpp:37-69 | every `CursorType` indexes the table in bounds and selects the stock cursor of its name |
| BridgeTypes.Difference | src/bridge.rs:304 | bit-flag `a - b` keeps exactly the bits of a not in b |
| BridgeTypes.OnlyShiftLeavesNothing | src/bridge.rs:74-88 | taking SHIFT away leaves NONE exactly for NONE and SHIFT |
| NativeCursors.CursorToStock | cpp_src/wxbridge.cpp:54-69 | NO_CURSOR is blank; values outside the enum give the arrow; only ARROW_CURSOR among the enumerators gives the arrow |
| NativeCursors.CursorOfStock | cpp_src/wxbridge.cpp:37-52 | every stock cursor used comes from an enumerator below NUMBER_OF_CURSORS |
| NativeCursors.CursorToStockBijective | cpp_src/wxbridge.cpp:54-69 | on the enumerators, cursorToStock is one-to-one and onto the stock cursors |
| NativeCursors.CursorFrame.constructor | cpp_src/wxbridge.cpp:124-137 | a new frame already has its cursor table filled: slot i holds the cursor of enumerator i |
| NativeCursors.CursorFrame.InitCursors | cpp_src/wxbridge.cpp:212-216 | slot i holds the cursor made from enumerator i, for every i below NUMBER_OF_CURSORS |
| NativeCursors.CursorFrame.SetCursor | cpp_src/wxbridge.cpp:502-505 | the frame shows the stock cursor of the enumerator |
| KeyText.LowerCase | src/bridge.rs:335-338 | one character that is never an ASCII capital, and a lower-case ASCII letter exactly when the input is an ASCII letter of either case |
| KeyText.LowerCaseIdempotent | src/bridge.rs:335-338 | lower-casing twice is lower-casing once |
| KeyText.GetEventString | src/bridge.rs:298-344 | text exactly when the code is not a control code, no modifier but SHIFT is set, and the code is a character; then one character |
| KeyText.ShiftTable | src/bridge.rs:309-329 | with shift, each of the 20 listed codes gives exactly its listed symbol |
| KeyText.ShiftKeepsOtherCodes | src/bridge.rs:330 | with shift, any other valid code gives its own character |
| KeyText.ShiftedTextNeverUnshifted | src/bridge.rs:309-334 | with shift, the text is never one of the 20 unshifted symbols |
| KeyText.UnshiftedAscii | src/bridge.rs:335-338 | without shift, 'A'..'Z' give 'a'..'z' and other ASCII gives itself |
| NativeClipboard.CStrLen | cpp_src/wxbridge.cpp:529 | `strlen`: the bytes before the first NUL |
| NativeClipboard.CustomDataObject.constructor | cpp_src/wxbridge.cpp:300-312 | the constructor sets neither field: size and buffer keep their indeterminate values, given as parameters |
| NativeClipboard.CustomDataObject.SetData | cpp_src/wxbridge.cpp:324-328 | afterwards `GetDataSize()` is len and the buffer is buf |
| NativeClipboard.CustomDataObject.GetDataHere | cpp_src/wxbridge.cpp:318-322 | copies exactly size bytes of the buffer and nothing more |
| NativeClipboard.CustomDataRoundTrip | cpp_src/wxbridge.cpp:314-328 | SetData then GetDataHere copies exactly the first len bytes |
| NativeClipboard.Clipboard.PutStringOnClipboard | cpp_src/wxbridge.cpp:517-522 | when the clipboard opens it holds this text only; otherwise nothing changes |
| NativeClipboard.Clipboard.GetClipboardStringLen | cpp_src/wxbridge.cpp:524-539 | -1 exactly when the clipboard does not open or holds no text; else the strlen of its UTF-8 bytes |
| NativeClipboard.Clipboard.GetStringFromClipboard | cpp_src/wxbridge.cpp:541-550 | (corrected; see Findings) copies the strlen bytes of the text, without a terminator |
| NativeClipboard.StringFetchAsWrittenMissesText | cpp_src/wxbridge.cpp:545-547 | for every non-empty text, some contents of the released buffer leave the probe-sized vector zero, and others make strncpy write past it |
| NativeClipboard.Clipboard.PutBufferOnClipboard | cpp_src/wxbridge.cpp:552-559 | when the clipboard opens it holds the first len bytes in the custom format only |
| NativeClipboard.Clipboard.GetClipboardBufferLen | cpp_src/wxbridge.cpp:561-576 | -1 exactly when the clipboard does not open or has no custom data; else its size |
| NativeClipboard.Clipboard.GetBufferFromClipboard | cpp_src/wxbridge.cpp:578-585 | copies exactly the custom bytes |
| ClipboardBridge.BufferLenArgument | src/bridge.rs:253 | `len() as u32` read as a C int: the length itself up to INT_MAX, else wrapped modulo 2^32 |
| ClipboardBridge.PutOnClipboard | src/bridge.rs:247-255 | a string goes to the text format only, a buffer to the custom format only |
| ClipboardBridge.GetFromClipboard | src/bridge.rs:257-283 | the two-phase probes and fetches give exactly `ReadClipboard` of the clipboard |
| ClipboardBridge.ReadPrefersCustom | src/bridge.rs:258-266 | when custom bytes are present they are the result, whatever the text |
| ClipboardBridge.StringRoundTrip | src/bridge.rs:247-283 | a NUL-free string reads back as itself; the empty string reads back as None |
| ClipboardBridge.CustomRoundTrip | src/bridge.rs:247-283 | a buffer up to INT_MAX bytes reads back as itself; the empty buffer reads back as None |
| ClipboardBridge.UnopenableReadsNothing | src/bridge.rs:257-283 | nothing is read from a clipboard that does not open |
| ClipboardBridge.HugeBufferTruncated | src/bridge.rs:253 | a buffer of 2^32 + 3 bytes arrives as length 3 and reads back as its first 3 bytes |
| ClipboardBridge.MalformedTextReadsNothing | src/bridge.rs:274-278 | text that is not UTF-8 reads as None |
| ClipboardBridge.TextCutAtNul | cpp_src/wxbridge.cpp:528-531 | text holding a NUL reads only up to it |

## Left out

- Window, application and event-loop plumbing is not modelled: frame creation, binding, painting, timers, `init_app` / `run_app` / `close_app` and `refresh`. All of it is callback-driven foreign code.
- DPI scaling and floating-point geometry (`get_client_size`, `get_mouse_position`, `get_scale_factor`) are not modelled.
- Raw window and display handles are not modelled.
- `build.rs` and the example programs are not part of this model.
- `Menu::popup` (`set_status_menu`) and the status bar functions are not modelled: they only show native UI.
- Deallocation is not modelled: `delete_menu`, `Drop for Menu`, and the freeing done by `delete_menu_bar`. `MenuBar.Drop` keeps only the order "clear, then delete the bar".
- Wx ids: wx reserves ids for wxID_ANY items from a negative range and never hands out a reserved id twice. The model's allocator is a counter that never repeats. Only freshness matters to the proofs.
- Menus.Menu.Insert: an index past the end of the list is a precondition; `Vec::insert` panics there (src/menu.rs:165), after `insert_to_menu` has already run off its end for an entry. The panic "Submenus must have names" is a precondition. So are two facts that Rust ownership guarantees: the submenu is mirrored, and it does not contain the menu it is moved into.
- Menus.Menu.Remove and Menus.MenuBar.Insert / Remove: an index outside the list is a precondition. `Vec` panics there.
- NativeMenus.Toolkit.InsertToMenu: requires i <= count. The C function falls off its end without a return value otherwise, which is undefined behaviour.
- NativeMenus.Toolkit.InsertToMenu / InsertSubmenu: the help text is passed through a cast of `char*` to `const wxChar*` (cpp_src/wxbridge.cpp:599, 605). In a Unicode build this reads the bytes as wide characters. The model records the help text as given.
- Menus.Menu.Valid: the model does not carry the fact that native ids are distinct across the whole tree. `LookupRoundTrip` and the removal lookup take it as a hypothesis.
- KeyText.LowerCase: covers ASCII letters only. Rust's `char::to_lowercase` also maps characters outside ASCII, some of them to ASCII letters: U+212A KELVIN SIGN becomes 'k'. The contract "a lower-case letter exactly when the input is an ASCII letter" rules that case out.
- KeyText.GetEventString: lower-casing covers ASCII only. Rust's `char::to_lowercase` also maps other scripts and can yield several characters.
- KeyText.KeyEvent: the code is a u32 as Rust reads it. On Windows `wxChar` is 16 bits wide, so codes above 0xFFFF do not arise there.
- CursorFrame.SetCursor: requires an enumerator below NUMBER_OF_CURSORS. The C function indexes the table unchecked, and every Rust `CursorType` qualifies.
- ClipboardBridge.PutOnClipboard: a NUL inside a string is a precondition; `CString::new(...).unwrap()` panics on it. A buffer whose length wraps to a negative C int is also a precondition; that is undefined behaviour in C.
- NativeClipboard.Clipboard.GetClipboardStringLen: does not model the truncation of `strlen`'s result to `int` for texts of 2 GiB or more.
- NativeClipboard.Clipboard: assumptions about wx behaviour.
  - Whether the clipboard opens is fixed for the object's lifetime. In reality each `Open()` may succeed or fail on its own.
  - `AddData` is taken to replace what the clipboard held.
  - The conversion from `char*` to `wxString` in `put_string_on_clipboard` is taken to be UTF-8.
- NativeClipboard.Clipboard.PutBufferOnClipboard: does not model object lifetimes. The `CustomDataObject` handed to `AddData` lives on the stack, and its buffer points into a Rust vector.
- NativeMenus.Toolkit.RemoveFromMenu: models the corrected, positional removal, not the C code as written, which looks the position up as a wx id; see Findings.
- NativeMenus.Toolkit.EnableMenuItem: models the corrected, positional enabling, not the C code as written, which looks the position up as a wx id; see Findings.
- NativeMenus.EnableChildWithId: searches the direct children only. `wxMenu::Enable(int, bool)` finds the id through `FindItem`, which also searches submenus, so a nested item with that id would be changed too; the contract "nothing changes when no child has the id" does not cover that case.
- NativeClipboard.CustomDataObject.constructor: the C++ constructor leaves `size` and `buffer` uninitialised. Their indeterminate values are parameters, and every method of the model overwrites them through `SetData` before they are read.
- NativeClipboard.Clipboard.GetClipboardBufferLen: `GetData` is taken to succeed whenever `IsSupported` does. If it failed, the C function would return the uninitialised size.
- NativeClipboard.Clipboard.Valid: caps custom data at INT_MAX bytes. A larger buffer placed there by another program is not modelled; for it `int len = data.GetDataSize()` (cpp_src/wxbridge.cpp:566) truncates the size.
- ClipboardBridge.GetFromClipboard: the clipboard is taken not to change between a length probe and its fetch. Each C function opens and closes the clipboard on its own, so another program may replace the contents in between (src/bridge.rs:259-263, 269-273). The fetch would then copy a different number of bytes into the vector sized by the probe.
- NativeClipboard.CustomDataObject.SetData: stores the bytes as a value. The C++ stores only the address `buf` (cpp_src/wxbridge.cpp:324-328). In `get_buffer_from_clipboard`, `GetData` (line 581) hands `SetData` a buffer owned by wx, and wx's ports release it before `GetData` returns. `GetDataHere` (line 582) then copies from released memory. The model does not capture that aliasing; `NativeClipboard.Clipboard.GetBufferFromClipboard` and `ClipboardBridge.CustomRoundTrip` hold only for a buffer that stays alive.
- NativeClipboard.Clipboard.GetStringFromClipboard: models the evidently intended copy. As written, `src` points into the buffer that `mb_str(wxConvUTF8)` returned, which is released at the end of line 546, so `strlen` and `strncpy` read released memory; see Findings. `ClipboardBridge.StringRoundTrip` holds for the corrected copy only.
- NativeClipboard.Clipboard.GetBufferFromClipboard: requires custom data on an openable clipboard. The C function does not check `IsSupported`: with the format absent, `GetDataHere` copies from an uninitialised pointer, which is undefined behaviour. The one Rust caller fetches only after a length probe that found the data.

## Findings

| source | as written | input that shows it | evidently intended | confidence | as-written member | corrected member |
|---|---|---|---|---|---|---|
| cpp_src/wxbridge.cpp:609-613 | `remove_from_menu` passes the position i to `wxMenu::Remove(int id)`, which looks an item up by id | a menu with one entry whose wx-allocated id is -31999; `Menu::remove(0)` | remove the item at position i, as the Rust list does | high; not executed | NativeMenus.RemoveAsWrittenDesynchronises | MenuTrees.MirrorsAfterRemove |
| cpp_src/wxbridge.cpp:615-619 | `enable_menu_item` passes the position i to `wxMenu::Enable(int id, bool)`, which looks an item up by id | the same menu; `Menu::disable_item(0)` | set the flag of the item at position i | high; not executed | NativeMenus.EnableAsWrittenMissesPosition | NativeMenus.SetEnabledEffect |
| cpp_src/wxbridge.cpp:545-547 | `src` is taken from the buffer object `txt.mb_str(wxConvUTF8)` returns by value in a wide-character build (wx 3.2.2.1, build.rs:10); the buffer is released at the end of line 546, and `strlen`/`strncpy` at line 547 read it | clipboard text "ab"; the allocator reuses the released block and leaves a NUL at its start: the Rust vector of 2 bytes stays zero | copy the UTF-8 bytes the probe at line 529 measured, keeping the converted buffer alive for the copy | medium; not executed | NativeClipboard.StringFetchAsWrittenMissesText | NativeClipboard.Clipboard.GetStringFromClipboard |

- Wx ids for wxID_ANY items are negative, and separators carry wxID_SEPARATOR (-2). So with only such items present, the calls as written never act (`NativeMenus.AsWrittenIgnoresPositions`).
- `wxMenu::Remove(int)` looks the id up through `FindChildItem`, among the direct children only, as `RemoveChildWithId` does. `wxMenu::Enable(int, bool)` uses `FindItem`, which also searches submenus; `EnableChildWithId` searches the direct children only, and the submenus could only add further wrong targets.
- The rest of the menu model uses the positional versions.
- The length probe at cpp_src/wxbridge.cpp:529 is sound: there the converted buffer lives until the end of the full expression. The clipboard model reads text through the corrected copy.
