/** The native (wxWidgets) side of menus and menu bars, as the C functions of
    cpp_src/wxbridge.cpp drive it: every operation is guarded by an index check
    against the native item count and is a no-op when the check fails. */
module NativeMenus {
  import opened Wrappers
  import opened Sequences

  /** An opaque native pointer (wxMenu* or wxMenuBar*), modelled as an address. */
  type Handle = nat

  /** wxID_SEPARATOR, the id wx gives every separator item. */
  const WX_ID_SEPARATOR: int := -2

  /** What a native menu item is: a separator, a plain entry with the id wx
      allocated for it, or an item that opens another native menu. */
  datatype NativeKind =
    | SeparatorItem
    | EntryItem(id: int, text: string, help: Option<string>)
    | SubmenuItem(id: int, submenu: Handle, text: string, help: Option<string>)

  /** A native menu item; new items start enabled. */
  datatype NativeItem = NativeItem(kind: NativeKind, enabled: bool)

  /** One top-level menu of a native menu bar, with its title. */
  datatype BarSlot = BarSlot(menu: Handle, title: string)

  /** A position inside a native menu: the menu and the 0-based index. */
  datatype Position = Position(menu: Handle, index: nat)

  type MenuState = map<Handle, seq<NativeItem>>

  /** The wx id of a native item. */
  function ItemId(k: NativeKind): int
  {
    if k.SeparatorItem? then WX_ID_SEPARATOR else k.id
  }

  /** The kinds of a list of native items: everything but the enabled flags. */
  function Kinds(items: seq<NativeItem>): (r: seq<NativeKind>)
    ensures |r| == |items|
    ensures forall k :: 0 <= k < |items| ==> r[k] == items[k].kind
  {
    seq(|items|, k requires 0 <= k < |items| => items[k].kind)
  }

  /** The native state after one enable_menu_item(p.menu, p.index, enable):
      only the enabled flag at p changes, and only when p.index < GetMenuItemCount(). */
  function SetEnabled(menus: MenuState, p: Position, enable: bool): (r: MenuState)
    ensures r.Keys == menus.Keys
  {
    if p.menu in menus && p.index < |menus[p.menu]| then
      var items := menus[p.menu];
      menus[p.menu := items[p.index := items[p.index].(enabled := enable)]]
    else
      menus
  }

  /** What one enable_menu_item does: only the flag at p changes, and only when p is in
      range; no item kind changes. */
  lemma SetEnabledEffect(menus: MenuState, p: Position, enable: bool)
    ensures var r := SetEnabled(menus, p, enable);
      && (forall h :: h in menus ==> |r[h]| == |menus[h]| && Kinds(r[h]) == Kinds(menus[h]))
      && (p.menu in menus && p.index < |menus[p.menu]| ==> r[p.menu][p.index].enabled == enable)
      && (forall h, k :: h in menus && 0 <= k < |menus[h]| && (h != p.menu || k != p.index) ==>
            r[h][k] == menus[h][k])
  {
    if p.menu in menus && p.index < |menus[p.menu]| {
      var items := menus[p.menu];
      var items' := items[p.index := items[p.index].(enabled := enable)];
      assert Kinds(items') == Kinds(items);
    }
  }

  /** The native state after enable_menu_item at each position of ps in turn. */
  function EnableAll(menus: MenuState, ps: seq<Position>, enable: bool): (r: MenuState)
    decreases |ps|
    ensures r.Keys == menus.Keys
  {
    if ps == [] then menus else EnableAll(SetEnabled(menus, ps[0], enable), ps[1..], enable)
  }

  /** What enabling along ps does: every listed position in range gets the flag,
      every other item is unchanged, and no item kind changes. */
  lemma {:induction false} EnableAllEffect(menus: MenuState, ps: seq<Position>, enable: bool)
    decreases |ps|
    ensures var r := EnableAll(menus, ps, enable);
      && (forall h :: h in menus ==> |r[h]| == |menus[h]| && Kinds(r[h]) == Kinds(menus[h]))
      && (forall h, k :: h in menus && 0 <= k < |menus[h]| && Position(h, k) in ps ==>
            r[h][k].enabled == enable)
      && (forall h, k :: h in menus && 0 <= k < |menus[h]| && Position(h, k) !in ps ==>
            r[h][k] == menus[h][k])
  {
    if ps != [] {
      var m1 := SetEnabled(menus, ps[0], enable);
      var r := EnableAll(m1, ps[1..], enable);
      SetEnabledEffect(menus, ps[0], enable);
      EnableAllEffect(m1, ps[1..], enable);
      assert forall h :: h in menus ==> |r[h]| == |Kinds(r[h])| == |Kinds(menus[h])| == |menus[h]|;
      assert forall h :: h in menus ==> |m1[h]| == |Kinds(m1[h])| == |Kinds(menus[h])| == |menus[h]|;
      forall h, k | h in menus && 0 <= k < |menus[h]| && Position(h, k) in ps
        ensures r[h][k].enabled == enable
      {
        if Position(h, k) !in ps[1..] {
          assert ps[0] == Position(h, k);
        }
      }
    }
  }

  /** Enabling along a + b is enabling along a, then along b. */
  lemma {:induction false} EnableAllAppend(menus: MenuState, a: seq<Position>, b: seq<Position>, enable: bool)
    ensures EnableAll(menus, a + b, enable) == EnableAll(EnableAll(menus, a, enable), b, enable)
    decreases |a|
  {
    if a == [] {
      assert a + b == b;
    } else {
      assert (a + b)[0] == a[0];
      assert (a + b)[1..] == a[1..] + b;
      EnableAllAppend(SetEnabled(menus, a[0], enable), a[1..], b, enable);
    }
  }

  /** Enabling along a single position is one enable_menu_item. */
  lemma EnableAllSingle(menus: MenuState, p: Position, enable: bool)
    ensures EnableAll(menus, [p], enable) == SetEnabled(menus, p, enable)
  {
    assert [p][1..] == [];
  }

  // ---------------------------------------------------------------------------
  // remove_from_menu and enable_menu_item as written in cpp_src/wxbridge.cpp.
  // They pass the position i to wxMenu::Remove(int id) and wxMenu::Enable(int id,
  // bool), which look an item up by its wx id, not by its position.

  /** wxMenu::Remove(int id) on the direct children: drop the first child with that id. */
  function RemoveChildWithId(items: seq<NativeItem>, id: int): (r: seq<NativeItem>)
    ensures (forall k :: 0 <= k < |items| ==> ItemId(items[k].kind) != id) ==> r == items
    ensures |r| == |items| || |r| == |items| - 1
  {
    if items == [] then []
    else if ItemId(items[0].kind) == id then items[1..]
    else [items[0]] + RemoveChildWithId(items[1..], id)
  }

  /** remove_from_menu(menu, i) as written: guarded by i < count, then removal by id i. */
  function RemoveFromMenuAsWritten(items: seq<NativeItem>, i: nat): seq<NativeItem>
  {
    if i < |items| then RemoveChildWithId(items, i) else items
  }

  /** wxMenu::Enable(int id, bool) on the direct children: the first child with that id. */
  function EnableChildWithId(items: seq<NativeItem>, id: int, enable: bool): (r: seq<NativeItem>)
    ensures |r| == |items|
    ensures (forall k :: 0 <= k < |items| ==> ItemId(items[k].kind) != id) ==> r == items
  {
    if items == [] then []
    else if ItemId(items[0].kind) == id then [items[0].(enabled := enable)] + items[1..]
    else [items[0]] + EnableChildWithId(items[1..], id, enable)
  }

  /** enable_menu_item(menu, i, enable) as written: guarded by i < count, then lookup by id i. */
  function EnableMenuItemAsWritten(items: seq<NativeItem>, i: nat, enable: bool): seq<NativeItem>
  {
    if i < |items| then EnableChildWithId(items, i, enable) else items
  }

  /** wx hands out negative ids for wxID_ANY, and separators carry wxID_SEPARATOR:
      with only such ids present, the as-written removal and enabling never act. */
  lemma AsWrittenIgnoresPositions(items: seq<NativeItem>, i: nat, enable: bool)
    requires forall k :: 0 <= k < |items| ==> ItemId(items[k].kind) < 0
    ensures RemoveFromMenuAsWritten(items, i) == items
    ensures EnableMenuItemAsWritten(items, i, enable) == items
  {
  }

  /** The native list after the positional removal the Rust side performs on its own
      vector: what remove_from_menu evidently intends. */
  function RemoveByPosition(items: seq<NativeItem>, i: nat): seq<NativeItem>
  {
    if i < |items| then RemoveAt(items, i) else items
  }

  /** The positional removal undoes the positional insert of any native item. */
  lemma RemoveByPositionUndoesInsert(items: seq<NativeItem>, i: nat, x: NativeItem)
    requires i <= |items|
    ensures RemoveByPosition(InsertAt(items, i, x), i) == items
  {
    RemoveInsertedIsIdentity(items, i, x);
  }

  /** A menu holding one entry with a wx-allocated id: removing position 0 as written
      leaves the native menu as it was, while Menu::remove(0) empties the Rust vector. */
  lemma RemoveAsWrittenDesynchronises()
    ensures var items := [NativeItem(EntryItem(-31999, "Open", None), true)];
      && RemoveFromMenuAsWritten(items, 0) == items
      && |RemoveAt(items, 0)| == 0
      && RemoveByPosition(items, 0) == []
  {
  }

  /** Disabling position 0 as written leaves the entry enabled. */
  lemma EnableAsWrittenMissesPosition()
    ensures var items := [NativeItem(EntryItem(-31999, "Open", None), true)];
      && EnableMenuItemAsWritten(items, 0, false) == items
      && !SetEnabled(map[7 := items], Position(7, 0), false)[7][0].enabled
  {
  }

  /** The native toolkit: every wxMenu and wxMenuBar alive, which menu bar the frame
      shows, and the allocator behind wxID_ANY. */
  class Toolkit {
    /** The item list of every native menu, by address. */
    var menus: MenuState
    /** The menus of every native menu bar, by address. */
    var bars: map<Handle, seq<BarSlot>>
    /** The menu bar installed on the frame by set_menu_bar, if any. */
    var frameBar: Option<Handle>
    /** The id the next wxID_ANY item receives; ids are never handed out twice. */
    var nextId: int
    /** Every address handed out so far is below this one. */
    var nextHandle: Handle

    ghost predicate Valid()
      reads this
    {
      && (forall h :: h in menus ==> h < nextHandle)
      && (forall h :: h in bars ==> h < nextHandle)
      && (frameBar.Some? ==> frameBar.value in bars)
    }

    constructor (firstId: int)
      ensures Valid()
      ensures menus == map[] && bars == map[] && frameBar == None && nextId == firstId
    {
      menus, bars, frameBar := map[], map[], None;
      nextId, nextHandle := firstId, 0;
    }

    /** create_menu: a new, empty native menu at a fresh address. */
    method CreateMenu() returns (h: Handle)
      requires Valid()
      modifies this
      ensures Valid()
      ensures h !in old(menus) && h !in old(bars)
      ensures menus == old(menus)[h := []]
      ensures bars == old(bars) && frameBar == old(frameBar) && nextId == old(nextId)
      ensures nextHandle > old(nextHandle)
    {
      h := nextHandle;
      nextHandle := nextHandle + 1;
      menus := menus[h := []];
    }

    /** insert_separator_to_menu: inserts only when i <= GetMenuItemCount(). */
    method InsertSeparatorToMenu(menu: Handle, i: nat)
      requires Valid() && menu in menus
      modifies this
      ensures Valid()
      ensures menus == if i <= |old(menus[menu])|
        then old(menus)[menu := InsertAt(old(menus[menu]), i, NativeItem(SeparatorItem, true))]
        else old(menus)
      ensures bars == old(bars) && frameBar == old(frameBar) && nextId == old(nextId)
      ensures nextHandle == old(nextHandle)
    {
      if i <= |menus[menu]| {
        menus := menus[menu := InsertAt(menus[menu], i, NativeItem(SeparatorItem, true))];
      }
    }

    /** insert_to_menu: inserts an entry with a freshly allocated id and returns that id.
        The C function has no return on the path i > GetMenuItemCount(), so callers
        must stay on the guarded path. */
    method InsertToMenu(menu: Handle, i: nat, text: string, help: Option<string>) returns (id: int)
      requires Valid() && menu in menus && i <= |menus[menu]|
      modifies this
      ensures Valid()
      ensures id == old(nextId) && nextId == old(nextId) + 1
      ensures menus == old(menus)[menu := InsertAt(old(menus[menu]), i, NativeItem(EntryItem(id, text, help), true))]
      ensures bars == old(bars) && frameBar == old(frameBar) && nextHandle == old(nextHandle)
    {
      id := nextId;
      nextId := nextId + 1;
      menus := menus[menu := InsertAt(menus[menu], i, NativeItem(EntryItem(id, text, help), true))];
    }

    /** insert_submenu: inserts only when i <= GetMenuItemCount(); the item gets an id too. */
    method InsertSubmenu(menu: Handle, i: nat, submenu: Handle, text: string, help: Option<string>)
      requires Valid() && menu in menus
      modifies this
      ensures Valid()
      ensures i <= |old(menus[menu])| ==>
        && nextId == old(nextId) + 1
        && menus == old(menus)[menu := InsertAt(old(menus[menu]), i,
             NativeItem(SubmenuItem(old(nextId), submenu, text, help), true))]
      ensures i > |old(menus[menu])| ==> menus == old(menus) && nextId == old(nextId)
      ensures bars == old(bars) && frameBar == old(frameBar) && nextHandle == old(nextHandle)
    {
      if i <= |menus[menu]| {
        var id := nextId;
        nextId := nextId + 1;
        menus := menus[menu := InsertAt(menus[menu], i, NativeItem(SubmenuItem(id, submenu, text, help), true))];
      }
    }

    /** remove_from_menu, with the positional removal it evidently intends: acts only
        when i < GetMenuItemCount(). */
    method RemoveFromMenu(menu: Handle, i: nat)
      requires Valid() && menu in menus
      modifies this
      ensures Valid()
      ensures menus == old(menus)[menu := RemoveByPosition(old(menus[menu]), i)]
      ensures bars == old(bars) && frameBar == old(frameBar) && nextId == old(nextId)
      ensures nextHandle == old(nextHandle)
    {
      menus := menus[menu := RemoveByPosition(menus[menu], i)];
    }

    /** enable_menu_item, positionally: acts only when i < GetMenuItemCount(). */
    method EnableMenuItem(menu: Handle, i: nat, enable: bool)
      requires Valid() && menu in menus
      modifies this
      ensures Valid()
      ensures menus == SetEnabled(old(menus), Position(menu, i), enable)
      ensures bars == old(bars) && frameBar == old(frameBar) && nextId == old(nextId)
      ensures nextHandle == old(nextHandle)
    {
      menus := SetEnabled(menus, Position(menu, i), enable);
    }

    /** create_menu_bar: a new, empty native menu bar at a fresh address. */
    method CreateMenuBar() returns (h: Handle)
      requires Valid()
      modifies this
      ensures Valid()
      ensures h !in old(menus) && h !in old(bars)
      ensures bars == old(bars)[h := []]
      ensures menus == old(menus) && frameBar == old(frameBar) && nextId == old(nextId)
      ensures nextHandle > old(nextHandle)
    {
      h := nextHandle;
      nextHandle := nextHandle + 1;
      bars := bars[h := []];
    }

    /** insert_to_menu_bar: inserts only when i <= GetMenuCount(). */
    method InsertToMenuBar(bar: Handle, menu: Handle, i: nat, title: string)
      requires Valid() && bar in bars
      modifies this
      ensures Valid()
      ensures bars == if i <= |old(bars[bar])|
        then old(bars)[bar := InsertAt(old(bars[bar]), i, BarSlot(menu, title))]
        else old(bars)
      ensures menus == old(menus) && frameBar == old(frameBar) && nextId == old(nextId)
      ensures nextHandle == old(nextHandle)
    {
      if i <= |bars[bar]| {
        bars := bars[bar := InsertAt(bars[bar], i, BarSlot(menu, title))];
      }
    }

    /** remove_from_menu_bar: removes only when i < GetMenuCount(). */
    method RemoveFromMenuBar(bar: Handle, i: nat)
      requires Valid() && bar in bars
      modifies this
      ensures Valid()
      ensures bars == if i < |old(bars[bar])|
        then old(bars)[bar := RemoveAt(old(bars[bar]), i)]
        else old(bars)
      ensures menus == old(menus) && frameBar == old(frameBar) && nextId == old(nextId)
      ensures nextHandle == old(nextHandle)
    {
      if i < |bars[bar]| {
        bars := bars[bar := RemoveAt(bars[bar], i)];
      }
    }

    /** set_menu_bar: the frame shows this bar. */
    method SetMenuBar(bar: Handle)
      requires Valid() && bar in bars
      modifies this
      ensures Valid()
      ensures frameBar == Some(bar)
      ensures menus == old(menus) && bars == old(bars) && nextId == old(nextId)
      ensures nextHandle == old(nextHandle)
    {
      frameBar := Some(bar);
    }

    /** delete_menu_bar: detaches the bar from the frame if the frame shows it, then
        deletes it, so the frame never refers to a deleted bar. */
    method DeleteMenuBar(bar: Handle)
      requires Valid()
      modifies this
      ensures Valid()
      ensures frameBar == if old(frameBar) == Some(bar) then None else old(frameBar)
      ensures bars == old(bars) - {bar}
      ensures menus == old(menus) && nextId == old(nextId) && nextHandle == old(nextHandle)
    {
      if frameBar == Some(bar) {
        frameBar := None;
      }
      bars := bars - {bar};
    }
  }
}
