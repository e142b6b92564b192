/** The Rust Menu<T> and MenuBar<T> of src/menu.rs: each keeps its own list and sends
    every change straight to the native side, so that the two stay in step. */
module Menus {
  import opened Wrappers
  import opened Sequences
  import opened NativeMenus
  import opened MenuTrees

  /** The item Menu::insert stores: an entry records the native id it was given. */
  function Stored<T>(item: MenuItem<T>, nativeId: int): MenuItem<T>
  {
    if item.Entry? then Entry(item.entry.(eventId := nativeId)) else item
  }

  /** Toggles, on the native side, every position that enable_item_by_id(id) or
      disable_item_by_id(id) reaches in the menu m: a direct entry with the id is
      toggled and ends the scan of its level, a submenu is searched in full first. */
  method ToggleById<T(==)>(tk: Toolkit, m: MenuTree<T>, id: T, enable: bool)
    requires tk.Valid() && Handles(m) <= tk.menus.Keys
    modifies tk
    ensures tk.Valid()
    ensures tk.menus == EnableAll(old(tk.menus), Targets(m, id), enable)
    ensures tk.bars == old(tk.bars) && tk.frameBar == old(tk.frameBar)
    ensures tk.nextId == old(tk.nextId) && tk.nextHandle == old(tk.nextHandle)
    decreases m, 1
  {
    ghost var goal := EnableAll(tk.menus, Targets(m, id), enable);
    var k := 0;
    while k < |m.items|
      invariant 0 <= k <= |m.items|
      invariant tk.Valid() && tk.menus.Keys == old(tk.menus).Keys
      invariant EnableAll(tk.menus, TargetsFrom(m, k, id), enable) == goal
      invariant tk.bars == old(tk.bars) && tk.frameBar == old(tk.frameBar)
      invariant tk.nextId == old(tk.nextId) && tk.nextHandle == old(tk.nextHandle)
      decreases |m.items| - k
    {
      var hit := ToggleItem(tk, m, k, id, enable);
      if hit {
        return;
      }
      k := k + 1;
    }
  }

  /** One step of the scan of ToggleById, at the item at index k of m: a direct entry
      with the id is toggled and reported as a hit; a submenu is toggled in full. */
  method ToggleItem<T(==)>(tk: Toolkit, m: MenuTree<T>, k: nat, id: T, enable: bool) returns (hit: bool)
    requires tk.Valid() && Handles(m) <= tk.menus.Keys && k < |m.items|
    modifies tk
    ensures tk.Valid() && tk.menus.Keys == old(tk.menus).Keys
    ensures hit <==> m.items[k].Entry? && m.items[k].entry.id == id
    ensures hit ==> tk.menus == EnableAll(old(tk.menus), TargetsFrom(m, k, id), enable)
    ensures !hit ==> (EnableAll(tk.menus, TargetsFrom(m, k + 1, id), enable) ==
      EnableAll(old(tk.menus), TargetsFrom(m, k, id), enable))
    ensures tk.bars == old(tk.bars) && tk.frameBar == old(tk.frameBar)
    ensures tk.nextId == old(tk.nextId) && tk.nextHandle == old(tk.nextHandle)
    decreases m, 0
  {
    ghost var before := tk.menus;
    var item := m.items[k];
    TargetsFromStep(m, k, id);
    hit := false;
    if item.Submenu? {
      SubmenuHandlesIncluded(m, k);
      ToggleById(tk, item.menu, id, enable);
      EnableAllAppend(before, TargetsFrom(item.menu, 0, id), TargetsFrom(m, k + 1, id), enable);
    } else if item.Entry? && item.entry.id == id {
      EnableAllSingle(before, Position(m.ptr, k), enable);
      tk.EnableMenuItem(m.ptr, k, enable);
      hit := true;
    }
  }

  /** Menu<T>: a native menu and the Rust list of its items. */
  class Menu<T(==)> {
    /** The native menu. */
    var ptr: Handle
    /** The name, needed when the menu becomes a submenu or a menu bar title. */
    var name: Option<string>
    var items: seq<MenuItem<T>>
    var help: Option<string>

    /** The menu's current state as a value. */
    function Tree(): MenuTree<T>
      reads this
    {
      MenuTree(ptr, name, items, help)
    }

    /** The native menu holds exactly the items, nested menus included; the menu is
        not nested in itself; every recorded native id came from the allocator. */
    ghost predicate Valid(tk: Toolkit)
      reads this, tk
    {
      && tk.Valid()
      && Mirrors(Tree(), tk.menus)
      && ptr !in ItemsHandles(items)
      && IdsBelow(ItemsEntries(items), tk.nextId)
    }

    /** Menu::new: a fresh, empty native menu. */
    constructor (tk: Toolkit, name: Option<string>)
      requires tk.Valid()
      modifies tk
      ensures Valid(tk)
      ensures this.name == name && items == [] && help == None
      ensures ptr !in old(tk.menus) && tk.menus == old(tk.menus)[ptr := []]
      ensures tk.bars == old(tk.bars) && tk.frameBar == old(tk.frameBar) && tk.nextId == old(tk.nextId)
    {
      var h := tk.CreateMenu();
      ptr := h;
      this.name := name;
      items := [];
      help := None;
    }

    /** Menu::help: sets the help text shown when the menu becomes a submenu. */
    method SetHelp(text: string)
      modifies this
      ensures help == Some(text)
      ensures ptr == old(ptr) && name == old(name) && items == old(items)
    {
      help := Some(text);
    }

    /** Menu::insert: the native insert at position i, then the same insert in the
        Rust list, an entry recording the native id it was given. A submenu must have
        a name, be mirrored itself, and not contain this menu. */
    method Insert(tk: Toolkit, i: nat, item: MenuItem<T>)
      requires Valid(tk)
      requires i <= |items|
      requires item.Submenu? ==>
        && item.menu.name.Some?
        && Mirrors(item.menu, tk.menus)
        && ptr !in Handles(item.menu)
        && IdsBelow(Entries(item.menu), tk.nextId)
      modifies this, tk
      ensures Valid(tk)
      ensures ptr == old(ptr) && name == old(name) && help == old(help)
      ensures items == InsertAt(old(items), i, Stored(item, old(tk.nextId)))
      ensures tk.menus == old(tk.menus)[ptr := InsertAt(old(tk.menus[ptr]), i,
        NativeItem(NativeKindOf(Stored(item, old(tk.nextId)), old(tk.nextId)), true))]
      ensures tk.nextId == if item.Separator? then old(tk.nextId) else old(tk.nextId) + 1
      ensures tk.bars == old(tk.bars) && tk.frameBar == old(tk.frameBar) && tk.nextHandle == old(tk.nextHandle)
      ensures item.Entry? ==> FindInItems(items, old(tk.nextId)) == Some(item.entry.id)
      ensures !item.Submenu? ==> forall eventId :: eventId != old(tk.nextId) ==>
        FindInItems(items, eventId) == FindInItems(old(items), eventId)
    {
      ghost var t0, menus0, next0 := Tree(), tk.menus, tk.nextId;
      var stored := item;
      match item {
        case Submenu(s) =>
          tk.InsertSubmenu(ptr, i, s.ptr, s.name.value, s.help);
        case Entry(e) =>
          var id := tk.InsertToMenu(ptr, i, e.name, e.help);
          stored := Entry(e.(eventId := id));
        case Separator =>
          tk.InsertSeparatorToMenu(ptr, i);
      }
      items := InsertAt(items, i, stored);
      NativeKindCorresponds(stored, next0);
      MirrorsAfterInsert(t0, menus0, i, stored, NativeItem(NativeKindOf(stored, next0), true));
      HandlesAfterInsert(t0.items, i, stored);
      EntriesAfterInsert(t0.items, i, stored);
      if stored.Entry? {
        LookupAfterInsertEntry(t0.items, i, stored.entry, 0);
        forall eventId | eventId != next0
          ensures FindInItems(items, eventId) == FindInItems(t0.items, eventId)
        {
          LookupAfterInsertEntry(t0.items, i, stored.entry, eventId);
        }
      } else if stored.Separator? {
        forall eventId ensures FindInItems(items, eventId) == FindInItems(t0.items, eventId) {
          LookupAfterInsertSeparator(t0.items, i, eventId);
        }
      }
    }

    /** Menu::push_separator: insert at the end. */
    method PushSeparator(tk: Toolkit)
      requires Valid(tk)
      modifies this, tk
      ensures Valid(tk)
      ensures items == old(items) + [Separator]
      ensures tk.menus == old(tk.menus)[ptr := old(tk.menus[ptr]) + [NativeItem(SeparatorItem, true)]]
      ensures tk.nextId == old(tk.nextId)
      ensures ptr == old(ptr) && name == old(name) && help == old(help)
      ensures tk.bars == old(tk.bars) && tk.frameBar == old(tk.frameBar) && tk.nextHandle == old(tk.nextHandle)
    {
      InsertAtEnd(items, Separator);
      InsertAtEnd(tk.menus[ptr], NativeItem(SeparatorItem, true));
      Insert(tk, |items|, Separator);
    }

    /** Menu::push_entry: insert at the end; the entry records its native id, which now
        finds it. */
    method PushEntry(tk: Toolkit, e: MenuEntry<T>)
      requires Valid(tk)
      modifies this, tk
      ensures Valid(tk)
      ensures items == old(items) + [Entry(e.(eventId := old(tk.nextId)))]
      ensures tk.menus == old(tk.menus)[ptr := old(tk.menus[ptr]) +
        [NativeItem(EntryItem(old(tk.nextId), e.name, e.help), true)]]
      ensures tk.nextId == old(tk.nextId) + 1
      ensures FindInItems(items, old(tk.nextId)) == Some(e.id)
      ensures ptr == old(ptr) && name == old(name) && help == old(help)
      ensures tk.bars == old(tk.bars) && tk.frameBar == old(tk.frameBar) && tk.nextHandle == old(tk.nextHandle)
    {
      InsertAtEnd(items, Entry(e.(eventId := tk.nextId)));
      InsertAtEnd(tk.menus[ptr], NativeItem(EntryItem(tk.nextId, e.name, e.help), true));
      Insert(tk, |items|, Entry(e));
    }

    /** Menu::push_submenu: insert at the end. The submenu is moved into this menu; its
        name becomes the native item's text. */
    method PushSubmenu(tk: Toolkit, sub: Menu<T>)
      requires Valid(tk) && sub.Valid(tk) && sub != this
      requires sub.name.Some?
      requires ptr !in Handles(sub.Tree())
      modifies this, tk
      ensures Valid(tk)
      ensures items == old(items) + [Submenu(old(sub.Tree()))]
      ensures tk.menus == old(tk.menus)[ptr := old(tk.menus[ptr]) +
        [NativeItem(SubmenuItem(old(tk.nextId), old(sub.ptr), old(sub.name.value), old(sub.help)), true)]]
      ensures tk.nextId == old(tk.nextId) + 1
      ensures ptr == old(ptr) && name == old(name) && help == old(help)
      ensures tk.bars == old(tk.bars) && tk.frameBar == old(tk.frameBar) && tk.nextHandle == old(tk.nextHandle)
    {
      var s := sub.Tree();
      InsertAtEnd(items, Submenu(s));
      InsertAtEnd(tk.menus[ptr], NativeItem(SubmenuItem(tk.nextId, s.ptr, s.name.value, s.help), true));
      Insert(tk, |items|, Submenu(s));
    }

    /** Menu::remove: the native removal at position i, then the same removal in the
        Rust list; later items move down and keep their native ids. */
    method Remove(tk: Toolkit, i: nat)
      requires Valid(tk)
      requires i < |items|
      modifies this, tk
      ensures Valid(tk)
      ensures items == RemoveAt(old(items), i)
      ensures tk.menus == old(tk.menus)[ptr := RemoveAt(old(tk.menus[ptr]), i)]
      ensures ptr == old(ptr) && name == old(name) && help == old(help)
      ensures tk.bars == old(tk.bars) && tk.frameBar == old(tk.frameBar)
      ensures tk.nextId == old(tk.nextId) && tk.nextHandle == old(tk.nextHandle)
      ensures old(items[i]).Entry? && DistinctEventIds(ItemsEntries(old(items))) ==>
        FindInItems(items, old(items[i]).entry.eventId) == None
    {
      ghost var t0, menus0 := Tree(), tk.menus;
      tk.RemoveFromMenu(ptr, i);
      items := RemoveAt(items, i);
      MirrorsAfterRemove(t0, menus0, i);
      HandlesAfterRemove(t0.items, i);
      EntriesAfterRemove(t0.items, i);
      if t0.items[i].Entry? && DistinctEventIds(ItemsEntries(t0.items)) {
        LookupAfterRemoveEntry(t0.items, i, 0);
      }
    }

    /** Menu::enable_item / Menu::disable_item: the native flag at position i, if the
        native menu has such a position. */
    method SetItemEnabled(tk: Toolkit, i: nat, enable: bool)
      requires Valid(tk)
      modifies tk
      ensures Valid(tk)
      ensures tk.menus == SetEnabled(old(tk.menus), Position(ptr, i), enable)
      ensures tk.bars == old(tk.bars) && tk.frameBar == old(tk.frameBar)
      ensures tk.nextId == old(tk.nextId) && tk.nextHandle == old(tk.nextHandle)
    {
      ghost var menus0 := tk.menus;
      tk.EnableMenuItem(ptr, i, enable);
      MirroredHandlesPresent(Tree(), menus0);
      MirrorsFrame(Tree(), menus0, tk.menus);
    }

    method EnableItem(tk: Toolkit, i: nat)
      requires Valid(tk)
      modifies tk
      ensures Valid(tk)
      ensures tk.menus == SetEnabled(old(tk.menus), Position(ptr, i), true)
      ensures tk.bars == old(tk.bars) && tk.frameBar == old(tk.frameBar)
      ensures tk.nextId == old(tk.nextId) && tk.nextHandle == old(tk.nextHandle)
    {
      SetItemEnabled(tk, i, true);
    }

    method DisableItem(tk: Toolkit, i: nat)
      requires Valid(tk)
      modifies tk
      ensures Valid(tk)
      ensures tk.menus == SetEnabled(old(tk.menus), Position(ptr, i), false)
      ensures tk.bars == old(tk.bars) && tk.frameBar == old(tk.frameBar)
      ensures tk.nextId == old(tk.nextId) && tk.nextHandle == old(tk.nextHandle)
    {
      SetItemEnabled(tk, i, false);
    }

    /** Menu::enable_item_by_id / Menu::disable_item_by_id: exactly the positions of
        Targets are toggled, in order. */
    method SetEnabledById(tk: Toolkit, id: T, enable: bool)
      requires Valid(tk)
      modifies tk
      ensures Valid(tk)
      ensures tk.menus == EnableAll(old(tk.menus), Targets(Tree(), id), enable)
      ensures tk.bars == old(tk.bars) && tk.frameBar == old(tk.frameBar)
      ensures tk.nextId == old(tk.nextId) && tk.nextHandle == old(tk.nextHandle)
    {
      ghost var menus0 := tk.menus;
      MirroredHandlesPresent(Tree(), menus0);
      ToggleById(tk, Tree(), id, enable);
      EnableAllEffect(menus0, Targets(Tree(), id), enable);
      MirrorsFrame(Tree(), menus0, tk.menus);
    }

    method EnableItemById(tk: Toolkit, id: T)
      requires Valid(tk)
      modifies tk
      ensures Valid(tk)
      ensures tk.menus == EnableAll(old(tk.menus), Targets(Tree(), id), true)
      ensures tk.bars == old(tk.bars) && tk.frameBar == old(tk.frameBar)
      ensures tk.nextId == old(tk.nextId) && tk.nextHandle == old(tk.nextHandle)
    {
      SetEnabledById(tk, id, true);
    }

    method DisableItemById(tk: Toolkit, id: T)
      requires Valid(tk)
      modifies tk
      ensures Valid(tk)
      ensures tk.menus == EnableAll(old(tk.menus), Targets(Tree(), id), false)
      ensures tk.bars == old(tk.bars) && tk.frameBar == old(tk.frameBar)
      ensures tk.nextId == old(tk.nextId) && tk.nextHandle == old(tk.nextHandle)
    {
      SetEnabledById(tk, id, false);
    }

    /** Menu::get_entry_from_event_id: the id of the first entry, depth first, that
        recorded this native id. */
    function GetEntryFromEventId(eventId: int): (r: Option<T>)
      reads this
      ensures r == FirstMatch(Entries(Tree()), eventId)
    {
      FindIsFirstMatch(items, eventId);
      FindInItems(items, eventId)
    }
  }

  /** The native slots a menu bar holding these menus shows: each menu's native menu
      under its title. */
  function Slots<T>(menus: seq<MenuTree<T>>): (r: seq<BarSlot>)
    ensures |r| == |menus|
    ensures forall k :: 0 <= k < |menus| ==> r[k] == BarSlot(menus[k].ptr, Title(menus[k]))
  {
    seq(|menus|, k requires 0 <= k < |menus| => BarSlot(menus[k].ptr, Title(menus[k])))
  }

  /** MenuBar<T>: a native menu bar and the menus moved into it, in order. */
  class MenuBar<T(==)> {
    /** The native menu bar. */
    var ptr: Handle
    var menus: seq<MenuTree<T>>

    /** The native bar shows exactly these menus, in this order, under their titles,
        and each menu is mirrored natively. */
    ghost predicate Valid(tk: Toolkit)
      reads this, tk
    {
      && tk.Valid()
      && ptr in tk.bars
      && tk.bars[ptr] == Slots(menus)
      && forall k :: 0 <= k < |menus| ==> Mirrors(menus[k], tk.menus)
    }

    /** MenuBar::new: a fresh, empty native menu bar. */
    constructor (tk: Toolkit)
      requires tk.Valid()
      modifies tk
      ensures Valid(tk)
      ensures menus == []
      ensures ptr !in old(tk.bars) && tk.bars == old(tk.bars)[ptr := []]
      ensures tk.menus == old(tk.menus) && tk.frameBar == old(tk.frameBar) && tk.nextId == old(tk.nextId)
    {
      var h := tk.CreateMenuBar();
      ptr := h;
      menus := [];
    }

    /** MenuBar::show: the frame shows this bar. */
    method Show(tk: Toolkit)
      requires Valid(tk)
      modifies tk
      ensures Valid(tk)
      ensures tk.frameBar == Some(ptr)
      ensures tk.menus == old(tk.menus) && tk.bars == old(tk.bars)
      ensures tk.nextId == old(tk.nextId) && tk.nextHandle == old(tk.nextHandle)
    {
      tk.SetMenuBar(ptr);
    }

    /** MenuBar::append: the native insert at index menus.len(), titled with the menu's
        name or "Default", then the menu becomes the last one. */
    method Append(tk: Toolkit, menu: Menu<T>)
      requires Valid(tk) && menu.Valid(tk)
      modifies this, tk
      ensures Valid(tk)
      ensures ptr == old(ptr)
      ensures menus == old(menus) + [menu.Tree()]
      ensures tk.bars == old(tk.bars)[ptr := old(tk.bars[ptr]) + [BarSlot(menu.ptr, Title(menu.Tree()))]]
      ensures tk.menus == old(tk.menus) && tk.frameBar == old(tk.frameBar)
      ensures tk.nextId == old(tk.nextId) && tk.nextHandle == old(tk.nextHandle)
    {
      var m := menu.Tree();
      InsertAtEnd(tk.bars[ptr], BarSlot(m.ptr, Title(m)));
      tk.InsertToMenuBar(ptr, m.ptr, |menus|, Title(m));
      menus := menus + [m];
      assert tk.bars[ptr] == Slots(menus);
    }

    /** MenuBar::insert: the native insert at index i, then the same insert in the
        Rust list. */
    method Insert(tk: Toolkit, menu: Menu<T>, i: nat)
      requires Valid(tk) && menu.Valid(tk)
      requires i <= |menus|
      modifies this, tk
      ensures Valid(tk)
      ensures ptr == old(ptr)
      ensures menus == InsertAt(old(menus), i, menu.Tree())
      ensures tk.bars == old(tk.bars)[ptr := InsertAt(old(tk.bars[ptr]), i, BarSlot(menu.ptr, Title(menu.Tree())))]
      ensures tk.menus == old(tk.menus) && tk.frameBar == old(tk.frameBar)
      ensures tk.nextId == old(tk.nextId) && tk.nextHandle == old(tk.nextHandle)
    {
      var m := menu.Tree();
      tk.InsertToMenuBar(ptr, m.ptr, i, Title(m));
      menus := InsertAt(menus, i, m);
      assert tk.bars[ptr] == Slots(menus);
    }

    /** MenuBar::remove: the native removal at index i, then the same removal in the
        Rust list. */
    method Remove(tk: Toolkit, i: nat)
      requires Valid(tk)
      requires i < |menus|
      modifies this, tk
      ensures Valid(tk)
      ensures ptr == old(ptr)
      ensures menus == RemoveAt(old(menus), i)
      ensures tk.bars == old(tk.bars)[ptr := RemoveAt(old(tk.bars[ptr]), i)]
      ensures tk.menus == old(tk.menus) && tk.frameBar == old(tk.frameBar)
      ensures tk.nextId == old(tk.nextId) && tk.nextHandle == old(tk.nextHandle)
    {
      tk.RemoveFromMenuBar(ptr, i);
      menus := RemoveAt(menus, i);
      assert tk.bars[ptr] == Slots(menus);
    }

    /** MenuBar::clear: removes the menus from the last index down to 0, so every
        native removal is in range, and leaves the bar empty. */
    method Clear(tk: Toolkit)
      requires Valid(tk)
      modifies this, tk
      ensures Valid(tk)
      ensures ptr == old(ptr) && menus == []
      ensures tk.bars == old(tk.bars)[ptr := []]
      ensures tk.menus == old(tk.menus) && tk.frameBar == old(tk.frameBar)
      ensures tk.nextId == old(tk.nextId) && tk.nextHandle == old(tk.nextHandle)
    {
      var i := |menus|;
      while i > 0
        invariant 0 <= i <= |old(menus)|
        invariant Valid(tk) && ptr == old(ptr)
        invariant menus == old(menus)[..i]
        invariant tk.bars == old(tk.bars)[ptr := Slots(menus)]
        invariant tk.menus == old(tk.menus) && tk.frameBar == old(tk.frameBar)
        invariant tk.nextId == old(tk.nextId) && tk.nextHandle == old(tk.nextHandle)
        decreases i
      {
        i := i - 1;
        RemoveLastIsPrefix(menus);
        Remove(tk, i);
      }
      menus := [];
    }

    /** MenuBar::get_entry_from_event_id: the first menu, in order, whose search finds
        the native id answers; that is the first entry of the whole bar with that id. */
    function GetEntryFromEventId(eventId: int): (r: Option<T>)
      reads this
      ensures r == FirstMatch(BarEntries(menus), eventId)
    {
      FindInMenusIsFirstMatch(menus, eventId);
      FindInMenus(menus, eventId)
    }

    /** Dropping a MenuBar: clear it, then delete the native bar, detaching it from the
        frame first if the frame shows it. */
    method Drop(tk: Toolkit)
      requires Valid(tk)
      modifies this, tk
      ensures tk.Valid()
      ensures menus == []
      ensures tk.bars == old(tk.bars) - {old(ptr)}
      ensures tk.frameBar == if old(tk.frameBar) == Some(old(ptr)) then None else old(tk.frameBar)
      ensures tk.menus == old(tk.menus)
      ensures tk.nextId == old(tk.nextId) && tk.nextHandle == old(tk.nextHandle)
    {
      Clear(tk);
      tk.DeleteMenuBar(ptr);
    }
  }
}
