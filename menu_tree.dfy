/** The Rust menu tree of src/menu.rs as values: entries, separators and submenus,
    the searches over it, and how it mirrors the native menus. */
module MenuTrees {
  import opened Wrappers
  import opened Sequences
  import opened NativeMenus

  /** MenuEntry<T>: the application's id, the native id recorded at insertion, the
      text and the optional help text. */
  datatype MenuEntry<T> = MenuEntry(id: T, eventId: int, name: string, help: Option<string>)

  /** MenuItem<T>. A submenu, once moved into its parent, is never changed again
      through the Rust API, so it is held here as a value. */
  datatype MenuItem<T> = Submenu(menu: MenuTree<T>) | Entry(entry: MenuEntry<T>) | Separator

  /** The state of a Menu<T>: native address, name (required for submenus), items, help. */
  datatype MenuTree<T> = MenuTree(ptr: Handle, name: Option<string>, items: seq<MenuItem<T>>, help: Option<string>)

  /** MenuEntry::new: no native id yet (0) and no help text. */
  function NewEntry<T>(id: T, name: string): MenuEntry<T>
  {
    MenuEntry(id, 0, name, None)
  }

  /** MenuEntry::help: the same entry with help text. */
  function WithHelp<T>(e: MenuEntry<T>, help: string): MenuEntry<T>
  {
    e.(help := Some(help))
  }

  // ---------------------------------------------------------------------------
  // Reverse lookup: get_entry_from_event_id

  /** Menu::get_entry_from_event_id over a list of items: scan in order; an entry
      whose native id matches answers, a submenu is searched before later siblings. */
  function FindInItems<T>(items: seq<MenuItem<T>>, eventId: int): Option<T>
    decreases items, 0
  {
    if items == [] then None
    else
      var r := FindInItem(items[0], eventId);
      if r.Some? then r else FindInItems(items[1..], eventId)
  }

  function FindInItem<T>(item: MenuItem<T>, eventId: int): Option<T>
    decreases item, 1
  {
    match item
    case Entry(e) => if e.eventId == eventId then Some(e.id) else None
    case Submenu(s) => FindInItems(s.items, eventId)
    case Separator => None
  }

  /** Menu::get_entry_from_event_id. */
  function GetEntryFromEventId<T>(m: MenuTree<T>, eventId: int): Option<T>
  {
    FindInItems(m.items, eventId)
  }

  /** Every entry of a list of items, depth first, submenus in place: the order in
      which the lookup visits them. */
  function ItemsEntries<T>(items: seq<MenuItem<T>>): seq<MenuEntry<T>>
    decreases items, 0
  {
    if items == [] then [] else ItemEntries(items[0]) + ItemsEntries(items[1..])
  }

  function ItemEntries<T>(item: MenuItem<T>): seq<MenuEntry<T>>
    decreases item, 1
  {
    match item
    case Entry(e) => [e]
    case Submenu(s) => ItemsEntries(s.items)
    case Separator => []
  }

  /** Every entry of a menu, depth first. */
  function Entries<T>(m: MenuTree<T>): seq<MenuEntry<T>>
  {
    ItemsEntries(m.items)
  }

  /** Reference search on a flat list: the id of the first entry with that native id. */
  function FirstMatch<T>(es: seq<MenuEntry<T>>, eventId: int): (r: Option<T>)
    ensures r.None? <==> forall j :: 0 <= j < |es| ==> es[j].eventId != eventId
    ensures r.Some? ==> exists i :: (0 <= i < |es| && es[i].eventId == eventId && es[i].id == r.value &&
      forall j :: 0 <= j < i ==> es[j].eventId != eventId)
  {
    if es == [] then None
    else if es[0].eventId == eventId then Some(es[0].id)
    else
      var r := FirstMatch(es[1..], eventId);
      assert forall j :: 0 < j < |es| ==> es[j] == es[1..][j - 1];
      assert r.Some? ==> exists i :: (0 <= i < |es[1..]| && es[1..][i].eventId == eventId &&
        es[1..][i].id == r.value && es[i + 1] == es[1..][i]);
      r
  }

  /** The first match in a + b is the first match in a, if any, and else the first in b. */
  lemma {:induction false} FirstMatchAppend<T>(a: seq<MenuEntry<T>>, b: seq<MenuEntry<T>>, eventId: int)
    ensures FirstMatch(a + b, eventId) ==
      if FirstMatch(a, eventId).Some? then FirstMatch(a, eventId) else FirstMatch(b, eventId)
  {
    if a != [] {
      assert (a + b)[0] == a[0];
      assert (a + b)[1..] == a[1..] + b;
      FirstMatchAppend(a[1..], b, eventId);
    } else {
      assert a + b == b;
    }
  }

  /** The tree walk answers exactly what the first-match search over the flattened
      entries answers: depth first, submenus before their later siblings. */
  lemma {:induction false} FindIsFirstMatch<T>(items: seq<MenuItem<T>>, eventId: int)
    ensures FindInItems(items, eventId) == FirstMatch(ItemsEntries(items), eventId)
    decreases items, 0
  {
    if items != [] {
      FindItemIsFirstMatch(items[0], eventId);
      FindIsFirstMatch(items[1..], eventId);
      FirstMatchAppend(ItemEntries(items[0]), ItemsEntries(items[1..]), eventId);
    }
  }

  lemma {:induction false} FindItemIsFirstMatch<T>(item: MenuItem<T>, eventId: int)
    ensures FindInItem(item, eventId) == FirstMatch(ItemEntries(item), eventId)
    decreases item, 1
  {
    match item
    case Entry(e) =>
    case Submenu(s) => FindIsFirstMatch(s.items, eventId);
    case Separator =>
  }

  /** The lookup fails exactly when no entry anywhere in the menu carries that native
      id; separators never match. */
  lemma LookupMissIff<T>(m: MenuTree<T>, eventId: int)
    ensures GetEntryFromEventId(m, eventId).None? <==>
      forall j :: 0 <= j < |Entries(m)| ==> Entries(m)[j].eventId != eventId
  {
    FindIsFirstMatch(m.items, eventId);
    assert GetEntryFromEventId(m, eventId) == FirstMatch(Entries(m), eventId);
  }

  /** A successful lookup names an entry of the menu carrying that native id, and no
      entry visited before it carries that id. */
  lemma LookupHitIsFirst<T>(m: MenuTree<T>, eventId: int)
    requires GetEntryFromEventId(m, eventId).Some?
    ensures exists i :: (0 <= i < |Entries(m)| && Entries(m)[i].eventId == eventId &&
      Entries(m)[i].id == GetEntryFromEventId(m, eventId).value &&
      forall j :: 0 <= j < i ==> Entries(m)[j].eventId != eventId)
  {
    FindIsFirstMatch(m.items, eventId);
    assert GetEntryFromEventId(m, eventId) == FirstMatch(Entries(m), eventId);
  }

  /** No two entries share a native id. */
  ghost predicate DistinctEventIds<T>(es: seq<MenuEntry<T>>)
  {
    forall i, j :: 0 <= i < j < |es| ==> es[i].eventId != es[j].eventId
  }

  /** Round trip: when the recorded native ids are distinct, looking up any entry's
      recorded id gives back that entry's application id. */
  lemma LookupRoundTrip<T>(m: MenuTree<T>, k: nat)
    requires DistinctEventIds(Entries(m))
    requires k < |Entries(m)|
    ensures GetEntryFromEventId(m, Entries(m)[k].eventId) == Some(Entries(m)[k].id)
  {
    var es := Entries(m);
    FindIsFirstMatch(m.items, es[k].eventId);
    var i :| 0 <= i < |es| && es[i].eventId == es[k].eventId &&
      es[i].id == FirstMatch(es, es[k].eventId).value &&
      forall j :: 0 <= j < i ==> es[j].eventId != es[k].eventId;
    assert i == k;
  }

  /** The entries of a concatenation of item lists. */
  lemma {:induction false} ItemsEntriesAppend<T>(a: seq<MenuItem<T>>, b: seq<MenuItem<T>>)
    ensures ItemsEntries(a + b) == ItemsEntries(a) + ItemsEntries(b)
  {
    if a == [] {
      assert a + b == b;
    } else {
      assert (a + b)[0] == a[0];
      assert (a + b)[1..] == a[1..] + b;
      ItemsEntriesAppend(a[1..], b);
    }
  }

  /** The entries of a list split around one item. */
  lemma EntriesAroundItem<T>(a: seq<MenuItem<T>>, item: MenuItem<T>, b: seq<MenuItem<T>>)
    ensures ItemsEntries(a + ([item] + b)) == ItemsEntries(a) + ItemEntries(item) + ItemsEntries(b)
  {
    ItemsEntriesAppend(a, [item] + b);
    ItemsEntriesAppend([item], b);
    assert ItemsEntries([item]) == ItemEntries(item) by {
      assert [item][1..] == [];
    }
    assert ItemsEntries(a) + (ItemEntries(item) + ItemsEntries(b)) ==
      ItemsEntries(a) + ItemEntries(item) + ItemsEntries(b);
  }

  /** The entries after inserting item at position i: its entries land between
      those of the items before i and those from i on. */
  lemma EntriesAfterInsert<T>(items: seq<MenuItem<T>>, i: nat, item: MenuItem<T>)
    requires i <= |items|
    ensures ItemsEntries(InsertAt(items, i, item)) ==
      ItemsEntries(items[..i]) + ItemEntries(item) + ItemsEntries(items[i..])
    ensures ItemsEntries(items) == ItemsEntries(items[..i]) + ItemsEntries(items[i..])
  {
    InsertAtSplit(items, i, item);
    ItemsEntriesAppend(items[..i], items[i..]);
    EntriesAroundItem(items[..i], item, items[i..]);
  }

  /** The entries after removing position i: those of the removed item drop out. */
  lemma EntriesAfterRemove<T>(items: seq<MenuItem<T>>, i: nat)
    requires i < |items|
    ensures ItemsEntries(RemoveAt(items, i)) == ItemsEntries(items[..i]) + ItemsEntries(items[i + 1..])
    ensures ItemsEntries(items) ==
      ItemsEntries(items[..i]) + ItemEntries(items[i]) + ItemsEntries(items[i + 1..])
  {
    RemoveAtSplit(items, i);
    ItemsEntriesAppend(items[..i], items[i + 1..]);
    EntriesAroundItem(items[..i], items[i], items[i + 1..]);
  }

  /** Inserting an entry whose native id no existing entry carries: that id now finds
      the new entry, and every other id finds what it found before. */
  lemma LookupAfterInsertEntry<T>(items: seq<MenuItem<T>>, i: nat, e: MenuEntry<T>, eventId: int)
    requires i <= |items|
    requires forall x :: x in ItemsEntries(items) ==> x.eventId != e.eventId
    ensures FindInItems(InsertAt(items, i, Entry(e)), e.eventId) == Some(e.id)
    ensures eventId != e.eventId ==>
      FindInItems(InsertAt(items, i, Entry(e)), eventId) == FindInItems(items, eventId)
  {
    var a, b := ItemsEntries(items[..i]), ItemsEntries(items[i..]);
    EntriesAfterInsert(items, i, Entry(e));
    FindIsFirstMatch(InsertAt(items, i, Entry(e)), e.eventId);
    FindIsFirstMatch(InsertAt(items, i, Entry(e)), eventId);
    FindIsFirstMatch(items, eventId);
    assert ItemEntries(Entry(e)) == [e];
    FirstMatchAppend(a + [e], b, e.eventId);
    FirstMatchAppend(a, [e], e.eventId);
    assert FirstMatch(a, e.eventId).None? by {
      forall j | 0 <= j < |a| ensures a[j].eventId != e.eventId {
        assert a[j] in ItemsEntries(items);
      }
    }
    FirstMatchAppend(a + [e], b, eventId);
    FirstMatchAppend(a, [e], eventId);
    FirstMatchAppend(a, b, eventId);
  }

  /** An entry built by MenuEntry::new, with or without help, and stored under a fresh
      native id is found by that id and answers the id it was built with. */
  lemma NewEntryFoundByItsNativeId<T>(items: seq<MenuItem<T>>, i: nat, id: T, name: string,
                                      help: Option<string>, nativeId: int)
    requires i <= |items|
    requires forall x :: x in ItemsEntries(items) ==> x.eventId != nativeId
    ensures var e := if help.Some? then WithHelp(NewEntry(id, name), help.value) else NewEntry(id, name);
      && e.name == name && e.help == help
      && FindInItems(InsertAt(items, i, Entry(e.(eventId := nativeId))), nativeId) == Some(id)
  {
    var e := if help.Some? then WithHelp(NewEntry(id, name), help.value) else NewEntry(id, name);
    LookupAfterInsertEntry(items, i, e.(eventId := nativeId), nativeId);
  }

  /** Inserting a separator changes no lookup. */
  lemma LookupAfterInsertSeparator<T>(items: seq<MenuItem<T>>, i: nat, eventId: int)
    requires i <= |items|
    ensures FindInItems(InsertAt(items, i, Separator), eventId) == FindInItems(items, eventId)
  {
    EntriesAfterInsert(items, i, Separator);
    assert ItemEntries<T>(Separator) == [];
    assert ItemsEntries(items[..i]) + ItemEntries<T>(Separator) + ItemsEntries(items[i..]) ==
      ItemsEntries(items);
    FindIsFirstMatch(InsertAt(items, i, Separator), eventId);
    FindIsFirstMatch(items, eventId);
  }

  /** Removing an entry whose native id no other entry carries: that id is no longer
      found, and every other id finds what it found before. */
  lemma LookupAfterRemoveEntry<T>(items: seq<MenuItem<T>>, i: nat, eventId: int)
    requires i < |items| && items[i].Entry?
    requires DistinctEventIds(ItemsEntries(items))
    ensures FindInItems(RemoveAt(items, i), items[i].entry.eventId) == None
    ensures eventId != items[i].entry.eventId ==>
      FindInItems(RemoveAt(items, i), eventId) == FindInItems(items, eventId)
  {
    var e := items[i].entry;
    var a, b := ItemsEntries(items[..i]), ItemsEntries(items[i + 1..]);
    EntriesAfterRemove(items, i);
    assert ItemEntries(items[i]) == [e];
    var all := a + [e] + b;
    assert ItemsEntries(items) == all;
    FindIsFirstMatch(RemoveAt(items, i), e.eventId);
    FindIsFirstMatch(RemoveAt(items, i), eventId);
    FindIsFirstMatch(items, eventId);
    forall j | 0 <= j < |a + b| ensures (a + b)[j].eventId != e.eventId {
      if j < |a| {
        assert (a + b)[j] == all[j] && all[|a|] == e;
      } else {
        assert (a + b)[j] == all[j + 1] && all[|a|] == e;
      }
    }
    FirstMatchAppend(a + [e], b, eventId);
    FirstMatchAppend(a, [e], eventId);
    FirstMatchAppend(a, b, eventId);
  }

  // ---------------------------------------------------------------------------
  // Toggling by application id: enable_item_by_id / disable_item_by_id

  /** The native positions that enable_item_by_id(id) / disable_item_by_id(id) toggle,
      in the order it toggles them, scanning the items of m from index k: a direct
      entry with that id is toggled and ends the scan of this level; a submenu is
      searched completely (a hit inside it does not end this level's scan). */
  function TargetsFrom<T(==)>(m: MenuTree<T>, k: nat, id: T): seq<Position>
    requires k <= |m.items|
    decreases m, |m.items| - k
  {
    if k == |m.items| then []
    else match m.items[k]
      case Entry(e) => if e.id == id then [Position(m.ptr, k)] else TargetsFrom(m, k + 1, id)
      case Submenu(s) => TargetsFrom(s, 0, id) + TargetsFrom(m, k + 1, id)
      case Separator => TargetsFrom(m, k + 1, id)
  }

  /** One step of the scan: the positions from k, by the kind of item at k. */
  lemma TargetsFromStep<T>(m: MenuTree<T>, k: nat, id: T)
    requires k < |m.items|
    ensures m.items[k].Entry? && m.items[k].entry.id == id ==> TargetsFrom(m, k, id) == [Position(m.ptr, k)]
    ensures m.items[k].Entry? && m.items[k].entry.id != id ==> TargetsFrom(m, k, id) == TargetsFrom(m, k + 1, id)
    ensures m.items[k].Separator? ==> TargetsFrom(m, k, id) == TargetsFrom(m, k + 1, id)
    ensures m.items[k].Submenu? ==>
      TargetsFrom(m, k, id) == TargetsFrom(m.items[k].menu, 0, id) + TargetsFrom(m, k + 1, id)
  {
  }

  function Targets<T(==)>(m: MenuTree<T>, id: T): seq<Position>
  {
    TargetsFrom(m, 0, id)
  }

  /** Whether m, or a menu nested in it, holds at p an entry with application id id. */
  ghost predicate HasEntryAt<T>(m: MenuTree<T>, p: Position, id: T)
    decreases m
  {
    || (m.ptr == p.menu && p.index < |m.items| && m.items[p.index].Entry? && m.items[p.index].entry.id == id)
    || exists k :: 0 <= k < |m.items| && m.items[k].Submenu? && HasEntryAt(m.items[k].menu, p, id)
  }

  /** Every position toggled holds an entry with the requested id: nothing else,
      such as a sibling entry with another id, is touched. */
  lemma {:induction false} TargetsAreMatchingEntries<T>(m: MenuTree<T>, k: nat, id: T)
    requires k <= |m.items|
    ensures forall p :: p in TargetsFrom(m, k, id) ==> HasEntryAt(m, p, id)
    decreases m, |m.items| - k
  {
    if k < |m.items| {
      match m.items[k]
      case Entry(e) =>
        if e.id != id { TargetsAreMatchingEntries(m, k + 1, id); }
      case Submenu(s) =>
        TargetsAreMatchingEntries(s, 0, id);
        TargetsAreMatchingEntries(m, k + 1, id);
        forall p | p in TargetsFrom(s, 0, id) ensures HasEntryAt(m, p, id) {
          assert m.items[k].Submenu? && HasEntryAt(m.items[k].menu, p, id);
        }
      case Separator =>
        TargetsAreMatchingEntries(m, k + 1, id);
    }
  }

  /** The application ids of the entries of items[k..], nested ones included. */
  function IdsFrom<T>(m: MenuTree<T>, k: nat): set<T>
    requires k <= |m.items|
    decreases m, |m.items| - k
  {
    if k == |m.items| then {}
    else match m.items[k]
      case Entry(e) => {e.id} + IdsFrom(m, k + 1)
      case Submenu(s) => IdsFrom(s, 0) + IdsFrom(m, k + 1)
      case Separator => IdsFrom(m, k + 1)
  }

  /** Something is toggled exactly when some entry, at any depth, has the id. */
  lemma {:induction false} TargetsEmptyIff<T>(m: MenuTree<T>, k: nat, id: T)
    requires k <= |m.items|
    ensures TargetsFrom(m, k, id) == [] <==> id !in IdsFrom(m, k)
    decreases m, |m.items| - k
  {
    if k < |m.items| {
      match m.items[k]
      case Entry(e) =>
        if e.id != id { TargetsEmptyIff(m, k + 1, id); }
      case Submenu(s) =>
        TargetsEmptyIff(s, 0, id);
        TargetsEmptyIff(m, k + 1, id);
      case Separator =>
        TargetsEmptyIff(m, k + 1, id);
    }
  }

  /** If a direct entry of m has the id, the first such entry is the last position
      toggled: the scan of this level stops there. */
  lemma {:induction false} TargetsStopAtFirstDirect<T>(m: MenuTree<T>, k: nat, first: nat, id: T)
    requires k <= first < |m.items|
    requires m.items[first].Entry? && m.items[first].entry.id == id
    requires forall j :: k <= j < first ==> !(m.items[j].Entry? && m.items[j].entry.id == id)
    ensures |TargetsFrom(m, k, id)| > 0
    ensures TargetsFrom(m, k, id)[|TargetsFrom(m, k, id)| - 1] == Position(m.ptr, first)
    decreases first - k
  {
    if k < first {
      TargetsStopAtFirstDirect(m, k + 1, first, id);
    }
  }

  /** A hit inside a submenu does not end the scan: with entry id 7 in a submenu and
      again directly after it, both are toggled. */
  lemma SeveralEntriesToggled()
    ensures var sub := MenuTree(2, Some("More"), [Entry(MenuEntry(7, -10, "a", None))], None);
      var m := MenuTree(1, None, [Submenu(sub), Entry(MenuEntry(7, -11, "b", None))], None);
      Targets(m, 7) == [Position(2, 0), Position(1, 1)]
  {
  }

  // ---------------------------------------------------------------------------
  // The Rust tree and the native menus stay in step

  /** The native counterpart of one Rust item. */
  function NativeKindOf<T>(item: MenuItem<T>, nativeId: int): NativeKind
  {
    match item
    case Separator => SeparatorItem
    case Entry(e) => EntryItem(e.eventId, e.name, e.help)
    case Submenu(s) => SubmenuItem(nativeId, s.ptr, if s.name.Some? then s.name.value else "", s.help)
  }

  /** A Rust item and a native item correspond: same kind, the entry's recorded id is
      the native id, the submenu item opens the submenu's native menu. */
  ghost predicate Corresponds<T>(item: MenuItem<T>, n: NativeKind)
  {
    match item
    case Separator => n.SeparatorItem?
    case Entry(e) => n == EntryItem(e.eventId, e.name, e.help)
    case Submenu(s) => n.SubmenuItem? && n.submenu == s.ptr && s.name == Some(n.text) && n.help == s.help
  }

  /** The native menu at m.ptr has exactly the items of m, position for position, and
      so do all nested submenus. */
  ghost predicate Mirrors<T>(m: MenuTree<T>, menus: MenuState)
    decreases m
  {
    && m.ptr in menus
    && |menus[m.ptr]| == |m.items|
    && forall k :: 0 <= k < |m.items| ==>
         && Corresponds(m.items[k], menus[m.ptr][k].kind)
         && (m.items[k].Submenu? ==> Mirrors(m.items[k].menu, menus))
  }

  /** The addresses of all menus nested in a list of items. */
  function ItemsHandles<T>(items: seq<MenuItem<T>>): set<Handle>
    decreases items, 0
  {
    if items == [] then {} else ItemHandles(items[0]) + ItemsHandles(items[1..])
  }

  function ItemHandles<T>(item: MenuItem<T>): set<Handle>
    decreases item, 1
  {
    if item.Submenu? then {item.menu.ptr} + ItemsHandles(item.menu.items) else {}
  }

  /** The addresses of m and of every menu nested in it. */
  function Handles<T>(m: MenuTree<T>): set<Handle>
  {
    {m.ptr} + ItemsHandles(m.items)
  }

  /** A nested menu's addresses are among those of the list holding it. */
  lemma {:induction false} ItemHandlesIncluded<T>(items: seq<MenuItem<T>>, k: nat)
    requires k < |items|
    ensures ItemHandles(items[k]) <= ItemsHandles(items)
  {
    if k > 0 {
      ItemHandlesIncluded(items[1..], k - 1);
      assert items[1..][k - 1] == items[k];
    }
  }

  /** A submenu's addresses are among those of the menu holding it. */
  lemma SubmenuHandlesIncluded<T>(m: MenuTree<T>, k: nat)
    requires k < |m.items| && m.items[k].Submenu?
    ensures Handles(m.items[k].menu) <= Handles(m)
  {
    ItemHandlesIncluded(m.items, k);
  }

  /** Mirroring only depends on the kinds of the native items of the menus in the
      tree: changing other menus, or enabled flags, keeps it. */
  lemma {:induction false} MirrorsFrame<T>(m: MenuTree<T>, menus: MenuState, menus': MenuState)
    requires Mirrors(m, menus)
    requires forall h :: h in Handles(m) ==> h in menus && h in menus' && Kinds(menus'[h]) == Kinds(menus[h])
    ensures Mirrors(m, menus')
    decreases m
  {
    assert m.ptr in Handles(m);
    assert Kinds(menus'[m.ptr]) == Kinds(menus[m.ptr]);
    forall k | 0 <= k < |m.items|
      ensures Corresponds(m.items[k], menus'[m.ptr][k].kind)
      ensures m.items[k].Submenu? ==> Mirrors(m.items[k].menu, menus')
    {
      assert menus'[m.ptr][k].kind == Kinds(menus'[m.ptr])[k];
      if m.items[k].Submenu? {
        ItemHandlesIncluded(m.items, k);
        MirrorsFrame(m.items[k].menu, menus, menus');
      }
    }
  }

  /** The handles of a concatenation of item lists. */
  lemma {:induction false} ItemsHandlesAppend<T>(a: seq<MenuItem<T>>, b: seq<MenuItem<T>>)
    ensures ItemsHandles(a + b) == ItemsHandles(a) + ItemsHandles(b)
  {
    if a == [] {
      assert a + b == b;
    } else {
      assert (a + b)[0] == a[0];
      assert (a + b)[1..] == a[1..] + b;
      ItemsHandlesAppend(a[1..], b);
    }
  }

  lemma HandlesAfterInsert<T>(items: seq<MenuItem<T>>, i: nat, item: MenuItem<T>)
    requires i <= |items|
    ensures ItemsHandles(InsertAt(items, i, item)) == ItemsHandles(items) + ItemHandles(item)
  {
    assert items == items[..i] + items[i..];
    ItemsHandlesAppend(items[..i], items[i..]);
    assert InsertAt(items, i, item) == items[..i] + ([item] + items[i..]);
    ItemsHandlesAppend(items[..i], [item] + items[i..]);
    ItemsHandlesAppend([item], items[i..]);
    assert [item][1..] == [];
  }

  lemma HandlesAfterRemove<T>(items: seq<MenuItem<T>>, i: nat)
    requires i < |items|
    ensures ItemsHandles(RemoveAt(items, i)) <= ItemsHandles(items)
  {
    RemoveAtSplit(items, i);
    ItemsHandlesAppend(items[..i], [items[i]] + items[i + 1..]);
    ItemsHandlesAppend([items[i]], items[i + 1..]);
    ItemsHandlesAppend(items[..i], items[i + 1..]);
  }

  /** A handle nested in a list of items is nested in one particular item. */
  lemma {:induction false} ItemsHandlesMember<T>(items: seq<MenuItem<T>>, h: Handle) returns (k: nat)
    requires h in ItemsHandles(items)
    ensures k < |items| && h in ItemHandles(items[k])
  {
    if h in ItemHandles(items[0]) {
      k := 0;
    } else {
      var k' := ItemsHandlesMember(items[1..], h);
      k := k' + 1;
    }
  }

  /** Every menu of a mirrored tree exists natively. */
  lemma {:induction false} MirroredHandlesPresent<T>(m: MenuTree<T>, menus: MenuState)
    requires Mirrors(m, menus)
    ensures Handles(m) <= menus.Keys
    decreases m
  {
    forall h | h in ItemsHandles(m.items) ensures h in menus {
      var k := ItemsHandlesMember(m.items, h);
      var s := m.items[k].menu;
      MirroredHandlesPresent(s, menus);
    }
  }

  /** Changing only the native menu of m, which is not nested in the subtree s, keeps
      s mirrored. */
  lemma MirrorsElsewhere<T>(s: MenuTree<T>, menus: MenuState, h: Handle, items: seq<NativeItem>)
    requires Mirrors(s, menus) && h !in Handles(s)
    ensures Mirrors(s, menus[h := items])
  {
    MirroredHandlesPresent(s, menus);
    MirrorsFrame(s, menus, menus[h := items]);
  }

  /** The native item built for a Rust item corresponds to it, given a submenu's name. */
  lemma NativeKindCorresponds<T>(item: MenuItem<T>, nativeId: int)
    requires item.Submenu? ==> item.menu.name.Some?
    ensures Corresponds(item, NativeKindOf(item, nativeId))
  {
  }

  /** Inserting an item and its native counterpart at the same position of m and of
      its native menu keeps the tree mirrored. */
  lemma {:induction false} MirrorsAfterInsert<T>(m: MenuTree<T>, menus: MenuState, i: nat, item: MenuItem<T>, n: NativeItem)
    requires Mirrors(m, menus) && m.ptr !in ItemsHandles(m.items)
    requires i <= |m.items|
    requires Corresponds(item, n.kind)
    requires item.Submenu? ==> Mirrors(item.menu, menus) && m.ptr !in Handles(item.menu)
    ensures Mirrors(m.(items := InsertAt(m.items, i, item)), menus[m.ptr := InsertAt(menus[m.ptr], i, n)])
  {
    var items' := InsertAt(m.items, i, item);
    var native' := InsertAt(menus[m.ptr], i, n);
    var menus' := menus[m.ptr := native'];
    forall k | 0 <= k < |items'|
      ensures Corresponds(items'[k], native'[k].kind)
      ensures items'[k].Submenu? ==> Mirrors(items'[k].menu, menus')
    {
      if items'[k].Submenu? {
        if k < i {
          ItemHandlesIncluded(m.items, k);
        } else if k > i {
          ItemHandlesIncluded(m.items, k - 1);
        }
        MirrorsElsewhere(items'[k].menu, menus, m.ptr, native');
      }
    }
  }

  /** Removing the same position from m and from its native menu keeps the tree mirrored. */
  lemma {:induction false} MirrorsAfterRemove<T>(m: MenuTree<T>, menus: MenuState, i: nat)
    requires Mirrors(m, menus) && m.ptr !in ItemsHandles(m.items)
    requires i < |m.items|
    ensures Mirrors(m.(items := RemoveAt(m.items, i)), menus[m.ptr := RemoveAt(menus[m.ptr], i)])
  {
    var items' := RemoveAt(m.items, i);
    var native' := RemoveAt(menus[m.ptr], i);
    var menus' := menus[m.ptr := native'];
    forall k | 0 <= k < |items'|
      ensures Corresponds(items'[k], native'[k].kind)
      ensures items'[k].Submenu? ==> Mirrors(items'[k].menu, menus')
    {
      var j := if k < i then k else k + 1;
      assert items'[k] == m.items[j] && native'[k] == menus[m.ptr][j];
      if items'[k].Submenu? {
        ItemHandlesIncluded(m.items, j);
        MirrorsElsewhere(items'[k].menu, menus, m.ptr, native');
      }
    }
  }

  /** Every native id recorded in the entries is below the allocator's next id. */
  ghost predicate IdsBelow<T>(es: seq<MenuEntry<T>>, next: int)
  {
    forall x :: x in es ==> x.eventId < next
  }

  // ---------------------------------------------------------------------------
  // The menus of a menu bar

  /** The title a menu bar shows for a menu: its name, or "Default". */
  function Title<T>(m: MenuTree<T>): string
  {
    if m.name.Some? then m.name.value else "Default"
  }

  /** MenuBar::get_entry_from_event_id: the first menu that finds the native id answers. */
  function FindInMenus<T>(menus: seq<MenuTree<T>>, eventId: int): Option<T>
  {
    if menus == [] then None
    else
      var r := GetEntryFromEventId(menus[0], eventId);
      if r.Some? then r else FindInMenus(menus[1..], eventId)
  }

  /** Every entry of every menu of a bar, menu after menu. */
  function BarEntries<T>(menus: seq<MenuTree<T>>): seq<MenuEntry<T>>
  {
    if menus == [] then [] else Entries(menus[0]) + BarEntries(menus[1..])
  }

  /** The bar's search answers what the first-match search over all its entries answers. */
  lemma {:induction false} FindInMenusIsFirstMatch<T>(menus: seq<MenuTree<T>>, eventId: int)
    ensures FindInMenus(menus, eventId) == FirstMatch(BarEntries(menus), eventId)
  {
    if menus != [] {
      FindIsFirstMatch(menus[0].items, eventId);
      FindInMenusIsFirstMatch(menus[1..], eventId);
      FirstMatchAppend(Entries(menus[0]), BarEntries(menus[1..]), eventId);
    }
  }

  /** The menus of a bar with one more menu at the end. */
  lemma {:induction false} BarEntriesAppend<T>(menus: seq<MenuTree<T>>, m: MenuTree<T>)
    ensures BarEntries(menus + [m]) == BarEntries(menus) + Entries(m)
  {
    if menus == [] {
      assert menus + [m] == [m];
      assert [m][1..] == [];
    } else {
      assert (menus + [m])[0] == menus[0];
      assert (menus + [m])[1..] == menus[1..] + [m];
      BarEntriesAppend(menus[1..], m);
    }
  }

  /** The first menu whose search succeeds answers the bar's search; the menus before
      it find nothing. */
  lemma {:induction false} FindInMenusFirstHit<T>(menus: seq<MenuTree<T>>, eventId: int, k: nat)
    requires k < |menus| && GetEntryFromEventId(menus[k], eventId).Some?
    requires forall j :: 0 <= j < k ==> GetEntryFromEventId(menus[j], eventId).None?
    ensures FindInMenus(menus, eventId) == GetEntryFromEventId(menus[k], eventId)
  {
    if k > 0 {
      assert menus[1..][k - 1] == menus[k];
      FindInMenusFirstHit(menus[1..], eventId, k - 1);
    }
  }

  /** The bar's search fails exactly when every menu's search fails. */
  lemma {:induction false} FindInMenusFindsNothing<T>(menus: seq<MenuTree<T>>, eventId: int)
    ensures FindInMenus(menus, eventId).None? <==>
      forall j :: 0 <= j < |menus| ==> GetEntryFromEventId(menus[j], eventId).None?
  {
    if menus != [] {
      FindInMenusFindsNothing(menus[1..], eventId);
      assert forall j :: 0 < j < |menus| ==> menus[j] == menus[1..][j - 1];
    }
  }
}
