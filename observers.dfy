/** The model observers: every saved, deleted or restored menu or item row
    evicts the cached tree of the menu it belongs to, and a saved item that
    points at a menu-aware model has its link rewritten. The lemmas say
    which row changes leave the cache coherent with the rows afterwards. */
module Observers {
  import opened Wrappers
  import opened MenuTypes
  import opened Flattener
  import opened MenuCache
  import opened MenuLinks

  /** The model an item's `menuable` relation resolves to: whether it
      implements the menu contract, and the identifier it reports, as the
      text `sprintf` writes (`None` when asking for it throws, as it does
      for a class that names no identifier field). */
  datatype Menuable = Menuable(interactsWithMenu: bool, identifier: Option<string>)

  /** The parts of a saved item row the observer reads and writes: its
      link, the resolved `menuable` (`None` when unset), and the menu it
      belongs to: `None` when that menu cannot be loaded, otherwise the
      menu's `alias` attribute (`None` when missing). */
  class ItemRecord {
    var link: Option<string>
    const menuable: Option<Menuable>
    const menu: Option<Option<string>>

    constructor (link: Option<string>, menuable: Option<Menuable>, menu: Option<Option<string>>)
      ensures this.link == link && this.menuable == menuable && this.menu == menu
    {
      this.link := link;
      this.menuable := menuable;
      this.menu := menu;
    }
  }

  /** The identifier the link is rewritten with: present when the row
      points at a menu-aware model whose identifier can be read. */
  function RewriteWith(menuable: Option<Menuable>): Option<string> {
    if menuable.Some? && menuable.value.interactsWithMenu then menuable.value.identifier else None
  }

  /** The cache after the `finally` block: the menu's key is evicted when
      the menu loads (a missing alias reads as ''), nothing otherwise. */
  function AfterEviction(entries: map<string, Entry>, config: Config, menu: Option<Option<string>>): map<string, Entry> {
    match menu
    case None => entries
    case Some(alias) => entries - {TreeKey(KeyPrefix(config), alias.GetOr(""))}
  }

  class MenuItemObserver {

    /** `created`: the link gains the identifier as a last segment; a
        failure to read the identifier leaves the link alone, and the
        eviction happens either way. */
    method Created(item: ItemRecord, cache: TreeStore, config: Config)
      modifies item, cache
      ensures item.link == match RewriteWith(item.menuable)
                           case Some(id) => Some(CreatedLink(old(item.link), id))
                           case None => old(item.link)
      ensures cache.entries == AfterEviction(old(cache.entries), config, item.menu)
    {
      if item.menuable.Some? && item.menuable.value.interactsWithMenu {
        var identifier := item.menuable.value.identifier;
        if identifier.Some? {
          item.link := Some(CreatedLink(item.link, identifier.value));
        }
      }
      if item.menu.Some? {
        MenuBuilder.ClearCache(cache, config, item.menu.value.GetOr(""));
      }
    }

    /** `updated`: the link's last segment becomes the identifier; a
        failure to read the identifier leaves the link alone, and the
        eviction happens either way. */
    method Updated(item: ItemRecord, cache: TreeStore, config: Config)
      modifies item, cache
      ensures item.link == match RewriteWith(item.menuable)
                           case Some(id) => Some(UpdatedLink(old(item.link), id))
                           case None => old(item.link)
      ensures cache.entries == AfterEviction(old(cache.entries), config, item.menu)
    {
      if item.menuable.Some? && item.menuable.value.interactsWithMenu {
        var identifier := item.menuable.value.identifier;
        if identifier.Some? {
          item.link := Some(UpdatedLink(item.link, identifier.value));
        }
      }
      if item.menu.Some? {
        MenuBuilder.ClearCache(cache, config, item.menu.value.GetOr(""));
      }
    }

    /** `updated` as it would evict for a row that moved from menu
        `former` to the menu it now belongs to: both menus' keys. */
    method UpdatedMoved(item: ItemRecord, former: Option<Option<string>>, cache: TreeStore, config: Config)
      modifies item, cache
      ensures item.link == match RewriteWith(item.menuable)
                           case Some(id) => Some(UpdatedLink(old(item.link), id))
                           case None => old(item.link)
      ensures cache.entries == AfterEviction(AfterEviction(old(cache.entries), config, former), config, item.menu)
    {
      if former.Some? {
        MenuBuilder.ClearCache(cache, config, former.value.GetOr(""));
      }
      Updated(item, cache, config);
    }

    /** `deleted`: evict the menu's key when the menu loads. */
    method Deleted(item: ItemRecord, cache: TreeStore, config: Config)
      modifies cache
      ensures cache.entries == AfterEviction(old(cache.entries), config, item.menu)
    {
      if item.menu.Some? {
        MenuBuilder.ClearCache(cache, config, item.menu.value.GetOr(""));
      }
    }

    /** `restored`: evict the menu's key when the menu loads. */
    method Restored(item: ItemRecord, cache: TreeStore, config: Config)
      modifies cache
      ensures cache.entries == AfterEviction(old(cache.entries), config, item.menu)
    {
      if item.menu.Some? {
        MenuBuilder.ClearCache(cache, config, item.menu.value.GetOr(""));
      }
    }
  }

  class MenuObserver {

    /** `created`: evict the new menu's alias. */
    method Created(menu: Menu, cache: TreeStore, config: Config)
      modifies cache
      ensures cache.entries == old(cache.entries) - {TreeKey(KeyPrefix(config), menu.alias)}
    {
      MenuBuilder.ClearCache(cache, config, menu.alias);
    }

    /** `updated`: evict the alias the menu has after the update. */
    method Updated(menu: Menu, cache: TreeStore, config: Config)
      modifies cache
      ensures cache.entries == old(cache.entries) - {TreeKey(KeyPrefix(config), menu.alias)}
    {
      MenuBuilder.ClearCache(cache, config, menu.alias);
    }

    /** `updated` as it would evict for a menu that was `before` and is now
        `menu`: both aliases. */
    method UpdatedRenamed(before: Menu, menu: Menu, cache: TreeStore, config: Config)
      modifies cache
      ensures cache.entries == old(cache.entries) - KeysOf(KeyPrefix(config), {before.alias, menu.alias})
    {
      MenuBuilder.ClearCache(cache, config, before.alias);
      MenuBuilder.ClearCache(cache, config, menu.alias);
      EvictTwo(old(cache.entries), KeyPrefix(config), before.alias, menu.alias);
    }

    /** `deleted`: evict the menu's alias. */
    method Deleted(menu: Menu, cache: TreeStore, config: Config)
      modifies cache
      ensures cache.entries == old(cache.entries) - {TreeKey(KeyPrefix(config), menu.alias)}
    {
      MenuBuilder.ClearCache(cache, config, menu.alias);
    }

    /** `restored`: evict the menu's alias. */
    method Restored(menu: Menu, cache: TreeStore, config: Config)
      modifies cache
      ensures cache.entries == old(cache.entries) - {TreeKey(KeyPrefix(config), menu.alias)}
    {
      MenuBuilder.ClearCache(cache, config, menu.alias);
    }
  }

  /** The key set of one alias. */
  lemma KeysOfOne(prefix: string, alias: string)
    ensures KeysOf(prefix, {alias}) == {TreeKey(prefix, alias)}
  {
  }

  /** An item hook after a change to the rows of one menu: evicting the key
      of that menu's alias keeps the cache coherent. This covers creating,
      editing, deleting and restoring a row that stays in its menu, and the
      link rewrite itself. */
  lemma ItemChangeEvicted(entries: map<string, Entry>, prefix: string, store: RowStore, store': RowStore,
                          menuId: int, alias: string)
    requires ValidStore(store) && ValidStore(store')
    requires Coherent(entries, prefix, store)
    requires store'.menus == store.menus
    requires forall id :: id != menuId ==> RowsOf(store', id) == RowsOf(store, id)
    requires forall m :: m in store.menus && m.id == menuId ==> m.alias == alias
    ensures Coherent(entries - {TreeKey(prefix, alias)}, prefix, store')
  {
    RowsChanged(store, store', {menuId}, {alias});
    EvictChanged(entries, prefix, store, store', {alias});
    KeysOfOne(prefix, alias);
  }

  /** An item that moved from menu `from` to menu `to`: evicting both
      menus' aliases keeps the cache coherent. */
  lemma ItemMoveEvicted(entries: map<string, Entry>, prefix: string, store: RowStore, store': RowStore,
                        from: int, to: int, fromAlias: string, toAlias: string)
    requires ValidStore(store) && ValidStore(store')
    requires Coherent(entries, prefix, store)
    requires store'.menus == store.menus
    requires forall id :: id != from && id != to ==> RowsOf(store', id) == RowsOf(store, id)
    requires forall m :: m in store.menus && m.id == from ==> m.alias == fromAlias
    requires forall m :: m in store.menus && m.id == to ==> m.alias == toAlias
    ensures Coherent(entries - {TreeKey(prefix, fromAlias)} - {TreeKey(prefix, toAlias)}, prefix, store')
  {
    RowsChanged(store, store', {from, to}, {fromAlias, toAlias});
    EvictChanged(entries, prefix, store, store', {fromAlias, toAlias});
    EvictTwo(entries, prefix, fromAlias, toAlias);
  }

  /** A menu hook after a menu row `mid` (at most one row) became `mid'`
      (at most one row) carrying the same alias, as when a menu is created,
      deleted, restored or edited without renaming it: evicting that alias
      keeps the cache coherent. */
  lemma MenuChangeEvicted(entries: map<string, Entry>, prefix: string, store: RowStore, store': RowStore,
                          pre: seq<Menu>, mid: seq<Menu>, mid': seq<Menu>, post: seq<Menu>, alias: string)
    requires ValidStore(store) && store'.activeItems == store.activeItems
    requires Coherent(entries, prefix, store)
    requires store.menus == pre + mid + post && store'.menus == pre + mid' + post
    requires forall m :: m in mid || m in mid' ==> m.alias == alias
    ensures Coherent(entries - {TreeKey(prefix, alias)}, prefix, store')
  {
    MenusChanged(store, store', pre, mid, mid', post, {alias});
    EvictChanged(entries, prefix, store, store', {alias});
    KeysOfOne(prefix, alias);
  }

  /** A menu renamed from `before.alias` to `after.alias`: evicting both
      aliases keeps the cache coherent. */
  lemma MenuRenameEvicted(entries: map<string, Entry>, prefix: string, store: RowStore, store': RowStore,
                          pre: seq<Menu>, before: Menu, after: Menu, post: seq<Menu>)
    requires ValidStore(store) && store'.activeItems == store.activeItems
    requires Coherent(entries, prefix, store)
    requires store.menus == pre + [before] + post && store'.menus == pre + [after] + post
    ensures Coherent(entries - KeysOf(prefix, {before.alias, after.alias}), prefix, store')
  {
    MenusChanged(store, store', pre, [before], [after], post, {before.alias, after.alias});
    EvictChanged(entries, prefix, store, store', {before.alias, after.alias});
  }

  /** One active menu with one top-level link row. */
  const SampleItem := Item(1, 1, None, None, None, None, Url, 0, map[])

  /** The tree cached for the alias before a change. */
  ghost function SampleEntries(store: RowStore, alias: string): map<string, Entry>
    requires ValidStore(store)
  {
    map[TreeKey(DefaultCacheKey, alias) := Entry(MenuForest(store, alias), 1)]
  }

  /** The sample menu's forest is not empty. */
  lemma SampleForest(store: RowStore, alias: string)
    requires store.menus == [Menu(1, alias, true)] && store.activeItems == map[1 := [SampleItem]]
    ensures ValidStore(store) && MenuForest(store, alias) != []
  {
    var items := [SampleItem];
    assert UniqueIds(items);
    assert GetMenu(store.menus, alias) == Some(Menu(1, alias, true));
    assert Rooted(items, []);
    assert Forest(items) == Sub(items, 0, []);
    assert |Sub(items, 0, [])| >= 1;
  }

  /** A cache holding only one alias's tree is coherent. */
  lemma SampleCoherent(store: RowStore, alias: string)
    requires ValidStore(store)
    ensures Coherent(SampleEntries(store, alias), DefaultCacheKey, store)
  {
    var k := TreeKey(DefaultCacheKey, alias);
    assert SampleEntries(store, alias).Keys == {k};
  }

  /** A tree cached for `alias` that the rows no longer give, with only
      another alias evicted, stays stale. */
  lemma StaleAfter(store: RowStore, store': RowStore, alias: string, evicted: string)
    requires ValidStore(store) && ValidStore(store') && alias != evicted
    requires MenuForest(store, alias) != [] && MenuForest(store', alias) == []
    ensures Coherent(SampleEntries(store, alias), DefaultCacheKey, store)
    ensures !Coherent(SampleEntries(store, alias) - {TreeKey(DefaultCacheKey, evicted)}, DefaultCacheKey, store')
  {
    SampleCoherent(store, alias);
    var k := TreeKey(DefaultCacheKey, alias);
    TreeKeyInjective(DefaultCacheKey, alias, evicted);
    var rest := SampleEntries(store, alias) - {TreeKey(DefaultCacheKey, evicted)};
    assert k in rest && rest[k].tree != MenuForest(store', k[|DefaultCacheKey|..]);
  }

  /** Renaming menu "a" to "b" and evicting only "b", as `updated` does,
      leaves the old tree cached under "a" although "a" names no menu now. */
  lemma RenameLeavesStale(store: RowStore, store': RowStore)
    requires store.menus == [Menu(1, "a", true)] && store.activeItems == map[1 := [SampleItem]]
    requires store'.menus == [Menu(1, "b", true)] && store'.activeItems == store.activeItems
    ensures ValidStore(store) && ValidStore(store')
    ensures Coherent(SampleEntries(store, "a"), DefaultCacheKey, store)
    ensures !Coherent(SampleEntries(store, "a") - {TreeKey(DefaultCacheKey, "b")}, DefaultCacheKey, store')
  {
    SampleForest(store, "a");
    assert GetMenu(store'.menus, "a") == None;
    StaleAfter(store, store', "a", "b");
  }

  /** Moving the only row of menu 1 ("a") to menu 2 ("b") and evicting only
      "b", as `updated` does for a row whose `menu` loads as the new menu,
      leaves "a"'s old tree cached. */
  lemma MoveLeavesStale(store: RowStore, store': RowStore)
    requires store.menus == [Menu(1, "a", true), Menu(2, "b", true)]
    requires store.activeItems == map[1 := [SampleItem], 2 := []]
    requires store'.menus == store.menus
    requires store'.activeItems == map[1 := [], 2 := [SampleItem.(menuId := 2)]]
    ensures ValidStore(store) && ValidStore(store')
    ensures Coherent(SampleEntries(store, "a"), DefaultCacheKey, store)
    ensures !Coherent(SampleEntries(store, "a") - {TreeKey(DefaultCacheKey, "b")}, DefaultCacheKey, store')
  {
    var items := [SampleItem];
    assert UniqueIds(items) && Rooted(items, []);
    assert GetMenu(store.menus, "a") == Some(Menu(1, "a", true));
    assert Forest(items) == Sub(items, 0, []);
    assert MenuForest(store, "a") != [];
    assert GetMenu(store'.menus, "a") == Some(Menu(1, "a", true));
    assert Forest([]) == [];
    StaleAfter(store, store', "a", "b");
  }
}
