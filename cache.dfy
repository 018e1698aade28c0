/** The tree cache: `getTree` serves a menu's assembled tree from a
    key-value cache with a time-to-live and filters a private copy for the
    viewer; `clearCache` evicts one alias's key. The cache is coherent with
    the rows when every cached tree is the forest the rows give now. */
module MenuCache {
  import opened Wrappers
  import opened MenuTypes
  import opened Flattener
  import opened FlatTheory
  import opened Assembler
  import opened RoundTrip
  import opened Visibility

  /** The `menu-builder` configuration values the builder reads; `None`
      is a value the configuration leaves unset. */
  datatype Config = Config(
    menuTable: Option<string>,
    menuItemTable: Option<string>,
    cacheKey: Option<string>,
    cacheTtl: Option<int>)

  const DefaultMenuTable := "menus"
  const DefaultMenuItemTable := "menu_items"
  const DefaultCacheKey := "menu:tree:"
  /** Minutes. */
  const DefaultCacheTtl := 360

  /** The published `menu-builder` configuration file. */
  const Published := Config(Some("menus"), Some("menu_items"), Some("menu:tree:"), Some(360))

  /** The key prefix `clearCache` reads from the configuration. */
  function KeyPrefix(config: Config): string {
    config.cacheKey.GetOr(DefaultCacheKey)
  }

  /** The key a menu's tree is cached under: the prefix and the alias can
      both be read back from it. */
  function TreeKey(prefix: string, alias: string): (k: string)
    ensures |prefix| <= |k| && k[..|prefix|] == prefix && k[|prefix|..] == alias
  {
    prefix + alias
  }

  /** Two aliases share a key only when they are the same alias. */
  lemma TreeKeyInjective(prefix: string, a: string, b: string)
    ensures TreeKey(prefix, a) == TreeKey(prefix, b) <==> a == b
  {
    var ka, kb := TreeKey(prefix, a), TreeKey(prefix, b);
    if ka == kb {
      assert a == ka[|prefix|..] == kb[|prefix|..] == b;
    }
  }

  /** A cached tree and the second at which it expires. */
  datatype Entry = Entry(tree: seq<Tree>, expiresAt: int)

  /** The cache store behind the `Cache` facade. */
  class TreeStore {
    var entries: map<string, Entry>

    constructor ()
      ensures entries == map[]
    {
      entries := map[];
    }

    /** `Cache::get`: the tree under the key while it has not expired. */
    function Get(key: string, now: int): (r: Option<seq<Tree>>)
      reads this
      ensures r.Some? <==> key in entries && now < entries[key].expiresAt
      ensures r.Some? ==> r.value == entries[key].tree
    {
      if key in entries && now < entries[key].expiresAt then Some(entries[key].tree) else None
    }

    /** `Cache::put` for `seconds` seconds; a time-to-live that is not
        positive removes the key instead. */
    method Put(key: string, tree: seq<Tree>, now: int, seconds: int)
      modifies this
      ensures entries == if seconds > 0 then old(entries)[key := Entry(tree, now + seconds)]
                         else old(entries) - {key}
    {
      if seconds > 0 {
        entries := entries[key := Entry(tree, now + seconds)];
      } else {
        entries := entries - {key};
      }
    }

    /** `Cache::forget`. */
    method Forget(key: string)
      modifies this
      ensures entries == old(entries) - {key}
    {
      entries := entries - {key};
    }
  }

  /** The forest the rows give an alias now: none for a missing or inactive
      menu. */
  ghost function MenuForest(store: RowStore, alias: string): seq<Tree>
    requires ValidStore(store)
  {
    match GetMenu(store.menus, alias)
    case None => []
    case Some(m) => Forest(MenuItems(store, m))
  }

  /** What the cache callback computes, `buildTree(getFlatTree(alias))`,
      is the alias's forest, and the flat tree meets what `buildTree`
      needs. */
  lemma CachedTreeIsForest(store: RowStore, alias: string)
    requires ValidStore(store)
    ensures Layered(FlatTree(store, alias)) && DistinctIds(FlatTree(store, alias))
    ensures Assembled(FlatTree(store, alias)) == MenuForest(store, alias)
  {
    match GetMenu(store.menus, alias)
    case None =>
      assert FlatTree(store, alias) == [];
      assert RootsOf(IdsOf([]), []) == [];
    case Some(m) =>
      var items := MenuItems(store, m);
      FlatWellFormed(items);
      FlatRoundTrip(items);
  }

  /** Every tree cached under the prefix is the forest its alias has now. */
  ghost predicate Coherent(entries: map<string, Entry>, prefix: string, store: RowStore)
    requires ValidStore(store)
  {
    forall k :: k in entries && |prefix| <= |k| && k[..|prefix|] == prefix ==>
      entries[k].tree == MenuForest(store, k[|prefix|..])
  }

  /** The keys of a set of aliases. */
  ghost function KeysOf(prefix: string, aliases: set<string>): set<string> {
    set a | a in aliases :: TreeKey(prefix, a)
  }

  /** Evicting the key of every alias whose forest a row change altered
      makes a coherent cache coherent with the new rows. */
  lemma EvictChanged(entries: map<string, Entry>, prefix: string, store: RowStore, store': RowStore,
                     aliases: set<string>)
    requires ValidStore(store) && ValidStore(store')
    requires Coherent(entries, prefix, store)
    requires forall a :: a !in aliases ==> MenuForest(store', a) == MenuForest(store, a)
    ensures Coherent(entries - KeysOf(prefix, aliases), prefix, store')
  {
    var rest := entries - KeysOf(prefix, aliases);
    forall k | k in rest && |prefix| <= |k| && k[..|prefix|] == prefix
      ensures rest[k].tree == MenuForest(store', k[|prefix|..])
    {
      var a := k[|prefix|..];
      assert k == TreeKey(prefix, a);
      assert a !in aliases;
    }
  }

  /** Evicting two aliases one after the other evicts the set of both. */
  lemma EvictTwo(entries: map<string, Entry>, prefix: string, a: string, b: string)
    ensures entries - {TreeKey(prefix, a)} - {TreeKey(prefix, b)} == entries - KeysOf(prefix, {a, b})
  {
    assert KeysOf(prefix, {a, b}) == {TreeKey(prefix, a), TreeKey(prefix, b)};
  }

  /** The rows of a menu id. */
  function RowsOf(store: RowStore, id: int): seq<Item> {
    if id in store.activeItems then store.activeItems[id] else []
  }

  /** When the menus stay and only the rows of the menus `ids` change, only
      the aliases of those menus see another forest. */
  lemma RowsChanged(store: RowStore, store': RowStore, ids: set<int>, aliases: set<string>)
    requires ValidStore(store) && ValidStore(store')
    requires store'.menus == store.menus
    requires forall id :: id !in ids ==> RowsOf(store', id) == RowsOf(store, id)
    requires forall m :: m in store.menus && m.id in ids ==> m.alias in aliases
    ensures forall a :: a !in aliases ==> MenuForest(store', a) == MenuForest(store, a)
  {
    forall a | a !in aliases ensures MenuForest(store', a) == MenuForest(store, a) {
      match GetMenu(store.menus, a)
      case None =>
      case Some(m) =>
        assert RowsOf(store', m.id) == RowsOf(store, m.id);
    }
  }

  /** `getMenu` over two lists of menus is the first list's answer when it
      has one. */
  lemma {:induction false} GetMenuAppend(x: seq<Menu>, y: seq<Menu>, alias: string)
    ensures GetMenu(x + y, alias) == match GetMenu(x, alias) case Some(m) => Some(m) case None => GetMenu(y, alias)
  {
    if x != [] {
      assert (x + y)[1..] == x[1..] + y;
      GetMenuAppend(x[1..], y, alias);
    } else {
      assert x + y == y;
    }
  }

  /** Replacing, inserting or removing menu rows (`mid` becomes `mid'`)
      changes only the forests of the aliases those rows carry. */
  lemma MenusChanged(store: RowStore, store': RowStore, pre: seq<Menu>, mid: seq<Menu>, mid': seq<Menu>,
                     post: seq<Menu>, aliases: set<string>)
    requires ValidStore(store) && store'.activeItems == store.activeItems
    requires store.menus == pre + mid + post && store'.menus == pre + mid' + post
    requires forall m :: m in mid || m in mid' ==> m.alias in aliases
    ensures forall a :: a !in aliases ==> MenuForest(store', a) == MenuForest(store, a)
  {
    forall a | a !in aliases ensures MenuForest(store', a) == MenuForest(store, a) {
      GetMenuAppend(pre + mid, post, a);
      GetMenuAppend(pre, mid, a);
      GetMenuAppend(pre + mid', post, a);
      GetMenuAppend(pre, mid', a);
      assert GetMenu(mid, a).None? && GetMenu(mid', a).None?;
      assert GetMenu(store'.menus, a) == GetMenu(store.menus, a);
    }
  }

  /** The builder: table names, cache prefix and time-to-live read from the
      configuration once, and the cache it talks to. */
  class MenuBuilder {
    const menuTable: string
    const menuItemTable: string
    const cacheKey: string
    /** Minutes. */
    const cacheTtl: int
    const cache: TreeStore

    /** Each setting is the configured value, or its default. */
    constructor (config: Config, cache: TreeStore)
      ensures menuTable == config.menuTable.GetOr(DefaultMenuTable)
      ensures menuItemTable == config.menuItemTable.GetOr(DefaultMenuItemTable)
      ensures cacheKey == KeyPrefix(config)
      ensures cacheTtl == config.cacheTtl.GetOr(DefaultCacheTtl)
      ensures this.cache == cache
    {
      menuTable := config.menuTable.GetOr(DefaultMenuTable);
      menuItemTable := config.menuItemTable.GetOr(DefaultMenuItemTable);
      cacheKey := config.cacheKey.GetOr(DefaultCacheKey);
      cacheTtl := config.cacheTtl.GetOr(DefaultCacheTtl);
      this.cache := cache;
    }

    /** `getTree` at second `now`: a live cached tree is served as it is;
        otherwise the menu's forest is assembled and stored for `cacheTtl`
        minutes. Either way the viewer gets the filtered copy, and a cache
        coherent with the rows stays coherent and serves the rows' forest. */
    method GetTree(store: RowStore, menuAlias: string, env: Env, now: int) returns (tree: seq<Tree>)
      requires ValidStore(store)
      modifies cache
      ensures var key := TreeKey(cacheKey, menuAlias);
        match old(cache.Get(key, now))
        case Some(cached) =>
          cache.entries == old(cache.entries) && tree == FilterVisible(env, cached)
        case None =>
          && cache.entries == (if cacheTtl * 60 > 0
                               then old(cache.entries)[key := Entry(MenuForest(store, menuAlias), now + cacheTtl * 60)]
                               else old(cache.entries) - {key})
          && tree == FilterVisible(env, MenuForest(store, menuAlias))
      ensures Coherent(old(cache.entries), cacheKey, store) ==>
        Coherent(cache.entries, cacheKey, store) && tree == FilterVisible(env, MenuForest(store, menuAlias))
    {
      var key := cacheKey + menuAlias;
      var stored: seq<Tree>;
      var hit := cache.Get(key, now);
      if hit.Some? {
        stored := hit.value;
      } else {
        var flat := GetFlatTree(store, menuAlias);
        CachedTreeIsForest(store, menuAlias);
        stored := BuildTree(flat);
        cache.Put(key, stored, now, cacheTtl * 60);
      }
      // The serialize/unserialize copy: the filter works on values.
      tree := FilterVisible(env, stored);
    }

    /** `clearCache`: forget the alias's key under the configured prefix. */
    static method ClearCache(cache: TreeStore, config: Config, menuAlias: string)
      modifies cache
      ensures cache.entries == old(cache.entries) - {TreeKey(KeyPrefix(config), menuAlias)}
    {
      var key := KeyPrefix(config);
      cache.Forget(key + menuAlias);
    }
  }
}
