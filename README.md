# menu-builder, modelled in Dafny

This project models the engine of the Laravel package `menu-builder` and
proves properties about that model. A menu is a list of active item rows.
Each row may name a parent row in the same menu. The engine does four jobs:

- **Flattener** (`getFlatTree`, `buildFlatTreeRecursive`): turns the rows
  into a pre-order list of nodes. Each node carries its `depth`, its dotted
  ancestor `path` and its trimmed `url`.
- **Assembler** (`buildTree`): nests that flat list into a forest.
- **Visibility filter** (`filterVisible`, `filterItem`, `isVisible`): prunes
  the forest for one viewer.
- **Breadcrumbs** (`getBreadcrumbs`, `getBreadcrumbsByRoute`,
  `findItemByUrl`, `formatBreadcrumbItem`): resolve the current URL or route
  to a trail of ancestor nodes.

Around the engine sit the tree cache (`getTree`, `clearCache`, the
constructor's configuration defaults) and the two model observers. The
observers evict cached trees and rewrite an item's link when the item
points at a menu-aware model.

Modules, one per concern:

| file | module | what it holds |
|---|---|---|
| `wrappers.dfy` | `Wrappers` | `Option` |
| `strings.dfy` | `PhpStrings` | PHP truthiness, `rtrim`/`ltrim`/`trim`, `implode`/`explode`, `(string)` of an id, `intval` |
| `types.dfy` | `MenuTypes` | the `MenuItemType` enum, rows, nodes, trees, paths |
| `flatten.dfy` | `Flattener` | the row store, `getMenu`, the recursive flattener and its reference definition |
| `flatprops.dfy` | `FlatTheory` | what every flat node satisfies: path, depth, ids, order |
| `assembler.dfy` | `Assembler` | `buildTree` as its two loops, and the forest it builds |
| `roundtrip.dfy` | `RoundTrip` | assembling a flat tree gives back the forest it came from |
| `visibility.dfy` | `Visibility` | `isVisible` and the pruning filter |
| `breadcrumbs.dfy` | `Breadcrumbs` | URL and route lookup, trail collection, depth sort |
| `cache.dfy` | `MenuCache` | configuration, the cache store, `getTree`, `clearCache`, cache coherence |
| `links.dfy` | `MenuLinks` | the observer's link rewrite |
| `observers.dfy` | `Observers` | both observers and which row changes their evictions cover |

How the model is written:

- Rows, nodes and trees are values. So the `serialize`/`unserialize` deep
  copy in `getTree` holds by construction.
- The flattener's reference definition is the ghost function
  `Flattener.Sub`. It walks the rows below a chain of ancestor ids, and the
  recursive method is proved equal to it.
- `buildTree` keeps its two loops: build an index and empty child lists,
  then hang each node under its parent or keep it as a root. The methods
  are proved equal to `Assembler.Assembled`.
- The framework services (routes, `route()`, the signed-in user's
  abilities, the `features` service) are the fields of the value
  `Visibility.Env`.
- The clock is a parameter `now`, in seconds.
- The cache store is the class `MenuCache.TreeStore`. The builder holds its
  configuration as constant fields.

Where the code does something other than what its own comments, tests or
configuration announce, the model follows the code:

- **Cache eviction.** `tests/Feature/CacheTest.php:135` ("updating menu
  item clears cache") and `:179` ("updating menu clears cache") ask for an
  update to evict the menu's cached tree. The observers evict only the
  alias the menu (or the item's menu) has after the change. This misses the
  old alias of a renamed menu and the former menu of a moved item. The
  "## Findings" section covers this.
- **Link rewrite on update.** The comment at
  `src/Observers/MenuItemObserver.php:33` says "remove old identifier if
  exists". The two branches at lines 35-40 do the same thing, whichever way
  the test goes: both drop the last `/` piece. So the last piece is replaced
  whatever it is.
- **Time-to-live.** The unit is minutes. See `config/menu-builder.php:15`
  (`'ttl' => 360, // min`) and `addMinutes` at `src/MenuBuilder.php:45`.
  The model stores `cacheTtl * 60` seconds.

## Model

| member | source | states |
|---|---|---|
| MenuTypes.TypeFromValue | src/Enums/MenuItemType.php:5-12 | `from` inverts the backing string: a string parses to a case exactly when it is that case's value |
| MenuTypes.TypeFrom | src/Enums/MenuItemType.php:5-12 | `from` returns a case only for that case's backing string, and none when no case has the value |
| MenuTypes.ParsePathOf | src/MenuBuilder.php:92-155 | splitting a dotted id path on `.` and taking `intval` of each piece gives back the ids |
| MenuTypes.PathOfSnoc | src/MenuBuilder.php:92 | the path is truthy exactly when there are ancestors; a child's path is the parent's path, `.`, its id; a root's path is its id |
| MenuTypes.PreorderAppend | src/MenuBuilder.php:88-119 | the pre-order of two forests side by side is the concatenation of their pre-orders |
| PhpStrings.Split | src/MenuBuilder.php:155 | `explode` yields at least one piece, no piece holds the separator, and `implode` puts the pieces back together |
| PhpStrings.SplitJoin | src/MenuBuilder.php:155 | `explode` undoes `implode` when no piece holds the separator |
| PhpStrings.IntValNatStr | src/MenuBuilder.php:155 | `intval` reads back the decimal rendering of an id |
| PhpStrings.Trim | src/MenuBuilder.php:93 | `trim` yields a slice of the input that neither starts nor ends with the character |
| PhpStrings.RTrimTwice | src/MenuBuilder.php:235 | trimming trailing `/` a second time (`findItemByUrl` after `getBreadcrumbs`) changes nothing |
| Flattener.LinkParts | src/MenuBuilder.php:93 | `array_filter` keeps at most the link and the menuable value, and only truthy ones |
| Flattener.NodeUrl | src/MenuBuilder.php:93 | a node's url never starts or ends with `/` |
| Flattener.UrlExamples | src/MenuBuilder.php:93 | `/item1/item2` gives `item1/item2`; `/` gives the empty url; `/shop` and `phones` give `shop/phones`; the falsy link `0` is dropped |
| Flattener.GetMenu | src/MenuBuilder.php:34-37 | the menu found is in the table, active and carries the alias; none found means no active menu carries it |
| Flattener.RootedExtend | src/MenuBuilder.php:91-116 | appending a row whose parent is the last ancestor extends a chain from a root by an id not yet on it, so the recursion terminates |
| Flattener.RootedUnique | src/MenuBuilder.php:91 | two chains from a root that end at the same row are equal |
| Flattener.BuildFlatTreeRecursive | src/MenuBuilder.php:88-119 | the result is the accumulator followed by the pre-order of the subtree below the ancestors, in row order |
| Flattener.GetFlatTree | src/MenuBuilder.php:61-80 | the flat tree is the pre-order of the menu's forest; a missing or inactive menu gives none |
| FlatTheory.FlatWellFormed | src/MenuBuilder.php:88-119 | every flat node is built from its own row along a chain of ids from a root; no row appears twice; a child node is one level below its parent node |
| FlatTheory.NodeChain | src/MenuBuilder.php:91-92 | a flat node's path parses to the chain of ids from its root down to it, with the depth as the chain's length minus one |
| FlatTheory.NodePath | src/MenuBuilder.php:91-92 | a path has depth+1 ids ending with the node's own; depth is 0 exactly for rows without a parent; a root's path is its id |
| FlatTheory.ChildPath | src/MenuBuilder.php:91-116 | a child's depth is its parent's plus one, and its path is the parent's path, `.`, its id |
| FlatTheory.Reachable | src/MenuBuilder.php:88-119 | every row on a chain from a root is emitted, with the chain's depth and path |
| FlatTheory.SubDistinct | src/MenuBuilder.php:88-119 | the recursion never emits a row twice |
| FlatTheory.SubInRowOrder | src/MenuBuilder.php:90-117 | within every level siblings keep the rows' order |
| FlatTheory.ForestSorted | src/MenuBuilder.php:70-91 | when the rows come ordered by `sort`, siblings at every level are ordered by `sort` |
| Assembler.ParentKey | src/MenuBuilder.php:297 | the parent test is passed exactly by a parent id that is present and not 0 |
| Assembler.KidsOfIn | src/MenuBuilder.php:296-302 | a child list holds exactly the nodes whose truthy parent id is that id |
| Assembler.RootsOfIn | src/MenuBuilder.php:296-302 | the roots are exactly the nodes with no truthy parent id or a parent outside the list |
| Assembler.IndexNodes | src/MenuBuilder.php:291-294 | the first loop indexes every node id and gives every node an empty child list |
| Assembler.HangNodes | src/MenuBuilder.php:296-302 | the second loop gives each node its children in list order and keeps the roots in list order |
| Assembler.BuildTree | src/MenuBuilder.php:286-305 | the forest built is the forest of roots with their child lists nested |
| RoundTrip.LinkedRoundTrip | src/MenuBuilder.php:286-305 | assembling the pre-order of a forest whose parent ids match its nesting gives back that forest |
| RoundTrip.FlatRoundTrip | src/MenuBuilder.php:45-119 | `buildTree` of a menu's flat tree is exactly the menu's forest |
| RoundTrip.BuildTreePartition | src/MenuBuilder.php:286-305 | every flat node lands in the assembled tree exactly once, in flat order |
| RoundTrip.AssembledShape | src/MenuBuilder.php:286-305 | the top level holds the root nodes in order; every node's children are the nodes naming it as parent, in order |
| Visibility.IsVisible | src/MenuBuilder.php:326-351 | only a node of a known type can be seen, and links and dividers always are |
| Visibility.FilterVisible | src/MenuBuilder.php:307-313 | the filtered forest has at most as many trees as the input, each one an input tree that `filterItem` kept |
| Visibility.VisibleByType | src/MenuBuilder.php:326-351 | links and dividers are seen; a route when its `route` entry is registered; a permission when a signed-in user may use it; a feature when no service is bound or the feature is active |
| Visibility.UnknownTypeHidden | src/MenuBuilder.php:328-336 | an empty or unknown type is never seen |
| Visibility.FilterItem | src/MenuBuilder.php:315-324 | a kept node is the node itself, with its children filtered |
| Visibility.Survives | src/MenuBuilder.php:315-324 | a node is kept exactly when it or something below it is seen |
| Visibility.SurvivesForest | src/MenuBuilder.php:307-313 | the filtered forest is empty exactly when nothing in the forest is seen |
| Visibility.KeepsVisibleForest | src/MenuBuilder.php:307-324 | the filter keeps every seen node, in order |
| Visibility.FilterOrderForest | src/MenuBuilder.php:307-324 | the filtered pre-order is the original with some nodes left out, in the same order |
| Visibility.FilterPruned | src/MenuBuilder.php:307-324 | every node the filter keeps is seen or has kept children |
| Visibility.FilterIdempotent | src/MenuBuilder.php:307-324 | filtering twice for the same viewer is filtering once |
| Visibility.FilterLinked | src/MenuBuilder.php:307-324 | filtering keeps every child under its own parent |
| Visibility.VisibleMonotone | src/MenuBuilder.php:340-350 | a viewer with more routes, abilities and features sees at least what a narrower one sees |
| Visibility.FilterMonotone | src/MenuBuilder.php:315-351 | a node kept for a narrower viewer is kept for a wider one |
| Breadcrumbs.Format | src/MenuBuilder.php:273-284 | the crumb carries the node's id, title, url, link, type, depth and meta |
| Breadcrumbs.Formats | src/MenuBuilder.php:273-284 | each crumb carries its node's id, title, url, link, type, depth and meta, one crumb per node |
| Breadcrumbs.FirstWhereAt | src/MenuBuilder.php:237-265 | the scan returns the first node passing the test, and no earlier node passes |
| Breadcrumbs.FindItemByUrl | src/MenuBuilder.php:233-268 | the first node whose url matches exactly, or modulo leading `/`, or whose route resolves to the url with trailing `/` trimmed |
| Breadcrumbs.FindItemByRoute | src/MenuBuilder.php:193-203 | the first `route` node whose `route` entry is the name |
| Breadcrumbs.CollectTrail | src/MenuBuilder.php:158-163 | the crumbs of the flat nodes on the path, in flat order |
| Breadcrumbs.TrailIn | src/MenuBuilder.php:159-163 | a crumb is collected exactly when it formats a flat node whose id is on the path |
| Breadcrumbs.TrailNoDup | src/MenuBuilder.php:159-163 | no crumb is collected twice from a flat tree |
| Breadcrumbs.SortByDepth | src/MenuBuilder.php:166 | sorting permutes the crumbs |
| Breadcrumbs.SortByDepthSorted | src/MenuBuilder.php:166 | the sorted crumbs are in non-decreasing depth |
| Breadcrumbs.SortedUnchanged | src/MenuBuilder.php:166 | crumbs already in depth order stay as they are |
| Breadcrumbs.GetBreadcrumbs | src/MenuBuilder.php:135-169 | an empty menu gives none; no match gives the first flat node when `includeHome`, else none; a match gives its path's crumbs sorted by depth |
| Breadcrumbs.GetBreadcrumbsByRoute | src/MenuBuilder.php:179-224 | a falsy route name gives none; otherwise as `getBreadcrumbs`, with the first `route` node of that name as the match |
| Breadcrumbs.AncestorTrail | src/MenuBuilder.php:155-168 | the trail of a node is its ancestors from the root down to it, one per depth, each the parent of the next |
| Breadcrumbs.CrumbsAreAncestors | src/MenuBuilder.php:135-169 | the breadcrumbs of a matched node are exactly its ancestor chain from a root, ending with it |
| MenuCache.TreeKey | src/MenuBuilder.php:45 | prefix and alias can be read back from a tree key |
| MenuCache.TreeKeyInjective | src/MenuBuilder.php:45-124 | two aliases share a key only when they are equal |
| MenuCache.CachedTreeIsForest | src/MenuBuilder.php:45-49 | what the cache callback computes is the alias's forest, and the flat tree meets `buildTree`'s needs |
| MenuCache.TreeStore.Get | src/MenuBuilder.php:45 | a key is served exactly while its entry has not expired, and what is served is the tree stored under it |
| MenuCache.TreeStore.Put | src/MenuBuilder.php:45 | the key maps to the tree and its expiry second; a non-positive time-to-live removes the key |
| MenuCache.TreeStore.Forget | src/MenuBuilder.php:124 | exactly that key is removed |
| MenuCache.MenuBuilder.constructor | src/MenuBuilder.php:22-28 | each setting is the configured value or its default: `menus`, `menu_items`, `menu:tree:`, 360 |
| MenuCache.MenuBuilder.GetTree | src/MenuBuilder.php:42-56 | a live entry is served as is; a miss stores the forest for `cacheTtl` minutes; both return the filtered tree; a coherent cache stays coherent and serves the rows' forest |
| MenuCache.MenuBuilder.ClearCache | src/MenuBuilder.php:121-125 | exactly the key of the alias under the configured prefix is removed |
| MenuCache.EvictChanged | src/MenuBuilder.php:121-125 | evicting every alias whose forest changed keeps a coherent cache coherent |
| MenuCache.EvictTwo | src/MenuBuilder.php:121-125 | two evictions remove both keys |
| MenuCache.RowsChanged | src/MenuBuilder.php:61-74 | when only some menus' rows change, only their aliases get another forest |
| MenuCache.GetMenuAppend | src/MenuBuilder.php:34-37 | on two tables one after the other, the first alias match wins |
| MenuCache.MenusChanged | src/MenuBuilder.php:34-74 | replacing some menu rows changes only the forests of the aliases those rows carry |
| MenuLinks.CreatedLink | src/Observers/MenuItemObserver.php:16-17 | the new link ends with the identifier; when the identifier has no `/`, the old link is the base a later `updated` keeps |
| MenuLinks.BaseLink | src/Observers/MenuItemObserver.php:34-40 | the base is what precedes the link's last `/`, or empty when the link has none |
| MenuLinks.UpdatedLink | src/Observers/MenuItemObserver.php:33-41 | the new link ends with the identifier, and keeps the old link's base when the identifier has no `/` |
| MenuLinks.BaseOfSegment | src/Observers/MenuItemObserver.php:34-40 | the base of `base/segment` is `base` |
| MenuLinks.UpdatedReplacesLast | src/Observers/MenuItemObserver.php:33-41 | `updated` replaces the last `/` piece, whatever it is, with the identifier |
| MenuLinks.UpdatedSingleSegment | src/Observers/MenuItemObserver.php:34-41 | a null link or one without `/` becomes `/` and the identifier |
| MenuLinks.UpdatedAfterCreated | src/Observers/MenuItemObserver.php:17-41 | an `updated` after `created` keeps the link when the identifier has no `/` |
| MenuLinks.UpdatedIdempotent | src/Observers/MenuItemObserver.php:33-41 | a second `updated` changes nothing when the identifier has no `/` |
| MenuLinks.SlashedIdentifierGrows | src/Observers/MenuItemObserver.php:34-41 | an identifier holding `/` makes the link grow on every update |
| Observers.MenuItemObserver.Created | src/Observers/MenuItemObserver.php:12-26 | a menu-aware item's link gains `/` and the identifier; a throwing identifier leaves it; the menu's key is evicted when the menu loads |
| Observers.MenuItemObserver.Updated | src/Observers/MenuItemObserver.php:28-50 | a menu-aware item's last link piece becomes the identifier; the menu's key is evicted when the menu loads |
| Observers.MenuItemObserver.UpdatedMoved | src/Observers/MenuItemObserver.php:28-50 | the corrected `updated`: it also evicts the menu the item left |
| Observers.MenuItemObserver.Deleted | src/Observers/MenuItemObserver.php:52-58 | the menu's key is evicted when the menu loads, nothing else |
| Observers.MenuItemObserver.Restored | src/Observers/MenuItemObserver.php:60-66 | the menu's key is evicted when the menu loads, nothing else |
| Observers.MenuObserver.Created | src/Observers/MenuObserver.php:10-13 | the menu's alias key is evicted |
| Observers.MenuObserver.Updated | src/Observers/MenuObserver.php:15-18 | only the key of the alias after the update is evicted |
| Observers.MenuObserver.UpdatedRenamed | src/Observers/MenuObserver.php:15-18 | the corrected `updated`: the keys of both the old and the new alias are evicted |
| Observers.MenuObserver.Deleted | src/Observers/MenuObserver.php:20-23 | the menu's alias key is evicted |
| Observers.MenuObserver.Restored | src/Observers/MenuObserver.php:25-28 | the menu's alias key is evicted |
| Observers.ItemChangeEvicted | src/Observers/MenuItemObserver.php:12-66 | a change to one menu's rows followed by evicting that menu's alias keeps the cache coherent |
| Observers.ItemMoveEvicted | src/Observers/MenuItemObserver.php:28-50 | moving a row between menus followed by evicting both aliases keeps the cache coherent |
| Observers.MenuChangeEvicted | src/Observers/MenuObserver.php:10-28 | creating, deleting, restoring or editing a menu without renaming it, then evicting its alias, keeps the cache coherent |
| Observers.MenuRenameEvicted | src/Observers/MenuObserver.php:15-18 | renaming a menu, then evicting both aliases, keeps the cache coherent |
| Observers.StaleAfter | src/MenuBuilder.php:121-125 | a cached tree whose forest changed stays stale when only another alias is evicted |
| Observers.RenameLeavesStale | src/Observers/MenuObserver.php:15-18 | renaming menu `a` to `b` and evicting only `b` leaves a stale tree under `a` |
| Observers.MoveLeavesStale | src/Observers/MenuItemObserver.php:28-50 | moving the only row of menu `a` to menu `b` and evicting only `b` leaves a stale tree under `a` |

## Left out

- The database and the ORM. Queries are the row store `Flattener.RowStore`:
  the menu table, and for each menu id its active rows ordered by `sort`.
  Loading relations and saving rows are assumed to succeed.
- Table names. The constructor reads `menuTable` and `menuItemTable`, but
  the engine never uses them (queries go through the models).
- Request and framework lookups are parameters. `request()->url()` is
  `requestUrl`, `request()->route()?->getName()` is `currentRoute`, and
  `Route::has`, `route()`, `can` and the `features` service are fields of
  `Visibility.Env`. Laravel's URL generation itself is not modelled.
- `now()`: the clock is the parameter `now`, in seconds.
- Concurrency between requests is not modelled: racing cache writes and
  evictions.
- `Cache::remember` is modelled as get-then-put. The cache is a map from
  key to tree and expiry second.
- The `serialize`/`unserialize` deep copy and the in-place overwrite of
  `children` in `filterItem` are not modelled as mutation. Trees are values,
  so the cached tree cannot be changed by filtering, and aliasing is not
  modelled.
- `usort` is modelled as an insertion sort by depth that is stable, which
  is exactly PHP's behaviour: `usort` has been stable since PHP 8.0, and
  this code needs PHP 8.1 (`enum`, `?->`). Stability is moot anyway,
  because the crumbs of one trail all have different depths
  (`Breadcrumbs.AncestorTrail`).
- The row's columns the flat node copies but the engine never reads are
  not modelled: `menu_id`, `menuable_type`, `menuable_id`, `is_active` and
  the timestamps.
- `meta` is modelled as a map from string to string. Non-string values are
  not modelled.
- PhpStrings.IntVal: reads the leading digits only. Signs and whitespace
  are not modelled; every path segment is a decimal id.
- Assembler.BuildTree: requires distinct ids and layered depths, which
  every flat tree has (`MenuCache.CachedTreeIsForest`). The source accepts
  any list; for a repeated id, the later node wins the index. That case is
  not modelled.
- RoundTrip.BuildTreePartition: "every node exactly once" is proved for
  flat trees the flattener produces, not for arbitrary lists.
- `getMenuableIdentifier` is modelled as the text `sprintf` writes, or as
  throwing. Its `mixed` type does not affect the link, because both
  branches of the comparison compute the same base.
- `updateQuietly` saves the link without firing the observer again.
  The model writes the field.
- In both item hooks, an exception inside the `try` other than the
  identifier getter's is not modelled.
- The Artisan command, the service provider, the facade, the models'
  scopes and relations, and the migrations are not part of this model.

## Findings

| source | as written | input that shows it | evidently intended | confidence | as-written member | corrected member |
|---|---|---|---|---|---|---|
| src/Observers/MenuObserver.php:15-18 | `updated` evicts only the alias the menu has after the update | rename menu `a` (with one row cached) to `b`: the tree for `a` stays cached though `a` names no menu | a mutation evicts every alias whose tree it changes, including the alias before a rename | not executed | Observers.RenameLeavesStale | Observers.MenuObserver.UpdatedRenamed |
| src/Observers/MenuItemObserver.php:28-50 | `updated` evicts only the menu the item's `menu` relation loads, which is the new menu after a move | move the only row of menu `a` to menu `b`: `a`'s cached tree still shows the row | a move evicts both the menu the row left and the one it joined | not executed | Observers.MoveLeavesStale | Observers.MenuItemObserver.UpdatedMoved |

The corrected members come with proofs that their evictions restore
coherence: `Observers.MenuRenameEvicted` and `Observers.ItemMoveEvicted`.
