/** The flattener: the active, `sort`-ordered item rows of one menu become
    a pre-order list of nodes annotated with `depth`, dotted `path` and
    `url` (`getFlatTree` and `buildFlatTreeRecursive`). */
module Flattener {
  import opened Wrappers
  import opened PhpStrings
  import opened MenuTypes

  /** `array_filter([$link, $menuable_value])`: the values that are set and
      truthy, in that order. */
  function LinkParts(link: Option<string>, menuableValue: Option<string>): (r: seq<string>)
    ensures |r| <= 2
    ensures forall i :: 0 <= i < |r| ==> Truthy(r[i])
  {
    (if link.Some? && Truthy(link.value) then [link.value] else [])
    + (if menuableValue.Some? && Truthy(menuableValue.value) then [menuableValue.value] else [])
  }

  /** The `url` annotation: the parts joined by `/`, with every leading and
      trailing `/` trimmed. */
  function NodeUrl(link: Option<string>, menuableValue: Option<string>): (url: string)
    ensures url == [] || (url[0] != '/' && url[|url| - 1] != '/')
  {
    Trim(Join(LinkParts(link, menuableValue), '/'), '/')
  }

  /** The rendering on sample rows: the leading `/` of a link goes, a lone
      `/` leaves nothing, a menuable value is appended after a `/`, and a
      falsy `"0"` link is skipped. */
  lemma UrlExamples()
    ensures NodeUrl(Some("/item1/item2"), None) == "item1/item2"
    ensures NodeUrl(Some("/"), None) == ""
    ensures NodeUrl(Some("/shop"), Some("phones")) == "shop/phones"
    ensures NodeUrl(Some("0"), Some("phones")) == "phones"
  {
    UrlLeadingSlash();
    UrlLoneSlash();
    UrlWithValue();
    UrlFalsyLink();
  }

  lemma UrlLeadingSlash()
    ensures NodeUrl(Some("/item1/item2"), None) == "item1/item2"
  {
    assert LinkParts(Some("/item1/item2"), None) == ["/item1/item2"];
    assert RTrim("/item1/item2", '/') == "/item1/item2";
    assert LTrim("/item1/item2", '/') == LTrim("item1/item2", '/');
  }

  lemma UrlLoneSlash()
    ensures NodeUrl(Some("/"), None) == ""
  {
    assert LinkParts(Some("/"), None) == ["/"];
    assert RTrim("/", '/') == RTrim("", '/');
  }

  lemma UrlWithValue()
    ensures NodeUrl(Some("/shop"), Some("phones")) == "shop/phones"
  {
    assert LinkParts(Some("/shop"), Some("phones")) == ["/shop", "phones"];
    assert Join(["/shop", "phones"], '/') == "/shop/phones";
    assert RTrim("/shop/phones", '/') == "/shop/phones";
    assert LTrim("/shop/phones", '/') == LTrim("shop/phones", '/');
  }

  lemma UrlFalsyLink()
    ensures NodeUrl(Some("0"), Some("phones")) == "phones"
  {
    assert LinkParts(Some("0"), Some("phones")) == ["phones"];
    assert RTrim("phones", '/') == "phones";
  }

  /** The `$itemData` record built for one row. */
  function MakeNode(item: Item, depth: nat, path: string): Node {
    Node(item, TypeValue(item.itype), depth, path, NodeUrl(item.link, item.menuableValue))
  }

  /** The row store: every menu row, and for each menu id the active rows of
      that menu as the store returns them, ordered by `sort`. */
  datatype RowStore = RowStore(menus: seq<Menu>, activeItems: map<int, seq<Item>>)

  /** `getMenu`: the first active menu with the alias. */
  function GetMenu(menus: seq<Menu>, alias: string): (r: Option<Menu>)
    ensures r.Some? ==> r.value in menus && r.value.alias == alias && r.value.isActive
    ensures r.None? ==> forall m :: m in menus ==> !(m.alias == alias && m.isActive)
  {
    if menus == [] then None
    else if menus[0].alias == alias && menus[0].isActive then Some(menus[0])
    else GetMenu(menus[1..], alias)
  }

  /** The active rows of a menu, in `sort` order. */
  function MenuItems(store: RowStore, menu: Menu): seq<Item> {
    if menu.id in store.activeItems then store.activeItems[menu.id] else []
  }

  /** Primary keys are unique within the rows of a menu. */
  predicate UniqueIds(items: seq<Item>) {
    forall i, j :: 0 <= i < j < |items| ==> items[i].id != items[j].id
  }

  predicate ValidStore(store: RowStore) {
    forall m :: m in store.activeItems ==> UniqueIds(store.activeItems[m])
  }

  /** Position of the first row with the id, or `|items|`. */
  function IndexOf(items: seq<Item>, id: int): (i: nat)
    ensures i <= |items|
    ensures i < |items| ==> items[i].id == id
    ensures forall j :: 0 <= j < i ==> items[j].id != id
  {
    if items == [] then 0
    else if items[0].id == id then 0
    else 1 + IndexOf(items[1..], id)
  }

  /** The row with the id, if any. */
  function Lookup(items: seq<Item>, id: int): (r: Option<Item>)
    ensures r.Some? ==> r.value in items && r.value.id == id
    ensures r.None? ==> forall j :: 0 <= j < |items| ==> items[j].id != id
  {
    var i := IndexOf(items, id);
    if i < |items| then Some(items[i]) else None
  }

  lemma IndexOfAt(items: seq<Item>, k: nat)
    requires UniqueIds(items) && k < |items|
    ensures IndexOf(items, items[k].id) == k
    ensures Lookup(items, items[k].id) == Some(items[k])
  {
  }

  ghost function IdSet(items: seq<Item>): set<int> {
    set i | 0 <= i < |items| :: items[i].id
  }

  ghost function Elems(s: seq<nat>): set<int> {
    set x | x in s
  }

  /** The parent id the recursion looks for below a chain of ancestors. */
  function ParentOf(anc: seq<nat>): Option<int> {
    if anc == [] then None else Some(anc[|anc| - 1])
  }

  /** A chain of ids from a root row down to some row, each row's
      `parent_id` being the id before it. */
  ghost predicate RootedPath(items: seq<Item>, ids: seq<nat>) {
    && |ids| >= 1
    && (forall i :: 0 <= i < |ids| ==> Lookup(items, ids[i]).Some?)
    && Lookup(items, ids[0]).value.parentId == None
    && (forall i :: 1 <= i < |ids| ==> Lookup(items, ids[i]).value.parentId == Some(ids[i - 1]))
  }

  ghost predicate Rooted(items: seq<Item>, anc: seq<nat>) {
    anc == [] || RootedPath(items, anc)
  }

  /** A chain from a root never visits a row twice. */
  lemma {:induction false} RootedDistinct(items: seq<Item>, ids: seq<nat>, i: nat, j: nat)
    requires RootedPath(items, ids) && i < j < |ids|
    ensures ids[i] != ids[j]
    decreases i
  {
    if ids[i] == ids[j] {
      assert Lookup(items, ids[j]).value.parentId == Some(ids[j - 1]);
      if i > 0 {
        assert Lookup(items, ids[i]).value.parentId == Some(ids[i - 1]);
        RootedDistinct(items, ids, i - 1, j - 1);
      }
    }
  }

  /** A prefix of a rooted chain is rooted. */
  lemma RootedPrefix(items: seq<Item>, ids: seq<nat>, n: nat)
    requires RootedPath(items, ids) && 1 <= n <= |ids|
    ensures RootedPath(items, ids[..n])
  {
    var p := ids[..n];
    assert forall i | 0 <= i < |p| :: p[i] == ids[i];
  }

  /** Appending a child row of the chain's last row keeps it rooted, and the
      child is not already on the chain. */
  lemma RootedExtend(items: seq<Item>, anc: seq<nat>, k: nat)
    requires UniqueIds(items) && Rooted(items, anc) && k < |items|
    requires items[k].parentId == ParentOf(anc)
    ensures RootedPath(items, anc + [items[k].id])
    ensures items[k].id !in anc
    ensures anc == [] || anc[0] >= 1
    ensures IdSet(items) - Elems(anc + [items[k].id]) < IdSet(items) - Elems(anc)
  {
    var ids := anc + [items[k].id];
    IndexOfAt(items, k);
    assert forall i :: 0 <= i < |anc| ==> ids[i] == anc[i];
    assert RootedPath(items, ids);
    if items[k].id in anc {
      var i :| 0 <= i < |anc| && anc[i] == items[k].id;
      RootedDistinct(items, ids, i, |anc|);
    }
    if anc != [] {
      assert Lookup(items, anc[0]).Some?;
    }
    assert items[k].id in IdSet(items);
    assert Elems(ids) == Elems(anc) + {items[k].id};
  }

  /** The last row of a rooted chain hangs below the id before it, or is a
      root when the chain has one id. */
  lemma RootedLast(items: seq<Item>, ids: seq<nat>)
    requires RootedPath(items, ids)
    ensures Lookup(items, ids[|ids| - 1]).value.parentId ==
      if |ids| == 1 then None else Some(ids[|ids| - 2])
  {
  }

  /** Two rooted chains ending at the same row are the same chain. */
  lemma {:induction false} RootedUnique(items: seq<Item>, a: seq<nat>, b: seq<nat>)
    requires RootedPath(items, a) && RootedPath(items, b)
    requires a[|a| - 1] == b[|b| - 1]
    ensures a == b
    decreases |a|
  {
    var x := a[|a| - 1];
    RootedLast(items, a);
    RootedLast(items, b);
    if |a| > 1 && |b| > 1 {
      RootedPrefix(items, a, |a| - 1);
      RootedPrefix(items, b, |b| - 1);
      RootedUnique(items, a[..|a| - 1], b[..|b| - 1]);
      assert a == a[..|a| - 1] + [x];
      assert b == b[..|b| - 1] + [x];
    } else {
      assert a == [x] && b == [x];
    }
  }

  /** The forest the recursion walks: below the chain `anc`, the rows from
      position `k` on whose `parent_id` is the chain's last id, each with the
      subtree below it, in row order. */
  ghost function Sub(items: seq<Item>, k: nat, anc: seq<nat>): seq<Tree>
    requires UniqueIds(items) && k <= |items| && Rooted(items, anc)
    decreases IdSet(items) - Elems(anc), |items| - k
  {
    if k == |items| then []
    else if items[k].parentId == ParentOf(anc) then
      RootedExtend(items, anc, k);
      var below := anc + [items[k].id];
      [Tree(MakeNode(items[k], |anc|, PathOf(below)), Sub(items, 0, below))] + Sub(items, k + 1, anc)
    else Sub(items, k + 1, anc)
  }

  /** The forest of a menu's rows: the trees below no parent. */
  ghost function Forest(items: seq<Item>): seq<Tree>
    requires UniqueIds(items)
  {
    Sub(items, 0, [])
  }

  /** What `getFlatTree` returns for an alias. */
  ghost function FlatTree(store: RowStore, alias: string): seq<Node>
    requires ValidStore(store)
  {
    match GetMenu(store.menus, alias)
    case None => []
    case Some(m) => Preorder(Forest(MenuItems(store, m)))
  }

  /** One step of the scan: row `k` contributes its node and its subtree
      when it is a child of the chain's last row. */
  lemma SubStep(items: seq<Item>, k: nat, anc: seq<nat>)
    requires UniqueIds(items) && k < |items| && Rooted(items, anc)
    ensures items[k].parentId != ParentOf(anc) ==>
      Preorder(Sub(items, k, anc)) == Preorder(Sub(items, k + 1, anc))
    ensures items[k].parentId == ParentOf(anc) ==>
      RootedPath(items, anc + [items[k].id]) &&
      Preorder(Sub(items, k, anc)) ==
        [MakeNode(items[k], |anc|, PathOf(anc + [items[k].id]))]
        + Preorder(Sub(items, 0, anc + [items[k].id])) + Preorder(Sub(items, k + 1, anc))
  {
    if items[k].parentId == ParentOf(anc) {
      RootedExtend(items, anc, k);
      var below := anc + [items[k].id];
      var t := Tree(MakeNode(items[k], |anc|, PathOf(below)), Sub(items, 0, below));
      assert Sub(items, k, anc) == [t] + Sub(items, k + 1, anc);
      PreorderAppend([t], Sub(items, k + 1, anc));
      assert Preorder([t]) == TreePreorder(t) + Preorder([]);
    }
  }

  lemma Regroup(a: seq<Node>, b: seq<Node>, c: seq<Node>, d: seq<Node>)
    ensures a + b + c + d == a + (b + c + d)
  {
  }

  /** What a call of `buildFlatTreeRecursive` may assume of its arguments:
      they describe the end of a rooted chain `anc` of the rows. */
  ghost predicate ScanFrame(items: seq<Item>, parentId: Option<int>, depth: nat, path: string, anc: seq<nat>) {
    && UniqueIds(items) && Rooted(items, anc)
    && parentId == ParentOf(anc) && depth == |anc| && path == PathOf(anc)
  }

  /** The arguments of the recursive call for row `k` describe the chain
      extended by row `k`, which leaves fewer rows off the chain. */
  lemma FrameExtend(items: seq<Item>, k: nat, parentId: Option<int>, depth: nat, path: string, anc: seq<nat>,
                    currentPath: string)
    requires ScanFrame(items, parentId, depth, path, anc) && k < |items| && items[k].parentId == parentId
    requires currentPath == if Truthy(path) then path + "." + NatStr(items[k].id) else NatStr(items[k].id)
    ensures ScanFrame(items, Some(items[k].id), depth + 1, currentPath, anc + [items[k].id])
    ensures IdSet(items) - Elems(anc + [items[k].id]) < IdSet(items) - Elems(anc)
    ensures RootedPath(items, anc + [items[k].id])
  {
    RootedExtend(items, anc, k);
    PathOfSnoc(anc, items[k].id);
  }

  /** The source's `$itemData` for row `k` is the row's node. */
  lemma ItemData(items: seq<Item>, k: nat, anc: seq<nat>, currentPath: string, itemData: Node)
    requires k < |items| && currentPath == PathOf(anc + [items[k].id])
    requires itemData == Node(items[k], TypeValue(items[k].itype), |anc|, currentPath,
                              NodeUrl(items[k].link, items[k].menuableValue))
    ensures itemData == MakeNode(items[k], |anc|, PathOf(anc + [items[k].id]))
  {
  }

  /** Emitting row `k`'s node and subtree after `before` accounts for the
      scan's step at row `k`. */
  lemma EmitStep(items: seq<Item>, k: nat, anc: seq<nat>, before: seq<Node>, after: seq<Node>)
    requires UniqueIds(items) && k < |items| && Rooted(items, anc)
    requires items[k].parentId == ParentOf(anc) && RootedPath(items, anc + [items[k].id])
    requires after == before + [MakeNode(items[k], |anc|, PathOf(anc + [items[k].id]))]
      + Preorder(Sub(items, 0, anc + [items[k].id]))
    ensures after + Preorder(Sub(items, k + 1, anc)) == before + Preorder(Sub(items, k, anc))
  {
    SubStep(items, k, anc);
    Regroup(before, [MakeNode(items[k], |anc|, PathOf(anc + [items[k].id]))],
      Preorder(Sub(items, 0, anc + [items[k].id])), Preorder(Sub(items, k + 1, anc)));
  }

  /** `buildFlatTreeRecursive`: appends to `result` every row below the
      parent, each followed by its own descendants. */
  method BuildFlatTreeRecursive(items: seq<Item>, parentId: Option<int>, depth: nat, path: string,
                                ghost anc: seq<nat>, result: seq<Node>) returns (r: seq<Node>)
    requires ScanFrame(items, parentId, depth, path, anc)
    ensures UniqueIds(items) && Rooted(items, anc)
    ensures r == result + Preorder(Sub(items, 0, anc))
    decreases IdSet(items) - Elems(anc), 1
  {
    r := result;
    for k := 0 to |items|
      invariant r + Preorder(Sub(items, k, anc)) == result + Preorder(Sub(items, 0, anc))
    {
      if items[k].parentId == parentId {
        r := EmitItem(items, k, parentId, depth, path, anc, r);
      } else {
        SubStep(items, k, anc);
      }
    }
  }

  /** The body of the loop of `buildFlatTreeRecursive` for a row of the
      parent: appends the row's `$itemData`, then recurses with the row as
      the parent, one level deeper and with the row's path. */
  method EmitItem(items: seq<Item>, k: nat, parentId: Option<int>, depth: nat, path: string,
                  ghost anc: seq<nat>, result: seq<Node>) returns (r: seq<Node>)
    requires ScanFrame(items, parentId, depth, path, anc)
    requires k < |items| && items[k].parentId == parentId
    ensures UniqueIds(items) && k < |items| && Rooted(items, anc)
    ensures r + Preorder(Sub(items, k + 1, anc)) == result + Preorder(Sub(items, k, anc))
    decreases IdSet(items) - Elems(anc), 0
  {
    var item := items[k];
    var currentPath := if Truthy(path) then path + "." + NatStr(item.id) else NatStr(item.id);
    FrameExtend(items, k, parentId, depth, path, anc, currentPath);
    var url := NodeUrl(item.link, item.menuableValue);
    var itemData := Node(item, TypeValue(item.itype), depth, currentPath, url);
    ItemData(items, k, anc, currentPath, itemData);
    r := result + [itemData];
    r := BuildFlatTreeRecursive(items, Some(item.id), depth + 1, currentPath, anc + [item.id], r);
    EmitStep(items, k, anc, result, r);
  }

  /** `getFlatTree`: empty for a missing or inactive menu, otherwise the
      pre-order of the menu's forest. */
  method GetFlatTree(store: RowStore, alias: string) returns (flat: seq<Node>)
    requires ValidStore(store)
    ensures flat == FlatTree(store, alias)
    ensures GetMenu(store.menus, alias).None? ==> flat == []
  {
    var menu := GetMenu(store.menus, alias);
    if menu.None? {
      return [];
    }
    var items := MenuItems(store, menu.value);
    assert ScanFrame(items, None, 0, "", []);
    flat := BuildFlatTreeRecursive(items, None, 0, "", [], []);
  }
}
