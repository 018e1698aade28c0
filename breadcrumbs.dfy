/** The breadcrumb resolver: the first flat node matching the current URL
    (`findItemByUrl`) or route name, the nodes on its dotted path
    collected in flat order, formatted (`formatBreadcrumbItem`) and stably
    sorted by depth (`getBreadcrumbs`, `getBreadcrumbsByRoute`). */
module Breadcrumbs {
  import opened Wrappers
  import opened PhpStrings
  import opened MenuTypes
  import opened Flattener
  import opened FlatTheory
  import opened Visibility

  /** The record `formatBreadcrumbItem` returns. */
  datatype Crumb = Crumb(
    id: int,
    title: Option<string>,
    url: string,
    link: Option<string>,
    typ: string,
    depth: nat,
    meta: map<string, string>)

  function Format(n: Node): (c: Crumb)
    ensures c.id == n.item.id && c.title == n.item.title && c.url == n.url && c.link == n.item.link
    ensures c.typ == n.typ && c.depth == n.depth && c.meta == n.item.meta
  {
    Crumb(n.item.id, n.item.title, n.url, n.item.link, n.typ, n.depth, n.item.meta)
  }

  function Formats(ns: seq<Node>): (r: seq<Crumb>)
    ensures |r| == |ns|
    ensures forall i :: 0 <= i < |ns| ==> r[i] == Format(ns[i])
  {
    if ns == [] then [] else [Format(ns[0])] + Formats(ns[1..])
  }

  /* ---------------- Matching ---------------- */

  /** A `route` node whose registered route resolves, once trailing `/`
      are trimmed, to the URL; a route `route()` cannot resolve is skipped. */
  predicate RouteUrlMatches(env: Env, url: string, n: Node) {
    && n.typ == TypeValue(Route)
    && "route" in n.item.meta
    && n.item.meta["route"] in env.routes
    && n.item.meta["route"] in env.routeUrls
    && RTrim(env.routeUrls[n.item.meta["route"]], '/') == url
  }

  /** The three tests of the scan: the node's URL without trailing `/` is
      the URL, or the two agree once leading `/` are trimmed too, or the
      node's route resolves to the URL. */
  predicate UrlMatches(env: Env, url: string, n: Node) {
    var itemUrl := RTrim(n.url, '/');
    || itemUrl == url
    || LTrim(itemUrl, '/') == LTrim(url, '/')
    || RouteUrlMatches(env, url, n)
  }

  /** The two scans' tests: by URL, and by route name. */
  datatype Test = ByUrl(env: Env, url: string) | ByRoute(name: string)

  predicate Passes(t: Test, n: Node) {
    match t
    case ByUrl(env, url) => UrlMatches(env, url, n)
    case ByRoute(name) => RouteNamed(name, n)
  }

  /** The first node passing the test. */
  function FirstWhere(nodes: seq<Node>, t: Test): Option<Node>
    decreases |nodes|
  {
    if nodes == [] then None
    else if Passes(t, nodes[0]) then Some(nodes[0])
    else FirstWhere(nodes[1..], t)
  }

  /** `FirstWhere` finds the node at the first passing position, and
      nothing when no position passes. */
  lemma {:induction false} FirstWhereAt(nodes: seq<Node>, t: Test) returns (i: nat)
    ensures i <= |nodes|
    ensures forall j :: 0 <= j < i ==> !Passes(t, nodes[j])
    ensures i < |nodes| ==> Passes(t, nodes[i])
    ensures FirstWhere(nodes, t) == if i < |nodes| then Some(nodes[i]) else None
    decreases |nodes|
  {
    if nodes == [] || Passes(t, nodes[0]) {
      i := 0;
    } else {
      var k := FirstWhereAt(nodes[1..], t);
      i := k + 1;
      assert forall j :: 1 <= j < |nodes| ==> nodes[j] == nodes[1..][j - 1];
    }
  }

  /** One step of a scan that stops at the first passing node. */
  lemma FirstWhereStep(nodes: seq<Node>, i: nat, t: Test)
    requires i < |nodes|
    ensures FirstWhere(nodes[i..], t) == if Passes(t, nodes[i]) then Some(nodes[i]) else FirstWhere(nodes[i + 1..], t)
  {
    assert nodes[i..][0] == nodes[i] && nodes[i..][1..] == nodes[i + 1..];
  }

  /** The first node matching the URL. */
  function FirstUrlMatch(env: Env, nodes: seq<Node>, url: string): Option<Node> {
    FirstWhere(nodes, ByUrl(env, url))
  }

  /** `findItemByUrl`: the early-return scan, after trimming trailing `/`
      from the URL. */
  method FindItemByUrl(env: Env, flatTree: seq<Node>, url: string) returns (r: Option<Node>)
    ensures r == FirstUrlMatch(env, flatTree, RTrim(url, '/'))
  {
    var u := RTrim(url, '/');
    var i := 0;
    while i < |flatTree|
      invariant i <= |flatTree|
      invariant FirstUrlMatch(env, flatTree, u) == FirstWhere(flatTree[i..], ByUrl(env, u))
    {
      var item := flatTree[i];
      FirstWhereStep(flatTree, i, ByUrl(env, u));
      var itemUrl := RTrim(item.url, '/');
      if itemUrl == u {
        return Some(item);
      }
      if LTrim(itemUrl, '/') == LTrim(u, '/') {
        return Some(item);
      }
      if item.typ == TypeValue(Route) {
        if "route" in item.item.meta && item.item.meta["route"] in env.routes {
          var name := item.item.meta["route"];
          if name in env.routeUrls {
            var routeUrl := RTrim(env.routeUrls[name], '/');
            if routeUrl == u {
              return Some(item);
            }
          }
        }
      }
      assert !Passes(ByUrl(env, u), item);
      i := i + 1;
    }
    return None;
  }

  /** A `route` node whose `route` entry, or `''`, is the name. */
  predicate RouteNamed(name: string, n: Node) {
    n.typ == TypeValue(Route) && MetaOr(n, "route") == name
  }

  /** The first `route` node with the name. */
  function FirstRouteMatch(nodes: seq<Node>, name: string): Option<Node> {
    FirstWhere(nodes, ByRoute(name))
  }

  /** The scan of `getBreadcrumbsByRoute` that stops at the first `route`
      node with the name. */
  method FindItemByRoute(flatTree: seq<Node>, routeName: string) returns (r: Option<Node>)
    ensures r == FirstRouteMatch(flatTree, routeName)
  {
    r := None;
    var i := 0;
    while i < |flatTree|
      invariant i <= |flatTree|
      invariant FirstRouteMatch(flatTree, routeName) == FirstWhere(flatTree[i..], ByRoute(routeName))
    {
      var item := flatTree[i];
      FirstWhereStep(flatTree, i, ByRoute(routeName));
      if item.typ == TypeValue(Route) {
        var route := if "route" in item.item.meta then item.item.meta["route"] else "";
        if route == routeName {
          r := Some(item);
          break;
        }
      }
      i := i + 1;
    }
  }

  /* ---------------- The trail ---------------- */

  /** The formatted nodes, in flat order, whose id is among the path ids. */
  function Trail(flat: seq<Node>, ids: seq<nat>): seq<Crumb>
    decreases |flat|
  {
    if flat == [] then []
    else Trail(flat[..|flat| - 1], ids) + (if flat[|flat| - 1].item.id in ids then [Format(flat[|flat| - 1])] else [])
  }

  lemma TrailSnoc(flat: seq<Node>, i: nat, ids: seq<nat>)
    requires i < |flat|
    ensures Trail(flat[..i + 1], ids) == Trail(flat[..i], ids) + (if flat[i].item.id in ids then [Format(flat[i])] else [])
  {
    assert flat[..i + 1][..i] == flat[..i];
  }

  /** The loop collecting the formatted nodes on the path. */
  method CollectTrail(flatTree: seq<Node>, pathIds: seq<nat>) returns (crumbs: seq<Crumb>)
    ensures crumbs == Trail(flatTree, pathIds)
  {
    crumbs := [];
    var i := 0;
    while i < |flatTree|
      invariant i <= |flatTree|
      invariant crumbs == Trail(flatTree[..i], pathIds)
    {
      TrailSnoc(flatTree, i, pathIds);
      var item := flatTree[i];
      if item.item.id in pathIds {
        crumbs := crumbs + [Format(item)];
      }
      i := i + 1;
    }
    assert flatTree[..i] == flatTree;
  }

  /** What the trail holds: the formatted flat nodes whose id is on the
      path. */
  lemma {:induction false} TrailIn(flat: seq<Node>, ids: seq<nat>, c: Crumb)
    ensures c in Trail(flat, ids) <==> exists k :: 0 <= k < |flat| && flat[k].item.id in ids && c == Format(flat[k])
    decreases |flat|
  {
    if flat != [] {
      var pre := flat[..|flat| - 1];
      TrailIn(pre, ids, c);
      assert forall k :: 0 <= k < |pre| ==> pre[k] == flat[k];
    }
  }

  /** No element occurs twice. */
  predicate NoDup<T(==)>(s: seq<T>) {
    forall i, j :: 0 <= i < j < |s| ==> s[i] != s[j]
  }

  /** Rows never repeat in the trail of a list without repeated ids. */
  lemma {:induction false} TrailNoDup(flat: seq<Node>, ids: seq<nat>)
    requires DistinctIds(flat)
    ensures NoDup(Trail(flat, ids))
    decreases |flat|
  {
    if flat != [] {
      var pre := flat[..|flat| - 1];
      var last := flat[|flat| - 1];
      assert DistinctIds(pre) by {
        assert forall k :: 0 <= k < |pre| ==> pre[k] == flat[k];
      }
      TrailNoDup(pre, ids);
      if last.item.id in ids {
        var t := Trail(pre, ids);
        forall c | c in t ensures c != Format(last) {
          TrailIn(pre, ids, c);
          var k :| 0 <= k < |pre| && pre[k].item.id in ids && c == Format(pre[k]);
          assert flat[k] == pre[k];
        }
        CrumbSnocNoDup(t, Format(last));
      }
    }
  }

  lemma CrumbSnocNoDup(t: seq<Crumb>, c: Crumb)
    requires NoDup(t) && c !in t
    ensures NoDup(t + [c])
  {
    var s := t + [c];
    forall i, j | 0 <= i < j < |s| ensures s[i] != s[j] {
      if j == |t| {
        assert s[i] == t[i];
      } else {
        assert s[i] == t[i] && s[j] == t[j];
      }
    }
  }

  /* ---------------- usort by depth ---------------- */

  predicate SortedByDepth(cs: seq<Crumb>) {
    forall i, j :: 0 <= i < j < |cs| ==> cs[i].depth <= cs[j].depth
  }

  /** The crumb placed in front of the first crumb at least as deep. */
  function InsertByDepth(c: Crumb, s: seq<Crumb>): (r: seq<Crumb>)
    ensures multiset(r) == multiset(s) + multiset{c}
    decreases |s|
  {
    if s == [] || c.depth <= s[0].depth then [c] + s
    else
      assert s == [s[0]] + s[1..];
      [s[0]] + InsertByDepth(c, s[1..])
  }

  /** `usort` with the comparator `$a['depth'] <=> $b['depth']`, stable:
      crumbs at equal depth keep their order. */
  function SortByDepth(cs: seq<Crumb>): (r: seq<Crumb>)
    ensures multiset(r) == multiset(cs)
    decreases |cs|
  {
    if cs == [] then []
    else
      assert cs == [cs[0]] + cs[1..];
      InsertByDepth(cs[0], SortByDepth(cs[1..]))
  }

  lemma {:induction false} InsertSorted(c: Crumb, s: seq<Crumb>)
    requires SortedByDepth(s)
    ensures SortedByDepth(InsertByDepth(c, s))
    decreases |s|
  {
    if s != [] && c.depth > s[0].depth {
      InsertSorted(c, s[1..]);
      var r := InsertByDepth(c, s[1..]);
      forall x | x in r ensures s[0].depth <= x.depth {
        assert x in multiset(r);
        if x != c {
          assert x in multiset(s[1..]);
        }
      }
    }
  }

  /** The sort's result is ordered by depth. */
  lemma {:induction false} SortByDepthSorted(cs: seq<Crumb>)
    ensures SortedByDepth(SortByDepth(cs))
    decreases |cs|
  {
    if cs != [] {
      SortByDepthSorted(cs[1..]);
      InsertSorted(cs[0], SortByDepth(cs[1..]));
    }
  }

  /** A list already ordered by depth is left as it is. */
  lemma {:induction false} SortedUnchanged(cs: seq<Crumb>)
    requires SortedByDepth(cs)
    ensures SortByDepth(cs) == cs
    decreases |cs|
  {
    if cs != [] {
      SortedUnchanged(cs[1..]);
      assert cs == [cs[0]] + cs[1..];
    }
  }

  lemma CountAtMostOne<T>(s: seq<T>, x: T)
    requires NoDup(s)
    ensures multiset(s)[x] <= 1
    decreases |s|
  {
    if s != [] {
      assert s == [s[0]] + s[1..];
      assert NoDup(s[1..]) by {
        forall i, j | 0 <= i < j < |s[1..]| ensures s[1..][i] != s[1..][j] {
          assert s[1..][i] == s[1 + i] && s[1..][j] == s[1 + j];
        }
      }
      CountAtMostOne(s[1..], x);
      if x == s[0] {
        assert x !in s[1..] by {
          forall k | 0 <= k < |s[1..]| ensures s[1..][k] != x {
            assert s[1..][k] == s[1 + k];
          }
        }
      }
    }
  }

  /** A permutation of a list without repeats has none. */
  lemma NoDupPerm<T>(a: seq<T>, b: seq<T>)
    requires NoDup(a) && multiset(a) == multiset(b)
    ensures NoDup(b)
  {
    forall i, j | 0 <= i < j < |b| ensures b[i] != b[j] {
      var x := b[i];
      CountAtMostOne(a, x);
      assert b == b[..j] + [b[j]] + b[j + 1..];
      assert x in b[..j];
      assert multiset(b)[b[j]] == multiset(b[..j])[b[j]] + 1 + multiset(b[j + 1..])[b[j]];
    }
  }

  /** A list without repeats has as many elements as it has distinct
      elements. */
  lemma {:induction false} NoDupCard<T>(s: seq<T>)
    requires NoDup(s)
    ensures |set x | x in s| == |s|
    decreases |s|
  {
    if s != [] {
      var rest := s[1..];
      assert NoDup(rest) by {
        forall i, j | 0 <= i < j < |rest| ensures rest[i] != rest[j] {
          assert rest[i] == s[1 + i] && rest[j] == s[1 + j];
        }
      }
      NoDupCard(rest);
      assert s[0] !in rest by {
        forall k | 0 <= k < |rest| ensures rest[k] != s[0] {
          assert rest[k] == s[1 + k];
        }
      }
      assert (set x | x in s) == {s[0]} + (set x | x in rest) by {
        assert s == [s[0]] + rest;
      }
    }
  }

  /** A repeat-free list sorted by depth, holding exactly the crumbs of a
      list whose `i`-th crumb has depth `i`, is that list. */
  lemma SortedIsLevels(s: seq<Crumb>, a: seq<Crumb>)
    requires SortedByDepth(s) && NoDup(s)
    requires forall i :: 0 <= i < |a| ==> a[i].depth == i
    requires forall x :: x in s <==> x in a
    ensures s == a
  {
    assert NoDup(a);
    NoDupCard(s);
    NoDupCard(a);
    assert (set x | x in s) == (set x | x in a);
    var k := 0;
    while k < |a|
      invariant k <= |a| == |s|
      invariant forall j :: 0 <= j < k ==> s[j] == a[j]
    {
      assert a[k] in a;
      var p :| 0 <= p < |s| && s[p] == a[k];
      assert k <= p;
      assert s[k] in s;
      var i :| 0 <= i < |a| && a[i] == s[k];
      assert s[k].depth <= s[p].depth;
      assert i == k;
      k := k + 1;
    }
  }

  /* ---------------- The resolvers ---------------- */

  /** What both resolvers return once the flat list and the match are
      known: nothing for an empty list; with no match, the first node when
      the home item is wanted; otherwise the trail of the match's path,
      sorted by depth. */
  function Crumbs(flat: seq<Node>, found: Option<Node>, includeHome: bool): seq<Crumb> {
    if flat == [] then []
    else
      match found
      case None => if includeHome then [Format(flat[0])] else []
      case Some(m) => SortByDepth(Trail(flat, ParsePath(m.path)))
  }

  /** `getBreadcrumbs`: the URL given, or the request's URL when none is
      given, trimmed of trailing `/`, looked up in the menu's flat tree. */
  method GetBreadcrumbs(store: RowStore, alias: string, env: Env, currentUrl: Option<string>, requestUrl: string,
                        includeHome: bool) returns (crumbs: seq<Crumb>)
    requires ValidStore(store)
    ensures crumbs == Crumbs(FlatTree(store, alias),
      FirstUrlMatch(env, FlatTree(store, alias), RTrim(currentUrl.GetOr(requestUrl), '/')), includeHome)
  {
    var url := currentUrl.GetOr(requestUrl);
    var flatTree := GetFlatTree(store, alias);
    if flatTree == [] {
      return [];
    }
    RTrimTwice(url, '/');
    url := RTrim(url, '/');
    var currentItem := FindItemByUrl(env, flatTree, url);
    if currentItem.None? {
      return if includeHome then [Format(flatTree[0])] else [];
    }
    var pathIds := ParsePath(currentItem.value.path);
    crumbs := CollectTrail(flatTree, pathIds);
    crumbs := SortByDepth(crumbs);
  }

  /** `getBreadcrumbsByRoute`: the route name given, or the current route's
      name (`''` when there is none); a falsy name gives nothing. */
  method GetBreadcrumbsByRoute(store: RowStore, alias: string, routeName: Option<string>, currentRoute: Option<string>,
                               includeHome: bool) returns (crumbs: seq<Crumb>)
    requires ValidStore(store)
    ensures var name := routeName.GetOr(currentRoute.GetOr(""));
      crumbs == if !Truthy(name) then [] else Crumbs(FlatTree(store, alias), FirstRouteMatch(FlatTree(store, alias), name), includeHome)
  {
    var name := routeName.GetOr(currentRoute.GetOr(""));
    if !Truthy(name) {
      return [];
    }
    var flatTree := GetFlatTree(store, alias);
    if flatTree == [] {
      return [];
    }
    var currentItem := FindItemByRoute(flatTree, name);
    if currentItem.None? {
      return if includeHome then [Format(flatTree[0])] else [];
    }
    var pathIds := ParsePath(currentItem.value.path);
    crumbs := CollectTrail(flatTree, pathIds);
    crumbs := SortByDepth(crumbs);
  }

  /* ---------------- What the trail is ---------------- */

  /** For a node of a menu's flat tree, the sorted trail of its path is
      its ancestor chain, root first: one node per depth from 0 to the
      node's own, each a node of the flat tree and the parent of the next,
      ending at the node itself. */
  lemma AncestorTrail(items: seq<Item>, m: Node) returns (chain: seq<Node>)
    requires UniqueIds(items) && m in Preorder(Forest(items))
    ensures |chain| == m.depth + 1 && chain[m.depth] == m
    ensures forall i :: 0 <= i < |chain| ==> chain[i] in Preorder(Forest(items)) && chain[i].depth == i
    ensures chain[0].item.parentId.None?
    ensures forall i :: 1 <= i < |chain| ==> chain[i].item.parentId == Some(chain[i - 1].item.id)
    ensures SortByDepth(Trail(Preorder(Forest(items)), ParsePath(m.path))) == Formats(chain)
  {
    FlatWellFormed(items);
    var ids :| Chain(items, [], 0, m, ids) && Built(items, m, ids);
    ChainIsPath(items, [], 0, m, ids);
    chain := ChainNodes(items, ids);
    ChainEnd(items, m, ids, chain);
    SortedTrail(Preorder(Forest(items)), ids, chain);
  }

  lemma ChainEnd(items: seq<Item>, m: Node, ids: seq<nat>, chain: seq<Node>)
    requires UniqueIds(items) && Chain(items, [], 0, m, ids) && Built(items, m, ids)
    requires |chain| == |ids| && chain[|ids| - 1] == ChainNode(items, ids, |ids| - 1)
    ensures chain[m.depth] == m
  {
    assert ids[..|ids|] == ids;
  }

  /** Once every id of the path has its node in the list, at the depth of
      its position, the sorted trail is those nodes. */
  lemma SortedTrail(flat: seq<Node>, ids: seq<nat>, chain: seq<Node>)
    requires DistinctIds(flat) && |chain| == |ids|
    requires forall i :: 0 <= i < |ids| ==> chain[i] in flat && chain[i].item.id == ids[i] && chain[i].depth == i
    ensures SortByDepth(Trail(flat, ids)) == Formats(chain)
  {
    var t := Trail(flat, ids);
    var a := Formats(chain);
    TrailIsChain(flat, ids, chain);
    TrailNoDup(flat, ids);
    var s := SortByDepth(t);
    SortByDepthSorted(t);
    NoDupPerm(t, s);
    assert forall c :: c in s <==> c in multiset(t);
    SortedIsLevels(s, a);
  }

  /** The trail holds exactly the path's nodes. */
  lemma TrailIsChain(flat: seq<Node>, ids: seq<nat>, chain: seq<Node>)
    requires DistinctIds(flat) && |chain| == |ids|
    requires forall i :: 0 <= i < |ids| ==> chain[i] in flat && chain[i].item.id == ids[i]
    ensures forall c :: c in Trail(flat, ids) <==> c in Formats(chain)
  {
    var t := Trail(flat, ids);
    var a := Formats(chain);
    forall c ensures c in t <==> c in a {
      TrailIn(flat, ids, c);
      if c in t {
        var k :| 0 <= k < |flat| && flat[k].item.id in ids && c == Format(flat[k]);
        var i :| 0 <= i < |ids| && ids[i] == flat[k].item.id;
        SameRow(flat, flat[k], chain[i]);
        assert a[i] == c;
      }
      if c in a {
        var i :| 0 <= i < |a| && a[i] == c;
        var k :| 0 <= k < |flat| && flat[k] == chain[i];
        assert flat[k].item.id == ids[i];
      }
    }
  }

  /** Two nodes of a list without repeated ids that share an id are one. */
  lemma SameRow(flat: seq<Node>, x: Node, y: Node)
    requires DistinctIds(flat) && x in flat && y in flat && x.item.id == y.item.id
    ensures x == y
  {
  }

  /** The node of the prefix of a rooted chain ending at position `i`: the
      row there, at depth `i`, with the prefix's path. */
  ghost function ChainNode(items: seq<Item>, ids: seq<nat>, i: nat): Node
    requires RootedPath(items, ids) && i < |ids|
  {
    MakeNode(Lookup(items, ids[i]).value, i, PathOf(ids[..i + 1]))
  }

  lemma ChainNodeIn(items: seq<Item>, ids: seq<nat>, i: nat)
    requires UniqueIds(items) && RootedPath(items, ids) && i < |ids|
    ensures ChainNode(items, ids, i) in Preorder(Forest(items))
    ensures ChainNode(items, ids, i).item.id == ids[i]
  {
    RootedPrefix(items, ids, i + 1);
    Reachable(items, ids[..i + 1]);
    assert ids[..i + 1][i] == ids[i];
  }

  /** The nodes of every prefix of a rooted chain, all in the flat tree. */
  lemma ChainNodes(items: seq<Item>, ids: seq<nat>) returns (chain: seq<Node>)
    requires UniqueIds(items) && RootedPath(items, ids)
    ensures |chain| == |ids|
    ensures forall i :: 0 <= i < |ids| ==> chain[i] == ChainNode(items, ids, i)
    ensures forall i :: 0 <= i < |ids| ==> chain[i] in Preorder(Forest(items)) && chain[i].item.id == ids[i]
    ensures forall i :: 0 <= i < |ids| ==> chain[i].depth == i
    ensures chain[0].item.parentId.None?
    ensures forall i :: 1 <= i < |ids| ==> chain[i].item.parentId == Some(chain[i - 1].item.id)
  {
    chain := seq(|ids|, i requires 0 <= i < |ids| => ChainNode(items, ids, i));
    forall i | 0 <= i < |ids| ensures chain[i] in Preorder(Forest(items)) && chain[i].item.id == ids[i] {
      ChainNodeIn(items, ids, i);
    }
    forall i | 1 <= i < |ids| ensures chain[i].item.parentId == Some(chain[i - 1].item.id) {
      assert chain[i - 1].item.id == ids[i - 1];
    }
  }

  /** The resolvers' trail, for a match in the menu's flat tree, is that
      node's ancestor chain in depth order; it ends with the match. */
  lemma CrumbsAreAncestors(store: RowStore, alias: string, m: Node, includeHome: bool) returns (chain: seq<Node>)
    requires ValidStore(store) && m in FlatTree(store, alias)
    ensures Crumbs(FlatTree(store, alias), Some(m), includeHome) == Formats(chain)
    ensures |chain| == m.depth + 1 && chain[m.depth] == m
    ensures forall i :: 0 <= i < |chain| ==> chain[i] in FlatTree(store, alias) && chain[i].depth == i
    ensures chain[0].item.parentId.None?
    ensures forall i :: 1 <= i < |chain| ==> chain[i].item.parentId == Some(chain[i - 1].item.id)
  {
    var menu := GetMenu(store.menus, alias).value;
    chain := AncestorTrail(MenuItems(store, menu), m);
  }
}
