/** The visibility filter: the per-type rule deciding whether the viewer
    sees a node (`isVisible`), and the post-order pruning of the forest
    that keeps a node when it or something below it is seen
    (`filterVisible`, `filterItem`). */
module Visibility {
  import opened Wrappers
  import opened PhpStrings
  import opened MenuTypes
  import opened Assembler
  import opened RoundTrip

  /** The framework services the engine consults, as data: the registered
      route names (`Route::has`), the URL `route()` resolves each name to
      (a name it cannot resolve is missing), the abilities of the signed-in
      user (`None` when nobody is signed in; `can` is membership), and the
      active features (`None` when no `features` service is bound). */
  datatype Env = Env(
    routes: set<string>,
    routeUrls: map<string, string>,
    viewer: Option<set<string>>,
    features: Option<set<string>>)

  /** `$meta[$key] ?? ''`. */
  function MetaOr(n: Node, key: string): string {
    if key in n.item.meta then n.item.meta[key] else ""
  }

  /** Whether the viewer sees the node itself: never for an empty or
      unknown type; always for links and dividers; for a route when its
      `route` entry names a registered route; for a permission when a user
      is signed in and may use the named ability; for a feature when no
      feature service is bound or the named feature is active. */
  predicate IsVisible(env: Env, n: Node)
    ensures IsVisible(env, n) ==> TypeFrom(n.typ).Some?
    ensures TypeFrom(n.typ) == Some(Url) || TypeFrom(n.typ) == Some(Divider) ==> IsVisible(env, n)
  {
    if !Truthy(n.typ) then false
    else
      match TypeFrom(n.typ)
      case None => false
      case Some(t) =>
        match t
        case Url => true
        case Divider => true
        case Route => "route" in n.item.meta && n.item.meta["route"] in env.routes
        case Permission => env.viewer.Some? && MetaOr(n, "permission") in env.viewer.value
        case Feature => env.features.None? || MetaOr(n, "feature") in env.features.value
  }

  /** For a node built from a row, the rule is the row type's: links and
      dividers are always seen, a route when its `route` entry names a
      registered route, a permission when a signed-in user may use the named
      ability, a feature when no feature service is bound or the named
      feature is active. */
  lemma VisibleByType(env: Env, n: Node)
    requires n.typ == TypeValue(n.item.itype)
    ensures IsVisible(env, n) <==>
      match n.item.itype
      case Url => true
      case Divider => true
      case Route => "route" in n.item.meta && n.item.meta["route"] in env.routes
      case Permission => env.viewer.Some? && MetaOr(n, "permission") in env.viewer.value
      case Feature => env.features.None? || MetaOr(n, "feature") in env.features.value
  {
    TypeFromValue(n.item.itype, n.typ);
  }

  /** A node whose type is not one of the enumeration's values is never
      seen, whoever looks. */
  lemma UnknownTypeHidden(env: Env, n: Node)
    requires TypeFrom(n.typ).None?
    ensures !IsVisible(env, n)
  {
  }

  /** `filterVisible`: each tree filtered, the ones that vanish dropped,
      the rest kept in order. */
  function FilterVisible(env: Env, ts: seq<Tree>): (r: seq<Tree>)
    ensures |r| <= |ts|
    ensures forall t :: t in r ==> exists j :: 0 <= j < |ts| && FilterItem(env, ts[j]) == Some(t)
    decreases ts, 1
  {
    if ts == [] then []
    else
      match FilterItem(env, ts[0])
      case None => FilterVisible(env, ts[1..])
      case Some(t) => [t] + FilterVisible(env, ts[1..])
  }

  /** `filterItem`: the children are filtered first; the node stays, with
      the surviving children, when it is visible or some child survived. */
  function FilterItem(env: Env, t: Tree): (r: Option<Tree>)
    ensures r.Some? ==> r.value.node == t.node
    decreases t, 0
  {
    var kids := FilterVisible(env, t.children);
    if IsVisible(env, t.node) || |kids| > 0 then Some(Tree(t.node, kids)) else None
  }

  /** Some node of the sequence is visible. */
  ghost predicate SomeVisible(env: Env, nodes: seq<Node>) {
    exists i :: 0 <= i < |nodes| && IsVisible(env, nodes[i])
  }

  lemma SomeVisibleAppend(env: Env, a: seq<Node>, b: seq<Node>)
    ensures SomeVisible(env, a + b) <==> SomeVisible(env, a) || SomeVisible(env, b)
  {
    if SomeVisible(env, a + b) {
      var i :| 0 <= i < |a + b| && IsVisible(env, (a + b)[i]);
      if i >= |a| {
        assert b[i - |a|] == (a + b)[i];
      }
    }
    if SomeVisible(env, a) {
      var i :| 0 <= i < |a| && IsVisible(env, a[i]);
      assert (a + b)[i] == a[i];
    }
    if SomeVisible(env, b) {
      var i :| 0 <= i < |b| && IsVisible(env, b[i]);
      assert (a + b)[|a| + i] == b[i];
    }
  }

  /** A tree survives the filter exactly when some node in it is visible:
      a node with a visible descendant is kept, an invisible node with no
      visible descendant is dropped. */
  lemma {:induction false} Survives(env: Env, t: Tree)
    ensures FilterItem(env, t).Some? <==> SomeVisible(env, TreePreorder(t))
    decreases t, 0
  {
    SurvivesForest(env, t.children);
    SomeVisibleAppend(env, [t.node], Preorder(t.children));
    if IsVisible(env, t.node) {
      assert ([t.node] + Preorder(t.children))[0] == t.node;
    }
  }

  /** Something of the forest survives exactly when some node in it is
      visible. */
  lemma {:induction false} SurvivesForest(env: Env, ts: seq<Tree>)
    ensures FilterVisible(env, ts) != [] <==> SomeVisible(env, Preorder(ts))
    decreases ts, 1
  {
    if ts != [] {
      Survives(env, ts[0]);
      SurvivesForest(env, ts[1..]);
      SomeVisibleAppend(env, TreePreorder(ts[0]), Preorder(ts[1..]));
    }
  }

  /** The visible nodes of a sequence, in order. */
  function VisibleNodes(env: Env, nodes: seq<Node>): seq<Node> {
    if nodes == [] then []
    else (if IsVisible(env, nodes[0]) then [nodes[0]] else []) + VisibleNodes(env, nodes[1..])
  }

  lemma {:induction false} VisibleNodesAppend(env: Env, a: seq<Node>, b: seq<Node>)
    ensures VisibleNodes(env, a + b) == VisibleNodes(env, a) + VisibleNodes(env, b)
    decreases |a|
  {
    if a != [] {
      assert (a + b)[0] == a[0];
      assert (a + b)[1..] == a[1..] + b;
      VisibleNodesAppend(env, a[1..], b);
    } else {
      assert a + b == b;
    }
  }

  /** Filtering a tree keeps each of its visible nodes, in pre-order. */
  lemma {:induction false} KeepsVisible(env: Env, t: Tree)
    ensures VisibleNodes(env, Opt(FilterItem(env, t))) == VisibleNodes(env, TreePreorder(t))
    decreases t, 0
  {
    KeepsVisibleForest(env, t.children);
    VisibleNodesAppend(env, [t.node], Preorder(t.children));
    var kids := FilterVisible(env, t.children);
    if FilterItem(env, t).Some? {
      VisibleNodesAppend(env, [t.node], Preorder(kids));
    }
  }

  /** Filtering a forest keeps exactly its visible nodes, in pre-order. */
  lemma {:induction false} KeepsVisibleForest(env: Env, ts: seq<Tree>)
    ensures VisibleNodes(env, Preorder(FilterVisible(env, ts))) == VisibleNodes(env, Preorder(ts))
    decreases ts, 1
  {
    if ts != [] {
      KeepsVisible(env, ts[0]);
      KeepsVisibleForest(env, ts[1..]);
      VisibleNodesAppend(env, TreePreorder(ts[0]), Preorder(ts[1..]));
      var rest := FilterVisible(env, ts[1..]);
      match FilterItem(env, ts[0])
      case None =>
      case Some(t) =>
        VisibleNodesAppend(env, TreePreorder(t), Preorder(rest));
        assert ([t] + rest)[1..] == rest;
    }
  }

  /** The pre-order of a filtered tree, empty when the tree vanished. */
  function Opt(r: Option<Tree>): seq<Node> {
    match r
    case None => []
    case Some(t) => TreePreorder(t)
  }

  /** `a` is `b` with some elements left out. */
  ghost predicate SubSeq<T>(a: seq<T>, b: seq<T>)
    decreases |b|
  {
    if b == [] then a == []
    else (a != [] && a[0] == b[0] && SubSeq(a[1..], b[1..])) || SubSeq(a, b[1..])
  }

  lemma {:induction false} SubSeqEmpty<T>(b: seq<T>)
    ensures SubSeq([], b)
    decreases |b|
  {
    if b != [] {
      SubSeqEmpty(b[1..]);
    }
  }

  lemma {:induction false} SubSeqAppend<T>(a1: seq<T>, b1: seq<T>, a2: seq<T>, b2: seq<T>)
    requires SubSeq(a1, b1) && SubSeq(a2, b2)
    ensures SubSeq(a1 + a2, b1 + b2)
    decreases |b1|
  {
    if b1 == [] {
      assert a1 + a2 == a2 && b1 + b2 == b2;
    } else {
      assert (b1 + b2)[0] == b1[0] && (b1 + b2)[1..] == b1[1..] + b2;
      if a1 != [] && a1[0] == b1[0] && SubSeq(a1[1..], b1[1..]) {
        SubSeqAppend(a1[1..], b1[1..], a2, b2);
        assert (a1 + a2)[0] == a1[0] && (a1 + a2)[1..] == a1[1..] + a2;
      } else {
        SubSeqAppend(a1, b1[1..], a2, b2);
      }
    }
  }

  lemma SubSeqCons<T>(x: T, a: seq<T>, b: seq<T>)
    requires SubSeq(a, b)
    ensures SubSeq([x] + a, [x] + b)
  {
    assert ([x] + a)[1..] == a && ([x] + b)[1..] == b;
  }

  /** Filtering a tree only removes nodes: what is left keeps its
      pre-order. */
  lemma {:induction false} FilterOrder(env: Env, t: Tree)
    ensures SubSeq(Opt(FilterItem(env, t)), TreePreorder(t))
    decreases t, 0
  {
    match FilterItem(env, t)
    case None =>
      SubSeqEmpty(TreePreorder(t));
    case Some(u) =>
      FilterOrderForest(env, t.children);
      SubSeqCons(t.node, Preorder(u.children), Preorder(t.children));
  }

  /** Filtering a forest only removes nodes: what is left keeps its
      pre-order, so surviving siblings keep their order. */
  lemma {:induction false} FilterOrderForest(env: Env, ts: seq<Tree>)
    ensures SubSeq(Preorder(FilterVisible(env, ts)), Preorder(ts))
    decreases ts, 1
  {
    if ts == [] {
      SubSeqEmpty<Node>([]);
    } else {
      FilterOrder(env, ts[0]);
      FilterOrderForest(env, ts[1..]);
      var rest := FilterVisible(env, ts[1..]);
      SubSeqAppend(Opt(FilterItem(env, ts[0])), TreePreorder(ts[0]), Preorder(rest), Preorder(ts[1..]));
      match FilterItem(env, ts[0])
      case None =>
        assert Opt(FilterItem(env, ts[0])) + Preorder(rest) == Preorder(rest);
      case Some(u) =>
        assert ([u] + rest)[1..] == rest;
    }
  }

  /** Every node of the forest, at every level, is visible or has
      children. */
  ghost predicate Pruned(env: Env, ts: seq<Tree>)
    decreases ts
  {
    ts == [] ||
    ((IsVisible(env, ts[0].node) || ts[0].children != [])
     && Pruned(env, ts[0].children) && Pruned(env, ts[1..]))
  }

  /** The filter's result is pruned. */
  lemma {:induction false} FilterPruned(env: Env, ts: seq<Tree>)
    ensures Pruned(env, FilterVisible(env, ts))
    decreases ts
  {
    if ts != [] {
      FilterPruned(env, ts[0].children);
      FilterPruned(env, ts[1..]);
      match FilterItem(env, ts[0])
      case None =>
      case Some(u) =>
        assert ([u] + FilterVisible(env, ts[1..]))[1..] == FilterVisible(env, ts[1..]);
    }
  }

  /** A pruned forest passes the filter unchanged. */
  lemma {:induction false} PrunedFixed(env: Env, ts: seq<Tree>)
    requires Pruned(env, ts)
    ensures FilterVisible(env, ts) == ts
    decreases ts
  {
    if ts != [] {
      PrunedFixed(env, ts[0].children);
      PrunedFixed(env, ts[1..]);
      assert ts == [ts[0]] + ts[1..];
    }
  }

  /** Filtering twice is filtering once. */
  lemma FilterIdempotent(env: Env, ts: seq<Tree>)
    ensures FilterVisible(env, FilterVisible(env, ts)) == FilterVisible(env, ts)
  {
    FilterPruned(env, ts);
    PrunedFixed(env, FilterVisible(env, ts));
  }

  /** The filter keeps every surviving node under its own parent. */
  lemma {:induction false} FilterLinked(env: Env, ts: seq<Tree>, p: Option<int>)
    requires Linked(ts, p)
    ensures Linked(FilterVisible(env, ts), p)
    decreases ts
  {
    if ts != [] {
      FilterLinked(env, ts[0].children, Some(ts[0].node.item.id));
      FilterLinked(env, ts[1..], p);
      match FilterItem(env, ts[0])
      case None =>
      case Some(u) =>
        assert ([u] + FilterVisible(env, ts[1..]))[1..] == FilterVisible(env, ts[1..]);
    }
  }

  /** `wide` grants at least what `env` grants: more routes, a signed-in
      user with more abilities, more active features or no feature service. */
  predicate Grants(env: Env, wide: Env) {
    && env.routes <= wide.routes
    && (env.viewer.Some? ==> wide.viewer.Some? && env.viewer.value <= wide.viewer.value)
    && (wide.features.Some? ==> env.features.Some? && env.features.value <= wide.features.value)
  }

  lemma VisibleMonotone(env: Env, wide: Env, n: Node)
    requires Grants(env, wide)
    ensures IsVisible(env, n) ==> IsVisible(wide, n)
  {
  }

  /** Granting more can only reveal more: a tree the filter keeps for
      `env` it keeps for `wide`. */
  lemma FilterMonotone(env: Env, wide: Env, t: Tree)
    requires Grants(env, wide)
    ensures FilterItem(env, t).Some? ==> FilterItem(wide, t).Some?
  {
    Survives(env, t);
    Survives(wide, t);
    if SomeVisible(env, TreePreorder(t)) {
      var i :| 0 <= i < |TreePreorder(t)| && IsVisible(env, TreePreorder(t)[i]);
      VisibleMonotone(env, wide, TreePreorder(t)[i]);
    }
  }
}
