/** What the flattener's output is: every node is annotated by the chain
    of its ancestors, each row appears at most once, and every row whose
    ancestor chain reaches a root appears. */
module FlatTheory {
  import opened Wrappers
  import opened PhpStrings
  import opened MenuTypes
  import opened Flattener

  /** `ids` is the chain of node `n` found below `anc` from row `k` on: a
      rooted chain ending at the node's row, one id longer than its depth,
      extending `anc` through a row at position `k` or later. */
  ghost predicate Chain(items: seq<Item>, anc: seq<nat>, k: nat, n: Node, ids: seq<nat>) {
    && RootedPath(items, ids)
    && |ids| == n.depth + 1
    && ids[|ids| - 1] == n.item.id
    && |ids| > |anc| && ids[..|anc|] == anc
    && IndexOf(items, ids[|anc|]) >= k
  }

  /** Node `n` is the record built for its own row with the path of `ids`. */
  ghost predicate Built(items: seq<Item>, n: Node, ids: seq<nat>) {
    && Lookup(items, n.item.id) == Some(n.item)
    && n == MakeNode(n.item, n.depth, PathOf(ids))
  }

  /** A sequence starting with `t` starts with every prefix of `t`. */
  lemma PrefixOfPrefix(s: seq<nat>, t: seq<nat>, n: nat)
    requires |t| <= |s| && s[..|t|] == t && n < |t|
    ensures s[..n] == t[..n] && s[n] == t[n]
  {
    assert forall i | 0 <= i <= n :: s[i] == s[..|t|][i];
  }

  /** Row `k`'s own node has the chain `anc` extended by row `k`. */
  lemma ChainHere(items: seq<Item>, k: nat, anc: seq<nat>)
    requires UniqueIds(items) && k < |items| && RootedPath(items, anc + [items[k].id])
    ensures Chain(items, anc, k, MakeNode(items[k], |anc|, PathOf(anc + [items[k].id])), anc + [items[k].id])
    ensures Built(items, MakeNode(items[k], |anc|, PathOf(anc + [items[k].id])), anc + [items[k].id])
  {
    IndexOfAt(items, k);
    var below := anc + [items[k].id];
    assert below[..|anc|] == anc;
  }

  /** A chain below row `k`'s extension is a chain below `anc` through row
      `k`. */
  lemma ChainKid(items: seq<Item>, k: nat, anc: seq<nat>, n: Node, ids: seq<nat>)
    requires UniqueIds(items) && k < |items|
    requires Chain(items, anc + [items[k].id], 0, n, ids)
    ensures Chain(items, anc, k, n, ids)
  {
    IndexOfAt(items, k);
    var below := anc + [items[k].id];
    PrefixOfPrefix(ids, below, |anc|);
    assert below[..|anc|] == anc;
  }

  /** Every node the scan emits has a chain, and is the record of its row. */
  lemma {:induction false} SubChain(items: seq<Item>, k: nat, anc: seq<nat>, n: Node)
    returns (ids: seq<nat>)
    requires UniqueIds(items) && k <= |items| && Rooted(items, anc)
    requires n in Preorder(Sub(items, k, anc))
    ensures Chain(items, anc, k, n, ids) && Built(items, n, ids)
    decreases IdSet(items) - Elems(anc), |items| - k, 1
  {
    SubStep(items, k, anc);
    if items[k].parentId == ParentOf(anc) {
      ids := RowChain(items, k, anc, n);
    } else {
      ids := SubChain(items, k + 1, anc, n);
    }
  }

  /** `SubChain` for a position whose row hangs below `anc`. */
  lemma {:induction false} RowChain(items: seq<Item>, k: nat, anc: seq<nat>, n: Node)
    returns (ids: seq<nat>)
    requires UniqueIds(items) && k < |items| && Rooted(items, anc)
    requires items[k].parentId == ParentOf(anc)
    requires n in Preorder(Sub(items, k, anc))
    ensures Chain(items, anc, k, n, ids) && Built(items, n, ids)
    decreases IdSet(items) - Elems(anc), |items| - k, 0
  {
    SubStep(items, k, anc);
    var below := anc + [items[k].id];
    RootedExtend(items, anc, k);
    if n == MakeNode(items[k], |anc|, PathOf(below)) {
      ChainHere(items, k, anc);
      ids := below;
    } else if n in Preorder(Sub(items, 0, below)) {
      ids := SubChain(items, 0, below, n);
      ChainKid(items, k, anc, n, ids);
    } else {
      ids := SubChain(items, k + 1, anc, n);
    }
  }

  /** The chain of a node is what `explode('.', path)` gives back. */
  lemma ChainIsPath(items: seq<Item>, anc: seq<nat>, k: nat, n: Node, ids: seq<nat>)
    requires Chain(items, anc, k, n, ids) && Built(items, n, ids)
    ensures n.path == PathOf(ids) && ParsePath(n.path) == ids
  {
    ParsePathOf(ids);
  }

  lemma DistinctAppend(a: seq<Node>, b: seq<Node>)
    requires DistinctIds(a) && DistinctIds(b)
    requires forall x, y :: x in a && y in b ==> x.item.id != y.item.id
    ensures DistinctIds(a + b)
  {
    var ab := a + b;
    forall i, j | 0 <= i < j < |ab| ensures ab[i].item.id != ab[j].item.id {
      if j < |a| {
        assert ab[i] == a[i] && ab[j] == a[j];
      } else if i >= |a| {
        assert ab[i] == b[i - |a|] && ab[j] == b[j - |a|];
      } else {
        assert ab[i] in a && ab[j] in b;
      }
    }
  }

  /** `xs` is a rooted chain ending at `x`'s row that passes row `k` at
      position `a`. */
  ghost predicate Through(items: seq<Item>, a: nat, k: nat, x: Node, xs: seq<nat>)
    requires k < |items|
  {
    RootedPath(items, xs) && |xs| > a && xs[a] == items[k].id && xs[|xs| - 1] == x.item.id
  }

  /** Two rooted chains that pass position `a` through different rows end
      at different rows. */
  lemma ChainsApart(items: seq<Item>, xs: seq<nat>, ys: seq<nat>, a: nat, k: nat, xid: int, yid: int)
    requires UniqueIds(items) && k < |items|
    requires RootedPath(items, xs) && RootedPath(items, ys) && |xs| > a && |ys| > a
    requires xs[a] == items[k].id && IndexOf(items, ys[a]) > k
    requires xs[|xs| - 1] == xid && ys[|ys| - 1] == yid
    ensures xid != yid
  {
    IndexOfAt(items, k);
    if xid == yid {
      RootedUnique(items, xs, ys);
    }
  }

  /** A node whose chain passes row `k` at position `|anc|` is not a node
      the scan finds after row `k`. */
  lemma LaterApart(items: seq<Item>, k: nat, anc: seq<nat>, x: Node, xs: seq<nat>, y: Node)
    requires UniqueIds(items) && k < |items| && Rooted(items, anc)
    requires Through(items, |anc|, k, x, xs)
    requires y in Preorder(Sub(items, k + 1, anc))
    ensures x.item.id != y.item.id
  {
    var ys := SubChain(items, k + 1, anc, y);
    ChainsApart(items, xs, ys, |anc|, k, x.item.id, y.item.id);
  }

  /** Row `k` is not inside its own subtree. */
  lemma KidsNotRow(items: seq<Item>, k: nat, anc: seq<nat>)
    requires UniqueIds(items) && k < |items| && RootedPath(items, anc + [items[k].id])
    ensures forall y :: y in Preorder(Sub(items, 0, anc + [items[k].id])) ==> y.item.id != items[k].id
  {
    var below := anc + [items[k].id];
    forall y | y in Preorder(Sub(items, 0, below)) ensures y.item.id != items[k].id {
      var ys := SubChain(items, 0, below, y);
      if y.item.id == items[k].id {
        assert below[|below| - 1] == items[k].id;
        RootedUnique(items, ys, below);
      }
    }
  }

  /** Row `k` is not among the rows the scan finds after it. */
  lemma NodeBeforeRest(items: seq<Item>, k: nat, anc: seq<nat>)
    requires UniqueIds(items) && k < |items| && Rooted(items, anc)
    requires RootedPath(items, anc + [items[k].id])
    ensures forall y :: y in Preorder(Sub(items, k + 1, anc)) ==> y.item.id != items[k].id
  {
    var below := anc + [items[k].id];
    forall y | y in Preorder(Sub(items, k + 1, anc)) ensures y.item.id != items[k].id {
      var x := MakeNode(items[k], |anc|, PathOf(below));
      assert Through(items, |anc|, k, x, below);
      LaterApart(items, k, anc, x, below, y);
    }
  }

  /** Row `k`'s subtree shares no row with what the scan finds after row
      `k`. */
  lemma KidsBeforeRest(items: seq<Item>, k: nat, anc: seq<nat>)
    requires UniqueIds(items) && k < |items| && Rooted(items, anc)
    requires RootedPath(items, anc + [items[k].id])
    ensures forall x, y ::
      (x in Preorder(Sub(items, 0, anc + [items[k].id])) && y in Preorder(Sub(items, k + 1, anc)))
      ==> x.item.id != y.item.id
  {
    var below := anc + [items[k].id];
    forall x, y | x in Preorder(Sub(items, 0, below)) && y in Preorder(Sub(items, k + 1, anc))
      ensures x.item.id != y.item.id
    {
      var xs := SubChain(items, 0, below, x);
      PrefixOfPrefix(xs, below, |anc|);
      assert Through(items, |anc|, k, x, xs);
      LaterApart(items, k, anc, x, xs, y);
    }
  }

  /** A node followed by two row-disjoint runs, neither holding its row. */
  lemma DistinctJoin(node: Node, kids: seq<Node>, rest: seq<Node>)
    requires DistinctIds(kids) && DistinctIds(rest)
    requires forall y :: y in kids ==> y.item.id != node.item.id
    requires forall y :: y in rest ==> y.item.id != node.item.id
    requires forall x, y :: x in kids && y in rest ==> x.item.id != y.item.id
    ensures DistinctIds([node] + kids + rest)
  {
    DistinctAppend([node], kids);
    DistinctAppend([node] + kids, rest);
  }

  lemma {:induction false} SubDistinct(items: seq<Item>, k: nat, anc: seq<nat>)
    requires UniqueIds(items) && k <= |items| && Rooted(items, anc)
    ensures DistinctIds(Preorder(Sub(items, k, anc)))
    decreases IdSet(items) - Elems(anc), |items| - k
  {
    if k < |items| {
      SubStep(items, k, anc);
      if items[k].parentId == ParentOf(anc) {
        var below := anc + [items[k].id];
        RootedExtend(items, anc, k);
        KidsNotRow(items, k, anc);
        NodeBeforeRest(items, k, anc);
        KidsBeforeRest(items, k, anc);
        SubDistinct(items, 0, below);
        SubDistinct(items, k + 1, anc);
        DistinctJoin(MakeNode(items[k], |anc|, PathOf(below)),
          Preorder(Sub(items, 0, below)), Preorder(Sub(items, k + 1, anc)));
      } else {
        SubDistinct(items, k + 1, anc);
      }
    }
  }

  lemma InSuffix(a: seq<Node>, b: seq<Node>, x: Node)
    requires x in b
    ensures x in a + b
  {
    var i :| 0 <= i < |b| && b[i] == x;
    assert (a + b)[|a| + i] == x;
  }

  lemma Regroup3(a: seq<Node>, b: seq<Node>, c: seq<Node>)
    ensures a + b + c == a + (b + c)
  {
  }

  /** Scanning from `k` reaches every child row at `m >= k` of the chain's
      last row, with its node and its whole subtree. */
  lemma {:induction false} SubContains(items: seq<Item>, k: nat, anc: seq<nat>, m: nat)
    requires UniqueIds(items) && Rooted(items, anc) && k <= m < |items|
    requires items[m].parentId == ParentOf(anc)
    ensures RootedPath(items, anc + [items[m].id])
    ensures MakeNode(items[m], |anc|, PathOf(anc + [items[m].id])) in Preorder(Sub(items, k, anc))
    ensures forall x :: x in Preorder(Sub(items, 0, anc + [items[m].id])) ==> x in Preorder(Sub(items, k, anc))
    decreases m - k
  {
    RootedExtend(items, anc, m);
    SubStep(items, k, anc);
    var here := Preorder(Sub(items, k, anc));
    var next := Preorder(Sub(items, k + 1, anc));
    var node := MakeNode(items[m], |anc|, PathOf(anc + [items[m].id]));
    var kids := Preorder(Sub(items, 0, anc + [items[m].id]));
    if k < m {
      SubContains(items, k + 1, anc, m);
      if items[k].parentId == ParentOf(anc) {
        var head := [MakeNode(items[k], |anc|, PathOf(anc + [items[k].id]))]
          + Preorder(Sub(items, 0, anc + [items[k].id]));
        assert here == head + next;
        InSuffix(head, next, node);
        forall x | x in kids ensures x in here {
          InSuffix(head, next, x);
        }
      }
    } else {
      Regroup3([node], kids, next);
      assert here == [node] + (kids + next);
      assert here[0] == node;
      forall x | x in kids ensures x in here {
        InSuffix([node], kids + next, x);
      }
    }
  }

  /** Every row whose ancestor chain reaches a root is in the flat tree,
      with the depth and path of that chain. */
  lemma {:induction false} Reachable(items: seq<Item>, ids: seq<nat>)
    requires UniqueIds(items) && RootedPath(items, ids)
    ensures forall x :: x in Preorder(Sub(items, 0, ids)) ==> x in Preorder(Forest(items))
    ensures MakeNode(Lookup(items, ids[|ids| - 1]).value, |ids| - 1, PathOf(ids)) in Preorder(Forest(items))
    decreases |ids|
  {
    var pre := ids[..|ids| - 1];
    var m := IndexOf(items, ids[|ids| - 1]);
    RootedLast(items, ids);
    assert ids == pre + [items[m].id];
    if |ids| == 1 {
      SubContains(items, 0, [], m);
    } else {
      RootedPrefix(items, ids, |ids| - 1);
      Reachable(items, pre);
      SubContains(items, 0, pre, m);
    }
  }

  /** A child's chain is its parent's chain extended by the child. */
  lemma ParentChain(items: seq<Item>, p: Node, ps: seq<nat>, c: Node, cs: seq<nat>)
    requires Chain(items, [], 0, p, ps) && Built(items, p, ps)
    requires Chain(items, [], 0, c, cs) && Built(items, c, cs)
    requires c.item.parentId == Some(p.item.id)
    ensures c.depth == p.depth + 1 && ps == cs[..|cs| - 1]
  {
    RootedLast(items, cs);
    RootedPrefix(items, cs, |cs| - 1);
    RootedUnique(items, ps, cs[..|cs| - 1]);
  }

  /** The chain of a flat-tree node, with just what depth and path need. */
  lemma NodeChain(items: seq<Item>, n: Node) returns (ids: seq<nat>)
    requires UniqueIds(items) && n in Preorder(Forest(items))
    ensures RootedPath(items, ids) && |ids| == n.depth + 1 && ids[n.depth] == n.item.id
    ensures n.path == PathOf(ids) && ParsePath(n.path) == ids
    ensures Lookup(items, n.item.id) == Some(n.item)
  {
    ids := SubChain(items, 0, [], n);
    ChainIsPath(items, [], 0, n, ids);
  }

  /** Depth and path of a flat-tree node: the path splits into depth + 1
      ids ending with the node's own; a root sits at depth 0 with its id as
      path, and any other node below it. */
  lemma NodePath(items: seq<Item>, n: Node)
    requires UniqueIds(items) && n in Preorder(Forest(items))
    ensures |ParsePath(n.path)| == n.depth + 1 && ParsePath(n.path)[n.depth] == n.item.id
    ensures n.item.parentId == None <==> n.depth == 0
    ensures n.item.parentId == None ==> n.path == NatStr(n.item.id)
  {
    var ids := NodeChain(items, n);
    RootedLast(items, ids);
    if |ids| == 1 {
      assert PathOf(ids) == NatStr(ids[0]);
    }
  }

  /** A child node sits one level below its parent, and its path is the
      parent's path, a dot and its own id. */
  lemma ChildPath(items: seq<Item>, p: Node, c: Node)
    requires UniqueIds(items)
    requires p in Preorder(Forest(items)) && c in Preorder(Forest(items))
    requires c.item.parentId == Some(p.item.id)
    ensures c.depth == p.depth + 1
    ensures c.path == p.path + "." + NatStr(c.item.id)
  {
    var ps := NodeChain(items, p);
    var cs := NodeChain(items, c);
    ChainSnoc(items, ps, cs);
    assert Lookup(items, ps[0]).Some?;
    PathOfSnoc(ps, c.item.id);
  }

  /** A rooted chain whose last row hangs below the last row of another
      rooted chain extends that chain by one id. */
  lemma ChainSnoc(items: seq<Item>, ps: seq<nat>, cs: seq<nat>)
    requires RootedPath(items, ps) && RootedPath(items, cs)
    requires Lookup(items, cs[|cs| - 1]).value.parentId == Some(ps[|ps| - 1])
    ensures cs == ps + [cs[|cs| - 1]]
  {
    RootedLast(items, cs);
    RootedPrefix(items, cs, |cs| - 1);
    RootedUnique(items, ps, cs[..|cs| - 1]);
    assert cs == cs[..|cs| - 1] + [cs[|cs| - 1]];
  }

  /** The flat tree of a menu's rows: every node has a chain and is its
      row's record, no row appears twice, and parent and child are one level
      apart. */
  lemma FlatWellFormed(items: seq<Item>)
    requires UniqueIds(items)
    ensures forall n :: n in Preorder(Forest(items)) ==>
      exists ids :: Chain(items, [], 0, n, ids) && Built(items, n, ids)
    ensures DistinctIds(Preorder(Forest(items)))
    ensures Layered(Preorder(Forest(items)))
  {
    var flat := Preorder(Forest(items));
    forall n | n in flat ensures exists ids :: Chain(items, [], 0, n, ids) && Built(items, n, ids) {
      var ids := SubChain(items, 0, [], n);
    }
    SubDistinct(items, 0, []);
    forall i, j | 0 <= i < |flat| && 0 <= j < |flat| && flat[j].item.parentId == Some(flat[i].item.id)
      ensures flat[j].depth == flat[i].depth + 1
    {
      var ps := SubChain(items, 0, [], flat[i]);
      var cs := SubChain(items, 0, [], flat[j]);
      ParentChain(items, flat[i], ps, flat[j], cs);
    }
  }

  /** The trees come from rows at position `lo` or later, in row order,
      each node carrying its own row, and so do the children of each tree,
      at every level. */
  ghost predicate InRowOrder(items: seq<Item>, ts: seq<Tree>, lo: nat)
    decreases ts
  {
    ts == [] ||
    (var i := IndexOf(items, ts[0].node.item.id);
     && lo <= i < |items| && items[i] == ts[0].node.item
     && InRowOrder(items, ts[0].children, 0) && InRowOrder(items, ts[1..], i + 1))
  }

  /** The trees the scan builds from row `k` on keep row order and start at
      row `k` or later. */
  lemma {:induction false} SubInRowOrder(items: seq<Item>, k: nat, anc: seq<nat>)
    requires UniqueIds(items) && k <= |items| && Rooted(items, anc)
    ensures InRowOrder(items, Sub(items, k, anc), k)
    decreases IdSet(items) - Elems(anc), |items| - k
  {
    if k < |items| {
      SubInRowOrder(items, k + 1, anc);
      if items[k].parentId == ParentOf(anc) {
        RootedExtend(items, anc, k);
        var below := anc + [items[k].id];
        SubInRowOrder(items, 0, below);
        IndexOfAt(items, k);
        var t := Tree(MakeNode(items[k], |anc|, PathOf(below)), Sub(items, 0, below));
        var rest := Sub(items, k + 1, anc);
        assert Sub(items, k, anc) == [t] + rest;
        assert ([t] + rest)[1..] == rest;
      }
    }
  }

  /** Rows in ascending `sort` order, as the store returns them. */
  predicate SortedRows(items: seq<Item>) {
    forall i, j :: 0 <= i < j < |items| ==> items[i].sort <= items[j].sort
  }

  /** At every level, each sibling's `sort` is at most the next one's. */
  ghost predicate SortedSiblings(ts: seq<Tree>)
    decreases ts
  {
    ts == [] ||
    (&& (|ts| > 1 ==> ts[0].node.item.sort <= ts[1].node.item.sort)
     && SortedSiblings(ts[0].children) && SortedSiblings(ts[1..]))
  }

  lemma {:induction false} RowOrderSorted(items: seq<Item>, ts: seq<Tree>, lo: nat)
    requires SortedRows(items) && InRowOrder(items, ts, lo)
    ensures SortedSiblings(ts)
    decreases ts
  {
    if ts != [] {
      RowOrderSorted(items, ts[0].children, 0);
      RowOrderSorted(items, ts[1..], IndexOf(items, ts[0].node.item.id) + 1);
      if |ts| > 1 {
        assert ts[1..][0] == ts[1];
      }
    }
  }

  /** Sorted rows give a forest whose siblings are sorted at every level. */
  lemma ForestSorted(items: seq<Item>)
    requires UniqueIds(items) && SortedRows(items)
    ensures SortedSiblings(Forest(items))
  {
    SubInRowOrder(items, 0, []);
    RowOrderSorted(items, Forest(items), 0);
  }
}
