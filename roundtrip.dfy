/** `buildTree` undoes the flattening: nesting the flat tree of a menu by
    `parent_id` gives back the forest the recursive scan walked. The proof
    goes through general facts about a forest whose every node names its
    tree parent in `parent_id`, and applies them to the scan's forest. */
module RoundTrip {
  import opened Wrappers
  import opened MenuTypes
  import opened Flattener
  import opened FlatTheory
  import opened Assembler

  /** The top nodes of a forest, in order. */
  function Heads(ts: seq<Tree>): (r: seq<Node>)
    ensures |r| == |ts| && forall i :: 0 <= i < |ts| ==> r[i] == ts[i].node
  {
    if ts == [] then [] else [ts[0].node] + Heads(ts[1..])
  }

  /** Every tree of the forest, each before the trees inside it. */
  function Subtrees(ts: seq<Tree>): seq<Tree>
    decreases ts
  {
    if ts == [] then [] else [ts[0]] + Subtrees(ts[0].children) + Subtrees(ts[1..])
  }

  /** Every top node's parent key is `p`, and every child's parent key is
      the id of the node above it. */
  ghost predicate Linked(ts: seq<Tree>, p: Option<int>)
    decreases ts
  {
    ts == [] ||
    (ParentKey(ts[0].node) == p && Linked(ts[0].children, Some(ts[0].node.item.id)) && Linked(ts[1..], p))
  }

  /** The child lists of the node with the id `x`, wherever it sits in the
      forest. */
  function Below(ts: seq<Tree>, x: int): seq<Node>
    decreases ts
  {
    if ts == [] then []
    else
      (if ts[0].node.item.id == x then Heads(ts[0].children) else [])
      + Below(ts[0].children, x) + Below(ts[1..], x)
  }

  ghost predicate Absent(nodes: seq<Node>, x: int) {
    forall n :: n in nodes ==> n.item.id != x
  }

  lemma {:induction false} PreorderCons(ts: seq<Tree>)
    requires ts != []
    ensures Preorder(ts) == [ts[0].node] + Preorder(ts[0].children) + Preorder(ts[1..])
  {
  }

  lemma {:induction false} KidsOfAppend(a: seq<Node>, b: seq<Node>, x: int)
    ensures KidsOf(a + b, x) == KidsOf(a, x) + KidsOf(b, x)
    decreases |b|
  {
    if b != [] {
      var init := b[..|b| - 1];
      assert a + b == (a + init) + [b[|b| - 1]];
      assert b == init + [b[|b| - 1]];
      KidsOfSnoc(a + init, b[|b| - 1], x);
      KidsOfSnoc(init, b[|b| - 1], x);
      KidsOfAppend(a, init, x);
    } else {
      assert a + b == a;
    }
  }

  lemma {:induction false} RootsOfAppend(keys: set<int>, a: seq<Node>, b: seq<Node>)
    ensures RootsOf(keys, a + b) == RootsOf(keys, a) + RootsOf(keys, b)
    decreases |b|
  {
    if b != [] {
      var init := b[..|b| - 1];
      assert a + b == (a + init) + [b[|b| - 1]];
      assert b == init + [b[|b| - 1]];
      RootsOfSnoc(keys, a + init, b[|b| - 1]);
      RootsOfSnoc(keys, init, b[|b| - 1]);
      RootsOfAppend(keys, a, init);
    } else {
      assert a + b == a;
    }
  }

  /** The two parts of a non-empty forest's pre-order below its top node
      keep distinct ids. */
  lemma {:induction false} DistinctParts(ts: seq<Tree>)
    requires ts != [] && DistinctIds(Preorder(ts))
    ensures DistinctIds(Preorder(ts[0].children)) && DistinctIds(Preorder(ts[1..]))
  {
    PreorderCons(ts);
    var a := Preorder(ts[0].children);
    var b := Preorder(ts[1..]);
    var all := [ts[0].node] + a + b;
    assert a == all[1..1 + |a|] && b == all[1 + |a|..];
    DistinctSlice(all, 1, 1 + |a|);
    DistinctSlice(all, 1 + |a|, |all|);
  }

  lemma DistinctSlice(nodes: seq<Node>, lo: nat, hi: nat)
    requires lo <= hi <= |nodes| && DistinctIds(nodes)
    ensures DistinctIds(nodes[lo..hi])
  {
    forall i, j | 0 <= i < j < hi - lo ensures nodes[lo..hi][i].item.id != nodes[lo..hi][j].item.id {
      assert nodes[lo..hi][i] == nodes[lo + i] && nodes[lo..hi][j] == nodes[lo + j];
    }
  }

  /** The top node's id occurs nowhere else in the forest's pre-order. */
  lemma {:induction false} TopAbsent(ts: seq<Tree>)
    requires ts != [] && DistinctIds(Preorder(ts))
    ensures Absent(Preorder(ts[0].children), ts[0].node.item.id)
    ensures Absent(Preorder(ts[1..]), ts[0].node.item.id)
  {
    PreorderCons(ts);
    var a := Preorder(ts[0].children);
    var b := Preorder(ts[1..]);
    var all := [ts[0].node] + a + b;
    forall n | n in a ensures n.item.id != ts[0].node.item.id {
      var i :| 0 <= i < |a| && a[i] == n;
      assert all[0] == ts[0].node && all[1 + i] == n;
    }
    forall n | n in b ensures n.item.id != ts[0].node.item.id {
      var i :| 0 <= i < |b| && b[i] == n;
      assert all[0] == ts[0].node && all[1 + |a| + i] == n;
    }
  }

  /** No id of the tree `ts[0]` occurs in the rest of the forest. */
  lemma {:induction false} DistinctApart(ts: seq<Tree>, n: Node)
    requires ts != [] && DistinctIds(Preorder(ts))
    requires n in TreePreorder(ts[0])
    ensures Absent(Preorder(ts[1..]), n.item.id)
  {
    var a := TreePreorder(ts[0]);
    var b := Preorder(ts[1..]);
    assert Preorder(ts) == a + b;
    var i :| 0 <= i < |a| && a[i] == n;
    forall m | m in b ensures m.item.id != n.item.id {
      var j :| 0 <= j < |b| && b[j] == m;
      assert (a + b)[i] == n && (a + b)[|a| + j] == m;
    }
  }

  lemma {:induction false} BelowAbsent(ts: seq<Tree>, x: int)
    requires Absent(Preorder(ts), x)
    ensures Below(ts, x) == []
    decreases ts
  {
    if ts != [] {
      PreorderCons(ts);
      BelowAbsent(ts[0].children, x);
      BelowAbsent(ts[1..], x);
    }
  }

  /** A subtree's node is a node of the forest's pre-order. */
  lemma {:induction false} SubtreeNode(ts: seq<Tree>, s: Tree)
    requires s in Subtrees(ts)
    ensures s.node in Preorder(ts)
    decreases ts
  {
    PreorderCons(ts);
    if s != ts[0] {
      if s in Subtrees(ts[0].children) {
        SubtreeNode(ts[0].children, s);
      } else {
        SubtreeNode(ts[1..], s);
      }
    }
  }

  /** Each tree of a forest is one of its subtrees. */
  lemma {:induction false} TopSubtree(ts: seq<Tree>, i: nat)
    requires i < |ts|
    ensures ts[i] in Subtrees(ts)
    decreases i
  {
    if i > 0 {
      TopSubtree(ts[1..], i - 1);
    }
  }

  /** The subtrees of a subtree's children are subtrees of the forest. */
  lemma {:induction false} SubtreesClosed(ts: seq<Tree>, s: Tree, u: Tree)
    requires s in Subtrees(ts) && u in Subtrees(s.children)
    ensures u in Subtrees(ts)
    decreases ts
  {
    if s != ts[0] {
      if s in Subtrees(ts[0].children) {
        SubtreesClosed(ts[0].children, s, u);
      } else {
        SubtreesClosed(ts[1..], s, u);
      }
    }
  }

  /** The child list for `x` over a non-empty forest's pre-order, part by
      part. */
  lemma {:induction false} KidsCons(ts: seq<Tree>, x: int)
    requires ts != []
    ensures KidsOf(Preorder(ts), x) ==
      (if ParentKey(ts[0].node) == Some(x) then [ts[0].node] else [])
      + KidsOf(Preorder(ts[0].children), x) + KidsOf(Preorder(ts[1..]), x)
  {
    var t := ts[0];
    PreorderCons(ts);
    KidsOfAppend([t.node] + Preorder(t.children), Preorder(ts[1..]), x);
    KidsOfAppend([t.node], Preorder(t.children), x);
    KidsOfSnoc([], t.node, x);
    assert [] + [t.node] == [t.node];
  }

  /** The top level over a non-empty forest's pre-order, part by part. */
  lemma {:induction false} RootsCons(keys: set<int>, ts: seq<Tree>)
    requires ts != []
    ensures RootsOf(keys, Preorder(ts)) ==
      (if IsRoot(keys, ts[0].node) then [ts[0].node] else [])
      + RootsOf(keys, Preorder(ts[0].children)) + RootsOf(keys, Preorder(ts[1..]))
  {
    var t := ts[0];
    PreorderCons(ts);
    RootsOfAppend(keys, [t.node] + Preorder(t.children), Preorder(ts[1..]));
    RootsOfAppend(keys, [t.node], Preorder(t.children));
    RootsOfSnoc(keys, [], t.node);
    assert [] + [t.node] == [t.node];
  }

  /** A forest clear of the id `x` has no node with id `x` in any part. */
  lemma {:induction false} AbsentParts(ts: seq<Tree>, x: int)
    requires ts != [] && Absent(Preorder(ts), x)
    ensures ts[0].node.item.id != x
    ensures Absent(Preorder(ts[0].children), x) && Absent(Preorder(ts[1..]), x)
  {
    PreorderCons(ts);
    assert ts[0].node in Preorder(ts);
  }

  /** Over a forest hung below the node with id `x` and clear of `x`, the
      child list the second loop of `buildTree` builds for `x` is the
      forest's top level. */
  lemma {:induction false} KidsUnder(ts: seq<Tree>, x: int)
    requires Linked(ts, Some(x)) && DistinctIds(Preorder(ts)) && Absent(Preorder(ts), x)
    ensures KidsOf(Preorder(ts), x) == Heads(ts)
    decreases ts, 0
  {
    if ts != [] {
      var t := ts[0];
      DistinctParts(ts);
      AbsentParts(ts, x);
      KidsElse(t.children, Some(t.node.item.id), x);
      BelowAbsent(t.children, x);
      KidsUnder(ts[1..], x);
      KidsUnderStep(ts, x);
    }
  }

  /** The step of `KidsUnder`: the parts' child lists put together. */
  lemma {:induction false} KidsUnderStep(ts: seq<Tree>, x: int)
    requires ts != [] && Linked(ts, Some(x))
    requires KidsOf(Preorder(ts[0].children), x) == []
    requires KidsOf(Preorder(ts[1..]), x) == Heads(ts[1..])
    ensures KidsOf(Preorder(ts), x) == Heads(ts)
  {
    var t := ts[0];
    assert ParentKey(t.node) == Some(x);
    KidsCons(ts, x);
    assert Heads(ts) == [t.node] + Heads(ts[1..]);
    DropMiddle(KidsOf(Preorder(ts), x), [t.node], KidsOf(Preorder(t.children), x), KidsOf(Preorder(ts[1..]), x));
  }

  /** Over a forest hung below anything other than `x`, the child list for
      `x` is the children of the node with id `x`, wherever it sits. */
  lemma {:induction false} KidsElse(ts: seq<Tree>, p: Option<int>, x: int)
    requires Linked(ts, p) && DistinctIds(Preorder(ts)) && p != Some(x)
    ensures KidsOf(Preorder(ts), x) == Below(ts, x)
    decreases ts, 1
  {
    if ts != [] {
      var t := ts[0];
      DistinctParts(ts);
      if t.node.item.id == x {
        TopAbsent(ts);
        KidsUnder(t.children, x);
        BelowAbsent(t.children, x);
      } else {
        KidsElse(t.children, Some(t.node.item.id), x);
      }
      KidsElse(ts[1..], p, x);
      KidsElseStep(ts, p, x);
    }
  }

  /** The step of `KidsElse`: the parts' child lists put together. */
  lemma {:induction false} KidsElseStep(ts: seq<Tree>, p: Option<int>, x: int)
    requires ts != [] && Linked(ts, p) && p != Some(x)
    requires KidsOf(Preorder(ts[0].children), x) ==
      (if ts[0].node.item.id == x then Heads(ts[0].children) else []) + Below(ts[0].children, x)
    requires KidsOf(Preorder(ts[1..]), x) == Below(ts[1..], x)
    ensures KidsOf(Preorder(ts), x) == Below(ts, x)
  {
    var t := ts[0];
    assert ParentKey(t.node) != Some(x);
    KidsCons(ts, x);
    Regroup4(KidsOf(Preorder(ts), x), [],
      if t.node.item.id == x then Heads(t.children) else [], Below(t.children, x), Below(ts[1..], x));
  }

  lemma Regroup4<T>(r: seq<T>, h: seq<T>, c: seq<T>, a: seq<T>, b: seq<T>)
    requires h == [] && r == h + (c + a) + b
    ensures r == c + a + b
  {
  }

  /** The top level the second loop builds is the forest's top level, when
      the forest's parent key is falsy or no node's id. */
  lemma {:induction false} RootsForest(keys: set<int>, ts: seq<Tree>, p: Option<int>)
    requires Linked(ts, p)
    requires forall n :: n in Preorder(ts) ==> n.item.id in keys
    ensures RootsOf(keys, Preorder(ts)) == if p.None? || p.value !in keys then Heads(ts) else []
    decreases ts
  {
    if ts != [] {
      var t := ts[0];
      PreorderCons(ts);
      assert t.node in Preorder(ts);
      RootsForest(keys, t.children, Some(t.node.item.id));
      RootsForest(keys, ts[1..], p);
      RootsForestStep(keys, ts, p);
    }
  }

  /** The step of `RootsForest`: the parts' top levels put together. */
  lemma {:induction false} RootsForestStep(keys: set<int>, ts: seq<Tree>, p: Option<int>)
    requires ts != [] && Linked(ts, p)
    requires RootsOf(keys, Preorder(ts[0].children)) == []
    requires RootsOf(keys, Preorder(ts[1..])) == if p.None? || p.value !in keys then Heads(ts[1..]) else []
    ensures RootsOf(keys, Preorder(ts)) == if p.None? || p.value !in keys then Heads(ts) else []
  {
    var t := ts[0];
    assert IsRoot(keys, t.node) <==> p.None? || p.value !in keys;
    RootsCons(keys, ts);
    assert Heads(ts) == [t.node] + Heads(ts[1..]);
    DropMiddle(RootsOf(keys, Preorder(ts)), if IsRoot(keys, t.node) then [t.node] else [],
      RootsOf(keys, Preorder(t.children)), RootsOf(keys, Preorder(ts[1..])));
  }

  lemma DropMiddle<T>(r: seq<T>, a: seq<T>, b: seq<T>, c: seq<T>)
    requires b == [] && r == a + b + c
    ensures r == a + c
  {
  }

  /** The node with a subtree's id has that subtree's children below it. */
  lemma {:induction false} BelowAt(ts: seq<Tree>, s: Tree)
    requires s in Subtrees(ts) && DistinctIds(Preorder(ts))
    ensures Below(ts, s.node.item.id) == Heads(s.children)
    decreases ts
  {
    var x := s.node.item.id;
    var t := ts[0];
    DistinctParts(ts);
    if s == t {
      TopAbsent(ts);
      BelowAbsent(t.children, x);
      BelowAbsent(ts[1..], x);
    } else if s in Subtrees(t.children) {
      TopAbsent(ts);
      SubtreeNode(t.children, s);
      assert s.node in TreePreorder(t);
      DistinctApart(ts, s.node);
      BelowAt(t.children, s);
      BelowAbsent(ts[1..], x);
    } else {
      SubtreeNode(ts[1..], s);
      BelowAt(ts[1..], s);
      assert Absent(TreePreorder(t), x) by {
        forall n | n in TreePreorder(t) ensures n.item.id != x {
          DistinctApart(ts, n);
        }
      }
      BelowAbsent(t.children, x);
    }
  }

  /** Child lists that hold, for every subtree, its children's nodes. */
  ghost predicate KidsFit(kids: map<int, seq<Node>>, ts: seq<Tree>) {
    forall u :: u in Subtrees(ts) ==> u.node.item.id in kids && kids[u.node.item.id] == Heads(u.children)
  }

  /** Reading the object graph off from such child lists gives back each
      subtree. */
  lemma {:induction false} NestSubtree(nodes: seq<Node>, kids: map<int, seq<Node>>, ts: seq<Tree>, s: Tree)
    requires KidsLayered(nodes, kids) && KidsFit(kids, ts)
    requires forall u :: u in Subtrees(ts) ==> u.node in nodes
    requires s in Subtrees(ts)
    ensures Nest(nodes, kids, s.node) == s
    decreases s
  {
    var cs := kids[s.node.item.id];
    assert cs == Heads(s.children);
    forall i | 0 <= i < |cs| ensures Nest(nodes, kids, cs[i]) == s.children[i] {
      TopSubtree(s.children, i);
      SubtreesClosed(ts, s, s.children[i]);
      NestSubtree(nodes, kids, ts, s.children[i]);
    }
  }

  /** Nesting the pre-order of a linked forest with distinct ids gives the
      forest back. */
  lemma {:induction false} LinkedRoundTrip(ts: seq<Tree>)
    requires Linked(ts, None) && DistinctIds(Preorder(ts)) && Layered(Preorder(ts))
    ensures Assembled(Preorder(ts)) == ts
  {
    var flat := Preorder(ts);
    var keys := IdsOf(flat);
    var kids := KidsMap(flat);
    RootsForest(keys, ts, None);
    KidsMapLayered(flat);
    forall u | u in Subtrees(ts) ensures u.node in flat {
      SubtreeNode(ts, u);
    }
    forall u | u in Subtrees(ts) ensures u.node.item.id in kids && kids[u.node.item.id] == Heads(u.children) {
      SubtreeNode(ts, u);
      KidsElse(ts, None, u.node.item.id);
      BelowAt(ts, u);
    }
    var r := Assembled(flat);
    forall i | 0 <= i < |ts| ensures r[i] == ts[i] {
      TopSubtree(ts, i);
      NestSubtree(flat, kids, ts, ts[i]);
    }
  }

  /** The scan's forest is linked: each top tree's row names the chain's
      last id as parent, and each child names its tree parent. */
  lemma {:induction false} SubLinked(items: seq<Item>, k: nat, anc: seq<nat>)
    requires UniqueIds(items) && k <= |items| && Rooted(items, anc)
    ensures Linked(Sub(items, k, anc), ParentOf(anc))
    decreases IdSet(items) - Elems(anc), |items| - k
  {
    if k < |items| {
      if items[k].parentId == ParentOf(anc) {
        RootedExtend(items, anc, k);
        var below := anc + [items[k].id];
        if anc != [] {
          assert Lookup(items, anc[|anc| - 1]).Some?;
        }
        SubLinked(items, 0, below);
        SubLinked(items, k + 1, anc);
      } else {
        SubLinked(items, k + 1, anc);
      }
    }
  }

  /** `buildTree(getFlatTree(...))` is the forest of the menu's rows. */
  lemma {:induction false} FlatRoundTrip(items: seq<Item>)
    requires UniqueIds(items)
    ensures Layered(Preorder(Forest(items)))
    ensures Assembled(Preorder(Forest(items))) == Forest(items)
  {
    SubLinked(items, 0, []);
    FlatWellFormed(items);
    LinkedRoundTrip(Forest(items));
  }

  /** On the flat tree it is given, `buildTree` places every node exactly
      once and keeps the input order: the pre-order of the forest it builds
      is its input. */
  lemma BuildTreePartition(items: seq<Item>)
    requires UniqueIds(items)
    ensures Layered(Preorder(Forest(items)))
    ensures Preorder(Assembled(Preorder(Forest(items)))) == Preorder(Forest(items))
  {
    FlatRoundTrip(items);
  }

  /** Every tree inside a nested forest is the nesting of its own node. */
  lemma {:induction false} NestedSubtree(nodes: seq<Node>, kids: map<int, seq<Node>>, cs: seq<Node>, u: Tree)
    requires KidsLayered(nodes, kids) && forall c :: c in cs ==> c in nodes
    requires u in Subtrees(NestAll(nodes, kids, cs))
    ensures u.node in nodes && u == Nest(nodes, kids, u.node)
    decreases NestAll(nodes, kids, cs)
  {
    var ts := NestAll(nodes, kids, cs);
    assert Subtrees(ts) == [ts[0]] + Subtrees(ts[0].children) + Subtrees(ts[1..]);
    if u != ts[0] {
      if u in Subtrees(ts[0].children) {
        var c := cs[0];
        var ks := if c.item.id in kids then kids[c.item.id] else [];
        assert ts[0].children == NestAll(nodes, kids, ks);
        NestedSubtree(nodes, kids, ks, u);
      } else {
        assert ts[1..] == NestAll(nodes, kids, cs[1..]);
        NestedSubtree(nodes, kids, cs[1..], u);
      }
    }
  }

  /** On any input, `buildTree`'s top level is the nodes whose parent key is
      falsy or names no node of the input, in input order, and the children
      of every node are the nodes naming it as parent, in input order. */
  lemma AssembledShape(nodes: seq<Node>)
    requires Layered(nodes)
    ensures Heads(Assembled(nodes)) == RootsOf(IdsOf(nodes), nodes)
    ensures forall u :: u in Subtrees(Assembled(nodes)) ==>
      u.node in nodes && Heads(u.children) == KidsOf(nodes, u.node.item.id)
  {
    var kids := KidsMap(nodes);
    KidsMapLayered(nodes);
    RootsIn(IdsOf(nodes), nodes);
    var roots := RootsOf(IdsOf(nodes), nodes);
    forall u | u in Subtrees(Assembled(nodes))
      ensures u.node in nodes && Heads(u.children) == KidsOf(nodes, u.node.item.id)
    {
      NestedSubtree(nodes, kids, roots, u);
      NestHeads(nodes, kids, u.node);
      assert u.node.item.id in IdsOf(nodes);
    }
  }

  /** The children of a nested node are its child list's nodes. */
  lemma NestHeads(nodes: seq<Node>, kids: map<int, seq<Node>>, n: Node)
    requires KidsLayered(nodes, kids) && n in nodes
    ensures Heads(Nest(nodes, kids, n).children) == if n.item.id in kids then kids[n.item.id] else []
  {
    var cs := if n.item.id in kids then kids[n.item.id] else [];
    var hs := Heads(Nest(nodes, kids, n).children);
    assert |hs| == |cs|;
    forall i | 0 <= i < |cs| ensures hs[i] == cs[i] {
      assert Nest(nodes, kids, n).children[i] == Nest(nodes, kids, cs[i]);
    }
  }
}
