/** `buildTree`: nests a flat, pre-ordered list of nodes by their
    `parent_id` links. The source links PHP objects by reference; the model
    computes the same `$map` and `children` lists and then reads the
    resulting object graph off as a value forest. */
module Assembler {
  import opened Wrappers
  import opened MenuTypes

  /** `$item->parent_id` when it is truthy: absent and `0` are not. */
  function ParentKey(n: Node): (r: Option<int>)
    ensures r.Some? ==> r.value != 0 && n.item.parentId == r
    ensures r.None? ==> n.item.parentId.None? || n.item.parentId == Some(0)
  {
    if n.item.parentId.Some? && n.item.parentId.value != 0 then n.item.parentId else None
  }

  /** The keys of `$map`. */
  function IdsOf(nodes: seq<Node>): set<int> {
    set n | n in nodes :: n.item.id
  }

  lemma IdsOfSnoc(nodes: seq<Node>, n: Node)
    ensures IdsOf(nodes + [n]) == IdsOf(nodes) + {n.item.id}
  {
    assert forall m :: m in nodes + [n] <==> m in nodes || m == n;
  }

  /** A node goes to the top level when its parent key is falsy or names
      no node of the list. */
  predicate IsRoot(keys: set<int>, n: Node) {
    ParentKey(n).None? || ParentKey(n).value !in keys
  }

  /** The nodes of `nodes` hung below the id, in list order. */
  function KidsOf(nodes: seq<Node>, id: int): seq<Node> {
    if nodes == [] then []
    else
      var init := nodes[..|nodes| - 1];
      var last := nodes[|nodes| - 1];
      assert nodes == init + [last];
      KidsOf(init, id) + if ParentKey(last) == Some(id) then [last] else []
  }

  /** The nodes of `nodes` that go to the top level of `all`, in list
      order. */
  function RootsOf(keys: set<int>, nodes: seq<Node>): seq<Node> {
    if nodes == [] then []
    else
      var init := nodes[..|nodes| - 1];
      var last := nodes[|nodes| - 1];
      assert nodes == init + [last];
      RootsOf(keys, init) + if IsRoot(keys, last) then [last] else []
  }

  /** A child list holds exactly the nodes that name the id as parent. */
  lemma {:induction false} KidsOfIn(nodes: seq<Node>, id: int, c: Node)
    ensures c in KidsOf(nodes, id) <==> c in nodes && ParentKey(c) == Some(id)
    decreases |nodes|
  {
    if nodes != [] {
      var init := nodes[..|nodes| - 1];
      assert nodes == init + [nodes[|nodes| - 1]];
      KidsOfIn(init, id, c);
    }
  }

  /** The top level holds exactly the nodes that go to the top level. */
  lemma {:induction false} RootsOfIn(keys: set<int>, nodes: seq<Node>, c: Node)
    ensures c in RootsOf(keys, nodes) <==> c in nodes && IsRoot(keys, c)
    decreases |nodes|
  {
    if nodes != [] {
      var init := nodes[..|nodes| - 1];
      assert nodes == init + [nodes[|nodes| - 1]];
      RootsOfIn(keys, init, c);
    }
  }

  /** `$map[$id]->children` once the second loop is done, for every id of
      the list. */
  function KidsMap(nodes: seq<Node>): map<int, seq<Node>> {
    map id | id in IdsOf(nodes) :: KidsOf(nodes, id)
  }

  function MaxDepth(nodes: seq<Node>): (d: nat)
    ensures forall n :: n in nodes ==> n.depth <= d
  {
    if nodes == [] then 0
    else
      var d := MaxDepth(nodes[1..]);
      assert forall n :: n in nodes[1..] ==> n in nodes;
      if nodes[0].depth > d then nodes[0].depth else d
  }

  lemma KidsMapEq(nodes: seq<Node>, kids: map<int, seq<Node>>)
    requires kids.Keys == IdsOf(nodes)
    requires forall id :: id in kids ==> kids[id] == KidsOf(nodes, id)
    ensures kids == KidsMap(nodes)
  {
    var m := KidsMap(nodes);
    assert kids.Keys == m.Keys;
    forall id | id in kids ensures kids[id] == m[id] {
    }
  }

  /** Every child list names nodes of the list one level below the parent. */
  ghost predicate KidsLayered(nodes: seq<Node>, kids: map<int, seq<Node>>) {
    forall n, c :: n in nodes && n.item.id in kids && c in kids[n.item.id] ==> c in nodes && c.depth == n.depth + 1
  }

  /** The subtree the object graph holds below node `n`. */
  function Nest(nodes: seq<Node>, kids: map<int, seq<Node>>, n: Node): Tree
    requires n in nodes && KidsLayered(nodes, kids)
    decreases MaxDepth(nodes) - n.depth
  {
    var cs := if n.item.id in kids then kids[n.item.id] else [];
    Tree(n, seq(|cs|, i requires 0 <= i < |cs| => Nest(nodes, kids, cs[i])))
  }

  function NestAll(nodes: seq<Node>, kids: map<int, seq<Node>>, cs: seq<Node>): (r: seq<Tree>)
    requires KidsLayered(nodes, kids) && forall c :: c in cs ==> c in nodes
    ensures |r| == |cs| && forall i :: 0 <= i < |cs| ==> r[i] == Nest(nodes, kids, cs[i])
  {
    seq(|cs|, i requires 0 <= i < |cs| => Nest(nodes, kids, cs[i]))
  }

  /** A node in another's child list is one level below it. */
  lemma KidsLink(nodes: seq<Node>, n: Node, c: Node)
    requires Layered(nodes) && n in nodes && c in KidsOf(nodes, n.item.id)
    ensures c in nodes && c.depth == n.depth + 1
  {
    KidsOfIn(nodes, n.item.id, c);
    var i :| 0 <= i < |nodes| && nodes[i] == n;
    var j :| 0 <= j < |nodes| && nodes[j] == c;
  }

  /** The top level holds nodes of the list only. */
  lemma RootsIn(keys: set<int>, nodes: seq<Node>)
    ensures forall c :: c in RootsOf(keys, nodes) ==> c in nodes
  {
    forall c | c in RootsOf(keys, nodes) ensures c in nodes {
      RootsOfIn(keys, nodes, c);
    }
  }

  /** Child lists that are those of the list are one level below their
      parent. */
  lemma KidsOfLayered(nodes: seq<Node>, kids: map<int, seq<Node>>)
    requires Layered(nodes)
    requires forall id :: id in kids ==> kids[id] == KidsOf(nodes, id)
    ensures KidsLayered(nodes, kids)
  {
    forall n, c | n in nodes && n.item.id in kids && c in kids[n.item.id]
      ensures c in nodes && c.depth == n.depth + 1
    {
      KidsLink(nodes, n, c);
    }
  }

  lemma KidsMapLayered(nodes: seq<Node>)
    requires Layered(nodes)
    ensures KidsLayered(nodes, KidsMap(nodes))
  {
    var m := KidsMap(nodes);
    assert forall id :: id in m ==> m[id] == KidsOf(nodes, id);
    KidsOfLayered(nodes, m);
  }

  /** What `buildTree` returns: the top-level nodes, each with the nodes
      hung below it, recursively. */
  function Assembled(nodes: seq<Node>): seq<Tree>
    requires Layered(nodes)
  {
    KidsMapLayered(nodes);
    RootsIn(IdsOf(nodes), nodes);
    NestAll(nodes, KidsMap(nodes), RootsOf(IdsOf(nodes), nodes))
  }

  lemma KidsOfSnoc(nodes: seq<Node>, n: Node, id: int)
    ensures KidsOf(nodes + [n], id) == KidsOf(nodes, id) + if ParentKey(n) == Some(id) then [n] else []
  {
    assert (nodes + [n])[..|nodes|] == nodes;
  }

  lemma RootsOfSnoc(keys: set<int>, nodes: seq<Node>, n: Node)
    ensures RootsOf(keys, nodes + [n]) == RootsOf(keys, nodes) + if IsRoot(keys, n) then [n] else []
  {
    assert (nodes + [n])[..|nodes|] == nodes;
  }

  /** One more node of the list extends the child list of its parent key,
      and no other. */
  lemma KidsStep(items: seq<Node>, j: nat, id: int)
    requires j < |items|
    ensures KidsOf(items[..j + 1], id) == KidsOf(items[..j], id) + if ParentKey(items[j]) == Some(id) then [items[j]] else []
  {
    assert items[..j + 1] == items[..j] + [items[j]];
    KidsOfSnoc(items[..j], items[j], id);
  }

  /** One more node of the list extends the top level when it is a root. */
  lemma RootsStep(keys: set<int>, items: seq<Node>, j: nat)
    requires j < |items|
    ensures RootsOf(keys, items[..j + 1]) == RootsOf(keys, items[..j]) + if IsRoot(keys, items[j]) then [items[j]] else []
  {
    assert items[..j + 1] == items[..j] + [items[j]];
    RootsOfSnoc(keys, items[..j], items[j]);
  }

  /** `isset($map[$item->parent_id])` against the first loop's `$map`. */
  lemma RootTest(items: seq<Node>, index: map<int, Node>, n: Node)
    requires index.Keys == IdsOf(items)
    ensures (ParentKey(n).Some? && ParentKey(n).value in index) <==> !IsRoot(IdsOf(items), n)
  {
  }

  /** Node `j` whose parent is in the list joins that parent's child list
      and not the top level. */
  lemma HangKid(keys: set<int>, items: seq<Node>, j: nat, kids: map<int, seq<Node>>, kids': map<int, seq<Node>>)
    requires j < |items| && !IsRoot(keys, items[j])
    requires forall id :: id in kids ==> kids[id] == KidsOf(items[..j], id)
    requires ParentKey(items[j]).value in kids
    requires kids' == kids[ParentKey(items[j]).value := kids[ParentKey(items[j]).value] + [items[j]]]
    ensures forall id :: id in kids' ==> kids'[id] == KidsOf(items[..j + 1], id)
    ensures RootsOf(keys, items[..j + 1]) == RootsOf(keys, items[..j])
  {
    RootsStep(keys, items, j);
    forall id | id in kids' ensures kids'[id] == KidsOf(items[..j + 1], id) {
      KidsStep(items, j, id);
    }
  }

  /** Node `j` whose parent key is falsy or names no node of the list goes
      to the top level and to no child list. */
  lemma HangRoot(keys: set<int>, items: seq<Node>, j: nat, kids: map<int, seq<Node>>)
    requires j < |items| && IsRoot(keys, items[j])
    requires kids.Keys <= keys
    requires forall id :: id in kids ==> kids[id] == KidsOf(items[..j], id)
    ensures forall id :: id in kids ==> kids[id] == KidsOf(items[..j + 1], id)
    ensures RootsOf(keys, items[..j + 1]) == RootsOf(keys, items[..j]) + [items[j]]
  {
    RootsStep(keys, items, j);
    forall id | id in kids ensures kids[id] == KidsOf(items[..j + 1], id) {
      KidsStep(items, j, id);
    }
  }

  /** `buildTree`: `$map` from id to node, every node starting with no
      children, then each node hung below its parent or put at the top
      level. */
  method BuildTree(items: seq<Node>) returns (tree: seq<Tree>)
    requires Layered(items) && DistinctIds(items)
    ensures tree == Assembled(items)
  {
    var index, kids := IndexNodes(items);
    var roots;
    kids, roots := HangNodes(items, index, kids);
    KidsMapLayered(items);
    RootsIn(IdsOf(items), items);
    tree := NestAll(items, kids, roots);
  }

  /** The first loop of `buildTree`: every node's id maps to the node and to
      an empty child list. */
  method IndexNodes(items: seq<Node>) returns (index: map<int, Node>, kids: map<int, seq<Node>>)
    ensures index.Keys == IdsOf(items) && kids.Keys == IdsOf(items)
    ensures forall id :: id in kids ==> kids[id] == []
  {
    index := map[];
    kids := map[];
    for j := 0 to |items|
      invariant index.Keys == IdsOf(items[..j]) && kids.Keys == IdsOf(items[..j])
      invariant forall id :: id in kids ==> kids[id] == []
    {
      IdsOfSnoc(items[..j], items[j]);
      assert items[..j + 1] == items[..j] + [items[j]];
      index := index[items[j].item.id := items[j]];
      kids := kids[items[j].item.id := []];
    }
    assert items[..|items|] == items;
  }

  /** The second loop of `buildTree`: each node joins its parent's child
      list when its parent key is truthy and in `$map`, the top level
      otherwise. */
  method HangNodes(items: seq<Node>, index: map<int, Node>, kids0: map<int, seq<Node>>)
    returns (kids: map<int, seq<Node>>, roots: seq<Node>)
    requires index.Keys == IdsOf(items) && kids0.Keys == IdsOf(items)
    requires forall id :: id in kids0 ==> kids0[id] == []
    ensures kids == KidsMap(items) && roots == RootsOf(IdsOf(items), items)
  {
    kids := kids0;
    roots := [];
    for j := 0 to |items|
      invariant kids.Keys == IdsOf(items)
      invariant forall id :: id in kids ==> kids[id] == KidsOf(items[..j], id)
      invariant roots == RootsOf(IdsOf(items), items[..j])
    {
      var item := items[j];
      var pk := ParentKey(item);
      RootTest(items, index, item);
      if pk.Some? && pk.value in index {
        var kids' := kids[pk.value := kids[pk.value] + [item]];
        HangKid(IdsOf(items), items, j, kids, kids');
        kids := kids';
      } else {
        HangRoot(IdsOf(items), items, j, kids);
        roots := roots + [item];
      }
    }
    assert items[..|items|] == items;
    KidsMapEq(items, kids);
  }
}
