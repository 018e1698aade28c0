/** The menu engine's entities: the item type enumeration, menu and item
    rows as the row store returns them, the annotated node the flattener
    emits, the nested tree the assembler builds, and the dotted id path. */
module MenuTypes {
  import opened Wrappers
  import opened PhpStrings

  /** Primary keys are auto-increment values, so never 0. */
  type ItemId = x: nat | x >= 1 witness 1

  /** The backed enumeration of item types. */
  datatype ItemType = Url | Route | Permission | Feature | Divider

  /** The enumeration's backing string (`->value`). */
  function TypeValue(t: ItemType): string {
    match t
    case Url => "url"
    case Route => "route"
    case Permission => "permission"
    case Feature => "feature"
    case Divider => "divider"
  }

  /** `MenuItemType::from`: `None` where the source catches the `ValueError`. */
  function TypeFrom(s: string): (r: Option<ItemType>)
    ensures r.Some? ==> TypeValue(r.value) == s
    ensures r.None? ==> forall t :: TypeValue(t) != s
  {
    if s == "url" then Some(Url)
    else if s == "route" then Some(Route)
    else if s == "permission" then Some(Permission)
    else if s == "feature" then Some(Feature)
    else if s == "divider" then Some(Divider)
    else None
  }

  /** Parsing the backing string is the inverse of taking it. */
  lemma TypeFromValue(t: ItemType, s: string)
    ensures TypeFrom(TypeValue(t)) == Some(t)
    ensures TypeFrom(s) == Some(t) <==> s == TypeValue(t)
  {
  }

  /** A menu row: only what the engine reads. */
  datatype Menu = Menu(id: int, alias: string, isActive: bool)

  /** An active item row of one menu. `meta` keeps only string values
      (`route`, `permission`, `feature` are the keys the engine reads). */
  datatype Item = Item(
    id: ItemId,
    menuId: int,
    parentId: Option<int>,
    menuableValue: Option<string>,
    title: Option<string>,
    link: Option<string>,
    itype: ItemType,
    sort: int,
    meta: map<string, string>)

  /** A flat-tree node: the row, its type's backing string, and the
      annotations `depth`, `path` and `url`. */
  datatype Node = Node(item: Item, typ: string, depth: nat, path: string, url: string)

  /** A node of the nested tree with its ordered children. */
  datatype Tree = Tree(node: Node, children: seq<Tree>)

  /** No two positions carry a node of the same row. */
  predicate DistinctIds(nodes: seq<Node>) {
    forall i, j :: 0 <= i < j < |nodes| ==> nodes[i].item.id != nodes[j].item.id
  }

  /** A child row's node is one level deeper than its parent row's node. */
  predicate Layered(nodes: seq<Node>) {
    forall i, j :: 0 <= i < |nodes| && 0 <= j < |nodes| && nodes[j].item.parentId == Some(nodes[i].item.id)
      ==> nodes[j].depth == nodes[i].depth + 1
  }

  /** The pre-order traversal of a tree: the node, then its children's
      subtrees in order. */
  function TreePreorder(t: Tree): (r: seq<Node>)
    ensures |r| >= 1 && r[0] == t.node
    decreases t, 1
  {
    [t.node] + Preorder(t.children)
  }

  /** The pre-order traversal of a forest: each tree's traversal in turn. */
  function Preorder(ts: seq<Tree>): seq<Node>
    decreases ts, 0
  {
    if ts == [] then [] else TreePreorder(ts[0]) + Preorder(ts[1..])
  }

  lemma {:induction false} PreorderAppend(a: seq<Tree>, b: seq<Tree>)
    ensures Preorder(a + b) == Preorder(a) + Preorder(b)
    decreases |a|
  {
    if a != [] {
      assert (a + b)[0] == a[0];
      assert (a + b)[1..] == a[1..] + b;
      PreorderAppend(a[1..], b);
      calc {
        Preorder(a + b);
        TreePreorder(a[0]) + Preorder(a[1..] + b);
        TreePreorder(a[0]) + (Preorder(a[1..]) + Preorder(b));
        (TreePreorder(a[0]) + Preorder(a[1..])) + Preorder(b);
      }
    } else {
      assert a + b == b;
    }
  }

  /** The decimal renderings of a sequence of ids. */
  function IdStrs(ids: seq<nat>): (r: seq<string>)
    ensures |r| == |ids|
    ensures forall i :: 0 <= i < |ids| ==> r[i] == NatStr(ids[i])
  {
    if ids == [] then [] else [NatStr(ids[0])] + IdStrs(ids[1..])
  }

  /** The dotted path of a chain of ids, root first. */
  function PathOf(ids: seq<nat>): string {
    Join(IdStrs(ids), '.')
  }

  /** `array_map('intval', explode('.', $path))`. */
  function ParsePath(path: string): seq<nat> {
    IntVals(Split(path, '.'))
  }

  /** `intval` of each segment. */
  function IntVals(segs: seq<string>): (r: seq<nat>)
    ensures |r| == |segs|
    ensures forall i :: 0 <= i < |segs| ==> r[i] == IntVal(segs[i])
  {
    if segs == [] then [] else [IntVal(segs[0])] + IntVals(segs[1..])
  }

  /** The path of a non-empty chain parses back to the chain. */
  lemma ParsePathOf(ids: seq<nat>)
    requires |ids| >= 1
    ensures ParsePath(PathOf(ids)) == ids
  {
    var segs := IdStrs(ids);
    forall i | 0 <= i < |segs| ensures '.' !in segs[i] {
      NatStrNoChar(ids[i], '.');
    }
    SplitJoin(segs, '.');
    forall i | 0 <= i < |ids| ensures ParsePath(PathOf(ids))[i] == ids[i] {
      IntValNatStr(ids[i]);
    }
  }

  /** The source's `$path ? $path . '.' . $id : (string) $id` extends the
      chain by one id. */
  lemma PathOfSnoc(anc: seq<nat>, id: ItemId)
    requires anc == [] || anc[0] >= 1
    ensures Truthy(PathOf(anc)) <==> anc != []
    ensures PathOf(anc + [id]) == if anc == [] then NatStr(id) else PathOf(anc) + "." + NatStr(id)
  {
    if anc != [] {
      assert IdStrs(anc + [id]) == IdStrs(anc) + [NatStr(id)];
      JoinAppend(IdStrs(anc), [NatStr(id)], '.');
      var p := PathOf(anc);
      var first := NatStr(anc[0]);
      if |anc| == 1 {
        assert p == first;
      } else {
        assert p == first + ['.'] + Join(IdStrs(anc)[1..], '.');
        assert p[|first|] == '.';
      }
    } else {
      assert IdStrs([id]) == [NatStr(id)];
    }
  }
}
