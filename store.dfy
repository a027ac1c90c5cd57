/**
 * The structural operations on the node list (mindmap.js `addRootNode`,
 * `addChildNode`, `addSiblingNode`, `pasteNode`, `deleteSelectedNode`,
 * `createConnection`) as functions from the old list to the new one, with
 * what each promises. The editor class applies them to its `nodes` field.
 * Ids are supplied by the caller: the source stamps `Date.now()`, the model a
 * fresh counter.
 */
module Store {
  import opened Nodes

  const RootText: string := "中心主题"
  const ChildText: string := "新节点"
  const SiblingText: string := "同级节点"
  const CopySuffix: string := " (副本)"
  const White: string := "#ffffff"
  const Dark: string := "#333333"

  /**
   * What the editor keeps true of its node list between operations: ids
   * are unique and below the next fresh id, and a level-0 node has no
   * parent (so no layout pass moves the root).
   */
  ghost predicate Sound(ns: seq<Node>, bound: nat) {
    UniqueIds(ns) && forall n | n in ns :: n.id < bound && (n.level == 0 ==> n.parent.None?)
  }

  /** The initial root box, centred on the canvas (`addRootNode`). */
  function RootNode(id: nat, canvasWidth: real, canvasHeight: real): Node {
    Node(id, RootText, canvasWidth / 2.0, canvasHeight / 2.0, 120.0, 50.0, [], None, 0, 0, White, 16)
  }

  /** The box `addChildNode` creates under `parent`. */
  function NewChild(parent: Node, id: nat): Node {
    var level := parent.level + 1;
    Node(id, ChildText, parent.x + 150.0, parent.y,
         MaxR(80.0, 120.0 - level as real * 10.0), MaxR(30.0, 40.0 - level as real * 5.0),
         [], Some(parent.id), level, level % 3,
         if level == 0 then White else Dark, MaxI(12, 16 - level * 2))
  }

  /** The box `addSiblingNode` creates next to `current`, under the node `parentId`. */
  function NewSibling(current: Node, parentId: nat, id: nat): Node {
    Node(id, SiblingText, current.x, current.y + 80.0, current.width, current.height,
         [], Some(parentId), current.level, current.level % 3, current.textColor, current.fontSize)
  }

  /** The box `pasteNode` makes from the clipboard copy, under `target`. */
  function Pasted(copy: Node, target: Node, id: nat): Node {
    copy.(id := id, text := copy.text + CopySuffix, parent := Some(target.id),
          level := target.level + 1, x := target.x + 150.0, y := target.y, children := [])
  }

  /** `parent.children.push(id)` on the node at index `p`. */
  function Adopt(ns: seq<Node>, p: nat, id: nat): (r: seq<Node>)
    requires p < |ns|
  {
    ns[p := ns[p].(children := ns[p].children + [id])]
  }

  /** Removes `n`'s id from the children of the first node carrying `n.parent`. */
  function DetachFromParent(ns: seq<Node>, n: Node): (r: seq<Node>) {
    match n.parent
    case None => ns
    case Some(pid) =>
      match IndexOf(ns, pid)
      case None => ns
      case Some(p) => ns[p := ns[p].(children := Without(ns[p].children, n.id))]
  }

  /** The node a new child goes under: the selected one, else the first node. */
  function ChildParent(ns: seq<Node>, sel: Option<nat>): (p: nat)
    requires |ns| > 0
    ensures p < |ns|
  {
    match sel
    case None => 0
    case Some(s) =>
      match IndexOf(ns, s)
      case None => 0
      case Some(i) => i
  }

  /** `addChildNode`: no-op on an empty list. */
  function AddChild(ns: seq<Node>, sel: Option<nat>, newId: nat): seq<Node> {
    if |ns| == 0 then ns
    else
      var p := ChildParent(ns, sel);
      Adopt(ns, p, newId) + [NewChild(ns[p], newId)]
  }

  /**
   * `addChildNode` when the selected object is one the store no longer
   * holds (replaced wholesale by undo or redo): the new node goes under
   * that object, and the push onto its `children` lands on the object
   * itself, so the store only gains the new node.
   */
  function AddChildDetached(ns: seq<Node>, parent: Node, newId: nat): seq<Node> {
    if |ns| == 0 then ns else ns + [NewChild(parent, newId)]
  }

  /**
   * `addSiblingNode` for the selected object `current`, held in the store
   * or not: it reads `current`'s own fields and looks its parent up in the
   * store, which takes the new node.
   */
  function AddSiblingOf(ns: seq<Node>, current: Node, newId: nat): seq<Node> {
    if current.parent.None? then ns
    else
      match IndexOf(ns, current.parent.value)
      case None => ns
      case Some(p) => Adopt(ns, p, newId) + [NewSibling(current, ns[p].id, newId)]
  }

  /** `addSiblingNode`: needs a selected node that has a parent present in the list. */
  function AddSibling(ns: seq<Node>, sel: Option<nat>, newId: nat): seq<Node> {
    if sel.None? then ns
    else
      match IndexOf(ns, sel.value)
      case None => ns
      case Some(s) => AddSiblingOf(ns, ns[s], newId)
  }

  /** `pasteNode`: needs both a clipboard copy and a selected node. */
  function Paste(ns: seq<Node>, sel: Option<nat>, copied: Option<Node>, newId: nat): seq<Node> {
    if copied.None? || sel.None? then ns
    else
      match IndexOf(ns, sel.value)
      case None => ns
      case Some(s) => Adopt(ns, s, newId) + [Pasted(copied.value, ns[s], newId)]
  }

  /**
   * `pasteNode` when the selected object is one the store no longer holds:
   * the copy goes under that object, whose own `children` takes the push,
   * so the store only gains the copy.
   */
  function PasteDetached(ns: seq<Node>, target: Node, copied: Option<Node>, newId: nat): seq<Node> {
    if copied.None? then ns else ns + [Pasted(copied.value, target, newId)]
  }

  /**
   * `createConnection(from, to)` on the nodes at indices `f` and `t`: the
   * old parent forgets `to`, `to` takes `from` as parent with level
   * `from.level + 1` and the matching palette slot, and `from` lists `to`
   * unless it already does. Nothing else changes: no cycle check, and the
   * levels below `to` are left as they were.
   */
  function Connect(ns: seq<Node>, f: nat, t: nat): seq<Node>
    requires f < |ns| && t < |ns|
  {
    if ns[f].id == ns[t].id then ns
    else
      var toId := ns[t].id;
      var ns1 := DetachFromParent(ns, ns[t]);
      var from := ns1[f];
      var ns2 := ns1[t := ns1[t].(parent := Some(from.id), level := from.level + 1)];
      var ns3 := if toId in ns2[f].children then ns2 else Adopt(ns2, f, toId);
      ns3[t := ns3[t].(color := (from.level + 1) % 3)]
  }

  /**
   * `createConnection(from, to)` when `from` is a node object the store no
   * longer holds (deleted, or replaced wholesale by undo or redo): `to`
   * takes `from`'s id as parent and `from`'s level plus one, and its old
   * parent forgets it; the push onto `from.children` lands on the detached
   * object, so no node of the store lists `to` afterwards.
   */
  function ConnectDetached(ns: seq<Node>, from: Node, t: nat): seq<Node>
    requires t < |ns|
  {
    if from.id == ns[t].id then ns
    else
      var ns1 := DetachFromParent(ns, ns[t]);
      ns1[t := ns1[t].(parent := Some(from.id), level := from.level + 1, color := (from.level + 1) % 3)]
  }

  /**
   * `deleteSelectedNode`: no-op without a selection or on a level-0 node;
   * otherwise the selected node and everything reachable from it through
   * `children` go, and its parent forgets it.
   */
  ghost function DeleteSelected(ns: seq<Node>, sel: Option<nat>): seq<Node> {
    if sel.None? then ns
    else
      match IndexOf(ns, sel.value)
      case None => ns
      case Some(s) => DeleteObject(ns, ns[s])
  }

  /**
   * `deleteSelectedNode` for the selected object `sel`, held in the store
   * or not: no-op on level 0; otherwise every node carrying `sel.id` or an
   * id reachable from it through the store's `children` lists goes, and
   * the stored node carrying `sel.parent` forgets `sel.id`.
   */
  ghost function DeleteObject(ns: seq<Node>, sel: Node): seq<Node> {
    if sel.level == 0 then ns
    else Keep(DetachFromParent(ns, sel), Descendants(ns, sel.id))
  }

  // ---------------------------------------------------------------------
  // Collecting the subtree to delete (the `findChildren` walk)
  // ---------------------------------------------------------------------

  /** `toDelete` contains the children of every node it contains. */
  ghost predicate ClosedUnderChildren(ns: seq<Node>, toDelete: set<nat>) {
    forall d, c | d in toDelete && c in ChildIdsOf(ns, d) :: c in toDelete
  }

  lemma {:induction false} ClosedContainsReachable(ns: seq<Node>, root: nat, s: set<nat>, d: nat)
    requires root in s && ClosedUnderChildren(ns, s) && Reachable(ns, root, d)
    ensures d in s
  {
    var p :| IsPath(ns, p) && p[0] == root && p[|p| - 1] == d;
    var k := 0;
    while k < |p| - 1
      invariant 0 <= k < |p| && p[k] in s
    {
      assert p[k + 1] in ChildIdsOf(ns, p[k]);
      k := k + 1;
    }
  }

  /**
   * The ids `deleteSelectedNode` removes: `root` and every id reachable from
   * it through `children` lists, walked with a work list.
   */
  method CollectSubtree(ns: seq<Node>, root: nat) returns (toDelete: set<nat>)
    ensures toDelete == Descendants(ns, root)
    ensures root in toDelete && ClosedUnderChildren(ns, toDelete)
  {
    ghost var u := Universe(ns, root);
    toDelete := {root};
    var work := {root};
    ReachableRefl(ns, root);
    while work != {}
      invariant work <= toDelete <= u
      invariant root in toDelete
      invariant forall d | d in toDelete :: Reachable(ns, root, d)
      invariant forall d, c | d in toDelete - work && c in ChildIdsOf(ns, d) :: c in toDelete
      decreases |u - toDelete|, |work|
    {
      var d :| d in work;
      work := work - {d};
      var kids := set c | c in ChildIdsOf(ns, d) && c !in toDelete;
      forall c | c in kids ensures c in u && Reachable(ns, root, c) {
        ChildInUniverse(ns, root, d, c);
        ReachableStep(ns, root, d, c);
      }
      if kids != {} {
        assert u - (toDelete + kids) < u - toDelete;
      }
      toDelete := toDelete + kids;
      work := work + kids;
    }
    forall x | x in Descendants(ns, root) ensures x in toDelete {
      ClosedContainsReachable(ns, root, toDelete, x);
    }
    forall x | x in toDelete ensures x in Descendants(ns, root) {
      ReachableInUniverse(ns, root, x);
    }
  }
}
