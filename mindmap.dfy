/**
 * The `MindMap` editor object of mindmap.js: the node list, the selection,
 * the undo log, the layout choice, the view transform, and the connect and
 * keyboard state, with the methods that change them. The methods follow
 * the source's statements; their postconditions tie each new state to the
 * functions of modules Store, History, Layout, Viewport and Navigation,
 * whose properties are proved there.
 *
 * Nodes are plain values in `nodes`. The selection (`selectedNode`) and
 * the pending connect source (`connectingNode`) are each a `Ref`: the id
 * of a node object the store holds, or the value of one it no longer
 * holds, because a reference to a node object survives that object's
 * removal from the store, and undo and redo replace every object.
 */
module Editor {
  import opened Nodes
  import opened Store
  import StoreLaws
  import History
  import opened Layout
  import opened Viewport
  import opened Navigation

  /**
   * A reference to a node object: `Live(id)` names the object of the store
   * that carries `id`; `Stale(node)` is an object the store no longer
   * holds (deleted, or replaced wholesale by undo or redo), as it was when
   * it left. A stale object is never the object a click hits.
   */
  datatype Ref = Live(id: nat) | Stale(node: Node)

  /** The id the referenced object carries. */
  function RefId(r: Ref): nat {
    if r.Live? then r.id else r.node.id
  }

  /** A live reference names a node of `ns`. */
  ghost predicate LiveIn(ns: seq<Node>, r: Option<Ref>) {
    r.Some? && r.value.Live? ==> r.value.id in Ids(ns)
  }

  /**
   * A held reference once the node objects carrying the ids in `gone`
   * leave the list `ns`: a live reference to one of them keeps that object,
   * as it was in `ns`; any other reference is unaffected.
   */
  function Release(ns: seq<Node>, r: Option<Ref>, gone: set<nat>): (q: Option<Ref>)
    requires LiveIn(ns, r)
    ensures q.Some? <==> r.Some?
    ensures r.Some? && r.value.Live? && r.value.id in gone ==>
      q.value.Stale? && q.value.node in ns && RefId(q.value) == RefId(r.value)
    ensures !(r.Some? && r.value.Live? && r.value.id in gone) ==> q == r
    ensures q.Some? && q.value.Live? ==> q.value.id !in gone
  {
    if r.Some? && r.value.Live? && r.value.id in gone then
      var i := IndexOf(ns, r.value.id).value;
      Some(Stale(ns[i]))
    else r
  }

  /**
   * The node list `createConnection(from, to)` leaves for the source `src`
   * and the node at `t`; `None` when both carry the same id, where it
   * returns before changing anything.
   */
  function Connection(ns: seq<Node>, src: Ref, t: nat): (r: Option<seq<Node>>)
    requires t < |ns| && LiveIn(ns, Some(src))
    ensures r.None? <==> RefId(src) == ns[t].id
    ensures r.Some? ==> |r.value| == |ns| && r.value[t].parent == Some(RefId(src)) && Ids(r.value) == Ids(ns)
  {
    match src
    case Live(a) =>
      if a == ns[t].id then None
      else
        var f := IndexOf(ns, a).value;
        StoreLaws.ConnectMoves(ns, f, t);
        StoreLaws.ConnectKeepsIds(ns, f, t);
        Some(Connect(ns, f, t))
    case Stale(n) =>
      if n.id == ns[t].id then None
      else
        StoreLaws.ConnectDetachedMoves(ns, n, t);
        StoreLaws.ConnectDetachedKeepsIds(ns, n, t);
        Some(ConnectDetached(ns, n, t))
  }

  /** The id of a live selection; `None` for no selection and for a kept copy. */
  function LiveId(sel: Option<Ref>): (r: Option<nat>)
    ensures r.Some? <==> sel.Some? && sel.value.Live?
    ensures r.Some? ==> r.value == RefId(sel.value)
  {
    if sel.Some? && sel.value.Live? then Some(sel.value.id) else None
  }

  /** The node object a reference stands for: the stored node carrying its id, or the kept copy. */
  function Deref(ns: seq<Node>, r: Ref): (n: Node)
    requires LiveIn(ns, Some(r))
    ensures n.id == RefId(r) && (r.Live? ==> n in ns)
    ensures r.Stale? ==> n == r.node
  {
    if r.Live? then ns[IndexOf(ns, r.id).value] else r.node
  }

  /** The selected node object, if there is a selection. */
  function SelectedObject(ns: seq<Node>, sel: Option<Ref>): (o: Option<Node>)
    requires LiveIn(ns, sel)
    ensures o.Some? <==> sel.Some?
    ensures o.Some? ==> o.value.id == RefId(sel.value)
  {
    if sel.None? then None else Some(Deref(ns, sel.value))
  }

  /** A kept copy on level 0 has no parent, as every stored node on level 0 has none. */
  predicate KeptRootShaped(r: Option<Ref>) {
    r.Some? && r.value.Stale? && r.value.node.level == 0 ==> r.value.node.parent.None?
  }

  /**
   * The selection after `selectedNode.children.push(newId)`: a kept copy
   * takes the push itself; a live selection sees it in the store.
   */
  function Pushed(sel: Option<Ref>, newId: nat): Option<Ref> {
    if sel.Some? && sel.value.Stale? then
      Some(Stale(sel.value.node.(children := sel.value.node.children + [newId])))
    else sel
  }

  /**
   * The node list `addChildNode` builds, before its layout pass, for the
   * selection `sel`: under the selected stored node (the first node when
   * nothing is selected), or appended under a kept copy no stored node lists.
   */
  function ChildAdded(ns: seq<Node>, sel: Option<Ref>, newId: nat): seq<Node> {
    if sel.Some? && sel.value.Stale? then AddChildDetached(ns, sel.value.node, newId)
    else AddChild(ns, LiveId(sel), newId)
  }

  /** The node list `addSiblingNode` builds, before its layout pass, for the selection `sel`. */
  function SiblingAdded(ns: seq<Node>, sel: Option<Ref>, newId: nat): seq<Node> {
    if sel.Some? && sel.value.Stale? then AddSiblingOf(ns, sel.value.node, newId)
    else AddSibling(ns, LiveId(sel), newId)
  }

  /** The node list `pasteNode` builds, before its layout pass, for the selection `sel`. */
  function PasteAdded(ns: seq<Node>, sel: Option<Ref>, copied: Option<Node>, newId: nat): seq<Node> {
    if sel.Some? && sel.value.Stale? then PasteDetached(ns, sel.value.node, copied, newId)
    else Paste(ns, LiveId(sel), copied, newId)
  }

  /** The node list `deleteSelectedNode` leaves for the selection `sel`. */
  ghost function Deleted(ns: seq<Node>, sel: Option<Ref>): seq<Node> {
    if sel.Some? && sel.value.Stale? then DeleteObject(ns, sel.value.node)
    else DeleteSelected(ns, LiveId(sel))
  }

  /**
   * Click a node in connect mode, delete a subtree holding it, then click
   * a surviving node: the second click still connects, from the deleted
   * object, and the moved node ends up naming a parent no node carries.
   */
  lemma ConnectFromDeletedSource(ns: seq<Node>, sel: Option<nat>, a: nat, t: nat)
    requires sel.Some? && IndexOf(ns, sel.value).Some? && ns[IndexOf(ns, sel.value).value].level != 0
    requires a in Ids(ns) && a in Descendants(ns, sel.value) && t < |DeleteSelected(ns, sel)|
    ensures var after := DeleteSelected(ns, sel);
      var o := ConnectClick(Release(ns, Some(Live(a)), Descendants(ns, sel.value)), Live(after[t].id));
      && o.connect.Some? && o.pending.None?
      && Connection(after, o.connect.value.0, t).Some?
      && Connection(after, o.connect.value.0, t).value[t].parent == Some(a)
      && a !in Ids(Connection(after, o.connect.value.0, t).value)
  {
    StoreLaws.DeleteRemoves(ns, sel, a);
    var after := DeleteSelected(ns, sel);
    assert after[t] in after;
  }

  /**
   * Click a node in connect mode, undo, then click another node: the
   * connection is made from the object undo replaced, so the live copy of
   * the source does not list the moved node although the moved node names
   * it as parent.
   */
  lemma ConnectFromReplacedSource(ns: seq<Node>, restored: seq<Node>, a: nat, t: nat)
    requires a in Ids(ns) && UniqueIds(restored) && t < |restored| && a in Ids(restored)
    requires restored[t].id != a && (restored[t].parent == Some(a) || restored[t].id !in ChildIdsOf(restored, a))
    ensures var o := ConnectClick(Release(ns, Some(Live(a)), Ids(ns)), Live(restored[t].id));
      && o.connect.Some? && o.pending.None?
      && Connection(restored, o.connect.value.0, t).Some?
      && Connection(restored, o.connect.value.0, t).value[t].parent == Some(a)
      && restored[t].id !in ChildIdsOf(Connection(restored, o.connect.value.0, t).value, a)
      && !WellFormed(Connection(restored, o.connect.value.0, t).value)
  {
    var src := Release(ns, Some(Live(a)), Ids(ns)).value;
    StoreLaws.ConnectReplacedSourceUnlisted(restored, src.node, t);
  }

  /**
   * Select a node, undo past its creation, then delete: the selected
   * object is a kept copy the store does not hold, so nothing is removed;
   * yet the delete goes on to clear the selection and checkpoint, and the
   * checkpoint drops the snapshot a redo would have brought back.
   */
  lemma DeleteReplacedSelection(ns: seq<Node>, log: History.Log<seq<Node>>, c: Node)
    requires WellFormed(ns) && c.id !in Ids(ns) && c.level != 0
    requires History.Valid(log) && History.CanRedo(log)
    ensures SelectedObject(ns, Some(Stale(c))).value.level != 0
    ensures Deleted(ns, Some(Stale(c))) == ns
    ensures !History.CanRedo(History.Checkpoint(log, Deleted(ns, Some(Stale(c)))))
  {
    StoreLaws.DeleteGoneObjectKeepsList(ns, c);
    History.RedoAfterCheckpointIsNoOp(log, ns);
  }

  /**
   * Deleting the selection keeps the list sound and spares every node
   * outside the removed subtree, so a pending source that was not removed
   * still names a node once the removed ones are released.
   */
  lemma DeletedKeepsRefs(ns: seq<Node>, sel: Option<Ref>, pending: Option<Ref>, bound: nat)
    requires Sound(ns, bound) && LiveIn(ns, sel) && LiveIn(ns, pending) && sel.Some?
    ensures Deleted(ns, sel) == DeleteObject(ns, Deref(ns, sel.value))
    ensures Sound(Deleted(ns, sel), bound)
    ensures LiveIn(Deleted(ns, sel), Release(ns, pending, Descendants(ns, RefId(sel.value))))
  {
    var o := Deref(ns, sel.value);
    StoreLaws.DeleteObjectSound(ns, o, bound);
    var q := Release(ns, pending, Descendants(ns, o.id));
    if q.Some? && q.value.Live? {
      StoreLaws.DeleteObjectSpares(ns, o, q.value.id);
    }
  }

  class MindMap {
    var nodes: seq<Node>
    var selected: Option<Ref>
    var history: seq<seq<Node>>
    var historyIndex: int
    var layoutType: Kind
    var scale: real
    var offsetX: real
    var offsetY: real
    var canvasWidth: real
    var canvasHeight: real
    var viewport: Bounds
    var connectionMode: bool
    var connecting: Option<Ref>
    var keyboardNavIndex: int
    var copied: Option<Node>
    /** Stands for `Date.now()`: the id the next new node gets. */
    var nextId: nat

    ghost function UndoLog(): History.Log<seq<Node>>
      reads this`history, this`historyIndex
    {
      History.Log(history, historyIndex)
    }

    /**
     * The node list and every snapshot keep unique ids below `nextId` and
     * no parent on level 0; the undo log is well formed; the zoom factor
     * stays in its clamp range; a live selection or pending source names a
     * node, and a kept selected copy on level 0 has no parent.
     */
    ghost predicate Valid()
      reads this`nodes, this`history, this`historyIndex, this`scale, this`nextId, this`connecting, this`selected
    {
      && Sound(nodes, nextId)
      && History.Valid(UndoLog())
      && (forall e | e in history :: Sound(e, nextId))
      && MinScale <= scale <= MaxScale
      && LiveIn(nodes, connecting)
      && LiveIn(nodes, selected) && KeptRootShaped(selected)
    }

    /** `constructor`: the initial settings, then `init`. */
    constructor (width: real, height: real)
      ensures Valid()
      ensures nodes == [RootNode(1, width, height)] && selected.None?
      ensures history == [nodes] && historyIndex == 0
      ensures layoutType == Radial && scale == 1.0 && offsetX == 0.0 && offsetY == 0.0
      ensures !connectionMode && connecting.None? && keyboardNavIndex == 0 && copied.None?
    {
      nodes := [];
      selected := None;
      history := [];
      historyIndex := -1;
      layoutType := Radial;
      scale := 1.0;
      offsetX := 0.0;
      offsetY := 0.0;
      canvasWidth := width;
      canvasHeight := height;
      viewport := Bounds(0.0, 0.0, 0.0, 0.0);
      connectionMode := false;
      connecting := None;
      keyboardNavIndex := 0;
      copied := None;
      nextId := 1;
      new;
      Init();
    }

    /** `init`: add the root and save it as the first snapshot. */
    method Init()
      requires Valid() && nodes == [] && history == [] && historyIndex == -1
      modifies this`nodes, this`nextId, this`history, this`historyIndex
      ensures Valid() && nextId == old(nextId) + 1
      ensures nodes == [RootNode(old(nextId), canvasWidth, canvasHeight)]
      ensures history == [nodes] && historyIndex == 0
    {
      AddRootNode();
      SaveState();
      History.FirstCheckpoint(nodes);
    }

    /** A fresh id, as `Date.now()` is assumed to give. */
    method NewId() returns (id: nat)
      requires Valid()
      modifies this`nextId
      ensures id == old(nextId) && nextId == id + 1
      ensures Sound(nodes, id) && forall e | e in history :: Sound(e, nextId)
    {
      id := nextId;
      nextId := nextId + 1;
    }

    /** `addRootNode`: appends the root box, centred on the canvas. */
    method AddRootNode()
      requires Valid()
      modifies this`nodes, this`nextId
      ensures Valid()
      ensures nodes == old(nodes) + [RootNode(old(nextId), canvasWidth, canvasHeight)]
      ensures nextId == old(nextId) + 1
    {
      var id := NewId();
      var root := RootNode(id, canvasWidth, canvasHeight);
      nodes := nodes + [root];
      IdsAppend(old(nodes), root);
      forall i, j | 0 <= i < j < |nodes| ensures nodes[i].id != nodes[j].id {
        assert old(nodes)[i] in old(nodes);
      }
    }

    // -------------------------------------------------------------------
    // History
    // -------------------------------------------------------------------

    /** `saveState`: checkpoint the current node list. */
    method SaveState()
      requires Valid()
      modifies this`history, this`historyIndex
      ensures Valid()
      ensures UndoLog() == History.Checkpoint(old(UndoLog()), nodes)
    {
      History.CheckpointKeeps(UndoLog(), nodes);
      history := history[..historyIndex + 1];
      history := history + [nodes];
      historyIndex := historyIndex + 1;
      if |history| > History.Capacity {
        history := history[1..];
        historyIndex := historyIndex - 1;
      }
      assert UndoLog() == History.Checkpoint(old(UndoLog()), nodes);
    }

    /**
     * `undo`: step back to the previous snapshot, if there is one. The
     * snapshot is parsed into fresh node objects, so the selection and a
     * pending connect source now refer to objects the store no longer holds.
     */
    method Undo()
      requires Valid()
      modifies this`nodes, this`historyIndex, this`connecting, this`selected
      ensures Valid()
      ensures UndoLog() == History.Undo(old(UndoLog()))
      ensures History.CanUndo(old(UndoLog())) ==>
        && nodes == History.Current(UndoLog())
        && connecting == Release(old(nodes), old(connecting), Ids(old(nodes)))
        && selected == Release(old(nodes), old(selected), Ids(old(nodes)))
      ensures !History.CanUndo(old(UndoLog())) ==>
        nodes == old(nodes) && connecting == old(connecting) && selected == old(selected)
    {
      if historyIndex > 0 {
        connecting := Release(nodes, connecting, Ids(nodes));
        selected := Release(nodes, selected, Ids(nodes));
        historyIndex := historyIndex - 1;
        nodes := history[historyIndex];
      }
    }

    /** `redo`: step forward to the next snapshot, if there is one; fresh node objects as in `undo`. */
    method Redo()
      requires Valid()
      modifies this`nodes, this`historyIndex, this`connecting, this`selected
      ensures Valid()
      ensures UndoLog() == History.Redo(old(UndoLog()))
      ensures History.CanRedo(old(UndoLog())) ==>
        && nodes == History.Current(UndoLog())
        && connecting == Release(old(nodes), old(connecting), Ids(old(nodes)))
        && selected == Release(old(nodes), old(selected), Ids(old(nodes)))
      ensures !History.CanRedo(old(UndoLog())) ==>
        nodes == old(nodes) && connecting == old(connecting) && selected == old(selected)
    {
      if historyIndex < |history| - 1 {
        connecting := Release(nodes, connecting, Ids(nodes));
        selected := Release(nodes, selected, Ids(nodes));
        historyIndex := historyIndex + 1;
        nodes := history[historyIndex];
      }
    }

    // -------------------------------------------------------------------
    // Layout
    // -------------------------------------------------------------------

    /** `applyLayout`: run the chosen layout from the first level-0 node. */
    method ApplyLayout()
      requires Valid()
      modifies this`nodes
      ensures Valid()
      ensures nodes == Arrange(old(nodes), layoutType)
    {
      if |nodes| == 0 {
        return;
      }
      var root := RootIndex(nodes);
      if root.None? {
        return;
      }
      var r := root.value;
      match layoutType {
        case Tree => ApplyTreeLayout(r);
        case Fishbone => ApplyFishboneLayout(r);
        case Timeline => ApplyTimelineLayout(r);
        case Org => ApplyOrgLayout(r);
        case Radial =>
      }
      StoreLaws.MovedSameLinks(old(nodes), nodes);
      StoreLaws.SameLinksSound(old(nodes), nodes, nextId);
    }

    /** `applyTreeLayout(root)`: the root's children in a row one level down, each with its subtree below it. */
    method ApplyTreeLayout(r: nat)
      requires RootIndex(nodes) == Some(r)
      modifies this`nodes
      ensures nodes == Arrange(old(nodes), Tree)
    {
      var root := nodes[r];
      var rootChildren := ChildIndices(nodes, root.id);
      PositionLevel(rootChildren, 1, RowStart(root.x, |rootChildren|, NodeSpacing), root.y, |nodes|);
    }

    /**
     * `positionLevel(kids, depth, x)`: place each node of `kids` with its
     * subtree, moving `x` on by the spacing after each one. `fuel` bounds
     * the recursion, which the source runs until a level has no children.
     */
    method PositionLevel(kids: seq<nat>, depth: nat, x: real, ry: real, fuel: nat)
      requires forall k | k in kids :: k < |nodes| && nodes[k].parent.Some?
      modifies this`nodes
      ensures nodes == TreeRow(old(nodes), kids, depth, x, ry, fuel)
      decreases fuel, 1
    {
      var currentX := x;
      var i := 0;
      while i < |kids|
        invariant 0 <= i <= |kids|
        invariant forall k | k in kids[i..] :: k < |nodes| && nodes[k].parent.Some?
        invariant TreeRow(nodes, kids[i..], depth, currentX, ry, fuel) == TreeRow(old(nodes), kids, depth, x, ry, fuel)
      {
        TreeRowStep(nodes, kids[i..], depth, currentX, ry, fuel);
        assert kids[i..][0] == kids[i] && kids[i..][1..] == kids[i + 1..];
        PositionNode(kids[i], depth, currentX, ry, fuel);
        currentX := currentX + NodeSpacing;
        i := i + 1;
      }
    }

    /**
     * The body of `positionLevel` for one node: put it at `x` on row
     * `depth` below the root (at height `ry`), then lay its children out
     * one row further down, centred under it.
     */
    method PositionNode(k: nat, depth: nat, x: real, ry: real, fuel: nat)
      requires k < |nodes| && nodes[k].parent.Some?
      modifies this`nodes
      ensures nodes == PlaceSubtree(old(nodes), k, depth, x, ry, fuel)
      decreases fuel, 0
    {
      nodes := nodes[k := nodes[k].(x := x, y := ry + depth as real * LevelHeight)];
      var children := ChildIndices(nodes, nodes[k].id);
      if |children| > 0 && fuel > 0 {
        PositionLevel(children, depth + 1, RowStart(x, |children|, NodeSpacing), ry, fuel - 1);
      }
    }

    /** `applyFishboneLayout(root)`: the root's children in pairs, alternately below and above it. */
    method ApplyFishboneLayout(r: nat)
      requires RootIndex(nodes) == Some(r)
      modifies this`nodes
      ensures nodes == Arrange(old(nodes), Fishbone)
    {
      var root := nodes[r];
      var children := ChildIndices(nodes, root.id);
      ChildIndicesAt(nodes, root.id);
      var ns := nodes;
      var i := 0;
      while i < |children|
        invariant 0 <= i <= |children| && |ns| == |old(nodes)|
        invariant Spread(ns, children, Fishbone, root.x, root.y, i) == Spread(old(nodes), children, Fishbone, root.x, root.y, 0)
      {
        var c := children[i];
        var x, y := FishboneX(root.x, i), FishboneY(root.y, i);
        SpreadStep(ns, children, Fishbone, root.x, root.y, i, x, y);
        ns := ns[c := ns[c].(x := x, y := y)];
        i := i + 1;
      }
      ArrangeSpread(old(nodes), Fishbone, r);
      nodes := ns;
    }

    /** `applyTimelineLayout(root)`: the root's children in a row to its right. */
    method ApplyTimelineLayout(r: nat)
      requires RootIndex(nodes) == Some(r)
      modifies this`nodes
      ensures nodes == Arrange(old(nodes), Timeline)
    {
      var root := nodes[r];
      var children := ChildIndices(nodes, root.id);
      ChildIndicesAt(nodes, root.id);
      var ns := nodes;
      var i := 0;
      while i < |children|
        invariant 0 <= i <= |children| && |ns| == |old(nodes)|
        invariant Spread(ns, children, Timeline, root.x, root.y, i) == Spread(old(nodes), children, Timeline, root.x, root.y, 0)
      {
        var c := children[i];
        var x := root.x + (i + 1) as real * 200.0;
        SpreadStep(ns, children, Timeline, root.x, root.y, i, x, root.y);
        ns := ns[c := ns[c].(x := x, y := root.y)];
        i := i + 1;
      }
      ArrangeSpread(old(nodes), Timeline, r);
      nodes := ns;
    }

    /** `applyOrgLayout(root)`: the root's children in one row under it, centred. */
    method ApplyOrgLayout(r: nat)
      requires RootIndex(nodes) == Some(r)
      modifies this`nodes
      ensures nodes == Arrange(old(nodes), Org)
    {
      var root := nodes[r];
      var children := ChildIndices(nodes, root.id);
      ChildIndicesAt(nodes, root.id);
      var startX := RowStart(root.x, |children|, 150.0);
      var ns := nodes;
      var i := 0;
      while i < |children|
        invariant 0 <= i <= |children| && |ns| == |old(nodes)|
        invariant Spread(ns, children, Org, root.x, root.y, i) == Spread(old(nodes), children, Org, root.x, root.y, 0)
      {
        var c := children[i];
        var x := startX + i as real * 150.0;
        assert x == OrgX(root.x, i, |children|);
        SpreadStep(ns, children, Org, root.x, root.y, i, x, root.y + 100.0);
        ns := ns[c := ns[c].(x := x, y := root.y + 100.0)];
        i := i + 1;
      }
      ArrangeSpread(old(nodes), Org, r);
      nodes := ns;
    }

    /** `changeLayout`: switch the layout and apply it. */
    method ChangeLayout(kind: Kind)
      requires Valid()
      modifies this`nodes, this`layoutType
      ensures Valid()
      ensures layoutType == kind && nodes == Arrange(old(nodes), kind)
    {
      layoutType := kind;
      ApplyLayout();
    }

    /** `optimizeNodeSpacing`: resize every node for its level and text. */
    method OptimizeNodeSpacing()
      requires Valid()
      modifies this`nodes
      ensures Valid()
      ensures nodes == Spaced(old(nodes))
    {
      var ns := nodes;
      var i := 0;
      while i < |ns|
        invariant 0 <= i <= |ns| == |nodes|
        invariant forall j :: 0 <= j < i ==> ns[j] == Resized(nodes[j])
        invariant forall j :: i <= j < |ns| ==> ns[j] == nodes[j]
      {
        var node := ns[i];
        ns := ns[i := node.(width := SpacedWidth(node), height := SpacedHeight(node.level))];
        i := i + 1;
      }
      assert ns == Spaced(nodes);
      SpacedFits(nodes);
      StoreLaws.SameLinksSound(nodes, ns, nextId);
      nodes := ns;
    }

    /**
     * `applySmartLayout`: pick the layout from the node count and the
     * deepest level, resize the nodes, and apply the layout.
     */
    method ApplySmartLayout()
      requires Valid()
      modifies this`nodes, this`layoutType
      ensures Valid()
      ensures |old(nodes)| == 0 ==> nodes == old(nodes) && layoutType == old(layoutType)
      ensures |old(nodes)| > 0 ==>
        && layoutType == SmartChoice(|old(nodes)|, MaxLevel(old(nodes)))
        && nodes == Arrange(Spaced(old(nodes)), layoutType)
    {
      if |nodes| == 0 {
        return;
      }
      var nodeCount := |nodes|;
      var maxLevel := MaxLevel(nodes);
      layoutType := SmartChoice(nodeCount, maxLevel);
      OptimizeNodeSpacing();
      ApplyLayout();
    }

    // -------------------------------------------------------------------
    // Editing the store
    // -------------------------------------------------------------------

    /**
     * `addChildNode`: a new node under the selected node, or under the
     * first node when nothing is selected; then checkpoint and lay out.
     * Under a kept copy the push onto its `children` reaches no stored node.
     */
    method AddChildNode()
      requires Valid()
      modifies this`nodes, this`nextId, this`history, this`historyIndex, this`selected
      ensures Valid()
      ensures |old(nodes)| == 0 ==>
        nodes == old(nodes) && UndoLog() == old(UndoLog()) && nextId == old(nextId) && selected == old(selected)
      ensures |old(nodes)| > 0 ==>
        var added := ChildAdded(old(nodes), old(selected), old(nextId));
        && nextId == old(nextId) + 1
        && UndoLog() == History.Checkpoint(old(UndoLog()), added)
        && nodes == Arrange(added, layoutType)
        && selected == Pushed(old(selected), old(nextId))
    {
      if |nodes| == 0 {
        return;
      }
      AttachChild();
      SaveState();
      ApplyLayout();
    }

    /**
     * The node-list half of `addChildNode`: append the new node and push its
     * id onto the parent object's `children`.
     */
    method AttachChild()
      requires Valid() && |nodes| > 0
      modifies this`nodes, this`nextId, this`selected
      ensures Valid()
      ensures nodes == ChildAdded(old(nodes), old(selected), old(nextId)) && nextId == old(nextId) + 1
      ensures selected == Pushed(old(selected), old(nextId))
    {
      if selected.Some? && selected.value.Stale? {
        var parent := selected.value.node;
        var id := NewId();
        nodes := nodes + [NewChild(parent, id)];
        selected := Some(Stale(parent.(children := parent.children + [id])));
        StoreLaws.AddChildDetachedSound(old(nodes), parent, old(nextId));
      } else {
        var p := ChildParent(nodes, LiveId(selected));
        var parent := nodes[p];
        var id := NewId();
        nodes := nodes + [NewChild(parent, id)];
        nodes := nodes[p := nodes[p].(children := nodes[p].children + [id])];
        assert nodes == AddChild(old(nodes), LiveId(old(selected)), old(nextId));
        StoreLaws.AddChildSound(old(nodes), LiveId(old(selected)), old(nextId));
      }
      PrefixIds(old(nodes), nodes);
    }

    /**
     * `addSiblingNode`: a new node under the selected node's parent; needs
     * a selected node whose parent is in the store. A kept copy still
     * names its parent, and the new node joins that stored parent.
     */
    method AddSiblingNode()
      requires Valid()
      modifies this`nodes, this`nextId, this`history, this`historyIndex
      ensures Valid()
      ensures var added := SiblingAdded(old(nodes), old(selected), old(nextId));
        if |added| == |old(nodes)| then
          nodes == old(nodes) && UndoLog() == old(UndoLog()) && nextId == old(nextId)
        else
          && nextId == old(nextId) + 1
          && UndoLog() == History.Checkpoint(old(UndoLog()), added)
          && nodes == Arrange(added, layoutType)
    {
      if selected.None? {
        return;
      }
      var current := Deref(nodes, selected.value);
      if current.parent.None? {
        return;
      }
      var p := IndexOf(nodes, current.parent.value);
      if p.None? {
        return;
      }
      var parent := nodes[p.value];
      var id := NewId();
      nodes := nodes + [NewSibling(current, parent.id, id)];
      nodes := nodes[p.value := nodes[p.value].(children := nodes[p.value].children + [id])];
      assert nodes == AddSiblingOf(old(nodes), current, old(nextId));
      assert nodes == SiblingAdded(old(nodes), old(selected), old(nextId));
      StoreLaws.AddSiblingOfSound(old(nodes), current, old(nextId));
      PrefixIds(old(nodes), nodes);
      SaveState();
      ApplyLayout();
    }

    /** `copyNode`: keep a copy of the selected node object, stored or kept. */
    method CopyNode()
      requires Valid()
      modifies this`copied
      ensures copied == if selected.Some? then SelectedObject(nodes, selected) else old(copied)
    {
      if selected.Some? {
        copied := Some(Deref(nodes, selected.value));
      }
    }

    /** `clearSelection`. */
    method ClearSelection()
      modifies this`selected
      ensures selected.None?
    {
      selected := None;
    }

    /**
     * `pasteNode`: a copy of the clipboard node, renamed and childless,
     * under the selected node; then checkpoint and lay out. Under a kept
     * copy the push onto its `children` reaches no stored node.
     */
    method PasteNode()
      requires Valid()
      modifies this`nodes, this`nextId, this`history, this`historyIndex, this`selected
      ensures Valid()
      ensures var added := PasteAdded(old(nodes), old(selected), old(copied), old(nextId));
        if |added| == |old(nodes)| then
          nodes == old(nodes) && UndoLog() == old(UndoLog()) && nextId == old(nextId) && selected == old(selected)
        else
          && nextId == old(nextId) + 1
          && UndoLog() == History.Checkpoint(old(UndoLog()), added)
          && nodes == Arrange(added, layoutType)
          && selected == Pushed(old(selected), old(nextId))
    {
      if copied.None? || selected.None? {
        return;
      }
      var id := NewId();
      match selected.value {
        case Live(sid) =>
          var s := IndexOf(nodes, sid).value;
          var target := nodes[s];
          nodes := nodes + [Pasted(copied.value, target, id)];
          nodes := nodes[s := nodes[s].(children := nodes[s].children + [id])];
          assert nodes == Paste(old(nodes), LiveId(old(selected)), old(copied), old(nextId));
          StoreLaws.PasteSound(old(nodes), LiveId(old(selected)), old(copied), old(nextId));
        case Stale(target) =>
          nodes := nodes + [Pasted(copied.value, target, id)];
          selected := Some(Stale(target.(children := target.children + [id])));
          StoreLaws.PasteDetachedSound(old(nodes), target, old(copied), old(nextId));
      }
      PrefixIds(old(nodes), nodes);
      SaveState();
      ApplyLayout();
    }

    /**
     * `deleteSelectedNode`: remove the selected non-root node and every node
     * reachable from its id through `children`, make its parent forget it,
     * clear the selection and checkpoint. There is no layout pass. A kept
     * copy is deleted by its id, which removes nothing when the store holds
     * no node carrying it; the selection is cleared and the log checkpointed
     * all the same.
     */
    method DeleteSelectedNode()
      requires Valid()
      modifies this`nodes, this`selected, this`history, this`historyIndex, this`connecting
      ensures Valid()
      ensures nodes == Deleted(old(nodes), old(selected))
      ensures var o := SelectedObject(old(nodes), old(selected));
        if o.Some? && o.value.level != 0 then
          && selected.None? && UndoLog() == History.Checkpoint(old(UndoLog()), nodes)
          && connecting == Release(old(nodes), old(connecting), Descendants(old(nodes), o.value.id))
        else
          selected == old(selected) && UndoLog() == old(UndoLog()) && connecting == old(connecting)
    {
      if selected.None? {
        return;
      }
      if Deref(nodes, selected.value).level == 0 {
        return;
      }
      RemoveSubtree();
      SaveState();
    }

    /**
     * The node-list half of `deleteSelectedNode`, then `clearSelection`; a
     * pending connect source among the removed nodes keeps its object.
     */
    method RemoveSubtree()
      requires Valid() && selected.Some? && Deref(nodes, selected.value).level != 0
      modifies this`nodes, this`connecting, this`selected
      ensures Valid() && selected.None?
      ensures nodes == Deleted(old(nodes), old(selected))
      ensures connecting == Release(old(nodes), old(connecting), Descendants(old(nodes), RefId(old(selected).value)))
    {
      var current := Deref(nodes, selected.value);
      var toDelete := CollectSubtree(nodes, current.id);
      var remaining := Keep(DetachFromParent(nodes, current), toDelete);
      DeletedKeepsRefs(nodes, selected, connecting, nextId);
      connecting := Release(nodes, connecting, toDelete);
      nodes := remaining;
      ClearSelection();
    }

    /**
     * `createConnection(from, to)` on the nodes at `f` and `t`: re-parent
     * `to` under `from` step by step, then checkpoint and lay out. Nothing
     * happens when the two carry the same id.
     */
    method CreateConnection(f: nat, t: nat)
      requires Valid() && f < |nodes| && t < |nodes|
      modifies this`nodes, this`history, this`historyIndex
      ensures Valid()
      ensures old(nodes)[f].id == old(nodes)[t].id ==> nodes == old(nodes) && UndoLog() == old(UndoLog())
      ensures old(nodes)[f].id != old(nodes)[t].id ==>
        && UndoLog() == History.Checkpoint(old(UndoLog()), Connect(old(nodes), f, t))
        && nodes == Arrange(Connect(old(nodes), f, t), layoutType)
    {
      if nodes[f].id == nodes[t].id {
        return;
      }
      var toId := nodes[t].id;
      nodes := DetachFromParent(nodes, nodes[t]);
      var from := nodes[f];
      nodes := nodes[t := nodes[t].(parent := Some(from.id), level := from.level + 1)];
      if toId !in nodes[f].children {
        nodes := nodes[f := nodes[f].(children := nodes[f].children + [toId])];
      }
      nodes := nodes[t := nodes[t].(color := nodes[t].level % 3)];
      assert nodes == Connect(old(nodes), f, t);
      StoreLaws.ConnectSound(old(nodes), f, t, nextId);
      StoreLaws.ConnectKeepsIds(old(nodes), f, t);
      SaveState();
      ApplyLayout();
    }

    /**
     * `createConnection(from, to)` with `from` an object the store no
     * longer holds and `to` the node at `t`: as above, but the push onto
     * `from.children` reaches no node of the store.
     */
    method CreateConnectionFrom(from: Node, t: nat)
      requires Valid() && t < |nodes|
      modifies this`nodes, this`history, this`historyIndex
      ensures Valid()
      ensures from.id == old(nodes)[t].id ==> nodes == old(nodes) && UndoLog() == old(UndoLog())
      ensures from.id != old(nodes)[t].id ==>
        && UndoLog() == History.Checkpoint(old(UndoLog()), ConnectDetached(old(nodes), from, t))
        && nodes == Arrange(ConnectDetached(old(nodes), from, t), layoutType)
    {
      if from.id == nodes[t].id {
        return;
      }
      nodes := DetachFromParent(nodes, nodes[t]);
      nodes := nodes[t := nodes[t].(parent := Some(from.id), level := from.level + 1)];
      nodes := nodes[t := nodes[t].(color := nodes[t].level % 3)];
      assert nodes == ConnectDetached(old(nodes), from, t);
      StoreLaws.ConnectDetachedSound(old(nodes), from, t, nextId);
      StoreLaws.ConnectDetachedKeepsIds(old(nodes), from, t);
      SaveState();
      ApplyLayout();
    }

    // -------------------------------------------------------------------
    // View
    // -------------------------------------------------------------------

    /** `zoom(factor)`: scale, then clamp to [0.1, 3]. */
    method Zoom(factor: real)
      requires Valid()
      modifies this`scale
      ensures Valid()
      ensures scale == ClampScale(old(scale) * factor)
    {
      scale := scale * factor;
      scale := MaxR(MinScale, MinR(MaxScale, scale));
    }

    /** The zoom of `onWheel`: out by 0.9 when scrolled down, in by 1.1 otherwise, then clamp. */
    method OnWheel(deltaY: real)
      requires Valid()
      modifies this`scale
      ensures Valid()
      ensures scale == ClampScale(old(scale) * WheelFactor(deltaY))
    {
      var scaleFactor := if deltaY > 0.0 then 0.9 else 1.1;
      scale := scale * scaleFactor;
      scale := MaxR(MinScale, MinR(MaxScale, scale));
    }

    /** `updateViewportBounds`: the world rectangle the canvas shows. */
    method UpdateViewportBounds()
      requires Valid()
      modifies this`viewport
      ensures viewport == ViewportBounds(offsetX, offsetY, scale, canvasWidth, canvasHeight)
    {
      viewport := Bounds(-offsetX / scale, (canvasWidth - offsetX) / scale, -offsetY / scale, (canvasHeight - offsetY) / scale);
    }

    // -------------------------------------------------------------------
    // Mouse and keyboard
    // -------------------------------------------------------------------

    /**
     * `onMouseDown` at canvas point (`px`, `py`): in connect mode a click
     * on a node runs the two-click protocol; otherwise a click on a node
     * selects it, and a click on empty canvas changes nothing.
     */
    method OnMouseDown(px: real, py: real)
      requires Valid()
      modifies this`nodes, this`history, this`historyIndex, this`connecting, this`selected
      ensures Valid()
      ensures var hit := GetNodeAt(old(nodes), px, py, offsetX, offsetY, scale);
        if hit.None? then
          nodes == old(nodes) && UndoLog() == old(UndoLog()) && connecting == old(connecting) && selected == old(selected)
        else if !connectionMode then
          && nodes == old(nodes) && UndoLog() == old(UndoLog()) && connecting == old(connecting)
          && selected == Some(Live(old(nodes)[hit.value].id))
        else
          selected == old(selected) && ConnectClickDone(old(nodes), old(connecting), old(UndoLog()), hit.value)
    {
      var node := GetNodeAt(nodes, px, py, offsetX, offsetY, scale);
      if node.None? {
        return;
      }
      if connectionMode {
        ConnectModeClick(node.value);
      } else {
        assert nodes[node.value] in nodes;
        selected := Some(Live(nodes[node.value].id));
      }
    }

    /**
     * The state after a connect-mode click on the node at `t`, from the node
     * list `ns`, the pending source `pending` and the undo log `log` before
     * it: the pending source per the two-click protocol, the hit object
     * being the live node at `t`; when the click completes a pair and the
     * two carry different ids, the re-parenting, checkpointed and laid out.
     */
    ghost predicate ConnectClickDone(ns: seq<Node>, pending: Option<Ref>, log: History.Log<seq<Node>>, t: nat)
      reads this`connecting, this`nodes, this`history, this`historyIndex, this`layoutType
      requires t < |ns| && History.Valid(log) && LiveIn(ns, pending)
    {
      var o := ConnectClick(pending, Live(ns[t].id));
      && connecting == o.pending
      && (o.connect.None? ==> nodes == ns && UndoLog() == log)
      && (o.connect.Some? ==>
            match Connection(ns, o.connect.value.0, t)
            case None => nodes == ns && UndoLog() == log
            case Some(c) => UndoLog() == History.Checkpoint(log, c) && nodes == Arrange(c, layoutType))
    }

    /**
     * The connect-mode branch of `onMouseDown`, on the node at `t`. The
     * source compares node objects: a pending source that left the store
     * is never the node hit, so the click connects from it.
     */
    method ConnectModeClick(t: nat)
      requires Valid() && t < |nodes|
      modifies this`nodes, this`history, this`historyIndex, this`connecting
      ensures Valid()
      ensures ConnectClickDone(old(nodes), old(connecting), old(UndoLog()), t)
    {
      var o := ConnectClick(connecting, Live(nodes[t].id));
      if o.connect.Some? {
        match o.connect.value.0
        case Live(a) =>
          var f := IndexOf(nodes, a).value;
          assert Connection(nodes, Live(a), t) == if a == nodes[t].id then None else Some(Connect(nodes, f, t));
          CreateConnection(f, t);
        case Stale(n) =>
          assert Connection(nodes, Stale(n), t) == if n.id == nodes[t].id then None else Some(ConnectDetached(nodes, n, t));
          CreateConnectionFrom(n, t);
      }
      connecting := o.pending;
    }

    /** `navigateNodes(direction)`: Tab and Shift-Tab through the store with wrap-around. */
    method NavigateNodes(direction: int)
      requires Valid()
      modifies this`keyboardNavIndex, this`selected
      ensures Valid()
      ensures |nodes| == 0 ==> keyboardNavIndex == old(keyboardNavIndex) && selected == old(selected)
      ensures |nodes| > 0 ==>
        && keyboardNavIndex == WrapStep(old(keyboardNavIndex), direction, |nodes|)
        && selected == Some(Live(nodes[keyboardNavIndex].id))
    {
      if |nodes| == 0 {
        return;
      }
      keyboardNavIndex := keyboardNavIndex + direction;
      if keyboardNavIndex < 0 {
        keyboardNavIndex := |nodes| - 1;
      }
      if keyboardNavIndex >= |nodes| {
        keyboardNavIndex := 0;
      }
      assert nodes[keyboardNavIndex] in nodes;
      selected := Some(Live(nodes[keyboardNavIndex].id));
    }

    /**
     * `navigateWithArrows(key)`: with no selection select the first node
     * (none on an empty list); otherwise move from the selected object,
     * stored or kept, to the arrow's target, if there is one.
     */
    method NavigateWithArrows(key: Arrow)
      requires Valid()
      modifies this`selected
      ensures Valid()
      ensures old(selected).None? ==> selected == if |nodes| > 0 then Some(Live(nodes[0].id)) else None
      ensures old(selected).Some? ==>
        var t := ArrowTarget(nodes, Deref(nodes, old(selected).value), key);
        selected == if t.Some? then Some(Live(nodes[t.value].id)) else old(selected)
    {
      if selected.None? {
        if |nodes| > 0 {
          assert nodes[0] in nodes;
          selected := Some(Live(nodes[0].id));
        }
        return;
      }
      var current := Deref(nodes, selected.value);
      var target := ArrowTarget(nodes, current, key);
      if target.Some? {
        assert nodes[target.value] in nodes;
        selected := Some(Live(nodes[target.value].id));
      }
    }
  }
}
