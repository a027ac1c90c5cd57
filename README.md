# MindMap editor core in Dafny

This project models the core of the `MindMap` class in `mindmap.js`. That class is a canvas
mind-map editor. It keeps a flat list of node boxes that form a tree through `parent` and `children` ids.
The model covers:

- **Node store.** Adding the root, a child, a sibling or a pasted copy; copy; clearing the selection;
  deleting a node with its whole subtree; re-parenting in connect mode.
- **Undo log.** `saveState`, `undo`, `redo`: at most 50 snapshots and a cursor.
- **Automatic layouts.** Tree, fishbone, timeline and org; the smart-layout rule; `optimizeNodeSpacing`
  sizing.
- **View transform.** Zoom clamp, wheel zoom, viewport bounds, visibility culling, hit testing and the
  bounding box of all nodes.
- **Interaction.** The connect-mode click, Tab / Shift+Tab cycling, arrow-key navigation.
- **Export.** The plain-text outline export.

Modules:

- `Nodes` (nodes.dfy): the node record, id lookup with first match, children by `parent` field,
  reachability through `children`, and the tree invariant `WellFormed`.
- `Store` (store.dfy): each structural operation as a function from the old node list to the new one.
  It also holds `CollectSubtree`, the work-list walk that collects the ids `deleteSelectedNode` removes.
- `StoreLaws` (store_laws.dfy): what those operations preserve. Add child, sibling, paste and delete
  keep the tree invariant and the id discipline. Connect keeps the id discipline but, as written, can
  break the tree.
- `History` (history.dfy): the bounded undo log and its round trips.
- `Layout` (layout.dfy): where each layout puts each node, the sizing rule and the smart choice.
- `TreeLaws` (tree_laws.dfy): where the tree layout puts every node of a well-formed tree.
- `Viewport` (viewport.dfy): screen/world conversion, culling, hit testing, bounds, zoom clamp.
- `Navigation` (navigation.dfy): Tab cycling, the arrow-key target, the connect-mode click machine.
- `Outline` (outline.dfy): the text outline and the shape of its lines.
- `Editor` (mindmap.dfy): class `MindMap` with the source's fields and its methods. Each method
  changes its `modifies` fields and states the new state through the functions above. Loops stay
  loops: the level walk of the tree layout, the child loops of the other layouts, the resize loop
  and the subtree walk.

The editor keeps this invariant (`Editor.MindMap.Valid`):

- ids are unique and below the next fresh id, and a level-0 node has no parent;
- the undo log is well formed and every snapshot in it obeys the same id rule;
- the scale lies in [0.1, 3.0];
- a selection or pending connect source that refers to a node object of the store carries an id the
  store holds, and a selected object the store no longer holds has no parent when it is on level 0.

Every method that changes the store preserves it. The scale bound holds because every modelled
operation that sets the scale clamps it; `fitToScreen`, which can set a scale below 0.1, is not modelled.

`Date.now()` ids become a counter `nextId` that starts at 1. A fresh id is never 0, so the
source's truthiness tests on ids agree with the model's `Some`/`None`. The clipboard `copiedNode` is
a deep copy in the source and a node value in the model. The selection `selectedNode` and the pending
connect source `connectingNode` each become an `Editor.Ref`: `Live(id)` while the object held is in the
store, or `Stale(node)`, a copy of that object, once a delete or an undo or redo has taken it out of
the store. The source keeps the object in both cases, and later operations still use it.

Behaviour of `mindmap.js` that the model keeps as written:

- `createConnection` does not reject a cycle, and it leaves the levels below the moved node as they were;
- `createConnection` appends to the new parent's `children` only when the id is not already listed;
- a connect from a source object that has left the store pushes onto that detached object, so no node
  of the store lists the moved node;
- after an undo or redo the selection is the replaced object: `addChildNode` and `pasteNode` push the
  new id onto it, so no stored node lists the new node; `addSiblingNode` reads its old fields;
  `copyNode` copies it; the arrow keys move from its old `parent` and `children`; and
  `deleteSelectedNode` removes what its id still reaches, which is nothing once that id has gone, and
  then clears the selection and checkpoints, which discards the redo entries;
- the smart layout falls back to radial, and its thresholds are 20 nodes, depth 3 and 8 nodes.

## Model

| member | source | states |
|---|---|---|
| Editor.MindMap.constructor | mindmap.js:2-54 | A new editor holds exactly one root box centred on the canvas, a log with that one snapshot under the cursor, radial layout, scale 1, no offset, no selection and no pending connection, and `Valid()` holds |
| Editor.MindMap.Init | mindmap.js:49-54 | On an empty store with an empty log, init adds the root and checkpoints it: the log holds one snapshot equal to the store |
| Editor.MindMap.AddRootNode | mindmap.js:64-82 | Appends one centred level-0 box with the fresh id and keeps the editor invariant; nothing else in the list changes |
| Editor.MindMap.NewId | mindmap.js:268 | The id handed out is fresh: no node and no snapshot in the log carries it, and the next one is larger |
| Editor.MindMap.AddChildNode | mindmap.js:259-289 | On an empty list nothing changes. Otherwise the log gains a checkpoint of the list with the child added under the selected object (or the first node), the store becomes that list laid out again, a selected object the store no longer holds takes the new id in its own children, and the invariant holds |
| Editor.MindMap.AttachChild | mindmap.js:262-284 | The store becomes `ChildAdded`: under a stored selection (or the first node) as `AddChild`, under a replaced one as `AddChildDetached`; the replaced object alone gains the new id, and the invariant holds |
| Editor.MindMap.AddSiblingNode | mindmap.js:1034-1066 | Without a selected object whose parent id is stored nothing changes, not even the log. Otherwise a checkpoint of the list with the sibling added from the selected object's fields (a replaced one's old fields included), then the layout of it |
| Editor.MindMap.CopyNode | mindmap.js:1819-1823 | With a selection the clipboard becomes the selected object, the stored node or the replaced copy; without one it is left alone |
| Editor.MindMap.ClearSelection | mindmap.js:1826-1829 | Afterwards nothing is selected |
| Editor.MindMap.PasteNode | mindmap.js:1832-1850 | Without both a clipboard copy and a selection nothing changes. Otherwise the log gains a checkpoint of the list with the renamed copy under the selected object, the store is its layout, and a selected object the store no longer holds takes the new id in its own children |
| Editor.MindMap.DeleteSelectedNode | mindmap.js:1068-1095 | The store becomes `Deleted` of the old store and selection. When a non-root object is selected, stored or replaced, the selection is cleared and the log gains a checkpoint of the new store; a pending connect source inside the removed subtree becomes a stale copy of its object. Otherwise selection, log and pending source are unchanged |
| Editor.MindMap.RemoveSubtree | mindmap.js:1070-1091 | Removing what the selected object's id reaches and detaching that id from its parent yields `Deleted`, clears the selection and keeps the invariant; a pending connect source among the removed nodes becomes stale |
| Editor.DeletedKeepsRefs | mindmap.js:1068-1095 | Deleting the selection is `DeleteObject` of the selected object, keeps the id discipline, and a released pending source that stays live still names a node |
| Editor.DeleteReplacedSelection | mindmap.js:1068-1095 | Select a node, undo past its creation, delete: the list is unchanged, yet the checkpoint the delete makes leaves nothing to redo where there was something before |
| Store.CollectSubtree | mindmap.js:1072-1081 | The work-list walk returns exactly the ids reachable from the start id through `children` lists, a set closed under children |
| Editor.MindMap.CreateConnection | mindmap.js:1007-1032 | Connecting a node to itself changes nothing. Otherwise the log gains a checkpoint of `Connect(old, from, to)` and the store becomes its layout. The id rule of the invariant survives |
| Editor.MindMap.CreateConnectionFrom | mindmap.js:1007-1032 | Connecting from a source object that is no longer in the store: same id as the target changes nothing; otherwise the log gains a checkpoint of `ConnectDetached(old, from, to)` and the store becomes its layout, with the invariant kept |
| Editor.MindMap.SaveState | mindmap.js:1389-1397 | The log becomes `Checkpoint(old log, nodes)`: future entries dropped, the snapshot appended under the cursor, the oldest evicted past 50 |
| Editor.MindMap.Undo | mindmap.js:1399-1406 | The cursor steps back when it can and the store becomes the snapshot under it, parsed into new objects, so a live selection and a live pending connect source each become a stale copy of the old object; at the first snapshot store, log, selection and pending source are unchanged |
| Editor.MindMap.Redo | mindmap.js:1408-1415 | The cursor steps forward when it can and the store becomes the snapshot under it, and a live selection and pending connect source become stale; at the last snapshot store, log, selection and pending source are unchanged |
| Editor.MindMap.ApplyLayout | mindmap.js:1128-1150 | The store becomes `Arrange(old, layoutType)`: only coordinates change, and the invariant holds |
| Editor.MindMap.ApplyTreeLayout | mindmap.js:1174-1194 | Running the recursive level walk from the root gives `Arrange(old, Tree)` |
| Editor.MindMap.PositionLevel | mindmap.js:1178-1191 | Placing a row of children from `x` in steps of 120, each followed by its own subtree, yields `TreeRow` of the old list |
| Editor.MindMap.PositionNode | mindmap.js:1180-1189 | One child of the walk is placed at its spot and its children are laid out one row lower, giving `PlaceSubtree` |
| Editor.MindMap.ApplyFishboneLayout | mindmap.js:1196-1204 | The loop over the root's children gives `Arrange(old, Fishbone)` |
| Editor.MindMap.ApplyTimelineLayout | mindmap.js:1206-1212 | The loop over the root's children gives `Arrange(old, Timeline)` |
| Editor.MindMap.ApplyOrgLayout | mindmap.js:1214-1223 | The loop over the root's children gives `Arrange(old, Org)` |
| Editor.MindMap.ChangeLayout | mindmap.js:1097-1102 | The layout kind is set and the store is laid out with it |
| Editor.MindMap.OptimizeNodeSpacing | mindmap.js:620-637 | The resize loop leaves every box resized for its level and text (`Spaced`) and nothing else changed |
| Editor.MindMap.ApplySmartLayout | mindmap.js:585-617 | Nothing happens on an empty store. Otherwise the layout kind becomes the smart choice for the node count and deepest level, and the store becomes the resized list laid out with it |
| Editor.MindMap.Zoom | mindmap.js:1417-1421 | The scale becomes the old scale times the factor, clamped to [0.1, 3.0] |
| Editor.MindMap.OnWheel | mindmap.js:225-232 | Wheel down scales by 0.9 and wheel up by 1.1, clamped; the scale stays in range |
| Editor.MindMap.UpdateViewportBounds | mindmap.js:1713-1720 | The stored viewport is the world rectangle the canvas shows under the current offset and scale |
| Editor.MindMap.OnMouseDown | mindmap.js:150-176 | A click on empty canvas changes nothing and keeps the selection. Outside connect mode a hit selects the first node under the mouse and changes nothing else. In connect mode a hit runs the connect-click step and leaves the selection alone |
| Editor.MindMap.ConnectModeClick | mindmap.js:157-165 | The first click on a node records its object as source. A later click on a node with another id connects from the recorded object, whether it is still in the store or not (checkpoint of `Connection` and layout), and clears the source. A click on the same node changes nothing |
| Editor.MindMap.NavigateNodes | mindmap.js:1762-1772 | On an empty list nothing changes. Otherwise the Tab index moves by the direction with wrap-around and the node at the new index becomes the selection |
| Editor.MindMap.NavigateWithArrows | mindmap.js:1775-1816 | With no selection the first node is selected, or none on an empty list. Otherwise the arrow's target is computed from the selected object's own `parent` and `children`, a replaced object's included, and the selection moves there when there is one and stays otherwise |
| Editor.Deref | mindmap.js:1069 | The selected object carries the reference's id; a live one is a node of the store, a stale one is the kept copy |
| Editor.SelectedObject | mindmap.js:1820 | There is a selected object exactly when there is a selection, and it carries the selection's id |
| Editor.Release | mindmap.js:1068-1095 | When the objects with the given ids leave the store, a live reference to one of them becomes a stale copy of that object with the same id; every other reference is kept; a live result never names a departed id |
| Editor.Connection | mindmap.js:1007-1032 | A connect from a live or a stale source does nothing exactly when source and target carry the same id; otherwise the list keeps its length and ids and the target names the source's id as parent |
| Editor.ConnectFromDeletedSource | mindmap.js:157-165 | Click a node in connect mode, delete a subtree holding it, click a surviving node: the click connects, and the moved node names a parent id no node carries |
| Editor.ConnectFromReplacedSource | mindmap.js:1399-1415 | Click a node in connect mode, undo or redo, click another node: the click connects from the replaced object, so the live copy of the source does not list the moved node and the tree is no longer well formed |
| Store.ChildParent | mindmap.js:262 | A new child goes under the selected node when it is listed, otherwise under the first node; the index is always in range |
| StoreLaws.AddChildAppends | mindmap.js:259-289 | Adding a child appends one box with the fresh id, no children, the parent's id and one level deeper. The parent lists the new id last and every other node is untouched |
| StoreLaws.AddChildWellFormed | mindmap.js:259-289 | Adding a child with a fresh id to a well-formed tree gives a well-formed tree |
| StoreLaws.AddSiblingWellFormed | mindmap.js:1034-1066 | Adding a sibling with a fresh id keeps the tree well formed |
| StoreLaws.PasteWellFormed | mindmap.js:1832-1850 | Pasting with a fresh id keeps the tree well formed whatever the clipboard holds |
| StoreLaws.AddChildSound | mindmap.js:259-289 | Adding a child keeps ids unique and below the next counter value |
| StoreLaws.AddChildDetachedAppends | mindmap.js:259-289 | Adding a child under an object the store no longer holds appends one box with the fresh id, no children, that object's id as parent and one level deeper, and changes no stored node |
| StoreLaws.AddChildDetachedSound | mindmap.js:259-289 | Adding a child under a replaced object keeps ids unique and below the next counter value |
| StoreLaws.AddChildDetachedBreaksTree | mindmap.js:283-284 | Adding a child under a replaced object of a well-formed tree leaves a node no stored parent lists, so the list is not a well-formed tree |
| StoreLaws.UnlistedBreaksTree | mindmap.js:283-284 | Appending a childless node with a fresh id that names a parent makes a well-formed list ill-formed, because no node lists it |
| StoreLaws.AddSiblingOfAppends | mindmap.js:1034-1066 | A sibling of the given object goes under the stored node carrying its parent id: one box appended with the fresh id, no children, the same parent and level, the parent lists it last and every other node is untouched; nothing changes without that parent |
| StoreLaws.AddSiblingOfWellFormed | mindmap.js:1034-1066 | Adding a sibling of an object one level below its stored parent, with a fresh id, keeps the tree well formed |
| StoreLaws.AddSiblingOfSound | mindmap.js:1034-1066 | Adding a sibling of an object that is parentless on level 0 keeps ids unique and below the counter |
| StoreLaws.PasteDetachedAppends | mindmap.js:1832-1850 | Pasting under an object the store no longer holds appends one renamed childless box with the fresh id, that object's id as parent and one level deeper, and changes no stored node |
| StoreLaws.PasteDetachedSound | mindmap.js:1832-1850 | Pasting under a replaced object keeps ids unique and below the counter |
| StoreLaws.PasteDetachedBreaksTree | mindmap.js:1845-1846 | Pasting under a replaced object of a well-formed tree leaves a node no stored parent lists, so the list is not a well-formed tree |
| StoreLaws.AddSiblingSound | mindmap.js:1034-1066 | Adding a sibling keeps ids unique and below the next counter value |
| StoreLaws.PasteSound | mindmap.js:1832-1850 | Pasting keeps ids unique and below the next counter value |
| StoreLaws.AttachFreshWellFormed | mindmap.js:267-284 | Pushing a fresh id onto a parent's children and appending the matching level-plus-one box keeps the tree well formed |
| StoreLaws.DeleteWellFormed | mindmap.js:1068-1095 | Deleting the selected subtree keeps the tree well formed: the root survives, and no remaining node names a removed parent or child |
| StoreLaws.RootSurvives | mindmap.js:1069-1081 | The root is never among the descendants of a non-root node |
| StoreLaws.DeleteSelectedEffect | mindmap.js:1068-1095 | After deleting a non-root node, none of its descendants remain. Every other node remains, in order, with only the deleted id dropped from its parent's children |
| StoreLaws.DeleteForgetsSelected | mindmap.js:1083-1090 | After the delete, no remaining node lists the deleted node as a child |
| StoreLaws.DeleteSound | mindmap.js:1068-1095 | Deleting keeps ids unique and below the counter, and keeps level-0 nodes parentless |
| StoreLaws.DescendantsClosed | mindmap.js:1072-1081 | The collected set contains the start node and the children of each of its members |
| StoreLaws.ConnectMoves | mindmap.js:1007-1032 | After connecting, the target has the source as parent, the source's level plus one, and the palette slot of that level. No other node changes parent or level, and no id changes |
| StoreLaws.ConnectSteps | mindmap.js:1010-1015 | The first step only removes the target's id from its old parent's children, and leaves every other node as it was |
| StoreLaws.ConnectListsOnce | mindmap.js:1020-1022 | Afterwards the source lists the target exactly once, if it listed it at most once before |
| StoreLaws.ConnectOldParentForgets | mindmap.js:1010-1015 | The old parent, when it is not the source, no longer lists the target |
| StoreLaws.ConnectToOwnParentMovesLast | mindmap.js:1007-1032 | Connecting a node to its own parent only moves it to the end of the parent's children |
| StoreLaws.ConnectSound | mindmap.js:1007-1032 | Connecting keeps the id discipline (unique ids below the counter, parentless level-0 nodes) |
| StoreLaws.ConnectKeepsIds | mindmap.js:1007-1032 | Connecting keeps the list length and its set of ids |
| StoreLaws.ConnectDetachedMoves | mindmap.js:1007-1032 | Connecting from a detached source gives the target that source's id as parent, its level plus one and the matching palette slot; every node keeps its id, and its children or those minus the target; no other node changes parent or level |
| StoreLaws.ConnectDetachedKeepsIds | mindmap.js:1007-1032 | Connecting from a detached source keeps the list length and its set of ids |
| StoreLaws.ConnectDetachedSound | mindmap.js:1007-1032 | Connecting from a detached source keeps the id discipline |
| StoreLaws.ConnectDetachedDiffersAtSource | mindmap.js:1020-1022 | Connecting from a detached copy of a node agrees with connecting from the node itself everywhere but the source, whose live object alone gains the target in its children |
| StoreLaws.ConnectDeletedSourceOrphans | mindmap.js:1007-1032 | Connecting from a source whose id is no longer stored leaves the target naming a parent no node carries, so the list is not a well-formed tree |
| StoreLaws.ConnectReplacedSourceUnlisted | mindmap.js:1007-1032 | Connecting from a replaced copy of a stored node leaves the stored node not listing the target that names it as parent, so the list is not a well-formed tree |
| StoreLaws.DeleteSpares | mindmap.js:1068-1095 | A node outside the selected node's subtree survives the delete |
| StoreLaws.DeleteObjectSpares | mindmap.js:1068-1095 | A node outside the subtree of the selected object's id survives the delete, whether the store holds that object or not |
| StoreLaws.DeleteObjectSound | mindmap.js:1068-1095 | Deleting for any selected object keeps the id discipline |
| StoreLaws.DeleteObjectEffect | mindmap.js:1068-1095 | After deleting for a non-root object, none of its id's descendants remain; every other node remains, in order, with only that id dropped from its parent's children |
| StoreLaws.DeleteGoneObjectKeepsList | mindmap.js:1068-1095 | On a well-formed tree, deleting for an object whose id no node carries leaves the list exactly as it was |
| StoreLaws.DeleteRemoves | mindmap.js:1068-1095 | Every node of the selected non-root node's subtree is gone after the delete |
| StoreLaws.ConnectLeavesDescendantLevelsStale | mindmap.js:1017-1018 | When the moved node has a child and its new level differs from the old, the result is not a well-formed tree, because the child's level is not updated |
| StoreLaws.ConnectUnderOwnChildMakesCycle | mindmap.js:1007-1032 | Connecting a node under its own child leaves each as the other's parent: a cycle |
| StoreLaws.ConnectHazardsOccur | mindmap.js:1007-1032 | A concrete four-node well-formed tree on which a connect produces a tree that is not well formed |
| History.Checkpoint | mindmap.js:1389-1397 | The result is valid, the cursor is on the last entry, which is the new snapshot, and the entries before it are the old ones up to the cursor, minus the oldest when the log was full |
| History.CheckpointKeeps | mindmap.js:1389-1397 | A checkpoint only keeps snapshots that were already logged, plus the new one |
| History.FirstCheckpoint | mindmap.js:1389-1397 | The first checkpoint of an empty log holds exactly that snapshot, under the cursor |
| History.Undo | mindmap.js:1399-1406 | The entries are kept, the cursor moves back exactly when there is an older snapshot, and nothing changes otherwise |
| History.Redo | mindmap.js:1408-1415 | The entries are kept, the cursor moves forward exactly when there is a newer snapshot, and nothing changes otherwise |
| History.UndoAfterCheckpoint | mindmap.js:1389-1406 | Undo right after a checkpoint is possible and restores the snapshot that was current before it |
| History.RedoAfterCheckpointIsNoOp | mindmap.js:1389-1415 | After a checkpoint there is nothing to redo |
| History.RedoUndo | mindmap.js:1399-1415 | A redo after an undo that happened gives back the same log |
| History.UndoRedo | mindmap.js:1399-1415 | An undo after a redo that happened gives back the same log |
| History.UndoNIndex | mindmap.js:1399-1406 | `k` undos move the cursor back by `k`, stopping at the first snapshot |
| History.UndoRedoRoundTrip | mindmap.js:1399-1415 | `k` undos followed by `k` redos restore the log, as long as the `k` undos all happen |
| Layout.RootIndex | mindmap.js:1131-1132 | The root the layouts start from is the first level-0 node, and there is none exactly when no node has level 0 |
| Layout.Arrange | mindmap.js:1128-1150 | Every layout keeps the list length and changes nothing but `x` and `y` |
| Layout.ArrangeKeepsRoot | mindmap.js:1128-1150 | No layout moves the parentless root it starts from |
| Layout.ArrangeRootChildren | mindmap.js:1196-1223 | Fishbone, timeline and org put the `j`-th child of the root at its spot for `j` and the child count, and leave every node that is not a root child where it was |
| Layout.SpreadPlaces | mindmap.js:1196-1223 | The spread over a list of distinct indices puts each listed node at its own spot and leaves the others unchanged |
| TreeLaws.TreeArrangePlaces | mindmap.js:1174-1194 | On a well-formed tree the layout starts from the first node and leaves it in place; every other node lands exactly on its level's row, the root's y plus 100 per level; and the children of every node, in store order, sit 120 apart in a row centred under it |
| TreeLaws.TreeRowPlaces | mindmap.js:1178-1191 | One `positionLevel` call puts the `m`-th node of its row at the start x plus 120 per step, every node of their subtrees on its level's row, and the children of each centred under it |
| TreeLaws.PlaceSubtreePlaces | mindmap.js:1180-1189 | Placing one node puts it at its x, and every node of its subtree on its row with its children centred under it |
| TreeLaws.PlaceFrame | mindmap.js:1180-1189 | Placing one node and its children moves no node outside its subtree |
| TreeLaws.TreeRowFrame | mindmap.js:1178-1191 | A `positionLevel` call moves no node outside the subtrees of the nodes of its row |
| TreeLaws.TreeLayered | mindmap.js:1174-1194 | In a well-formed tree every node is found by its id and sits one level below its parent |
| TreeLaws.LevelBound | mindmap.js:1174-1194 | In a well-formed tree no level exceeds the node count minus one, so a walk bounded by the node count reaches every level |
| TreeLaws.TopIsRoot | mindmap.js:1174-1194 | In a well-formed tree every node climbs by parent links to the first node |
| Layout.TreeRow | mindmap.js:1178-1191 | A row of the tree walk only moves nodes and never moves a parentless node |
| Layout.PlaceSubtree | mindmap.js:1180-1189 | Placing one child and its subtree only moves nodes, keeps that child's parent and never moves a parentless node |
| Layout.TreeChildLevels | mindmap.js:1174-1194 | In a well-formed tree every child sits exactly one level below its parent, which is what lets the walk's depth match the node level |
| Layout.FishboneY | mindmap.js:1196-1204 | Even children go below the spine and odd ones above, 80 plus 40 per pair away |
| Layout.FishbonePairs | mindmap.js:1196-1204 | Each pair of fishbone children shares an x, mirrors about the root's y, and the next pair is 50 to the right and 40 further out |
| Layout.TimelineIncreasing | mindmap.js:1206-1212 | Timeline children run strictly left to right, 200 apart in list order |
| Layout.OrgCentered | mindmap.js:1214-1223 | Org children are spaced 150 apart and centred under the root: the `k`-th from the left and the `k`-th from the right average to the root's x |
| Layout.SpacedWidth | mindmap.js:630-633 | The new width is the larger of the level's base width and 8 per character plus 20, and at least both |
| Layout.SpacedHeight | mindmap.js:634 | The new height lies in [30, 40] and drops by 3 per level for the first levels |
| Layout.SpacedFits | mindmap.js:620-637 | Resizing keeps ids and links, makes every box fit its text and level, and is idempotent |
| Layout.SizesShrinkWithDepth | mindmap.js:630-634 | A deeper level never gets a larger base width or height |
| Layout.MaxLevel | mindmap.js:591 | The deepest level is at least every node's level and is attained by some node |
| Layout.SmartChoice | mindmap.js:594-601 | Tree exactly when there are more than 20 nodes; org exactly when at most 20 and deeper than 3; fishbone exactly when fewer than 8 and at most 3 deep; radial otherwise; never timeline |
| Viewport.ScreenWorldRoundTrip | mindmap.js:138-139 | Screen-to-world and world-to-screen are inverse for a positive scale |
| Viewport.ViewportBounds | mindmap.js:1713-1720 | The viewport corners are the world images of the canvas corners |
| Viewport.ViewportShowsCanvas | mindmap.js:1713-1720 | A world x lies within the viewport exactly when its screen image lies on the canvas |
| Viewport.VisibleIffOverlap | mindmap.js:1723-1729 | A node is visible exactly when its box, grown by the 50-unit margin, overlaps the viewport |
| Viewport.VisibleNodes | mindmap.js:1732-1734 | The visible list is an order-preserving sublist holding exactly the visible nodes |
| Viewport.NodeAt | mindmap.js:137-148 | The hit is the first node whose box contains the world point; there is no hit exactly when no box contains it |
| Viewport.ClickOnCentreFinds | mindmap.js:137-148 | A click on a node's centre always hits that node or one listed before it |
| Viewport.NodesBounds | mindmap.js:1369-1387 | An empty list gives the zero box. Otherwise the box contains every node's box, and the centre is the box's midpoint |
| Viewport.NodesBoundsTight | mindmap.js:1369-1387 | Each side of the box is the edge of some node, so the box is the smallest that fits |
| Viewport.BoundsFromAttained | mindmap.js:1375-1380 | Each side of the folded box is the starting value or the edge of some node folded in |
| Viewport.ClampScale | mindmap.js:1417-1421 | The clamped scale lies in [0.1, 3.0], equals the input inside that range and the nearer end outside it |
| Viewport.ClampIdempotent | mindmap.js:1417-1421 | Clamping twice is clamping once |
| Navigation.WrapStep | mindmap.js:1765-1767 | The new Tab index is in range and is the plain step whenever that step stays in range |
| Navigation.WrapStepIsModular | mindmap.js:1765-1767 | Tab is `+1` and Shift+Tab `-1` modulo the node count |
| Navigation.TabShiftTabInverse | mindmap.js:1765-1767 | Tab then Shift+Tab, or the reverse, returns to the same index |
| Navigation.TabsCycle | mindmap.js:1765-1767 | `m` Tabs from index `k` land on `(k + m)` modulo the node count, so as many Tabs as nodes visit every node and come back |
| Navigation.FirstPos | mindmap.js:1801 | The position found holds the id and no earlier one does; none exactly when the id is not listed |
| Navigation.ArrowTarget | mindmap.js:1775-1816 | From the current node object, stored or not, Up reaches the node carrying its parent id and Down the node carrying its first child id, and each has a target exactly when that id is in the store |
| Navigation.DownThenUp | mindmap.js:1775-1816 | In a well-formed tree, Down then Up returns to the starting node |
| Navigation.UpFromRoot | mindmap.js:1785-1789 | Up from the root goes nowhere |
| Navigation.ArrowSibling | mindmap.js:1795-1808 | Left and Right move to the previous and next id in the parent's children list when there is one, and nowhere otherwise |
| Navigation.SiblingStepAt | mindmap.js:1797-1806 | From a listed position the sibling step is the lookup of the neighbouring listed id, or nothing past either end |
| Navigation.RightThenLeft | mindmap.js:1795-1808 | In a well-formed tree, Right then Left returns to the starting node |
| Navigation.ConnectClick | mindmap.js:157-165 | A connect happens exactly when a source is pending and the click is on another node, and then the source is cleared. Otherwise the pending source is kept, or becomes the clicked node |
| Navigation.TwoClicksConnect | mindmap.js:157-165 | Two clicks on distinct nodes, starting with nothing pending, connect the first to the second |
| Outline.BuildAllRenders | mindmap.js:1518-1528 | The string built by the recursive outline walk is the rendering of its list of (depth, node, text) entries, line by line |
| Outline.EntriesPreOrder | mindmap.js:1518-1528 | The outline walk is pre-order: it starts at the start node's depth, never goes shallower, descends one level at a time, and is empty exactly when the start id is absent |
| Outline.EntriesFollowLevels | mindmap.js:1518-1528 | In a list whose children are one level below their parents, each line's indentation depth, counted from the start node, follows the node's level |
| Outline.WalkShape | mindmap.js:1518-1528 | The walk from a listed node begins with that node's own line at the requested depth |
| Outline.ExportShape | mindmap.js:1515-1537 | Without a level-0 node the export is the header alone. Otherwise it is the header followed by the walk from the first level-0 node |
| Outline.ExportIndentsByLevel | mindmap.js:1515-1537 | For a well-formed tree the export starts at the first node, and every line is indented by its node's level |
| Outline.RenderHead | mindmap.js:1522-1523 | The rendering of a walk begins with the line of its first entry |

## Left out

- The radial layout is left out because it uses trigonometry on floating point. `Layout.Arrange` leaves positions unchanged for the radial kind.
- Drawing is left out: `render`, the minimap, the grid, connection curves, node styles, particles, notifications and themes. The node colour is kept only as its palette slot, `level % 3`.
- Audio, dragging, hover detection, the context menu, AI suggestions, persistence and autosave are left out. They are I/O or timers.
- `fitToScreen` and `fitToNode` are left out. They only change the view after a layout and never the store. `fitToScreen` sets the scale to `Math.min(scaleX, scaleY, 1)` with no lower bound, so on a wide map the source's scale can fall below 0.1, and on a canvas narrower than 100 it turns negative; the model's invariant that the scale stays in [0.1, 3.0] holds only because `fitToScreen` is not modelled. `applySmartLayout` also computes `getNodesBounds()` into a local that it never reads; `fitToScreen` computes its own bounds.
- The canvas size, the mouse position after subtracting the canvas rectangle, and the key pressed are parameters of the model's methods.
- `Date.now()` ids become the counter `nextId`. Two nodes created in the same millisecond would share an id in the source; they never do in the model.
- The undo log stores node lists as values. The source stores `JSON.stringify` strings and parses them back, so the two agree on value.
- Editor.MindMap.Undo: the selection and the pending connect source are kept as two separate copies. When both hold the same replaced object, the source's push onto it through one (`addChildNode`, `pasteNode`, `createConnection`) is visible through the other; in the model the other copy does not see it.
- Editor.MindMap.DeleteSelectedNode: on a `children` graph with a cycle reachable from the selection (a connect can create one), the source's `findChildren` recursion exhausts the call stack, so the delete throws before it changes the store, the selection or the log. The model's `Store.CollectSubtree` computes the finite reachable set and deletes it.
- Layout.TreeRow: `positionLevel` finds children by their `parent` field. With unique ids every node names one parent node, and the parentless root is no node's child, so the walk from the root visits each node at most once and always ends; only duplicate ids, which the invariant excludes, could make it repeat. The model bounds the recursion by a fuel argument equal to the node count. `TreeLaws.TreeArrangePlaces` proves that this fuel suffices on well-formed trees; for lists that only keep the id discipline it is not proved.
- Outline.Entries: `buildOutline` also finds children by their `parent` field and starts from the parentless first level-0 node, so the same holds. The model bounds the walk by fuel equal to the node count; that this fuel suffices is not proved.
- Layout.SpacedWidth: lengths count characters, while JavaScript's `text.length` counts UTF-16 code units. The difference matters only for `optimizeNodeSpacing`'s width.
- Viewport.ScreenWorldRoundTrip: coordinates, the scale and the offset are exact reals, while the source computes in IEEE doubles. The round trip holds exactly only on reals, and the same goes for the products in `Editor.MindMap.Zoom` and `Editor.MindMap.OnWheel`. Rounding can also move a box edge across the margin in `Viewport.VisibleIffOverlap` or across the mouse position in `Viewport.NodeAt`.
- Store.Connect: modelled as written. There is no cycle check and the levels below the moved node are not updated. `StoreLaws.ConnectLeavesDescendantLevelsStale` and `StoreLaws.ConnectUnderOwnChildMakesCycle` show the resulting broken trees. No corrected re-parenting is modelled. The class invariant therefore only keeps the id discipline, not the full tree invariant.
- Navigation.SiblingStep: the source throws when a listed sibling id is missing from `nodes`. The model treats that keystroke as having no effect.
- Editor.MindMap.OptimizeNodeSpacing: the source groups nodes by level in a dictionary keyed by the level as a string before resizing them. Grouping does not change the result, so the model resizes each node in list order.
- Editor.MindMap.ApplyFishboneLayout: the fishbone, timeline and org loops compute on a local copy of the list and assign it to `nodes` once at the end. The source updates the shared node objects in place; the final state is the same.
