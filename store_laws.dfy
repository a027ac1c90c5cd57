/**
 * What the node-list operations of module Store promise: what each adds or
 * removes, that adding and deleting keep the list a tree, and that
 * re-parenting does not.
 */
module StoreLaws {
  import opened Nodes
  import opened Store

  // ---------------------------------------------------------------------
  // Adding a node under an existing one
  // ---------------------------------------------------------------------

  /** Lookups after `Adopt(ns, p, c.id) + [c]` for a fresh `c`. */
  lemma AttachGet(ns: seq<Node>, p: nat, c: Node, id: nat)
    requires UniqueIds(ns) && p < |ns| && c.id !in Ids(ns)
    ensures Get(Adopt(ns, p, c.id) + [c], id) ==
      (if id == ns[p].id then Some(Adopt(ns, p, c.id)[p])
       else if id == c.id then Some(c)
       else Get(ns, id))
  {
    var ns1 := Adopt(ns, p, c.id);
    assert forall i :: 0 <= i < |ns| ==> ns1[i].id == ns[i].id;
    SameIdsIndexOf(ns1, ns, id);
    IndexOfAppend(ns1, c, id);
    UniqueIndexOf(ns, p);
  }

  ghost predicate FreshChildOf(ns: seq<Node>, p: nat, c: Node) {
    && WellFormed(ns) && p < |ns|
    && c.id !in Ids(ns) && c.parent == Some(ns[p].id)
    && c.level == ns[p].level + 1 && c.children == []
  }

  /** Every member of the new list is `c`, the extended parent, or an untouched node. */
  lemma AttachMembers(ns: seq<Node>, p: nat, c: Node)
    requires FreshChildOf(ns, p, c)
    ensures forall n | n in Adopt(ns, p, c.id) + [c] ::
      n == c || n == Adopt(ns, p, c.id)[p] || (n in ns && n.id != ns[p].id)
  {
    var r := Adopt(ns, p, c.id) + [c];
    forall n | n in r ensures n == c || n == Adopt(ns, p, c.id)[p] || (n in ns && n.id != ns[p].id) {
      var i :| 0 <= i < |r| && r[i] == n;
      if i < |ns| && i != p {
        assert n == ns[i] && ns[i] in ns;
        UniqueIndexOf(ns, i);
      }
    }
  }

  lemma AttachUnique(ns: seq<Node>, p: nat, c: Node)
    requires FreshChildOf(ns, p, c)
    ensures UniqueIds(Adopt(ns, p, c.id) + [c])
  {
    var r := Adopt(ns, p, c.id) + [c];
    forall i, j | 0 <= i < j < |r| ensures r[i].id != r[j].id {
      if j == |ns| {
        assert ns[i] in ns;
      }
    }
  }

  lemma AttachParentOne(ns: seq<Node>, p: nat, c: Node, n: Node)
    requires FreshChildOf(ns, p, c)
    requires n in Adopt(ns, p, c.id) + [c] && n.parent.Some?
    ensures ParentLinked(Adopt(ns, p, c.id) + [c], n)
  {
    var ns1 := Adopt(ns, p, c.id);
    AttachMembers(ns, p, c);
    AttachGet(ns, p, c, n.parent.value);
    if n == c {
    } else if n == ns1[p] {
      assert ns[p] in ns;
      assert ParentLinked(ns, ns[p]);
      GetMember(ns, ns[p].parent.value);
    } else {
      assert ParentLinked(ns, n);
      GetMember(ns, n.parent.value);
    }
  }

  lemma AttachParents(ns: seq<Node>, p: nat, c: Node)
    requires FreshChildOf(ns, p, c)
    ensures forall n | n in Adopt(ns, p, c.id) + [c] && n.parent.Some? ::
      ParentLinked(Adopt(ns, p, c.id) + [c], n)
  {
    forall n | n in Adopt(ns, p, c.id) + [c] && n.parent.Some?
      ensures ParentLinked(Adopt(ns, p, c.id) + [c], n)
    {
      AttachParentOne(ns, p, c, n);
    }
  }

  lemma ChildrenPresent(ns: seq<Node>, n: Node)
    requires WellFormed(ns) && n in ns
    ensures forall k | k in n.children :: k in Ids(ns)
  {
    assert ChildrenLinked(ns, n);
    forall k | k in n.children ensures k in Ids(ns) {
      GetMember(ns, k);
    }
  }

  lemma AttachChildOne(ns: seq<Node>, p: nat, c: Node, n: Node)
    requires FreshChildOf(ns, p, c)
    requires n in Adopt(ns, p, c.id) + [c]
    ensures ChildrenLinked(Adopt(ns, p, c.id) + [c], n)
  {
    var ns1 := Adopt(ns, p, c.id);
    var r := ns1 + [c];
    AttachMembers(ns, p, c);
    if n == c {
    } else if n == ns1[p] {
      assert ns[p] in ns;
      assert ChildrenLinked(ns, ns[p]);
      ChildrenPresent(ns, ns[p]);
      assert c.id !in ns[p].children;
      forall k | k in n.children ensures Get(r, k).Some? && Get(r, k).value.parent == Some(n.id) {
        AttachGet(ns, p, c, k);
        if k != c.id {
          assert k in ns[p].children;
          GetMember(ns, k);
        }
      }
    } else {
      assert ChildrenLinked(ns, n);
      ChildrenPresent(ns, n);
      forall k | k in n.children ensures Get(r, k).Some? && Get(r, k).value.parent == Some(n.id) {
        AttachGet(ns, p, c, k);
        GetMember(ns, k);
      }
    }
  }

  lemma AttachChildren(ns: seq<Node>, p: nat, c: Node)
    requires FreshChildOf(ns, p, c)
    ensures forall n | n in Adopt(ns, p, c.id) + [c] :: ChildrenLinked(Adopt(ns, p, c.id) + [c], n)
  {
    forall n | n in Adopt(ns, p, c.id) + [c] ensures ChildrenLinked(Adopt(ns, p, c.id) + [c], n) {
      AttachChildOne(ns, p, c, n);
    }
  }

  /**
   * Hanging a fresh, childless node one level below the node at `p`, and
   * listing it there, keeps a tree a tree.
   */
  lemma AttachFreshWellFormed(ns: seq<Node>, p: nat, c: Node)
    requires FreshChildOf(ns, p, c)
    ensures WellFormed(Adopt(ns, p, c.id) + [c])
  {
    var ns1 := Adopt(ns, p, c.id);
    var r := ns1 + [c];
    AttachMembers(ns, p, c);
    AttachUnique(ns, p, c);
    AttachParents(ns, p, c);
    AttachChildren(ns, p, c);
    forall n | n in r && n.id != r[0].id ensures n.parent.Some? {
      if n == ns1[p] {
        assert ns[p] in ns;
      }
    }
  }

  /** `addChildNode` appends exactly one childless node, one level below its parent, and lists it there. */
  lemma AddChildAppends(ns: seq<Node>, sel: Option<nat>, newId: nat)
    ensures |ns| == 0 ==> AddChild(ns, sel, newId) == ns
    ensures |ns| > 0 ==>
      var r := AddChild(ns, sel, newId);
      var p := if sel.Some? && IndexOf(ns, sel.value).Some? then IndexOf(ns, sel.value).value else 0;
      && |r| == |ns| + 1
      && r[|ns|].id == newId && r[|ns|].children == []
      && r[|ns|].parent == Some(ns[p].id) && r[|ns|].level == ns[p].level + 1
      && r[p].children == ns[p].children + [newId]
      && (forall j :: 0 <= j < |ns| && j != p ==> r[j] == ns[j])
  {
  }

  /** `addChildNode` keeps a tree a tree. */
  lemma AddChildWellFormed(ns: seq<Node>, sel: Option<nat>, newId: nat)
    requires WellFormed(ns) && newId !in Ids(ns)
    ensures WellFormed(AddChild(ns, sel, newId))
  {
    var p := ChildParent(ns, sel);
    AttachFreshWellFormed(ns, p, NewChild(ns[p], newId));
  }

  /** `addSiblingNode` keeps a tree a tree. */
  lemma AddSiblingWellFormed(ns: seq<Node>, sel: Option<nat>, newId: nat)
    requires WellFormed(ns) && newId !in Ids(ns)
    ensures WellFormed(AddSibling(ns, sel, newId))
  {
    if sel.Some? && IndexOf(ns, sel.value).Some? {
      var s := IndexOf(ns, sel.value).value;
      assert ns[s] in ns;
      if ns[s].parent.Some? {
        assert ParentLinked(ns, ns[s]);
      }
      AddSiblingOfWellFormed(ns, ns[s], newId);
    }
  }

  /**
   * `addSiblingNode` from the object `current`, stored or not: with its
   * parent in the store, exactly one childless node is appended on
   * `current`'s level and the parent lists it last; otherwise nothing
   * changes.
   */
  lemma AddSiblingOfAppends(ns: seq<Node>, current: Node, newId: nat)
    ensures current.parent.None? || current.parent.value !in Ids(ns) ==> AddSiblingOf(ns, current, newId) == ns
    ensures current.parent.Some? && current.parent.value in Ids(ns) ==>
      var r := AddSiblingOf(ns, current, newId);
      var p := IndexOf(ns, current.parent.value).value;
      && |r| == |ns| + 1
      && r[|ns|].id == newId && r[|ns|].children == []
      && r[|ns|].parent == current.parent && r[|ns|].level == current.level
      && r[p].children == ns[p].children + [newId]
      && (forall j :: 0 <= j < |ns| && j != p ==> r[j] == ns[j])
  {
  }

  /**
   * A sibling of an object sitting one level below the stored node its
   * `parent` names keeps a tree a tree. A copy left over from before an
   * undo may not: its recorded level can disagree with the restored parent.
   */
  lemma AddSiblingOfWellFormed(ns: seq<Node>, current: Node, newId: nat)
    requires WellFormed(ns) && newId !in Ids(ns)
    requires current.parent.Some? && Get(ns, current.parent.value).Some? ==>
      current.level == Get(ns, current.parent.value).value.level + 1
    ensures WellFormed(AddSiblingOf(ns, current, newId))
  {
    if current.parent.Some? && IndexOf(ns, current.parent.value).Some? {
      var p := IndexOf(ns, current.parent.value).value;
      AttachFreshWellFormed(ns, p, NewSibling(current, ns[p].id, newId));
    }
  }

  /** `pasteNode` keeps a tree a tree. */
  lemma PasteWellFormed(ns: seq<Node>, sel: Option<nat>, copied: Option<Node>, newId: nat)
    requires WellFormed(ns) && newId !in Ids(ns)
    ensures WellFormed(Paste(ns, sel, copied, newId))
  {
    if copied.Some? && sel.Some? && IndexOf(ns, sel.value).Some? {
      var s := IndexOf(ns, sel.value).value;
      AttachFreshWellFormed(ns, s, Pasted(copied.value, ns[s], newId));
    }
  }

  // ---------------------------------------------------------------------
  // The editor's invariant
  // ---------------------------------------------------------------------

  /** Appending a node that carries the next fresh id, and listing it under an existing node. */
  lemma AppendSound(ns: seq<Node>, p: nat, c: Node, bound: nat)
    requires Sound(ns, bound) && p < |ns| && c.id == bound && (c.level == 0 ==> c.parent.None?)
    ensures Sound(Adopt(ns, p, c.id) + [c], bound + 1)
  {
    var r := Adopt(ns, p, c.id) + [c];
    forall i, j | 0 <= i < j < |r| ensures r[i].id != r[j].id {
      assert ns[i] in ns;
    }
    forall n | n in r ensures n.id < bound + 1 && (n.level == 0 ==> n.parent.None?) {
      var i :| 0 <= i < |r| && r[i] == n;
      if i < |ns| {
        assert ns[i] in ns;
      }
    }
  }

  /** Adding a child with the next fresh id keeps the editor's invariant, the fresh id now used. */
  lemma AddChildSound(ns: seq<Node>, sel: Option<nat>, newId: nat)
    requires Sound(ns, newId)
    ensures Sound(AddChild(ns, sel, newId), newId + 1)
  {
    if |ns| > 0 {
      var p := ChildParent(ns, sel);
      AppendSound(ns, p, NewChild(ns[p], newId), newId);
    }
  }

  /** Adding a sibling keeps the invariant: the new node sits on the level of a node that has a parent. */
  lemma AddSiblingSound(ns: seq<Node>, sel: Option<nat>, newId: nat)
    requires Sound(ns, newId)
    ensures Sound(AddSibling(ns, sel, newId), newId + 1)
  {
    if sel.Some? && IndexOf(ns, sel.value).Some? {
      var s := IndexOf(ns, sel.value).value;
      assert ns[s] in ns;
      AddSiblingOfSound(ns, ns[s], newId);
    }
  }

  /** The same for any object whose level is 0 only when it has no parent. */
  lemma AddSiblingOfSound(ns: seq<Node>, current: Node, newId: nat)
    requires Sound(ns, newId) && (current.level == 0 ==> current.parent.None?)
    ensures Sound(AddSiblingOf(ns, current, newId), newId + 1)
  {
    if current.parent.Some? && IndexOf(ns, current.parent.value).Some? {
      var p := IndexOf(ns, current.parent.value).value;
      AppendSound(ns, p, NewSibling(current, ns[p].id, newId), newId);
    }
  }

  /** Appending a node that carries the next fresh id, listed by no node. */
  lemma AppendOnlySound(ns: seq<Node>, c: Node, bound: nat)
    requires Sound(ns, bound) && c.id == bound && (c.level == 0 ==> c.parent.None?)
    ensures Sound(ns + [c], bound + 1)
  {
    var r := ns + [c];
    forall i, j | 0 <= i < j < |r| ensures r[i].id != r[j].id {
      assert ns[i] in ns;
    }
    forall n | n in r ensures n.id < bound + 1 && (n.level == 0 ==> n.parent.None?) {
      var i :| 0 <= i < |r| && r[i] == n;
      if i < |ns| {
        assert ns[i] in ns;
      }
    }
  }

  // ---------------------------------------------------------------------
  // Adding under a selected object the store no longer holds
  // ---------------------------------------------------------------------

  /**
   * `addChildNode` under a detached object: the store gains exactly the
   * new childless node, one level below that object and naming it as
   * parent, and no stored node changes.
   */
  lemma AddChildDetachedAppends(ns: seq<Node>, parent: Node, newId: nat)
    ensures |ns| == 0 ==> AddChildDetached(ns, parent, newId) == ns
    ensures |ns| > 0 ==>
      var r := AddChildDetached(ns, parent, newId);
      && |r| == |ns| + 1 && r[..|ns|] == ns
      && r[|ns|].id == newId && r[|ns|].children == []
      && r[|ns|].parent == Some(parent.id) && r[|ns|].level == parent.level + 1
  {
  }

  /** `pasteNode` under a detached object: the store gains exactly the renamed, childless copy under that object. */
  lemma PasteDetachedAppends(ns: seq<Node>, target: Node, copied: Option<Node>, newId: nat)
    ensures copied.None? ==> PasteDetached(ns, target, copied, newId) == ns
    ensures copied.Some? ==>
      var r := PasteDetached(ns, target, copied, newId);
      && |r| == |ns| + 1 && r[..|ns|] == ns
      && r[|ns|].id == newId && r[|ns|].children == [] && r[|ns|].text == copied.value.text + CopySuffix
      && r[|ns|].parent == Some(target.id) && r[|ns|].level == target.level + 1
  {
  }

  lemma AddChildDetachedSound(ns: seq<Node>, parent: Node, newId: nat)
    requires Sound(ns, newId)
    ensures Sound(AddChildDetached(ns, parent, newId), newId + 1)
  {
    if |ns| > 0 {
      AppendOnlySound(ns, NewChild(parent, newId), newId);
    }
  }

  lemma PasteDetachedSound(ns: seq<Node>, target: Node, copied: Option<Node>, newId: nat)
    requires Sound(ns, newId)
    ensures Sound(PasteDetached(ns, target, copied, newId), newId + 1)
  {
    if copied.Some? {
      AppendOnlySound(ns, Pasted(copied.value, target, newId), newId);
    }
  }

  /**
   * A fresh node with a parent that no node of a tree lists cannot join
   * it: whatever id it names as parent, the list is no tree afterwards.
   */
  lemma UnlistedBreaksTree(ns: seq<Node>, c: Node)
    requires WellFormed(ns) && c.id !in Ids(ns) && c.parent.Some? && c.children == []
    ensures !WellFormed(ns + [c])
  {
    var r := ns + [c];
    var pid := c.parent.value;
    IndexOfAppend(ns, c, pid);
    if pid in Ids(ns) {
      var m := Get(ns, pid).value;
      GetMember(ns, pid);
      ChildrenPresent(ns, m);
      assert Get(r, pid) == Some(m);
    }
    assert c in r && !ParentLinked(r, c);
  }

  /** On a tree, adding a child under a detached object always breaks the tree. */
  lemma AddChildDetachedBreaksTree(ns: seq<Node>, parent: Node, newId: nat)
    requires WellFormed(ns) && newId !in Ids(ns)
    ensures !WellFormed(AddChildDetached(ns, parent, newId))
  {
    UnlistedBreaksTree(ns, NewChild(parent, newId));
  }

  /** On a tree, pasting under a detached object breaks the tree. */
  lemma PasteDetachedBreaksTree(ns: seq<Node>, target: Node, copied: Node, newId: nat)
    requires WellFormed(ns) && newId !in Ids(ns)
    ensures !WellFormed(PasteDetached(ns, target, Some(copied), newId))
  {
    UnlistedBreaksTree(ns, Pasted(copied, target, newId));
  }

  lemma PasteSound(ns: seq<Node>, sel: Option<nat>, copied: Option<Node>, newId: nat)
    requires Sound(ns, newId)
    ensures Sound(Paste(ns, sel, copied, newId), newId + 1)
  {
    if copied.Some? && sel.Some? && IndexOf(ns, sel.value).Some? {
      var s := IndexOf(ns, sel.value).value;
      AppendSound(ns, s, Pasted(copied.value, ns[s], newId), newId);
    }
  }

  /** A pass that changes only positions and sizes keeps the invariant. */
  lemma SameLinksSound(a: seq<Node>, b: seq<Node>, bound: nat)
    requires Sound(a, bound) && SameLinks(a, b)
    ensures Sound(b, bound) && Ids(b) == Ids(a)
  {
    forall i | 0 <= i < |b| ensures b[i].id == a[i].id && b[i].level == a[i].level && b[i].parent == a[i].parent {
      assert b[i] == a[i].(x := b[i].x, y := b[i].y, width := b[i].width, height := b[i].height);
    }
    SameIdsIds(a, b);
    forall n | n in b ensures n.id < bound && (n.level == 0 ==> n.parent.None?) {
      var i :| 0 <= i < |b| && b[i] == n;
      assert a[i] in a;
    }
  }

  lemma MovedSameLinks(a: seq<Node>, b: seq<Node>)
    requires OnlyMoved(a, b)
    ensures SameLinks(a, b)
  {
    forall i | 0 <= i < |a|
      ensures b[i] == a[i].(x := b[i].x, y := b[i].y, width := b[i].width, height := b[i].height)
    {
      assert b[i] == a[i].(x := b[i].x, y := b[i].y);
    }
  }

  /** A raised bound still bounds every id. */
  lemma SoundMono(ns: seq<Node>, bound: nat, bound2: nat)
    requires Sound(ns, bound) && bound <= bound2
    ensures Sound(ns, bound2)
  {
  }

  // ---------------------------------------------------------------------
  // Deleting a subtree
  // ---------------------------------------------------------------------

  /** What `DetachFromParent(ns, n0)` does to the node `m`: the parent of `n0` forgets it. */
  function Detached(m: Node, n0: Node): Node {
    if n0.parent == Some(m.id) then m.(children := Without(m.children, n0.id)) else m
  }

  lemma DetachGet(ns: seq<Node>, n0: Node, id: nat)
    ensures Get(DetachFromParent(ns, n0), id) ==
      (match Get(ns, id) case None => None case Some(m) => Some(Detached(m, n0)))
  {
    var ns1 := DetachFromParent(ns, n0);
    assert forall i :: 0 <= i < |ns| ==> ns1[i].id == ns[i].id;
    SameIdsIndexOf(ns1, ns, id);
  }

  lemma DetachMember(ns: seq<Node>, n0: Node, n: Node)
    requires UniqueIds(ns) && n in DetachFromParent(ns, n0)
    ensures Get(ns, n.id).Some? && Get(ns, n.id).value in ns
    ensures n == Detached(Get(ns, n.id).value, n0)
  {
    var ns1 := DetachFromParent(ns, n0);
    var j :| 0 <= j < |ns1| && ns1[j] == n;
    assert ns1[j].id == ns[j].id;
    UniqueIndexOf(ns, j);
    if n0.parent.Some? && IndexOf(ns, n0.parent.value).Some? {
      var p := IndexOf(ns, n0.parent.value).value;
      if j == p {
      } else {
        assert ns[j].id != n0.parent.value;
      }
    }
  }

  lemma DetachUnique(ns: seq<Node>, n0: Node)
    requires UniqueIds(ns)
    ensures UniqueIds(DetachFromParent(ns, n0)) && |DetachFromParent(ns, n0)| == |ns|
    ensures forall i :: 0 <= i < |ns| ==> DetachFromParent(ns, n0)[i].id == ns[i].id
  {
  }

  lemma {:induction false} IndexOfKeep(ns: seq<Node>, gone: set<nat>, id: nat)
    requires id !in gone
    ensures IndexOf(Keep(ns, gone), id).Some? <==> IndexOf(ns, id).Some?
    ensures IndexOf(ns, id).Some? ==> Keep(ns, gone)[IndexOf(Keep(ns, gone), id).value] == ns[IndexOf(ns, id).value]
  {
    if ns != [] {
      var k, rest := Keep(ns, gone), Keep(ns[1..], gone);
      if ns[0].id == id {
        assert k == [ns[0]] + rest;
        assert IndexOf(k, id) == Some(0) && IndexOf(ns, id) == Some(0);
      } else {
        IndexOfKeep(ns[1..], gone, id);
        if ns[0].id in gone {
          assert k == rest;
          IndexOfShift(ns, id);
        } else {
          assert k == [ns[0]] + rest;
          assert k[1..] == rest;
          IndexOfShift(ns, id);
          IndexOfShift(k, id);
        }
      }
    }
  }

  /** Looking past a first node that does not carry `id`. */
  lemma IndexOfShift(ns: seq<Node>, id: nat)
    requires ns != [] && ns[0].id != id
    ensures IndexOf(ns, id).Some? <==> IndexOf(ns[1..], id).Some?
    ensures IndexOf(ns, id).Some? ==> IndexOf(ns, id).value == IndexOf(ns[1..], id).value + 1
    ensures IndexOf(ns, id).Some? ==> ns[IndexOf(ns, id).value] == ns[1..][IndexOf(ns[1..], id).value]
  {
  }

  lemma GetKeep(ns: seq<Node>, gone: set<nat>, id: nat)
    ensures Get(Keep(ns, gone), id) == if id in gone then None else Get(ns, id)
  {
    if id in gone {
      assert id !in Ids(Keep(ns, gone));
    } else {
      IndexOfKeep(ns, gone, id);
    }
  }

  lemma UniqueCons(a: Node, rest: seq<Node>)
    requires UniqueIds(rest) && a.id !in Ids(rest)
    ensures UniqueIds([a] + rest)
  {
    var r := [a] + rest;
    forall i, j | 0 <= i < j < |r| ensures r[i].id != r[j].id {
      if i == 0 {
        assert r[j] == rest[j - 1] && rest[j - 1] in rest;
      } else {
        assert r[i] == rest[i - 1] && r[j] == rest[j - 1];
      }
    }
  }

  lemma UniqueTail(ns: seq<Node>)
    requires UniqueIds(ns) && ns != []
    ensures UniqueIds(ns[1..]) && ns[0].id !in Ids(ns[1..])
  {
    forall n | n in ns[1..] ensures n.id != ns[0].id {
      var k :| 0 <= k < |ns[1..]| && ns[1..][k] == n;
      assert ns[k + 1] == n;
    }
  }

  lemma {:induction false} KeepUnique(ns: seq<Node>, gone: set<nat>)
    requires UniqueIds(ns)
    ensures UniqueIds(Keep(ns, gone))
  {
    if ns != [] {
      UniqueTail(ns);
      KeepUnique(ns[1..], gone);
      var rest := Keep(ns[1..], gone);
      if ns[0].id !in gone {
        assert Ids(rest) <= Ids(ns[1..]);
        UniqueCons(ns[0], rest);
      }
    }
  }

  lemma {:induction false} WithoutNoDup(cs: seq<nat>, id: nat)
    requires NoDup(cs)
    ensures NoDup(Without(cs, id))
  {
    if cs != [] {
      WithoutNoDup(cs[1..], id);
      var rest := Without(cs[1..], id);
      if cs[0] != id {
        var r := [cs[0]] + rest;
        assert Without(cs, id) == r;
        forall i, j | 0 <= i < j < |r| ensures r[i] != r[j] {
          if i == 0 {
            assert r[j] in rest;
            assert r[j] in cs[1..];
          } else {
            assert r[i] == rest[i - 1] && r[j] == rest[j - 1];
          }
        }
      }
    }
  }

  lemma DescendantsClosed(ns: seq<Node>, a: nat)
    ensures a in Descendants(ns, a)
    ensures ClosedUnderChildren(ns, Descendants(ns, a))
  {
    ReachableRefl(ns, a);
    forall d, c | d in Descendants(ns, a) && c in ChildIdsOf(ns, d) ensures c in Descendants(ns, a) {
      ReachableStep(ns, a, d, c);
      ChildInUniverse(ns, a, d, c);
    }
  }

  /** The situation in which `deleteSelectedNode` really deletes: a tree and a non-root node. */
  ghost predicate Deleting(ns: seq<Node>, s: nat) {
    WellFormed(ns) && s < |ns| && ns[s].level != 0
  }

  lemma RootSurvives(ns: seq<Node>, s: nat)
    requires Deleting(ns, s)
    ensures ns[0].id !in Descendants(ns, ns[s].id)
  {
    UniqueIndexOf(ns, s);
    UniqueIndexOf(ns, 0);
    if Reachable(ns, ns[s].id, ns[0].id) {
      ReachableDeeper(ns, ns[s].id, ns[0].id);
      assert false;
    }
  }

  /** A node that survives the deletion keeps a surviving parent that still lists it. */
  lemma DeleteParentOne(ns: seq<Node>, s: nat, n: Node)
    requires Deleting(ns, s)
    requires n in Keep(DetachFromParent(ns, ns[s]), Descendants(ns, ns[s].id)) && n.parent.Some?
    ensures ParentLinked(Keep(DetachFromParent(ns, ns[s]), Descendants(ns, ns[s].id)), n)
  {
    var sid := ns[s].id;
    var D := Descendants(ns, sid);
    var ns1 := DetachFromParent(ns, ns[s]);
    var pid := n.parent.value;
    DescendantsClosed(ns, sid);
    DetachMember(ns, ns[s], n);
    var m := Get(ns, n.id).value;
    assert m.parent == n.parent && m.level == n.level;
    assert ParentLinked(ns, m);
    var pm := Get(ns, pid).value;
    GetMember(ns, pid);
    UniqueGet(ns, pm);
    assert ChildIdsOf(ns, pid) == pm.children;
    assert pid !in D;
    GetKeep(ns1, D, pid);
    DetachGet(ns, ns[s], pid);
    assert n.id != sid;
  }

  /** The parent of a descendant other than the start is itself a descendant. */
  lemma DescendantParent(ns: seq<Node>, a: nat, c: nat, pid: nat)
    requires WellFormed(ns) && Get(ns, c).Some? && Get(ns, c).value.parent == Some(pid)
    ensures c in Descendants(ns, a) && c != a ==> pid in Descendants(ns, a)
  {
    if c in Descendants(ns, a) && c != a {
      var q := ReachableLast(ns, a, c);
      var qn := Get(ns, q).value;
      GetMember(ns, q);
      UniqueGet(ns, qn);
      assert c in qn.children;
      assert ChildrenLinked(ns, qn);
      ReachableInUniverse(ns, a, q);
    }
  }

  /** The children a surviving node lists all survive and still name it as parent. */
  lemma DeleteChildrenOne(ns: seq<Node>, s: nat, n: Node)
    requires Deleting(ns, s)
    requires n in Keep(DetachFromParent(ns, ns[s]), Descendants(ns, ns[s].id))
    ensures ChildrenLinked(Keep(DetachFromParent(ns, ns[s]), Descendants(ns, ns[s].id)), n)
  {
    var r := Keep(DetachFromParent(ns, ns[s]), Descendants(ns, ns[s].id));
    DetachMember(ns, ns[s], n);
    var m := Get(ns, n.id).value;
    assert ChildrenLinked(ns, m);
    WithoutNoDup(m.children, ns[s].id);
    forall c | c in n.children ensures Get(r, c).Some? && Get(r, c).value.parent == Some(n.id) {
      DeleteChildOne(ns, s, n, c);
    }
  }

  /** One child listed by a surviving node survives and still names it as parent. */
  lemma DeleteChildOne(ns: seq<Node>, s: nat, n: Node, c: nat)
    requires Deleting(ns, s)
    requires n in Keep(DetachFromParent(ns, ns[s]), Descendants(ns, ns[s].id)) && c in n.children
    ensures var r := Keep(DetachFromParent(ns, ns[s]), Descendants(ns, ns[s].id));
      Get(r, c).Some? && Get(r, c).value.parent == Some(n.id)
  {
    var sid := ns[s].id;
    var D := Descendants(ns, sid);
    var ns1 := DetachFromParent(ns, ns[s]);
    DescendantsClosed(ns, sid);
    DetachMember(ns, ns[s], n);
    var m := Get(ns, n.id).value;
    assert ChildrenLinked(ns, m);
    UniqueIndexOf(ns, s);
    assert c in m.children;
    var k := Get(ns, c).value;
    GetMember(ns, c);
    assert k.parent == Some(m.id);
    if ns[s].parent == Some(m.id) {
      assert c != sid;
    } else {
      var sn := ns[s];
      assert c == sid ==> k == sn;
    }
    assert c != sid;
    DescendantParent(ns, sid, c, m.id);
    assert n.id !in D && m.id == n.id;
    assert c !in D;
    GetKeep(ns1, D, c);
    DetachGet(ns, ns[s], c);
    assert Get(ns1, c) == Some(Detached(k, ns[s]));
  }

  /** `deleteSelectedNode` keeps a tree a tree. */
  lemma DeleteWellFormed(ns: seq<Node>, sel: Option<nat>)
    requires WellFormed(ns)
    ensures WellFormed(DeleteSelected(ns, sel))
  {
    if sel.Some? && IndexOf(ns, sel.value).Some? {
      var s := IndexOf(ns, sel.value).value;
      if ns[s].level != 0 {
        var r := Keep(DetachFromParent(ns, ns[s]), Descendants(ns, ns[s].id));
        assert DeleteSelected(ns, sel) == r;
        DeleteKeepsRoot(ns, s);
        DeleteParentsLinked(ns, s);
        DeleteChildrenLinked(ns, s);
      }
    }
  }

  /** After a delete the root still leads, ids stay unique and every other survivor has a parent. */
  lemma DeleteKeepsRoot(ns: seq<Node>, s: nat)
    requires Deleting(ns, s)
    ensures var r := Keep(DetachFromParent(ns, ns[s]), Descendants(ns, ns[s].id));
      && |r| > 0 && r[0].parent.None? && r[0].level == 0 && UniqueIds(r)
      && forall n | n in r && n.id != r[0].id :: n.parent.Some?
  {
    var D := Descendants(ns, ns[s].id);
    var ns1 := DetachFromParent(ns, ns[s]);
    var r := Keep(ns1, D);
    RootSurvives(ns, s);
    DetachUnique(ns, ns[s]);
    KeepUnique(ns1, D);
    assert r[0] == ns1[0] by {
      assert ns1[0].id !in D;
    }
    forall n | n in r && n.id != r[0].id ensures n.parent.Some? {
      DetachMember(ns, ns[s], n);
    }
  }

  /** After a delete every survivor with a parent is listed by it. */
  lemma DeleteParentsLinked(ns: seq<Node>, s: nat)
    requires Deleting(ns, s)
    ensures var r := Keep(DetachFromParent(ns, ns[s]), Descendants(ns, ns[s].id));
      forall n | n in r && n.parent.Some? :: ParentLinked(r, n)
  {
    var r := Keep(DetachFromParent(ns, ns[s]), Descendants(ns, ns[s].id));
    forall n | n in r && n.parent.Some? ensures ParentLinked(r, n) {
      DeleteParentOne(ns, s, n);
    }
  }

  /** After a delete every survivor's children are survivors that name it. */
  lemma DeleteChildrenLinked(ns: seq<Node>, s: nat)
    requires Deleting(ns, s)
    ensures var r := Keep(DetachFromParent(ns, ns[s]), Descendants(ns, ns[s].id));
      forall n | n in r :: ChildrenLinked(r, n)
  {
    var r := Keep(DetachFromParent(ns, ns[s]), Descendants(ns, ns[s].id));
    forall n | n in r ensures ChildrenLinked(r, n) {
      DeleteChildrenOne(ns, s, n);
    }
  }

  /**
   * `deleteSelectedNode` on a non-root node: every id reachable from it is
   * gone, every other node stays (its parent without the deleted id), and
   * the survivors keep their order.
   */
  lemma DeleteSelectedEffect(ns: seq<Node>, s: nat)
    requires UniqueIds(ns) && s < |ns| && ns[s].level != 0
    ensures ns[s].id in Descendants(ns, ns[s].id)
    ensures forall d | d in Descendants(ns, ns[s].id) :: d !in Ids(DeleteSelected(ns, Some(ns[s].id)))
    ensures forall n | n in ns && n.id !in Descendants(ns, ns[s].id) ::
      Get(DeleteSelected(ns, Some(ns[s].id)), n.id) == Some(Detached(n, ns[s]))
    ensures IsSubseq(DeleteSelected(ns, Some(ns[s].id)), DetachFromParent(ns, ns[s]))
  {
    UniqueIndexOf(ns, s);
    DeleteObjectEffect(ns, ns[s]);
  }

  /**
   * The same for the selected object `o`, stored or not: every id reachable
   * from `o.id` through the store's lists is gone, every other node stays
   * with the node `o.parent` names forgetting `o.id`, in order.
   */
  lemma DeleteObjectEffect(ns: seq<Node>, o: Node)
    requires UniqueIds(ns) && o.level != 0
    ensures o.id in Descendants(ns, o.id)
    ensures forall d | d in Descendants(ns, o.id) :: d !in Ids(DeleteObject(ns, o))
    ensures forall n | n in ns && n.id !in Descendants(ns, o.id) ::
      Get(DeleteObject(ns, o), n.id) == Some(Detached(n, o))
    ensures IsSubseq(DeleteObject(ns, o), DetachFromParent(ns, o))
  {
    var D := Descendants(ns, o.id);
    var ns1 := DetachFromParent(ns, o);
    DescendantsClosed(ns, o.id);
    forall d | d in D ensures d !in Ids(Keep(ns1, D)) {
      GetKeep(ns1, D, d);
    }
    forall n | n in ns && n.id !in D ensures Get(Keep(ns1, D), n.id) == Some(Detached(n, o)) {
      GetKeep(ns1, D, n.id);
      DetachGet(ns, o, n.id);
      UniqueGet(ns, n);
    }
  }

  /** `id` is not listed: filtering it out changes nothing. */
  lemma {:induction false} WithoutAbsent(cs: seq<nat>, id: nat)
    requires id !in cs
    ensures Without(cs, id) == cs
  {
    if cs != [] {
      WithoutAbsent(cs[1..], id);
      assert cs == [cs[0]] + cs[1..];
    }
  }

  /** The first step of a path goes to a listed child. */
  lemma PathStep(ns: seq<Node>, p: seq<nat>)
    requires IsPath(ns, p) && |p| > 1
    ensures p[1] in ChildIdsOf(ns, p[0])
  {
  }

  /** Filtering by ids no node carries keeps the whole list. */
  lemma {:induction false} KeepAll(ns: seq<Node>, gone: set<nat>)
    requires forall n | n in ns :: n.id !in gone
    ensures Keep(ns, gone) == ns
  {
    if ns != [] {
      assert ns[0] in ns;
      assert forall n | n in ns[1..] :: n in ns;
      KeepAll(ns[1..], gone);
      assert ns == [ns[0]] + ns[1..];
    }
  }

  /**
   * Deleting an object whose id no node of a tree carries (the selected
   * node of a snapshot that undo has since replaced) leaves the list as it
   * was: nothing is reachable from that id and no node lists it.
   */
  lemma DeleteGoneObjectKeepsList(ns: seq<Node>, o: Node)
    requires WellFormed(ns) && o.id !in Ids(ns)
    ensures DeleteObject(ns, o) == ns
  {
    if o.level != 0 {
      var D := Descendants(ns, o.id);
      ReachableRefl(ns, o.id);
      forall d | d in D ensures d == o.id {
        var p :| IsPath(ns, p) && p[0] == o.id && p[|p| - 1] == d;
        if |p| > 1 {
          PathStep(ns, p);
          assert false;
        }
      }
      assert D == {o.id};
      if o.parent.Some? && IndexOf(ns, o.parent.value).Some? {
        var p := IndexOf(ns, o.parent.value).value;
        assert ns[p] in ns;
        ChildrenPresent(ns, ns[p]);
        WithoutAbsent(ns[p].children, o.id);
        assert DetachFromParent(ns, o) == ns;
      }
      KeepAll(ns, D);
    }
  }

  /** In a tree, after the deletion no surviving node still lists the deleted one. */
  lemma DeleteForgetsSelected(ns: seq<Node>, s: nat)
    requires WellFormed(ns) && s < |ns| && ns[s].level != 0
    ensures forall n | n in DeleteSelected(ns, Some(ns[s].id)) :: ns[s].id !in n.children
  {
    var r := DeleteSelected(ns, Some(ns[s].id));
    DeleteWellFormed(ns, Some(ns[s].id));
    DeleteSelectedEffect(ns, s);
    forall n | n in r ensures ns[s].id !in n.children {
      assert ChildrenLinked(r, n);
      if ns[s].id in n.children {
        GetMember(r, ns[s].id);
      }
    }
  }

  // ---------------------------------------------------------------------
  // Re-parenting
  // ---------------------------------------------------------------------

  /** Occurrences of `c` in a children list. */
  function Count(cs: seq<nat>, c: nat): nat {
    if cs == [] then 0 else (if cs[0] == c then 1 else 0) + Count(cs[1..], c)
  }

  lemma {:induction false} CountAppend(cs: seq<nat>, c: nat, d: nat)
    ensures Count(cs + [d], c) == Count(cs, c) + (if d == c then 1 else 0)
  {
    if cs != [] {
      assert (cs + [d])[1..] == cs[1..] + [d];
      CountAppend(cs[1..], c, d);
    }
  }

  lemma {:induction false} CountAbsent(cs: seq<nat>, c: nat)
    ensures c !in cs <==> Count(cs, c) == 0
  {
    if cs != [] {
      CountAbsent(cs[1..], c);
      assert c in cs <==> cs[0] == c || c in cs[1..];
    }
  }

  /** The steps of `createConnection`, named. */
  lemma ConnectSteps(ns: seq<Node>, f: nat, t: nat)
    requires f < |ns| && t < |ns| && ns[f].id != ns[t].id
    ensures var ns1 := DetachFromParent(ns, ns[t]);
      && |ns1| == |ns|
      && (forall j :: 0 <= j < |ns| ==> ns1[j] == ns[j] || ns1[j] == ns[j].(children := Without(ns[j].children, ns[t].id)))
      && (ns[t].parent.Some? && IndexOf(ns, ns[t].parent.value).Some? ==>
           ns1[IndexOf(ns, ns[t].parent.value).value].children == Without(ns[IndexOf(ns, ns[t].parent.value).value].children, ns[t].id))
  {
  }

  /**
   * `createConnection(from, to)` for two nodes with different ids: `to`
   * takes `from` as parent, one level below it, with the matching palette
   * slot; no other node changes its parent or its level, and no id changes.
   */
  lemma ConnectMoves(ns: seq<Node>, f: nat, t: nat)
    requires f < |ns| && t < |ns| && ns[f].id != ns[t].id
    ensures |Connect(ns, f, t)| == |ns|
    ensures Connect(ns, f, t)[t].parent == Some(ns[f].id)
    ensures Connect(ns, f, t)[t].level == ns[f].level + 1
    ensures Connect(ns, f, t)[t].color == (ns[f].level + 1) % 3
    ensures forall j :: 0 <= j < |ns| ==> Connect(ns, f, t)[j].id == ns[j].id
    ensures forall j :: 0 <= j < |ns| && j != t ==>
      Connect(ns, f, t)[j].level == ns[j].level && Connect(ns, f, t)[j].parent == ns[j].parent
  {
    ConnectSteps(ns, f, t);
  }

  /** Re-parenting keeps the invariant: `to` ends one level below `from`, never on level 0. */
  lemma ConnectSound(ns: seq<Node>, f: nat, t: nat, bound: nat)
    requires Sound(ns, bound) && f < |ns| && t < |ns|
    ensures Sound(Connect(ns, f, t), bound)
  {
    if ns[f].id != ns[t].id {
      ConnectMoves(ns, f, t);
      var r := Connect(ns, f, t);
      forall n | n in r ensures n.id < bound && (n.level == 0 ==> n.parent.None?) {
        var i :| 0 <= i < |r| && r[i] == n;
        assert ns[i] in ns;
      }
    }
  }

  /** A node outside the deleted subtree survives the delete. */
  lemma DeleteSpares(ns: seq<Node>, sel: Option<nat>, a: nat)
    requires sel.Some? && a in Ids(ns) && a !in Descendants(ns, sel.value)
    ensures a in Ids(DeleteSelected(ns, sel))
  {
    if IndexOf(ns, sel.value).Some? {
      DeleteObjectSpares(ns, ns[IndexOf(ns, sel.value).value], a);
    }
  }

  /** The same for a selected object, stored or not. */
  lemma DeleteObjectSpares(ns: seq<Node>, o: Node, a: nat)
    requires a in Ids(ns) && a !in Descendants(ns, o.id)
    ensures a in Ids(DeleteObject(ns, o))
  {
    var r := DeleteObject(ns, o);
    if o.level != 0 {
      var ns1 := DetachFromParent(ns, o);
      DetachGet(ns, o, a);
      GetKeep(ns1, Descendants(ns, o.id), a);
      GetMember(r, a);
    }
  }

  /** A node of the deleted subtree is gone afterwards. */
  lemma DeleteRemoves(ns: seq<Node>, sel: Option<nat>, a: nat)
    requires sel.Some? && IndexOf(ns, sel.value).Some? && ns[IndexOf(ns, sel.value).value].level != 0
    requires a in Descendants(ns, sel.value)
    ensures a !in Ids(DeleteSelected(ns, sel))
  {
    var ns1 := DetachFromParent(ns, ns[IndexOf(ns, sel.value).value]);
    GetKeep(ns1, Descendants(ns, sel.value), a);
  }

  /** Deleting keeps the invariant: the survivors are old nodes with shorter children lists. */
  lemma DeleteSound(ns: seq<Node>, sel: Option<nat>, bound: nat)
    requires Sound(ns, bound)
    ensures Sound(DeleteSelected(ns, sel), bound)
  {
    if sel.Some? && IndexOf(ns, sel.value).Some? {
      DeleteObjectSound(ns, ns[IndexOf(ns, sel.value).value], bound);
    }
  }

  /** The same for a selected object, stored or not. */
  lemma DeleteObjectSound(ns: seq<Node>, o: Node, bound: nat)
    requires Sound(ns, bound)
    ensures Sound(DeleteObject(ns, o), bound)
  {
    if o.level != 0 {
      var ns1 := DetachFromParent(ns, o);
      DetachUnique(ns, o);
      KeepUnique(ns1, Descendants(ns, o.id));
      forall n | n in DeleteObject(ns, o) ensures n.id < bound && (n.level == 0 ==> n.parent.None?) {
        DetachMember(ns, o, n);
      }
    }
  }

  /** `from` lists `to` exactly once afterwards, if it listed it at most once before. */
  lemma ConnectListsOnce(ns: seq<Node>, f: nat, t: nat)
    requires f < |ns| && t < |ns| && ns[f].id != ns[t].id
    requires Count(ns[f].children, ns[t].id) <= 1
    ensures Count(Connect(ns, f, t)[f].children, ns[t].id) == 1
  {
    ConnectSteps(ns, f, t);
    var toId := ns[t].id;
    var ns1 := DetachFromParent(ns, ns[t]);
    var fc := ns1[f].children;
    CountAbsent(fc, toId);
    if toId in fc {
      assert fc == ns[f].children;
    } else {
      CountAppend(fc, toId, toId);
    }
  }

  /** The old parent, when it is not `from`, no longer lists `to`. */
  lemma ConnectOldParentForgets(ns: seq<Node>, f: nat, t: nat, op: nat)
    requires f < |ns| && t < |ns| && ns[f].id != ns[t].id
    requires ns[t].parent.Some? && IndexOf(ns, ns[t].parent.value) == Some(op) && op != f
    ensures ns[t].id !in Connect(ns, f, t)[op].children
  {
    ConnectSteps(ns, f, t);
  }

  /**
   * Connecting a node to the parent it already has does not leave the
   * store unchanged: it moves the node to the end of the parent's children.
   */
  lemma ConnectToOwnParentMovesLast(ns: seq<Node>, f: nat, t: nat)
    requires WellFormed(ns) && f < |ns| && t < |ns| && ns[t].parent == Some(ns[f].id)
    ensures ns[f].id != ns[t].id
    ensures Connect(ns, f, t)[f].children == Without(ns[f].children, ns[t].id) + [ns[t].id]
    ensures Connect(ns, f, t)[t].parent == ns[t].parent && Connect(ns, f, t)[t].level == ns[t].level
  {
    assert ns[t] in ns;
    assert ParentLinked(ns, ns[t]);
    UniqueGet(ns, ns[f]);
    assert ns[f].level + 1 == ns[t].level;
    assert ns[f].id != ns[t].id;
    UniqueIndexOf(ns, f);
  }

  /** A small tree: root `r` over a (`r + 1`) and c (`r + 3`); a over b (`r + 2`). */
  function Sample(r: nat): seq<Node> {
    [ Node(r, "root", 0.0, 0.0, 120.0, 50.0, [r + 1, r + 3], None, 0, 0, White, 16),
      Node(r + 1, "a", 0.0, 0.0, 80.0, 30.0, [r + 2], Some(r), 1, 1, Dark, 14),
      Node(r + 2, "b", 0.0, 0.0, 80.0, 30.0, [], Some(r + 1), 2, 2, Dark, 12),
      Node(r + 3, "c", 0.0, 0.0, 80.0, 30.0, [], Some(r), 1, 1, Dark, 14) ]
  }

  lemma SampleGets(r: nat)
    ensures UniqueIds(Sample(r))
    ensures Get(Sample(r), r) == Some(Sample(r)[0]) && Get(Sample(r), r + 1) == Some(Sample(r)[1])
    ensures Get(Sample(r), r + 2) == Some(Sample(r)[2]) && Get(Sample(r), r + 3) == Some(Sample(r)[3])
  {
    var ns := Sample(r);
    assert UniqueIds(ns) by {
      forall i, j | 0 <= i < j < |ns| ensures ns[i].id != ns[j].id {
      }
    }
    UniqueIndexOf(ns, 0);
    UniqueIndexOf(ns, 1);
    UniqueIndexOf(ns, 2);
    UniqueIndexOf(ns, 3);
  }

  lemma SampleLinked(r: nat, i: nat)
    requires i < 4
    ensures 0 < i ==> Sample(r)[i].parent.Some? && ParentLinked(Sample(r), Sample(r)[i])
    ensures ChildrenLinked(Sample(r), Sample(r)[i])
  {
    var ns := Sample(r);
    SampleGets(r);
    if i == 0 {
      assert Get(ns, r + 1) == Some(ns[1]) && Get(ns, r + 3) == Some(ns[3]);
      assert NoDup(ns[0].children);
    } else if i == 1 {
      assert Get(ns, r) == Some(ns[0]) && Get(ns, r + 2) == Some(ns[2]);
    } else if i == 2 {
      assert Get(ns, r + 1) == Some(ns[1]);
    } else {
      assert Get(ns, r) == Some(ns[0]);
    }
  }

  /** The tree invariant, checked index by index. */
  lemma WellFormedByIndex(ns: seq<Node>)
    requires |ns| > 0 && ns[0].parent.None? && ns[0].level == 0 && UniqueIds(ns)
    requires forall i :: 0 < i < |ns| ==> ns[i].parent.Some? && ParentLinked(ns, ns[i])
    requires forall i :: 0 <= i < |ns| ==> ChildrenLinked(ns, ns[i])
    ensures WellFormed(ns)
  {
    forall n | n in ns
      ensures n.id != ns[0].id ==> n.parent.Some?
      ensures n.parent.Some? ==> ParentLinked(ns, n)
      ensures ChildrenLinked(ns, n)
    {
      var i :| 0 <= i < |ns| && ns[i] == n;
    }
  }

  lemma SampleWellFormed(r: nat)
    ensures WellFormed(Sample(r))
  {
    SampleGets(r);
    forall i | 0 <= i < 4
      ensures 0 < i ==> Sample(r)[i].parent.Some? && ParentLinked(Sample(r), Sample(r)[i])
      ensures ChildrenLinked(Sample(r), Sample(r)[i])
    {
      SampleLinked(r, i);
    }
    WellFormedByIndex(Sample(r));
  }

  /**
   * Moving a node that has a child to a place where its level changes
   * leaves that child's level stale: the result is no longer a tree in the
   * sense of `WellFormed`, because `createConnection` does not relevel the
   * subtree.
   */
  lemma ConnectLeavesDescendantLevelsStale(ns: seq<Node>, f: nat, t: nat, k: nat)
    requires WellFormed(ns) && f < |ns| && t < |ns| && k < |ns| && ns[f].id != ns[t].id
    requires ns[k].parent == Some(ns[t].id) && ns[f].level + 1 != ns[t].level
    ensures !WellFormed(Connect(ns, f, t))
  {
    var m := Connect(ns, f, t);
    assert ns[k] in ns && ParentLinked(ns, ns[k]);
    UniqueGet(ns, ns[t]);
    assert k != t;
    ConnectMoves(ns, f, t);
    UniqueIndexOf(ns, t);
    SameIdsIndexOf(ns, m, ns[t].id);
    assert Get(m, ns[t].id) == Some(m[t]);
    assert !ParentLinked(m, m[k]);
    assert m[k] in m;
  }

  /**
   * Moving a node under one of its own children is accepted: the two then
   * name each other as parent.
   */
  lemma ConnectUnderOwnChildMakesCycle(ns: seq<Node>, f: nat, t: nat)
    requires f < |ns| && t < |ns| && ns[f].id != ns[t].id && ns[f].parent == Some(ns[t].id)
    ensures Connect(ns, f, t)[t].parent == Some(ns[f].id)
    ensures Connect(ns, f, t)[f].parent == Some(ns[t].id)
  {
    ConnectMoves(ns, f, t);
  }

  /**
   * Both situations occur in a tree: in `Sample(r)`, moving a under c
   * changes its level while b hangs below it, and b is a child of a.
   */
  lemma ConnectHazardsOccur(r: nat)
    ensures WellFormed(Sample(r))
    ensures Sample(r)[2].parent == Some(Sample(r)[1].id) && Sample(r)[3].level + 1 != Sample(r)[1].level
    ensures !WellFormed(Connect(Sample(r), 3, 1))
  {
    SampleWellFormed(r);
    ConnectLeavesDescendantLevelsStale(Sample(r), 3, 1, 2);
  }

  // ---------------------------------------------------------------------
  // Connecting from a source the store no longer holds
  // ---------------------------------------------------------------------

  /** Re-parenting keeps every id where it was. */
  lemma ConnectKeepsIds(ns: seq<Node>, f: nat, t: nat)
    requires f < |ns| && t < |ns|
    ensures |Connect(ns, f, t)| == |ns| && Ids(Connect(ns, f, t)) == Ids(ns)
  {
    if ns[f].id != ns[t].id {
      ConnectMoves(ns, f, t);
      SameIdsIds(ns, Connect(ns, f, t));
    }
  }

  /**
   * `createConnection` from a detached `from`: `to` names `from`'s id as
   * parent, one level below `from`'s recorded level; no id moves, no other
   * node changes parent or level, and every node keeps its children list
   * or loses `to` from it.
   */
  lemma ConnectDetachedMoves(ns: seq<Node>, from: Node, t: nat)
    requires t < |ns| && from.id != ns[t].id
    ensures |ConnectDetached(ns, from, t)| == |ns|
    ensures ConnectDetached(ns, from, t)[t].parent == Some(from.id)
    ensures ConnectDetached(ns, from, t)[t].level == from.level + 1
    ensures ConnectDetached(ns, from, t)[t].color == (from.level + 1) % 3
    ensures forall j :: 0 <= j < |ns| ==>
      var m := ConnectDetached(ns, from, t)[j];
      m.id == ns[j].id && (m.children == ns[j].children || m.children == Without(ns[j].children, ns[t].id))
    ensures forall j :: 0 <= j < |ns| && j != t ==>
      ConnectDetached(ns, from, t)[j].level == ns[j].level && ConnectDetached(ns, from, t)[j].parent == ns[j].parent
  {
  }

  lemma ConnectDetachedKeepsIds(ns: seq<Node>, from: Node, t: nat)
    requires t < |ns|
    ensures |ConnectDetached(ns, from, t)| == |ns| && Ids(ConnectDetached(ns, from, t)) == Ids(ns)
  {
    if from.id != ns[t].id {
      ConnectDetachedMoves(ns, from, t);
      SameIdsIds(ns, ConnectDetached(ns, from, t));
    }
  }

  /** Re-parenting under a detached source keeps the invariant: `to` never lands on level 0. */
  lemma ConnectDetachedSound(ns: seq<Node>, from: Node, t: nat, bound: nat)
    requires Sound(ns, bound) && t < |ns|
    ensures Sound(ConnectDetached(ns, from, t), bound)
  {
    if from.id != ns[t].id {
      ConnectDetachedMoves(ns, from, t);
      var r := ConnectDetached(ns, from, t);
      forall n | n in r ensures n.id < bound && (n.level == 0 ==> n.parent.None?) {
        var i :| 0 <= i < |r| && r[i] == n;
        assert ns[i] in ns;
      }
    }
  }

  /**
   * With a live source the two agree on every node but `from` itself,
   * which differs only in its children list: the detached source is
   * exactly the live one minus the listing of `to`.
   */
  lemma ConnectDetachedDiffersAtSource(ns: seq<Node>, f: nat, t: nat)
    requires f < |ns| && t < |ns| && ns[f].id != ns[t].id
    ensures |ConnectDetached(ns, ns[f], t)| == |Connect(ns, f, t)|
    ensures forall j :: 0 <= j < |ns| && j != f ==> ConnectDetached(ns, ns[f], t)[j] == Connect(ns, f, t)[j]
    ensures Connect(ns, f, t)[f] == ConnectDetached(ns, ns[f], t)[f].(children := Connect(ns, f, t)[f].children)
    ensures ns[t].id in Connect(ns, f, t)[f].children
  {
  }

  /**
   * Connecting from a deleted node: `to` names a parent that no node in
   * the store carries, so the list is no tree any more.
   */
  lemma ConnectDeletedSourceOrphans(ns: seq<Node>, from: Node, t: nat)
    requires t < |ns| && from.id !in Ids(ns)
    ensures ConnectDetached(ns, from, t)[t].parent == Some(from.id)
    ensures Get(ConnectDetached(ns, from, t), from.id).None?
    ensures !WellFormed(ConnectDetached(ns, from, t))
  {
    assert ns[t] in ns;
    var r := ConnectDetached(ns, from, t);
    ConnectDetachedMoves(ns, from, t);
    ConnectDetachedKeepsIds(ns, from, t);
    assert r[t] in r && !ParentLinked(r, r[t]);
  }

  /**
   * Connecting from a source replaced by undo or redo: `to` names the
   * live copy's id as parent, but the live copy does not list it, so the
   * list is no tree any more. This holds also when `to` was already the
   * live copy's child: the detach step drops it from that list first.
   */
  lemma ConnectReplacedSourceUnlisted(ns: seq<Node>, from: Node, t: nat)
    requires UniqueIds(ns) && t < |ns| && from.id != ns[t].id && from.id in Ids(ns)
    requires ns[t].parent == Some(from.id) || ns[t].id !in ChildIdsOf(ns, from.id)
    ensures ConnectDetached(ns, from, t)[t].parent == Some(from.id)
    ensures ns[t].id !in ChildIdsOf(ConnectDetached(ns, from, t), from.id)
    ensures !WellFormed(ConnectDetached(ns, from, t))
  {
    var r := ConnectDetached(ns, from, t);
    ConnectDetachedMoves(ns, from, t);
    var f := IndexOf(ns, from.id).value;
    SameIdsIndexOf(r, ns, from.id);
    if ns[t].parent == Some(from.id) {
      assert r[f].children == Without(ns[f].children, ns[t].id);
    } else {
      assert r[f].children == ns[f].children || r[f].children == Without(ns[f].children, ns[t].id);
    }
    assert Get(r, from.id) == Some(r[f]);
    assert r[t] in r && !ParentLinked(r, r[t]);
  }
}
