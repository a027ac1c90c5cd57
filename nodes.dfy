/**
 * The node record of the mind map and the read-only queries over the flat
 * node list that every other part of the editor uses: lookup by id (the
 * JavaScript `nodes.find(n => n.id === id)`), the children of a node by its
 * `parent` field (`nodes.filter(n => n.parent === id)`), order-preserving
 * filtering, reachability through `children` lists, and the tree invariant.
 */
module Nodes {

  datatype Option<+T> = None | Some(value: T)

  function MaxR(a: real, b: real): real { if a >= b then a else b }
  function MinR(a: real, b: real): real { if a <= b then a else b }
  function MaxI(a: int, b: int): int { if a >= b then a else b }

  /**
   * One box of the diagram. `x`, `y` are the world-space centre, `children`
   * the ordered ids of the child nodes, `parent` the id of the parent (None
   * only for a root), `color` the slot of the theme palette
   * (0 primary, 1 secondary, 2 accent).
   */
  datatype Node = Node(
    id: nat,
    text: string,
    x: real,
    y: real,
    width: real,
    height: real,
    children: seq<nat>,
    parent: Option<nat>,
    level: nat,
    color: nat,
    textColor: string,
    fontSize: int)

  /** The set of ids present in a node list. */
  function Ids(ns: seq<Node>): set<nat> {
    set n | n in ns :: n.id
  }

  /** Index of the first node carrying `id`, or None (a JavaScript `find`). */
  function IndexOf(ns: seq<Node>, id: nat): (r: Option<nat>)
    ensures r.Some? ==> r.value < |ns| && ns[r.value].id == id
    ensures r.Some? ==> forall j :: 0 <= j < r.value ==> ns[j].id != id
    ensures r.None? <==> id !in Ids(ns)
  {
    var r := IndexFrom(ns, id, 0);
    assert r.None? ==> forall n | n in ns :: n.id != id;
    r
  }

  /** The scan of `find` from position `k` on. */
  function IndexFrom(ns: seq<Node>, id: nat, k: nat): (r: Option<nat>)
    requires k <= |ns|
    ensures r.Some? ==> k <= r.value < |ns| && ns[r.value].id == id
    ensures r.Some? ==> forall j :: k <= j < r.value ==> ns[j].id != id
    ensures r.None? ==> forall j :: k <= j < |ns| ==> ns[j].id != id
    decreases |ns| - k
  {
    if k == |ns| then None
    else if ns[k].id == id then Some(k)
    else IndexFrom(ns, id, k + 1)
  }

  /** The first node carrying `id`, or None. */
  function Get(ns: seq<Node>, id: nat): Option<Node> {
    match IndexOf(ns, id)
    case None => None
    case Some(i) => Some(ns[i])
  }

  /** The `children` list of the node carrying `id`; empty when there is none. */
  function ChildIdsOf(ns: seq<Node>, id: nat): seq<nat> {
    match IndexOf(ns, id)
    case None => []
    case Some(i) => ns[i].children
  }

  /** `id` removed from a children list (`children.filter(c => c !== id)`). */
  function Without(cs: seq<nat>, id: nat): (r: seq<nat>)
    ensures forall c :: c in r <==> c in cs && c != id
    ensures |r| <= |cs|
  {
    if cs == [] then []
    else (if cs[0] == id then [] else [cs[0]]) + Without(cs[1..], id)
  }

  ghost predicate NoDup(cs: seq<nat>) {
    forall i, j :: 0 <= i < j < |cs| ==> cs[i] != cs[j]
  }

  ghost predicate UniqueIds(ns: seq<Node>) {
    forall i, j :: 0 <= i < j < |ns| ==> ns[i].id != ns[j].id
  }

  /** `a` is `b` with some elements dropped, the rest kept in order. */
  ghost predicate IsSubseq<T>(a: seq<T>, b: seq<T>)
    decreases |b|
  {
    if a == [] then true
    else if b == [] then false
    else if a[0] == b[0] then IsSubseq(a[1..], b[1..])
    else IsSubseq(a, b[1..])
  }

  /** The nodes whose id is not in `gone`, in their original order. */
  function Keep(ns: seq<Node>, gone: set<nat>): (r: seq<Node>)
    ensures forall n :: n in r <==> n in ns && n.id !in gone
    ensures IsSubseq(r, ns)
  {
    if ns == [] then []
    else if ns[0].id in gone then
      assert forall n | n in ns :: n == ns[0] || n in ns[1..];
      Keep(ns[1..], gone)
    else
      var rest := Keep(ns[1..], gone);
      assert forall n | n in ns :: n == ns[0] || n in ns[1..];
      assert ([ns[0]] + rest)[1..] == rest;
      [ns[0]] + rest
  }

  /** Indices of the nodes whose `parent` is `pid`, in store order. */
  function ChildIndices(ns: seq<Node>, pid: nat): (r: seq<nat>)
    ensures forall i: int :: i in r <==> 0 <= i < |ns| && ns[i].parent == Some(pid)
    ensures forall a, b :: 0 <= a < b < |r| ==> r[a] < r[b]
  {
    ChildIndicesFrom(ns, pid, 0)
  }

  /** The same facts about `ChildIndices`, by position in the list. */
  lemma ChildIndicesAt(ns: seq<Node>, pid: nat)
    ensures forall a :: 0 <= a < |ChildIndices(ns, pid)| ==>
      ChildIndices(ns, pid)[a] < |ns| && ns[ChildIndices(ns, pid)[a]].parent == Some(pid)
  {
    var r := ChildIndices(ns, pid);
    assert forall a :: 0 <= a < |r| ==> r[a] in r;
  }

  function ChildIndicesFrom(ns: seq<Node>, pid: nat, k: nat): (r: seq<nat>)
    requires k <= |ns|
    ensures forall i :: i in r <==> k <= i < |ns| && ns[i].parent == Some(pid)
    ensures forall a, b :: 0 <= a < b < |r| ==> r[a] < r[b]
    decreases |ns| - k
  {
    if k == |ns| then []
    else
      var rest := ChildIndicesFrom(ns, pid, k + 1);
      assert forall b :: 0 <= b < |rest| ==> rest[b] in rest;
      if ns[k].parent == Some(pid) then [k] + rest else rest
  }

  // ---------------------------------------------------------------------
  // Links that only layout passes leave untouched
  // ---------------------------------------------------------------------

  /** `a` and `b` hold the same nodes except for position and size. */
  ghost predicate SameLinks(a: seq<Node>, b: seq<Node>) {
    |a| == |b| &&
    forall i :: 0 <= i < |a| ==> b[i] == a[i].(x := b[i].x, y := b[i].y, width := b[i].width, height := b[i].height)
  }

  /** `a` and `b` hold the same nodes except for position. */
  ghost predicate OnlyMoved(a: seq<Node>, b: seq<Node>) {
    |a| == |b| &&
    forall i :: 0 <= i < |a| ==> b[i] == a[i].(x := b[i].x, y := b[i].y)
  }

  lemma OnlyMovedTrans(a: seq<Node>, b: seq<Node>, c: seq<Node>)
    requires OnlyMoved(a, b) && OnlyMoved(b, c)
    ensures OnlyMoved(a, c)
  {
  }

  /** Moving one node is only moving. */
  lemma MoveOne(ns: seq<Node>, k: nat, x: real, y: real)
    requires k < |ns|
    ensures OnlyMoved(ns, ns[k := ns[k].(x := x, y := y)])
  {
  }

  /** Lookup by id only sees ids, so lists with the same ids in the same places agree on it. */
  lemma SameIdsIndexOf(a: seq<Node>, b: seq<Node>, id: nat)
    requires |a| == |b| && forall i :: 0 <= i < |a| ==> a[i].id == b[i].id
    ensures IndexOf(a, id) == IndexOf(b, id) && Ids(a) == Ids(b)
  {
    SameIdsIds(a, b);
    if id in Ids(a) {
      var ia, ib := IndexOf(a, id).value, IndexOf(b, id).value;
      assert b[ia].id == id && a[ib].id == id;
      assert ib <= ia && ia <= ib;
    }
  }

  lemma SameIdsIds(a: seq<Node>, b: seq<Node>)
    requires |a| == |b| && forall i :: 0 <= i < |a| ==> a[i].id == b[i].id
    ensures Ids(a) == Ids(b)
  {
    forall n | n in a ensures n.id in Ids(b) {
      var i :| 0 <= i < |a| && a[i] == n;
      assert b[i] in b;
    }
    forall n | n in b ensures n.id in Ids(a) {
      var i :| 0 <= i < |b| && b[i] == n;
      assert a[i] in a;
    }
  }

  lemma SameLinksIndexOf(a: seq<Node>, b: seq<Node>, id: nat)
    requires SameLinks(a, b)
    ensures IndexOf(a, id) == IndexOf(b, id)
  {
    SameIdsIndexOf(a, b, id);
  }

  /** Appending a node changes lookups only for an id not present before. */
  lemma IndexOfAppend(ns: seq<Node>, n: Node, id: nat)
    ensures IndexOf(ns + [n], id) ==
      if id in Ids(ns) then IndexOf(ns, id) else if n.id == id then Some(|ns|) else None
  {
    IdsAppend(ns, n);
    if id in Ids(ns) {
      IndexOfAppendOld(ns, n, id);
    } else if n.id == id {
      IndexOfAppendNew(ns, n, id);
    }
  }

  lemma IndexOfAppendOld(ns: seq<Node>, n: Node, id: nat)
    requires id in Ids(ns) && id in Ids(ns + [n])
    ensures IndexOf(ns + [n], id) == IndexOf(ns, id)
  {
    var r := ns + [n];
    var i := IndexOf(ns, id).value;
    var m := IndexOf(r, id).value;
    assert r[i] == ns[i];
    assert m <= i;
    assert r[m] == ns[m];
  }

  lemma IndexOfAppendNew(ns: seq<Node>, n: Node, id: nat)
    requires id !in Ids(ns) && n.id == id
    ensures IndexOf(ns + [n], id) == Some(|ns|)
  {
    var r := ns + [n];
    assert r[|ns|] == n && n in r;
    forall j | 0 <= j < |ns| ensures r[j].id != id {
      assert r[j] == ns[j] && ns[j] in ns;
    }
  }

  /** A list that keeps the ids of `a` at their indices, and perhaps more nodes after them, carries every id of `a`. */
  lemma PrefixIds(a: seq<Node>, b: seq<Node>)
    requires |a| <= |b| && forall i :: 0 <= i < |a| ==> b[i].id == a[i].id
    ensures Ids(a) <= Ids(b)
  {
    forall n | n in a ensures n.id in Ids(b) {
      var i :| 0 <= i < |a| && a[i] == n;
      assert b[i] in b;
    }
  }

  lemma IdsAppend(ns: seq<Node>, n: Node)
    ensures Ids(ns + [n]) == Ids(ns) + {n.id}
  {
    var r := ns + [n];
    assert forall m | m in r :: m in ns || m == n;
    assert n in r;
    assert forall m | m in ns :: m in r;
  }

  // ---------------------------------------------------------------------
  // Reachability through `children` lists
  // ---------------------------------------------------------------------

  /** Each id of `p` after the first is listed as a child of the one before. */
  ghost predicate IsPath(ns: seq<Node>, p: seq<nat>) {
    |p| > 0 && forall k :: 0 <= k < |p| - 1 ==> p[k + 1] in ChildIdsOf(ns, p[k])
  }

  ghost predicate Reachable(ns: seq<Node>, a: nat, b: nat) {
    exists p :: IsPath(ns, p) && p[0] == a && p[|p| - 1] == b
  }

  /** Every id a walk from `a` can meet: `a` and every listed child id. */
  function Universe(ns: seq<Node>, a: nat): set<nat> {
    {a} + set n, c | n in ns && c in n.children :: c
  }

  /** `a` together with everything reachable from it through `children`. */
  ghost function Descendants(ns: seq<Node>, a: nat): set<nat> {
    set d | d in Universe(ns, a) && Reachable(ns, a, d)
  }

  lemma ChildInUniverse(ns: seq<Node>, a: nat, id: nat, c: nat)
    requires c in ChildIdsOf(ns, id)
    ensures c in Universe(ns, a)
  {
    var i := IndexOf(ns, id).value;
    assert ns[i] in ns;
  }

  lemma ReachableInUniverse(ns: seq<Node>, a: nat, b: nat)
    requires Reachable(ns, a, b)
    ensures b in Universe(ns, a)
  {
    var p :| IsPath(ns, p) && p[0] == a && p[|p| - 1] == b;
    if |p| > 1 {
      ChildInUniverse(ns, a, p[|p| - 2], b);
    }
  }

  lemma ReachableStep(ns: seq<Node>, a: nat, b: nat, c: nat)
    requires Reachable(ns, a, b) && c in ChildIdsOf(ns, b)
    ensures Reachable(ns, a, c)
  {
    var p :| IsPath(ns, p) && p[0] == a && p[|p| - 1] == b;
    var q := p + [c];
    assert IsPath(ns, q);
  }

  lemma ReachableRefl(ns: seq<Node>, a: nat)
    ensures Reachable(ns, a, a)
  {
    assert IsPath(ns, [a]);
  }

  /** A reachable id other than the start is the child of a reachable id. */
  lemma ReachableLast(ns: seq<Node>, a: nat, b: nat) returns (q: nat)
    requires Reachable(ns, a, b) && b != a
    ensures Reachable(ns, a, q) && b in ChildIdsOf(ns, q)
  {
    var p :| IsPath(ns, p) && p[0] == a && p[|p| - 1] == b;
    assert |p| > 1;
    q := p[|p| - 2];
    var p' := p[..|p| - 1];
    assert IsPath(ns, p');
  }

  // ---------------------------------------------------------------------
  // The tree invariant
  // ---------------------------------------------------------------------

  /** The node's parent exists, lists it as a child, and is one level up. */
  ghost predicate ParentLinked(ns: seq<Node>, n: Node)
    requires n.parent.Some?
  {
    match Get(ns, n.parent.value)
    case None => false
    case Some(p) => p.level + 1 == n.level && n.id in p.children
  }

  /** Every listed child exists, names this node as parent, and is listed once. */
  ghost predicate ChildrenLinked(ns: seq<Node>, n: Node) {
    NoDup(n.children) &&
    forall c | c in n.children ::
      match Get(ns, c)
      case None => false
      case Some(k) => k.parent == Some(n.id)
  }

  /**
   * A single-rooted tree: the first node is the root (no parent, level 0),
   * every other node has a parent; ids are unique; parent and children
   * links mirror each other; levels follow the parent chain.
   */
  ghost predicate WellFormed(ns: seq<Node>) {
    && |ns| > 0
    && ns[0].parent.None? && ns[0].level == 0
    && UniqueIds(ns)
    && (forall n | n in ns && n.id != ns[0].id :: n.parent.Some?)
    && (forall n | n in ns && n.parent.Some? :: ParentLinked(ns, n))
    && (forall n | n in ns :: ChildrenLinked(ns, n))
  }

  lemma UniqueIndexOf(ns: seq<Node>, i: nat)
    requires UniqueIds(ns) && i < |ns|
    ensures IndexOf(ns, ns[i].id) == Some(i) && Get(ns, ns[i].id) == Some(ns[i])
  {
    assert ns[i] in ns;
  }

  lemma GetMember(ns: seq<Node>, id: nat)
    requires Get(ns, id).Some?
    ensures Get(ns, id).value in ns && Get(ns, id).value.id == id
  {
  }

  lemma UniqueGet(ns: seq<Node>, n: Node)
    requires UniqueIds(ns) && n in ns
    ensures Get(ns, n.id) == Some(n)
  {
    var i :| 0 <= i < |ns| && ns[i] == n;
    UniqueIndexOf(ns, i);
  }

  /** Along a path, levels grow by one per step. */
  lemma {:induction false} PathLevels(ns: seq<Node>, p: seq<nat>)
    requires WellFormed(ns) && IsPath(ns, p) && p[0] in Ids(ns)
    ensures p[|p| - 1] in Ids(ns)
    ensures Get(ns, p[|p| - 1]).value.level == Get(ns, p[0]).value.level + |p| - 1
    decreases |p|
  {
    if |p| > 1 {
      var p' := p[..|p| - 1];
      assert IsPath(ns, p');
      PathLevels(ns, p');
      var b := p'[|p'| - 1];
      var nb := Get(ns, b).value;
      GetMember(ns, b);
      assert p[|p| - 1] in ChildIdsOf(ns, b);
      assert ChildrenLinked(ns, nb);
      var c := p[|p| - 1];
      var nc := Get(ns, c).value;
      GetMember(ns, c);
      assert nc.parent == Some(nb.id);
      assert ParentLinked(ns, nc);
    }
  }

  /** In a tree nothing reachable from a node is above it; only itself is level with it. */
  lemma ReachableDeeper(ns: seq<Node>, a: nat, b: nat)
    requires WellFormed(ns) && a in Ids(ns) && Reachable(ns, a, b)
    ensures b in Ids(ns)
    ensures Get(ns, b).value.level >= Get(ns, a).value.level
    ensures b != a ==> Get(ns, b).value.level > Get(ns, a).value.level
  {
    var p :| IsPath(ns, p) && p[0] == a && p[|p| - 1] == b;
    PathLevels(ns, p);
  }
}
