/**
 * Keyboard and click navigation in mindmap.js: Tab / Shift-Tab stepping
 * through the store with wrap-around (`navigateNodes`), arrow keys moving
 * to the parent, the first child or a neighbouring sibling
 * (`navigateWithArrows`), and the two-click protocol of connect mode
 * (`onMouseDown`). Nodes are named by their index in the store.
 */
module Navigation {
  import opened Nodes

  /**
   * `navigateNodes(direction)` on `n` nodes: add the direction, then wrap
   * a negative index to the last node and an index past the end to the
   * first.
   */
  function WrapStep(k: int, direction: int, n: nat): (r: nat)
    requires n > 0
    ensures r < n
    ensures 0 <= k + direction < n ==> r == k + direction
  {
    var j := k + direction;
    var j1 := if j < 0 then n - 1 else j;
    if j1 >= n then 0 else j1
  }

  lemma MulAtLeast(d: int, n: int)
    requires d >= 1 && n > 0
    ensures d * n >= n
  {
    assert d * n == (d - 1) * n + n;
  }

  /** `a % n` is the one remainder in `[0, n)` of a division of `a` by `n`. */
  lemma ModUnique(a: int, n: int, q: int, r: int)
    requires n > 0 && 0 <= r < n && a == q * n + r
    ensures a % n == r
  {
    var d := q - a / n;
    assert d * n == a % n - r;
    if d >= 1 {
      MulAtLeast(d, n);
    } else if d <= -1 {
      MulAtLeast(-d, n);
    }
  }

  /** From a valid index, Tab is a step forward modulo the count and Shift-Tab a step back. */
  lemma WrapStepIsModular(k: nat, n: nat)
    requires k < n
    ensures WrapStep(k, 1, n) == (k + 1) % n
    ensures WrapStep(k, -1, n) == (k - 1) % n
  {
    if k + 1 < n {
      ModUnique(k + 1, n, 0, k + 1);
    } else {
      ModUnique(k + 1, n, 1, 0);
    }
    if k >= 1 {
      ModUnique(k - 1, n, 0, k - 1);
    } else {
      ModUnique(k - 1, n, -1, n - 1);
    }
  }

  /** Shift-Tab undoes Tab and Tab undoes Shift-Tab. */
  lemma TabShiftTabInverse(k: nat, n: nat)
    requires k < n
    ensures WrapStep(WrapStep(k, 1, n), -1, n) == k
    ensures WrapStep(WrapStep(k, -1, n), 1, n) == k
  {
  }

  /** Pressing Tab `m` times from `k`. */
  function Tabs(k: nat, m: nat, n: nat): (r: nat)
    requires k < n
    ensures r < n
    decreases m
  {
    if m == 0 then k else Tabs(WrapStep(k, 1, n), m - 1, n)
  }

  /** `m` Tabs move `m` places round the store; `n` Tabs come back to the start. */
  lemma {:induction false} TabsCycle(k: nat, m: nat, n: nat)
    requires k < n
    ensures Tabs(k, m, n) == (k + m) % n
    decreases m
  {
    if m > 0 {
      WrapStepIsModular(k, n);
      TabsCycle(WrapStep(k, 1, n), m - 1, n);
      ModStep(k, m, n);
    }
  }

  lemma ModStep(k: nat, m: nat, n: nat)
    requires k < n && m > 0
    ensures ((k + 1) % n + (m - 1)) % n == (k + m) % n
  {
    if k + 1 == n {
      ModUnique(k + 1, n, 1, 0);
      var a := m - 1;
      ModUnique(a + n, n, a / n + 1, a % n);
    } else {
      ModUnique(k + 1, n, 0, k + 1);
    }
  }

  // ---------------------------------------------------------------------
  // Arrow keys
  // ---------------------------------------------------------------------

  datatype Arrow = Up | Down | Left | Right

  /** Position of the first occurrence of `id` in `cs`. */
  function FirstPos(cs: seq<nat>, id: nat): (r: Option<nat>)
    ensures r.Some? ==> r.value < |cs| && cs[r.value] == id && forall j :: 0 <= j < r.value ==> cs[j] != id
    ensures r.None? ==> id !in cs
  {
    if cs == [] then None
    else if cs[0] == id then Some(0)
    else
      match FirstPos(cs[1..], id)
      case None => None
      case Some(j) => Some(j + 1)
  }

  /**
   * Left or Right among the sibling ids `sibs` of the node `id`. The
   * source looks every sibling up, finds the position of `id` by reading
   * the `id` of each looked-up sibling in turn, and takes the neighbour:
   * reading a sibling that is not in the store throws, which abandons the
   * key press. When `id` is not listed the position is -1, so Right picks
   * the first sibling.
   */
  function SiblingStep(ns: seq<Node>, sibs: seq<nat>, id: nat, right: bool): (r: Option<nat>)
    ensures r.Some? ==> r.value < |ns|
  {
    var pos := FirstPos(sibs, id);
    var scanned := if pos.Some? then sibs[..pos.value + 1] else sibs;
    if exists s | s in scanned :: s !in Ids(ns) then None
    else
      var next := (if pos.Some? then pos.value as int else -1) + (if right then 1 else -1);
      if 0 <= next < |sibs| then IndexOf(ns, sibs[next]) else None
  }

  /**
   * The index of the node an arrow key moves the selection to from the
   * selected object `c`, if any. The source reads `c`'s own `parent` and
   * `children` and looks the target up in the store, so `c` need not be a
   * node the store holds.
   */
  function ArrowTarget(ns: seq<Node>, c: Node, key: Arrow): (r: Option<nat>)
    ensures r.Some? ==> r.value < |ns|
    ensures key == Up && r.Some? ==> c.parent == Some(ns[r.value].id)
    ensures key == Down && r.Some? ==> c.children != [] && ns[r.value].id == c.children[0]
    ensures key == Up ==> (r.Some? <==> c.parent.Some? && c.parent.value in Ids(ns))
    ensures key == Down ==> (r.Some? <==> c.children != [] && c.children[0] in Ids(ns))
  {
    match key
    case Up => if c.parent.Some? then IndexOf(ns, c.parent.value) else None
    case Down => if |c.children| > 0 then IndexOf(ns, c.children[0]) else None
    case _ =>
      if c.parent.None? then None
      else
        match IndexOf(ns, c.parent.value)
        case None => None
        case Some(p) => SiblingStep(ns, ns[p].children, c.id, key == Right)
  }

  /** In a tree, Up after Down comes back. */
  lemma DownThenUp(ns: seq<Node>, i: nat)
    requires WellFormed(ns) && i < |ns| && ArrowTarget(ns, ns[i], Down).Some?
    ensures ArrowTarget(ns, ns[ArrowTarget(ns, ns[i], Down).value], Up) == Some(i)
  {
    var j := ArrowTarget(ns, ns[i], Down).value;
    assert ns[i] in ns && ChildrenLinked(ns, ns[i]);
    assert ns[i].children[0] in ns[i].children;
    UniqueGet(ns, ns[j]);
    UniqueIndexOf(ns, i);
  }

  /** In a tree the root has nowhere to go up to. */
  lemma UpFromRoot(ns: seq<Node>)
    requires WellFormed(ns)
    ensures ArrowTarget(ns, ns[0], Up).None?
  {
  }

  lemma FirstPosNoDup(cs: seq<nat>, k: nat)
    requires NoDup(cs) && k < |cs|
    ensures FirstPos(cs, cs[k]) == Some(k)
  {
  }

  /** With every sibling in the store, the step is a plain move by one along the list. */
  lemma SiblingStepAt(ns: seq<Node>, sibs: seq<nat>, id: nat, q: nat, right: bool)
    requires FirstPos(sibs, id) == Some(q) && forall s | s in sibs :: s in Ids(ns)
    ensures var next := if right then q + 1 else q - 1;
      SiblingStep(ns, sibs, id, right) == if 0 <= next < |sibs| then IndexOf(ns, sibs[next]) else None
  {
    assert forall s | s in sibs[..q + 1] :: s in sibs;
  }

  /** In a tree, the siblings of a node are all in the store and the node is among them once. */
  lemma SiblingsOf(ns: seq<Node>, i: nat) returns (p: nat, q: nat)
    requires WellFormed(ns) && i < |ns| && ns[i].parent.Some?
    ensures IndexOf(ns, ns[i].parent.value) == Some(p)
    ensures FirstPos(ns[p].children, ns[i].id) == Some(q)
    ensures forall s | s in ns[p].children :: s in Ids(ns)
    ensures NoDup(ns[p].children)
  {
    var c := ns[i];
    assert c in ns && ParentLinked(ns, c);
    UniqueGet(ns, ns[IndexOf(ns, c.parent.value).value]);
    p := IndexOf(ns, c.parent.value).value;
    assert ns[p] in ns && ChildrenLinked(ns, ns[p]);
    q := FirstPos(ns[p].children, c.id).value;
    forall s | s in ns[p].children ensures s in Ids(ns) {
      GetMember(ns, s);
    }
  }

  /** Left or Right from a node whose parent is at `p` and who sits at `k` among its siblings. */
  lemma ArrowSibling(ns: seq<Node>, j: nat, p: nat, k: nat, right: bool)
    requires j < |ns| && ns[j].parent.Some? && IndexOf(ns, ns[j].parent.value) == Some(p)
    requires FirstPos(ns[p].children, ns[j].id) == Some(k)
    requires forall s | s in ns[p].children :: s in Ids(ns)
    ensures var next := if right then k + 1 else k - 1;
      ArrowTarget(ns, ns[j], if right then Right else Left) ==
        if 0 <= next < |ns[p].children| then IndexOf(ns, ns[p].children[next]) else None
  {
    SiblingStepAt(ns, ns[p].children, ns[j].id, k, right);
  }

  /** In a tree, a listed child is in the store and names its parent. */
  lemma ListedChild(ns: seq<Node>, p: nat, k: nat)
    requires WellFormed(ns) && p < |ns| && k < |ns[p].children|
    ensures IndexOf(ns, ns[p].children[k]).Some?
    ensures ns[IndexOf(ns, ns[p].children[k]).value].parent == Some(ns[p].id)
  {
    assert ns[p] in ns && ChildrenLinked(ns, ns[p]);
    assert ns[p].children[k] in ns[p].children;
  }

  /** In a tree, Right moves from position `q` to position `q + 1` of the parent's list. */
  lemma RightStep(ns: seq<Node>, i: nat) returns (p: nat, q: nat)
    requires WellFormed(ns) && i < |ns| && ArrowTarget(ns, ns[i], Right).Some?
    ensures ns[i].parent.Some? && IndexOf(ns, ns[i].parent.value) == Some(p)
    ensures q + 1 < |ns[p].children| && ns[p].children[q] == ns[i].id
    ensures ArrowTarget(ns, ns[i], Right) == IndexOf(ns, ns[p].children[q + 1])
    ensures NoDup(ns[p].children) && forall s | s in ns[p].children :: s in Ids(ns)
  {
    p, q := SiblingsOf(ns, i);
    ArrowSibling(ns, i, p, q, true);
  }

  /** In a tree, Left after Right comes back. */
  lemma RightThenLeft(ns: seq<Node>, i: nat)
    requires WellFormed(ns) && i < |ns| && ArrowTarget(ns, ns[i], Right).Some?
    ensures ArrowTarget(ns, ns[ArrowTarget(ns, ns[i], Right).value], Left) == Some(i)
  {
    var p, q := RightStep(ns, i);
    var j := ArrowTarget(ns, ns[i], Right).value;
    ListedChild(ns, p, q + 1);
    UniqueIndexOf(ns, p);
    FirstPosNoDup(ns[p].children, q + 1);
    ArrowSibling(ns, j, p, q + 1, false);
    UniqueIndexOf(ns, i);
  }

  // ---------------------------------------------------------------------
  // Connect mode
  // ---------------------------------------------------------------------

  /** What a click in connect mode does: the pending source afterwards, and the connection to make, if any. */
  datatype ClickOutcome<T> = ClickOutcome(pending: Option<T>, connect: Option<(T, T)>)

  /**
   * A click on the node `hit` in connect mode: with nothing pending it
   * becomes the source; on anything other than the source it connects the
   * source to it and clears the source; on the source itself nothing
   * happens. `T` is whatever tells node objects apart.
   */
  function ConnectClick<T(==)>(pending: Option<T>, hit: T): (o: ClickOutcome<T>)
    ensures o.connect.Some? <==> pending.Some? && pending.value != hit
    ensures o.connect.Some? ==> o.connect.value == (pending.value, hit) && o.pending.None?
    ensures o.connect.None? ==> o.pending == Some(if pending.Some? then pending.value else hit)
  {
    match pending
    case None => ClickOutcome(Some(hit), None)
    case Some(s) => if s != hit then ClickOutcome(None, Some((s, hit))) else ClickOutcome(pending, None)
  }

  /** Two clicks on different nodes from rest make exactly that one connection and return to rest. */
  lemma TwoClicksConnect<T>(a: T, b: T)
    requires a != b
    ensures ConnectClick(None, a) == ClickOutcome(Some(a), None)
    ensures ConnectClick(ConnectClick(None, a).pending, b) == ClickOutcome(None, Some((a, b)))
  {
  }
}
