/**
 * What the tree layout of `applyTreeLayout` does to a well-formed tree:
 * every node but the root lands on the row of its level below the root,
 * and the children of every node sit in a row centred under it, one
 * spacing apart, in store order. The proof follows the recursion of
 * `positionLevel`: placing a subtree moves only the nodes of that
 * subtree, so what one call settles is never disturbed by later calls.
 */
module TreeLaws {
  import opened Nodes
  import opened Layout

  // ---------------------------------------------------------------------
  // Subtrees, through parent links
  // ---------------------------------------------------------------------

  /**
   * The ancestor of the node at `i` on level `lv`, found by following
   * parent links upwards while the level drops; the walk stops early at a
   * node whose parent is missing or not above it.
   */
  function Top(ns: seq<Node>, i: nat, lv: nat): (r: nat)
    requires i < |ns|
    ensures r < |ns| && ns[r].level <= ns[i].level
    decreases ns[i].level
  {
    if ns[i].level <= lv || ns[i].parent.None? then i
    else
      match IndexOf(ns, ns[i].parent.value)
      case None => i
      case Some(p) => if ns[p].level < ns[i].level then Top(ns, p, lv) else i
  }

  /** The node at `i` lies in the subtree hanging from the node at `k`. */
  ghost predicate InSub(ns: seq<Node>, i: nat, k: nat) {
    i < |ns| && k < |ns| && ns[i].level >= ns[k].level && Top(ns, i, ns[k].level) == k
  }

  /**
   * The node at `c` is the one its id finds, and, if its parent is in the
   * list, it sits one level below it.
   */
  ghost predicate ParentAbove(ns: seq<Node>, c: nat) {
    && c < |ns|
    && IndexOf(ns, ns[c].id) == Some(c)
    && (ns[c].parent.Some? && IndexOf(ns, ns[c].parent.value).Some? ==>
          ns[IndexOf(ns, ns[c].parent.value).value].level + 1 == ns[c].level)
  }

  /** Unique ids, and every child exactly one level below its parent. */
  ghost predicate Layered(ns: seq<Node>) {
    forall c :: 0 <= c < |ns| ==> ParentAbove(ns, c)
  }

  /** A tree is layered. */
  lemma TreeLayered(ns: seq<Node>)
    requires WellFormed(ns)
    ensures Layered(ns)
  {
    forall c | 0 <= c < |ns| ensures ParentAbove(ns, c) {
      assert ns[c] in ns;
      UniqueIndexOf(ns, c);
    }
  }

  /** Climbing to a level, then on to a lower one, is climbing to the lower one. */
  lemma {:induction false} TopTrans(ns: seq<Node>, i: nat, lo: nat, hi: nat)
    requires i < |ns| && lo <= hi
    ensures Top(ns, i, lo) == Top(ns, Top(ns, i, hi), lo)
    decreases ns[i].level
  {
    if ns[i].level <= hi || ns[i].parent.None? {
    } else {
      match IndexOf(ns, ns[i].parent.value)
      case None =>
      case Some(p) =>
        if ns[p].level < ns[i].level {
          TopTrans(ns, p, lo, hi);
        }
    }
  }

  /** In a layered list the climb to level `lv` from a node on or below it ends on or below `lv`. */
  lemma {:induction false} TopLevel(ns: seq<Node>, i: nat, lv: nat)
    requires Layered(ns) && i < |ns| && ns[i].level >= lv
    ensures ns[Top(ns, i, lv)].level >= lv
    decreases ns[i].level
  {
    if ns[i].level <= lv || ns[i].parent.None? {
    } else {
      match IndexOf(ns, ns[i].parent.value)
      case None =>
      case Some(p) =>
        if ns[p].level < ns[i].level {
          ParentLevel(ns, i, p);
          TopLevel(ns, p, lv);
        }
    }
  }

  /** A child climbs to its parent in one step. */
  lemma ChildTop(ns: seq<Node>, c: nat, k: nat)
    requires Layered(ns) && c < |ns| && k < |ns| && ns[c].parent == Some(ns[k].id)
    ensures ns[c].level == ns[k].level + 1 && Top(ns, c, ns[k].level) == k
  {
    assert ParentAbove(ns, k);
    ParentLevel(ns, c, k);
  }

  /** Subtrees nest: a subtree of a node of `k`'s subtree lies in `k`'s subtree. */
  lemma SubTrans(ns: seq<Node>, i: nat, p: nat, k: nat)
    requires InSub(ns, i, p) && InSub(ns, p, k)
    ensures InSub(ns, i, k)
  {
    TopTrans(ns, i, ns[k].level, ns[p].level);
  }

  /** A node's subtree lies in its parent's subtree, and a node lies in its own. */
  lemma ChildSub(ns: seq<Node>, c: nat, k: nat)
    requires Layered(ns) && c < |ns| && k < |ns| && ns[c].parent == Some(ns[k].id)
    ensures InSub(ns, c, k) && InSub(ns, c, c)
  {
    ChildTop(ns, c, k);
  }

  /** Where the climb to `lv` does not stop at once, it goes on from the parent. */
  lemma TopMoves(ns: seq<Node>, i: nat, lv: nat) returns (p: nat)
    requires i < |ns| && Top(ns, i, lv) != i
    ensures ns[i].level > lv && ns[i].parent.Some? && IndexOf(ns, ns[i].parent.value) == Some(p)
    ensures p < |ns| && ns[p].level < ns[i].level && Top(ns, i, lv) == Top(ns, p, lv)
  {
    p := IndexOf(ns, ns[i].parent.value).value;
  }

  /** In a layered list a parent found by id sits one level up. */
  lemma ParentLevel(ns: seq<Node>, c: nat, p: nat)
    requires Layered(ns) && c < |ns| && ns[c].parent.Some? && IndexOf(ns, ns[c].parent.value) == Some(p)
    ensures ns[p].level + 1 == ns[c].level
  {
    assert ParentAbove(ns, c);
  }

  /** A node the climb to `lv + 1` stops at, but the climb to `lv` leaves, sits on level `lv + 1`. */
  lemma ClimbStopsOnLevel(ns: seq<Node>, c: nat, lv: nat)
    requires Layered(ns) && c < |ns| && Top(ns, c, lv + 1) == c && Top(ns, c, lv) != c
    ensures ns[c].level == lv + 1
  {
    var p := TopMoves(ns, c, lv);
    ParentLevel(ns, c, p);
  }

  /** Such a node is a child of its ancestor on level `lv`. */
  lemma ClimbOne(ns: seq<Node>, c: nat, k: nat)
    requires Layered(ns) && c < |ns| && k < |ns| && c != k
    requires Top(ns, c, ns[k].level + 1) == c && Top(ns, c, ns[k].level) == k
    ensures ns[c].parent == Some(ns[k].id) && ns[c].level == ns[k].level + 1
  {
    ClimbStopsOnLevel(ns, c, ns[k].level);
    var p := TopMoves(ns, c, ns[k].level);
    ParentLevel(ns, c, p);
  }

  /** A node of `k`'s subtree other than `k` lies in the subtree of one of `k`'s children. */
  lemma SubSplit(ns: seq<Node>, i: nat, k: nat) returns (c: nat)
    requires Layered(ns) && InSub(ns, i, k) && i != k
    ensures c < |ns| && c in ChildIndices(ns, ns[k].id) && InSub(ns, i, c)
  {
    var lv := ns[k].level;
    assert ns[i].level > lv;
    c := Top(ns, i, lv + 1);
    assert c != k by {
      TopLevel(ns, i, lv + 1);
    }
    assert Top(ns, c, lv) == k by {
      TopTrans(ns, i, lv, lv + 1);
    }
    assert Top(ns, c, lv + 1) == c by {
      TopTrans(ns, i, lv + 1, lv + 1);
    }
    ClimbOne(ns, c, k);
    assert Top(ns, i, ns[c].level) == c;
  }

  // ---------------------------------------------------------------------
  // Placing a subtree moves nothing outside it
  // ---------------------------------------------------------------------

  lemma {:induction false} ChildIndicesFromMoved(a: seq<Node>, b: seq<Node>, pid: nat, k: nat)
    requires OnlyMoved(a, b) && k <= |a|
    ensures ChildIndicesFrom(a, pid, k) == ChildIndicesFrom(b, pid, k)
    decreases |a| - k
  {
    if k < |a| {
      assert b[k] == a[k].(x := b[k].x, y := b[k].y);
      ChildIndicesFromMoved(a, b, pid, k + 1);
    }
  }

  /** Moving nodes does not change who is whose child. */
  lemma ChildIndicesMoved(a: seq<Node>, b: seq<Node>, pid: nat)
    requires OnlyMoved(a, b)
    ensures ChildIndices(a, pid) == ChildIndices(b, pid)
  {
    ChildIndicesFromMoved(a, b, pid, 0);
  }

  /** The children of the node at `k`, in `ns0`, lie one level below it and carry a parent. */
  lemma ChildrenOfK(ns0: seq<Node>, ns: seq<Node>, k: nat)
    requires Layered(ns0) && OnlyMoved(ns0, ns) && k < |ns0|
    ensures var cs := ChildIndices(ns0, ns0[k].id);
      forall m :: 0 <= m < |cs| ==>
        && cs[m] < |ns| && ns[cs[m]].parent.Some? && ns0[cs[m]].level == ns0[k].level + 1
        && ns0[cs[m]].parent == Some(ns0[k].id)
  {
    var cs := ChildIndices(ns0, ns0[k].id);
    ChildIndicesAt(ns0, ns0[k].id);
    forall m | 0 <= m < |cs| ensures ns[cs[m]].parent.Some? && ns0[cs[m]].level == ns0[k].level + 1 {
      assert ns[cs[m]] == ns0[cs[m]].(x := ns[cs[m]].x, y := ns[cs[m]].y);
      ChildTop(ns0, cs[m], k);
    }
  }

  /**
   * One turn of `positionLevel` for the node at `k`, unfolded: it moves to
   * `x` on its row, and its children (those of `ns0`) follow one row down.
   */
  lemma PlaceStep(ns0: seq<Node>, ns: seq<Node>, k: nat, depth: nat, x: real, ry: real, fuel: nat)
    requires Layered(ns0) && OnlyMoved(ns0, ns)
    requires k < |ns| && ns[k].parent.Some? && ns0[k].level == depth
    ensures var ns1 := ns[k := ns[k].(x := x, y := ry + depth as real * LevelHeight)];
      var cs := ChildIndices(ns0, ns0[k].id);
      && OnlyMoved(ns0, ns1)
      && (forall c | c in cs :: c < |ns1| && ns1[c].parent.Some? && ns0[c].level == depth + 1)
      && PlaceSubtree(ns, k, depth, x, ry, fuel) ==
         if |cs| > 0 && fuel > 0 then TreeRow(ns1, cs, depth + 1, RowStart(x, |cs|, NodeSpacing), ry, fuel - 1) else ns1
  {
    var ns1 := ns[k := ns[k].(x := x, y := ry + depth as real * LevelHeight)];
    MoveOne(ns, k, x, ry + depth as real * LevelHeight);
    OnlyMovedTrans(ns0, ns, ns1);
    StepChildren(ns0, ns1, k);
    ChildIndicesMoved(ns0, ns1, ns0[k].id);
    assert ns1[k].id == ns0[k].id;
    PlaceUnfold(ns, k, depth, x, ry, fuel);
  }

  /** `PlaceSubtree` unfolded once, with the children read from the moved list. */
  lemma PlaceUnfold(ns: seq<Node>, k: nat, depth: nat, x: real, ry: real, fuel: nat)
    requires k < |ns| && ns[k].parent.Some?
    ensures var ns1 := ns[k := ns[k].(x := x, y := ry + depth as real * LevelHeight)];
      var cs := ChildIndices(ns1, ns1[k].id);
      && (forall c | c in cs :: c < |ns1| && ns1[c].parent.Some?)
      && PlaceSubtree(ns, k, depth, x, ry, fuel) ==
         if |cs| > 0 && fuel > 0 then TreeRow(ns1, cs, depth + 1, RowStart(x, |cs|, NodeSpacing), ry, fuel - 1) else ns1
  {
  }

  /** The children of the node at `k`, as a membership fact: below it, with a parent. */
  lemma StepChildren(ns0: seq<Node>, ns1: seq<Node>, k: nat)
    requires Layered(ns0) && OnlyMoved(ns0, ns1) && k < |ns0|
    ensures forall c | c in ChildIndices(ns0, ns0[k].id) :: c < |ns1| && ns1[c].parent.Some? && ns0[c].level == ns0[k].level + 1
  {
    var cs := ChildIndices(ns0, ns0[k].id);
    ChildrenOfK(ns0, ns1, k);
    forall c | c in cs ensures c < |ns1| && ns1[c].parent.Some? && ns0[c].level == ns0[k].level + 1 {
      var m :| 0 <= m < |cs| && cs[m] == c;
    }
  }

  /** A node outside the subtree of `k` is outside the subtree of each of `k`'s children. */
  lemma OutsideChildren(ns0: seq<Node>, k: nat, i: nat)
    requires Layered(ns0) && k < |ns0| && i < |ns0| && !InSub(ns0, i, k)
    ensures forall c | c in ChildIndices(ns0, ns0[k].id) :: !InSub(ns0, i, c)
  {
    var cs := ChildIndices(ns0, ns0[k].id);
    forall c | c in cs ensures !InSub(ns0, i, c) {
      var m :| 0 <= m < |cs| && cs[m] == c;
      if InSub(ns0, i, c) {
        ChildSub(ns0, c, k);
        SubTrans(ns0, i, c, k);
      }
    }
  }

  /** A row of subtrees moves no node outside them. */
  lemma {:induction false} TreeRowFrame(ns0: seq<Node>, ns: seq<Node>, kids: seq<nat>, depth: nat, x: real, ry: real, fuel: nat)
    requires Layered(ns0) && OnlyMoved(ns0, ns)
    requires forall k | k in kids :: k < |ns| && ns[k].parent.Some? && ns0[k].level == depth
    ensures forall i :: 0 <= i < |ns| && (forall c | c in kids :: !InSub(ns0, i, c)) ==>
      TreeRow(ns, kids, depth, x, ry, fuel)[i] == ns[i]
    decreases fuel, |kids|
  {
    if kids != [] {
      var k := kids[0];
      assert k in kids;
      TreeRowStep(ns, kids, depth, x, ry, fuel);
      var ns1 := PlaceSubtree(ns, k, depth, x, ry, fuel);
      PlaceFrame(ns0, ns, k, depth, x, ry, fuel);
      OnlyMovedTrans(ns0, ns, ns1);
      forall j | j in kids[1..] ensures j < |ns1| && ns1[j].parent.Some? && ns0[j].level == depth {
        assert j in kids;
      }
      TreeRowFrame(ns0, ns1, kids[1..], depth, x + NodeSpacing, ry, fuel);
      forall i | 0 <= i < |ns| && (forall c | c in kids :: !InSub(ns0, i, c))
        ensures TreeRow(ns, kids, depth, x, ry, fuel)[i] == ns[i]
      {
        assert forall c | c in kids[1..] :: c in kids;
      }
    }
  }

  /** Placing the subtree of the node at `k` moves no node outside it. */
  lemma {:induction false} PlaceFrame(ns0: seq<Node>, ns: seq<Node>, k: nat, depth: nat, x: real, ry: real, fuel: nat)
    requires Layered(ns0) && OnlyMoved(ns0, ns)
    requires k < |ns| && ns[k].parent.Some? && ns0[k].level == depth
    ensures forall i :: 0 <= i < |ns| && !InSub(ns0, i, k) ==> PlaceSubtree(ns, k, depth, x, ry, fuel)[i] == ns[i]
    decreases fuel, 0
  {
    var ns1 := ns[k := ns[k].(x := x, y := ry + depth as real * LevelHeight)];
    var cs := ChildIndices(ns0, ns0[k].id);
    var r := PlaceSubtree(ns, k, depth, x, ry, fuel);
    PlaceStep(ns0, ns, k, depth, x, ry, fuel);
    if |cs| > 0 && fuel > 0 {
      TreeRowFrame(ns0, ns1, cs, depth + 1, RowStart(x, |cs|, NodeSpacing), ry, fuel - 1);
    }
    forall i | 0 <= i < |ns| && !InSub(ns0, i, k) ensures r[i] == ns[i] {
      assert InSub(ns0, k, k);
      if |cs| > 0 && fuel > 0 {
        OutsideChildren(ns0, k, i);
      }
    }
  }


  // ---------------------------------------------------------------------
  // Where the tree layout puts each node
  // ---------------------------------------------------------------------

  /** No node of `ns0` sits deeper than level `lim`. */
  ghost predicate LevelsAtMost(ns0: seq<Node>, lim: nat) {
    forall i :: 0 <= i < |ns0| ==> ns0[i].level <= lim
  }

  /** The node at `i` sits on the row of its level, `LevelHeight` per level below `ry`. */
  ghost predicate OnLevelRow(ns0: seq<Node>, r: seq<Node>, i: nat, ry: real) {
    i < |ns0| && i < |r| && r[i].y == ry + ns0[i].level as real * LevelHeight
  }

  /**
   * The children of the node at `p`, in store order, sit in `r` one
   * `NodeSpacing` apart in a row centred under `p`'s position in `r`.
   */
  ghost predicate RowUnder(ns0: seq<Node>, r: seq<Node>, p: nat)
    requires |r| == |ns0| && p < |ns0|
  {
    var cs := ChildIndices(ns0, ns0[p].id);
    ChildIndicesAt(ns0, ns0[p].id);
    forall j :: 0 <= j < |cs| ==> r[cs[j]].x == RowStart(r[p].x, |cs|, NodeSpacing) + j as real * NodeSpacing
  }

  /** `RowUnder` depends only on the positions of `p` and its children. */
  lemma RowUnderFrame(ns0: seq<Node>, a: seq<Node>, b: seq<Node>, p: nat)
    requires |a| == |ns0| && |b| == |ns0| && p < |ns0| && RowUnder(ns0, a, p)
    requires Layered(ns0) && b[p] == a[p]
    requires forall i :: 0 <= i < |ns0| && InSub(ns0, i, p) ==> b[i] == a[i]
    ensures RowUnder(ns0, b, p)
  {
    var cs := ChildIndices(ns0, ns0[p].id);
    ChildIndicesAt(ns0, ns0[p].id);
    forall j | 0 <= j < |cs| ensures b[cs[j]] == a[cs[j]] {
      ChildSub(ns0, cs[j], p);
    }
  }

  /**
   * A row of subtrees from `x` on row `depth`: the `m`-th root of the row
   * at `x + m * NodeSpacing`, every node of the subtrees on its level's
   * row, and every node of them with its children centred under it —
   * given fuel for the deepest level.
   */
  lemma {:induction false} TreeRowPlaces(ns0: seq<Node>, ns: seq<Node>, kids: seq<nat>, depth: nat, x: real, ry: real, fuel: nat)
    requires Layered(ns0) && OnlyMoved(ns0, ns) && LevelsAtMost(ns0, depth + fuel)
    requires forall m :: 0 <= m < |kids| ==> kids[m] < |ns| && ns[kids[m]].parent.Some? && ns0[kids[m]].level == depth
    requires forall a, b :: 0 <= a < b < |kids| ==> kids[a] < kids[b]
    ensures var r := TreeRow(ns, kids, depth, x, ry, fuel);
      && (forall m :: 0 <= m < |kids| ==> r[kids[m]].x == x + m as real * NodeSpacing)
      && (forall i, c :: c in kids && InSub(ns0, i, c) ==> OnLevelRow(ns0, r, i, ry))
      && (forall p, c :: c in kids && InSub(ns0, p, c) ==> RowUnder(ns0, r, p))
    decreases fuel, |kids|
  {
    if kids != [] {
      var k := kids[0];
      var rest := kids[1..];
      RowTail(ns0, ns, kids, depth, x, ry, fuel);
      var ns1 := PlaceSubtree(ns, k, depth, x, ry, fuel);
      var r := TreeRow(ns, kids, depth, x, ry, fuel);
      PlaceSubtreePlaces(ns0, ns, k, depth, x, ry, fuel);
      TreeRowPlaces(ns0, ns1, rest, depth, x + NodeSpacing, ry, fuel);
      TreeRowFrame(ns0, ns1, rest, depth, x + NodeSpacing, ry, fuel);
      RowCombine(ns0, ns1, r, kids, depth, x, ry);
    }
  }

  /** After the first subtree of a row is placed, the rest of the row still meets the requirements of a row. */
  lemma RowTail(ns0: seq<Node>, ns: seq<Node>, kids: seq<nat>, depth: nat, x: real, ry: real, fuel: nat)
    requires OnlyMoved(ns0, ns) && kids != []
    requires forall m :: 0 <= m < |kids| ==> kids[m] < |ns| && ns[kids[m]].parent.Some? && ns0[kids[m]].level == depth
    ensures kids[0] < |ns| && ns[kids[0]].parent.Some? && ns0[kids[0]].level == depth
    ensures var ns1 := PlaceSubtree(ns, kids[0], depth, x, ry, fuel);
      && OnlyMoved(ns0, ns1)
      && (forall m :: 0 <= m < |kids[1..]| ==> kids[1..][m] < |ns1| && ns1[kids[1..][m]].parent.Some? && ns0[kids[1..][m]].level == depth)
      && (forall j | j in kids[1..] :: j < |ns1| && ns1[j].parent.Some? && ns0[j].level == depth)
      && TreeRow(ns, kids, depth, x, ry, fuel) == TreeRow(ns1, kids[1..], depth, x + NodeSpacing, ry, fuel)
  {
    var rest := kids[1..];
    TreeRowStep(ns, kids, depth, x, ry, fuel);
    var ns1 := PlaceSubtree(ns, kids[0], depth, x, ry, fuel);
    OnlyMovedTrans(ns0, ns, ns1);
    forall m | 0 <= m < |rest| ensures rest[m] < |ns1| && ns1[rest[m]].parent.Some? && ns0[rest[m]].level == depth {
      assert rest[m] == kids[m + 1];
    }
    forall j | j in rest ensures j < |ns1| && ns1[j].parent.Some? && ns0[j].level == depth {
      var m :| 0 <= m < |rest| && rest[m] == j;
    }
  }

  /**
   * One step of the row: the first subtree placed in `ns1`, the later ones
   * in `r`, which leaves the first subtree as `ns1` had it, together place
   * the whole row.
   */
  lemma RowCombine(ns0: seq<Node>, ns1: seq<Node>, r: seq<Node>, kids: seq<nat>, depth: nat, x: real, ry: real)
    requires Layered(ns0) && |ns1| == |ns0| && |r| == |ns0| && kids != []
    requires forall m :: 0 <= m < |kids| ==> kids[m] < |ns0| && ns0[kids[m]].level == depth
    requires forall a, b :: 0 <= a < b < |kids| ==> kids[a] < kids[b]
    requires ns1[kids[0]].x == x
    requires forall i :: InSub(ns0, i, kids[0]) ==> OnLevelRow(ns0, ns1, i, ry)
    requires forall p :: InSub(ns0, p, kids[0]) ==> RowUnder(ns0, ns1, p)
    requires forall m :: 0 <= m < |kids[1..]| ==> r[kids[1..][m]].x == x + NodeSpacing + m as real * NodeSpacing
    requires forall i, c :: c in kids[1..] && InSub(ns0, i, c) ==> OnLevelRow(ns0, r, i, ry)
    requires forall p, c :: c in kids[1..] && InSub(ns0, p, c) ==> RowUnder(ns0, r, p)
    requires forall i :: 0 <= i < |ns1| && (forall c | c in kids[1..] :: !InSub(ns0, i, c)) ==> r[i] == ns1[i]
    ensures forall m :: 0 <= m < |kids| ==> r[kids[m]].x == x + m as real * NodeSpacing
    ensures forall i, c :: c in kids && InSub(ns0, i, c) ==> OnLevelRow(ns0, r, i, ry)
    ensures forall p, c :: c in kids && InSub(ns0, p, c) ==> RowUnder(ns0, r, p)
  {
    var k := kids[0];
    var rest := kids[1..];
    // The subtree of `k` is disjoint from those of the later roots.
    forall i | 0 <= i < |ns0| && InSub(ns0, i, k) ensures r[i] == ns1[i] {
      FirstSubtreeApart(ns0, kids, depth, i);
    }
    SubtreeCarries(ns0, ns1, r, k, ry);
    forall m | 0 <= m < |kids| ensures r[kids[m]].x == x + m as real * NodeSpacing {
      if m == 0 {
        assert InSub(ns0, k, k);
      } else {
        assert kids[m] == rest[m - 1];
      }
    }
    forall p, c | c in kids && InSub(ns0, p, c) ensures OnLevelRow(ns0, r, p, ry) && RowUnder(ns0, r, p) {
      if c != k {
        assert c in rest;
      }
    }
  }

  /** A node in the subtree of the first root of an ordered row lies in no later root's subtree. */
  lemma FirstSubtreeApart(ns0: seq<Node>, kids: seq<nat>, depth: nat, i: nat)
    requires kids != [] && i < |ns0| && InSub(ns0, i, kids[0])
    requires forall m :: 0 <= m < |kids| ==> kids[m] < |ns0| && ns0[kids[m]].level == depth
    requires forall a, b :: 0 <= a < b < |kids| ==> kids[a] < kids[b]
    ensures forall c | c in kids[1..] :: !InSub(ns0, i, c)
  {
    forall c | c in kids[1..] ensures !InSub(ns0, i, c) {
      var m :| 0 <= m < |kids| - 1 && kids[1..][m] == c;
      assert c == kids[m + 1] && kids[0] < c;
    }
  }

  /** Row placement throughout the subtree of `k` survives into `b` when `b` agrees with `a` on that subtree. */
  lemma SubtreeCarries(ns0: seq<Node>, a: seq<Node>, b: seq<Node>, k: nat, ry: real)
    requires Layered(ns0) && |a| == |ns0| && |b| == |ns0| && k < |ns0|
    requires forall i :: 0 <= i < |ns0| && InSub(ns0, i, k) ==> b[i] == a[i]
    requires forall i :: InSub(ns0, i, k) ==> OnLevelRow(ns0, a, i, ry)
    requires forall p :: InSub(ns0, p, k) ==> RowUnder(ns0, a, p)
    ensures forall p :: InSub(ns0, p, k) ==> OnLevelRow(ns0, b, p, ry) && RowUnder(ns0, b, p)
  {
    forall p | InSub(ns0, p, k) ensures OnLevelRow(ns0, b, p, ry) && RowUnder(ns0, b, p) {
      forall i | 0 <= i < |ns0| && InSub(ns0, i, p) ensures b[i] == a[i] {
        SubTrans(ns0, i, p, k);
      }
      assert InSub(ns0, p, p);
      RowUnderFrame(ns0, a, b, p);
    }
  }

  /** The children of `k` at their row positions make `RowUnder` hold at `k`. */
  lemma RowUnderAt(ns0: seq<Node>, r: seq<Node>, k: nat, x: real)
    requires |r| == |ns0| && k < |ns0| && r[k].x == x
    requires var cs := ChildIndices(ns0, ns0[k].id);
      forall m :: 0 <= m < |cs| ==> cs[m] < |r| && r[cs[m]].x == RowStart(x, |cs|, NodeSpacing) + m as real * NodeSpacing
    ensures RowUnder(ns0, r, k)
  {
  }

  /** What holds at `k` and throughout the subtrees of its children holds throughout `k`'s subtree. */
  lemma Assemble(ns0: seq<Node>, r: seq<Node>, k: nat, ry: real)
    requires Layered(ns0) && |r| == |ns0| && k < |ns0|
    requires OnLevelRow(ns0, r, k, ry) && RowUnder(ns0, r, k)
    requires forall p, c :: c in ChildIndices(ns0, ns0[k].id) && InSub(ns0, p, c) ==>
      OnLevelRow(ns0, r, p, ry) && RowUnder(ns0, r, p)
    ensures forall p :: InSub(ns0, p, k) ==> OnLevelRow(ns0, r, p, ry) && RowUnder(ns0, r, p)
  {
    forall p | InSub(ns0, p, k) ensures OnLevelRow(ns0, r, p, ry) && RowUnder(ns0, r, p) {
      if p != k {
        var c := SubSplit(ns0, p, k);
      }
    }
  }

  /**
   * Placing the subtree of the node at `k` at `x` on row `depth`: `k` at
   * `x`, every node of the subtree on its level's row, and every node of
   * it with its children centred under it.
   */
  lemma {:induction false} PlaceSubtreePlaces(ns0: seq<Node>, ns: seq<Node>, k: nat, depth: nat, x: real, ry: real, fuel: nat)
    requires Layered(ns0) && OnlyMoved(ns0, ns) && LevelsAtMost(ns0, depth + fuel)
    requires k < |ns| && ns[k].parent.Some? && ns0[k].level == depth
    ensures var r := PlaceSubtree(ns, k, depth, x, ry, fuel);
      && r[k].x == x
      && (forall i :: InSub(ns0, i, k) ==> OnLevelRow(ns0, r, i, ry))
      && (forall p :: InSub(ns0, p, k) ==> RowUnder(ns0, r, p))
    decreases fuel, 0
  {
    var ns1 := ns[k := ns[k].(x := x, y := ry + depth as real * LevelHeight)];
    var cs := ChildIndices(ns0, ns0[k].id);
    var r := PlaceSubtree(ns, k, depth, x, ry, fuel);
    PlaceStep(ns0, ns, k, depth, x, ry, fuel);
    if |cs| > 0 && fuel > 0 {
      ChildrenPlaces(ns0, ns1, k, depth, x, ry, fuel - 1);
    } else {
      assert r == ns1;
      if fuel == 0 {
        NoChildrenAtBottom(ns0, k, depth);
      }
      Assemble(ns0, r, k, ry);
    }
  }

  /** The first child of the node at `k` sits one level below it. */
  lemma FirstChildBelow(ns0: seq<Node>, k: nat)
    requires Layered(ns0) && k < |ns0| && ChildIndices(ns0, ns0[k].id) != []
    ensures ChildIndices(ns0, ns0[k].id)[0] < |ns0|
    ensures ns0[ChildIndices(ns0, ns0[k].id)[0]].level == ns0[k].level + 1
  {
    ChildrenOfK(ns0, ns0, k);
  }

  /** On the deepest level a node has no children. */
  lemma NoChildrenAtBottom(ns0: seq<Node>, k: nat, depth: nat)
    requires Layered(ns0) && LevelsAtMost(ns0, depth) && k < |ns0| && ns0[k].level == depth
    ensures ChildIndices(ns0, ns0[k].id) == []
  {
    var cs := ChildIndices(ns0, ns0[k].id);
    if cs != [] {
      FirstChildBelow(ns0, k);
      assert false;
    }
  }

  /**
   * The rest of placing the subtree of `k`, already placed at `x` in
   * `ns1`: its children in a row centred under it, each with its subtree.
   */
  lemma {:induction false} ChildrenPlaces(ns0: seq<Node>, ns1: seq<Node>, k: nat, depth: nat, x: real, ry: real, fuel: nat)
    requires Layered(ns0) && OnlyMoved(ns0, ns1) && LevelsAtMost(ns0, depth + 1 + fuel)
    requires k < |ns1| && ns0[k].level == depth && ns1[k].x == x && OnLevelRow(ns0, ns1, k, ry)
    requires forall c | c in ChildIndices(ns0, ns0[k].id) :: c < |ns1| && ns1[c].parent.Some? && ns0[c].level == depth + 1
    ensures var cs := ChildIndices(ns0, ns0[k].id);
      var r := TreeRow(ns1, cs, depth + 1, RowStart(x, |cs|, NodeSpacing), ry, fuel);
      && r[k] == ns1[k]
      && (forall p :: InSub(ns0, p, k) ==> OnLevelRow(ns0, r, p, ry) && RowUnder(ns0, r, p))
    decreases fuel, |ChildIndices(ns0, ns0[k].id)| + 1
  {
    var cs := ChildIndices(ns0, ns0[k].id);
    var x1 := RowStart(x, |cs|, NodeSpacing);
    ChildrenOfK(ns0, ns1, k);
    var r := TreeRow(ns1, cs, depth + 1, x1, ry, fuel);
    TreeRowPlaces(ns0, ns1, cs, depth + 1, x1, ry, fuel);
    assert r[k] == ns1[k] by {
      TreeRowFrame(ns0, ns1, cs, depth + 1, x1, ry, fuel);
      assert forall c | c in cs :: !InSub(ns0, k, c);
    }
    RowUnderAt(ns0, r, k, x);
    Assemble(ns0, r, k, ry);
  }

  // ---------------------------------------------------------------------
  // Levels are bounded by the size of the tree
  // ---------------------------------------------------------------------

  /** The indices below `n`. */
  function Below(n: nat): (r: set<nat>)
    ensures |r| == n && forall j: nat :: j in r <==> j < n
  {
    if n == 0 then {} else Below(n - 1) + {n - 1}
  }

  lemma {:induction false} SubsetSize(a: set<nat>, b: set<nat>)
    requires a <= b
    ensures |a| <= |b|
    decreases a
  {
    if a != {} {
      var x :| x in a;
      SubsetSize(a - {x}, b - {x});
    }
  }

  /** In a tree, only the first node sits on level 0. */
  lemma LevelZeroIsFirst(ns: seq<Node>, i: nat)
    requires WellFormed(ns) && i < |ns| && ns[i].level == 0
    ensures i == 0
  {
    assert ns[i] in ns;
  }

  /** The node at `i` and its ancestors: `level + 1` distinct indices of the list. */
  lemma {:induction false} Ancestors(ns: seq<Node>, i: nat) returns (s: set<nat>)
    requires WellFormed(ns) && i < |ns|
    ensures |s| == ns[i].level + 1
    ensures forall j | j in s :: j < |ns| && ns[j].level <= ns[i].level
    decreases ns[i].level
  {
    if ns[i].level == 0 {
      s := {i};
    } else {
      assert ns[i] in ns;
      LevelZeroIsFirst(ns, 0);
      assert ParentLinked(ns, ns[i]);
      var p := IndexOf(ns, ns[i].parent.value).value;
      var up := Ancestors(ns, p);
      s := up + {i};
    }
  }

  /** A tree of `n` nodes has no level deeper than `n - 1`. */
  lemma LevelBound(ns: seq<Node>)
    requires WellFormed(ns)
    ensures LevelsAtMost(ns, |ns| - 1)
  {
    forall i | 0 <= i < |ns| ensures ns[i].level <= |ns| - 1 {
      var s := Ancestors(ns, i);
      SubsetSize(s, Below(|ns|));
    }
  }

  /** In a tree, every node lies in the root's subtree. */
  lemma {:induction false} TopIsRoot(ns: seq<Node>, i: nat)
    requires WellFormed(ns) && i < |ns|
    ensures Top(ns, i, 0) == 0
    decreases ns[i].level
  {
    if ns[i].level == 0 {
      LevelZeroIsFirst(ns, i);
    } else {
      assert ns[i] in ns;
      assert ParentLinked(ns, ns[i]);
      var p := IndexOf(ns, ns[i].parent.value).value;
      TopIsRoot(ns, p);
    }
  }

  // ---------------------------------------------------------------------
  // applyTreeLayout on a tree
  // ---------------------------------------------------------------------

  /**
   * On a well-formed tree the tree layout hangs from the first node, which
   * stays put; every other node lands on the row of its level, 100 per
   * level below the root; and the children of every node, in store order,
   * sit 120 apart in a row centred under it.
   */
  lemma TreeArrangePlaces(ns: seq<Node>)
    requires WellFormed(ns)
    ensures RootIndex(ns) == Some(0)
    ensures |Arrange(ns, Tree)| == |ns| && Arrange(ns, Tree)[0] == ns[0]
    ensures forall i :: 0 < i < |ns| ==> Arrange(ns, Tree)[i].y == ns[0].y + ns[i].level as real * LevelHeight
    ensures forall p :: 0 <= p < |ns| ==> RowUnder(ns, Arrange(ns, Tree), p)
  {
    TreeLayered(ns);
    LevelBound(ns);
    var cs := ChildIndices(ns, ns[0].id);
    var x := RowStart(ns[0].x, |cs|, NodeSpacing);
    var r := Arrange(ns, Tree);
    assert r == TreeRow(ns, cs, 1, x, ns[0].y, |ns|);
    assert OnlyMoved(ns, ns);
    ChildrenOfK(ns, ns, 0);
    TreeRowPlaces(ns, ns, cs, 1, x, ns[0].y, |ns|);
    forall p | 0 <= p < |ns| ensures RowUnder(ns, r, p) && (p > 0 ==> r[p].y == ns[0].y + ns[p].level as real * LevelHeight) {
      if p > 0 {
        TopIsRoot(ns, p);
        var c := SubSplit(ns, p, 0);
      }
    }
  }
}
