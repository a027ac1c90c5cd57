/**
 * The placement rules of mindmap.js's automatic layouts (`applyTreeLayout`,
 * `applyFishboneLayout`, `applyTimelineLayout`, `applyOrgLayout`), the node
 * sizing of `optimizeNodeSpacing` and the choice `applySmartLayout` makes.
 * The editor class runs the loops; these functions say where each node
 * ends up.
 */
module Layout {
  import opened Nodes

  /** The values of `layoutType`; any other value falls to the radial branch. */
  datatype Kind = Radial | Tree | Fishbone | Timeline | Org

  /** Index of the first level-0 node, the root every layout hangs from. */
  function RootIndex(ns: seq<Node>): (r: Option<nat>)
    ensures r.Some? ==> r.value < |ns| && ns[r.value].level == 0
    ensures r.Some? ==> forall j :: 0 <= j < r.value ==> ns[j].level != 0
    ensures r.None? ==> forall j :: 0 <= j < |ns| ==> ns[j].level != 0
  {
    if ns == [] then None
    else if ns[0].level == 0 then Some(0)
    else
      match RootIndex(ns[1..])
      case None => None
      case Some(i) => Some(i + 1)
  }

  // ---------------------------------------------------------------------
  // Layouts that place only the root's children
  // ---------------------------------------------------------------------

  /** Fishbone: pairs of children go right in steps of 50, one above and one below the root. */
  function FishboneX(rx: real, k: nat): (x: real)
    ensures x >= rx + 150.0
  {
    rx + 150.0 + (k / 2) as real * 50.0
  }

  function FishboneY(ry: real, k: nat): (y: real)
    ensures k % 2 == 0 ==> y == ry + (80.0 + (k / 2) as real * 40.0)
    ensures k % 2 == 1 ==> y == ry - (80.0 + (k / 2) as real * 40.0)
  {
    var side := if k % 2 == 0 then 1.0 else -1.0;
    ry + side * (80.0 + (k / 2) as real * 40.0)
  }

  /**
   * The fishbone sides alternate: even ranks below the root, odd ranks
   * above it, and each pair shares its x and mirrors its y about the root;
   * the next pair sits further out on both axes.
   */
  lemma FishbonePairs(rx: real, ry: real, m: nat)
    ensures FishboneY(ry, 2 * m) > ry && FishboneY(ry, 2 * m + 1) < ry
    ensures FishboneX(rx, 2 * m) == FishboneX(rx, 2 * m + 1)
    ensures FishboneY(ry, 2 * m) + FishboneY(ry, 2 * m + 1) == 2.0 * ry
    ensures FishboneX(rx, 2 * m + 2) == FishboneX(rx, 2 * m) + 50.0
    ensures FishboneY(ry, 2 * m + 2) == FishboneY(ry, 2 * m) + 40.0
  {
    assert (2 * m + 1) / 2 == m && (2 * m) / 2 == m && (2 * m + 2) / 2 == m + 1;
  }

  /** Timeline: children in a row to the right of the root, 200 apart. */
  function TimelineX(rx: real, k: nat): (x: real)
    ensures x > rx
  {
    rx + (k + 1) as real * 200.0
  }

  lemma TimelineIncreasing(rx: real, j: nat, k: nat)
    requires j < k
    ensures TimelineX(rx, k) - TimelineX(rx, j) == (k - j) as real * 200.0
  {
  }

  /** Start of a row of `n` boxes `spacing` apart, centred on `cx`. */
  function RowStart(cx: real, n: nat, spacing: real): real {
    cx - (n as real - 1.0) * spacing / 2.0
  }

  /** Org chart: one row 100 below the root, 150 apart and centred under it. */
  function OrgX(rx: real, k: nat, n: nat): real {
    RowStart(rx, n, 150.0) + k as real * 150.0
  }

  /** The org row is symmetric about the root: rank `k` and rank `n - 1 - k` are mirror images. */
  lemma OrgCentered(rx: real, k: nat, n: nat)
    requires k < n
    ensures OrgX(rx, k, n) + OrgX(rx, n - 1 - k, n) == 2.0 * rx
    ensures k + 1 < n ==> OrgX(rx, k + 1, n) - OrgX(rx, k, n) == 150.0
  {
  }

  /** Where the `k`-th of `n` root children goes under each root-children layout. */
  function SpotX(kind: Kind, rx: real, k: nat, n: nat): real
    requires kind.Fishbone? || kind.Timeline? || kind.Org?
  {
    match kind
    case Fishbone => FishboneX(rx, k)
    case Timeline => TimelineX(rx, k)
    case Org => OrgX(rx, k, n)
  }

  function SpotY(kind: Kind, ry: real, k: nat): real
    requires kind.Fishbone? || kind.Timeline? || kind.Org?
  {
    match kind
    case Fishbone => FishboneY(ry, k)
    case Timeline => ry
    case Org => ry + 100.0
  }

  /**
   * The loop of the root-children layouts from rank `k` on: the node at
   * `cs[k]` goes to the spot of rank `k` among `|cs|`, then the rest follow.
   */
  function Spread(ns: seq<Node>, cs: seq<nat>, kind: Kind, rx: real, ry: real, k: nat): (r: seq<Node>)
    requires kind.Fishbone? || kind.Timeline? || kind.Org?
    requires k <= |cs| && forall j :: 0 <= j < |cs| ==> cs[j] < |ns|
    ensures |r| == |ns| && OnlyMoved(ns, r)
    decreases |cs| - k
  {
    if k == |cs| then ns
    else
      var c := cs[k];
      var x, y := SpotX(kind, rx, k, |cs|), SpotY(kind, ry, k);
      MoveOne(ns, c, x, y);
      var r := Spread(ns[c := ns[c].(x := x, y := y)], cs, kind, rx, ry, k + 1);
      OnlyMovedTrans(ns, ns[c := ns[c].(x := x, y := y)], r);
      r
  }

  /** One turn of the loop: place the node of rank `k`, then spread the rest. */
  lemma SpreadStep(ns: seq<Node>, cs: seq<nat>, kind: Kind, rx: real, ry: real, k: nat, x: real, y: real)
    requires kind.Fishbone? || kind.Timeline? || kind.Org?
    requires k < |cs| && forall j :: 0 <= j < |cs| ==> cs[j] < |ns|
    requires x == SpotX(kind, rx, k, |cs|) && y == SpotY(kind, ry, k)
    ensures Spread(ns, cs, kind, rx, ry, k) == Spread(ns[cs[k] := ns[cs[k]].(x := x, y := y)], cs, kind, rx, ry, k + 1)
  {
  }

  /**
   * With the children listed once each, the child of rank `j` ends at its
   * spot for rank `j`, and every node not among the children is untouched.
   */
  lemma SpreadPlaces(ns: seq<Node>, cs: seq<nat>, kind: Kind, rx: real, ry: real, k: nat)
    requires kind.Fishbone? || kind.Timeline? || kind.Org?
    requires k <= |cs| && forall j :: 0 <= j < |cs| ==> cs[j] < |ns|
    requires forall a, b :: 0 <= a < b < |cs| ==> cs[a] < cs[b]
    ensures forall j :: k <= j < |cs| ==>
      Spread(ns, cs, kind, rx, ry, k)[cs[j]] == ns[cs[j]].(x := SpotX(kind, rx, j, |cs|), y := SpotY(kind, ry, j))
    ensures forall i :: 0 <= i < |ns| && i !in cs[k..] ==> Spread(ns, cs, kind, rx, ry, k)[i] == ns[i]
  {
    SpreadPlacesChildren(ns, cs, kind, rx, ry, k);
    SpreadKeepsOthers(ns, cs, kind, rx, ry, k);
  }

  /** The child of rank `j` ends at its spot for rank `j`. */
  lemma {:induction false} SpreadPlacesChildren(ns: seq<Node>, cs: seq<nat>, kind: Kind, rx: real, ry: real, k: nat)
    requires kind.Fishbone? || kind.Timeline? || kind.Org?
    requires k <= |cs| && forall j :: 0 <= j < |cs| ==> cs[j] < |ns|
    requires forall a, b :: 0 <= a < b < |cs| ==> cs[a] < cs[b]
    ensures forall j :: k <= j < |cs| ==>
      Spread(ns, cs, kind, rx, ry, k)[cs[j]] == ns[cs[j]].(x := SpotX(kind, rx, j, |cs|), y := SpotY(kind, ry, j))
    decreases |cs| - k
  {
    if k < |cs| {
      var c := cs[k];
      var ns1 := ns[c := ns[c].(x := SpotX(kind, rx, k, |cs|), y := SpotY(kind, ry, k))];
      SpreadPlacesChildren(ns1, cs, kind, rx, ry, k + 1);
      SpreadKeepsOthers(ns1, cs, kind, rx, ry, k + 1);
      var r := Spread(ns1, cs, kind, rx, ry, k + 1);
      assert Spread(ns, cs, kind, rx, ry, k) == r;
      forall j | k <= j < |cs|
        ensures r[cs[j]] == ns[cs[j]].(x := SpotX(kind, rx, j, |cs|), y := SpotY(kind, ry, j))
      {
        if j == k {
          assert c !in cs[k + 1..] by {
            assert forall j' :: k + 1 <= j' < |cs| ==> cs[j'] > c;
          }
          assert r[c] == ns1[c];
        } else {
          assert cs[j] != c && ns1[cs[j]] == ns[cs[j]];
        }
      }
    }
  }

  /** A node that is not among the children still to place is untouched. */
  lemma {:induction false} SpreadKeepsOthers(ns: seq<Node>, cs: seq<nat>, kind: Kind, rx: real, ry: real, k: nat)
    requires kind.Fishbone? || kind.Timeline? || kind.Org?
    requires k <= |cs| && forall j :: 0 <= j < |cs| ==> cs[j] < |ns|
    ensures forall i :: 0 <= i < |ns| && i !in cs[k..] ==> Spread(ns, cs, kind, rx, ry, k)[i] == ns[i]
    decreases |cs| - k
  {
    if k < |cs| {
      var c := cs[k];
      var ns1 := ns[c := ns[c].(x := SpotX(kind, rx, k, |cs|), y := SpotY(kind, ry, k))];
      SpreadKeepsOthers(ns1, cs, kind, rx, ry, k + 1);
      assert Spread(ns, cs, kind, rx, ry, k) == Spread(ns1, cs, kind, rx, ry, k + 1);
      forall i | 0 <= i < |ns| && i !in cs[k..] ensures i !in cs[k + 1..] && i != c {
        assert cs[k..] == [c] + cs[k + 1..];
      }
    }
  }

  // ---------------------------------------------------------------------
  // Tree layout
  // ---------------------------------------------------------------------

  const LevelHeight: real := 100.0
  const NodeSpacing: real := 120.0

  /**
   * `positionLevel(kids, depth, x)`: each node of `kids` in turn is placed
   * with its subtree, `x` moving right by the spacing after each one.
   * `fuel` bounds the depth of the recursion (the source recurses until a
   * level has no children).
   */
  function TreeRow(ns: seq<Node>, kids: seq<nat>, depth: nat, x: real, ry: real, fuel: nat): (r: seq<Node>)
    requires forall k | k in kids :: k < |ns| && ns[k].parent.Some?
    ensures OnlyMoved(ns, r)
    ensures forall i :: 0 <= i < |ns| && ns[i].parent.None? ==> r[i] == ns[i]
    decreases fuel, |kids|
  {
    if kids == [] then ns
    else
      assert kids[0] in kids;
      var ns1 := PlaceSubtree(ns, kids[0], depth, x, ry, fuel);
      assert forall j | j in kids[1..] :: j in kids;
      TreeRow(ns1, kids[1..], depth, x + NodeSpacing, ry, fuel)
  }

  /**
   * The body of `positionLevel` for one node: put it at `x` on row `depth`
   * below the root, then lay out its children one row further down, in a
   * row centred under it.
   */
  function PlaceSubtree(ns: seq<Node>, k: nat, depth: nat, x: real, ry: real, fuel: nat): (r: seq<Node>)
    requires k < |ns| && ns[k].parent.Some?
    ensures OnlyMoved(ns, r)
    ensures forall i :: 0 <= i < |ns| && ns[i].parent.None? ==> r[i] == ns[i]
    ensures r[k].parent == ns[k].parent
    decreases fuel, 0
  {
    var ns1 := ns[k := ns[k].(x := x, y := ry + depth as real * LevelHeight)];
    MoveOne(ns, k, x, ry + depth as real * LevelHeight);
    var cs := ChildIndices(ns1, ns1[k].id);
    if |cs| > 0 && fuel > 0 then
      var r := TreeRow(ns1, cs, depth + 1, RowStart(x, |cs|, NodeSpacing), ry, fuel - 1);
      OnlyMovedTrans(ns, ns1, r);
      r
    else ns1
  }

  /** One turn of the `positionLevel` loop: place the first node with its subtree, then the rest one spacing further right. */
  lemma TreeRowStep(ns: seq<Node>, kids: seq<nat>, depth: nat, x: real, ry: real, fuel: nat)
    requires kids != [] && forall k | k in kids :: k < |ns| && ns[k].parent.Some?
    ensures kids[0] < |ns| && ns[kids[0]].parent.Some?
    ensures var ns1 := PlaceSubtree(ns, kids[0], depth, x, ry, fuel);
      && (forall k | k in kids[1..] :: k < |ns1| && ns1[k].parent.Some?)
      && TreeRow(ns, kids, depth, x, ry, fuel) == TreeRow(ns1, kids[1..], depth, x + NodeSpacing, ry, fuel)
  {
    assert kids[0] in kids;
    var ns1 := PlaceSubtree(ns, kids[0], depth, x, ry, fuel);
    forall k | k in kids[1..] ensures k < |ns1| && ns1[k].parent.Some? {
      assert k in kids;
      assert ns1[k] == ns[k].(x := ns1[k].x, y := ns1[k].y);
    }
  }

  /** Every node whose parent field names another node sits one level below it. */
  ghost predicate ChildLevels(ns: seq<Node>) {
    forall i, k :: 0 <= i < |ns| && 0 <= k < |ns| && ns[i].parent == Some(ns[k].id) ==> ns[i].level == ns[k].level + 1
  }

  lemma TreeChildLevels(ns: seq<Node>)
    requires WellFormed(ns)
    ensures ChildLevels(ns)
  {
    forall i, k | 0 <= i < |ns| && 0 <= k < |ns| && ns[i].parent == Some(ns[k].id)
      ensures ns[i].level == ns[k].level + 1
    {
      assert ns[i] in ns;
      assert ParentLinked(ns, ns[i]);
      UniqueIndexOf(ns, k);
    }
  }

  // ---------------------------------------------------------------------
  // applyLayout
  // ---------------------------------------------------------------------

  /**
   * Where `applyLayout` leaves the nodes: every layout hangs from the first
   * level-0 node and does nothing without one. The radial branch is not
   * modelled and leaves the nodes where they are.
   */
  function Arrange(ns: seq<Node>, kind: Kind): (r: seq<Node>)
    ensures |r| == |ns| && OnlyMoved(ns, r)
  {
    match RootIndex(ns)
    case None => ns
    case Some(ri) =>
      var cs := ChildIndices(ns, ns[ri].id);
      match kind
      case Radial => ns
      case Tree => TreeRow(ns, cs, 1, RowStart(ns[ri].x, |cs|, NodeSpacing), ns[ri].y, |ns|)
      case _ => ChildIndicesAt(ns, ns[ri].id); Spread(ns, cs, kind, ns[ri].x, ns[ri].y, 0)
  }

  /** For the three root-children layouts, `Arrange` is the spread from rank 0. */
  lemma ArrangeSpread(ns: seq<Node>, kind: Kind, ri: nat)
    requires kind.Fishbone? || kind.Timeline? || kind.Org?
    requires RootIndex(ns) == Some(ri)
    ensures forall j :: 0 <= j < |ChildIndices(ns, ns[ri].id)| ==> ChildIndices(ns, ns[ri].id)[j] < |ns|
    ensures Arrange(ns, kind) == Spread(ns, ChildIndices(ns, ns[ri].id), kind, ns[ri].x, ns[ri].y, 0)
  {
    ChildIndicesAt(ns, ns[ri].id);
  }

  /** No layout moves a root that has no parent. */
  lemma ArrangeKeepsRoot(ns: seq<Node>, kind: Kind)
    requires RootIndex(ns).Some? && ns[RootIndex(ns).value].parent.None?
    ensures Arrange(ns, kind)[RootIndex(ns).value] == ns[RootIndex(ns).value]
  {
    var ri := RootIndex(ns).value;
    var cs := ChildIndices(ns, ns[ri].id);
    if kind.Fishbone? || kind.Timeline? || kind.Org? {
      ChildIndicesAt(ns, ns[ri].id);
      SpreadPlaces(ns, cs, kind, ns[ri].x, ns[ri].y, 0);
      assert cs[0..] == cs;
    }
  }

  /**
   * Fishbone, timeline and org charts move exactly the root's children:
   * the `j`-th of them, in list order, to its spot of rank `j`.
   */
  lemma ArrangeRootChildren(ns: seq<Node>, kind: Kind)
    requires kind.Fishbone? || kind.Timeline? || kind.Org?
    requires RootIndex(ns).Some?
    ensures var ri := RootIndex(ns).value;
      var cs := ChildIndices(ns, ns[ri].id);
      && (forall j :: 0 <= j < |cs| ==>
            cs[j] < |ns| && Arrange(ns, kind)[cs[j]] == ns[cs[j]].(x := SpotX(kind, ns[ri].x, j, |cs|), y := SpotY(kind, ns[ri].y, j)))
      && (forall i :: 0 <= i < |ns| && ns[i].parent != Some(ns[ri].id) ==> Arrange(ns, kind)[i] == ns[i])
  {
    var ri := RootIndex(ns).value;
    var cs := ChildIndices(ns, ns[ri].id);
    ChildIndicesAt(ns, ns[ri].id);
    SpreadPlaces(ns, cs, kind, ns[ri].x, ns[ri].y, 0);
    assert cs[0..] == cs;
  }

  // ---------------------------------------------------------------------
  // Node sizing
  // ---------------------------------------------------------------------

  /** The smallest width `optimizeNodeSpacing` allows at a level: 120 for the root, then 15 less per level, down to 80. */
  function BaseWidth(level: nat): (w: real)
    ensures 80.0 <= w <= 120.0
    ensures level == 0 ==> w == 120.0
  {
    if level == 0 then 120.0 else MaxR(80.0, 120.0 - level as real * 15.0)
  }

  /** Width after `optimizeNodeSpacing`: wide enough for the level and for 8 units per character plus 20. */
  function SpacedWidth(n: Node): (w: real)
    ensures w >= BaseWidth(n.level) && w >= |n.text| as real * 8.0 + 20.0
    ensures w == BaseWidth(n.level) || w == |n.text| as real * 8.0 + 20.0
  {
    MaxR(BaseWidth(n.level), |n.text| as real * 8.0 + 20.0)
  }

  /** Height after `optimizeNodeSpacing`: 3 less per level from 40, never under 30. */
  function SpacedHeight(level: nat): (h: real)
    ensures 30.0 <= h <= 40.0
    ensures level <= 3 ==> h == 40.0 - level as real * 3.0
  {
    MaxR(30.0, 40.0 - level as real * 3.0)
  }

  /** Every node resized as `optimizeNodeSpacing` resizes it. */
  function Spaced(ns: seq<Node>): (r: seq<Node>)
    ensures |r| == |ns|
    ensures forall i :: 0 <= i < |ns| ==> r[i] == Resized(ns[i])
  {
    seq(|ns|, i requires 0 <= i < |ns| => Resized(ns[i]))
  }

  /** One box resized for its text and level. */
  function Resized(n: Node): Node {
    n.(width := SpacedWidth(n), height := SpacedHeight(n.level))
  }

  /**
   * After `optimizeNodeSpacing` every box is wide enough for its text and
   * its level and between 30 and 40 high, nothing but sizes changed, and a
   * second pass changes nothing more.
   */
  lemma SpacedFits(ns: seq<Node>)
    ensures SameLinks(ns, Spaced(ns))
    ensures forall i :: 0 <= i < |ns| ==>
      var n := Spaced(ns)[i];
      && n.width >= |n.text| as real * 8.0 + 20.0 && n.width >= BaseWidth(n.level)
      && 30.0 <= n.height <= 40.0
    ensures Spaced(Spaced(ns)) == Spaced(ns)
  {
  }

  /** Deeper nodes are never given a larger minimum box. */
  lemma SizesShrinkWithDepth(a: nat, b: nat)
    requires a <= b
    ensures BaseWidth(b) <= BaseWidth(a) && SpacedHeight(b) <= SpacedHeight(a)
  {
  }

  // ---------------------------------------------------------------------
  // Smart layout
  // ---------------------------------------------------------------------

  /** The deepest level in a non-empty node list. */
  function MaxLevel(ns: seq<Node>): (m: nat)
    requires |ns| > 0
    ensures forall i :: 0 <= i < |ns| ==> ns[i].level <= m
    ensures exists i :: 0 <= i < |ns| && ns[i].level == m
  {
    if |ns| == 1 then ns[0].level
    else
      var rest := MaxLevel(ns[1..]);
      assert forall i :: 1 <= i < |ns| ==> ns[i] == ns[1..][i - 1];
      if ns[0].level >= rest then ns[0].level else rest
  }

  /**
   * The layout `applySmartLayout` picks: tree for more than 20 nodes;
   * otherwise org when deeper than level 3; otherwise fishbone for fewer
   * than 8 nodes; otherwise radial. It never picks the timeline.
   */
  function SmartChoice(count: nat, maxLevel: nat): (k: Kind)
    ensures k == Tree <==> count > 20
    ensures k == Org <==> count <= 20 && maxLevel > 3
    ensures k == Fishbone <==> count < 8 && maxLevel <= 3
    ensures k == Radial <==> 8 <= count <= 20 && maxLevel <= 3
    ensures k != Timeline
  {
    if count > 20 then Tree
    else if maxLevel > 3 then Org
    else if count < 8 then Fishbone
    else Radial
  }
}
