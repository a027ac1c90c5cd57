/**
 * What mindmap.js computes about the visible part of the map: the world
 * rectangle the canvas shows (`updateViewportBounds`), culling
 * (`isNodeVisible`, `getVisibleNodes`), hit-testing (`getNodeAt`), the
 * bounding box of all nodes (`getNodesBounds`) and the clamp on the zoom
 * factor (`zoom`, `onWheel`). Screen point `p` shows world point
 * `(p - offset) / scale`.
 */
module Viewport {
  import opened Nodes

  /** Extra world distance around a box before it counts as off screen. */
  const Margin: real := 50.0

  datatype Bounds = Bounds(minX: real, maxX: real, minY: real, maxY: real)

  function ScreenToWorld(p: real, offset: real, scale: real): real
    requires scale > 0.0
  {
    (p - offset) / scale
  }

  function WorldToScreen(w: real, offset: real, scale: real): real {
    w * scale + offset
  }

  lemma ScreenWorldRoundTrip(p: real, w: real, offset: real, scale: real)
    requires scale > 0.0
    ensures WorldToScreen(ScreenToWorld(p, offset, scale), offset, scale) == p
    ensures ScreenToWorld(WorldToScreen(w, offset, scale), offset, scale) == w
  {
  }

  /** `updateViewportBounds`: the world rectangle under a `width` by `height` canvas. */
  function ViewportBounds(offsetX: real, offsetY: real, scale: real, width: real, height: real): (b: Bounds)
    requires scale > 0.0
    ensures b.minX == ScreenToWorld(0.0, offsetX, scale) && b.maxX == ScreenToWorld(width, offsetX, scale)
    ensures b.minY == ScreenToWorld(0.0, offsetY, scale) && b.maxY == ScreenToWorld(height, offsetY, scale)
  {
    Bounds(-offsetX / scale, (width - offsetX) / scale, -offsetY / scale, (height - offsetY) / scale)
  }

  /** A world point lies inside the viewport bounds exactly when it shows on the canvas. */
  lemma ViewportShowsCanvas(offsetX: real, scale: real, width: real, wx: real)
    requires scale > 0.0
    ensures var b := ViewportBounds(offsetX, 0.0, scale, width, 0.0);
      b.minX <= wx <= b.maxX <==> 0.0 <= WorldToScreen(wx, offsetX, scale) <= width
  {
    var b := ViewportBounds(offsetX, 0.0, scale, width, 0.0);
    var sx := WorldToScreen(wx, offsetX, scale);
    assert wx == ScreenToWorld(sx, offsetX, scale);
    if 0.0 <= sx <= width {
      assert (0.0 - offsetX) / scale <= (sx - offsetX) / scale by { DivMono(0.0 - offsetX, sx - offsetX, scale); }
      assert (sx - offsetX) / scale <= (width - offsetX) / scale by { DivMono(sx - offsetX, width - offsetX, scale); }
    }
    if b.minX <= wx <= b.maxX {
      assert -offsetX <= wx * scale by { MulMono(b.minX, wx, scale); }
      assert wx * scale <= width - offsetX by { MulMono(wx, b.maxX, scale); }
    }
  }

  lemma DivMono(a: real, b: real, s: real)
    requires s > 0.0 && a <= b
    ensures a / s <= b / s
  {
    assert b / s - a / s == (b - a) / s;
  }

  lemma MulMono(a: real, b: real, s: real)
    requires s > 0.0 && a <= b
    ensures a * s <= b * s
  {
  }

  /** The edges of a node's box: its centre less or plus half its size. */
  function Left(n: Node): real { n.x - n.width / 2.0 }
  function Right(n: Node): real { n.x + n.width / 2.0 }
  function Top(n: Node): real { n.y - n.height / 2.0 }
  function Bottom(n: Node): real { n.y + n.height / 2.0 }

  /**
   * `isNodeVisible`: the node's box, grown by the margin on every side,
   * reaches the viewport on both axes.
   */
  predicate IsNodeVisible(n: Node, b: Bounds) {
    && Right(n) + Margin >= b.minX
    && Left(n) - Margin <= b.maxX
    && Bottom(n) + Margin >= b.minY
    && Top(n) - Margin <= b.maxY
  }

  /** The grown box of `n` contains the point. */
  predicate InGrownBox(n: Node, px: real, py: real) {
    Left(n) - Margin <= px <= Right(n) + Margin &&
    Top(n) - Margin <= py <= Bottom(n) + Margin
  }

  predicate InBounds(b: Bounds, px: real, py: real) {
    b.minX <= px <= b.maxX && b.minY <= py <= b.maxY
  }

  /**
   * For a non-empty viewport and a box of non-negative size, a node is
   * visible exactly when its grown box and the viewport share a point.
   */
  lemma VisibleIffOverlap(n: Node, b: Bounds)
    requires b.minX <= b.maxX && b.minY <= b.maxY && n.width >= 0.0 && n.height >= 0.0
    ensures IsNodeVisible(n, b) <==> exists px, py :: InGrownBox(n, px, py) && InBounds(b, px, py)
  {
    if IsNodeVisible(n, b) {
      var px := MaxR(Left(n) - Margin, b.minX);
      var py := MaxR(Top(n) - Margin, b.minY);
      assert InGrownBox(n, px, py) && InBounds(b, px, py);
    }
  }

  /** `getVisibleNodes`: the visible nodes, in store order. */
  function VisibleNodes(ns: seq<Node>, b: Bounds): (r: seq<Node>)
    ensures forall n :: n in r <==> n in ns && IsNodeVisible(n, b)
    ensures IsSubseq(r, ns)
  {
    if ns == [] then []
    else
      var rest := VisibleNodes(ns[1..], b);
      assert forall n | n in ns :: n == ns[0] || n in ns[1..];
      if IsNodeVisible(ns[0], b) then
        assert ([ns[0]] + rest)[1..] == rest;
        [ns[0]] + rest
      else rest
  }

  // ---------------------------------------------------------------------
  // Hit-testing
  // ---------------------------------------------------------------------

  /** The world point lies in the node's box, edges included. */
  predicate Hits(n: Node, wx: real, wy: real) {
    Left(n) <= wx <= Right(n) && Top(n) <= wy <= Bottom(n)
  }

  /** Index of the first node in store order whose box contains the world point. */
  function NodeAt(ns: seq<Node>, wx: real, wy: real): (r: Option<nat>)
    ensures r.Some? ==> r.value < |ns| && Hits(ns[r.value], wx, wy)
    ensures r.Some? ==> forall j :: 0 <= j < r.value ==> !Hits(ns[j], wx, wy)
    ensures r.None? ==> forall j :: 0 <= j < |ns| ==> !Hits(ns[j], wx, wy)
  {
    NodeAtFrom(ns, wx, wy, 0)
  }

  /** The first hit at or after position `k`. */
  function NodeAtFrom(ns: seq<Node>, wx: real, wy: real, k: nat): (r: Option<nat>)
    requires k <= |ns|
    ensures r.Some? ==> k <= r.value < |ns| && Hits(ns[r.value], wx, wy)
    ensures r.Some? ==> forall j :: k <= j < r.value ==> !Hits(ns[j], wx, wy)
    ensures r.None? ==> forall j :: k <= j < |ns| ==> !Hits(ns[j], wx, wy)
    decreases |ns| - k
  {
    if k == |ns| then None
    else if Hits(ns[k], wx, wy) then Some(k)
    else NodeAtFrom(ns, wx, wy, k + 1)
  }

  /** `getNodeAt`: hit-test a canvas point. */
  function GetNodeAt(ns: seq<Node>, px: real, py: real, offsetX: real, offsetY: real, scale: real): Option<nat>
    requires scale > 0.0
  {
    NodeAt(ns, ScreenToWorld(px, offsetX, scale), ScreenToWorld(py, offsetY, scale))
  }

  /** Clicking where a node's centre is drawn finds that node, or one stored before it. */
  lemma ClickOnCentreFinds(ns: seq<Node>, i: nat, offsetX: real, offsetY: real, scale: real)
    requires i < |ns| && ns[i].width >= 0.0 && ns[i].height >= 0.0 && scale > 0.0
    ensures var r := GetNodeAt(ns, WorldToScreen(ns[i].x, offsetX, scale), WorldToScreen(ns[i].y, offsetY, scale),
                               offsetX, offsetY, scale);
      r.Some? && r.value <= i
  {
    ScreenWorldRoundTrip(0.0, ns[i].x, offsetX, scale);
    ScreenWorldRoundTrip(0.0, ns[i].y, offsetY, scale);
    assert Hits(ns[i], ns[i].x, ns[i].y);
  }

  // ---------------------------------------------------------------------
  // Bounding box
  // ---------------------------------------------------------------------

  /** One step of the scan of `getNodesBounds`: the running extremes widened to `n`'s box. */
  function Widen(acc: Bounds, n: Node): (b: Bounds)
    ensures b.minX <= acc.minX && b.maxX >= acc.maxX && b.minY <= acc.minY && b.maxY >= acc.maxY
    ensures b.minX <= Left(n) && Right(n) <= b.maxX && b.minY <= Top(n) && Bottom(n) <= b.maxY
    ensures (b.minX == acc.minX || b.minX == Left(n)) && (b.maxX == acc.maxX || b.maxX == Right(n))
    ensures (b.minY == acc.minY || b.minY == Top(n)) && (b.maxY == acc.maxY || b.maxY == Bottom(n))
  {
    Bounds(MinR(acc.minX, Left(n)), MaxR(acc.maxX, Right(n)), MinR(acc.minY, Top(n)), MaxR(acc.maxY, Bottom(n)))
  }

  /** The scan of `getNodesBounds` over `ns`, starting from the running extremes in `acc`. */
  function BoundsFrom(ns: seq<Node>, acc: Bounds): (b: Bounds)
    ensures b.minX <= acc.minX && b.maxX >= acc.maxX && b.minY <= acc.minY && b.maxY >= acc.maxY
    ensures forall n | n in ns :: b.minX <= Left(n) && Right(n) <= b.maxX && b.minY <= Top(n) && Bottom(n) <= b.maxY
    decreases |ns|
  {
    if ns == [] then acc
    else
      assert forall m | m in ns :: m == ns[0] || m in ns[1..];
      BoundsFrom(ns[1..], Widen(acc, ns[0]))
  }

  /** Each extreme is either the starting value or the edge of some node. */
  lemma {:induction false} BoundsFromAttained(ns: seq<Node>, acc: Bounds)
    ensures var b := BoundsFrom(ns, acc);
      && (b.minX == acc.minX || exists n | n in ns :: b.minX == Left(n))
      && (b.maxX == acc.maxX || exists n | n in ns :: b.maxX == Right(n))
      && (b.minY == acc.minY || exists n | n in ns :: b.minY == Top(n))
      && (b.maxY == acc.maxY || exists n | n in ns :: b.maxY == Bottom(n))
    decreases |ns|
  {
    if ns != [] {
      var n, acc1 := ns[0], Widen(acc, ns[0]);
      BoundsFromAttained(ns[1..], acc1);
      assert n in ns;
      assert forall m | m in ns[1..] :: m in ns;
    }
  }

  datatype Extent = Extent(box: Bounds, centerX: real, centerY: real)

  /**
   * `getNodesBounds`: all zeros for no nodes; otherwise the extremes start
   * at the first node's centre and take in every box, and the centre is the
   * middle of the result.
   */
  function NodesBounds(ns: seq<Node>): (e: Extent)
    ensures ns == [] ==> e == Extent(Bounds(0.0, 0.0, 0.0, 0.0), 0.0, 0.0)
    ensures forall n | n in ns ::
      e.box.minX <= Left(n) && Right(n) <= e.box.maxX && e.box.minY <= Top(n) && Bottom(n) <= e.box.maxY
    ensures ns != [] ==> e.box.minX <= ns[0].x <= e.box.maxX && e.box.minY <= ns[0].y <= e.box.maxY
    ensures e.centerX == (e.box.minX + e.box.maxX) / 2.0 && e.centerY == (e.box.minY + e.box.maxY) / 2.0
  {
    if ns == [] then Extent(Bounds(0.0, 0.0, 0.0, 0.0), 0.0, 0.0)
    else
      var b := BoundsFrom(ns, Bounds(ns[0].x, ns[0].x, ns[0].y, ns[0].y));
      Extent(b, (b.minX + b.maxX) / 2.0, (b.minY + b.maxY) / 2.0)
  }

  /** With boxes of non-negative size the result is the tight bounding box of the boxes. */
  lemma NodesBoundsTight(ns: seq<Node>)
    requires ns != [] && forall n | n in ns :: n.width >= 0.0 && n.height >= 0.0
    ensures var b := NodesBounds(ns).box;
      && (exists n | n in ns :: b.minX == Left(n))
      && (exists n | n in ns :: b.maxX == Right(n))
      && (exists n | n in ns :: b.minY == Top(n))
      && (exists n | n in ns :: b.maxY == Bottom(n))
  {
    var acc := Bounds(ns[0].x, ns[0].x, ns[0].y, ns[0].y);
    var b := BoundsFrom(ns, acc);
    BoundsFromAttained(ns, acc);
    var n0 := ns[0];
    assert n0 in ns;
    if b.minX == acc.minX {
      assert b.minX <= Left(n0) <= n0.x;
    }
    if b.maxX == acc.maxX {
      assert b.maxX >= Right(n0) >= n0.x;
    }
    if b.minY == acc.minY {
      assert b.minY <= Top(n0) <= n0.y;
    }
    if b.maxY == acc.maxY {
      assert b.maxY >= Bottom(n0) >= n0.y;
    }
  }

  // ---------------------------------------------------------------------
  // Zoom
  // ---------------------------------------------------------------------

  const MinScale: real := 0.1
  const MaxScale: real := 3.0

  /** `Math.max(0.1, Math.min(3, s))`. */
  function ClampScale(s: real): (r: real)
    ensures MinScale <= r <= MaxScale
    ensures MinScale <= s <= MaxScale ==> r == s
    ensures s < MinScale ==> r == MinScale
    ensures s > MaxScale ==> r == MaxScale
  {
    MaxR(MinScale, MinR(MaxScale, s))
  }

  /** The wheel zooms out by 0.9 when scrolled down and in by 1.1 otherwise. */
  function WheelFactor(deltaY: real): real {
    if deltaY > 0.0 then 0.9 else 1.1
  }

  lemma ClampIdempotent(s: real)
    ensures ClampScale(ClampScale(s)) == ClampScale(s)
  {
  }
}
