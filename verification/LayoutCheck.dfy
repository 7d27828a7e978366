/**
 layoutValid and edgePoint of tools/topogen/render.go, against the node-overlap gate of
 tools/topogen/qa_geometry.py.
 */
module LayoutCheck {
  import opened Reals
  import opened Shapes

  function HalfW(s: NodeShape): real {
    if s.isHost then HOST_R else NODE_W / 2.0
  }

  // ---------------------------------------------------------------------------
  // The layout check
  // ---------------------------------------------------------------------------

  /** The two footprints come too close for the layout to be legible. */
  predicate TooClose(a: NodeShape, b: NodeShape) {
    var minDX :=
      if a.isHost && b.isHost then 30.0 + 30.0
      else if b.isHost then 70.0 + 30.0
      else if a.isHost then 30.0 + 70.0
      else 70.0 + 70.0;
    Abs(a.cx - b.cx) < minDX && Abs(a.cy - b.cy) < 30.0 + 30.0
  }

  ghost predicate LayoutOk(byName: map<string, NodeShape>) {
    forall n, m :: n in byName && m in byName && n != m ==> !TooClose(byName[n], byName[m])
  }

  lemma TooCloseSymmetric(a: NodeShape, b: NodeShape)
    ensures TooClose(a, b) <==> TooClose(b, a)
    ensures TooClose(a, b) <==> Abs(a.cx - b.cx) < HalfW(a) + HalfW(b) && Abs(a.cy - b.cy) < HalfH(a) + HalfH(b)
  {
  }

  /** The keys of the map, each once, in whatever order the iteration yields them. */
  method Names(byName: map<string, NodeShape>) returns (names: seq<string>)
    ensures forall n :: n in byName <==> n in names
    ensures forall i, j :: 0 <= i < j < |names| ==> names[i] != names[j]
  {
    names := [];
    var todo := byName.Keys;
    while todo != {}
      invariant todo <= byName.Keys
      invariant forall n :: n in byName && n !in todo <==> n in names
      invariant forall i, j :: 0 <= i < j < |names| ==> names[i] != names[j]
      decreases todo
    {
      var n :| n in todo;
      names := names + [n];
      todo := todo - {n};
    }
  }

  method LayoutValid(byName: map<string, NodeShape>) returns (ok: bool)
    ensures ok <==> LayoutOk(byName)
  {
    var names := Names(byName);
    for i := 0 to |names|
      invariant forall k, l :: 0 <= k < i && k < l < |names| ==> !TooClose(byName[names[k]], byName[names[l]])
    {
      for j := i + 1 to |names|
        invariant forall l :: i < l < j ==> !TooClose(byName[names[i]], byName[names[l]])
      {
        var a, b := byName[names[i]], byName[names[j]];
        var dx := a.cx - b.cx;
        var dy := a.cy - b.cy;
        var minDX, minDY := 70.0 + 70.0, 30.0 + 30.0;
        if a.isHost {
          minDX, minDY := 30.0 + 70.0, 30.0 + 30.0;
        }
        if b.isHost {
          minDX, minDY := 70.0 + 30.0, 30.0 + 30.0;
        }
        if a.isHost && b.isHost {
          minDX, minDY := 30.0 + 30.0, 30.0 + 30.0;
        }
        if Abs(dx) < minDX && Abs(dy) < minDY {
          assert names[i] in byName && names[j] in byName && names[i] != names[j];
          return false;
        }
      }
    }
    forall n, m | n in byName && m in byName && n != m ensures !TooClose(byName[n], byName[m]) {
      var k :| 0 <= k < |names| && names[k] == n;
      var l :| 0 <= l < |names| && names[l] == m;
      TooCloseSymmetric(byName[n], byName[m]);
    }
    ok := true;
  }

  // ---------------------------------------------------------------------------
  // The gate's own overlap test
  // ---------------------------------------------------------------------------

  /** The gate's view of a node: kind, centre and half extents. */
  datatype Box = Box(cx: real, cy: real, circle: bool, hw: real, hh: real)

  function BoxOf(s: NodeShape): Box {
    if s.isHost then Box(s.cx, s.cy, true, HOST_R, HOST_R)
    else Box(s.cx, s.cy, false, NODE_W / 2.0, NODE_H / 2.0)
  }

  predicate CircleMeetsRect(circle: Box, rect: Box) {
    var cx := Max(rect.cx - rect.hw, Min(circle.cx, rect.cx + rect.hw));
    var cy := Max(rect.cy - rect.hh, Min(circle.cy, rect.cy + rect.hh));
    Sq(circle.cx - cx) + Sq(circle.cy - cy) < Sq(circle.hw)
  }

  /** The exact intersection test of two footprints. */
  predicate BoxOverlap(b1: Box, b2: Box) {
    if !b1.circle && !b2.circle then
      Abs(b1.cx - b2.cx) < b1.hw + b2.hw && Abs(b1.cy - b2.cy) < b1.hh + b2.hh
    else if b1.circle && b2.circle then
      Sq(b1.cx - b2.cx) + Sq(b1.cy - b2.cy) < Sq(b1.hw + b2.hw)
    else if b1.circle then CircleMeetsRect(b1, b2)
    else CircleMeetsRect(b2, b1)
  }

  lemma SqGrows(x: real, r: real)
    requires r >= 0.0 && Abs(x) >= r
    ensures Sq(x) >= Sq(r)
  {
    var a := Abs(x);
    MulMono(a, r, a);
    MulMono(r, r, a);
    assert Sq(x) == a * a;
  }

  /** A sum of squares below r^2 keeps both coordinates below r. */
  lemma InsideCircle(x: real, y: real, r: real)
    requires r >= 0.0 && Sq(x) + Sq(y) < Sq(r)
    ensures Abs(x) < r && Abs(y) < r
  {
    SqSign(x);
    SqSign(y);
    if Abs(x) >= r {
      SqGrows(x, r);
    }
    if Abs(y) >= r {
      SqGrows(y, r);
    }
  }

  lemma CircleRectTooClose(circle: NodeShape, rect: NodeShape)
    requires circle.isHost && !rect.isHost && CircleMeetsRect(BoxOf(circle), BoxOf(rect))
    ensures TooClose(circle, rect)
  {
    var c, r := BoxOf(circle), BoxOf(rect);
    var cx := Max(r.cx - r.hw, Min(c.cx, r.cx + r.hw));
    var cy := Max(r.cy - r.hh, Min(c.cy, r.cy + r.hh));
    InsideCircle(c.cx - cx, c.cy - cy, c.hw);
  }

  /** Footprints that intersect are too close; for two boxes the tests agree exactly. */
  lemma OverlapIsTooClose(a: NodeShape, b: NodeShape)
    ensures BoxOverlap(BoxOf(a), BoxOf(b)) ==> TooClose(a, b)
    ensures !a.isHost && !b.isHost ==> (BoxOverlap(BoxOf(a), BoxOf(b)) <==> TooClose(a, b))
  {
    if BoxOverlap(BoxOf(a), BoxOf(b)) {
      if a.isHost && b.isHost {
        InsideCircle(a.cx - b.cx, a.cy - b.cy, 60.0);
      } else if a.isHost {
        CircleRectTooClose(a, b);
      } else if b.isHost {
        CircleRectTooClose(b, a);
        TooCloseSymmetric(a, b);
      }
    }
  }

  // ---------------------------------------------------------------------------
  // Where a link leaves its node
  // ---------------------------------------------------------------------------

  predicate SamePlace(a: NodeShape, b: NodeShape) {
    b.cx - a.cx == 0.0 && b.cy - a.cy == 0.0
  }

  /** The parameter at which the ray from a box's centre leaves the box. */
  function RectExit(dx: real, dy: real): real
    requires dx != 0.0 || dy != 0.0
  {
    if dx == 0.0 then Abs(NODE_H / 2.0 / dy)
    else
      var tx := Abs(NODE_W / 2.0 / dx);
      if dy == 0.0 then tx
      else
        var ty := Abs(NODE_H / 2.0 / dy);
        if ty < tx then ty else tx
  }

  function EdgePoint(h: (real, real) -> real, a: NodeShape, b: NodeShape): (real, real)
    requires IsHypot(h)
  {
    var dx, dy := b.cx - a.cx, b.cy - a.cy;
    if dx == 0.0 && dy == 0.0 then (a.cx, a.cy)
    else if a.isHost then
      HypotPositive(h, dx, dy);
      var len := h(dx, dy);
      (a.cx + dx / len * HOST_R, a.cy + dy / len * HOST_R)
    else
      var t := RectExit(dx, dy);
      (a.cx + dx * t, a.cy + dy * t)
  }

  /** How far along the line from `a` to `b` the link leaves `a`. */
  function Fraction(h: (real, real) -> real, a: NodeShape, b: NodeShape): real
    requires IsHypot(h) && !SamePlace(a, b)
  {
    var dx, dy := b.cx - a.cx, b.cy - a.cy;
    if a.isHost then
      HypotPositive(h, dx, dy);
      HOST_R / h(dx, dy)
    else RectExit(dx, dy)
  }

  predicate OnBoundary(s: NodeShape, x: real, y: real) {
    if s.isHost then Sq(x - s.cx) + Sq(y - s.cy) == Sq(HOST_R)
    else
      && Abs(x - s.cx) <= NODE_W / 2.0 && Abs(y - s.cy) <= NODE_H / 2.0
      && (Abs(x - s.cx) == NODE_W / 2.0 || Abs(y - s.cy) == NODE_H / 2.0)
  }

  lemma DivTimes(n: real, q: real, t: real)
    requires q != 0.0 && t == n / q
    ensures t * q == n
  {
  }

  lemma AbsTimes(t: real, x: real)
    requires t >= 0.0
    ensures Abs(x * t) == Abs(x) * t
  {
  }

  /** Scaling a unit vector and scaling the whole vector come to the same. */
  lemma Reassociate(x: real, len: real, r: real, e: real, t: real)
    requires len != 0.0 && e == x / len * r && t == r / len
    ensures e == x * t
  {
    var q := x / len;
    DivTimes(x, len, q);
    DivTimes(r, len, t);
    calc {
      e;
      q * r;
      q * (t * len);
      (q * len) * t;
      x * t;
    }
  }

  lemma ExitBound(n: real, d: real)
    requires n > 0.0 && d != 0.0
    ensures Abs(n / d) > 0.0 && Abs(d) * Abs(n / d) == n
  {
    var t := n / d;
    DivTimes(n, d, t);
    var at, ad := Abs(t), Abs(d);
    if d < 0.0 {
      assert (-t) * (-d) == n;
      if t >= 0.0 {
        MulMono(t, d, 0.0);
      }
    } else if t <= 0.0 {
      MulMono(d, t, 0.0);
    }
  }

  /** The ray leaves a box after a positive way, at one of its sides and within the other. */
  lemma RectExitBounds(dx: real, dy: real)
    requires dx != 0.0 || dy != 0.0
    ensures var t := RectExit(dx, dy);
            && t > 0.0
            && Abs(dx) * t <= NODE_W / 2.0 && Abs(dy) * t <= NODE_H / 2.0
            && (Abs(dx) * t == NODE_W / 2.0 || Abs(dy) * t == NODE_H / 2.0)
  {
    var t := RectExit(dx, dy);
    if dx != 0.0 {
      ExitBound(NODE_W / 2.0, dx);
      MulMono(Abs(dx), t, Abs(NODE_W / 2.0 / dx));
    }
    if dy != 0.0 {
      ExitBound(NODE_H / 2.0, dy);
      MulMono(Abs(dy), t, Abs(NODE_H / 2.0 / dy));
    }
  }

  /** A coordinate difference is at most the distance. */
  lemma CoordinateWithinLength(x: real, y: real, l: real)
    requires l >= 0.0 && Sq(l) == Sq(x) + Sq(y)
    ensures Abs(x) <= l
  {
    SqSign(y);
    assert Sq(Abs(x)) == Sq(x);
    if Abs(x) > l {
      StrictSq(l, Abs(x));
    }
  }

  lemma HostBound(d: real, len: real, t: real)
    requires len > 0.0 && t == HOST_R / len && d <= len
    ensures t > 0.0 && d * t <= HOST_R
  {
    ExitBound(HOST_R, len);
    MulMono(t, d, len);
  }

  lemma HostFractionBounds(h: (real, real) -> real, a: NodeShape, b: NodeShape)
    requires IsHypot(h) && !SamePlace(a, b) && a.isHost
    ensures var t := Fraction(h, a, b);
            t > 0.0 && Abs(b.cx - a.cx) * t <= HOST_R && Abs(b.cy - a.cy) * t <= HOST_R
  {
    var dx, dy := b.cx - a.cx, b.cy - a.cy;
    var len := h(dx, dy);
    HypotPositive(h, dx, dy);
    CoordinateWithinLength(dx, dy, len);
    CoordinateWithinLength(dy, dx, len);
    HostBound(Abs(dx), len, Fraction(h, a, b));
    HostBound(Abs(dy), len, Fraction(h, a, b));
  }

  /** For either shape: the way to the exit is positive and stays within the half extents. */
  lemma FractionBounds(h: (real, real) -> real, a: NodeShape, b: NodeShape)
    requires IsHypot(h) && !SamePlace(a, b)
    ensures Fraction(h, a, b) > 0.0
    ensures Abs(b.cx - a.cx) * Fraction(h, a, b) <= HalfW(a)
    ensures Abs(b.cy - a.cy) * Fraction(h, a, b) <= HalfH(a)
  {
    hide RectExit;
    if a.isHost {
      HostFractionBounds(h, a, b);
    } else {
      RectExitBounds(b.cx - a.cx, b.cy - a.cy);
    }
  }

  lemma HostEdgeOnLine(h: (real, real) -> real, a: NodeShape, b: NodeShape)
    requires IsHypot(h) && !SamePlace(a, b) && a.isHost
    ensures EdgePoint(h, a, b).0 == a.cx + (b.cx - a.cx) * Fraction(h, a, b)
    ensures EdgePoint(h, a, b).1 == a.cy + (b.cy - a.cy) * Fraction(h, a, b)
  {
    var dx, dy := b.cx - a.cx, b.cy - a.cy;
    HypotPositive(h, dx, dy);
    var e, t := EdgePoint(h, a, b), Fraction(h, a, b);
    Reassociate(dx, h(dx, dy), HOST_R, e.0 - a.cx, t);
    Reassociate(dy, h(dx, dy), HOST_R, e.1 - a.cy, t);
  }

  /** The exit lies on the line of the centres, at that fraction. */
  lemma EdgePointOnLine(h: (real, real) -> real, a: NodeShape, b: NodeShape)
    requires IsHypot(h) && !SamePlace(a, b)
    ensures EdgePoint(h, a, b).0 == a.cx + (b.cx - a.cx) * Fraction(h, a, b)
    ensures EdgePoint(h, a, b).1 == a.cy + (b.cy - a.cy) * Fraction(h, a, b)
  {
    hide RectExit;
    if a.isHost {
      HostEdgeOnLine(h, a, b);
    }
  }

  /** Main result: the link leaves its node exactly on the node's boundary. */
  lemma EdgePointOnBoundary(h: (real, real) -> real, a: NodeShape, b: NodeShape)
    requires IsHypot(h) && !SamePlace(a, b)
    ensures OnBoundary(a, EdgePoint(h, a, b).0, EdgePoint(h, a, b).1)
  {
    if a.isHost {
      HostEdgeOnBoundary(h, a, b);
    } else {
      RectEdgeOnBoundary(h, a, b);
    }
  }

  lemma RectOnSide(s: NodeShape, x: real, y: real, dx: real, dy: real, t: real)
    requires !s.isHost && t > 0.0 && x == s.cx + dx * t && y == s.cy + dy * t
    requires Abs(dx) * t <= NODE_W / 2.0 && Abs(dy) * t <= NODE_H / 2.0
    requires Abs(dx) * t == NODE_W / 2.0 || Abs(dy) * t == NODE_H / 2.0
    ensures OnBoundary(s, x, y)
  {
    AbsTimes(t, dx);
    AbsTimes(t, dy);
  }

  lemma RectEdgeOnBoundary(h: (real, real) -> real, a: NodeShape, b: NodeShape)
    requires IsHypot(h) && !SamePlace(a, b) && !a.isHost
    ensures OnBoundary(a, EdgePoint(h, a, b).0, EdgePoint(h, a, b).1)
  {
    hide EdgePoint, RectExit, OnBoundary, IsHypot;
    var dx, dy := b.cx - a.cx, b.cy - a.cy;
    RectExitBounds(dx, dy);
    EdgePointOnLine(h, a, b);
    assert Fraction(h, a, b) == RectExit(dx, dy);
    hide Fraction;
    RectOnSide(a, EdgePoint(h, a, b).0, EdgePoint(h, a, b).1, dx, dy, RectExit(dx, dy));
  }

  lemma HostEdgeOnBoundary(h: (real, real) -> real, a: NodeShape, b: NodeShape)
    requires IsHypot(h) && !SamePlace(a, b) && a.isHost
    ensures OnBoundary(a, EdgePoint(h, a, b).0, EdgePoint(h, a, b).1)
  {
    var dx, dy := b.cx - a.cx, b.cy - a.cy;
    var t := Fraction(h, a, b);
    HostEdgeOnLine(h, a, b);
    HypotPositive(h, dx, dy);
    DivTimes(HOST_R, h(dx, dy), t);
    CircleExit(dx, dy, h(dx, dy), t);
  }

  lemma CircleExit(dx: real, dy: real, len: real, t: real)
    requires Sq(len) == Sq(dx) + Sq(dy) && t * len == HOST_R
    ensures Sq(dx * t) + Sq(dy * t) == Sq(HOST_R)
  {
    SqProduct(dx, t);
    SqProduct(dy, t);
    SqProduct(len, t);
    assert Sq(len) * Sq(t) == Sq(dx) * Sq(t) + Sq(dy) * Sq(t);
    assert len * t == t * len;
  }

  lemma NotTooCloseApart(a: NodeShape, b: NodeShape)
    requires !TooClose(a, b)
    ensures !SamePlace(a, b)
  {
  }

  /** The exit of a link, with the way to it, as plain numbers. */
  ghost predicate ExitsAt(a: NodeShape, b: NodeShape, t: real, x: real, y: real) {
    && t > 0.0
    && Abs(b.cx - a.cx) * t <= HalfW(a) && Abs(b.cy - a.cy) * t <= HalfH(a)
    && x == a.cx + (b.cx - a.cx) * t && y == a.cy + (b.cy - a.cy) * t
  }

  lemma LinkExits(h: (real, real) -> real, a: NodeShape, b: NodeShape) returns (t: real, x: real, y: real)
    requires IsHypot(h) && !SamePlace(a, b)
    ensures (x, y) == EdgePoint(h, a, b) && ExitsAt(a, b, t, x, y)
  {
    hide EdgePoint, Fraction;
    FractionBounds(h, a, b);
    EdgePointOnLine(h, a, b);
    t := Fraction(h, a, b);
    x, y := EdgePoint(h, a, b).0, EdgePoint(h, a, b).1;
  }

  lemma SumFits(d: real, t: real, r: real)
    requires d >= r > 0.0 && d * t <= r
    ensures t <= 1.0
  {
    var excess := t - 1.0;
    assert d * excess == d * t - d;
    if excess > 0.0 {
      MulPositive(d, excess, d * excess);
    }
  }

  /** The two exits of a link do not pass each other. */
  lemma ExitsFit(a: NodeShape, b: NodeShape, ta: real, ux: real, uy: real, tb: real, vx: real, vy: real)
    requires !TooClose(a, b) && ExitsAt(a, b, ta, ux, uy) && ExitsAt(b, a, tb, vx, vy)
    ensures ta + tb <= 1.0
  {
    TooCloseSymmetric(a, b);
    var dx, dy := Abs(b.cx - a.cx), Abs(b.cy - a.cy);
    if dx >= HalfW(a) + HalfW(b) {
      assert dx * (ta + tb) == dx * ta + dx * tb;
      SumFits(dx, ta + tb, HalfW(a) + HalfW(b));
    } else {
      assert dy * (ta + tb) == dy * ta + dy * tb;
      SumFits(dy, ta + tb, HalfH(a) + HalfH(b));
    }
  }

  lemma ExitsOrdered(a: NodeShape, b: NodeShape, ta: real, ux: real, uy: real, tb: real, vx: real, vy: real)
    requires ExitsAt(a, b, ta, ux, uy) && ExitsAt(b, a, tb, vx, vy)
    ensures vx - ux == (b.cx - a.cx) * (1.0 - ta - tb)
    ensures vy - uy == (b.cy - a.cy) * (1.0 - ta - tb)
  {
  }

  /** Main result: no link is drawn reversed. In a layout that passes the check the drawn segment runs
      from `a`'s side to `b`'s: it is the vector between the centres, times a factor from 0 to 1. */
  lemma LinkNotReversed(h: (real, real) -> real, a: NodeShape, b: NodeShape) returns (factor: real)
    requires IsHypot(h) && !TooClose(a, b)
    ensures 0.0 <= factor < 1.0
    ensures EdgePoint(h, b, a).0 - EdgePoint(h, a, b).0 == (b.cx - a.cx) * factor
    ensures EdgePoint(h, b, a).1 - EdgePoint(h, a, b).1 == (b.cy - a.cy) * factor
  {
    hide EdgePoint;
    TooCloseSymmetric(a, b);
    NotTooCloseApart(a, b);
    NotTooCloseApart(b, a);
    var ta, ux, uy := LinkExits(h, a, b);
    var tb, vx, vy := LinkExits(h, b, a);
    ExitsFit(a, b, ta, ux, uy, tb, vx, vy);
    ExitsOrdered(a, b, ta, ux, uy, tb, vx, vy);
    factor := 1.0 - ta - tb;
  }
}
