/**
 The chip checks of tools/topogen/qa_geometry.py (G5 and G10) as a specification of the renderer's
 own tests. The gate reads the rendered picture, in which the corners of chips and boxes and the
 centres of circles are printed without decimals.
 */
module ChipGate {
  import opened Reals
  import opened Shapes
  import opened Chips
  import opened LayoutCheck
  import opened ChipRepair
  import opened ChipSafety

  /** G5: two chips overlap by more than two pixels on both axes. */
  predicate GateOverlap(a: Point, b: Point) {
    42.0 - Abs(a.0 - b.0) > 2.0 && 18.0 - Abs(a.1 - b.1) > 2.0
  }

  /** G10: a chip reaches into a footprint by more than `eps`. */
  predicate GatePokes(c: Point, b: Box, eps: real) {
    if b.circle then
      var clx := Max(c.0 - 21.0, Min(b.cx, c.0 + 21.0));
      var cly := Max(c.1 - 9.0, Min(b.cy, c.1 + 9.0));
      Sq(b.cx - clx) + Sq(b.cy - cly) < Sq(b.hw - eps)
    else
      && Min(c.0 + 21.0, b.cx + b.hw) - Max(c.0 - 21.0, b.cx - b.hw) > eps
      && Min(c.1 + 9.0, b.cy + b.hh) - Max(c.1 - 9.0, b.cy - b.hh) > eps
  }

  /** How far a chip may reach into its own node, and into any other. */
  function GateEps(name: string, owner: string): real {
    if name == owner then 6.0 else 2.0
  }

  ghost predicate GateHidden(c: Point, owner: string, byName: Boxes) {
    exists name :: name in byName && GatePokes(c, BoxOf(byName[name]), GateEps(name, owner))
  }

  lemma PokesAgree(p: Point, s: NodeShape, eps: real)
    ensures Pokes(p.0, p.1, s, eps) <==> GatePokes(p, BoxOf(s), eps)
  {
    hide Sq, Min, Max;
  }

  /** On unrounded coordinates the renderer's test is the gate's test, and its overlap test is stricter. */
  lemma RendererAgreesWithGate(p: Point, owner: string, byName: Boxes, a: PlacedChip, b: PlacedChip)
    ensures ChipBoxHit(p.0, p.1, owner, byName) <==> GateHidden(p, owner, byName)
    ensures GateOverlap((a.cx, a.cy), (b.cx, b.cy)) ==> ChipsOverlap(a, b)
  {
    hide Pokes, GatePokes;
    forall name | name in byName
      ensures Pokes(p.0, p.1, byName[name], Eps(name, owner)) <==> GatePokes(p, BoxOf(byName[name]), GateEps(name, owner))
    {
      PokesAgree(p, byName[name], Eps(name, owner));
    }
  }

  // ---------------------------------------------------------------------------
  // The picture
  // ---------------------------------------------------------------------------

  /** The format %.0f: the nearest whole number, of two equally near ones the even one. */
  function Printed(x: real): int {
    var f := x.Floor;
    var d := x - f as real;
    if d < 0.5 || (d == 0.5 && f % 2 == 0) then f else f + 1
  }

  /** A chip's centre, from its printed corner. */
  function DrawnChip(p: Point): Point {
    (Printed(p.0 - 21.0) as real + 21.0, Printed(p.1 - 9.0) as real + 9.0)
  }

  /** A node, from its printed corner or centre. */
  function DrawnNode(s: NodeShape): Box {
    if s.isHost then Box(Printed(s.cx) as real, Printed(s.cy) as real, true, HOST_R, HOST_R)
    else Box(Printed(s.cx - 70.0) as real + 70.0, Printed(s.cy - 30.0) as real + 30.0, false, 70.0, 30.0)
  }

  lemma PrintedNear(x: real)
    ensures x - 0.5 <= Printed(x) as real <= x + 0.5
  {
  }

  /** Printing keeps order, and commutes with shifts by an even number. */
  lemma PrintedOrder(p: real, q: real, k: int)
    requires k % 2 == 0 && p <= q + k as real
    ensures Printed(p) <= Printed(q) + k
  {
    PrintedShift(q, k);
    PrintedMono(p, q + k as real);
  }

  lemma PrintedShift(x: real, k: int)
    requires k % 2 == 0
    ensures Printed(x + k as real) == Printed(x) + k
  {
    assert (x + k as real).Floor == x.Floor + k;
    assert (x.Floor + k) % 2 == x.Floor % 2;
  }

  lemma PrintedMono(x: real, y: real)
    requires x <= y
    ensures Printed(x) <= Printed(y)
  {
    if x.Floor < y.Floor {
      assert Printed(x) <= x.Floor + 1 <= y.Floor <= Printed(y);
    }
  }

  /** On one axis the overlap of a chip and a box, both given by their lower edge. */
  function Lap(p: real, w: real, q: real, wide: real): real {
    Min(p + w, q + wide) - Max(p, q)
  }

  lemma LapExactly(p: real, w: real, q: real, wide: real, eps: real)
    ensures Lap(p, w, q, wide) > eps <==> w > eps && wide > eps && p + w - q > eps && q + wide - p > eps
  {
  }

  lemma PrintedPast(p: real, w: int, q: real, eps: int)
    requires w % 2 == 0 && eps % 2 == 0 && Printed(p) + w - Printed(q) > eps
    ensures p + w as real - q > eps as real
  {
    hide Printed;
    assert (eps - w) as real == eps as real - w as real;
    if p <= q + (eps - w) as real {
      PrintedOrder(p, q, eps - w);
    }
  }

  lemma PrintingKeepsAxis(p: real, w: int, q: real, wide: int, eps: int)
    requires w % 2 == 0 && wide % 2 == 0 && eps % 2 == 0
    requires Lap(Printed(p) as real, w as real, Printed(q) as real, wide as real) > eps as real
    ensures Lap(p, w as real, q, wide as real) > eps as real
  {
    hide Printed, Lap;
    LapExactly(p, w as real, q, wide as real, eps as real);
    LapExactly(Printed(p) as real, w as real, Printed(q) as real, wide as real, eps as real);
    assert Printed(p) as real + w as real - Printed(q) as real == (Printed(p) + w - Printed(q)) as real;
    assert Printed(q) as real + wide as real - Printed(p) as real == (Printed(q) + wide - Printed(p)) as real;
    PrintedPast(p, w, q, eps);
    PrintedPast(q, wide, p, eps);
  }

  /** Chips that do not overlap do not overlap in the picture. */
  lemma DrawnApart(a: PlacedChip, b: PlacedChip)
    requires !ChipsOverlap(a, b)
    ensures var p, q := DrawnChip((a.cx, a.cy)), DrawnChip((b.cx, b.cy));
            (Abs(p.0 - q.0) >= CHIP_W || Abs(p.1 - q.1) >= CHIP_H) && !GateOverlap(p, q)
  {
    PrintedApart(a.cx - 21.0, b.cx - 21.0, 42);
    PrintedApart(a.cy - 9.0, b.cy - 9.0, 18);
    hide Printed;
  }

  lemma PrintedApart(p: real, q: real, k: int)
    requires k % 2 == 0
    ensures Abs(p - q) >= k as real ==> Abs(Printed(p) as real - Printed(q) as real) >= k as real
  {
    if p + k as real <= q {
      PrintedOrder(p, q, -k);
    }
    if q + k as real <= p {
      PrintedOrder(q, p, -k);
    }
    hide Printed;
  }

  /** The node as drawn. */
  function DrawnShape(s: NodeShape): NodeShape {
    s.(cx := DrawnNode(s).cx, cy := DrawnNode(s).cy)
  }

  lemma PrintedApartBy(p: real, q: real, up: int, down: int)
    requires up % 2 == 0 && down % 2 == 0
    ensures p >= q + up as real ==> Printed(p) >= Printed(q) + up
    ensures p <= q - down as real ==> Printed(p) <= Printed(q) - down
  {
    if p >= q + up as real {
      PrintedOrder(q, p, -up);
    }
    if p <= q - down as real {
      PrintedOrder(p, q, -down);
    }
  }

  /** Nodes that are not too close are not too close in the picture, wherever they stand. */
  lemma DrawnNodesApart(a: NodeShape, b: NodeShape)
    requires !TooClose(a, b)
    ensures !TooClose(DrawnShape(a), DrawnShape(b))
  {
    hide Printed;
    if a.isHost && !b.isHost {
      CircleAndBox(a, b);
    } else if b.isHost && !a.isHost {
      TooCloseSymmetric(a, b);
      CircleAndBox(b, a);
      TooCloseSymmetric(DrawnShape(a), DrawnShape(b));
    } else if a.isHost {
      PrintedApartBy(a.cx, b.cx, 60, 60);
      PrintedApartBy(a.cy, b.cy, 60, 60);
    } else {
      PrintedApartBy(a.cx - 70.0, b.cx - 70.0, 140, 140);
      PrintedApartBy(a.cy - 30.0, b.cy - 30.0, 60, 60);
    }
  }

  lemma CircleAndBox(circle: NodeShape, box: NodeShape)
    requires circle.isHost && !box.isHost && !TooClose(circle, box)
    ensures !TooClose(DrawnShape(circle), DrawnShape(box))
  {
    hide Printed;
    PrintedApartBy(circle.cx, box.cx - 70.0, 170, 30);
    PrintedApartBy(circle.cy, box.cy - 30.0, 90, 30);
  }

  /** Main result: in the picture of a layout that passes the check the gate finds no overlapping nodes. */
  lemma ValidLayoutPassesGate(byName: Boxes)
    requires LayoutOk(byName)
    ensures forall n, m :: n in byName && m in byName && n != m ==>
              !BoxOverlap(DrawnNode(byName[n]), DrawnNode(byName[m]))
  {
    hide TooClose, BoxOverlap, DrawnNode;
    forall n, m | n in byName && m in byName && n != m
      ensures !BoxOverlap(DrawnNode(byName[n]), DrawnNode(byName[m]))
    {
      var a, b := byName[n], byName[m];
      DrawnNodesApart(a, b);
      OverlapIsTooClose(DrawnShape(a), DrawnShape(b));
      DrawnShapeIsDrawn(a);
      DrawnShapeIsDrawn(b);
    }
  }

  lemma DrawnShapeIsDrawn(s: NodeShape)
    ensures BoxOf(DrawnShape(s)) == DrawnNode(s)
  {
  }

  /** A chip clear of a box is clear of it in the picture, wherever the two stand. */
  lemma DrawnOffBox(p: Point, s: NodeShape, eps: int)
    requires !s.isHost && eps % 2 == 0 && GatePokes(DrawnChip(p), DrawnNode(s), eps as real)
    ensures Pokes(p.0, p.1, s, eps as real)
  {
    hide Printed;
    var e := eps as real;
    assert Lap(Printed(p.0 - 21.0) as real, 42.0, Printed(s.cx - 70.0) as real, 140.0) > e;
    assert Lap(Printed(p.1 - 9.0) as real, 18.0, Printed(s.cy - 30.0) as real, 60.0) > e;
    PrintingKeepsAxis(p.0 - 21.0, 42, s.cx - 70.0, 140, eps);
    PrintingKeepsAxis(p.1 - 9.0, 18, s.cy - 30.0, 60, eps);
  }

  // ---------------------------------------------------------------------------
  // Circles
  // ---------------------------------------------------------------------------

  /** How far `c` lies outside of the interval of width `w` that starts at `p`. */
  function Off(c: real, p: real, w: real): real {
    Max(0.0, Max(p - c, c - (p + w)))
  }

  lemma OffIsClamped(c: real, p: real, w: real)
    requires w >= 0.0
    ensures Sq(c - Max(p, Min(c, p + w))) == Sq(Off(c, p, w))
  {
    assert Sq(-(p - c)) == Sq(p - c);
  }

  /** The two circle tests, in terms of the distances on the axes. */
  lemma CircleTests(p: Point, s: NodeShape, q: Point, b: Box, eps: real)
    requires s.isHost && b.circle && b.hw == HOST_R
    ensures Pokes(p.0, p.1, s, eps) <==>
            Sq(Off(s.cx, p.0 - 21.0, 42.0)) + Sq(Off(s.cy, p.1 - 9.0, 18.0)) < Sq(HOST_R - eps)
    ensures GatePokes(q, b, eps) <==>
            Sq(Off(b.cx, q.0 - 21.0, 42.0)) + Sq(Off(b.cy, q.1 - 9.0, 18.0)) < Sq(HOST_R - eps)
  {
    OffIsClamped(s.cx, p.0 - 21.0, 42.0);
    OffIsClamped(s.cy, p.1 - 9.0, 18.0);
    OffIsClamped(b.cx, q.0 - 21.0, 42.0);
    OffIsClamped(b.cy, q.1 - 9.0, 18.0);
    assert p.0 - 21.0 + 42.0 == p.0 + 21.0 && p.1 - 9.0 + 18.0 == p.1 + 9.0;
    assert q.0 - 21.0 + 42.0 == q.0 + 21.0 && q.1 - 9.0 + 18.0 == q.1 + 9.0;
    hide Sq, Off, Max, Min;
  }

  lemma SumBound(x: real, y: real, r: real)
    requires x >= 0.0 && y >= 0.0 && r > 0.0 && Sq(x) + Sq(y) < Sq(r)
    ensures x + y < 1.5 * r
  {
    SqSign(x - y);
    assert Sq(x + y) + Sq(x - y) == 2.0 * (Sq(x) + Sq(y));
    assert Sq(1.5 * r) == 2.25 * Sq(r);
    SqSign(r);
    if x + y >= 1.5 * r {
      SqGrows(x + y, 1.5 * r);
    }
  }

  /** A vector that leaves a circle of radius r + 3/2 * d after moving by at most d on each axis had left
      the circle of radius r before. */
  lemma SmallMove(a: real, b: real, a': real, b': real, d: real, r: real)
    requires a' >= 0.0 && b' >= 0.0 && 0.0 <= a <= a' + d && 0.0 <= b <= b' + d && d > 0.0 && r > 0.0
    requires Sq(a) + Sq(b) >= Sq(r + 1.5 * d)
    ensures Sq(a') + Sq(b') >= Sq(r)
  {
    if Sq(a') + Sq(b') < Sq(r) {
      SumBound(a', b', r);
      GrowSq(a, a', d);
      GrowSq(b, b', d);
      assert d * (a' + b') == d * a' + d * b';
      MulMono(d, a' + b', 1.5 * r);
      assert Sq(r + 1.5 * d) == Sq(r) + 2.0 * (d * (1.5 * r)) + 2.25 * Sq(d);
      SqSign(d);
    }
  }

  lemma GrowSq(a: real, a': real, d: real)
    requires 0.0 <= a <= a' + d
    ensures Sq(a) <= Sq(a') + 2.0 * (d * a') + Sq(d)
  {
    SqGrows(a' + d, a);
    assert Sq(a' + d) == Sq(a') + 2.0 * (d * a') + Sq(d);
  }

  lemma OffMoves(c: real, p: real, c': real, p': real, w: real, d: real)
    requires Abs(c - c') + Abs(p - p') <= d
    ensures 0.0 <= Off(c, p, w) <= Off(c', p', w) + d
  {
  }

  /** Clear of a circle by a pixel and a half more than required, a chip is clear of it in the picture. */
  lemma DrawnOffCircle(p: Point, s: NodeShape, eps: real)
    requires s.isHost && eps < HOST_R && !Pokes(p.0, p.1, s, eps - 1.5)
    ensures !GatePokes(DrawnChip(p), DrawnNode(s), eps)
  {
    var q, b := DrawnChip(p), DrawnNode(s);
    PrintedNear(s.cx);
    PrintedNear(s.cy);
    PrintedNear(p.0 - 21.0);
    PrintedNear(p.1 - 9.0);
    CircleTests(p, s, q, b, eps - 1.5);
    CircleTests(p, s, q, b, eps);
    OffMoves(s.cx, p.0 - 21.0, b.cx, q.0 - 21.0, 42.0, 1.0);
    OffMoves(s.cy, p.1 - 9.0, b.cy, q.1 - 9.0, 18.0, 1.0);
    hide Off, Sq, Pokes, GatePokes, Printed;
    SmallMove(Off(s.cx, p.0 - 21.0, 42.0), Off(s.cy, p.1 - 9.0, 18.0),
              Off(b.cx, q.0 - 21.0, 42.0), Off(b.cy, q.1 - 9.0, 18.0), 1.0, HOST_R - eps);
  }

  // ---------------------------------------------------------------------------
  // What the gate sees of a moved chip
  // ---------------------------------------------------------------------------

  /** Main result: in the picture no chip lies over a moved chip, no box hides it, and a circle does so only
      if the chip came within a pixel and a half of the limit. */
  lemma ClearPassesGate(h: Hypot, byName: Boxes, placed: seq<PlacedChip>, i: nat)
    requires i < |placed| && Clear(h, byName, placed, i)
    ensures forall j :: 0 <= j < |placed| && j != i ==>
              !GateOverlap(DrawnChip((placed[i].cx, placed[i].cy)), DrawnChip((placed[j].cx, placed[j].cy)))
    ensures forall name :: name in byName ==>
              GatePokes(DrawnChip((placed[i].cx, placed[i].cy)), DrawnNode(byName[name]), GateEps(name, placed[i].owner)) ==>
                byName[name].isHost && Pokes(placed[i].cx, placed[i].cy, byName[name], GateEps(name, placed[i].owner) - 1.5)
  {
    var c := placed[i];
    var p := (c.cx, c.cy);
    AcceptedIsFree(h, byName, placed, i, p);
    hide DrawnChip, DrawnNode, ChipsOverlap, GateOverlap, GatePokes, Pokes, InFrame, ChipChipHit;
    forall j | 0 <= j < |placed| && j != i
      ensures !GateOverlap(DrawnChip(p), DrawnChip((placed[j].cx, placed[j].cy)))
    {
      DrawnApart(c, placed[j]);
    }
    forall name | name in byName && GatePokes(DrawnChip(p), DrawnNode(byName[name]), GateEps(name, c.owner))
      ensures byName[name].isHost && Pokes(c.cx, c.cy, byName[name], GateEps(name, c.owner) - 1.5)
    {
      var eps := if name == c.owner then 6 else 2;
      assert eps as real == GateEps(name, c.owner);
      assert !Pokes(c.cx, c.cy, byName[name], GateEps(name, c.owner));
      if byName[name].isHost {
        if !Pokes(c.cx, c.cy, byName[name], GateEps(name, c.owner) - 1.5) {
          DrawnOffCircle(p, byName[name], GateEps(name, c.owner));
        }
      } else {
        DrawnOffBox(p, byName[name], eps);
      }
    }
  }

  /** The place is accepted when there is nothing else around. */
  ghost predicate AcceptedAlone(h: Hypot, s: NodeShape, p: Point) {
    !Pokes(p.0, p.1, s, EPS_OWN) && InFrame(p.0, p.1) && h(p.0 - s.cx, p.1 - s.cy) <= REACH
  }

  function Alone(s: NodeShape, p: Point): seq<PlacedChip> {
    [PlacedChip(s.name, s, p.0, p.1, p.0, p.1)]
  }

  /** Such a place is accepted by both passes in the picture of this node and this chip. */
  lemma AloneIsAcceptable(h: Hypot, s: NodeShape, p: Point)
    requires AcceptedAlone(h, s, p)
    ensures Acceptable(h, map[s.name := s], Alone(s, p), 0, p)
  {
    hide Pokes, InFrame;
  }

  lemma AcceptableIsAcceptedAlone(h: Hypot, byName: Boxes, placed: seq<PlacedChip>, i: nat, p: Point)
    requires i < |placed| && placed[i].owner in byName && Acceptable(h, byName, placed, i, p)
    ensures AcceptedAlone(h, byName[placed[i].owner], p)
  {
    hide Pokes, InFrame, ChipChipHit;
    var name := placed[i].owner;
    assert !Pokes(p.0, p.1, byName[name], Eps(name, name));
  }

  /** Room for a chip on both sides of a host, and above it or below. A cleared layout has every centre
      between 55 and 365 in y. */
  predicate HasRoom(s: NodeShape) {
    66.0 <= s.cx <= 654.0 && 49.0 <= s.cy <= 396.0
  }

  lemma CloseEnough(h: Hypot, x: real, y: real)
    requires IsHypot(h) && Abs(x) <= 85.0 && Abs(y) <= 84.0
    ensures h(x, y) <= REACH
  {
    SqGrows(85.0, Abs(x));
    SqGrows(84.0, Abs(y));
    SqNegate(x);
    SqNegate(y);
    SqMonotone(h(x, y), REACH);
  }

  /** Beside the centre, on the side of the whole number that it is printed as. */
  function Beside(c: real): real {
    if c <= Printed(c) as real then Printed(c) as real + 44.4 else Printed(c) as real - 44.4
  }

  /** The chip is at least 23.4 px from the centre, and drawn at 23. */
  lemma BesideAxis(c: real)
    ensures Off(c, Beside(c) - 21.0, 42.0) >= 23.4
    ensures Off(Printed(c) as real, Printed(Beside(c) - 21.0) as real, 42.0) == 23.0
  {
    var n := Printed(c);
    if c <= n as real {
      assert Printed(n as real + 23.4) == n + 23;
    } else {
      assert Printed(n as real - 65.4) == n - 65;
    }
  }

  /** Six pixels below or above the centre, where there is room: printing keeps that distance. */
  function SixOff(c: real): real {
    if c <= 381.0 then c + 15.0 else c - 15.0
  }

  lemma SixOffAxis(c: real)
    ensures Off(c, SixOff(c) - 9.0, 18.0) == 6.0
    ensures Off(Printed(c) as real, Printed(SixOff(c) - 9.0) as real, 18.0) == 6.0
  {
    PrintedShift(c, 6);
    PrintedShift(c, -24);
    assert SixOff(c) - 9.0 == if c <= 381.0 then c + 6 as real else c + (-24) as real;
    hide Printed;
  }

  /** For circles the pixel and a half is needed: beside every host with room around it there is a place that
      both passes accept, and in the picture the chip is hidden by the host. */
  lemma HostCanHide(h: Hypot, s: NodeShape) returns (p: Point)
    requires IsHypot(h) && s.isHost && HasRoom(s)
    ensures Acceptable(h, map[s.name := s], Alone(s, p), 0, p)
    ensures GatePokes(DrawnChip(p), DrawnNode(s), EPS_OWN)
  {
    p := (Beside(s.cx), SixOff(s.cy));
    BesideAxis(s.cx);
    SixOffAxis(s.cy);
    PrintedNear(s.cx);
    assert InFrame(p.0, p.1);
    CloseEnough(h, p.0 - s.cx, p.1 - s.cy);
    hide InFrame, Beside, SixOff, Printed, Off, IsHypot, GatePokes, Pokes;
    var q, b := DrawnChip(p), DrawnNode(s);
    CircleTests(p, s, q, b, EPS_OWN);
    SqGrows(Off(s.cx, p.0 - 21.0, 42.0), 23.4);
    assert q.0 - 21.0 == Printed(p.0 - 21.0) as real && q.1 - 9.0 == Printed(p.1 - 9.0) as real;
    assert Sq(23.4) + Sq(6.0) >= Sq(24.0) && Sq(23.0) + Sq(6.0) < Sq(24.0);
    AloneIsAcceptable(h, s, p);
  }

  // ---------------------------------------------------------------------------
  // When an accepted place triggers unshoveChips again
  // ---------------------------------------------------------------------------

  /** Some accepted place is, rounded, in the chip's own node. */
  ghost predicate TriggersAgain(h: Hypot, s: NodeShape) {
    exists p: Point :: AcceptedAlone(h, s, p) && Pokes(Round(p.0), Round(p.1), s, EPS_OWN)
  }

  /** No chip is accepted beside its owner and triggered again, unless its owner allows that. */
  lemma TriggeredMeansAllowed(h: Hypot, byName: Boxes, placed: seq<PlacedChip>, i: nat, p: Point)
    requires i < |placed| && placed[i].owner in byName && Acceptable(h, byName, placed, i, p)
    requires OwnBoxHit(p.0, p.1, placed[i].owner, byName)
    ensures TriggersAgain(h, byName[placed[i].owner])
  {
    hide Pokes, InFrame, AcceptedAlone, Round;
    AcceptableIsAcceptedAlone(h, byName, placed, i, p);
  }

  /** A node that allows it does so in a picture of its own. */
  lemma AllowedMeansTriggered(h: Hypot, s: NodeShape) returns (p: Point)
    requires TriggersAgain(h, s)
    ensures Acceptable(h, map[s.name := s], Alone(s, p), 0, p) && OwnBoxHit(p.0, p.1, s.name, map[s.name := s])
  {
    hide Pokes, AcceptedAlone, Acceptable, Round;
    p :| AcceptedAlone(h, s, p) && Pokes(Round(p.0), Round(p.1), s, EPS_OWN);
    AloneIsAcceptable(h, s, p);
  }

  /** The edge lies in the frame, and rounding moves it up, or down. */
  predicate LooseEdge(x: real, lo: real, hi: real, up: bool) {
    lo <= x <= hi && if up then Round(x) > x else Round(x) < x
  }

  /** Some edge of the zone that a chip's centre must avoid is itself in the frame, and rounds inwards. */
  predicate Loose(s: NodeShape) {
    || (16.0 < s.cy < 429.0 && (LooseEdge(s.cx - 85.0, 21.0, 699.0, true) || LooseEdge(s.cx + 85.0, 21.0, 699.0, false)))
    || (-64.0 < s.cx < 784.0 && (LooseEdge(s.cy - 33.0, 49.0, 396.0, true) || LooseEdge(s.cy + 33.0, 49.0, 396.0, false)))
  }

  /** Rounding picks the nearest whole number, and of two the one further from zero. */
  lemma RoundNearest(x: real)
    ensures var n := RoundInt(x) as real;
            if x >= 0.0 then n - 0.5 <= x < n + 0.5 else n - 0.5 < x <= n + 0.5
  {
    if x >= 0.0 {
      var f := (x + 0.5).Floor;
      assert f as real <= x + 0.5 < f as real + 1.0;
    } else {
      var f := (0.5 - x).Floor;
      assert f as real <= 0.5 - x < f as real + 1.0;
    }
  }

  lemma RoundIsNear(x: real)
    ensures x - 0.5 <= Round(x) <= x + 0.5
  {
    RoundNearest(x);
    hide RoundInt;
  }

  lemma RoundMono(x: real, y: real)
    requires x <= y
    ensures Round(x) <= Round(y)
  {
    RoundNearest(x);
    RoundNearest(y);
    hide RoundInt;
    var m, n := RoundInt(x), RoundInt(y);
    assert m <= n || m as real >= n as real + 1.0;
  }

  lemma RoundWhole(n: int)
    ensures Round(n as real) == n as real
  {
    RoundNearest(n as real);
    hide RoundInt;
    var m := RoundInt(n as real);
    assert -0.5 <= m as real - n as real <= 0.5;
    assert m as real - n as real == (m - n) as real;
  }

  /** In the own box, in terms of the chip's centre. */
  lemma OwnZone(x: real, y: real, s: NodeShape)
    requires !s.isHost
    ensures Pokes(x, y, s, EPS_OWN) <==> s.cx - 85.0 < x < s.cx + 85.0 && s.cy - 33.0 < y < s.cy + 33.0
  {
  }

  lemma LooseIfTriggered(h: Hypot, s: NodeShape, p: Point)
    requires !s.isHost && AcceptedAlone(h, s, p) && Pokes(Round(p.0), Round(p.1), s, EPS_OWN)
    ensures Loose(s)
  {
    OwnZone(p.0, p.1, s);
    OwnZone(Round(p.0), Round(p.1), s);
    RoundWhole(21);
    RoundWhole(699);
    RoundWhole(49);
    RoundWhole(396);
    RoundMono(21.0, p.0);
    RoundMono(p.0, 699.0);
    RoundMono(49.0, p.1);
    RoundMono(p.1, 396.0);
    hide Round, Pokes;
    if p.0 <= s.cx - 85.0 {
      RoundMono(p.0, s.cx - 85.0);
    } else if p.0 >= s.cx + 85.0 {
      RoundMono(s.cx + 85.0, p.0);
    } else if p.1 <= s.cy - 33.0 {
      RoundMono(p.1, s.cy - 33.0);
    } else {
      RoundMono(s.cy + 33.0, p.1);
    }
  }

  /** A whole number as near to `c` as the bounds allow. */
  function NearWhole(c: real, lo: int, hi: int): int
    requires lo <= hi
  {
    if c.Floor < lo then lo else if c.Floor > hi then hi else c.Floor
  }

  lemma TriggeredIfLoose(h: Hypot, s: NodeShape)
    requires IsHypot(h) && !s.isHost && Loose(s)
    ensures TriggersAgain(h, s)
  {
    var x, y := NearWhole(s.cx, 21, 699), NearWhole(s.cy, 49, 396);
    RoundWhole(x);
    RoundWhole(y);
    RoundIsNear(s.cx - 85.0);
    RoundIsNear(s.cx + 85.0);
    RoundIsNear(s.cy - 33.0);
    RoundIsNear(s.cy + 33.0);
    hide Round, IsHypot;
    var p: Point :=
      if 16.0 < s.cy < 429.0 && LooseEdge(s.cx - 85.0, 21.0, 699.0, true) then (s.cx - 85.0, y as real)
      else if 16.0 < s.cy < 429.0 && LooseEdge(s.cx + 85.0, 21.0, 699.0, false) then (s.cx + 85.0, y as real)
      else if LooseEdge(s.cy - 33.0, 49.0, 396.0, true) then (x as real, s.cy - 33.0)
      else (x as real, s.cy + 33.0);
    OwnZone(p.0, p.1, s);
    OwnZone(Round(p.0), Round(p.1), s);
    hide Pokes;
    assert InFrame(p.0, p.1);
    assert Abs(p.0 - s.cx) <= 85.0 && Abs(p.1 - s.cy) <= 84.0;
    CloseEnough(h, p.0 - s.cx, p.1 - s.cy);
    assert AcceptedAlone(h, s, p) && Pokes(Round(p.0), Round(p.1), s, EPS_OWN);
  }

  /** Main result: the boxes next to which an accepted place can be a trigger again are exactly the loose ones. */
  lemma BoxTriggersExactly(h: Hypot, s: NodeShape)
    requires IsHypot(h) && !s.isHost
    ensures TriggersAgain(h, s) <==> Loose(s)
  {
    hide AcceptedAlone, Pokes, Round, Loose, IsHypot;
    if Loose(s) {
      TriggeredIfLoose(h, s);
    }
    if TriggersAgain(h, s) {
      var p: Point :| AcceptedAlone(h, s, p) && Pokes(Round(p.0), Round(p.1), s, EPS_OWN);
      LooseIfTriggered(h, s, p);
    }
  }

  predicate IsWhole(x: real) {
    x == x.Floor as real
  }

  /** In particular boxes centred on whole coordinates are not loose. */
  lemma WholeIsNotLoose(s: NodeShape)
    requires IsWhole(s.cx) && IsWhole(s.cy)
    ensures !Loose(s)
  {
    RoundWhole(s.cx.Floor - 85);
    RoundWhole(s.cx.Floor + 85);
    RoundWhole(s.cy.Floor - 33);
    RoundWhole(s.cy.Floor + 33);
    hide Round;
  }

  /** For every node: three quarters of a pixel more than required, and the place is no trigger. */
  lemma MarginKeepsUntriggered(p: Point, s: NodeShape)
    requires !Pokes(p.0, p.1, s, EPS_OWN - 0.75)
    ensures !Pokes(Round(p.0), Round(p.1), s, EPS_OWN)
  {
    RoundIsNear(p.0);
    RoundIsNear(p.1);
    hide Round;
    if s.isHost {
      var q := (Round(p.0), Round(p.1));
      CircleTests(p, s, q, BoxOf(s), EPS_OWN - 0.75);
      CircleTests(q, s, q, BoxOf(s), EPS_OWN);
      OffMoves(s.cx, p.0 - 21.0, s.cx, q.0 - 21.0, 42.0, 0.5);
      OffMoves(s.cy, p.1 - 9.0, s.cy, q.1 - 9.0, 18.0, 0.5);
      hide Off, Sq, Pokes, GatePokes;
      SmallMove(Off(s.cx, p.0 - 21.0, 42.0), Off(s.cy, p.1 - 9.0, 18.0),
                Off(s.cx, q.0 - 21.0, 42.0), Off(s.cy, q.1 - 9.0, 18.0), 0.5, 24.0);
    }
  }

  /** Between two whole numbers rounding goes down in the first half and up in the second. */
  lemma RoundFraction(n: int, f: real)
    requires n >= 0 && 0.0 <= f < 1.0
    ensures Round(n as real + f) == (if f < 0.5 then n else n + 1) as real
  {
    assert (n as real + f + 0.5).Floor == if f < 0.5 then n else n + 1;
  }

  /** On one axis: the chip's centre at `c` plus or minus 24 and half its width, when that rounds inwards. */
  lemma RoundsInOnAxis(c: real, half: int) returns (x: real)
    requires c >= 49.0 && (half == 21 || half == 9) && !IsWhole(c)
    ensures x == if c - c.Floor as real < 0.5 then c + 24.0 + half as real else c - 24.0 - half as real
    ensures Off(c, x - half as real, 2.0 * half as real) == 24.0
    ensures 0.0 < Off(c, Round(x) - half as real, 2.0 * half as real) < 24.0
  {
    var n, f := c.Floor, c - c.Floor as real;
    var far := 24 + half;
    RoundFraction(n + far, f);
    RoundFraction(n - far, f);
    hide Round;
    if f < 0.5 {
      x := c + 24.0 + half as real;
      assert x == (n + far) as real + f;
    } else {
      x := c - 24.0 - half as real;
      assert x == (n - far) as real + f;
    }
  }

  lemma OnAxis(c: real, half: int)
    requires half == 21 || half == 9
    ensures Off(c, c.Floor as real - half as real, 2.0 * half as real) == 0.0
    ensures Round(c.Floor as real) == c.Floor as real
  {
    RoundWhole(c.Floor);
    hide Round;
  }

  /** A place at the limit, or just outside, that rounding brings inside. */
  ghost predicate RoundsInside(s: NodeShape, p: Point) {
    && Sq(Off(s.cx, p.0 - 21.0, 42.0)) + Sq(Off(s.cy, p.1 - 9.0, 18.0)) >= 576.0
    && Sq(Off(s.cx, Round(p.0) - 21.0, 42.0)) + Sq(Off(s.cy, Round(p.1) - 9.0, 18.0)) < 576.0
  }

  /** Such a place triggers again. */
  lemma CloserTriggers(h: Hypot, s: NodeShape, p: Point)
    requires IsHypot(h) && s.isHost && InFrame(p.0, p.1)
    requires Abs(p.0 - s.cx) <= 85.0 && Abs(p.1 - s.cy) <= 84.0
    requires RoundsInside(s, p)
    ensures TriggersAgain(h, s)
  {
    CloseEnough(h, p.0 - s.cx, p.1 - s.cy);
    var q := (Round(p.0), Round(p.1));
    CircleTests(p, s, q, BoxOf(s), EPS_OWN);
    CircleTests(q, s, q, BoxOf(s), EPS_OWN);
    assert Sq(24.0) == 576.0;
    hide Off, Round, Pokes, InFrame, IsHypot;
    assert AcceptedAlone(h, s, p) && Pokes(Round(p.0), Round(p.1), s, EPS_OWN);
  }

  /** A place above a host whose centre is in the first half of its pixel. */
  function AboveHost(s: NodeShape): Point {
    var n, g := s.cy.Floor as real, s.cy - s.cy.Floor as real;
    if g < 0.45 then (s.cx + 35.4, n - 28.4) else (s.cx + 34.4, n - 28.5)
  }

  /** And one below a host whose centre is in the second half. */
  function BelowHost(s: NodeShape): Point {
    var n, g := s.cy.Floor as real, s.cy - s.cy.Floor as real;
    if g > 0.55 then (s.cx + 35.4, n + 29.4) else (s.cx + 34.4, n + 29.49)
  }

  /** Two places just outside of the limit that are inside once they are closer by a fraction of a pixel. */
  lemma JustOutside(v: real, u: real)
    requires 0.0 <= v <= 0.5
    requires u >= if v < 0.45 then 19.4 + v else 19.49 + v
    ensures Sq(if v < 0.45 then 14.4 else 13.4) + Sq(u) >= 576.0
    ensures Sq(if v < 0.45 then 14.0 else 13.0) + Sq(19.0 + v) < 576.0
  {
    if v < 0.45 {
      SqGrows(u, 19.4);
      SqGrows(19.45, 19.0 + v);
    } else {
      SqGrows(u, 19.94);
      SqGrows(19.5, 19.0 + v);
    }
    assert Sq(14.4) + Sq(19.4) >= 576.0 && Sq(14.0) + Sq(19.45) < 576.0;
    assert Sq(13.4) + Sq(19.94) >= 576.0 && Sq(13.0) + Sq(19.5) < 576.0;
  }

  lemma AboveHostTriggers(s: NodeShape)
    requires IsWhole(s.cx) && s.cx >= 0.0 && s.cy >= 49.0 && s.cy - s.cy.Floor as real < 0.5
    ensures RoundsInside(s, AboveHost(s))
  {
    var p, n, g := AboveHost(s), s.cy.Floor, s.cy - s.cy.Floor as real;
    var far, d, up := if g < 0.45 then 35 else 34, if g < 0.45 then 14.4 else 13.4, if g < 0.45 then 0.6 else 0.5;
    RoundFraction(s.cx.Floor + far, 0.4);
    RoundFraction(n - 29, up);
    assert p.0 == (s.cx.Floor + far) as real + 0.4 && p.1 == (n - 29) as real + up;
    assert Round(p.0) == s.cx + far as real && Round(p.1) == (n - 28) as real;
    assert Off(s.cx, p.0 - 21.0, 42.0) == d && Off(s.cx, Round(p.0) - 21.0, 42.0) == d - 0.4;
    assert Off(s.cy, p.1 - 9.0, 18.0) == 20.0 - up + g && Off(s.cy, Round(p.1) - 9.0, 18.0) == 19.0 + g;
    hide Round, Off, AboveHost;
    JustOutside(g, 20.0 - up + g);
  }

  lemma BelowHostTriggers(s: NodeShape)
    requires IsWhole(s.cx) && s.cx >= 0.0 && s.cy >= 0.0 && s.cy - s.cy.Floor as real >= 0.5
    ensures RoundsInside(s, BelowHost(s))
  {
    var p, n, g := BelowHost(s), s.cy.Floor, s.cy - s.cy.Floor as real;
    var far, d, up := if g > 0.55 then 35 else 34, if g > 0.55 then 14.4 else 13.4, if g > 0.55 then 0.4 else 0.49;
    RoundFraction(s.cx.Floor + far, 0.4);
    RoundFraction(n + 29, up);
    assert p.0 == (s.cx.Floor + far) as real + 0.4 && p.1 == (n + 29) as real + up;
    assert Round(p.0) == s.cx + far as real && Round(p.1) == (n + 29) as real;
    assert Off(s.cx, p.0 - 21.0, 42.0) == d && Off(s.cx, Round(p.0) - 21.0, 42.0) == d - 0.4;
    assert Off(s.cy, p.1 - 9.0, 18.0) == 20.0 + up - g && Off(s.cy, Round(p.1) - 9.0, 18.0) == 20.0 - g;
    hide Round, Off, BelowHost;
    JustOutside(1.0 - g, 20.0 + up - g);
  }

  /** Straight above or below a host whose x coordinate is whole. */
  lemma StraightTriggers(s: NodeShape) returns (p: Point)
    requires IsWhole(s.cx) && s.cy >= 49.0 && !IsWhole(s.cy)
    ensures RoundsInside(s, p) && p.0 == s.cx
    ensures p.1 == if s.cy - s.cy.Floor as real < 0.5 then s.cy + 33.0 else s.cy - 33.0
  {
    OnAxis(s.cx, 21);
    var y := RoundsInOnAxis(s.cy, 9);
    p := (s.cx, y);
    hide Round, Off;
    InsideLimit(Off(s.cy, Round(y) - 9.0, 18.0));
  }

  /** For a host whose x coordinate is whole. */
  lemma WholeHostPlace(s: NodeShape) returns (p: Point)
    requires HasRoom(s) && IsWhole(s.cx)
    ensures RoundsInside(s, p) && InFrame(p.0, p.1) && Abs(p.0 - s.cx) <= 85.0 && Abs(p.1 - s.cy) <= 84.0
  {
    hide Round, Off;
    var first := s.cy - s.cy.Floor as real < 0.5;
    if IsWhole(s.cy) {
      p := (s.cx + 35.4, if s.cy <= 367.0 then s.cy + 28.4 else s.cy - 28.4);
      Diagonal(s.cx, s.cy);
    } else if first && s.cy > 363.0 {
      p := AboveHost(s);
      AboveHostTriggers(s);
    } else if !first && s.cy < 82.0 {
      p := BelowHost(s);
      BelowHostTriggers(s);
    } else {
      p := StraightTriggers(s);
    }
  }

  /** No host with room around it is safe from this, whatever its centre. */
  lemma HostTriggersAgain(h: Hypot, s: NodeShape)
    requires IsHypot(h) && s.isHost && HasRoom(s)
    ensures TriggersAgain(h, s)
  {
    hide Round, Off, IsHypot;
    if IsWhole(s.cx) {
      var p := WholeHostPlace(s);
      CloserTriggers(h, s, p);
    } else {
      OnAxis(s.cy, 9);
      var x := RoundsInOnAxis(s.cx, 21);
      InsideLimit(Off(s.cx, Round(x) - 21.0, 42.0));
      CloserTriggers(h, s, (x, s.cy.Floor as real));
    }
  }

  lemma InsideLimit(x: real)
    requires 0.0 < x < 24.0
    ensures Sq(x) + Sq(0.0) < 576.0 && Sq(0.0) + Sq(x) < 576.0 && Sq(24.0) + Sq(0.0) >= 576.0
  {
    StrictSq(x, 24.0);
  }

  lemma Diagonal(cx: real, cy: real)
    requires IsWhole(cx) && IsWhole(cy) && cx >= 0.0 && cy >= 49.0
    ensures var y := if cy <= 367.0 then cy + 28.4 else cy - 28.4;
            && Sq(Off(cx, cx + 35.4 - 21.0, 42.0)) + Sq(Off(cy, y - 9.0, 18.0)) >= 576.0
            && Sq(Off(cx, Round(cx + 35.4) - 21.0, 42.0)) + Sq(Off(cy, Round(y) - 9.0, 18.0)) < 576.0
  {
    RoundFraction(cx.Floor + 35, 0.4);
    RoundFraction(cy.Floor + 28, 0.4);
    RoundFraction(cy.Floor - 29, 0.6);
    assert Round(cx + 35.4) == cx + 35.0 && Round(cy + 28.4) == cy + 28.0;
    assert cy - 28.4 == (cy.Floor - 29) as real + 0.6 && Round(cy - 28.4) == cy - 28.0;
    hide Round;
    assert Off(cx, cx + 35.4 - 21.0, 42.0) == 14.4 && Off(cy, cy + 28.4 - 9.0, 18.0) == 19.4;
    assert Off(cx, cx + 35.0 - 21.0, 42.0) == 14.0 && Off(cy, cy + 28.0 - 9.0, 18.0) == 19.0;
    assert Off(cy, cy - 28.4 - 9.0, 18.0) == 19.4 && Off(cy, cy - 28.0 - 9.0, 18.0) == 19.0;
  }

  /** Triggering again is not being hidden: this accepted place is a trigger, while in the picture the chip
      overlaps its box by no more than the six pixels that the gate allows. */
  lemma TriggerWithoutHiding(h: Hypot) returns (s: NodeShape, p: Point)
    requires IsHypot(h)
    ensures Acceptable(h, map[s.name := s], Alone(s, p), 0, p)
    ensures OwnBoxHit(p.0, p.1, s.name, map[s.name := s])
    ensures !GatePokes(DrawnChip(p), DrawnNode(s), EPS_OWN)
  {
    s := NodeShape("SW1", CoreRole, 100.4, 100.0, false);
    p := (185.4, 100.0);
    CloseEnough(h, p.0 - s.cx, p.1 - s.cy);
    assert Round(p.0) == 185.0 && Round(p.1) == 100.0;
    OwnZone(p.0, p.1, s);
    OwnZone(185.0, 100.0, s);
    AloneIsAcceptable(h, s, p);
    if GatePokes(DrawnChip(p), DrawnNode(s), EPS_OWN) {
      DrawnOffBox(p, s, 6);
    }
  }
}
