/**
 flipChips and unshoveChips of tools/topogen/render.go: chips that lie on a node are moved to a
 place where they can be read, and nothing else changes. The gate for "hidden" and "overlapping"
 chips is in tools/topogen/qa_geometry.py.
 */
module ChipRepair {
  import opened Reals
  import opened Shapes
  import opened Chips
  import opened Wrappers
  import opened LayoutCheck

  type Hypot = (real, real) -> real
  type Boxes = map<string, NodeShape>
  type Point = (real, real)

  const EPS_FOREIGN := 2.0
  const EPS_OWN := 6.0
  const REACH := 120.0

  // ---------------------------------------------------------------------------
  // Chips and node footprints
  // ---------------------------------------------------------------------------

  /** A chip centred at (cx, cy) reaches into the footprint of `s` by more than `eps`. */
  predicate Pokes(cx: real, cy: real, s: NodeShape, eps: real) {
    var x1, y1, x2, y2 := cx - 21.0, cy - 9.0, cx + 21.0, cy + 9.0;
    if s.isHost then
      var clx := Max(x1, Min(s.cx, x2));
      var cly := Max(y1, Min(s.cy, y2));
      Sq(s.cx - clx) + Sq(s.cy - cly) < Sq(HOST_R - eps)
    else
      && Min(x2, s.cx + 70.0) - Max(x1, s.cx - 70.0) > eps
      && Min(y2, s.cy + 30.0) - Max(y1, s.cy - 30.0) > eps
  }

  function Eps(name: string, owner: string): real {
    if name == owner then EPS_OWN else EPS_FOREIGN
  }

  predicate ChipBoxHit(cx: real, cy: real, owner: string, byName: Boxes) {
    exists name :: name in byName && Pokes(cx, cy, byName[name], Eps(name, owner))
  }

  /** math.Round: halves go away from zero. */
  function RoundInt(x: real): int {
    if x >= 0.0 then (x + 0.5).Floor else -(0.5 - x).Floor
  }

  function Round(x: real): real {
    RoundInt(x) as real
  }

  predicate OwnBoxHit(cx: real, cy: real, owner: string, byName: Boxes) {
    owner in byName && Pokes(Round(cx), Round(cy), byName[owner], EPS_OWN)
  }

  /** A chip at (x, y) would overlap a chip other than the i-th. */
  predicate ChipChipHit(x: real, y: real, placed: seq<PlacedChip>, i: nat) {
    exists j :: 0 <= j < |placed| && j != i && Covers(placed[j], x, y)
  }

  predicate Covers(c: PlacedChip, x: real, y: real) {
    Abs(c.cx - x) < CHIP_W && Abs(c.cy - y) < CHIP_H
  }

  /** Inside the canvas, below the header and above the legend. */
  predicate InFrame(x: real, y: real) {
    && x - 21.0 >= 0.0 && x + 21.0 <= VIEW_W
    && y - 9.0 >= 0.0 && y + 9.0 <= VIEW_H
    && y - 9.0 >= 40.0
    && y + 9.0 <= 405.0
  }

  /** What a position for the i-th chip has to meet. */
  predicate Acceptable(h: Hypot, byName: Boxes, placed: seq<PlacedChip>, i: nat, p: Point)
    requires i < |placed| && placed[i].owner in byName
  {
    var owner := byName[placed[i].owner];
    && !ChipBoxHit(p.0, p.1, placed[i].owner, byName)
    && InFrame(p.0, p.1)
    && h(p.0 - owner.cx, p.1 - owner.cy) <= REACH
    && !ChipChipHit(p.0, p.1, placed, i)
  }

  method HitsBox(cx: real, cy: real, owner: string, byName: Boxes) returns (hit: bool)
    ensures hit == ChipBoxHit(cx, cy, owner, byName)
  {
    hide Pokes;
    var names := Names(byName);
    for k := 0 to |names|
      invariant forall l :: 0 <= l < k ==> !Pokes(cx, cy, byName[names[l]], Eps(names[l], owner))
    {
      assert names[k] in byName;
      if Pokes(cx, cy, byName[names[k]], Eps(names[k], owner)) {
        return true;
      }
    }
    hit := false;
  }

  method HitsChip(x: real, y: real, placed: array<PlacedChip>, i: nat) returns (hit: bool)
    ensures hit == ChipChipHit(x, y, placed[..], i)
  {
    hide Covers;
    for j := 0 to placed.Length
      invariant forall l :: 0 <= l < j && l != i ==> !Covers(placed[l], x, y)
    {
      if j != i && Covers(placed[j], x, y) {
        assert Covers(placed[..][j], x, y);
        return true;
      }
    }
    hit := false;
  }

  method Accepts(h: Hypot, byName: Boxes, placed: array<PlacedChip>, i: nat, p: Point) returns (ok: bool)
    requires i < placed.Length && placed[i].owner in byName
    ensures ok == Acceptable(h, byName, placed[..], i, p)
  {
    var owner := byName[placed[i].owner];
    var boxHit := HitsBox(p.0, p.1, placed[i].owner, byName);
    if boxHit {
      return false;
    }
    if p.0 - 21.0 < 0.0 || p.0 + 21.0 > VIEW_W || p.1 - 9.0 < 0.0 || p.1 + 9.0 > VIEW_H {
      return false;
    }
    if p.1 - 9.0 < 40.0 {
      return false;
    }
    if p.1 + 9.0 > 405.0 {
      return false;
    }
    if h(p.0 - owner.cx, p.1 - owner.cy) > REACH {
      return false;
    }
    var chipHit := HitsChip(p.0, p.1, placed, i);
    ok := !chipHit;
  }

  // ---------------------------------------------------------------------------
  // flipChips
  // ---------------------------------------------------------------------------

  function Over(x: real, d: real): real
    requires d != 0.0
  {
    x / d
  }

  function Dot(ax: real, ay: real, bx: real, by': real): real {
    ax * bx + ay * by'
  }

  /** The point at the fraction `t` of the way from `a` to `b`, on one axis. */
  function Lerp(a: real, b: real, t: real): real {
    a + t * (b - a)
  }

  /** The place of the closest point of the segment, as a fraction of its length. */
  function Foot(px: real, py: real, ax: real, ay: real, bx: real, by': real): real {
    var dx, dy := bx - ax, by' - ay;
    var l2 := Dot(dx, dy, dx, dy);
    if l2 == 0.0 then 0.0
    else Max(0.0, Min(1.0, Over(Dot(px - ax, py - ay, dx, dy), l2)))
  }

  function DistToLink(h: Hypot, px: real, py: real, ax: real, ay: real, bx: real, by': real): real {
    var dx, dy := bx - ax, by' - ay;
    if Dot(dx, dy, dx, dy) == 0.0 then h(px - ax, py - ay)
    else
      var t := Foot(px, py, ax, ay, bx, by');
      h(px - Lerp(ax, bx, t), py - Lerp(ay, by', t))
  }

  function Score(h: Hypot, owner: NodeShape, other: NodeShape, p: Point): real {
    DistToLink(h, p.0, p.1, owner.cx, owner.cy, other.cx, other.cy) + h(p.0 - owner.cx, p.1 - owner.cy) * 0.1
  }

  /** The point at distance `d` from (ox, oy) in the direction (dx, dy) of length `len`. */
  function Along(ox: real, oy: real, dx: real, dy: real, len: real, d: real): Point
    requires len != 0.0
  {
    (ox + Over(dx, len) * d, oy + Over(dy, len) * d)
  }

  function SlideAt(step: nat): real {
    24.0 + step as real * 8.0
  }

  function Turned(owner: NodeShape, c: PlacedChip): (r: seq<Point>) {
    var cdx, cdy := c.cx - owner.cx, c.cy - owner.cy;
    [(owner.cx - cdx, owner.cy - cdy), (owner.cx - cdy, owner.cy + cdx), (owner.cx + cdy, owner.cy - cdx),
     (c.anchorX, c.anchorY)]
  }

  /** Half turn, quarter turns, anchor, then thirteen places along the link. */
  function Candidates(h: Hypot, owner: NodeShape, other: NodeShape, c: PlacedChip): seq<Point> {
    var dx, dy := other.cx - owner.cx, other.cy - owner.cy;
    var len := h(dx, dy);
    if len > 0.0
    then Turned(owner, c) + seq(13, k requires 0 <= k < 13 => Along(owner.cx, owner.cy, dx, dy, len, SlideAt(k)))
    else Turned(owner, c)
  }

  /** The node at the other end: as laid out, or else as recorded with the chip. */
  function OtherEnd(byName: Boxes, c: PlacedChip): NodeShape {
    if c.other.name in byName then byName[c.other.name] else c.other
  }

  /** The first of the least-scored acceptable candidates among the first `n`. */
  function Best(h: Hypot, byName: Boxes, placed: seq<PlacedChip>, i: nat, cands: seq<Point>, n: nat): (best: Option<nat>)
    requires i < |placed| && placed[i].owner in byName && n <= |cands|
    ensures best.Some? ==> best.value < n
  {
    if n == 0 then None
    else
      var best := Best(h, byName, placed, i, cands, n - 1);
      var owner, other := byName[placed[i].owner], OtherEnd(byName, placed[i]);
      if !Acceptable(h, byName, placed, i, cands[n - 1]) then best
      else if best.None? || Score(h, owner, other, cands[n - 1]) < Score(h, owner, other, cands[best.value])
      then Some(n - 1)
      else best
  }

  predicate FlipDue(byName: Boxes, c: PlacedChip) {
    c.owner in byName && ChipBoxHit(c.cx, c.cy, c.owner, byName)
  }

  /** Where the i-th chip is flipped to, if anywhere. */
  function FlipTarget(h: Hypot, byName: Boxes, placed: seq<PlacedChip>, i: nat): Option<Point>
    requires i < |placed|
  {
    var c := placed[i];
    if !FlipDue(byName, c) then None
    else
      var cands := Candidates(h, byName[c.owner], OtherEnd(byName, c), c);
      match Best(h, byName, placed, i, cands, |cands|)
      case None => None
      case Some(k) => Some(cands[k])
  }

  function MovedTo(placed: seq<PlacedChip>, i: nat, target: Option<Point>): (r: seq<PlacedChip>)
    requires i < |placed|
    ensures |r| == |placed|
  {
    match target
    case None => placed
    case Some(p) => placed[i := placed[i].(cx := p.0, cy := p.1)]
  }

  /** The first `n` chips in turn, each seeing where the ones before went. */
  function Flipped(h: Hypot, byName: Boxes, placed: seq<PlacedChip>, n: nat): (r: seq<PlacedChip>)
    requires n <= |placed|
    ensures |r| == |placed|
  {
    if n == 0 then placed
    else
      var r := Flipped(h, byName, placed, n - 1);
      MovedTo(r, n - 1, FlipTarget(h, byName, r, n - 1))
  }

  method ListCandidates(h: Hypot, owner: NodeShape, other: NodeShape, c: PlacedChip) returns (cands: seq<Point>)
    ensures cands == Candidates(h, owner, other, c)
  {
    hide Along;
    var cdx, cdy := c.cx - owner.cx, c.cy - owner.cy;
    cands := [(owner.cx - cdx, owner.cy - cdy), (owner.cx - cdy, owner.cy + cdx),
              (owner.cx + cdy, owner.cy - cdx), (c.anchorX, c.anchorY)];
    var dx, dy := other.cx - owner.cx, other.cy - owner.cy;
    var lenLink := h(dx, dy);
    if lenLink > 0.0 {
      for step := 0 to 13
        invariant cands == Turned(owner, c)
                           + seq(step, k requires 0 <= k < step => Along(owner.cx, owner.cy, dx, dy, lenLink, SlideAt(k)))
      {
        var d := 24.0 + step as real * 8.0;
        if d > REACH {
          break;
        }
        cands := cands + [Along(owner.cx, owner.cy, dx, dy, lenLink, d)];
      }
    }
  }

  method FindBest(h: Hypot, byName: Boxes, placed: array<PlacedChip>, i: nat, cands: seq<Point>) returns (best: Option<nat>)
    requires i < placed.Length && placed[i].owner in byName
    ensures best == Best(h, byName, placed[..], i, cands, |cands|)
  {
    hide Acceptable, Score;
    var owner, other := byName[placed[i].owner], OtherEnd(byName, placed[i]);
    best := None;
    var bestScore := 0.0;
    for ci := 0 to |cands|
      invariant best == Best(h, byName, placed[..], i, cands, ci)
      invariant best.Some? ==> bestScore == Score(h, owner, other, cands[best.value])
    {
      var ok := Accepts(h, byName, placed, i, cands[ci]);
      if ok {
        var score := Score(h, owner, other, cands[ci]);
        if best.None? || score < bestScore {
          bestScore := score;
          best := Some(ci);
        }
      }
    }
  }

  method FlipChips(h: Hypot, placed: array<PlacedChip>, byName: Boxes)
    modifies placed
    ensures placed[..] == Flipped(h, byName, old(placed[..]), placed.Length)
  {
    hide Best, Candidates, ChipBoxHit, OtherEnd;
    for i := 0 to placed.Length
      invariant placed[..] == Flipped(h, byName, old(placed[..]), i)
    {
      var pc := placed[i];
      if pc.owner in byName {
        var hit := HitsBox(pc.cx, pc.cy, pc.owner, byName);
        if hit {
          var cands := ListCandidates(h, byName[pc.owner], OtherEnd(byName, pc), pc);
          var best := FindBest(h, byName, placed, i, cands);
          if best.Some? {
            placed[i] := pc.(cx := cands[best.value].0, cy := cands[best.value].1);
          }
        }
      }
    }
  }

  // ---------------------------------------------------------------------------
  // unshoveChips
  // ---------------------------------------------------------------------------

  /** The ray from the owner's centre through the chip: direction and length. Straight up when they coincide. */
  datatype Ray = Ray(dx: real, dy: real, len: real)

  function RayOf(h: Hypot, owner: NodeShape, c: PlacedChip): (ray: Ray)
    ensures ray.len != 0.0
  {
    var dx, dy := c.cx - owner.cx, c.cy - owner.cy;
    if h(dx, dy) == 0.0 then Ray(0.0, -1.0, 1.0) else Ray(dx, dy, h(dx, dy))
  }

  function OnRay(owner: NodeShape, ray: Ray, d: real): Point
    requires ray.len != 0.0
  {
    Along(owner.cx, owner.cy, ray.dx, ray.dy, ray.len, d)
  }

  /** The first acceptable point on the ray at distance d, d + 2, d + 4, ..., up to the reach. */
  function FirstClear(h: Hypot, byName: Boxes, placed: seq<PlacedChip>, i: nat, ray: Ray, d: real): Option<Point>
    requires i < |placed| && placed[i].owner in byName && ray.len != 0.0
    decreases REACH - d
  {
    if d > REACH then None
    else
      var p := OnRay(byName[placed[i].owner], ray, d);
      if Acceptable(h, byName, placed, i, p) then Some(p) else FirstClear(h, byName, placed, i, ray, d + 2.0)
  }

  predicate UnshoveDue(byName: Boxes, c: PlacedChip) {
    OwnBoxHit(c.cx, c.cy, c.owner, byName)
  }

  /** Where the i-th chip is moved to, if anywhere. */
  function UnshoveTarget(h: Hypot, byName: Boxes, placed: seq<PlacedChip>, i: nat): Option<Point>
    requires i < |placed|
  {
    var c := placed[i];
    if !UnshoveDue(byName, c) then None
    else
      var ray := RayOf(h, byName[c.owner], c);
      FirstClear(h, byName, placed, i, ray, ray.len + 2.0)
  }

  /** The first `n` chips in turn. */
  function Unshoved(h: Hypot, byName: Boxes, placed: seq<PlacedChip>, n: nat): (r: seq<PlacedChip>)
    requires n <= |placed|
    ensures |r| == |placed|
  {
    if n == 0 then placed
    else
      var r := Unshoved(h, byName, placed, n - 1);
      MovedTo(r, n - 1, UnshoveTarget(h, byName, r, n - 1))
  }

  method WalkOut(h: Hypot, byName: Boxes, placed: array<PlacedChip>, i: nat, ray: Ray) returns (target: Option<Point>)
    requires i < placed.Length && placed[i].owner in byName && ray.len != 0.0
    ensures target == FirstClear(h, byName, placed[..], i, ray, ray.len + 2.0)
  {
    hide Acceptable, OnRay;
    var d := ray.len + 2.0;
    while d <= REACH
      invariant FirstClear(h, byName, placed[..], i, ray, ray.len + 2.0) == FirstClear(h, byName, placed[..], i, ray, d)
      decreases REACH - d
    {
      var p := OnRay(byName[placed[i].owner], ray, d);
      var ok := Accepts(h, byName, placed, i, p);
      if ok {
        return Some(p);
      }
      d := d + 2.0;
    }
    target := None;
  }

  method UnshoveChips(h: Hypot, placed: array<PlacedChip>, byName: Boxes)
    modifies placed
    ensures placed[..] == Unshoved(h, byName, old(placed[..]), placed.Length)
  {
    hide FirstClear, OwnBoxHit;
    for i := 0 to placed.Length
      invariant placed[..] == Unshoved(h, byName, old(placed[..]), i)
    {
      var pc := placed[i];
      if OwnBoxHit(pc.cx, pc.cy, pc.owner, byName) {
        OwnBoxNeedsOwner(pc, byName);
        var target := WalkOut(h, byName, placed, i, RayOf(h, byName[pc.owner], pc));
        if target.Some? {
          placed[i] := pc.(cx := target.value.0, cy := target.value.1);
        }
      }
    }
  }

  lemma OwnBoxNeedsOwner(c: PlacedChip, byName: Boxes)
    requires OwnBoxHit(c.cx, c.cy, c.owner, byName)
    ensures c.owner in byName
  {
  }
}
