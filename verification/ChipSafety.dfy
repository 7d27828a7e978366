/** What flipping and unshoving chips guarantees. */
module ChipSafety {
  import opened Reals
  import opened Shapes
  import opened Chips
  import opened Wrappers
  import opened LayoutCheck
  import opened ChipRepair

  // ---------------------------------------------------------------------------
  // They only repair
  // ---------------------------------------------------------------------------

  ghost predicate OnBox(c: PlacedChip, byName: Boxes) {
    ChipBoxHit(c.cx, c.cy, c.owner, byName)
  }

  /** No new overlap of chips, no new chip on a node, nothing but positions changed. */
  ghost predicate Repairs(before: seq<PlacedChip>, after: seq<PlacedChip>, byName: Boxes) {
    && |after| == |before|
    && (forall i :: 0 <= i < |after| ==> SameChip(after[i], before[i]))
    && (forall i, j :: 0 <= i < j < |after| && ChipsOverlap(after[i], after[j]) ==> ChipsOverlap(before[i], before[j]))
    && (forall i :: 0 <= i < |after| && OnBox(after[i], byName) ==> OnBox(before[i], byName))
  }

  /** The i-th chip stands where it can be read: on no node, in the frame, near its owner, on no other chip. */
  ghost predicate Clear(h: Hypot, byName: Boxes, placed: seq<PlacedChip>, i: nat)
    requires i < |placed|
  {
    placed[i].owner in byName && Acceptable(h, byName, placed, i, (placed[i].cx, placed[i].cy))
  }

  /** Up to index `n` a chip has moved only if it had to, and then it is clear; from there on none has. */
  ghost predicate MovedOnlyIfDue(h: Hypot, byName: Boxes, due: PlacedChip -> bool,
                                 before: seq<PlacedChip>, after: seq<PlacedChip>, n: nat)
    requires |after| == |before|
  {
    && (forall i :: 0 <= i < n && i < |after| && after[i] != before[i] ==> due(before[i]) && Clear(h, byName, after, i))
    && (forall i :: n <= i < |after| ==> after[i] == before[i])
  }

  ghost predicate AcceptableTarget(h: Hypot, byName: Boxes, placed: seq<PlacedChip>, i: nat, target: Option<Point>)
    requires i < |placed|
  {
    target.Some? ==> placed[i].owner in byName && Acceptable(h, byName, placed, i, target.value)
  }

  lemma CoversMeansOverlap(a: PlacedChip, b: PlacedChip)
    ensures Covers(a, b.cx, b.cy) <==> ChipsOverlap(a, b)
    ensures ChipsOverlap(a, b) <==> ChipsOverlap(b, a)
  {
  }

  /** An acceptable position is on no chip and on no node. */
  lemma AcceptedIsFree(h: Hypot, byName: Boxes, placed: seq<PlacedChip>, i: nat, p: Point)
    requires i < |placed| && placed[i].owner in byName && Acceptable(h, byName, placed, i, p)
    ensures var c := placed[i].(cx := p.0, cy := p.1);
            && !OnBox(c, byName)
            && forall j :: 0 <= j < |placed| && j != i ==> !ChipsOverlap(placed[j], c) && !ChipsOverlap(c, placed[j])
  {
    hide ChipBoxHit, ChipsOverlap, Covers;
    var c := placed[i].(cx := p.0, cy := p.1);
    forall j | 0 <= j < |placed| && j != i ensures !ChipsOverlap(placed[j], c) && !ChipsOverlap(c, placed[j]) {
      CoversMeansOverlap(placed[j], c);
      assert !Covers(placed[j], p.0, p.1);
    }
  }

  lemma MoveRepairs(h: Hypot, byName: Boxes, placed: seq<PlacedChip>, i: nat, target: Option<Point>)
    requires i < |placed| && AcceptableTarget(h, byName, placed, i, target)
    ensures Repairs(placed, ChipRepair.MovedTo(placed, i, target), byName)
  {
    if target.Some? {
      AcceptedIsFree(h, byName, placed, i, target.value);
      hide Acceptable, OnBox, ChipsOverlap;
      var after := ChipRepair.MovedTo(placed, i, target);
    }
  }

  lemma RepairsTransitive(a: seq<PlacedChip>, b: seq<PlacedChip>, c: seq<PlacedChip>, byName: Boxes)
    requires Repairs(a, b, byName) && Repairs(b, c, byName)
    ensures Repairs(a, c, byName)
  {
    hide ChipsOverlap, OnBox;
    forall i | 0 <= i < |c| ensures SameChip(c[i], a[i]) {
      assert SameChip(c[i], b[i]) && SameChip(b[i], a[i]);
    }
  }

  /** A chip that was clear stays clear when another one moves to an acceptable place. */
  lemma ClearStays(h: Hypot, byName: Boxes, placed: seq<PlacedChip>, i: nat, target: Option<Point>, j: nat)
    requires i < |placed| && AcceptableTarget(h, byName, placed, i, target)
    requires j < |placed| && j != i && Clear(h, byName, placed, j)
    ensures Clear(h, byName, ChipRepair.MovedTo(placed, i, target), j)
  {
    if target.Some? {
      var after := ChipRepair.MovedTo(placed, i, target);
      AcceptedIsFree(h, byName, placed, i, target.value);
      hide ChipBoxHit, ChipsOverlap, Covers, InFrame;
      CoversMeansOverlap(after[i], placed[j]);
      assert forall k :: 0 <= k < |placed| && k != i ==> after[k] == placed[k];
    }
  }

  /** The moved chip itself is clear. */
  lemma MovedIsClear(h: Hypot, byName: Boxes, placed: seq<PlacedChip>, i: nat, target: Option<Point>)
    requires i < |placed| && target.Some? && AcceptableTarget(h, byName, placed, i, target)
    ensures Clear(h, byName, ChipRepair.MovedTo(placed, i, target), i)
  {
    hide ChipBoxHit, Covers, InFrame;
    var after := ChipRepair.MovedTo(placed, i, target);
    assert forall k :: 0 <= k < |placed| && k != i ==> after[k] == placed[k];
  }

  lemma MoveKeepsDue(h: Hypot, byName: Boxes, due: PlacedChip -> bool, before: seq<PlacedChip>,
                     placed: seq<PlacedChip>, i: nat, target: Option<Point>)
    requires |placed| == |before| && i < |placed| && MovedOnlyIfDue(h, byName, due, before, placed, i)
    requires AcceptableTarget(h, byName, placed, i, target) && (target.Some? ==> due(placed[i]))
    ensures MovedOnlyIfDue(h, byName, due, before, ChipRepair.MovedTo(placed, i, target), i + 1)
  {
    hide Clear, AcceptableTarget;
    var after := ChipRepair.MovedTo(placed, i, target);
    forall j | 0 <= j < i + 1 && after[j] != before[j] ensures due(before[j]) && Clear(h, byName, after, j) {
      if j < i {
        ClearStays(h, byName, placed, i, target, j);
      } else {
        MovedIsClear(h, byName, placed, i, target);
      }
    }
  }

  // ---------------------------------------------------------------------------
  // flipChips
  // ---------------------------------------------------------------------------

  /** The first of the acceptable candidates with the least score. */
  ghost predicate IsFirstLeast(h: Hypot, byName: Boxes, placed: seq<PlacedChip>, i: nat, cands: seq<Point>, k: nat)
    requires i < |placed| && placed[i].owner in byName
  {
    var owner, other := byName[placed[i].owner], OtherEnd(byName, placed[i]);
    && k < |cands| && Acceptable(h, byName, placed, i, cands[k])
    && forall j :: 0 <= j < |cands| && Acceptable(h, byName, placed, i, cands[j]) ==>
         && Score(h, owner, other, cands[k]) <= Score(h, owner, other, cands[j])
         && (j < k ==> Score(h, owner, other, cands[k]) < Score(h, owner, other, cands[j]))
  }

  /** The choice is the first least-scored acceptable candidate, and there is none only if none is acceptable. */
  lemma {:induction false} BestIsFirstLeast(h: Hypot, byName: Boxes, placed: seq<PlacedChip>, i: nat, cands: seq<Point>, n: nat)
    requires i < |placed| && placed[i].owner in byName && n <= |cands|
    ensures match Best(h, byName, placed, i, cands, n)
            case None => forall j :: 0 <= j < n ==> !Acceptable(h, byName, placed, i, cands[j])
            case Some(k) => IsFirstLeast(h, byName, placed, i, cands[..n], k)
    decreases n
  {
    hide Acceptable, Score;
    if n == 0 {
    } else {
      BestIsFirstLeast(h, byName, placed, i, cands, n - 1);
      assert cands[..n][n - 1] == cands[n - 1];
      assert forall j :: 0 <= j < n - 1 ==> cands[..n][j] == cands[..n - 1][j];
    }
  }

  lemma FlipTargetIsBest(h: Hypot, byName: Boxes, placed: seq<PlacedChip>, i: nat)
    requires i < |placed| && FlipDue(byName, placed[i])
    ensures var c := placed[i];
            var cands := Candidates(h, byName[c.owner], OtherEnd(byName, c), c);
            match FlipTarget(h, byName, placed, i)
            case None => forall j :: 0 <= j < |cands| ==> !Acceptable(h, byName, placed, i, cands[j])
            case Some(p) => exists k: nat :: IsFirstLeast(h, byName, placed, i, cands, k) && p == cands[k]
  {
    hide IsFirstLeast, Acceptable, Best, Candidates;
    var c := placed[i];
    var cands := Candidates(h, byName[c.owner], OtherEnd(byName, c), c);
    BestIsFirstLeast(h, byName, placed, i, cands, |cands|);
    assert cands[..|cands|] == cands;
  }

  /** How far a place is from the chip's link, and from its owner. */
  function LinkDistance(h: Hypot, byName: Boxes, c: PlacedChip, p: Point): real
    requires c.owner in byName
  {
    var owner, other := byName[c.owner], OtherEnd(byName, c);
    DistToLink(h, p.0, p.1, owner.cx, owner.cy, other.cx, other.cy)
  }

  function OwnerDistance(h: Hypot, byName: Boxes, c: PlacedChip, p: Point): real
    requires c.owner in byName
  {
    h(p.0 - byName[c.owner].cx, p.1 - byName[c.owner].cy)
  }

  /** Main result: the place chosen is no farther from the link than any other acceptable one, up to a tenth of what it
      is closer to its owner; so it is never 12 px farther. */
  lemma FlipStaysNearLink(h: Hypot, byName: Boxes, placed: seq<PlacedChip>, i: nat, q: Point)
    requires i < |placed| && FlipDue(byName, placed[i])
    requires var c := placed[i];
             q in Candidates(h, byName[c.owner], OtherEnd(byName, c), c) && Acceptable(h, byName, placed, i, q)
    ensures FlipTarget(h, byName, placed, i).Some?
    ensures var c, p := placed[i], FlipTarget(h, byName, placed, i).value;
            LinkDistance(h, byName, c, p) - LinkDistance(h, byName, c, q)
            <= (OwnerDistance(h, byName, c, q) - OwnerDistance(h, byName, c, p)) / 10.0
    ensures var c, p := placed[i], FlipTarget(h, byName, placed, i).value;
            IsHypot(h) ==> LinkDistance(h, byName, c, p) <= LinkDistance(h, byName, c, q) + 12.0
  {
    hide FlipTarget, Candidates, DistToLink, ChipBoxHit, ChipChipHit, InFrame;
    var c := placed[i];
    var cands := Candidates(h, byName[c.owner], OtherEnd(byName, c), c);
    FlipTargetIsBest(h, byName, placed, i);
    var j :| 0 <= j < |cands| && cands[j] == q;
    var k: nat :| IsFirstLeast(h, byName, placed, i, cands, k) && FlipTarget(h, byName, placed, i).value == cands[k];
    assert Score(h, byName[c.owner], OtherEnd(byName, c), cands[k]) <= Score(h, byName[c.owner], OtherEnd(byName, c), cands[j]);
  }

  lemma FlipTargetAcceptable(h: Hypot, byName: Boxes, placed: seq<PlacedChip>, i: nat)
    requires i < |placed|
    ensures AcceptableTarget(h, byName, placed, i, FlipTarget(h, byName, placed, i))
    ensures FlipTarget(h, byName, placed, i).Some? ==> FlipDue(byName, placed[i])
  {
    hide Acceptable, Best, Candidates;
    if FlipDue(byName, placed[i]) {
      FlipTargetIsBest(h, byName, placed, i);
    }
  }

  /** Main result: flipping only repairs. */
  lemma {:induction false} FlipRepairs(h: Hypot, byName: Boxes, placed: seq<PlacedChip>, n: nat)
    requires n <= |placed|
    ensures Repairs(placed, Flipped(h, byName, placed, n), byName)
    ensures MovedOnlyIfDue(h, byName, c => FlipDue(byName, c), placed, Flipped(h, byName, placed, n), n)
    decreases n
  {
    hide FlipTarget, Repairs, AcceptableTarget, FlipDue, ChipRepair.MovedTo;
    if n == 0 {
      SelfRepairs(placed, byName);
    } else {
      var due := c => FlipDue(byName, c);
      FlipRepairs(h, byName, placed, n - 1);
      var r := Flipped(h, byName, placed, n - 1);
      var target := FlipTarget(h, byName, r, n - 1);
      FlipTargetAcceptable(h, byName, r, n - 1);
      MoveRepairs(h, byName, r, n - 1, target);
      RepairsTransitive(placed, r, ChipRepair.MovedTo(r, n - 1, target), byName);
      MoveKeepsDue(h, byName, due, placed, r, n - 1, target);
    }
  }

  lemma SelfRepairs(placed: seq<PlacedChip>, byName: Boxes)
    ensures Repairs(placed, placed, byName)
  {
  }

  // ---------------------------------------------------------------------------
  // unshoveChips
  // ---------------------------------------------------------------------------

  function StepAt(start: real, k: nat): real {
    start + 2.0 * k as real
  }

  ghost predicate AcceptableAt(h: Hypot, byName: Boxes, placed: seq<PlacedChip>, i: nat, ray: Ray, d: real)
    requires i < |placed| && placed[i].owner in byName && ray.len != 0.0
  {
    Acceptable(h, byName, placed, i, OnRay(byName[placed[i].owner], ray, d))
  }

  /** The walk stops at its first acceptable step; it fails only if none within reach is acceptable. */
  ghost predicate StopsFirst(h: Hypot, byName: Boxes, placed: seq<PlacedChip>, i: nat, ray: Ray, start: real, target: Option<Point>)
    requires i < |placed| && placed[i].owner in byName && ray.len != 0.0
  {
    match target
    case None => forall k: nat :: StepAt(start, k) <= REACH ==> !AcceptableAt(h, byName, placed, i, ray, StepAt(start, k))
    case Some(p) => exists k: nat :: StopsAt(h, byName, placed, i, ray, start, p, k)
  }

  ghost predicate StopsAt(h: Hypot, byName: Boxes, placed: seq<PlacedChip>, i: nat, ray: Ray, start: real, p: Point, k: nat)
    requires i < |placed| && placed[i].owner in byName && ray.len != 0.0
  {
    && StepAt(start, k) <= REACH && p == OnRay(byName[placed[i].owner], ray, StepAt(start, k))
    && AcceptableAt(h, byName, placed, i, ray, StepAt(start, k))
    && forall m: nat :: m < k ==> !AcceptableAt(h, byName, placed, i, ray, StepAt(start, m))
  }

  lemma {:induction false} WalkStopsFirst(h: Hypot, byName: Boxes, placed: seq<PlacedChip>, i: nat, ray: Ray, start: real)
    requires i < |placed| && placed[i].owner in byName && ray.len != 0.0
    ensures StopsFirst(h, byName, placed, i, ray, start, FirstClear(h, byName, placed, i, ray, start))
    decreases REACH - start
  {
    hide Acceptable, OnRay;
    if start <= REACH {
      assert StepAt(start, 0) == start;
      var target := FirstClear(h, byName, placed, i, ray, start);
      if AcceptableAt(h, byName, placed, i, ray, start) {
        assert StopsAt(h, byName, placed, i, ray, start, target.value, 0);
      } else {
        WalkStopsFirst(h, byName, placed, i, ray, start + 2.0);
        assert forall m: nat :: m > 0 ==> StepAt(start, m) == StepAt(start + 2.0, m - 1);
        if target.Some? {
          var k: nat :| StopsAt(h, byName, placed, i, ray, start + 2.0, target.value, k);
          assert StepAt(start, k + 1) == StepAt(start + 2.0, k);
          assert StopsAt(h, byName, placed, i, ray, start, target.value, k + 1);
        }
      }
    } else {
      assert forall k: nat :: StepAt(start, k) > REACH;
    }
  }

  lemma UnshoveTargetAcceptable(h: Hypot, byName: Boxes, placed: seq<PlacedChip>, i: nat)
    requires i < |placed|
    ensures AcceptableTarget(h, byName, placed, i, UnshoveTarget(h, byName, placed, i))
    ensures UnshoveTarget(h, byName, placed, i).Some? ==> UnshoveDue(byName, placed[i])
  {
    var c := placed[i];
    if UnshoveDue(byName, c) {
      OwnBoxNeedsOwner(c, byName);
      hide Acceptable, FirstClear, OwnBoxHit, OnRay, StepAt;
      var ray := RayOf(h, byName[c.owner], c);
      WalkStopsFirst(h, byName, placed, i, ray, ray.len + 2.0);
    }
  }

  /** Main result: unshoving only repairs. */
  lemma {:induction false} UnshoveRepairs(h: Hypot, byName: Boxes, placed: seq<PlacedChip>, n: nat)
    requires n <= |placed|
    ensures Repairs(placed, Unshoved(h, byName, placed, n), byName)
    ensures MovedOnlyIfDue(h, byName, c => UnshoveDue(byName, c), placed, Unshoved(h, byName, placed, n), n)
    decreases n
  {
    hide UnshoveTarget, Repairs, AcceptableTarget, UnshoveDue, ChipRepair.MovedTo;
    if n == 0 {
      SelfRepairs(placed, byName);
    } else {
      var due := c => UnshoveDue(byName, c);
      UnshoveRepairs(h, byName, placed, n - 1);
      var r := Unshoved(h, byName, placed, n - 1);
      var target := UnshoveTarget(h, byName, r, n - 1);
      UnshoveTargetAcceptable(h, byName, r, n - 1);
      MoveRepairs(h, byName, r, n - 1, target);
      RepairsTransitive(placed, r, ChipRepair.MovedTo(r, n - 1, target), byName);
      MoveKeepsDue(h, byName, due, placed, r, n - 1, target);
    }
  }

  // ---------------------------------------------------------------------------
  // Distances
  // ---------------------------------------------------------------------------

  lemma Quotient(x: real, len: real, u: real)
    requires len != 0.0 && u == Over(x, len)
    ensures u * len == x
  {
  }

  /** A point at distance `d` along a direction has distance `d`. */
  lemma AlongDistance(h: Hypot, o: NodeShape, dx: real, dy: real, len: real, d: real)
    requires IsHypot(h) && len > 0.0 && Sq(len) == Sq(dx) + Sq(dy) && d >= 0.0
    ensures var p := Along(o.cx, o.cy, dx, dy, len, d); h(p.0 - o.cx, p.1 - o.cy) == d
  {
    var u, v := Over(dx, len), Over(dy, len);
    Quotient(dx, len, u);
    Quotient(dy, len, v);
    hide Over;
    UnitVector(dx, dy, len, u, v);
    ScaleUnit(u, v, d);
    SameLength(h, u * d, v * d, d);
    var p := Along(o.cx, o.cy, dx, dy, len, d);
    assert p.0 - o.cx == u * d && p.1 - o.cy == v * d;
  }

  /** The three turns of a chip round its owner keep its distance from it: the first is opposite the chip, the
      other two are at right angles to it, opposite each other. */
  lemma TurnsKeepRadius(h: Hypot, owner: NodeShape, c: PlacedChip, k: nat)
    requires IsHypot(h) && k < 3
    ensures var p := Turned(owner, c)[k];
            && h(p.0 - owner.cx, p.1 - owner.cy) == h(c.cx - owner.cx, c.cy - owner.cy)
            && (k == 0 ==> p.0 + c.cx == 2.0 * owner.cx && p.1 + c.cy == 2.0 * owner.cy)
            && (k > 0 ==> Dot(p.0 - owner.cx, p.1 - owner.cy, c.cx - owner.cx, c.cy - owner.cy) == 0.0)
    ensures var p, q := Turned(owner, c)[1], Turned(owner, c)[2];
            p.0 + q.0 == 2.0 * owner.cx && p.1 + q.1 == 2.0 * owner.cy
  {
    var cdx, cdy := c.cx - owner.cx, c.cy - owner.cy;
    var p := Turned(owner, c)[k];
    assert (p.0 - owner.cx, p.1 - owner.cy) == (-cdx, -cdy)
        || (p.0 - owner.cx, p.1 - owner.cy) == (-cdy, cdx)
        || (p.0 - owner.cx, p.1 - owner.cy) == (cdy, -cdx);
    SqNegate(cdx);
    SqNegate(cdy);
    SameLength(h, p.0 - owner.cx, p.1 - owner.cy, h(cdx, cdy));
  }

  /** The places along the link are 24, 32, ..., 120 px from the owner's centre: never out of reach. */
  lemma SlidesWithinReach(h: Hypot, owner: NodeShape, other: NodeShape, c: PlacedChip, k: nat)
    requires IsHypot(h) && 4 <= k < |Candidates(h, owner, other, c)|
    ensures var p := Candidates(h, owner, other, c)[k];
            && h(p.0 - owner.cx, p.1 - owner.cy) == SlideAt(k - 4)
            && 24.0 <= SlideAt(k - 4) <= REACH
  {
    hide Along;
    var dx, dy := other.cx - owner.cx, other.cy - owner.cy;
    AlongDistance(h, owner, dx, dy, h(dx, dy), SlideAt(k - 4));
  }

  /** Main result: an unshoved chip moves strictly away from its owner, to the distance of its step. */
  lemma UnshoveMovesOutward(h: Hypot, byName: Boxes, placed: seq<PlacedChip>, i: nat)
    requires IsHypot(h) && i < |placed| && UnshoveTarget(h, byName, placed, i).Some?
    ensures placed[i].owner in byName
    ensures var owner, c, p := byName[placed[i].owner], placed[i], UnshoveTarget(h, byName, placed, i).value;
            && h(p.0 - owner.cx, p.1 - owner.cy) >= h(c.cx - owner.cx, c.cy - owner.cy) + 2.0
            && StopsFirst(h, byName, placed, i, RayOf(h, owner, c), RayOf(h, owner, c).len + 2.0, Some(p))
  {
    var c := placed[i];
    OwnBoxNeedsOwner(c, byName);
    var owner := byName[c.owner];
    var p := UnshoveTarget(h, byName, placed, i).value;
    var ray := RayOf(h, owner, c);
    RayIsHypot(h, owner, c);
    hide OwnBoxHit, Acceptable, FirstClear, RayOf, Along, IsHypot;
    WalkStopsFirst(h, byName, placed, i, ray, ray.len + 2.0);
    var k: nat :| StopsAt(h, byName, placed, i, ray, ray.len + 2.0, p, k);
    AlongDistance(h, owner, ray.dx, ray.dy, ray.len, StepAt(ray.len + 2.0, k));
  }

  lemma RayIsHypot(h: Hypot, owner: NodeShape, c: PlacedChip)
    requires IsHypot(h)
    ensures var ray := RayOf(h, owner, c);
            && ray.len > 0.0 && Sq(ray.len) == Sq(ray.dx) + Sq(ray.dy)
            && ray.len >= h(c.cx - owner.cx, c.cy - owner.cy)
  {
    assert Sq(1.0) == Sq(0.0) + Sq(-1.0);
  }

  // ---------------------------------------------------------------------------
  // The distance to a link
  // ---------------------------------------------------------------------------

  function Quad(l2: real, dot: real, t: real): real {
    t * (t * l2 - 2.0 * dot)
  }

  /** Over [0, 1] the quadratic is least at dot / l2, clamped. */
  lemma ClampIsOptimal(dot: real, l2: real, q: real, best: real, t: real)
    requires l2 > 0.0 && q * l2 == dot && best == Max(0.0, Min(1.0, q)) && 0.0 <= t <= 1.0
    ensures Quad(l2, dot, best) <= Quad(l2, dot, t)
  {
    var e := t + best - 2.0 * q;
    var rise := (t - best) * e;
    if q < 0.0 {
      ProductNonNegative(t, e, rise);
    } else if q > 1.0 {
      ProductNonNegative(1.0 - t, -e, rise);
    } else {
      SqSign(t - best);
      assert e == t - best && rise == Sq(t - best);
    }
    QuadDifference(l2, dot, q, best, t, e, rise);
    ProductNonNegative(l2, rise, rise * l2);
  }

  lemma ProductNonNegative(a: real, b: real, p: real)
    requires a >= 0.0 && b >= 0.0 && p == a * b
    ensures p >= 0.0
  {
    MulMono(a, 0.0, b);
  }

  lemma QuadDifference(l2: real, dot: real, q: real, best: real, t: real, e: real, rise: real)
    requires q * l2 == dot && e == t + best - 2.0 * q && rise == (t - best) * e
    ensures Quad(l2, dot, t) - Quad(l2, dot, best) == rise * l2
  {
    assert e * l2 == (t + best) * l2 - 2.0 * dot;
    assert rise * l2 == (t - best) * (e * l2);
  }

  /** The squared distance from (wx, wy) to t times (dx, dy). */
  function SquaredAt(wx: real, wy: real, dx: real, dy: real, t: real): real {
    Sq(wx - t * dx) + Sq(wy - t * dy)
  }

  lemma SquareOfDifference(w: real, d: real, t: real)
    ensures Sq(w - t * d) == Sq(w) + t * (t * (d * d) - 2.0 * (w * d))
  {
    var e := t * d;
    assert Sq(w - e) == Sq(w) - 2.0 * (w * e) + e * e;
    assert w * e == t * (w * d);
    assert e * e == t * (t * (d * d));
  }

  lemma ExpandSquares(wx: real, wy: real, dx: real, dy: real, t: real)
    ensures SquaredAt(wx, wy, dx, dy, t) == Sq(wx) + Sq(wy) + Quad(Dot(dx, dy, dx, dy), Dot(wx, wy, dx, dy), t)
  {
    SquareOfDifference(wx, dx, t);
    SquareOfDifference(wy, dy, t);
    AddQuads(dx * dx, dy * dy, wx * dx, wy * dy, t);
  }

  lemma AddQuads(a: real, b: real, c: real, d: real, t: real)
    ensures Quad(a, c, t) + Quad(b, d, t) == Quad(a + b, c + d, t)
  {
  }

  lemma SqMonotone(a: real, b: real)
    requires a >= 0.0 && b >= 0.0 && Sq(a) <= Sq(b)
    ensures a <= b
  {
    if b < a {
      StrictSq(b, a);
    }
  }

  lemma NullVector(dx: real, dy: real)
    ensures Dot(dx, dy, dx, dy) >= 0.0
    ensures Dot(dx, dy, dx, dy) == 0.0 ==> dx == 0.0 && dy == 0.0
  {
    SqSign(dx);
    SqSign(dy);
    assert Dot(dx, dy, dx, dy) == Sq(dx) + Sq(dy);
  }

  /** The distance from (px, py) to the point of the segment at the fraction t. */
  function DistAt(h: Hypot, px: real, py: real, ax: real, ay: real, bx: real, by': real, t: real): real {
    h(px - Lerp(ax, bx, t), py - Lerp(ay, by', t))
  }

  lemma DistSquared(h: Hypot, px: real, py: real, ax: real, ay: real, bx: real, by': real, t: real)
    requires IsHypot(h)
    ensures DistAt(h, px, py, ax, ay, bx, by', t) >= 0.0
    ensures Sq(DistAt(h, px, py, ax, ay, bx, by', t)) == SquaredAt(px - ax, py - ay, bx - ax, by' - ay, t)
  {
    assert px - Lerp(ax, bx, t) == px - ax - t * (bx - ax);
    assert py - Lerp(ay, by', t) == py - ay - t * (by' - ay);
  }

  lemma AtFoot(h: Hypot, px: real, py: real, ax: real, ay: real, bx: real, by': real)
    ensures 0.0 <= Foot(px, py, ax, ay, bx, by') <= 1.0
    ensures DistToLink(h, px, py, ax, ay, bx, by') == DistAt(h, px, py, ax, ay, bx, by', Foot(px, py, ax, ay, bx, by'))
  {
    hide Over, Dot;
    assert Lerp(ax, bx, 0.0) == ax && Lerp(ay, by', 0.0) == ay;
  }

  /** No point of the segment is closer than the foot. */
  lemma FootIsClosest(px: real, py: real, ax: real, ay: real, bx: real, by': real, t: real)
    requires 0.0 <= t <= 1.0
    ensures SquaredAt(px - ax, py - ay, bx - ax, by' - ay, Foot(px, py, ax, ay, bx, by'))
         <= SquaredAt(px - ax, py - ay, bx - ax, by' - ay, t)
  {
    var dx, dy, wx, wy := bx - ax, by' - ay, px - ax, py - ay;
    var l2, dot := Dot(dx, dy, dx, dy), Dot(wx, wy, dx, dy);
    var best := Foot(px, py, ax, ay, bx, by');
    NullVector(dx, dy);
    if l2 == 0.0 {
      assert SquaredAt(wx, wy, 0.0, 0.0, best) == SquaredAt(wx, wy, 0.0, 0.0, t);
    } else {
      Quotient(dot, l2, Over(dot, l2));
      hide Over, Dot, SquaredAt, Quad;
      ClampIsOptimal(dot, l2, Over(dot, l2), best, t);
      ExpandSquares(wx, wy, dx, dy, best);
      ExpandSquares(wx, wy, dx, dy, t);
    }
  }

  /** distToLink is the distance to the segment: attained at one of its points and nowhere less. */
  lemma DistToLinkIsLeast(h: Hypot, px: real, py: real, ax: real, ay: real, bx: real, by': real)
    requires IsHypot(h)
    ensures var d := DistToLink(h, px, py, ax, ay, bx, by');
            && (exists t :: 0.0 <= t <= 1.0 && d == DistAt(h, px, py, ax, ay, bx, by', t))
            && (forall t :: 0.0 <= t <= 1.0 ==> d <= DistAt(h, px, py, ax, ay, bx, by', t))
  {
    var best := Foot(px, py, ax, ay, bx, by');
    var d := DistToLink(h, px, py, ax, ay, bx, by');
    AtFoot(h, px, py, ax, ay, bx, by');
    DistSquared(h, px, py, ax, ay, bx, by', best);
    hide Foot, DistToLink, DistAt, SquaredAt, Sq, IsHypot;
    forall t | 0.0 <= t <= 1.0 ensures d <= DistAt(h, px, py, ax, ay, bx, by', t) {
      DistSquared(h, px, py, ax, ay, bx, by', t);
      FootIsClosest(px, py, ax, ay, bx, by', t);
      SqMonotone(d, DistAt(h, px, py, ax, ay, bx, by', t));
    }
  }
}
