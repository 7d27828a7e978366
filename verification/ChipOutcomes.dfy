/**
 When flipChips and unshoveChips of tools/topogen/render.go move a chip, and where to, in the terms of the
 drawing gate of tools/topogen/qa_geometry.py.
 */
module ChipOutcomes {
  import opened Reals
  import opened Shapes
  import opened Chips
  import opened Wrappers
  import opened LayoutCheck
  import opened ChipRepair
  import opened ChipSafety
  import opened ChipGate

  /** At `p` the i-th chip can be read: no node hides it, it is inside the canvas between header and legend, at most
      120 px from its owner, and on no other chip. */
  ghost predicate Readable(h: Hypot, byName: Boxes, placed: seq<PlacedChip>, i: nat, p: Point)
    requires i < |placed| && placed[i].owner in byName
  {
    && !GateHidden(p, placed[i].owner, byName)
    && 21.0 <= p.0 <= 699.0 && 49.0 <= p.1 <= 396.0
    && h(p.0 - byName[placed[i].owner].cx, p.1 - byName[placed[i].owner].cy) <= 120.0
    && forall j :: 0 <= j < |placed| && j != i ==> Abs(placed[j].cx - p.0) >= 42.0 || Abs(placed[j].cy - p.1) >= 18.0
  }

  lemma AcceptableExactly(h: Hypot, byName: Boxes, placed: seq<PlacedChip>, i: nat, p: Point)
    requires i < |placed| && placed[i].owner in byName
    ensures Acceptable(h, byName, placed, i, p) <==> Readable(h, byName, placed, i, p)
  {
    RendererAgreesWithGate(p, placed[i].owner, byName, placed[i], placed[i]);
    hide ChipBoxHit, GateHidden;
    assert forall j :: 0 <= j < |placed| ==>
        (Covers(placed[j], p.0, p.1) <==> Abs(placed[j].cx - p.0) < 42.0 && Abs(placed[j].cy - p.1) < 18.0);
  }

  // ---------------------------------------------------------------------------
  // flipChips
  // ---------------------------------------------------------------------------

  /** The place `q`, seen from the owner, is at distance `d` in the direction of (dx, dy), whose length is `len`. */
  predicate InDirection(owner: NodeShape, dx: real, dy: real, len: real, d: real, q: Point) {
    len * (q.0 - owner.cx) == d * dx && len * (q.1 - owner.cy) == d * dy
  }

  predicate OnLinkAt(h: Hypot, owner: NodeShape, other: NodeShape, k: nat, q: Point) {
    var dx, dy := other.cx - owner.cx, other.cy - owner.cy;
    InDirection(owner, dx, dy, h(dx, dy), 24.0 + 8.0 * k as real, q)
  }

  ghost predicate OnLink(h: Hypot, owner: NodeShape, other: NodeShape, q: Point) {
    h(other.cx - owner.cx, other.cy - owner.cy) > 0.0 && exists k: nat :: k <= 12 && OnLinkAt(h, owner, other, k, q)
  }

  /** The places tried: opposite the chip, at right angles to it on either side, its anchor, and on the link at
      24, 32, ..., 120 px from the owner. */
  ghost predicate Tried(h: Hypot, owner: NodeShape, other: NodeShape, c: PlacedChip, q: Point) {
    var x, y := q.0 - owner.cx, q.1 - owner.cy;
    || (x == owner.cx - c.cx && y == owner.cy - c.cy)
    || (x == owner.cy - c.cy && y == c.cx - owner.cx)
    || (x == c.cy - owner.cy && y == owner.cx - c.cx)
    || q == (c.anchorX, c.anchorY)
    || OnLink(h, owner, other, q)
  }

  lemma AlongInDirection(owner: NodeShape, dx: real, dy: real, len: real, d: real, q: Point)
    requires len != 0.0
    ensures q == Along(owner.cx, owner.cy, dx, dy, len, d) <==> InDirection(owner, dx, dy, len, d, q)
  {
    OnAxis(dx, len, d, q.0 - owner.cx);
    OnAxis(dy, len, d, q.1 - owner.cy);
    hide Over;
  }

  lemma OnAxis(x: real, len: real, d: real, y: real)
    requires len != 0.0
    ensures y == Over(x, len) * d <==> len * y == d * x
  {
    var u := Over(x, len);
    Quotient(x, len, u);
    hide Over;
    assert d * (u * len) == d * x;
    assert len * (u * d) == d * (u * len);
    if len * y == d * x {
      Cancel(len, y, u * d);
    }
  }

  lemma Cancel(len: real, a: real, b: real)
    requires len != 0.0 && len * a == len * b
    ensures a == b
  {
    assert len * (a - b) == 0.0;
  }

  lemma SlidesExactly(h: Hypot, owner: NodeShape, other: NodeShape, c: PlacedChip, q: Point)
    ensures OnLink(h, owner, other, q) <==> q in Candidates(h, owner, other, c)[4..]
  {
    hide Along, InDirection;
    var dx, dy := other.cx - owner.cx, other.cy - owner.cy;
    var slides := Candidates(h, owner, other, c)[4..];
    if h(dx, dy) > 0.0 {
      assert |slides| == 13;
      forall k: nat | k <= 12
        ensures slides[k] == q <==> OnLinkAt(h, owner, other, k, q)
      {
        AlongInDirection(owner, dx, dy, h(dx, dy), SlideAt(k), q);
      }
      hide OnLinkAt;
      if OnLink(h, owner, other, q) {
        var k: nat :| k <= 12 && OnLinkAt(h, owner, other, k, q);
        assert slides[k] == q;
      }
    } else {
      assert slides == [];
    }
  }

  lemma CandidatesExactly(h: Hypot, owner: NodeShape, other: NodeShape, c: PlacedChip, q: Point)
    ensures q in Candidates(h, owner, other, c) <==> Tried(h, owner, other, c, q)
  {
    var cands := Candidates(h, owner, other, c);
    SlidesExactly(h, owner, other, c, q);
    assert cands == Turned(owner, c) + cands[4..];
    hide Candidates, OnLink;
  }

  /** Main result: a chip is flipped exactly if a node hides it and one of the places tried is readable, and then it
      goes to such a place. */
  lemma FlipsExactly(h: Hypot, byName: Boxes, placed: seq<PlacedChip>, i: nat)
    requires i < |placed|
    ensures var c, target := placed[i], FlipTarget(h, byName, placed, i);
            if c.owner !in byName || !GateHidden((c.cx, c.cy), c.owner, byName) then target == None
            else
              var owner, other := byName[c.owner], if c.other.name in byName then byName[c.other.name] else c.other;
              match target
              case None => forall q :: Tried(h, owner, other, c, q) ==> !Readable(h, byName, placed, i, q)
              case Some(p) => Tried(h, owner, other, c, p) && Readable(h, byName, placed, i, p)
  {
    hide Candidates, Readable, Acceptable, Tried, GateHidden, ChipBoxHit, Best, Score;
    var c := placed[i];
    RendererAgreesWithGate((c.cx, c.cy), c.owner, byName, c, c);
    if FlipDue(byName, c) {
      FlipTargetIsBest(h, byName, placed, i);
      var cands := Candidates(h, byName[c.owner], OtherEnd(byName, c), c);
      forall q
        ensures q in cands <==> Tried(h, byName[c.owner], OtherEnd(byName, c), c, q)
        ensures Acceptable(h, byName, placed, i, q) <==> Readable(h, byName, placed, i, q)
      {
        CandidatesExactly(h, byName[c.owner], OtherEnd(byName, c), c, q);
        AcceptableExactly(h, byName, placed, i, q);
      }
      hide FlipTarget;
    }
  }

  // ---------------------------------------------------------------------------
  // unshoveChips
  // ---------------------------------------------------------------------------

  /** The place `q` lies at distance `d` from the owner behind the chip; straight up if the chip is in its middle. */
  predicate Behind(h: Hypot, owner: NodeShape, c: PlacedChip, d: real, q: Point) {
    var dx, dy := c.cx - owner.cx, c.cy - owner.cy;
    if h(dx, dy) == 0.0 then q == (owner.cx, owner.cy - d) else InDirection(owner, dx, dy, h(dx, dy), d, q)
  }

  /** The distance of the k-th step of the walk. */
  function Out(h: Hypot, owner: NodeShape, c: PlacedChip, k: nat): real {
    var len := h(c.cx - owner.cx, c.cy - owner.cy);
    (if len == 0.0 then 1.0 else len) + 2.0 * (k + 1) as real
  }

  /** The k-th step of the walk is still within reach, leads to `q`, and `q` is readable. */
  ghost predicate Reaches(h: Hypot, byName: Boxes, placed: seq<PlacedChip>, i: nat, k: nat, q: Point)
    requires i < |placed| && placed[i].owner in byName
  {
    var owner, c := byName[placed[i].owner], placed[i];
    && Out(h, owner, c, k) <= 120.0
    && Behind(h, owner, c, Out(h, owner, c, k), q) && Readable(h, byName, placed, i, q)
  }

  lemma BehindIsOnRay(h: Hypot, owner: NodeShape, c: PlacedChip, d: real, q: Point)
    ensures Behind(h, owner, c, d, q) <==> q == OnRay(owner, RayOf(h, owner, c), d)
  {
    var ray := RayOf(h, owner, c);
    AlongInDirection(owner, ray.dx, ray.dy, ray.len, d, q);
    hide Along;
  }

  lemma ReachesExactly(h: Hypot, byName: Boxes, placed: seq<PlacedChip>, i: nat, k: nat, q: Point)
    requires i < |placed| && placed[i].owner in byName
    ensures var owner, c := byName[placed[i].owner], placed[i];
            var ray := RayOf(h, owner, c);
            && StepAt(ray.len + 2.0, k) == Out(h, owner, c, k)
            && (Reaches(h, byName, placed, i, k, q) <==>
                  && StepAt(ray.len + 2.0, k) <= REACH && q == OnRay(owner, ray, StepAt(ray.len + 2.0, k))
                  && AcceptableAt(h, byName, placed, i, ray, StepAt(ray.len + 2.0, k)))
  {
    hide Readable, Acceptable, OnRay, Behind;
    var owner, c := byName[placed[i].owner], placed[i];
    BehindIsOnRay(h, owner, c, Out(h, owner, c, k), q);
    AcceptableExactly(h, byName, placed, i, q);
  }

  /** Main result: a chip is unshoved exactly if its own node hides it at its rounded place and some step of the walk
      reaches a readable place; it goes to the first such place. */
  lemma UnshovesExactly(h: Hypot, byName: Boxes, placed: seq<PlacedChip>, i: nat)
    requires i < |placed|
    ensures var c, target := placed[i], UnshoveTarget(h, byName, placed, i);
            if c.owner !in byName || !GatePokes((Round(c.cx), Round(c.cy)), BoxOf(byName[c.owner]), 6.0) then target == None
            else
              match target
              case None => forall k: nat, q :: !Reaches(h, byName, placed, i, k, q)
              case Some(p) => exists k: nat :: Reaches(h, byName, placed, i, k, p)
                                               && forall m: nat, q :: m < k ==> !Reaches(h, byName, placed, i, m, q)
  {
    var c := placed[i];
    if c.owner in byName {
      PokesAgree((Round(c.cx), Round(c.cy)), byName[c.owner], 6.0);
      var owner := byName[c.owner];
      var ray := RayOf(h, owner, c);
      var start := ray.len + 2.0;
      hide GatePokes, Pokes, Round, Reaches, AcceptableAt, OnRay, RayOf, FirstClear;
      forall k: nat, q
        ensures Reaches(h, byName, placed, i, k, q) <==>
                && StepAt(start, k) <= REACH && q == OnRay(owner, ray, StepAt(start, k))
                && AcceptableAt(h, byName, placed, i, ray, StepAt(start, k))
      {
        ReachesExactly(h, byName, placed, i, k, q);
      }
      WalkStopsFirst(h, byName, placed, i, ray, start);
      var target := FirstClear(h, byName, placed, i, ray, start);
      if target.Some? {
        var k: nat :| StopsAt(h, byName, placed, i, ray, start, target.value, k);
        assert Reaches(h, byName, placed, i, k, target.value);
      }
    }
  }
}
