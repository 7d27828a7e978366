/**
 relaxChips of tools/topogen/render.go: overlapping chips push each other apart, then every
 chip drifts back towards its anchor, for at most eight rounds.
 */
module Relax {
  import opened Reals
  import opened Shapes
  import opened Chips

  const ITERATIONS := 8

  type Hypot = (real, real) -> real

  // ---------------------------------------------------------------------------
  // One push
  // ---------------------------------------------------------------------------

  /** The vector from `a` to `b` along which they are pushed; to the right when they coincide. */
  function Direction(a: PlacedChip, b: PlacedChip): (real, real) {
    var dx, dy := b.cx - a.cx, b.cy - a.cy;
    if dx == 0.0 && dy == 0.0 then (1.0, 0.0) else (dx, dy)
  }

  /** How far the pair is pushed apart in all. */
  function PushBy(a: PlacedChip, b: PlacedChip): real {
    var (dx, dy) := Direction(a, b);
    Max(CHIP_W - Abs(dx), CHIP_H - Abs(dy)) + 2.0
  }

  /** A coordinate of the unit vector, times `k`. */
  function Scaled(x: real, len: real, k: real): real
    requires len != 0.0
  {
    x / len * k
  }

  /** Half of the push, as a vector. */
  function HalfPush(h: Hypot, a: PlacedChip, b: PlacedChip): (real, real)
    requires IsHypot(h)
  {
    var (dx, dy) := Direction(a, b);
    HypotPositive(h, dx, dy);
    var len := h(dx, dy);
    var half := PushBy(a, b) / 2.0;
    (Scaled(dx, len, half), Scaled(dy, len, half))
  }

  function PushPair(h: Hypot, chips: seq<PlacedChip>, i: nat, j: nat): (r: seq<PlacedChip>)
    requires IsHypot(h) && i < j < |chips|
    ensures |r| == |chips|
  {
    var a, b := chips[i], chips[j];
    if !ChipsOverlap(a, b) then chips
    else
      var (vx, vy) := HalfPush(h, a, b);
      chips[i := a.(cx := a.cx - vx, cy := a.cy - vy)][j := b.(cx := b.cx + vx, cy := b.cy + vy)]
  }

  // ---------------------------------------------------------------------------
  // Rounds
  // ---------------------------------------------------------------------------

  /** The pairs (i, i+1), ..., (i, n-1) in turn. */
  function RowPass(h: Hypot, chips: seq<PlacedChip>, i: nat, n: nat): (r: seq<PlacedChip>)
    requires IsHypot(h) && i < n <= |chips|
    ensures |r| == |chips|
    decreases n
  {
    if n == i + 1 then chips else PushPair(h, RowPass(h, chips, i, n - 1), i, n - 1)
  }

  predicate RowMoves(h: Hypot, chips: seq<PlacedChip>, i: nat, n: nat)
    requires IsHypot(h) && i < n <= |chips|
    decreases n
  {
    n > i + 1
    && (RowMoves(h, chips, i, n - 1)
        || ChipsOverlap(RowPass(h, chips, i, n - 1)[i], RowPass(h, chips, i, n - 1)[n - 1]))
  }

  /** The rows of the first `m` chips. */
  function Pass(h: Hypot, chips: seq<PlacedChip>, m: nat): (r: seq<PlacedChip>)
    requires IsHypot(h) && m <= |chips|
    ensures |r| == |chips|
  {
    if m == 0 then chips else RowPass(h, Pass(h, chips, m - 1), m - 1, |chips|)
  }

  predicate PassMoves(h: Hypot, chips: seq<PlacedChip>, m: nat)
    requires IsHypot(h) && m <= |chips|
  {
    m > 0 && (PassMoves(h, chips, m - 1) || RowMoves(h, Pass(h, chips, m - 1), m - 1, |chips|))
  }

  function Pulled(c: PlacedChip): PlacedChip {
    c.(cx := c.cx + (c.anchorX - c.cx) * 0.2, cy := c.cy + (c.anchorY - c.cy) * 0.2)
  }

  function Pull(chips: seq<PlacedChip>): (r: seq<PlacedChip>)
    ensures |r| == |chips| && forall i :: 0 <= i < |r| ==> r[i] == Pulled(chips[i])
  {
    seq(|chips|, i requires 0 <= i < |chips| => Pulled(chips[i]))
  }

  function Relaxed(h: Hypot, chips: seq<PlacedChip>, rounds: nat): (r: seq<PlacedChip>)
    requires IsHypot(h)
    ensures |r| == |chips|
    decreases rounds
  {
    if rounds == 0 then chips
    else
      var r := Pass(h, chips, |chips|);
      if PassMoves(h, chips, |chips|) then Relaxed(h, Pull(r), rounds - 1) else r
  }

  method PushVector(h: Hypot, a: PlacedChip, b: PlacedChip) returns (vx: real, vy: real)
    requires IsHypot(h)
    ensures (vx, vy) == HalfPush(h, a, b)
  {
    var dx, dy := b.cx - a.cx, b.cy - a.cy;
    if dx == 0.0 && dy == 0.0 {
      dx, dy := 1.0, 0.0;
    }
    HypotPositive(h, dx, dy);
    hide IsHypot, Scaled;
    var len := h(dx, dy);
    var overlapX := CHIP_W - Abs(dx);
    var overlapY := CHIP_H - Abs(dy);
    var overlap := Max(overlapX, overlapY) + 2.0;
    var half := overlap / 2.0;
    vx, vy := Scaled(dx, len, half), Scaled(dy, len, half);
  }

  method PushApart(h: Hypot, chips: array<PlacedChip>, i: nat, j: nat) returns (moved: bool)
    requires IsHypot(h) && i < j < chips.Length
    modifies chips
    ensures moved == ChipsOverlap(old(chips[i]), old(chips[j]))
    ensures chips[..] == PushPair(h, old(chips[..]), i, j)
  {
    hide HalfPush, IsHypot;
    var a, b := chips[i], chips[j];
    var dx := b.cx - a.cx;
    var dy := b.cy - a.cy;
    if Abs(dx) >= CHIP_W || Abs(dy) >= CHIP_H {
      return false;
    }
    var vx, vy := PushVector(h, a, b);
    chips[i] := a.(cx := a.cx - vx, cy := a.cy - vy);
    chips[j] := b.(cx := b.cx + vx, cy := b.cy + vy);
    moved := true;
  }

  method PullAll(chips: array<PlacedChip>)
    modifies chips
    ensures chips[..] == Pull(old(chips[..]))
  {
    for i := 0 to chips.Length
      invariant forall k :: 0 <= k < i ==> chips[k] == Pulled(old(chips[k]))
      invariant forall k :: i <= k < chips.Length ==> chips[k] == old(chips[k])
    {
      var c := chips[i];
      chips[i] := c.(cx := c.cx + (c.anchorX - c.cx) * 0.2, cy := c.cy + (c.anchorY - c.cy) * 0.2);
    }
  }

  method RelaxChips(h: Hypot, chips: array<PlacedChip>)
    requires IsHypot(h)
    modifies chips
    ensures chips[..] == Relaxed(h, old(chips[..]), 8)
  {
    hide PushPair, Pull, IsHypot, ChipsOverlap;
    for it := 0 to ITERATIONS
      invariant Relaxed(h, old(chips[..]), ITERATIONS) == Relaxed(h, chips[..], ITERATIONS - it)
    {
      ghost var start := chips[..];
      var moved := false;
      for i := 0 to chips.Length
        invariant chips[..] == Pass(h, start, i)
        invariant moved == PassMoves(h, start, i)
      {
        ghost var before := chips[..];
        for j := i + 1 to chips.Length
          invariant chips[..] == RowPass(h, before, i, j)
          invariant moved == (PassMoves(h, start, i) || RowMoves(h, before, i, j))
        {
          var pushed := PushApart(h, chips, i, j);
          moved := moved || pushed;
        }
      }
      if !moved {
        return;
      }
      PullAll(chips);
    }
  }

  // ---------------------------------------------------------------------------
  // A push spreads its pair
  // ---------------------------------------------------------------------------

  lemma ScaledSign(x: real, len: real, k: real)
    requires len > 0.0 && k > 0.0
    ensures (x >= 0.0 ==> Scaled(x, len, k) >= 0.0) && (x <= 0.0 ==> Scaled(x, len, k) <= 0.0)
  {
    var q := x / len;
    assert q * len == x;
    if x >= 0.0 && q < 0.0 {
      MulPositive(-q, len, -q * len);
    }
    if x <= 0.0 && q > 0.0 {
      MulPositive(q, len, q * len);
    }
    if q >= 0.0 {
      MulMono(k, 0.0, q);
    } else {
      MulMono(k, q, 0.0);
    }
  }

  /** Half a push points along the pair's direction. */
  lemma HalfPushPoints(h: Hypot, a: PlacedChip, b: PlacedChip)
    requires IsHypot(h) && ChipsOverlap(a, b)
    ensures var (vx, vy) := HalfPush(h, a, b);
            var (dx, dy) := Direction(a, b);
            && (dx >= 0.0 ==> vx >= 0.0) && (dx <= 0.0 ==> vx <= 0.0)
            && (dy >= 0.0 ==> vy >= 0.0) && (dy <= 0.0 ==> vy <= 0.0)
  {
    hide Scaled;
    var (dx, dy) := Direction(a, b);
    HypotPositive(h, dx, dy);
    assert PushBy(a, b) / 2.0 > 0.0;
    ScaledSign(dx, h(dx, dy), PushBy(a, b) / 2.0);
    ScaledSign(dy, h(dx, dy), PushBy(a, b) / 2.0);
  }

  /** The two chips move by opposite amounts, and away from each other in both coordinates. */
  lemma PushSpreads(h: Hypot, chips: seq<PlacedChip>, i: nat, j: nat)
    requires IsHypot(h) && i < j < |chips| && ChipsOverlap(chips[i], chips[j])
    ensures var r := PushPair(h, chips, i, j);
            && r[i].cx + r[j].cx == chips[i].cx + chips[j].cx
            && r[i].cy + r[j].cy == chips[i].cy + chips[j].cy
            && Abs(r[j].cx - r[i].cx) >= Abs(chips[j].cx - chips[i].cx)
            && Abs(r[j].cy - r[i].cy) >= Abs(chips[j].cy - chips[i].cy)
  {
    hide HalfPush;
    HalfPushPoints(h, chips[i], chips[j]);
  }

  lemma UnitTimes(x: real, len: real, k: real, u: real)
    requires len != 0.0 && u == x / len
    ensures u * len == x && Scaled(x, len, k) == u * k
  {
  }

  /** Stretching a vector of length `len` by twice `half` of its unit vector. */
  lemma Stretch(h: Hypot, dx: real, dy: real, len: real, half: real, vx: real, vy: real)
    requires IsHypot(h) && len > 0.0 && half > 0.0 && Sq(len) == Sq(dx) + Sq(dy)
    requires vx == Scaled(dx, len, half) && vy == Scaled(dy, len, half)
    ensures h(dx + 2.0 * vx, dy + 2.0 * vy) == len + 2.0 * half
    ensures h(2.0 * vx, 2.0 * vy) == 2.0 * half
  {
    var u, v := dx / len, dy / len;
    UnitTimes(dx, len, half, u);
    UnitTimes(dy, len, half, v);
    UnitVector(dx, dy, len, u, v);
    ScaleUnit(u, v, len + 2.0 * half);
    ScaleUnit(u, v, 2.0 * half);
    Distribute(u, len, half);
    Distribute(v, len, half);
    SameLength(h, u * (len + 2.0 * half), v * (len + 2.0 * half), len + 2.0 * half);
    SameLength(h, u * (2.0 * half), v * (2.0 * half), 2.0 * half);
  }

  lemma Distribute(u: real, len: real, half: real)
    ensures u * (len + 2.0 * half) == u * len + 2.0 * (u * half)
    ensures u * (2.0 * half) == 2.0 * (u * half)
  {
  }

  /** What two intervals of width `w`, centred at `a` and `b`, have in common. */
  function Common(a: real, b: real, w: real): real {
    Min(a + w / 2.0, b + w / 2.0) - Max(a - w / 2.0, b - w / 2.0)
  }

  /** A push makes the distance of the two centres larger by exactly the larger of the two overlaps of the labels,
      in x and in y, plus two. */
  lemma PushLengthens(h: Hypot, chips: seq<PlacedChip>, i: nat, j: nat)
    requires IsHypot(h) && i < j < |chips| && ChipsOverlap(chips[i], chips[j])
    ensures var r := PushPair(h, chips, i, j);
            h(r[j].cx - r[i].cx, r[j].cy - r[i].cy)
            == h(chips[j].cx - chips[i].cx, chips[j].cy - chips[i].cy)
               + (if chips[i].cx == chips[j].cx && chips[i].cy == chips[j].cy then 43.0
                  else Max(Common(chips[i].cx, chips[j].cx, 42.0), Common(chips[i].cy, chips[j].cy, 18.0)) + 2.0)
  {
    var a, b := chips[i], chips[j];
    var (dx, dy) := Direction(a, b);
    var (vx, vy) := HalfPush(h, a, b);
    HypotPositive(h, dx, dy);
    Stretch(h, dx, dy, h(dx, dy), PushBy(a, b) / 2.0, vx, vy);
    SameLength(h, 0.0, 0.0, 0.0);
    hide HalfPush, IsHypot, Scaled;
    var r := PushPair(h, chips, i, j);
    assert r[j].cx - r[i].cx == (b.cx - a.cx) + 2.0 * vx && r[j].cy - r[i].cy == (b.cy - a.cy) + 2.0 * vy;
  }

  /** Stretching, on one axis, without divisions. */
  lemma StretchAxis(x: real, len: real, half: real, v: real)
    requires len > 0.0 && half > 0.0 && v == Scaled(x, len, half)
    ensures Abs(x + 2.0 * v) * len == Abs(x) * (len + 2.0 * half)
  {
    var u := x / len;
    UnitTimes(x, len, half, u);
    Distribute(u, len, half);
    assert (u * (len + 2.0 * half)) * len == (u * len) * (len + 2.0 * half);
    assert (x + 2.0 * v) * len == x * (len + 2.0 * half);
    AbsProduct(x + 2.0 * v, len);
    AbsProduct(x, len + 2.0 * half);
  }

  lemma AbsProduct(x: real, f: real)
    requires f > 0.0
    ensures Abs(x * f) == Abs(x) * f
  {
    if x > 0.0 {
      MulPositive(x, f, x * f);
    } else if x < 0.0 {
      MulPositive(-x, f, -x * f);
    }
  }

  lemma LessTimes(x: real, bound: real, f: real)
    requires f > 0.0
    ensures x < bound <==> x * f < bound * f
  {
    if x < bound {
      MulPositive(bound - x, f, (bound - x) * f);
    } else {
      MulMono(f, bound, x);
    }
  }

  /** Growing from `len` to `pushed`, a distance of `d` on one axis stays below `bound`. */
  predicate StaysBelow(d: real, len: real, pushed: real, bound: real) {
    d * pushed < bound * len
  }

  lemma AxisExactly(x: real, len: real, half: real, v: real, bound: real)
    requires len > 0.0 && half > 0.0 && v == Scaled(x, len, half)
    ensures Abs(x + 2.0 * v) < bound <==> StaysBelow(Abs(x), len, len + 2.0 * half, bound)
  {
    StretchAxis(x, len, half, v);
    LessTimes(Abs(x + 2.0 * v), bound, len);
    hide Scaled, Abs;
  }

  /** The positions after a push. */
  lemma AfterPush(h: Hypot, chips: seq<PlacedChip>, i: nat, j: nat)
    requires IsHypot(h) && i < j < |chips| && ChipsOverlap(chips[i], chips[j])
    ensures var a, b, r := chips[i], chips[j], PushPair(h, chips, i, j);
            var (vx, vy) := HalfPush(h, a, b);
            r[j].cx - r[i].cx == (b.cx - a.cx) + 2.0 * vx && r[j].cy - r[i].cy == (b.cy - a.cy) + 2.0 * vy
  {
    hide HalfPush;
  }

  lemma CoincidingSeparate(h: Hypot, chips: seq<PlacedChip>, i: nat, j: nat)
    requires IsHypot(h) && i < j < |chips| && chips[i].cx == chips[j].cx && chips[i].cy == chips[j].cy
    ensures var r := PushPair(h, chips, i, j); !ChipsOverlap(r[i], r[j])
  {
    AfterPush(h, chips, i, j);
    SameLength(h, 1.0, 0.0, 1.0);
    UnitTimes(1.0, 1.0, 21.5, 1.0);
    hide IsHypot, Scaled, PushPair;
    var a, b := chips[i], chips[j];
    assert Direction(a, b) == (1.0, 0.0) && PushBy(a, b) / 2.0 == 21.5;
    assert HalfPush(h, a, b).0 == 21.5;
  }

  lemma DistinctExactly(h: Hypot, a: PlacedChip, b: PlacedChip)
    requires IsHypot(h) && ChipsOverlap(a, b) && (a.cx != b.cx || a.cy != b.cy)
    ensures var dx, dy := b.cx - a.cx, b.cy - a.cy;
            var (vx, vy) := HalfPush(h, a, b);
            var len := h(dx, dy);
            && len > 0.0
            && (Abs(dx + 2.0 * vx) < CHIP_W <==> StaysBelow(Abs(dx), len, len + PushBy(a, b), CHIP_W))
            && (Abs(dy + 2.0 * vy) < CHIP_H <==> StaysBelow(Abs(dy), len, len + PushBy(a, b), CHIP_H))
  {
    var dx, dy := b.cx - a.cx, b.cy - a.cy;
    HypotPositive(h, dx, dy);
    assert PushBy(a, b) > 0.0 && Direction(a, b) == (dx, dy);
    hide IsHypot, Scaled, StaysBelow;
    var len, half := h(dx, dy), PushBy(a, b) / 2.0;
    var (vx, vy) := HalfPush(h, a, b);
    AxisExactly(dx, len, half, vx, CHIP_W);
    AxisExactly(dy, len, half, vy, CHIP_H);
    assert len + 2.0 * half == len + PushBy(a, b);
  }

  /** Main result: exactly which pairs still overlap after their push, in terms of their positions before it.
      Coinciding chips are always separated. */
  lemma PushSeparatesExactly(h: Hypot, chips: seq<PlacedChip>, i: nat, j: nat)
    requires IsHypot(h) && i < j < |chips| && ChipsOverlap(chips[i], chips[j])
    ensures var a, b, r := chips[i], chips[j], PushPair(h, chips, i, j);
            var dx, dy := b.cx - a.cx, b.cy - a.cy;
            var len := h(dx, dy);
            var pushed := len + PushBy(a, b);
            ChipsOverlap(r[i], r[j]) <==>
              (dx != 0.0 || dy != 0.0) && StaysBelow(Abs(dx), len, pushed, CHIP_W) && StaysBelow(Abs(dy), len, pushed, CHIP_H)
  {
    var a, b := chips[i], chips[j];
    AfterPush(h, chips, i, j);
    if a.cx == b.cx && a.cy == b.cy {
      CoincidingSeparate(h, chips, i, j);
    } else {
      DistinctExactly(h, a, b);
    }
    hide IsHypot, HalfPush, PushBy, PushPair, StaysBelow;
  }

  /** Not every push separates: these two chips still overlap after their push. */
  lemma OnePushMayNotSeparate(h: Hypot, far: NodeShape) returns (chips: seq<PlacedChip>)
    requires IsHypot(h)
    ensures |chips| == 2 && ChipsOverlap(chips[0], chips[1])
    ensures var r := PushPair(h, chips, 0, 1); ChipsOverlap(r[0], r[1])
  {
    chips := [PlacedChip("SW1", far, 100.0, 100.0, 100.0, 100.0), PlacedChip("SW2", far, 112.0, 105.0, 112.0, 105.0)];
    SameLength(h, 12.0, 5.0, 13.0);
    assert PushBy(chips[0], chips[1]) == 32.0;
  }

  // ---------------------------------------------------------------------------
  // Conservation of the centroid
  // ---------------------------------------------------------------------------

  function SumX(chips: seq<PlacedChip>): real {
    if chips == [] then 0.0 else SumX(chips[..|chips| - 1]) + chips[|chips| - 1].cx
  }

  function SumY(chips: seq<PlacedChip>): real {
    if chips == [] then 0.0 else SumY(chips[..|chips| - 1]) + chips[|chips| - 1].cy
  }

  function SumAnchorX(chips: seq<PlacedChip>): real {
    if chips == [] then 0.0 else SumAnchorX(chips[..|chips| - 1]) + chips[|chips| - 1].anchorX
  }

  function SumAnchorY(chips: seq<PlacedChip>): real {
    if chips == [] then 0.0 else SumAnchorY(chips[..|chips| - 1]) + chips[|chips| - 1].anchorY
  }

  /** Changing one chip's position changes the sums by its displacement. */
  lemma {:induction false} SumsAfterUpdate(chips: seq<PlacedChip>, i: nat, c: PlacedChip)
    requires i < |chips| && SameChip(c, chips[i])
    ensures SumX(chips[i := c]) == SumX(chips) - chips[i].cx + c.cx
    ensures SumY(chips[i := c]) == SumY(chips) - chips[i].cy + c.cy
    ensures SumAnchorX(chips[i := c]) == SumAnchorX(chips) && SumAnchorY(chips[i := c]) == SumAnchorY(chips)
    decreases |chips|
  {
    var n := |chips| - 1;
    if i < n {
      SumsAfterUpdate(chips[..n], i, c);
      assert chips[i := c][..n] == chips[..n][i := c];
    } else {
      assert chips[i := c][..n] == chips[..n];
    }
  }

  /** Positions sum to the same on both axes, and so do anchors. */
  ghost predicate SameSums(a: seq<PlacedChip>, b: seq<PlacedChip>) {
    && SumX(a) == SumX(b) && SumY(a) == SumY(b)
    && SumAnchorX(a) == SumAnchorX(b) && SumAnchorY(a) == SumAnchorY(b)
  }

  lemma PushConserves(h: Hypot, chips: seq<PlacedChip>, i: nat, j: nat)
    requires IsHypot(h) && i < j < |chips|
    ensures SameSums(PushPair(h, chips, i, j), chips)
  {
    var a, b := chips[i], chips[j];
    if ChipsOverlap(a, b) {
      var (vx, vy) := HalfPush(h, a, b);
      var a' := a.(cx := a.cx - vx, cy := a.cy - vy);
      var b' := b.(cx := b.cx + vx, cy := b.cy + vy);
      SumsAfterUpdate(chips, i, a');
      SumsAfterUpdate(chips[i := a'], j, b');
    }
  }

  lemma {:induction false} RowConserves(h: Hypot, chips: seq<PlacedChip>, i: nat, n: nat)
    requires IsHypot(h) && i < n <= |chips|
    ensures SameSums(RowPass(h, chips, i, n), chips)
    decreases n
  {
    if n > i + 1 {
      RowConserves(h, chips, i, n - 1);
      PushConserves(h, RowPass(h, chips, i, n - 1), i, n - 1);
    }
  }

  lemma {:induction false} PassConserves(h: Hypot, chips: seq<PlacedChip>, m: nat)
    requires IsHypot(h) && m <= |chips|
    ensures SameSums(Pass(h, chips, m), chips)
    decreases m
  {
    if m == 0 {
    } else {
      PassConserves(h, chips, m - 1);
      RowConserves(h, Pass(h, chips, m - 1), m - 1, |chips|);
    }
  }

  /** The sum of displacements from the anchors. */
  function Drift(chips: seq<PlacedChip>): (real, real) {
    (SumX(chips) - SumAnchorX(chips), SumY(chips) - SumAnchorY(chips))
  }

  /** A pull takes a fifth of the total displacement away. */
  lemma {:induction false} PullShrinksDrift(chips: seq<PlacedChip>)
    ensures Drift(Pull(chips)).0 == Drift(chips).0 * 0.8 && Drift(Pull(chips)).1 == Drift(chips).1 * 0.8
    ensures SumAnchorX(Pull(chips)) == SumAnchorX(chips) && SumAnchorY(Pull(chips)) == SumAnchorY(chips)
    decreases |chips|
  {
    if chips == [] {
    } else {
      var n := |chips| - 1;
      PullShrinksDrift(chips[..n]);
      assert Pull(chips)[..n] == Pull(chips[..n]);
    }
  }

  /** 0.8 to the k-th power. */
  function Shrink(k: nat): real {
    if k == 0 then 1.0 else 0.8 * Shrink(k - 1)
  }

  /** How many rounds pushed something. */
  function BusyRounds(h: Hypot, chips: seq<PlacedChip>, rounds: nat): nat
    requires IsHypot(h)
    decreases rounds
  {
    if rounds == 0 || !PassMoves(h, chips, |chips|) then 0
    else 1 + BusyRounds(h, Pull(Pass(h, chips, |chips|)), rounds - 1)
  }

  /** Main result, from any start: anchors stay, and the total displacement from them shrinks by
      exactly one fifth per busy round. */
  lemma {:induction false} DriftShrinks(h: Hypot, chips: seq<PlacedChip>, rounds: nat)
    requires IsHypot(h)
    ensures var r, k := Relaxed(h, chips, rounds), BusyRounds(h, chips, rounds);
            && Drift(r).0 == Drift(chips).0 * Shrink(k) && Drift(r).1 == Drift(chips).1 * Shrink(k)
            && SumAnchorX(r) == SumAnchorX(chips) && SumAnchorY(r) == SumAnchorY(chips)
    decreases rounds
  {
    hide Pass, PassMoves, Pull, SumX, SumY, SumAnchorX, SumAnchorY, Shrink, IsHypot;
    ShrinkMore(0);
    if rounds == 0 {
    } else {
      PassConserves(h, chips, |chips|);
      if PassMoves(h, chips, |chips|) {
        var next := Pull(Pass(h, chips, |chips|));
        PullShrinksDrift(Pass(h, chips, |chips|));
        DriftShrinks(h, next, rounds - 1);
        var k := BusyRounds(h, next, rounds - 1);
        ShrinkMore(k);
        FactorOut(Drift(chips).0, Shrink(k));
        FactorOut(Drift(chips).1, Shrink(k));
      }
    }
  }

  lemma ShrinkMore(k: nat)
    ensures Shrink(0) == 1.0 && Shrink(k + 1) == 0.8 * Shrink(k)
  {
  }

  lemma FactorOut(d: real, s: real)
    ensures d * 0.8 * s == d * (0.8 * s)
  {
  }

  /** Main result: from the scheduler's placement, where every chip sits on its anchor, the sum of
      positions equals the sum of anchors for ever. */
  lemma CentroidConserved(h: Hypot, chips: seq<PlacedChip>, rounds: nat)
    requires IsHypot(h) && forall i :: 0 <= i < |chips| ==> chips[i].cx == chips[i].anchorX && chips[i].cy == chips[i].anchorY
    ensures var r := Relaxed(h, chips, rounds);
            SumX(r) == SumAnchorX(chips) && SumY(r) == SumAnchorY(chips)
  {
    AtAnchors(chips);
    DriftShrinks(h, chips, rounds);
  }

  lemma {:induction false} AtAnchors(chips: seq<PlacedChip>)
    requires forall i :: 0 <= i < |chips| ==> chips[i].cx == chips[i].anchorX && chips[i].cy == chips[i].anchorY
    ensures Drift(chips) == (0.0, 0.0)
    decreases |chips|
  {
    if chips == [] {
    } else {
      AtAnchors(chips[..|chips| - 1]);
    }
  }

  // ---------------------------------------------------------------------------
  // What stopping early means
  // ---------------------------------------------------------------------------

  ghost predicate NoneOverlap(chips: seq<PlacedChip>) {
    forall i, j :: 0 <= i < j < |chips| ==> !ChipsOverlap(chips[i], chips[j])
  }

  lemma {:induction false} QuietRow(h: Hypot, chips: seq<PlacedChip>, i: nat, n: nat)
    requires IsHypot(h) && i < n <= |chips|
    ensures !RowMoves(h, chips, i, n) <==> forall j :: i < j < n ==> !ChipsOverlap(chips[i], chips[j])
    ensures !RowMoves(h, chips, i, n) ==> RowPass(h, chips, i, n) == chips
    decreases n
  {
    if n > i + 1 {
      QuietRow(h, chips, i, n - 1);
    }
  }

  lemma {:induction false} QuietPass(h: Hypot, chips: seq<PlacedChip>, m: nat)
    requires IsHypot(h) && m <= |chips|
    ensures !PassMoves(h, chips, m) <==> forall i, j :: 0 <= i < m && i < j < |chips| ==> !ChipsOverlap(chips[i], chips[j])
    ensures !PassMoves(h, chips, m) ==> Pass(h, chips, m) == chips
    decreases m
  {
    if m == 0 {
    } else {
      QuietPass(h, chips, m - 1);
      QuietRow(h, Pass(h, chips, m - 1), m - 1, |chips|);
    }
  }

  /** Main result: unless all its rounds were busy, relaxation ends with no two chips overlapping. */
  lemma {:induction false} EarlyExitIsClear(h: Hypot, chips: seq<PlacedChip>, rounds: nat)
    requires IsHypot(h)
    ensures BusyRounds(h, chips, rounds) < rounds ==> NoneOverlap(Relaxed(h, chips, rounds))
    ensures NoneOverlap(chips) ==> Relaxed(h, chips, rounds) == chips
    decreases rounds
  {
    if rounds == 0 {
    } else {
      QuietPass(h, chips, |chips|);
      if PassMoves(h, chips, |chips|) {
        EarlyExitIsClear(h, Pull(Pass(h, chips, |chips|)), rounds - 1);
      }
    }
  }
}
