/**
 scheduleChips of tools/topogen/render.go: each node's port chips get angles that keep them a
 minimum arc apart, in degrees. math.Atan2 is a parameter, of which little more than its range matters.
 */
module Schedule {
  import opened Reals
  import opened Shapes
  import opened Chips
  import opened Sorting

  type Atan2 = (real, real) -> real

  /** math.Pi as a float64. */
  const PI := 3.141592653589793

  function Radius(ownerIsHost: bool): real {
    if ownerIsHost then 30.0 + 24.0 else 94.0
  }

  /** Degrees of arc one 42 px chip takes at the placement radius, at most 45. */
  function MinSep(ownerIsHost: bool): (sep: real)
    ensures 25.0 < sep <= 45.0
  {
    var arc := 42.0 / Radius(ownerIsHost) * 180.0 / PI;
    if arc > 45.0 then 45.0 else arc
  }

  /** How far from the node's centre its chips are placed: 24 px outside of its footprint. */
  function PlacementRadius(isHost: bool): real {
    (if isHost then HOST_R else NODE_W / 2.0) + 24.0
  }

  /** The length of an arc of so many degrees. */
  function Arc(degrees: real, radius: real): real {
    degrees * PI / 180.0 * radius
  }

  /** The separation takes exactly one chip's width of arc at the placement radius of the node's own kind. */
  lemma MinSepIsOneChip(isHost: bool)
    ensures Arc(MinSep(isHost), PlacementRadius(isHost)) == CHIP_W
  {
  }

  lemma ArcGrows(a: real, b: real, radius: real)
    requires a <= b && radius >= 0.0
    ensures Arc(a, radius) <= Arc(b, radius)
  {
    MulMono(radius, a * PI / 180.0, b * PI / 180.0);
  }

  // ---------------------------------------------------------------------------
  // The order of the chips
  // ---------------------------------------------------------------------------

  /** The indices of `angles`, each once, in non-decreasing order of angle. Ties may fall either way. */
  ghost predicate IsOrder(order: seq<nat>, angles: seq<real>) {
    && |order| == |angles|
    && (forall k :: 0 <= k < |order| ==> order[k] < |angles|)
    && (forall k, l :: 0 <= k < l < |order| ==> order[k] != order[l] && angles[order[k]] <= angles[order[l]])
    && (forall i :: 0 <= i < |angles| ==> i in order)
  }

  method SortByAngle(angles: seq<real>) returns (order: seq<nat>)
    ensures IsOrder(order, angles)
  {
    var all := seq(|angles|, (i: int) requires 0 <= i => i as nat);
    order := SortIndices(all, angles, (a: real, b: real) => a < b);
    forall i: nat | i < |angles| ensures i in order {
      assert all[i] == i;
    }
  }

  // ---------------------------------------------------------------------------
  // The sweep
  // ---------------------------------------------------------------------------

  /** The angle given to the k-th chip in order, when `b` lists the preferred angles in order. */
  function Swept(b: seq<real>, minSep: real, k: nat): real
    requires k < |b|
  {
    if k == 0 then b[0]
    else
      var prev := Swept(b, minSep, k - 1);
      if b[k] < prev + minSep then prev + minSep else b[k]
  }

  function Span(b: seq<real>, minSep: real): real
    requires b != []
  {
    Swept(b, minSep, |b| - 1) - Swept(b, minSep, 0)
  }

  /** The common shift applied when the band nearly closes the circle. */
  function Shift(b: seq<real>, minSep: real): real {
    if |b| > 1 && Span(b, minSep) > 360.0 - minSep
    then (Swept(b, minSep, 0) + 360.0 - Swept(b, minSep, |b| - 1) + minSep) / 2.0
    else 0.0
  }

  /** The angle that the k-th chip in order ends up with. */
  function Final(b: seq<real>, minSep: real, k: nat): real
    requires k < |b|
  {
    Swept(b, minSep, k) - Shift(b, minSep)
  }

  function InTurn(angles: seq<real>, order: seq<nat>): (b: seq<real>)
    requires forall k :: 0 <= k < |order| ==> order[k] < |angles|
    ensures |b| == |order| && forall k :: 0 <= k < |b| ==> b[k] == angles[order[k]]
  {
    seq(|order|, k requires 0 <= k < |order| => angles[order[k]])
  }

  lemma SweptStep(b: seq<real>, minSep: real, k: nat)
    requires k < |b|
    ensures Swept(b, minSep, k) ==
            if k > 0 && b[k] < Swept(b, minSep, k - 1) + minSep then Swept(b, minSep, k - 1) + minSep else b[k]
  {
  }

  method SweepInOrder(angles: seq<real>, order: seq<nat>, minSep: real) returns (adj: array<real>)
    requires forall k :: 0 <= k < |order| ==> order[k] < |angles|
    requires forall k, l :: 0 <= k < l < |order| ==> order[k] != order[l]
    ensures adj.Length == |angles| && fresh(adj)
    ensures forall k :: 0 <= k < |order| ==> adj[order[k]] == Swept(InTurn(angles, order), minSep, k)
  {
    hide InTurn, Swept;
    ghost var b := InTurn(angles, order);
    adj := new real[|angles|];
    var prev := 0.0;
    for k := 0 to |order|
      invariant k > 0 ==> prev == Swept(b, minSep, k - 1)
      invariant forall l :: 0 <= l < k ==> adj[order[l]] == Swept(b, minSep, l)
    {
      var idx := order[k];
      var a := angles[idx];
      assert b[k] == a;
      SweptStep(b, minSep, k);
      if k > 0 && a < prev + minSep {
        a := prev + minSep;
      }
      adj[idx] := a;
      prev := a;
    }
  }

  method ShiftBand(adj: array<real>, order: seq<nat>, shift: real)
    requires forall k :: 0 <= k < |order| ==> order[k] < adj.Length
    requires forall k, l :: 0 <= k < l < |order| ==> order[k] != order[l]
    modifies adj
    ensures forall k :: 0 <= k < |order| ==> adj[order[k]] == old(adj[order[k]]) - shift
  {
    for k := 0 to |order|
      invariant forall l :: 0 <= l < k ==> adj[order[l]] == old(adj[order[l]]) - shift
      invariant forall l :: k <= l < |order| ==> adj[order[l]] == old(adj[order[l]])
    {
      adj[order[k]] := adj[order[k]] - shift;
    }
  }

  /** The direction of a link, in degrees. */
  function Preferred(atan2: Atan2, owner: NodeShape, other: NodeShape): real {
    atan2(other.cy - owner.cy, other.cx - owner.cx) * 180.0 / PI
  }

  /** These are polar coordinates: going `h(x, y)` in direction `atan2(y, x)` leads to (x, y). */
  ghost predicate IsPolar(atan2: Atan2, h: (real, real) -> real, cos: real -> real, sin: real -> real) {
    forall x: real, y: real :: h(x, y) * cos(atan2(y, x)) == x && h(x, y) * sin(atan2(y, x)) == y
  }

  /** From its owner a chip's preferred direction leads to the other end of its link. */
  lemma PreferredLeadsToOther(atan2: Atan2, h: (real, real) -> real, cos: real -> real, sin: real -> real,
                              owner: NodeShape, other: NodeShape)
    requires IsPolar(atan2, h, cos, sin)
    ensures var radians := Preferred(atan2, owner, other) * PI / 180.0;
            var far := h(other.cx - owner.cx, other.cy - owner.cy);
            owner.cx + far * cos(radians) == other.cx && owner.cy + far * sin(radians) == other.cy
  {
    var x, y := other.cx - owner.cx, other.cy - owner.cy;
    var radians := Preferred(atan2, owner, other) * PI / 180.0;
    assert radians == atan2(y, x);
    hide Preferred;
    assert h(x, y) * cos(atan2(y, x)) == x && h(x, y) * sin(atan2(y, x)) == y;
    var far := h(x, y);
    assert far * cos(radians) == x && far * sin(radians) == y;
  }

  /** The angles that scheduleChips starts from. */
  ghost predicate AnglesOf(angles: seq<real>, atan2: Atan2, owner: NodeShape, others: seq<NodeShape>) {
    |angles| == |others| && forall i :: 0 <= i < |others| ==> angles[i] == Preferred(atan2, owner, others[i])
  }

  method PreferredAngles(atan2: Atan2, owner: NodeShape, others: seq<NodeShape>) returns (angles: seq<real>)
    ensures AnglesOf(angles, atan2, owner, others)
  {
    angles := [];
    for i := 0 to |others|
      invariant |angles| == i && forall k :: 0 <= k < i ==> angles[k] == Preferred(atan2, owner, others[k])
    {
      angles := angles + [Preferred(atan2, owner, others[i])];
    }
  }

  /** The chips of `owner` on its links to `others`. */
  method ScheduleChips(atan2: Atan2, owner: NodeShape, others: seq<NodeShape>)
    returns (adj: array<real>, ghost angles: seq<real>, ghost order: seq<nat>)
    ensures AnglesOf(angles, atan2, owner, others)
    ensures IsOrder(order, angles) && adj.Length == |others| && fresh(adj)
    ensures var b, minSep := InTurn(angles, order), MinSep(owner.isHost);
            forall k :: 0 <= k < |order| ==> adj[order[k]] == Final(b, minSep, k)
    ensures forall k, l :: 0 <= k < l < |order| ==>
              Arc(adj[order[l]] - adj[order[k]], PlacementRadius(owner.isHost)) >= CHIP_W
  {
    hide MinSep, Preferred, Arc, PlacementRadius, Swept;
    var n := |others|;
    var preferred := PreferredAngles(atan2, owner, others);
    var sorted := SortByAngle(preferred);
    angles, order := preferred, sorted;
    var minSep := MinSep(owner.isHost);
    adj := SweepInOrder(preferred, sorted, minSep);
    if n > 1 {
      var first, last := adj[sorted[0]], adj[sorted[n - 1]];
      if last - first > 360.0 - minSep {
        ShiftBand(adj, sorted, (first + 360.0 - last + minSep) / 2.0);
      }
    }
    forall k, l | 0 <= k < l < |order|
      ensures Arc(adj[order[l]] - adj[order[k]], PlacementRadius(owner.isHost)) >= CHIP_W
    {
      OneChipApart(InTurn(angles, order), owner.isHost, k, l);
    }
  }

  // ---------------------------------------------------------------------------
  // What the sweep computes
  // ---------------------------------------------------------------------------

  /** Where the j-th preferred angle alone would push the k-th chip. */
  function Pushed(b: seq<real>, minSep: real, j: nat, k: nat): real
    requires j <= k < |b|
  {
    b[j] + (k - j) as real * minSep
  }

  lemma PushedNext(b: seq<real>, minSep: real, j: nat, k: nat)
    requires j < k < |b|
    ensures Pushed(b, minSep, j, k) == Pushed(b, minSep, j, k - 1) + minSep
  {
    var d := (k - 1 - j) as real;
    assert (k - j) as real == d + 1.0;
  }

  /** Main result, closed form: the k-th angle is the maximum over j <= k of b[j] + (k - j) * minSep. */
  lemma {:induction false} SweptIsMaximum(b: seq<real>, minSep: real, k: nat) returns (best: nat)
    requires k < |b|
    ensures best <= k && Swept(b, minSep, k) == Pushed(b, minSep, best, k)
    ensures forall j :: 0 <= j <= k ==> Pushed(b, minSep, j, k) <= Swept(b, minSep, k)
    decreases k
  {
    best := k;
    assert Pushed(b, minSep, k, k) == b[k];
    if k == 0 {
    } else {
      var before := SweptIsMaximum(b, minSep, k - 1);
      forall j | 0 <= j < k
        ensures Pushed(b, minSep, j, k) == Pushed(b, minSep, j, k - 1) + minSep
      {
        PushedNext(b, minSep, j, k);
      }
      if b[k] < Swept(b, minSep, k - 1) + minSep {
        best := before;
      }
    }
  }

  /** An assignment that respects every preferred angle and the minimum separation. */
  ghost predicate Admissible(g: seq<real>, b: seq<real>, minSep: real) {
    && |g| == |b|
    && (forall k :: 0 <= k < |b| ==> b[k] <= g[k])
    && (forall k :: 0 < k < |b| ==> g[k - 1] + minSep <= g[k])
  }

  function SweptAll(b: seq<real>, minSep: real): (g: seq<real>)
    ensures |g| == |b| && forall k :: 0 <= k < |b| ==> g[k] == Swept(b, minSep, k)
  {
    seq(|b|, k requires 0 <= k < |b| => Swept(b, minSep, k))
  }

  /** Main result, optimality: the sweep is the pointwise least admissible assignment. */
  lemma {:induction false} SweptIsLeast(b: seq<real>, minSep: real, g: seq<real>, k: nat)
    requires Admissible(g, b, minSep) && k < |b|
    ensures Admissible(SweptAll(b, minSep), b, minSep)
    ensures Swept(b, minSep, k) <= g[k]
    decreases k
  {
    if k == 0 {
    } else {
      SweptIsLeast(b, minSep, g, k - 1);
    }
  }

  /** Preferred angles that are already far enough apart are kept. */
  lemma {:induction false} SweptKeepsSpread(b: seq<real>, minSep: real, k: nat)
    requires k < |b| && forall l :: 0 < l < |b| ==> b[l - 1] + minSep <= b[l]
    ensures Swept(b, minSep, k) == b[k]
    decreases k
  {
    if k == 0 {
    } else {
      SweptKeepsSpread(b, minSep, k - 1);
    }
  }

  lemma {:induction false} SweptSeparated(b: seq<real>, minSep: real, j: nat, k: nat)
    requires j <= k < |b|
    ensures Swept(b, minSep, j) + (k - j) as real * minSep <= Swept(b, minSep, k)
    decreases k
  {
    if j < k {
      SweptSeparated(b, minSep, j, k - 1);
      var d := (k - 1 - j) as real;
      assert (k - j) as real * minSep == d * minSep + minSep;
    }
  }

  // ---------------------------------------------------------------------------
  // The final angles: on the line and around the circle
  // ---------------------------------------------------------------------------

  /** The shift moves every chip alike: all gaps on the line survive it. */
  lemma FinalGaps(b: seq<real>, minSep: real, j: nat, k: nat)
    requires j < k < |b| && minSep > 0.0
    ensures Final(b, minSep, k) - Final(b, minSep, j) == Swept(b, minSep, k) - Swept(b, minSep, j)
    ensures Final(b, minSep, k) - Final(b, minSep, j) >= minSep
  {
    SweptSeparated(b, minSep, j, k);
    var steps := (k - j) as real;
    assert steps >= 1.0;
    assert steps * minSep >= minSep by {
      assert (steps - 1.0) * minSep >= 0.0;
    }
  }

  /** On the line any two chips of a node have at least one chip's width of arc between them. */
  lemma OneChipApart(b: seq<real>, isHost: bool, k: nat, l: nat)
    requires k < l < |b|
    ensures Arc(Final(b, MinSep(isHost), l) - Final(b, MinSep(isHost), k), PlacementRadius(isHost)) >= CHIP_W
  {
    FinalGaps(b, MinSep(isHost), k, l);
    MinSepIsOneChip(isHost);
    hide Final, MinSep;
    ArcGrows(MinSep(isHost), Final(b, MinSep(isHost), l) - Final(b, MinSep(isHost), k), PlacementRadius(isHost));
  }

  /** The final angles lie in [-180, 180). */
  predicate FitsInTurn(b: seq<real>, minSep: real)
    requires b != []
  {
    -180.0 <= Final(b, minSep, 0) && Final(b, minSep, |b| - 1) < 180.0
  }

  /** A band that is shifted comes to lie in [-180, 180) exactly under these two conditions on its ends. */
  lemma ShiftedBandFitsExactly(b: seq<real>, minSep: real)
    requires |b| > 1 && Span(b, minSep) > 360.0 - minSep
    ensures var first, last := Swept(b, minSep, 0), Swept(b, minSep, |b| - 1);
            FitsInTurn(b, minSep) <==> first + last >= minSep && 3.0 * last - first < 720.0 + minSep
  {
    hide Swept;
  }

  /** So many full turns, in degrees. */
  function Turns(m: int): real {
    360.0 * m as real
  }

  /** Two directions differ by at least `sep`, however many turns are added. */
  ghost predicate CircularApart(x: real, y: real, sep: real) {
    forall m: int :: Abs(x - y - Turns(m)) >= sep
  }

  /** Any two chips are at least `minSep` apart around the node. */
  ghost predicate ApartOnCircle(b: seq<real>, minSep: real) {
    forall j, k :: 0 <= j < k < |b| ==> CircularApart(Final(b, minSep, k), Final(b, minSep, j), minSep)
  }

  /** Angles in order, all within one turn. */
  ghost predicate WithinTurn(b: seq<real>) {
    && (forall j, k :: 0 <= j <= k < |b| ==> b[j] <= b[k])
    && (forall j, k :: 0 <= j <= k < |b| ==> b[k] - b[j] < 360.0)
  }

  lemma ApartWithin(x: real, y: real, sep: real)
    requires sep <= x - y <= 360.0 - sep
    ensures CircularApart(x, y, sep)
  {
    forall m: int ensures Abs(x - y - Turns(m)) >= sep {
      if m <= 0 {
        assert m as real <= 0.0;
      } else {
        assert m as real >= 1.0;
      }
    }
  }

  lemma TooNear(x: real, y: real, sep: real)
    requires 360.0 - sep < x - y <= 360.0 && sep > 0.0
    ensures !CircularApart(x, y, sep)
  {
    assert Abs(x - y - Turns(1)) < sep;
  }

  /** The first chip that comes too near to the first one's next turn does not pass it. */
  lemma {:induction false} FirstTooFar(b: seq<real>, minSep: real, k: nat) returns (far: nat)
    requires k < |b| && WithinTurn(b) && 0.0 < minSep <= 180.0
    requires Swept(b, minSep, k) - Swept(b, minSep, 0) > 360.0 - minSep
    ensures 0 < far <= k && 360.0 - minSep < Swept(b, minSep, far) - Swept(b, minSep, 0) <= 360.0
    decreases k
  {
    assert Swept(b, minSep, 0) == b[0];
    if Swept(b, minSep, k - 1) - Swept(b, minSep, 0) > 360.0 - minSep {
      far := FirstTooFar(b, minSep, k - 1);
    } else {
      far := k;
      assert b[k] - b[0] < 360.0;
    }
  }

  /** Main result: around the node the chips are separated exactly when their span is at most 360 - minSep.
      The shift cannot bring that about, because it leaves the span as it is. */
  lemma CircleExactly(b: seq<real>, minSep: real)
    requires b != [] && WithinTurn(b) && 0.0 < minSep <= 180.0
    ensures ApartOnCircle(b, minSep) <==> Span(b, minSep) <= 360.0 - minSep
  {
    hide CircularApart, WithinTurn, Swept, Shift;
    var n := |b| - 1;
    if Span(b, minSep) <= 360.0 - minSep {
      forall j, k | 0 <= j < k < |b| ensures CircularApart(Final(b, minSep, k), Final(b, minSep, j), minSep) {
        FinalGaps(b, minSep, j, k);
        SweptMonotone(b, minSep, 0, j);
        SweptMonotone(b, minSep, k, n);
        ApartWithin(Final(b, minSep, k), Final(b, minSep, j), minSep);
      }
    } else {
      var far := FirstTooFar(b, minSep, n);
      FinalGaps(b, minSep, 0, far);
      TooNear(Final(b, minSep, far), Final(b, minSep, 0), minSep);
    }
  }

  /** Chips that are separated keep the angles of the sweep. Otherwise all turn back alike, unless their band is
      longer than a turn and one separation: then they turn on. */
  lemma ShiftedExactly(b: seq<real>, minSep: real, k: nat)
    requires k < |b| && WithinTurn(b) && 0.0 < minSep <= 180.0
    ensures ApartOnCircle(b, minSep) ==> Final(b, minSep, k) == Swept(b, minSep, k)
    ensures !ApartOnCircle(b, minSep) ==>
              && (Final(b, minSep, k) < Swept(b, minSep, k) <==> Span(b, minSep) < 360.0 + minSep)
              && (Final(b, minSep, k) > Swept(b, minSep, k) <==> Span(b, minSep) > 360.0 + minSep)
  {
    hide ApartOnCircle, WithinTurn, Swept;
    CircleExactly(b, minSep);
    assert |b| == 1 ==> Span(b, minSep) == 0.0;
  }

  /** The same condition on the preferred angles alone: going down from the last chip in steps of `minSep`,
      no angle on the way comes within `minSep` of the first one's next turn. */
  lemma CircleByPreferred(b: seq<real>, minSep: real, last: nat)
    requires b != [] && last == |b| - 1 && WithinTurn(b) && 0.0 < minSep <= 180.0
    ensures ApartOnCircle(b, minSep) <==>
            forall j :: 0 <= j <= last ==> Pushed(b, minSep, j, last) <= b[0] + 360.0 - minSep
  {
    hide ApartOnCircle, WithinTurn, Pushed;
    CircleExactly(b, minSep);
    var best := SweptIsMaximum(b, minSep, last);
    assert Swept(b, minSep, 0) == b[0];
    hide Swept;
    assert Pushed(b, minSep, best, last) == Span(b, minSep) + b[0];
  }

  lemma SweptMonotone(b: seq<real>, minSep: real, j: nat, k: nat)
    requires j <= k < |b| && minSep > 0.0
    ensures Swept(b, minSep, j) <= Swept(b, minSep, k)
  {
    if j < k {
      FinalGaps(b, minSep, j, k);
    }
  }

  lemma OneMore(n: nat, s: real, product: real)
    requires n > 0 && product == n as real * s
    ensures product == (n - 1) as real * s + s
  {
    var r := (n - 1) as real;
    assert n as real == r + 1.0;
  }

  /** Too many chips for the circle are never separated, whatever the links' directions. */
  lemma TooManyChips(b: seq<real>, minSep: real, needed: real)
    requires b != [] && WithinTurn(b) && 0.0 < minSep <= 180.0 && needed == |b| as real * minSep > 360.0
    ensures !ApartOnCircle(b, minSep)
  {
    hide ApartOnCircle, WithinTurn, Swept;
    var n: nat := |b| - 1;
    CircleExactly(b, minSep);
    SweptSeparated(b, minSep, 0, n);
    OneMore(|b|, minSep, needed);
    assert n - 0 == n && Span(b, minSep) >= needed - minSep;
  }

  // ---------------------------------------------------------------------------
  // Around a node
  // ---------------------------------------------------------------------------

  /** What is used of math.Atan2: its range, its symmetry, and how it approaches pi to the left. */
  ghost predicate IsAtan2(atan2: Atan2) {
    && (forall y: real, x: real :: -PI < atan2(y, x) <= PI)
    && (forall y: real, x: real :: y != 0.0 ==> atan2(-y, x) == -atan2(y, x))
    && (forall y: real, x: real :: y > 0.0 && x < 0.0 ==> atan2(y, x) >= PI - y / (-x))
  }

  lemma Degrees(angle: real)
    requires -PI < angle <= PI
    ensures -180.0 < angle * 180.0 / PI <= 180.0
  {
  }

  lemma PreferredRange(atan2: Atan2, owner: NodeShape, other: NodeShape)
    requires IsAtan2(atan2)
    ensures -180.0 < Preferred(atan2, owner, other) <= 180.0
  {
    Degrees(atan2(other.cy - owner.cy, other.cx - owner.cx));
  }

  /** In their order the preferred angles of any node lie within one turn. */
  lemma PreferredWithinTurn(atan2: Atan2, owner: NodeShape, others: seq<NodeShape>, angles: seq<real>, order: seq<nat>)
    requires IsAtan2(atan2) && AnglesOf(angles, atan2, owner, others) && IsOrder(order, angles)
    ensures WithinTurn(InTurn(angles, order))
  {
    hide IsAtan2, Preferred;
    var b := InTurn(angles, order);
    forall k | 0 <= k < |b| ensures -180.0 < b[k] <= 180.0 {
      PreferredRange(atan2, owner, others[order[k]]);
    }
  }

  /** Main result: the chips of a node, wherever its neighbours are, end up separated around it exactly when
      the swept band leaves `minSep` of the circle free. */
  lemma ChipsApartExactly(atan2: Atan2, owner: NodeShape, others: seq<NodeShape>, angles: seq<real>, order: seq<nat>)
    requires IsAtan2(atan2) && AnglesOf(angles, atan2, owner, others) && IsOrder(order, angles) && others != []
    ensures var b, minSep := InTurn(angles, order), MinSep(owner.isHost);
            ApartOnCircle(b, minSep) <==> Span(b, minSep) <= 360.0 - minSep
  {
    hide IsAtan2, MinSep, ApartOnCircle, Span;
    PreferredWithinTurn(atan2, owner, others, angles, order);
    CircleExactly(InTurn(angles, order), MinSep(owner.isHost));
  }

  lemma LeftAngle(atan2: Atan2, rise: real, left: real)
    requires IsAtan2(atan2) && rise > 0.0 && left >= 5.0 * rise
    ensures atan2(rise, -left) >= PI - 0.2
  {
    var t := rise / left;
    assert t * left == rise;
    if t > 0.2 {
      MulPositive(t - 0.2, left, (t - 0.2) * left);
    }
    assert -(-left) == left;
  }

  lemma MirroredAngles(atan2: Atan2, owner: NodeShape, above: NodeShape, below: NodeShape, rise: real, left: real)
    requires IsAtan2(atan2) && rise > 0.0 && left >= 5.0 * rise
    requires above.cx - owner.cx == below.cx - owner.cx == -left
    requires owner.cy - above.cy == below.cy - owner.cy == rise
    ensures Preferred(atan2, owner, above) == -Preferred(atan2, owner, below)
    ensures Preferred(atan2, owner, below) >= 168.0
  {
    LeftAngle(atan2, rise, left);
    var a := atan2(rise, -left);
    assert atan2(-rise, -left) == -a;
    hide IsAtan2;
    assert -a * 180.0 / PI == -(a * 180.0 / PI);
  }

  lemma MirroredSpan(b: seq<real>, minSep: real, theta: real)
    requires b == [-theta, theta] && theta >= 168.0 && 25.0 < minSep <= 45.0
    ensures Span(b, minSep) > 360.0 - minSep && !FitsInTurn(b, minSep)
  {
    assert Swept(b, minSep, 0) == -theta;
    assert Swept(b, minSep, 1) == theta;
    ShiftedBandFitsExactly(b, minSep);
  }

  /** Two nodes to the left of their switch, one as much above it as the other below, at a fifth of the way to
      the left or less: their chips are not separated. */
  lemma TwoLinksToTheLeft(atan2: Atan2, owner: NodeShape, above: NodeShape, below: NodeShape, rise: real, left: real,
                          angles: seq<real>, order: seq<nat>)
    requires IsAtan2(atan2) && !owner.isHost && rise > 0.0 && left >= 5.0 * rise
    requires above.cx - owner.cx == below.cx - owner.cx == -left
    requires owner.cy - above.cy == below.cy - owner.cy == rise
    requires AnglesOf(angles, atan2, owner, [above, below]) && IsOrder(order, angles)
    ensures !ApartOnCircle(InTurn(angles, order), MinSep(owner.isHost))
    ensures |order| == 2 && !FitsInTurn(InTurn(angles, order), MinSep(owner.isHost))
  {
    hide IsAtan2, Preferred, MinSep, Span, ApartOnCircle, FitsInTurn;
    ChipsApartExactly(atan2, owner, [above, below], angles, order);
    MirroredAngles(atan2, owner, above, below, rise, left);
    var theta := Preferred(atan2, owner, below);
    assert angles[0] == -theta && angles[1] == theta;
    assert order[0] != order[1] && angles[order[0]] <= angles[order[1]];
    assert order[0] == 0 && order[1] == 1;
    MirroredSpan(InTurn(angles, order), MinSep(owner.isHost), theta);
  }
}
