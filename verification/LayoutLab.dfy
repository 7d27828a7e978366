/**
 layoutLab of tools/topogen/render.go: the nodes of a lab get their extracted positions, or are laid
 out, are pushed apart and cleared of header and legend; if the layout check then fails, the lab is
 laid out once more without any extracted position.
 */
module LayoutLab {
  import opened Reals
  import opened Shapes
  import opened LayoutCheck
  import opened AutoLayout
  import opened MinGap

  const TOP_CLEARANCE := 55.0
  const LEGEND_CLEARANCE := 395.0

  /** A node's position in a hand-made drawing. */
  datatype NodePos = NodePos(x: real, y: real, w: real, h: real, circle: bool)

  datatype TemplateNode = TemplateNode(name: string, role: Role)

  // ---------------------------------------------------------------------------
  // Building a layout
  // ---------------------------------------------------------------------------

  /** A node as it enters the layout. */
  function Seed(n: TemplateNode, pos: map<string, NodePos>, useExtracted: bool): NodeShape {
    var s := NodeShape(n.name, n.role, 0.0, 0.0, n.role == HostRole);
    if !useExtracted || n.name !in pos then s
    else
      var p := pos[n.name];
      if p.circle then s.(isHost := true, cx := p.x, cy := p.y)
      else s.(cx := p.x + p.w / 2.0, cy := p.y + p.h / 2.0)
  }

  function Seeds(tpl: seq<TemplateNode>, pos: map<string, NodePos>, useExtracted: bool): (r: seq<NodeShape>)
    ensures |r| == |tpl| && forall i :: 0 <= i < |tpl| ==> r[i] == Seed(tpl[i], pos, useExtracted)
  {
    seq(|tpl|, i requires 0 <= i < |tpl| => Seed(tpl[i], pos, useExtracted))
  }

  function Used(tpl: seq<TemplateNode>, pos: map<string, NodePos>, useExtracted: bool): set<string> {
    set n | n in tpl && useExtracted && n.name in pos :: n.name
  }

  /** The highest top edge. */
  function MinTop(s: seq<NodeShape>): real
    requires s != []
  {
    var n := |s| - 1;
    var top := s[n].cy - HalfH(s[n]);
    if n == 0 then top else Min(top, MinTop(s[..n]))
  }

  /** The lowest bottom edge. */
  function MaxBottom(s: seq<NodeShape>): real
    requires s != []
  {
    var n := |s| - 1;
    var bottom := s[n].cy + HalfH(s[n]);
    if n == 0 then bottom else Max(bottom, MaxBottom(s[..n]))
  }

  function ShiftBy(s: seq<NodeShape>): real {
    if s != [] && MinTop(s) < TOP_CLEARANCE then TOP_CLEARANCE - MinTop(s) else 0.0
  }

  function Shifted(s: seq<NodeShape>): (r: seq<NodeShape>)
    ensures |r| == |s| && forall i :: 0 <= i < |s| ==> r[i] == s[i].(cy := s[i].cy + ShiftBy(s))
  {
    seq(|s|, i requires 0 <= i < |s| => s[i].(cy := s[i].cy + ShiftBy(s)))
  }

  /** The factor of the vertical compression; 1 when there is none. */
  function Scale(s: seq<NodeShape>): real {
    if s != [] && MaxBottom(s) > LEGEND_CLEARANCE
    then (LEGEND_CLEARANCE - 30.0 - TOP_CLEARANCE) / (MaxBottom(s) - TOP_CLEARANCE)
    else 1.0
  }

  function ScaledY(cy: real, scale: real): real {
    TOP_CLEARANCE + (cy - TOP_CLEARANCE) * scale
  }

  function Compressed(s: seq<NodeShape>): (r: seq<NodeShape>)
    ensures |r| == |s| && forall i :: 0 <= i < |s| ==> r[i] == s[i].(cy := ScaledY(s[i].cy, Scale(s)))
  {
    seq(|s|, i requires 0 <= i < |s| => s[i].(cy := ScaledY(s[i].cy, Scale(s))))
  }

  function Cleared(s: seq<NodeShape>): (r: seq<NodeShape>)
    ensures |r| == |s|
  {
    Compressed(Shifted(s))
  }

  function ByName(s: seq<NodeShape>): map<string, NodeShape> {
    if s == [] then map[] else ByName(s[..|s| - 1])[s[|s| - 1].name := s[|s| - 1]]
  }

  lemma ScaleOneIsSame(s: seq<NodeShape>)
    requires Scale(s) == 1.0
    ensures Compressed(s) == s
  {
    hide Scale;
    forall i | 0 <= i < |s| ensures Compressed(s)[i] == s[i] {
      assert ScaledY(s[i].cy, 1.0) == s[i].cy;
    }
  }

  method ClearTop(shapes: array<NodeShape>)
    modifies shapes
    ensures shapes[..] == Shifted(old(shapes[..]))
  {
    ghost var before := shapes[..];
    if shapes.Length == 0 {
      return;
    }
    var minTop := shapes[0].cy - HalfH(shapes[0]);
    for i := 1 to shapes.Length
      invariant shapes[..] == before && minTop == MinTop(before[..i])
    {
      assert before[..i + 1][..i] == before[..i];
      var t := shapes[i].cy - HalfH(shapes[i]);
      if t < minTop {
        minTop := t;
      }
    }
    assert before[..shapes.Length] == before;
    if minTop < TOP_CLEARANCE {
      var shift := TOP_CLEARANCE - minTop;
      for i := 0 to shapes.Length
        invariant forall k :: 0 <= k < i ==> shapes[k] == before[k].(cy := before[k].cy + shift)
        invariant forall k :: i <= k < shapes.Length ==> shapes[k] == before[k]
      {
        shapes[i] := shapes[i].(cy := shapes[i].cy + shift);
      }
    }
  }

  method ClearLegend(shapes: array<NodeShape>)
    modifies shapes
    ensures shapes[..] == Compressed(old(shapes[..]))
  {
    hide ScaledY;
    ghost var before := shapes[..];
    if shapes.Length == 0 {
      return;
    }
    var maxBottom := shapes[0].cy + HalfH(shapes[0]);
    for i := 1 to shapes.Length
      invariant shapes[..] == before && maxBottom == MaxBottom(before[..i])
    {
      assert before[..i + 1][..i] == before[..i];
      var b := shapes[i].cy + HalfH(shapes[i]);
      if b > maxBottom {
        maxBottom := b;
      }
    }
    assert before[..shapes.Length] == before;
    if maxBottom > LEGEND_CLEARANCE {
      var scale := (LEGEND_CLEARANCE - 30.0 - TOP_CLEARANCE) / (maxBottom - TOP_CLEARANCE);
      assert scale == Scale(before);
      hide Scale;
      for i := 0 to shapes.Length
        invariant forall k :: 0 <= k < i ==> shapes[k] == before[k].(cy := ScaledY(before[k].cy, scale))
        invariant forall k :: i <= k < shapes.Length ==> shapes[k] == before[k]
      {
        shapes[i] := shapes[i].(cy := ScaledY(shapes[i].cy, scale));
      }
    } else {
      ScaleOneIsSame(before);
    }
  }

  /** What one build makes of the template: laid out, pushed apart, cleared. */
  ghost predicate Built(tpl: seq<TemplateNode>, pos: map<string, NodePos>, useExtracted: bool, laid: seq<NodeShape>,
                        core: seq<nat>, leaf: seq<nat>, result: seq<NodeShape>) {
    var used := Used(tpl, pos, useExtracted);
    && LaidOut(Seeds(tpl, pos, useExtracted), laid, used, core, leaf)
    && result == Cleared(Enforce(laid, used, ROUNDS))
  }

  ghost predicate Outcome(tpl: seq<TemplateNode>, pos: map<string, NodePos>, useExtracted: bool, result: seq<NodeShape>) {
    exists laid, core, leaf :: Built(tpl, pos, useExtracted, laid, core, leaf, result)
  }

  method Build(tpl: seq<TemplateNode>, pos: map<string, NodePos>, useExtracted: bool)
    returns (shapes: array<NodeShape>, byName: map<string, NodeShape>)
    ensures fresh(shapes) && Outcome(tpl, pos, useExtracted, shapes[..]) && byName == ByName(shapes[..])
  {
    hide LaidOut, Enforce, Shifted, Compressed, Seed;
    var used := Used(tpl, pos, useExtracted);
    shapes := new NodeShape[|tpl|];
    for i := 0 to |tpl|
      invariant forall k :: 0 <= k < i ==> shapes[k] == Seed(tpl[k], pos, useExtracted)
    {
      shapes[i] := Seed(tpl[i], pos, useExtracted);
    }
    assert shapes[..] == Seeds(tpl, pos, useExtracted);
    ghost var core, leaf := AutoLayout.LayOut(shapes, used);
    ghost var laid := shapes[..];
    EnforceAutoMinGap(shapes, used);
    ClearTop(shapes);
    ClearLegend(shapes);
    assert Built(tpl, pos, useExtracted, laid, core, leaf, shapes[..]);
    byName := map[];
    for i := 0 to shapes.Length
      invariant byName == ByName(shapes[..i])
    {
      assert shapes[..i + 1][..i] == shapes[..i];
      byName := byName[shapes[i].name := shapes[i]];
    }
    assert shapes[..shapes.Length] == shapes[..];
  }

  /** The first build exactly if it passes the check; otherwise the second, which is not checked. */
  method Assemble(tpl: seq<TemplateNode>, pos: map<string, NodePos>)
    returns (shapes: array<NodeShape>, byName: map<string, NodeShape>, extracted: bool, ghost first: seq<NodeShape>)
    ensures Outcome(tpl, pos, true, first) && extracted == LayoutOk(ByName(first))
    ensures fresh(shapes) && byName == ByName(shapes[..])
    ensures if extracted then shapes[..] == first else Outcome(tpl, pos, false, shapes[..])
  {
    hide Outcome, LayoutOk, ByName;
    shapes, byName := Build(tpl, pos, true);
    first := shapes[..];
    extracted := LayoutValid(byName);
    if !extracted {
      shapes, byName := Build(tpl, pos, false);
    }
  }

  // ---------------------------------------------------------------------------
  // What keeps a valid layout valid
  // ---------------------------------------------------------------------------

  /** No two nodes of the list are too close. */
  ghost predicate AllApart(s: seq<NodeShape>) {
    forall i, j :: 0 <= i < |s| && 0 <= j < |s| && i != j ==> !TooClose(s[i], s[j])
  }

  lemma {:induction false} ByNameHolds(s: seq<NodeShape>, i: nat)
    requires UniqueNames(s) && i < |s|
    ensures s[i].name in ByName(s) && ByName(s)[s[i].name] == s[i]
    decreases |s|
  {
    var n := |s| - 1;
    if i < n {
      ByNameHolds(s[..n], i);
      assert s[i].name != s[n].name;
    }
  }

  lemma {:induction false} ByNameComesFrom(s: seq<NodeShape>, name: string) returns (i: nat)
    requires name in ByName(s)
    ensures i < |s| && s[i].name == name
    decreases |s|
  {
    var n := |s| - 1;
    if name == s[n].name {
      i := n;
    } else {
      i := ByNameComesFrom(s[..n], name);
    }
  }

  /** With unique names the check of the map is the check of the list. */
  lemma CheckedByName(s: seq<NodeShape>)
    requires UniqueNames(s)
    ensures LayoutOk(ByName(s)) <==> AllApart(s)
  {
    hide TooClose, ByName;
    var m := ByName(s);
    if AllApart(s) {
      forall a, b | a in m && b in m && a != b ensures !TooClose(m[a], m[b]) {
        var i := ByNameComesFrom(s, a);
        var j := ByNameComesFrom(s, b);
        ByNameHolds(s, i);
        ByNameHolds(s, j);
      }
    }
    if LayoutOk(m) {
      forall i, j | 0 <= i < |s| && 0 <= j < |s| && i != j ensures !TooClose(s[i], s[j]) {
        ByNameHolds(s, i);
        ByNameHolds(s, j);
        assert s[i].name != s[j].name;
        assert !TooClose(m[s[i].name], m[s[j].name]);
      }
    }
  }

  /** Main result: pushing nodes apart never makes two of them too close. */
  lemma MinGapKeepsApart(s: seq<NodeShape>, used: set<string>, rounds: nat)
    requires AllApart(s)
    ensures AllApart(Enforce(s, used, rounds))
  {
    var after := Enforce(s, used, rounds);
    EnforceKeeps(s, used, rounds);
    forall i, j | 0 <= i < |s| && 0 <= j < |s| && i != j ensures !TooClose(after[i], after[j]) {
      assert SameButY(after[i], s[i]) && SameButY(after[j], s[j]);
      if TooClose(after[i], after[j]) {
        CloseIsOverlap(after[i], after[j]);
        OverlapIsClose(s[i], s[j], after[i], after[j]);
      }
    }
  }

  lemma CloseIsOverlap(a: NodeShape, b: NodeShape)
    requires TooClose(a, b)
    ensures MinGap.Overlaps(a, b)
  {
  }

  lemma OverlapIsClose(a: NodeShape, b: NodeShape, a': NodeShape, b': NodeShape)
    requires SameButY(a', a) && SameButY(b', b) && TooClose(a', b') && MinGap.Overlaps(a, b)
    ensures TooClose(a, b)
  {
  }

  /** Clearing the header moves all nodes alike. */
  lemma ShiftKeepsApart(s: seq<NodeShape>)
    ensures AllApart(Shifted(s)) <==> AllApart(s)
  {
    hide ShiftBy;
    forall i, j | 0 <= i < |s| && 0 <= j < |s| && i != j
      ensures TooClose(Shifted(s)[i], Shifted(s)[j]) <==> TooClose(s[i], s[j])
    {
    }
  }

  /** `(x, y)` is the middle of what was drawn: a circle is given by its centre, a rectangle by its corner and size. */
  predicate IsMiddle(p: NodePos, x: real, y: real) {
    if p.circle then x == p.x && y == p.y
    else x - p.x == p.x + p.w - x && y - p.y == p.y + p.h - y
  }

  /** Where node `n` of the result was before the clearing: in the middle of its drawing `p`. */
  ghost predicate WasAt(n: NodeShape, p: NodePos, y: real, shift: real, scale: real) {
    IsMiddle(p, n.cx, y) && n.cy == ScaledY(y + shift, scale)
  }

  lemma ClearedAt(s: seq<NodeShape>, i: nat)
    requires i < |s|
    ensures Cleared(s)[i] == s[i].(cy := ScaledY(s[i].cy + ShiftBy(s), Scale(Shifted(s))))
  {
    hide Scale, ScaledY, ShiftBy;
  }

  lemma SeedIsMiddle(n: TemplateNode, pos: map<string, NodePos>)
    requires n.name in pos
    ensures var s := Seed(n, pos, true);
            && IsMiddle(pos[n.name], s.cx, s.cy) && s.name == n.name && s.role == n.role
            && (s.isHost <==> pos[n.name].circle || n.role == HostRole)
  {
  }

  /** Extracted nodes reach the clearing as they were drawn. */
  lemma SeedStays(tpl: seq<TemplateNode>, pos: map<string, NodePos>, laid: seq<NodeShape>,
                  core: seq<nat>, leaf: seq<nat>, result: seq<NodeShape>, i: nat)
    requires Built(tpl, pos, true, laid, core, leaf, result) && i < |tpl| && tpl[i].name in pos
    ensures var used := Used(tpl, pos, true);
            |laid| == |tpl| == |result| && Enforce(laid, used, ROUNDS)[i] == Seed(tpl[i], pos, true)
  {
    var used := Used(tpl, pos, true);
    EnforceKeeps(laid, used, ROUNDS);
    hide Enforce, Scale, ShiftBy, GroupOrder, NoNewOverlap, Spot;
    assert tpl[i] in tpl && tpl[i].name in used;
    assert Seeds(tpl, pos, true)[i].name == tpl[i].name;
  }

  /** What a build keeps of an extracted node: who it is, its shape, and its place but for the clearing. */
  ghost predicate AsDrawn(n: NodeShape, t: TemplateNode, p: NodePos, shift: real, scale: real) {
    && n.name == t.name && n.role == t.role && (n.isHost <==> p.circle || t.role == HostRole)
    && exists y :: WasAt(n, p, y, shift, scale)
  }

  lemma ExtractedNode(tpl: seq<TemplateNode>, pos: map<string, NodePos>, laid: seq<NodeShape>,
                      core: seq<nat>, leaf: seq<nat>, result: seq<NodeShape>, i: nat)
    requires Built(tpl, pos, true, laid, core, leaf, result) && i < |tpl| && tpl[i].name in pos
    ensures var pushed := Enforce(laid, Used(tpl, pos, true), ROUNDS);
            i < |result| && AsDrawn(result[i], tpl[i], pos[tpl[i].name], ShiftBy(pushed), Scale(Shifted(pushed)))
  {
    hide Enforce, Scale, ShiftBy, Shifted, Cleared, ScaledY, Seed, IsMiddle, Built, WasAt;
    var pushed := Enforce(laid, Used(tpl, pos, true), ROUNDS);
    BuiltLength(tpl, pos, laid, core, leaf, result);
    SeedStays(tpl, pos, laid, core, leaf, result, i);
    SeedIsMiddle(tpl[i], pos);
    ClearedAt(pushed, i);
    NodeWasAt(result[i], pos[tpl[i].name], Seed(tpl[i], pos, true), ShiftBy(pushed), Scale(Shifted(pushed)));
  }

  /** Main result: a build keeps every extracted node where it was drawn, but for what clearing header and legend does
      to all nodes alike: one shift down, and one compression towards y=55. */
  lemma ExtractedStay(tpl: seq<TemplateNode>, pos: map<string, NodePos>, result: seq<NodeShape>)
    returns (shift: real, scale: real)
    requires Outcome(tpl, pos, true, result)
    ensures |result| == |tpl| && shift >= 0.0 && 0.0 < scale <= 1.0
    ensures forall i :: 0 <= i < |tpl| && tpl[i].name in pos ==>
              AsDrawn(result[i], tpl[i], pos[tpl[i].name], shift, scale)
  {
    hide Enforce, Scale, ShiftBy, Shifted, Cleared, Built, AsDrawn, Used;
    var laid, core, leaf :| Built(tpl, pos, true, laid, core, leaf, result);
    var pushed := Enforce(laid, Used(tpl, pos, true), ROUNDS);
    shift, scale := ShiftBy(pushed), Scale(Shifted(pushed));
    BuiltLength(tpl, pos, laid, core, leaf, result);
    ShiftAndScale(pushed);
    forall i | 0 <= i < |tpl| && tpl[i].name in pos
      ensures AsDrawn(result[i], tpl[i], pos[tpl[i].name], shift, scale)
    {
      ExtractedNode(tpl, pos, laid, core, leaf, result, i);
    }
  }

  lemma NodeWasAt(n: NodeShape, p: NodePos, seed: NodeShape, shift: real, scale: real)
    requires IsMiddle(p, seed.cx, seed.cy) && n == seed.(cy := ScaledY(seed.cy + shift, scale))
    ensures WasAt(n, p, seed.cy, shift, scale)
  {
    hide IsMiddle, ScaledY;
  }

  lemma BuiltLength(tpl: seq<TemplateNode>, pos: map<string, NodePos>, laid: seq<NodeShape>,
                    core: seq<nat>, leaf: seq<nat>, result: seq<NodeShape>)
    requires Built(tpl, pos, true, laid, core, leaf, result)
    ensures |result| == |tpl| && result == Cleared(Enforce(laid, Used(tpl, pos, true), ROUNDS))
  {
    hide GroupOrder, Spot, Shifted, Compressed;
  }

  lemma ShiftAndScale(s: seq<NodeShape>)
    ensures ShiftBy(s) >= 0.0 && 0.0 < Scale(Shifted(s)) <= 1.0
  {
    ScaleRange(Shifted(s));
    hide Scale, MinTop;
  }

  /** Near enough in x for their vertical distance to matter. */
  predicate Share(a: NodeShape, b: NodeShape) {
    Abs(a.cx - b.cx) < HalfW(a) + HalfW(b)
  }

  /** A vertical distance that stays large enough under the compression. */
  predicate Survives(dy: real, scale: real) {
    dy * scale >= 60.0
  }

  lemma {:induction false} EdgesBound(s: seq<NodeShape>, i: nat)
    requires i < |s|
    ensures MinTop(s) <= s[i].cy - HalfH(s[i]) && s[i].cy + HalfH(s[i]) <= MaxBottom(s)
    decreases |s|
  {
    var n := |s| - 1;
    if i < n {
      EdgesBound(s[..n], i);
    }
  }

  lemma ScaleRange(s: seq<NodeShape>)
    ensures 0.0 < Scale(s) <= 1.0
    ensures Scale(s) < 1.0 ==> s != [] && Scale(s) * (MaxBottom(s) - TOP_CLEARANCE) == 310.0
    ensures Scale(s) == 1.0 ==> s == [] || MaxBottom(s) <= LEGEND_CLEARANCE
  {
    if s != [] && MaxBottom(s) > LEGEND_CLEARANCE {
      QuotientBelowOne(310.0, MaxBottom(s) - TOP_CLEARANCE, Scale(s));
    }
  }

  lemma QuotientBelowOne(n: real, d: real, q: real)
    requires 0.0 < n < d && q == n / d
    ensures 0.0 < q < 1.0 && q * d == n
  {
    assert q * d == n;
    if q <= 0.0 {
      MulMono(d, q, 0.0);
    }
    if q >= 1.0 {
      MulMono(d, 1.0, q);
    }
  }

  lemma ScaledDistance(y: real, z: real, scale: real)
    requires scale > 0.0
    ensures Abs(ScaledY(y, scale) - ScaledY(z, scale)) == Abs(y - z) * scale
  {
    assert ScaledY(y, scale) - ScaledY(z, scale) == (y - z) * scale;
    if y > z {
      MulPositive(y - z, scale, (y - z) * scale);
    } else if y < z {
      MulPositive(z - y, scale, (z - y) * scale);
    }
  }

  lemma PairCompressed(a: NodeShape, b: NodeShape, a': NodeShape, b': NodeShape, scale: real)
    requires scale > 0.0 && a' == a.(cy := ScaledY(a.cy, scale)) && b' == b.(cy := ScaledY(b.cy, scale))
    ensures TooClose(a', b') <==> Share(a, b) && !Survives(Abs(a.cy - b.cy), scale)
  {
    ScaledDistance(a.cy, b.cy, scale);
    TooCloseSymmetric(a', b');
    hide ScaledY, TooClose;
    assert HalfW(a') == HalfW(a) && HalfW(b') == HalfW(b) && HalfH(a') + HalfH(b') == 60.0;
  }

  /** Main result: the compression leaves a layout valid exactly if every pair that shares a column is far
      enough apart for the factor. */
  lemma CompressionExactly(s: seq<NodeShape>)
    ensures AllApart(Compressed(s)) <==>
            forall i, j :: 0 <= i < |s| && 0 <= j < |s| && i != j && Share(s[i], s[j]) ==>
              Survives(Abs(s[i].cy - s[j].cy), Scale(s))
  {
    ScaleRange(s);
    hide Scale, Survives, Share, TooClose, ScaledY;
    var r := Compressed(s);
    forall i, j | 0 <= i < |s| && 0 <= j < |s| && i != j
      ensures TooClose(r[i], r[j]) <==> Share(s[i], s[j]) && !Survives(Abs(s[i].cy - s[j].cy), Scale(s))
    {
      PairCompressed(s[i], s[j], r[i], r[j], Scale(s));
    }
  }

  // ---------------------------------------------------------------------------
  // How many nodes fit into a column
  // ---------------------------------------------------------------------------

  lemma {:induction false} MaxIndex(v: seq<real>) returns (m: nat)
    requires v != []
    ensures m < |v| && forall i :: 0 <= i < |v| ==> v[i] <= v[m]
    decreases |v|
  {
    var n := |v| - 1;
    m := n;
    if n == 0 {
    } else {
      var k := MaxIndex(v[..n]);
      if v[k] > v[n] {
        m := k;
      }
      assert forall i :: 0 <= i < n ==> v[i] == v[..n][i] <= v[..n][k] == v[k];
    }
  }

  ghost predicate Spaced(v: seq<real>) {
    forall i, j :: 0 <= i < j < |v| ==> Abs(v[i] - v[j]) >= 60.0
  }

  /** Numbers at least 60 apart need room. */
  lemma {:induction false} SpacedNeedRoom(v: seq<real>, lo: real, hi: real)
    requires v != [] && Spaced(v) && forall i :: 0 <= i < |v| ==> lo <= v[i] <= hi
    ensures 60.0 * (|v| - 1) as real <= hi - lo
    decreases |v|
  {
    assert lo <= v[0] <= hi;
    if |v| > 1 {
      var m := MaxIndex(v);
      var rest := v[..m] + v[m + 1..];
      forall i | 0 <= i < |rest| ensures lo <= rest[i] <= v[m] - 60.0 {
        assert rest[i] == if i < m then v[i] else v[i + 1];
      }
      forall i, j | 0 <= i < j < |rest| ensures Abs(rest[i] - rest[j]) >= 60.0 {
        assert rest[i] == if i < m then v[i] else v[i + 1];
        assert rest[j] == if j < m then v[j] else v[j + 1];
      }
      SpacedNeedRoom(rest, lo, v[m] - 60.0);
      var n := (|rest| - 1) as real;
      assert (|v| - 1) as real == n + 1.0 && v[m] <= hi;
    }
  }

  /** Distinct nodes with the same x coordinate. */
  ghost predicate Column(s: seq<NodeShape>, idx: seq<nat>) {
    && (forall k :: 0 <= k < |idx| ==> idx[k] < |s|)
    && (forall k :: 0 <= k < |idx| ==> s[idx[k]].cx == s[idx[0]].cx)
    && (forall k, l :: 0 <= k < l < |idx| ==> idx[k] != idx[l])
  }

  lemma ColumnNeedsRoom(s: seq<NodeShape>, idx: seq<nat>, lo: real, hi: real)
    requires Column(s, idx) && AllApart(s) && idx != []
    requires forall k :: 0 <= k < |idx| ==> lo <= s[idx[k]].cy <= hi
    ensures 60.0 * (|idx| - 1) as real <= hi - lo
  {
    var v := seq(|idx|, k requires 0 <= k < |idx| => s[idx[k]].cy);
    forall i, j | 0 <= i < j < |v| ensures Abs(v[i] - v[j]) >= 60.0 {
      assert !TooClose(s[idx[i]], s[idx[j]]);
    }
    hide Column, AllApart;
    SpacedNeedRoom(v, lo, hi);
  }

  lemma ScaledIs(cy: real, k: real, product: real)
    requires product == (cy - TOP_CLEARANCE) * k
    ensures ScaledY(cy, k) == TOP_CLEARANCE + product
  {
  }

  lemma Band(y: real, k: real, tall: real, y': real)
    requires 0.0 < k <= 1.0 && y >= 30.0 && y' == y * k
    requires if k < 1.0 then y + 30.0 <= tall && k * tall == 310.0 else y <= 310.0
    ensures 30.0 * k <= y' <= if k < 1.0 then 310.0 - 30.0 * k else 310.0
  {
    MulMono(k, 30.0, y);
    if k < 1.0 {
      MulMono(k, y + 30.0, tall);
      assert k * (y + 30.0) == k * y + 30.0 * k;
    }
  }

  lemma {:induction false} EdgesAttained(s: seq<NodeShape>) returns (i: nat, j: nat)
    requires s != []
    ensures i < |s| && MinTop(s) == s[i].cy - 30.0
    ensures j < |s| && MaxBottom(s) == s[j].cy + 30.0
    decreases |s|
  {
    var n := |s| - 1;
    i, j := n, n;
    if n > 0 {
      var a, b := EdgesAttained(s[..n]);
      i := if s[n].cy <= s[a].cy then n else a;
      j := if s[n].cy >= s[b].cy then n else b;
    }
  }

  /** Nodes that are all clear of the header stay. Otherwise all move by the same way, after which none is less than
      30 px below y=55 and some node is exactly that far. */
  lemma ShiftExactly(s: seq<NodeShape>)
    ensures var low := forall i :: 0 <= i < |s| ==> s[i].cy >= 85.0;
            && (low ==> Shifted(s) == s)
            && (!low ==> exists i :: 0 <= i < |s| && Shifted(s)[i].cy == 85.0)
            && (forall i :: 0 <= i < |s| ==> Shifted(s)[i].cy >= 85.0)
            && (forall i, j :: 0 <= i < |s| && 0 <= j < |s| ==>
                  Shifted(s)[i] == s[i].(cy := s[i].cy + (Shifted(s)[j].cy - s[j].cy)))
  {
    hide MinTop;
    if s != [] {
      var i, _ := EdgesAttained(s);
      forall j | 0 <= j < |s| ensures MinTop(s) <= s[j].cy - 30.0 {
        EdgesBound(s, j);
      }
      assert Shifted(s)[i].cy == s[i].cy + ShiftBy(s);
    }
  }

  /** Compressed by `k`, the bottom edge of the lowest node comes to y=365. */
  ghost predicate BottomAt365(s: seq<NodeShape>, k: real) {
    exists m :: 0 <= m < |s| && (forall i :: 0 <= i < |s| ==> s[i].cy <= s[m].cy) && (s[m].cy + 30.0 - 55.0) * k == 365.0 - 55.0
  }

  /** Every distance from y=55 shrinks by the factor `k`. */
  predicate ShrunkBy(s: seq<NodeShape>, r: seq<NodeShape>, k: real) {
    |r| == |s| && forall i :: 0 <= i < |s| ==> r[i] == s[i].(cy := 55.0 + (s[i].cy - 55.0) * k)
  }

  /** Nodes that are all clear of the legend stay. Otherwise all distances from y=55 shrink by the same factor, which
      brings the lowest edge to y=365. */
  lemma CompressExactly(s: seq<NodeShape>)
    ensures (forall i :: 0 <= i < |s| ==> s[i].cy + 30.0 <= 395.0) ==> Compressed(s) == s
    ensures (exists i :: 0 <= i < |s| && s[i].cy + 30.0 > 395.0) ==>
            exists k :: 0.0 < k < 1.0 && BottomAt365(s, k) && ShrunkBy(s, Compressed(s), k)
  {
    hide MaxBottom, Scale, Compressed, BottomAt365, ShrunkBy;
    if s == [] || MaxBottom(s) <= 395.0 {
      NoNeedToScale(s);
      ScaleOneIsSame(s);
    } else {
      LowestEdge(s);
    }
    forall j | 0 <= j < |s| ensures s[j].cy + 30.0 <= MaxBottom(s) {
      EdgesBound(s, j);
    }
    if s != [] {
      var _, m := EdgesAttained(s);
    }
  }

  lemma LowestEdge(s: seq<NodeShape>)
    requires s != [] && MaxBottom(s) > 395.0
    ensures 0.0 < Scale(s) < 1.0 && BottomAt365(s, Scale(s)) && ShrunkBy(s, Compressed(s), Scale(s))
  {
    ScaleRange(s);
    hide MaxBottom, Scale, ScaledY;
    var _, m := EdgesAttained(s);
    forall j | 0 <= j < |s| ensures s[j].cy <= s[m].cy {
      EdgesBound(s, j);
    }
    assert Scale(s) * (s[m].cy + 30.0 - 55.0) == 310.0;
    ShrinksAll(s);
    hide Compressed, ShrunkBy;
  }

  lemma ShrinksAll(s: seq<NodeShape>)
    ensures ShrunkBy(s, Compressed(s), Scale(s))
  {
    hide Scale;
  }

  lemma NoNeedToScale(s: seq<NodeShape>)
    requires s == [] || MaxBottom(s) <= 395.0
    ensures Scale(s) == 1.0
  {
  }

  /** Where the centres can be after clearing. */
  lemma ClearedBand(s: seq<NodeShape>, i: nat)
    requires i < |s|
    ensures var k := Scale(Shifted(s));
            TOP_CLEARANCE + 30.0 * k <= Cleared(s)[i].cy <= (if k < 1.0 then 365.0 - 30.0 * k else 365.0)
  {
    hide MinTop, MaxBottom, Scale, ScaledY;
    var t := Shifted(s);
    var k := Scale(t);
    EdgesBound(s, i);
    EdgesBound(t, i);
    ScaleRange(t);
    assert HalfH(s[i]) == 30.0 && HalfH(t[i]) == 30.0;
    assert t[i].cy >= 85.0;
    var y := t[i].cy - TOP_CLEARANCE;
    assert Cleared(s)[i].cy == ScaledY(t[i].cy, k);
    ScaledIs(t[i].cy, k, y * k);
    hide Cleared, Shifted;
    Band(y, k, MaxBottom(t) - TOP_CLEARANCE, y * k);
  }

  /** Main result: a cleared layout that passes the check has at most five nodes in a column; a sixth fits
      only in a picture compressed to a sixth of its height or less, and a seventh never. */
  lemma ColumnHoldsFive(s: seq<NodeShape>, idx: seq<nat>)
    requires AllApart(Cleared(s)) && Column(Cleared(s), idx)
    ensures |idx| <= 6 && (|idx| == 6 ==> Scale(Shifted(s)) <= 1.0 / 6.0)
  {
    if idx != [] {
      var k := Scale(Shifted(s));
      ScaleRange(Shifted(s));
      forall i | 0 <= i < |idx|
        ensures TOP_CLEARANCE + 30.0 * k <= Cleared(s)[idx[i]].cy <= (if k < 1.0 then 365.0 - 30.0 * k else 365.0)
      {
        ClearedBand(s, idx[i]);
      }
      hide Scale, Cleared, AllApart, Column;
      ColumnNeedsRoom(Cleared(s), idx, TOP_CLEARANCE + 30.0 * k, if k < 1.0 then 365.0 - 30.0 * k else 365.0);
      assert |idx| >= 7 ==> (|idx| - 1) as real >= 6.0;
    }
  }
}
