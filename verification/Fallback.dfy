/**
 The fallback of layoutLab in tools/topogen/render.go: the build without extracted positions is not
 checked. Which templates it serves and which it fails, read off the two node counts. What the counts leave
 open is settled in Listing.
 */
module Fallback {
  import opened Reals
  import opened Shapes
  import opened Sizes
  import opened LayoutCheck
  import opened AutoLayout
  import opened MinGap
  import opened LayoutLab
  import Chain
  import Settle

  // ---------------------------------------------------------------------------
  // Templates and their counts
  // ---------------------------------------------------------------------------

  ghost predicate UniqueTemplate(tpl: seq<TemplateNode>) {
    forall i, j :: 0 <= i < j < |tpl| ==> tpl[i].name != tpl[j].name
  }

  ghost function Members(tpl: seq<TemplateNode>, leaf: bool): set<nat> {
    set i: nat | i < |tpl| && LeafRole(tpl[i].role) == leaf
  }

  /** How many nodes of the template go into a group. */
  ghost function Count(tpl: seq<TemplateNode>, leaf: bool): nat {
    |Members(tpl, leaf)|
  }

  lemma CountIs(before: seq<NodeShape>, tpl: seq<TemplateNode>, order: seq<nat>, leaf: bool)
    requires GroupOrder(order, before, {}, leaf) && |before| == |tpl|
    requires forall i :: 0 <= i < |tpl| ==> before[i].role == tpl[i].role
    ensures |order| == Count(tpl, leaf)
  {
    forall m: nat ensures m in Elements(order) <==> m in Members(tpl, leaf) {
      assert m in order <==> m < |tpl| && InGroup(before[m], {}, leaf);
    }
    assert Elements(order) == Members(tpl, leaf);
    DistinctSize(order);
  }

  /** The group lengths of a build are the template's counts. */
  lemma BuiltCounts(tpl: seq<TemplateNode>, pos: map<string, NodePos>, laid: seq<NodeShape>,
                    core: seq<nat>, leaf: seq<nat>, result: seq<NodeShape>)
    requires Built(tpl, pos, false, laid, core, leaf, result)
    ensures |core| == Count(tpl, false) && |leaf| == Count(tpl, true)
  {
    hide GroupOrder, Count, Spot;
    var seeds := Seeds(tpl, pos, false);
    assert Used(tpl, pos, false) == {};
    CountIs(seeds, tpl, core, false);
    CountIs(seeds, tpl, leaf, true);
  }

  /** How many rows of a group have a node in the middle of the canvas. */
  function Middle(n: nat): nat {
    n / 3 + if n % 3 == 1 then 1 else 0
  }

  /** The group ends in a row of two, which stand between the columns of all other rows. */
  predicate EndsInPair(n: nat) {
    n % 3 == 2
  }

  /** At most three rows, or four without a pair. */
  predicate Roomy(cores: nat, leaves: nat) {
    var rows := Rows(cores) + Rows(leaves);
    rows <= 3 || (rows == 4 && !EndsInPair(cores) && !EndsInPair(leaves))
  }

  /** At least six nodes in the middle column, or five and no pair. */
  predicate Crowded(cores: nat, leaves: nat) {
    var middle := Middle(cores) + Middle(leaves);
    middle >= 6 || (middle == 5 && !EndsInPair(cores) && !EndsInPair(leaves))
  }

  /** A build keeps the nodes and their names. */
  lemma BuildKeepsNames(tpl: seq<TemplateNode>, pos: map<string, NodePos>, laid: seq<NodeShape>,
                        core: seq<nat>, leaf: seq<nat>, result: seq<NodeShape>)
    requires Built(tpl, pos, false, laid, core, leaf, result) && UniqueTemplate(tpl)
    ensures UniqueNames(result)
  {
    var seeds := Seeds(tpl, pos, false);
    assert Used(tpl, pos, false) == {};
    var pushed := Enforce(laid, {}, ROUNDS);
    assert |laid| == |tpl|;
    EnforceKeeps(laid, {}, ROUNDS);
    forall i | 0 <= i < |result| ensures result[i].name == tpl[i].name {
      var k := FindSpot(seeds, laid, {}, core, leaf, i);
      hide LaidOut, Enforce, Scale, ShiftBy, ScaledY, Spot;
      assert SameButY(pushed[i], laid[i]);
    }
  }

  lemma {:induction false} MaxBottomBelow(s: seq<NodeShape>, bound: real)
    requires s != [] && forall i :: 0 <= i < |s| ==> s[i].cy + 30.0 <= bound
    ensures MaxBottom(s) <= bound
    decreases |s|
  {
    if |s| > 1 {
      MaxBottomBelow(s[..|s| - 1], bound);
    }
  }

  lemma {:induction false} MinTopAbove(s: seq<NodeShape>, bound: real)
    requires s != [] && forall i :: 0 <= i < |s| ==> s[i].cy - 30.0 >= bound
    ensures MinTop(s) >= bound
    decreases |s|
  {
    if |s| > 1 {
      MinTopAbove(s[..|s| - 1], bound);
    }
  }

  // ---------------------------------------------------------------------------
  // The grid of the fallback
  // ---------------------------------------------------------------------------

  /** Node `i` is the k-th of its group. */
  ghost predicate IsRank(before: seq<NodeShape>, laid: seq<NodeShape>, core: seq<nat>, leaf: seq<nat>, i: nat, k: nat) {
    && i < |before| && i < |laid|
    && var order := if IsLeaf(before[i]) then leaf else core;
       && k < |order| && order[k] == i
       && laid[i] == MovedTo(before[i], Spot(IsLeaf(before[i]), k, |core|, |leaf|))
  }

  ghost predicate Ranked(before: seq<NodeShape>, laid: seq<NodeShape>, core: seq<nat>, leaf: seq<nat>, ranks: seq<nat>) {
    && |laid| == |ranks| == |before|
    && forall i :: 0 <= i < |before| ==> IsRank(before, laid, core, leaf, i, ranks[i])
  }

  lemma FindRanks(before: seq<NodeShape>, laid: seq<NodeShape>, core: seq<nat>, leaf: seq<nat>) returns (ranks: seq<nat>)
    requires LaidOut(before, laid, {}, core, leaf)
    ensures Ranked(before, laid, core, leaf, ranks)
  {
    hide GroupOrder, Spot;
    ranks := [];
    for i := 0 to |before|
      invariant |ranks| == i && forall k :: 0 <= k < i ==> IsRank(before, laid, core, leaf, k, ranks[k])
    {
      var k := FindSpot(before, laid, {}, core, leaf, i);
      ranks := ranks + [k];
    }
  }

  /** The row of every node. */
  function RowsOf(before: seq<NodeShape>, ranks: seq<nat>, cores: nat): (rows: seq<int>)
    requires |ranks| == |before|
    ensures |rows| == |before| && forall i :: 0 <= i < |rows| ==> rows[i] == GridRow(IsLeaf(before[i]), ranks[i], cores)
  {
    seq(|before|, i requires 0 <= i < |before| => GridRow(IsLeaf(before[i]), ranks[i], cores))
  }

  /** Where a node stands, in terms of its rank. */
  lemma RankedSpot(before: seq<NodeShape>, laid: seq<NodeShape>, core: seq<nat>, leaf: seq<nat>, ranks: seq<nat>, i: nat)
    requires Ranked(before, laid, core, leaf, ranks) && i < |before|
    ensures var group := IsLeaf(before[i]);
            var n := if group then |leaf| else |core|;
            && ranks[i] < n
            && GridRow(group, ranks[i], |core|) < Rows(|core|) + Rows(|leaf|)
            && laid[i].cx == ColumnX(RowCount(ranks[i], n), ranks[i] % 3)
            && laid[i].cy == RowY(TOP, GridRow(group, ranks[i], |core|), RowH(Rows(|core|) + Rows(|leaf|)))
  {
    hide Spot, ColumnX, RowY, RowH, RowCount;
    assert IsRank(before, laid, core, leaf, i, ranks[i]);
    SpotOnGrid(IsLeaf(before[i]), ranks[i], |core|, |leaf|);
  }

  /** In a group without a row of two all nodes stand in three columns. */
  lemma ThreeColumns(k: nat, n: nat)
    requires k < n && !EndsInPair(n)
    ensures ColumnX(RowCount(k, n), k % 3) == 195.0 + 190.0 * (if RowCount(k, n) == 1 then 1 else k % 3) as real
    ensures ColumnX(RowCount(k, n), k % 3) == 385.0 <==> k == MiddleRank(k / 3, n)
  {
    assert RowCount(k, n) == 3 || RowCount(k, n) == 1;
    assert k % 3 == 0 || k % 3 == 1 || k % 3 == 2;
  }

  /** The rank of the node in the middle of a row. */
  function MiddleRank(row: nat, n: nat): nat {
    if 3 * row + 1 < n then 3 * row + 1 else 3 * row
  }

  // ---------------------------------------------------------------------------
  // Up to four rows
  // ---------------------------------------------------------------------------

  lemma RowsDiffer(before: seq<NodeShape>, laid: seq<NodeShape>, core: seq<nat>, leaf: seq<nat>, ranks: seq<nat>,
                   i: nat, j: nat)
    requires LaidOut(before, laid, {}, core, leaf) && Ranked(before, laid, core, leaf, ranks)
    requires i < |before| && j < |before| && i != j && SameColumn(laid[i], laid[j])
    ensures RowsOf(before, ranks, |core|)[i] != RowsOf(before, ranks, |core|)[j]
  {
    hide LaidOut, ColumnX, RowY, RowH, Spot;
    assert IsRank(before, laid, core, leaf, i, ranks[i]) && IsRank(before, laid, core, leaf, j, ranks[j]);
    RankedSpot(before, laid, core, leaf, ranks, i);
    RankedSpot(before, laid, core, leaf, ranks, j);
    SpotsApart(IsLeaf(before[i]), ranks[i], IsLeaf(before[j]), ranks[j], |core|, |leaf|);
  }

  /** The nodes of one row, at most three. */
  function RowMembers(core: seq<nat>, leaf: seq<nat>, row: nat): (list: seq<nat>)
    ensures |list| <= 3
  {
    var group := row >= Rows(|core|);
    var order := if group then leaf else core;
    var from := 3 * if group then row - Rows(|core|) else row;
    if from >= |order| then [] else order[from..if from + 3 < |order| then from + 3 else |order|]
  }

  lemma InItsRow(before: seq<NodeShape>, laid: seq<NodeShape>, core: seq<nat>, leaf: seq<nat>, j: nat, k: nat)
    requires IsRank(before, laid, core, leaf, j, k)
    ensures j in RowMembers(core, leaf, GridRow(IsLeaf(before[j]), k, |core|))
  {
    hide Spot;
    var list := RowMembers(core, leaf, GridRow(IsLeaf(before[j]), k, |core|));
    var from := 3 * (k / 3);
    assert |core| <= 3 * Rows(|core|);
    hide Rows;
    assert list[k - from] == j;
  }

  /** A row has at most three nodes. */
  lemma ThreeBeside(before: seq<NodeShape>, laid: seq<NodeShape>, core: seq<nat>, leaf: seq<nat>, ranks: seq<nat>,
                    i: nat, row: int)
    requires Ranked(before, laid, core, leaf, ranks) && i < |before|
    ensures |Settle.Beside(laid, RowsOf(before, ranks, |core|), i, row)| <= 3
  {
    hide IsRank, RowMembers, GridRow;
    var beside := Settle.Beside(laid, RowsOf(before, ranks, |core|), i, row);
    if beside != {} {
      var some :| some in beside;
      var list := RowMembers(core, leaf, row);
      forall j | j in beside ensures j in list {
        InItsRow(before, laid, core, leaf, j, ranks[j]);
      }
      ListSize(list);
      SubsetSize(beside, Elements(list));
    }
  }

  /** Without pairs a column has at most one node in a row. */
  lemma OneBeside(before: seq<NodeShape>, laid: seq<NodeShape>, core: seq<nat>, leaf: seq<nat>, ranks: seq<nat>,
                  i: nat, row: int)
    requires LaidOut(before, laid, {}, core, leaf) && Ranked(before, laid, core, leaf, ranks) && i < |before|
    requires !EndsInPair(|core|) && !EndsInPair(|leaf|)
    ensures |Settle.Beside(laid, RowsOf(before, ranks, |core|), i, row)| <= 1
  {
    var beside := Settle.Beside(laid, RowsOf(before, ranks, |core|), i, row);
    hide LaidOut;
    forall j, k | j in beside && k in beside ensures j == k {
      InThreeColumns(before, laid, core, leaf, ranks, i);
      InThreeColumns(before, laid, core, leaf, ranks, j);
      InThreeColumns(before, laid, core, leaf, ranks, k);
      hide Ranked;
      if j != k {
        RowsDiffer(before, laid, core, leaf, ranks, j, k);
      }
    }
    AtMostOne(beside);
  }

  lemma InThreeColumns(before: seq<NodeShape>, laid: seq<NodeShape>, core: seq<nat>, leaf: seq<nat>, ranks: seq<nat>,
                       i: nat)
    requires Ranked(before, laid, core, leaf, ranks) && i < |before|
    requires !EndsInPair(|core|) && !EndsInPair(|leaf|)
    ensures laid[i].cx == 195.0 || laid[i].cx == 385.0 || laid[i].cx == 575.0
  {
    hide ColumnX, RowCount;
    RankedSpot(before, laid, core, leaf, ranks, i);
    ThreeColumns(ranks[i], if IsLeaf(before[i]) then |leaf| else |core|);
  }

  lemma FewRowHeights(rows: nat)
    requires 2 <= rows <= 4
    ensures RowH(rows) == if rows == 2 then 120.0 else if rows == 3 then 112.5 else 75.0
  {
    assert rows == 2 || rows == 3 || rows == 4;
    assert 225.0 / 2.0 == 112.5 && 225.0 / 3.0 == 75.0;
  }

  lemma LevelIs(row: nat, h: real)
    requires row <= 3
    ensures RowY(TOP, row, h) == Settle.Level(row, h)
  {
    assert row == 0 || row == 1 || row == 2 || row == 3;
  }

  lemma TimesAtMost(d: real, n: nat, m: nat)
    requires d >= 0.0 && n <= m
    ensures Times(d, n) <= d * m as real
  {
    MulMono(d, n as real, m as real);
  }

  /** The grid before any push. */
  lemma StartsSettled(before: seq<NodeShape>, laid: seq<NodeShape>, core: seq<nat>, leaf: seq<nat>) returns (rows: seq<int>)
    requires LaidOut(before, laid, {}, core, leaf) && Roomy(|core|, |leaf|)
    ensures var total := Rows(|core|) + Rows(|leaf|);
            Settle.Settled(laid, rows, total - 1, RowH(total))
  {
    var total := Rows(|core|) + Rows(|leaf|);
    var h := RowH(total);
    FewRowHeights(total);
    var ranks := FindRanks(before, laid, core, leaf);
    rows := RowsOf(before, ranks, |core|);
    hide LaidOut, Rows, RowH, ColumnX, RowY, Times, Settle.Level;
    forall i | 0 <= i < |laid| ensures 0 <= rows[i] < total && laid[i].cy == Settle.Level(rows[i], h) {
      RankedSpot(before, laid, core, leaf, ranks, i);
      LevelIs(rows[i], h);
    }
    forall i, j | 0 <= i < |laid| && 0 <= j < |laid| && i != j && rows[i] == rows[j]
      ensures !SameColumn(laid[i], laid[j])
    {
      if SameColumn(laid[i], laid[j]) {
        RowsDiffer(before, laid, core, leaf, ranks, i, j);
      }
    }
    forall i, row | 0 <= i < |laid| ensures Settle.FewBeside(laid, rows, h, i, row) {
      var few := |Settle.Beside(laid, rows, i, row)|;
      if total <= 3 {
        ThreeBeside(before, laid, core, leaf, ranks, i, row);
        TimesAtMost(Settle.Slack(h), few, 3);
      } else {
        OneBeside(before, laid, core, leaf, ranks, i, row);
        TimesAtMost(Settle.Slack(h), few, 1);
      }
    }
  }

  /** A settled grid is at least its row height apart, and not too tall for that to survive the compression. */
  lemma SettledSurvives(s: seq<NodeShape>, rows: seq<int>, last: nat, h: real, i: nat, j: nat)
    requires Settle.Settled(s, rows, last, h) && i < |s| && j < |s| && i != j && SameColumn(s[i], s[j])
    ensures Abs(s[i].cy - s[j].cy) >= h
  {
    if rows[i] < rows[j] {
      Settle.RowsInOrder(s, rows, last, h, i, j);
    } else {
      Settle.RowsInOrder(s, rows, last, h, j, i);
    }
  }

  lemma SettledBand(s: seq<NodeShape>, rows: seq<int>, last: nat, h: real, i: nat)
    requires Settle.Settled(s, rows, last, h) && i < |s|
    ensures h - 16.0 <= s[i].cy <= Settle.Level(last, h) + 126.0 - h
  {
    hide Settle.Beside, Settle.FewBeside;
    assert Settle.InPlace(s, rows, last, h, i);
  }

  lemma SettledHeight(s: seq<NodeShape>, rows: seq<int>, last: nat, h: real)
    requires Settle.Settled(s, rows, last, h) && s != []
    requires h == if last == 1 then 120.0 else if last == 2 then 112.5 else 75.0
    requires 1 <= last <= 3
    ensures var bottom := MaxBottom(Shifted(s)); bottom <= (if last == 3 then 442.0 else 395.0)
  {
    var low, high := h - 16.0, Settle.Level(last, h) + 126.0 - h;
    forall i | 0 <= i < |s| ensures low <= s[i].cy <= high {
      SettledBand(s, rows, last, h, i);
    }
    hide Settle.Settled;
    MinTopAbove(s, low - 30.0);
    MaxBottomBelow(Shifted(s), if low - 30.0 < TOP_CLEARANCE then high - low + 115.0 else high + 30.0);
  }

  lemma Rescaled(k: real, tall: real, h: real)
    requires k > 0.0 && k * tall == 310.0 && tall <= 387.0 && h >= 75.0
    ensures k * h >= 60.0
  {
    MulMono(k, tall, 387.0);
    MulMono(k, 75.0, h);
  }

  lemma Scaled(dy: real, h: real, k: real)
    requires k > 0.0 && dy >= h && k * h >= 60.0
    ensures Survives(dy, k)
  {
    MulMono(k, h, dy);
  }

  lemma LowEnough(pushed: seq<NodeShape>, rows: seq<int>, last: nat, h: real)
    requires Settle.Settled(pushed, rows, last, h)
    requires 1 <= last <= 3 && h == if last == 1 then 120.0 else if last == 2 then 112.5 else 75.0
    ensures var k := Scale(Shifted(pushed)); k > 0.0 && k * h >= 60.0
  {
    hide Scale, ShiftBy, MinTop, MaxBottom, Settle.Settled;
    var s := Shifted(pushed);
    ScaleRange(s);
    if s != [] {
      SettledHeight(pushed, rows, last, h);
    }
    if Scale(s) < 1.0 {
      Rescaled(Scale(s), MaxBottom(s) - TOP_CLEARANCE, h);
    }
  }

  lemma SettledPasses(pushed: seq<NodeShape>, rows: seq<int>, last: nat, h: real)
    requires Settle.Settled(pushed, rows, last, h)
    requires 1 <= last <= 3 && h == if last == 1 then 120.0 else if last == 2 then 112.5 else 75.0
    ensures AllApart(Cleared(pushed))
  {
    hide Scale, ShiftBy, Survives;
    LowEnough(pushed, rows, last, h);
    var s := Shifted(pushed);
    CompressionExactly(s);
    forall i, j | 0 <= i < |s| && 0 <= j < |s| && i != j && Share(s[i], s[j])
      ensures Survives(Abs(s[i].cy - s[j].cy), Scale(s))
    {
      SettledSurvives(pushed, rows, last, h, i, j);
      hide Settle.Settled;
      Scaled(Abs(s[i].cy - s[j].cy), h, Scale(s));
    }
  }

  lemma RoomyGridPasses(before: seq<NodeShape>, laid: seq<NodeShape>, core: seq<nat>, leaf: seq<nat>)
    requires LaidOut(before, laid, {}, core, leaf) && Roomy(|core|, |leaf|)
    ensures AllApart(Cleared(Enforce(laid, {}, ROUNDS)))
  {
    hide LaidOut, Enforce, Cleared, AllApart, Settle.Settled;
    var total := Rows(|core|) + Rows(|leaf|);
    FewRowHeights(total);
    var rows := StartsSettled(before, laid, core, leaf);
    Settle.EnforceSettled(laid, rows, total - 1, RowH(total), {}, ROUNDS);
    hide RowH;
    SettledPasses(Enforce(laid, {}, ROUNDS), rows, total - 1, RowH(total));
  }

  /** Main result: a template of at most three rows, or of four without a pair, always passes. */
  lemma RoomyPasses(tpl: seq<TemplateNode>, pos: map<string, NodePos>, result: seq<NodeShape>)
    requires Outcome(tpl, pos, false, result) && UniqueTemplate(tpl)
    requires Roomy(Count(tpl, false), Count(tpl, true))
    ensures LayoutOk(ByName(result))
  {
    hide UniqueTemplate, Count, LaidOut, Enforce, Cleared, AllApart, Roomy;
    var laid, core, leaf :| Built(tpl, pos, false, laid, core, leaf, result);
    BuiltCounts(tpl, pos, laid, core, leaf, result);
    BuildKeepsNames(tpl, pos, laid, core, leaf, result);
    assert Used(tpl, pos, false) == {};
    CheckedByName(result);
    hide ByName, LayoutOk, UniqueNames;
    RoomyGridPasses(Seeds(tpl, pos, false), laid, core, leaf);
  }

  // ---------------------------------------------------------------------------
  // The middle column
  // ---------------------------------------------------------------------------

  /** The nodes in the middle of a group's rows. */
  function Middles(order: seq<nat>): (m: seq<nat>)
    ensures |m| == Middle(|order|)
    ensures forall r :: 0 <= r < |m| ==> MiddleRank(r, |order|) < |order| && m[r] == order[MiddleRank(r, |order|)]
  {
    seq(Middle(|order|), r requires 0 <= r < Middle(|order|) => order[MiddleRank(r, |order|)])
  }

  function MiddleColumn(core: seq<nat>, leaf: seq<nat>): (c: seq<nat>)
    ensures |c| == Middle(|core|) + Middle(|leaf|)
  {
    Middles(core) + Middles(leaf)
  }

  lemma MiddleX(leaf: bool, r: nat, cores: nat, leaves: nat)
    requires r < Middle(if leaf then leaves else cores)
    ensures var n := if leaf then leaves else cores;
            var k := MiddleRank(r, n);
            && k < n && k / 3 == r && Spot(leaf, k, cores, leaves).0 == 385.0
  {
    hide RowH, RowY;
    var n := if leaf then leaves else cores;
    var k := MiddleRank(r, n);
    assert k / 3 == r && k % 3 == (if 3 * r + 1 < n then 1 else 0);
    assert RowCount(k, n) == (if 3 * r + 1 < n then 3 else 1);
    SpotOnGrid(leaf, k, cores, leaves);
  }

  /** The row of the q-th node of the middle column. */
  function MiddleRow(q: nat, cores: nat): nat {
    if q < Middle(cores) then q else Rows(cores) + (q - Middle(cores))
  }

  lemma LaidAt(before: seq<NodeShape>, laid: seq<NodeShape>, core: seq<nat>, leaf: seq<nat>, group: bool, k: nat)
    requires LaidOut(before, laid, {}, core, leaf) && k < if group then |leaf| else |core|
    ensures var i := (if group then leaf else core)[k];
            i < |before| && i < |laid| && laid[i] == MovedTo(before[i], Spot(group, k, |core|, |leaf|))
  {
    hide Spot, InGroup;
    assert (if group then leaf else core)[k] in if group then leaf else core;
  }

  lemma MiddleAt(before: seq<NodeShape>, laid: seq<NodeShape>, core: seq<nat>, leaf: seq<nat>, q: nat)
    requires LaidOut(before, laid, {}, core, leaf) && q < Middle(|core|) + Middle(|leaf|)
    ensures var i := MiddleColumn(core, leaf)[q];
            && i < |before| && laid[i].cx == 385.0
            && laid[i].cy == RowY(TOP, MiddleRow(q, |core|), RowH(Rows(|core|) + Rows(|leaf|)))
  {
    hide LaidOut, Spot, RowH, RowY, ColumnX, Middle, Rows, MiddleRank;
    var group := q >= Middle(|core|);
    var order, r := if group then leaf else core, if group then q - Middle(|core|) else q;
    var k := MiddleRank(r, |order|);
    MiddleX(group, r, |core|, |leaf|);
    SpotOnGrid(group, k, |core|, |leaf|);
    LaidAt(before, laid, core, leaf, group, k);
  }

  /** The nodes of the middle column are distinct. */
  lemma MiddlesDiffer(before: seq<NodeShape>, core: seq<nat>, leaf: seq<nat>, k: nat, l: nat)
    requires GroupOrder(core, before, {}, false) && GroupOrder(leaf, before, {}, true)
    requires k < l < Middle(|core|) + Middle(|leaf|)
    ensures MiddleColumn(core, leaf)[k] != MiddleColumn(core, leaf)[l]
  {
    hide NameBefore;
    var c := Middle(|core|);
    if k < c <= l {
      assert Middles(core)[k] in core && Middles(leaf)[l - c] in leaf;
    } else if l < c {
      assert MiddleRank(k, |core|) < MiddleRank(l, |core|);
    } else {
      assert MiddleRank(k - c, |leaf|) < MiddleRank(l - c, |leaf|);
    }
  }

  lemma MiddlesAreColumn(before: seq<NodeShape>, laid: seq<NodeShape>, core: seq<nat>, leaf: seq<nat>)
    requires LaidOut(before, laid, {}, core, leaf)
    ensures Column(laid, MiddleColumn(core, leaf))
  {
    hide Spot, RowY, RowH, GroupOrder;
    var m := MiddleColumn(core, leaf);
    forall k | 0 <= k < |m| ensures m[k] < |before| && laid[m[k]].cx == 385.0 {
      MiddleAt(before, laid, core, leaf, k);
    }
    forall k, l | 0 <= k < l < |m| ensures m[k] != m[l] {
      MiddlesDiffer(before, core, leaf, k, l);
    }
  }

  // ---------------------------------------------------------------------------
  // Five in the middle, no pair
  // ---------------------------------------------------------------------------

  /** All others are out of the middle column's way. */
  lemma MiddleIsolated(before: seq<NodeShape>, laid: seq<NodeShape>, core: seq<nat>, leaf: seq<nat>)
    requires LaidOut(before, laid, {}, core, leaf) && !EndsInPair(|core|) && !EndsInPair(|leaf|)
    requires Middle(|core|) + Middle(|leaf|) >= 5
    ensures Chain.Isolated(laid, MiddleColumn(core, leaf))
  {
    var c := MiddleColumn(core, leaf);
    MiddlesAreColumn(before, laid, core, leaf);
    var ranks := FindRanks(before, laid, core, leaf);
    forall q | 0 <= q < |c| ensures c[q] < |laid| && laid[c[q]].cx == 385.0 {
      MiddleAt(before, laid, core, leaf, q);
    }
    forall j: nat | j < |laid| && j !in c
      ensures laid[j].cx == 195.0 || laid[j].cx == 575.0
    {
      InThreeColumns(before, laid, core, leaf, ranks, j);
      if laid[j].cx == 385.0 {
        MiddleOnly(before, laid, core, leaf, ranks, j);
      }
    }
    hide LaidOut, MiddleColumn, Ranked;
  }

  /** Only the nodes of the middle column stand in the middle. */
  lemma MiddleOnly(before: seq<NodeShape>, laid: seq<NodeShape>, core: seq<nat>, leaf: seq<nat>, ranks: seq<nat>, j: nat)
    requires Ranked(before, laid, core, leaf, ranks) && j < |laid| && laid[j].cx == 385.0
    requires !EndsInPair(|core|) && !EndsInPair(|leaf|)
    ensures j in MiddleColumn(core, leaf)
  {
    hide ColumnX, RowCount, RowY, RowH, Spot;
    RankedSpot(before, laid, core, leaf, ranks, j);
    assert IsRank(before, laid, core, leaf, j, ranks[j]);
    var group := IsLeaf(before[j]);
    var order := if group then leaf else core;
    ThreeColumns(ranks[j], |order|);
    var r := ranks[j] / 3;
    assert r < Middle(|order|);
    assert Middles(order)[r] == j;
    assert MiddleColumn(core, leaf)[if group then Middle(|core|) + r else r] == j;
  }

  /** Rows of 60 px, all with a node in the middle: the column stands edge to edge. */
  lemma MiddleSteps(before: seq<NodeShape>, laid: seq<NodeShape>, core: seq<nat>, leaf: seq<nat>, q: nat)
    requires LaidOut(before, laid, {}, core, leaf) && !EndsInPair(|core|) && !EndsInPair(|leaf|)
    requires q < Middle(|core|) + Middle(|leaf|) && Middle(|core|) + Middle(|leaf|) >= 5
    ensures var c := MiddleColumn(core, leaf);
            c[q] < |laid| && laid[c[q]].cy == (if |core| == 0 then 170.0 else 110.0) + 60.0 * q as real
  {
    hide GroupOrder, Spot, MiddleColumn, RowH;
    RowHeights(Rows(|core|) + Rows(|leaf|));
    MiddleAt(before, laid, core, leaf, q);
    var first := if |core| == 0 then 1 else 0;
    assert MiddleRow(q, |core|) == q + first;
    assert (q + first) as real == q as real + first as real;
  }

  lemma StartsChained(before: seq<NodeShape>, laid: seq<NodeShape>, core: seq<nat>, leaf: seq<nat>) returns (top: real, bottom: real)
    requires LaidOut(before, laid, {}, core, leaf) && !EndsInPair(|core|) && !EndsInPair(|leaf|)
    requires Middle(|core|) + Middle(|leaf|) >= 5
    ensures Chain.Chained(laid, MiddleColumn(core, leaf), top, bottom) && bottom - top >= 240.0
  {
    var c := MiddleColumn(core, leaf);
    var base := if |core| == 0 then 170.0 else 110.0;
    MiddleIsolated(before, laid, core, leaf);
    forall q | 0 <= q < |c| ensures laid[c[q]].cy == base + 60.0 * q as real {
      MiddleSteps(before, laid, core, leaf, q);
    }
    hide LaidOut, MiddleColumn, Middle;
    top, bottom := laid[c[0]].cy, laid[c[|c| - 1]].cy;
    assert (|c| - 1) as real >= 4.0;
    forall k | 0 <= k < |c| - 1 ensures Chain.Step(laid, c, k) == 60.0 {
      assert (k + 1) as real == k as real + 1.0;
    }
    hide Chain.Isolated, Chain.Step;
  }

  /** Such a column is always compressed, and two of its nodes come too close. */
  lemma TightColumnFails(pushed: seq<NodeShape>, c: seq<nat>, k: nat)
    requires Chain.Isolated(pushed, c) && k < |c| - 1 && pushed[c[k + 1]].cy - pushed[c[k]].cy == 60.0
    requires pushed[c[|c| - 1]].cy - pushed[c[0]].cy >= 306.0
    requires pushed[c[k]].cx == pushed[c[k + 1]].cx
    ensures !AllApart(Cleared(pushed))
  {
    var s := Shifted(pushed);
    var last := |c| - 1;
    EdgesBound(pushed, c[0]);
    EdgesBound(s, c[last]);
    assert s[c[0]].cy >= 85.0;
    assert MaxBottom(s) >= 421.0;
    ScaleRange(s);
    CompressionExactly(s);
    hide Scale, MaxBottom, MinTop, ShiftBy;
    var a, b := c[k], c[k + 1];
    assert a != b && Share(s[a], s[b]) && Abs(s[a].cy - s[b].cy) == 60.0;
    assert !Survives(60.0, Scale(s));
  }

  lemma TightMiddleFails(before: seq<NodeShape>, laid: seq<NodeShape>, core: seq<nat>, leaf: seq<nat>)
    requires LaidOut(before, laid, {}, core, leaf) && !EndsInPair(|core|) && !EndsInPair(|leaf|)
    requires Middle(|core|) + Middle(|leaf|) >= 5
    ensures !AllApart(Cleared(Enforce(laid, {}, ROUNDS)))
  {
    var c := MiddleColumn(core, leaf);
    var pushed := Enforce(laid, {}, ROUNDS);
    var top, bottom := StartsChained(before, laid, core, leaf);
    var k := Chain.ColumnStaysTight(laid, c, ROUNDS, top, bottom);
    MiddlesAreColumn(before, laid, core, leaf);
    EnforceKeeps(laid, {}, ROUNDS);
    hide LaidOut, Enforce, MiddleColumn, Cleared, NoNewOverlap;
    assert SameButY(pushed[c[k]], laid[c[k]]) && SameButY(pushed[c[k + 1]], laid[c[k + 1]]);
    TightColumnFails(pushed, c, k);
  }

  // ---------------------------------------------------------------------------
  // Six in the middle
  // ---------------------------------------------------------------------------

  lemma PushMovesLittle(s: seq<NodeShape>, i: nat, j: nat)
    requires i < |s| && j < |s|
    ensures |Push(s, i)| == |s| && Abs(Push(s, i)[j].cy - s[j].cy) <= if i == j then 66.0 else 0.0
  {
    PushedBy(s, i);
    hide Push, BestDir, Need;
  }

  lemma {:induction false} RoundMovesLittle(s: seq<NodeShape>, used: set<string>, n: nat, j: nat)
    requires n <= |s| && j < |s|
    ensures Abs(Round(s, used, n)[j].cy - s[j].cy) <= if j < n then 66.0 else 0.0
    decreases n
  {
    hide Push;
    if n == 0 {
    } else {
      RoundMovesLittle(s, used, n - 1, j);
      PushMovesLittle(Round(s, used, n - 1), n - 1, j);
    }
  }

  /** No node moves further than 66 px a round. */
  lemma {:induction false} EnforceMovesLittle(s: seq<NodeShape>, used: set<string>, rounds: nat, j: nat)
    requires j < |s|
    ensures Abs(Enforce(s, used, rounds)[j].cy - s[j].cy) <= 66.0 * rounds as real
    decreases rounds
  {
    hide Round, RoundMoves;
    if rounds == 0 {
    } else {
      RoundMovesLittle(s, used, |s|, j);
      if RoundMoves(s, used, |s|) {
        EnforceMovesLittle(Round(s, used, |s|), used, rounds - 1, j);
      }
      assert 66.0 * rounds as real == 66.0 * (rounds - 1) as real + 66.0;
      assert 66.0 * (rounds - 1) as real >= 0.0;
    }
  }

  /** Six nodes in the middle mean at most eight rows. */
  lemma SixMeansRows(cores: nat, leaves: nat)
    requires Middle(cores) + Middle(leaves) == 6
    ensures 6 <= Rows(cores) + Rows(leaves) <= 8
  {
  }

  lemma LaidBetween(before: seq<NodeShape>, laid: seq<NodeShape>, core: seq<nat>, leaf: seq<nat>, ranks: seq<nat>, i: nat)
    requires Ranked(before, laid, core, leaf, ranks) && i < |before| && Middle(|core|) + Middle(|leaf|) == 6
    ensures 110.0 <= laid[i].cy <= 530.0
  {
    RankedSpot(before, laid, core, leaf, ranks, i);
    SixMeansRows(|core|, |leaf|);
    RowHeights(Rows(|core|) + Rows(|leaf|));
    hide Ranked, Rows, RowH, ColumnX, RowCount, Middle;
    assert GridRow(IsLeaf(before[i]), ranks[i], |core|) <= 7;
  }

  lemma SixthIsTall(k: real, tall: real)
    requires k > 0.0 && k * tall == 310.0 && tall <= 1536.0
    ensures k > 1.0 / 6.0
  {
    MulMono(k, tall, 1536.0);
  }

  /** A layout that is not too tall is not compressed to a sixth. */
  lemma NotTooTall(s: seq<NodeShape>)
    requires s != [] && forall i :: 0 <= i < |s| ==> -418.0 <= s[i].cy <= 1058.0
    ensures Scale(Shifted(s)) > 1.0 / 6.0
  {
    MinTopAbove(s, -448.0);
    assert ShiftBy(s) <= 503.0;
    MaxBottomBelow(Shifted(s), 1591.0);
    ScaleRange(Shifted(s));
    var k, tall := Scale(Shifted(s)), MaxBottom(Shifted(s)) - TOP_CLEARANCE;
    hide Scale, MaxBottom, MinTop, Shifted;
    if k < 1.0 {
      SixthIsTall(k, tall);
    }
  }

  lemma ColumnSurvives(laid: seq<NodeShape>, idx: seq<nat>)
    requires Column(laid, idx)
    ensures Column(Cleared(Enforce(laid, {}, ROUNDS)), idx)
  {
    var pushed := Enforce(laid, {}, ROUNDS);
    EnforceKeeps(laid, {}, ROUNDS);
    hide Enforce, Scale, ShiftBy, ScaledY;
    forall i | 0 <= i < |laid| ensures Cleared(pushed)[i].cx == laid[i].cx {
      assert SameButY(pushed[i], laid[i]);
    }
  }

  lemma StaysLow(before: seq<NodeShape>, laid: seq<NodeShape>, core: seq<nat>, leaf: seq<nat>)
    requires LaidOut(before, laid, {}, core, leaf) && Middle(|core|) + Middle(|leaf|) == 6
    ensures var pushed := Enforce(laid, {}, ROUNDS);
            pushed != [] && forall i :: 0 <= i < |pushed| ==> -418.0 <= pushed[i].cy <= 1058.0
  {
    var pushed := Enforce(laid, {}, ROUNDS);
    MiddleAt(before, laid, core, leaf, 0);
    var ranks := FindRanks(before, laid, core, leaf);
    hide Enforce, LaidOut, RowH;
    forall i | 0 <= i < |pushed| ensures -418.0 <= pushed[i].cy <= 1058.0 {
      LaidBetween(before, laid, core, leaf, ranks, i);
      EnforceMovesLittle(laid, {}, ROUNDS, i);
    }
  }

  lemma FullMiddleFails(before: seq<NodeShape>, laid: seq<NodeShape>, core: seq<nat>, leaf: seq<nat>)
    requires LaidOut(before, laid, {}, core, leaf) && Middle(|core|) + Middle(|leaf|) >= 6
    ensures !AllApart(Cleared(Enforce(laid, {}, ROUNDS)))
  {
    hide LaidOut, Enforce, Cleared, Column, AllApart, Scale, Shifted;
    var idx := MiddleColumn(core, leaf);
    MiddlesAreColumn(before, laid, core, leaf);
    ColumnSurvives(laid, idx);
    var pushed := Enforce(laid, {}, ROUNDS);
    if AllApart(Cleared(pushed)) {
      ColumnHoldsFive(pushed, idx);
      StaysLow(before, laid, core, leaf);
      NotTooTall(pushed);
    }
  }

  // ---------------------------------------------------------------------------
  // Main results
  // ---------------------------------------------------------------------------

  /** Main result: six nodes in the middle column, or five and no pair, and the fallback fails the check that
      it is the fallback for, in whatever order the template lists its nodes. */
  lemma CrowdedFails(tpl: seq<TemplateNode>, pos: map<string, NodePos>, result: seq<NodeShape>)
    requires Outcome(tpl, pos, false, result) && UniqueTemplate(tpl)
    requires Crowded(Count(tpl, false), Count(tpl, true))
    ensures !LayoutOk(ByName(result))
  {
    var laid, core, leaf :| Built(tpl, pos, false, laid, core, leaf, result);
    BuiltCounts(tpl, pos, laid, core, leaf, result);
    BuildKeepsNames(tpl, pos, laid, core, leaf, result);
    assert Used(tpl, pos, false) == {};
    hide UniqueTemplate, Count, LaidOut, Enforce, Cleared, AllApart;
    CheckedByName(result);
    hide LayoutOk, ByName, UniqueNames;
    var seeds := Seeds(tpl, pos, false);
    if Middle(|core|) + Middle(|leaf|) >= 6 {
      FullMiddleFails(seeds, laid, core, leaf);
    } else {
      TightMiddleFails(seeds, laid, core, leaf);
    }
  }

  /** Main result: with nodes in both groups and no pair, the fallback passes exactly up to four rows. */
  lemma PassesExactly(tpl: seq<TemplateNode>, pos: map<string, NodePos>, result: seq<NodeShape>)
    requires Outcome(tpl, pos, false, result) && UniqueTemplate(tpl)
    requires Count(tpl, false) > 0 && Count(tpl, true) > 0
    requires !EndsInPair(Count(tpl, false)) && !EndsInPair(Count(tpl, true))
    ensures LayoutOk(ByName(result)) <==> Rows(Count(tpl, false)) + Rows(Count(tpl, true)) <= 4
  {
    hide Outcome, UniqueTemplate, LayoutOk, ByName, Count;
    var c, l := Count(tpl, false), Count(tpl, true);
    assert Middle(c) == Rows(c) && Middle(l) == Rows(l);
    if Rows(c) + Rows(l) <= 4 {
      RoomyPasses(tpl, pos, result);
    } else {
      CrowdedFails(tpl, pos, result);
    }
  }

  /** Whatever the counts: a fallback that is not compressed passes. */
  lemma UncompressedPasses(tpl: seq<TemplateNode>, pos: map<string, NodePos>, laid: seq<NodeShape>,
                           core: seq<nat>, leaf: seq<nat>, result: seq<NodeShape>)
    requires Built(tpl, pos, false, laid, core, leaf, result) && UniqueTemplate(tpl)
    requires Scale(Shifted(Enforce(laid, {}, ROUNDS))) == 1.0
    ensures LayoutOk(ByName(result))
  {
    BuildKeepsNames(tpl, pos, laid, core, leaf, result);
    CheckedByName(result);
    hide UniqueNames, LayoutOk, ByName;
    var seeds := Seeds(tpl, pos, false);
    assert Used(tpl, pos, false) == {};
    forall i, j | 0 <= i < |laid| && 0 <= j < |laid| && i != j ensures !TooClose(laid[i], laid[j]) {
      PlacedApart(seeds, laid, {}, core, leaf, i, j);
    }
    hide Enforce, Scale, LaidOut, TooClose, Shifted;
    MinGapKeepsApart(laid, {}, ROUNDS);
    ShiftKeepsApart(Enforce(laid, {}, ROUNDS));
    ScaleOneIsSame(Shifted(Enforce(laid, {}, ROUNDS)));
  }

  /** Without any extracted position the first build is the fallback. */
  lemma NothingExtracted(tpl: seq<TemplateNode>, result: seq<NodeShape>)
    ensures Outcome(tpl, map[], true, result) <==> Outcome(tpl, map[], false, result)
  {
    assert Seeds(tpl, map[], true) == Seeds(tpl, map[], false);
    assert Used(tpl, map[], true) == Used(tpl, map[], false);
    hide Seeds, Used, LaidOut, Cleared, Enforce;
    assert forall laid, core, leaf ::
        Built(tpl, map[], true, laid, core, leaf, result) <==> Built(tpl, map[], false, laid, core, leaf, result);
  }

  /** Ten switches and a host, named by the letters A to K. */
  function Eleven(): (tpl: seq<TemplateNode>)
    ensures |tpl| == 11
    ensures forall i :: 0 <= i < 11 ==>
              tpl[i] == TemplateNode([(65 + i) as char], if i < 10 then CoreRole else HostRole)
  {
    seq(11, i requires 0 <= i < 11 => TemplateNode([(65 + i) as char], if i < 10 then CoreRole else HostRole))
  }

  lemma ElevenUnique()
    ensures UniqueTemplate(Eleven())
  {
    var tpl := Eleven();
    forall i, j | 0 <= i < j < |tpl| ensures tpl[i].name != tpl[j].name {
      assert tpl[i].name[0] == (65 + i) as char && tpl[j].name[0] == (65 + j) as char;
      hide Eleven;
    }
  }

  lemma ElevenCounts()
    ensures Count(Eleven(), false) == 10 && Count(Eleven(), true) == 1
  {
    var tpl := Eleven();
    var switches: seq<nat> := seq(10, i requires 0 <= i < 10 => i);
    forall m: nat ensures m in Elements(switches) <==> m in Members(tpl, false) {
      assert m < 10 ==> switches[m] == m;
    }
    assert Elements(switches) == Members(tpl, false);
    DistinctSize(switches);
    assert Members(tpl, true) == {10};
  }

  /** Eleven nodes without an extracted position are enough: neither build passes the check. */
  lemma ElevenNodesFail(useExtracted: bool, result: seq<NodeShape>)
    requires Outcome(Eleven(), map[], useExtracted, result)
    ensures !LayoutOk(ByName(result))
  {
    hide Outcome, LayoutOk, ByName, Count, UniqueTemplate;
    NothingExtracted(Eleven(), result);
    ElevenUnique();
    ElevenCounts();
    CrowdedFails(Eleven(), map[], result);
  }
}
