/**
 The fallback of layoutLab in tools/topogen/render.go with one group only, in four rows without a pair:
 whether it passes the check depends on the order in which the template lists its nodes.
 */
module Listing {
  import opened Reals
  import opened Shapes
  import opened Sizes
  import opened LayoutCheck
  import opened AutoLayout
  import opened MinGap
  import opened LayoutLab
  import opened Fallback
  import opened Chain
  import opened FourChain

  /** The nodes of the only group, by name. */
  function Only(core: seq<nat>, leaf: seq<nat>): seq<nat> {
    if leaf == [] then core else leaf
  }

  /** Four rows of one group, without a pair. */
  predicate TenOrTwelve(n: nat) {
    n == 10 || n == 12
  }

  /** How many nodes stand in a column. */
  function Height(n: nat, col: nat): nat {
    if n == 12 || col == 1 then 4 else 3
  }

  /** The rank of the node in this column and row. */
  function RankAt(n: nat, col: nat, row: nat): nat {
    if n == 10 && row == 3 then 9 else col + 3 * row
  }

  /** A column of the grid, from top to bottom. */
  function ColumnOf(order: seq<nat>, col: nat): (c: seq<nat>)
    requires TenOrTwelve(|order|) && col < 3
    ensures |c| == Height(|order|, col)
    ensures forall row :: 0 <= row < |c| ==>
              RankAt(|order|, col, row) < |order| && c[row] == order[RankAt(|order|, col, row)]
  {
    seq(Height(|order|, col), row requires 0 <= row < Height(|order|, col) => order[RankAt(|order|, col, row)])
  }

  /** Every column of four is listed in an order that loosens it. */
  predicate ListedWell(order: seq<nat>)
    requires TenOrTwelve(|order|)
  {
    forall col :: 0 <= col < 3 && Height(|order|, col) == 4 ==> Loosens(ColumnOf(order, col))
  }

  // ---------------------------------------------------------------------------
  // The grid
  // ---------------------------------------------------------------------------

  /** One group of ten or twelve nodes, laid out. */
  ghost predicate OneGroup(before: seq<NodeShape>, laid: seq<NodeShape>, core: seq<nat>, leaf: seq<nat>) {
    && LaidOut(before, laid, {}, core, leaf)
    && (core == [] || leaf == []) && TenOrTwelve(|Only(core, leaf)|)
  }

  /** Where the first row is. */
  function Base(leaf: seq<nat>): real {
    if leaf == [] then 110.0 else 170.0
  }

  /** The column that a rank belongs to. */
  function ColumnNumber(n: nat, k: nat): nat {
    if n == 10 && k == 9 then 1 else k % 3
  }

  lemma RankNumbers(n: nat, k: nat)
    requires TenOrTwelve(n) && k < n
    ensures Rows(n) == 4 && Rows(0) == 1 && !EndsInPair(n)
    ensures (if RowCount(k, n) == 1 then 1 else k % 3) == ColumnNumber(n, k)
    ensures var col, row := ColumnNumber(n, k), k / 3; col < 3 && row < Height(n, col) && k == RankAt(n, col, row)
  {
  }

  /** Where the k-th by name stands. */
  lemma StandsAt(before: seq<NodeShape>, laid: seq<NodeShape>, core: seq<nat>, leaf: seq<nat>, k: nat)
    requires OneGroup(before, laid, core, leaf) && k < |Only(core, leaf)|
    ensures var i := Only(core, leaf)[k];
            && i < |laid|
            && laid[i].cx == 195.0 + 190.0 * ColumnNumber(|Only(core, leaf)|, k) as real
            && laid[i].cy == Base(leaf) + 60.0 * (k / 3) as real
  {
    var n, group := |Only(core, leaf)|, leaf != [];
    RankNumbers(n, k);
    LaidAt(before, laid, core, leaf, group, k);
    SpotOnGrid(group, k, |core|, |leaf|);
    ThreeColumns(k, n);
    RowHeights(5);
    hide LaidOut, Spot, ColumnX, RowCount, RowH, Rows;
    var row := GridRow(group, k, |core|);
    assert row == k / 3 + if group then 1 else 0;
    assert row as real == (k / 3) as real + if group then 1.0 else 0.0;
  }

  /** Every node is in the group. */
  lemma InOnly(before: seq<NodeShape>, laid: seq<NodeShape>, core: seq<nat>, leaf: seq<nat>, i: nat) returns (k: nat)
    requires OneGroup(before, laid, core, leaf) && i < |laid|
    ensures k < |Only(core, leaf)| && Only(core, leaf)[k] == i
  {
    k := FindSpot(before, laid, {}, core, leaf, i);
  }

  lemma OnlyDistinct(before: seq<NodeShape>, laid: seq<NodeShape>, core: seq<nat>, leaf: seq<nat>)
    requires OneGroup(before, laid, core, leaf)
    ensures forall k, l :: 0 <= k < l < |Only(core, leaf)| ==> Only(core, leaf)[k] != Only(core, leaf)[l]
  {
    hide NameBefore, Spot;
  }

  /** The columns are out of each other's way. */
  lemma ColumnIsolated(before: seq<NodeShape>, laid: seq<NodeShape>, core: seq<nat>, leaf: seq<nat>, col: nat)
    requires OneGroup(before, laid, core, leaf) && col < 3
    ensures Isolated(laid, ColumnOf(Only(core, leaf), col))
  {
    hide OneGroup, LaidOut;
    var order := Only(core, leaf);
    assert TenOrTwelve(|order|) by {
      OnlyLong(before, laid, core, leaf);
    }
    var c, n := ColumnOf(order, col), |order|;
    OnlyDistinct(before, laid, core, leaf);
    forall row | 0 <= row < |c| ensures c[row] < |laid| && laid[c[row]].cx == 195.0 + 190.0 * col as real {
      StandsAt(before, laid, core, leaf, RankAt(n, col, row));
    }
    forall row, j: nat | 0 <= row < |c| && j < |laid| ensures SameColumn(laid[c[row]], laid[j]) <==> j in c {
      var k := InOnly(before, laid, core, leaf, j);
      StandsAt(before, laid, core, leaf, k);
      RankNumbers(n, k);
      if ColumnNumber(n, k) == col {
        assert c[k / 3] == j;
      } else {
        assert !SameColumn(laid[c[row]], laid[j]);
        assert forall r :: 0 <= r < |c| ==> laid[c[r]].cx != laid[j].cx;
      }
    }
    assert forall k, l :: 0 <= k < l < |c| ==> RankAt(n, col, k) < RankAt(n, col, l);
  }

  lemma OnlyLong(before: seq<NodeShape>, laid: seq<NodeShape>, core: seq<nat>, leaf: seq<nat>)
    requires OneGroup(before, laid, core, leaf)
    ensures TenOrTwelve(|Only(core, leaf)|)
  {
  }

  /** Before any push the columns stand edge to edge. */
  lemma ColumnClosed(before: seq<NodeShape>, laid: seq<NodeShape>, core: seq<nat>, leaf: seq<nat>, col: nat)
    requires OneGroup(before, laid, core, leaf) && col < 3
    ensures var c := ColumnOf(Only(core, leaf), col);
            && Isolated(laid, c)
            && (forall k :: 0 <= k < |c| - 1 ==> Step(laid, c, k) == 60.0)
            && laid[c[0]].cy == Base(leaf) && laid[c[|c| - 1]].cy == Base(leaf) + 60.0 * (|c| - 1) as real
  {
    ColumnIsolated(before, laid, core, leaf, col);
    hide OneGroup, LaidOut;
    OnlyLong(before, laid, core, leaf);
    var c, n := ColumnOf(Only(core, leaf), col), |Only(core, leaf)|;
    forall row | 0 <= row < |c| ensures laid[c[row]].cy == Base(leaf) + 60.0 * row as real {
      StandsAt(before, laid, core, leaf, RankAt(n, col, row));
      assert RankAt(n, col, row) / 3 == row;
    }
    hide Isolated, ColumnOf;
    forall k | 0 <= k < |c| - 1 ensures Step(laid, c, k) == 60.0 {
      assert (k + 1) as real == k as real + 1.0;
    }
  }

  // ---------------------------------------------------------------------------
  // After the pushes
  // ---------------------------------------------------------------------------

  /** What the pass makes of a column: its ends open outwards, and of its inner gaps only the middle one of a
      column of four can stay closed. */
  lemma ColumnPushed(before: seq<NodeShape>, laid: seq<NodeShape>, core: seq<nat>, leaf: seq<nat>, col: nat)
    requires OneGroup(before, laid, core, leaf) && col < 3
    ensures var t, c := Enforce(laid, {}, ROUNDS), ColumnOf(Only(core, leaf), col);
            && Isolated(t, c) && (|c| == 3 || |c| == 4)
            && t[c[0]].cy <= Base(leaf) && t[c[|c| - 1]].cy >= Base(leaf) + 60.0 * (|c| - 1) as real
            && (forall k :: 0 <= k < |c| - 1 ==>
                  Step(t, c, k) == if |c| == 4 && k == 1 && !Loosens(c) then 60.0 else 126.0)
  {
    hide OneGroup, LaidOut, Enforce, Isolated, Step;
    OnlyLong(before, laid, core, leaf);
    var t, c := Enforce(laid, {}, ROUNDS), ColumnOf(Only(core, leaf), col);
    ColumnClosed(before, laid, core, leaf, col);
    hide ColumnOf;
    EnforceChained(laid, c, ROUNDS, Base(leaf), Base(leaf) + 60.0 * (|c| - 1) as real);
    if |c| == 4 {
      FourExactly(laid, c, ROUNDS);
    } else {
      ThreeOpens(laid, c, ROUNDS);
      InLaid(laid, c);
    }
  }

  lemma InLaid(s: seq<NodeShape>, c: seq<nat>)
    requires Isolated(s, c)
    ensures forall k :: 0 <= k < |c| ==> c[k] < |s|
  {
  }

  lemma KeepsX(s: seq<NodeShape>, a: nat, b: nat)
    requires a < |s| && b < |s| && s[a].cx == s[b].cx
    ensures Enforce(s, {}, ROUNDS)[a].cx == Enforce(s, {}, ROUNDS)[b].cx
  {
    EnforceKeeps(s, {}, ROUNDS);
    hide NoNewOverlap, Enforce;
    assert SameButY(Enforce(s, {}, ROUNDS)[a], s[a]) && SameButY(Enforce(s, {}, ROUNDS)[b], s[b]);
  }

  lemma SameX(before: seq<NodeShape>, laid: seq<NodeShape>, core: seq<nat>, leaf: seq<nat>, col: nat, p: nat, q: nat)
    requires OneGroup(before, laid, core, leaf) && col < 3
    requires p < Height(|Only(core, leaf)|, col) && q < Height(|Only(core, leaf)|, col)
    ensures var c := ColumnOf(Only(core, leaf), col);
            c[p] < |laid| && c[q] < |laid| && laid[c[p]].cx == laid[c[q]].cx
  {
    hide LaidOut;
    var n := |Only(core, leaf)|;
    StandsAt(before, laid, core, leaf, RankAt(n, col, p));
    StandsAt(before, laid, core, leaf, RankAt(n, col, q));
    hide OneGroup;
    assert ColumnNumber(n, RankAt(n, col, p)) == col && ColumnNumber(n, RankAt(n, col, q)) == col;
  }

  /** A column with its middle closed fails. */
  lemma ClosedFails(before: seq<NodeShape>, laid: seq<NodeShape>, core: seq<nat>, leaf: seq<nat>, col: nat)
    requires OneGroup(before, laid, core, leaf) && col < 3
    requires Height(|Only(core, leaf)|, col) == 4 && !Loosens(ColumnOf(Only(core, leaf), col))
    ensures !AllApart(Cleared(Enforce(laid, {}, ROUNDS)))
  {
    hide OneGroup, Enforce, Loosens, Cleared, AllApart, Isolated, Step;
    OnlyLong(before, laid, core, leaf);
    var t, c := Enforce(laid, {}, ROUNDS), ColumnOf(Only(core, leaf), col);
    SameX(before, laid, core, leaf, col, 1, 2);
    KeepsX(laid, c[1], c[2]);
    ColumnPushed(before, laid, core, leaf, col);
    hide ColumnOf;
    ClosedColumnFails(t, c);
  }

  lemma ClosedColumnFails(t: seq<NodeShape>, c: seq<nat>)
    requires Isolated(t, c) && |c| == 4 && Step(t, c, 0) == 126.0 && Step(t, c, 1) == 60.0 && Step(t, c, 2) == 126.0
    requires t[c[1]].cx == t[c[2]].cx
    ensures !AllApart(Cleared(t))
  {
    hide Cleared, AllApart;
    TightColumnFails(t, c, 1);
  }

  /** A column with all gaps open: its nodes are 126 px apart, within a band of 576 px. */
  lemma OpenColumn(t: seq<NodeShape>, c: seq<nat>, base: real, p: nat, q: nat)
    requires Isolated(t, c) && (|c| == 3 || |c| == 4) && forall k :: 0 <= k < |c| - 1 ==> Step(t, c, k) == 126.0
    requires t[c[0]].cy <= base && t[c[|c| - 1]].cy >= base + 60.0 * (|c| - 1) as real
    requires p < |c| && q < |c|
    ensures base - 198.0 <= t[c[p]].cy <= base + 378.0
    ensures p != q ==> Abs(t[c[p]].cy - t[c[q]].cy) >= 126.0
  {
    assert Step(t, c, 0) == 126.0 && Step(t, c, 1) == 126.0;
    assert |c| == 4 ==> Step(t, c, 2) == 126.0;
    hide Isolated;
  }

  /** Where a node is after the pushes, when every column of four was loosened. */
  lemma OpenAt(before: seq<NodeShape>, laid: seq<NodeShape>, core: seq<nat>, leaf: seq<nat>, i: nat, j: nat)
    requires OneGroup(before, laid, core, leaf) && TenOrTwelve(|Only(core, leaf)|) && ListedWell(Only(core, leaf))
    requires i < |laid| && j < |laid|
    ensures var t := Enforce(laid, {}, ROUNDS);
            && Base(leaf) - 198.0 <= t[i].cy <= Base(leaf) + 378.0
            && (i != j && SameColumn(t[i], t[j]) ==> Abs(t[i].cy - t[j].cy) >= 126.0)
  {
    hide OneGroup, Enforce, Loosens, Isolated, Step, SameColumn;
    var t, order := Enforce(laid, {}, ROUNDS), Only(core, leaf);
    var k := InOnly(before, laid, core, leaf, i);
    RankNumbers(|order|, k);
    var col, row := ColumnNumber(|order|, k), k / 3;
    var c := ColumnOf(order, col);
    ColumnPushed(before, laid, core, leaf, col);
    assert c[row] == i;
    hide ColumnOf, ListedWell;
    OpenColumn(t, c, Base(leaf), row, row);
    if i != j && SameColumn(t[i], t[j]) {
      var q := InColumn(t, c, row, j);
      OpenColumn(t, c, Base(leaf), row, q);
    }
  }

  lemma InColumn(t: seq<NodeShape>, c: seq<nat>, p: nat, j: nat) returns (q: nat)
    requires Isolated(t, c) && p < |c| && j < |t| && SameColumn(t[c[p]], t[j])
    ensures q < |c| && c[q] == j
  {
    assert j in c;
    q :| 0 <= q < |c| && c[q] == j;
  }

  lemma OpenScale(k: real, tall: real)
    requires k > 0.0 && k * tall == 310.0 && tall <= 636.0
    ensures k * 126.0 >= 60.0
  {
    MulMono(k, tall, 636.0);
  }

  lemma BandScale(t: seq<NodeShape>, base: real)
    requires 110.0 <= base <= 170.0 && forall i :: 0 <= i < |t| ==> base - 198.0 <= t[i].cy <= base + 378.0
    ensures Scale(Shifted(t)) > 0.0 && Scale(Shifted(t)) * 126.0 >= 60.0
  {
    hide Scale, ShiftBy, MinTop, MaxBottom;
    var s := Shifted(t);
    ScaleRange(s);
    if t != [] {
      BandBottom(t, base - 198.0, base + 378.0);
    }
    if Scale(s) < 1.0 {
      OpenScale(Scale(s), MaxBottom(s) - TOP_CLEARANCE);
    }
  }

  /** How low a band can end after the header was cleared. */
  lemma BandBottom(t: seq<NodeShape>, low: real, high: real)
    requires t != [] && low - 30.0 <= TOP_CLEARANCE && forall i :: 0 <= i < |t| ==> low <= t[i].cy <= high
    ensures MaxBottom(Shifted(t)) <= high - low + 115.0
  {
    MinTopAbove(t, low - 30.0);
    assert ShiftBy(t) <= 85.0 - low;
    hide ShiftBy;
    MaxBottomBelow(Shifted(t), high - low + 115.0);
  }

  /** With all columns loosened the layout passes. */
  lemma OpenPasses(before: seq<NodeShape>, laid: seq<NodeShape>, core: seq<nat>, leaf: seq<nat>)
    requires OneGroup(before, laid, core, leaf) && ListedWell(Only(core, leaf))
    ensures AllApart(Cleared(Enforce(laid, {}, ROUNDS)))
  {
    hide OneGroup, ListedWell, Enforce, Scale, ShiftBy, Survives;
    var t := Enforce(laid, {}, ROUNDS);
    var s := Shifted(t);
    OnlyLong(before, laid, core, leaf);
    forall i | 0 <= i < |t| ensures Base(leaf) - 198.0 <= t[i].cy <= Base(leaf) + 378.0 {
      OpenAt(before, laid, core, leaf, i, i);
    }
    BandScale(t, Base(leaf));
    CompressionExactly(s);
    forall i, j | 0 <= i < |s| && 0 <= j < |s| && i != j && Share(s[i], s[j])
      ensures Survives(Abs(s[i].cy - s[j].cy), Scale(s))
    {
      OpenAt(before, laid, core, leaf, i, j);
      Scaled(Abs(s[i].cy - s[j].cy), 126.0, Scale(s));
    }
  }

  /** Exactly if every column of four is listed so as to be loosened. */
  lemma OneGroupExactly(before: seq<NodeShape>, laid: seq<NodeShape>, core: seq<nat>, leaf: seq<nat>)
    requires OneGroup(before, laid, core, leaf)
    ensures TenOrTwelve(|Only(core, leaf)|)
    ensures AllApart(Cleared(Enforce(laid, {}, ROUNDS))) <==> ListedWell(Only(core, leaf))
  {
    hide OneGroup, Enforce, Cleared, AllApart, Loosens;
    OnlyLong(before, laid, core, leaf);
    if ListedWell(Only(core, leaf)) {
      OpenPasses(before, laid, core, leaf);
    } else {
      var col :| 0 <= col < 3 && Height(|Only(core, leaf)|, col) == 4 && !Loosens(ColumnOf(Only(core, leaf), col));
      ClosedFails(before, laid, core, leaf, col);
    }
  }

  // ---------------------------------------------------------------------------
  // Read off the template
  // ---------------------------------------------------------------------------

  /** The template's nodes by name. */
  ghost predicate NameOrder(order: seq<nat>, tpl: seq<TemplateNode>) {
    && (forall k :: 0 <= k < |order| ==> order[k] < |tpl|)
    && (forall k, l :: 0 <= k < l < |order| ==>
          order[k] != order[l] && NameBefore(tpl[order[k]].name, tpl[order[l]].name))
    && (forall i :: 0 <= i < |tpl| ==> i in order)
  }

  ghost function NamesIn(order: seq<nat>, tpl: seq<TemplateNode>): (ks: seq<string>)
    requires forall k :: 0 <= k < |order| ==> order[k] < |tpl|
    ensures |ks| == |order| && forall k :: 0 <= k < |ks| ==> ks[k] == tpl[order[k]].name
  {
    seq(|order|, k requires 0 <= k < |order| => tpl[order[k]].name)
  }

  lemma NamesInOrder(order: seq<nat>, tpl: seq<TemplateNode>)
    requires NameOrder(order, tpl) && UniqueTemplate(tpl)
    ensures StrictlyOrdered(NamesIn(order, tpl))
  {
    hide NameBefore;
    var ks := NamesIn(order, tpl);
    forall k, l | 0 <= k < l < |ks| ensures NameBefore(ks[k], ks[l]) && ks[k] != ks[l] {
      assert order[k] != order[l] && NameBefore(tpl[order[k]].name, tpl[order[l]].name);
    }
  }

  /** There is only one order by name. */
  lemma SameOrder(order: seq<nat>, other: seq<nat>, tpl: seq<TemplateNode>)
    requires NameOrder(order, tpl) && NameOrder(other, tpl) && UniqueTemplate(tpl)
    ensures order == other
  {
    hide NameBefore, StrictlyOrdered, Rank;
    var ks, ls := NamesIn(order, tpl), NamesIn(other, tpl);
    var names := Elements(ks);
    NamesInOrder(order, tpl);
    NamesInOrder(other, tpl);
    SameNames(order, other, tpl);
    hide UniqueTemplate;
    forall k | 0 <= k < |order| ensures k < |other| && other[k] == order[k] {
      assert order[k] in other;
      var m :| 0 <= m < |other| && other[m] == order[k];
      RankOfIndex(ks, names, k);
      RankOfIndex(ls, names, m);
      assert ks[k] == ls[m];
    }
    SameLength(order, other, tpl);
  }

  lemma SameNames(order: seq<nat>, other: seq<nat>, tpl: seq<TemplateNode>)
    requires NameOrder(order, tpl) && NameOrder(other, tpl)
    ensures forall m :: m in Elements(NamesIn(order, tpl)) <==> m in NamesIn(order, tpl)
    ensures forall m :: m in Elements(NamesIn(order, tpl)) <==> m in NamesIn(other, tpl)
  {
    hide NameBefore;
    var ks, ls := NamesIn(order, tpl), NamesIn(other, tpl);
    forall m | m in ks ensures m in ls {
      var k :| 0 <= k < |ks| && ks[k] == m;
      assert order[k] in other;
      var l :| 0 <= l < |other| && other[l] == order[k];
      assert ls[l] == m;
    }
    forall m | m in ls ensures m in ks {
      var l :| 0 <= l < |ls| && ls[l] == m;
      assert other[l] in order;
      var k :| 0 <= k < |order| && order[k] == other[l];
      assert ks[k] == m;
    }
  }

  lemma SameLength(order: seq<nat>, other: seq<nat>, tpl: seq<TemplateNode>)
    requires NameOrder(order, tpl) && NameOrder(other, tpl)
    ensures |order| == |other|
  {
    hide NameBefore;
    DistinctSize(order);
    DistinctSize(other);
    assert Elements(order) == Elements(other);
  }

  /** When all nodes are of one group, its order is the template's. */
  lemma OnlyIsNameOrder(tpl: seq<TemplateNode>, pos: map<string, NodePos>, laid: seq<NodeShape>,
                        core: seq<nat>, leaf: seq<nat>, result: seq<NodeShape>)
    requires Built(tpl, pos, false, laid, core, leaf, result) && UniqueTemplate(tpl) && (core == [] || leaf == [])
    ensures NameOrder(Only(core, leaf), tpl)
  {
    hide NameBefore, Spot;
    var seeds, order := Seeds(tpl, pos, false), Only(core, leaf);
    assert Used(tpl, pos, false) == {};
    forall i | 0 <= i < |tpl| ensures i in order {
      assert InGroup(seeds[i], {}, IsLeaf(seeds[i]));
    }
    forall k, l | 0 <= k < l < |order|
      ensures order[k] != order[l] && NameBefore(tpl[order[k]].name, tpl[order[l]].name)
    {
      NameTotal(tpl[order[k]].name, tpl[order[l]].name);
      assert NamesOf(seeds)[order[k]] == tpl[order[k]].name && NamesOf(seeds)[order[l]] == tpl[order[l]].name;
    }
  }

  /** Main result: with ten or twelve nodes of one group and none of the other, the fallback passes exactly if
      every column of four is listed in an order that loosens it. */
  lemma ListingExactly(tpl: seq<TemplateNode>, pos: map<string, NodePos>, result: seq<NodeShape>, order: seq<nat>)
    requires Outcome(tpl, pos, false, result) && UniqueTemplate(tpl) && NameOrder(order, tpl)
    requires Count(tpl, false) == 0 || Count(tpl, true) == 0
    requires TenOrTwelve(|order|)
    ensures LayoutOk(ByName(result)) <==> ListedWell(order)
  {
    hide UniqueTemplate, Count, LaidOut, Enforce, Cleared, AllApart, ListedWell, NameOrder;
    var laid, core, leaf :| Built(tpl, pos, false, laid, core, leaf, result);
    BuiltCounts(tpl, pos, laid, core, leaf, result);
    BuildKeepsNames(tpl, pos, laid, core, leaf, result);
    OnlyIsNameOrder(tpl, pos, laid, core, leaf, result);
    SameOrder(order, Only(core, leaf), tpl);
    assert Used(tpl, pos, false) == {};
    CheckedByName(result);
    hide ByName, LayoutOk, UniqueNames;
    assert OneGroup(Seeds(tpl, pos, false), laid, core, leaf);
    OneGroupExactly(Seeds(tpl, pos, false), laid, core, leaf);
  }

  lemma OneGroupOnly(cores: nat, leaves: nat)
    requires !EndsInPair(cores) && !EndsInPair(leaves)
    requires Rows(cores) + Rows(leaves) > 4 && Middle(cores) + Middle(leaves) <= 4
    ensures (cores == 0 && TenOrTwelve(leaves)) || (leaves == 0 && TenOrTwelve(cores))
  {
  }

  lemma OrderLength(order: seq<nat>, tpl: seq<TemplateNode>)
    requires NameOrder(order, tpl)
    ensures |order| == Count(tpl, false) + Count(tpl, true)
  {
    hide NameBefore;
    DistinctSize(order);
    var cores, leaves := Members(tpl, false), Members(tpl, true);
    assert Elements(order) == cores + leaves && cores !! leaves;
  }

  /** Main result: for every template without a pair, when the fallback passes the check. */
  lemma NoPairExactly(tpl: seq<TemplateNode>, pos: map<string, NodePos>, result: seq<NodeShape>, order: seq<nat>)
    requires Outcome(tpl, pos, false, result) && UniqueTemplate(tpl) && NameOrder(order, tpl)
    requires !EndsInPair(Count(tpl, false)) && !EndsInPair(Count(tpl, true))
    ensures LayoutOk(ByName(result)) <==>
            || Rows(Count(tpl, false)) + Rows(Count(tpl, true)) <= 4
            || (Middle(Count(tpl, false)) + Middle(Count(tpl, true)) <= 4 && TenOrTwelve(|order|) && ListedWell(order))
  {
    hide Outcome, UniqueTemplate, NameOrder, LayoutOk, ByName, Count, ListedWell;
    var c, l := Count(tpl, false), Count(tpl, true);
    OrderLength(order, tpl);
    if Rows(c) + Rows(l) <= 4 {
      RoomyPasses(tpl, pos, result);
    } else if Middle(c) + Middle(l) >= 5 {
      CrowdedFails(tpl, pos, result);
    } else {
      OneGroupOnly(c, l);
      ListingExactly(tpl, pos, result, order);
    }
  }

  // ---------------------------------------------------------------------------
  // The same ten switches, listed twice
  // ---------------------------------------------------------------------------

  /** Switches named by letters, A being 0, in the order given. */
  function Switches(letters: seq<nat>): (tpl: seq<TemplateNode>)
    requires forall i :: 0 <= i < |letters| ==> letters[i] < 26
    ensures |tpl| == |letters|
    ensures forall i :: 0 <= i < |tpl| ==> tpl[i] == TemplateNode([(65 + letters[i]) as char], CoreRole)
  {
    seq(|letters|, i requires 0 <= i < |letters| => TemplateNode([(65 + letters[i]) as char], CoreRole))
  }

  const FROM_A_TO_J: seq<nat> := [0, 1, 2, 3, 4, 5, 6, 7, 8, 9]
  const B_AND_J_FIRST: seq<nat> := [1, 9, 0, 2, 3, 4, 5, 6, 7, 8]
  const PLACES_OF_A_TO_J: seq<nat> := [2, 0, 3, 4, 5, 6, 7, 8, 9, 1]

  /** `order` says where each letter is listed. */
  ghost predicate Inverse(order: seq<nat>, letters: seq<nat>) {
    && |order| == |letters| == 10
    && (forall i :: 0 <= i < 10 ==> letters[i] < 10 && order[letters[i]] == i)
    && (forall k :: 0 <= k < 10 ==> order[k] < 10 && letters[order[k]] == k)
  }

  lemma LetterBefore(m: nat, n: nat)
    requires m < n < 26
    ensures NameBefore([(65 + m) as char], [(65 + n) as char])
  {
  }

  lemma SwitchesByName(order: seq<nat>, letters: seq<nat>)
    requires Inverse(order, letters)
    ensures UniqueTemplate(Switches(letters)) && NameOrder(order, Switches(letters))
    ensures Count(Switches(letters), true) == 0
  {
    hide NameBefore;
    var tpl := Switches(letters);
    forall i, j | 0 <= i < j < |tpl| ensures tpl[i].name != tpl[j].name {
      assert letters[i] != letters[j];
      assert tpl[i].name[0] == (65 + letters[i]) as char && tpl[j].name[0] == (65 + letters[j]) as char;
    }
    forall k, l | 0 <= k < l < |order|
      ensures order[k] != order[l] && NameBefore(tpl[order[k]].name, tpl[order[l]].name)
    {
      LetterBefore(k, l);
    }
    forall i | 0 <= i < |tpl| ensures i in order {
      assert order[letters[i]] == i;
    }
    assert Members(tpl, true) == {};
  }

  lemma TwoListings()
    ensures Inverse(FROM_A_TO_J, FROM_A_TO_J) && Inverse(PLACES_OF_A_TO_J, B_AND_J_FIRST)
    ensures ListedWell(FROM_A_TO_J) && !ListedWell(PLACES_OF_A_TO_J)
  {
    var c, d := ColumnOf(FROM_A_TO_J, 1), ColumnOf(PLACES_OF_A_TO_J, 1);
    assert c[0] == 1 && c[1] == 4 && c[2] == 7 && c[3] == 9;
    assert d[0] == 0 && d[1] == 5 && d[2] == 8 && d[3] == 1;
    assert Height(10, 1) == 4 && !Loosens(d);
  }

  lemma SwitchesExactly(order: seq<nat>, letters: seq<nat>, pos: map<string, NodePos>, result: seq<NodeShape>)
    requires Inverse(order, letters) && Outcome(Switches(letters), pos, false, result)
    ensures LayoutOk(ByName(result)) <==> ListedWell(order)
  {
    hide Outcome, UniqueTemplate, NameOrder, Count, LayoutOk, ByName, ListedWell;
    SwitchesByName(order, letters);
    ListingExactly(Switches(letters), pos, result, order);
  }

  lemma AllLetters(order: seq<nat>, letters: seq<nat>, k: nat)
    requires Inverse(order, letters)
    ensures k in letters <==> k < 10
  {
    assert k < 10 ==> letters[order[k]] == k;
  }

  /** Listed from A to J ten switches pass; the same switches with B and J listed first do not. No condition on
      the counts alone is exact. */
  lemma OrderMatters(pos: map<string, NodePos>, result: seq<NodeShape>)
    ensures Outcome(Switches(FROM_A_TO_J), pos, false, result) ==> LayoutOk(ByName(result))
    ensures Outcome(Switches(B_AND_J_FIRST), pos, false, result) ==> !LayoutOk(ByName(result))
    ensures forall k: nat :: k in FROM_A_TO_J <==> k in B_AND_J_FIRST
  {
    TwoListings();
    forall k: nat ensures k in FROM_A_TO_J <==> k in B_AND_J_FIRST {
      AllLetters(FROM_A_TO_J, FROM_A_TO_J, k);
      AllLetters(PLACES_OF_A_TO_J, B_AND_J_FIRST, k);
    }
    hide Outcome, LayoutOk, ByName, ListedWell, Switches, Inverse;
    if Outcome(Switches(FROM_A_TO_J), pos, false, result) {
      SwitchesExactly(FROM_A_TO_J, FROM_A_TO_J, pos, result);
    }
    if Outcome(Switches(B_AND_J_FIRST), pos, false, result) {
      SwitchesExactly(PLACES_OF_A_TO_J, B_AND_J_FIRST, pos, result);
    }
  }
}
