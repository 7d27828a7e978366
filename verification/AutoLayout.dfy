/**
 autoLayout and placeLeaf of tools/topogen/render.go: nodes without a hand-made position go on a
 grid, three to a row, core nodes above leaf nodes, each group in the order of the names.
 */
module AutoLayout {
  import opened Reals
  import opened Shapes
  import opened Sizes
  import opened Sorting
  import opened LayoutCheck

  const CELL_W := 190.0
  const CELL_H := 120.0
  const TOP := 110.0
  const LEGEND := 395.0

  predicate LeafRole(role: Role) {
    role == HostRole || role == AttackerRole
  }

  predicate IsLeaf(s: NodeShape) {
    LeafRole(s.role)
  }

  /** Whether the layout has to place this node: it has no extracted position, and is in this group. */
  predicate InGroup(s: NodeShape, used: set<string>, leaf: bool) {
    s.name !in used && IsLeaf(s) == leaf
  }

  // ---------------------------------------------------------------------------
  // The order of names
  // ---------------------------------------------------------------------------

  /** Lexicographic order. */
  predicate NameBefore(a: string, b: string)
    decreases |a|
  {
    b != [] && (a == [] || a[0] < b[0] || (a[0] == b[0] && NameBefore(a[1..], b[1..])))
  }

  lemma {:induction false} NameAsymmetric(a: string, b: string)
    ensures !(NameBefore(a, b) && NameBefore(b, a))
    decreases |a|
  {
    if a != [] && b != [] {
      NameAsymmetric(a[1..], b[1..]);
    }
  }

  lemma {:induction false} NameNotBeforeTransitive(a: string, b: string, c: string)
    requires !NameBefore(a, b) && !NameBefore(b, c)
    ensures !NameBefore(a, c)
    decreases |a|
  {
    if a != [] && b != [] && c != [] && a[0] == b[0] == c[0] {
      NameNotBeforeTransitive(a[1..], b[1..], c[1..]);
    }
  }

  lemma {:induction false} NameTotal(a: string, b: string)
    ensures a == b || NameBefore(a, b) || NameBefore(b, a)
    decreases |a|
  {
    if a != [] && b != [] {
      NameTotal(a[1..], b[1..]);
      assert a == [a[0]] + a[1..] && b == [b[0]] + b[1..];
    }
  }

  lemma NamesWeaklyOrdered()
    ensures IsWeakOrder(NameBefore)
  {
    forall a, b | NameBefore(a, b) ensures !NameBefore(b, a) {
      NameAsymmetric(a, b);
    }
    forall a, b, c | !NameBefore(a, b) && !NameBefore(b, c) ensures !NameBefore(a, c) {
      NameNotBeforeTransitive(a, b, c);
    }
  }

  // ---------------------------------------------------------------------------
  // The grid
  // ---------------------------------------------------------------------------

  /** Column `col` of a centred row of `count` nodes. */
  function ColumnX(count: nat, col: nat): real {
    (VIEW_W - (count as real * CELL_W - 50.0)) / 2.0 + col as real * CELL_W + CELL_W / 2.0
  }

  function RowY(startY: real, row: nat, rowH: real): real {
    startY + row as real * rowH
  }

  /** The centre of the k-th of `n` nodes in a block of rows. */
  function Cell(k: nat, n: nat, startY: real, rowH: real): (real, real)
    requires k < n
  {
    var perRow := if n <= 3 then n else 3;
    var row, col := k / perRow, k % perRow;
    var rem := n - row * perRow;
    var rowCount := if rem < perRow then rem else perRow;
    (ColumnX(rowCount, col), RowY(startY, row, rowH))
  }

  /** How many rows a group of `n` takes; an empty group still takes one. */
  function Rows(n: nat): (rows: nat)
    ensures rows >= 1 && n <= 3 * rows
    ensures rows == 1 || 3 * (rows - 1) < n
  {
    if (n + 2) / 3 < 1 then 1 else (n + 2) / 3
  }

  function RowH(totalRows: nat): real
    requires totalRows >= 2
  {
    var gaps := (totalRows - 1) as real;
    if TOP + gaps * CELL_H + 60.0 > LEGEND then Max((LEGEND - 170.0) / gaps, 60.0) else CELL_H
  }

  function LeafStart(coreRows: nat, rowH: real): real {
    TOP + rowH * coreRows as real
  }

  /** The centre of the k-th name of its group, when there are `cores` and `leaves` nodes to place. */
  function Spot(leaf: bool, k: nat, cores: nat, leaves: nat): (real, real)
    requires k < if leaf then leaves else cores
  {
    var rowH := RowH(Rows(cores) + Rows(leaves));
    if leaf then Cell(k, leaves, LeafStart(Rows(cores), rowH), rowH) else Cell(k, cores, TOP, rowH)
  }

  function MovedTo(s: NodeShape, p: (real, real)): NodeShape {
    s.(cx := p.0, cy := p.1)
  }

  // ---------------------------------------------------------------------------
  // Placing
  // ---------------------------------------------------------------------------

  ghost predicate AreIndices(idxs: seq<nat>, n: nat) {
    && (forall k :: 0 <= k < |idxs| ==> idxs[k] < n)
    && (forall k, l :: 0 <= k < l < |idxs| ==> idxs[k] != idxs[l])
  }

  method Place(shapes: array<NodeShape>, idxs: seq<nat>, startY: real, rowH: real)
    requires AreIndices(idxs, shapes.Length)
    modifies shapes
    ensures forall k :: 0 <= k < |idxs| ==>
              shapes[idxs[k]] == MovedTo(old(shapes[idxs[k]]), Cell(k, |idxs|, startY, rowH))
    ensures forall i :: 0 <= i < shapes.Length && i !in idxs ==> shapes[i] == old(shapes[i])
  {
    hide Cell;
    for k := 0 to |idxs|
      invariant forall l :: 0 <= l < k ==>
                  shapes[idxs[l]] == MovedTo(old(shapes[idxs[l]]), Cell(l, |idxs|, startY, rowH))
      invariant forall l :: k <= l < |idxs| ==> shapes[idxs[l]] == old(shapes[idxs[l]])
      invariant forall i :: 0 <= i < shapes.Length && i !in idxs ==> shapes[i] == old(shapes[i])
    {
      var (x, y) := Cell(k, |idxs|, startY, rowH);
      shapes[idxs[k]] := shapes[idxs[k]].(cx := x, cy := y);
    }
  }

  function NamesOf(shapes: seq<NodeShape>): (names: seq<string>)
    ensures |names| == |shapes| && forall i :: 0 <= i < |names| ==> names[i] == shapes[i].name
  {
    seq(|shapes|, i requires 0 <= i < |shapes| => shapes[i].name)
  }

  /** `order` lists the nodes of one group by name. */
  ghost predicate GroupOrder(order: seq<nat>, shapes: seq<NodeShape>, used: set<string>, leaf: bool) {
    && InOrder(order, NamesOf(shapes), NameBefore)
    && forall i: nat :: i in order <==> i < |shapes| && InGroup(shapes[i], used, leaf)
  }

  method GroupByName(shapes: array<NodeShape>, used: set<string>, leaf: bool) returns (order: seq<nat>)
    ensures GroupOrder(order, shapes[..], used, leaf) && AreIndices(order, shapes.Length)
  {
    var idxs: seq<nat> := [];
    for i := 0 to shapes.Length
      invariant AreIndices(idxs, shapes.Length)
      invariant forall j: nat :: j in idxs <==> j < i && InGroup(shapes[j], used, leaf)
    {
      if InGroup(shapes[i], used, leaf) {
        assert i !in idxs;
        idxs := idxs + [i];
      }
    }
    NamesWeaklyOrdered();
    order := SortIndices(idxs, NamesOf(shapes[..]), NameBefore);
  }

  /** What the layout makes of the nodes: the two groups on the grid, all others untouched. */
  ghost predicate LaidOut(before: seq<NodeShape>, after: seq<NodeShape>, used: set<string>, core: seq<nat>, leaf: seq<nat>) {
    && |after| == |before|
    && GroupOrder(core, before, used, false) && GroupOrder(leaf, before, used, true)
    && (forall k :: 0 <= k < |core| ==> after[core[k]] == MovedTo(before[core[k]], Spot(false, k, |core|, |leaf|)))
    && (forall k :: 0 <= k < |leaf| ==> after[leaf[k]] == MovedTo(before[leaf[k]], Spot(true, k, |core|, |leaf|)))
    && (forall i :: 0 <= i < |before| && before[i].name in used ==> after[i] == before[i])
  }

  method ChooseRowH(totalRows: nat) returns (rowH: real)
    requires totalRows >= 2
    ensures rowH == RowH(totalRows)
  {
    var gaps := (totalRows - 1) as real;
    rowH := CELL_H;
    if TOP + gaps * rowH + 60.0 > LEGEND {
      rowH := (LEGEND - 170.0) / gaps;
      if rowH < 60.0 {
        rowH := 60.0;
      }
    }
  }

  method LayOut(shapes: array<NodeShape>, used: set<string>) returns (ghost core: seq<nat>, ghost leaf: seq<nat>)
    modifies shapes
    ensures LaidOut(old(shapes[..]), shapes[..], used, core, leaf)
  {
    hide Cell, InOrder, RowH, LeafStart, Rows;
    ghost var before := shapes[..];
    var coreIdx := GroupByName(shapes, used, false);
    var leafIdx := GroupByName(shapes, used, true);
    core, leaf := coreIdx, leafIdx;
    Place(shapes, coreIdx, TOP, CELL_H);
    var coreRows := Rows(|coreIdx|);
    var totalRows := coreRows + Rows(|leafIdx|);
    var rowH := ChooseRowH(totalRows);
    if rowH != CELL_H {
      Place(shapes, coreIdx, TOP, rowH);
    }
    ghost var corePlaced := shapes[..];
    assert forall k :: 0 <= k < |core| ==>
        corePlaced[core[k]] == MovedTo(before[core[k]], Spot(false, k, |core|, |leaf|));
    assert forall i :: i in leaf ==> i !in core && corePlaced[i] == before[i];
    Place(shapes, leafIdx, LeafStart(coreRows, rowH), rowH);
    forall k | 0 <= k < |core| ensures shapes[core[k]] == corePlaced[core[k]] {
      assert core[k] in core && core[k] !in leaf;
    }
    forall k | 0 <= k < |leaf|
      ensures shapes[leaf[k]] == MovedTo(before[leaf[k]], Spot(true, k, |core|, |leaf|))
    {
      assert leaf[k] in leaf;
    }
  }

  // ---------------------------------------------------------------------------
  // Where the cells are
  // ---------------------------------------------------------------------------

  /** A band of the canvas as high as this holds `totalRows` rows. */
  lemma RowHeights(totalRows: nat)
    requires totalRows >= 2
    ensures 60.0 <= RowH(totalRows) <= 120.0
    ensures totalRows <= 5 ==> RowY(TOP, totalRows - 1, RowH(totalRows)) + 30.0 <= LEGEND
    ensures totalRows >= 5 ==> RowH(totalRows) == 60.0
    ensures var gaps := (totalRows - 1) as real; gaps * RowH(totalRows) == Max(Min(gaps * 120.0, 225.0), gaps * 60.0)
  {
    var gaps := (totalRows - 1) as real;
    if totalRows >= 5 {
      ManyGaps(gaps, (LEGEND - 170.0) / gaps, gaps * CELL_H);
    } else {
      assert totalRows == 2 || totalRows == 3 || totalRows == 4;
    }
  }

  lemma ManyGaps(gaps: real, h: real, tall: real)
    requires gaps >= 4.0 && h == (LEGEND - 170.0) / gaps && tall == gaps * CELL_H
    ensures h < 60.0 && tall >= 480.0
  {
    assert h * gaps == LEGEND - 170.0;
    if h >= 60.0 {
      MulMono(gaps, 60.0, h);
    }
  }

  /** The row on the whole grid, counted from the top. */
  function GridRow(leaf: bool, k: nat, cores: nat): nat {
    (if leaf then Rows(cores) else 0) + k / 3
  }

  /** How many of the group's nodes share the row of the k-th. */
  function RowCount(k: nat, n: nat): nat
    requires k < n
  {
    if n - k / 3 * 3 < 3 then n - k / 3 * 3 else 3
  }

  lemma CellOnGrid(k: nat, n: nat, startY: real, rowH: real)
    requires k < n
    ensures Cell(k, n, startY, rowH) == (ColumnX(RowCount(k, n), k % 3), RowY(startY, k / 3, rowH))
    ensures k % 3 < RowCount(k, n) <= 3
  {
    hide ColumnX, RowY;
    if n <= 3 {
      assert k / n == 0 && k % n == k && k / 3 == 0 && k % 3 == k;
      assert k / n * n == 0;
    }
  }

  lemma LeafOnGrid(k: nat, n: nat, coreRows: nat, rowH: real)
    requires k < n
    ensures Cell(k, n, LeafStart(coreRows, rowH), rowH) == (ColumnX(RowCount(k, n), k % 3), RowY(TOP, coreRows + k / 3, rowH))
  {
    CellOnGrid(k, n, LeafStart(coreRows, rowH), rowH);
    AddRows(coreRows, k / 3, rowH);
  }

  lemma AddRows(m: nat, n: nat, h: real)
    ensures RowY(LeafStart(m, h), n, h) == RowY(TOP, m + n, h)
  {
    var a, b := m as real, n as real;
    assert (m + n) as real == a + b;
    assert h * a + b * h == (a + b) * h;
  }

  lemma SpotOnGrid(leaf: bool, k: nat, cores: nat, leaves: nat)
    requires k < if leaf then leaves else cores
    ensures var n := if leaf then leaves else cores;
            Spot(leaf, k, cores, leaves) ==
            (ColumnX(RowCount(k, n), k % 3), RowY(TOP, GridRow(leaf, k, cores), RowH(Rows(cores) + Rows(leaves))))
  {
    hide RowH, ColumnX, RowY, LeafStart, Cell, RowCount;
    var rowH := RowH(Rows(cores) + Rows(leaves));
    if leaf {
      LeafOnGrid(k, leaves, Rows(cores), rowH);
    } else {
      CellOnGrid(k, cores, TOP, rowH);
    }
  }

  lemma LowerRow(m: nat, n: nat, h: real)
    requires m < n && h >= 60.0
    ensures RowY(TOP, n, h) >= RowY(TOP, m, h) + 60.0
  {
    var a, b := m as real, n as real;
    assert b >= a + 1.0;
    MulMono(h, a + 1.0, b);
    assert h * (a + 1.0) == a * h + h;
    assert h * b == b * h;
  }

  lemma RowsApart(m: nat, n: nat, h: real, y: real, z: real)
    requires m != n && h >= 60.0 && y == RowY(TOP, m, h) && z == RowY(TOP, n, h)
    ensures Abs(y - z) >= 60.0
  {
    hide RowY;
    if m < n {
      LowerRow(m, n, h);
    } else {
      LowerRow(n, m, h);
    }
  }

  /** No two spots of the layout are too close, whatever stands on them. */
  lemma SpotsApart(leaf: bool, k: nat, leaf': bool, l: nat, cores: nat, leaves: nat)
    requires k < if leaf then leaves else cores
    requires l < if leaf' then leaves else cores
    requires leaf != leaf' || k != l
    ensures var p, q := Spot(leaf, k, cores, leaves), Spot(leaf', l, cores, leaves);
            Abs(p.0 - q.0) >= 190.0 || Abs(p.1 - q.1) >= 60.0
  {
    hide Spot, RowH, Rows, RowY, ColumnX;
    var m, n := GridRow(leaf, k, cores), GridRow(leaf', l, cores);
    var rowH := RowH(Rows(cores) + Rows(leaves));
    SpotOnGrid(leaf, k, cores, leaves);
    SpotOnGrid(leaf', l, cores, leaves);
    RowHeights(Rows(cores) + Rows(leaves));
    if m != n {
      RowsApart(m, n, rowH, Spot(leaf, k, cores, leaves).1, Spot(leaf', l, cores, leaves).1);
    } else {
      SameRowSameGroup(leaf, k, leaf', l, cores, leaves);
      ColumnsApart(k, l, if leaf then leaves else cores);
    }
  }

  lemma SameRowSameGroup(leaf: bool, k: nat, leaf': bool, l: nat, cores: nat, leaves: nat)
    requires k < if leaf then leaves else cores
    requires l < if leaf' then leaves else cores
    requires GridRow(leaf, k, cores) == GridRow(leaf', l, cores)
    ensures leaf == leaf' && k / 3 == l / 3
  {
  }

  lemma ColumnsApart(k: nat, l: nat, n: nat)
    requires k < n && l < n && k != l && k / 3 == l / 3
    ensures Abs(ColumnX(RowCount(k, n), k % 3) - ColumnX(RowCount(l, n), l % 3)) >= 190.0
  {
    assert k % 3 != l % 3;
    assert k % 3 - l % 3 >= 1 || l % 3 - k % 3 >= 1;
  }

  lemma ColumnInside(count: nat, col: nat)
    requires col < count <= 3
    ensures ColumnX(count, col) - 70.0 >= 0.0 && ColumnX(count, col) + 70.0 <= VIEW_W
  {
    assert count == 1 || count == 2 || count == 3;
    assert col == 0 || col == 1 || col == 2;
  }

  /** Which group and rank an index that is laid out has. */
  lemma FindSpot(before: seq<NodeShape>, after: seq<NodeShape>, used: set<string>, core: seq<nat>, leaf: seq<nat>, i: nat)
    returns (k: nat)
    requires LaidOut(before, after, used, core, leaf) && i < |before| && before[i].name !in used
    ensures var order := if IsLeaf(before[i]) then leaf else core;
            k < |order| && order[k] == i && after[i] == MovedTo(before[i], Spot(IsLeaf(before[i]), k, |core|, |leaf|))
  {
    hide Spot, InOrder;
    assert InGroup(before[i], used, IsLeaf(before[i]));
    var order := if IsLeaf(before[i]) then leaf else core;
    assert i in order;
    k :| 0 <= k < |order| && order[k] == i;
  }

  // ---------------------------------------------------------------------------
  // Main results
  // ---------------------------------------------------------------------------

  /** For any number of nodes: two placed nodes never fail the pairwise test of the layout check. */
  lemma PlacedApart(before: seq<NodeShape>, after: seq<NodeShape>, used: set<string>, core: seq<nat>, leaf: seq<nat>,
                    i: nat, j: nat)
    requires LaidOut(before, after, used, core, leaf)
    requires i < |before| && j < |before| && i != j && before[i].name !in used && before[j].name !in used
    ensures !TooClose(after[i], after[j])
  {
    hide LaidOut, Spot;
    var k := FindSpot(before, after, used, core, leaf, i);
    var l := FindSpot(before, after, used, core, leaf, j);
    SpotsApart(IsLeaf(before[i]), k, IsLeaf(before[j]), l, |core|, |leaf|);
  }

  /** Main result: every host and every attacker the layout places is at least a row of 60 px below every switch,
      router and hub it places. */
  lemma HostsBelow(before: seq<NodeShape>, after: seq<NodeShape>, used: set<string>, core: seq<nat>, leaf: seq<nat>,
                   i: nat, j: nat)
    requires LaidOut(before, after, used, core, leaf)
    requires i < |before| && j < |before| && before[i].name !in used && before[j].name !in used
    requires before[i].role in {HostRole, AttackerRole} && before[j].role in {CoreRole, HubRole}
    ensures after[i].cy >= after[j].cy + 60.0
  {
    hide LaidOut, Spot;
    var k := FindSpot(before, after, used, core, leaf, i);
    var l := FindSpot(before, after, used, core, leaf, j);
    hide RowH, RowY, ColumnX, RowCount;
    SpotOnGrid(true, k, |core|, |leaf|);
    SpotOnGrid(false, l, |core|, |leaf|);
    RowHeights(Rows(|core|) + Rows(|leaf|));
    LowerRow(GridRow(false, l, |core|), GridRow(true, k, |core|), RowH(Rows(|core|) + Rows(|leaf|)));
  }

  /** Main result: within a group the nodes read in the order of their names, from left to right and then down. */
  lemma InNameOrder(before: seq<NodeShape>, after: seq<NodeShape>, used: set<string>, core: seq<nat>, leaf: seq<nat>,
                    i: nat, j: nat)
    requires LaidOut(before, after, used, core, leaf)
    requires i < |before| && j < |before| && before[i].name !in used && before[j].name !in used
    requires IsLeaf(before[i]) == IsLeaf(before[j]) && NameBefore(before[i].name, before[j].name)
    ensures after[i].cy + 60.0 <= after[j].cy || (after[i].cy == after[j].cy && after[i].cx + 190.0 <= after[j].cx)
  {
    hide LaidOut, Spot, NameBefore;
    var lower := IsLeaf(before[i]);
    var order := if lower then leaf else core;
    var k := FindSpot(before, after, used, core, leaf, i);
    var l := FindSpot(before, after, used, core, leaf, j);
    NameAsymmetric(before[i].name, before[j].name);
    assert k < l by {
      EarlierInOrder(before, after, used, core, leaf, lower, k, l);
    }
    SpotsInOrder(lower, k, l, |core|, |leaf|);
  }

  lemma EarlierInOrder(before: seq<NodeShape>, after: seq<NodeShape>, used: set<string>, core: seq<nat>, leaf: seq<nat>,
                       lower: bool, k: nat, l: nat)
    requires LaidOut(before, after, used, core, leaf)
    requires var order := if lower then leaf else core;
             && k < |order| && l < |order| && order[k] < |before| && order[l] < |before|
             && NameBefore(before[order[k]].name, before[order[l]].name)
    ensures k < l
  {
    hide Spot, NameBefore;
    var order := if lower then leaf else core;
    NameAsymmetric(before[order[k]].name, before[order[l]].name);
    assert NamesOf(before)[order[k]] == before[order[k]].name && NamesOf(before)[order[l]] == before[order[l]].name;
  }

  lemma SpotsInOrder(leaf: bool, k: nat, l: nat, cores: nat, leaves: nat)
    requires k < l < if leaf then leaves else cores
    ensures var p, q := Spot(leaf, k, cores, leaves), Spot(leaf, l, cores, leaves);
            p.1 + 60.0 <= q.1 || (p.1 == q.1 && p.0 + 190.0 <= q.0)
  {
    hide Spot, RowH, Rows;
    var rowH := RowH(Rows(cores) + Rows(leaves));
    SpotOnGrid(leaf, k, cores, leaves);
    SpotOnGrid(leaf, l, cores, leaves);
    RowHeights(Rows(cores) + Rows(leaves));
    if k / 3 < l / 3 {
      hide RowY;
      LowerRow(GridRow(leaf, k, cores), GridRow(leaf, l, cores), rowH);
    } else {
      assert k / 3 == l / 3 && k % 3 < l % 3;
      hide RowY;
    }
  }

  /** The rows of a group hold three nodes each, 190 px apart, and the last one what is left. All are balanced
      around x=385, which is 25 px to the right of the middle of the canvas. */
  lemma RowBalanced(leaf: bool, row: nat, cores: nat, leaves: nat)
    requires 3 * row < if leaf then leaves else cores
    ensures var n := if leaf then leaves else cores;
            var last := if 3 * row + 2 < n then 3 * row + 2 else n - 1;
            var left, right := Spot(leaf, 3 * row, cores, leaves), Spot(leaf, last, cores, leaves);
            && left.0 + right.0 == 2.0 * 385.0 && left.1 == right.1 && VIEW_W / 2.0 == 385.0 - 25.0
            && right.0 - left.0 == 190.0 * (last - 3 * row) as real
            && (last + 1 < n ==> Spot(leaf, last + 1, cores, leaves).1 > right.1)
  {
    hide Spot, RowH, Rows;
    var n := if leaf then leaves else cores;
    var last := if 3 * row + 2 < n then 3 * row + 2 else n - 1;
    SpotOnGrid(leaf, 3 * row, cores, leaves);
    SpotOnGrid(leaf, last, cores, leaves);
    assert 3 * row / 3 == row && last / 3 == row && last % 3 == last - 3 * row;
    hide RowY;
    if last + 1 < n {
      SpotOnGrid(leaf, last + 1, cores, leaves);
      RowHeights(Rows(cores) + Rows(leaves));
      LowerRow(GridRow(leaf, last, cores), GridRow(leaf, last + 1, cores), RowH(Rows(cores) + Rows(leaves)));
    }
  }

  /** When no position was extracted, the layout passes the layout check. */
  lemma AutoLayoutIsValid(before: seq<NodeShape>, after: seq<NodeShape>, core: seq<nat>, leaf: seq<nat>,
                          byName: map<string, NodeShape>)
    requires LaidOut(before, after, {}, core, leaf) && |after| == |before|
    requires forall n :: n in byName ==> exists i :: 0 <= i < |before| && before[i].name == n && after[i] == byName[n]
    ensures LayoutOk(byName)
  {
    forall n, m | n in byName && m in byName && n != m ensures !TooClose(byName[n], byName[m]) {
      var i :| 0 <= i < |before| && before[i].name == n && after[i] == byName[n];
      var j :| 0 <= j < |before| && before[j].name == m && after[j] == byName[m];
      PlacedApart(before, after, {}, core, leaf, i, j);
    }
  }

  /** Every placed node is inside the canvas from side to side. */
  lemma PlacedInsideWidth(before: seq<NodeShape>, after: seq<NodeShape>, used: set<string>, core: seq<nat>, leaf: seq<nat>, i: nat)
    requires LaidOut(before, after, used, core, leaf) && i < |before| && before[i].name !in used
    ensures after[i].cx - 70.0 >= 0.0 && after[i].cx + 70.0 <= VIEW_W
  {
    hide LaidOut, Spot, ColumnX;
    var k := FindSpot(before, after, used, core, leaf, i);
    var n := if IsLeaf(before[i]) then |leaf| else |core|;
    SpotOnGrid(IsLeaf(before[i]), k, |core|, |leaf|);
    CellOnGrid(k, n, 0.0, 0.0);
    ColumnInside(RowCount(k, n), k % 3);
  }

  /** The last row in use. */
  function LastRow(cores: nat, leaves: nat): nat {
    if leaves > 0 then GridRow(true, leaves - 1, cores) else if cores > 0 then GridRow(false, cores - 1, cores) else 0
  }

  ghost predicate EndsAboveLegend(before: seq<NodeShape>, after: seq<NodeShape>, used: set<string>)
    requires |after| == |before|
  {
    forall i :: 0 <= i < |before| && before[i].name !in used ==> after[i].cy + 30.0 <= LEGEND
  }

  lemma SpotDepth(leaf: bool, k: nat, cores: nat, leaves: nat)
    requires k < if leaf then leaves else cores
    ensures GridRow(leaf, k, cores) <= LastRow(cores, leaves)
    ensures LastRow(cores, leaves) <= 4 ==> Spot(leaf, k, cores, leaves).1 + 30.0 <= LEGEND
    ensures GridRow(leaf, k, cores) >= 5 ==> Spot(leaf, k, cores, leaves).1 + 30.0 > LEGEND
  {
    hide Spot, RowH;
    var total := Rows(cores) + Rows(leaves);
    var row := GridRow(leaf, k, cores);
    SpotOnGrid(leaf, k, cores, leaves);
    RowHeights(total);
    assert row <= total - 1;
    Depth(row, total, RowH(total));
    if leaf {
      assert row <= LastRow(cores, leaves);
    }
  }

  lemma Depth(row: nat, total: nat, h: real)
    requires row < total && 60.0 <= h <= 120.0 && (total >= 5 ==> h == 60.0)
    requires total <= 5 ==> RowY(TOP, total - 1, h) + 30.0 <= LEGEND
    ensures row <= 4 ==> RowY(TOP, row, h) + 30.0 <= LEGEND
    ensures row >= 5 ==> RowY(TOP, row, h) + 30.0 > LEGEND
  {
    if total <= 5 {
      MulMono(h, row as real, (total - 1) as real);
    }
  }

  /** The layout ends above the legend exactly when it needs at most five rows. */
  lemma FitsExactly(before: seq<NodeShape>, after: seq<NodeShape>, used: set<string>, core: seq<nat>, leaf: seq<nat>)
    requires LaidOut(before, after, used, core, leaf) && |after| == |before|
    ensures EndsAboveLegend(before, after, used) <==> LastRow(|core|, |leaf|) <= 4
  {
    hide Spot, LastRow;
    forall i | 0 <= i < |before| && before[i].name !in used && LastRow(|core|, |leaf|) <= 4
      ensures after[i].cy + 30.0 <= LEGEND
    {
      var k := FindSpot(before, after, used, core, leaf, i);
      SpotDepth(IsLeaf(before[i]), k, |core|, |leaf|);
    }
    if LastRow(|core|, |leaf|) > 4 {
      LastNodeTooLow(before, after, used, core, leaf);
    }
  }

  lemma LastNodeTooLow(before: seq<NodeShape>, after: seq<NodeShape>, used: set<string>, core: seq<nat>, leaf: seq<nat>)
    requires LaidOut(before, after, used, core, leaf) && |after| == |before| && LastRow(|core|, |leaf|) > 4
    ensures !EndsAboveLegend(before, after, used)
  {
    hide Spot;
    var isLeaf := |leaf| > 0;
    var order := if isLeaf then leaf else core;
    var k := |order| - 1;
    SpotDepth(isLeaf, k, |core|, |leaf|);
    assert order[k] in order;
    assert after[order[k]].cy + 30.0 > LEGEND;
  }

  // ---------------------------------------------------------------------------
  // The input order does not matter
  // ---------------------------------------------------------------------------

  /** How many names of the group come before this one. */
  ghost function Rank(name: string, names: set<string>): nat {
    |set m | m in names && NameBefore(m, name)|
  }

  ghost predicate StrictlyOrdered(ks: seq<string>) {
    forall k, l :: 0 <= k < l < |ks| ==> NameBefore(ks[k], ks[l]) && ks[k] != ks[l]
  }

  /** In a strictly ordered list the k-th name has rank k. */
  lemma RankOfIndex(ks: seq<string>, names: set<string>, k: nat)
    requires StrictlyOrdered(ks) && k < |ks| && forall m :: m in names <==> m in ks
    ensures Rank(ks[k], names) == k
  {
    forall l | k <= l < |ks| ensures !NameBefore(ks[l], ks[k]) {
      NameAsymmetric(ks[k], ks[l]);
    }
    var prefix := ks[..k];
    assert (set m | m in names && NameBefore(m, ks[k])) == Elements(prefix);
    DistinctSize(prefix);
  }

  ghost predicate UniqueNames(shapes: seq<NodeShape>) {
    forall i, j :: 0 <= i < j < |shapes| ==> shapes[i].name != shapes[j].name
  }

  ghost function GroupNames(shapes: seq<NodeShape>, used: set<string>, leaf: bool): set<string> {
    set s | s in shapes && InGroup(s, used, leaf) :: s.name
  }

  /** The position the layout gives to a name: it depends on the two sets of names only. */
  ghost function NamedSpot(s: NodeShape, cores: set<string>, leaves: set<string>): (real, real) {
    var k := Rank(s.name, if IsLeaf(s) then leaves else cores);
    if k < |if IsLeaf(s) then leaves else cores| then Spot(IsLeaf(s), k, |cores|, |leaves|) else (0.0, 0.0)
  }

  /** The names of a group, in their order. */
  ghost function OrderedNames(order: seq<nat>, shapes: seq<NodeShape>): (ks: seq<string>)
    requires forall k :: 0 <= k < |order| ==> order[k] < |shapes|
    ensures |ks| == |order| && forall k :: 0 <= k < |ks| ==> ks[k] == shapes[order[k]].name
  {
    seq(|order|, k requires 0 <= k < |order| => shapes[order[k]].name)
  }

  lemma OrderedStrictly(order: seq<nat>, shapes: seq<NodeShape>)
    requires InOrder(order, NamesOf(shapes), NameBefore) && UniqueNames(shapes)
    requires forall k :: 0 <= k < |order| ==> order[k] < |shapes|
    ensures StrictlyOrdered(OrderedNames(order, shapes))
  {
    hide NameBefore;
    var ks := OrderedNames(order, shapes);
    forall k, l | 0 <= k < l < |ks| ensures NameBefore(ks[k], ks[l]) && ks[k] != ks[l] {
      NameTotal(ks[k], ks[l]);
      assert NamesOf(shapes)[order[k]] == ks[k] && NamesOf(shapes)[order[l]] == ks[l];
    }
  }

  lemma GroupNamesListed(order: seq<nat>, shapes: seq<NodeShape>, used: set<string>, leaf: bool, m: string)
    requires GroupOrder(order, shapes, used, leaf) && forall k :: 0 <= k < |order| ==> order[k] < |shapes|
    ensures m in GroupNames(shapes, used, leaf) <==> m in OrderedNames(order, shapes)
  {
    hide InOrder, InGroup;
    var ks := OrderedNames(order, shapes);
    if m in GroupNames(shapes, used, leaf) {
      var s :| s in shapes && InGroup(s, used, leaf) && s.name == m;
      var i :| 0 <= i < |shapes| && shapes[i] == s;
      assert i in order;
      var k :| 0 <= k < |order| && order[k] == i;
      assert ks[k] == m;
    }
    if m in ks {
      var k :| 0 <= k < |ks| && ks[k] == m;
      assert order[k] in order;
    }
  }

  lemma GroupSize(order: seq<nat>, shapes: seq<NodeShape>, used: set<string>, leaf: bool)
    requires GroupOrder(order, shapes, used, leaf) && UniqueNames(shapes)
    ensures |GroupNames(shapes, used, leaf)| == |order|
    ensures forall k :: 0 <= k < |order| ==> Rank(shapes[order[k]].name, GroupNames(shapes, used, leaf)) == k
  {
    var names := GroupNames(shapes, used, leaf);
    var ks := OrderedNames(order, shapes);
    OrderedStrictly(order, shapes);
    hide InOrder, GroupNames, NameBefore, UniqueNames, Rank;
    forall m ensures m in names <==> m in ks {
      GroupNamesListed(order, shapes, used, leaf, m);
    }
    forall k | 0 <= k < |order| ensures Rank(ks[k], names) == k {
      RankOfIndex(ks, names, k);
    }
    assert names == Elements(ks);
    DistinctSize(ks);
  }

  lemma PlacedByName(before: seq<NodeShape>, after: seq<NodeShape>, used: set<string>, core: seq<nat>, leaf: seq<nat>, i: nat)
    requires LaidOut(before, after, used, core, leaf) && UniqueNames(before) && |after| == |before|
    requires i < |before| && before[i].name !in used
    ensures after[i] == MovedTo(before[i],
                                NamedSpot(before[i], GroupNames(before, used, false), GroupNames(before, used, true)))
  {
    hide Spot, UniqueNames, GroupNames, Rank;
    var k := FindSpot(before, after, used, core, leaf, i);
    GroupSize(core, before, used, false);
    GroupSize(leaf, before, used, true);
  }

  /** Listing the same nodes in another order gives every name the same position. */
  lemma OrderDoesNotMatter(a: seq<NodeShape>, a': seq<NodeShape>, coreA: seq<nat>, leafA: seq<nat>,
                           b: seq<NodeShape>, b': seq<NodeShape>, coreB: seq<nat>, leafB: seq<nat>,
                           used: set<string>, i: nat, j: nat)
    requires LaidOut(a, a', used, coreA, leafA) && LaidOut(b, b', used, coreB, leafB)
    requires UniqueNames(a) && UniqueNames(b) && forall s :: s in a <==> s in b
    requires |a'| == |a| && |b'| == |b| && i < |a| && j < |b| && a[i].name == b[j].name
    ensures a'[i] == b'[j]
  {
    hide NamedSpot;
    assert a[i] in b;
    var l :| 0 <= l < |b| && b[l] == a[i];
    assert l == j;
    assert forall leaf :: GroupNames(a, used, leaf) == GroupNames(b, used, leaf);
    if a[i].name !in used {
      PlacedByName(a, a', used, coreA, leafA, i);
      PlacedByName(b, b', used, coreB, leafB, j);
    }
  }
}
