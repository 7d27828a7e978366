/**
 enforceAutoMinGap on the rows of a grid with room between them: every node stays near its row.
 */
module Settle {
  import opened Reals
  import opened Shapes
  import opened AutoLayout
  import opened MinGap

  /** The y coordinate of the first rows. */
  function Level(row: int, h: real): real {
    if row == 0 then TOP else if row == 1 then TOP + h else if row == 2 then TOP + 2.0 * h else TOP + 3.0 * h
  }

  /** What is missing to the full clearance between neighbouring rows. */
  function Slack(h: real): real {
    126.0 - h
  }

  /** The nodes of a row that are in the column of node `i`. */
  ghost function Beside(s: seq<NodeShape>, rows: seq<int>, i: nat, row: int): set<nat>
    requires |rows| == |s| && i < |s|
  {
    set j: nat | j < |s| && rows[j] == row && SameColumn(s[i], s[j])
  }

  /** All of them together gain less from a shift of node `i` than a row on its other side would lose. */
  ghost predicate FewBeside(s: seq<NodeShape>, rows: seq<int>, h: real, i: nat, row: int)
    requires |rows| == |s| && i < |s|
  {
    Times(Slack(h), |Beside(s, rows, i, row)|) <= MIN_GAP
  }

  /** Up to four rows, whose nodes are not in each other's way. */
  ghost predicate Grid(s: seq<NodeShape>, rows: seq<int>, last: nat, h: real) {
    && |rows| == |s| && last <= 3 && 75.0 <= h <= 120.0
    && (forall i :: 0 <= i < |s| ==> 0 <= rows[i] <= last)
    && (forall i, j :: 0 <= i < |s| && 0 <= j < |s| && i != j && rows[i] == rows[j] ==> !SameColumn(s[i], s[j]))
    && (forall i, row :: 0 <= i < |s| ==> FewBeside(s, rows, h, i, row))
  }

  /** Node `i` is near its row, and not nearer than that to a neighbouring one. */
  ghost predicate InPlace(s: seq<NodeShape>, rows: seq<int>, last: nat, h: real, i: nat)
    requires |rows| == |s| && i < |s|
  {
    var y, row: int := s[i].cy, rows[i];
    && Level(row, h) - Slack(h) <= y <= Level(row, h) + Slack(h)
    && (row == 0 || Beside(s, rows, i, row + 1) != {} ==> y <= Level(row, h))
    && (row == last || Beside(s, rows, i, row - 1) != {} ==> y >= Level(row, h))
  }

  ghost predicate Settled(s: seq<NodeShape>, rows: seq<int>, last: nat, h: real) {
    Grid(s, rows, last, h) && forall i :: 0 <= i < |s| ==> InPlace(s, rows, last, h, i)
  }

  /** Two nodes of a column, the first in a higher row. */
  ghost predicate Under(s: seq<NodeShape>, rows: seq<int>, i: nat, j: nat)
    requires |rows| == |s|
  {
    i < |s| && j < |s| && rows[i] < rows[j] && SameColumn(s[i], s[j])
  }

  lemma RowsInOrder(s: seq<NodeShape>, rows: seq<int>, last: nat, h: real, i: nat, j: nat)
    requires Settled(s, rows, last, h) && Under(s, rows, i, j)
    ensures s[j].cy - s[i].cy >= h
    ensures s[j].cy >= Level(rows[i] + 1, h) && s[i].cy <= Level(rows[j] - 1, h)
    ensures rows[i] > 0 && rows[j] > rows[i] + 1 ==> s[j].cy >= Level(rows[i], h) + 2.0 * h
    ensures rows[j] < last && rows[j] > rows[i] + 1 ==> s[i].cy <= Level(rows[j], h) - 2.0 * h
  {
    hide Beside, FewBeside;
    assert rows[j] <= last <= 3;
    assert InPlace(s, rows, last, h, i) && InPlace(s, rows, last, h, j);
    if rows[j] == rows[i] + 1 {
      BesideHolds(s, rows, i, j);
    }
  }

  lemma BesideHolds(s: seq<NodeShape>, rows: seq<int>, i: nat, j: nat)
    requires |rows| == |s| && i < |s| && j < |s| && SameColumn(s[i], s[j])
    ensures j in Beside(s, rows, i, rows[j]) && i in Beside(s, rows, j, rows[i])
  {
  }

  // ---------------------------------------------------------------------------
  // One push
  // ---------------------------------------------------------------------------

  /** Both neighbouring rows have nodes in the column of node `i`. */
  ghost predicate Enclosed(s: seq<NodeShape>, rows: seq<int>, i: nat)
    requires |rows| == |s| && i < |s|
  {
    Beside(s, rows, i, rows[i] - 1) != {} && Beside(s, rows, i, rows[i] + 1) != {}
  }

  lemma TermIsSmall(s: seq<NodeShape>, rows: seq<int>, last: nat, h: real, i: nat, dir: int, j: nat)
    requires Settled(s, rows, last, h) && i < |s| && Enclosed(s, rows, i) && (dir == 1 || dir == -1)
    requires j < |s| && j != i
    ensures Term(s[i], s[j], dir) >= if j in Beside(s, rows, i, rows[i] - dir) then -Slack(h) else 0.0
  {
    if SameColumn(s[i], s[j]) {
      BesideHolds(s, rows, i, j);
      assert InPlace(s, rows, last, h, i);
      assert rows[i] != rows[j];
      if rows[i] < rows[j] {
        RowsInOrder(s, rows, last, h, i, j);
      } else {
        RowsInOrder(s, rows, last, h, j, i);
      }
      hide Settled, InPlace;
    }
  }

  lemma EdgeCosts(s: seq<NodeShape>, rows: seq<int>, last: nat, h: real, i: nat, dir: int, p: nat)
    requires Settled(s, rows, last, h) && i < |s| && Enclosed(s, rows, i) && (dir == 1 || dir == -1)
    requires p in Beside(s, rows, i, rows[i] + dir) && Valid(s, i, dir)
    ensures Term(s[i], s[p], dir) >= MIN_GAP
  {
    assert InPlace(s, rows, last, h, i) && InPlace(s, rows, last, h, p);
    if dir == 1 {
      RowsInOrder(s, rows, last, h, i, p);
    } else {
      RowsInOrder(s, rows, last, h, p, i);
    }
    hide Settled, Beside, Enclosed;
    assert rows[p] == rows[i] + dir;
  }

  /** Such a node gains nothing from either direction. */
  lemma EnclosedGainsNothing(s: seq<NodeShape>, rows: seq<int>, last: nat, h: real, i: nat, dir: int)
    requires Settled(s, rows, last, h) && i < |s| && Enclosed(s, rows, i) && (dir == 1 || dir == -1)
    requires Valid(s, i, dir)
    ensures Net(s, i, dir) >= 0.0
  {
    var p :| p in Beside(s, rows, i, rows[i] + dir);
    var near := Beside(s, rows, i, rows[i] - dir);
    EdgeCosts(s, rows, last, h, i, dir, p);
    forall j | 0 <= j < |s| && j != i ensures Term(s[i], s[j], dir) >= if j in near then -Slack(h) else 0.0 {
      TermIsSmall(s, rows, last, h, i, dir, j);
    }
    assert FewBeside(s, rows, h, i, rows[i] - dir);
    hide Term, Valid, Times, Settled, Enclosed;
    NetAtLeast(s, i, dir, |s|, p, near, Slack(h));
  }

  lemma EnclosedStays(s: seq<NodeShape>, rows: seq<int>, last: nat, h: real, i: nat)
    requires Settled(s, rows, last, h) && i < |s| && Enclosed(s, rows, i)
    ensures BestDir(s, i) == 0
  {
    hide Settled, Enclosed, Net, Valid;
    if Valid(s, i, 1) {
      EnclosedGainsNothing(s, rows, last, h, i, 1);
    }
    if Valid(s, i, -1) {
      EnclosedGainsNothing(s, rows, last, h, i, -1);
    }
  }

  /** What a push leads away from is on the other side in the grid, too. */
  lemma CauseIsUnder(s: seq<NodeShape>, rows: seq<int>, last: nat, h: real, i: nat, j: nat, dir: int)
    requires Settled(s, rows, last, h) && i < |s| && j < |s| && i != j && (dir == 1 || dir == -1)
    requires Counts(s[i], s[j]) && Away(s[i], s[j], dir)
    ensures if dir == 1 then Under(s, rows, j, i) else Under(s, rows, i, j)
  {
    if rows[i] < rows[j] {
      RowsInOrder(s, rows, last, h, i, j);
    } else if rows[j] < rows[i] {
      RowsInOrder(s, rows, last, h, j, i);
    }
    hide InPlace, FewBeside;
  }

  /** How far up a node can be pushed. */
  lemma UpStaysNear(s: seq<NodeShape>, rows: seq<int>, last: nat, h: real, i: nat)
    requires Settled(s, rows, last, h) && i < |s| && BestDir(s, i) == -1
    ensures rows[i] < last
    ensures s[i].cy - Need(s, i, -1) >=
            Level(rows[i], h) - if Beside(s, rows, i, rows[i] - 1) != {} then 0.0 else Slack(h)
  {
    var slack := if Beside(s, rows, i, rows[i] - 1) != {} then 0.0 else Slack(h);
    BestDirIsValid(s, i);
    var cause := NegativeNetHasCause(s, i, -1, |s|);
    CauseIsUnder(s, rows, last, h, i, cause, -1);
    assert rows[cause] <= last;
    if Enclosed(s, rows, i) {
      EnclosedStays(s, rows, last, h, i);
    }
    assert InPlace(s, rows, last, h, i);
    var bound := s[i].cy - Level(rows[i], h) + slack;
    forall j | 0 <= j < |s| && j != i && Counts(s[i], s[j]) && Away(s[i], s[j], -1)
      ensures MIN_GAP - CurGap(s[i], s[j]) <= bound
    {
      CauseIsUnder(s, rows, last, h, i, j, -1);
      BesideHolds(s, rows, i, j);
      RowsInOrder(s, rows, last, h, i, j);
      hide Settled, InPlace, Beside;
    }
    NeedAtMost(s, i, -1, |s|, bound);
  }

  /** How far down. */
  lemma DownStaysNear(s: seq<NodeShape>, rows: seq<int>, last: nat, h: real, i: nat)
    requires Settled(s, rows, last, h) && i < |s| && BestDir(s, i) == 1
    ensures rows[i] > 0
    ensures s[i].cy + Need(s, i, 1) <=
            Level(rows[i], h) + if Beside(s, rows, i, rows[i] + 1) != {} then 0.0 else Slack(h)
  {
    var slack := if Beside(s, rows, i, rows[i] + 1) != {} then 0.0 else Slack(h);
    BestDirIsValid(s, i);
    var cause := NegativeNetHasCause(s, i, 1, |s|);
    CauseIsUnder(s, rows, last, h, i, cause, 1);
    if Enclosed(s, rows, i) {
      EnclosedStays(s, rows, last, h, i);
    }
    assert InPlace(s, rows, last, h, i);
    var bound := Level(rows[i], h) + slack - s[i].cy;
    forall j | 0 <= j < |s| && j != i && Counts(s[i], s[j]) && Away(s[i], s[j], 1)
      ensures MIN_GAP - CurGap(s[i], s[j]) <= bound
    {
      CauseIsUnder(s, rows, last, h, i, j, 1);
      BesideHolds(s, rows, i, j);
      RowsInOrder(s, rows, last, h, j, i);
      hide Settled, InPlace, Beside;
    }
    NeedAtMost(s, i, 1, |s|, bound);
  }

  lemma BesideKept(s: seq<NodeShape>, t: seq<NodeShape>, rows: seq<int>, i: nat, row: int)
    requires |rows| == |s| == |t| && i < |s| && forall j :: 0 <= j < |s| ==> SameButY(t[j], s[j])
    ensures Beside(t, rows, i, row) == Beside(s, rows, i, row)
  {
  }

  lemma GridKept(s: seq<NodeShape>, t: seq<NodeShape>, rows: seq<int>, last: nat, h: real)
    requires Grid(s, rows, last, h) && |t| == |s| && forall j :: 0 <= j < |s| ==> SameButY(t[j], s[j])
    ensures Grid(t, rows, last, h)
  {
    hide Beside, Times;
    forall i, row | 0 <= i < |t| ensures FewBeside(t, rows, h, i, row) {
      BesideKept(s, t, rows, i, row);
      assert FewBeside(s, rows, h, i, row);
    }
  }

  /** A push leaves every node near its row. */
  lemma PushSettled(s: seq<NodeShape>, rows: seq<int>, last: nat, h: real, i: nat)
    requires Settled(s, rows, last, h) && i < |s|
    ensures Settled(Push(s, i), rows, last, h)
  {
    var t := Push(s, i);
    PushedBy(s, i);
    GridKept(s, t, rows, last, h);
    if BestDir(s, i) == -1 {
      UpStaysNear(s, rows, last, h, i);
    } else if BestDir(s, i) == 1 {
      DownStaysNear(s, rows, last, h, i);
    } else {
      assert BestDir(s, i) == 0;
    }
    hide Push, BestDir, Need, Beside, FewBeside, Level;
    forall j | 0 <= j < |t| ensures InPlace(t, rows, last, h, j) {
      assert InPlace(s, rows, last, h, j);
      BesideKept(s, t, rows, j, rows[j] - 1);
      BesideKept(s, t, rows, j, rows[j] + 1);
    }
  }

  lemma {:induction false} RoundSettled(s: seq<NodeShape>, rows: seq<int>, last: nat, h: real, used: set<string>, n: nat)
    requires Settled(s, rows, last, h) && n <= |s|
    ensures Settled(Round(s, used, n), rows, last, h)
    decreases n
  {
    hide Settled, Push;
    if n == 0 {
    } else {
      RoundSettled(s, rows, last, h, used, n - 1);
      PushSettled(Round(s, used, n - 1), rows, last, h, n - 1);
    }
  }

  /** Main result: through all rounds every node stays near its row. */
  lemma {:induction false} EnforceSettled(s: seq<NodeShape>, rows: seq<int>, last: nat, h: real, used: set<string>, rounds: nat)
    requires Settled(s, rows, last, h)
    ensures Settled(Enforce(s, used, rounds), rows, last, h)
    decreases rounds
  {
    hide Settled, Round, RoundMoves;
    if rounds == 0 {
    } else {
      RoundSettled(s, rows, last, h, used, |s|);
      EnforceSettled(Round(s, used, |s|), rows, last, h, used, rounds - 1);
    }
  }
}
