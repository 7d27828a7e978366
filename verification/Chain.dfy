/**
 enforceAutoMinGap on a column of boxes that stand edge to edge: gaps of 66 px wander through the column,
 but two of them never meet inside it, so some boxes always stay edge to edge.
 */
module Chain {
  import opened Reals
  import opened Shapes
  import opened MinGap

  /** The nodes `c`, from top to bottom, are a column that no other node touches. */
  ghost predicate Isolated(s: seq<NodeShape>, c: seq<nat>) {
    && |c| >= 3
    && (forall k :: 0 <= k < |c| ==> c[k] < |s|)
    && (forall k, l :: 0 <= k < l < |c| ==> c[k] != c[l])
    && (forall k, j: nat :: 0 <= k < |c| && j < |s| ==> (SameColumn(s[c[k]], s[j]) <==> j in c))
  }

  /** From one centre to the next. */
  function Step(s: seq<NodeShape>, c: seq<nat>, k: int): real {
    if 0 <= k < |c| - 1 && c[k] < |s| && c[k + 1] < |s| then s[c[k + 1]].cy - s[c[k]].cy else 0.0
  }

  /** Any two neighbours touch, or have the full clearance. */
  ghost predicate Spread(s: seq<NodeShape>, c: seq<nat>) {
    forall k :: 0 <= k < |c| - 1 ==> Step(s, c, k) == 60.0 || Step(s, c, k) == 126.0
  }

  /** Inside the column no two clearances are next to each other. */
  ghost predicate Single(s: seq<NodeShape>, c: seq<nat>) {
    forall k :: 1 <= k < |c| - 3 ==> Step(s, c, k) == 60.0 || Step(s, c, k + 1) == 60.0
  }

  /** The ends have not moved inwards, and the first has moved if there is a clearance below it. */
  ghost predicate Outward(s: seq<NodeShape>, c: seq<nat>, top: real, bottom: real)
    requires Isolated(s, c)
  {
    && s[c[0]].cy <= (if Step(s, c, 0) == 60.0 then top else top - 66.0)
    && s[c[|c| - 1]].cy >= bottom
  }

  ghost predicate Chained(s: seq<NodeShape>, c: seq<nat>, top: real, bottom: real) {
    Isolated(s, c) && Spread(s, c) && Single(s, c) && Outward(s, c, top, bottom)
  }

  lemma {:induction false} StepsAdd(s: seq<NodeShape>, c: seq<nat>, p: nat, q: nat)
    requires Isolated(s, c) && Spread(s, c) && p <= q < |c|
    ensures s[c[q]].cy - s[c[p]].cy >= 60.0 * (q - p) as real
    decreases q
  {
    hide Isolated;
    if p < q {
      StepsAdd(s, c, p, q - 1);
      var d := (q - 1 - p) as real;
      assert (q - p) as real == d + 1.0;
      assert Step(s, c, q - 1) >= 60.0;
    }
  }

  /** How far node `p` is above node `q`. */
  lemma Distance(s: seq<NodeShape>, c: seq<nat>, p: nat, q: nat)
    requires Isolated(s, c) && Spread(s, c) && p < q < |c|
    ensures q == p + 1 ==> s[c[q]].cy - s[c[p]].cy == Step(s, c, p)
    ensures q == p + 2 ==> s[c[q]].cy - s[c[p]].cy == Step(s, c, p) + Step(s, c, p + 1)
    ensures s[c[q]].cy - s[c[p]].cy >= Step(s, c, p)
    ensures s[c[q]].cy - s[c[p]].cy >= Step(s, c, q - 1)
    ensures q > p + 1 ==> s[c[q]].cy - s[c[p]].cy >= Step(s, c, p) + 60.0
    ensures q > p + 1 ==> s[c[q]].cy - s[c[p]].cy >= Step(s, c, q - 1) + 60.0
    ensures q > p + 2 ==> s[c[q]].cy - s[c[p]].cy >= 180.0
  {
    StepsAdd(s, c, p + 1, q);
    StepsAdd(s, c, p, q - 1);
    StepsAdd(s, c, p, q);
    hide Isolated, Spread;
    assert q > p + 1 ==> (q - 1 - p) as real >= 1.0;
    assert q > p + 2 ==> (q - p) as real >= 3.0;
  }

  lemma PlaceInColumn(s: seq<NodeShape>, c: seq<nat>, q: nat, j: nat) returns (m: nat)
    requires Isolated(s, c) && Spread(s, c) && q < |c| && j < |s| && j != c[q] && SameColumn(s[c[q]], s[j])
    ensures m < |c| && c[m] == j && m != q && Counts(s[c[q]], s[j])
    ensures Above(s[j], s[c[q]]) <==> m < q
    ensures m < q ==> CurGap(s[c[q]], s[j]) == s[c[q]].cy - s[c[m]].cy - 60.0
    ensures m > q ==> CurGap(s[c[q]], s[j]) == s[c[m]].cy - s[c[q]].cy - 60.0
  {
    assert j in c;
    m :| 0 <= m < |c| && c[m] == j;
    if m < q {
      StepsAdd(s, c, m, q);
      assert (q - m) as real >= 1.0;
    } else {
      StepsAdd(s, c, q, m);
      assert (m - q) as real >= 1.0;
    }
    hide Isolated, Spread;
  }

  /** The step from node `q` to its neighbour in direction `dir`. */
  function StepTo(s: seq<NodeShape>, c: seq<nat>, q: int, dir: int): real {
    Step(s, c, if dir > 0 then q else q - 1)
  }

  /** The next node in that direction exists. */
  predicate Has(c: seq<nat>, q: int) {
    0 <= q < |c|
  }

  predicate Behind(m: nat, q: nat, dir: int) {
    if dir > 0 then m < q else m > q
  }

  /** The two nodes behind touch node `q` and each other. */
  ghost predicate Pressed(s: seq<NodeShape>, c: seq<nat>, q: nat, dir: int) {
    Has(c, q - 2 * dir) && StepTo(s, c, q, -dir) == 60.0 && StepTo(s, c, q - dir, -dir) == 60.0
  }

  lemma NeighbourStep(s: seq<NodeShape>, c: seq<nat>, q: nat, dir: int)
    requires Isolated(s, c) && Spread(s, c) && q < |c| && (dir == 1 || dir == -1) && Has(c, q + dir)
    ensures StepTo(s, c, q, dir) == 60.0 || StepTo(s, c, q, dir) == 126.0
    ensures SameColumn(s[c[q]], s[c[q + dir]]) && Counts(s[c[q]], s[c[q + dir]]) && c[q + dir] != c[q]
    ensures Away(s[c[q]], s[c[q + dir]], -dir) && !Away(s[c[q]], s[c[q + dir]], dir)
    ensures CurGap(s[c[q]], s[c[q + dir]]) == StepTo(s, c, q, dir) - 60.0
  {
    var p := c[q + dir];
    assert p in c;
    var m := PlaceInColumn(s, c, q, p);
    if dir == 1 {
      Distance(s, c, q, q + 1);
    } else {
      Distance(s, c, q - 1, q);
    }
    assert m == q + dir;
    hide Isolated;
  }

  /** Room for a shift by 66 px towards the next node. */
  lemma RoomAhead(s: seq<NodeShape>, c: seq<nat>, q: nat, dir: int)
    requires Isolated(s, c) && Spread(s, c) && q < |c| && (dir == 1 || dir == -1) && Has(c, q + dir)
    requires Valid(s, c[q], dir)
    ensures StepTo(s, c, q, dir) == 126.0 && Term(s[c[q]], s[c[q + dir]], dir) >= MIN_GAP
  {
    NeighbourStep(s, c, q, dir);
    hide Spread, StepTo, SameColumn, Counts, CurGap, Away;
    assert TrialGap(s[c[q]], s[c[q + dir]], dir) >= 0.0;
  }

  /** Only the next node behind gains from the shift, unless two of them press. */
  lemma TermBehind(s: seq<NodeShape>, c: seq<nat>, q: nat, dir: int, j: nat)
    requires Isolated(s, c) && Spread(s, c) && q < |c| && (dir == 1 || dir == -1) && j < |s| && j != c[q]
    requires !Pressed(s, c, q, dir)
    ensures Term(s[c[q]], s[j], dir) >= if Has(c, q - dir) && j == c[q - dir] then -66.0 else 0.0
  {
    if SameColumn(s[c[q]], s[j]) {
      var m := PlaceInColumn(s, c, q, j);
      if Behind(m, q, dir) {
        FarBehind(s, c, q, dir, m);
      }
      hide Isolated, Spread, SameColumn, Pressed, StepTo, Step;
    }
  }

  lemma FarBehind(s: seq<NodeShape>, c: seq<nat>, q: nat, dir: int, m: nat)
    requires Isolated(s, c) && Spread(s, c) && q < |c| && m < |c| && (dir == 1 || dir == -1) && Behind(m, q, dir)
    requires !Pressed(s, c, q, dir)
    ensures m == q - dir || Abs(s[c[m]].cy - s[c[q]].cy) >= 126.0
  {
    if m != q - dir {
      if dir == -1 {
        Distance(s, c, q, m);
        assert Step(s, c, q) == 60.0 || Step(s, c, q) == 126.0;
        assert Step(s, c, q + 1) == 60.0 || Step(s, c, q + 1) == 126.0;
      } else {
        Distance(s, c, m, q);
        assert Step(s, c, q - 1) == 60.0 || Step(s, c, q - 1) == 126.0;
        assert Step(s, c, q - 2) == 60.0 || Step(s, c, q - 2) == 126.0;
      }
      hide Isolated, Spread;
    }
  }

  /** Towards a neighbour a node moves only if it has the clearance, and is pressed from behind. */
  lemma InnerMove(s: seq<NodeShape>, c: seq<nat>, q: nat, dir: int)
    requires Isolated(s, c) && Spread(s, c) && q < |c| && (dir == 1 || dir == -1) && Has(c, q + dir)
    requires BestDir(s, c[q]) == dir
    ensures StepTo(s, c, q, dir) == 126.0 && Pressed(s, c, q, dir)
  {
    BestDirIsValid(s, c[q]);
    var i, p := c[q], c[q + dir];
    RoomAhead(s, c, q, dir);
    if !Pressed(s, c, q, dir) {
      var near := if Has(c, q - dir) then {c[q - dir]} else {};
      forall j | 0 <= j < |s| && j != i ensures Term(s[i], s[j], dir) >= if j in near then -66.0 else 0.0 {
        TermBehind(s, c, q, dir, j);
      }
      assert p != i && p !in near;
      hide Isolated, Spread, Valid, Term, Times, Pressed, BestDir;
      TimesOneMore(66.0, 0);
      NetAtLeast(s, i, dir, |s|, p, near, 66.0);
    }
  }

  /** Every push is by 66 px, away from a node that touches. */
  lemma PushIsWhole(s: seq<NodeShape>, c: seq<nat>, q: nat)
    requires Isolated(s, c) && Spread(s, c) && q < |c| && BestDir(s, c[q]) != 0
    ensures var dir := BestDir(s, c[q]);
            && (dir == 1 || dir == -1)
            && Has(c, q - dir) && StepTo(s, c, q, -dir) == 60.0
            && Need(s, c[q], dir) == MIN_GAP
  {
    var i, dir := c[q], BestDir(s, c[q]);
    BestDirIsValid(s, i);
    ChosenDirectionPushes(s, i);
    var cause := NegativeNetHasCause(s, i, dir, |s|);
    var m := PlaceInColumn(s, c, q, cause);
    assert Behind(m, q, dir) && Has(c, q - dir);
    NeighbourStep(s, c, q, -dir);
    if m > q {
      Distance(s, c, q, m);
    } else {
      Distance(s, c, m, q);
    }
    hide Isolated, Spread, BestDir, SameColumn;
    NeedCovers(s, i, dir, |s|);
  }

  // ---------------------------------------------------------------------------
  // All pushes
  // ---------------------------------------------------------------------------

  lemma IsolatedKept(s: seq<NodeShape>, t: seq<NodeShape>, c: seq<nat>)
    requires Isolated(s, c) && |t| == |s| && forall j :: 0 <= j < |s| ==> SameButY(t[j], s[j])
    ensures Isolated(t, c)
  {
    forall k, j: nat | 0 <= k < |c| && j < |t| ensures SameColumn(t[c[k]], t[j]) <==> j in c {
      assert SameColumn(t[c[k]], t[j]) <==> SameColumn(s[c[k]], s[j]);
    }
  }

  /** One node moved by 66 px: the step behind it widens, the one ahead of it closes. */
  ghost predicate Shifts(s: seq<NodeShape>, t: seq<NodeShape>, c: seq<nat>, q: nat, dir: int)
    requires Isolated(s, c) && Isolated(t, c)
  {
    && q < |c| && (dir == 1 || dir == -1)
    && (forall k :: 0 <= k < |c| && k != q ==> t[c[k]].cy == s[c[k]].cy)
    && t[c[q]].cy == (if dir == 1 then s[c[q]].cy + 66.0 else s[c[q]].cy - 66.0)
    && Has(c, q - dir) && StepTo(s, c, q, -dir) == 60.0
    && (Has(c, q + dir) ==> StepTo(s, c, q, dir) == 126.0 && Pressed(s, c, q, dir))
  }

  lemma StepAfter(s: seq<NodeShape>, t: seq<NodeShape>, c: seq<nat>, q: nat, dir: int, k: nat)
    requires Isolated(s, c) && Isolated(t, c) && Shifts(s, t, c, q, dir) && k < |c| - 1
    ensures Step(t, c, k) == if k == (if dir == 1 then q - 1 else q) then 126.0
                             else if k == (if dir == 1 then q else q - 1) then 60.0 else Step(s, c, k)
  {
    hide Isolated, Pressed;
    assert c[k] < |s| && c[k + 1] < |s| && c[k] < |t| && c[k + 1] < |t| by {
      InRange(s, c, k);
      InRange(t, c, k);
    }
  }

  lemma InRange(s: seq<NodeShape>, c: seq<nat>, k: nat)
    requires Isolated(s, c) && k < |c| - 1
    ensures c[k] < |s| && c[k + 1] < |s|
  {
  }

  lemma ShiftKeepsSteps(s: seq<NodeShape>, t: seq<NodeShape>, c: seq<nat>, q: nat, dir: int)
    requires Isolated(s, c) && Isolated(t, c) && Spread(s, c) && Single(s, c) && Shifts(s, t, c, q, dir)
    ensures Spread(t, c) && Single(t, c)
  {
    hide Isolated;
    forall k | 0 <= k < |c| - 1 ensures Step(t, c, k) == 60.0 || Step(t, c, k) == 126.0 {
      StepAfter(s, t, c, q, dir, k);
    }
    forall k | 1 <= k < |c| - 3 ensures Step(t, c, k) == 60.0 || Step(t, c, k + 1) == 60.0 {
      StepAfter(s, t, c, q, dir, k);
      StepAfter(s, t, c, q, dir, k + 1);
      hide Step;
    }
  }

  lemma ShiftKeepsEnds(s: seq<NodeShape>, t: seq<NodeShape>, c: seq<nat>, q: nat, dir: int, top: real, bottom: real)
    requires Isolated(s, c) && Isolated(t, c) && Outward(s, c, top, bottom) && Spread(s, c) && Shifts(s, t, c, q, dir)
    ensures Outward(t, c, top, bottom)
  {
    StepAfter(s, t, c, q, dir, 0);
    assert Step(s, c, 0) == 60.0 || Step(s, c, 0) == 126.0;
    hide Isolated, Step;
  }

  lemma MoveShifts(s: seq<NodeShape>, c: seq<nat>, q: nat)
    requires Isolated(s, c) && Spread(s, c) && q < |c| && BestDir(s, c[q]) != 0 && Isolated(Push(s, c[q]), c)
    ensures Shifts(s, Push(s, c[q]), c, q, BestDir(s, c[q]))
  {
    var dir := BestDir(s, c[q]);
    PushedBy(s, c[q]);
    PushIsWhole(s, c, q);
    if Has(c, q + dir) {
      InnerMove(s, c, q, dir);
    }
    hide Push, BestDir, Need, Pressed, StepTo, Spread;
  }

  lemma SameChain(s: seq<NodeShape>, t: seq<NodeShape>, c: seq<nat>, top: real, bottom: real)
    requires Chained(s, c, top, bottom) && Isolated(t, c) && forall k :: 0 <= k < |c| ==> t[c[k]] == s[c[k]]
    ensures Chained(t, c, top, bottom)
  {
    assert forall k :: 0 <= k < |c| - 1 ==> Step(t, c, k) == Step(s, c, k);
    hide Isolated, Step;
  }

  /** A push keeps the column as it is required to be. */
  lemma PushChained(s: seq<NodeShape>, c: seq<nat>, i: nat, top: real, bottom: real)
    requires Chained(s, c, top, bottom) && i < |s|
    ensures Chained(Push(s, i), c, top, bottom)
  {
    hide Push, BestDir, Need, Spread, Single, Outward;
    var t := Push(s, i);
    PushedBy(s, i);
    IsolatedKept(s, t, c);
    if i in c && BestDir(s, i) != 0 {
      var q :| 0 <= q < |c| && c[q] == i;
      MoveShifts(s, c, q);
      hide Isolated, Shifts;
      ShiftKeepsSteps(s, t, c, q, BestDir(s, i));
      ShiftKeepsEnds(s, t, c, q, BestDir(s, i), top, bottom);
    } else {
      SameChain(s, t, c, top, bottom);
    }
  }

  /** An end of the column, touched by its neighbour; `dir` leads out. */
  ghost predicate TouchedEnd(s: seq<NodeShape>, c: seq<nat>, q: nat, dir: int) {
    q < |c| && (dir == 1 || dir == -1) && !Has(c, q + dir) && Has(c, q - dir) && StepTo(s, c, q, -dir) == 60.0
  }

  /** A shift outwards leaves all of the column behind. */
  lemma EndTerm(s: seq<NodeShape>, c: seq<nat>, q: nat, dir: int, j: nat)
    requires Isolated(s, c) && Spread(s, c) && TouchedEnd(s, c, q, dir) && j < |s| && j != c[q]
    ensures Counts(s[c[q]], s[j]) ==> TrialGap(s[c[q]], s[j], dir) >= 0.0
    ensures Term(s[c[q]], s[j], dir) <= if j == c[q - dir] then -66.0 else 0.0
  {
    NeighbourStep(s, c, q, -dir);
    if SameColumn(s[c[q]], s[j]) {
      var m := PlaceInColumn(s, c, q, j);
      hide Isolated, Spread, Step;
      assert Behind(m, q, dir);
    }
    hide Isolated, Spread, SameColumn;
  }

  lemma {:induction false} EndGains(s: seq<NodeShape>, c: seq<nat>, q: nat, dir: int, n: nat)
    requires Isolated(s, c) && Spread(s, c) && TouchedEnd(s, c, q, dir) && n <= |s|
    ensures NetUpTo(s, c[q], dir, n) <= if c[q - dir] < n then -66.0 else 0.0
    decreases n
  {
    hide Term, Isolated, Spread;
    if n == 0 {
    } else {
      EndGains(s, c, q, dir, n - 1);
      EndsApart(s, c, q, dir);
      if n - 1 != c[q] {
        EndTerm(s, c, q, dir, n - 1);
      }
    }
  }

  lemma EndsApart(s: seq<NodeShape>, c: seq<nat>, q: nat, dir: int)
    requires Isolated(s, c) && TouchedEnd(s, c, q, dir)
    ensures c[q] != c[q - dir] && c[q] < |s| && c[q - dir] < |s|
  {
  }

  lemma EndMoves(s: seq<NodeShape>, c: seq<nat>, q: nat, dir: int)
    requires Isolated(s, c) && Spread(s, c) && TouchedEnd(s, c, q, dir)
    ensures BestDir(s, c[q]) != 0
  {
    EndGains(s, c, q, dir, |s|);
    EndsApart(s, c, q, dir);
    forall j | 0 <= j < |s| && j != c[q] && Counts(s[c[q]], s[j]) ensures TrialGap(s[c[q]], s[j], dir) >= 0.0 {
      EndTerm(s, c, q, dir, j);
    }
  }

  /** The first node of the column is pushed up when its turn comes, unless it was already. */
  lemma FirstOpens(s: seq<NodeShape>, c: seq<nat>, top: real, bottom: real)
    requires Chained(s, c, top, bottom)
    ensures Push(s, c[0])[c[0]].cy <= top - 66.0
  {
    PushedBy(s, c[0]);
    if Step(s, c, 0) == 60.0 {
      EndMoves(s, c, 0, -1);
    }
    if BestDir(s, c[0]) != 0 {
      PushIsWhole(s, c, 0);
    }
    hide Isolated, BestDir, Push;
  }

  lemma {:induction false} RoundChained(s: seq<NodeShape>, c: seq<nat>, n: nat, top: real, bottom: real)
    requires Chained(s, c, top, bottom) && n <= |s|
    ensures Chained(Round(s, {}, n), c, top, bottom)
    ensures c[0] < n ==> Round(s, {}, n)[c[0]].cy <= top - 66.0
    decreases n
  {
    hide Spread, Single, Outward, Push;
    if n == 0 {
    } else {
      var before := Round(s, {}, n - 1);
      RoundChained(s, c, n - 1, top, bottom);
      PushChained(before, c, n - 1, top, bottom);
      PushedBy(before, n - 1);
      if c[0] == n - 1 {
        FirstOpens(before, c, top, bottom);
      }
    }
  }

  lemma {:induction false} EnforceChained(s: seq<NodeShape>, c: seq<nat>, rounds: nat, top: real, bottom: real)
    requires Chained(s, c, top, bottom)
    ensures Chained(Enforce(s, {}, rounds), c, top, bottom)
    ensures rounds > 0 ==> Enforce(s, {}, rounds)[c[0]].cy <= top - 66.0
    decreases rounds
  {
    hide Spread, Single, Round, RoundMoves;
    if rounds == 0 {
    } else {
      RoundChained(s, c, |s|, top, bottom);
      var r := Round(s, {}, |s|);
      if RoundMoves(s, {}, |s|) {
        EnforceChained(r, c, rounds - 1, top, bottom);
      }
    }
  }

  /** Main result: after the pass the column is 66 px taller, and inside it two nodes still touch. */
  lemma ColumnStaysTight(s: seq<NodeShape>, c: seq<nat>, rounds: nat, top: real, bottom: real) returns (k: nat)
    requires Chained(s, c, top, bottom) && rounds > 0 && |c| >= 5
    ensures var t := Enforce(s, {}, rounds);
            && Isolated(t, c) && t[c[|c| - 1]].cy - t[c[0]].cy >= bottom - top + 66.0
            && k < |c| - 1 && t[c[k + 1]].cy - t[c[k]].cy == 60.0
  {
    var t := Enforce(s, {}, rounds);
    EnforceChained(s, c, rounds, top, bottom);
    hide Isolated, Enforce;
    assert Step(t, c, 1) == 60.0 || Step(t, c, 2) == 60.0;
    k := if Step(t, c, 1) == 60.0 then 1 else 2;
  }
}
