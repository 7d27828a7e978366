/**
 enforceAutoMinGap on a column of four boxes that stand edge to edge: there the outcome depends on the
 order in which the nodes are listed. The pass is a small automaton on the three gaps.
 */
module FourChain {
  import opened Reals
  import opened Shapes
  import opened MinGap
  import opened Chain

  /** Which of the three gaps are open. */
  datatype Gaps = Gaps(a: bool, b: bool, c: bool)

  const CLOSED := Gaps(false, false, false)

  function Width(open: bool): real {
    if open then 126.0 else 60.0
  }

  ghost predicate HasGaps(s: seq<NodeShape>, c: seq<nat>, g: Gaps) {
    && Isolated(s, c) && |c| == 4
    && Step(s, c, 0) == Width(g.a) && Step(s, c, 1) == Width(g.b) && Step(s, c, 2) == Width(g.c)
  }

  /** What the turn of node `i` does: an end opens its gap; an inner node takes over the gap on its one side
      when nothing is open on its other side. */
  function Next(g: Gaps, c: seq<nat>, i: nat): Gaps
    requires |c| == 4
  {
    if i == c[0] && !g.a then g.(a := true)
    else if i == c[3] && !g.c then g.(c := true)
    else if (i == c[1] && g == Gaps(true, false, false)) || (i == c[2] && g == Gaps(false, false, true))
    then Gaps(false, true, false)
    else g
  }

  lemma GapsSpread(s: seq<NodeShape>, c: seq<nat>, g: Gaps)
    requires HasGaps(s, c, g)
    ensures Spread(s, c)
  {
    hide Isolated, Step;
    forall k | 0 <= k < |c| - 1 ensures Step(s, c, k) == 60.0 || Step(s, c, k) == 126.0 {
      assert k == 0 || k == 1 || k == 2;
    }
  }

  /** The three other nodes of the column are all that counts for node `q`. */
  lemma {:induction false} NetAtMost(s: seq<NodeShape>, i: nat, dir: int, n: nat, p: nat, near: nat, far: nat)
    requires i < |s| && n <= |s| && p != i && near != i && far != i && p != near && p != far && near != far
    requires p < |s| && near < |s| && far < |s|
    requires Term(s[i], s[p], dir) <= 66.0 && Term(s[i], s[near], dir) <= -66.0 && Term(s[i], s[far], dir) <= -6.0
    requires forall j :: 0 <= j < |s| && j != i && j != p && j != near && j != far ==> Term(s[i], s[j], dir) <= 0.0
    ensures NetUpTo(s, i, dir, n) <=
            (if p < n then 66.0 else 0.0) - (if near < n then 66.0 else 0.0) - (if far < n then 6.0 else 0.0)
    decreases n
  {
    hide Term;
    if n == 0 {
    } else {
      NetAtMost(s, i, dir, n - 1, p, near, far);
    }
  }

  lemma InnerTerm(s: seq<NodeShape>, c: seq<nat>, q: nat, dir: int, j: nat)
    requires Isolated(s, c) && Spread(s, c) && |c| == 4 && 0 < q < 3 && (dir == 1 || dir == -1) && j < |s| && j != c[q]
    requires Pressed(s, c, q, dir) && StepTo(s, c, q, dir) == 126.0
    ensures Counts(s[c[q]], s[j]) ==> TrialGap(s[c[q]], s[j], dir) >= 0.0
    ensures Term(s[c[q]], s[j], dir) <=
            if j == c[q + dir] then 66.0 else if j == c[q - dir] then -66.0 else if j == c[q - 2 * dir] then -6.0 else 0.0
  {
    if SameColumn(s[c[q]], s[j]) {
      var m := PlaceInColumn(s, c, q, j);
      assert m == q + dir || m == q - dir || m == q - 2 * dir;
      if m > q {
        Distance(s, c, q, m);
      } else {
        Distance(s, c, m, q);
      }
      hide Isolated, Spread, SameColumn;
    } else {
      assert c[q + dir] in c && c[q - dir] in c && c[q - 2 * dir] in c;
    }
  }

  /** A pressed inner node with an open gap ahead moves into it: it gains the six pixels to the second node behind. */
  lemma InnerMoves(s: seq<NodeShape>, c: seq<nat>, q: nat, dir: int)
    requires Isolated(s, c) && Spread(s, c) && |c| == 4 && 0 < q < 3 && (dir == 1 || dir == -1)
    requires Pressed(s, c, q, dir) && StepTo(s, c, q, dir) == 126.0
    ensures BestDir(s, c[q]) != 0
  {
    var i := c[q];
    forall j | 0 <= j < |s| && j != i
      ensures Counts(s[i], s[j]) ==> TrialGap(s[i], s[j], dir) >= 0.0
      ensures Term(s[i], s[j], dir) <=
              if j == c[q + dir] then 66.0 else if j == c[q - dir] then -66.0 else if j == c[q - 2 * dir] then -6.0 else 0.0
    {
      InnerTerm(s, c, q, dir, j);
    }
    assert Valid(s, i, dir);
    Distinct(s, c, q, dir);
    hide Isolated, Spread, Term, Valid, Pressed, StepTo;
    NetAtMost(s, i, dir, |s|, c[q + dir], c[q - dir], c[q - 2 * dir]);
  }

  lemma Distinct(s: seq<NodeShape>, c: seq<nat>, q: nat, dir: int)
    requires Isolated(s, c) && |c| == 4 && 0 < q < 3 && (dir == 1 || dir == -1) && Has(c, q - 2 * dir)
    ensures var i, p, near, far := c[q], c[q + dir], c[q - dir], c[q - 2 * dir];
            && p != i && near != i && far != i && p != near && p != far && near != far
            && i < |s| && p < |s| && near < |s| && far < |s|
  {
  }

  /** Who moves. */
  lemma WhoMoves(s: seq<NodeShape>, c: seq<nat>, g: Gaps, q: nat)
    requires HasGaps(s, c, g) && q < 4
    ensures BestDir(s, c[q]) ==
            if q == 0 && !g.a then -1
            else if q == 3 && !g.c then 1
            else if q == 1 && g == Gaps(true, false, false) then -1
            else if q == 2 && g == Gaps(false, false, true) then 1
            else 0
  {
    assert c[q] < |s|;
    hide BestDir, Isolated, Step;
    GapsSpread(s, c, g);
    if BestDir(s, c[q]) != 0 {
      PushIsWhole(s, c, q);
      if Has(c, q + BestDir(s, c[q])) {
        InnerMove(s, c, q, BestDir(s, c[q]));
      }
    }
    if q == 0 && !g.a {
      EndMoves(s, c, 0, -1);
    } else if q == 3 && !g.c {
      EndMoves(s, c, 3, 1);
    } else if q == 1 && g == Gaps(true, false, false) {
      InnerMoves(s, c, 1, -1);
    } else if q == 2 && g == Gaps(false, false, true) {
      InnerMoves(s, c, 2, 1);
    }
  }

  /** A push takes the column's gaps to the automaton's next state. */
  lemma PushGaps(s: seq<NodeShape>, c: seq<nat>, g: Gaps, i: nat)
    requires HasGaps(s, c, g) && i < |s|
    ensures HasGaps(Push(s, i), c, Next(g, c, i))
  {
    hide Push, BestDir, Spread;
    var t := Push(s, i);
    PushedBy(s, i);
    IsolatedKept(s, t, c);
    GapsSpread(s, c, g);
    if i in c {
      var q :| 0 <= q < |c| && c[q] == i;
      WhoMoves(s, c, g, q);
      NextAt(s, c, g, q);
      if BestDir(s, i) != 0 {
        MoveShifts(s, c, q);
        StepAfter(s, t, c, q, BestDir(s, i), 0);
        StepAfter(s, t, c, q, BestDir(s, i), 1);
        StepAfter(s, t, c, q, BestDir(s, i), 2);
      }
      hide Isolated, Step, Shifts, Next;
    } else {
      assert forall k :: 0 <= k < |c| ==> t[c[k]] == s[c[k]];
    }
  }

  lemma NextAt(s: seq<NodeShape>, c: seq<nat>, g: Gaps, q: nat)
    requires Isolated(s, c) && |c| == 4 && q < 4
    ensures Next(g, c, c[q]) ==
            if q == 0 && !g.a then g.(a := true)
            else if q == 3 && !g.c then g.(c := true)
            else if q == 1 && g == Gaps(true, false, false) then Gaps(false, true, false)
            else if q == 2 && g == Gaps(false, false, true) then Gaps(false, true, false)
            else g
  {
  }

  // ---------------------------------------------------------------------------
  // Rounds
  // ---------------------------------------------------------------------------

  /** The automaton over the turns of the first `n` nodes. */
  function Run(g: Gaps, c: seq<nat>, n: nat): Gaps
    requires |c| == 4
  {
    if n == 0 then g else Next(Run(g, c, n - 1), c, n - 1)
  }

  lemma {:induction false} RoundGaps(s: seq<NodeShape>, c: seq<nat>, g: Gaps, n: nat)
    requires HasGaps(s, c, g) && n <= |s|
    ensures HasGaps(Round(s, {}, n), c, Run(g, c, n))
    decreases n
  {
    hide HasGaps, Push, Next;
    assert |c| == 4 by {
      FourLong(s, c, g);
    }
    if n == 0 {
    } else {
      RoundGaps(s, c, g, n - 1);
      PushGaps(Round(s, {}, n - 1), c, Run(g, c, n - 1), n - 1);
    }
  }

  lemma FourLong(s: seq<NodeShape>, c: seq<nat>, g: Gaps)
    requires HasGaps(s, c, g)
    ensures |c| == 4
  {
  }

  /** The four nodes of a column, in whatever order they are listed. */
  ghost predicate FourIndices(c: seq<nat>, total: nat) {
    && |c| == 4
    && (forall k :: 0 <= k < 4 ==> c[k] < total)
    && (forall k, l :: 0 <= k < l < 4 ==> c[k] != c[l])
  }

  /** From one end: the first node is listed before the second, and that before the other end. */
  predicate Loosens(c: seq<nat>) {
    |c| == 4 && (c[0] < c[1] < c[3] || c[3] < c[2] < c[0])
  }

  /** The gaps during the first round. */
  function FirstRound(c: seq<nat>, n: nat): Gaps
    requires |c| == 4
  {
    if c[0] < c[1] < c[3] then Gaps(c[0] < n <= c[1], c[1] < n, c[3] < n)
    else if c[3] < c[2] < c[0] then Gaps(c[0] < n, c[2] < n, c[3] < n <= c[2])
    else Gaps(c[0] < n, false, c[3] < n)
  }

  lemma {:induction false} RunFirst(c: seq<nat>, total: nat, n: nat)
    requires FourIndices(c, total)
    ensures Run(CLOSED, c, n) == FirstRound(c, n)
    decreases n
  {
    if n == 0 {
    } else {
      RunFirst(c, total, n - 1);
    }
  }

  /** The gaps during the second. */
  lemma {:induction false} RunSecond(c: seq<nat>, total: nat, n: nat)
    requires FourIndices(c, total) && Loosens(c)
    ensures var g := Gaps(c[3] < c[2] < c[0], true, c[0] < c[1] < c[3]);
            Run(g, c, n) == if c[0] < c[1] < c[3] then g.(a := c[0] < n) else g.(c := c[3] < n)
    decreases n
  {
    if n == 0 {
    } else {
      RunSecond(c, total, n - 1);
    }
  }

  /** With both ends open and the middle closed, or all open, nothing moves any more. */
  lemma {:induction false} RunRests(c: seq<nat>, g: Gaps, n: nat)
    requires |c| == 4 && g.a && g.c
    ensures Run(g, c, n) == g
    decreases n
  {
    if n == 0 {
    } else {
      RunRests(c, g, n - 1);
    }
  }

  lemma {:induction false} EnforceRests(s: seq<NodeShape>, c: seq<nat>, g: Gaps, rounds: nat)
    requires HasGaps(s, c, g) && g.a && g.c
    ensures HasGaps(Enforce(s, {}, rounds), c, g)
    decreases rounds
  {
    hide HasGaps, Round, RoundMoves, Run;
    if rounds == 0 {
    } else {
      FourLong(s, c, g);
      RoundGaps(s, c, g, |s|);
      RunRests(c, g, |s|);
      EnforceRests(Round(s, {}, |s|), c, g, rounds - 1);
    }
  }

  lemma GapsDiffer(s: seq<NodeShape>, c: seq<nat>, g: Gaps, h: Gaps)
    requires HasGaps(s, c, g) && HasGaps(s, c, h)
    ensures g == h
  {
    hide Isolated, Step;
  }

  lemma IndicesOf(s: seq<NodeShape>, c: seq<nat>, g: Gaps)
    requires HasGaps(s, c, g)
    ensures FourIndices(c, |s|)
  {
  }

  /** A round that takes the gaps elsewhere is followed by another. */
  lemma RoundContinues(s: seq<NodeShape>, c: seq<nat>, g: Gaps)
    requires HasGaps(s, c, g) && Run(g, c, |s|) != g
    ensures RoundMoves(s, {}, |s|)
  {
    hide HasGaps, Run, Round, RoundMoves, BestDir;
    FourLong(s, c, g);
    RoundGaps(s, c, g, |s|);
    if !RoundMoves(s, {}, |s|) {
      QuietRoundIsAtRest(s, {}, |s|);
      GapsDiffer(s, c, g, Run(g, c, |s|));
    }
  }

  /** Main result: after the pass the ends of a closed column of four are open; its middle is open, too,
      exactly if its nodes are listed in an order that lets a gap in. */
  lemma FourExactly(s: seq<NodeShape>, c: seq<nat>, rounds: nat)
    requires HasGaps(s, c, CLOSED) && rounds >= 2
    ensures HasGaps(Enforce(s, {}, rounds), c, Gaps(true, Loosens(c), true))
  {
    hide HasGaps, Run, Round, RoundMoves, Next, FourIndices;
    IndicesOf(s, c, CLOSED);
    FourLong(s, c, CLOSED);
    var r := Round(s, {}, |s|);
    var g := FirstRound(c, |s|);
    RoundGaps(s, c, CLOSED, |s|);
    RunFirst(c, |s|, |s|);
    assert c[0] < |s| && c[1] < |s| && c[2] < |s| && c[3] < |s| by {
      Below(c, |s|);
    }
    RoundContinues(s, c, CLOSED);
    if Loosens(c) {
      RunSecond(c, |s|, |s|);
      RoundGaps(r, c, g, |s|);
      RoundContinues(r, c, g);
      EnforceRests(Round(r, {}, |s|), c, Gaps(true, true, true), rounds - 2);
    } else {
      EnforceRests(r, c, g, rounds - 1);
    }
  }

  lemma Below(c: seq<nat>, total: nat)
    requires FourIndices(c, total)
    ensures c[0] < total && c[1] < total && c[2] < total && c[3] < total
  {
  }

  // ---------------------------------------------------------------------------
  // Columns of three
  // ---------------------------------------------------------------------------

  /** In a column of three an end opens in its turn, and nothing closes again. */
  ghost predicate Opened(s: seq<NodeShape>, c: seq<nat>, n: nat) {
    && Isolated(s, c) && |c| == 3 && Spread(s, c)
    && (c[0] < n ==> Step(s, c, 0) == 126.0) && (c[2] < n ==> Step(s, c, 1) == 126.0)
  }

  lemma MoveOpens(s: seq<NodeShape>, c: seq<nat>, n: nat, q: nat)
    requires Opened(s, c, n) && q < 3 && BestDir(s, c[q]) != 0 && Isolated(Push(s, c[q]), c)
    ensures q == 0 || q == 2
    ensures Opened(Push(s, c[q]), c, n) && Step(Push(s, c[q]), c, if q == 0 then 0 else 1) == 126.0
  {
    hide Push;
    var t, dir := Push(s, c[q]), BestDir(s, c[q]);
    PushIsWhole(s, c, q);
    if Has(c, q + dir) {
      InnerMove(s, c, q, dir);
    }
    MoveShifts(s, c, q);
    StepAfter(s, t, c, q, dir, 0);
    StepAfter(s, t, c, q, dir, 1);
    hide Isolated, Step, Shifts, BestDir;
  }

  lemma PushOpens(s: seq<NodeShape>, c: seq<nat>, n: nat, i: nat)
    requires Opened(s, c, n) && i < |s|
    ensures Opened(Push(s, i), c, n)
    ensures i == n ==> Opened(Push(s, i), c, n + 1)
  {
    hide Push, BestDir;
    var t := Push(s, i);
    PushedBy(s, i);
    IsolatedKept(s, t, c);
    if i in c && BestDir(s, i) != 0 {
      var q :| 0 <= q < |c| && c[q] == i;
      MoveOpens(s, c, n, q);
      hide Step, Spread;
    } else {
      assert Step(t, c, 0) == Step(s, c, 0) && Step(t, c, 1) == Step(s, c, 1);
      if i == c[0] && Step(s, c, 0) == 60.0 {
        EndMoves(s, c, 0, -1);
      } else if i == c[2] && Step(s, c, 1) == 60.0 {
        EndMoves(s, c, 2, 1);
      }
      hide Isolated, Step;
    }
  }

  lemma {:induction false} RoundOpens(s: seq<NodeShape>, c: seq<nat>, n: nat)
    requires Opened(s, c, 0) && n <= |s|
    ensures Opened(Round(s, {}, n), c, n)
    decreases n
  {
    hide Opened, Push;
    if n == 0 {
    } else {
      RoundOpens(s, c, n - 1);
      PushOpens(Round(s, {}, n - 1), c, n - 1, n - 1);
    }
  }

  lemma {:induction false} RoundKeepsOpen(s: seq<NodeShape>, c: seq<nat>, m: nat, n: nat)
    requires Opened(s, c, m) && n <= |s|
    ensures Opened(Round(s, {}, n), c, m)
    decreases n
  {
    hide Opened, Push;
    if n == 0 {
    } else {
      RoundKeepsOpen(s, c, m, n - 1);
      PushOpens(Round(s, {}, n - 1), c, m, n - 1);
    }
  }

  lemma {:induction false} EnforceKeepsOpen(s: seq<NodeShape>, c: seq<nat>, m: nat, rounds: nat)
    requires Opened(s, c, m)
    ensures Opened(Enforce(s, {}, rounds), c, m)
    decreases rounds
  {
    hide Opened, Round, RoundMoves;
    if rounds == 0 {
    } else {
      RoundKeepsOpen(s, c, m, |s|);
      EnforceKeepsOpen(Round(s, {}, |s|), c, m, rounds - 1);
    }
  }

  /** Main result: a column of three always ends with both gaps open. */
  lemma ThreeOpens(s: seq<NodeShape>, c: seq<nat>, rounds: nat)
    requires Opened(s, c, 0) && rounds >= 1
    ensures Opened(Enforce(s, {}, rounds), c, |s|)
  {
    hide Opened, Round, RoundMoves;
    RoundOpens(s, c, |s|);
    EnforceKeepsOpen(Round(s, {}, |s|), c, |s|, rounds - 1);
  }
}
