/**
 enforceAutoMinGap of tools/topogen/render.go: automatically placed nodes are pushed vertically
 away from same-column neighbours until facing port chips have room.
 */
module MinGap {
  import opened Reals
  import opened Shapes

  /** Clearance two facing chips need between node edges. */
  const MIN_GAP := 66.0
  const ROUNDS := 8

  predicate SameColumn(s: NodeShape, o: NodeShape) {
    !(s.cx - 70.0 > o.cx + 70.0 || s.cx + 70.0 < o.cx - 70.0)
  }

  /** `o` lies wholly above `s`. */
  predicate Above(o: NodeShape, s: NodeShape) {
    o.cy + HalfH(o) <= s.cy - HalfH(s)
  }

  /** `o` is a neighbour of `s` that the pass takes into account: same column, no vertical overlap. */
  predicate Counts(s: NodeShape, o: NodeShape) {
    SameColumn(s, o) && (Above(o, s) || Above(s, o))
  }

  /** The clear space between two such neighbours. */
  function CurGap(s: NodeShape, o: NodeShape): real {
    if Above(o, s) then s.cy - HalfH(s) - (o.cy + HalfH(o)) else o.cy - HalfH(o) - (s.cy + HalfH(s))
  }

  /** A move of `s` in direction `dir` (1 is down, -1 is up) leads away from `o`. */
  predicate Away(s: NodeShape, o: NodeShape, dir: int) {
    if dir > 0 then Above(o, s) else !Above(o, s)
  }

  /** The gap after a trial shift by the full clearance. */
  function TrialGap(s: NodeShape, o: NodeShape, dir: int): real {
    if Away(s, o, dir) then CurGap(s, o) + MIN_GAP else CurGap(s, o) - MIN_GAP
  }

  function Deficit(gap: real): real {
    if gap < MIN_GAP then MIN_GAP - gap else 0.0
  }

  // ---------------------------------------------------------------------------
  // Scoring a direction and applying a push
  // ---------------------------------------------------------------------------

  /** The trial shift's effect on the pair. */
  function Term(s: NodeShape, o: NodeShape, dir: int): real {
    if Counts(s, o) then Deficit(TrialGap(s, o, dir)) - Deficit(CurGap(s, o)) else 0.0
  }

  function NetUpTo(shapes: seq<NodeShape>, i: nat, dir: int, n: nat): real
    requires i < |shapes| && n <= |shapes|
  {
    if n == 0 then 0.0
    else NetUpTo(shapes, i, dir, n - 1) + (if n - 1 == i then 0.0 else Term(shapes[i], shapes[n - 1], dir))
  }

  function Net(shapes: seq<NodeShape>, i: nat, dir: int): real
    requires i < |shapes|
  {
    NetUpTo(shapes, i, dir, |shapes|)
  }

  /** The trial shift runs into no neighbour among the first `n`. */
  predicate ClearUpTo(shapes: seq<NodeShape>, i: nat, dir: int, n: nat)
    requires i < |shapes| && n <= |shapes|
  {
    forall j :: 0 <= j < n && j != i && Counts(shapes[i], shapes[j]) ==> TrialGap(shapes[i], shapes[j], dir) >= 0.0
  }

  predicate Valid(shapes: seq<NodeShape>, i: nat, dir: int)
    requires i < |shapes|
  {
    ClearUpTo(shapes, i, dir, |shapes|)
  }

  /** The direction chosen for node `i`; 0 when neither helps. Down wins a tie. */
  function BestDir(shapes: seq<NodeShape>, i: nat): int
    requires i < |shapes|
  {
    var down := Valid(shapes, i, 1) && Net(shapes, i, 1) < 0.0;
    var bestNet := if down then Net(shapes, i, 1) else 0.0;
    if Valid(shapes, i, -1) && Net(shapes, i, -1) < bestNet then -1 else if down then 1 else 0
  }

  /** The largest amount missing towards any of the first `n` neighbours left behind. */
  function NeedUpTo(shapes: seq<NodeShape>, i: nat, dir: int, n: nat): real
    requires i < |shapes| && n <= |shapes|
  {
    if n == 0 then 0.0
    else
      var need := NeedUpTo(shapes, i, dir, n - 1);
      var s, o := shapes[i], shapes[n - 1];
      if n - 1 != i && Counts(s, o) && Away(s, o, dir) && MIN_GAP - CurGap(s, o) > need
      then MIN_GAP - CurGap(s, o) else need
  }

  function Need(shapes: seq<NodeShape>, i: nat, dir: int): real
    requires i < |shapes|
  {
    NeedUpTo(shapes, i, dir, |shapes|)
  }

  predicate Moves(shapes: seq<NodeShape>, i: nat)
    requires i < |shapes|
  {
    BestDir(shapes, i) != 0 && Need(shapes, i, BestDir(shapes, i)) > 0.0
  }

  function Push(shapes: seq<NodeShape>, i: nat): seq<NodeShape>
    requires i < |shapes|
  {
    var dir := BestDir(shapes, i);
    if Moves(shapes, i)
    then shapes[i := shapes[i].(cy := shapes[i].cy + Need(shapes, i, dir) * dir as real)]
    else shapes
  }

  /** One pass over the first `n` nodes; nodes with an extracted position stay put. */
  function Round(shapes: seq<NodeShape>, used: set<string>, n: nat): (r: seq<NodeShape>)
    requires n <= |shapes|
    ensures |r| == |shapes|
  {
    if n == 0 then shapes
    else
      var before := Round(shapes, used, n - 1);
      if before[n - 1].name in used then before else Push(before, n - 1)
  }

  /** Some push happens among the first `n` steps of the pass. */
  predicate RoundMoves(shapes: seq<NodeShape>, used: set<string>, n: nat)
    requires n <= |shapes|
  {
    n > 0
    && (RoundMoves(shapes, used, n - 1)
        || (Round(shapes, used, n - 1)[n - 1].name !in used && Moves(Round(shapes, used, n - 1), n - 1)))
  }

  function Enforce(shapes: seq<NodeShape>, used: set<string>, rounds: nat): (r: seq<NodeShape>)
    ensures |r| == |shapes|
    decreases rounds
  {
    if rounds == 0 then shapes
    else
      var r := Round(shapes, used, |shapes|);
      if RoundMoves(shapes, used, |shapes|) then Enforce(r, used, rounds - 1) else r
  }

  // ---------------------------------------------------------------------------
  // The pass in place
  // ---------------------------------------------------------------------------

  method ScoreDirection(shapes: array<NodeShape>, i: nat, dir: int) returns (net: real, valid: bool)
    requires i < shapes.Length && (dir == 1 || dir == -1)
    ensures net == Net(shapes[..], i, dir) && valid == Valid(shapes[..], i, dir)
  {
    net := 0.0;
    valid := true;
    var s := shapes[i];
    var halfH := HalfH(s);
    for j := 0 to shapes.Length
      invariant net == NetUpTo(shapes[..], i, dir, j)
      invariant valid == ClearUpTo(shapes[..], i, dir, j)
    {
      if j == i {
        continue;
      }
      var o := shapes[j];
      var oh := HalfH(o);
      if s.cx - 70.0 > o.cx + 70.0 || s.cx + 70.0 < o.cx - 70.0 {
        continue;
      }
      var curGap: real;
      var newGap: real;
      if dir > 0 {
        if o.cy + oh <= s.cy - halfH {
          curGap := s.cy - halfH - (o.cy + oh);
          newGap := curGap + MIN_GAP;
        } else if o.cy - oh >= s.cy + halfH {
          curGap := o.cy - oh - (s.cy + halfH);
          newGap := curGap - MIN_GAP;
        } else {
          continue;
        }
      } else {
        if o.cy + oh <= s.cy - halfH {
          curGap := s.cy - halfH - (o.cy + oh);
          newGap := curGap - MIN_GAP;
        } else if o.cy - oh >= s.cy + halfH {
          curGap := o.cy - oh - (s.cy + halfH);
          newGap := curGap + MIN_GAP;
        } else {
          continue;
        }
      }
      assert Counts(s, o) && curGap == CurGap(s, o) && newGap == TrialGap(s, o, dir);
      if curGap < MIN_GAP {
        net := net - (MIN_GAP - curGap);
      }
      if newGap < MIN_GAP {
        net := net + (MIN_GAP - newGap);
      }
      if newGap < 0.0 {
        valid := false;
      }
    }
  }

  method ChooseDirection(shapes: array<NodeShape>, i: nat) returns (bestDir: int)
    requires i < shapes.Length
    ensures bestDir == BestDir(shapes[..], i) && (bestDir == 0 || bestDir == 1 || bestDir == -1)
    ensures bestDir != 0 <==> Helps(shapes[..], i, 1) || Helps(shapes[..], i, -1)
    ensures bestDir != 0 ==> Helps(shapes[..], i, bestDir)
  {
    hide Net, Valid, Helps;
    ChosenExactly(shapes[..], i);
    bestDir := 0;
    var bestNet := 0.0;
    var net, valid := ScoreDirection(shapes, i, 1);
    if valid && net < bestNet {
      bestNet := net;
      bestDir := 1;
    }
    net, valid := ScoreDirection(shapes, i, -1);
    if valid && net < bestNet {
      bestDir := -1;
    }
  }

  method NeededPush(shapes: array<NodeShape>, i: nat, dir: int) returns (need: real)
    requires i < shapes.Length && (dir == 1 || dir == -1)
    ensures need == Need(shapes[..], i, dir)
  {
    need := 0.0;
    var s := shapes[i];
    var halfH := HalfH(s);
    for j := 0 to shapes.Length
      invariant need == NeedUpTo(shapes[..], i, dir, j)
    {
      if j == i {
        continue;
      }
      var o := shapes[j];
      var oh := HalfH(o);
      if s.cx - 70.0 > o.cx + 70.0 || s.cx + 70.0 < o.cx - 70.0 {
        continue;
      }
      if dir > 0 && o.cy + oh <= s.cy - halfH {
        var gap := s.cy - halfH - (o.cy + oh);
        if MIN_GAP - gap > need {
          need := MIN_GAP - gap;
        }
      } else if dir < 0 && o.cy - oh >= s.cy + halfH {
        var gap := o.cy - oh - (s.cy + halfH);
        if MIN_GAP - gap > need {
          need := MIN_GAP - gap;
        }
      }
    }
  }

  method EnforceAutoMinGap(shapes: array<NodeShape>, used: set<string>)
    modifies shapes
    ensures shapes[..] == Enforce(old(shapes[..]), used, 8)
  {
    hide BestDir, Need, Helps;
    for iter := 0 to ROUNDS
      invariant Enforce(old(shapes[..]), used, ROUNDS) == Enforce(shapes[..], used, ROUNDS - iter)
    {
      ghost var start := shapes[..];
      var moved := false;
      for i := 0 to shapes.Length
        invariant shapes[..] == Round(start, used, i)
        invariant moved == RoundMoves(start, used, i)
      {
        ghost var now := shapes[..];
        if shapes[i].name in used {
          continue;
        }
        var bestDir := ChooseDirection(shapes, i);
        if bestDir == 0 {
          continue;
        }
        var need := NeededPush(shapes, i, bestDir);
        if need > 0.0 {
          shapes[i] := shapes[i].(cy := shapes[i].cy + need * bestDir as real);
          moved := true;
          assert shapes[..] == Push(now, i);
        }
      }
      if !moved {
        return;
      }
    }
  }

  // ---------------------------------------------------------------------------
  // What one push does
  // ---------------------------------------------------------------------------

  /** Signed clear space between two nodes; negative when they overlap vertically. */
  function Gap(a: NodeShape, b: NodeShape): real {
    Abs(a.cy - b.cy) - HalfH(a) - HalfH(b)
  }

  predicate Overlaps(a: NodeShape, b: NodeShape) {
    SameColumn(a, b) && Gap(a, b) < 0.0
  }

  lemma CountsMeansApart(s: NodeShape, o: NodeShape)
    ensures Counts(s, o) <==> SameColumn(s, o) && !Overlaps(s, o)
    ensures Counts(s, o) ==> CurGap(s, o) == Gap(s, o)
  {
  }

  /** A negative score comes from some neighbour that is left behind and was too close. */
  lemma {:induction false} NegativeNetHasCause(shapes: seq<NodeShape>, i: nat, dir: int, n: nat) returns (j: nat)
    requires i < |shapes| && n <= |shapes|
    requires ClearUpTo(shapes, i, dir, n) && NetUpTo(shapes, i, dir, n) < 0.0
    ensures j < n && j != i && Counts(shapes[i], shapes[j]) && Away(shapes[i], shapes[j], dir)
    ensures CurGap(shapes[i], shapes[j]) < MIN_GAP
    decreases n
  {
    if n - 1 != i && Term(shapes[i], shapes[n - 1], dir) < 0.0 {
      j := n - 1;
    } else {
      j := NegativeNetHasCause(shapes, i, dir, n - 1);
    }
  }

  lemma {:induction false} NeedCovers(shapes: seq<NodeShape>, i: nat, dir: int, n: nat)
    requires i < |shapes| && n <= |shapes|
    ensures 0.0 <= NeedUpTo(shapes, i, dir, n) <= MIN_GAP
    ensures forall j :: 0 <= j < n && j != i && Counts(shapes[i], shapes[j]) && Away(shapes[i], shapes[j], dir) ==>
              MIN_GAP - CurGap(shapes[i], shapes[j]) <= NeedUpTo(shapes, i, dir, n)
    decreases n
  {
    if n == 0 {
    } else {
      NeedCovers(shapes, i, dir, n - 1);
    }
  }

  lemma {:induction false} NeedAtMost(shapes: seq<NodeShape>, i: nat, dir: int, n: nat, bound: real)
    requires i < |shapes| && n <= |shapes| && bound >= 0.0
    requires forall j :: 0 <= j < n && j != i && Counts(shapes[i], shapes[j]) && Away(shapes[i], shapes[j], dir) ==>
               MIN_GAP - CurGap(shapes[i], shapes[j]) <= bound
    ensures NeedUpTo(shapes, i, dir, n) <= bound
    decreases n
  {
    if n == 0 {
    } else {
      NeedAtMost(shapes, i, dir, n - 1, bound);
    }
  }

  function Times(d: real, n: nat): real {
    d * n as real
  }

  lemma TimesOneMore(d: real, n: nat)
    ensures Times(d, 0) == 0.0 && Times(d, n + 1) == Times(d, n) + d
    ensures d >= 0.0 ==> Times(d, n) >= 0.0
  {
    var m := n as real;
    assert (n + 1) as real == m + 1.0;
  }

  /** A neighbour `p` that the shift would bring to the edge outweighs neighbours left behind that gain little. */
  lemma {:induction false} NetAtLeast(shapes: seq<NodeShape>, i: nat, dir: int, n: nat, p: nat, near: set<nat>, d: real)
    requires i < |shapes| && n <= |shapes| && p != i && p !in near && d >= 0.0
    requires p < n ==> Term(shapes[i], shapes[p], dir) >= MIN_GAP
    requires forall j :: 0 <= j < n && j != i ==> Term(shapes[i], shapes[j], dir) >= if j in near then -d else 0.0
    ensures NetUpTo(shapes, i, dir, n) >= (if p < n then MIN_GAP else 0.0) - Times(d, |near|)
    decreases n
  {
    hide Term, Times;
    TimesOneMore(d, |near|);
    if n == 0 {
    } else if n - 1 in near {
      var rest := near - {n - 1};
      assert |near| == |rest| + 1;
      TimesOneMore(d, |rest|);
      NetAtLeast(shapes, i, dir, n - 1, p, rest, d);
    } else {
      NetAtLeast(shapes, i, dir, n - 1, p, near, d);
    }
  }

  lemma BestDirIsValid(shapes: seq<NodeShape>, i: nat)
    requires i < |shapes| && BestDir(shapes, i) != 0
    ensures var dir := BestDir(shapes, i);
            (dir == 1 || dir == -1) && Valid(shapes, i, dir) && Net(shapes, i, dir) < 0.0
  {
  }

  /** A chosen direction always yields a push, and by no more than the trial shift it was scored with. */
  lemma ChosenDirectionPushes(shapes: seq<NodeShape>, i: nat)
    requires i < |shapes| && BestDir(shapes, i) != 0
    ensures 0.0 < Need(shapes, i, BestDir(shapes, i)) <= MIN_GAP
    ensures Moves(shapes, i)
  {
    var dir := BestDir(shapes, i);
    BestDirIsValid(shapes, i);
    var j := NegativeNetHasCause(shapes, i, dir, |shapes|);
    NeedCovers(shapes, i, dir, |shapes|);
  }

  /** After a push the node has the full clearance to every neighbour it was pushed away from, and
      has not run into any neighbour it was pushed towards. */
  lemma PushClears(shapes: seq<NodeShape>, i: nat, j: nat)
    requires i < |shapes| && j < |shapes| && i != j && Moves(shapes, i)
    requires Counts(shapes[i], shapes[j])
    ensures var s', dir := Push(shapes, i)[i], BestDir(shapes, i);
            && Counts(s', shapes[j])
            && Gap(s', shapes[j]) >= (if Away(shapes[i], shapes[j], dir) then MIN_GAP else 0.0)
            && Gap(s', shapes[j]) >= (if Away(shapes[i], shapes[j], dir) then Gap(shapes[i], shapes[j]) else Gap(shapes[i], shapes[j]) - MIN_GAP)
  {
    var dir := BestDir(shapes, i);
    BestDirIsValid(shapes, i);
    NeedCovers(shapes, i, dir, |shapes|);
    assert TrialGap(shapes[i], shapes[j], dir) >= 0.0;
  }

  /** Only node `i` moves, and only vertically. */
  lemma PushFrame(shapes: seq<NodeShape>, i: nat)
    requires i < |shapes|
    ensures |Push(shapes, i)| == |shapes|
    ensures forall j :: 0 <= j < |shapes| ==>
              SameButY(Push(shapes, i)[j], shapes[j]) && (j != i ==> Push(shapes, i)[j] == shapes[j])
  {
  }

  /** Where it moves to. */
  lemma PushedBy(s: seq<NodeShape>, i: nat)
    requires i < |s|
    ensures |Push(s, i)| == |s| && forall j :: 0 <= j < |s| ==> SameButY(Push(s, i)[j], s[j])
    ensures forall j :: 0 <= j < |s| && j != i ==> Push(s, i)[j] == s[j]
    ensures BestDir(s, i) == 0 || BestDir(s, i) == 1 || BestDir(s, i) == -1
    ensures if BestDir(s, i) == 0 then Push(s, i) == s else 0.0 < Need(s, i, BestDir(s, i)) <= MIN_GAP
    ensures BestDir(s, i) == 1 ==> Push(s, i)[i].cy == s[i].cy + Need(s, i, 1)
    ensures BestDir(s, i) == -1 ==> Push(s, i)[i].cy == s[i].cy - Need(s, i, -1)
  {
    hide BestDir, Need;
    if BestDir(s, i) != 0 {
      BestDirIsValid(s, i);
      ChosenDirectionPushes(s, i);
      var need := Need(s, i, BestDir(s, i));
      assert need * 1 as real == need && need * (-1) as real == -need;
    }
  }

  /** No pair comes to overlap. */
  ghost predicate NoNewOverlap(before: seq<NodeShape>, after: seq<NodeShape>) {
    |before| == |after|
    && forall a, b :: 0 <= a < |after| && 0 <= b < |after| && a != b && Overlaps(after[a], after[b]) ==>
         Overlaps(before[a], before[b])
  }

  lemma PushOverlapsNothing(shapes: seq<NodeShape>, i: nat)
    requires i < |shapes|
    ensures NoNewOverlap(shapes, Push(shapes, i))
  {
    var after := Push(shapes, i);
    if Moves(shapes, i) {
      forall a, b | 0 <= a < |after| && 0 <= b < |after| && a != b && Overlaps(after[a], after[b])
        ensures Overlaps(shapes[a], shapes[b])
      {
        var j := if a == i then b else a;
        if (a == i || b == i) && Counts(shapes[i], shapes[j]) {
          PushClears(shapes, i, j);
        }
      }
    }
  }

  // ---------------------------------------------------------------------------
  // When a node is pushed at all
  // ---------------------------------------------------------------------------

  /** A neighbour no farther away in x than a node is wide, with no vertical overlap. */
  predicate Neighbour(shapes: seq<NodeShape>, i: nat, j: nat)
    requires i < |shapes| && j < |shapes|
  {
    j != i && Abs(shapes[i].cx - shapes[j].cx) <= 140.0 && Gap(shapes[i], shapes[j]) >= 0.0
  }

  function ShiftedNode(s: NodeShape, dir: int): NodeShape {
    s.(cy := s.cy + 66.0 * dir as real)
  }

  /** What node `i`, put where `t` is, would lack towards its neighbours among the first `n` nodes. */
  function Lacks(shapes: seq<NodeShape>, i: nat, t: NodeShape, n: nat): real
    requires i < |shapes| && n <= |shapes|
  {
    if n == 0 then 0.0
    else
      Lacks(shapes, i, t, n - 1) + if Neighbour(shapes, i, n - 1) then Deficit(Gap(t, shapes[n - 1])) else 0.0
  }

  /** Shifted by 66 px the node overlaps none of its neighbours and lacks less clearance than now. */
  ghost predicate Helps(shapes: seq<NodeShape>, i: nat, dir: int)
    requires i < |shapes|
  {
    var t := ShiftedNode(shapes[i], dir);
    && (forall j :: 0 <= j < |shapes| && Neighbour(shapes, i, j) ==> Gap(t, shapes[j]) >= 0.0)
    && Lacks(shapes, i, t, |shapes|) < Lacks(shapes, i, shapes[i], |shapes|)
  }

  /** The trial gap is the gap after the shift, unless both say that the nodes would overlap. */
  lemma TrialIsShift(shapes: seq<NodeShape>, i: nat, dir: int, j: nat)
    requires i < |shapes| && j < |shapes| && j != i && (dir == 1 || dir == -1)
    ensures Neighbour(shapes, i, j) <==> Counts(shapes[i], shapes[j])
    ensures Neighbour(shapes, i, j) ==>
              var trial, gap := TrialGap(shapes[i], shapes[j], dir), Gap(ShiftedNode(shapes[i], dir), shapes[j]);
              && CurGap(shapes[i], shapes[j]) == Gap(shapes[i], shapes[j])
              && (trial >= 0.0 <==> gap >= 0.0) && (trial >= 0.0 ==> trial == gap)
  {
  }

  lemma ValidIsClear(shapes: seq<NodeShape>, i: nat, dir: int)
    requires i < |shapes| && (dir == 1 || dir == -1)
    ensures Valid(shapes, i, dir) <==>
            forall j :: 0 <= j < |shapes| && Neighbour(shapes, i, j) ==> Gap(ShiftedNode(shapes[i], dir), shapes[j]) >= 0.0
  {
    hide Neighbour, Counts, TrialGap, Gap, ShiftedNode, CurGap;
    forall j | 0 <= j < |shapes| && j != i
      ensures Neighbour(shapes, i, j) <==> Counts(shapes[i], shapes[j])
      ensures Neighbour(shapes, i, j) ==>
                (TrialGap(shapes[i], shapes[j], dir) >= 0.0 <==> Gap(ShiftedNode(shapes[i], dir), shapes[j]) >= 0.0)
    {
      TrialIsShift(shapes, i, dir, j);
    }
    assert !Neighbour(shapes, i, i) by {
      NotOwnNeighbour(shapes, i);
    }
  }

  lemma NotOwnNeighbour(shapes: seq<NodeShape>, i: nat)
    requires i < |shapes|
    ensures !Neighbour(shapes, i, i)
  {
  }

  lemma {:induction false} NetIsChange(shapes: seq<NodeShape>, i: nat, dir: int, n: nat)
    requires i < |shapes| && n <= |shapes| && (dir == 1 || dir == -1) && Valid(shapes, i, dir)
    ensures NetUpTo(shapes, i, dir, n) ==
            Lacks(shapes, i, ShiftedNode(shapes[i], dir), n) - Lacks(shapes, i, shapes[i], n)
    decreases n
  {
    hide ShiftedNode, TrialGap, CurGap, Counts, Gap;
    if n == 0 {
    } else {
      NetIsChange(shapes, i, dir, n - 1);
      NotOwnNeighbour(shapes, i);
      if n - 1 != i {
        TrialIsShift(shapes, i, dir, n - 1);
      }
    }
  }

  lemma HelpsIsScore(shapes: seq<NodeShape>, i: nat, dir: int)
    requires i < |shapes| && (dir == 1 || dir == -1)
    ensures Helps(shapes, i, dir) <==> Valid(shapes, i, dir) && Net(shapes, i, dir) < 0.0
  {
    ValidIsClear(shapes, i, dir);
    if Valid(shapes, i, dir) {
      NetIsChange(shapes, i, dir, |shapes|);
    }
  }

  /** Main result: a direction is chosen exactly if one helps. The chosen one helps, it helps at least as much as
      the other one if that helps too, and if both help alike it is down. */
  lemma ChosenExactly(shapes: seq<NodeShape>, i: nat)
    requires i < |shapes|
    ensures var dir := BestDir(shapes, i);
            && (dir == 0 || dir == 1 || dir == -1)
            && (dir == 0 <==> !Helps(shapes, i, 1) && !Helps(shapes, i, -1))
            && (dir != 0 ==> Helps(shapes, i, dir))
            && (Helps(shapes, i, 1) && Helps(shapes, i, -1) ==>
                  var down := Lacks(shapes, i, ShiftedNode(shapes[i], 1), |shapes|);
                  var up := Lacks(shapes, i, ShiftedNode(shapes[i], -1), |shapes|);
                  dir == if down <= up then 1 else -1)
  {
    hide Helps, ShiftedNode, Valid, Net, Lacks;
    HelpsIsScore(shapes, i, 1);
    HelpsIsScore(shapes, i, -1);
    if Helps(shapes, i, 1) {
      NetOfHelp(shapes, i, 1);
    }
    if Helps(shapes, i, -1) {
      NetOfHelp(shapes, i, -1);
    }
  }

  lemma NetOfHelp(shapes: seq<NodeShape>, i: nat, dir: int)
    requires i < |shapes| && (dir == 1 || dir == -1) && Valid(shapes, i, dir)
    ensures Net(shapes, i, dir) ==
            Lacks(shapes, i, ShiftedNode(shapes[i], dir), |shapes|) - Lacks(shapes, i, shapes[i], |shapes|)
  {
    NetIsChange(shapes, i, dir, |shapes|);
  }

  lemma {:induction false} NeedAttained(shapes: seq<NodeShape>, i: nat, dir: int, n: nat) returns (j: nat)
    requires i < |shapes| && n <= |shapes| && NeedUpTo(shapes, i, dir, n) > 0.0
    ensures j < n && j != i && Counts(shapes[i], shapes[j]) && Away(shapes[i], shapes[j], dir)
    ensures MIN_GAP - CurGap(shapes[i], shapes[j]) == NeedUpTo(shapes, i, dir, n)
    decreases n
  {
    if NeedUpTo(shapes, i, dir, n) == NeedUpTo(shapes, i, dir, n - 1) {
      j := NeedAttained(shapes, i, dir, n - 1);
    } else {
      j := n - 1;
    }
  }

  /** A push is no longer than it has to be: some neighbour it leads away from ends exactly 66 px away. */
  lemma PushIsTight(shapes: seq<NodeShape>, i: nat) returns (j: nat)
    requires i < |shapes| && BestDir(shapes, i) != 0
    ensures j < |shapes| && Neighbour(shapes, i, j) && Gap(shapes[i], shapes[j]) < 66.0
    ensures Gap(Push(shapes, i)[i], shapes[j]) == 66.0
  {
    var dir := BestDir(shapes, i);
    BestDirIsValid(shapes, i);
    ChosenDirectionPushes(shapes, i);
    j := NeedAttained(shapes, i, dir, |shapes|);
    hide BestDir, Need, NeedUpTo;
    PushedBy(shapes, i);
    hide Push;
  }

  // ---------------------------------------------------------------------------
  // The potential: total clearance deficit
  // ---------------------------------------------------------------------------

  function PairDeficit(a: NodeShape, b: NodeShape): real {
    if SameColumn(a, b) then Deficit(Gap(a, b)) else 0.0
  }

  /** Deficits of node `i` towards the first `n` nodes. */
  function RowSum(shapes: seq<NodeShape>, i: nat, n: nat): real
    requires i < |shapes| && n <= |shapes|
  {
    if n == 0 then 0.0
    else RowSum(shapes, i, n - 1) + (if n - 1 == i then 0.0 else PairDeficit(shapes[i], shapes[n - 1]))
  }

  /** Deficits of all pairs among the first `n` nodes. */
  function PairSum(shapes: seq<NodeShape>, n: nat): real
    requires n <= |shapes|
  {
    if n == 0 then 0.0 else PairSum(shapes, n - 1) + RowSum(shapes, n - 1, n - 1)
  }

  function TotalDeficit(shapes: seq<NodeShape>): real {
    PairSum(shapes, |shapes|)
  }

  ghost predicate NoOverlap(shapes: seq<NodeShape>) {
    forall a, b :: 0 <= a < |shapes| && 0 <= b < |shapes| && a != b ==> !Overlaps(shapes[a], shapes[b])
  }

  /** Moving one node changes the total by what changes in its own pairs. */
  lemma {:induction false} OneMoveChangesItsRow(before: seq<NodeShape>, after: seq<NodeShape>, i: nat, n: nat)
    requires |before| == |after| && i < |before| && n <= |before|
    requires forall j :: 0 <= j < |before| && j != i ==> after[j] == before[j]
    ensures PairSum(after, n) - PairSum(before, n) ==
            if n <= i then 0.0 else RowSum(after, i, n) - RowSum(before, i, n)
    decreases n
  {
    if n == 0 {
    } else {
      OneMoveChangesItsRow(before, after, i, n - 1);
      if n - 1 < i {
        RowUnchanged(before, after, i, n - 1, n - 1);
      } else if n - 1 > i {
        RowChangesOnce(before, after, i, n - 1, n - 1);
        assert PairDeficit(after[n - 1], after[i]) == PairDeficit(after[i], after[n - 1]);
        assert PairDeficit(before[n - 1], before[i]) == PairDeficit(before[i], before[n - 1]);
      }
    }
  }

  lemma {:induction false} RowUnchanged(before: seq<NodeShape>, after: seq<NodeShape>, i: nat, k: nat, n: nat)
    requires |before| == |after| && i < |before| && n <= i && k < |before| && k != i
    requires forall j :: 0 <= j < |before| && j != i ==> after[j] == before[j]
    ensures RowSum(after, k, n) == RowSum(before, k, n)
    decreases n
  {
    if n == 0 {
    } else {
      RowUnchanged(before, after, i, k, n - 1);
    }
  }

  lemma {:induction false} RowChangesOnce(before: seq<NodeShape>, after: seq<NodeShape>, i: nat, k: nat, n: nat)
    requires |before| == |after| && i < n <= |before| && k < |before| && k != i
    requires forall j :: 0 <= j < |before| && j != i ==> after[j] == before[j]
    ensures RowSum(after, k, n) - RowSum(before, k, n) == PairDeficit(after[k], after[i]) - PairDeficit(before[k], before[i])
    decreases n
  {
    if n - 1 == i {
      RowUnchanged(before, after, i, k, n - 1);
    } else {
      RowChangesOnce(before, after, i, k, n - 1);
    }
  }

  /** The applied push does at least as well, pair by pair, as the trial shift promised. */
  lemma {:induction false} PushBeatsScore(shapes: seq<NodeShape>, i: nat, n: nat)
    requires i < |shapes| && n <= |shapes| && Moves(shapes, i) && NoOverlap(shapes)
    ensures RowSum(Push(shapes, i), i, n) - RowSum(shapes, i, n) <= NetUpTo(shapes, i, BestDir(shapes, i), n)
    decreases n
  {
    if n == 0 {
    } else {
      PushBeatsScore(shapes, i, n - 1);
      if n - 1 != i {
        var s, o := shapes[i], shapes[n - 1];
        CountsMeansApart(s, o);
        if Counts(s, o) {
          PushClears(shapes, i, n - 1);
        }
        PushFrame(shapes, i);
      }
    }
  }

  /** Main result: in a layout without vertical overlap every push strictly lowers the total deficit, although
      it was scored with a different amount than it is applied with. */
  lemma PushLowersDeficit(shapes: seq<NodeShape>, i: nat)
    requires i < |shapes| && NoOverlap(shapes) && BestDir(shapes, i) != 0
    ensures TotalDeficit(Push(shapes, i)) < TotalDeficit(shapes)
    ensures NoOverlap(Push(shapes, i))
  {
    ChosenDirectionPushes(shapes, i);
    PushFrame(shapes, i);
    OneMoveChangesItsRow(shapes, Push(shapes, i), i, |shapes|);
    PushBeatsScore(shapes, i, |shapes|);
    BestDirIsValid(shapes, i);
    PushOverlapsNothing(shapes, i);
  }

  // ---------------------------------------------------------------------------
  // All rounds
  // ---------------------------------------------------------------------------

  /** What every stage of the pass keeps. */
  ghost predicate Keeps(before: seq<NodeShape>, after: seq<NodeShape>, used: set<string>) {
    && NoNewOverlap(before, after)
    && forall j :: 0 <= j < |before| ==>
         SameButY(after[j], before[j]) && (before[j].name in used ==> after[j] == before[j])
  }

  lemma KeepsTransitive(a: seq<NodeShape>, b: seq<NodeShape>, c: seq<NodeShape>, used: set<string>)
    requires Keeps(a, b, used) && Keeps(b, c, used)
    ensures Keeps(a, c, used)
  {
  }

  /** A stage keeps what every stage keeps; without overlap it adds none, and it lowers the total deficit
      strictly exactly when it has moved something. */
  ghost predicate Progress(before: seq<NodeShape>, after: seq<NodeShape>, used: set<string>, moved: bool) {
    && Keeps(before, after, used)
    && (!moved ==> after == before)
    && (NoOverlap(before) ==> NoOverlap(after) && (moved ==> TotalDeficit(after) < TotalDeficit(before)))
  }

  lemma NoProgress(shapes: seq<NodeShape>, used: set<string>)
    ensures Progress(shapes, shapes, used, false)
  {
  }

  lemma ProgressTransitive(a: seq<NodeShape>, b: seq<NodeShape>, c: seq<NodeShape>, used: set<string>, m: bool, n: bool)
    requires Progress(a, b, used, m) && Progress(b, c, used, n)
    ensures Progress(a, c, used, m || n)
  {
    KeepsTransitive(a, b, c, used);
    hide Keeps, NoOverlap, TotalDeficit;
  }

  lemma PushProgress(shapes: seq<NodeShape>, used: set<string>, i: nat)
    requires i < |shapes| && shapes[i].name !in used
    ensures Progress(shapes, Push(shapes, i), used, Moves(shapes, i))
  {
    PushFrame(shapes, i);
    PushOverlapsNothing(shapes, i);
    assert Keeps(shapes, Push(shapes, i), used) by {
      hide Push, NoNewOverlap;
    }
    assert !Moves(shapes, i) ==> Push(shapes, i) == shapes;
    if NoOverlap(shapes) && Moves(shapes, i) {
      PushLowersDeficit(shapes, i);
    }
    hide Push, Keeps, NoOverlap, TotalDeficit, Moves;
  }

  lemma {:induction false} RoundProgress(shapes: seq<NodeShape>, used: set<string>, n: nat)
    requires n <= |shapes|
    ensures Progress(shapes, Round(shapes, used, n), used, RoundMoves(shapes, used, n))
    decreases n
  {
    hide Progress, Push, Moves;
    if n == 0 {
      NoProgress(shapes, used);
    } else {
      RoundProgress(shapes, used, n - 1);
      var before := Round(shapes, used, n - 1);
      if before[n - 1].name !in used {
        PushProgress(before, used, n - 1);
        ProgressTransitive(shapes, before, Push(before, n - 1), used, RoundMoves(shapes, used, n - 1), Moves(before, n - 1));
      }
    }
  }

  lemma {:induction false} EnforceProgress(shapes: seq<NodeShape>, used: set<string>, rounds: nat)
    ensures Progress(shapes, Enforce(shapes, used, rounds), used, BusyRounds(shapes, used, rounds) > 0)
    decreases rounds
  {
    hide Progress, Round, RoundMoves;
    if rounds == 0 {
      NoProgress(shapes, used);
    } else {
      RoundProgress(shapes, used, |shapes|);
      var r := Round(shapes, used, |shapes|);
      if RoundMoves(shapes, used, |shapes|) {
        EnforceProgress(r, used, rounds - 1);
        ProgressTransitive(shapes, r, Enforce(r, used, rounds - 1), used, true, BusyRounds(r, used, rounds - 1) > 0);
      }
    }
  }

  /** Main result: through all rounds extracted nodes and all x coordinates stay, no overlap arises, and from
      an overlap-free layout the total deficit falls strictly exactly when anything moved. */
  lemma EnforceKeeps(shapes: seq<NodeShape>, used: set<string>, rounds: nat)
    ensures Keeps(shapes, Enforce(shapes, used, rounds), used)
    ensures NoOverlap(shapes) ==> NoOverlap(Enforce(shapes, used, rounds))
    ensures NoOverlap(shapes) ==>
              if BusyRounds(shapes, used, rounds) > 0
              then TotalDeficit(Enforce(shapes, used, rounds)) < TotalDeficit(shapes)
              else Enforce(shapes, used, rounds) == shapes
  {
    hide Keeps, NoOverlap, TotalDeficit, Enforce, BusyRounds;
    EnforceProgress(shapes, used, rounds);
  }

  /** No automatically placed node has a direction left that would help. */
  ghost predicate AtRest(shapes: seq<NodeShape>, used: set<string>) {
    forall i :: 0 <= i < |shapes| && shapes[i].name !in used ==> !Helps(shapes, i, 1) && !Helps(shapes, i, -1)
  }

  lemma {:induction false} QuietRoundIsAtRest(shapes: seq<NodeShape>, used: set<string>, n: nat)
    requires n <= |shapes| && !RoundMoves(shapes, used, n)
    ensures Round(shapes, used, n) == shapes
    ensures forall i :: 0 <= i < n && shapes[i].name !in used ==> BestDir(shapes, i) == 0
    decreases n
  {
    hide BestDir, Need;
    if n == 0 {
    } else {
      QuietRoundIsAtRest(shapes, used, n - 1);
      if shapes[n - 1].name !in used && BestDir(shapes, n - 1) != 0 {
        ChosenDirectionPushes(shapes, n - 1);
      }
    }
  }

  lemma NothingHelps(shapes: seq<NodeShape>, used: set<string>)
    requires forall i :: 0 <= i < |shapes| && shapes[i].name !in used ==> BestDir(shapes, i) == 0
    ensures AtRest(shapes, used)
  {
    hide BestDir, Helps;
    forall i | 0 <= i < |shapes| && shapes[i].name !in used ensures !Helps(shapes, i, 1) && !Helps(shapes, i, -1) {
      ChosenExactly(shapes, i);
    }
  }

  /** How many rounds moved something before the pass came to rest or ran out. */
  function BusyRounds(shapes: seq<NodeShape>, used: set<string>, rounds: nat): nat
    decreases rounds
  {
    if rounds == 0 || !RoundMoves(shapes, used, |shapes|) then 0
    else 1 + BusyRounds(Round(shapes, used, |shapes|), used, rounds - 1)
  }

  /** The pass ends at rest unless every one of its rounds moved a node. */
  lemma {:induction false} EndsAtRest(shapes: seq<NodeShape>, used: set<string>, rounds: nat)
    ensures BusyRounds(shapes, used, rounds) < rounds ==> AtRest(Enforce(shapes, used, rounds), used)
    decreases rounds
  {
    hide Round, BestDir, Helps;
    if rounds == 0 {
    } else {
      if RoundMoves(shapes, used, |shapes|) {
        EndsAtRest(Round(shapes, used, |shapes|), used, rounds - 1);
      } else {
        QuietRoundIsAtRest(shapes, used, |shapes|);
        NothingHelps(shapes, used);
      }
    }
  }
}
