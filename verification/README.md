# Verified models of the lab platform's stateful core

This project models, in Dafny 4.11, five independent parts of the repository and proves what
they are for. Check it with `dafny verify dfyconfig.toml`.

1. **The topology layout engine** (`tools/topogen/render.go`): nodes are put on a grid
   (`AutoLayout`), pushed apart vertically (`MinGap`), checked and joined by links
   (`LayoutCheck`), cleared of header and legend (`LayoutLab`). `Fallback` and `Listing` say for which templates the
   unchecked second build passes the check, from what the pushes do to a roomy grid (`Settle`), to a tight
   column (`Chain`) and to one of four nodes (`FourChain`). Port chips get angles
   (`Schedule`), relax (`Relax`) and are repaired (`ChipRepair`, `ChipSafety`, `ChipOutcomes`). The drawing gate of
   `tools/topogen/qa_geometry.py` is an independent specification (`LayoutCheck`, `ChipGate`). float64 is `real`;
   `math.Hypot` and `math.Atan2` are function parameters: of the first only the square is known, of the second
   the range, the symmetry and a bound near pi.
2. **The live-session lifecycle** (`internal/labsession`): a table of session rows, a reaper
   with attempt counters, and a GNS3 server that may fail any call, with or without the call
   having taken effect. `Sessions` and `Teardown` hold the operations as classes with their
   specifications, `SessionSafety` the transition system with safety over all runs, `SessionOutcomes`
   what each action on a session comes to, `SessionLiveness` the escalation bound.
3. **`Console`**, the keyed try-lock with generation tokens.
4. **`RateLimit`**, the token bucket per IP with garbage collection.
5. **The verifier engine** (`internal/verify`): evidence cache (`Evidence`), assertions and runs
   (`Dsl`), and the parser of `show vlan brief` (`Text`, `VlanParse`).

Where the source updates state in place, the model has a class or an array and a method whose
`ensures` equates the new state with a specification function of the old one; the theorems are
lemmas about these functions. `Sorting`, `Sizes`, `Reals`, `Shapes`, `Chips` and `Wrappers` are shared
helpers.

## What turned out different from the source's comments

The model follows the code.

- `scheduleChips` says its final shift makes the band fit the circle (render.go:767-775). The shift
  moves all chips alike, so it separates none: `Schedule.ChipsApartExactly` and `Schedule.CircleExactly` give the exact
  condition for separation modulo 360, `Schedule.CircleByPreferred` the same on the preferred angles, and
  `Schedule.TwoLinksToTheLeft` pairs of nodes whose two chips miss it. When the shifted band lies in
  [-180, 180) is `Schedule.ShiftedBandFitsExactly`.
- `autoLayout` says the last row stays above the legend (render.go:174-187). That holds exactly up
  to five rows in use: `AutoLayout.FitsExactly`.
- `layoutLab` falls back to a pure grid when the check fails (render.go:351-357), but does not check that one.
  Its compression above the legend brings rows together (`LayoutLab.CompressionExactly`), and its pushes make the
  layout taller. Up to three rows the fallback always passes, and up to four if no group ends in a row of two
  (`Fallback.RoomyPasses`). With six nodes in the middle column, or five and no such row, it always fails
  (`Fallback.CrowdedFails`); eleven nodes are enough (`Fallback.ElevenNodesFail`). For templates without a row of two
  `Listing.NoPairExactly` gives the exact condition.
- `autoLayout` promises a layout that reads well up to ten nodes, by sorted iteration (render.go:122-125). Its grid does
  not depend on the listing (`AutoLayout.OrderDoesNotMatter`), but the pushes after it do: ten switches pass listed
  from A to J and fail with B and J listed first (`Listing.OrderMatters`).
- `unshoveChips` says its test and the gate's are in lockstep (render.go:997-1003). Its trigger rounds the chip
  and not the node, its acceptance rounds nothing, and the picture rounds the corners of both.
  What the gate sees: a moved chip is never hidden by a box (`ChipGate.ClearPassesGate`), and by a circle only within
  a pixel and a half of the limit, which every host with room around it allows (`ChipGate.HostCanHide`).
  What triggers again: for boxes `ChipGate.BoxTriggersExactly` names the centres that allow it, every host with
  room around it does (`ChipGate.HostTriggersAgain`), and three quarters of a pixel rule it out (`ChipGate.MarginKeepsUntriggered`).
- `flipChips` says it slides first, up to 200 px, and then rotates (render.go:1058-1076). The code
  scores turns, anchor and slides up to 120 px together.
- `relaxChips` speaks of a fixed push step (render.go:804-809). The code pushes by the overlap plus two
  (`Relax.PushLengthens`), which separates the pair exactly under `Relax.PushSeparatesExactly`.
- `ForceRelease` says the callback is called before the lock is released (console_lock.go:140-144).
  The code releases first and calls afterwards.
- `New` calls its argument the most requests allowed per minute (ratelimit.go:21). For every limit an IP can get twice that
  within a minute (`RateLimit.TwiceInAMinute`) and never more (`RateLimit.WindowBound`).
- An unlocker is a no-op when stale only as long as tokens do not repeat:
  `Console.LockRefinesPlain` holds for 2^64 acquisitions and `Console.StaleUnlockAfterWrap` shows
  that one more breaks it.
- `parseVlanBrief` does not take a port-less row for a row (parse.go:121): its VLAN does not become
  current. `VlanParse.PortlessExactly` says exactly what such a row does.
- The capacity bound needs that nobody ends a lab while it is being provisioned (service.go:86-151):
  `SessionSafety.CountRisesExactly` names the two steps that can raise the count, and
  `SessionSafety.EndingTooEarlyBreaksCap` is a run that exceeds the cap without the proviso.

## Model

| member | source | states |
|---|---|---|
| `AutoLayout.Place` | tools/topogen/render.go:325-342 | the k-th listed node moves to the k-th cell of a block of centred rows of three; no other node changes (closure `place` and `placeLeaf` are this one method) |
| `AutoLayout.GroupByName` | tools/topogen/render.go:132-144 | lists exactly the nodes of one group that have no extracted position, each once, by name |
| `AutoLayout.LayOut` | tools/topogen/render.go:131-199 | in place: both groups on the grid with the compressed row height, all extracted nodes untouched |
| `AutoLayout.RowHeights` | tools/topogen/render.go:174-197 | from the first row to the last it is 120 px a row, but at most 225 px in all, but at least 60 px a row; up to five rows end above the legend |
| `AutoLayout.SpotsApart` | tools/topogen/render.go:146-197 | any two cells of the grid, of either group, are 190 apart in x or 60 in y |
| `AutoLayout.PlacedApart` | tools/topogen/render.go:131-199 | for any number of nodes no two placed nodes are too close for the layout check |
| `AutoLayout.AutoLayoutIsValid` | tools/topogen/render.go:475-503 | a layout without extracted positions is accepted by the layout check |
| `AutoLayout.PlacedInsideWidth` | tools/topogen/render.go:147-163 | every placed node is inside the canvas from side to side |
| `AutoLayout.HostsBelow` | tools/topogen/render.go:131-199 | every placed host and attacker is at least 60 px below every placed switch, router and hub |
| `AutoLayout.InNameOrder` | tools/topogen/render.go:131-199 | within a group the nodes read in the order of their names, from left to right and then down |
| `AutoLayout.RowBalanced` | tools/topogen/render.go:150-162 | the rows of a group hold three nodes 190 px apart and the last one what is left, each balanced around x=385, 25 px right of the middle of the canvas |
| `AutoLayout.FitsExactly` | tools/topogen/render.go:174-197 | all placed nodes end above y=395 if and only if the last row in use is at most the fifth |
| `AutoLayout.PlacedByName` | tools/topogen/render.go:143-144 | with unique names a node's position is a function of its name and the two sets of names to place |
| `AutoLayout.OrderDoesNotMatter` | tools/topogen/render.go:125-131 | listing the same nodes in another order gives every name the same position |
| `Sorting.SortIndices` | tools/topogen/render.go:143-144 | a slice of distinct indices comes out with the same members, in order of their keys |
| `MinGap.ScoreDirection` | tools/topogen/render.go:229-282 | the score and validity of a trial shift over all same-column neighbours |
| `MinGap.ChooseDirection` | tools/topogen/render.go:227-290 | the valid direction with the most negative score; one is chosen if and only if some direction helps, and the chosen one does |
| `MinGap.ChosenExactly` | tools/topogen/render.go:224-290 | a direction is chosen if and only if a shift by 66 px overlaps no neighbour and leaves less clearance missing in sum; of two such directions the one that leaves less, down on a tie |
| `MinGap.NeededPush` | tools/topogen/render.go:291-311 | the largest clearance missing towards a neighbour left behind |
| `MinGap.EnforceAutoMinGap` | tools/topogen/render.go:215-321 | in place: at most eight rounds, stopping after one that moves nothing |
| `MinGap.ChosenDirectionPushes` | tools/topogen/render.go:283-316 | a chosen direction always yields a push, positive and at most the trial shift |
| `MinGap.PushClears` | tools/topogen/render.go:291-316 | after a push: 66 px to every neighbour pushed away from, at least 0 to every one pushed towards |
| `MinGap.PushIsTight` | tools/topogen/render.go:291-316 | a push is no longer than needed: some neighbour that was nearer than 66 px ends exactly 66 px away |
| `MinGap.PushOverlapsNothing` | tools/topogen/render.go:203-214 | a push makes no pair overlap that did not overlap before |
| `MinGap.PushBeatsScore` | tools/topogen/render.go:271-290 | the applied push lowers the node's deficits by at least what the differently sized trial promised |
| `MinGap.PushLowersDeficit` | tools/topogen/render.go:215-321 | without overlap every push strictly lowers the total clearance deficit of all same-column pairs |
| `MinGap.EnforceKeeps` | tools/topogen/render.go:203-321 | over all rounds extracted nodes and all x stay, no overlap arises, and from an overlap-free layout the total deficit falls strictly whenever a round moved something |
| `MinGap.EndsAtRest` | tools/topogen/render.go:317-320 | unless every round moved a node, the pass ends with no shift by 66 px left that would help any automatically placed node |
| `LayoutLab.ClearTop` | tools/topogen/render.go:406-428 | in place: all nodes move down alike until the highest edge is at 55 |
| `LayoutLab.ClearLegend` | tools/topogen/render.go:429-455 | in place: all nodes are compressed towards y=55 when the lowest edge is below 395 |
| `LayoutLab.ShiftExactly` | tools/topogen/render.go:406-428 | nodes clear of the header stay; otherwise all move alike, and the highest edge is at 55 exactly |
| `LayoutLab.CompressExactly` | tools/topogen/render.go:429-455 | nodes clear of the legend stay; otherwise all distances from y=55 shrink by one factor, which brings the lowest edge to y=365 |
| `LayoutLab.Build` | tools/topogen/render.go:358-460 | overlay of extracted positions, grid, pushes and both clearances, with the final map by name |
| `LayoutLab.ExtractedStay` | tools/topogen/render.go:373-455 | a build keeps every extracted node where it was drawn, boxes by their middle, but for one shift down and one compression towards y=55 common to all nodes |
| `LayoutLab.Assemble` | tools/topogen/render.go:358-468 | the build with extracted positions exactly if it passes the check, else the one without |
| `LayoutLab.CheckedByName` | tools/topogen/render.go:475-503 | with unique names the check of the map is the check of all pairs |
| `LayoutLab.MinGapKeepsApart` | tools/topogen/render.go:394-404 | pushing nodes apart never makes two of them too close |
| `LayoutLab.ShiftKeepsApart` | tools/topogen/render.go:406-428 | neither does clearing the header |
| `LayoutLab.CompressionExactly` | tools/topogen/render.go:429-455 | compressed by k a layout passes the check if and only if all pairs that share a column are 60/k apart in y |
| `LayoutLab.ColumnHoldsFive` | tools/topogen/render.go:405-455 | a cleared layout that passes the check has at most five nodes in a column, six only if compressed to a sixth or less |
| `Settle.EnforceSettled` | tools/topogen/render.go:215-321 | on a grid of at most four rows with room between them every node stays near its row through all rounds: nodes between two neighbouring rows never move, the others only outwards |
| `Chain.ColumnStaysTight` | tools/topogen/render.go:215-321 | a column of five or more nodes that stand edge to edge grows by at least 66 px, and inside it two nodes still touch, whatever the order of the list |
| `FourChain.FourExactly` | tools/topogen/render.go:215-321 | of a column of four the ends open, and the middle opens if and only if from one end the first node is listed before the second and that before the other end |
| `Fallback.RoomyPasses` | tools/topogen/render.go:461-468 | a template of at most three rows, or of four without a row of two, passes the check in the fallback |
| `Fallback.CrowdedFails` | tools/topogen/render.go:461-468 | six nodes in the middle column, or five and no row of two: the fallback fails the check for every listing |
| `Fallback.PassesExactly` | tools/topogen/render.go:461-468 | with nodes in both groups and no row of two: passes if and only if there are at most four rows |
| `Fallback.ElevenNodesFail` | tools/topogen/render.go:461-468 | ten switches and a host without extracted positions: neither build passes |
| `Listing.ListingExactly` | tools/topogen/render.go:461-468 | ten or twelve nodes of one group: passes if and only if every column of four is listed in a loosening order |
| `Listing.NoPairExactly` | tools/topogen/render.go:461-468 | every template without a row of two: the exact condition on counts and listing |
| `Listing.OrderMatters` | tools/topogen/render.go:394-468 | the same ten switches pass in one listing and fail in another |
| `LayoutCheck.LayoutValid` | tools/topogen/render.go:475-503 | accepts if and only if no two nodes are too close |
| `LayoutCheck.OverlapIsTooClose` | tools/topogen/qa_geometry.py:166-185 | the gate's exact footprint intersection implies the check's test, and equals it for two boxes |
| `LayoutCheck.EdgePointOnLine` | tools/topogen/render.go:688-715 | the exit lies on the line of the centres, at a positive fraction |
| `LayoutCheck.EdgePointOnBoundary` | tools/topogen/render.go:688-715 | a link leaves its node exactly on the node's boundary, circle or box |
| `LayoutCheck.LinkNotReversed` | tools/topogen/render.go:688-715 | between nodes that are not too close the drawn segment is the centre line times a factor in [0, 1): never reversed |
| `Schedule.SortByAngle` | tools/topogen/render.go:737-741 | every chip once, in order of preferred angle |
| `Schedule.SweepInOrder` | tools/topogen/render.go:753-764 | the running-`prev` loop computes the sweep at each chip's own index |
| `Schedule.ShiftBand` | tools/topogen/render.go:769-774 | all angles move by the same shift |
| `Schedule.PreferredAngles` | tools/topogen/render.go:731-735 | every chip's preferred angle is the direction of its link, in degrees, for any arctangent |
| `Schedule.PreferredLeadsToOther` | tools/topogen/render.go:731-735 | for any polar coordinates the preferred direction leads from the owner to the other end of the link |
| `Schedule.PreferredWithinTurn` | tools/topogen/render.go:731-741 | in their order the preferred angles of any node lie within less than a turn |
| `Schedule.MinSepIsOneChip` | tools/topogen/render.go:743-752 | the separation takes exactly one chip width of arc at 24 px outside of the node, for hosts and boxes |
| `Schedule.ScheduleChips` | tools/topogen/render.go:730-777 | the final angles are the sweep over the preferred angles minus the common shift; any two chips of a node, host or box, have at least 42 px of arc between them on the line |
| `Schedule.SweptIsMaximum` | tools/topogen/render.go:753-764 | closed form: the k-th angle is the maximum over j <= k of a_j + (k - j) * minSep, attained |
| `Schedule.SweptIsLeast` | tools/topogen/render.go:726-764 | the sweep is admissible and is the pointwise least admissible assignment |
| `Schedule.SweptKeepsSpread` | tools/topogen/render.go:726-764 | preferred angles already far enough apart are kept |
| `Schedule.FinalGaps` | tools/topogen/render.go:765-775 | the shift keeps every gap on the line, and all are at least minSep |
| `Schedule.ShiftedExactly` | tools/topogen/render.go:765-775 | angles already apart on the circle are not shifted; a band that is too long is turned, back or on by its span |
| `Schedule.ShiftedBandFitsExactly` | tools/topogen/render.go:765-775 | a shifted band lies in [-180, 180) if and only if its ends satisfy first + last >= minSep and 3 * last - first < 720 + minSep |
| `Schedule.CircleExactly` | tools/topogen/render.go:765-775 | all pairs are at least minSep apart modulo 360 if and only if the span is at most 360 - minSep |
| `Schedule.ChipsApartExactly` | tools/topogen/render.go:730-777 | the same for the chips of any node, wherever its neighbours are |
| `Schedule.CircleByPreferred` | tools/topogen/render.go:765-775 | the same condition on the preferred angles alone: every a_j + (n-1-j) * minSep is at most a_0 + 360 - minSep |
| `Schedule.TooManyChips` | tools/topogen/render.go:765-775 | more chips than fit on the circle are never separated, whatever their links' directions |
| `Schedule.TwoLinksToTheLeft` | tools/topogen/render.go:765-775 | two nodes to the left of a switch, as much above as below it and at most a fifth of the way left: their chips are not separated modulo 360, and their band is not in [-180, 180) |
| `Relax.PushApart` | tools/topogen/render.go:822-845 | in place: an overlapping pair is moved by opposite half pushes, any other pair is left alone |
| `Relax.RelaxChips` | tools/topogen/render.go:816-859 | in place: rounds of pair pushes and pulls, stopping after a round without overlap |
| `Relax.PushSpreads` | tools/topogen/render.go:830-845 | a push keeps the pair's midpoint and shrinks neither coordinate distance |
| `Relax.PushLengthens` | tools/topogen/render.go:830-845 | a push makes the distance of the two centres larger by exactly the larger overlap of the labels plus two |
| `Relax.PushSeparatesExactly` | tools/topogen/render.go:830-845 | a pair still overlaps after its push if and only if its centres differ and, with L their distance and P the push, dx * (L+P) < 42 * L and dy * (L+P) < 18 * L |
| `Relax.OnePushMayNotSeparate` | tools/topogen/render.go:830-845 | such a pair: 12 and 5 px apart |
| `Relax.PullShrinksDrift` | tools/topogen/render.go:852-857 | a pull takes exactly a fifth of the total displacement from the anchors |
| `Relax.DriftShrinks` | tools/topogen/render.go:816-859 | from any start the total displacement is multiplied by 0.8 per busy round, and by nothing else |
| `Relax.CentroidConserved` | tools/topogen/render.go:650-653 | from the scheduler's placement the sum of positions equals the sum of anchors, for any number of chips and rounds |
| `Relax.EarlyExitIsClear` | tools/topogen/render.go:848-850 | stopping early means that no two chips overlap; chips without overlap are not moved |
| `ChipRepair.HitsBox` | tools/topogen/render.go:1028-1055 | whether the chip pokes into some node by more than that node's limit, over any iteration order of the map |
| `ChipRepair.HitsChip` | tools/topogen/render.go:1180-1190 | whether the place is covered by another chip |
| `ChipRepair.Accepts` | tools/topogen/render.go:1122-1147 | box, canvas, header, legend, owner-distance and chip-chip conditions together |
| `ChipRepair.ListCandidates` | tools/topogen/render.go:1102-1120 | half turn, quarter turns, anchor and thirteen slides, in this order |
| `ChipRepair.FindBest` | tools/topogen/render.go:1121-1157 | the loop over the candidates computes the running best |
| `ChipRepair.FlipChips` | tools/topogen/render.go:1077-1161 | in place: each chip in turn, seeing where the ones before it went |
| `ChipRepair.WalkOut` | tools/topogen/render.go:949-979 | the walk along the ray in 2 px steps up to 120 px |
| `ChipRepair.UnshoveChips` | tools/topogen/render.go:932-981 | in place: each chip whose rounded position is in its own box is walked outward |
| `ChipSafety.BestIsFirstLeast` | tools/topogen/render.go:1121-1157 | the choice is the first of the least-scored acceptable candidates; none only if none is acceptable |
| `ChipSafety.FlipTargetIsBest` | tools/topogen/render.go:1077-1161 | a chip on a node goes to such a candidate, or stays because no candidate is acceptable |
| `ChipSafety.FlipStaysNearLink` | tools/topogen/render.go:1145-1157 | the place chosen is no farther from the link than any acceptable candidate, up to a tenth of the difference in owner distance |
| `ChipSafety.FlipRepairs` | tools/topogen/render.go:1057-1161 | flipping adds no chip overlap and no chip on a node, moves only chips that were on one, and each moved chip ends clear of every node and chip, in the frame and near its owner |
| `ChipSafety.WalkStopsFirst` | tools/topogen/render.go:949-979 | the walk stops at its first acceptable step, and fails only if no step within reach is acceptable |
| `ChipSafety.UnshoveRepairs` | tools/topogen/render.go:900-981 | unshoving adds no overlap and no hit, moves only chips in their own box, and each moved chip ends clear |
| `ChipSafety.UnshoveMovesOutward` | tools/topogen/render.go:915-955 | a moved chip ends at least 2 px further from its owner, at its first acceptable step |
| `ChipSafety.TurnsKeepRadius` | tools/topogen/render.go:1093-1107 | the three turns keep the chip's distance from its owner; the first is opposite the chip, the others at right angles to it and opposite each other |
| `ChipSafety.SlidesWithinReach` | tools/topogen/render.go:1108-1120 | the slides are exactly 24, 32, ..., 120 px from the owner |
| `ChipSafety.DistToLinkIsLeast` | tools/topogen/render.go:1163-1176 | the score's distance is the distance to the segment: attained on it and nowhere less |
| `ChipGate.RendererAgreesWithGate` | tools/topogen/qa_geometry.py:224-270 | chipBoxHit is the gate's G10 test on unrounded coordinates, and G5 implies the renderer's overlap test |
| `ChipGate.DrawnNodesApart` | tools/topogen/qa_geometry.py:155-187 | two nodes of any shapes that pass the check still pass it with the coordinates as printed |
| `ChipGate.ValidLayoutPassesGate` | tools/topogen/qa_geometry.py:155-187 | in the printed picture of an accepted layout the gate finds no overlapping nodes |
| `ChipGate.DrawnApart` | tools/topogen/qa_geometry.py:224-233 | chips that do not overlap do not overlap in the printed picture |
| `ChipGate.DrawnOffBox` | tools/topogen/qa_geometry.py:251-261 | with chip and box printed from their corners, a chip clear of any box stays clear of it in the picture |
| `ChipGate.DrawnOffCircle` | tools/topogen/qa_geometry.py:262-269 | a chip clear of a circle by 1.5 px more than required stays clear of it in the picture |
| `ChipGate.ClearPassesGate` | tools/topogen/qa_geometry.py:224-270 | in the picture a moved chip passes G5 against every chip and G10 against every box; a circle hides it only within 1.5 px of the limit |
| `ChipGate.HostCanHide` | tools/topogen/qa_geometry.py:262-269 | that margin is needed: beside every host with room around it there is a place both passes accept and G10 rejects |
| `ChipGate.TriggeredMeansAllowed` | tools/topogen/render.go:932-975 | if an accepted place is a trigger again, in any layout, then its owner is a node that allows this |
| `ChipGate.AllowedMeansTriggered` | tools/topogen/render.go:932-975 | and a node that allows it has such a place |
| `ChipGate.BoxTriggersExactly` | tools/topogen/render.go:997-1015 | a box allows that if and only if an edge of its zone lies in the frame and rounds inwards |
| `ChipGate.WholeIsNotLoose` | tools/topogen/render.go:997-1015 | boxes centred on whole coordinates never do |
| `ChipGate.HostTriggersAgain` | tools/topogen/render.go:997-1010 | every host with room around it does |
| `ChipGate.MarginKeepsUntriggered` | tools/topogen/render.go:997-1015 | a place clear of any node by 0.75 px more than required is no trigger |
| `ChipGate.TriggerWithoutHiding` | tools/topogen/render.go:997-1003 | an accepted place that triggers again although the picture passes the gate |
| `ChipOutcomes.AcceptableExactly` | tools/topogen/render.go:1122-1147 | a place is accepted if and only if in the gate's terms no node hides a chip there, and it is inside the canvas between header and legend, at most 120 px from the owner and on no other chip |
| `ChipOutcomes.CandidatesExactly` | tools/topogen/render.go:1089-1120 | the places tried are the three turns about the owner, the anchor, and the points of the link at 24, 32, ..., 120 px, and no others |
| `ChipOutcomes.FlipsExactly` | tools/topogen/render.go:1077-1161 | a chip is flipped if and only if the gate calls it hidden and one of the places tried is readable; it goes to such a place |
| `ChipOutcomes.UnshovesExactly` | tools/topogen/render.go:932-981 | a chip is unshoved if and only if its own node hides it at its rounded place and a step of the walk reaches a readable one; it goes to the first |
| `Sessions.Repository.CountActive` | internal/labsession/repository.go:24-34 | counting row by row gives the number of distinct rows that hold a capacity slot |
| `Sessions.Repository.FindActiveForUserLab` | internal/labsession/repository.go:36-47 | finds an active row of this user and lab if and only if there is one |
| `Sessions.Repository.Create` | internal/labsession/repository.go:55-69 | inserts a provisioning row under a fresh id, or returns none and changes nothing when the schema's constraint refuses it |
| `Sessions.Repository.SelectStale` | internal/labsession/repository.go:101-149 | lists exactly the rows in a status whose last activity is older than the threshold, each once |
| `Sessions.Service.ResumeSession` | internal/labsession/service.go:44-62 | restarts a stopped session, with every error return; a failing activity update is let pass |
| `Sessions.Service.LaunchSession` | internal/labsession/service.go:31-84 | gate, content check, resume or capacity check and create, with every database error that is returned, and the new table |
| `Sessions.Service.ProvisionSession` | internal/labsession/service.go:86-130 | every early exit and the final update, with table and server |
| `Sessions.Service.Heartbeat` | internal/labsession/service.go:136-138 | only the activity time changes |
| `Sessions.Service.EndSession` | internal/labsession/service.go:140-151 | ends the row only if the delete worked |
| `Sessions.Reaper.SuspendOne` | internal/labsession/reaper.go:139-188 | Tier 1 with attempt counter and escalation |
| `Sessions.Reaper.TearDownOne` | internal/labsession/reaper.go:191-252 | Tier 2 with verified teardown, attempt counter and escalation |
| `Sessions.Reaper.SweepOnce` | internal/labsession/reaper.go:116-136 | both queries and both tiers, the second query seeing what the first tier did |
| `SessionSafety.RunIsSafe` | internal/labsession/reaper.go:35-40 | rows, projects and server agree in every reachable state of every run |
| `SessionSafety.EndedMeansGone` | internal/labsession/reaper.go:138-252 | in every reachable state an ended session's recorded project does not exist |
| `SessionSafety.LaunchNeverCrashes` | internal/labsession/service.go:44-62 | no reachable launch dereferences a missing project id |
| `SessionSafety.RecordedLiveAtMostActive` | internal/labsession/repository.go:24-34 | the live recorded projects inject into the active rows |
| `SessionSafety.CountRisesExactly` | internal/labsession/service.go:64-130 | the active count rises if and only if a launch creates a session or a provisioning run revives one that was ended, and by one at most |
| `SessionSafety.CapacityBound` | internal/labsession/service.go:64-81 | in every reachable state: live recorded projects <= active count, and active count <= cap if no lab was ended while provisioning |
| `SessionSafety.EndingTooEarlyBreaksCap` | internal/labsession/service.go:86-151 | a concrete run over the cap when a lab is ended while provisioning |
| `SessionOutcomes.NewSessionExactly` | internal/labsession/service.go:64-84 | in every reachable state, for a user without a session: with a free slot and a working database a provisioning row under a fresh id is added and launched; with none the answer is the slot conflict, and on an error or a conflict nothing changes |
| `SessionOutcomes.OldSessionExactly` | internal/labsession/service.go:44-62 | a user with a session gets that one back; a stopped one is running and freshly active afterwards, or unchanged if its start or the database fails |
| `SessionOutcomes.RefusedExactly` | internal/labsession/service.go:31-43 | which refusal a caller gets before the table is read, and that no refusal changes anything |
| `SessionOutcomes.ProvisionExactly` | internal/labsession/service.go:86-130 | the session is running with a new live project if and only if every step works, and failed otherwise |
| `SessionOutcomes.LateProvisionExactly` | internal/labsession/service.go:86-130 | a run that ends after its session gave up the slot revives it, unless another session of the same user and lab is active |
| `SessionOutcomes.HeartbeatExactly` | internal/labsession/service.go:136-138 | a heartbeat makes its session freshly active and changes nothing else |
| `SessionOutcomes.EndExactly` | internal/labsession/service.go:140-151 | ending a lab succeeds if and only if it has no project or the delete works, and then the session is ended and its project gone |
| `SessionOutcomes.VisitedExactly` | internal/labsession/reaper.go:116-136 | a sweep visits exactly the running sessions idle for over the idle minutes and the then stopped ones idle for over the hours to live |
| `SessionLiveness.SweepIsLocal` | internal/labsession/reaper.go:116-252 | what a sweep does to one session depends on that session's status, counters and faults only |
| `SessionLiveness.SweepComesCloser` | internal/labsession/reaper.go:116-252 | a sweep over a stale session ends it or lowers the lexicographic measure of status and counters |
| `SessionLiveness.AbandonedIsEnded` | internal/labsession/reaper.go:15-23 | untouched and past both thresholds, with working forced deletes, a session is ended within five sweeps, whatever stops and verifications do |
| `SessionLiveness.UndeletableIsNeverEnded` | internal/labsession/reaper.go:35-40 | while every delete fails a session keeps its slot, for any number of sweeps and other actions |
| `Teardown.WaitUntil` | internal/labsession/teardown_verifier.go:106-122 | polls up to the first answer that settles it; success if and only if the wanted answer comes with nothing but "not yet" before it |
| `Teardown.SatisfiedExactly` | internal/labsession/teardown_verifier.go:106-122 | a poll succeeds if and only if its k-th answer is the wanted one and all before it the opposite, for some k, and it asks k + 1 times |
| `Teardown.WaitTeardownComplete` | internal/labsession/teardown_verifier.go:70-99 | verdict, trace of calls and effect on the server |
| `Teardown.ConfirmedExactly` | internal/labsession/teardown_verifier.go:70-99 | a teardown is confirmed if and only if both polls get their answer, the delete works and the settle delay elapses |
| `Teardown.ProjectLeavesExactly` | internal/labsession/teardown_verifier.go:70-99 | the project leaves the server if and only if the nodes were seen stopped and the delete took effect |
| `Teardown.SuccessNeedsEvidence` | internal/labsession/teardown_verifier.go:22-54 | success if and only if the trace is stopped-polls ending in yes, one successful delete, exists-polls ending in no, the settle wait, and no error between |
| `Teardown.DeleteOnlyAfterStopped` | internal/labsession/teardown_verifier.go:70-85 | at most one delete, directly after the nodes were seen stopped, recorded with its own outcome |
| `Teardown.ConfirmedMeansGone` | internal/labsession/teardown_verifier.go:70-99 | a confirmed teardown leaves no such project and touches no other |
| `Teardown.Gns3Client.DeleteProject` | internal/labsession/gns3client_impl.go:549-565 | idempotent; may take effect and still report failure |
| `Console.ConsoleLock.TryLock` | internal/labsession/console_lock.go:103-123 | new lock state, unlocker or current holder |
| `Console.ConsoleLock.Unlock` | internal/labsession/console_lock.go:115-121 | releases only the entry with its own token |
| `Console.ConsoleLock.SetPreempt` | internal/labsession/console_lock.go:130-138 | replaces the callback of whoever holds the key |
| `Console.ConsoleLock.ForceRelease` | internal/labsession/console_lock.go:155-176 | releases only from the expected holder, handing out the callback |
| `Console.LockRefinesPlain` | internal/labsession/console_lock.go:103-176 | over every interleaving of up to 2^64 acquisitions the lock is a plain map from key to owner |
| `Console.CallersSeePlain` | internal/labsession/console_lock.go:103-176 | every caller is told what the plain map would tell it |
| `Console.HoldsExactly` | internal/labsession/console_lock.go:103-176 | an acquisition is held if and only if neither its own unlocker has run nor a ForceRelease has named its key and holder |
| `Console.MutualExclusion` | internal/labsession/console_lock.go:94-123 | at most one live acquisition per (session, node), and one for every locked key |
| `Console.StaleUnlockAfterWrap` | internal/labsession/console_lock.go:111-121 | with one acquisition more a stale unlocker releases somebody else's lock |
| `RateLimit.Limiter.Allow` | pkg/ratelimit/ratelimit.go:39-61 | answer and new buckets of one request, with both clock readings |
| `RateLimit.Limiter.Cleanup` | pkg/ratelimit/ratelimit.go:63-72 | removes exactly the buckets last seen over ten minutes ago |
| `RateLimit.RefinesIdeal` | pkg/ratelimit/ratelimit.go:24-72 | for any mix of clients and cleanups an IP's answers are those of a private bucket that is never collected |
| `RateLimit.CleanupInvisible` | pkg/ratelimit/ratelimit.go:63-72 | dropping every cleanup changes no answer to anyone |
| `RateLimit.LevelIsLeastBudget` | pkg/ratelimit/ratelimit.go:49-61 | the bucket's level is the minimum over all past windows of what each still allows |
| `RateLimit.AdmitsExactly` | pkg/ratelimit/ratelimit.go:49-61 | a request is admitted if and only if every window ending with it then holds at most the limit per minute times its length plus one minute |
| `RateLimit.LetThroughIsAdmitted` | pkg/ratelimit/ratelimit.go:39-72 | the answers that let an IP through in a window number as many as the reference bucket admits |
| `RateLimit.WindowBound` | pkg/ratelimit/ratelimit.go:23-61 | any IP, any run, any window: the answers that let the IP through are at most the limit per minute times the length plus one minute, so at most twice the limit in a minute |
| `RateLimit.BurstExactly` | pkg/ratelimit/ratelimit.go:24-61 | of n requests at one instant to a full bucket exactly the first ones up to the limit are admitted |
| `RateLimit.TwiceInAMinute` | pkg/ratelimit/ratelimit.go:21-61 | for every limit: a run that lets one IP through twice that often within a minute |
| `RateLimit.PacedNeverRefused` | pkg/ratelimit/ratelimit.go:39-61 | a request is never refused if it comes at least a minute divided by the limit after the previous one of its IP |
| `RateLimit.TokensInRange` | pkg/ratelimit/ratelimit.go:49-61 | stored tokens stay within 0 and capacity |
| `Evidence.EvidenceStore.ReadMACTable` | internal/verify/evidence.go:110-122 | answer and cache of one read: collected on first use, then remembered |
| `Evidence.EvidenceStore.ReadInterface` | internal/verify/evidence.go:124-138 | the same, per port |
| `Evidence.EvidenceStore.ReadErrdisable` | internal/verify/evidence.go:140-152 | the same for the recovery settings |
| `Evidence.EvidenceStore.VLANFor` | internal/verify/evidence.go:154-168 | the same for the VLAN table; the caller gets its port's VLAN, if there is one |
| `Evidence.EvidenceStore.ReadReachable` | internal/verify/evidence.go:170-187 | the same, per target |
| `Evidence.EvidenceStore.ReadSTP` | internal/verify/evidence_additions.go:13-27 | the same for spanning tree |
| `Evidence.EvidenceStore.ReadPortSecurity` | internal/verify/evidence_additions.go:29-45 | the same, per interface, under a flag of its own |
| `Evidence.FlagsDiffer` | internal/verify/evidence_additions.go:29-45 | the per-interface flags never clash with each other or with the unkeyed ones |
| `Dsl.PortFor` | internal/verify/evidence.go:20-27 | the first entry's port, and whether there is one |
| `Dsl.ShareExactly` | internal/verify/dsl.go:75-92 | a group of MACs passes if and only if each was learned on the one port |
| `Dsl.Obtain` | internal/verify/evidence.go:110-187 | any kind of evidence is read through the cache: the answer, and what the store knows afterwards |
| `Dsl.Evaluate` | internal/verify/dsl.go:33-236 | one assertion of any kind, those of internal/verify/dsl_stubs.go:11-105 included, through the store: its check, and what the store knows afterwards |
| `Dsl.Verifier.Add` | internal/verify/dsl.go:33-39 | appends the assertion |
| `Dsl.Verifier.Run` | internal/verify/dsl.go:241-253 | one check per assertion in order, passed if and only if all passed |
| `Dsl.PassesExactly` | internal/verify/dsl.go:41-236 | each of the sixteen kinds, those of internal/verify/dsl_stubs.go:11-105 included: asked directly it passes if and only if the device answers and the answer has what the assertion asks for; an error or an unset target never passes |
| `Dsl.RunPassesExactly` | internal/verify/dsl.go:241-253 | on a device with fixed answers a run passes if and only if the device meets every assertion |
| `Dsl.CheckPassesExactly` | internal/verify/evidence.go:86-187 | on any device a check passes if and only if one of the answers given to its command by then meets the assertion |
| `Dsl.RunPassesOnAnyDevice` | internal/verify/dsl.go:241-253 | on any device a run passes if and only if every assertion was met by an answer given by its turn |
| `Dsl.RunIsDirect` | internal/verify/dsl.go:241-253 | on a device with fixed answers a run equals evaluating each assertion directly |
| `Dsl.CollectedAtMostOnce` | internal/verify/evidence.go:86-95 | on any device: no key is asked again once it was answered, every answer is kept and none invented |
| `Dsl.OneValuePerKey` | internal/verify/evidence.go:86-109 | on any device all assertions of a run see one value per key, the one in the final snapshot |
| `VlanParse.MatchesExactly` | internal/verify/parse.go:121-121 | the row scanner matches a line if and only if the row expression can read it |
| `VlanParse.AssignAllPorts` | internal/verify/parse.go:149-157 | every non-empty trimmed piece is given the VLAN |
| `VlanParse.ParseVlanBrief` | internal/verify/parse.go:123-147 | the line loop with its current VLAN computes the fold over the lines |
| `VlanParse.ParsePrint` | internal/verify/parse.go:123-157 | round trip: for any table, wrapping, column gaps, indents, line ends with or without a comma, and lines around it, parsing the printed text gives what the table means |
| `VlanParse.ParsedIsTheTable` | internal/verify/parse.go:123-157 | of a table with each port in one VLAN the parser returns exactly the port-to-VLAN map |
| `VlanParse.WrappingIsInvisible` | internal/verify/parse.go:141-145 | two printings of the same ports parse alike, however wrapped and laid out |
| `VlanParse.AlignedFormIsPrinted` | internal/verify/parse_test.go:174-175 | the column-aligned form with a comma before the wrap is among the printed ones |
| `VlanParse.ContinuationExactly` | internal/verify/parse.go:141-145 | a wrapped line goes to the current VLAN if there is one and a port of it holds "Et", and is dropped otherwise |
| `VlanParse.PortlessExactly` | internal/verify/parse.go:126-145 | what a row without ports does: nothing, unless "Et" occurs in its name or status while a VLAN is current |
| `VlanParse.ContinuationUnderPortlessBleeds` | internal/verify/parse.go:126-145 | a continuation line under a port-less row goes to the VLAN above |
| `Text.SplitJoin` | internal/verify/parse.go:126-126 | splitting joined lines gives the lines back |
| `Text.NumberOfDigits` | internal/verify/parse.go:132-135 | reading a printed VLAN number gives the number, within the integer's range |

## Left out

- float64 rounding: coordinates, angles and tokens are exact reals, except where the code itself rounds
  (`ownBoxHit`) and in the gate's view.
- math.Hypot and math.Atan2: the first is any function with its defining property, the second any function with
  the range, the symmetry and the bound that `Schedule.IsAtan2` states. `chipPosition`, which turns an angle into a place, is not part of this model.
- sort.Slice is not stable: the model lets ties fall either way by stating every result for any order the
  sort may give, but its own sorting method is an insertion.
- Parallel-link offsets, the chip override table, all SVG text but its rounded coordinates, colours and captions.
- Relax.EarlyExitIsClear: nothing is promised about a relaxation that used up its eight rounds.
- The attempt to read positions from files, and every other check of the drawing gate than G2, G5 and G10.
- Fallback.CrowdedFails: for templates with a row of two that have four rows or more and at most five nodes in the
  middle column nothing is stated beyond LayoutLab.CompressionExactly on the layout as pushed.
- ChipGate.HostCanHide: for hosts centred between 66 and 654 in x and between 49 and 396 in y, which leaves out only hosts
  with no room for a chip on one of their sides.
- ChipGate.HostTriggersAgain: for the same hosts.
- RateLimit.Limiter.Allow: one request is one step. In the source a cleanup between the map lookup and the bucket
  lock could detach the bucket.
- RateLimit.PacedNeverRefused: for a limit of at least one request per minute; below that the capacity is
  under one token and nothing is ever admitted.
- Sessions.Service.LaunchSession: one atomic step; two launches racing each other are not part of this model.
- Sessions.Service.EndSession: reading the row, deleting the project and ending the row are one step.
- Sessions.Service.ProvisionSession: a run that fails after its project was created leaves a project that no
  row records; the properties speak of recorded projects. Node maps and MAC addresses are left out.
- Sessions.Reaper.SweepOnce: a sweep is one step, so a user cannot act between its query and its tiers.
- Database errors other than those of a launch, row deletion by cascade, deadlines and the wall clock: a deadline is the end of a probe
  script, and sweeps are events with a time.
- Console.ConsoleLock.ForceRelease: the preempt callback is returned, not run; what it does to the lock is a later
  operation of the interleaving. It belongs to whoever holds the key when it is set, as in the source.
- Dsl.Evaluate: messages are format and arguments rather than text; the known interfaces in one of them are a
  set, as the source lists them in no fixed order. Running-config collection and collecting several ports at once are not used by assertions.
- Parsing of the other device commands, console transport, ping parsing.
- HTTP, WebSocket, JSON, e-mail, billing, storage, configuration, frontend, per-lab data and the legacy
  verifiers: no logic of their own worth a proof here.
