/** Port chips of the topology renderer: 42 x 18 labels placed near their node. */
module Chips {
  import opened Reals
  import opened Shapes

  const CHIP_W := 42.0
  const CHIP_H := 18.0

  /** A chip with its owner's name, the node at the far end of its link, its position and its anchor. */
  datatype PlacedChip = PlacedChip(owner: string, other: NodeShape, cx: real, cy: real, anchorX: real, anchorY: real)

  predicate ChipsOverlap(a: PlacedChip, b: PlacedChip) {
    Abs(a.cx - b.cx) < CHIP_W && Abs(a.cy - b.cy) < CHIP_H
  }

  /** Only the position may differ. */
  predicate SameChip(a: PlacedChip, b: PlacedChip) {
    a.owner == b.owner && a.other == b.other && a.anchorX == b.anchorX && a.anchorY == b.anchorY
  }
}
