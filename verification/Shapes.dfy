/** Node shapes of the topology renderer, tools/topogen/render.go. */
module Shapes {

  const VIEW_W := 720.0
  const VIEW_H := 490.0
  const NODE_W := 140.0
  const NODE_H := 60.0
  const HOST_R := 30.0

  datatype Role = CoreRole | HubRole | HostRole | AttackerRole

  /** A node with its centre; hosts are circles of radius 30, all others are 140 x 60 boxes. */
  datatype NodeShape = NodeShape(name: string, role: Role, cx: real, cy: real, isHost: bool)

  function HalfH(s: NodeShape): real {
    if s.isHost then HOST_R else 30.0
  }

  /** Everything but the vertical position is the same. */
  predicate SameButY(a: NodeShape, b: NodeShape) {
    a.name == b.name && a.role == b.role && a.cx == b.cx && a.isHost == b.isHost
  }
}
