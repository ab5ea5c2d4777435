/**
 * The value types every graph algorithm consumes (package model).
 *
 * All three are plain values compared field by field, as Go compares
 * structs (up to the float `Angle` fields, whose NaN and -0 cases are not
 * modelled): two nodes with the same `id` but a different name, colour, shape
 * or position are different nodes, and an edge carries full copies of its two
 * end nodes rather than references into the graph's node list.
 */
module Model {

  /** Go's uint64. */
  type uint64 = x: int | 0 <= x < 0x1_0000_0000_0000_0000

  /** A rendering hint (sine and cosine) attached to an edge. The algorithms
      never look inside it; it matters only because it takes part in edge
      equality. */
  datatype Angle = Angle(sin: real, cos: real)

  type NodeShape = string

  datatype Node = Node(
    id: uint64,
    x: uint64,
    y: uint64,
    name: string,
    shape: NodeShape,
    color: string)

  datatype Edge = Edge(
    id: uint64,
    name: string,
    color: string,
    from: Node,
    to: Node,
    angle12: Angle,
    angle21: Angle,
    isDirected: bool)

  datatype Graph = Graph(
    id: uint64,
    name: string,
    edges: seq<Edge>,
    nodes: seq<Node>)

  /** The zero value of Angle, which edges built without angles carry. */
  const ZeroAngle := Angle(0.0, 0.0)

  /** A node carrying only an identifier, as the tests build them. */
  function BareNode(id: uint64): Node {
    Node(id, 0, 0, "", "", "")
  }
}
