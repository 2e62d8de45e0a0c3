/** The tree shape the viewer receives from the tree source: a quadtree of
    bounding boxes over simulated stars. Go's float64 coordinates are
    modelled as exact reals. */
module Quadtree {

  datatype Option<T> = None | Some(value: T)

  /** A point in simulation space. */
  datatype Vec2 = Vec2(x: real, y: real)

  /** A square region given by its center and its side length. */
  datatype BoundingBox = BoundingBox(center: Vec2, width: real)

  /** A star; the viewer only reads its position `c`. */
  datatype Star = Star(c: Vec2)

  /** One cell of the quadtree: its boundary, its child slots (an absent
      child is `None`, Go's nil pointer) and the stars it holds directly. */
  datatype Node = Node(boundary: BoundingBox, subtrees: seq<Option<Node>>, stars: seq<Star>)

  /** Go's zero value of a bounding box, `structs.BoundingBox{}`; a node whose
      boundary equals it is not drawn. */
  const ZeroBox: BoundingBox := BoundingBox(Vec2(0.0, 0.0), 0.0)

  predicate IsZero(b: BoundingBox)
  {
    b == ZeroBox
  }

  /** Number of child slots of a freshly built node (a quadtree cell). */
  const Arity: nat := 4

  /** A node with the given boundary, every child slot absent and no stars. */
  function NewNode(boundary: BoundingBox): (n: Node)
    ensures n.boundary == boundary && n.stars == []
    ensures |n.subtrees| == Arity
    ensures forall k :: 0 <= k < |n.subtrees| ==> n.subtrees[k] == None
  {
    Node(boundary, [None, None, None, None], [])
  }
}
