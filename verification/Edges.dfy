/** Screen edges, points and rectangles shared by the capture side and the controller. */
module Edges {
  import opened Float64
  import opened Integers

  /**
   * One side of a screen. The source uses strings: any other string takes the default branch of
   * every switch, and the empty one selects the legacy always-share mode.
   */
  datatype Edge = Left | Right | Top | Bottom | Other(name: string) {
    predicate IsSide() {
      !Other?
    }

    /** The facing edge on the neighbouring screen. */
    function Opposite(): (e: Edge)
      ensures IsSide() ==> e.IsSide() && e != this && e.Vertical() == Vertical()
    {
      match this
      case Left => Right
      case Right => Left
      case Top => Bottom
      case Bottom => Top
      case Other(_) => this
    }

    /** Does the edge run vertically, so that positions along it are y-coordinates? */
    predicate Vertical() {
      Left? || Right?
    }

    function Along(p: Point): int32 {
      if Vertical() then p.y else p.x
    }
  }

  const LEGACY := Other("")

  /** A positive number of pixels. */
  type Extent = x: int32 | 0 < x witness 1

  datatype Size = Size(w: Extent, h: Extent) {
    predicate Contains(p: Point) {
      0 <= p.x < w && 0 <= p.y < h
    }

    /** The length of an edge of this screen. */
    function Length(e: Edge): Extent {
      if e.Vertical() then h else w
    }

    /** How far the screen reaches inwards from an edge. */
    function Depth(e: Edge): Extent {
      if e.Vertical() then w else h
    }
  }

  datatype Point = Point(x: int32, y: int32)

  /** A fraction of the way along an edge: no double lies between 1 - 2^-53 and 1. */
  type Fraction = r: real | 0.0 <= r <= 1.0 && (r == 1.0 || TWO53 * r <= TWO53 - 1.0)

  /** The virtual desktop. Its far corner is an int32 coordinate, as every coordinate in it is. */
  datatype Rectangle = Rectangle(x: int32, y: int32, size: Size) {
    predicate Representable() {
      x + size.w <= MAX_INT32 && y + size.h <= MAX_INT32
    }

    predicate Contains(p: Point) {
      x <= p.x < x + size.w && y <= p.y < y + size.h
    }

    /** Where along the edge the rectangle starts. */
    function Origin(e: Edge): int32 {
      if e.Vertical() then y else x
    }
  }

  type Bounds = b: Rectangle | b.Representable() witness Rectangle(0, 0, Size(1, 1))

  lemma OppositeIsInvolution(e: Edge)
    ensures e.Opposite().Opposite() == e
    ensures e.Opposite() == e <==> !e.IsSide()
  {
  }
}
