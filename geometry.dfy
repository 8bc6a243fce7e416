/**
 * Points, tiles and rooms: the values the BSP generator computes with.
 * `Point` has `usize` components, so both are natural numbers here.
 */
module Geometry {
  import opened Common

  /** A grid coordinate, or a width and height. */
  datatype Point = Point(x: nat, y: nat)

  /** What a map cell holds. */
  datatype Tile = Floor | Wall

  /**
   * An axis-aligned rectangle; it covers the cells
   * [position.x, position.x + size.x) x [position.y, position.y + size.y).
   */
  datatype Room = Room(position: Point, size: Point)
  {
    /** The cell `p` lies in this rectangle. */
    predicate Contains(p: Point) {
      && position.x <= p.x < position.x + size.x
      && position.y <= p.y < position.y + size.y
    }

    /** Half-open overlap test: rectangles that only touch do not intersect. */
    predicate Intersects(other: Room) {
      var xIntersect := position.x + size.x > other.position.x && other.position.x + other.size.x > position.x;
      var yIntersect := position.y + size.y > other.position.y && other.position.y + other.size.y > position.y;
      xIntersect && yIntersect
    }

    /** This rectangle lies within `outer`. */
    predicate Within(outer: Room) {
      && outer.position.x <= position.x && position.x + size.x <= outer.position.x + outer.size.x
      && outer.position.y <= position.y && position.y + size.y <= outer.position.y + outer.size.y
    }

    /** The cell `add_room` sets for the loop offsets (dx, dy). */
    function Offset(dx: nat, dy: nat): Point {
      Point(position.x + dx, position.y + dy)
    }

    /**
     * The cells the two loops of `add_room` visit: the room's position
     * shifted by every offset (dx, dy) with dx < size.x and dy < size.y.
     * They are exactly the cells the rectangle contains.
     */
    function Cells(): (cells: set<Point>)
      ensures forall p :: p in cells <==> Contains(p)
    {
      var cells := set dx: nat, dy: nat | dx < size.x && dy < size.y :: Offset(dx, dy);
      assert forall p :: Contains(p) ==> p == Offset(p.x - position.x, p.y - position.y);
      cells
    }
  }

  /**
   * For rectangles of non-zero size, the overlap test holds exactly when the
   * two share a cell. (A zero-width rectangle strictly inside another one
   * passes the test while covering no cell.)
   */
  lemma IntersectsIffSharedCell(a: Room, b: Room)
    requires a.size.x > 0 && a.size.y > 0 && b.size.x > 0 && b.size.y > 0
    ensures a.Intersects(b) <==> exists p :: a.Contains(p) && b.Contains(p)
  {
    if a.Intersects(b) {
      var p := Point(Max(a.position.x, b.position.x), Max(a.position.y, b.position.y));
      assert a.Contains(p) && b.Contains(p);
    }
  }

  /** The overlap test does not depend on the order of its arguments. */
  lemma IntersectsSymmetric(a: Room, b: Room)
    ensures a.Intersects(b) == b.Intersects(a)
  {
  }

  /** The five room pairs of the module's unit tests. */
  lemma IntersectsExamples()
    ensures !Room(Point(0, 0), Point(10, 10)).Intersects(Room(Point(10, 10), Point(10, 10)))
    ensures !Room(Point(0, 0), Point(10, 10)).Intersects(Room(Point(15, 15), Point(10, 10)))
    ensures Room(Point(0, 0), Point(10, 10)).Intersects(Room(Point(9, 9), Point(123, 321)))
    ensures Room(Point(0, 0), Point(10, 10)).Intersects(Room(Point(0, 0), Point(20, 20)))
    ensures Room(Point(0, 0), Point(10, 10)).Intersects(Room(Point(0, 5), Point(10, 10)))
  {
  }

  /** One rectangle ends, along x or along y, before the other begins. */
  predicate Apart(a: Room, b: Room) {
    || a.position.x + a.size.x <= b.position.x
    || b.position.x + b.size.x <= a.position.x
    || a.position.y + a.size.y <= b.position.y
    || b.position.y + b.size.y <= a.position.y
  }

  /**
   * Rectangles inside two regions that are separated along x or along y
   * never intersect, whatever their sizes.
   */
  lemma SeparatedRegionsDoNotIntersect(a: Room, outerA: Room, b: Room, outerB: Room)
    requires a.Within(outerA) && b.Within(outerB) && Apart(outerA, outerB)
    ensures !a.Intersects(b)
  {
  }
}
