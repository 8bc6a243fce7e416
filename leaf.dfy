/**
 * The binary partition tree of the BSP generator (`Leaf` in bsp.rs).
 *
 * A node is a value that owns its two optional children. The Rust methods
 * that take `&mut self` and `&mut StdRng` are methods here that take the node
 * and the random source and return their new values.
 */
module Bsp {
  import opened Common
  import opened Geometry
  import opened Random

  /** A tree node over the region [position, position + size). */
  datatype Leaf = Leaf(
    position: Point,
    size: Point,
    leftChild: Option<Leaf>,
    rightChild: Option<Leaf>,
    room: Option<Room>)

  /** `Leaf::new`: a childless node without a room. */
  function NewLeaf(position: Point, size: Point): Leaf {
    Leaf(position, size, None, None, None)
  }

  /** `is_leaf`: neither child is present. */
  predicate IsLeaf(t: Leaf) {
    t.leftChild.None? && t.rightChild.None?
  }

  /** The rectangle a node covers. */
  function Region(t: Leaf): Room {
    Room(t.position, t.size)
  }

  // ---------------------------------------------------------------------------
  // split

  /**
   * The aspect-ratio test `x > y && x as f32 / y as f32 >= 1.25`, in integers.
   * The two agree whenever x is below 2^24 (exact as `f32`) and y is below
   * 2^22: then an exact quotient below 1.25 lies more than half an `f32` ulp
   * below it and does not round up to 1.25. For y == 0 the quotient is +inf.
   */
  predicate IsWide(size: Point) {
    size.x > size.y && 4 * size.x >= 5 * size.y
  }

  /**
   * The split offset drawn with lower bound `lo` (the cross-axis minimum of
   * the source) and upper bound `max`: exactly `lo` when `max <= lo`,
   * otherwise any value of [lo, max].
   */
  predicate OffsetInRange(split: nat, lo: nat, max: nat) {
    if max <= lo then split == lo else lo <= split <= max
  }

  /** `l` and `r` cover `p`, cut across the x axis at offset `l.size.x`. */
  predicate CutX(p: Leaf, l: Leaf, r: Leaf) {
    && l.position == p.position
    && r.position == Point(p.position.x + l.size.x, p.position.y)
    && l.size.x + r.size.x == p.size.x
    && l.size.y == p.size.y && r.size.y == p.size.y
  }

  /** `l` and `r` cover `p`, cut across the y axis at offset `l.size.y`. */
  predicate CutY(p: Leaf, l: Leaf, r: Leaf) {
    && l.position == p.position
    && r.position == Point(p.position.x, p.position.y + l.size.y)
    && l.size.y + r.size.y == p.size.y
    && l.size.x == p.size.x && r.size.x == p.size.x
  }

  /**
   * The regions a successful `split` of `p` can give its two children: a
   * vertical cut (`split_horizontal == false`) when the width leaves more
   * than `min.x` beyond `min.x`, or, for a node that is not wide, a
   * horizontal cut when the height does the same for `min.y`. The offset is
   * drawn from the cross-axis minimum, as the source does.
   */
  predicate ValidCut(p: Leaf, min: Point, l: Leaf, r: Leaf) {
    || (&& CutX(p, l, r) && p.size.x > 2 * min.x
        && OffsetInRange(l.size.x, min.y, p.size.x - min.x))
    || (&& !IsWide(p.size) && CutY(p, l, r) && p.size.y > 2 * min.y
        && OffsetInRange(l.size.y, min.x, p.size.y - min.y))
  }

  /**
   * `q` is `p` after a successful split: the same region and room, and two
   * new childless, roomless children whose regions are a valid cut of `p`.
   */
  ghost predicate SplitInto(p: Leaf, min: Point, q: Leaf) {
    && q.position == p.position && q.size == p.size && q.room == p.room
    && q.leftChild.Some? && q.rightChild.Some?
    && q.leftChild.value == NewLeaf(q.leftChild.value.position, q.leftChild.value.size)
    && q.rightChild.value == NewLeaf(q.rightChild.value.position, q.rightChild.value.size)
    && ValidCut(p, min, q.leftChild.value, q.rightChild.value)
  }

  /**
   * The `usize` subtraction `size - split` of a split cannot underflow (the
   * source would panic). It only can when the offset falls back to the
   * cross-axis minimum and that minimum exceeds the size being cut.
   */
  predicate NoUnderflow(size: Point, min: Point) {
    && (size.x > 2 * min.x ==> min.y <= size.x)
    && (!IsWide(size) && size.y > 2 * min.y ==> min.x <= size.y)
  }

  /** `split`: try to cut a childless node into two children. */
  method Split(leaf: Leaf, rng: Rng, min: Point) returns (ok: bool, leaf': Leaf, rng': Rng)
    requires NoUnderflow(leaf.size, min)
    ensures !IsLeaf(leaf) ==> !ok && leaf' == leaf && rng' == rng
    ensures !ok ==> leaf' == leaf
    ensures ok ==> IsLeaf(leaf) && SplitInto(leaf, min, leaf')
    ensures IsLeaf(leaf) && IsWide(leaf.size) ==> (ok <==> leaf.size.x > 2 * min.x)
    ensures IsLeaf(leaf) && !ok ==> leaf.size.x <= 2 * min.x || leaf.size.y <= 2 * min.y
    ensures IsLeaf(leaf) && leaf.size.x <= 2 * min.x && leaf.size.y <= 2 * min.y ==> !ok
  {
    if leaf.leftChild.Some? || leaf.rightChild.Some? {
      return false, leaf, rng;
    }
    rng' := rng;
    var splitHorizontal: bool;
    if IsWide(leaf.size) {
      splitHorizontal := false;
    } else if IsWide(leaf.size) {
      // The same test as above: tall nodes never take this branch.
      splitHorizontal := true;
    } else {
      splitHorizontal, rng' := GenBool(rng');
    }

    var max: nat;
    if splitHorizontal {
      if leaf.size.y - min.y <= min.y {
        return false, leaf, rng';
      }
      max := leaf.size.y - min.y;
    } else {
      if leaf.size.x - min.x <= min.x {
        return false, leaf, rng';
      }
      max := leaf.size.x - min.x;
    }

    var split: nat;
    if splitHorizontal {
      if max <= min.x {
        split := min.x;
      } else {
        split, rng' := GenRange(rng', min.x, max);
      }
    } else {
      if max <= min.y {
        split := min.y;
      } else {
        split, rng' := GenRange(rng', min.y, max);
      }
    }

    if splitHorizontal {
      leaf' := leaf.(
        leftChild := Some(NewLeaf(leaf.position, Point(leaf.size.x, split))),
        rightChild := Some(NewLeaf(Point(leaf.position.x, leaf.position.y + split),
                                   Point(leaf.size.x, leaf.size.y - split))));
    } else {
      leaf' := leaf.(
        leftChild := Some(NewLeaf(leaf.position, Point(split, leaf.size.y))),
        rightChild := Some(NewLeaf(Point(leaf.position.x + split, leaf.position.y),
                                   Point(leaf.size.x - split, leaf.size.y))));
    }
    ok := true;
  }

  /**
   * The leaf of the split unit test, 20 x 50 with minimum (10, 10): it is too
   * narrow for a vertical cut, so any split that succeeds is horizontal, and
   * both children then start inside the parent and are no larger than it.
   */
  lemma SplitTestExpectations(l: Leaf, r: Leaf)
    requires ValidCut(NewLeaf(Point(0, 0), Point(20, 50)), Point(10, 10), l, r)
    ensures CutY(NewLeaf(Point(0, 0), Point(20, 50)), l, r)
    ensures l.position == Point(0, 0) && l.size.x + l.size.y <= 70
    ensures r.position.y >= 0 && r.size.x + r.size.y <= 70
  {
  }

  /**
   * The branch of `split` meant to force a horizontal cut on tall nodes
   * repeats the wide test, so a tall node may still be cut vertically.
   */
  lemma TallLeafMayCutVertically()
    ensures !IsWide(Point(30, 50))
    ensures ValidCut(NewLeaf(Point(0, 0), Point(30, 50)), Point(5, 5),
                     NewLeaf(Point(0, 0), Point(10, 50)), NewLeaf(Point(10, 0), Point(20, 50)))
  {
  }

  /** Splitting with equal minimum components leaves each child at least the minimum on the cut axis. */
  lemma CutRespectsEqualMinimum(p: Leaf, min: Point, l: Leaf, r: Leaf)
    requires min.x == min.y && ValidCut(p, min, l, r)
    ensures CutX(p, l, r) ==> l.size.x >= min.x && r.size.x >= min.x
    ensures !CutX(p, l, r) ==> l.size.y >= min.y && r.size.y >= min.y
  {
  }

  /**
   * The minimum sizes `generate` is safe with: both positive, and neither
   * more than twice the other. Then no split underflows and every split
   * leaves both children strictly smaller than their parent on the cut axis.
   */
  predicate SafeMinimum(min: Point) {
    0 < min.x <= 2 * min.y && 0 < min.y <= 2 * min.x
  }

  /**
   * Under a safe minimum, a valid cut gives two children that are positive
   * along the cut axis, each smaller than the parent.
   */
  lemma {:induction false} ValidCutShrinks(p: Leaf, min: Point, l: Leaf, r: Leaf)
    requires SafeMinimum(min) && ValidCut(p, min, l, r)
    ensures CutX(p, l, r) ==> l.size.x > 0 && r.size.x > 0
    ensures !CutX(p, l, r) ==> CutY(p, l, r) && l.size.y > 0 && r.size.y > 0
    ensures 0 < l.size.x + l.size.y < p.size.x + p.size.y
    ensures 0 < r.size.x + r.size.y < p.size.x + p.size.y
  {
    if CutX(p, l, r) && p.size.x > 2 * min.x && OffsetInRange(l.size.x, min.y, p.size.x - min.x) {
      assert 0 < min.y <= l.size.x < p.size.x;
    } else {
      assert 0 < min.x <= l.size.y < p.size.y;
    }
  }

  /** A leaf that the split attempt refused: some axis was too small, and a wide leaf was too narrow. */
  predicate Settled(t: Leaf, min: Point) {
    && (t.size.x <= 2 * min.x || t.size.y <= 2 * min.y)
    && (IsWide(t.size) ==> t.size.x <= 2 * min.x)
  }

  /**
   * A tree `generate` can build: children come in pairs, every internal
   * node is cut validly into its two children, and every leaf is settled.
   */
  ghost predicate Grown(t: Leaf, min: Point)
    decreases t
  {
    && (t.leftChild.Some? <==> t.rightChild.Some?)
    && (IsLeaf(t) ==> Settled(t, min))
    && (!IsLeaf(t) ==>
          && ValidCut(t, min, t.leftChild.value, t.rightChild.value)
          && Grown(t.leftChild.value, min) && Grown(t.rightChild.value, min))
  }

  /** No node of the tree has a room. */
  ghost predicate Roomless(t: Leaf)
    decreases t
  {
    && t.room.None?
    && (t.leftChild.Some? ==> Roomless(t.leftChild.value))
    && (t.rightChild.Some? ==> Roomless(t.rightChild.value))
  }

  /** `generate`: split a leaf, and recursively its children, until no split succeeds. */
  method Generate(leaf: Leaf, rng: Rng, min: Point) returns (leaf': Leaf, rng': Rng)
    requires SafeMinimum(min)
    ensures leaf'.position == leaf.position && leaf'.size == leaf.size && leaf'.room == leaf.room
    ensures !IsLeaf(leaf) ==> leaf' == leaf && rng' == rng
    ensures IsLeaf(leaf) ==> Grown(leaf', min)
    ensures IsLeaf(leaf) && Roomless(leaf) ==> Roomless(leaf')
    decreases leaf.size.x + leaf.size.y
  {
    if !IsLeaf(leaf) {
      return leaf, rng;
    }
    var ok;
    ok, leaf', rng' := Split(leaf, rng, min);
    if ok {
      var left, right := leaf'.leftChild.value, leaf'.rightChild.value;
      ValidCutShrinks(leaf, min, left, right);
      left, rng' := Generate(left, rng', min);
      right, rng' := Generate(right, rng', min);
      leaf' := leaf'.(leftChild := Some(left), rightChild := Some(right));
    }
  }

  /** Every leaf is at least `min` on both axes. */
  ghost predicate LeavesAtLeast(t: Leaf, min: Point)
    decreases t
  {
    && (IsLeaf(t) ==> t.size.x >= min.x && t.size.y >= min.y)
    && (t.leftChild.Some? ==> LeavesAtLeast(t.leftChild.value, min))
    && (t.rightChild.Some? ==> LeavesAtLeast(t.rightChild.value, min))
  }

  /**
   * With equal minimum components (the map uses (5, 5)), a generated tree
   * over a region at least the minimum has only leaves at least the minimum.
   */
  lemma {:induction false} GrownLeavesAtLeastMinimum(t: Leaf, min: Point)
    requires Grown(t, min) && min.x == min.y
    requires t.size.x >= min.x && t.size.y >= min.y
    ensures LeavesAtLeast(t, min)
    decreases t
  {
    if !IsLeaf(t) {
      var l, r := t.leftChild.value, t.rightChild.value;
      CutRespectsEqualMinimum(t, min, l, r);
      GrownLeavesAtLeastMinimum(l, min);
      GrownLeavesAtLeastMinimum(r, min);
    }
  }

  // ---------------------------------------------------------------------------
  // create_rooms

  /**
   * `room` is one `create_rooms` may sample for leaf `t`: each side at least
   * the minimum and at most the leaf's (or exactly the minimum when the leaf
   * is smaller), starting inside the leaf, and ending at or before the
   * leaf's far edge unless it is wider than the leaf.
   */
  predicate RoomFits(room: Room, t: Leaf, min: Point) {
    && min.x <= room.size.x <= Max(min.x, t.size.x)
    && min.y <= room.size.y <= Max(min.y, t.size.y)
    && t.position.x <= room.position.x
    && room.position.x + room.size.x <= t.position.x + Max(t.size.x, room.size.x)
    && t.position.y <= room.position.y
    && room.position.y + room.size.y <= t.position.y + Max(t.size.y, room.size.y)
  }

  /** A sampled room lies inside its leaf whenever the leaf is at least the minimum. */
  lemma RoomFitsWithinLeaf(room: Room, t: Leaf, min: Point)
    requires RoomFits(room, t, min) && t.size.x >= min.x && t.size.y >= min.y
    ensures room.Within(Region(t))
  {
  }

  /** Every leaf holds a room that fits it. */
  ghost predicate RoomsSampled(t: Leaf, min: Point)
    decreases t
  {
    && (IsLeaf(t) ==> t.room.Some? && RoomFits(t.room.value, t, min))
    && (t.leftChild.Some? ==> RoomsSampled(t.leftChild.value, min))
    && (t.rightChild.Some? ==> RoomsSampled(t.rightChild.value, min))
  }

  /** No internal node has a room. */
  ghost predicate InternalRoomless(t: Leaf)
    decreases t
  {
    && (!IsLeaf(t) ==> t.room.None?)
    && (t.leftChild.Some? ==> InternalRoomless(t.leftChild.value))
    && (t.rightChild.Some? ==> InternalRoomless(t.rightChild.value))
  }

  /**
   * `b` has the regions and child structure of `a`, and the rooms of `a`'s
   * internal nodes: only rooms of leaves may differ.
   */
  ghost predicate SameShape(a: Leaf, b: Leaf)
    decreases a
  {
    && b.position == a.position && b.size == a.size
    && (b.leftChild.Some? <==> a.leftChild.Some?)
    && (b.rightChild.Some? <==> a.rightChild.Some?)
    && (!IsLeaf(a) ==> b.room == a.room)
    && (a.leftChild.Some? ==> SameShape(a.leftChild.value, b.leftChild.value))
    && (a.rightChild.Some? ==> SameShape(a.rightChild.value, b.rightChild.value))
  }

  /** `create_rooms`: children first, then sample one room for a leaf. */
  method CreateRooms(leaf: Leaf, rng: Rng, min: Point) returns (leaf': Leaf, rng': Rng)
    ensures SameShape(leaf, leaf')
    ensures RoomsSampled(leaf', min)
    ensures Roomless(leaf) ==> InternalRoomless(leaf')
    decreases leaf
  {
    leaf', rng' := leaf, rng;
    if leaf.leftChild.Some? {
      var child;
      child, rng' := CreateRooms(leaf.leftChild.value, rng', min);
      leaf' := leaf'.(leftChild := Some(child));
    }
    if leaf.rightChild.Some? {
      var child;
      child, rng' := CreateRooms(leaf.rightChild.value, rng', min);
      leaf' := leaf'.(rightChild := Some(child));
    }

    if IsLeaf(leaf) {
      var width: nat;
      if min.x >= leaf.size.x {
        width := min.x;
      } else {
        width, rng' := GenRange(rng', min.x, leaf.size.x);
      }
      var height: nat;
      if min.y >= leaf.size.y {
        height := min.y;
      } else {
        height, rng' := GenRange(rng', min.y, leaf.size.y);
      }
      var x: nat;
      if leaf.size.x - width <= 0 {
        x := 0;
      } else {
        x, rng' := GenRange(rng', 0, leaf.size.x - width);
      }
      var y: nat;
      if leaf.size.y - height <= 0 {
        y := 0;
      } else {
        y, rng' := GenRange(rng', 0, leaf.size.y - height);
      }
      leaf' := leaf'.(room := Some(Room(Point(x + leaf.position.x, y + leaf.position.y),
                                        Point(width, height))));
    }
  }

  /** Trees of the same shape are grown alike: `create_rooms` keeps what `generate` built. */
  lemma {:induction false} SameShapeKeepsGrown(a: Leaf, b: Leaf, min: Point)
    requires Grown(a, min) && SameShape(a, b)
    ensures Grown(b, min)
    decreases a
  {
    if !IsLeaf(a) {
      SameShapeKeepsGrown(a.leftChild.value, b.leftChild.value, min);
      SameShapeKeepsGrown(a.rightChild.value, b.rightChild.value, min);
    }
  }

  // ---------------------------------------------------------------------------
  // get_room

  /** The rooms of the leaves, left subtree before right subtree. */
  ghost function RoomsLeftToRight(t: Leaf): seq<Room>
    decreases t
  {
    if IsLeaf(t) then
      if t.room.Some? then [t.room.value] else []
    else
      (if t.leftChild.Some? then RoomsLeftToRight(t.leftChild.value) else [])
      + (if t.rightChild.Some? then RoomsLeftToRight(t.rightChild.value) else [])
  }

  /**
   * `get_room`: a leaf's own room; for an internal node the left subtree's
   * pick if it has one, else the right's. This is the first room of the
   * leaves read left to right.
   */
  function GetRoom(t: Leaf): (r: Option<Room>)
    ensures r.None? <==> RoomsLeftToRight(t) == []
    ensures r.Some? ==> r.value == RoomsLeftToRight(t)[0]
    decreases t
  {
    if IsLeaf(t) then t.room
    else
      var leftRoom := if t.leftChild.Some? then GetRoom(t.leftChild.value) else None;
      var rightRoom := if t.rightChild.Some? then GetRoom(t.rightChild.value) else None;
      match (leftRoom, rightRoom)
      case (None, None) => None
      case (Some(room), _) => Some(room)
      case (_, Some(room)) => Some(room)
  }

  /** Once every leaf has a room, every node finds one. */
  lemma {:induction false} SampledTreeHasRoom(t: Leaf, min: Point)
    requires RoomsSampled(t, min)
    ensures GetRoom(t).Some?
    decreases t
  {
    if !IsLeaf(t) {
      if t.leftChild.Some? {
        SampledTreeHasRoom(t.leftChild.value, min);
      } else {
        SampledTreeHasRoom(t.rightChild.value, min);
      }
    }
  }

  /** The number of leaves of `t`. */
  ghost function LeafCount(t: Leaf): nat
    decreases t
  {
    if IsLeaf(t) then 1
    else
      (if t.leftChild.Some? then LeafCount(t.leftChild.value) else 0)
      + (if t.rightChild.Some? then LeafCount(t.rightChild.value) else 0)
  }

  /** Every tree has at least one leaf. */
  lemma {:induction false} LeafCountPositive(t: Leaf)
    ensures LeafCount(t) >= 1
    decreases t
  {
    if !IsLeaf(t) {
      if t.leftChild.Some? {
        LeafCountPositive(t.leftChild.value);
      } else {
        LeafCountPositive(t.rightChild.value);
      }
    }
  }
}
