/**
 * `BSPMap`: builds the partition tree over the whole map, then stamps the
 * room of every leaf into a sparse coordinate -> tile map.
 */
module BspMap {
  import opened Common
  import opened Geometry
  import opened Random
  import opened Bsp
  import opened Traversal

  /** The smallest map side the generator accepts. */
  const MinMapSide: nat := 20

  /** The minimum room size `new` fixes. */
  const DefaultMinRoomSize: Point := Point(5, 5)

  /** `tiles` with every cell of `room` set to floor. */
  function Stamp(tiles: map<Point, Tile>, room: Room): (r: map<Point, Tile>)
    ensures forall p :: p in r <==> p in tiles || room.Contains(p)
    ensures forall p :: p in r ==> r[p] == if room.Contains(p) then Floor else tiles[p]
  {
    map p | p in tiles.Keys + room.Cells() :: if room.Contains(p) then Floor else tiles[p]
  }

  /** `tiles` with `rooms` stamped in order. */
  ghost function StampAll(tiles: map<Point, Tile>, rooms: seq<Room>): map<Point, Tile>
    decreases |rooms|
  {
    if rooms == [] then tiles
    else Stamp(StampAll(tiles, rooms[..|rooms| - 1]), rooms[|rooms| - 1])
  }

  /** Stamping one more room extends the stamping of the rooms before it. */
  lemma StampAllSnoc(tiles: map<Point, Tile>, rooms: seq<Room>, room: Room)
    ensures StampAll(tiles, rooms + [room]) == Stamp(StampAll(tiles, rooms), room)
  {
    assert (rooms + [room])[..|rooms|] == rooms;
  }

  /** Some room of `rooms` covers the cell `p`. */
  ghost predicate Covered(rooms: seq<Room>, p: Point) {
    exists i :: 0 <= i < |rooms| && rooms[i].Contains(p)
  }

  /**
   * Stamping rooms in order leaves floor on exactly the cells some room
   * covers, and every other cell as it was.
   */
  lemma {:induction false} StampAllCovers(tiles: map<Point, Tile>, rooms: seq<Room>)
    ensures forall p :: p in StampAll(tiles, rooms) <==> p in tiles || Covered(rooms, p)
    ensures forall p :: p in StampAll(tiles, rooms) ==>
              StampAll(tiles, rooms)[p] == if Covered(rooms, p) then Floor else tiles[p]
    decreases |rooms|
  {
    if rooms != [] {
      var front, last := rooms[..|rooms| - 1], rooms[|rooms| - 1];
      StampAllCovers(tiles, front);
      forall p
        ensures Covered(rooms, p) <==> Covered(front, p) || last.Contains(p)
      {
        if Covered(front, p) {
          var i :| 0 <= i < |front| && front[i].Contains(p);
          assert rooms[i] == front[i];
        }
        if last.Contains(p) {
          assert rooms[|rooms| - 1] == last;
        }
        if Covered(rooms, p) {
          var i :| 0 <= i < |rooms| && rooms[i].Contains(p);
          if i < |front| {
            assert front[i] == rooms[i];
          }
        }
      }
    }
  }

  /**
   * Stamping rooms that lie within [0, size) onto an empty map gives only
   * floor tiles, all within [0, size).
   */
  lemma StampedFloorWithin(rooms: seq<Room>, size: Point)
    requires AllWithin(rooms, Room(Point(0, 0), size))
    ensures forall p :: p in StampAll(map[], rooms) ==>
              StampAll(map[], rooms)[p] == Floor && p.x < size.x && p.y < size.y
  {
    StampAllCovers(map[], rooms);
    forall p | p in StampAll(map[], rooms)
      ensures p.x < size.x && p.y < size.y
    {
      var i :| 0 <= i < |rooms| && rooms[i].Contains(p);
      assert rooms[i].Within(Room(Point(0, 0), size));
    }
  }

  /** The rooms `place_rooms` stamps while walking `nodes`: the room of each leaf that has one, in order. */
  ghost function LeafRooms(nodes: seq<Leaf>): seq<Room>
    decreases |nodes|
  {
    if nodes == [] then []
    else
      LeafRooms(nodes[..|nodes| - 1]) + RoomOf(nodes[|nodes| - 1])
  }

  /**
   * The room `place_rooms` stamps when it reaches `node`: its room if it is a
   * leaf that has one (on a leaf, `get_room` is the leaf's own room).
   */
  ghost function RoomOf(node: Leaf): seq<Room> {
    if IsLeaf(node) && node.room.Some? then [node.room.value] else []
  }

  /** Walking one more node adds that node's room if it is a leaf that has one. */
  lemma LeafRoomsSnoc(nodes: seq<Leaf>, node: Leaf)
    ensures LeafRooms(nodes + [node]) == LeafRooms(nodes) + RoomOf(node)
  {
    assert (nodes + [node])[..|nodes|] == nodes;
  }

  /** Moving the first pending node to the walked ones keeps the whole walk. */
  lemma WalkStep(done: seq<Leaf>, pending: seq<Leaf>, node: Leaf, rest: seq<Leaf>)
    requires pending != [] && node == pending[0] && rest == pending[1..]
    ensures (done + [node]) + rest == done + pending
  {
    assert pending == [node] + rest;
  }

  /** Stamping two runs of rooms one after the other stamps their concatenation. */
  lemma {:induction false} StampAllAppend(tiles: map<Point, Tile>, a: seq<Room>, b: seq<Room>)
    ensures StampAll(tiles, a + b) == StampAll(StampAll(tiles, a), b)
    decreases |b|
  {
    if b == [] {
      assert a + b == a;
    } else {
      var front, last := b[..|b| - 1], b[|b| - 1];
      assert a + b == (a + front) + [last];
      assert b == front + [last];
      StampAllSnoc(tiles, a + front, last);
      StampAllSnoc(StampAll(tiles, a), front, last);
      StampAllAppend(tiles, a, front);
    }
  }

  /** One more step of the walk extends what has been stamped by the node's room. */
  lemma PlacedOneMore(start: map<Point, Tile>, startRooms: seq<Room>, done: seq<Leaf>, leaf: Leaf,
                      rooms: seq<Room>, tiles: map<Point, Tile>)
    requires rooms == startRooms + LeafRooms(done)
    requires tiles == StampAll(start, LeafRooms(done))
    ensures rooms + RoomOf(leaf) == startRooms + LeafRooms(done + [leaf])
    ensures StampAll(tiles, RoomOf(leaf)) == StampAll(start, LeafRooms(done + [leaf]))
  {
    LeafRoomsSnoc(done, leaf);
    StampAllAppend(start, LeafRooms(done), RoomOf(leaf));
  }

  /** Collecting leaf rooms distributes over concatenation. */
  lemma {:induction false} LeafRoomsAppend(a: seq<Leaf>, b: seq<Leaf>)
    ensures LeafRooms(a + b) == LeafRooms(a) + LeafRooms(b)
    decreases |b|
  {
    if b == [] {
      assert a + b == a;
    } else {
      var front := b[..|b| - 1];
      assert (a + b)[..|a + b| - 1] == a + front;
      assert (a + b)[|a + b| - 1] == b[|b| - 1];
      LeafRoomsAppend(a, front);
    }
  }

  /** A single node contributes its room exactly when it is a leaf that has one. */
  lemma LeafRoomsSingle(t: Leaf)
    ensures LeafRooms([t]) == if IsLeaf(t) && t.room.Some? then [t.room.value] else []
  {
    LeafRoomsSnoc([], t);
    assert [] + [t] == [t];
  }

  /** The walk over `t` collects `t`'s own room (if a leaf) ahead of those below it. */
  lemma LeafRoomsOfVisitSplit(t: Leaf)
    ensures LeafRooms(Visit(t)) == LeafRooms([t]) + LeafRooms(VisitBelow(t))
  {
    LeafRoomsAppend([t], VisitBelow(t));
  }

  /** Below `t`, the walk collects the right subtree's rooms, then the left subtree's. */
  lemma LeafRoomsBelow(t: Leaf)
    ensures LeafRooms(VisitBelow(t))
            == (if t.rightChild.Some? then LeafRooms(Visit(t.rightChild.value)) else [])
               + (if t.leftChild.Some? then LeafRooms(Visit(t.leftChild.value)) else [])
  {
    var r := if t.rightChild.Some? then Visit(t.rightChild.value) else [];
    var l := if t.leftChild.Some? then Visit(t.leftChild.value) else [];
    assert VisitBelow(t) == r + l;
    LeafRoomsAppend(r, l);
  }

  /** The leaf rooms of the walk over `t`: those of the right subtree, then of the left. */
  lemma LeafRoomsOfVisit(t: Leaf)
    ensures IsLeaf(t) ==> LeafRooms(Visit(t)) == if t.room.Some? then [t.room.value] else []
    ensures !IsLeaf(t) ==>
              LeafRooms(Visit(t))
              == (if t.rightChild.Some? then LeafRooms(Visit(t.rightChild.value)) else [])
                 + (if t.leftChild.Some? then LeafRooms(Visit(t.leftChild.value)) else [])
  {
    LeafRoomsSingle(t);
    LeafRoomsOfVisitSplit(t);
    LeafRoomsBelow(t);
  }

  /** Once every leaf has a room, the walk collects exactly one room per leaf. */
  lemma {:induction false} OneRoomPerLeaf(t: Leaf, min: Point)
    requires RoomsSampled(t, min)
    ensures |LeafRooms(Visit(t))| == LeafCount(t)
    decreases t
  {
    LeafRoomsOfVisit(t);
    if t.leftChild.Some? {
      OneRoomPerLeaf(t.leftChild.value, min);
    }
    if t.rightChild.Some? {
      OneRoomPerLeaf(t.rightChild.value, min);
    }
  }

  /** Every room of `rooms` lies within `region`. */
  ghost predicate AllWithin(rooms: seq<Room>, region: Room) {
    forall i :: 0 <= i < |rooms| ==> rooms[i].Within(region)
  }

  /** No two distinct entries of `rooms` intersect. */
  ghost predicate PairwiseDisjoint(rooms: seq<Room>) {
    forall i, j :: 0 <= i < |rooms| && 0 <= j < |rooms| && i != j ==> !rooms[i].Intersects(rooms[j])
  }

  /** The two children of a cut lie within their parent and apart from each other. */
  lemma CutChildrenApart(p: Leaf, min: Point, l: Leaf, r: Leaf)
    requires ValidCut(p, min, l, r)
    ensures Region(l).Within(Region(p)) && Region(r).Within(Region(p))
    ensures Apart(Region(l), Region(r))
  {
  }

  /**
   * Two runs of rooms, each inside one of two regions that are apart and
   * inside `outer`, and each free of intersections, together lie inside
   * `outer` and are free of intersections.
   */
  lemma JoinWithinAndApart(a: seq<Room>, outerA: Room, b: seq<Room>, outerB: Room, outer: Room)
    requires AllWithin(a, outerA) && AllWithin(b, outerB)
    requires PairwiseDisjoint(a) && PairwiseDisjoint(b)
    requires outerA.Within(outer) && outerB.Within(outer) && Apart(outerA, outerB)
    ensures AllWithin(a + b, outer) && PairwiseDisjoint(a + b)
  {
    var all := a + b;
    forall i | 0 <= i < |all|
      ensures all[i].Within(outer)
    {
      if i < |a| {
        assert all[i] == a[i];
      } else {
        assert all[i] == b[i - |a|];
      }
    }
    forall i, j | 0 <= i < |all| && 0 <= j < |all| && i != j
      ensures !all[i].Intersects(all[j])
    {
      if i < |a| && j < |a| {
        assert all[i] == a[i] && all[j] == a[j];
      } else if i >= |a| && j >= |a| {
        assert all[i] == b[i - |a|] && all[j] == b[j - |a|];
      } else if i < |a| {
        assert all[i] == a[i] && all[j] == b[j - |a|];
        SeparatedRegionsDoNotIntersect(all[i], outerA, all[j], outerB);
      } else {
        assert all[i] == b[i - |a|] && all[j] == a[j];
        SeparatedRegionsDoNotIntersect(all[i], outerB, all[j], outerA);
      }
    }
  }

  /**
   * In a generated tree whose leaves all hold a room and are at least the
   * minimum, the rooms the walk collects lie within the tree's region and
   * no two of them intersect.
   */
  lemma {:induction false} LeafRoomsWithinAndApart(t: Leaf, min: Point)
    requires Grown(t, min) && RoomsSampled(t, min) && LeavesAtLeast(t, min)
    ensures AllWithin(LeafRooms(Visit(t)), Region(t))
    ensures PairwiseDisjoint(LeafRooms(Visit(t)))
    decreases t
  {
    LeafRoomsOfVisit(t);
    if IsLeaf(t) {
      RoomFitsWithinLeaf(t.room.value, t, min);
    } else {
      var l, r := t.leftChild.value, t.rightChild.value;
      LeafRoomsWithinAndApart(l, min);
      LeafRoomsWithinAndApart(r, min);
      CutChildrenApart(t, min, l, r);
      JoinWithinAndApart(LeafRooms(Visit(r)), Region(r), LeafRooms(Visit(l)), Region(l), Region(t));
    }
  }

  /**
   * The cell `p` of `room` is set once the column loop of `add_room` has
   * finished `cols` columns and the row loop of column `cols` has done `rows` rows.
   */
  predicate Done(room: Room, cols: nat, rows: nat, p: Point) {
    && room.Contains(p)
    && (p.x < room.position.x + cols || (p.x == room.position.x + cols && p.y < room.position.y + rows))
  }

  /** `tiles` with the cells `Done(room, cols, rows, _)` set to floor. */
  ghost function StampPart(tiles: map<Point, Tile>, room: Room, cols: nat, rows: nat): map<Point, Tile> {
    map p | p in tiles.Keys + (set q | q in room.Cells() && Done(room, cols, rows, q))
      :: if Done(room, cols, rows, p) then Floor else tiles[p]
  }

  /** Before the loops, nothing has been set. */
  lemma StampPartStart(tiles: map<Point, Tile>, room: Room)
    ensures StampPart(tiles, room, 0, 0) == tiles
  {
  }

  /** One pass of the row loop sets one more cell of the current column. */
  lemma StampPartStep(tiles: map<Point, Tile>, room: Room, cols: nat, rows: nat)
    requires cols < room.size.x && rows < room.size.y
    ensures StampPart(tiles, room, cols, rows)[Point(room.position.x + cols, room.position.y + rows) := Floor]
            == StampPart(tiles, room, cols, rows + 1)
  {
    var c := Point(room.position.x + cols, room.position.y + rows);
    assert room.Contains(c) && Done(room, cols, rows + 1, c);
    var lhs := StampPart(tiles, room, cols, rows)[c := Floor];
    var rhs := StampPart(tiles, room, cols, rows + 1);
    assert forall p :: p in lhs <==> p in rhs;
  }

  /** A finished column is the start of the next one. */
  lemma StampPartNextColumn(tiles: map<Point, Tile>, room: Room, cols: nat)
    ensures StampPart(tiles, room, cols, room.size.y) == StampPart(tiles, room, cols + 1, 0)
  {
    assert forall p :: Done(room, cols, room.size.y, p) <==> Done(room, cols + 1, 0, p);
  }

  /** Once every column is finished, the whole room is stamped. */
  lemma StampPartDone(tiles: map<Point, Tile>, room: Room)
    ensures StampPart(tiles, room, room.size.x, 0) == Stamp(tiles, room)
  {
    assert forall p :: Done(room, room.size.x, 0, p) <==> room.Contains(p);
  }

  class BSPMap {
    var size: Point
    var tiles: map<Point, Tile>
    var rooms: seq<Room>
    var minRoomSize: Point

    /** The struct literal of `new`: no tiles, no rooms, the fixed minimum room size. */
    constructor (size: Point)
      ensures this.size == size && tiles == map[] && rooms == []
      ensures minRoomSize == DefaultMinRoomSize
    {
      this.size := size;
      tiles := map[];
      rooms := [];
      minRoomSize := DefaultMinRoomSize;
    }

    /**
     * `BSPMap::new`: refuse a map smaller than 20 x 20; otherwise build the
     * tree, sample its rooms and stamp them. `root` is the tree it built.
     */
    static method New(size: Point, seed: Rng) returns (result: Result<BSPMap, string>, ghost root: Leaf)
      ensures result.Err? <==> size.x < MinMapSide || size.y < MinMapSide
      ensures result.Ok? ==>
                && fresh(result.value)
                && result.value.size == size
                && result.value.minRoomSize == DefaultMinRoomSize
                && root.position == Point(0, 0) && root.size == size
                && Grown(root, DefaultMinRoomSize)
                && RoomsSampled(root, DefaultMinRoomSize)
                && InternalRoomless(root)
                && result.value.rooms == LeafRooms(Visit(root))
                && result.value.tiles == StampAll(map[], result.value.rooms)
      ensures result.Ok? ==> |result.value.rooms| == LeafCount(root) && |result.value.rooms| >= 1
      ensures result.Ok? ==> AllWithin(result.value.rooms, Room(Point(0, 0), size))
      ensures result.Ok? ==> PairwiseDisjoint(result.value.rooms)
      ensures result.Ok? ==>
                forall p :: p in result.value.tiles ==>
                  result.value.tiles[p] == Floor && p.x < size.x && p.y < size.y
    {
      if size.x < MinMapSide || size.y < MinMapSide {
        return Err("Size of a BSP_Map needs to be greater than or equal x : 20, y : 20"), NewLeaf(Point(0, 0), size);
      }
      var bsp := new BSPMap(size);
      var rng;
      rng, root := bsp.PlaceRooms(seed, bsp.minRoomSize);
      result := Ok(bsp);

      OneRoomPerLeaf(root, DefaultMinRoomSize);
      LeafCountPositive(root);
      GrownLeavesAtLeastMinimum(root, DefaultMinRoomSize);
      LeafRoomsWithinAndApart(root, DefaultMinRoomSize);
      StampedFloorWithin(bsp.rooms, size);
    }

    /**
     * `place_rooms`: build the tree over the whole map, sample a room per
     * leaf, then walk the tree and stamp the room of every leaf.
     */
    method PlaceRooms(rng: Rng, min: Point) returns (rng': Rng, ghost root: Leaf)
      requires SafeMinimum(min)
      modifies this
      ensures size == old(size) && minRoomSize == old(minRoomSize)
      ensures root.position == Point(0, 0) && root.size == size
      ensures Grown(root, min) && RoomsSampled(root, min) && InternalRoomless(root)
      ensures rooms == old(rooms) + LeafRooms(Visit(root))
      ensures tiles == StampAll(old(tiles), LeafRooms(Visit(root)))
    {
      var tree := NewLeaf(Point(0, 0), size);
      var grown;
      grown, rng' := Generate(tree, rng, min);
      tree, rng' := CreateRooms(grown, rng', min);
      SameShapeKeepsGrown(grown, tree, min);
      root := tree;

      StampLeafRooms(tree);
    }

    /**
     * The loop of `place_rooms`: walk the tree with its iterator and stamp
     * the room of every leaf, in walk order. (Corridors are not stamped.)
     */
    method StampLeafRooms(root: Leaf)
      modifies this
      ensures size == old(size) && minRoomSize == old(minRoomSize)
      ensures rooms == old(rooms) + LeafRooms(Visit(root))
      ensures tiles == StampAll(old(tiles), LeafRooms(Visit(root)))
    {
      ghost var start, startRooms := tiles, rooms;
      var iter := new LeafIterator(root);
      ghost var done: seq<Leaf> := [];
      while true
        invariant fresh(iter) && iter.Valid()
        invariant done + iter.Remaining() == Visit(root)
        invariant size == old(size) && minRoomSize == old(minRoomSize)
        invariant rooms == startRooms + LeafRooms(done)
        invariant tiles == StampAll(start, LeafRooms(done))
        decreases |iter.Remaining()|
      {
        ghost var before := iter.Remaining();
        var next := iter.Next();
        if next.None? {
          assert done + before == done;
          break;
        }
        var leaf := next.value;
        ghost var rest := iter.Remaining();
        ghost var tilesBefore, roomsBefore := tiles, rooms;
        PlaceLeafRoom(leaf);
        PlacedOneMore(start, startRooms, done, leaf, roomsBefore, tilesBefore);
        WalkStep(done, before, leaf, rest);
        done := done + [leaf];
      }
    }

    /** The body of the walk in `place_rooms`: stamp the node's room if it is a leaf that has one. */
    method PlaceLeafRoom(leaf: Leaf)
      modifies this
      ensures size == old(size) && minRoomSize == old(minRoomSize)
      ensures rooms == old(rooms) + RoomOf(leaf)
      ensures tiles == StampAll(old(tiles), RoomOf(leaf))
    {
      if IsLeaf(leaf) && GetRoom(leaf).Some? {
        var room := GetRoom(leaf).value;
        AddRoom(room);
        assert [room][..0] == [];
      }
    }

    /** `add_room`: set every cell of `room` to floor, then append the room. */
    method AddRoom(room: Room)
      modifies this
      ensures size == old(size) && minRoomSize == old(minRoomSize)
      ensures tiles == Stamp(old(tiles), room)
      ensures rooms == old(rooms) + [room]
    {
      ghost var before := tiles;
      StampPartStart(before, room);
      var x := 0;
      while x < room.size.x
        invariant x <= room.size.x
        invariant size == old(size) && minRoomSize == old(minRoomSize) && rooms == old(rooms)
        invariant tiles == StampPart(before, room, x, 0)
      {
        var y := 0;
        while y < room.size.y
          invariant y <= room.size.y
          invariant size == old(size) && minRoomSize == old(minRoomSize) && rooms == old(rooms)
          invariant tiles == StampPart(before, room, x, y)
        {
          StampPartStep(before, room, x, y);
          tiles := tiles[Point(room.position.x + x, room.position.y + y) := Floor];
          y := y + 1;
        }
        StampPartNextColumn(before, room, x);
        x := x + 1;
      }
      StampPartDone(before, room);
      rooms := rooms + [room];
    }
  }
}
