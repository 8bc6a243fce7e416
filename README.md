# BSP dungeon generator — a Dafny model

This project models the binary-space-partitioning map generator of `src/bsp.rs`.

- `BSPMap::new` refuses a map smaller than 20 x 20. Otherwise it builds a `Leaf` tree over the whole map.
- `Leaf::generate` splits each childless node with `Leaf::split`, and then the node's children, until no split succeeds.
- `Leaf::create_rooms` samples one room inside every leaf.
- `BSPMap::place_rooms` walks the tree with the explicit-stack `LeafIterator`. It stamps the room of every leaf into a sparse `Point -> Tile` map with `add_room` and appends that room to the map's room list.

The model has one module per concern:

| file | module | form |
|---|---|---|
| `common.dfy` | `Common` | `Option`, `Result` |
| `geometry.dfy` | `Geometry` | `Point`, `Tile`, `Room` and the overlap test |
| `random.dfy` | `Random` | the random source, as a stream of draws |
| `leaf.dfy` | `Bsp` | the `Leaf` tree as a datatype value; `split`, `generate` and `create_rooms` as methods that return the new node and the new random source; `get_room` as a function |
| `leaf_iterator.dfy` | `Traversal` | `LeafIterator` as a class over a stack of pending subtrees |
| `bsp_map.dfy` | `BspMap` | `BSPMap` as a class whose `tiles` map and `rooms` list are updated in place |

What is proved, in the generator's own terms:

- **Map.** A built map holds one room per leaf of its tree. The rooms are pairwise non-intersecting and lie inside the map. Every tile is floor and lies inside the map.
- **Walk.** The iterator yields every node of the tree exactly once: the root first, then the right subtree, then the left subtree.
- **Split.** A split keeps the node's region and gives it two fresh children that tile it. It refuses nodes that already have children, and nodes too small on the axis it picked.
- **Generate.** `generate` terminates for a safe minimum such as the map's (5, 5). It leaves a tree whose internal nodes are all cut validly and whose leaves each refused the one split tried on them. A tall leaf whose coin picked its narrow side stays uncut.
- **Rooms.** `create_rooms` gives every leaf a room within the sampling bounds, and changes nothing else.
- **get_room.** `get_room` returns the first room of the leaves read left to right.

## Model

| member | source | states |
|---|---|---|
| `Geometry.Room.Cells` | src/bsp.rs:63-67 | the cells `add_room`'s loops visit, the position shifted by every offset `(dx, dy)` with `dx < size.x` and `dy < size.y`, are exactly the points the room contains |
| `Geometry.IntersectsIffSharedCell` | src/bsp.rs:83-89 | for rooms of non-zero size, `intersects` holds exactly when the two rooms share a cell (both directions) |
| `Geometry.IntersectsSymmetric` | src/bsp.rs:83-89 | `intersects` does not depend on argument order |
| `Geometry.IntersectsExamples` | src/bsp.rs:350-383 | the five unit-test pairs: touching and distant rooms do not intersect; corner overlap, containment and shifted overlap do |
| `Geometry.SeparatedRegionsDoNotIntersect` | src/bsp.rs:83-89 | rooms inside two regions separated along x or along y never intersect |
| `Random.GenRange` | src/bsp.rs:223 | `gen_range(lo..=hi)` returns a value within the closed range |
| `Bsp.Split` | src/bsp.rs:112-180 | a node with a child is refused and left unchanged. A refused split leaves the node unchanged. A successful one keeps the region and room and adds two fresh children that cut the region across x or y, at an offset between the cross-axis minimum and `size - min`. A wide node splits exactly when its width exceeds twice the x minimum. A node at most twice the minimum on both axes is always refused |
| `Bsp.SplitTestExpectations` | src/bsp.rs:396-418 | for the 20 x 50 test leaf with minimum (10, 10), any successful split is horizontal. The children satisfy every assertion of the test |
| `Bsp.TallLeafMayCutVertically` | src/bsp.rs:119-125 | the second direction test repeats the first, so a tall node (30 x 50) can still be cut vertically |
| `Bsp.CutRespectsEqualMinimum` | src/bsp.rs:145-178 | with equal minimum components, both children of a cut are at least the minimum along the cut axis |
| `Bsp.ValidCutShrinks` | src/bsp.rs:145-178 | under a safe minimum, both children of a cut are positive along the cut axis and strictly smaller than the parent (the termination measure of `generate`) |
| `Bsp.Generate` | src/bsp.rs:192-205 | keeps the region and room of the root. A node with children is left unchanged. A childless node becomes a grown tree: every internal node is a valid cut into two children, and every leaf was refused by `split`. A roomless input stays roomless |
| `Bsp.GrownLeavesAtLeastMinimum` | src/bsp.rs:192-205 | with equal minimum components, every leaf of a grown tree over a region at least the minimum is itself at least the minimum |
| `Bsp.CreateRooms` | src/bsp.rs:207-250 | keeps the tree's regions, structure and internal rooms. Gives every leaf a room whose sides lie between the minimum and the leaf's side (or exactly the minimum for a smaller leaf), and which starts inside the leaf. A roomless tree gets rooms at its leaves only |
| `Bsp.RoomFitsWithinLeaf` | src/bsp.rs:219-248 | a sampled room lies within its leaf when the leaf is at least the minimum |
| `Bsp.SameShapeKeepsGrown` | src/bsp.rs:207-250 | sampling rooms keeps every cut and leaf that `generate` produced |
| `Bsp.GetRoom` | src/bsp.rs:252-273 | the result is `None` exactly when no leaf below has a room. Otherwise it is the first room of the leaves read left to right |
| `Bsp.SampledTreeHasRoom` | src/bsp.rs:252-273 | once every leaf has a room, `get_room` finds one at every node |
| `Bsp.LeafCountPositive` | src/bsp.rs:182-190 | every tree has at least one leaf |
| `Traversal.VisitStartsAtRoot` | src/bsp.rs:286-294 | the walk yields the root first |
| `Traversal.VisitYieldsEveryNodeOnce` | src/bsp.rs:280-324 | the walk yields every node of the tree exactly once and nothing else (as multisets) |
| `Traversal.VisitLength` | src/bsp.rs:280-324 | the walk is exactly as long as the tree has nodes |
| `Traversal.LeafIterator.constructor` | src/bsp.rs:286-294 | a new iterator is consistent, and is still to yield the whole walk of the root |
| `Traversal.LeafIterator.AddLeftSubtree` | src/bsp.rs:298-307 | pushes the left child, then the right child, onto the stack and makes the node current. What remains becomes the node's walk followed by what was pending |
| `Traversal.PendingAfterPushes` | src/bsp.rs:298-304 | pushing a node's children schedules the right subtree's walk, then the left's, ahead of what was pending |
| `Traversal.LeafIterator.Next` | src/bsp.rs:313-323 | yields the first remaining node and drops it. An exhausted iterator yields `None` and stays exhausted |
| `BspMap.Stamp` | src/bsp.rs:62-67 | the stamped map has the old keys plus the room's cells. The room's cells are floor and every other cell is as before |
| `BspMap.StampPartStep` | src/bsp.rs:63-65 | one pass of the inner loop of `add_room` sets exactly one more cell of the current column to floor |
| `BspMap.StampAllCovers` | src/bsp.rs:49-59 | stamping rooms in order leaves floor on exactly the cells some room covers and every other cell unchanged |
| `BspMap.StampedFloorWithin` | src/bsp.rs:18-30 | stamping rooms that lie inside the map onto an empty map yields only floor tiles, all inside the map |
| `BspMap.OneRoomPerLeaf` | src/bsp.rs:49-54 | once every leaf has a room, the walk stamps exactly one room per leaf |
| `BspMap.LeafRoomsWithinAndApart` | src/bsp.rs:42-60 | in a grown tree whose leaves have fitting rooms and are at least the minimum, the stamped rooms lie within the tree's region and no two intersect |
| `BspMap.JoinWithinAndApart` | src/bsp.rs:83-89 | two runs of non-intersecting rooms inside two separated regions together form one run of non-intersecting rooms |
| `BspMap.BSPMap.constructor` | src/bsp.rs:22-27 | a fresh map has the given size, no tiles, no rooms and minimum room size (5, 5) |
| `BspMap.BSPMap.New` | src/bsp.rs:18-30 | fails exactly when a side is below 20. On success the map's rooms are those of the leaves of a grown tree over the whole map, in walk order, one per leaf, and there is at least one. They are pairwise non-intersecting and inside the map. The tiles are those rooms stamped onto an empty map: all floor, all inside the map |
| `BspMap.BSPMap.PlaceRooms` | src/bsp.rs:42-60 | builds a grown tree over the whole map with a fitting room at every leaf and none at internal nodes. Appends the leaves' rooms in walk order and stamps them onto the tiles |
| `BspMap.BSPMap.StampLeafRooms` | src/bsp.rs:49-59 | the `for` loop over the iterator appends the room of every leaf, in walk order, and stamps each of them onto the tiles |
| `BspMap.BSPMap.PlaceLeafRoom` | src/bsp.rs:50-54 | for one walked node: appends and stamps its room if it is a leaf with a room, and changes nothing otherwise |
| `BspMap.BSPMap.AddRoom` | src/bsp.rs:62-69 | the tiles become the old tiles with the room's cells set to floor. The room is appended to the room list. Size and minimum are unchanged |

## Left out

- `Display for BSPMap` (src/bsp.rs:326-339) is text output and is not modelled.
- `get_tiles` and `get_size` (src/bsp.rs:32-38) are plain field accessors; the model reads the fields directly.
- The `Map` trait, `Point` and `Tile` of `src/lib.rs` are not part of this model. `Point` is a pair of naturals and `Tile` is `Floor | Wall`.
- `Room::new` and `Leaf::new` are the `Room` datatype constructor and `Bsp.NewLeaf`. `Room::intersects` (src/bsp.rs:83-89) and `Leaf::is_leaf` (src/bsp.rs:182-190) are `Geometry.Room.Intersects` and `Bsp.IsLeaf`, the tests as written. These four carry no contract; the lemmas about `Intersects` have rows above.
- `StdRng` and `seed_from_u64` are not modelled. The random source is a replayable stream of draws. `GenRange` promises only its range and `GenBool` promises nothing, so the same seed is not shown to reproduce the same map.
- Random.GenBool: carries no contract, because any boolean is a possible coin flip.
- Floating point: the aspect test `x as f32 / y as f32 >= 1.25` becomes `4x >= 5y`. They agree when the width is below 2^24 and the height below 2^22. From a height of 2^22 on, a quotient just below 1.25 rounds up to 1.25 in `f32`; for example 5242881 / 4194305 does. The `f32` differences of `split` and `create_rooms` become integer differences, exact for sizes below 2^24.
- Bsp.Split: requires `NoUnderflow`. The `usize` subtraction `size - split` underflows when the offset falls back to a cross-axis minimum larger than the side being cut. A build with overflow checks panics there; a release build wraps and makes a huge child. The map's (5, 5) minimum never does this.
- Integer width: `usize` is unbounded here. The additions of positions and sizes (src/bsp.rs:65, 166, 175, 246) never wrap in the model, while in the source they overflow only for coordinates near 2^64.
- Bsp.Generate: requires `SafeMinimum` (both components positive, neither more than twice the other), which the source does not demand. With a zero component the source can recurse forever, and with very unequal components it can underflow. The map always passes (5, 5).
- BspMap.BSPMap.PlaceRooms: requires `SafeMinimum` for the same reason.
- Geometry.IntersectsIffSharedCell: requires non-zero sizes. A zero-width room strictly inside another passes the test while sharing no cell.
- The `&mut self` updates of `Leaf` are modelled as methods that return the new node. A `Leaf` owns its children through `Box`, so no other reference can observe the difference.
- `LeafIterator` holds subtree values rather than `&Leaf` references. "Every node exactly once" is therefore stated over a multiset of subtree values.
- The corridor code is commented out in the source and is not modelled.
- The code has no maximum room size, and it places no walls or corridors.
- The walk yields a node's right subtree before its left subtree.
- The test comment at src/bsp.rs:387 says tall nodes get a horizontal cut. The branch meant to force it is dead, as `Bsp.TallLeafMayCutVertically` shows.
