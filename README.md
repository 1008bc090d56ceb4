# vrpg voxel world, modelled in Dafny

This project models the world core of the `vrpg` voxel game engine.

- **Cell values and directions.** A cell holds one byte (`cell_t`). There are six primary directions (`Dir`), 26 extended directions (`DirEx`) and their bit masks (`DirMask`). The model covers the turns and the opposite of a direction.
- **Integer vectors.** `Vector2d` and `Vector3d` come with their arithmetic, turns and single-step moves. A `Direction` carries the facing and its nine forward offsets. A `Position` (a viewer) projects world points onto the plane across its facing.
- **Containers.**
  - The growable `Array`.
  - The sparse `InfiniteArray`, whose negative and non-negative indices are interleaved in one buffer.
  - The `SymmetricMatrix`, a square centred on the origin.
- **`VolumeData`.** A cube of cells around a viewer, packed into one buffer with `x`, `z` and `y` as base-`ROW_SIZE` digits. It also holds the delta tables that move a packed index one step in any direction, and the nine-cell gathers ahead of a facing.
- **Chunk storage.** A `ChunkLayer` is 16 x 16 cells. A `Chunk` is a column of 256 lazily allocated layers. A `ChunkMatrix` keys chunks by chunk coordinates and tracks the bounding box of its keys.
- **The `World`.** `getCell` and `setCell` split absolute coordinates into a chunk and a local cell. `visitVisibleCells` expands ring by ring from the viewer through empty cells. In each ring it keeps at most one cell per plane coordinate across the facing.
- **Block definitions.** The block types with their visibility classes and the static table of the nine defined blocks.

The containers and the world are classes with `modifies` and `reads` frames, because the source updates them in place. Each method is proved against a function of the state: `Contents()` for `Array`, `Get` for the sparse containers, and `GetCell` for the world. The lemmas beside the methods state what the source relies on. These include:

- the packing of the cube is a bijection, and each table delta moves an index exactly one point step;
- the interleaving of the `InfiniteArray` is a bijection;
- a `setCell` changes only the cells that share its column and layer;
- `visitVisibleCells` ends with exactly the ring that a pure, heap-free definition of the expansion (`Ring`) gives, and every ring holds only empty cells on pairwise distinct plane coordinates.

Coordinates are unbounded integers. The source's shifts and masks (`x >> 4`, `x & 15`, `y & 255`) are written as Euclidean division and remainder. These match the arithmetic shift and two's-complement masking for negative values too.

The source is split across two versions of the world header. `VRPG/world.h` holds the `World` whose `getCell` and `setCell` have bodies. `VRPG/src/world.h` holds the chunk classes and the `World` that `visitVisibleCells` belongs to. The model joins them into one `World`.

## Model

| member | source | states |
|---|---|---|
| Directions.OppositePairs | VRPG/src/worldtypes.h:447-450 | `opposite` is an involution without fixed points that pairs NORTH with SOUTH, WEST with EAST and UP with DOWN |
| Directions.TurnLeftRightInverse | VRPG/src/worldtypes.h:452-486 | on the horizontal directions `turnLeft` and `turnRight` undo each other |
| Directions.TurnsStayHorizontal | VRPG/src/worldtypes.h:452-486 | turning left or right always yields a horizontal direction, vertical facings included |
| Directions.PrimaryMaskIsBit | VRPG/src/worldtypes.h:58-65 | `DIR_TO_MASK` of a primary direction is its own bit, and holds no other primary direction |
| Geometry.TurnsCancel | VRPG/src/worldtypes.h:274-285 | `turnLeft`/`turnRight` and `turnUp`/`turnDown` on a vector undo each other |
| Geometry.FourLeftTurns | VRPG/src/worldtypes.h:274-285 | four left turns are the identity; left and up turns preserve the dot product (they are rotations) |
| Geometry.MoveOneStep | VRPG/src/worldtypes.h:286-311 | `move` along a primary direction changes one coordinate by one; any other `DirEx` leaves the vector unchanged |
| Geometry.MoveThenOpposite | VRPG/src/worldtypes.h:286-311 | a move followed by a move the opposite way returns to the start |
| Geometry.PlaneCoordsAreProjection | VRPG/src/worldtypes.h:586-603 | a step along the facing keeps the plane coordinate and deepens by one; plane coordinate and depth together determine the point |
| Geometry.PlaneCoordsLinear | VRPG/src/worldtypes.h:586-603 | the plane projection is additive |
| Geometry.Position.constructor | VRPG/src/worldtypes.h:583-585 | a position holds the given point and direction |
| Geometry.Position.Copy | VRPG/src/worldtypes.h:580-582 | the copy constructor copies point and direction |
| Geometry.Position.Forward | VRPG/src/worldtypes.h:616-618 | `forward(step)` moves the point `step` times the forward vector and keeps the direction |
| Geometry.Position.Backward | VRPG/src/worldtypes.h:619-621 | `backward(step)` moves the point back the same way and keeps the direction |
| Geometry.ForwardBackwardCancel | VRPG/src/worldtypes.h:616-621 | `backward(step)` undoes `forward(step)` |
| Memory.Realloc | VRPG/src/worldtypes.h:342 | `realloc` returns a fresh block of the new size that keeps the old contents as its prefix |
| GrowableArrays.Doubled | VRPG/src/worldtypes.h:339-341 | doubling a capacity until it fits `n` ends at least at `n`, never below the start, and below `2n` unless no doubling was needed |
| GrowableArrays.Array.constructor | VRPG/src/worldtypes.h:322-324 | a new array is empty |
| GrowableArrays.Array.Swap | VRPG/src/worldtypes.h:328-334 | two arrays exchange buffers, capacities and contents |
| GrowableArrays.Array.Reserve | VRPG/src/worldtypes.h:336-347 | contents are kept and capacity reaches `length + sz`; when growth is needed the new capacity is the least power of two from 1024 up that fits |
| GrowableArrays.Array.Append | VRPG/src/worldtypes.h:351-355 | the contents gain `value` at the end |
| GrowableArrays.Array.AppendNoCheck | VRPG/src/worldtypes.h:356-358 | with room left, the contents gain `value` at the end in the same buffer |
| GrowableArrays.Array.AppendCount | VRPG/src/worldtypes.h:359-364 | the contents gain `count` copies of `value` (none when `count <= 0`); returns the old length |
| GrowableArrays.Array.Clear | VRPG/src/worldtypes.h:365-367 | the contents become empty and the buffer is kept |
| GrowableArrays.Array.Get | VRPG/src/worldtypes.h:368-370 | reading an index below the length yields that element of the contents |
| GrowableArrays.Array.Set | VRPG/src/worldtypes.h:371-373 | writing below the length replaces that element; writing beyond it changes no element of the contents |
| InfiniteArrays.ZigZagBijection | VRPG/src/worldtypes.h:413-414 | the slot formula `index < 0 ? -2*index - 1 : 2*index` is a bijection from integers onto naturals |
| InfiniteArrays.ZigZagWithin | VRPG/src/worldtypes.h:420-429 | an index between `minIdx` and `maxIdx` has a slot no larger than that of one of the bounds |
| InfiniteArrays.InfiniteArray.constructor | VRPG/src/worldtypes.h:431-432 | a new array reads `initValue` at every index and has the empty range `[0, 0)` |
| InfiniteArrays.InfiniteArray.Get | VRPG/src/worldtypes.h:425-430 | an index outside `[minIdx, maxIdx)` reads `initValue` |
| InfiniteArrays.InfiniteArray.Resize | VRPG/src/worldtypes.h:394-405 | capacity reaches the request and never shrinks, the old slots are kept, and every index reads as before |
| InfiniteArrays.InfiniteArray.Set | VRPG/src/worldtypes.h:413-424 | afterwards `get(index)` is `value`, every other index reads as before, and the range grows to cover `index` |
| SymmetricMatrices.RowMajorSlot | VRPG/src/worldtypes.h:192-197 | the slot `(x + dx2) * dx + (y + dx2)` lies in the buffer and is injective over the square |
| SymmetricMatrices.SymmetricMatrix.constructor | VRPG/src/worldtypes.h:185-187 | a new matrix of size `sz` spans exactly `[-(sz-1), sz-1]` on both axes, all `initValue` |
| SymmetricMatrices.SymmetricMatrix.Set | VRPG/src/worldtypes.h:195-197 | the written coordinate reads `value`, every other one reads as before |
| SymmetricMatrices.SymmetricMatrix.Reset | VRPG/src/worldtypes.h:201-212 | after `reset(sz)` the matrix spans exactly size `sz` and every entry is `initValue` |
| VolumeIndex.PackUnpack | VRPG/src/worldtypes.h:693-701 | `getIndex` of a point of the cube is inside the buffer and `indexToPoint` recovers the point |
| VolumeIndex.UnpackPack | VRPG/src/worldtypes.h:693-701 | every buffer index is the `getIndex` of the point `indexToPoint` gives, which lies in the cube |
| VolumeIndex.PackInjective | VRPG/src/worldtypes.h:693-695 | distinct points of the cube have distinct indices |
| VolumeIndex.LevelOfIndex | VRPG/src/worldtypes.cpp:87-93 | an index has level `y` exactly when it lies in slice `y + MAX_DIST`, the block `fillLayer` writes |
| VolumeIndex.MaskDeltaUnfolded | VRPG/src/worldtypes.cpp:52-67 | `directionDelta[mask]` is the sum of -1, +1, -ROW_SIZE, +ROW_SIZE, +ROW_SIZE², -ROW_SIZE² over the bits set |
| VolumeIndex.MaskDeltaIsStep | VRPG/src/worldtypes.cpp:52-67 | each mask delta is the packed form of the mask's point step |
| VolumeIndex.MaskDeltaMovesIndex | VRPG/src/worldtypes.h:703-705 | adding `directionDelta[mask]` to the index of a point gives the index of the point one mask step away |
| VolumeIndex.MainDeltaMovesIndex | VRPG/src/worldtypes.cpp:70-77 | slot `i` of `mainDirectionDeltas[d]` moves an index one step forward then along the `i`-th near direction; the no-forward table omits the forward step |
| VolumeIndex.MoveIndexMatchesMove | VRPG/src/worldtypes.h:707-709 | `moveIndex(i, d)` reaches the index of `move` in a paired direction, which is `d` itself only for UP and DOWN |
| VolumeIndex.HorizontalIndexStepDiffersFromMove | VRPG/src/worldtypes.cpp:54-61 | for the four horizontal directions the index step and `Vector3d::move` never agree |
| VolumeIndex.OppositeDeltaNegates | VRPG/src/worldtypes.cpp:68-69 | the delta of the opposite direction is the negated delta |
| VolumeBuffer.DirectionDeltaTable | VRPG/src/worldtypes.cpp:52-67 | the 64-entry loop fills `directionDelta[m]` with the mask delta of `m` |
| VolumeBuffer.DirectionExDeltaTable | VRPG/src/worldtypes.cpp:68-69 | `directionExDelta[d]` is the mask delta of `DIR_TO_MASK[d]` |
| VolumeBuffer.MainDeltaNoForwardFromTable | VRPG/src/worldtypes.cpp:73-76 | a no-forward row read off a correct `directionExDelta` holds the near deltas |
| VolumeBuffer.MainDeltaFromTable | VRPG/src/worldtypes.cpp:72-75 | a main row read off a correct `directionExDelta` holds the forward delta plus the near deltas |
| VolumeBuffer.MainDeltaRow | VRPG/src/worldtypes.cpp:71-77 | the inner loop builds the main and no-forward rows of facing `d` |
| VolumeBuffer.MainDeltaTables | VRPG/src/worldtypes.cpp:70-84 | the outer loop builds one main and one no-forward row per facing |
| VolumeBuffer.PutThenGet | VRPG/src/worldtypes.h:671-686 | a `put` at one point of the cube changes what only that point reads |
| VolumeBuffer.PutLayerTarget | VRPG/src/worldtypes.cpp:4-15 | cell `(x, z)` of the copied block lands at `base + z * ROW_SIZE + x` and comes from `z * stripe + x` |
| VolumeBuffer.CopyRow | VRPG/src/worldtypes.cpp:8 | one `memcpy` row: the `dx` cells from `dst` take the layer cells from `src`, and nothing else changes |
| VolumeBuffer.CopyRows | VRPG/src/worldtypes.cpp:7-15 | the `dz` rows, `ROW_SIZE` apart, take layer rows `stripe` apart, and nothing else changes |
| VolumeBuffer.RowInBuffer | VRPG/src/worldtypes.cpp:5-13 | every copied row of a block that fits the cube lies inside the buffer |
| VolumeBuffer.GatherToVisit | VRPG/src/worldtypes.cpp:95-127 | the nine entries hold neighbour index, cell and facing; entries past nine are untouched |
| VolumeBuffer.GatherValues | VRPG/src/worldtypes.cpp:129-138 | the nine entries hold the neighbour cells; entries past nine are untouched |
| VolumeBuffer.VolumeData.constructor | VRPG/src/worldtypes.cpp:44-85 | the derived sizes and the four delta tables are correct, and the buffer is all `NO_CELL` |
| VolumeBuffer.VolumeData.Size | VRPG/src/worldtypes.h:665 | `size()` is half the row size |
| VolumeBuffer.VolumeData.GetIndex | VRPG/src/worldtypes.h:693-695 | the index of a point of the cube is in the buffer and `indexToPoint` reads it back |
| VolumeBuffer.VolumeData.IndexToPoint | VRPG/src/worldtypes.h:697-701 | every buffer index decodes to a point of the cube whose index it is |
| VolumeBuffer.VolumeData.GetAt | VRPG/src/worldtypes.h:688-690 | `get(index)` agrees with `get(indexToPoint(index))` |
| VolumeBuffer.VolumeData.Put | VRPG/src/worldtypes.h:671-673 | afterwards `v` reads `cell` and every other point reads as before |
| VolumeBuffer.VolumeData.PutAt | VRPG/src/worldtypes.h:679-681 | only slot `index` changes |
| VolumeBuffer.VolumeData.MoveIndexMask | VRPG/src/worldtypes.h:703-705 | the result is the index of the point one mask step from the point of `oldIndex` |
| VolumeBuffer.VolumeData.MoveIndex | VRPG/src/worldtypes.h:707-709 | the same for a `DirEx` step, through `DIR_TO_MASK` |
| VolumeBuffer.VolumeData.GetNext | VRPG/src/worldtypes.h:711-714 | the neighbour's index and cell, tagged with `baseDir` |
| VolumeBuffer.VolumeData.PutLayer | VRPG/src/worldtypes.cpp:4-17 | exactly the cells of the `dz` x `dx` block from `v` take their layer cells; every other cell is kept |
| VolumeBuffer.VolumeData.FillLayer | VRPG/src/worldtypes.cpp:87-93 | exactly the cells of level `y` become `cell`; nothing changes when `y` is outside the cube |
| VolumeBuffer.VolumeData.NearDeltaMovesIndex | VRPG/src/worldtypes.cpp:95-138 | slot `i` of the gather from point `v` is the index of the point one forward step (or none) plus the `i`-th near step away |
| VolumeBuffer.VolumeData.GetNearCellsToVisit | VRPG/src/worldtypes.cpp:95-127 | the nine `CellToVisit` entries hold the neighbour index, its cell and the facing |
| VolumeBuffer.VolumeData.GetNearCellValues | VRPG/src/worldtypes.cpp:129-138 | the nine cells are the neighbour cells |
| VolumeBuffer.VolumeData.Clear | VRPG/src/worldtypes.h:666-668 | every cell becomes `NO_CELL` |
| ChunkStorage.LayerSlotBijective | VRPG/src/world.h:29-36 | the slot `(z << 4) + x` maps the 16 x 16 square one to one onto the 256 cells |
| ChunkStorage.LayerOf | VRPG/src/world.h:55 | `y & 255` is a layer number |
| ChunkStorage.LayerOfWraps | VRPG/src/world.h:55 | heights 256 apart share a layer, and a negative height wraps to the top |
| ChunkStorage.ChunkLayer.constructor | VRPG/src/world.h:24-28 | a new layer is all `NO_CELL` |
| ChunkStorage.ChunkLayer.Set | VRPG/src/world.h:34-36 | only slot `(z << 4) + x` changes |
| ChunkStorage.Chunk.constructor | VRPG/src/world.h:43-46 | a new chunk has no layers |
| ChunkStorage.Chunk.Get | VRPG/src/world.h:52-59 | `NO_CELL` when layer `y & 255` is missing, otherwise that layer's cell |
| ChunkStorage.Chunk.Set | VRPG/src/world.h:60-67 | allocates the layer on first use and never frees one; exactly the cells sharing `(x & 15, y & 255, z & 255)` read `cell` afterwards |
| ChunkStorage.Store | VRPG/src/world.h:102-112 | storing adds `z` to the stripe keys |
| ChunkStorage.StoreThenLookup | VRPG/src/world.h:96-117 | after a store the key reads the stored chunk and every other key reads as before |
| ChunkStorage.StoreKeepsBox | VRPG/src/world.h:107-116 | growing the box as `set` does keeps every key inside it |
| ChunkStorage.ChunkMatrix.constructor | VRPG/src/world.h:86-88 | a new matrix has no chunk and the box `[0,0) x [0,0)` |
| ChunkStorage.ChunkMatrix.Get | VRPG/src/world.h:96-101 | null without a stripe for `z`; a chunk that is found lies inside the box |
| ChunkStorage.ChunkMatrix.Set | VRPG/src/world.h:102-117 | `get(x, z)` then returns `chunk`, other keys are unchanged, and the box grows exactly as the source grows it |
| Worlds.LocalCoord | VRPG/world.h:185-190 | `x & 15` lies in `[0, 16)` |
| Worlds.SplitCoord | VRPG/world.h:185-190 | a coordinate is its chunk coordinate times 16 plus its local coordinate, so the pair determines it |
| Worlds.NegativeCoordinates | VRPG/world.h:185-190 | negative coordinates round down: -1 is cell 15 of chunk -1 |
| Worlds.LocalFitsLayer | VRPG/world.h:190 | a local coordinate survives the chunk's `& 255` mask on `z` and its `& 15` mask on `x` |
| Worlds.World.constructor | VRPG/src/world.h:139-140 | a new world has no chunk, reads `NO_CELL` everywhere, has `maxVisibleRange` 32 and an empty chunk cache |
| Worlds.World.GetCell | VRPG/world.h:184-191 | `NO_CELL` where no chunk holds the column, otherwise that chunk's cell |
| Worlds.World.ChunkAt | VRPG/world.h:193-199 | returns the chunk of the column, created and registered when missing; no cell of the world changes |
| Worlds.World.WriteColumn | VRPG/world.h:200 | writing through the column's chunk changes exactly the cells of that column whose heights share the layer of `y` |
| Worlds.World.SetCell | VRPG/world.h:192-201 | the column gets a chunk that is reused afterwards; exactly the cells of that column whose heights share the layer of `y` read `value`; nothing else changes |
| Worlds.RegisterKeepsValid | VRPG/world.h:196-199 | registering a fresh empty chunk at an empty key keeps the world well formed and every cell as it was |
| Worlds.WriteKeepsValid | VRPG/world.h:200 | a write through a registered chunk keeps the world well formed and changes only the written column and layer |
| Worlds.ValidIsReadable | VRPG/world.h:184-191 | a well-formed world can be read at every point |
| Worlds.CellKept | VRPG/src/world.cpp:32 | reading a cell does not depend on storage outside the world |
| Visibility.VisitedSize | VRPG/src/worldtypes.h:201-205 | the matrix size for range `r` admits exactly the plane coordinates within `r` |
| Visibility.VisitedSizeAsWritten | VRPG/src/world.cpp:14-15 | the size the source passes admits only the coordinates within `r - 1` |
| Visibility.AsWrittenMissesFirstRange | VRPG/src/world.cpp:14-15 | with that size, range 1 facing NORTH puts the forward-left cell at slot -1 |
| Visibility.ShowsIsSceneOf | VRPG/src/world.cpp:31-32 | a scene agrees with `getCell` point by point, and with the viewer's point and facing, exactly when it is the scene of the world |
| Visibility.ChainIsRing | VRPG/src/world.cpp:44-51 | in a sequence of wavefronts that starts at the viewer's cell and where each follows the one before, element `k` is ring `k` |
| Visibility.AdmitAllConcat | VRPG/src/world.cpp:47-50 | offering points in two batches, one after the other, is offering them all in order |
| Visibility.AdmitAllSound | VRPG/src/world.cpp:30-38 | offering points only appends to the wavefront, appends only offered points with empty cells, leaves the plane coordinate of every offered empty point taken, and keeps plane coordinates distinct |
| Visibility.RingSound | VRPG/src/world.cpp:45-50 | ring `r` holds only empty cells ahead of ring `r - 1`; every empty point ahead of ring `r - 1` has its plane coordinate taken by ring `r`; no two cells of the ring share one |
| Visibility.CandidateIsAhead | VRPG/src/world.cpp:19-29 | every point offered from a wavefront is one of its cells plus one of the nine forward offsets |
| Visibility.AheadIsCandidate | VRPG/src/world.cpp:19-29 | every cell of a wavefront plus every forward offset is offered |
| Visibility.CandidatesAreAhead | VRPG/src/world.cpp:19-29 | both directions together: the offered points are exactly the cells shifted by a forward offset |
| Visibility.OffsetStaysInRange | VRPG/src/world.cpp:45-50 | a forward offset from a cell within range `r - 1` lands within range `r` |
| Visibility.CandidatesWithinRange | VRPG/src/world.cpp:19-29 | every point offered from cells within `r - 1` of the viewer lies within `r` |
| Visibility.NextRingWithinRange | VRPG/src/world.cpp:45-50 | the wavefront built from one lying within `r - 1` of the viewer lies within `r` |
| Visibility.RingWithinRange | VRPG/src/world.cpp:45-51 | every cell of ring `r` lies within `r` of the viewer across the facing |
| Visibility.RingIsWavefront | VRPG/src/world.cpp:45-51 | ring `r >= 1` holds only empty cells, within `r` of the viewer, on pairwise distinct plane coordinates |
| Visibility.VisitorHelper.constructor | VRPG/src/world.cpp:11-13 | both wavefronts empty, bound to the given world and position |
| Visibility.VisitorHelper.NewRange | VRPG/src/world.cpp:14-18 | the current wavefront becomes the previous one, the current one empties, and `visited` spans the new size, all unmarked |
| Visibility.VisitorHelper.NeedVisit | VRPG/src/world.cpp:30-38 | admits `newpt` exactly when its cell is empty and its plane coordinate unmarked; then appends it and marks exactly that coordinate; when the marks match the wavefront, the new wavefront is what `Admit` gives |
| Visibility.VisitorHelper.AheadFits | VRPG/src/world.cpp:19-32 | with `visited` sized for range `r + 1`, every point ahead of a cell within `r` of the viewer has its mark inside the matrix |
| Visibility.VisitorHelper.OfferedPrefixes | VRPG/src/world.cpp:19-38 | point by point: each point joins exactly when its cell is empty and its plane coordinate is neither marked nor taken by a point that joined before it |
| Visibility.VisitorHelper.OfferedSound | VRPG/src/world.cpp:19-38 | the points that join come from the offered ones, have empty cells and unmarked coordinates, cover the coordinate of every offered empty point not already marked, and have distinct coordinates |
| Visibility.VisitorHelper.OfferedIsAdmitAll | VRPG/src/world.cpp:19-38 | when the marks are exactly the wavefront's coordinates, the points that join are those `AdmitAll` appends |
| Visibility.VisitorHelper.OfferedExtendsRing | VRPG/src/world.cpp:47-50 | `planVisits` from cell `i` extends what the cells before it admitted to what the cells up to it admit |
| Visibility.VisitorHelper.PlanVisits | VRPG/src/world.cpp:19-29 | the wavefront gains exactly the points `Offered` names, in order; exactly their plane coordinates are newly marked; the wavefront invariant is kept |
| Visibility.PlanAll | VRPG/src/world.cpp:47-50 | after `planVisits` from every cell of `oldcells` in order, the wavefront is the ring that follows `oldcells` |
| Visibility.ExpandRing | VRPG/src/world.cpp:45-50 | one pass of the range loop: the new wavefront is the ring that follows the previous one, and lies one step further from the viewer |
| Visibility.VisitVisibleCells | VRPG/src/world.cpp:41-52 | the last wavefront is exactly ring `maxVisibleRange - 1` of the world seen from the viewer (the viewer's own cell when `maxVisibleRange <= 1`); its cells are empty, within `maxVisibleRange - 1` of the viewer across the facing, on pairwise distinct plane coordinates |
| Visibility.LastRingInWorld | VRPG/src/world.cpp:44-51 | the wavefront the range loop ends with is ring `maxVisibleRange - 1`, stated in the world's terms |
| Visibility.RingInWorld | VRPG/src/world.cpp:30-38 | ring `r >= 1` of the world's scene holds cells that `getCell` reads as `NO_CELL`, within `r` of the viewer, with distinct `calcPlaneCoords` |
| Visibility.AdmitKeepsWavefront | VRPG/src/world.cpp:32-35 | admitting an empty cell on a free coordinate and marking it keeps the wavefront invariant |
| Visibility.AdmitFollowsRule | VRPG/src/world.cpp:30-38 | when the marks are exactly the wavefront's coordinates, one `needVisit` extends the wavefront as `Admit` says and keeps the marks matching |
| Blocks.BlockDef.CanPass | VRPG/src/blocks.h:34-45 | `canPass()` holds exactly when `isOpaque()` does not |
| Blocks.DefaultBlockDef | VRPG/src/blocks.h:29-30 | the default block is the empty, invisible block id 0 with texture 0, and it can be seen through |
| Blocks.BlockDefs | VRPG/src/blocks.cpp:3-13 | 256 entries: the nine defined blocks, then default entries |
| Blocks.CanPassTable | VRPG/src/blocks.h:51-52 | entry `i` holds exactly when block `i` is not opaque |
| Blocks.OpaqueTable | VRPG/src/blocks.h:53-54 | entry `i` holds exactly when block `i` cannot be seen through |
| Blocks.TablesAreComplements | VRPG/src/blocks.h:51-54 | the two fast-lookup tables disagree at every entry |
| Blocks.DefinedIdsAndTextures | VRPG/src/blocks.cpp:4-12 | entry `i` has id `i`, and texture `i - 1` except for the empty block |
| Blocks.OpaqueExactlyDefinedSolids | VRPG/src/blocks.cpp:3-13 | exactly block types 1 to 8 are opaque; 0 and every undefined entry can be seen through |

## Left out

- `Direction::set`: it is declared but has no body, so a `Direction`'s nine offsets are plain values. For the same reason `Direction::turnLeft`/`turnRight`/`turnUp`/`turnDown` and the `Position` turns are not modelled, and the `Position` constructor takes a `Direction` rather than a vector.
- Visibility.VisitVisibleCells requires `OffsetsWithinOne`, meaning each forward offset moves the plane coordinate by at most one. That is what the undefined `Direction::set` would have to supply.
- `VolumeData::getNear` and `VolumeData::getNearCells` are declared without a body. The `UPDATE_CELL` macro that only `getNear` would use is left out too.
- `CellToVisit` is a plain record. Its packed 64-bit union view and the `lUInt64` assignments are not modelled.
- `mainDirectionDeltasNoForward` is used by the constructor and by `getNearCellsForDirectionNoForward`, but the header never declares it. The model gives `VolumeData` that field.
- VolumeBuffer.VolumeData.constructor: it requires `distBits <= 9` so that `DATA_SIZE` fits a 32-bit `int`. The source checks nothing.
- `int` overflow: coordinates and indices are unbounded integers, so 32-bit wrap-around in the source is not modelled.
- Memory ownership is not modelled: destructors, `Chunk::dispose`, `disposeChunkStripe` and the dispose callback of `InfiniteArray::set`. An `InfiniteArray` slot that is overwritten is simply replaced.
- `Array::ptr` and `Array::operator[]` return raw pointers into the buffer. They are not modelled; `Get` and `Set` cover element access.
- InfiniteArrays.InfiniteArray: this is the version in `VRPG/src/worldtypes.h`. The older, unused copy in `VRPG/world.h` (lines 20-70) is not modelled. It differs in three ways: `set` stores `maxIdx = index` instead of `index + 1` (lines 49-50); `get` returns nothing for an index inside the range (lines 52-56); and `set` grows the buffer to `idx` slots and then writes `data[idx]`, one past the end (lines 43-46).
- ChunkStorage.ChunkMatrix: the two levels of `InfiniteArray` (stripes of chunks) are kept as nested maps. The zig-zag slot layout is proved once, for `InfiniteArray` itself.
- `ChunkMatrix::minX`/`maxX`/`minZ`/`maxZ` are plain field reads, so the fields are read directly.
- `END_OF_WORLD` is 253 in `VRPG/src/worldtypes.h` and redefined as 255 in `VRPG/src/world.h`. The model uses 253; no modelled operation reads it.
- `BLOCK_DEFS` is declared as an array of pointers in `blocks.h` but defined as an array of values in `blocks.cpp`. The model follows the definition.
- `BLOCK_TYPE_CAN_PASS`, `BLOCK_TYPE_OPAQUE`, `registerBlockType` and `initBlockTypes` have no definitions. The two tables are therefore functions of a definition table. The texture, sprite and file-name constants of `blocks.h` are rendering data and are left out.
- `World`: the `lastChunkX`, `lastChunkZ` and `lastChunk` cache fields are only initialised, never used. The `camPosition` field, `getCamPosition` and `visitVisibleCellsAllDirections` are left out; the last has no body.
- `World::visitVisibleCells`: the header declares it with a `CellVisitor *` and a flag, but `world.cpp` defines a one-argument version. The model follows the definition. The `CellVisitor` callbacks are not modelled; the method returns the last ring instead.
- `VisitorHelper::distance` is never used.
- Visibility.VisitorHelper: `oldcells` and `newcells` are sequences, so the in-place buffer swap and its aliasing are not modelled.
- Visibility.VisitorHelper.PlanVisits is a loop over the nine offsets in the source's order, not nine separate calls.
- Visibility.VisitVisibleCells: with `newRange` as written, the matrix is too small for the first ring (see Findings). The model resets it to the corrected size, so it states the intended behaviour rather than the out-of-bounds read.
- The logger, `VRPG.cpp` and `VRPG.h` are rendering and application code, so they are not part of this model.

## Findings

| source | as written | input that shows it | evidently intended | confidence | as-written member | corrected member |
|---|---|---|---|---|---|---|
| VRPG/src/world.cpp:15 | `newRange(range)` calls `visited.reset(range)`. A `SymmetricMatrix` of size `range` covers plane coordinates up to `range - 1` only. | Range 1, viewer facing NORTH, `forwardLeft = (-1, 0, -1)`. The plane coordinate is `(-1, 0)` and the matrix slot is `(-1 + 0) * 1 + (0 + 0) = -1`, outside the one-cell buffer. | `visited.reset(range + 1)`, so that range `r` covers coordinates within `r` | not executed; follows from the proof | Visibility.VisitedSizeAsWritten, Visibility.AsWrittenMissesFirstRange | Visibility.VisitedSize, Visibility.VisitVisibleCells |
