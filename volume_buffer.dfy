/**
 * `VolumeData`: a cube of cells centred on the viewer, filled from the
 * world before a visibility pass, with the neighbour-delta tables built
 * once by the constructor.
 */
module VolumeBuffer {
  import opened CellValues
  import opened Directions
  import opened Geometry
  import opened VolumeIndex

  /** `CellToVisit` as a plain record; its 64-bit union view is not modelled. */
  datatype CellToVisit = CellToVisit(index: int, cell: Cell, dir: DirEx)

  /** `k` lies in one of the first `rows` rows of `dx` cells, rows `r` apart, starting at `base`. */
  predicate InRows(k: int, base: int, r: int, dx: int, rows: int)
    requires r > 0
  {
    base <= k && (k - base) / r < rows && (k - base) % r < dx
  }

  /** The layer cell that a block copy with source rows `stripe` apart puts at `k`. */
  function RowSource(k: int, base: int, r: int, stripe: int): int
    requires r > 0
  {
    (k - base) / r * stripe + (k - base) % r
  }

  lemma DivMod(i: int, d: int)
    requires d > 0
    ensures i == i / d * d + i % d && 0 <= i % d < d
  {
  }

  /** Row `z` of a block: `k` is in row `z` exactly when it is `base + z * r + x` with `x < dx`. */
  lemma InRowsStep(k: int, base: int, r: int, dx: int, z: int)
    requires r > 0 && 0 <= dx <= r && 0 <= z
    ensures InRows(k, base, r, dx, z + 1) <==>
              InRows(k, base, r, dx, z) || base + z * r <= k < base + z * r + dx
    ensures base + z * r <= k < base + z * r + dx ==>
              (k - base) / r == z && (k - base) % r == k - (base + z * r)
  {
    if base + z * r <= k < base + z * r + dx {
      DivModUnique(k - base, z, k - (base + z * r), r);
    }
    if base <= k {
      DivMod(k - base, r);
      var q := (k - base) / r;
      if q == z && (k - base) % r < dx {
        assert k == base + z * r + (k - base) % r;
      }
    }
  }

  /** The `directionDelta` loop of the constructor, for rows of `r` cells. */
  method DirectionDeltaTable(r: int) returns (t: seq<int>)
    ensures |t| == 64 && forall m: DirMask :: t[m] == MaskDelta(r, m)
  {
    var dd := new int[64];
    for i := 0 to 64
      invariant forall m: DirMask :: m < i ==> dd[m] == MaskDelta(r, m)
    {
      var delta: int := 0;
      if HasDir(i, NORTH) {
        delta := delta - 1;
      }
      if HasDir(i, SOUTH) {
        delta := delta + 1;
      }
      if HasDir(i, WEST) {
        delta := delta - r;
      }
      if HasDir(i, EAST) {
        delta := delta + r;
      }
      if HasDir(i, UP) {
        delta := delta + r * r;
      }
      if HasDir(i, DOWN) {
        delta := delta - r * r;
      }
      MaskDeltaUnfolded(r, i);
      dd[i] := delta;
    }
    t := dd[..];
  }

  /** The `directionExDelta` loop: each `DirEx` looks up the delta of its `DIR_TO_MASK` entry. */
  method DirectionExDeltaTable(r: int, dd: seq<int>) returns (t: seq<int>)
    requires |dd| == 64 && forall m: DirMask :: dd[m] == MaskDelta(r, m)
    ensures |t| == DIR_MAX && forall d: DirEx :: t[d] == DirExDelta(r, d)
  {
    var ed := new int[DIR_MAX];
    for d := 0 to DIR_MAX
      invariant forall e: DirEx :: e < d ==> ed[e] == DirExDelta(r, e)
    {
      ed[d] := dd[DIR_TO_MASK[d]];
    }
    t := ed[..];
  }

  /** Slot `i` of a `mainDirectionDeltas` row for `d`, read off the `directionExDelta` table `ex`. */
  function MainDeltaFrom(ex: seq<int>, d: Dir, i: nat): int
    requires |ex| == DIR_MAX && i < 9
  {
    if i == 0 then ex[d] else ex[d] + ex[NEAR_DIRECTIONS_FOR[8 * d + i - 1]]
  }

  /** Slot `i` of a `mainDirectionDeltasNoForward` row for `d`, read off `ex`. */
  function MainDeltaNoForwardFrom(ex: seq<int>, d: Dir, i: nat): int
    requires |ex| == DIR_MAX && i < 9
  {
    if i == 0 then 0 else ex[NEAR_DIRECTIONS_FOR[8 * d + i - 1]]
  }

  /** Built from a correct `directionExDelta` table, the no-forward table holds `MainDeltaNoForward`. */
  lemma MainDeltaNoForwardFromTable(r: int, ex: seq<int>, d: Dir, i: nat)
    requires |ex| == DIR_MAX && forall e: DirEx :: ex[e] == DirExDelta(r, e)
    requires i < 9
    ensures MainDeltaNoForwardFrom(ex, d, i) == MainDeltaNoForward(r, d, i)
  {
    if i > 0 {
      var near := NEAR_DIRECTIONS_FOR[8 * d + i - 1];
      assert ex[near] == DirExDelta(r, near);
    }
  }

  /** Built from a correct `directionExDelta` table, the main table holds `MainDelta`. */
  lemma MainDeltaFromTable(r: int, ex: seq<int>, d: Dir, i: nat)
    requires |ex| == DIR_MAX && forall e: DirEx :: ex[e] == DirExDelta(r, e)
    requires i < 9
    ensures MainDeltaFrom(ex, d, i) == MainDelta(r, d, i)
  {
    MainDeltaNoForwardFromTable(r, ex, d, i);
    assert ex[d] == DirExDelta(r, d);
  }

  /** `row` is the `mainDirectionDeltas` row for `d` read off `ex`. */
  predicate IsMainRow(ex: seq<int>, d: Dir, row: seq<int>)
    requires |ex| == DIR_MAX
  {
    |row| == 9 && forall i: nat :: i < 9 ==> row[i] == MainDeltaFrom(ex, d, i)
  }

  /** `row` is the `mainDirectionDeltasNoForward` row for `d` read off `ex`. */
  predicate IsNoForwardRow(ex: seq<int>, d: Dir, row: seq<int>)
    requires |ex| == DIR_MAX
  {
    |row| == 9 && forall i: nat :: i < 9 ==> row[i] == MainDeltaNoForwardFrom(ex, d, i)
  }

  /**
   * The inner `mainDirectionDeltas` loop for the facing `d`: slot 0 is the
   * forward delta and slot `1 + i` the forward delta plus that of the
   * `i`-th near direction; the no-forward row has 0 and the bare near deltas.
   */
  method MainDeltaRow(ed: seq<int>, d: Dir) returns (row: seq<int>, rowNoForward: seq<int>)
    requires |ed| == DIR_MAX
    ensures IsMainRow(ed, d, row) && IsNoForwardRow(ed, d, rowNoForward)
  {
    var forward := ed[d];
    row, rowNoForward := [forward], [0];
    for i := 0 to 8
      invariant |row| == i + 1 && |rowNoForward| == i + 1
      invariant forall j: nat :: j < |row| ==> row[j] == MainDeltaFrom(ed, d, j)
      invariant forall j: nat :: j < |rowNoForward| ==> rowNoForward[j] == MainDeltaNoForwardFrom(ed, d, j)
    {
      var near := NEAR_DIRECTIONS_FOR[8 * d + i];
      row, rowNoForward := row + [forward + ed[near]], rowNoForward + [ed[near]];
    }
  }

  /** The outer `mainDirectionDeltas` loop: one row per facing. */
  method MainDeltaTables(ed: seq<int>) returns (main: seq<seq<int>>, noForward: seq<seq<int>>)
    requires |ed| == DIR_MAX
    ensures |main| == 6 && |noForward| == 6
    ensures forall d: Dir :: IsMainRow(ed, d, main[d]) && IsNoForwardRow(ed, d, noForward[d])
  {
    main, noForward := [], [];
    for d := 0 to 6
      invariant |main| == d && |noForward| == d
      invariant forall e: Dir :: e < d ==> IsMainRow(ed, e, main[e]) && IsNoForwardRow(ed, e, noForward[e])
    {
      var row, rowNoForward := MainDeltaRow(ed, d);
      main, noForward := main + [row], noForward + [rowNoForward];
    }
  }

  /** Writing the cell of one point of the cube changes what every other point reads by nothing. */
  lemma PutThenGet(m: int, s: seq<Cell>, v: Vector3d, w: Vector3d, c: Cell)
    requires m >= 1 && |s| == (2 * m) * (2 * m) * (2 * m) && InCube(m, v) && InCube(m, w)
    ensures 0 <= PackIndex(m, v) < |s| && 0 <= PackIndex(m, w) < |s|
    ensures s[PackIndex(m, v) := c][PackIndex(m, w)] == if w == v then c else s[PackIndex(m, w)]
  {
    var i, j := PackIndex(m, v), PackIndex(m, w);
    assert 0 <= i < |s| && 0 <= j < |s| by {
      PackUnpack(m, v);
      PackUnpack(m, w);
    }
    assert w != v ==> i != j by {
      PackInjective(m, v, w);
    }
  }

  /**
   * `putLayer` writes cell `(x, z)` of the layer, at `z * stripe + x`, to the
   * zero-based point `(v.x + x, v.y, v.z + z)`, for `x < dx` and `z < dz`.
   */
  lemma PutLayerTarget(r: int, v: Vector3d, dx: int, dz: int, stripe: int, x: int, z: int)
    requires r > 0 && 0 <= x < dx <= r && 0 <= z < dz
    ensures var base := v.y * (r * r) + v.z * r + v.x;
      var k := v.y * (r * r) + (v.z + z) * r + (v.x + x);
      InRows(k, base, r, dx, dz) && RowSource(k, base, r, stripe) == z * stripe + x
  {
    var base := v.y * (r * r) + v.z * r + v.x;
    var k := v.y * (r * r) + (v.z + z) * r + (v.x + x);
    MulAddRight(v.z, z, r);
    assert k == base + z * r + x;
    DivModUnique(k - base, z, x, r);
  }

  /** `memcpy(dst, layer + src, dx)`: one row of `putLayer`. */
  method CopyRow(data: array<Cell>, dst: int, layer: seq<Cell>, src: int, dx: int)
    requires 0 <= dst && 0 <= dx && dst + dx <= data.Length
    requires 0 <= src && src + dx <= |layer|
    modifies data
    ensures forall k :: 0 <= k < data.Length ==>
              data[k] == if dst <= k < dst + dx then layer[src + (k - dst)] else old(data[k])
  {
    for x := 0 to dx
      invariant forall k :: 0 <= k < data.Length ==>
                  data[k] == if dst <= k < dst + x then layer[src + (k - dst)] else old(data[k])
    {
      data[dst + x] := layer[src + x];
    }
  }

  /** The row loop of `putLayer`: `dst` advances by `r` and the layer offset by `stripe`. */
  method CopyRows(data: array<Cell>, r: int, base: int, layer: seq<Cell>, dx: int, dz: int, stripe: int)
    requires r > 0 && 0 <= dx <= r && 0 <= dz && 0 <= stripe && 0 <= base
    requires dz == 0 || base + (dz - 1) * r + dx <= data.Length
    requires dz == 0 || (dz - 1) * stripe + dx <= |layer|
    modifies data
    ensures forall k :: InRows(k, base, r, dx, dz) ==> 0 <= RowSource(k, base, r, stripe) < |layer|
    ensures forall k :: 0 <= k < data.Length ==>
              data[k] == if InRows(k, base, r, dx, dz) then layer[RowSource(k, base, r, stripe)] else old(data[k])
  {
    var dst, src := base, 0;
    for z := 0 to dz
      invariant dst == base + z * r && src == z * stripe
      invariant forall k :: InRows(k, base, r, dx, z) ==> 0 <= RowSource(k, base, r, stripe) < |layer|
      invariant forall k :: 0 <= k < data.Length ==>
                  data[k] == if InRows(k, base, r, dx, z) then layer[RowSource(k, base, r, stripe)] else old(data[k])
    {
      MulMono(z, dz - 1, r);
      MulMono(z, dz - 1, stripe);
      MulMono(0, z, r);
      MulMono(0, z, stripe);
      ghost var before := data[..];
      CopyRow(data, dst, layer, src, dx);
      forall k | InRows(k, base, r, dx, z + 1)
        ensures 0 <= RowSource(k, base, r, stripe) < |layer|
      {
        InRowsStep(k, base, r, dx, z);
      }
      forall k | 0 <= k < data.Length
        ensures data[k] == if InRows(k, base, r, dx, z + 1) then layer[RowSource(k, base, r, stripe)] else old(data[k])
      {
        InRowsStep(k, base, r, dx, z);
        assert data[k] == if dst <= k < dst + dx then layer[src + (k - dst)] else before[k];
      }
      MulAddRight(z, 1, r);
      MulAddRight(z, 1, stripe);
      dst, src := dst + r, src + stripe;
    }
  }

  /** Row `z` of a `putLayer` block starting at the zero-based point `v` lies inside an `r`-cube. */
  lemma RowInBuffer(r: int, v: Vector3d, dx: int, z: int)
    requires r > 0 && 0 <= v.x && 0 <= dx && v.x + dx <= r
    requires 0 <= v.z && 0 <= z && v.z + z < r && 0 <= v.y < r
    ensures 0 <= v.y * (r * r) + v.z * r + v.x
    ensures v.y * (r * r) + v.z * r + v.x + z * r + dx <= r * r * r
  {
    var a := v.z + z;
    MulMono(0, v.y, r * r);
    MulMono(0, v.z, r);
    MulAddRight(v.z, z, r);
    MulMono(a + 1, r, r);
    MulAddRight(a, 1, r);
    assert a * r + v.x + dx <= r * r;
    MulMono(v.y + 1, r, r * r);
    MulAddRight(v.y, 1, r * r);
    MulAssoc(r, r, r);
  }

  /** The loop of `getNearCellsForDirection[NoForward]` over `CellToVisit[9]`. */
  method GatherToVisit(data: array<Cell>, index: int, deltas: seq<int>, direction: Dir, cells: array<CellToVisit>)
    requires |deltas| == 9 && 9 <= cells.Length
    requires forall i :: 0 <= i < 9 ==> 0 <= index + deltas[i] < data.Length
    modifies cells
    ensures forall i :: 0 <= i < 9 ==> cells[i] == CellToVisit(index + deltas[i], data[index + deltas[i]], direction)
    ensures forall i :: 9 <= i < cells.Length ==> cells[i] == old(cells[i])
  {
    for i := 0 to 9
      invariant forall j :: 0 <= j < i ==> cells[j] == CellToVisit(index + deltas[j], data[index + deltas[j]], direction)
      invariant forall j :: i <= j < cells.Length ==> cells[j] == old(cells[j])
    {
      var next := index + deltas[i];
      cells[i] := CellToVisit(next, data[next], direction);
    }
  }

  /** The loop of `getNearCellsForDirection[NoForward]` over `cell_t[9]`. */
  method GatherValues(data: array<Cell>, index: int, deltas: seq<int>, cells: array<Cell>)
    requires |deltas| == 9 && 9 <= cells.Length && cells != data
    requires forall i :: 0 <= i < 9 ==> 0 <= index + deltas[i] < data.Length
    modifies cells
    ensures forall i :: 0 <= i < 9 ==> cells[i] == data[index + deltas[i]]
    ensures forall i :: 9 <= i < cells.Length ==> cells[i] == old(cells[i])
  {
    for i := 0 to 9
      invariant forall j :: 0 <= j < i ==> cells[j] == data[index + deltas[j]]
      invariant forall j :: i <= j < cells.Length ==> cells[j] == old(cells[j])
    {
      cells[i] := data[index + deltas[i]];
    }
  }

  class VolumeData {
    const MAX_DIST_BITS: nat
    const ROW_BITS: nat
    const MAX_DIST: int
    const ROW_SIZE: int
    const DATA_SIZE: int
    const ROW_MASK: int
    /** `_data`: `DATA_SIZE` cells, indexed by `getIndex`. */
    const data: array<Cell>
    /** `directionDelta[64]`, indexed by `DirMask`. */
    const directionDelta: seq<int>
    /** `directionExDelta[26]`, indexed by `DirEx`. */
    const directionExDelta: seq<int>
    /** `mainDirectionDeltas[6][9]` */
    const mainDirectionDeltas: seq<seq<int>>
    /** `mainDirectionDeltasNoForward[6][9]` */
    const mainDirectionDeltasNoForward: seq<seq<int>>

    /** The constants the constructor derives from `MAX_DIST_BITS`, and the four delta tables. */
    ghost predicate Valid()
    {
      ROW_BITS == MAX_DIST_BITS + 1
      && MAX_DIST == Pow2(MAX_DIST_BITS) && ROW_SIZE == 2 * MAX_DIST
      && DATA_SIZE == ROW_SIZE * ROW_SIZE * ROW_SIZE && ROW_MASK == ROW_SIZE - 1
      && data.Length == DATA_SIZE
      && |directionDelta| == 64
      && (forall m: DirMask :: directionDelta[m] == MaskDelta(ROW_SIZE, m))
      && |directionExDelta| == DIR_MAX
      && (forall d: DirEx :: directionExDelta[d] == DirExDelta(ROW_SIZE, d))
      && |mainDirectionDeltas| == 6 && |mainDirectionDeltasNoForward| == 6
      && (forall d: Dir :: IsMainRow(directionExDelta, d, mainDirectionDeltas[d])
            && IsNoForwardRow(directionExDelta, d, mainDirectionDeltasNoForward[d]))
    }

    /**
     * `VolumeData(distBits)`. `distBits` is at most 9, so that
     * `DATA_SIZE = 2^(3 * distBits + 3)` fits the source's `int`.
     */
    constructor (distBits: nat)
      requires distBits <= 9
      ensures Valid() && fresh(data)
      ensures MAX_DIST_BITS == distBits && MAX_DIST == Pow2(distBits)
      ensures forall k :: 0 <= k < data.Length ==> data[k] == NO_CELL
    {
      MAX_DIST_BITS := distBits;
      ROW_BITS := distBits + 1;
      var maxDist := Pow2(distBits);
      var r := 2 * maxDist;
      MAX_DIST := maxDist;
      ROW_SIZE := r;
      DATA_SIZE := r * r * r;
      ROW_MASK := r - 1;
      data := new Cell[r * r * r];

      var dd := DirectionDeltaTable(r);
      var ed := DirectionExDeltaTable(r, dd);
      var md, mnf := MainDeltaTables(ed);
      directionDelta := dd;
      directionExDelta := ed;
      mainDirectionDeltas := md;
      mainDirectionDeltasNoForward := mnf;
      new;
      Clear();
    }

    /** `size()` */
    function Size(): (r: int)
      requires Valid()
      ensures r >= 1 && 2 * r == ROW_SIZE
    {
      MAX_DIST
    }

    /** `getIndex(v)`: the packed index of a point of the cube, which `indexToPoint` reads back. */
    function GetIndex(v: Vector3d): (i: int)
      requires Valid() && InCube(MAX_DIST, v)
      ensures 0 <= i < DATA_SIZE && IndexToPoint(i) == v
    {
      PackUnpack(MAX_DIST, v);
      PackIndex(MAX_DIST, v)
    }

    /** `indexToPoint(index)`: every index of the buffer is the packed index of one point of the cube. */
    function IndexToPoint(i: int): (v: Vector3d)
      requires Valid()
      ensures 0 <= i < DATA_SIZE ==> InCube(MAX_DIST, v) && PackIndex(MAX_DIST, v) == i
    {
      if 0 <= i < DATA_SIZE then UnpackPack(MAX_DIST, i); UnpackIndex(MAX_DIST, i)
      else UnpackIndex(MAX_DIST, i)
    }

    /** `get(v)`: the cell of a point of the cube. */
    function Get(v: Vector3d): (c: Cell)
      requires Valid() && InCube(MAX_DIST, v)
      reads data
      ensures c == data[GetIndex(v)]
    {
      data[GetIndex(v)]
    }

    /** `get(index)` */
    function GetAt(i: int): (c: Cell)
      requires 0 <= i < data.Length
      reads data
      ensures 0 <= i < DATA_SIZE && Valid() ==> c == Get(IndexToPoint(i))
    {
      data[i]
    }

    /** `put(v, cell)`: only the cell of `v` changes. */
    method Put(v: Vector3d, cell: Cell)
      requires Valid() && InCube(MAX_DIST, v)
      modifies data
      ensures data[..] == old(data[..])[GetIndex(v) := cell]
      ensures Get(v) == cell
      ensures forall w :: InCube(MAX_DIST, w) && w != v ==> Get(w) == old(Get(w))
    {
      data[GetIndex(v)] := cell;
      forall w | InCube(MAX_DIST, w)
        ensures Get(w) == if w == v then cell else old(Get(w))
      {
        PutThenGet(MAX_DIST, old(data[..]), v, w, cell);
      }
    }

    /** `put(index, cell)` */
    method PutAt(i: int, cell: Cell)
      requires 0 <= i < data.Length
      modifies data
      ensures data[..] == old(data[..])[i := cell]
    {
      data[i] := cell;
    }

    /** `moveIndex(oldIndex, DirMask)`: the index of the point one mask step away. */
    function MoveIndexMask(oldIndex: int, mask: DirMask): (i: int)
      requires Valid()
      ensures 0 <= oldIndex < DATA_SIZE ==>
                i == PackIndex(MAX_DIST, IndexToPoint(oldIndex).Add(IndexStep(mask)))
    {
      if 0 <= oldIndex < DATA_SIZE then
        MaskDeltaMovesIndex(MAX_DIST, IndexToPoint(oldIndex), mask);
        oldIndex + directionDelta[mask]
      else
        oldIndex + directionDelta[mask]
    }

    /** `moveIndex(oldIndex, DirEx)`: the index of the point one `DirEx` step away. */
    function MoveIndex(oldIndex: int, d: DirEx): (i: int)
      requires Valid()
      ensures i == MoveIndexMask(oldIndex, DIR_TO_MASK[d])
      ensures 0 <= oldIndex < DATA_SIZE ==>
                i == PackIndex(MAX_DIST, IndexToPoint(oldIndex).Add(Step(d)))
    {
      oldIndex + directionExDelta[d]
    }

    /** `getNext(index, direction, baseDir)`: the neighbour one step in `direction`, tagged with `baseDir`. */
    function GetNext(index: int, direction: DirEx, baseDir: DirEx): (c: CellToVisit)
      requires Valid() && 0 <= MoveIndex(index, direction) < data.Length
      reads data
      ensures c.index == MoveIndex(index, direction) && c.dir == baseDir
      ensures c.cell == GetAt(c.index)
    {
      var next := index + directionExDelta[direction];
      CellToVisit(next, data[next], baseDir)
    }

    /**
     * `putLayer(v, layer, dx, dz, stripe)`: `dz` rows of `dx` cells, taken from
     * `layer` `stripe` cells apart, go to consecutive rows of the buffer from
     * the zero-based point `v`; every other cell keeps its value.
     */
    method PutLayer(v: Vector3d, layer: seq<Cell>, dx: int, dz: int, stripe: int)
      requires Valid()
      requires 0 <= v.x && 0 <= dx && v.x + dx <= ROW_SIZE
      requires 0 <= v.z && 0 <= dz && v.z + dz <= ROW_SIZE
      requires 0 <= v.y < ROW_SIZE && 0 <= stripe
      requires dz == 0 || (dz - 1) * stripe + dx <= |layer|
      modifies data
      ensures var base := v.y * (ROW_SIZE * ROW_SIZE) + v.z * ROW_SIZE + v.x;
        forall k :: InRows(k, base, ROW_SIZE, dx, dz) ==> 0 <= RowSource(k, base, ROW_SIZE, stripe) < |layer|
      ensures var base := v.y * (ROW_SIZE * ROW_SIZE) + v.z * ROW_SIZE + v.x;
        forall k :: 0 <= k < data.Length ==>
          data[k] == if InRows(k, base, ROW_SIZE, dx, dz)
                     then layer[RowSource(k, base, ROW_SIZE, stripe)] else old(data[k])
    {
      var r := ROW_SIZE;
      var base := v.y * (r * r) + v.z * r + v.x;
      if dz > 0 {
        RowInBuffer(r, v, dx, dz - 1);
        MulAssoc(r, r, r);
      } else {
        MulMono(0, v.y, r * r);
        MulMono(0, v.z, r);
      }
      CopyRows(data, r, base, layer, dx, dz, stripe);
    }

    /**
     * `fillLayer(y, cell)`: every cell of level `y` becomes `cell`; when `y`
     * is outside `[-MAX_DIST, MAX_DIST)` no cell has that level and nothing changes.
     */
    method FillLayer(y: int, cell: Cell)
      requires Valid()
      modifies data
      ensures forall k :: 0 <= k < data.Length ==>
                data[k] == if IndexToPoint(k).y == y then cell else old(data[k])
    {
      var yy := y + MAX_DIST;
      var rr := ROW_SIZE * ROW_SIZE;
      if 0 <= yy && yy < ROW_SIZE {
        var start := yy * rr;
        MulMono(yy + 1, ROW_SIZE, rr);
        MulAddRight(yy, 1, rr);
        MulAssoc(ROW_SIZE, ROW_SIZE, ROW_SIZE);
        MulMono(0, yy, rr);
        for k := start to start + rr
          invariant forall j :: 0 <= j < data.Length ==> data[j] == if start <= j < k then cell else old(data[j])
        {
          data[k] := cell;
        }
        forall j | 0 <= j < data.Length
          ensures data[j] == if IndexToPoint(j).y == y then cell else old(data[j])
        {
          LevelOfIndex(MAX_DIST, j, y);
        }
      } else {
        forall j | 0 <= j < data.Length
          ensures IndexToPoint(j).y != y
        {
          UnpackPack(MAX_DIST, j);
        }
      }
    }

    /** The row of deltas that `getNearCellsForDirection[NoForward]` reads for the facing `d`. */
    function NearDeltas(d: Dir, noForward: bool): (row: seq<int>)
      requires Valid()
      ensures |row| == 9
    {
      assert IsMainRow(directionExDelta, d, mainDirectionDeltas[d]);
      assert IsNoForwardRow(directionExDelta, d, mainDirectionDeltasNoForward[d]);
      if noForward then mainDirectionDeltasNoForward[d] else mainDirectionDeltas[d]
    }

    /**
     * Slot `i` of the near-cell gather from the point `v` facing `d`: one step
     * forward and the `i`-th near step, or the near step alone without the forward step.
     */
    lemma NearDeltaMovesIndex(v: Vector3d, d: Dir, noForward: bool, i: int)
      requires Valid() && InCube(MAX_DIST, v) && 0 <= i < 9
      ensures GetIndex(v) + NearDeltas(d, noForward)[i] ==
                PackIndex(MAX_DIST, if noForward then v.Add(NearStep(d, i)) else v.Add(Step(d)).Add(NearStep(d, i)))
    {
      assert IsMainRow(directionExDelta, d, mainDirectionDeltas[d]);
      assert IsNoForwardRow(directionExDelta, d, mainDirectionDeltasNoForward[d]);
      if noForward {
        MainDeltaNoForwardFromTable(ROW_SIZE, directionExDelta, d, i);
      } else {
        MainDeltaFromTable(ROW_SIZE, directionExDelta, d, i);
      }
      MainDeltaMovesIndex(MAX_DIST, v, d, i);
    }

    /**
     * `getNearCellsForDirection(index, direction, CellToVisit[9])` and its
     * `NoForward` twin: the nine entries hold the neighbour index, the cell
     * there and the facing; the buffer is only read.
     */
    method GetNearCellsToVisit(index: int, direction: Dir, noForward: bool, cells: array<CellToVisit>)
      requires Valid() && 9 <= cells.Length
      requires forall i :: 0 <= i < 9 ==> 0 <= index + NearDeltas(direction, noForward)[i] < data.Length
      modifies cells
      ensures forall i :: 0 <= i < 9 ==>
                var next := index + NearDeltas(direction, noForward)[i];
                cells[i] == CellToVisit(next, data[next], direction)
      ensures forall i :: 9 <= i < cells.Length ==> cells[i] == old(cells[i])
    {
      GatherToVisit(data, index, NearDeltas(direction, noForward), direction, cells);
    }

    /** `getNearCellsForDirection(index, direction, cell_t[9])` and its `NoForward` twin: the nine cells alone. */
    method GetNearCellValues(index: int, direction: Dir, noForward: bool, cells: array<Cell>)
      requires Valid() && 9 <= cells.Length && cells != data
      requires forall i :: 0 <= i < 9 ==> 0 <= index + NearDeltas(direction, noForward)[i] < data.Length
      modifies cells
      ensures forall i :: 0 <= i < 9 ==> cells[i] == data[index + NearDeltas(direction, noForward)[i]]
      ensures forall i :: 9 <= i < cells.Length ==> cells[i] == old(cells[i])
    {
      GatherValues(data, index, NearDeltas(direction, noForward), cells);
    }

    /** `clear()`: every cell becomes `NO_CELL`. */
    method Clear()
      modifies data
      ensures forall k :: 0 <= k < data.Length ==> data[k] == NO_CELL
    {
      for k := 0 to data.Length
        invariant forall j :: 0 <= j < k ==> data[j] == NO_CELL
      {
        data[k] := NO_CELL;
      }
    }
  }
}
