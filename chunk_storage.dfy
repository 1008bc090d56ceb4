/**
 * Chunked cell storage: a `ChunkLayer` is a 16 x 16 square of cells, a
 * `Chunk` a column of 256 lazily allocated layers, and a `ChunkMatrix` a
 * sparse two-level table of chunks keyed by chunk coordinates, with the
 * bounding box of the keys it has seen.
 */
module ChunkStorage {
  import opened CellValues

  const CHUNK_DX_SHIFT: nat := 4
  const CHUNK_DX: int := 16
  const CHUNK_DX_MASK: int := 15
  const CHUNK_DY_SHIFT: nat := 8
  const CHUNK_DY: int := 256
  const CHUNK_DY_MASK: int := 255

  /** The slot `(z << CHUNK_DX_SHIFT) + x` of a layer. */
  function LayerSlot(x: int, z: int): int
  {
    z * CHUNK_DX + x
  }

  /** Inside a layer the slot is a bijection between the 16 x 16 coordinates and the 256 cells. */
  lemma LayerSlotBijective(x: int, z: int, x': int, z': int)
    requires 0 <= x < CHUNK_DX && 0 <= z < CHUNK_DX && 0 <= x' < CHUNK_DX && 0 <= z' < CHUNK_DX
    ensures 0 <= LayerSlot(x, z) < CHUNK_DX * CHUNK_DX
    ensures LayerSlot(x, z) == LayerSlot(x', z') ==> x == x' && z == z'
  {
    if LayerSlot(x, z) == LayerSlot(x', z') {
      assert (z - z') * CHUNK_DX == x' - x;
    }
  }

  /**
   * `y & CHUNK_DY_MASK`: the layer a height falls in. Heights 256 apart
   * share a layer, and a negative height wraps around to the top.
   */
  function LayerOf(y: int): (i: int)
    ensures 0 <= i < CHUNK_DY
  {
    y % CHUNK_DY
  }

  /** Heights 256 apart share a layer, and a negative height wraps around to the top. */
  lemma LayerOfWraps(y: int)
    ensures LayerOf(y + CHUNK_DY) == LayerOf(y)
    ensures 0 <= y < CHUNK_DY ==> LayerOf(y) == y
    ensures -CHUNK_DY <= y < 0 ==> LayerOf(y) == y + CHUNK_DY
  {
    var q := y / CHUNK_DY;
    assert y == q * CHUNK_DY + LayerOf(y);
    assert y + CHUNK_DY == (q + 1) * CHUNK_DY + LayerOf(y);
    if -CHUNK_DY <= y < 0 {
      assert y + CHUNK_DY == 0 * CHUNK_DY + (y + CHUNK_DY);
    }
  }

  /** `ChunkLayer`: the 256 cells of one height of a chunk. */
  class ChunkLayer {
    /** `cells[CHUNK_DX * CHUNK_DX]` */
    const cells: array<Cell>

    /** A new layer is empty. */
    constructor ()
      ensures fresh(cells) && cells.Length == CHUNK_DX * CHUNK_DX
      ensures forall k :: 0 <= k < cells.Length ==> cells[k] == NO_CELL
    {
      var a := new Cell[CHUNK_DX * CHUNK_DX];
      for x := 0 to CHUNK_DX
        invariant forall z, x' :: 0 <= z < CHUNK_DX && 0 <= x' < x ==> a[LayerSlot(x', z)] == NO_CELL
      {
        for z := 0 to CHUNK_DX
          invariant forall z', x' :: 0 <= z' < CHUNK_DX && 0 <= x' < x ==> a[LayerSlot(x', z')] == NO_CELL
          invariant forall z' :: 0 <= z' < z ==> a[LayerSlot(x, z')] == NO_CELL
        {
          a[LayerSlot(x, z)] := NO_CELL;
        }
      }
      cells := a;
      new;
      forall k | 0 <= k < cells.Length
        ensures cells[k] == NO_CELL
      {
        assert k == LayerSlot(k % CHUNK_DX, k / CHUNK_DX);
      }
    }

    /** `get(x, z)`, unchecked: the slot has to lie inside the layer. */
    function Get(x: int, z: int): (c: Cell)
      requires cells.Length == CHUNK_DX * CHUNK_DX && 0 <= LayerSlot(x, z) < CHUNK_DX * CHUNK_DX
      reads cells
      ensures c == cells[LayerSlot(x, z)]
    {
      cells[LayerSlot(x, z)]
    }

    /** `set(x, z, cell)`: only the slot of `(x, z)` changes. */
    method Set(x: int, z: int, cell: Cell)
      requires cells.Length == CHUNK_DX * CHUNK_DX && 0 <= LayerSlot(x, z) < CHUNK_DX * CHUNK_DX
      modifies cells
      ensures cells[..] == old(cells[..])[LayerSlot(x, z) := cell]
      ensures Get(x, z) == cell
    {
      cells[LayerSlot(x, z)] := cell;
    }
  }

  /** `Chunk`: a column of `CHUNK_DY` layers, each allocated on its first write. */
  class Chunk {
    /** `layers[CHUNK_DY]`, null where no cell of that height was ever written. */
    const layers: array<ChunkLayer?>
    ghost var Repr: set<object>

    ghost predicate Valid()
      reads this, Repr
    {
      this in Repr && layers in Repr && layers.Length == CHUNK_DY
      && (forall i :: 0 <= i < CHUNK_DY && layers[i] != null ==>
            layers[i] in Repr && layers[i].cells in Repr && layers[i].cells.Length == CHUNK_DX * CHUNK_DX)
      && (forall i, j :: 0 <= i < CHUNK_DY && 0 <= j < CHUNK_DY && i != j && layers[i] != null && layers[j] != null ==>
            layers[i].cells != layers[j].cells)
    }

    /** A new chunk has no layer at all. */
    constructor ()
      ensures Valid() && fresh(Repr)
      ensures forall i :: 0 <= i < CHUNK_DY ==> layers[i] == null
    {
      layers := new ChunkLayer?[CHUNK_DY](_ => null);
      new;
      Repr := {this, layers};
    }

    /**
     * `get(x, y, z)`: `NO_CELL` while layer `y & 255` is missing. The source masks
     * `z` with 255 rather than 15, so `z & 255` has to be below 16 to stay in the layer.
     */
    function Get(x: int, y: int, z: int): (c: Cell)
      requires Valid() && z % CHUNK_DY < CHUNK_DX
      reads Repr
      ensures layers[LayerOf(y)] == null ==> c == NO_CELL
      ensures layers[LayerOf(y)] != null ==>
                c == layers[LayerOf(y)].cells[LayerSlot(x % CHUNK_DX, z % CHUNK_DY)]
    {
      var layer := layers[LayerOf(y)];
      if layer == null then NO_CELL else layer.Get(x % CHUNK_DX, z % CHUNK_DY)
    }

    /**
     * `set(x, y, z, cell)`: allocates layer `y & 255` when it is missing and
     * never frees one; afterwards exactly the cells sharing `(x & 15, y & 255, z & 255)`
     * read `cell`.
     */
    method Set(x: int, y: int, z: int, cell: Cell)
      requires Valid() && z % CHUNK_DY < CHUNK_DX
      modifies Repr
      ensures Valid() && fresh(Repr - old(Repr)) && old(Repr) <= Repr
      ensures layers[LayerOf(y)] != null
      ensures old(layers[LayerOf(y)]) != null ==> layers[LayerOf(y)] == old(layers[LayerOf(y)])
      ensures forall i :: 0 <= i < CHUNK_DY && i != LayerOf(y) ==> layers[i] == old(layers[i])
      ensures forall x', y', z' :: z' % CHUNK_DY < CHUNK_DX ==>
                Get(x', y', z') == if x' % CHUNK_DX == x % CHUNK_DX && LayerOf(y') == LayerOf(y) && z' % CHUNK_DY == z % CHUNK_DY
                                   then cell else old(Get(x', y', z'))
    {
      var i := LayerOf(y);
      var layer := layers[i];
      if layer == null {
        layer := new ChunkLayer();
        layers[i] := layer;
        Repr := Repr + {layer, layer.cells};
      }
      LayerSlotBijective(x % CHUNK_DX, z % CHUNK_DY, 0, 0);
      layer.Set(x % CHUNK_DX, z % CHUNK_DY, cell);
      forall x', y', z' | z' % CHUNK_DY < CHUNK_DX
        ensures Get(x', y', z') == if x' % CHUNK_DX == x % CHUNK_DX && LayerOf(y') == LayerOf(y) && z' % CHUNK_DY == z % CHUNK_DY
                                   then cell else old(Get(x', y', z'))
      {
        LayerSlotBijective(x % CHUNK_DX, z % CHUNK_DY, x' % CHUNK_DX, z' % CHUNK_DY);
      }
    }
  }

  /** The two-level table of a `ChunkMatrix`: the stripe of each `z` that has one, and in it the chunk of each `x`. */
  type Stripes = map<int, map<int, Chunk?>>

  /** `get(x, z)` on the table: null when there is no stripe for `z` or no chunk at `x` in it. */
  function Lookup(stripes: Stripes, x: int, z: int): Chunk?
  {
    if z !in stripes then null
    else if x in stripes[z] then stripes[z][x]
    else null
  }

  /** The table after `set(x, z, chunk)`: the stripe of `z`, created empty when missing, maps `x` to `chunk`. */
  function Store(stripes: Stripes, x: int, z: int, chunk: Chunk?): (s: Stripes)
    ensures s.Keys == stripes.Keys + {z}
  {
    var stripe := if z in stripes then stripes[z] else map[];
    stripes[z := stripe[x := chunk]]
  }

  /** After a store the key reads the stored chunk and every other key reads as before. */
  lemma StoreThenLookup(stripes: Stripes, x: int, z: int, chunk: Chunk?, x': int, z': int)
    ensures Lookup(Store(stripes, x, z, chunk), x', z') ==
              if x' == x && z' == z then chunk else Lookup(stripes, x', z')
  {
    var s := Store(stripes, x, z, chunk);
    if z' != z && z' in stripes {
      assert s[z'] == stripes[z'];
    }
  }

  /** The box `[minx, maxx) x [minz, maxz)` covers every key of the table. */
  predicate BoxCovers(stripes: Stripes, minx: int, maxx: int, minz: int, maxz: int)
  {
    (forall z :: z in stripes ==> minz <= z < maxz)
    && (forall z, x :: z in stripes && x in stripes[z] ==> minx <= x < maxx)
  }

  /** Growing the box as `set` does keeps it covering the table after a store. */
  lemma StoreKeepsBox(stripes: Stripes, minx: int, maxx: int, minz: int, maxz: int, x: int, z: int, chunk: Chunk?)
    requires BoxCovers(stripes, minx, maxx, minz, maxz)
    ensures var s := Store(stripes, x, z, chunk);
      BoxCovers(s, Min(minx, x), Max(maxx, x + 1),
                if z in stripes then minz else Min(minz, z), if z in stripes then maxz else Max(maxz, z + 1))
  {
    var s := Store(stripes, x, z, chunk);
    forall z', x' | z' in s && x' in s[z']
      ensures Min(minx, x) <= x' < Max(maxx, x + 1)
    {
      if z' != z || x' != x {
        assert z' in stripes && x' in stripes[z'];
      }
    }
  }

  /**
   * `ChunkMatrix`: chunks keyed by `(x, z)`. The source keeps an
   * `InfiniteArray` of stripes per `z`, each an `InfiniteArray` of chunks per
   * `x`; here the two levels are maps, and a key that was never set reads as null.
   */
  class ChunkMatrix {
    var minx: int
    var maxx: int
    var minz: int
    var maxz: int
    var stripes: Stripes

    /** The bounding box covers every key that was set. */
    ghost predicate Valid()
      reads this
    {
      BoxCovers(stripes, minx, maxx, minz, maxz)
    }

    /** A new matrix has no stripe and the box `[0, 0) x [0, 0)`. */
    constructor ()
      ensures Valid() && stripes == map[]
      ensures minx == 0 && maxx == 0 && minz == 0 && maxz == 0
    {
      minx, maxx, minz, maxz := 0, 0, 0, 0;
      stripes := map[];
    }

    /** `get(x, z)`: a chunk that was set lies inside the box. */
    function Get(x: int, z: int): (c: Chunk?)
      reads this
      ensures z !in stripes ==> c == null
      ensures c != null && Valid() ==> minx <= x < maxx && minz <= z < maxz
    {
      Lookup(stripes, x, z)
    }

    /**
     * `set(x, z, chunk)`: creates the stripe of `z` when it is missing; `get(x, z)`
     * then returns `chunk`, every other key is unchanged, and the box grows to cover `(x, z)`.
     */
    method Set(x: int, z: int, chunk: Chunk?)
      requires Valid()
      modifies this
      ensures Valid() && Get(x, z) == chunk
      ensures forall x', z' :: (x', z') != (x, z) ==> Get(x', z') == old(Get(x', z'))
      ensures minx == Min(old(minx), x) && maxx == Max(old(maxx), x + 1)
      ensures minz == (if z in old(stripes) then old(minz) else Min(old(minz), z))
      ensures maxz == (if z in old(stripes) then old(maxz) else Max(old(maxz), z + 1))
      ensures minx <= x < maxx && minz <= z < maxz
      ensures minx <= old(minx) && old(maxx) <= maxx && minz <= old(minz) && old(maxz) <= maxz
    {
      StoreKeepsBox(stripes, minx, maxx, minz, maxz, x, z, chunk);
      forall x', z' ensures Lookup(Store(stripes, x, z, chunk), x', z') == if x' == x && z' == z then chunk else Lookup(stripes, x', z') {
        StoreThenLookup(stripes, x, z, chunk, x', z');
      }
      if z !in stripes {
        minz, maxz := Min(minz, z), Max(maxz, z + 1);
      }
      stripes := Store(stripes, x, z, chunk);
      minx, maxx := Min(minx, x), Max(maxx, x + 1);
    }
  }

  function Min(a: int, b: int): int
  {
    if a < b then a else b
  }

  function Max(a: int, b: int): int
  {
    if a < b then b else a
  }
}
