/**
 * `World`: the voxel world as a `ChunkMatrix` of chunks, addressed by
 * absolute cell coordinates that split into a chunk coordinate and a
 * coordinate local to the chunk.
 */
module Worlds {
  import opened CellValues
  import opened Geometry
  import opened ChunkStorage

  /** `x >> CHUNK_DX_SHIFT`: the arithmetic shift, which is division rounding down. */
  function ChunkCoord(x: int): int
  {
    x / CHUNK_DX
  }

  /** `x & CHUNK_DX_MASK`: the position inside the chunk, always in `[0, 16)`. */
  function LocalCoord(x: int): (l: int)
    ensures 0 <= l < CHUNK_DX
  {
    x % CHUNK_DX
  }

  /**
   * A coordinate is its chunk coordinate times 16 plus its local
   * coordinate, so the pair determines the coordinate.
   */
  lemma SplitCoord(x: int, x': int)
    ensures x == ChunkCoord(x) * CHUNK_DX + LocalCoord(x)
    ensures ChunkCoord(x) == ChunkCoord(x') && LocalCoord(x) == LocalCoord(x') ==> x == x'
  {
    assert x' == ChunkCoord(x') * CHUNK_DX + LocalCoord(x');
  }

  /** Negative coordinates round down: -1 is the last cell of chunk -1, and -16 the first. */
  lemma NegativeCoordinates()
    ensures ChunkCoord(-1) == -1 && LocalCoord(-1) == 15
    ensures ChunkCoord(-16) == -1 && LocalCoord(-16) == 0
    ensures ChunkCoord(-17) == -2 && LocalCoord(-17) == 15
  {
    SplitCoord(-1, -1);
    SplitCoord(-16, -16);
    SplitCoord(-17, -17);
  }

  /** A local coordinate stays inside a layer when the chunk masks it with 255. */
  lemma LocalFitsLayer(x: int)
    ensures LocalCoord(x) % CHUNK_DY == LocalCoord(x) && LocalCoord(x) % CHUNK_DX == LocalCoord(x)
  {
  }

  class World {
    const chunks: ChunkMatrix
    /** `maxVisibleRange`: the number of ranges the visibility expansion runs, less one. */
    var maxVisibleRange: int
    var lastChunkX: int
    var lastChunkZ: int
    var lastChunk: Chunk?
    ghost var Repr: set<object>
    ghost var Owner: map<Chunk, (int, int)>

    /**
     * Every registered chunk is valid and owned by the world; `Owner` records
     * the key each chunk is registered at, so a chunk serves one key only,
     * and distinct chunks have disjoint storage.
     */
    ghost predicate Valid()
      reads this, Repr
    {
      this in Repr && chunks in Repr && chunks.Valid()
      && KeysOwned() && ChunksOwned() && ChunksDisjoint()
    }

    /** Each registered chunk is recorded under its key. */
    ghost predicate KeysOwned()
      reads this, chunks
    {
      forall x, z :: chunks.Get(x, z) != null ==> chunks.Get(x, z) in Owner && Owner[chunks.Get(x, z)] == (x, z)
    }

    /** Each recorded chunk is valid and its storage belongs to the world. */
    ghost predicate ChunksOwned()
      reads this, Repr
    {
      forall c :: c in Owner ==>
        c in Repr && c.Repr <= Repr && this !in c.Repr && chunks !in c.Repr && c.Valid()
    }

    /** Distinct recorded chunks share no storage. */
    ghost predicate ChunksDisjoint()
      reads this, Owner.Keys
    {
      forall c, c' :: c in Owner && c' in Owner && c != c' ==> c.Repr !! c'.Repr
    }

    /**
     * What reading a cell needs: every registered chunk is valid and its
     * storage belongs to the world.
     */
    ghost predicate Readable()
      reads this, Repr
    {
      this in Repr && chunks in Repr
      && forall cx, cz :: chunks.Get(cx, cz) != null ==>
           chunks.Get(cx, cz) in Repr && chunks.Get(cx, cz).Repr <= Repr
           && chunks.Get(cx, cz) in chunks.Get(cx, cz).Repr && chunks.Get(cx, cz).Valid()
    }

    /** `World()`: no chunk, `maxVisibleRange` 32, and the chunk cache empty. */
    constructor ()
      ensures Valid() && fresh(Repr)
      ensures maxVisibleRange == 32 && lastChunkX == 1000000 && lastChunkZ == 1000000 && lastChunk == null
      ensures forall x, z :: chunks.Get(x, z) == null
      ensures forall x, y, z :: GetCell(x, y, z) == NO_CELL
    {
      chunks := new ChunkMatrix();
      maxVisibleRange := 32;
      lastChunkX := 1000000;
      lastChunkZ := 1000000;
      lastChunk := null;
      Owner := map[];
      new;
      Repr := {this, chunks};
    }

    /** The storage of the chunk registered at column `(cx, cz)`; empty when there is none. */
    ghost function ColumnRepr(cx: int, cz: int): set<object>
      reads chunks, chunks.Get(cx, cz)
    {
      var p := chunks.Get(cx, cz);
      if p == null then {} else p.Repr
    }

    /** The chunk registered at column `(cx, cz)`, if any, is valid. */
    ghost predicate ColumnValid(cx: int, cz: int)
      reads chunks, chunks.Get(cx, cz), ColumnRepr(cx, cz)
    {
      var p := chunks.Get(cx, cz);
      p == null || (p in p.Repr && p.Valid())
    }

    /**
     * `getCell(x, y, z)`: `NO_CELL` where no chunk holds the column. It reads
     * the chunk matrix and the storage of that one column only.
     */
    function GetCell(x: int, y: int, z: int): (c: Cell)
      requires ColumnValid(ChunkCoord(x), ChunkCoord(z))
      reads chunks, chunks.Get(ChunkCoord(x), ChunkCoord(z)), ColumnRepr(ChunkCoord(x), ChunkCoord(z))
      ensures chunks.Get(ChunkCoord(x), ChunkCoord(z)) == null ==> c == NO_CELL
    {
      var p := chunks.Get(ChunkCoord(x), ChunkCoord(z));
      if p == null then NO_CELL
      else
        LocalFitsLayer(z);
        p.Get(LocalCoord(x), y, LocalCoord(z))
    }

    /** `getCell(Vector3d v)` */
    function GetCellAt(v: Vector3d): (c: Cell)
      requires ColumnValid(ChunkCoord(v.x), ChunkCoord(v.z))
      reads chunks, chunks.Get(ChunkCoord(v.x), ChunkCoord(v.z)), ColumnRepr(ChunkCoord(v.x), ChunkCoord(v.z))
      ensures c == GetCell(v.x, v.y, v.z)
    {
      GetCell(v.x, v.y, v.z)
    }

    /**
     * The first half of `setCell`: the chunk registered at `(cx, cz)`, created
     * empty and registered when missing, so that no cell of the world changes.
     */
    method ChunkAt(cx: int, cz: int) returns (p: Chunk)
      requires Valid()
      modifies this, chunks
      ensures Valid() && fresh(Repr - old(Repr)) && old(Repr) <= Repr
      ensures p == chunks.Get(cx, cz)
      ensures old(chunks.Get(cx, cz)) != null ==> p == old(chunks.Get(cx, cz))
      ensures old(chunks.Get(cx, cz)) == null ==> fresh(p.Repr)
      ensures forall x', z' :: (x', z') != (cx, cz) ==> chunks.Get(x', z') == old(chunks.Get(x', z'))
      ensures forall x', y', z' :: GetCell(x', y', z') == old(GetCell(x', y', z'))
      ensures maxVisibleRange == old(maxVisibleRange)
      ensures lastChunkX == old(lastChunkX) && lastChunkZ == old(lastChunkZ) && lastChunk == old(lastChunk)
    {
      var q := chunks.Get(cx, cz);
      if q == null {
        p := new Chunk();
        chunks.Set(cx, cz, p);
        Owner := Owner[p := (cx, cz)];
        Repr := Repr + p.Repr;
        RegisterKeepsValid(this, cx, cz);
      } else {
        p := q;
      }
    }

    /**
     * The second half of `setCell`: writes `value` through the chunk already
     * registered for the column of `(x, z)`. The chunk matrix is untouched.
     */
    method WriteColumn(p: Chunk, x: int, y: int, z: int, value: Cell)
      requires Valid() && p == chunks.Get(ChunkCoord(x), ChunkCoord(z))
      modifies Repr
      ensures Valid() && fresh(Repr - old(Repr))
      ensures Owner == old(Owner) && unchanged(chunks)
      ensures forall x', y', z' ::
                GetCell(x', y', z') == if x' == x && z' == z && LayerOf(y') == LayerOf(y) then value else old(GetCell(x', y', z'))
      ensures maxVisibleRange == old(maxVisibleRange)
      ensures lastChunkX == old(lastChunkX) && lastChunkZ == old(lastChunkZ) && lastChunk == old(lastChunk)
    {
      LocalFitsLayer(z);
      p.Set(LocalCoord(x), y, LocalCoord(z), value);
      Repr := Repr + p.Repr;
      WriteKeepsValid(this, x, y, z, value);
    }

    /**
     * `setCell(x, y, z, value)`: creates and registers the chunk of the column
     * on its first write and reuses it afterwards. Exactly the cells of the
     * same column whose heights share a layer (`y & 255`) read `value` after it.
     */
    method SetCell(x: int, y: int, z: int, value: Cell)
      requires Valid()
      modifies Repr
      ensures Valid() && fresh(Repr - old(Repr))
      ensures chunks.Get(ChunkCoord(x), ChunkCoord(z)) != null
      ensures old(chunks.Get(ChunkCoord(x), ChunkCoord(z))) != null ==>
                chunks.Get(ChunkCoord(x), ChunkCoord(z)) == old(chunks.Get(ChunkCoord(x), ChunkCoord(z)))
      ensures forall cx, cz :: (cx, cz) != (ChunkCoord(x), ChunkCoord(z)) ==> chunks.Get(cx, cz) == old(chunks.Get(cx, cz))
      ensures forall x', y', z' ::
                GetCell(x', y', z') == if x' == x && z' == z && LayerOf(y') == LayerOf(y) then value else old(GetCell(x', y', z'))
      ensures maxVisibleRange == old(maxVisibleRange)
      ensures lastChunkX == old(lastChunkX) && lastChunkZ == old(lastChunkZ) && lastChunk == old(lastChunk)
    {
      var p := ChunkAt(ChunkCoord(x), ChunkCoord(z));
      WriteColumn(p, x, y, z, value);
    }
  }

  /** Registering a fresh valid chunk at an empty key keeps the world valid. */
  twostate lemma RegisterKeepsValid(w: World, new cx: int, new cz: int)
    requires old(w.Valid()) && old(w.chunks.Get(cx, cz)) == null
    requires w.chunks.Valid() && w.chunks.Get(cx, cz) != null
    requires fresh(w.chunks.Get(cx, cz).Repr) && w.chunks.Get(cx, cz).Valid()
    requires forall i :: 0 <= i < CHUNK_DY ==> w.chunks.Get(cx, cz).layers[i] == null
    requires forall x', z' :: (x', z') != (cx, cz) ==> w.chunks.Get(x', z') == old(w.chunks.Get(x', z'))
    requires w.Owner == old(w.Owner)[w.chunks.Get(cx, cz) := (cx, cz)]
    requires w.Repr == old(w.Repr) + w.chunks.Get(cx, cz).Repr
    requires unchanged(old(w.Repr) - {w, w.chunks})
    ensures w.Valid()
    ensures forall x', y', z' :: w.GetCell(x', y', z') == old(w.GetCell(x', y', z'))
  {
    forall x', y', z'
      ensures w.GetCell(x', y', z') == old(w.GetCell(x', y', z'))
    {
      if (ChunkCoord(x'), ChunkCoord(z')) != (cx, cz) {
        assert w.chunks.Get(ChunkCoord(x'), ChunkCoord(z')) == old(w.chunks.Get(ChunkCoord(x'), ChunkCoord(z')));
      }
    }
  }

  /**
   * Writing through the chunk registered for the column of `(x, z)` keeps the
   * world valid, and changes exactly the cells of that column whose heights
   * share the layer of `y`.
   */
  twostate lemma WriteKeepsValid(w: World, new x: int, new y: int, new z: int, new value: Cell)
    requires old(w.Valid()) && unchanged(w.chunks) && w.Owner == old(w.Owner)
    requires var p := w.chunks.Get(ChunkCoord(x), ChunkCoord(z));
      p != null && w.Repr == old(w.Repr) + p.Repr
      && p.Valid() && fresh(p.Repr - old(p.Repr)) && old(p.Repr) <= p.Repr
      && unchanged(old(w.Repr) - old(p.Repr) - {w})
      && forall x', y', z' :: z' % CHUNK_DY < CHUNK_DX ==>
           p.Get(x', y', z') == if x' % CHUNK_DX == LocalCoord(x) % CHUNK_DX && LayerOf(y') == LayerOf(y) && z' % CHUNK_DY == LocalCoord(z) % CHUNK_DY
                                then value else old(p.Get(x', y', z'))
    ensures w.Valid()
    ensures forall x', y', z' ::
              w.GetCell(x', y', z') == if x' == x && z' == z && LayerOf(y') == LayerOf(y) then value else old(w.GetCell(x', y', z'))
  {
    var p := w.chunks.Get(ChunkCoord(x), ChunkCoord(z));
    forall x', y', z'
      ensures w.GetCell(x', y', z') == if x' == x && z' == z && LayerOf(y') == LayerOf(y) then value else old(w.GetCell(x', y', z'))
    {
      SplitCoord(x, x');
      SplitCoord(z, z');
      LocalFitsLayer(x);
      LocalFitsLayer(z);
      LocalFitsLayer(x');
      LocalFitsLayer(z');
      var q := w.chunks.Get(ChunkCoord(x'), ChunkCoord(z'));
      if q != null && q != p {
        assert q.Repr !! old(p.Repr);
      }
    }
  }

  /** A valid world can be read anywhere. */
  lemma ValidIsReadable(w: World)
    requires w.Valid()
    ensures w.Readable()
  {
    forall cx, cz | w.chunks.Get(cx, cz) != null
      ensures w.chunks.Get(cx, cz) in w.Owner
    {
    }
  }

  /** A readable world none of whose storage changed stays readable and keeps the cell at `v`. */
  twostate lemma CellKept(w: World, new v: Vector3d)
    requires old(w.Readable()) && unchanged(old(w.Repr))
    ensures w.Readable() && w.GetCellAt(v) == old(w.GetCellAt(v))
  {
  }
}
