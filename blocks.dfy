/**
 * Block types: how a block lets light and sight through, and the static
 * table of the block definitions the world's cell values index.
 */
module Blocks {
  import opened CellValues

  /** `BlockVisibility` */
  datatype BlockVisibility =
    | INVISIBLE
    | OPAQUE                   // cells covered by this block are invisible
    | OPAQUE_SEPARATE_TX
    | HALF_OPAQUE              // cells covered by this block can be visible
    | HALF_OPAQUE_SEPARATE_TX
    | HALF_TRANSPARENT         // rendered last, with a semi transparent texture

  /** `BlockDef`: a block type, with its id, its name, its visibility and its texture index. */
  datatype BlockDef = BlockDef(id: Cell, name: string, visibility: BlockVisibility, txIndex: int)
  {
    /** `isOpaque()`: the block hides every block behind it. */
    predicate IsOpaque()
    {
      visibility == OPAQUE || visibility == OPAQUE_SEPARATE_TX
    }

    /** `canPass()`: blocks behind this block can be visible, which is so exactly when it is not opaque. */
    function CanPass(): (r: bool)
      ensures r <==> !IsOpaque()
      ensures r ==> visibility != OPAQUE && visibility != OPAQUE_SEPARATE_TX
    {
      visibility == INVISIBLE
      || visibility == HALF_OPAQUE
      || visibility == HALF_OPAQUE_SEPARATE_TX
      || visibility == HALF_TRANSPARENT
    }
  }

  /** `BlockDef()`: the empty block type, which every block can be seen through. */
  function DefaultBlockDef(): (b: BlockDef)
    ensures b.id == NO_CELL && b.name == "" && b.visibility == INVISIBLE && b.txIndex == 0
    ensures b.CanPass() && !b.IsOpaque()
  {
    BlockDef(0, "", INVISIBLE, 0)
  }

  /** The explicitly defined entries of `BLOCK_DEFS`, in table order. */
  const DEFINED_BLOCKS: seq<BlockDef> := [
    BlockDef(0, "empty", INVISIBLE, 0),
    BlockDef(1, "gray_brick", OPAQUE, 0),
    BlockDef(2, "brick", OPAQUE, 1),
    BlockDef(3, "bedrock", OPAQUE, 2),
    BlockDef(4, "clay", OPAQUE, 3),
    BlockDef(5, "cobblestone", OPAQUE, 4),
    BlockDef(6, "gravel", OPAQUE, 5),
    BlockDef(7, "red_sand", OPAQUE, 6),
    BlockDef(8, "sand", OPAQUE, 7)
  ]

  /** `BLOCK_DEFS[256]`: the defined entries, the remaining ones default-constructed. */
  function BlockDefs(): (defs: seq<BlockDef>)
    ensures |defs| == 256
    ensures defs[..|DEFINED_BLOCKS|] == DEFINED_BLOCKS
    ensures forall i :: |DEFINED_BLOCKS| <= i < 256 ==> defs[i] == DefaultBlockDef()
  {
    DEFINED_BLOCKS + seq(256 - |DEFINED_BLOCKS|, _ => DefaultBlockDef())
  }

  /** `BLOCK_TYPE_CAN_PASS[256]`: the table the source keeps for fast `canPass()` checks. */
  function CanPassTable(defs: seq<BlockDef>): (t: seq<bool>)
    ensures |t| == |defs|
    ensures forall i :: 0 <= i < |defs| ==> (t[i] <==> !defs[i].IsOpaque())
  {
    seq(|defs|, i requires 0 <= i < |defs| => defs[i].CanPass())
  }

  /** `BLOCK_TYPE_OPAQUE[256]`: the table the source keeps for fast `isOpaque()` checks. */
  function OpaqueTable(defs: seq<BlockDef>): (t: seq<bool>)
    ensures |t| == |defs|
    ensures forall i :: 0 <= i < |defs| ==> (t[i] <==> !defs[i].CanPass())
  {
    seq(|defs|, i requires 0 <= i < |defs| => defs[i].IsOpaque())
  }

  /** The two fast-lookup tables are complements of each other, entry by entry. */
  lemma TablesAreComplements(defs: seq<BlockDef>)
    ensures forall i :: 0 <= i < |defs| ==> CanPassTable(defs)[i] != OpaqueTable(defs)[i]
  {
  }

  /** Entries 0 to 8 carry their own index as id, and texture `id - 1` (0 for the empty block). */
  lemma DefinedIdsAndTextures()
    ensures forall i :: 0 <= i < |DEFINED_BLOCKS| ==> BlockDefs()[i].id == i
    ensures BlockDefs()[0].txIndex == 0
    ensures forall i :: 1 <= i < |DEFINED_BLOCKS| ==> BlockDefs()[i].txIndex == i - 1
  {
    var defs := BlockDefs();
    forall i | 0 <= i < |DEFINED_BLOCKS|
      ensures defs[i] == DEFINED_BLOCKS[i]
    {
      assert defs[..|DEFINED_BLOCKS|][i] == defs[i];
    }
  }

  /**
   * Exactly the block types 1 to 8 (the bricks, rocks and sands) hide what
   * lies behind them; the empty block and every undefined entry can be
   * seen through.
   */
  lemma OpaqueExactlyDefinedSolids()
    ensures forall i :: 0 <= i < 256 ==> (OpaqueTable(BlockDefs())[i] <==> 1 <= i <= 8)
    ensures forall i :: 0 <= i < 256 ==> (CanPassTable(BlockDefs())[i] <==> i == 0 || i >= 9)
  {
    var defs := BlockDefs();
    forall i | 0 <= i < |DEFINED_BLOCKS|
      ensures defs[i] == DEFINED_BLOCKS[i]
    {
      assert defs[..|DEFINED_BLOCKS|][i] == defs[i];
    }
  }
}
