/** Cell values: one byte per voxel, with a few reserved sentinels. */
module CellValues {

  /** `cell_t`: an unsigned 8-bit block identifier. */
  type Cell = c: int | 0 <= c < 256

  const NO_CELL: Cell := 0
  const END_OF_WORLD: Cell := 253
  const VISITED_CELL: Cell := 255
  const VISITED_OCCUPIED: Cell := 254
  const BOUND_BOTTOM: Cell := 253
  const BOUND_SKY: Cell := 252
}
