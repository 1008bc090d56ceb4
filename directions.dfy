/**
 * The six axis directions (`Dir`), the 26 neighbour directions (`DirEx`),
 * their bit masks (`DirMask`) and the turn tables on `Dir`.
 */
module Directions {

  /** `Dir`: NORTH, SOUTH, WEST, EAST, UP, DOWN, numbered 0..5. */
  type Dir = d: nat | d < 6

  const NORTH: Dir := 0
  const SOUTH: Dir := 1
  const WEST: Dir := 2
  const EAST: Dir := 3
  const UP: Dir := 4
  const DOWN: Dir := 5

  /** `DirEx`: the 26 neighbour directions; the first six coincide with `Dir`. */
  type DirEx = d: nat | d < 26

  const DIR_MAX: nat := 26

  const DIR_NORTH: DirEx := 0
  const DIR_SOUTH: DirEx := 1
  const DIR_WEST: DirEx := 2
  const DIR_EAST: DirEx := 3
  const DIR_UP: DirEx := 4
  const DIR_DOWN: DirEx := 5
  const DIR_WEST_UP: DirEx := 6
  const DIR_EAST_UP: DirEx := 7
  const DIR_WEST_DOWN: DirEx := 8
  const DIR_EAST_DOWN: DirEx := 9
  const DIR_NORTH_WEST: DirEx := 10
  const DIR_NORTH_EAST: DirEx := 11
  const DIR_NORTH_UP: DirEx := 12
  const DIR_NORTH_DOWN: DirEx := 13
  const DIR_NORTH_WEST_UP: DirEx := 14
  const DIR_NORTH_EAST_UP: DirEx := 15
  const DIR_NORTH_WEST_DOWN: DirEx := 16
  const DIR_NORTH_EAST_DOWN: DirEx := 17
  const DIR_SOUTH_WEST: DirEx := 18
  const DIR_SOUTH_EAST: DirEx := 19
  const DIR_SOUTH_UP: DirEx := 20
  const DIR_SOUTH_DOWN: DirEx := 21
  const DIR_SOUTH_WEST_UP: DirEx := 22
  const DIR_SOUTH_EAST_UP: DirEx := 23
  const DIR_SOUTH_WEST_DOWN: DirEx := 24
  const DIR_SOUTH_EAST_DOWN: DirEx := 25

  /** A `DirMask`: a set of `Dir` bits, `1 << d` for each member `d`. */
  type DirMask = m: nat | m < 64

  const MASK_NORTH: DirMask := 1
  const MASK_SOUTH: DirMask := 2
  const MASK_WEST: DirMask := 4
  const MASK_EAST: DirMask := 8
  const MASK_UP: DirMask := 16
  const MASK_DOWN: DirMask := 32

  /** `1 << d` */
  function DirBit(d: Dir): (m: DirMask)
  {
    if d == NORTH then MASK_NORTH
    else if d == SOUTH then MASK_SOUTH
    else if d == WEST then MASK_WEST
    else if d == EAST then MASK_EAST
    else if d == UP then MASK_UP
    else MASK_DOWN
  }

  /** `(m & (1 << d)) != 0`: bit `d` of `m` is set. */
  predicate HasDir(m: DirMask, d: Dir)
  {
    match d
    case 0 => m % 2 == 1
    case 1 => m / 2 % 2 == 1
    case 2 => m / 4 % 2 == 1
    case 3 => m / 8 % 2 == 1
    case 4 => m / 16 % 2 == 1
    case 5 => m / 32 % 2 == 1
  }

  /**
   * `DIR_TO_MASK`. The combined masks are ORs of distinct single bits,
   * which is the same as their sum.
   */
  const DIR_TO_MASK: seq<DirMask> := [
    MASK_NORTH,
    MASK_SOUTH,
    MASK_WEST,
    MASK_EAST,
    MASK_UP,
    MASK_DOWN,
    MASK_WEST + MASK_UP,
    MASK_EAST + MASK_UP,
    MASK_WEST + MASK_DOWN,
    MASK_EAST + MASK_DOWN,
    MASK_NORTH + MASK_WEST,
    MASK_NORTH + MASK_EAST,
    MASK_NORTH + MASK_UP,
    MASK_NORTH + MASK_DOWN,
    MASK_NORTH + MASK_WEST + MASK_UP,
    MASK_NORTH + MASK_EAST + MASK_UP,
    MASK_NORTH + MASK_WEST + MASK_DOWN,
    MASK_NORTH + MASK_EAST + MASK_DOWN,
    MASK_SOUTH + MASK_WEST,
    MASK_SOUTH + MASK_EAST,
    MASK_SOUTH + MASK_UP,
    MASK_SOUTH + MASK_DOWN,
    MASK_SOUTH + MASK_WEST + MASK_UP,
    MASK_SOUTH + MASK_EAST + MASK_UP,
    MASK_SOUTH + MASK_WEST + MASK_DOWN,
    MASK_SOUTH + MASK_EAST + MASK_DOWN
  ]

  /** `opposite(d)`: flips the lowest bit of the direction code. */
  function Opposite(d: Dir): (r: Dir)
  {
    ((d as bv8) ^ 1) as int
  }

  function TurnLeft(d: Dir): (r: Dir)
  {
    if d == WEST then SOUTH
    else if d == EAST then NORTH
    else if d == NORTH then WEST
    else if d == SOUTH then EAST
    else if d == UP then SOUTH
    else NORTH
  }

  function TurnRight(d: Dir): (r: Dir)
  {
    if d == WEST then NORTH
    else if d == EAST then SOUTH
    else if d == NORTH then EAST
    else if d == SOUTH then WEST
    else if d == UP then NORTH
    else SOUTH
  }

  function TurnUp(d: Dir): (r: Dir)
  {
    if d == UP then SOUTH
    else if d == DOWN then NORTH
    else UP
  }

  function TurnDown(d: Dir): (r: Dir)
  {
    if d == UP then NORTH
    else if d == DOWN then SOUTH
    else DOWN
  }

  predicate IsHorizontal(d: Dir)
  {
    d == NORTH || d == SOUTH || d == WEST || d == EAST
  }

  /** `opposite` is an involution that pairs NORTH/SOUTH, WEST/EAST and UP/DOWN. */
  lemma OppositePairs(d: Dir)
    ensures Opposite(Opposite(d)) == d
    ensures Opposite(d) != d
    ensures d == NORTH <==> Opposite(d) == SOUTH
    ensures d == WEST <==> Opposite(d) == EAST
    ensures d == UP <==> Opposite(d) == DOWN
  {
  }

  /** On the horizontal directions the left and right turn tables undo each other. */
  lemma TurnLeftRightInverse(d: Dir)
    requires IsHorizontal(d)
    ensures TurnRight(TurnLeft(d)) == d && TurnLeft(TurnRight(d)) == d
  {
  }

  /** Turning left or right never yields UP or DOWN, from any direction. */
  lemma TurnsStayHorizontal(d: Dir)
    ensures IsHorizontal(TurnLeft(d)) && IsHorizontal(TurnRight(d))
  {
  }

  /** The primary entries of `DIR_TO_MASK` are the single bits `1 << d`. */
  lemma PrimaryMaskIsBit(d: Dir)
    ensures DIR_TO_MASK[d] == DirBit(d)
    ensures forall e: Dir :: HasDir(DIR_TO_MASK[d], e) <==> e == d
  {
  }
}
