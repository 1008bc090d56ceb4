/**
 * The arithmetic under the volume snapshot: the bit-packed `(y, z, x)`
 * index of a point in a cube of side `ROW_SIZE = 2 * MAX_DIST` centred on
 * the origin, and the index deltas of the 26 neighbour directions.
 *
 * `getIndex` packs `((y + M) << 2b) | ((z + M) << b) | (x + M)` with
 * `b = ROW_BITS`; for a point inside the cube the three fields are below
 * `ROW_SIZE = 2^b` and do not overlap, so the packing is the sum
 * `(y + M) * R * R + (z + M) * R + (x + M)` used here. `index & ROW_MASK`
 * is `index % R` and `index >> b` is `index / R` (floor division).
 */
module VolumeIndex {
  import opened Directions
  import opened Geometry

  function Pow2(n: nat): (r: nat)
    ensures r >= 1
  {
    if n == 0 then 1 else 2 * Pow2(n - 1)
  }

  /** The cube `[-M, M)^3` that a volume of half-side `M` covers. */
  predicate InCube(m: int, v: Vector3d)
  {
    -m <= v.x < m && -m <= v.y < m && -m <= v.z < m
  }

  /** `getIndex`: x in the low field, then z, then y. */
  function PackIndex(m: int, v: Vector3d): int
  {
    var r := 2 * m;
    (v.y + m) * (r * r) + (v.z + m) * r + (v.x + m)
  }

  /** `indexToPoint` */
  function UnpackIndex(m: int, i: int): Vector3d
    requires m >= 1
  {
    var r := 2 * m;
    Vector3d(i % r - m, (i / (r * r)) % r - m, (i / r) % r - m)
  }

  lemma MulAtLeast(k: int, d: int)
    requires k >= 1 && d > 0
    ensures k * d >= d
  {
  }

  lemma MulSub(a: int, b: int, d: int)
    ensures (a - b) * d == a * d - b * d
  {
  }

  /** Euclidean division is determined by any quotient/remainder pair. */
  lemma DivModUnique(i: int, q: int, rem: int, d: int)
    requires d > 0 && 0 <= rem < d && i == q * d + rem
    ensures i / d == q && i % d == rem
  {
    var q0, r0 := i / d, i % d;
    assert i == q0 * d + r0;
    if q0 < q {
      MulAtLeast(q - q0, d);
      MulSub(q, q0, d);
    } else if q < q0 {
      MulAtLeast(q0 - q, d);
      MulSub(q0, q, d);
    }
  }

  /** A leading digit below `n` followed by a base-`r` digit stays below `n * r`. */
  lemma DigitBelow(a: int, b: int, n: int, r: int)
    requires 0 <= a < n && 0 <= b < r
    ensures 0 <= a * r + b < n * r
  {
    MulAtLeast(n - a, r);
    MulSub(n, a, r);
  }

  /** Two base-`r` digits stay below `r * r`. */
  lemma TwoDigits(a: int, b: int, r: int)
    requires 0 <= a < r && 0 <= b < r
    ensures 0 <= a * r + b < r * r
  {
    DigitBelow(a, b, r, r);
  }

  lemma MulAssoc(a: int, b: int, c: int)
    ensures (a * b) * c == a * (b * c)
  {
  }

  lemma MulAddRight(a: int, b: int, d: int)
    ensures (a + b) * d == a * d + b * d
  {
  }

  /** Shifting right by `2b` is shifting right by `b` twice. */
  lemma DivSquare(i: int, r: int)
    requires r > 0
    ensures i / (r * r) == (i / r) / r
    ensures (i / r) % r * r + i % r == i % (r * r)
  {
    var q1, r1 := i / r, i % r;
    var q2, r2 := q1 / r, q1 % r;
    assert i == q1 * r + r1;
    assert q1 == q2 * r + r2;
    MulAddRight(q2 * r, r2, r);
    MulAssoc(q2, r, r);
    assert i == q2 * (r * r) + (r2 * r + r1);
    TwoDigits(r2, r1, r);
    DivModUnique(i, q2, r2 * r + r1, r * r);
  }

  /** Three base-`r` digits `a b c` read back digit by digit. */
  lemma {:induction false} ThreeDigits(a: int, b: int, c: int, r: int)
    requires 0 <= a < r && 0 <= b < r && 0 <= c < r
    ensures var i := a * (r * r) + b * r + c;
      && 0 <= i < (r * r) * r
      && i % r == c && (i / r) % r == b && (i / (r * r)) % r == a
  {
    var i := a * (r * r) + b * r + c;
    var hi := a * r + b;
    MulAddRight(a * r, b, r);
    MulAssoc(a, r, r);
    assert i == hi * r + c;
    DivModUnique(i, hi, c, r);
    DivModUnique(hi, a, b, r);
    DivSquare(i, r);
    DivModUnique(a, 0, a, r);
    TwoDigits(a, b, r);
    DigitBelow(hi, c, r * r, r);
  }

  lemma MulMono(a: int, b: int, d: int)
    requires a <= b && d >= 0
    ensures a * d <= b * d
  {
    MulSub(b, a, d);
  }

  /** Packing a point of the cube lands inside the buffer, and unpacking recovers the point. */
  lemma PackUnpack(m: int, v: Vector3d)
    requires m >= 1 && InCube(m, v)
    ensures 0 <= PackIndex(m, v) < (2 * m) * (2 * m) * (2 * m)
    ensures UnpackIndex(m, PackIndex(m, v)) == v
  {
    ThreeDigits(v.y + m, v.z + m, v.x + m, 2 * m);
  }

  /** Every buffer index is the packing of exactly one point of the cube. */
  lemma UnpackPack(m: int, i: int)
    requires m >= 1 && 0 <= i < (2 * m) * (2 * m) * (2 * m)
    ensures InCube(m, UnpackIndex(m, i))
    ensures PackIndex(m, UnpackIndex(m, i)) == i
  {
    var r := 2 * m;
    var q := i / (r * r);
    DivSquare(i, r);
    assert i == q * (r * r) + i % (r * r);
    if q >= r {
      MulMono(r, q, r * r);
      assert false;
    }
    if q < 0 {
      MulMono(q, -1, r * r);
      assert false;
    }
    DivModUnique(q, 0, q, r);
  }

  /** Distinct points of the cube have distinct indices. */
  lemma PackInjective(m: int, v: Vector3d, w: Vector3d)
    requires m >= 1 && InCube(m, v) && InCube(m, w)
    ensures PackIndex(m, v) == PackIndex(m, w) ==> v == w
  {
    PackUnpack(m, v);
    PackUnpack(m, w);
  }

  /**
   * The point step a `DirMask` stands for in the packed index: NORTH and
   * SOUTH step x, WEST and EAST step z, UP and DOWN step y.
   */
  function IndexStep(mask: DirMask): Vector3d
  {
    Vector3d(
      (if HasDir(mask, SOUTH) then 1 else 0) - (if HasDir(mask, NORTH) then 1 else 0),
      (if HasDir(mask, UP) then 1 else 0) - (if HasDir(mask, DOWN) then 1 else 0),
      (if HasDir(mask, EAST) then 1 else 0) - (if HasDir(mask, WEST) then 1 else 0))
  }

  /** The `y` level of an index of the buffer is `y` exactly when the index lies in slice `y + m`. */
  lemma LevelOfIndex(m: int, k: int, y: int)
    requires m >= 1 && 0 <= k < (2 * m) * (2 * m) * (2 * m)
    ensures var rr := (2 * m) * (2 * m);
      UnpackIndex(m, k).y == y <==> (y + m) * rr <= k < (y + m) * rr + rr
  {
    var r := 2 * m;
    var rr := r * r;
    var q := k / rr;
    assert q < r by {
      assert k == q * rr + k % rr && 0 <= k % rr;
      if q >= r {
        MulMono(r, q, rr);
        MulAssoc(r, r, r);
        assert false;
      }
    }
    assert UnpackIndex(m, k).y == q - m by {
      DivModUnique(q, 0, q, r);
    }
    if (y + m) * rr <= k < (y + m) * rr + rr {
      DivModUnique(k, y + m, k - (y + m) * rr, rr);
    }
    if q == y + m {
      assert k == q * rr + k % rr && 0 <= k % rr < rr;
    }
  }

  /** The delta of a single direction bit for rows of `r` cells: N -1, S +1, W -r, E +r, UP +r², DOWN -r². */
  function BitDelta(r: int, d: Dir): int
  {
    match d
    case 0 => -1
    case 1 => 1
    case 2 => -r
    case 3 => r
    case 4 => r * r
    case 5 => -(r * r)
  }

  /** The sum of `BitDelta` over the bits `d`, `d + 1`, ..., 5 set in `mask`. */
  function BitDeltas(r: int, mask: DirMask, d: nat): int
    requires d <= 6
    decreases 6 - d
  {
    if d == 6 then 0 else (if HasDir(mask, d) then BitDelta(r, d) else 0) + BitDeltas(r, mask, d + 1)
  }

  /** `directionDelta[mask]` for rows of `r` cells: the sum of the deltas of the bits set in `mask`. */
  function MaskDelta(r: int, mask: DirMask): int
  {
    BitDeltas(r, mask, 0)
  }

  /** `MaskDelta` written out bit by bit. */
  lemma MaskDeltaUnfolded(r: int, mask: DirMask)
    ensures MaskDelta(r, mask) ==
      (if HasDir(mask, NORTH) then -1 else 0)
      + (if HasDir(mask, SOUTH) then 1 else 0)
      + (if HasDir(mask, WEST) then -r else 0)
      + (if HasDir(mask, EAST) then r else 0)
      + (if HasDir(mask, UP) then r * r else 0)
      + (if HasDir(mask, DOWN) then -(r * r) else 0)
  {
    assert BitDeltas(r, mask, 6) == 0;
    assert BitDeltas(r, mask, 5) == (if HasDir(mask, DOWN) then -(r * r) else 0);
    assert BitDeltas(r, mask, 4) == (if HasDir(mask, UP) then r * r else 0) + BitDeltas(r, mask, 5);
    assert BitDeltas(r, mask, 3) == (if HasDir(mask, EAST) then r else 0) + BitDeltas(r, mask, 4);
    assert BitDeltas(r, mask, 2) == (if HasDir(mask, WEST) then -r else 0) + BitDeltas(r, mask, 3);
    assert BitDeltas(r, mask, 1) == (if HasDir(mask, SOUTH) then 1 else 0) + BitDeltas(r, mask, 2);
  }

  /** `directionExDelta[d]` */
  function DirExDelta(r: int, d: DirEx): int
  {
    MaskDelta(r, DIR_TO_MASK[d])
  }

  /** `NEAR_DIRECTIONS_FOR`: for each `Dir`, the eight directions around it in the plane across it. */
  const NEAR_DIRECTIONS_FOR: seq<DirEx> := [
    // NORTH
    DIR_EAST, DIR_UP, DIR_WEST, DIR_DOWN, DIR_EAST_UP, DIR_WEST_UP, DIR_WEST_DOWN, DIR_EAST_DOWN,
    // SOUTH
    DIR_EAST, DIR_UP, DIR_WEST, DIR_DOWN, DIR_EAST_UP, DIR_WEST_UP, DIR_WEST_DOWN, DIR_EAST_DOWN,
    // WEST
    DIR_SOUTH, DIR_UP, DIR_NORTH, DIR_DOWN, DIR_SOUTH_UP, DIR_NORTH_UP, DIR_NORTH_DOWN, DIR_SOUTH_DOWN,
    // EAST
    DIR_SOUTH, DIR_UP, DIR_NORTH, DIR_DOWN, DIR_SOUTH_UP, DIR_NORTH_UP, DIR_NORTH_DOWN, DIR_SOUTH_DOWN,
    // UP
    DIR_EAST, DIR_NORTH, DIR_WEST, DIR_SOUTH, DIR_NORTH_EAST, DIR_NORTH_WEST, DIR_SOUTH_WEST, DIR_SOUTH_EAST,
    // DOWN
    DIR_EAST, DIR_NORTH, DIR_WEST, DIR_SOUTH, DIR_NORTH_EAST, DIR_NORTH_WEST, DIR_SOUTH_WEST, DIR_SOUTH_EAST
  ]

  /** `mainDirectionDeltasNoForward[d][i]`: 0, then the deltas of the eight near directions alone. */
  function MainDeltaNoForward(r: int, d: Dir, i: nat): int
    requires i < 9
  {
    if i == 0 then 0 else DirExDelta(r, NEAR_DIRECTIONS_FOR[8 * d + i - 1])
  }

  /** `mainDirectionDeltas[d][i]`: the forward delta plus slot `i` of the no-forward row. */
  function MainDelta(r: int, d: Dir, i: nat): int
    requires i < 9
  {
    DirExDelta(r, d) + MainDeltaNoForward(r, d, i)
  }

  /** A mask delta is the packed form of the mask's point step. */
  lemma MaskDeltaIsStep(r: int, mask: DirMask)
    ensures MaskDelta(r, mask) == IndexStep(mask).y * (r * r) + IndexStep(mask).z * r + IndexStep(mask).x
  {
    MaskDeltaUnfolded(r, mask);
    var w := IndexStep(mask);
    assert w.y * (r * r) == (if HasDir(mask, UP) then r * r else 0) + (if HasDir(mask, DOWN) then -(r * r) else 0) by {
      if HasDir(mask, UP) && !HasDir(mask, DOWN) {
        assert w.y == 1;
      } else if !HasDir(mask, UP) && HasDir(mask, DOWN) {
        assert w.y == -1;
      } else {
        assert w.y == 0;
      }
    }
    assert w.z * r == (if HasDir(mask, EAST) then r else 0) + (if HasDir(mask, WEST) then -r else 0) by {
      if HasDir(mask, EAST) && !HasDir(mask, WEST) {
        assert w.z == 1;
      } else if !HasDir(mask, EAST) && HasDir(mask, WEST) {
        assert w.z == -1;
      } else {
        assert w.z == 0;
      }
    }
  }

  /**
   * Adding `directionDelta[mask]` to the packing of a point gives the packing
   * of the point one mask step away (the packing is linear, so this holds
   * inside the cube and out).
   */
  lemma MaskDeltaMovesIndex(m: int, v: Vector3d, mask: DirMask)
    ensures PackIndex(m, v.Add(IndexStep(mask))) == PackIndex(m, v) + MaskDelta(2 * m, mask)
  {
    var r := 2 * m;
    var w := IndexStep(mask);
    MaskDeltaIsStep(r, mask);
    MulAddRight(v.y + m, w.y, r * r);
    MulAddRight(v.z + m, w.z, r);
  }

  /** The point step of the `DirEx` value `e` in the packed index. */
  function Step(e: DirEx): Vector3d
  {
    IndexStep(DIR_TO_MASK[e])
  }

  /** The point offset of slot `i` of a `mainDirectionDeltasNoForward` row: none, then the near directions. */
  function NearStep(d: Dir, i: nat): Vector3d
    requires i < 9
  {
    if i == 0 then ZERO3 else Step(NEAR_DIRECTIONS_FOR[8 * d + i - 1])
  }

  /**
   * Slot `i` of the main tables moves the packed index one forward step and
   * then the `i`-th near step (main table), or the near step alone (no-forward table).
   */
  lemma MainDeltaMovesIndex(m: int, v: Vector3d, d: Dir, i: nat)
    requires i < 9
    ensures PackIndex(m, v.Add(Step(d)).Add(NearStep(d, i))) == PackIndex(m, v) + MainDelta(2 * m, d, i)
    ensures PackIndex(m, v.Add(NearStep(d, i))) == PackIndex(m, v) + MainDeltaNoForward(2 * m, d, i)
  {
    MaskDeltaMovesIndex(m, v, DIR_TO_MASK[d]);
    if i == 0 {
      assert v.Add(Step(d)).Add(NearStep(d, i)) == v.Add(Step(d));
      assert v.Add(NearStep(d, i)) == v;
    } else {
      var near := DIR_TO_MASK[NEAR_DIRECTIONS_FOR[8 * d + i - 1]];
      MaskDeltaMovesIndex(m, v.Add(Step(d)), near);
      MaskDeltaMovesIndex(m, v, near);
    }
  }

  /**
   * The direction whose `Vector3d::move` matches the index step of `d`:
   * the delta tables step x for NORTH/SOUTH and z for WEST/EAST, where
   * `move` does the reverse, so the horizontal directions pair up crosswise.
   */
  function IndexMoveDir(d: Dir): (r: Dir)
  {
    if d == NORTH then WEST
    else if d == SOUTH then EAST
    else if d == WEST then NORTH
    else if d == EAST then SOUTH
    else d
  }

  /**
   * `moveIndex(i, d)` lands on the index of the point that `move` reaches
   * in the direction `IndexMoveDir(d)`; that is `d` itself only for UP and DOWN.
   */
  lemma MoveIndexMatchesMove(m: int, v: Vector3d, d: Dir)
    ensures PackIndex(m, v.Move(IndexMoveDir(d))) == PackIndex(m, v) + DirExDelta(2 * m, d)
    ensures IndexMoveDir(d) == d <==> d == UP || d == DOWN
  {
    assert v.Move(IndexMoveDir(d)) == v.Add(Step(d));
    MaskDeltaMovesIndex(m, v, DIR_TO_MASK[d]);
  }

  /** For the four horizontal directions the index step and `move` never agree. */
  lemma HorizontalIndexStepDiffersFromMove(v: Vector3d, d: Dir)
    requires d < 4
    ensures v.Add(Step(d)) != v.Move(d)
  {
  }

  /** A table entry for the opposite facing is the negated delta. */
  lemma OppositeDeltaNegates(r: int, d: Dir)
    ensures DirExDelta(r, Opposite(d)) == -DirExDelta(r, d)
  {
    OppositePairs(d);
    MaskDeltaUnfolded(r, DIR_TO_MASK[d]);
    MaskDeltaUnfolded(r, DIR_TO_MASK[Opposite(d)]);
  }
}
