/**
 * Integer vectors, the facing record of a viewer and its position, with
 * the projection of a point onto the viewer's view plane.
 */
module Geometry {
  import opened Directions

  datatype Vector2d = Vector2d(x: int, y: int)

  const ZERO2 := Vector2d(0, 0)

  datatype Vector3d = Vector3d(x: int, y: int, z: int)
  {
    function Neg(): Vector3d
    {
      Vector3d(-x, -y, -z)
    }

    function Add(v: Vector3d): Vector3d
    {
      Vector3d(x + v.x, y + v.y, z + v.z)
    }

    function Sub(v: Vector3d): Vector3d
    {
      Vector3d(x - v.x, y - v.y, z - v.z)
    }

    /** The dot product `operator * (Vector3d)`. */
    function Dot(v: Vector3d): int
    {
      x * v.x + y * v.y + z * v.z
    }

    /** `operator * (int)` */
    function Scale(n: int): Vector3d
    {
      Vector3d(x * n, y * n, z * n)
    }

    function TurnLeft(): Vector3d
    {
      Vector3d(z, y, -x)
    }

    function TurnRight(): Vector3d
    {
      Vector3d(-z, y, x)
    }

    function TurnUp(): Vector3d
    {
      Vector3d(x, -z, y)
    }

    function TurnDown(): Vector3d
    {
      Vector3d(x, z, -y)
    }

    /**
     * One step towards `dir`: NORTH is z-1, SOUTH z+1, WEST x-1, EAST x+1,
     * UP y+1, DOWN y-1; the twenty composite directions leave the vector as it is.
     */
    function Move(dir: DirEx): Vector3d
    {
      if dir == DIR_NORTH then Vector3d(x, y, z - 1)
      else if dir == DIR_SOUTH then Vector3d(x, y, z + 1)
      else if dir == DIR_WEST then Vector3d(x - 1, y, z)
      else if dir == DIR_EAST then Vector3d(x + 1, y, z)
      else if dir == DIR_UP then Vector3d(x, y + 1, z)
      else if dir == DIR_DOWN then Vector3d(x, y - 1, z)
      else this
    }
  }

  const ZERO3 := Vector3d(0, 0, 0)

  /** Number of coordinates in which two vectors differ. */
  function Differing(a: Vector3d, b: Vector3d): nat
  {
    (if a.x != b.x then 1 else 0) + (if a.y != b.y then 1 else 0) + (if a.z != b.z then 1 else 0)
  }

  /** Sum of the absolute coordinate differences. */
  function Distance1(a: Vector3d, b: Vector3d): nat
  {
    Abs(a.x - b.x) + Abs(a.y - b.y) + Abs(a.z - b.z)
  }

  function Abs(n: int): nat
  {
    if n < 0 then -n else n
  }

  /** A left turn followed by a right turn, or an up turn followed by a down turn, is no turn at all. */
  lemma TurnsCancel(v: Vector3d)
    ensures v.TurnLeft().TurnRight() == v && v.TurnRight().TurnLeft() == v
    ensures v.TurnUp().TurnDown() == v && v.TurnDown().TurnUp() == v
  {
  }

  /** Four left turns bring a vector back; turns keep the dot product (they are rotations). */
  lemma FourLeftTurns(v: Vector3d, w: Vector3d)
    ensures v.TurnLeft().TurnLeft().TurnLeft().TurnLeft() == v
    ensures v.TurnLeft().Dot(w.TurnLeft()) == v.Dot(w)
    ensures v.TurnUp().Dot(w.TurnUp()) == v.Dot(w)
  {
  }

  /**
   * `move` changes exactly one coordinate by one for the six primary
   * directions, and nothing for the composite ones.
   */
  lemma MoveOneStep(v: Vector3d, d: DirEx)
    ensures d < 6 ==> Differing(v, v.Move(d)) == 1 && Distance1(v, v.Move(d)) == 1
    ensures d >= 6 ==> v.Move(d) == v
  {
  }

  /** Moving one step and then one step in the opposite direction returns to the start. */
  lemma MoveThenOpposite(v: Vector3d, d: Dir)
    ensures v.Move(d).Move(Opposite(d)) == v
  {
    OppositePairs(d);
  }

  /**
   * `Direction`: the facing of a viewer and the offset vectors derived from it.
   * The code that derives the vectors from `dir` is not part of this model,
   * so they are carried here as given values.
   */
  datatype Direction = Direction(
    dir: Dir,
    forward: Vector3d,
    up: Vector3d,
    right: Vector3d,
    left: Vector3d,
    down: Vector3d,
    forwardUp: Vector3d,
    forwardDown: Vector3d,
    forwardLeft: Vector3d,
    forwardLeftUp: Vector3d,
    forwardLeftDown: Vector3d,
    forwardRight: Vector3d,
    forwardRightUp: Vector3d,
    forwardRightDown: Vector3d)
  {
    /** The nine forward offsets the visibility expansion steps by. */
    function ForwardOffsets(): (s: seq<Vector3d>)
      ensures |s| == 9 && s[0] == forward
    {
      [forward, forwardLeft, forwardRight, forwardUp, forwardDown,
       forwardLeftUp, forwardLeftDown, forwardRightUp, forwardRightDown]
    }
  }

  /**
   * The plane coordinates of an offset `v` seen facing `dir`
   * (the switch of `Position::calcPlaneCoords`).
   */
  function PlaneCoords(dir: Dir, v: Vector3d): Vector2d
  {
    if dir == NORTH then Vector2d(v.x, v.y)
    else if dir == SOUTH then Vector2d(-v.x, v.y)
    else if dir == EAST then Vector2d(v.z, v.y)
    else if dir == WEST then Vector2d(-v.z, v.y)
    else if dir == UP then Vector2d(-v.z, v.x)
    else Vector2d(v.z, v.x)
  }

  /** How far `v` lies along the facing `dir`, in `move`'s convention. */
  function Depth(dir: Dir, v: Vector3d): int
  {
    if dir == NORTH then -v.z
    else if dir == SOUTH then v.z
    else if dir == EAST then v.x
    else if dir == WEST then -v.x
    else if dir == UP then v.y
    else -v.y
  }

  /**
   * The plane coordinates ignore exactly the facing axis: a step along the
   * facing keeps them and adds one to the depth, and a point is determined
   * by its plane coordinates together with its depth.
   */
  lemma PlaneCoordsAreProjection(dir: Dir, v: Vector3d, w: Vector3d)
    ensures PlaneCoords(dir, v.Move(dir)) == PlaneCoords(dir, v)
    ensures Depth(dir, v.Move(dir)) == Depth(dir, v) + 1
    ensures PlaneCoords(dir, v) == PlaneCoords(dir, w) && Depth(dir, v) == Depth(dir, w) ==> v == w
  {
  }

  /** The projection is linear, so a translation shifts the plane coordinates by the projected offset. */
  lemma PlaneCoordsLinear(dir: Dir, v: Vector3d, w: Vector3d)
    ensures PlaneCoords(dir, v.Add(w)) == Vector2d(PlaneCoords(dir, v).x + PlaneCoords(dir, w).x,
                                                   PlaneCoords(dir, v).y + PlaneCoords(dir, w).y)
  {
  }

  /** `Position`: the viewer's location and facing. */
  class Position {
    var pos: Vector3d
    var direction: Direction

    /** `Position(Vector3d position, Vector3d dir)`, with the facing given as a `Direction` value. */
    constructor (position: Vector3d, dir: Direction)
      ensures pos == position && direction == dir
    {
      pos := position;
      direction := dir;
    }

    /** The copy constructor. */
    constructor Copy(p: Position)
      ensures pos == p.pos && direction == p.direction
    {
      pos := p.pos;
      direction := p.direction;
    }

    /** Plane coordinates of the absolute point `v` relative to this position. */
    function CalcPlaneCoords(v: Vector3d): Vector2d
      reads this
    {
      PlaneCoords(direction.dir, v.Sub(pos))
    }

    method Forward(step: int)
      modifies this
      ensures pos == old(pos).Add(direction.forward.Scale(step))
      ensures direction == old(direction)
    {
      pos := pos.Add(direction.forward.Scale(step));
    }

    method Backward(step: int)
      modifies this
      ensures pos == old(pos).Sub(direction.forward.Scale(step))
      ensures direction == old(direction)
    {
      pos := pos.Sub(direction.forward.Scale(step));
    }
  }

  /** Moving forward and then back by the same step returns to the starting point. */
  lemma ForwardBackwardCancel(p: Vector3d, f: Vector3d, step: int)
    ensures p.Add(f.Scale(step)).Sub(f.Scale(step)) == p
  {
  }
}
