/**
 * The ring expansion of `World::visitVisibleCells`: starting at the viewer,
 * each range steps from every cell reached in the previous range to the nine
 * cells ahead of it, keeping empty cells whose plane coordinate (the position
 * across the facing) has not been taken yet in this range.
 */
module Visibility {
  import opened Directions
  import opened CellValues
  import opened Geometry
  import opened SymmetricMatrices
  import opened Worlds

  /** Each of the nine forward offsets moves the plane coordinates by at most one per axis. */
  predicate OffsetsWithinOne(d: Direction)
  {
    forall i :: 0 <= i < 9 ==>
      Abs(PlaneCoords(d.dir, d.ForwardOffsets()[i]).x) <= 1 && Abs(PlaneCoords(d.dir, d.ForwardOffsets()[i]).y) <= 1
  }

  /** Plane coordinates within `range` of the viewer on both axes. */
  predicate WithinRange(c: Vector2d, range: int)
  {
    Abs(c.x) <= range && Abs(c.y) <= range
  }

  /**
   * The size `newRange` has to reset `visited` to in range `range`, whose
   * cells lie up to `range` steps across the facing: exactly those plane
   * coordinates then fit.
   */
  function VisitedSize(range: int): (sz: int)
    requires range >= 0
    ensures sz >= 1
    ensures forall c: Vector2d :: WithinRange(c, range) <==> WithinSize(sz, c.x, c.y)
  {
    range + 1
  }

  /** The size the source passes: `newRange(range)` resets `visited` to `range`. */
  function VisitedSizeAsWritten(range: int): (sz: int)
    ensures forall c: Vector2d :: WithinRange(c, range - 1) <==> WithinSize(sz, c.x, c.y)
  {
    range
  }

  /**
   * With the size as written, range 1 cannot hold the cell ahead and to the
   * left of a viewer facing NORTH: its plane coordinate `(-1, 0)` lies outside
   * a matrix of size 1, whose slot formula `(x + dx2) * dx + (y + dx2)` gives -1.
   */
  lemma AsWrittenMissesFirstRange(d: Direction)
    requires d.dir == NORTH && d.forwardLeft == Vector3d(-1, 0, -1)
    ensures PlaneCoords(d.dir, d.forwardLeft) == Vector2d(-1, 0)
    ensures WithinRange(PlaneCoords(d.dir, d.forwardLeft), 1)
    ensures !WithinSize(VisitedSizeAsWritten(1), -1, 0)
    ensures var dx := 2 * VisitedSizeAsWritten(1) - 1; var dx2 := dx / 2; (-1 + dx2) * dx + (0 + dx2) == -1
  {
  }

  /** The points `pt + o` for each offset `o`, in order. */
  function Translated(pt: Vector3d, offsets: seq<Vector3d>): (r: seq<Vector3d>)
    ensures |r| == |offsets|
    ensures forall i :: 0 <= i < |offsets| ==> r[i] == pt.Add(offsets[i])
  {
    if offsets == [] then [] else [pt.Add(offsets[0])] + Translated(pt, offsets[1..])
  }

  /** The plane coordinates of each point seen from `origin` facing `dir`, in order. */
  function Projected(dir: Dir, origin: Vector3d, s: seq<Vector3d>): (r: seq<Vector2d>)
    ensures |r| == |s|
    ensures forall i :: 0 <= i < |s| ==> r[i] == PlaneCoords(dir, s[i].Sub(origin))
  {
    if s == [] then [] else [PlaneCoords(dir, s[0].Sub(origin))] + Projected(dir, origin, s[1..])
  }

  /** `Projected` of a sequence with one more point ends with that point's plane coordinate. */
  lemma ProjectedAppend(dir: Dir, origin: Vector3d, s: seq<Vector3d>, p: Vector3d)
    ensures Projected(dir, origin, s + [p]) == Projected(dir, origin, s) + [PlaneCoords(dir, p.Sub(origin))]
  {
    var l := Projected(dir, origin, s + [p]);
    var r := Projected(dir, origin, s) + [PlaneCoords(dir, p.Sub(origin))];
    assert |l| == |r|;
    forall i | 0 <= i < |l|
      ensures l[i] == r[i]
    {
      if i < |s| {
        assert (s + [p])[i] == s[i];
      }
    }
  }

  /** `Projected` distributes over concatenation. */
  lemma ProjectedConcat(dir: Dir, origin: Vector3d, s: seq<Vector3d>, t: seq<Vector3d>)
    ensures Projected(dir, origin, s + t) == Projected(dir, origin, s) + Projected(dir, origin, t)
  {
    var l := Projected(dir, origin, s + t);
    var r := Projected(dir, origin, s) + Projected(dir, origin, t);
    assert |l| == |r|;
    forall i | 0 <= i < |l|
      ensures l[i] == r[i]
    {
      if i < |s| {
        assert (s + t)[i] == s[i];
      } else {
        assert (s + t)[i] == t[i - |s|];
      }
    }
  }

  /** Concatenation is associative. */
  lemma AppendAssoc<T>(a: seq<T>, b: seq<T>, c: seq<T>)
    ensures (a + b) + c == a + (b + c)
  {
  }

  /**
   * What the expansion depends on: the positions whose cells are empty, the
   * viewer's facing and the viewer's own cell.
   */
  datatype Scene = Scene(empty: iset<Vector3d>, facing: Direction, eye: Vector3d)
  {
    /** The plane coordinate of `v` seen from the viewer. */
    function Plane(v: Vector3d): Vector2d
    {
      PlaneCoords(facing.dir, v.Sub(eye))
    }
  }

  /** The scene of `world` seen from `position`. */
  ghost function SceneOf(world: World, position: Position): Scene
    reads world, world.Repr, position
    requires world.Readable()
  {
    Scene((iset p | world.GetCellAt(p) == NO_CELL), position.direction, position.pos)
  }

  /**
   * `s` is what the viewer at `position` sees of `world`, stated point by
   * point; the link is used only where a cell of the world is read.
   */
  ghost predicate Shows(s: Scene, world: World, position: Position)
    reads world, world.Repr, position
    requires world.Readable()
  {
    s.facing == position.direction && s.eye == position.pos
    && forall p {:trigger world.GetCellAt(p)} :: p in s.empty <==> world.GetCellAt(p) == NO_CELL
  }

  /** A scene shows the world exactly when it is the scene of the world. */
  lemma ShowsIsSceneOf(s: Scene, world: World, position: Position)
    requires world.Readable()
    ensures Shows(s, world, position) <==> s == SceneOf(world, position)
  {
    if Shows(s, world, position) {
      var t := SceneOf(world, position);
      assert s.empty == t.empty by {
        forall p
          ensures p in s.empty <==> p in t.empty
        {
          assert p in s.empty <==> world.GetCellAt(p) == NO_CELL;
        }
      }
    }
  }

  /** No two points of `cells` share a plane coordinate. */
  ghost predicate DistinctPlanes(s: Scene, cells: seq<Vector3d>)
  {
    forall j, k :: 0 <= j < k < |cells| ==> s.Plane(cells[j]) != s.Plane(cells[k])
  }

  /**
   * The rule of `needVisit` on a ring that has taken exactly the plane
   * coordinates of its points: `p` joins the ring when its cell is empty and
   * no point of the ring has its plane coordinate.
   */
  ghost function Admit(s: Scene, ring: seq<Vector3d>, p: Vector3d): seq<Vector3d>
  {
    if p in s.empty && s.Plane(p) !in Projected(s.facing.dir, s.eye, ring) then ring + [p] else ring
  }

  /** The ring after offering each of `pts` to `needVisit`, in order. */
  ghost function AdmitAll(s: Scene, ring: seq<Vector3d>, pts: seq<Vector3d>): seq<Vector3d>
    decreases |pts|
  {
    if pts == [] then ring
    else Admit(s, AdmitAll(s, ring, pts[..|pts| - 1]), pts[|pts| - 1])
  }

  /**
   * The points offered while stepping from each of `cells` in order: the nine
   * points ahead of the first cell, then the nine ahead of the second, and so on.
   */
  function Candidates(offsets: seq<Vector3d>, cells: seq<Vector3d>): seq<Vector3d>
    decreases |cells|
  {
    if cells == [] then []
    else Candidates(offsets, cells[..|cells| - 1]) + Translated(cells[|cells| - 1], offsets)
  }

  /**
   * The ring after `prev`: what `needVisit` admits, starting from an empty
   * ring, from the points ahead of the cells of `prev`.
   */
  ghost function NextRing(s: Scene, prev: seq<Vector3d>): seq<Vector3d>
  {
    AdmitAll(s, [], Candidates(s.facing.ForwardOffsets(), prev))
  }

  /** Ring `r` of the expansion: ring 0 is the viewer's own cell, and ring `r` follows ring `r - 1`. */
  ghost function Ring(s: Scene, r: nat): seq<Vector3d>
  {
    if r == 0 then [s.eye] else NextRing(s, Ring(s, r - 1))
  }

  /** `rings` are the first `|rings|` rings of the expansion, each following the one before. */
  ghost predicate IsRingChain(s: Scene, rings: seq<seq<Vector3d>>)
  {
    |rings| >= 1 && rings[0] == [s.eye]
    && forall k :: 0 <= k < |rings| - 1 ==> rings[k + 1] == NextRing(s, rings[k])
  }

  /** Element `k` of a chain of rings is ring `k`. */
  lemma {:induction false} ChainIsRing(s: Scene, rings: seq<seq<Vector3d>>, k: nat)
    requires IsRingChain(s, rings) && k < |rings|
    ensures rings[k] == Ring(s, k)
  {
    if k > 0 {
      ChainIsRing(s, rings, k - 1);
    }
  }

  /** Offering `a` and then `b` is offering `a + b`. */
  lemma {:induction false} AdmitAllConcat(s: Scene, ring: seq<Vector3d>, a: seq<Vector3d>, b: seq<Vector3d>)
    ensures AdmitAll(s, ring, a + b) == AdmitAll(s, AdmitAll(s, ring, a), b)
    decreases |b|
  {
    if b == [] {
      assert a + b == a;
    } else {
      var b' := b[..|b| - 1];
      assert (a + b)[..|a + b| - 1] == a + b';
      assert (a + b)[|a + b| - 1] == b[|b| - 1];
      AdmitAllConcat(s, ring, a, b');
    }
  }

  /**
   * What offering `pts` does to `ring`: it only appends, and only points of
   * `pts` with empty cells; every point of `pts` with an empty cell has its
   * plane coordinate taken afterwards; and distinct plane coordinates stay distinct.
   */
  lemma {:induction false} AdmitAllSound(s: Scene, ring: seq<Vector3d>, pts: seq<Vector3d>)
    ensures ring <= AdmitAll(s, ring, pts)
    ensures forall k :: |ring| <= k < |AdmitAll(s, ring, pts)| ==>
              AdmitAll(s, ring, pts)[k] in pts && AdmitAll(s, ring, pts)[k] in s.empty
    ensures forall p :: p in pts && p in s.empty ==> s.Plane(p) in Projected(s.facing.dir, s.eye, AdmitAll(s, ring, pts))
    ensures DistinctPlanes(s, ring) ==> DistinctPlanes(s, AdmitAll(s, ring, pts))
    decreases |pts|
  {
    if pts != [] {
      var pts' := pts[..|pts| - 1];
      var p := pts[|pts| - 1];
      var prev := AdmitAll(s, ring, pts');
      AdmitAllSound(s, ring, pts');
      var dir, origin := s.facing.dir, s.eye;
      var r := AdmitAll(s, ring, pts);
      assert r == Admit(s, prev, p);
      ProjectedAppend(dir, origin, prev, p);
      assert pts == pts' + [p];
      forall q | q in pts && q in s.empty
        ensures s.Plane(q) in Projected(dir, origin, r)
      {
        if q in pts' {
          assert s.Plane(q) in Projected(dir, origin, prev);
        }
      }
    }
  }

  /**
   * Ring `r` holds only points ahead of cells of ring `r - 1` whose cells
   * are empty, every such point with an empty cell has its plane coordinate
   * taken by some point of ring `r`, and no two points of the ring share a
   * plane coordinate.
   */
  lemma RingSound(s: Scene, r: nat)
    requires r >= 1
    ensures forall k :: 0 <= k < |Ring(s, r)| ==>
              Ring(s, r)[k] in Candidates(s.facing.ForwardOffsets(), Ring(s, r - 1)) && Ring(s, r)[k] in s.empty
    ensures forall p :: p in Candidates(s.facing.ForwardOffsets(), Ring(s, r - 1)) && p in s.empty ==>
              s.Plane(p) in Projected(s.facing.dir, s.eye, Ring(s, r))
    ensures DistinctPlanes(s, Ring(s, r))
  {
    AdmitAllSound(s, [], Candidates(s.facing.ForwardOffsets(), Ring(s, r - 1)));
  }

  /** Every candidate from `cells` is one forward offset ahead of one of the cells. */
  lemma {:induction false} CandidateIsAhead(offsets: seq<Vector3d>, cells: seq<Vector3d>, p: Vector3d)
    requires p in Candidates(offsets, cells)
    ensures exists j, k :: 0 <= j < |cells| && 0 <= k < |offsets| && p == cells[j].Add(offsets[k])
    decreases |cells|
  {
    var cells' := cells[..|cells| - 1];
    var t := Translated(cells[|cells| - 1], offsets);
    assert Candidates(offsets, cells) == Candidates(offsets, cells') + t;
    if p in Candidates(offsets, cells') {
      CandidateIsAhead(offsets, cells', p);
      var j, k :| 0 <= j < |cells'| && 0 <= k < |offsets| && p == cells'[j].Add(offsets[k]);
      assert cells[j] == cells'[j];
    } else {
      var k :| 0 <= k < |offsets| && t[k] == p;
      assert p == cells[|cells| - 1].Add(offsets[k]);
    }
  }

  /** Every point one forward offset ahead of one of `cells` is a candidate. */
  lemma {:induction false} AheadIsCandidate(offsets: seq<Vector3d>, cells: seq<Vector3d>, j: int, k: int)
    requires 0 <= j < |cells| && 0 <= k < |offsets|
    ensures cells[j].Add(offsets[k]) in Candidates(offsets, cells)
    decreases |cells|
  {
    var cells' := cells[..|cells| - 1];
    var t := Translated(cells[|cells| - 1], offsets);
    var q := cells[j].Add(offsets[k]);
    if j < |cells'| {
      AheadIsCandidate(offsets, cells', j, k);
      assert cells'[j] == cells[j];
      assert q in Candidates(offsets, cells');
    } else {
      assert t[k] == q;
    }
    assert q in Candidates(offsets, cells') + t;
  }

  /** The candidates from `cells` are exactly the points one forward offset ahead of one of the cells. */
  lemma CandidatesAreAhead(offsets: seq<Vector3d>, cells: seq<Vector3d>, p: Vector3d)
    ensures p in Candidates(offsets, cells) <==>
              exists j, k :: 0 <= j < |cells| && 0 <= k < |offsets| && p == cells[j].Add(offsets[k])
  {
    if p in Candidates(offsets, cells) {
      CandidateIsAhead(offsets, cells, p);
    } else if exists j, k :: 0 <= j < |cells| && 0 <= k < |offsets| && p == cells[j].Add(offsets[k]) {
      var j, k :| 0 <= j < |cells| && 0 <= k < |offsets| && p == cells[j].Add(offsets[k]);
      AheadIsCandidate(offsets, cells, j, k);
    }
  }

  /** A forward offset from a cell within range `r - 1` lands within range `r`. */
  lemma OffsetStaysInRange(d: Direction, pos: Vector3d, pt: Vector3d, i: int, r: int)
    requires OffsetsWithinOne(d) && 0 <= i < 9
    requires WithinRange(PlaneCoords(d.dir, pt.Sub(pos)), r - 1)
    ensures WithinRange(PlaneCoords(d.dir, pt.Add(d.ForwardOffsets()[i]).Sub(pos)), r)
  {
    var o := d.ForwardOffsets()[i];
    assert pt.Add(o).Sub(pos) == pt.Sub(pos).Add(o);
    PlaneCoordsLinear(d.dir, pt.Sub(pos), o);
  }

  /** Every point one forward offset ahead of a cell within `r - 1` of `pos` lies within `r` of it. */
  lemma CandidatesWithinRange(d: Direction, pos: Vector3d, cells: seq<Vector3d>, r: int, p: Vector3d)
    requires OffsetsWithinOne(d)
    requires forall k :: 0 <= k < |cells| ==> WithinRange(PlaneCoords(d.dir, cells[k].Sub(pos)), r - 1)
    requires p in Candidates(d.ForwardOffsets(), cells)
    ensures WithinRange(PlaneCoords(d.dir, p.Sub(pos)), r)
  {
    var offsets := d.ForwardOffsets();
    CandidateIsAhead(offsets, cells, p);
    var j, m :| 0 <= j < |cells| && 0 <= m < |offsets| && p == cells[j].Add(offsets[m]);
    OffsetStaysInRange(d, pos, cells[j], m, r);
  }

  /** The cells of the ring after `prev` lie one step further from the viewer than those of `prev`. */
  lemma NextRingWithinRange(s: Scene, prev: seq<Vector3d>, r: int)
    requires OffsetsWithinOne(s.facing)
    requires forall k :: 0 <= k < |prev| ==> WithinRange(s.Plane(prev[k]), r - 1)
    ensures forall k :: 0 <= k < |NextRing(s, prev)| ==> WithinRange(s.Plane(NextRing(s, prev)[k]), r)
  {
    var next := NextRing(s, prev);
    AdmitAllSound(s, [], Candidates(s.facing.ForwardOffsets(), prev));
    forall k | 0 <= k < |next|
      ensures WithinRange(s.Plane(next[k]), r)
    {
      CandidatesWithinRange(s.facing, s.eye, prev, r, next[k]);
    }
  }

  /** Every cell of ring `r` lies within `r` of the viewer across the facing. */
  lemma {:induction false} RingWithinRange(s: Scene, r: nat)
    requires OffsetsWithinOne(s.facing)
    ensures forall k :: 0 <= k < |Ring(s, r)| ==> WithinRange(s.Plane(Ring(s, r)[k]), r)
  {
    if r == 0 {
      assert s.eye.Sub(s.eye) == Vector3d(0, 0, 0);
    } else {
      RingWithinRange(s, r - 1);
      NextRingWithinRange(s, Ring(s, r - 1), r);
    }
  }

  /**
   * Ring `r >= 1` holds empty cells only, within `r` of the viewer across the
   * facing, no two of them sharing a plane coordinate.
   */
  lemma RingIsWavefront(s: Scene, r: nat, cells: seq<Vector3d>)
    requires OffsetsWithinOne(s.facing) && r >= 1
    requires cells == Ring(s, r)
    ensures forall k :: 0 <= k < |cells| ==> cells[k] in s.empty
    ensures forall k :: 0 <= k < |cells| ==> WithinRange(s.Plane(cells[k]), r)
    ensures forall j, k :: 0 <= j < k < |cells| ==> s.Plane(cells[j]) != s.Plane(cells[k])
  {
    RingSound(s, r);
    RingWithinRange(s, r);
  }

  /**
   * `VisitorHelper`: the wavefront of the previous and of the current range,
   * and the plane coordinates taken in this range. The two growable arrays
   * are kept as sequences.
   */
  class VisitorHelper {
    const world: World
    const position: Position
    var oldcells: seq<Vector3d>
    var newcells: seq<Vector3d>
    const visited: SymmetricMatrix<bool>
    /** The world and the viewer as the expansion sees them; a visit changes neither. */
    ghost const scene: Scene

    ghost predicate Valid()
      reads world, world.Repr, visited, position
    {
      world.Readable() && visited.Valid() && !visited.initValue
      && this !in world.Repr && visited !in world.Repr && visited.data !in world.Repr
      && Shows(scene, world, position)
    }

    /** `VisitorHelper(World & w, Position & p)`: both arrays empty and `visited` of size 1. */
    constructor (w: World, p: Position)
      requires w.Readable()
      ensures Valid() && world == w && position == p
      ensures oldcells == [] && newcells == []
      ensures fresh(visited) && fresh(visited.data)
    {
      world := w;
      position := p;
      oldcells := [];
      newcells := [];
      visited := new SymmetricMatrix(1, false);
      ShowsIsSceneOf(SceneOf(w, p), w, p);
      scene := SceneOf(w, p);
    }

    /** Whether plane coordinate `c` was taken in this range. */
    predicate Marked(c: Vector2d)
      reads visited, visited.data
      requires visited.Valid()
    {
      visited.InBounds(c.x, c.y) && visited.Get(c.x, c.y)
    }

    /**
     * The wavefront of the current range: empty cells only, each with its
     * plane coordinate taken, and no two sharing one.
     */
    ghost predicate Wavefront()
      reads this, visited, visited.data
      requires visited.Valid()
    {
      (forall k :: 0 <= k < |newcells| ==> newcells[k] in scene.empty && Marked(scene.Plane(newcells[k])))
      && DistinctPlanes(scene, newcells)
    }

    /** `visited` marks exactly the plane coordinates of the points of the current wavefront. */
    ghost predicate MarksMatch()
      reads this, visited, visited.data
      requires visited.Valid()
    {
      forall c :: Marked(c) <==> c in Projected(scene.facing.dir, scene.eye, newcells)
    }

    /**
     * `newRange(d)`: the current wavefront becomes the previous one, the
     * current one starts empty, and `visited` holds size `sz`, all unmarked.
     */
    method NewRange(sz: int)
      requires Valid() && sz >= 1
      modifies this, visited, visited.data
      ensures Valid() && (visited.data == old(visited.data) || fresh(visited.data))
      ensures oldcells == old(newcells) && newcells == []
      ensures forall x, y :: visited.InBounds(x, y) <==> WithinSize(sz, x, y)
      ensures forall c :: !Marked(c)
    {
      visited.Reset(sz);
      oldcells := newcells;
      newcells := [];
    }

    /** `needVisit(q)` may be called: when the cell of `q` is empty, its plane coordinate fits `visited`. */
    ghost predicate Fits(q: Vector3d)
      reads visited
    {
      q in scene.empty ==> visited.InBounds(scene.Plane(q).x, scene.Plane(q).y)
    }

    /**
     * `needVisit(newpt)`: admits `newpt` exactly when its cell is empty and its
     * plane coordinate is free, then appends it and takes the coordinate. The
     * matrix is read only for an empty cell, which must then be in bounds.
     */
    method NeedVisit(newpt: Vector3d) returns (b: bool)
      requires Valid() && Fits(newpt)
      modifies this, visited.data
      ensures Valid()
      ensures b <==> old(world.GetCellAt(newpt)) == NO_CELL && !old(Marked(scene.Plane(newpt)))
      ensures newcells == old(newcells) + (if b then [newpt] else []) && oldcells == old(oldcells)
      ensures forall c :: Marked(c) <==> old(Marked(c)) || (b && c == scene.Plane(newpt))
      ensures old(Wavefront()) ==> Wavefront()
      ensures old(MarksMatch()) ==> MarksMatch() && newcells == Admit(scene, old(newcells), newpt)
    {
      var planeCoord := position.CalcPlaneCoords(newpt);
      if world.GetCellAt(newpt) == NO_CELL && !visited.Get(planeCoord.x, planeCoord.y) {
        newcells := newcells + [newpt];
        visited.Set(planeCoord.x, planeCoord.y, true);
        b := true;
      } else {
        b := false;
      }
      if old(Wavefront()) {
        AdmitKeepsWavefront(this, newpt, b);
      }
      if old(MarksMatch()) {
        AdmitFollowsRule(this, newpt, b);
      }
    }

    /** The nine points `planVisits(pt)` offers to `needVisit`, in the order it offers them. */
    ghost function Ahead(pt: Vector3d): (r: seq<Vector3d>)
      ensures |r| == 9
    {
      Translated(pt, scene.facing.ForwardOffsets())
    }

    /**
     * When `visited` holds the size for range `r + 1`, every point ahead of a
     * cell within `r` of the viewer has room for its mark.
     */
    lemma AheadFits(pt: Vector3d, r: nat)
      requires visited.Valid() && OffsetsWithinOne(scene.facing)
      requires forall x, y :: visited.InBounds(x, y) <==> WithinSize(VisitedSize(r + 1), x, y)
      requires WithinRange(scene.Plane(pt), r)
      ensures forall i :: 0 <= i < 9 ==> Fits(Ahead(pt)[i])
    {
      forall i | 0 <= i < 9
        ensures Fits(Ahead(pt)[i])
      {
        OffsetStaysInRange(scene.facing, scene.eye, pt, i, r + 1);
      }
    }

    /**
     * The points of `pts` that `needVisit` would admit if offered them in
     * order from the current state: a point joins when its cell is empty and
     * its plane coordinate is neither marked nor taken by an earlier point
     * that joined.
     */
    ghost function Offered(pts: seq<Vector3d>): seq<Vector3d>
      reads visited, visited.data
      requires visited.Valid()
      decreases |pts|
    {
      if pts == [] then []
      else
        var prev := Offered(pts[..|pts| - 1]);
        var p := pts[|pts| - 1];
        if p in scene.empty && !Marked(scene.Plane(p))
           && scene.Plane(p) !in Projected(scene.facing.dir, scene.eye, prev)
        then prev + [p]
        else prev
    }

    /**
     * The points offered from each prefix of `pts`: the empty prefix offers
     * none, and each further point joins exactly when its cell is empty and its
     * plane coordinate is neither marked nor taken by a point offered before it.
     */
    lemma {:induction false} OfferedPrefixes(pts: seq<Vector3d>) returns (pre: seq<seq<Vector3d>>)
      requires visited.Valid()
      ensures |pre| == |pts| + 1 && pre[0] == [] && pre[|pts|] == Offered(pts)
      ensures forall i :: 0 <= i < |pts| ==>
                pre[i + 1] == pre[i]
                  + (if pts[i] in scene.empty && !Marked(scene.Plane(pts[i]))
                        && scene.Plane(pts[i]) !in Projected(scene.facing.dir, scene.eye, pre[i])
                     then [pts[i]] else [])
      decreases |pts|
    {
      if pts == [] {
        pre := [[]];
      } else {
        var pts' := pts[..|pts| - 1];
        var pre' := OfferedPrefixes(pts');
        pre := pre' + [Offered(pts)];
        forall i | 0 <= i < |pts|
          ensures pre[i + 1] == pre[i]
                    + (if pts[i] in scene.empty && !Marked(scene.Plane(pts[i]))
                          && scene.Plane(pts[i]) !in Projected(scene.facing.dir, scene.eye, pre[i])
                       then [pts[i]] else [])
        {
          if i < |pts'| {
            assert pre[i] == pre'[i] && pre[i + 1] == pre'[i + 1] && pts[i] == pts'[i];
          }
        }
      }
    }

    /**
     * The points offered from the current state: each comes from `pts`, has an
     * empty cell and an unmarked plane coordinate; every point of `pts` with
     * an empty cell has its plane coordinate marked or taken by one of them;
     * and no two of them share a plane coordinate.
     */
    lemma {:induction false} OfferedSound(pts: seq<Vector3d>)
      requires visited.Valid()
      ensures forall k :: 0 <= k < |Offered(pts)| ==>
                Offered(pts)[k] in pts && Offered(pts)[k] in scene.empty && !Marked(scene.Plane(Offered(pts)[k]))
      ensures forall p :: p in pts && p in scene.empty ==>
                Marked(scene.Plane(p)) || scene.Plane(p) in Projected(scene.facing.dir, scene.eye, Offered(pts))
      ensures DistinctPlanes(scene, Offered(pts))
      decreases |pts|
    {
      if pts != [] {
        var pts' := pts[..|pts| - 1];
        var p := pts[|pts| - 1];
        var prev := Offered(pts');
        OfferedSound(pts');
        var dir, origin := scene.facing.dir, scene.eye;
        ProjectedAppend(dir, origin, prev, p);
        assert pts == pts' + [p];
        forall q | q in pts && q in scene.empty
          ensures Marked(scene.Plane(q)) || scene.Plane(q) in Projected(dir, origin, Offered(pts))
        {
          if q in pts' && !Marked(scene.Plane(q)) {
            assert scene.Plane(q) in Projected(dir, origin, prev);
          }
        }
      }
    }

    /**
     * When `visited` marks exactly the plane coordinates of the current
     * wavefront, the points offered are those `AdmitAll` appends to it.
     */
    lemma {:induction false} OfferedIsAdmitAll(pts: seq<Vector3d>)
      requires visited.Valid() && MarksMatch()
      ensures newcells + Offered(pts) == AdmitAll(scene, newcells, pts)
      decreases |pts|
    {
      if pts != [] {
        var pts' := pts[..|pts| - 1];
        var p := pts[|pts| - 1];
        var prev := Offered(pts');
        OfferedIsAdmitAll(pts');
        var dir, origin := scene.facing.dir, scene.eye;
        ProjectedConcat(dir, origin, newcells, prev);
        assert scene.Plane(p) in Projected(dir, origin, newcells + prev)
               <==> Marked(scene.Plane(p)) || scene.Plane(p) in Projected(dir, origin, prev);
        assert (newcells + prev) + [p] == newcells + (prev + [p]);
      }
    }

    /**
     * Stepping from cell `i` of `ring`: if the wavefront is what the cells
     * before it admit, then adding what is offered from the points ahead of
     * cell `i` gives what the cells up to and including it admit.
     */
    lemma OfferedExtendsRing(ring: seq<Vector3d>, i: int)
      requires visited.Valid() && MarksMatch() && 0 <= i < |ring|
      requires newcells == AdmitAll(scene, [], Candidates(scene.facing.ForwardOffsets(), ring[..i]))
      ensures newcells + Offered(Ahead(ring[i])) == AdmitAll(scene, [], Candidates(scene.facing.ForwardOffsets(), ring[..i + 1]))
    {
      var offsets := scene.facing.ForwardOffsets();
      var cands := Candidates(offsets, ring[..i]);
      var ahead := Ahead(ring[i]);
      assert Candidates(offsets, ring[..i + 1]) == cands + ahead by {
        assert ring[..i + 1][..i] == ring[..i];
      }
      OfferedIsAdmitAll(ahead);
      AdmitAllConcat(scene, [], cands, ahead);
    }

    /**
     * `planVisits(pt)`: offers the nine points ahead of `pt` to `needVisit`,
     * forward first. Exactly the points `Offered` names are appended, in
     * order, and exactly their plane coordinates are newly taken.
     */
    method PlanVisits(pt: Vector3d)
      requires Valid()
      requires forall i :: 0 <= i < 9 ==> Fits(Ahead(pt)[i])
      modifies this, visited.data
      ensures Valid() && oldcells == old(oldcells)
      ensures newcells == old(newcells) + old(Offered(Ahead(pt)))
      ensures forall c :: Marked(c) <==> old(Marked(c)) || c in Projected(scene.facing.dir, scene.eye, old(Offered(Ahead(pt))))
      ensures old(Wavefront()) ==> Wavefront()
    {
      var points := Translated(pt, position.direction.ForwardOffsets());
      assert points == Ahead(pt);
      ghost var pre := OfferedPrefixes(points);
      ghost var dir, origin := scene.facing.dir, scene.eye;
      ghost var offered: seq<Vector3d> := [];
      var i := 0;
      while i < 9
        invariant 0 <= i <= 9
        invariant Valid() && oldcells == old(oldcells)
        invariant offered == pre[i]
        invariant newcells == old(newcells) + offered
        invariant forall c :: Marked(c) <==> old(Marked(c)) || c in Projected(dir, origin, offered)
        invariant old(Wavefront()) ==> Wavefront()
      {
        assert Fits(points[i]);
        ProjectedAppend(dir, origin, offered, points[i]);
        label before:
        var b := NeedVisit(points[i]);
        ghost var next := offered + (if b then [points[i]] else []);
        assert next == pre[i + 1];
        AppendAssoc(old(newcells), offered, if b then [points[i]] else []);
        ghost var taken := Projected(dir, origin, offered) + (if b then [scene.Plane(points[i])] else []);
        assert Projected(dir, origin, next) == taken by {
          if !b {
            assert next == offered;
          }
        }
        forall c
          ensures Marked(c) <==> old(Marked(c)) || c in taken
        {
          assert old@before(Marked(c)) <==> old(Marked(c)) || c in Projected(dir, origin, offered);
        }
        offered := next;
        i := i + 1;
      }
      assert points[..9] == points;
    }
  }

  /**
   * The inner loop of a pass of `World::visitVisibleCells`: `planVisits` from
   * every cell of the previous wavefront `oldcells`, in order, into the empty
   * current one. The new wavefront is what `needVisit` admits from the points
   * ahead of those cells.
   */
  method PlanAll(helper: VisitorHelper, previous: nat)
    requires helper.Valid() && OffsetsWithinOne(helper.scene.facing)
    requires helper.newcells == [] && helper.MarksMatch()
    requires forall x, y :: helper.visited.InBounds(x, y) <==> WithinSize(VisitedSize(previous + 1), x, y)
    requires forall k :: 0 <= k < |helper.oldcells| ==> WithinRange(helper.scene.Plane(helper.oldcells[k]), previous)
    modifies helper, helper.visited.data
    ensures helper.Valid() && helper.oldcells == old(helper.oldcells)
    ensures helper.newcells == AdmitAll(helper.scene, [], Candidates(helper.scene.facing.ForwardOffsets(), helper.oldcells))
  {
    var ring := helper.oldcells;
    ghost var scene := helper.scene;
    ghost var offsets := scene.facing.ForwardOffsets();
    assert helper.newcells == AdmitAll(scene, [], Candidates(offsets, ring[..0])) by {
      assert ring[..0] == [];
    }
    var i := 0;
    while i < |ring|
      invariant 0 <= i <= |ring|
      invariant helper.Valid() && helper.oldcells == ring
      invariant forall x, y :: helper.visited.InBounds(x, y) <==> WithinSize(VisitedSize(previous + 1), x, y)
      invariant helper.MarksMatch()
      invariant helper.newcells == AdmitAll(scene, [], Candidates(offsets, ring[..i]))
    {
      var pt := ring[i];
      helper.AheadFits(pt, previous);
      helper.OfferedExtendsRing(ring, i);
      ghost var before := helper.newcells;
      ghost var offered := helper.Offered(helper.Ahead(pt));
      helper.PlanVisits(pt);
      ProjectedConcat(scene.facing.dir, scene.eye, before, offered);
      i := i + 1;
    }
    assert ring[..i] == ring;
  }

  /**
   * One pass of the range loop of `World::visitVisibleCells`, for
   * `range == previous + 1`: `newRange(range)`, then `planVisits` from every
   * cell of the previous wavefront. The new wavefront is the ring after the
   * previous one, and lies one step further from the viewer.
   */
  method ExpandRing(helper: VisitorHelper, previous: nat)
    requires helper.Valid() && OffsetsWithinOne(helper.scene.facing)
    requires forall k :: 0 <= k < |helper.newcells| ==> WithinRange(helper.scene.Plane(helper.newcells[k]), previous)
    modifies helper, helper.visited, helper.visited.data
    ensures helper.Valid() && (helper.visited.data == old(helper.visited.data) || fresh(helper.visited.data))
    ensures helper.newcells == NextRing(helper.scene, old(helper.newcells))
    ensures forall k :: 0 <= k < |helper.newcells| ==> WithinRange(helper.scene.Plane(helper.newcells[k]), previous + 1)
  {
    ghost var scene := helper.scene;
    helper.NewRange(VisitedSize(previous + 1));
    assert helper.MarksMatch() by {
      assert Projected(scene.facing.dir, scene.eye, helper.newcells) == [];
    }
    PlanAll(helper, previous);
    NextRingWithinRange(scene, helper.oldcells, previous + 1);
  }

  /**
   * `World::visitVisibleCells(position)`, returning the wavefront of the last
   * range: exactly ring `maxVisibleRange - 1` of the expansion from the
   * viewer's cell (ring 0, the viewer's cell alone, when `maxVisibleRange <= 1`).
   * Its cells are empty, within `maxVisibleRange - 1` of the viewer across the
   * facing, and no two of them share a plane coordinate.
   */
  method VisitVisibleCells(world: World, position: Position) returns (last: seq<Vector3d>)
    requires world.Valid() && OffsetsWithinOne(position.direction)
    ensures world.Readable()
    ensures world.maxVisibleRange <= 1 ==> last == Ring(SceneOf(world, position), 0) == [position.pos]
    ensures world.maxVisibleRange > 1 ==> last == Ring(SceneOf(world, position), world.maxVisibleRange - 1)
    ensures world.maxVisibleRange > 1 ==>
              (forall k :: 0 <= k < |last| ==> world.GetCellAt(last[k]) == NO_CELL)
              && (forall k :: 0 <= k < |last| ==> WithinRange(position.CalcPlaneCoords(last[k]), world.maxVisibleRange - 1))
              && (forall j, k :: 0 <= j < k < |last| ==> position.CalcPlaneCoords(last[j]) != position.CalcPlaneCoords(last[k]))
  {
    ValidIsReadable(world);
    var pos := position.pos;
    var helper := new VisitorHelper(world, position);
    helper.newcells := helper.newcells + [pos];
    ghost var scene := helper.scene;
    RingWithinRange(scene, 0);
    ghost var rings := [helper.newcells];
    var range := 1;
    while range < world.maxVisibleRange
      invariant 1 <= range && (range == 1 || range <= world.maxVisibleRange)
      invariant helper.Valid() && helper.world == world && helper.position == position
      invariant fresh(helper) && fresh(helper.visited) && fresh(helper.visited.data)
      invariant helper.scene == scene
      invariant IsRingChain(scene, rings) && |rings| == range && helper.newcells == rings[range - 1]
      invariant forall k :: 0 <= k < |helper.newcells| ==> WithinRange(scene.Plane(helper.newcells[k]), range - 1)
    {
      ExpandRing(helper, range - 1);
      rings := rings + [helper.newcells];
      range := range + 1;
    }
    last := helper.newcells;
    LastRingInWorld(world, position, scene, rings, world.maxVisibleRange, last);
  }

  /**
   * The wavefront `visitVisibleCells` ends with, when `rings` are the rings
   * the range loop went through: ring `max - 1` of the scene of `world` seen
   * from `position` (ring 0 when `max <= 1`), stated in the world's terms.
   */
  lemma LastRingInWorld(world: World, position: Position, scene: Scene, rings: seq<seq<Vector3d>>, max: int, last: seq<Vector3d>)
    requires world.Readable() && OffsetsWithinOne(position.direction) && Shows(scene, world, position)
    requires IsRingChain(scene, rings) && |rings| == (if max <= 1 then 1 else max) && last == rings[|rings| - 1]
    ensures max <= 1 ==> last == Ring(SceneOf(world, position), 0) == [position.pos]
    ensures max > 1 ==> last == Ring(SceneOf(world, position), max - 1)
    ensures max > 1 ==>
              (forall k :: 0 <= k < |last| ==> world.GetCellAt(last[k]) == NO_CELL)
              && (forall k :: 0 <= k < |last| ==> WithinRange(position.CalcPlaneCoords(last[k]), max - 1))
              && (forall j, k :: 0 <= j < k < |last| ==> position.CalcPlaneCoords(last[j]) != position.CalcPlaneCoords(last[k]))
  {
    ChainIsRing(scene, rings, |rings| - 1);
    ShowsIsSceneOf(scene, world, position);
    if max > 1 {
      RingInWorld(world, position, max - 1, last);
    }
  }

  /**
   * Ring `r >= 1` of the scene of `world` seen from `position`, stated in the
   * world's terms: its cells are empty, within `r` of the viewer across the
   * facing, and no two of them share a plane coordinate.
   */
  lemma RingInWorld(world: World, position: Position, r: nat, cells: seq<Vector3d>)
    requires world.Readable() && OffsetsWithinOne(position.direction) && r >= 1
    requires cells == Ring(SceneOf(world, position), r)
    ensures forall k :: 0 <= k < |cells| ==> world.GetCellAt(cells[k]) == NO_CELL
    ensures forall k :: 0 <= k < |cells| ==> WithinRange(position.CalcPlaneCoords(cells[k]), r)
    ensures forall j, k :: 0 <= j < k < |cells| ==> position.CalcPlaneCoords(cells[j]) != position.CalcPlaneCoords(cells[k])
  {
    RingIsWavefront(SceneOf(world, position), r, cells);
  }

  /**
   * Admitting a point whose cell is empty and whose plane coordinate was free,
   * and taking that coordinate, keeps the wavefront property; declining leaves
   * it as it was.
   */
  twostate lemma AdmitKeepsWavefront(h: VisitorHelper, new newpt: Vector3d, new b: bool)
    requires old(h.visited.Valid()) && h.visited.Valid() && old(h.Wavefront())
    requires b ==> newpt in h.scene.empty && !old(h.Marked(h.scene.Plane(newpt)))
    requires h.newcells == old(h.newcells) + (if b then [newpt] else [])
    requires forall c :: h.Marked(c) <==> old(h.Marked(c)) || (b && c == h.scene.Plane(newpt))
    ensures h.Wavefront()
  {
    var before := old(h.newcells);
    forall k | 0 <= k < |before|
      ensures h.newcells[k] in h.scene.empty && h.Marked(h.scene.Plane(h.newcells[k]))
    {
      assert h.newcells[k] == before[k];
    }
  }

  /**
   * When `visited` marks exactly the plane coordinates of the wavefront, one
   * `needVisit` call extends the wavefront as `Admit` says and keeps the marks matching.
   */
  twostate lemma AdmitFollowsRule(h: VisitorHelper, new newpt: Vector3d, new b: bool)
    requires old(h.visited.Valid()) && h.visited.Valid() && old(h.MarksMatch())
    requires b <==> newpt in h.scene.empty && !old(h.Marked(h.scene.Plane(newpt)))
    requires h.newcells == old(h.newcells) + (if b then [newpt] else [])
    requires forall c :: h.Marked(c) <==> old(h.Marked(c)) || (b && c == h.scene.Plane(newpt))
    ensures h.MarksMatch()
    ensures h.newcells == Admit(h.scene, old(h.newcells), newpt)
  {
    var dir, origin := h.scene.facing.dir, h.scene.eye;
    var before := Projected(dir, origin, old(h.newcells));
    ProjectedAppend(dir, origin, old(h.newcells), newpt);
    assert Projected(dir, origin, h.newcells) == before + (if b then [h.scene.Plane(newpt)] else []);
    forall c
      ensures h.Marked(c) <==> c in Projected(dir, origin, h.newcells)
    {
      assert old(h.Marked(c)) <==> c in before;
    }
  }
}
