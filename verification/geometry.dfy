/**
 * The physical side of the maze: the wall boxes laid on the floor plane
 * (main.js:87-116), the camera's collision test (main.js:178-187) and the
 * key-driven movement step (main.js:205-212). Lengths are exact reals in
 * the source's units; only the floor plane (x, z) matters to collisions.
 */
module Geometry {
  import opened Seqs
  import opened Lattice

  const CellSize: real := 2.0
  const WallThickness: real := 0.2
  /** Each box is lengthened and thickened by this much so corners fill (main.js:104). */
  const Overlap: real := WallThickness * 0.5
  const Full: real := CellSize + Overlap
  const CameraRadius: real := 0.3
  const MoveSpeed: real := 0.08

  datatype Vec = Vec(x: real, z: real)

  /** A wall box as the collision test sees it: centre and horizontal extents. */
  datatype Box = Box(cx: real, cz: real, width: real, depth: real)

  /** A wall flag: the side of the cell at a given position. */
  datatype Flag = Flag(at: Pos, side: Dir)

  function Abs(r: real): real {
    if r < 0.0 then -r else r
  }

  function Add(u: Vec, v: Vec): Vec {
    Vec(u.x + v.x, u.z + v.z)
  }

  function Scale(v: Vec, k: real): Vec {
    Vec(v.x * k, v.z * k)
  }

  /** World coordinate of the centre of column (or row) i of an n-cell maze (main.js:100-101). */
  function Centre(n: int, i: int): real {
    (i as real - n as real / 2.0) * CellSize + CellSize / 2.0
  }

  function CellCentre(n: int, p: Pos): Vec {
    Vec(Centre(n, p.x), Centre(n, p.z))
  }

  /** The point halfway between the centres of p and its neighbour in direction d. */
  function Midpoint(n: int, p: Pos, d: Dir): Vec {
    var a, b := CellCentre(n, p), CellCentre(n, Move(p, d));
    Vec((a.x + b.x) / 2.0, (a.z + b.z) / 2.0)
  }

  /** p lies strictly inside b, without any growth. */
  predicate Covers(b: Box, p: Vec) {
    Abs(p.x - b.cx) < b.width / 2.0 && Abs(p.z - b.cz) < b.depth / 2.0
  }

  /** The box main.js:107-114 adds for side d of the cell at p. */
  function WallBox(n: int, f: Flag): Box {
    var wx, wz := Centre(n, f.at.x), Centre(n, f.at.z);
    match f.side
    case Top => Box(wx, wz - CellSize / 2.0 - Overlap / 2.0, Full, WallThickness + Overlap)
    case Bottom => Box(wx, wz + CellSize / 2.0 + Overlap / 2.0, Full, WallThickness + Overlap)
    case Left => Box(wx - CellSize / 2.0 - Overlap / 2.0, wz, WallThickness + Overlap, Full)
    case Right => Box(wx + CellSize / 2.0 + Overlap / 2.0, wz, WallThickness + Overlap, Full)
  }

  /** The test main.js:180-184 applies to one wall: p inside the box grown by the camera's radius. */
  predicate Hits(b: Box, p: Vec) {
    Abs(p.x - b.cx) < b.width / 2.0 + CameraRadius && Abs(p.z - b.cz) < b.depth / 2.0 + CameraRadius
  }

  /** Some wall of ws is hit at p. */
  predicate Collides(ws: seq<Box>, p: Vec) {
    exists i :: 0 <= i < |ws| && Hits(ws[i], p)
  }

  /** The flag of side d of the cell at p, if that side is closed. */
  function SideFlag(w: Walls, p: Pos, d: Dir): seq<Flag> {
    if Wall(w, d) then [Flag(p, d)] else []
  }

  /** The closed flags of the cell at p, in the order main.js:107-114 tests them. */
  function CellFlags(w: Walls, p: Pos): (r: seq<Flag>)
    ensures |r| <= 4
  {
    SideFlag(w, p, Top) + SideFlag(w, p, Bottom) + SideFlag(w, p, Left) + SideFlag(w, p, Right)
  }

  /** The closed flags of the first z cells of column x, in placement order. */
  function ColumnFlags(col: seq<Cell>, x: int, z: int): seq<Flag>
    requires 0 <= z <= |col|
  {
    if z == 0 then [] else ColumnFlags(col, x, z - 1) + CellFlags(col[z - 1].walls, Pos(x, z - 1))
  }

  /** The closed flags of the first x columns, in placement order. */
  function GridFlags(g: Grid, x: int): seq<Flag>
    requires 0 <= x <= |g|
  {
    if x == 0 then [] else GridFlags(g, x - 1) + ColumnFlags(g[x - 1], x - 1, |g[x - 1]|)
  }

  /** The wall named by f is in the grid and closed. */
  ghost predicate Closed(g: Grid, f: Flag)
    requires Square(g)
  {
    InGrid(|g|, f.at) && Wall(At(g, f.at).walls, f.side)
  }

  /** Every closed wall flag of the grid. */
  ghost function ClosedFlags(g: Grid): set<Flag>
    requires Square(g)
  {
    set p, d | p in Cells(|g|) && Wall(At(g, p).walls, d) :: Flag(p, d)
  }

  /** The boxes of a list of flags, one each, in the same order. */
  function Boxes(n: int, fs: seq<Flag>): (r: seq<Box>)
    ensures |r| == |fs|
    ensures forall i :: 0 <= i < |fs| ==> r[i] == WallBox(n, fs[i])
  {
    seq(|fs|, i requires 0 <= i < |fs| => WallBox(n, fs[i]))
  }

  /** Boxes of a joined list are the joined boxes. */
  lemma BoxesAppend(n: int, a: seq<Flag>, b: seq<Flag>)
    ensures Boxes(n, a + b) == Boxes(n, a) + Boxes(n, b)
  {
    var l, r := Boxes(n, a + b), Boxes(n, a) + Boxes(n, b);
    forall i | 0 <= i < |l|
      ensures l[i] == r[i]
    {
      if i < |a| {
        assert (a + b)[i] == a[i];
      } else {
        assert (a + b)[i] == b[i - |a|];
      }
    }
  }

  /** Adding one more box for flag f extends the boxes of fs to those of fs + [f]. */
  lemma AddBox(n: int, ws: seq<Box>, fs: seq<Flag>, f: Flag)
    ensures ws + Boxes(n, fs) + [WallBox(n, f)] == ws + Boxes(n, fs + [f])
  {
    BoxesAppend(n, fs, [f]);
    assert Boxes(n, [f]) == [WallBox(n, f)];
  }

  /** The boxes of one more cell extend those of the cells before it in its column. */
  lemma AddCell(ws: seq<Box>, g: Grid, x: int, z: int)
    requires Square(g) && 0 <= x < |g| && 0 <= z < |g|
    ensures ws + Boxes(|g|, GridFlags(g, x) + ColumnFlags(g[x], x, z)) + Boxes(|g|, CellFlags(g[x][z].walls, Pos(x, z)))
         == ws + Boxes(|g|, GridFlags(g, x) + ColumnFlags(g[x], x, z + 1))
  {
    var a, b, c := GridFlags(g, x), ColumnFlags(g[x], x, z), CellFlags(g[x][z].walls, Pos(x, z));
    assert ColumnFlags(g[x], x, z + 1) == b + c;
    assert a + b + c == a + (b + c);
    BoxesAppend(|g|, a + b, c);
  }

  /** The boxes of a whole column extend those of the columns before it. */
  lemma AddColumn(ws: seq<Box>, g: Grid, x: int)
    requires Square(g) && 0 <= x < |g|
    ensures ws + Boxes(|g|, GridFlags(g, x) + ColumnFlags(g[x], x, |g|)) == ws + Boxes(|g|, GridFlags(g, x + 1))
  {
    assert GridFlags(g, x + 1) == GridFlags(g, x) + ColumnFlags(g[x], x, |g|);
  }

  /** A cell lists exactly its own closed sides, each once. */
  lemma CellFlagsExact(w: Walls, p: Pos)
    ensures forall f {:trigger f in CellFlags(w, p)} :: f in CellFlags(w, p) <==> f.at == p && Wall(w, f.side)
    ensures Distinct(CellFlags(w, p))
  {
    var t, b, l, r := SideFlag(w, p, Top), SideFlag(w, p, Bottom), SideFlag(w, p, Left), SideFlag(w, p, Right);
    forall f: Flag
      ensures f in t + b + l + r <==> f.at == p && Wall(w, f.side)
    {
      assert f in t + b + l + r <==> f in t || f in b || f in l || f in r;
      assert f in t <==> f == Flag(p, Top) && w.top;
      assert f in b <==> f == Flag(p, Bottom) && w.bottom;
      assert f in l <==> f == Flag(p, Left) && w.left;
      assert f in r <==> f == Flag(p, Right) && w.right;
    }
    CellFlagsDistinct(w, p);
  }

  lemma CellFlagsDistinct(w: Walls, p: Pos)
    ensures Distinct(CellFlags(w, p))
  {
    var t, b, l, r := SideFlag(w, p, Top), SideFlag(w, p, Bottom), SideFlag(w, p, Left), SideFlag(w, p, Right);
    AppendDistinct(t, b);
    AppendDistinct(t + b, l);
    AppendDistinct(t + b + l, r);
  }

  /** The first z cells of a column list exactly their closed sides, each once. */
  lemma {:induction false} ColumnFlagsExact(col: seq<Cell>, x: int, z: int)
    requires 0 <= z <= |col|
    ensures forall f {:trigger f in ColumnFlags(col, x, z)} :: f in ColumnFlags(col, x, z) <==> f.at.x == x && 0 <= f.at.z < z && Wall(col[f.at.z].walls, f.side)
    ensures Distinct(ColumnFlags(col, x, z))
  {
    if z > 0 {
      ColumnFlagsExact(col, x, z - 1);
      CellFlagsExact(col[z - 1].walls, Pos(x, z - 1));
      var a, b := ColumnFlags(col, x, z - 1), CellFlags(col[z - 1].walls, Pos(x, z - 1));
      assert ColumnFlags(col, x, z) == a + b;
      forall f: Flag
        ensures f in a + b <==> f.at.x == x && 0 <= f.at.z < z && Wall(col[f.at.z].walls, f.side)
      {
        assert f in a + b <==> f in a || f in b;
      }
      forall i, j | 0 <= i < |a| && 0 <= j < |b|
        ensures a[i] != b[j]
      {
        assert a[i] in a && b[j] in b;
      }
      AppendDistinct(a, b);
    }
  }

  /** The first x columns list exactly the closed sides of their cells. */
  lemma {:induction false} GridFlagsMembers(g: Grid, x: int)
    requires Square(g) && 0 <= x <= |g|
    ensures forall f {:trigger f in GridFlags(g, x)} :: f in GridFlags(g, x) <==> f.at.x < x && Closed(g, f)
  {
    if x > 0 {
      GridFlagsMembers(g, x - 1);
      ColumnFlagsExact(g[x - 1], x - 1, |g|);
      var a, b := GridFlags(g, x - 1), ColumnFlags(g[x - 1], x - 1, |g|);
      assert GridFlags(g, x) == a + b;
      forall f: Flag
        ensures f in a + b <==> f.at.x < x && Closed(g, f)
      {
        assert f in a + b <==> f in a || f in b;
      }
    }
  }

  /** The first x columns list each closed side once. */
  lemma {:induction false} GridFlagsDistinct(g: Grid, x: int)
    requires Square(g) && 0 <= x <= |g|
    ensures Distinct(GridFlags(g, x))
  {
    if x > 0 {
      GridFlagsDistinct(g, x - 1);
      GridFlagsMembers(g, x - 1);
      ColumnFlagsExact(g[x - 1], x - 1, |g|);
      var a, b := GridFlags(g, x - 1), ColumnFlags(g[x - 1], x - 1, |g|);
      forall i, j | 0 <= i < |a| && 0 <= j < |b|
        ensures a[i] != b[j]
      {
        assert a[i] in a && b[j] in b;
      }
      AppendDistinct(a, b);
    }
  }

  /** The wall list holds one box for every closed wall flag and no other. */
  lemma OneBoxPerFlag(g: Grid)
    requires Square(g)
    ensures forall f :: f in GridFlags(g, |g|) <==> Closed(g, f)
    ensures |Boxes(|g|, GridFlags(g, |g|))| == |ClosedFlags(g)|
  {
    var fs := GridFlags(g, |g|);
    GridFlagsMembers(g, |g|);
    GridFlagsDistinct(g, |g|);
    DistinctCard(fs);
    assert (set f | f in fs) == ClosedFlags(g);
  }

  /** Cell i of an n-cell row, half a cell either side of its centre, lies within the maze's extent. */
  lemma CentreInside(n: int, i: int)
    requires 0 <= i < n
    ensures -(n as real) * CellSize / 2.0 <= Centre(n, i) - CellSize / 2.0
    ensures Centre(n, i) + CellSize / 2.0 <= (n as real) * CellSize / 2.0
  {
  }

  /** Centres of equal-index cells coincide; one index further is one cell further. */
  lemma CentreShift(n: int, i: int, j: int)
    ensures Centre(n, i) - Centre(n, j) == (i - j) as real * CellSize
  {
  }

  /** No wall box reaches the centre of any cell, whatever the walls. */
  lemma CentreClear(n: int, q: Pos, f: Flag)
    ensures !Hits(WallBox(n, f), CellCentre(n, q))
  {
    CentreShift(n, q.x, f.at.x);
    CentreShift(n, q.z, f.at.z);
    var a, b := q.x - f.at.x, q.z - f.at.z;
    assert a <= -1 || a == 0 || 1 <= a;
    assert b <= -1 || b == 0 || 1 <= b;
  }

  /** A cell centre is collision-free for any list of wall boxes. */
  lemma {:induction false} CellCentreClear(n: int, q: Pos, fs: seq<Flag>)
    ensures !Collides(Boxes(n, fs), CellCentre(n, q))
  {
    forall i | 0 <= i < |fs|
      ensures !Hits(Boxes(n, fs)[i], CellCentre(n, q))
    {
      CentreClear(n, q, fs[i]);
    }
  }

  /** The camera's starting point (main.js:119-123) is the centre of cell (0, 0). */
  lemma StartIsCellCentre(n: int)
    ensures Vec(-n as real / 2.0 * CellSize + CellSize / 2.0, -n as real / 2.0 * CellSize + CellSize / 2.0) == CellCentre(n, Pos(0, 0))
  {
  }

  /**
   * The box of a flag straddles the middle of its side, and its long
   * extent reaches past both ends of that side, so neighbouring walls
   * meet at the corners (main.js:104-114).
   */
  lemma WallBoxSpans(n: int, f: Flag)
    ensures Covers(WallBox(n, f), Midpoint(n, f.at, f.side))
    ensures var b := WallBox(n, f); (f.side == Top || f.side == Bottom) ==>
      b.cx - b.width / 2.0 < Centre(n, f.at.x) - CellSize / 2.0 && Centre(n, f.at.x) + CellSize / 2.0 < b.cx + b.width / 2.0
    ensures var b := WallBox(n, f); (f.side == Left || f.side == Right) ==>
      b.cz - b.depth / 2.0 < Centre(n, f.at.z) - CellSize / 2.0 && Centre(n, f.at.z) + CellSize / 2.0 < b.cz + b.depth / 2.0
  {
    var p := f.at;
    match f.side
    case Top => CentreShift(n, p.z - 1, p.z);
    case Bottom => CentreShift(n, p.z + 1, p.z);
    case Left => CentreShift(n, p.x - 1, p.x);
    case Right => CentreShift(n, p.x + 1, p.x);
  }

  /** The box of flag f reaches the midpoint between p and Move(p, d) exactly when it is the box of that shared wall, from either side. */
  lemma MidpointHits(n: int, p: Pos, d: Dir, f: Flag)
    ensures Hits(WallBox(n, f), Midpoint(n, p, d)) <==> f == Flag(p, d) || f == Flag(Move(p, d), Opposite(d))
  {
    var c := CellCentre(n, p);
    var m := Midpoint(n, p, d);
    CentreShift(n, p.x, f.at.x);
    CentreShift(n, p.z, f.at.z);
    var a, b := p.x - f.at.x, p.z - f.at.z;
    assert a <= -2 || a == -1 || a == 0 || a == 1 || 2 <= a;
    assert b <= -2 || b == -1 || b == 0 || b == 1 || 2 <= b;
    match d
    case Top =>
      CentreShift(n, p.z - 1, p.z);
      assert m == Vec(c.x, c.z - CellSize / 2.0);
    case Bottom =>
      CentreShift(n, p.z + 1, p.z);
      assert m == Vec(c.x, c.z + CellSize / 2.0);
    case Left =>
      CentreShift(n, p.x - 1, p.x);
      assert m == Vec(c.x - CellSize / 2.0, c.z);
    case Right =>
      CentreShift(n, p.x + 1, p.x);
      assert m == Vec(c.x + CellSize / 2.0, c.z);
  }

  /** The movement keys main.js:208-211 reads. */
  datatype Keys = Keys(w: bool, s: bool, a: bool, d: bool)

  /** The camera's right-hand direction: forward crossed with up (main.js:206). */
  function RightOf(forward: Vec): (r: Vec)
    ensures r.x * forward.x + r.z * forward.z == 0.0
    ensures r.x * r.x + r.z * r.z == forward.x * forward.x + forward.z * forward.z
    ensures forward.x * r.z - forward.z * r.x == forward.x * forward.x + forward.z * forward.z
  {
    Vec(-forward.z, forward.x)
  }

  /** The displacements tried for the pressed keys, in the order w, s, a, d. */
  function Proposals(keys: Keys, forward: Vec): (r: seq<Vec>)
    ensures |r| <= 4
  {
    (if keys.w then [Scale(forward, MoveSpeed)] else [])
    + (if keys.s then [Scale(forward, -MoveSpeed)] else [])
    + (if keys.a then [Scale(RightOf(forward), -MoveSpeed)] else [])
    + (if keys.d then [Scale(RightOf(forward), MoveSpeed)] else [])
  }

  /** Try each displacement in turn, keeping it only when the moved point does not collide. */
  function Advance(ws: seq<Box>, p: Vec, steps: seq<Vec>): Vec
    decreases |steps|
  {
    if steps == [] then p
    else
      var q := Add(p, steps[0]);
      Advance(ws, if Collides(ws, q) then p else q, steps[1..])
  }

  /** Trying a + b is trying a, then trying b from wherever a left the camera. */
  lemma {:induction false} AdvanceAppend(ws: seq<Box>, p: Vec, a: seq<Vec>, b: seq<Vec>)
    ensures Advance(ws, p, a + b) == Advance(ws, Advance(ws, p, a), b)
    decreases |a|
  {
    if a == [] {
      assert a + b == b;
    } else {
      var q := Add(p, a[0]);
      assert (a + b)[0] == a[0] && (a + b)[1..] == a[1..] + b;
      AdvanceAppend(ws, if Collides(ws, q) then p else q, a[1..], b);
    }
  }

  /**
   * For a grid whose neighbours agree on shared walls, the boxes the
   * placement loop lays down block the midpoint between two adjacent cells
   * exactly when the wall between them is closed.
   */
  lemma PassageBlocked(g: Grid, p: Pos, d: Dir)
    requires Square(g) && Symmetric(g) && InGrid(|g|, p) && InGrid(|g|, Move(p, d))
    ensures Collides(Boxes(|g|, GridFlags(g, |g|)), Midpoint(|g|, p, d)) <==> Wall(At(g, p).walls, d)
  {
    var ws := Boxes(|g|, GridFlags(g, |g|));
    if Collides(ws, Midpoint(|g|, p, d)) {
      var i :| 0 <= i < |ws| && Hits(ws[i], Midpoint(|g|, p, d));
      HitOnlyClosed(g, p, d, i);
    }
    if Wall(At(g, p).walls, d) {
      ClosedHits(g, p, d);
    }
  }

  /** A box that reaches the midpoint belongs to the closed wall between the two cells. */
  lemma HitOnlyClosed(g: Grid, p: Pos, d: Dir, i: int)
    requires Square(g) && Symmetric(g) && InGrid(|g|, p) && InGrid(|g|, Move(p, d))
    requires 0 <= i < |GridFlags(g, |g|)| && Hits(Boxes(|g|, GridFlags(g, |g|))[i], Midpoint(|g|, p, d))
    ensures Wall(At(g, p).walls, d)
  {
    var fs := GridFlags(g, |g|);
    GridFlagsMembers(g, |g|);
    MidpointHits(|g|, p, d, fs[i]);
    assert fs[i] in fs;
    assert Agree(g, p, d);
  }

  /** A closed wall's own box reaches the midpoint. */
  lemma ClosedHits(g: Grid, p: Pos, d: Dir)
    requires Square(g) && InGrid(|g|, p) && Wall(At(g, p).walls, d)
    ensures Collides(Boxes(|g|, GridFlags(g, |g|)), Midpoint(|g|, p, d))
  {
    var fs := GridFlags(g, |g|);
    GridFlagsMembers(g, |g|);
    assert Closed(g, Flag(p, d));
    assert Flag(p, d) in fs;
    var i :| 0 <= i < |fs| && fs[i] == Flag(p, d);
    MidpointHits(|g|, p, d, fs[i]);
    assert Hits(Boxes(|g|, fs)[i], Midpoint(|g|, p, d));
  }

  /** A camera that starts clear of every wall stays clear, whatever keys are held. */
  lemma {:induction false} AdvanceKeepsClear(ws: seq<Box>, p: Vec, steps: seq<Vec>)
    requires !Collides(ws, p)
    ensures !Collides(ws, Advance(ws, p, steps))
    decreases |steps|
  {
    if steps != [] {
      var q := Add(p, steps[0]);
      AdvanceKeepsClear(ws, if Collides(ws, q) then p else q, steps[1..]);
    }
  }
}
