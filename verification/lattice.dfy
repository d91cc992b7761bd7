/**
 * The maze lattice of main.js: a square grid of cells indexed grid[x][z],
 * each with four wall flags and a visited flag, the two updates the
 * generator performs on it, and the invariants those updates keep.
 */
module Lattice {

  datatype Dir = Top | Right | Bottom | Left

  const AllDirs: set<Dir> := {Top, Right, Bottom, Left}

  /** The two directions that name each shared wall once (towards +x and +z). */
  const Canonical: set<Dir> := {Right, Bottom}

  datatype Walls = Walls(top: bool, right: bool, bottom: bool, left: bool)

  datatype Cell = Cell(visited: bool, walls: Walls)

  datatype Pos = Pos(x: int, z: int)

  type Grid = seq<seq<Cell>>

  const AllClosed: Walls := Walls(true, true, true, true)

  /** The cell every grid slot starts with (main.js:61). */
  const FreshCell: Cell := Cell(false, AllClosed)

  /** An order in which one call of the generator tries the four directions. */
  predicate IsPerm(s: seq<Dir>) {
    |s| == 4 && Top in s && Right in s && Bottom in s && Left in s
  }

  type Perm = s: seq<Dir> | IsPerm(s) witness [Top, Right, Bottom, Left]

  /** walls[dir] */
  function Wall(w: Walls, d: Dir): bool {
    match d
    case Top => w.top
    case Right => w.right
    case Bottom => w.bottom
    case Left => w.left
  }

  /** walls[dir] = false */
  function Cleared(w: Walls, d: Dir): (r: Walls)
    ensures !Wall(r, d)
    ensures forall e: Dir :: e != d ==> Wall(r, e) == Wall(w, e)
  {
    match d
    case Top => w.(top := false)
    case Right => w.(right := false)
    case Bottom => w.(bottom := false)
    case Left => w.(left := false)
  }

  /** The neighbour in direction d (main.js:70-74): top is z - 1, left is x - 1. */
  function Move(p: Pos, d: Dir): (q: Pos)
    ensures q != p && (q.x == p.x || q.z == p.z)
    ensures -1 <= q.x - p.x <= 1 && -1 <= q.z - p.z <= 1
    ensures q.x == p.x <==> d == Top || d == Bottom
  {
    match d
    case Top => Pos(p.x, p.z - 1)
    case Bottom => Pos(p.x, p.z + 1)
    case Left => Pos(p.x - 1, p.z)
    case Right => Pos(p.x + 1, p.z)
  }

  /** The flag the neighbour uses for the same wall (main.js:77-80). */
  function Opposite(d: Dir): (r: Dir)
    ensures r != d
    ensures forall p: Pos :: Move(Move(p, d), r) == p
  {
    match d
    case Top => Bottom
    case Bottom => Top
    case Left => Right
    case Right => Left
  }

  predicate InGrid(n: int, p: Pos) {
    0 <= p.x < n && 0 <= p.z < n
  }

  /** Every column has as many cells as there are columns. */
  predicate Square(g: Grid) {
    forall i :: 0 <= i < |g| ==> |g[i]| == |g|
  }

  function At(g: Grid, p: Pos): Cell
    requires Square(g) && InGrid(|g|, p)
  {
    g[p.x][p.z]
  }

  ghost function Cells(n: int): (r: set<Pos>)
    ensures forall p :: p in r <==> InGrid(n, p)
  {
    set x, z | 0 <= x < n && 0 <= z < n :: Pos(x, z)
  }

  /** grid[x][z].visited = true */
  function MarkVisited(g: Grid, p: Pos): (r: Grid)
    requires Square(g) && InGrid(|g|, p)
    ensures Square(r) && |r| == |g|
    ensures At(r, p) == At(g, p).(visited := true)
    ensures forall q {:trigger At(r, q)} :: InGrid(|g|, q) && q != p ==> At(r, q) == At(g, q)
  {
    g[p.x := g[p.x][p.z := g[p.x][p.z].(visited := true)]]
  }

  /** grid[x][z].walls[dir] = false */
  function ClearWall(g: Grid, p: Pos, d: Dir): (r: Grid)
    requires Square(g) && InGrid(|g|, p)
    ensures Square(r) && |r| == |g|
    ensures At(r, p) == At(g, p).(walls := Cleared(At(g, p).walls, d))
    ensures forall q {:trigger At(r, q)} :: InGrid(|g|, q) && q != p ==> At(r, q) == At(g, q)
  {
    g[p.x := g[p.x][p.z := g[p.x][p.z].(walls := Cleared(g[p.x][p.z].walls, d))]]
  }

  /** Both halves of opening the wall between p and its neighbour in direction d (main.js:76-80). */
  function OpenBetween(g: Grid, p: Pos, d: Dir): (r: Grid)
    requires Square(g) && InGrid(|g|, p) && InGrid(|g|, Move(p, d))
    ensures Square(r) && |r| == |g|
    ensures !Wall(At(r, p).walls, d) && !Wall(At(r, Move(p, d)).walls, Opposite(d))
    ensures At(r, p).visited == At(g, p).visited && At(r, Move(p, d)).visited == At(g, Move(p, d)).visited
    ensures forall q {:trigger At(r, q)} :: InGrid(|g|, q) && q != p && q != Move(p, d) ==> At(r, q) == At(g, q)
  {
    ClearWall(ClearWall(g, p, d), Move(p, d), Opposite(d))
  }

  /** The cell at p and its neighbour in direction d agree on the wall they share. */
  ghost predicate Agree(g: Grid, p: Pos, d: Dir)
    requires Square(g)
  {
    InGrid(|g|, p) && InGrid(|g|, Move(p, d)) ==>
      Wall(At(g, p).walls, d) == Wall(At(g, Move(p, d)).walls, Opposite(d))
  }

  /** Adjacent cells agree on every wall they share. */
  ghost predicate Symmetric(g: Grid)
    requires Square(g)
  {
    forall p: Pos, d: Dir :: Agree(g, p, d)
  }

  /** Walls on the outer edge of the lattice are closed. */
  ghost predicate BoundaryClosed(g: Grid)
    requires Square(g)
  {
    forall p: Pos, d: Dir {:trigger Wall(At(g, p).walls, d)} :: InGrid(|g|, p) && !InGrid(|g|, Move(p, d)) ==> Wall(At(g, p).walls, d)
  }

  /** Every unvisited cell other than c still has all four walls. */
  ghost predicate ClosedUnless(g: Grid, c: Pos)
    requires Square(g)
  {
    forall p: Pos {:trigger At(g, p)} :: InGrid(|g|, p) && p != c && !At(g, p).visited ==> At(g, p).walls == AllClosed
  }

  /** Every unvisited cell still has all four walls. */
  ghost predicate UnvisitedClosed(g: Grid)
    requires Square(g)
  {
    forall p: Pos {:trigger At(g, p)} :: InGrid(|g|, p) && !At(g, p).visited ==> At(g, p).walls == AllClosed
  }

  /** h differs from g only by visited flags set and wall flags cleared. */
  ghost predicate Grows(g: Grid, h: Grid)
  {
    && Square(g) && Square(h) && |g| == |h|
    && (forall p: Pos {:trigger At(h, p)} :: InGrid(|g|, p) && At(g, p).visited ==> At(h, p).visited)
    && (forall p: Pos, d: Dir {:trigger Wall(At(h, p).walls, d)} :: InGrid(|g|, p) && !Wall(At(g, p).walls, d) ==> !Wall(At(h, p).walls, d))
  }

  /** All in-grid neighbours of p are visited. */
  ghost predicate NeighboursVisited(g: Grid, p: Pos)
    requires Square(g)
  {
    forall d: Dir {:trigger At(g, Move(p, d))} :: InGrid(|g|, Move(p, d)) ==> At(g, Move(p, d)).visited
  }

  ghost function Visited(g: Grid): set<Pos>
    requires Square(g)
  {
    set p | p in Cells(|g|) && At(g, p).visited
  }

  ghost function Unvisited(g: Grid): set<Pos>
    requires Square(g)
  {
    set p | p in Cells(|g|) && !At(g, p).visited
  }

  /** The open shared walls, each named once by its cell on the -x/-z side. */
  ghost function Passages(g: Grid): set<(Pos, Dir)>
    requires Square(g)
  {
    set p, d | p in Cells(|g|) && d in Canonical && InGrid(|g|, Move(p, d)) && !Wall(At(g, p).walls, d) :: (p, d)
  }

  /** The name Passages gives the wall between p and Move(p, d). */
  function Canon(p: Pos, d: Dir): (Pos, Dir) {
    if d in Canonical then (p, d) else (Move(p, d), Opposite(d))
  }

  /** The grid main.js:57-63 builds: every cell unvisited with all walls. */
  ghost predicate Pristine(g: Grid)
  {
    Square(g) && forall p: Pos {:trigger At(g, p)} :: InGrid(|g|, p) ==> At(g, p) == FreshCell
  }

  /** main.js:57-63: build the size x size grid column by column. */
  method NewGrid(n: nat) returns (g: Grid)
    ensures |g| == n && Pristine(g)
  {
    g := [];
    for x := 0 to n
      invariant |g| == x
      invariant forall i, j :: 0 <= i < x && 0 <= j < n ==> |g[i]| == n && g[i][j] == FreshCell
      invariant forall i :: 0 <= i < x ==> |g[i]| == n
    {
      var column: seq<Cell> := [];
      for z := 0 to n
        invariant |column| == z
        invariant forall j :: 0 <= j < z ==> column[j] == FreshCell
      {
        column := column + [FreshCell];
      }
      g := g + [column];
    }
  }

  /** A pristine grid satisfies every generator invariant and has nothing visited or open. */
  lemma PristineFacts(g: Grid)
    requires Pristine(g)
    ensures Symmetric(g) && BoundaryClosed(g) && UnvisitedClosed(g)
    ensures Visited(g) == {} && Passages(g) == {}
  {
    forall p: Pos, d: Dir | InGrid(|g|, p)
      ensures Wall(At(g, p).walls, d)
    {
      assert At(g, p) == FreshCell;
    }
    forall p: Pos | InGrid(|g|, p)
      ensures !At(g, p).visited
    {
      assert At(g, p) == FreshCell;
    }
  }

  /** Two grids with the same wall flags everywhere have the same wall invariants and passages. */
  lemma SameWalls(g: Grid, r: Grid)
    requires Square(g) && Square(r) && |g| == |r|
    requires forall p: Pos :: InGrid(|g|, p) ==> At(r, p).walls == At(g, p).walls
    ensures Symmetric(g) ==> Symmetric(r)
    ensures BoundaryClosed(g) ==> BoundaryClosed(r)
    ensures Passages(r) == Passages(g)
  {
    if Symmetric(g) {
      forall p: Pos, d: Dir
        ensures Agree(r, p, d)
      {
        assert Agree(g, p, d);
        if InGrid(|g|, p) && InGrid(|g|, Move(p, d)) {
          assert At(r, p).walls == At(g, p).walls;
          assert At(r, Move(p, d)).walls == At(g, Move(p, d)).walls;
        }
      }
    }
    if BoundaryClosed(g) {
      forall p: Pos, d: Dir | InGrid(|g|, p) && !InGrid(|g|, Move(p, d))
        ensures Wall(At(r, p).walls, d)
      {
        assert At(r, p).walls == At(g, p).walls;
      }
    }
    forall x: (Pos, Dir)
      ensures x in Passages(r) <==> x in Passages(g)
    {
      if InGrid(|g|, x.0) {
        assert At(r, x.0).walls == At(g, x.0).walls;
      }
    }
  }

  /** Marking the current cell visited (main.js:67) keeps the invariants and adds exactly that cell. */
  lemma MarkVisitedEffect(g: Grid, c: Pos)
    requires Square(g) && InGrid(|g|, c) && !At(g, c).visited
    requires Symmetric(g) && BoundaryClosed(g) && ClosedUnless(g, c)
    ensures Symmetric(MarkVisited(g, c)) && BoundaryClosed(MarkVisited(g, c))
    ensures UnvisitedClosed(MarkVisited(g, c))
    ensures Grows(g, MarkVisited(g, c))
    ensures Visited(MarkVisited(g, c)) == Visited(g) + {c} && c !in Visited(g)
    ensures Passages(MarkVisited(g, c)) == Passages(g)
  {
    var r := MarkVisited(g, c);
    SameWalls(g, r);
    forall p: Pos
      ensures p in Visited(r) <==> p in Visited(g) || p == c
    {
    }
  }

  /**
   * Opening the wall from a visited cell p to an unvisited neighbour (main.js:75-80)
   * keeps adjacent cells in agreement, leaves the boundary closed, and adds exactly
   * one passage that was not there before.
   */
  lemma OpenBetweenEffect(g: Grid, p: Pos, d: Dir)
    requires Square(g) && InGrid(|g|, p) && InGrid(|g|, Move(p, d))
    requires At(g, p).visited && !At(g, Move(p, d)).visited
    requires Symmetric(g) && BoundaryClosed(g) && UnvisitedClosed(g)
    ensures Symmetric(OpenBetween(g, p, d)) && BoundaryClosed(OpenBetween(g, p, d))
    ensures ClosedUnless(OpenBetween(g, p, d), Move(p, d))
    ensures Grows(g, OpenBetween(g, p, d))
    ensures !Wall(At(OpenBetween(g, p, d), p).walls, d)
    ensures forall c: Pos {:trigger At(OpenBetween(g, p, d), c)} :: InGrid(|g|, c) ==> At(OpenBetween(g, p, d), c).visited == At(g, c).visited
    ensures Visited(OpenBetween(g, p, d)) == Visited(g)
    ensures Canon(p, d) !in Passages(g)
    ensures Passages(OpenBetween(g, p, d)) == Passages(g) + {Canon(p, d)}
  {
    var q := Move(p, d);
    var r := OpenBetween(g, p, d);
    assert At(g, q).walls == AllClosed;
    assert Agree(g, p, d);
    OpenBetweenCells(g, p, d);
    OpenBetweenSymmetric(g, p, d);
    OpenBetweenPassages(g, p, d);
    assert Visited(r) == Visited(g);
  }

  /** Opening changes no visited flag and clears exactly the two flags of the shared wall. */
  lemma OpenBetweenCells(g: Grid, p: Pos, d: Dir)
    requires Square(g) && InGrid(|g|, p) && InGrid(|g|, Move(p, d))
    ensures forall c: Pos {:trigger At(OpenBetween(g, p, d), c)} :: InGrid(|g|, c) ==> At(OpenBetween(g, p, d), c).visited == At(g, c).visited
    ensures forall c: Pos, e: Dir {:trigger Wall(At(OpenBetween(g, p, d), c).walls, e)} :: InGrid(|g|, c) ==>
      Wall(At(OpenBetween(g, p, d), c).walls, e) == (Wall(At(g, c).walls, e) && (c, e) != (p, d) && (c, e) != (Move(p, d), Opposite(d)))
  {
    var q, r := Move(p, d), OpenBetween(g, p, d);
    assert Move(q, Opposite(d)) == p;
    forall c: Pos | InGrid(|g|, c)
      ensures At(r, c).visited == At(g, c).visited
      ensures forall e: Dir :: Wall(At(r, c).walls, e) == (Wall(At(g, c).walls, e) && (c, e) != (p, d) && (c, e) != (q, Opposite(d)))
    {
    }
  }

  /** Opening clears both flags of one shared wall, so neighbours still agree. */
  lemma OpenBetweenSymmetric(g: Grid, p: Pos, d: Dir)
    requires Square(g) && InGrid(|g|, p) && InGrid(|g|, Move(p, d)) && Symmetric(g)
    ensures Symmetric(OpenBetween(g, p, d))
  {
    var q, r := Move(p, d), OpenBetween(g, p, d);
    OpenBetweenCells(g, p, d);
    assert Move(q, Opposite(d)) == p;
    forall c: Pos, e: Dir
      ensures Agree(r, c, e)
    {
      var c' := Move(c, e);
      assert Move(c', Opposite(e)) == c;
      assert Agree(g, c, e);
      if InGrid(|g|, c) && InGrid(|g|, c') {
        if (c, e) == (p, d) || (c, e) == (q, Opposite(d)) {
        } else {
          assert (c', Opposite(e)) != (p, d) && (c', Opposite(e)) != (q, Opposite(d));
        }
      }
    }
  }

  /** Opening a closed shared wall adds its one name to the passages. */
  lemma OpenBetweenPassages(g: Grid, p: Pos, d: Dir)
    requires Square(g) && InGrid(|g|, p) && InGrid(|g|, Move(p, d))
    requires Wall(At(g, p).walls, d) && Wall(At(g, Move(p, d)).walls, Opposite(d))
    ensures Canon(p, d) !in Passages(g)
    ensures Passages(OpenBetween(g, p, d)) == Passages(g) + {Canon(p, d)}
  {
    var q, r := Move(p, d), OpenBetween(g, p, d);
    OpenBetweenCells(g, p, d);
    assert Move(q, Opposite(d)) == p;
    forall x: (Pos, Dir)
      ensures x in Passages(r) <==> x in Passages(g) || x == Canon(p, d)
    {
      if x == Canon(p, d) {
        if d in Canonical {
        } else {
          assert Move(q, Opposite(d)) == p;
        }
      }
    }
  }

  /** Grows is a preorder on same-sized square grids. */
  lemma GrowsTrans(a: Grid, b: Grid, c: Grid)
    requires Grows(a, b) && Grows(b, c)
    ensures Grows(a, c)
  {
  }

  /** The lattice of n x n cells has n * n of them. */
  lemma {:induction false} CellsCount(n: nat)
    ensures |Cells(n)| == n * n
  {
    BlockCount(n, n);
    assert Cells(n) == Block(n, n);
  }

  ghost function Block(w: nat, h: nat): set<Pos>
  {
    set x, z | 0 <= x < w && 0 <= z < h :: Pos(x, z)
  }

  ghost function Column(x: int, h: nat): set<Pos>
  {
    set z | 0 <= z < h :: Pos(x, z)
  }

  lemma {:induction false} ColumnCount(x: int, h: nat)
    ensures |Column(x, h)| == h
  {
    if h == 0 {
      assert Column(x, h) == {};
    } else {
      ColumnCount(x, h - 1);
      assert Column(x, h) == Column(x, h - 1) + {Pos(x, h - 1)};
    }
  }

  lemma {:induction false} BlockCount(w: nat, h: nat)
    ensures |Block(w, h)| == w * h
  {
    if w == 0 {
      assert Block(w, h) == {};
    } else {
      BlockCount(w - 1, h);
      ColumnCount(w - 1, h);
      assert Block(w, h) == Block(w - 1, h) + Column(w - 1, h);
      assert Block(w - 1, h) !! Column(w - 1, h);
      assert w * h == (w - 1) * h + h;
    }
  }

  /**
   * A visited set that contains (0, 0) and every neighbour of its members
   * is the whole lattice.
   */
  lemma {:induction false} ClosureCoversGrid(g: Grid, p: Pos)
    requires Square(g) && InGrid(|g|, p)
    requires InGrid(|g|, Pos(0, 0)) && At(g, Pos(0, 0)).visited
    requires forall q :: q in Visited(g) ==> NeighboursVisited(g, q)
    ensures At(g, p).visited
    decreases p.x + p.z
  {
    if p.x > 0 {
      var q := Pos(p.x - 1, p.z);
      ClosureCoversGrid(g, q);
      assert q in Visited(g);
      assert Move(q, Right) == p;
    } else if p.z > 0 {
      var q := Pos(p.x, p.z - 1);
      ClosureCoversGrid(g, q);
      assert q in Visited(g);
      assert Move(q, Bottom) == p;
    }
  }
}
