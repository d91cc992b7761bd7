/**
 * What one call of generateMaze (main.js:66-84) achieves: starting from an
 * unvisited cell c, it visits a set of cells that were unvisited, opens one
 * shared wall fewer than the cells it visits, and leaves every one of them
 * reachable from c, so the opened walls form a tree over those cells.
 */
module Carving {
  import opened Lattice
  import opened Reach

  /** p was unvisited in g0 and is visited in g. */
  ghost predicate Fresh(g0: Grid, g: Grid, p: Pos)
    requires Square(g0) && Square(g) && |g0| == |g|
  {
    InGrid(|g|, p) && At(g, p).visited && !At(g0, p).visited
  }

  /**
   * g is g0 after the generator has carved from c: only flags changed in
   * the allowed direction, the wall invariants hold, the newly visited cells
   * outnumber the newly opened passages by one, all of them are reachable
   * from c, and each of them other than c has no unvisited neighbour.
   */
  ghost predicate Carved(g0: Grid, c: Pos, g: Grid)
  {
    && Grows(g0, g) && InGrid(|g|, c) && At(g, c).visited
    && Symmetric(g) && BoundaryClosed(g) && UnvisitedClosed(g)
    && |Visited(g)| + |Passages(g0)| == |Visited(g0)| + |Passages(g)| + 1
    && (forall p {:trigger Fresh(g0, g, p)} :: Fresh(g0, g, p) ==> Reachable(g, c, p))
    && (forall p {:trigger Fresh(g0, g, p)} :: Fresh(g0, g, p) && p != c ==> NeighboursVisited(g, p))
  }

  /** The neighbours of c in the first i directions of dirs are visited or off the grid. */
  ghost predicate Tried(g: Grid, c: Pos, dirs: seq<Dir>, i: int)
    requires Square(g) && i <= |dirs|
  {
    forall j :: 0 <= j < i && InGrid(|g|, Move(c, dirs[j])) ==> At(g, Move(c, dirs[j])).visited
  }

  lemma TriedNext(g: Grid, c: Pos, dirs: seq<Dir>, i: int)
    requires Square(g) && 0 <= i < |dirs| && Tried(g, c, dirs, i)
    requires InGrid(|g|, Move(c, dirs[i])) ==> At(g, Move(c, dirs[i])).visited
    ensures Tried(g, c, dirs, i + 1)
  {
  }

  lemma TriedGrows(g: Grid, h: Grid, c: Pos, dirs: seq<Dir>, i: int)
    requires Grows(g, h) && i <= |dirs| && Tried(g, c, dirs, i)
    ensures Tried(h, c, dirs, i)
  {
    forall j | 0 <= j < i && InGrid(|h|, Move(c, dirs[j]))
      ensures At(h, Move(c, dirs[j])).visited
    {
      assert At(g, Move(c, dirs[j])).visited;
    }
  }

  /** Once all four directions are tried, every neighbour of c is visited. */
  lemma TriedAll(g: Grid, c: Pos, dirs: Perm)
    requires Square(g) && Tried(g, c, dirs, 4)
    ensures NeighboursVisited(g, c)
  {
    forall d: Dir | InGrid(|g|, Move(c, d))
      ensures At(g, Move(c, d)).visited
    {
      assert d in dirs;
    }
  }

  /** Marking c visited (main.js:67) starts a carve from c. */
  lemma CarveStart(g0: Grid, c: Pos)
    requires Square(g0) && InGrid(|g0|, c) && !At(g0, c).visited
    requires Symmetric(g0) && BoundaryClosed(g0) && ClosedUnless(g0, c)
    ensures Carved(g0, c, MarkVisited(g0, c))
  {
    var g := MarkVisited(g0, c);
    MarkVisitedEffect(g0, c);
    assert c in Ball(g, c, 0);
    forall p | Fresh(g0, g, p)
      ensures p == c
    {
    }
  }

  /** Carving on from an unvisited neighbour never revisits c, so the unvisited set shrinks. */
  lemma CarveShrinks(g0: Grid, c: Pos, g: Grid, d: Dir)
    requires Carved(g0, c, g) && !At(g0, c).visited && InGrid(|g|, Move(c, d))
    ensures Unvisited(OpenBetween(g, c, d)) < Unvisited(g0)
  {
    var g1 := OpenBetween(g, c, d);
    OpenBetweenCells(g, c, d);
    forall p | p in Unvisited(g1)
      ensures p in Unvisited(g0)
    {
      assert !At(g, p).visited;
    }
    assert c in Unvisited(g0) && c !in Unvisited(g1);
  }

  /**
   * Opening the wall from c to its unvisited neighbour (main.js:76-80) and
   * carving from that neighbour (main.js:81) extends the carve from c.
   */
  lemma CarveChild(g0: Grid, c: Pos, g: Grid, d: Dir, h: Grid)
    requires Carved(g0, c, g) && InGrid(|g|, Move(c, d)) && !At(g, Move(c, d)).visited
    requires Carved(OpenBetween(g, c, d), Move(c, d), h) && NeighboursVisited(h, Move(c, d))
    ensures Carved(g0, c, h) && Grows(g, h)
  {
    var q := Move(c, d);
    var g1 := OpenBetween(g, c, d);
    OpenBetweenEffect(g, c, d);
    GrowsTrans(g, g1, h);
    GrowsTrans(g0, g, h);
    assert CanMove(h, c, d);
    ReachStep(h, c, d);
    forall p | Fresh(g0, h, p)
      ensures Reachable(h, c, p)
    {
      if Fresh(g0, g, p) {
        ReachOpens(g, h, c, p);
      } else {
        assert Fresh(g1, h, p);
        ReachTrans(h, c, q, p);
      }
    }
    forall p | Fresh(g0, h, p) && p != c
      ensures NeighboursVisited(h, p)
    {
      if Fresh(g0, g, p) {
        assert NeighboursVisited(g, p);
      } else {
        assert Fresh(g1, h, p);
      }
    }
  }

  /**
   * Carving from (0, 0) of the grid main.js:57-63 builds (main.js:85) visits
   * every cell, opens n * n - 1 walls and connects every cell to (0, 0): the
   * open walls form a spanning tree of the lattice.
   */
  lemma SpanningTree(g0: Grid, g: Grid)
    requires Pristine(g0) && 0 < |g0|
    requires Carved(g0, Pos(0, 0), g) && NeighboursVisited(g, Pos(0, 0))
    ensures forall p :: InGrid(|g|, p) ==> At(g, p).visited && Reachable(g, Pos(0, 0), p)
    ensures |Passages(g)| == |g| * |g| - 1
  {
    var n := |g|;
    PristineFacts(g0);
    forall p | InGrid(n, p)
      ensures !At(g0, p).visited
    {
      assert At(g0, p) == FreshCell;
    }
    forall q | q in Visited(g)
      ensures NeighboursVisited(g, q)
    {
      assert Fresh(g0, g, q);
    }
    forall p | InGrid(n, p)
      ensures At(g, p).visited && Reachable(g, Pos(0, 0), p)
    {
      ClosureCoversGrid(g, p);
      assert Fresh(g0, g, p);
    }
    assert Visited(g) == Cells(n);
    CellsCount(n);
  }
}
