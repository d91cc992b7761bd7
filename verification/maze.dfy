/**
 * The maze of main.js as the object it builds and then plays in: the cell
 * grid that generateMaze carves (main.js:57-85), the list of wall boxes the
 * placement loop fills (main.js:87-116), the breadth-first search that picks
 * the exit (main.js:126-148), the collision test (main.js:178-187) and one
 * frame of key-driven movement (main.js:207-212).
 */
module Game {
  import opened Seqs
  import opened Lattice
  import opened Reach
  import opened Carving
  import opened Geometry

  /** The distance findFarthestCell has recorded for p: its level if p is enqueued, -1 otherwise. */
  ghost function LevelOf(order: seq<Pos>, levels: seq<nat>, p: Pos): int
    requires |levels| == |order|
  {
    if order == [] then -1
    else if order[|order| - 1] == p then levels[|order| - 1]
    else LevelOf(order[..|order| - 1], levels[..|levels| - 1], p)
  }

  /** A cell has distance -1 exactly when it has not been enqueued. */
  lemma {:induction false} LevelOfMissing(order: seq<Pos>, levels: seq<nat>, p: Pos)
    requires |levels| == |order|
    ensures LevelOf(order, levels, p) == -1 <==> p !in order
  {
    if order != [] {
      var init := order[..|order| - 1];
      LevelOfMissing(init, levels[..|levels| - 1], p);
      assert order == init + [order[|order| - 1]];
    }
  }

  /** Each enqueued cell has the level it was enqueued with. */
  lemma {:induction false} LevelOfAt(order: seq<Pos>, levels: seq<nat>, i: int)
    requires |levels| == |order| && 0 <= i < |order|
    requires forall i, j :: 0 <= i < j < |order| ==> order[i] != order[j]
    ensures LevelOf(order, levels, order[i]) == levels[i]
  {
    if i < |order| - 1 {
      LevelOfAt(order[..|order| - 1], levels[..|levels| - 1], i);
    }
  }

  /** findFarthestCell's distances array (main.js:127-128) holds LevelOf for every cell. */
  ghost predicate Recorded(distances: array2<int>, n: int, order: seq<Pos>, levels: seq<nat>)
    reads distances
  {
    && distances.Length0 == n && distances.Length1 == n && |levels| == |order|
    && forall x, z :: 0 <= x < n && 0 <= z < n ==> distances[x, z] == LevelOf(order, levels, Pos(x, z))
  }

  /** order and levels continue order0 and levels0: the search only ever appends to them. */
  ghost predicate Extends(order0: seq<Pos>, levels0: seq<nat>, order: seq<Pos>, levels: seq<nat>) {
    && |order0| <= |order| && |levels0| <= |levels|
    && order[..|order0|] == order0 && levels[..|levels0|] == levels0
  }

  /**
   * The position of the first largest level among levels[..upto] (position
   * 0 when upto is 0): findFarthestCell replaces its answer only on a
   * strictly larger distance (main.js:133).
   */
  function Best(levels: seq<nat>, upto: nat): (b: nat)
    requires 0 < |levels| && upto <= |levels|
    ensures b < |levels| && (0 < upto ==> b < upto)
  {
    if upto <= 1 then 0
    else
      var b := Best(levels, upto - 1);
      if levels[upto - 1] > levels[b] then upto - 1 else b
  }

  /** Best picks a largest level, and the first one. */
  lemma {:induction false} BestIsFirstMax(levels: seq<nat>, upto: nat)
    requires 0 < upto <= |levels|
    ensures forall j :: 0 <= j < upto ==> levels[j] <= levels[Best(levels, upto)]
    ensures forall j :: 0 <= j < Best(levels, upto) ==> levels[j] < levels[Best(levels, upto)]
  {
    if upto > 1 {
      BestIsFirstMax(levels, upto - 1);
    }
  }

  /** Best only looks at the first upto levels. */
  lemma {:induction false} BestPrefix(levels0: seq<nat>, levels: seq<nat>, upto: nat)
    requires 0 < |levels0| <= |levels| && levels[..|levels0|] == levels0 && upto <= |levels0|
    ensures Best(levels, upto) == Best(levels0, upto)
  {
    if upto > 1 {
      BestPrefix(levels0, levels, upto - 1);
      assert levels[upto - 1] == levels0[upto - 1];
    }
  }

  /** findFarthestCell's running answer after `upto` dequeues: order[fi] is f, recorded at level m, and fi is Best. */
  ghost predicate Leads(order: seq<Pos>, levels: seq<nat>, fi: nat, upto: nat, f: Pos, m: int)
  {
    && |levels| == |order| && 0 < |order| && upto <= |order|
    && fi == Best(levels, upto) && order[fi] == f && levels[fi] == m
  }

  /** Dequeuing the cell at position head (main.js:132-134) moves the running answer on. */
  lemma LeadsNext(order: seq<Pos>, levels: seq<nat>, fi: nat, head: nat, f: Pos, m: int)
    requires Leads(order, levels, fi, head, f, m) && head < |order|
    ensures levels[head] > m ==> Leads(order, levels, head, head + 1, order[head], levels[head])
    ensures levels[head] <= m ==> Leads(order, levels, fi, head + 1, f, m)
  {
    if head == 0 {
      assert fi == 0;
    }
  }

  /** Enqueueing more cells keeps the running answer. */
  lemma LeadsExtend(order0: seq<Pos>, levels0: seq<nat>, order: seq<Pos>, levels: seq<nat>, fi: nat, upto: nat, f: Pos, m: int)
    requires Leads(order0, levels0, fi, upto, f, m) && |levels| == |order|
    requires Extends(order0, levels0, order, levels)
    ensures Leads(order, levels, fi, upto, f, m)
  {
    BestPrefix(levels0, levels, upto);
    BestIsFirstMax(levels0, if upto == 0 then 1 else upto);
    assert order[fi] == order0[fi] && levels[fi] == levels0[fi];
  }

  /**
   * What findFarthestCell's answer f is, for the enqueue order `order` and
   * the levels recorded with it: a grid cell at the largest graph distance
   * far from s, and the first enqueued cell at that distance; order lists
   * each reachable cell once, at its graph distance, and no other cell.
   */
  ghost predicate FirstFarthest(g: Grid, s: Pos, order: seq<Pos>, levels: seq<nat>, f: Pos, far: nat)
    requires Square(g)
  {
    && InGrid(|g|, f) && AtDist(g, s, f, far)
    && (forall v, k: nat :: AtDist(g, s, v, k) ==> k <= far)
    && (forall v :: v in order <==> Reachable(g, s, v))
    && Listed(g, s, order) && Layered(g, s, order, levels)
    && exists i :: 0 <= i < |order| && order[i] == f && levels[i] == far
                   && forall j :: 0 <= j < i ==> levels[j] < far
  }

  /** When the queue is empty, the leading cell is the first cell at the largest distance. */
  lemma Farthest(g: Grid, s: Pos, order: seq<Pos>, levels: seq<nat>, fi: nat, f: Pos, far: nat)
    requires Square(g) && SearchState(g, s, order, levels, |order|)
    requires Leads(order, levels, fi, |order|, f, far)
    ensures FirstFarthest(g, s, order, levels, f, far)
  {
    BestIsFirstMax(levels, |order|);
    SearchDone(g, s, order, levels);
    SearchBound(g, s, order, levels, far);
    assert AtDist(g, s, order[fi], levels[fi]);
  }

  /**
   * The answer FirstFarthest describes is unique: over the same enqueue
   * order, two answers are the same cell at the same distance.
   */
  lemma FarthestDetermined(g: Grid, s: Pos, order: seq<Pos>, levels: seq<nat>, levels2: seq<nat>,
                           f: Pos, f2: Pos, far: nat, far2: nat)
    requires Square(g) && FirstFarthest(g, s, order, levels, f, far) && FirstFarthest(g, s, order, levels2, f2, far2)
    ensures f == f2 && far == far2
  {
    assert far == far2;
    forall i | 0 <= i < |order|
      ensures levels[i] == levels2[i]
    {
      assert AtDist(g, s, order[i], levels[i]) && AtDist(g, s, order[i], levels2[i]);
      AtDistUnique(g, s, order[i], levels[i], levels2[i]);
    }
    var i :| 0 <= i < |order| && order[i] == f && levels[i] == far
             && forall j :: 0 <= j < i ==> levels[j] < far;
    var i2 :| 0 <= i2 < |order| && order[i2] == f2 && levels2[i2] == far2
              && forall j :: 0 <= j < i2 ==> levels2[j] < far2;
    assert i == i2;
  }

  class Maze {
    /** mazeSize (main.js:51): the grid is size x size cells. */
    const size: nat
    /** grid[x][z] (main.js:57). */
    var grid: Grid
    /** The wall meshes (main.js:55), as the boxes the collision test reads. */
    var walls: seq<Box>

    ghost predicate Valid()
      reads this
    {
      Square(grid) && |grid| == size
    }

    /** main.js:55-63: no walls yet and every cell unvisited with all four walls. */
    constructor (n: nat)
      ensures size == n && Valid() && Pristine(grid) && walls == []
    {
      size := n;
      new;
      grid := NewGrid(n);
      walls := [];
    }

    /**
     * generateMaze(x, z) (main.js:66-84): depth-first carving from (x, z),
     * trying the four directions in the order shuffle gives for that cell.
     */
    method GenerateMaze(x: int, z: int, shuffle: Pos -> Perm)
      requires Valid() && InGrid(size, Pos(x, z)) && !At(grid, Pos(x, z)).visited
      requires Symmetric(grid) && BoundaryClosed(grid) && ClosedUnless(grid, Pos(x, z))
      modifies this`grid
      ensures Valid()
      ensures Carved(old(grid), Pos(x, z), grid) && NeighboursVisited(grid, Pos(x, z))
      decreases Unvisited(grid)
    {
      var c := Pos(x, z);
      CarveStart(grid, c);
      grid := MarkVisited(grid, c);
      var dirs := shuffle(c);
      for i := 0 to 4
        invariant |dirs| == 4 && Valid() && Carved(old(grid), c, grid) && Tried(grid, c, dirs, i)
      {
        var dir := dirs[i];
        var nx, nz := x, z;
        if dir == Top { nz := nz - 1; }
        if dir == Bottom { nz := nz + 1; }
        if dir == Left { nx := nx - 1; }
        if dir == Right { nx := nx + 1; }
        assert Pos(nx, nz) == Move(c, dir);
        if 0 <= nx < size && 0 <= nz < size && !grid[nx][nz].visited {
          ghost var g := grid;
          OpenBetweenEffect(grid, c, dir);
          CarveShrinks(old(grid), c, grid, dir);
          grid := ClearWall(grid, c, dir);
          grid := ClearWall(grid, Pos(nx, nz), Opposite(dir));
          GenerateMaze(nx, nz, shuffle);
          CarveChild(old(grid), c, g, dir, grid);
          TriedGrows(g, grid, c, dirs, i);
        }
        TriedNext(grid, c, dirs, i);
      }
      TriedAll(grid, c, dirs);
    }

    /**
     * generateMaze(0, 0) on the fresh grid (main.js:85): every cell is
     * visited and reachable from (0, 0) through open walls, exactly
     * size * size - 1 shared walls are open, neighbours agree on every wall
     * and the outer boundary stays closed.
     */
    method BuildMaze(shuffle: Pos -> Perm)
      requires Valid() && Pristine(grid) && 0 < size
      modifies this`grid
      ensures Valid() && Symmetric(grid) && BoundaryClosed(grid)
      ensures forall p :: InGrid(size, p) ==> At(grid, p).visited && Reachable(grid, Pos(0, 0), p)
      ensures |Passages(grid)| == size * size - 1
    {
      ghost var g0 := grid;
      PristineFacts(grid);
      assert At(grid, Pos(0, 0)) == FreshCell;
      GenerateMaze(0, 0, shuffle);
      SpanningTree(g0, grid);
    }

    /** addWall(x, z, width, depth) (main.js:88-94): one more box in the wall list. */
    method AddWall(x: real, z: real, width: real, depth: real)
      modifies this`walls
      ensures walls == old(walls) + [Box(x, z, width, depth)]
    {
      walls := walls + [Box(x, z, width, depth)];
    }

    /**
     * The placement loop (main.js:97-116): one box for each closed flag, cell
     * by cell, column by column, in the order top, bottom, left, right.
     */
    method PlaceWalls()
      requires Valid()
      modifies this`walls
      ensures walls == old(walls) + Boxes(size, GridFlags(grid, size))
    {
      for x := 0 to size
        invariant walls == old(walls) + Boxes(size, GridFlags(grid, x))
      {
        assert GridFlags(grid, x) + ColumnFlags(grid[x], x, 0) == GridFlags(grid, x);
        for z := 0 to size
          invariant walls == old(walls) + Boxes(size, GridFlags(grid, x) + ColumnFlags(grid[x], x, z))
        {
          PlaceCell(x, z);
          AddCell(old(walls), grid, x, z);
        }
        AddColumn(old(walls), grid, x);
      }
    }

    /** The body of the placement loop for the cell (x, z) (main.js:99-114). */
    method PlaceCell(x: int, z: int)
      requires Valid() && InGrid(size, Pos(x, z))
      modifies this`walls
      ensures walls == old(walls) + Boxes(size, CellFlags(grid[x][z].walls, Pos(x, z)))
    {
      var cell := grid[x][z];
      var wx, wz := Centre(size, x), Centre(size, z);
      var overlap, full := Overlap, Full;
      ghost var p := Pos(x, z);
      ghost var fs: seq<Flag> := [];
      if cell.walls.top {
        assert WallBox(size, Flag(p, Top)) == Box(wx, wz - CellSize / 2.0 - overlap / 2.0, full, WallThickness + overlap);
        AddWall(wx, wz - CellSize / 2.0 - overlap / 2.0, full, WallThickness + overlap);
        AddBox(size, old(walls), fs, Flag(p, Top));
        fs := fs + [Flag(p, Top)];
      }
      assert walls == old(walls) + Boxes(size, fs) && fs == SideFlag(cell.walls, p, Top);
      if cell.walls.bottom {
        assert WallBox(size, Flag(p, Bottom)) == Box(wx, wz + CellSize / 2.0 + overlap / 2.0, full, WallThickness + overlap);
        AddWall(wx, wz + CellSize / 2.0 + overlap / 2.0, full, WallThickness + overlap);
        AddBox(size, old(walls), fs, Flag(p, Bottom));
        fs := fs + [Flag(p, Bottom)];
      }
      assert walls == old(walls) + Boxes(size, fs);
      assert fs == SideFlag(cell.walls, p, Top) + SideFlag(cell.walls, p, Bottom);
      if cell.walls.left {
        assert WallBox(size, Flag(p, Left)) == Box(wx - CellSize / 2.0 - overlap / 2.0, wz, WallThickness + overlap, full);
        AddWall(wx - CellSize / 2.0 - overlap / 2.0, wz, WallThickness + overlap, full);
        AddBox(size, old(walls), fs, Flag(p, Left));
        fs := fs + [Flag(p, Left)];
      }
      assert walls == old(walls) + Boxes(size, fs);
      assert fs == SideFlag(cell.walls, p, Top) + SideFlag(cell.walls, p, Bottom) + SideFlag(cell.walls, p, Left);
      if cell.walls.right {
        assert WallBox(size, Flag(p, Right)) == Box(wx + CellSize / 2.0 + overlap / 2.0, wz, WallThickness + overlap, full);
        AddWall(wx + CellSize / 2.0 + overlap / 2.0, wz, WallThickness + overlap, full);
        AddBox(size, old(walls), fs, Flag(p, Right));
        fs := fs + [Flag(p, Right)];
      }
      assert walls == old(walls) + Boxes(size, fs);
      assert fs == CellFlags(cell.walls, p);
    }

    /**
     * findFarthestCell(sx, sz) (main.js:126-148): breadth-first search from
     * (sx, sz) that returns the first dequeued cell at the largest distance.
     * The ghost results are the order in which cells were enqueued, the
     * distance recorded for each, and the largest distance.
     */
    method FindFarthestCell(sx: int, sz: int) returns (fx: int, fz: int, ghost order: seq<Pos>, ghost levels: seq<nat>, ghost far: nat)
      requires Valid() && InGrid(size, Pos(sx, sz))
      ensures order == Expand(grid, [Pos(sx, sz)], 0)
      ensures FirstFarthest(grid, Pos(sx, sz), order, levels, Pos(fx, fz), far)
    {
      var s := Pos(sx, sz);
      var distances := StartDistances(s);
      var queue := [s];
      fx, fz := sx, sz;
      var maxDist := 0;
      order, levels := [s], [0];
      ghost var head: nat, fi: nat := 0, 0;
      ghost var trace: seq<seq<Pos>> := [order];
      SearchStart(grid, s);
      while queue != []
        invariant SearchState(grid, s, order, levels, head)
        invariant Traced(grid, s, trace, head, order)
        invariant queue == order[head..]
        invariant Recorded(distances, size, order, levels)
        invariant Leads(order, levels, fi, head, Pos(fx, fz), maxDist)
        decreases size * size - head
      {
        ListedFits(grid, s, order);
        queue, fx, fz, maxDist, order, levels, fi, trace := ExpandHead(distances, s, queue, fx, fz, maxDist, order, levels, head, fi, trace);
        head := head + 1;
      }
      far := maxDist;
      assert head == |order|;
      TracedExpand(grid, s, trace, order);
      Farthest(grid, s, order, levels, fi, Pos(fx, fz), far);
    }

    /**
     * One pass of findFarthestCell's while loop (main.js:132-145): dequeue
     * the head cell, keep it as the answer when its distance is strictly
     * larger, and visit its neighbours; every loop invariant moves on to
     * the next head.
     */
    method ExpandHead(distances: array2<int>, s: Pos, queue: seq<Pos>, fx: int, fz: int, maxDist: int,
                      ghost order: seq<Pos>, ghost levels: seq<nat>, ghost head: nat, ghost fi: nat, ghost trace: seq<seq<Pos>>)
      returns (queue': seq<Pos>, fx': int, fz': int, maxDist': int,
               ghost order': seq<Pos>, ghost levels': seq<nat>, ghost fi': nat, ghost trace': seq<seq<Pos>>)
      requires Valid() && queue != []
      requires SearchState(grid, s, order, levels, head) && Traced(grid, s, trace, head, order)
      requires queue == order[head..] && Recorded(distances, size, order, levels)
      requires Leads(order, levels, fi, head, Pos(fx, fz), maxDist)
      modifies distances
      ensures SearchState(grid, s, order', levels', head + 1) && Traced(grid, s, trace', head + 1, order')
      ensures queue' == order'[head + 1..] && Recorded(distances, size, order', levels')
      ensures Leads(order', levels', fi', head + 1, Pos(fx', fz'), maxDist')
    {
      ListedFits(grid, s, order);
      var p, dist;
      p, dist, queue', fx', fz', maxDist', fi' := TakeHead(distances, queue, fx, fz, maxDist, order, levels, head, fi);
      queue', order', levels' := VisitNeighbours(distances, s, p, dist, queue', order, levels, head);
      TraceNext(grid, s, trace, head, order, p, order');
      trace' := trace + [order'];
      LeadsExtend(order, levels, order', levels', fi', head + 1, Pos(fx', fz'), maxDist');
    }

    /**
     * The dequeue of main.js:132-134: take the head cell p and its distance,
     * and make p the answer when that distance is strictly larger.
     */
    method TakeHead(distances: array2<int>, queue: seq<Pos>, fx: int, fz: int, maxDist: int,
                    ghost order: seq<Pos>, ghost levels: seq<nat>, ghost head: nat, ghost fi: nat)
      returns (p: Pos, dist: int, queue': seq<Pos>, fx': int, fz': int, maxDist': int, ghost fi': nat)
      requires head <= |order| && queue != [] && queue == order[head..] && Recorded(distances, size, order, levels)
      requires Distinct(order) && InGrid(size, order[head])
      requires Leads(order, levels, fi, head, Pos(fx, fz), maxDist)
      ensures p == order[head] && dist == levels[head] && queue' == order[head + 1..]
      ensures Leads(order, levels, fi', head + 1, Pos(fx', fz'), maxDist')
    {
      p := queue[0];
      queue' := queue[1..];
      LevelOfAt(order, levels, head);
      dist := distances[p.x, p.z];
      LeadsNext(order, levels, fi, head, Pos(fx, fz), maxDist);
      fx', fz', maxDist', fi' := fx, fz, maxDist, fi;
      if dist > maxDist {
        maxDist' := dist;
        fx', fz' := p.x, p.z;
        fi' := head;
      }
    }

    /**
     * The exit of main.js:150-154: the cell findFarthestCell(0, 0) picks,
     * and the centre of that cell.
     */
    method PlaceExit() returns (exit: Pos, exitPos: Vec, ghost order: seq<Pos>, ghost levels: seq<nat>, ghost far: nat)
      requires Valid() && 0 < size
      ensures InGrid(size, exit) && exitPos == CellCentre(size, exit)
      ensures AtDist(grid, Pos(0, 0), exit, far) && forall v, k: nat :: AtDist(grid, Pos(0, 0), v, k) ==> k <= far
      ensures order == Expand(grid, [Pos(0, 0)], 0) && FirstFarthest(grid, Pos(0, 0), order, levels, exit, far)
    {
      var fx, fz;
      fx, fz, order, levels, far := FindFarthestCell(0, 0);
      exit := Pos(fx, fz);
      exitPos := Vec((fx as real - size as real / 2.0) * CellSize + CellSize / 2.0,
                     (fz as real - size as real / 2.0) * CellSize + CellSize / 2.0);
    }

    /** The distances array of findFarthestCell (main.js:127-129): -1 everywhere except 0 at the start s. */
    method StartDistances(s: Pos) returns (distances: array2<int>)
      requires InGrid(size, s)
      ensures fresh(distances) && Recorded(distances, size, [s], [0])
    {
      distances := new int[size, size]((_, _) => -1);
      distances[s.x, s.z] := 0;
    }

    /**
     * The inner loop of findFarthestCell (main.js:135-145): visits the open
     * neighbours of the dequeued cell p in order; afterwards p is fully expanded.
     */
    method VisitNeighbours(distances: array2<int>, s: Pos, p: Pos, dist: int, queue: seq<Pos>,
                           ghost order: seq<Pos>, ghost levels: seq<nat>, ghost head: nat)
      returns (queue': seq<Pos>, ghost order': seq<Pos>, ghost levels': seq<nat>)
      requires Valid() && SearchState(grid, s, order, levels, head)
      requires head < |order| && order[head] == p && levels[head] == dist
      requires queue == order[head + 1..] && Recorded(distances, size, order, levels)
      modifies distances
      ensures order' == Enqueue(order, Neighbours(grid, p.x, p.z))
      ensures levels' == levels + Repeat(dist + 1, |order'| - |order|)
      ensures SearchState(grid, s, order', levels', head + 1)
      ensures queue' == order'[head + 1..] && Recorded(distances, size, order', levels')
      ensures Extends(order, levels, order', levels')
    {
      var neighbors := Neighbours(grid, p.x, p.z);
      queue', order', levels' := VisitEach(distances, neighbors, dist, queue, order, levels, head);
      SearchPass(grid, s, order, levels, head, order', levels');
      assert levels'[..|levels|] == levels;
    }

    /** The for loop of main.js:136-145: Visit for each listed neighbour in turn. */
    method VisitEach(distances: array2<int>, neighbors: seq<Pos>, dist: int, queue: seq<Pos>,
                     ghost order: seq<Pos>, ghost levels: seq<nat>, ghost head: nat)
      returns (queue': seq<Pos>, ghost order': seq<Pos>, ghost levels': seq<nat>)
      requires head < |order| && |levels| == |order| && levels[head] == dist
      requires forall i :: 0 <= i < |neighbors| ==> InGrid(size, neighbors[i])
      requires queue == order[head + 1..] && Recorded(distances, size, order, levels)
      modifies distances
      ensures order' == Enqueue(order, neighbors)
      ensures levels' == levels + Repeat(dist + 1, |order'| - |order|)
      ensures queue' == order'[head + 1..] && Recorded(distances, size, order', levels')
    {
      queue', order', levels' := queue, order, levels;
      for k := 0 to |neighbors|
        invariant order' == Enqueue(order, neighbors[..k])
        invariant levels' == levels + Repeat(dist + 1, |order'| - |order|)
        invariant queue' == order'[head + 1..] && Recorded(distances, size, order', levels')
      {
        ghost var (order0, levels0) := (order', levels');
        assert levels0[head] == dist;
        queue', order', levels' := Visit(distances, neighbors[k], dist, queue', order', levels', head);
        EnqueueNext(order, neighbors, k);
        LevelsStep(levels, dist + 1, order, order0, levels0, neighbors[k], order', levels');
      }
      assert neighbors[..|neighbors|] == neighbors;
    }

    /** The levels after one more Visit of VisitEach's loop: one more v exactly when q was appended. */
    lemma LevelsStep(levels: seq<nat>, v: nat, order: seq<Pos>, o0: seq<Pos>, l0: seq<nat>, q: Pos, o1: seq<Pos>, l1: seq<nat>)
      requires |order| <= |o0| && l0 == levels + Repeat(v, |o0| - |order|)
      requires if q in o0 then o1 == o0 && l1 == l0 else o1 == o0 + [q] && l1 == l0 + [v]
      ensures l1 == levels + Repeat(v, |o1| - |order|)
    {
      var m0, m1 := |o0| - |order|, |o1| - |order|;
      if q in o0 {
        assert m1 == m0;
      } else {
        assert m1 == m0 + 1;
        RepeatAppend(levels, v, m0);
      }
    }

    /**
     * One neighbour q of the dequeued cell (main.js:140-144): if its
     * distance is still -1 it gets distance dist + 1 and joins the queue,
     * otherwise nothing changes.
     */
    method Visit(distances: array2<int>, q: Pos, dist: int, queue: seq<Pos>,
                 ghost order: seq<Pos>, ghost levels: seq<nat>, ghost head: nat)
      returns (queue': seq<Pos>, ghost order': seq<Pos>, ghost levels': seq<nat>)
      requires head < |order| && head < |levels| && levels[head] == dist && InGrid(size, q)
      requires queue == order[head + 1..] && Recorded(distances, size, order, levels)
      modifies distances
      ensures if q in order then order' == order && levels' == levels
              else order' == order + [q] && levels' == levels + [dist + 1]
      ensures queue' == order'[head + 1..] && Recorded(distances, size, order', levels')
    {
      LevelOfMissing(order, levels, q);
      queue', order', levels' := queue, order, levels;
      if distances[q.x, q.z] == -1 {
        distances[q.x, q.z] := dist + 1;
        queue' := queue + [q];
        order', levels' := order + [q], levels + [dist + 1];
      }
    }

    /** checkCollision(pos) (main.js:178-187): some wall, grown by the camera's radius, contains pos. */
    method CheckCollision(pos: Vec) returns (hit: bool)
      ensures hit <==> Collides(walls, pos)
    {
      for i := 0 to |walls|
        invariant forall j :: 0 <= j < i ==> !Hits(walls[j], pos)
      {
        var wall := walls[i];
        var dx := Abs(pos.x - wall.cx);
        var dz := Abs(pos.z - wall.cz);
        var hw := wall.width / 2.0;
        var hd := wall.depth / 2.0;
        if dx < hw + CameraRadius && dz < hd + CameraRadius {
          return true;
        }
      }
      return false;
    }

    /** One guarded key step: move by step unless the moved point collides. */
    method TryStep(p: Vec, step: Vec) returns (q: Vec)
      ensures q == Advance(walls, p, [step])
    {
      var pos := Add(p, step);
      var hit := CheckCollision(pos);
      q := p;
      if !hit {
        q := pos;
      }
    }

    /**
     * The movement part of one frame (main.js:205-212): try the held keys
     * in the order w, s, a, d, each step kept only when it does not collide.
     * A camera that starts clear of every wall ends clear of every wall.
     */
    method MoveCamera(position: Vec, keys: Keys, forward: Vec) returns (newPos: Vec)
      ensures newPos == Advance(walls, position, Proposals(keys, forward))
      ensures !Collides(walls, position) ==> !Collides(walls, newPos)
    {
      var right := RightOf(forward);
      newPos := position;
      ghost var tried: seq<Vec> := [];
      if keys.w {
        var step := Scale(forward, MoveSpeed);
        AdvanceAppend(walls, position, tried, [step]);
        newPos := TryStep(newPos, step);
        tried := tried + [step];
      }
      if keys.s {
        var step := Scale(forward, -MoveSpeed);
        AdvanceAppend(walls, position, tried, [step]);
        newPos := TryStep(newPos, step);
        tried := tried + [step];
      }
      if keys.a {
        var step := Scale(right, -MoveSpeed);
        AdvanceAppend(walls, position, tried, [step]);
        newPos := TryStep(newPos, step);
        tried := tried + [step];
      }
      if keys.d {
        var step := Scale(right, MoveSpeed);
        AdvanceAppend(walls, position, tried, [step]);
        newPos := TryStep(newPos, step);
        tried := tried + [step];
      }
      assert tried == Proposals(keys, forward);
      if !Collides(walls, position) {
        AdvanceKeepsClear(walls, position, tried);
      }
    }
  }
  /** mazeSize (main.js:51). */
  const MazeSize: nat := 24

  /**
   * The maze of main.js:51-116: a MazeSize grid carved by generateMaze(0, 0),
   * then one wall box per closed flag.
   */
  method MakeMaze(shuffle: Pos -> Perm) returns (m: Maze)
    ensures fresh(m) && m.Valid() && m.size == MazeSize
    ensures m.walls == Boxes(MazeSize, GridFlags(m.grid, MazeSize))
    ensures forall p :: InGrid(MazeSize, p) ==> Reachable(m.grid, Pos(0, 0), p)
    ensures |Passages(m.grid)| == MazeSize * MazeSize - 1
  {
    m := new Maze(MazeSize);
    m.BuildMaze(shuffle);
    m.PlaceWalls();
  }

  /**
   * The script's set-up (main.js:51-154): a MazeSize grid carved from (0, 0),
   * its wall boxes, the camera at the centre of cell (0, 0) and the exit at
   * the centre of the first cell farthest from (0, 0). Every cell is
   * reachable, and neither the camera nor the exit starts inside a wall.
   */
  method SetUp(shuffle: Pos -> Perm) returns (m: Maze, camera: Vec, exit: Pos, exitPos: Vec,
                                             ghost order: seq<Pos>, ghost levels: seq<nat>, ghost far: nat)
    ensures fresh(m) && m.Valid() && m.size == MazeSize
    ensures m.walls == Boxes(MazeSize, GridFlags(m.grid, MazeSize))
    ensures forall p :: InGrid(MazeSize, p) ==> Reachable(m.grid, Pos(0, 0), p)
    ensures |Passages(m.grid)| == MazeSize * MazeSize - 1
    ensures camera == CellCentre(MazeSize, Pos(0, 0)) && !Collides(m.walls, camera)
    ensures InGrid(MazeSize, exit) && exitPos == CellCentre(MazeSize, exit) && !Collides(m.walls, exitPos)
    ensures AtDist(m.grid, Pos(0, 0), exit, far) && forall v, k: nat :: AtDist(m.grid, Pos(0, 0), v, k) ==> k <= far
    ensures order == Expand(m.grid, [Pos(0, 0)], 0) && FirstFarthest(m.grid, Pos(0, 0), order, levels, exit, far)
  {
    m := MakeMaze(shuffle);
    var start := -(MazeSize as real) / 2.0 * CellSize + CellSize / 2.0;
    camera := Vec(start, start);
    StartIsCellCentre(MazeSize);
    CellCentreClear(MazeSize, Pos(0, 0), GridFlags(m.grid, MazeSize));
    exit, exitPos, order, levels, far := m.PlaceExit();
    CellCentreClear(MazeSize, exit, GridFlags(m.grid, MazeSize));
  }
}
