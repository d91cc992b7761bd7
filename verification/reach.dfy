/**
 * Movement through open walls, the way findFarthestCell (main.js:126-148)
 * moves: from a cell to its in-grid neighbour when the cell's own flag for
 * that side is cleared. Graph distance is defined by the sets of cells
 * reachable in at most k such moves.
 */
module Reach {
  import opened Seqs
  import opened Lattice

  /** May one move from p through its d wall? */
  ghost predicate CanMove(g: Grid, p: Pos, d: Dir)
    requires Square(g)
  {
    InGrid(|g|, p) && InGrid(|g|, Move(p, d)) && !Wall(At(g, p).walls, d)
  }

  /** Cells one open-wall move away from some cell of S. */
  ghost function Step(g: Grid, S: set<Pos>): set<Pos>
    requires Square(g)
  {
    set p, d {:trigger CanMove(g, p, d)} | p in S && d in AllDirs && CanMove(g, p, d) :: Move(p, d)
  }

  /** Cells reachable from s in at most k moves. */
  ghost function Ball(g: Grid, s: Pos, k: nat): set<Pos>
    requires Square(g)
  {
    if k == 0 then {s} else Ball(g, s, k - 1) + Step(g, Ball(g, s, k - 1))
  }

  ghost predicate Reachable(g: Grid, s: Pos, v: Pos)
    requires Square(g)
  {
    exists k: nat :: v in Ball(g, s, k)
  }

  /** The graph distance from s to v is k. */
  ghost predicate AtDist(g: Grid, s: Pos, v: Pos, k: nat)
    requires Square(g)
  {
    v in Ball(g, s, k) && (k == 0 || v !in Ball(g, s, k - 1))
  }

  /** The cells one open-wall move from p. */
  ghost function Adjacent(g: Grid, p: Pos): set<Pos>
    requires Square(g)
  {
    Step(g, {p})
  }

  lemma AdjacentMove(g: Grid, p: Pos, d: Dir)
    requires Square(g) && CanMove(g, p, d)
    ensures Move(p, d) in Adjacent(g, p)
  {
    assert p in {p};
  }

  /** The neighbours findFarthestCell lists for (x, z), in its order (main.js:135-139). */
  function Neighbours(g: Grid, x: int, z: int): (r: seq<Pos>)
    requires Square(g) && InGrid(|g|, Pos(x, z))
    ensures |r| <= 4
    ensures forall i :: 0 <= i < |r| ==> InGrid(|g|, r[i])
  {
    var n, w := |g|, g[x][z].walls;
    (if !w.top && z > 0 then [Pos(x, z - 1)] else [])
    + (if !w.bottom && z < n - 1 then [Pos(x, z + 1)] else [])
    + (if !w.left && x > 0 then [Pos(x - 1, z)] else [])
    + (if !w.right && x < n - 1 then [Pos(x + 1, z)] else [])
  }

  /** The listed neighbours are exactly the cells one open-wall move from (x, z). */
  lemma NeighboursExact(g: Grid, x: int, z: int)
    requires Square(g) && InGrid(|g|, Pos(x, z))
    ensures forall q :: q in Neighbours(g, x, z) <==> q in Adjacent(g, Pos(x, z))
  {
    var p, r := Pos(x, z), Neighbours(g, x, z);
    forall q | q in Step(g, {p})
      ensures q in r
    {
      var u, e :| u in {p} && e in AllDirs && CanMove(g, u, e) && Move(u, e) == q;
    }
    forall q | q in r
      ensures q in Step(g, {p})
    {
      var e := if q == Move(p, Top) then Top else if q == Move(p, Bottom) then Bottom
        else if q == Move(p, Left) then Left else Right;
      assert CanMove(g, p, e) && Move(p, e) == q;
    }
  }

  /**
   * The enqueue list after the neighbours ns are handled one by one
   * (main.js:140-145): each one not enqueued by then is appended.
   */
  function Enqueue(order: seq<Pos>, ns: seq<Pos>): (r: seq<Pos>)
    ensures |order| <= |r| && r[..|order|] == order
    decreases |ns|
  {
    if ns == [] then order
    else
      var o := Enqueue(order, ns[..|ns| - 1]);
      if ns[|ns| - 1] in o then o else o + [ns[|ns| - 1]]
  }

  /** After the enqueue, the list holds the cells it held before and every listed neighbour, and no other. */
  lemma {:induction false} EnqueueMembers(order: seq<Pos>, ns: seq<Pos>)
    ensures forall v :: v in Enqueue(order, ns) <==> v in order || v in ns
    decreases |ns|
  {
    if ns != [] {
      var init, q := ns[..|ns| - 1], ns[|ns| - 1];
      assert ns == init + [q];
      EnqueueMembers(order, init);
    }
  }

  /** Handling one more listed neighbour q appends it exactly when it is not enqueued yet. */
  lemma EnqueueNext(order: seq<Pos>, ns: seq<Pos>, k: nat)
    requires k < |ns|
    ensures Enqueue(order, ns[..k + 1])
         == if ns[k] in Enqueue(order, ns[..k]) then Enqueue(order, ns[..k]) else Enqueue(order, ns[..k]) + [ns[k]]
  {
    assert ns[..k + 1][..k] == ns[..k];
  }

  /** Balls only grow with k. */
  lemma {:induction false} BallGrows(g: Grid, s: Pos, i: nat, j: nat)
    requires Square(g) && i <= j
    ensures Ball(g, s, i) <= Ball(g, s, j)
    decreases j
  {
    if i < j {
      BallGrows(g, s, i, j - 1);
    }
  }

  /** A cell at distance k lies in no ball of radius below k. */
  lemma AtDistLeast(g: Grid, s: Pos, v: Pos, k: nat, j: nat)
    requires Square(g) && AtDist(g, s, v, k) && v in Ball(g, s, j)
    ensures k <= j
  {
    if j < k {
      BallGrows(g, s, j, k - 1);
    }
  }

  /** Graph distance is unique. */
  lemma AtDistUnique(g: Grid, s: Pos, v: Pos, i: nat, j: nat)
    requires Square(g) && AtDist(g, s, v, i) && AtDist(g, s, v, j)
    ensures i == j
  {
    AtDistLeast(g, s, v, i, j);
    AtDistLeast(g, s, v, j, i);
  }

  /** A set that holds s and is closed under moves holds every ball around s. */
  lemma {:induction false} BallWithin(g: Grid, s: Pos, T: set<Pos>, k: nat)
    requires Square(g) && s in T && Step(g, T) <= T
    ensures Ball(g, s, k) <= T
  {
    if k > 0 {
      BallWithin(g, s, T, k - 1);
      StepGrows(g, Ball(g, s, k - 1), T);
    }
  }

  lemma StepGrows(g: Grid, S: set<Pos>, T: set<Pos>)
    requires Square(g) && S <= T
    ensures Step(g, S) <= Step(g, T)
  {
  }

  /** Every cell of Step(g, S) is one move from some cell of S. */
  lemma StepFrom(g: Grid, S: set<Pos>, q: Pos) returns (p: Pos, d: Dir)
    requires Square(g) && q in Step(g, S)
    ensures p in S && CanMove(g, p, d) && Move(p, d) == q
  {
    p, d :| p in S && d in AllDirs && CanMove(g, p, d) && Move(p, d) == q;
  }

  /** Opening walls never shrinks a ball. */
  lemma {:induction false} BallOpens(g: Grid, h: Grid, s: Pos, k: nat)
    requires Grows(g, h)
    ensures Ball(g, s, k) <= Ball(h, s, k)
  {
    if k > 0 {
      BallOpens(g, h, s, k - 1);
      var B, C := Ball(g, s, k - 1), Ball(h, s, k - 1);
      forall q | q in Step(g, B)
        ensures q in Step(h, C)
      {
        var p, d := StepFrom(g, B, q);
        assert CanMove(h, p, d);
        StepInto(h, C, p, d);
      }
      assert Ball(g, s, k) == B + Step(g, B);
      assert Ball(h, s, k) == C + Step(h, C);
    }
  }

  /** One move out of the ball of radius k - 1 lands in the ball of radius k. */
  lemma StepOut(g: Grid, s: Pos, k: nat, u: Pos, d: Dir)
    requires Square(g) && 0 < k && u in Ball(g, s, k - 1) && CanMove(g, u, d)
    ensures Move(u, d) in Ball(g, s, k)
  {
    var B := Ball(g, s, k - 1);
    assert Move(u, d) in Step(g, B);
  }

  /** Opening walls keeps every reachable cell reachable. */
  lemma ReachOpens(g: Grid, h: Grid, s: Pos, v: Pos)
    requires Grows(g, h) && Reachable(g, s, v)
    ensures Reachable(h, s, v)
  {
    var k: nat :| v in Ball(g, s, k);
    BallOpens(g, h, s, k);
  }

  /** A neighbour behind an open wall is reachable. */
  lemma ReachStep(g: Grid, s: Pos, d: Dir)
    requires Square(g) && CanMove(g, s, d)
    ensures Reachable(g, s, Move(s, d))
  {
    StepOut(g, s, 1, s, d);
  }

  /** Every cell within j moves of a cell reachable from s is reachable from s. */
  lemma {:induction false} BallReach(g: Grid, s: Pos, v: Pos, w: Pos, j: nat)
    requires Square(g) && Reachable(g, s, v) && w in Ball(g, v, j)
    ensures Reachable(g, s, w)
    decreases j
  {
    if j == 0 {
      assert w == v;
    } else if w in Ball(g, v, j - 1) {
      BallReach(g, s, v, w, j - 1);
    } else {
      var p, d := StepFrom(g, Ball(g, v, j - 1), w);
      BallReach(g, s, v, p, j - 1);
      var k: nat :| p in Ball(g, s, k);
      StepOut(g, s, k + 1, p, d);
    }
  }

  /** Reachability is transitive. */
  lemma ReachTrans(g: Grid, s: Pos, v: Pos, w: Pos)
    requires Square(g) && Reachable(g, s, v) && Reachable(g, v, w)
    ensures Reachable(g, s, w)
  {
    var j: nat :| w in Ball(g, v, j);
    BallReach(g, s, v, w, j);
  }

  /** Every enqueued cell is in the grid and none is enqueued twice; the start comes first. */
  ghost predicate Listed(g: Grid, s: Pos, order: seq<Pos>)
    requires Square(g)
  {
    && 0 < |order| && order[0] == s
    && (forall i :: 0 <= i < |order| ==> InGrid(|g|, order[i]))
    && (forall i, j :: 0 <= i < j < |order| ==> order[i] != order[j])
  }

  /** Each enqueued cell carries its graph distance, and distances never decrease along the queue. */
  ghost predicate Layered(g: Grid, s: Pos, order: seq<Pos>, levels: seq<nat>)
    requires Square(g)
  {
    |levels| == |order| && Distances(g, s, order, levels) && Sorted(levels)
  }

  ghost predicate Distances(g: Grid, s: Pos, order: seq<Pos>, levels: seq<nat>)
    requires Square(g) && |levels| == |order|
  {
    forall i {:trigger AtDist(g, s, order[i], levels[i])} :: 0 <= i < |order| ==> AtDist(g, s, order[i], levels[i])
  }

  /** The queue spans at most two consecutive distances, and every cell as close as its head is already enqueued. */
  ghost predicate Frontier(g: Grid, s: Pos, order: seq<Pos>, levels: seq<nat>, head: nat)
    requires Square(g)
  {
    head < |order| == |levels| ==>
      && levels[|order| - 1] <= levels[head] + 1
      && forall v {:trigger v in Ball(g, s, levels[head])} :: v in Ball(g, s, levels[head]) ==> v in order
  }

  /** Every neighbour of a cell already taken off the queue has been enqueued. */
  ghost predicate Expanded(g: Grid, order: seq<Pos>, head: nat)
    requires Square(g)
  {
    forall i, q {:trigger q in Adjacent(g, order[i])} :: 0 <= i < head <= |order| && q in Adjacent(g, order[i]) ==> q in order
  }

  /**
   * The bookkeeping of findFarthestCell (main.js:126-148) after `head` cells
   * have been taken off its queue: `order` lists every cell ever enqueued,
   * `levels` the distance recorded for each, and order[head..] is the queue.
   */
  ghost predicate SearchState(g: Grid, s: Pos, order: seq<Pos>, levels: seq<nat>, head: nat)
    requires Square(g)
  {
    head <= |order| && Listed(g, s, order) && Layered(g, s, order, levels)
    && Frontier(g, s, order, levels, head) && Expanded(g, order, head)
  }

  /** No cell is enqueued twice, so at most n * n cells ever are. */
  lemma ListedFits(g: Grid, s: Pos, order: seq<Pos>)
    requires Square(g) && Listed(g, s, order)
    ensures |order| <= |g| * |g|
  {
    var T := set v | v in order;
    assert Distinct(order);
    DistinctCard(order);
    CellsCount(|g|);
    assert T <= Cells(|g|);
    assert |Cells(|g|)| == |T| + |Cells(|g|) - T|;
  }

  /** The state after main.js:127-130: only the start is queued, at distance 0. */
  lemma SearchStart(g: Grid, s: Pos)
    requires Square(g) && InGrid(|g|, s)
    ensures SearchState(g, s, [s], [0], 0)
  {
  }

  lemma PushListed(g: Grid, s: Pos, order: seq<Pos>, q: Pos)
    requires Square(g) && Listed(g, s, order) && q !in order && InGrid(|g|, q)
    ensures Listed(g, s, order + [q])
  {
    var order' := order + [q];
    forall i, j | 0 <= i < j < |order'|
      ensures order'[i] != order'[j]
    {
      if j < |order| {
        assert order'[i] == order[i] && order'[j] == order[j];
      } else {
        assert order[i] in order;
      }
    }
  }

  lemma PushLayered(g: Grid, s: Pos, order: seq<Pos>, levels: seq<nat>, head: nat, q: Pos)
    requires Square(g) && Layered(g, s, order, levels) && head < |order|
    requires AtDist(g, s, q, levels[head] + 1) && levels[|order| - 1] <= levels[head] + 1
    ensures Layered(g, s, order + [q], levels + [levels[head] + 1])
  {
    PushSorted(levels, head);
    PushDistances(g, s, order, levels, head, q);
  }

  lemma PushDistances(g: Grid, s: Pos, order: seq<Pos>, levels: seq<nat>, head: nat, q: Pos)
    requires Square(g) && |levels| == |order| && head < |order|
    requires Distances(g, s, order, levels) && AtDist(g, s, q, levels[head] + 1)
    ensures Distances(g, s, order + [q], levels + [levels[head] + 1])
  {
    var order', levels' := order + [q], levels + [levels[head] + 1];
    forall i | 0 <= i < |order'|
      ensures AtDist(g, s, order'[i], levels'[i])
    {
      if i < |order| {
        assert order'[i] == order[i] && levels'[i] == levels[i];
        assert AtDist(g, s, order[i], levels[i]);
      }
    }
  }

  lemma PushSorted(levels: seq<nat>, head: nat)
    requires Sorted(levels) && head < |levels| && levels[|levels| - 1] <= levels[head] + 1
    ensures Sorted(levels + [levels[head] + 1])
  {
    var levels' := levels + [levels[head] + 1];
    forall i, j | 0 <= i < j < |levels'|
      ensures levels'[i] <= levels'[j]
    {
      if j < |levels| {
        assert levels'[i] == levels[i] && levels'[j] == levels[j];
      } else if i < |levels| - 1 {
        assert levels'[i] == levels[i] <= levels[|levels| - 1];
      }
    }
  }

  lemma PushFrontier(g: Grid, s: Pos, order: seq<Pos>, levels: seq<nat>, head: nat, q: Pos)
    requires Square(g) && |levels| == |order| && head < |order| && Frontier(g, s, order, levels, head)
    ensures Frontier(g, s, order + [q], levels + [levels[head] + 1], head)
  {
    var order', levels' := order + [q], levels + [levels[head] + 1];
    assert levels'[head] == levels[head];
    forall v | v in Ball(g, s, levels[head])
      ensures v in order'
    {
      assert v in order;
    }
  }

  lemma PushExpanded(g: Grid, order: seq<Pos>, head: nat, q: Pos)
    requires Square(g) && head <= |order| && Expanded(g, order, head)
    ensures Expanded(g, order + [q], head)
  {
    var order' := order + [q];
    forall i, w | 0 <= i < head && w in Adjacent(g, order'[i])
      ensures w in order'
    {
      assert order'[i] == order[i] && w in order;
    }
  }

  /** A neighbour of a cell at distance L that is not within distance L is at distance L + 1. */
  lemma NextLevel(g: Grid, s: Pos, u: Pos, L: nat, q: Pos)
    requires Square(g) && u in Ball(g, s, L) && q in Adjacent(g, u) && q !in Ball(g, s, L)
    ensures AtDist(g, s, q, L + 1)
  {
    var p, d := StepFrom(g, {u}, q);
    StepInto(g, Ball(g, s, L), p, d);
  }

  /** A move out of a cell of S lands in Step(g, S). */
  lemma StepInto(g: Grid, S: set<Pos>, u: Pos, d: Dir)
    requires Square(g) && u in S && CanMove(g, u, d)
    ensures Move(u, d) in Step(g, S)
  {
  }

  /** Enqueueing an unseen neighbour of the cell being expanded, one further away (main.js:141-144). */
  lemma SearchPush(g: Grid, s: Pos, order: seq<Pos>, levels: seq<nat>, head: nat, q: Pos)
    requires Square(g) && SearchState(g, s, order, levels, head) && head < |order|
    requires q in Adjacent(g, order[head]) && q !in order
    ensures SearchState(g, s, order + [q], levels + [levels[head] + 1], head)
  {
    assert AtDist(g, s, order[head], levels[head]);
    NextLevel(g, s, order[head], levels[head], q);
    PushListed(g, s, order, q);
    PushLayered(g, s, order, levels, head, q);
    PushFrontier(g, s, order, levels, head, q);
    PushExpanded(g, order, head, q);
  }

  /** Taking the expanded cell off the queue once all its neighbours are queued. */
  lemma SearchAdvance(g: Grid, s: Pos, order: seq<Pos>, levels: seq<nat>, head: nat)
    requires Square(g) && SearchState(g, s, order, levels, head) && head < |order|
    requires forall q :: q in Adjacent(g, order[head]) ==> q in order
    ensures SearchState(g, s, order, levels, head + 1)
  {
    assert Expanded(g, order, head + 1);
    if head + 1 < |order| && levels[head + 1] != levels[head] {
      AdvanceFrontier(g, s, order, levels, head);
    }
  }

  /** Once the cells up to head are expanded, every cell one step further than the head is enqueued. */
  lemma AdvanceFrontier(g: Grid, s: Pos, order: seq<Pos>, levels: seq<nat>, head: nat)
    requires Square(g) && head + 1 < |order| && Layered(g, s, order, levels)
    requires Frontier(g, s, order, levels, head) && Expanded(g, order, head + 1)
    requires Listed(g, s, order) && levels[head + 1] != levels[head]
    ensures Frontier(g, s, order, levels, head + 1)
  {
    var L := levels[head];
    assert levels[head + 1] == L + 1;
    var B := Ball(g, s, L);
    forall v | v in Ball(g, s, L + 1)
      ensures v in order
    {
      if v !in B {
        var u, d := StepFrom(g, B, v);
        ExpandedWithin(g, s, order, levels, head, u, d);
      }
    }
  }

  /** A move out of a cell within distance levels[head] lands on an enqueued cell. */
  lemma ExpandedWithin(g: Grid, s: Pos, order: seq<Pos>, levels: seq<nat>, head: nat, u: Pos, d: Dir)
    requires Square(g) && head + 1 < |order| && Layered(g, s, order, levels)
    requires Frontier(g, s, order, levels, head) && Expanded(g, order, head + 1)
    requires levels[head + 1] != levels[head]
    requires u in Ball(g, s, levels[head]) && CanMove(g, u, d)
    ensures Move(u, d) in order
  {
    var iu :| 0 <= iu < |order| && order[iu] == u;
    AtDistLeast(g, s, u, levels[iu], levels[head]);
    assert iu <= head;
    AdjacentMove(g, u, d);
  }

  /** With the queue empty, the enqueued cells are exactly those reachable from s. */
  lemma SearchDone(g: Grid, s: Pos, order: seq<Pos>, levels: seq<nat>)
    requires Square(g) && SearchState(g, s, order, levels, |order|)
    ensures forall v :: v in order <==> Reachable(g, s, v)
  {
    var T := set v | v in order;
    forall w | w in Step(g, T)
      ensures w in T
    {
      var u, d := StepFrom(g, T, w);
      AdjacentMove(g, u, d);
    }
    forall v | Reachable(g, s, v)
      ensures v in order
    {
      var k: nat :| v in Ball(g, s, k);
      BallWithin(g, s, T, k);
    }
    forall v | v in order
      ensures Reachable(g, s, v)
    {
      var i :| 0 <= i < |order| && order[i] == v;
      assert AtDist(g, s, order[i], levels[i]);
    }
  }

  /** With the queue empty, no cell lies further from s than the largest recorded level. */
  lemma SearchBound(g: Grid, s: Pos, order: seq<Pos>, levels: seq<nat>, m: nat)
    requires Square(g) && SearchState(g, s, order, levels, |order|)
    requires forall i :: 0 <= i < |order| ==> levels[i] <= m
    ensures forall v, k: nat :: AtDist(g, s, v, k) ==> k <= m
  {
    SearchDone(g, s, order, levels);
    forall v, k: nat | AtDist(g, s, v, k)
      ensures k <= m
    {
      assert Reachable(g, s, v);
      var i :| 0 <= i < |order| && order[i] == v;
      AtDistUnique(g, s, v, k, levels[i]);
    }
  }

  /** Enqueuing cells of the grid keeps the enqueue list free of repeats. */
  lemma {:induction false} EnqueueListed(g: Grid, s: Pos, order: seq<Pos>, ns: seq<Pos>)
    requires Square(g) && Listed(g, s, order) && forall i :: 0 <= i < |ns| ==> InGrid(|g|, ns[i])
    ensures Listed(g, s, Enqueue(order, ns))
    decreases |ns|
  {
    if ns != [] {
      var init, q := ns[..|ns| - 1], ns[|ns| - 1];
      EnqueueListed(g, s, order, init);
      var o := Enqueue(order, init);
      if q !in o {
        PushListed(g, s, o, q);
      }
    }
  }

  /**
   * The cells findFarthestCell enqueues, in FIFO order (main.js:131-146):
   * the first head cells of order are expanded, and each next cell taken
   * off the queue appends its unseen listed neighbours. The last two
   * guards never fire on an enqueue list that meets Listed (see ListedFits);
   * they only bound the recursion.
   */
  ghost function Expand(g: Grid, order: seq<Pos>, head: nat): (r: seq<Pos>)
    requires Square(g)
    ensures |order| <= |r| && r[..|order|] == order
    decreases |g| * |g| - head
  {
    if head >= |order| || head >= |g| * |g| || !InGrid(|g|, order[head]) then order
    else
      var o := Enqueue(order, Neighbours(g, order[head].x, order[head].z));
      var r := Expand(g, o, head + 1);
      assert r[..|order|] == r[..|o|][..|order|];
      r
  }

  /**
   * after is the enqueue list before once its cell at position head is
   * dequeued and that cell's unseen listed neighbours are enqueued.
   */
  ghost predicate FifoStep(g: Grid, before: seq<Pos>, after: seq<Pos>, head: nat)
    requires Square(g)
  {
    && head < |before| && head < |g| * |g| && InGrid(|g|, before[head])
    && after == Enqueue(before, Neighbours(g, before[head].x, before[head].z))
  }

  /** Pass i of the loop turned trace[i - 1] into trace[i]. */
  ghost predicate FifoStepAt(g: Grid, trace: seq<seq<Pos>>, i: int)
    requires Square(g) && 0 < i < |trace|
  {
    FifoStep(g, trace[i - 1], trace[i], i - 1)
  }

  /** trace[k] is the enqueue list after k passes of findFarthestCell's loop. */
  ghost predicate FifoTrace(g: Grid, trace: seq<seq<Pos>>)
    requires Square(g)
  {
    forall i {:trigger FifoStepAt(g, trace, i)} :: 0 < i < |trace| ==> FifoStepAt(g, trace, i)
  }

  /** trace records the head + 1 enqueue lists seen so far by the search from s, ending in order. */
  ghost predicate Traced(g: Grid, s: Pos, trace: seq<seq<Pos>>, head: nat, order: seq<Pos>)
    requires Square(g)
  {
    |trace| == head + 1 && trace[0] == [s] && trace[head] == order && FifoTrace(g, trace)
  }

  /** One more pass of the loop, expanding the head cell p of order into after, extends the trace. */
  lemma TraceNext(g: Grid, s: Pos, trace: seq<seq<Pos>>, head: nat, order: seq<Pos>, p: Pos, after: seq<Pos>)
    requires Square(g) && Traced(g, s, trace, head, order)
    requires head < |order| && head < |g| * |g| && order[head] == p && InGrid(|g|, p)
    requires after == Enqueue(order, Neighbours(g, p.x, p.z))
    ensures Traced(g, s, trace + [after], head + 1, after)
  {
    var t := trace + [after];
    forall i | 0 < i < |t|
      ensures FifoStepAt(g, t, i)
    {
      if i < |trace| {
        assert FifoStepAt(g, trace, i);
        assert t[i - 1] == trace[i - 1] && t[i] == trace[i];
      } else {
        assert t[i - 1] == order && t[i] == after;
      }
    }
  }

  /** Every list of a trace continues to the same FIFO expansion as the first. */
  lemma {:induction false} TraceExpand(g: Grid, trace: seq<seq<Pos>>, k: nat)
    requires Square(g) && FifoTrace(g, trace) && k < |trace|
    ensures Expand(g, trace[0], 0) == Expand(g, trace[k], k)
  {
    if k > 0 {
      TraceExpand(g, trace, k - 1);
      assert FifoStepAt(g, trace, k);
    }
  }

  /** Once every traced cell is expanded, the enqueue list is the FIFO expansion from s. */
  lemma TracedExpand(g: Grid, s: Pos, trace: seq<seq<Pos>>, order: seq<Pos>)
    requires Square(g) && Traced(g, s, trace, |order|, order)
    ensures order == Expand(g, [s], 0)
  {
    TraceExpand(g, trace, |order|);
  }

  /**
   * Handling the adjacent cells ns of the head cell one by one keeps the
   * search invariant, with levels extended to match.
   */
  lemma {:induction false} EnqueueSearch(g: Grid, s: Pos, order: seq<Pos>, levels: seq<nat>, head: nat, ns: seq<Pos>,
                                         order': seq<Pos>, levels': seq<nat>)
    requires Square(g) && SearchState(g, s, order, levels, head) && head < |order|
    requires forall i :: 0 <= i < |ns| ==> ns[i] in Adjacent(g, order[head])
    requires order' == Enqueue(order, ns) && levels' == levels + Repeat(levels[head] + 1, |order'| - |order|)
    ensures SearchState(g, s, order', levels', head)
    decreases |ns|
  {
    var L := levels[head] + 1;
    if ns == [] {
      assert levels + Repeat(L, 0) == levels;
    } else {
      var init, q := ns[..|ns| - 1], ns[|ns| - 1];
      var o := Enqueue(order, init);
      var l0 := levels + Repeat(L, |o| - |order|);
      EnqueueSearch(g, s, order, levels, head, init, o, l0);
      assert o[head] == order[head] && l0[head] == levels[head];
      if q !in o {
        RepeatAppend(levels, L, |o| - |order|);
      }
      EnqueueSearchStep(g, s, o, l0, head, q, order', levels');
    }
  }

  /** One cell of EnqueueSearch: q is enqueued one level past the head unless it is already listed. */
  lemma EnqueueSearchStep(g: Grid, s: Pos, o: seq<Pos>, l0: seq<nat>, head: nat, q: Pos, order': seq<Pos>, levels': seq<nat>)
    requires Square(g) && SearchState(g, s, o, l0, head) && head < |o|
    requires q in Adjacent(g, o[head])
    requires order' == (if q in o then o else o + [q])
    requires levels' == (if q in o then l0 else l0 + [l0[head] + 1])
    ensures SearchState(g, s, order', levels', head)
  {
    if q !in o {
      SearchPush(g, s, o, l0, head, q);
    }
  }

  /**
   * One pass of findFarthestCell's loop keeps the search invariant: the
   * head cell's unseen listed neighbours are enqueued one level further
   * out, and the head moves on.
   */
  lemma SearchPass(g: Grid, s: Pos, order: seq<Pos>, levels: seq<nat>, head: nat, order': seq<Pos>, levels': seq<nat>)
    requires Square(g) && SearchState(g, s, order, levels, head) && head < |order|
    requires order' == Enqueue(order, Neighbours(g, order[head].x, order[head].z))
    requires levels' == levels + Repeat(levels[head] + 1, |order'| - |order|)
    ensures SearchState(g, s, order', levels', head + 1)
  {
    NeighboursExact(g, order[head].x, order[head].z);
    SearchPassOver(g, s, order, levels, head, Neighbours(g, order[head].x, order[head].z), order', levels');
  }

  /** SearchPass for any list ns of exactly the head cell's open neighbours. */
  lemma SearchPassOver(g: Grid, s: Pos, order: seq<Pos>, levels: seq<nat>, head: nat, ns: seq<Pos>,
                       order': seq<Pos>, levels': seq<nat>)
    requires Square(g) && SearchState(g, s, order, levels, head) && head < |order|
    requires forall q :: q in ns <==> q in Adjacent(g, order[head])
    requires order' == Enqueue(order, ns) && levels' == levels + Repeat(levels[head] + 1, |order'| - |order|)
    ensures SearchState(g, s, order', levels', head + 1)
  {
    EnqueueSearch(g, s, order, levels, head, ns, order', levels');
    assert order'[head] == order[head];
    EnqueueMembers(order, ns);
    forall q | q in Adjacent(g, order'[head])
      ensures q in order'
    {
      assert q in ns;
    }
    SearchAdvance(g, s, order', levels', head);
  }

  /** Running the search to the end from any state that meets the invariant. */
  lemma {:induction false} ExpandSearch(g: Grid, s: Pos, order: seq<Pos>, levels: seq<nat>, head: nat)
    returns (levels': seq<nat>)
    requires Square(g) && SearchState(g, s, order, levels, head)
    ensures SearchState(g, s, Expand(g, order, head), levels', |Expand(g, order, head)|)
    decreases |g| * |g| - head
  {
    ListedFits(g, s, order);
    if head == |order| {
      levels' := levels;
    } else {
      var o := Enqueue(order, Neighbours(g, order[head].x, order[head].z));
      var l := levels + Repeat(levels[head] + 1, |o| - |order|);
      SearchPass(g, s, order, levels, head, o, l);
      levels' := ExpandSearch(g, s, o, l, head + 1);
    }
  }

  /** The FIFO expansion from s enqueues exactly the cells reachable from s. */
  lemma ExpandReach(g: Grid, s: Pos)
    requires Square(g) && InGrid(|g|, s)
    ensures forall v :: v in Expand(g, [s], 0) <==> Reachable(g, s, v)
  {
    SearchStart(g, s);
    var levels := ExpandSearch(g, s, [s], [0], 0);
    SearchDone(g, s, Expand(g, [s], 0), levels);
  }
}
