/** Hill climbing, part two of two: the breadth-first search
    (day_12/src/main.rs, `solve`, `part1`, `part2`).

    The search keeps a FIFO queue of (cell, distance) entries and a visited
    set. An entry whose cell is already visited is dropped when it reaches the
    head of the queue; otherwise its cell is visited, the search stops if it
    is the end cell, and every legal move out of it is queued one step
    farther. Part 1 seeds the queue with the start cell only, part 2 with
    every cell as low as the start. */
module Day12Search {
  import opened Text
  import opened Day12Grid

  // ---------------------------------------------------------------------
  // Walks and distances
  // ---------------------------------------------------------------------

  /** A walk: a non-empty sequence of cells, each a legal step from the one before. */
  ghost predicate IsWalk(m: Grid, w: seq<Coord>) {
    |w| > 0 && InBounds(m, w[0]) && forall i :: 0 <= i < |w| - 1 ==> Step(m, w[i], w[i + 1])
  }

  ghost predicate WalkFrom(m: Grid, seeds: set<Coord>, w: seq<Coord>) {
    IsWalk(m, w) && w[0] in seeds
  }

  function Last(w: seq<Coord>): Coord
    requires |w| > 0
  {
    w[|w| - 1]
  }

  /** `d` steps is the length of a shortest walk from a seed to `e`: there is
      a walk of `d` steps, and none is shorter. */
  ghost predicate IsShortestDistance(m: Grid, seeds: set<Coord>, e: Coord, d: nat) {
    && (exists w :: WalkFrom(m, seeds, w) && Last(w) == e && |w| == d + 1)
    && (forall w :: WalkFrom(m, seeds, w) && Last(w) == e ==> d + 1 <= |w|)
  }

  /** No walk from a seed ends at `e`. */
  ghost predicate Unreachable(m: Grid, seeds: set<Coord>, e: Coord) {
    forall w :: WalkFrom(m, seeds, w) ==> Last(w) != e
  }

  lemma ExtendWalk(m: Grid, seeds: set<Coord>, w: seq<Coord>, q: Coord)
    requires WalkFrom(m, seeds, w) && Step(m, Last(w), q)
    ensures WalkFrom(m, seeds, w + [q]) && Last(w + [q]) == q && |w + [q]| == |w| + 1
  {
    var v := w + [q];
    forall i | 0 <= i < |v| - 1
      ensures Step(m, v[i], v[i + 1])
    {
      if i < |w| - 1 {
        assert v[i] == w[i] && v[i + 1] == w[i + 1];
      }
    }
  }

  lemma WalkPrefix(m: Grid, seeds: set<Coord>, w: seq<Coord>)
    requires WalkFrom(m, seeds, w) && |w| > 1
    ensures WalkFrom(m, seeds, w[..|w| - 1]) && Step(m, Last(w[..|w| - 1]), Last(w))
  {
    var v := w[..|w| - 1];
    forall i | 0 <= i < |v| - 1
      ensures Step(m, v[i], v[i + 1])
    {
      assert v[i] == w[i] && v[i + 1] == w[i + 1];
    }
    assert Step(m, w[|w| - 2], w[|w| - 1]);
  }

  /** A shortest distance is unique. */
  lemma {:induction false} ShortestDistanceUnique(m: Grid, seeds: set<Coord>, e: Coord, d1: nat, d2: nat)
    requires IsShortestDistance(m, seeds, e, d1) && IsShortestDistance(m, seeds, e, d2)
    ensures d1 == d2
  {
    var w1 :| WalkFrom(m, seeds, w1) && Last(w1) == e && |w1| == d1 + 1;
    var w2 :| WalkFrom(m, seeds, w2) && Last(w2) == e && |w2| == d2 + 1;
  }

  /** Adding seeds never makes the end farther, and never makes it unreachable. */
  lemma {:induction false} MoreSeedsNoFarther(m: Grid, s1: set<Coord>, s2: set<Coord>, e: Coord, d1: nat, d2: nat)
    requires s1 <= s2
    requires IsShortestDistance(m, s1, e, d1) && IsShortestDistance(m, s2, e, d2)
    ensures d2 <= d1
  {
    var w :| WalkFrom(m, s1, w) && Last(w) == e && |w| == d1 + 1;
    assert WalkFrom(m, s2, w);
  }

  lemma {:induction false} MoreSeedsStillReach(m: Grid, s1: set<Coord>, s2: set<Coord>, e: Coord, d1: nat)
    requires s1 <= s2 && IsShortestDistance(m, s1, e, d1)
    ensures !Unreachable(m, s2, e)
  {
    var w :| WalkFrom(m, s1, w) && Last(w) == e && |w| == d1 + 1;
    assert WalkFrom(m, s2, w);
  }

  // ---------------------------------------------------------------------
  // The cells of the matrix
  // ---------------------------------------------------------------------

  ghost function Box(rows: nat, cols: nat): set<Coord> {
    set r: nat, c: nat | r < rows && c < cols :: Coord(r, c)
  }

  ghost function RowCells(r: nat, cols: nat): set<Coord> {
    set c: nat | c < cols :: Coord(r, c)
  }

  lemma {:induction false} RowCellsSize(r: nat, cols: nat)
    ensures |RowCells(r, cols)| == cols
  {
    if cols > 0 {
      assert RowCells(r, cols) == RowCells(r, cols - 1) + {Coord(r, cols - 1)};
      RowCellsSize(r, cols - 1);
    } else {
      assert RowCells(r, cols) == {};
    }
  }

  /** A `rows` by `cols` matrix has `rows * cols` cells. */
  lemma BoxSplit(rows: nat, cols: nat)
    requires rows > 0
    ensures Box(rows, cols) == Box(rows - 1, cols) + RowCells(rows - 1, cols)
    ensures Box(rows - 1, cols) !! RowCells(rows - 1, cols)
  {
    forall c | c in Box(rows, cols)
      ensures c in Box(rows - 1, cols) + RowCells(rows - 1, cols)
    {
      if c.row < rows - 1 {
        assert c in Box(rows - 1, cols);
      } else {
        assert c in RowCells(rows - 1, cols);
      }
    }
  }

  /** A `rows` by `cols` matrix has `rows * cols` cells. */
  lemma {:induction false} BoxSize(rows: nat, cols: nat)
    ensures |Box(rows, cols)| == rows * cols
  {
    if rows > 0 {
      BoxSplit(rows, cols);
      BoxSize(rows - 1, cols);
      RowCellsSize(rows - 1, cols);
      assert rows * cols == (rows - 1) * cols + cols;
    } else {
      assert Box(rows, cols) == {};
    }
  }

  lemma InBox(m: Grid, c: Coord)
    requires IsGrid(m) && InBounds(m, c)
    ensures c in Box(|m|, |m[0]|)
  {
    assert c == Coord(c.row, c.col);
  }

  // ---------------------------------------------------------------------
  // Seeds
  // ---------------------------------------------------------------------

  /** The cells the search starts from: the start alone in part 1; in part 2
      every cell whose height equals the start's. */
  ghost function SeedCells(m: Grid, s: Coord, part: nat): set<Coord>
    requires IsGrid(m) && InBounds(m, s)
  {
    if part == 1 then {s}
    else set c | c in Box(|m|, |m[0]|) && Height(m, c) == Height(m, s)
  }

  /** The part 2 seeds include the start, so they include the part 1 seeds. */
  lemma SeedsGrow(m: Grid, s: Coord)
    requires IsGrid(m) && InBounds(m, s)
    ensures SeedCells(m, s, 1) <= SeedCells(m, s, 2)
  {
    InBox(m, s);
  }

  /** The seeding of the queue in `solve`: the start for part 1; for part 2
      every cell whose height equals the start's, in row-major order. */
  method InitialSeeds(m: Grid, s: Coord, part: nat) returns (seeds: seq<Coord>)
    requires IsGrid(m) && InBounds(m, s)
    ensures part == 1 ==> seeds == [s]
    ensures part != 1 ==> forall c :: c in seeds <==> InBounds(m, c) && Height(m, c) == Height(m, s)
    ensures part != 1 ==> forall i, j :: 0 <= i < j < |seeds| ==> Before(seeds[i], seeds[j])
    ensures forall c :: c in seeds <==> c in SeedCells(m, s, part)
  {
    if part == 1 {
      seeds := [s];
      return;
    }
    var startValue := m[s.row][s.col];
    seeds := [];
    for i := 0 to |m|
      invariant forall c :: c in seeds <==> InBounds(m, c) && c.row < i && Height(m, c) == startValue
      invariant forall a, b :: 0 <= a < b < |seeds| ==> Before(seeds[a], seeds[b])
    {
      for j := 0 to |m[i]|
        invariant forall c :: c in seeds <==>
          InBounds(m, c) && (c.row < i || (c.row == i && c.col < j)) && Height(m, c) == startValue
        invariant forall a, b :: 0 <= a < b < |seeds| ==> Before(seeds[a], seeds[b])
        invariant forall a :: 0 <= a < |seeds| ==> Before(seeds[a], Coord(i, j))
      {
        if m[i][j] == startValue {
          seeds := seeds + [Coord(i, j)];
        }
      }
    }
    forall c
      ensures c in seeds <==> c in SeedCells(m, s, part)
    {
      if InBounds(m, c) { InBox(m, c); }
    }
  }

  // ---------------------------------------------------------------------
  // The search invariants
  // ---------------------------------------------------------------------

  type Entry = (Coord, nat)

  /** Some queue entry for `y` carries a distance of at most `bound`. */
  ghost predicate Queued(q: seq<Entry>, y: Coord, bound: nat) {
    exists i :: 0 <= i < |q| && q[i].0 == y && q[i].1 <= bound
  }

  /** Every seed that is not yet visited waits in the queue at distance 0. */
  ghost predicate SeedsWaiting(seeds: set<Coord>, dist: map<Coord, nat>, q: seq<Entry>) {
    forall s :: s in seeds && s !in dist ==> Queued(q, s, 0)
  }

  /** Every legal move out of a visited cell `x` leads to a visited cell, or
      to a cell that waits in the queue at most one step farther than `x`. */
  ghost predicate MovesWaiting(m: Grid, dist: map<Coord, nat>, q: seq<Entry>) {
    forall x, y :: x in dist && y !in dist && Step(m, x, y) ==> Queued(q, y, dist[x] + 1)
  }

  /** Every visited cell was visited at its least distance from the seeds. */
  ghost predicate VisitedAtLeast(m: Grid, seeds: set<Coord>, dist: map<Coord, nat>) {
    forall w :: WalkFrom(m, seeds, w) && Last(w) in dist ==> dist[Last(w)] + 1 <= |w|
  }

  /** Queue distances never decrease from head to tail and span at most one. */
  ghost predicate Layered(q: seq<Entry>) {
    forall i, j :: 0 <= i < j < |q| ==> q[i].1 <= q[j].1 <= q[i].1 + 1
  }

  /** Every queue entry is the end of a walk from a seed with as many steps as its distance. */
  ghost predicate Witnessed(m: Grid, seeds: set<Coord>, q: seq<Entry>, paths: seq<seq<Coord>>) {
    && |paths| == |q|
    && forall i :: 0 <= i < |q| ==>
         WalkFrom(m, seeds, paths[i]) && |paths[i]| == q[i].1 + 1 && Last(paths[i]) == q[i].0
  }

  lemma QueuedAfterPop(q: seq<Entry>, y: Coord, bound: nat)
    requires |q| > 0 && Queued(q, y, bound) && q[0].0 != y
    ensures Queued(q[1..], y, bound)
  {
    var i :| 0 <= i < |q| && q[i].0 == y && q[i].1 <= bound;
    assert q[1..][i - 1] == q[i];
  }

  lemma QueuedAfterPush(q: seq<Entry>, t: seq<Entry>, y: Coord, bound: nat)
    requires Queued(q, y, bound)
    ensures Queued(q + t, y, bound)
  {
    var i :| 0 <= i < |q| && q[i].0 == y && q[i].1 <= bound;
    assert (q + t)[i] == q[i];
  }

  /** The layering argument. While the head of the queue is at distance `D`
      and every entry is at least `D`, a walk from a seed to a cell that is not
      yet visited has at least `D` steps: follow the walk back to its last
      visited cell `x`; the next cell waits in the queue at most one step
      farther than `x`, and `x` was visited at its least distance. */
  lemma {:induction false} FrontierBound(m: Grid, seeds: set<Coord>, dist: map<Coord, nat>,
                                         q: seq<Entry>, D: nat, w: seq<Coord>)
    requires SeedsWaiting(seeds, dist, q) && MovesWaiting(m, dist, q) && VisitedAtLeast(m, seeds, dist)
    requires forall i :: 0 <= i < |q| ==> D <= q[i].1
    requires WalkFrom(m, seeds, w) && Last(w) !in dist
    ensures D + 1 <= |w|
    decreases |w|
  {
    if |w| == 1 {
      assert Queued(q, w[0], 0);
      var i :| 0 <= i < |q| && q[i].0 == w[0] && q[i].1 <= 0;
    } else {
      var v := w[..|w| - 1];
      WalkPrefix(m, seeds, w);
      var x := Last(v);
      if x in dist {
        assert Queued(q, Last(w), dist[x] + 1);
        var i :| 0 <= i < |q| && q[i].0 == Last(w) && q[i].1 <= dist[x] + 1;
        assert dist[Last(v)] + 1 <= |v|;
      } else {
        FrontierBound(m, seeds, dist, q, D, v);
      }
    }
  }

  lemma EmptyQueueHoldsNothing(y: Coord, bound: nat)
    ensures !Queued([], y, bound)
  {
  }

  /** Once the queue is empty, every cell a walk from a seed can reach is visited. */
  lemma {:induction false} ExhaustedReachesAll(m: Grid, seeds: set<Coord>, dist: map<Coord, nat>, w: seq<Coord>)
    requires SeedsWaiting(seeds, dist, []) && MovesWaiting(m, dist, [])
    requires WalkFrom(m, seeds, w)
    ensures Last(w) in dist
    decreases |w|
  {
    if |w| == 1 {
      EmptyQueueHoldsNothing(w[0], 0);
    } else {
      WalkPrefix(m, seeds, w);
      ExhaustedReachesAll(m, seeds, dist, w[..|w| - 1]);
      EmptyQueueHoldsNothing(Last(w), dist[Last(w[..|w| - 1])] + 1);
    }
  }

  lemma WalkEndInBounds(m: Grid, seeds: set<Coord>, w: seq<Coord>)
    requires WalkFrom(m, seeds, w)
    ensures InBounds(m, Last(w))
  {
    if |w| > 1 {
      assert Step(m, w[|w| - 2], w[|w| - 1]);
    }
  }

  /** The invariant of the outer loop of the search. */
  ghost predicate SearchState(m: Grid, seeds: set<Coord>, dist: map<Coord, nat>, q: seq<Entry>, paths: seq<seq<Coord>>) {
    && Witnessed(m, seeds, q, paths)
    && Layered(q)
    && SeedsWaiting(seeds, dist, q)
    && MovesWaiting(m, dist, q)
    && VisitedAtLeast(m, seeds, dist)
  }

  /** The invariant while the moves out of `p`, just visited at distance `d`, are queued. */
  ghost predicate Expanding(m: Grid, seeds: set<Coord>, dist: map<Coord, nat>, p: Coord, d: nat,
                            q: seq<Entry>, paths: seq<seq<Coord>>) {
    && p in dist && dist[p] == d
    && Witnessed(m, seeds, q, paths)
    && Layered(q)
    && (forall i :: 0 <= i < |q| ==> d <= q[i].1 <= d + 1)
    && SeedsWaiting(seeds, dist, q)
    && (forall x, y :: x in dist && x != p && y !in dist && Step(m, x, y) ==> Queued(q, y, dist[x] + 1))
    && VisitedAtLeast(m, seeds, dist)
  }

  lemma WitnessedAfterPop(m: Grid, seeds: set<Coord>, q: seq<Entry>, paths: seq<seq<Coord>>)
    requires Witnessed(m, seeds, q, paths) && Layered(q) && q != []
    ensures Witnessed(m, seeds, q[1..], paths[1..]) && Layered(q[1..])
  {
    forall i | 0 <= i < |q| - 1
      ensures WalkFrom(m, seeds, paths[1..][i]) && |paths[1..][i]| == q[1..][i].1 + 1 && Last(paths[1..][i]) == q[1..][i].0
    {
      assert q[1..][i] == q[i + 1] && paths[1..][i] == paths[i + 1];
    }
    forall i, j | 0 <= i < j < |q| - 1
      ensures q[1..][i].1 <= q[1..][j].1 <= q[1..][i].1 + 1
    {
      assert q[1..][i] == q[i + 1] && q[1..][j] == q[j + 1];
    }
  }

  /** Dropping a head entry whose cell is already visited keeps the invariant. */
  lemma DropVisited(m: Grid, seeds: set<Coord>, dist: map<Coord, nat>, q: seq<Entry>, paths: seq<seq<Coord>>)
    requires SearchState(m, seeds, dist, q, paths) && q != [] && q[0].0 in dist
    ensures SearchState(m, seeds, dist, q[1..], paths[1..])
  {
    WitnessedAfterPop(m, seeds, q, paths);
    forall s | s in seeds && s !in dist
      ensures Queued(q[1..], s, 0)
    {
      QueuedAfterPop(q, s, 0);
    }
    forall x, y | x in dist && y !in dist && Step(m, x, y)
      ensures Queued(q[1..], y, dist[x] + 1)
    {
      QueuedAfterPop(q, y, dist[x] + 1);
    }
  }

  /** The head entry's distance is the least distance of its cell when that
      cell is not yet visited, so visiting it keeps every visited cell at its
      least distance. */
  lemma HeadIsLeast(m: Grid, seeds: set<Coord>, dist: map<Coord, nat>, q: seq<Entry>, paths: seq<seq<Coord>>)
    requires SearchState(m, seeds, dist, q, paths) && q != [] && q[0].0 !in dist
    ensures InBounds(m, q[0].0)
    ensures IsShortestDistance(m, seeds, q[0].0, q[0].1)
    ensures VisitedAtLeast(m, seeds, dist[q[0].0 := q[0].1])
  {
    var p, d := q[0].0, q[0].1;
    WalkEndInBounds(m, seeds, paths[0]);
    forall i | 0 <= i < |q|
      ensures d <= q[i].1
    {
      if i > 0 {
        assert q[0].1 <= q[i].1;
      }
    }
    forall v | WalkFrom(m, seeds, v) && Last(v) == p
      ensures d + 1 <= |v|
    {
      FrontierBound(m, seeds, dist, q, d, v);
    }
    assert WalkFrom(m, seeds, paths[0]) && Last(paths[0]) == p && |paths[0]| == d + 1;
  }

  /** Visiting the head cell: the rest of the queue starts its expansion. */
  lemma VisitHead(m: Grid, seeds: set<Coord>, dist: map<Coord, nat>, q: seq<Entry>, paths: seq<seq<Coord>>)
    requires SearchState(m, seeds, dist, q, paths) && q != [] && q[0].0 !in dist
    ensures Expanding(m, seeds, dist[q[0].0 := q[0].1], q[0].0, q[0].1, q[1..], paths[1..])
    ensures WalkFrom(m, seeds, paths[0]) && Last(paths[0]) == q[0].0 && |paths[0]| == q[0].1 + 1
  {
    var p, d := q[0].0, q[0].1;
    var dist' := dist[p := d];
    HeadIsLeast(m, seeds, dist, q, paths);
    WitnessedAfterPop(m, seeds, q, paths);
    forall s | s in seeds && s !in dist'
      ensures Queued(q[1..], s, 0)
    {
      QueuedAfterPop(q, s, 0);
    }
    forall x, y | x in dist' && x != p && y !in dist' && Step(m, x, y)
      ensures Queued(q[1..], y, dist'[x] + 1)
    {
      QueuedAfterPop(q, y, dist[x] + 1);
    }
    forall i | 0 <= i < |q| - 1
      ensures d <= q[1..][i].1 <= d + 1
    {
      assert q[1..][i] == q[i + 1];
      assert q[0].1 <= q[i + 1].1 <= q[0].1 + 1;
    }
  }

  /** Queueing one move out of the cell being expanded keeps the expansion invariant. */
  lemma PushMove(m: Grid, seeds: set<Coord>, dist: map<Coord, nat>, p: Coord, d: nat,
                 q: seq<Entry>, paths: seq<seq<Coord>>, w: seq<Coord>, y: Coord)
    requires Expanding(m, seeds, dist, p, d, q, paths)
    requires WalkFrom(m, seeds, w) && Last(w) == p && |w| == d + 1 && Step(m, p, y)
    ensures Expanding(m, seeds, dist, p, d, q + [(y, d + 1)], paths + [w + [y]])
    ensures forall z, b :: Queued(q, z, b) ==> Queued(q + [(y, d + 1)], z, b)
    ensures Queued(q + [(y, d + 1)], y, d + 1)
  {
    var q', paths' := q + [(y, d + 1)], paths + [w + [y]];
    ExtendWalk(m, seeds, w, y);
    forall z, b | Queued(q, z, b)
      ensures Queued(q', z, b)
    {
      QueuedAfterPush(q, [(y, d + 1)], z, b);
    }
    assert q'[|q|] == (y, d + 1);
    forall i | 0 <= i < |q'|
      ensures WalkFrom(m, seeds, paths'[i]) && |paths'[i]| == q'[i].1 + 1 && Last(paths'[i]) == q'[i].0
    {
      if i < |q| {
        assert paths'[i] == paths[i] && q'[i] == q[i];
      }
    }
    forall i, j | 0 <= i < j < |q'|
      ensures q'[i].1 <= q'[j].1 <= q'[i].1 + 1
    {
      if j < |q| {
        assert q'[i] == q[i] && q'[j] == q[j];
      } else {
        assert q'[i] == q[i];
      }
    }
  }

  /** Once every move out of `p` is queued, the outer invariant holds again. */
  lemma FinishExpansion(m: Grid, seeds: set<Coord>, dist: map<Coord, nat>, p: Coord, d: nat,
                        q: seq<Entry>, paths: seq<seq<Coord>>)
    requires Expanding(m, seeds, dist, p, d, q, paths)
    requires forall y :: Step(m, p, y) ==> Queued(q, y, d + 1)
    ensures SearchState(m, seeds, dist, q, paths)
  {
  }

  // ---------------------------------------------------------------------
  // The search
  // ---------------------------------------------------------------------

  /** The queue `solve` starts from: every seed at distance 0. */
  function InitialQueue(seeds: seq<Coord>): (q: seq<Entry>)
    ensures |q| == |seeds| && forall i :: 0 <= i < |q| ==> q[i] == (seeds[i], 0)
  {
    seq(|seeds|, i requires 0 <= i < |seeds| => (seeds[i], 0))
  }

  ghost function InitialPaths(seeds: seq<Coord>): (paths: seq<seq<Coord>>)
    ensures |paths| == |seeds| && forall i :: 0 <= i < |paths| ==> paths[i] == [seeds[i]]
  {
    seq(|seeds|, i requires 0 <= i < |seeds| => [seeds[i]])
  }

  lemma InitialState(m: Grid, seeds: seq<Coord>)
    requires forall s :: s in seeds ==> InBounds(m, s)
    ensures SearchState(m, (set s | s in seeds), map[], InitialQueue(seeds), InitialPaths(seeds))
  {
    var S, q, paths := (set s | s in seeds), InitialQueue(seeds), InitialPaths(seeds);
    forall s | s in S
      ensures Queued(q, s, 0)
    {
      var i :| 0 <= i < |seeds| && seeds[i] == s;
      assert q[i] == (s, 0);
    }
    forall i | 0 <= i < |q|
      ensures WalkFrom(m, S, paths[i])
    {
      assert paths[i] == [seeds[i]];
    }
  }

  /** The inner loop of `solve`: queue every legal move out of `p` one step
      farther than `p`, in the order `neighbors` lists them. */
  method QueueMoves(m: Grid, ghost seeds: set<Coord>, ghost dist: map<Coord, nat>, p: Coord, d: nat,
                    q: seq<Entry>, ghost paths: seq<seq<Coord>>, ghost w: seq<Coord>)
    returns (q': seq<Entry>, ghost paths': seq<seq<Coord>>, ghost added: nat)
    requires IsGrid(m) && InBounds(m, p)
    requires Expanding(m, seeds, dist, p, d, q, paths)
    requires WalkFrom(m, seeds, w) && Last(w) == p && |w| == d + 1
    ensures SearchState(m, seeds, dist, q', paths')
    ensures |q'| == |q| + added && added <= 4
  {
    var nb := Neighbors(m, p);
    q', paths' := q, paths;
    for k := 0 to |nb|
      invariant Expanding(m, seeds, dist, p, d, q', paths')
      invariant forall j :: 0 <= j < k ==> Queued(q', nb[j], d + 1)
      invariant |q'| == |q| + k
    {
      ghost var qk := q';
      PushMove(m, seeds, dist, p, d, q', paths', w, nb[k]);
      q', paths' := q' + [(nb[k], d + 1)], paths' + [w + [nb[k]]];
      forall j | 0 <= j < k + 1
        ensures Queued(q', nb[j], d + 1)
      {
        if j < k {
          assert Queued(qk, nb[j], d + 1);
        }
      }
    }
    added := |nb|;
    forall y | Step(m, p, y)
      ensures Queued(q', y, d + 1)
    {
      assert y in nb;
    }
    FinishExpansion(m, seeds, dist, p, d, q', paths');
  }

  /** One round of the loop of `solve`: pop the head of the queue; drop it if
      its cell is visited; otherwise visit the cell, stop if it is the end,
      and queue the moves out of it. */
  method Visit(m: Grid, ghost seeds: set<Coord>, e: Coord, visited: set<Coord>, q: seq<Entry>,
               ghost dist: map<Coord, nat>, ghost paths: seq<seq<Coord>>)
    returns (found: Option<nat>, visited': set<Coord>, q': seq<Entry>,
             ghost dist': map<Coord, nat>, ghost paths': seq<seq<Coord>>, ghost added: nat)
    requires IsGrid(m) && q != []
    requires visited == dist.Keys && visited <= Box(|m|, |m[0]|) && e !in visited
    requires SearchState(m, seeds, dist, q, paths)
    ensures visited' <= Box(|m|, |m[0]|)
    ensures found.Some? ==> IsShortestDistance(m, seeds, e, found.value) && e in visited'
    ensures found.Some? ==> |visited'| == |visited| + 1
    ensures found.None? ==> visited' == dist'.Keys && e !in visited' && SearchState(m, seeds, dist', q', paths')
    ensures found.None? ==> |q'| + 1 == |q| + added
    ensures found.None? ==>
              || (q[0].0 in visited && visited' == visited && added == 0)
              || (q[0].0 !in visited && visited' == visited + {q[0].0}
                  && |Box(|m|, |m[0]|) - visited'| < |Box(|m|, |m[0]|) - visited|
                  && |visited'| == |visited| + 1 && added <= 4)
  {
    var p, d := q[0].0, q[0].1;
    ghost var w := paths[0];
    if p in visited {
      DropVisited(m, seeds, dist, q, paths);
      return None, visited, q[1..], dist, paths[1..], 0;
    }
    HeadIsLeast(m, seeds, dist, q, paths);
    VisitHead(m, seeds, dist, q, paths);
    InBox(m, p);
    visited' := visited + {p};
    dist' := dist[p := d];
    assert Box(|m|, |m[0]|) - visited' == (Box(|m|, |m[0]|) - visited) - {p};
    if p == e {
      return Some(d), visited', q[1..], dist', paths[1..], 0;
    }
    found := None;
    q', paths', added := QueueMoves(m, seeds, dist', p, d, q[1..], paths[1..], w);
  }

  /** No cell occurs twice. */
  ghost predicate Distinct(s: seq<Coord>) {
    forall i, j :: 0 <= i < j < |s| ==> s[i] != s[j]
  }

  /** The BFS loop of `solve`, from the queue `[(c, 0) | c in seeds]`.
      A returned distance is the length of a shortest walk from a seed to
      `e`; `None` (the source's `panic!("oops")`) means no walk reaches `e`.
      The ghost results account for the work: `expanded` lists the cells
      whose moves were queued, in the order they were expanded, each at most
      once and so at most as many as the matrix has cells; `enqueued` counts
      every entry that entered the queue and `popped` every round of the
      loop, each of which takes one entry off it. */
  method Search(m: Grid, seeds: seq<Coord>, e: Coord)
    returns (r: Option<nat>, ghost expanded: seq<Coord>, ghost enqueued: nat, ghost popped: nat)
    requires IsGrid(m)
    requires forall s :: s in seeds ==> InBounds(m, s)
    ensures r.Some? ==> IsShortestDistance(m, (set s | s in seeds), e, r.value)
    ensures r.None? ==> Unreachable(m, (set s | s in seeds), e)
    ensures Distinct(expanded) && (forall c :: c in expanded ==> InBounds(m, c))
    ensures |expanded| <= |m| * |m[0]|
    ensures popped <= enqueued <= |seeds| + 4 * |expanded|
  {
    ghost var S := set s | s in seeds;
    ghost var cells := Box(|m|, |m[0]|);
    BoxSize(|m|, |m[0]|);
    var visited: set<Coord> := {};
    var q: seq<Entry> := InitialQueue(seeds);
    ghost var paths: seq<seq<Coord>> := InitialPaths(seeds);
    ghost var dist: map<Coord, nat> := map[];
    expanded, enqueued, popped := [], |seeds|, 0;
    InitialState(m, seeds);

    while q != []
      invariant visited == dist.Keys && visited <= cells && e !in visited
      invariant SearchState(m, S, dist, q, paths)
      invariant Accounts(expanded, visited, q, enqueued, popped, |seeds|)
      decreases |cells - visited|, |q|
    {
      var found, visited', q';
      ghost var added;
      found, visited', q', dist, paths, added := Visit(m, S, e, visited, q, dist, paths);
      if found.Some? {
        popped := popped + 1;
        CellsInBounds(m, expanded, visited);
        return found, expanded, enqueued, popped;
      }
      AccountRound(expanded, visited, q, enqueued, popped, |seeds|, visited', q', added);
      if q[0].0 !in visited {
        expanded := expanded + [q[0].0];
      }
      visited, q := visited', q';
      enqueued, popped := enqueued + added, popped + 1;
    }

    forall w | WalkFrom(m, S, w)
      ensures Last(w) != e
    {
      ExhaustedReachesAll(m, S, dist, w);
    }
    CellsInBounds(m, expanded, visited);
    r := None;
  }

  /** The bookkeeping of `Search`: `expanded` lists the visited cells once
      each, and every entry that entered the queue was popped or is waiting. */
  ghost predicate Accounts(expanded: seq<Coord>, visited: set<Coord>, q: seq<Entry>,
                           enqueued: nat, popped: nat, seeds: nat) {
    && Distinct(expanded) && (forall c :: c in expanded <==> c in visited)
    && |expanded| == |visited|
    && enqueued == popped + |q|
    && enqueued <= seeds + 4 * |expanded|
  }

  /** One round of `Visit` keeps the bookkeeping: a dropped entry is one
      more pop, and an expansion lists its cell and queues at most four. */
  lemma AccountRound(expanded: seq<Coord>, visited: set<Coord>, q: seq<Entry>, enqueued: nat, popped: nat,
                     seeds: nat, visited': set<Coord>, q': seq<Entry>, added: nat)
    requires Accounts(expanded, visited, q, enqueued, popped, seeds)
    requires q != [] && |q'| + 1 == |q| + added
    requires || (q[0].0 in visited && visited' == visited && added == 0)
             || (q[0].0 !in visited && visited' == visited + {q[0].0} && added <= 4)
    ensures Accounts(if q[0].0 in visited then expanded else expanded + [q[0].0],
                     visited', q', enqueued + added, popped + 1, seeds)
  {
  }

  /** The cells of a subset of the matrix box are in bounds, and there are
      at most as many as the matrix has cells. */
  lemma CellsInBounds(m: Grid, expanded: seq<Coord>, visited: set<Coord>)
    requires IsGrid(m) && visited <= Box(|m|, |m[0]|)
    requires (forall c :: c in expanded <==> c in visited) && |expanded| == |visited|
    ensures forall c :: c in expanded ==> InBounds(m, c)
    ensures |expanded| <= |m| * |m[0]|
  {
    BoxSize(|m|, |m[0]|);
    forall c | c in expanded
      ensures InBounds(m, c)
    {
      assert c in Box(|m|, |m[0]|);
      assert |m[c.row]| == |m[0]|;
    }
    var cells := Box(|m|, |m[0]|);
    assert cells == visited + (cells - visited);
  }

  /** `solve`: seeds the queue for the given part and runs the search. */
  method Solve(m: Grid, s: Coord, e: Coord, part: nat) returns (r: Option<nat>)
    requires IsGrid(m) && InBounds(m, s)
    ensures r.Some? ==> IsShortestDistance(m, SeedCells(m, s, part), e, r.value)
    ensures r.None? ==> Unreachable(m, SeedCells(m, s, part), e)
  {
    var seeds := InitialSeeds(m, s, part);
    assert (set c | c in seeds) == SeedCells(m, s, part);
    ghost var expanded, enqueued, popped;
    r, expanded, enqueued, popped := Search(m, seeds, e);
  }

  // ---------------------------------------------------------------------
  // The two parts
  // ---------------------------------------------------------------------

  datatype Error = Malformed(cause: GridError) | NoPath

  /** `part1` / `part2`: load the lines and search from the part's seeds. The
      answer is the shortest distance from the seeds to the end; the lines
      are malformed exactly when they do not load. */
  method SolvePart(lines: seq<string>, part: nat) returns (r: Result<nat, Error>)
    ensures (r.Err? && r.error.Malformed?) <==> forall L :: !LoadedFrom(lines, L)
    ensures forall L :: LoadedFrom(lines, L) ==>
              && InBounds(L.grid, L.start) && IsGrid(L.grid)
              && (r.Ok? ==> IsShortestDistance(L.grid, SeedCells(L.grid, L.start, part), L.end, r.value))
              && (r == Err(NoPath) ==> Unreachable(L.grid, SeedCells(L.grid, L.start, part), L.end))
  {
    var loaded := GetGrid(lines);
    if loaded.Err? {
      return Err(Malformed(loaded.error));
    }
    var L := loaded.value;
    forall L' | LoadedFrom(lines, L')
      ensures L' == L
    {
      LoadedFromUnique(lines, L, L');
    }
    LoadedFacts(lines, L);
    var d := Solve(L.grid, L.start, L.end, part);
    if d.None? {
      return Err(NoPath);
    }
    return Ok(d.value);
  }

  method Part1(lines: seq<string>) returns (r: Result<nat, Error>)
    ensures (r.Err? && r.error.Malformed?) <==> forall L :: !LoadedFrom(lines, L)
    ensures forall L :: LoadedFrom(lines, L) ==>
              && InBounds(L.grid, L.start) && IsGrid(L.grid)
              && (r.Ok? ==> IsShortestDistance(L.grid, {L.start}, L.end, r.value))
              && (r == Err(NoPath) ==> Unreachable(L.grid, {L.start}, L.end))
  {
    r := SolvePart(lines, 1);
  }

  method Part2(lines: seq<string>) returns (r: Result<nat, Error>)
    ensures (r.Err? && r.error.Malformed?) <==> forall L :: !LoadedFrom(lines, L)
    ensures forall L :: LoadedFrom(lines, L) ==>
              && InBounds(L.grid, L.start) && IsGrid(L.grid)
              && (r.Ok? ==> IsShortestDistance(L.grid, SeedCells(L.grid, L.start, 2), L.end, r.value))
              && (r == Err(NoPath) ==> Unreachable(L.grid, SeedCells(L.grid, L.start, 2), L.end))
  {
    r := SolvePart(lines, 2);
  }

  /** The part 2 answer is never larger than the part 1 answer, since the start
      is among the part 2 seeds; and when part 1 reaches the end, so does part 2. */
  lemma {:induction false} Part2NoFarther(m: Grid, s: Coord, e: Coord, d1: nat, d2: nat)
    requires IsGrid(m) && InBounds(m, s)
    requires IsShortestDistance(m, SeedCells(m, s, 1), e, d1)
    requires IsShortestDistance(m, SeedCells(m, s, 2), e, d2)
    ensures d2 <= d1
  {
    SeedsGrow(m, s);
    MoreSeedsNoFarther(m, SeedCells(m, s, 1), SeedCells(m, s, 2), e, d1, d2);
  }

  lemma {:induction false} Part2ReachesWhenPart1Does(m: Grid, s: Coord, e: Coord, d1: nat)
    requires IsGrid(m) && InBounds(m, s)
    requires IsShortestDistance(m, SeedCells(m, s, 1), e, d1)
    ensures !Unreachable(m, SeedCells(m, s, 2), e)
  {
    SeedsGrow(m, s);
    MoreSeedsStillReach(m, SeedCells(m, s, 1), SeedCells(m, s, 2), e, d1);
  }
}
