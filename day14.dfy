/** Day 14: sand poured from (500, 0) into a cave whose rock is drawn as
    paths of horizontal and vertical segments. Part 1 counts the grains that
    come to rest before sand falls past the deepest rock; part 2 adds a floor
    two rows below it and counts the grains until the source is blocked. */
module Day14 {
  import opened Text

  /** A parsed corner of a rock path, `x,y` with y growing downwards. */
  type Point = (nat, nat)

  /** A cell of the cave; sand can drift left of column 0, so cells are signed. */
  type Cell = (int, int)

  datatype SandError =
    | Diagonal   // a segment that is neither horizontal nor vertical (the `assert!`)
    | NoRocks    // no rock at all, so there is no deepest row (the `expect`)

  function Min(a: int, b: int): int { if a <= b then a else b }

  function Max(a: int, b: int): int { if a <= b then b else a }

  function Abs(a: int): nat { if a < 0 then -a else a }

  // ---------------------------------------------------------------- rock

  predicate Straight(p: Point, q: Point) {
    p.0 == q.0 || p.1 == q.1
  }

  predicate StraightPath(line: seq<Point>) {
    forall k :: 0 <= k < |line| - 1 ==> Straight(line[k], line[k + 1])
  }

  predicate AllStraight(paths: seq<seq<Point>>) {
    forall l :: 0 <= l < |paths| ==> StraightPath(paths[l])
  }

  /** The cells drawn for the segment from `p` to `q`: a column when the x
      coordinates agree, otherwise a row at `p`'s y. */
  function SegmentCells(p: Point, q: Point): (r: set<Cell>)
    ensures forall c :: c in r ==> 0 <= c.0 && 0 <= c.1
  {
    var x: int, y: int := p.0, p.1;
    if p.0 == q.0 then (set i: int | Min(p.1, q.1) <= i <= Max(p.1, q.1) :: (x, i))
    else (set i: int | Min(p.0, q.0) <= i <= Max(p.0, q.0) :: (i, y))
  }

  /** The cells drawn for the consecutive pairs (`windows(2)`) of one path. */
  function PathCells(line: seq<Point>): (r: set<Cell>)
    ensures forall c :: c in r ==> 0 <= c.0 && 0 <= c.1
    decreases |line|
  {
    if |line| < 2 then {}
    else PathCells(line[..|line| - 1]) + SegmentCells(line[|line| - 2], line[|line| - 1])
  }

  function CaveCells(paths: seq<seq<Point>>): (r: set<Cell>)
    ensures forall c :: c in r ==> 0 <= c.0 && 0 <= c.1
    decreases |paths|
  {
    if paths == [] then {} else CaveCells(paths[..|paths| - 1]) + PathCells(paths[|paths| - 1])
  }

  /** The bounding box of two points, endpoints included. */
  predicate InBox(c: Cell, p: Point, q: Point) {
    Min(p.0, q.0) <= c.0 <= Max(p.0, q.0) && Min(p.1, q.1) <= c.1 <= Max(p.1, q.1)
  }

  /** A straight segment is exactly the cells between its ends, both ends included. */
  lemma SegmentIsBox(p: Point, q: Point, c: Cell)
    requires Straight(p, q)
    ensures c in SegmentCells(p, q) <==> InBox(c, p, q)
  {
    if p.0 == q.0 {
      if InBox(c, p, q) {
        assert c == (p.0 as int, c.1);
      }
    } else {
      if InBox(c, p, q) {
        assert c == (c.0, p.1 as int);
      }
    }
  }

  lemma {:induction false} PathCellsOnSegments(line: seq<Point>, c: Cell)
    ensures c in PathCells(line) <==>
            exists k :: 0 <= k < |line| - 1 && c in SegmentCells(line[k], line[k + 1])
    decreases |line|
  {
    if |line| >= 2 {
      var front := line[..|line| - 1];
      PathCellsOnSegments(front, c);
      if c in PathCells(front) {
        var k :| 0 <= k < |front| - 1 && c in SegmentCells(front[k], front[k + 1]);
        assert front[k] == line[k] && front[k + 1] == line[k + 1];
      }
      if exists k :: 0 <= k < |line| - 1 && c in SegmentCells(line[k], line[k + 1]) {
        var k :| 0 <= k < |line| - 1 && c in SegmentCells(line[k], line[k + 1]);
        if k < |line| - 2 {
          assert front[k] == line[k] && front[k + 1] == line[k + 1];
        }
      }
    }
  }

  /** A cell is rock exactly when it lies on some segment of some path. */
  lemma {:induction false} CaveCellsOnSegments(paths: seq<seq<Point>>, c: Cell)
    ensures c in CaveCells(paths) <==>
            exists l, k :: 0 <= l < |paths| && 0 <= k < |paths[l]| - 1 &&
                           c in SegmentCells(paths[l][k], paths[l][k + 1])
    decreases |paths|
  {
    if paths != [] {
      var front := paths[..|paths| - 1];
      var last := paths[|paths| - 1];
      CaveCellsOnSegments(front, c);
      PathCellsOnSegments(last, c);
      if c in CaveCells(front) {
        var l, k :| 0 <= l < |front| && 0 <= k < |front[l]| - 1 &&
                    c in SegmentCells(front[l][k], front[l][k + 1]);
        assert front[l] == paths[l];
      }
      if c in PathCells(last) {
        var k :| 0 <= k < |last| - 1 && c in SegmentCells(last[k], last[k + 1]);
        assert paths[|paths| - 1] == last;
      }
      if exists l, k :: 0 <= l < |paths| && 0 <= k < |paths[l]| - 1 &&
                        c in SegmentCells(paths[l][k], paths[l][k + 1]) {
        var l, k :| 0 <= l < |paths| && 0 <= k < |paths[l]| - 1 &&
                    c in SegmentCells(paths[l][k], paths[l][k + 1]);
        if l < |paths| - 1 {
          assert front[l] == paths[l];
        }
      }
    }
  }

  /** Every corner of every path of two or more corners is rock. */
  lemma CornersAreRock(paths: seq<seq<Point>>, l: nat, k: nat)
    requires AllStraight(paths)
    requires l < |paths| && k < |paths[l]| && |paths[l]| >= 2
    ensures (paths[l][k].0 as int, paths[l][k].1 as int) in CaveCells(paths)
  {
    var line := paths[l];
    var c := (line[k].0 as int, line[k].1 as int);
    var j := if k < |line| - 1 then k else k - 1;
    assert StraightPath(line);
    SegmentIsBox(line[j], line[j + 1], c);
    CaveCellsOnSegments(paths, c);
  }

  /** The cells of one segment added to `rocks` (one of the two inner loops). */
  method AddSegment(rocks: set<Cell>, p: Point, q: Point) returns (r: set<Cell>)
    ensures r == rocks + SegmentCells(p, q)
  {
    r := rocks;
    if p.0 == q.0 {
      var x: int, lo, hi := p.0, Min(p.1, q.1), Max(p.1, q.1);
      for i := lo to hi + 1
        invariant r == rocks + (set j: int | lo <= j < i :: (x, j))
      {
        r := r + {(x, i)};
      }
      assert (set j: int | lo <= j < hi + 1 :: (x, j)) == SegmentCells(p, q);
    } else {
      var y: int, lo, hi := p.1, Min(p.0, q.0), Max(p.0, q.0);
      for i := lo to hi + 1
        invariant r == rocks + (set j: int | lo <= j < i :: (j, y))
      {
        r := r + {(i, y)};
      }
      assert (set j: int | lo <= j < hi + 1 :: (j, y)) == SegmentCells(p, q);
    }
  }

  /** The rock cells of one path added to `rocks` (the loop over `windows(2)`). */
  method AddPath(rocks: set<Cell>, line: seq<Point>) returns (r: Result<set<Cell>, SandError>)
    ensures r.Err? <==> !StraightPath(line)
    ensures r.Err? ==> r.error == Diagonal
    ensures r.Ok? ==> r.value == rocks + PathCells(line)
  {
    if |line| < 2 {
      return Ok(rocks);
    }
    var cells := rocks;
    var k := 0;
    while k < |line| - 1
      invariant 0 <= k <= |line| - 1
      invariant StraightPath(line[..k + 1])
      invariant cells == rocks + PathCells(line[..k + 1])
    {
      var p, q := line[k], line[k + 1];
      if p.0 != q.0 && p.1 != q.1 {
        return Err(Diagonal);
      }
      cells := AddSegment(cells, p, q);
      PathCellsSnoc(line, k);
      k := k + 1;
    }
    assert line[..k + 1] == line;
    return Ok(cells);
  }

  /** One more corner adds one more segment. */
  lemma PathCellsSnoc(line: seq<Point>, k: nat)
    requires k + 1 < |line|
    ensures PathCells(line[..k + 2]) == PathCells(line[..k + 1]) + SegmentCells(line[k], line[k + 1])
    ensures StraightPath(line[..k + 1]) && Straight(line[k], line[k + 1]) ==> StraightPath(line[..k + 2])
  {
    assert line[..k + 2][..k + 1] == line[..k + 1];
  }

  /** `get_data`: the rock cells of all paths; a diagonal segment is an error. */
  method GetData(paths: seq<seq<Point>>) returns (r: Result<set<Cell>, SandError>)
    ensures r.Err? <==> !AllStraight(paths)
    ensures r.Err? ==> r.error == Diagonal
    ensures r.Ok? ==> r.value == CaveCells(paths)
  {
    var rocks: set<Cell> := {};
    for l := 0 to |paths|
      invariant AllStraight(paths[..l])
      invariant rocks == CaveCells(paths[..l])
    {
      assert paths[..l + 1][..l] == paths[..l];
      assert paths[..l + 1][l] == paths[l];
      var added := AddPath(rocks, paths[l]);
      if added.Err? {
        return Err(Diagonal);
      }
      rocks := added.value;
    }
    assert paths[..|paths|] == paths;
    return Ok(rocks);
  }

  // ---------------------------------------------------------------- sand

  const Start: Cell := (500, 0)

  /** `floor_test`: whether the row below can be entered at all. */
  predicate FloorTest(y: int, depth: int, part: nat) {
    part == 1 || y != depth
  }

  /** A grain at `c` cannot move: the floor is below it, or the three cells
      below it are all blocked. */
  predicate Resting(blockers: set<Cell>, c: Cell, depth: int, part: nat) {
    var y := c.1 + 1;
    !FloorTest(y, depth, part) ||
    ((c.0, y) in blockers && (c.0 - 1, y) in blockers && (c.0 + 1, y) in blockers)
  }

  /** Where a grain at `p` comes to rest, trying straight down, then down-left,
      then down-right; None when it reaches row `depth` first. */
  function Drop(blockers: set<Cell>, p: Cell, depth: int, part: nat): (r: Option<Cell>)
    ensures r.Some? ==> p.1 <= r.value.1 < depth && Abs(r.value.0 - p.0) <= r.value.1 - p.1
    ensures r.Some? ==> Resting(blockers, r.value, depth, part)
    ensures r.Some? && r.value != p ==> r.value !in blockers
    decreases depth - p.1
  {
    if p.1 >= depth then None
    else
      var y := p.1 + 1;
      var floor := FloorTest(y, depth, part);
      if floor && (p.0, y) !in blockers then Drop(blockers, (p.0, y), depth, part)
      else if floor && (p.0 - 1, y) !in blockers then Drop(blockers, (p.0 - 1, y), depth, part)
      else if floor && (p.0 + 1, y) !in blockers then Drop(blockers, (p.0 + 1, y), depth, part)
      else Some(p)
  }

  /** With a floor, a grain released above it always comes to rest. */
  lemma {:induction false} DropLandsOnFloor(blockers: set<Cell>, p: Cell, depth: int, part: nat)
    requires part != 1 && p.1 < depth
    ensures Drop(blockers, p, depth, part).Some?
    decreases depth - p.1
  {
    var y := p.1 + 1;
    if y != depth {
      if (p.0, y) !in blockers {
        DropLandsOnFloor(blockers, (p.0, y), depth, part);
      } else if (p.0 - 1, y) !in blockers {
        DropLandsOnFloor(blockers, (p.0 - 1, y), depth, part);
      } else if (p.0 + 1, y) !in blockers {
        DropLandsOnFloor(blockers, (p.0 + 1, y), depth, part);
      }
    }
  }

  /** The cells a grain from the source can reach above row `depth`. */
  function Cone(depth: int): set<Cell> {
    set x: int, y: int | 0 <= y < depth && 500 - y <= x <= 500 + y :: (x, y)
  }

  lemma FewerFreeCells(cone: set<Cell>, blockers: set<Cell>, c: Cell)
    requires c in cone && c !in blockers
    ensures |cone - (blockers + {c})| < |cone - blockers|
  {
    assert cone - (blockers + {c}) == (cone - blockers) - {c};
  }

  lemma RestingGrows(b: set<Cell>, b': set<Cell>, c: Cell, depth: int, part: nat)
    requires b <= b' && Resting(b, c, depth, part)
    ensures Resting(b', c, depth, part)
  {
  }

  /** The blocked cells once sand stops: grains are released from the source
      one after another until one falls past `depth` or one rests at the source. */
  function Settle(blockers: set<Cell>, depth: int, part: nat): (r: set<Cell>)
    ensures blockers <= r
    ensures r - blockers <= Cone(depth)
    ensures forall c :: c in r - blockers ==> Resting(r, c, depth, part)
    ensures Start in r || Drop(r, Start, depth, part) == None
    decreases |Cone(depth) - blockers|
  {
    match Drop(blockers, Start, depth, part)
    case None => blockers
    case Some(c) =>
      if c == Start then
        RestingGrows(blockers, blockers + {c}, c, depth, part);
        blockers + {c}
      else
        assert c in Cone(depth);
        FewerFreeCells(Cone(depth), blockers, c);
        var r := Settle(blockers + {c}, depth, part);
        RestingGrows(blockers, r, c, depth, part);
        r
  }

  /** With a floor, sand always piles up to the source. */
  lemma FloorFillsToSource(blockers: set<Cell>, depth: int, part: nat)
    requires part != 1 && depth > 0
    ensures Start in Settle(blockers, depth, part)
  {
    DropLandsOnFloor(Settle(blockers, depth, part), Start, depth, part);
  }

  /** Blocked cells never disappear, so the grains are the cells added to the rock. */
  lemma GrainCount(rocks: set<Cell>, depth: int, part: nat)
    ensures |Settle(rocks, depth, part) - rocks| == |Settle(rocks, depth, part)| - |rocks|
  {
    var r := Settle(rocks, depth, part);
    assert r == rocks + (r - rocks);
  }

  /** A grain that comes to rest below the source is added, and the rest of
      the pouring goes on from there. */
  lemma SettleStep(blockers: set<Cell>, depth: int, part: nat, p: Cell)
    requires Drop(blockers, Start, depth, part) == Some(p) && p != Start
    ensures Settle(blockers + {p}, depth, part) == Settle(blockers, depth, part)
    ensures |Cone(depth) - (blockers + {p})| < |Cone(depth) - blockers|
  {
    assert p in Cone(depth);
    FewerFreeCells(Cone(depth), blockers, p);
  }

  /** A grain that rests at the source is the last one. */
  lemma SettleAtStart(blockers: set<Cell>, depth: int, part: nat)
    requires Drop(blockers, Start, depth, part) == Some(Start)
    ensures Settle(blockers, depth, part) == blockers + {Start}
  {
  }

  /** A grain that falls past `depth` ends the pouring. */
  lemma SettleDone(blockers: set<Cell>, depth: int, part: nat)
    requires Drop(blockers, Start, depth, part) == None
    ensures Settle(blockers, depth, part) == blockers
  {
  }

  /** The `while` loop of `solve`: one grain at a time moves down until it
      rests, and the next one starts from the source. */
  method PourSand(rocks: set<Cell>, depth: int, part: nat) returns (blockers: set<Cell>)
    ensures blockers == Settle(rocks, depth, part)
  {
    ghost var final := Settle(rocks, depth, part);
    var p := Start;
    blockers := rocks;
    while p.1 < depth
      invariant p == Start || p !in blockers
      invariant Drop(blockers, p, depth, part) == Drop(blockers, Start, depth, part)
      invariant Settle(blockers, depth, part) == final
      decreases |Cone(depth) - blockers|, depth - p.1
    {
      var y := p.1 + 1;
      var floorTest := FloorTest(y, depth, part);
      if floorTest && (p.0, y) !in blockers {
        p := (p.0, y);
      } else if floorTest && (p.0 - 1, y) !in blockers {
        p := (p.0 - 1, y);
      } else if floorTest && (p.0 + 1, y) !in blockers {
        p := (p.0 + 1, y);
      } else {
        assert Drop(blockers, Start, depth, part) == Some(p);
        if p == Start {
          SettleAtStart(blockers, depth, part);
          blockers := blockers + {p};
          break;
        }
        SettleStep(blockers, depth, part, p);
        blockers := blockers + {p};
        p := Start;
      }
    }
    if p.1 >= depth {
      SettleDone(blockers, depth, part);
    }
  }

  /** The deepest row holding rock. */
  ghost predicate IsDeepest(rocks: set<Cell>, d: int) {
    (exists c :: c in rocks && c.1 == d) && forall c :: c in rocks ==> c.1 <= d
  }

  /** `rocks.iter().map(|(_, y)| y).max()`. */
  method DeepestRow(rocks: set<Cell>) returns (r: Option<int>)
    ensures r.None? <==> rocks == {}
    ensures r.Some? ==> IsDeepest(rocks, r.value)
  {
    if rocks == {} {
      return None;
    }
    var c :| c in rocks;
    var d := c.1;
    var rest := rocks - {c};
    while rest != {}
      invariant rest <= rocks
      invariant exists e :: e in rocks && e.1 == d
      invariant forall e :: e in rocks && e !in rest ==> e.1 <= d
      decreases |rest|
    {
      var e :| e in rest;
      if e.1 > d {
        d := e.1;
      }
      rest := rest - {e};
    }
    return Some(d);
  }

  lemma DeepestUnique(rocks: set<Cell>, d1: int, d2: int)
    requires IsDeepest(rocks, d1) && IsDeepest(rocks, d2)
    ensures d1 == d2
  {
    var c1 :| c1 in rocks && c1.1 == d1;
    var c2 :| c2 in rocks && c2.1 == d2;
  }

  /** The row the loop stops at: the deepest rock, or the floor two rows below it. */
  ghost predicate IsSandDepth(rocks: set<Cell>, part: nat, depth: int) {
    exists d :: IsDeepest(rocks, d) && depth == (if part == 2 then d + 2 else d)
  }

  /** `solve`: the number of grains at rest when the sand stops. */
  method Solve(paths: seq<seq<Point>>, part: nat) returns (r: Result<nat, SandError>)
    ensures r == Err(Diagonal) <==> !AllStraight(paths)
    ensures r == Err(NoRocks) <==> AllStraight(paths) && CaveCells(paths) == {}
    ensures r.Ok? ==>
              exists depth :: IsSandDepth(CaveCells(paths), part, depth) &&
                              r.value == |Settle(CaveCells(paths), depth, part) - CaveCells(paths)|
  {
    var data := GetData(paths);
    if data.Err? {
      return Err(data.error);
    }
    var rocks := data.value;
    var deepest := DeepestRow(rocks);
    if deepest.None? {
      return Err(NoRocks);
    }
    var depth := deepest.value;
    if part == 2 {
      depth := depth + 2;
    }
    assert IsSandDepth(rocks, part, depth);
    var blockers := PourSand(rocks, depth, part);
    GrainCount(rocks, depth, part);
    return Ok(|blockers| - |rocks|);
  }

  /** Every grain counted by `solve` rests inside the cone below the source,
      and in part 2 the last grain blocks the source itself. */
  lemma SolvedSandRests(rocks: set<Cell>, part: nat, depth: int)
    requires forall c :: c in rocks ==> 0 <= c.1
    requires IsSandDepth(rocks, part, depth)
    ensures forall c :: c in Settle(rocks, depth, part) - rocks ==>
              c in Cone(depth) && Resting(Settle(rocks, depth, part), c, depth, part)
    ensures part == 2 ==> Start in Settle(rocks, depth, part)
  {
    var d :| IsDeepest(rocks, d) && depth == (if part == 2 then d + 2 else d);
    if part == 2 {
      var c :| c in rocks && c.1 == d;
      FloorFillsToSource(rocks, depth, part);
    }
  }
}
