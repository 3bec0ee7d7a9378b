/** Day 09: a rope of two knots. The head moves one cell at a time as the
    commands say; after every step the tail follows by the rule of
    `get_pos`, and the cells the tail has visited are counted. */
module Day09 {
  import opened Text

  /** A cell as (row, column). */
  type Pos = (int, int)

  function Abs(a: int): nat { if a < 0 then -a else a }

  /** Two cells touch when they are at most one apart on both axes
      (Chebyshev distance at most 1); a cell touches itself. */
  predicate Touching(a: Pos, b: Pos) {
    Abs(a.0 - b.0) <= 1 && Abs(a.1 - b.1) <= 1
  }

  /** `b` is one of the four orthogonal neighbours of `a`. */
  predicate OrthoStep(a: Pos, b: Pos) {
    Abs(a.0 - b.0) + Abs(a.1 - b.1) == 1
  }

  /** `get_pos`: where the tail `t` goes when the head moves from `h` to `p`. */
  function GetPos(h: Pos, t: Pos, p: Pos): (r: Pos)
    ensures r == t || r == h || (r.0 == t.0 && Abs(r.1 - t.1) == 1) || (r.1 == t.1 && Abs(r.0 - t.0) == 1)
  {
    if t.0 == p.0 then
      var n := p.1 - t.1;
      if n > 1 then (t.0, t.1 + 1) else if n < -1 then (t.0, t.1 - 1) else t
    else if t.1 == p.1 then
      var n := p.0 - t.0;
      if n > 1 then (t.0 + 1, t.1) else if n < -1 then (t.0 - 1, t.1) else t
    else if (p.0 > t.0 && p.0 - t.0 > 1) || (t.0 > p.0 && t.0 - p.0 > 1)
         || (p.1 > t.1 && p.1 - t.1 > 1) || (t.1 > p.1 && t.1 - p.1 > 1)
    then h
    else t
  }

  /** If the tail touched the head and the head takes one orthogonal step,
      the tail touches the head again afterwards, having moved at most one
      cell in each direction. */
  lemma GetPosFollows(h: Pos, t: Pos, p: Pos)
    requires Touching(t, h) && OrthoStep(h, p)
    ensures Touching(GetPos(h, t, p), p)
    ensures Touching(GetPos(h, t, p), t)
  {
  }

  /** A tail that still touches the head does not move. */
  lemma GetPosStays(h: Pos, t: Pos, p: Pos)
    requires Touching(t, p)
    ensures GetPos(h, t, p) == t
  {
  }

  // ---------------------------------------------------------------- commands

  /** One unit of distance in a direction: R, L, U, and anything else as D. */
  function Step(direction: string): (d: Pos)
    ensures OrthoStep((0, 0), d)
  {
    if direction == "R" then (0, 1)
    else if direction == "L" then (0, -1)
    else if direction == "U" then (1, 0)
    else (-1, 0)
  }

  datatype RopeError = BadDistance

  /** The first two words of a line as a step and a distance; a line with
      fewer than two words is no command at all. */
  function Command(line: string): (r: Result<Option<(Pos, nat)>, RopeError>)
    ensures r.Ok? && r.value.Some? ==>
              |Words(line)| >= 2 && r.value.value.0 == Step(Words(line)[0]) &&
              ParseNat(Words(line)[1]) == Some(r.value.value.1)
    ensures r.Ok? && r.value.None? <==> |Words(line)| < 2
  {
    var cmd := Words(line);
    if |cmd| < 2 then Ok(None)
    else
      match ParseNat(cmd[1])
      case None => Err(BadDistance)
      case Some(n) => Ok(Some((Step(cmd[0]), n)))
  }

  /** The two knots and the cells the tail has been on. */
  datatype Rope = Rope(head: Pos, tail: Pos, visited: set<Pos>)

  const Start: Rope := Rope((0, 0), (0, 0), {(0, 0)})

  /** The head moves by `d`, the tail follows, and its cell is recorded. */
  function Pull(r: Rope, d: Pos): Rope {
    var p := (r.head.0 + d.0, r.head.1 + d.1);
    var t := GetPos(r.head, r.tail, p);
    Rope(p, t, r.visited + {t})
  }

  function PullMany(r: Rope, d: Pos, n: nat): Rope
    decreases n
  {
    if n == 0 then r else PullMany(Pull(r, d), d, n - 1)
  }

  /** The command lines applied in order, stopping at the first bad distance. */
  function RunLines(r: Rope, lines: seq<string>): Result<Rope, RopeError>
    decreases |lines|
  {
    if lines == [] then Ok(r)
    else
      match Command(lines[0])
      case Err(e) => Err(e)
      case Ok(None) => RunLines(r, lines[1..])
      case Ok(Some((d, n))) => RunLines(PullMany(r, d, n), lines[1..])
  }

  /** The rope is whole: the tail touches the head and both the start cell and
      the tail's cell are recorded. */
  predicate Valid(r: Rope) {
    Touching(r.tail, r.head) && r.tail in r.visited && (0, 0) in r.visited
  }

  lemma {:induction false} PullManyValid(r: Rope, d: Pos, n: nat)
    requires Valid(r) && OrthoStep((0, 0), d)
    ensures Valid(PullMany(r, d, n))
    ensures r.visited <= PullMany(r, d, n).visited
    decreases n
  {
    if n > 0 {
      PullValid(r, d);
      PullManyValid(Pull(r, d), d, n - 1);
    }
  }

  lemma PullValid(r: Rope, d: Pos)
    requires Valid(r) && OrthoStep((0, 0), d)
    ensures Valid(Pull(r, d)) && r.visited <= Pull(r, d).visited
  {
    var p := (r.head.0 + d.0, r.head.1 + d.1);
    assert OrthoStep(r.head, p);
    GetPosFollows(r.head, r.tail, p);
    var t := GetPos(r.head, r.tail, p);
    assert Pull(r, d) == Rope(p, t, r.visited + {t});
  }

  /** The rope stays whole however many commands are applied, and no recorded
      cell is forgotten. */
  lemma {:induction false} RunLinesValid(r: Rope, lines: seq<string>)
    requires Valid(r)
    ensures RunLines(r, lines).Ok? ==>
              Valid(RunLines(r, lines).value) && r.visited <= RunLines(r, lines).value.visited
    decreases |lines|
  {
    if lines != [] {
      match Command(lines[0])
      case Err(_) =>
      case Ok(None) => RunLinesValid(r, lines[1..]);
      case Ok(Some((d, n))) =>
        PullManyValid(r, d, n);
        RunLinesValid(PullMany(r, d, n), lines[1..]);
    }
  }

  /** The `match direction` of `coverage`. */
  method Direction(direction: string) returns (row: int, col: int)
    ensures (row, col) == Step(direction)
  {
    row, col := 0, 0;
    if direction == "R" {
      col := 1;
    } else if direction == "L" {
      col := -1;
    } else if direction == "U" {
      row := 1;
    } else {
      row := -1;
    }
  }

  /** The inner `for` loop: `distance` single steps of the head. */
  method Walk(h: Pos, t: Pos, mat: set<Pos>, d: Pos, distance: nat) returns (h': Pos, t': Pos, mat': set<Pos>)
    ensures Rope(h', t', mat') == PullMany(Rope(h, t, mat), d, distance)
  {
    h', t', mat' := h, t, mat;
    for k := 0 to distance
      invariant PullMany(Rope(h, t, mat), d, distance) == PullMany(Rope(h', t', mat'), d, distance - k)
    {
      var p := (h'.0 + d.0, h'.1 + d.1);
      t' := GetPos(h', t', p);
      mat' := mat' + {t'};
      h' := p;
    }
  }

  /** `coverage` (part 1): the number of cells the tail has visited. */
  method Coverage(lines: seq<string>) returns (r: Result<nat, RopeError>)
    ensures r.Err? <==> RunLines(Start, lines).Err?
    ensures r.Ok? ==> r.value == |RunLines(Start, lines).value.visited| && r.value >= 1
  {
    var mat: set<Pos> := {(0, 0)};
    var h: Pos := (0, 0);
    var t: Pos := (0, 0);
    for i := 0 to |lines|
      invariant RunLines(Start, lines) == RunLines(Rope(h, t, mat), lines[i..])
      invariant Valid(Rope(h, t, mat))
    {
      assert lines[i..][1..] == lines[i + 1..];
      var cmd := Words(lines[i]);
      if |cmd| >= 2 {
        var parsed := ParseNat(cmd[1]);
        if parsed.None? {
          return Err(BadDistance);
        }
        var row, col := Direction(cmd[0]);
        PullManyValid(Rope(h, t, mat), (row, col), parsed.value);
        h, t, mat := Walk(h, t, mat, (row, col), parsed.value);
      }
    }
    assert lines[|lines|..] == [];
    assert |mat| >= 1 by {
      assert {(0, 0)} <= mat;
    }
    return Ok(|mat|);
  }

  /** `part2` is a stub in the solver: it answers 0. */
  function Part2(lines: seq<string>): nat {
    0
  }
}
