/** Hill climbing, part one of two: the height matrix and the step rule
    (day_12/src/main.rs, `get_grid` and `neighbors`).

    Every input character becomes its character code; the start marker `S`
    and the end marker `E` are recorded and then stored as the codes of `a`
    and `z`. A move goes up, left, down or right, stays inside the matrix,
    and may climb by at most one. */
module Day12Grid {
  import opened Text

  /** A (row, column) position, the `(usize, usize)` tuples of the source. */
  datatype Coord = Coord(row: nat, col: nat)

  /** The height matrix, one sequence per row. */
  type Grid = seq<seq<nat>>

  /** A non-empty rectangular matrix. */
  predicate IsGrid(g: Grid) {
    |g| > 0 && |g[0]| > 0 && forall i :: 0 <= i < |g| ==> |g[i]| == |g[0]|
  }

  predicate InBounds(g: Grid, c: Coord) {
    c.row < |g| && c.col < |g[c.row]|
  }

  function Height(g: Grid, c: Coord): nat
    requires InBounds(g, c)
  {
    g[c.row][c.col]
  }

  /** Row-major order: the order in which `indexed_iter` visits the cells. */
  predicate Before(a: Coord, b: Coord) {
    a.row < b.row || (a.row == b.row && a.col < b.col)
  }

  // ---------------------------------------------------------------------
  // Loading the matrix
  // ---------------------------------------------------------------------

  datatype GridError =
    | EmptyInput        // `data[0]` of an empty input
    | RaggedRow(row: nat) // `push_row` of a row whose character count differs from the first row's byte length
    | NoStart           // `expect("to find 'S'")`
    | NoEnd             // `expect("to find 'E'")`

  datatype Loaded = Loaded(grid: Grid, start: Coord, end: Coord)

  predicate InText(data: seq<string>, c: Coord) {
    c.row < |data| && c.col < |data[c.row]|
  }

  function CharAt(data: seq<string>, c: Coord): char
    requires InText(data, c)
  {
    data[c.row][c.col]
  }

  /** Every row has as many characters as the first row has bytes: the
      matrix is sized by `data[0].len()`, a length in UTF-8 bytes, and
      `push_row` then takes one code per character. */
  predicate SameWidth(data: seq<string>)
    requires data != []
  {
    forall i :: 0 <= i < |data| ==> |data[i]| == Utf8Len(data[0])
  }

  ghost predicate Occurs(data: seq<string>, ch: char) {
    exists c :: InText(data, c) && CharAt(data, c) == ch
  }

  /** `c` holds the first `ch` of `data` in row-major order. */
  ghost predicate IsFirst(data: seq<string>, ch: char, c: Coord) {
    && InText(data, c) && CharAt(data, c) == ch
    && forall d :: InText(data, d) && Before(d, c) ==> CharAt(data, d) != ch
  }

  /** The result of `get_grid` on `data`: a matrix of the same shape holding
      the character codes, except that the first `S` is recorded as the start
      and holds `'a'`, and the first `E` is recorded as the end and holds `'z'`. */
  ghost predicate LoadedFrom(data: seq<string>, L: Loaded) {
    && data != [] && SameWidth(data)
    && |L.grid| == |data|
    && (forall i :: 0 <= i < |data| ==> |L.grid[i]| == |data[i]|)
    && IsFirst(data, 'S', L.start)
    && IsFirst(data, 'E', L.end)
    && forall c :: InText(data, c) ==>
         Height(L.grid, c) == (if c == L.start then 'a' as nat
                               else if c == L.end then 'z' as nat
                               else CharAt(data, c) as nat)
  }

  /** `get_row`: the character codes of one line. */
  function RowCodes(s: string): (r: seq<nat>)
    ensures |r| == |s| && forall j :: 0 <= j < |s| ==> r[j] == s[j] as nat
  {
    seq(|s|, j requires 0 <= j < |s| => s[j] as nat)
  }

  function FindInRow(row: seq<nat>, v: nat, j: nat): (r: Option<nat>)
    requires j <= |row|
    ensures r.Some? ==> j <= r.value < |row| && row[r.value] == v
    ensures r.Some? ==> forall k :: j <= k < r.value ==> row[k] != v
    ensures r.None? ==> forall k :: j <= k < |row| ==> row[k] != v
    decreases |row| - j
  {
    if j == |row| then None
    else if row[j] == v then Some(j)
    else FindInRow(row, v, j + 1)
  }

  function FindFrom(g: Grid, v: nat, i: nat): (r: Option<Coord>)
    requires i <= |g|
    ensures r.Some? ==> i <= r.value.row && InBounds(g, r.value) && Height(g, r.value) == v
    ensures r.Some? ==> forall c :: InBounds(g, c) && i <= c.row && Before(c, r.value) ==> Height(g, c) != v
    ensures r.None? ==> forall c :: InBounds(g, c) && i <= c.row ==> Height(g, c) != v
    decreases |g| - i
  {
    if i == |g| then None
    else
      match FindInRow(g[i], v, 0)
      case Some(j) => Some(Coord(i, j))
      case None => FindFrom(g, v, i + 1)
  }

  /** `indexed_iter().find(..)`: the first cell holding `v` in row-major order. */
  function FindFirst(g: Grid, v: nat): (r: Option<Coord>)
    ensures r.Some? ==> InBounds(g, r.value) && Height(g, r.value) == v
    ensures r.Some? ==> forall c :: InBounds(g, c) && Before(c, r.value) ==> Height(g, c) != v
    ensures r.None? ==> forall c :: InBounds(g, c) ==> Height(g, c) != v
  {
    FindFrom(g, v, 0)
  }

  /** `grid[[i, j]] = v`. */
  function SetCell(g: Grid, p: Coord, v: nat): (r: Grid)
    requires InBounds(g, p)
    ensures |r| == |g| && forall i :: 0 <= i < |g| ==> |r[i]| == |g[i]|
    ensures forall c :: InBounds(g, c) ==> Height(r, c) == if c == p then v else Height(g, c)
  {
    var row: seq<nat> := g[p.row][p.col := v];
    g[p.row := row]
  }

  lemma CodeInjective(c: char, d: char)
    requires c as nat == d as nat
    ensures c == d
  {
  }

  /** `get_grid`: builds the matrix row by row, then finds and overwrites the
      start and end markers. The `assert!(start != end)` of the source can
      never fail, because the start cell no longer holds `'S'`'s code when the
      end is searched for. */
  method GetGrid(data: seq<string>) returns (r: Result<Loaded, GridError>)
    ensures r == Err(EmptyInput) <==> data == []
    ensures (r.Err? && r.error.RaggedRow?) <==> (data != [] && !SameWidth(data))
    ensures r.Err? && r.error.RaggedRow? ==>
              && r.error.row < |data| && |data[r.error.row]| != Utf8Len(data[0])
              && forall i :: 0 <= i < r.error.row ==> |data[i]| == Utf8Len(data[0])
    ensures r == Err(NoStart) <==> data != [] && SameWidth(data) && !Occurs(data, 'S')
    ensures r == Err(NoEnd) <==> data != [] && SameWidth(data) && Occurs(data, 'S') && !Occurs(data, 'E')
    ensures r.Ok? ==> LoadedFrom(data, r.value)
    ensures r.Ok? ==> IsGrid(r.value.grid) && r.value.start != r.value.end
  {
    if |data| == 0 {
      return Err(EmptyInput);
    }
    var width := Utf8Len(data[0]);
    var grid: Grid := [];
    for i := 0 to |data|
      invariant |grid| == i
      invariant forall k :: 0 <= k < i ==> |data[k]| == width && grid[k] == RowCodes(data[k])
    {
      if |data[i]| != width {
        return Err(RaggedRow(i));
      }
      grid := grid + [RowCodes(data[i])];
    }
    assert SameWidth(data);
    SameShape(data, grid);
    assert ShowsMarker(data, grid, 'S') && ShowsMarker(data, grid, 'E');

    var s := FindFirst(grid, 'S' as nat);
    MarkerFound(data, grid, 'S', s);
    if s.None? {
      return Err(NoStart);
    }
    var start := s.value;
    ghost var codes := grid;
    grid := SetCell(grid, start, 'a' as nat);
    Overwritten(data, codes, grid, start, 'a', 'E');

    var e := FindFirst(grid, 'E' as nat);
    MarkerFound(data, grid, 'E', e);
    if e.None? {
      return Err(NoEnd);
    }
    var end := e.value;
    assert start != end;
    ghost var marked := grid;
    grid := SetCell(grid, end, 'z' as nat);
    r := Ok(Loaded(grid, start, end));
    assert LoadedFrom(data, r.value) by {
      forall c | InText(data, c)
        ensures Height(grid, c) == (if c == start then 'a' as nat
                                    else if c == end then 'z' as nat
                                    else CharAt(data, c) as nat)
      {
        assert InBounds(codes, c) && InBounds(marked, c);
      }
    }
    assert IsGrid(grid) by {
      assert |grid[0]| == |data[0]| && InText(data, start);
    }
  }

  /** `g` has the shape of `data`, and its cells hold the character codes of
      `data` wherever `data` holds `ch`, and only there. */
  ghost predicate ShowsMarker(data: seq<string>, g: Grid, ch: char) {
    && |g| == |data|
    && (forall i :: 0 <= i < |data| ==> |g[i]| == |data[i]|)
    && forall c :: InText(data, c) ==> (Height(g, c) == ch as nat <==> CharAt(data, c) == ch)
  }

  lemma SameShape(data: seq<string>, g: Grid)
    requires |g| == |data|
    requires forall k :: 0 <= k < |data| ==> g[k] == RowCodes(data[k])
    ensures forall ch :: ShowsMarker(data, g, ch)
    ensures forall c :: InText(data, c) ==> InBounds(g, c) && Height(g, c) == CharAt(data, c) as nat
  {
    forall ch: char
      ensures ShowsMarker(data, g, ch)
    {
      forall c | InText(data, c)
        ensures Height(g, c) == ch as nat <==> CharAt(data, c) == ch
      {
        if Height(g, c) == ch as nat {
          CodeInjective(CharAt(data, c), ch);
        }
      }
    }
  }

  lemma MarkerFound(data: seq<string>, g: Grid, ch: char, r: Option<Coord>)
    requires ShowsMarker(data, g, ch) && r == FindFirst(g, ch as nat)
    ensures r.None? <==> !Occurs(data, ch)
    ensures r.Some? ==> IsFirst(data, ch, r.value)
  {
    if r.Some? {
      assert InText(data, r.value);
      forall d | InText(data, d) && Before(d, r.value)
        ensures CharAt(data, d) != ch
      {
        assert InBounds(g, d);
      }
    }
  }

  /** Overwriting the start marker with `'a'` leaves every other marker `ch`
      where it was. */
  lemma Overwritten(data: seq<string>, g: Grid, g': Grid, p: Coord, filler: char, ch: char)
    requires ShowsMarker(data, g, ch) && InText(data, p) && CharAt(data, p) != ch && filler != ch
    requires InBounds(g, p) && g' == SetCell(g, p, filler as nat)
    ensures ShowsMarker(data, g', ch)
    ensures forall c :: InText(data, c) ==> Height(g', c) == if c == p then filler as nat else Height(g, c)
  {
    forall c | InText(data, c)
      ensures Height(g', c) == if c == p then filler as nat else Height(g, c)
    {
    }
    forall c | InText(data, c)
      ensures Height(g', c) == ch as nat <==> CharAt(data, c) == ch
    {
      if c == p {
        if filler as nat == ch as nat { CodeInjective(filler, ch); }
      }
    }
  }

  /** `get_grid` is a function of its input: the start, the end and the heights
      are determined by the lines. */
  lemma {:induction false} LoadedFromUnique(data: seq<string>, L1: Loaded, L2: Loaded)
    requires LoadedFrom(data, L1) && LoadedFrom(data, L2)
    ensures L1 == L2
  {
    FirstUnique(data, 'S', L1.start, L2.start);
    FirstUnique(data, 'E', L1.end, L2.end);
    forall i | 0 <= i < |data|
      ensures L1.grid[i] == L2.grid[i]
    {
      forall j | 0 <= j < |data[i]|
        ensures L1.grid[i][j] == L2.grid[i][j]
      {
        assert InText(data, Coord(i, j));
      }
    }
  }

  lemma FirstUnique(data: seq<string>, ch: char, a: Coord, b: Coord)
    requires IsFirst(data, ch, a) && IsFirst(data, ch, b)
    ensures a == b
  {
    assert InText(data, a) && InText(data, b);
    assert a == b || Before(a, b) || Before(b, a);
  }

  /** On a first row of ASCII, bytes and characters agree, and the rows must
      simply all be as long as the first. */
  lemma AsciiSameWidth(data: seq<string>)
    requires data != [] && forall j :: 0 <= j < |data[0]| ==> data[0][j] as int < 0x80
    ensures SameWidth(data) <==> forall i :: 0 <= i < |data| ==> |data[i]| == |data[0]|
  {
    AsciiLen(data[0]);
  }

  /** A first row `éSE` is four bytes wide but three characters long, so the
      matrix rejects the codes of that very row: nothing loads from it. */
  lemma WideFirstRow()
    ensures Utf8Len("\U{00E9}SE") == 4
    ensures !SameWidth(["\U{00E9}SE"])
    ensures forall L :: !LoadedFrom(["\U{00E9}SE"], L)
  {
    var row := "\U{00E9}SE";
    assert row[1..][1..][1..] == [];
    assert Utf8Len(row) == 2 + Utf8Len(row[1..]);
    assert |["\U{00E9}SE"][0]| == 3;
  }

  /** What a loaded grid promises the search: a rectangular matrix with the
      start at height `'a'`, the end at height `'z'`, and the two apart. */
  lemma {:induction false} LoadedFacts(data: seq<string>, L: Loaded)
    requires LoadedFrom(data, L)
    ensures IsGrid(L.grid) && InBounds(L.grid, L.start) && InBounds(L.grid, L.end)
    ensures L.start != L.end
    ensures Height(L.grid, L.start) == 'a' as nat && Height(L.grid, L.end) == 'z' as nat
  {
    assert InText(data, L.start) && InText(data, L.end);
    assert CharAt(data, L.start) == 'S';
  }

  // ---------------------------------------------------------------------
  // The step rule
  // ---------------------------------------------------------------------

  /** `p` and `q` differ by exactly one in exactly one coordinate. */
  predicate Adjacent(p: Coord, q: Coord) {
    || (p.row == q.row && (p.col + 1 == q.col || q.col + 1 == p.col))
    || (p.col == q.col && (p.row + 1 == q.row || q.row + 1 == p.row))
  }

  /** A legal move from `p` to `q`: an orthogonal neighbour inside the matrix
      that is at most one higher than `p`. Any descent is legal. */
  predicate Step(m: Grid, p: Coord, q: Coord) {
    InBounds(m, p) && InBounds(m, q) && Adjacent(p, q) && Height(m, q) <= Height(m, p) + 1
  }

  /** The order in which `neighbors` tries the four directions:
      0 above, 1 left, 2 below, 3 right. */
  function Direction(p: Coord, q: Coord): nat {
    if q.row < p.row then 0
    else if q.col < p.col then 1
    else if q.row > p.row then 2
    else 3
  }

  /** `neighbors`: the legal moves from `p`, in the order above, left, below, right. */
  function Neighbors(m: Grid, p: Coord): (r: seq<Coord>)
    requires IsGrid(m) && InBounds(m, p)
    ensures |r| <= 4
    ensures forall q :: q in r <==> Step(m, p, q)
  {
    var (i, j) := (p.row, p.col);
    var maxval := m[i][j] + 1;
    var above := if i > 0 && m[i - 1][j] <= maxval then [Coord(i - 1, j)] else [];
    var left := if j > 0 && m[i][j - 1] <= maxval then [Coord(i, j - 1)] else [];
    var below := if i < |m| - 1 && m[i + 1][j] <= maxval then [Coord(i + 1, j)] else [];
    var right := if j < |m[0]| - 1 && m[i][j + 1] <= maxval then [Coord(i, j + 1)] else [];
    above + left + below + right
  }

  /** `neighbors` lists the moves in the fixed order of their directions. */
  lemma NeighborsInOrder(m: Grid, p: Coord)
    requires IsGrid(m) && InBounds(m, p)
    ensures var r := Neighbors(m, p);
            forall i, j :: 0 <= i < j < |r| ==> Direction(p, r[i]) < Direction(p, r[j])
  {
  }

  /** The rule is not symmetric: a cell can step down onto a cell it could
      not climb back from. */
  lemma StepIsAsymmetric()
    ensures exists m: Grid, p: Coord, q: Coord :: Step(m, p, q) && !Step(m, q, p)
  {
    var m: Grid := [[0, 2]];
    assert Step(m, Coord(0, 1), Coord(0, 0));
    assert !Step(m, Coord(0, 0), Coord(0, 1));
  }
}
