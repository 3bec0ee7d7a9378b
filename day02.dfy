/** Day 02: rock-paper-scissors rounds, one per line `A X`. The opponent's
    letter is A, B or C; in part 1 the second letter is the shape to play, in
    part 2 it is the outcome to arrange. */
module Day02 {
  import opened Text

  datatype Shape = Rock | Paper | Scissors

  datatype Outcome = Lose | Draw | Win

  // The score constants.
  const ROCK: nat := 1
  const PAPER: nat := 2
  const SCISSORS: nat := 3
  const WIN: nat := 6
  const LOSE: nat := 0
  const DRAW: nat := 3

  // ---------------------------------------------------------------- the game

  function ShapeValue(s: Shape): nat {
    match s
    case Rock => ROCK
    case Paper => PAPER
    case Scissors => SCISSORS
  }

  function OutcomeValue(o: Outcome): nat {
    match o
    case Lose => LOSE
    case Draw => DRAW
    case Win => WIN
  }

  /** Rock blunts scissors, scissors cut paper, paper covers rock. */
  predicate Beats(a: Shape, b: Shape) {
    (a == Rock && b == Scissors) || (a == Scissors && b == Paper) || (a == Paper && b == Rock)
  }

  function OutcomeOf(mine: Shape, theirs: Shape): Outcome {
    if mine == theirs then Draw else if Beats(mine, theirs) then Win else Lose
  }

  /** For every opponent shape and wanted outcome exactly one shape achieves it. */
  lemma OneShapePerOutcome(theirs: Shape, wanted: Outcome)
    ensures exists s :: OutcomeOf(s, theirs) == wanted
    ensures forall s, t :: OutcomeOf(s, theirs) == wanted && OutcomeOf(t, theirs) == wanted ==> s == t
  {
    match (theirs, wanted)
    case (Rock, Lose) => assert OutcomeOf(Scissors, theirs) == wanted;
    case (Rock, Draw) => assert OutcomeOf(Rock, theirs) == wanted;
    case (Rock, Win) => assert OutcomeOf(Paper, theirs) == wanted;
    case (Paper, Lose) => assert OutcomeOf(Rock, theirs) == wanted;
    case (Paper, Draw) => assert OutcomeOf(Paper, theirs) == wanted;
    case (Paper, Win) => assert OutcomeOf(Scissors, theirs) == wanted;
    case (Scissors, Lose) => assert OutcomeOf(Paper, theirs) == wanted;
    case (Scissors, Draw) => assert OutcomeOf(Scissors, theirs) == wanted;
    case (Scissors, Win) => assert OutcomeOf(Rock, theirs) == wanted;
  }

  // ---------------------------------------------------------------- letters

  /** The first and third characters of a line (`chars().next()` three times). */
  function First(line: string): Option<char> {
    if |line| > 0 then Some(line[0]) else None
  }

  function Third(line: string): Option<char> {
    if |line| > 2 then Some(line[2]) else None
  }

  /** A, B, and anything else as C. */
  function Opponent(c: Option<char>): Shape {
    if c == Some('A') then Rock else if c == Some('B') then Paper else Scissors
  }

  /** Part 1: X, Y, and anything else as Z. */
  function Mine(c: Option<char>): Shape {
    if c == Some('X') then Rock else if c == Some('Y') then Paper else Scissors
  }

  /** Part 2: X to lose, Y to draw, anything else to win. */
  function Wanted(c: Option<char>): Outcome {
    if c == Some('X') then Lose else if c == Some('Y') then Draw else Win
  }

  function Letter(s: Shape): char {
    match s
    case Rock => 'X'
    case Paper => 'Y'
    case Scissors => 'Z'
  }

  // ---------------------------------------------------------------- tables

  /** The nested `match` of `game`. */
  function Table1(player1: Option<char>, player2: Option<char>): (r: nat)
    ensures 1 <= r <= 9
  {
    match player2
    case Some('X') =>
      (match player1
       case Some('A') => ROCK + DRAW
       case Some('B') => ROCK + LOSE
       case _ => ROCK + WIN)
    case Some('Y') =>
      (match player1
       case Some('A') => PAPER + WIN
       case Some('B') => PAPER + DRAW
       case _ => PAPER + LOSE)
    case _ =>
      (match player1
       case Some('A') => SCISSORS + LOSE
       case Some('B') => SCISSORS + WIN
       case _ => SCISSORS + DRAW)
  }

  /** The nested `match` of `part2`. */
  function Table2(player1: Option<char>, player2: Option<char>): (r: nat)
    ensures 1 <= r <= 9
  {
    match player2
    case Some('X') =>
      (match player1
       case Some('A') => SCISSORS + LOSE
       case Some('B') => ROCK + LOSE
       case _ => PAPER + LOSE)
    case Some('Y') =>
      (match player1
       case Some('A') => ROCK + DRAW
       case Some('B') => PAPER + DRAW
       case _ => SCISSORS + DRAW)
    case _ =>
      (match player1
       case Some('A') => PAPER + WIN
       case Some('B') => SCISSORS + WIN
       case _ => ROCK + WIN)
  }

  /** The part 1 table scores the shape played plus the outcome of the round. */
  lemma Table1IsTheGame(player1: Option<char>, player2: Option<char>)
    ensures Table1(player1, player2) ==
            ShapeValue(Mine(player2)) + OutcomeValue(OutcomeOf(Mine(player2), Opponent(player1)))
  {
  }

  /** The part 2 table scores the wanted outcome plus the one shape that
      brings it about against the opponent. */
  lemma Table2IsTheGame(player1: Option<char>, player2: Option<char>, s: Shape)
    requires OutcomeOf(s, Opponent(player1)) == Wanted(player2)
    ensures Table2(player1, player2) == ShapeValue(s) + OutcomeValue(Wanted(player2))
  {
  }

  /** The two tables agree: the shape chosen in part 2, played through the
      part 1 table, scores the same. */
  lemma TablesAgree(player1: Option<char>, player2: Option<char>, s: Shape)
    requires OutcomeOf(s, Opponent(player1)) == Wanted(player2)
    ensures Table2(player1, player2) == Table1(player1, Some(Letter(s)))
  {
    Table1IsTheGame(player1, Some(Letter(s)));
    Table2IsTheGame(player1, player2, s);
  }

  /** Only A and B are told apart from C, and only X and Y from Z. */
  lemma OtherLettersCount(player1: Option<char>, player2: Option<char>)
    ensures player1 != Some('A') && player1 != Some('B') ==>
              Table1(player1, player2) == Table1(Some('C'), player2) &&
              Table2(player1, player2) == Table2(Some('C'), player2)
    ensures player2 != Some('X') && player2 != Some('Y') ==>
              Table1(player1, player2) == Table1(player1, Some('Z')) &&
              Table2(player1, player2) == Table2(player1, Some('Z'))
  {
  }

  // ---------------------------------------------------------------- totals

  function Score1(line: string): nat {
    Table1(First(line), Third(line))
  }

  function Score2(line: string): nat {
    Table2(First(line), Third(line))
  }

  function Total(lines: seq<string>, score: string -> nat): nat {
    if lines == [] then 0 else Total(lines[..|lines| - 1], score) + score(lines[|lines| - 1])
  }

  /** With every round worth 1 to 9 points, the total lies between the number
      of rounds and nine times that. */
  lemma {:induction false} TotalBounds(lines: seq<string>, score: string -> nat)
    requires forall line :: 1 <= score(line) <= 9
    ensures |lines| <= Total(lines, score) <= 9 * |lines|
  {
    if lines != [] {
      TotalBounds(lines[..|lines| - 1], score);
    }
  }

  lemma TotalsBounds(lines: seq<string>)
    ensures |lines| <= Total(lines, Score1) <= 9 * |lines|
    ensures |lines| <= Total(lines, Score2) <= 9 * |lines|
  {
    TotalBounds(lines, Score1);
    TotalBounds(lines, Score2);
  }

  /** `game` (part 1): the scores of all rounds added up. */
  method Game(lines: seq<string>) returns (total: nat)
    ensures total == Total(lines, Score1)
  {
    total := 0;
    for i := 0 to |lines|
      invariant total == Total(lines[..i], Score1)
    {
      var line := lines[i];
      var player1, player2 := First(line), Third(line);
      total := total + Table1(player1, player2);
      assert lines[..i + 1][..i] == lines[..i];
    }
    assert lines[..|lines|] == lines;
  }

  /** `part2`: the scores of all rounds played for the wanted outcomes. */
  method Part2(lines: seq<string>) returns (total: nat)
    ensures total == Total(lines, Score2)
  {
    total := 0;
    for i := 0 to |lines|
      invariant total == Total(lines[..i], Score2)
    {
      var line := lines[i];
      var player1, player2 := First(line), Third(line);
      total := total + Table2(player1, player2);
      assert lines[..i + 1][..i] == lines[..i];
    }
    assert lines[..|lines|] == lines;
  }
}
