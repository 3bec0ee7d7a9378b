/** Day 05: crate stacks drawn in fixed columns above a numbering line, then
    rearranged by `move n from a to b` instructions that move one crate at a
    time; the answer spells the top crate of every stack in index order. */
module Day05 {
  import opened Text

  /** The stacks by index (the `BTreeMap`); each stack lists its bottom crate first. */
  type Stacks = map<nat, string>

  /** The string reversed: its last character first. */
  function Reverse(s: string): (r: string)
    ensures |r| == |s|
    ensures forall i :: 0 <= i < |s| ==> r[i] == s[|s| - 1 - i]
  {
    if s == [] then [] else [s[|s| - 1]] + Reverse(s[..|s| - 1])
  }

  // ---------------------------------------------------------------- drawing

  /** The index of the numbering line (the first line starting with " 1"),
      or the number of lines when there is none. */
  function DrawingEnd(lines: seq<string>): (n: nat)
    ensures n <= |lines|
    ensures forall k :: 0 <= k < n ==> !StartsWith(lines[k], " 1")
    ensures n < |lines| ==> StartsWith(lines[n], " 1")
  {
    if lines == [] || StartsWith(lines[0], " 1") then 0
    else
      var n := 1 + DrawingEnd(lines[1..]);
      assert forall k :: 1 <= k < n ==> lines[k] == lines[1..][k - 1];
      n
  }

  /** The crate drawn for stack `i` on one line: the character at column
      1 + 4i, unless it is blank or past the end of the line. */
  function CellOf(line: string, i: nat): Option<char> {
    if 1 + 4 * i < |line| && line[1 + 4 * i] != ' ' then Some(line[1 + 4 * i]) else None
  }

  /** The crates drawn for stack `i`, read from the top line down. */
  function Column(drawing: seq<string>, i: nat): string
    decreases |drawing|
  {
    if drawing == [] then []
    else
      var above := Column(drawing[..|drawing| - 1], i);
      match CellOf(drawing[|drawing| - 1], i)
      case None => above
      case Some(c) => above + [c]
  }

  /** `stacks` holds exactly the stacks that have a crate in the drawing, each
      one the column read from the bottom up. */
  ghost predicate IsStacksOf(stacks: Stacks, drawing: seq<string>) {
    (forall i: nat :: i in stacks <==> Column(drawing, i) != []) &&
    (forall i: nat :: i in stacks ==> stacks[i] == Reverse(Column(drawing, i)))
  }

  /** Stack `i` once the crate drawn for it on `line`, if any, is put under it. */
  function Under(stacks: Stacks, line: string, i: nat): string
    requires i in stacks || CellOf(line, i).Some?
  {
    match CellOf(line, i)
    case None => stacks[i]
    case Some(c) => [c] + (if i in stacks then stacks[i] else [])
  }

  /** The first `i` crates of `line` are put under their stacks in `r`, and
      nothing else has changed. */
  ghost predicate PlacedUpTo(stacks: Stacks, line: string, r: Stacks, i: nat) {
    (forall j: nat :: j in r <==> j in stacks || (j < i && CellOf(line, j).Some?)) &&
    (forall j: nat :: j in r && j < i ==> r[j] == Under(stacks, line, j)) &&
    (forall j: nat :: j in r && j >= i ==> r[j] == stacks[j])
  }

  /** Putting crate `i` under its stack extends `PlacedUpTo` by one. */
  lemma PlaceOne(stacks: Stacks, line: string, r: Stacks, i: nat, r': Stacks)
    requires PlacedUpTo(stacks, line, r, i) && 1 + 4 * i < |line|
    requires line[1 + 4 * i] == ' ' ==> r' == r
    requires line[1 + 4 * i] != ' ' ==>
               r' == r[i := [line[1 + 4 * i]] + (if i in r then r[i] else [])]
    ensures PlacedUpTo(stacks, line, r', i + 1)
  {
    var c := line[1 + 4 * i];
    assert CellOf(line, i) == if c != ' ' then Some(c) else None;
    forall j: nat
      ensures j in r' <==> j in stacks || (j < i + 1 && CellOf(line, j).Some?)
    {
      if j != i {
        assert j in r' <==> j in r;
      }
    }
    forall j: nat | j in r' && j < i + 1
      ensures r'[j] == Under(stacks, line, j)
    {
      if j == i && c == ' ' {
        assert r'[j] == stacks[j];
      }
    }
    forall j: nat | j in r' && j >= i + 1
      ensures r'[j] == stacks[j]
    {
      assert r'[j] == r[j];
    }
  }

  /** One drawing line: every crate on it goes under its stack (`insert(0, c)`). */
  method PutUnder(stacks: Stacks, line: string) returns (r: Stacks)
    ensures forall i: nat :: i in r <==> i in stacks || CellOf(line, i).Some?
    ensures forall i: nat :: i in r ==> r[i] == Under(stacks, line, i)
  {
    r := stacks;
    var i: nat := 0;
    while 1 + 4 * i < |line|
      invariant PlacedUpTo(stacks, line, r, i)
      decreases |line| - 4 * i
    {
      ghost var before := r;
      var c := line[1 + 4 * i];
      if c != ' ' {
        var v := if i in r then r[i] else [];
        r := r[i := [c] + v];
      }
      PlaceOne(stacks, line, before, i, r);
      i := i + 1;
    }
    assert forall j: nat :: j >= i ==> CellOf(line, j).None?;
  }

  lemma ColumnOfOneMore(drawing: seq<string>, line: string, i: nat)
    ensures Column(drawing + [line], i) ==
            match CellOf(line, i)
            case None => Column(drawing, i)
            case Some(c) => Column(drawing, i) + [c]
  {
    assert (drawing + [line])[..|drawing|] == drawing;
  }

  lemma ReverseSnoc(s: string, c: char)
    ensures Reverse(s + [c]) == [c] + Reverse(s)
  {
    assert (s + [c])[..|s|] == s;
  }

  /** `build_stacks`: the drawing lines above the numbering line, read into stacks. */
  method BuildStacks(lines: seq<string>) returns (stacks: Stacks)
    ensures IsStacksOf(stacks, lines[..DrawingEnd(lines)])
  {
    stacks := map[];
    var k := 0;
    while k < |lines| && !StartsWith(lines[k], " 1")
      invariant k <= DrawingEnd(lines)
      invariant IsStacksOf(stacks, lines[..k])
    {
      var next := PutUnder(stacks, lines[k]);
      assert lines[..k + 1] == lines[..k] + [lines[k]];
      forall i: nat
        ensures i in next <==> Column(lines[..k + 1], i) != []
        ensures i in next ==> next[i] == Reverse(Column(lines[..k + 1], i))
      {
        ColumnOfOneMore(lines[..k], lines[k], i);
        if CellOf(lines[k], i).Some? {
          ReverseSnoc(Column(lines[..k], i), CellOf(lines[k], i).value);
        }
      }
      stacks := next;
      k := k + 1;
    }
  }

  /** Each built stack holds at least one crate. */
  lemma BuiltStacksAreNotEmpty(stacks: Stacks, drawing: seq<string>, i: nat)
    requires IsStacksOf(stacks, drawing) && i in stacks
    ensures stacks[i] != [] && stacks[i][|stacks[i]| - 1] == Column(drawing, i)[0]
  {
  }

  // ---------------------------------------------------------------- moves

  /** An instruction, with the 1-based stack numbers already turned into indices. */
  datatype Move = Move(count: nat, from: int, to: int)

  datatype CraneError =
    | NoStacks       // no stack at all (the `max` of the heights fails)
    | MissingField   // an instruction with fewer than six words
    | BadNumber      // a count or stack number that is not a number
    | EmptyPop       // a move from an empty stack
    | EmptyStack     // an empty stack at the end has no top crate

  /** Words 1, 3 and 5 of an instruction parsed as numbers; the stack numbers
      are decremented to indices. */
  function MoveOfWords(w: seq<string>): (r: Result<Move, CraneError>)
    ensures r.Err? ==> r.error == MissingField || r.error == BadNumber
    ensures r.Ok? ==> |w| >= 6 && ParseNat(w[1]) == Some(r.value.count) &&
                      ParseNat(w[3]) == Some(r.value.from + 1) &&
                      ParseNat(w[5]) == Some(r.value.to + 1)
    ensures r == Err(MissingField) <==> |w| < 2 || (ParseNat(w[1]).Some? && (|w| < 4 || (ParseNat(w[3]).Some? && |w| < 6)))
  {
    if |w| < 2 then Err(MissingField)
    else match ParseNat(w[1])
      case None => Err(BadNumber)
      case Some(count) =>
        if |w| < 4 then Err(MissingField)
        else match ParseNat(w[3])
          case None => Err(BadNumber)
          case Some(from) =>
            if |w| < 6 then Err(MissingField)
            else match ParseNat(w[5])
              case None => Err(BadNumber)
              case Some(to) => Ok(Move(count, from - 1, to - 1))
  }

  /** `line.split_whitespace()`, then the words read as an instruction. */
  function ParseMove(line: string): Result<Move, CraneError> {
    MoveOfWords(Words(line))
  }

  /** The instruction as the puzzle writes it. */
  function MoveLine(count: nat, from: nat, to: nat): string {
    Unwords(["move", NatToString(count), "from", NatToString(from), "to", NatToString(to)])
  }

  /** A well-formed instruction line is read back as the move it describes. */
  lemma ParseMoveLine(count: nat, from: nat, to: nat)
    ensures ParseMove(MoveLine(count, from, to)) == Ok(Move(count, from - 1, to - 1))
  {
    var w := ["move", NatToString(count), "from", NatToString(from), "to", NatToString(to)];
    MoveLineWords(count, from, to);
    ParseNatRoundTrip(count);
    ParseNatRoundTrip(from);
    ParseNatRoundTrip(to);
    MoveOfSixWords(w, count, from, to);
  }

  lemma MoveOfSixWords(w: seq<string>, count: nat, from: nat, to: nat)
    requires |w| >= 6
    requires ParseNat(w[1]) == Some(count) && ParseNat(w[3]) == Some(from) && ParseNat(w[5]) == Some(to)
    ensures MoveOfWords(w) == Ok(Move(count, from - 1, to - 1))
  {
  }

  lemma MoveLineWords(count: nat, from: nat, to: nat)
    ensures Words(MoveLine(count, from, to)) ==
            ["move", NatToString(count), "from", NatToString(from), "to", NatToString(to)]
  {
    var w := ["move", NatToString(count), "from", NatToString(from), "to", NatToString(to)];
    DigitsHaveNoSpace(w[1]);
    DigitsHaveNoSpace(w[3]);
    DigitsHaveNoSpace(w[5]);
    assert NoSpace(w[0]) && NoSpace(w[2]) && NoSpace(w[4]);
    WordsOfUnwords(w);
  }

  /** One crate from the top of `from` to the top of `to`. A missing source
      stack does nothing; a missing destination stack loses the crate. */
  function MoveOne(stacks: Stacks, from: int, to: int): Result<Stacks, CraneError> {
    if from >= 0 && from in stacks then
      var a := stacks[from];
      if a == [] then Err(EmptyPop)
      else
        var lifted := stacks[from := a[..|a| - 1]];
        if to >= 0 && to in lifted then Ok(lifted[to := lifted[to] + [a[|a| - 1]]])
        else Ok(lifted)
    else Ok(stacks)
  }

  function MoveMany(stacks: Stacks, count: nat, from: int, to: int): (r: Result<Stacks, CraneError>)
    ensures r.Err? ==> r.error == EmptyPop
    decreases count
  {
    if count == 0 then Ok(stacks)
    else
      match MoveOne(stacks, from, to)
      case Err(e) => Err(e)
      case Ok(s) => MoveMany(s, count - 1, from, to)
  }

  /** The instruction lines applied in order, stopping at the first error. */
  function RunMoves(stacks: Stacks, lines: seq<string>): (r: Result<Stacks, CraneError>)
    ensures r.Err? ==> r.error == MissingField || r.error == BadNumber || r.error == EmptyPop
    decreases |lines|
  {
    if lines == [] then Ok(stacks)
    else
      match ParseMove(lines[0])
      case Err(e) => Err(e)
      case Ok(m) =>
        match MoveMany(stacks, m.count, m.from, m.to)
        case Err(e) => Err(e)
        case Ok(s) => RunMoves(s, lines[1..])
  }

  // ---------------------------------------------------------------- crates

  /** All crates of all stacks. */
  ghost function Crates(stacks: Stacks): multiset<char>
    decreases |stacks.Keys|
  {
    if stacks == map[] then multiset{}
    else
      var k :| k in stacks;
      multiset(stacks[k]) + Crates(stacks - {k})
  }

  lemma {:induction false} CratesWithout(stacks: Stacks, k: nat)
    requires k in stacks
    ensures Crates(stacks) == multiset(stacks[k]) + Crates(stacks - {k})
    decreases |stacks.Keys|
  {
    var j :| j in stacks && Crates(stacks) == multiset(stacks[j]) + Crates(stacks - {j});
    if j != k {
      var rest := stacks - {j};
      assert |rest.Keys| < |stacks.Keys| by {
        assert rest.Keys == stacks.Keys - {j};
      }
      CratesWithout(rest, k);
      var both := rest - {k};
      assert stacks - {k} - {j} == both;
      assert |(stacks - {k}).Keys| < |stacks.Keys| by {
        assert (stacks - {k}).Keys == stacks.Keys - {k};
      }
      CratesWithout(stacks - {k}, j);
    }
  }

  lemma CratesAfterUpdate(stacks: Stacks, k: nat, v: string)
    requires k in stacks
    ensures Crates(stacks[k := v]) + multiset(stacks[k]) == Crates(stacks) + multiset(v)
  {
    CratesWithout(stacks, k);
    CratesWithout(stacks[k := v], k);
    assert stacks[k := v] - {k} == stacks - {k};
  }

  lemma Cancel(a: multiset<char>, b: multiset<char>, x: multiset<char>)
    requires a + x == b + x
    ensures a == b
  {
    assert forall e :: a[e] == (a + x)[e] - x[e] && b[e] == (b + x)[e] - x[e];
  }

  /** Moving one crate between two existing stacks keeps every crate. */
  lemma MoveOneKeepsCrates(stacks: Stacks, from: nat, to: nat)
    requires from in stacks && to in stacks && stacks[from] != []
    ensures MoveOne(stacks, from, to).Ok?
    ensures Crates(MoveOne(stacks, from, to).value) == Crates(stacks)
    ensures MoveOne(stacks, from, to).value.Keys == stacks.Keys
  {
    var a := stacks[from];
    var top, rest := a[|a| - 1], a[..|a| - 1];
    var lifted := stacks[from := rest];
    var placed := lifted[to] + [top];
    assert MoveOne(stacks, from, to) == Ok(lifted[to := placed]);
    assert multiset(a) == multiset(rest) + multiset{top} by {
      assert a == rest + [top];
    }
    assert multiset(placed) == multiset(lifted[to]) + multiset{top};
    CratesAfterUpdate(stacks, from, rest);
    Cancel(Crates(lifted) + multiset{top}, Crates(stacks), multiset(rest));
    CratesAfterUpdate(lifted, to, placed);
    Cancel(Crates(lifted[to := placed]), Crates(lifted) + multiset{top}, multiset(lifted[to]));
  }

  /** A whole instruction between two existing stacks keeps every crate. */
  lemma {:induction false} MoveManyKeepsCrates(stacks: Stacks, count: nat, from: nat, to: nat)
    requires from in stacks && to in stacks
    ensures MoveMany(stacks, count, from, to).Ok? ==>
              Crates(MoveMany(stacks, count, from, to).value) == Crates(stacks) &&
              MoveMany(stacks, count, from, to).value.Keys == stacks.Keys
    decreases count
  {
    if count > 0 && stacks[from] != [] {
      MoveOneKeepsCrates(stacks, from, to);
      MoveManyKeepsCrates(MoveOne(stacks, from, to).value, count - 1, from, to);
    }
  }

  /** `move n from a to b` with two different stacks takes the top n crates of
      `a` and puts them on `b` in reverse order; with fewer than n crates on
      `a` it fails. */
  lemma {:induction false} MoveManyReverses(stacks: Stacks, count: nat, from: nat, to: nat)
    requires from in stacks && to in stacks && from != to
    ensures count <= |stacks[from]| ==>
              var a := stacks[from];
              MoveMany(stacks, count, from, to) ==
              Ok(stacks[from := a[..|a| - count]][to := stacks[to] + Reverse(a[|a| - count..])])
    ensures count > |stacks[from]| ==> MoveMany(stacks, count, from, to) == Err(EmptyPop)
    decreases count
  {
    var a := stacks[from];
    if count == 0 {
      assert a[..|a|] == a;
      assert a[|a|..] == [];
      assert stacks[to] + Reverse([]) == stacks[to];
      assert stacks[from := a][to := stacks[to]] == stacks;
    } else if a == [] {
    } else {
      var s := MoveOne(stacks, from, to).value;
      var a' := a[..|a| - 1];
      assert s == stacks[from := a'][to := stacks[to] + [a[|a| - 1]]];
      MoveManyReverses(s, count - 1, from, to);
      if count <= |a| {
        var left := a'[..|a'| - (count - 1)];
        assert left == a[..|a| - count];
        var moved := a[|a| - count..];
        var movedLater := a'[|a'| - (count - 1)..];
        assert moved[..|moved| - 1] == movedLater;
        assert Reverse(moved) == [a[|a| - 1]] + Reverse(movedLater);
        var b := stacks[to];
        assert s[to] + Reverse(movedLater) == b + Reverse(moved) by {
          assert s[to] == b + [a[|a| - 1]];
        }
        assert s[from := left][to := s[to] + Reverse(movedLater)] ==
               stacks[from := left][to := b + Reverse(moved)];
      }
    }
  }

  /** A move whose source stack does not exist changes nothing. */
  lemma MoveFromNowhere(stacks: Stacks, count: nat, from: int, to: int)
    requires !(from >= 0 && from in stacks)
    ensures MoveMany(stacks, count, from, to) == Ok(stacks)
    decreases count
  {
    if count > 0 {
      MoveFromNowhere(stacks, count - 1, from, to);
    }
  }

  // ---------------------------------------------------------------- answer

  ghost function MinKey(keys: set<nat>): (k: nat)
    requires keys != {}
    ensures k in keys && forall j :: j in keys ==> k <= j
    decreases |keys|
  {
    var x :| x in keys;
    var rest := keys - {x};
    assert forall j :: j in keys ==> j == x || j in rest;
    if rest == {} then
      x
    else
      var m := MinKey(rest);
      if x <= m then x else m
  }

  /** The top crate of every stack, in increasing index order. */
  ghost function Tops(stacks: Stacks): Result<string, CraneError>
    decreases |stacks.Keys|
  {
    if stacks == map[] then Ok([])
    else
      var k := MinKey(stacks.Keys);
      var v := stacks[k];
      assert (stacks - {k}).Keys == stacks.Keys - {k};
      if v == [] then Err(EmptyStack)
      else
        match Tops(stacks - {k})
        case Err(e) => Err(e)
        case Ok(t) => Ok([v[|v| - 1]] + t)
  }

  /** There is a top crate for every stack exactly when no stack is empty. */
  lemma {:induction false} TopsOneEach(stacks: Stacks)
    ensures Tops(stacks).Ok? <==> forall k :: k in stacks ==> stacks[k] != []
    ensures Tops(stacks).Ok? ==> |Tops(stacks).value| == |stacks.Keys|
    ensures Tops(stacks).Err? ==> Tops(stacks).error == EmptyStack
    decreases |stacks.Keys|
  {
    if stacks != map[] {
      var k := MinKey(stacks.Keys);
      var rest := stacks - {k};
      assert rest.Keys == stacks.Keys - {k};
      assert stacks.Keys == rest.Keys + {k};
      TopsOneEach(rest);
      assert forall j :: j in rest ==> rest[j] == stacks[j];
    }
  }

  /** `Tops` unfolded once at the least index. */
  lemma TopsStep(stacks: Stacks, k: nat)
    requires k in stacks && forall j :: j in stacks ==> k <= j
    ensures stacks[k] == [] ==> Tops(stacks) == Err(EmptyStack)
    ensures stacks[k] != [] ==>
              Tops(stacks) == Prefixed([stacks[k][|stacks[k]| - 1]], Tops(stacks - {k}))
  {
    assert MinKey(stacks.Keys) == k;
  }

  /** One pass of the `ReadTops` loop keeps its invariant. */
  lemma ReadStep(stacks: Stacks, out: string, rest: Stacks, k: nat)
    requires Tops(stacks) == Prefixed(out, Tops(rest))
    requires k in rest && forall j :: j in rest ==> k <= j
    ensures rest[k] == [] ==> Tops(stacks) == Err(EmptyStack)
    ensures rest[k] != [] ==>
              Tops(stacks) == Prefixed(out + [rest[k][|rest[k]| - 1]], Tops(rest - {k}))
    ensures (rest - {k}).Keys < rest.Keys
  {
    assert (rest - {k}).Keys == rest.Keys - {k};
    TopsStep(rest, k);
    var v := rest[k];
    if v != [] {
      PrefixedTwice(out, [v[|v| - 1]], Tops(rest - {k}));
    }
  }

  /** The `ReadTops` loop ends with every top crate read. */
  lemma ReadDone(stacks: Stacks, out: string, rest: Stacks)
    requires Tops(stacks) == Prefixed(out, Tops(rest)) && rest == map[]
    ensures Tops(stacks) == Ok(out)
  {
    assert out + [] == out;
  }

  /** `stacks.values().map(|v| v.last().unwrap()).join("")`. */
  method ReadTops(stacks: Stacks) returns (r: Result<string, CraneError>)
    ensures r == Tops(stacks)
  {
    var rest := stacks;
    var out := "";
    PrefixedTwice(out, out, Tops(stacks));
    while rest != map[]
      invariant Tops(stacks) == Prefixed(out, Tops(rest))
      decreases rest.Keys
    {
      ghost var least := MinKey(rest.Keys);
      var k :| k in rest && forall j :: j in rest ==> k <= j;
      ReadStep(stacks, out, rest, k);
      var v := rest[k];
      if v == [] {
        return Err(EmptyStack);
      }
      out := out + [v[|v| - 1]];
      rest := rest - {k};
    }
    ReadDone(stacks, out, rest);
    return Ok(out);
  }

  /** The height of the tallest stack. */
  ghost predicate IsTallest(stacks: Stacks, n: nat) {
    (exists k :: k in stacks && |stacks[k]| == n) && forall k :: k in stacks ==> |stacks[k]| <= n
  }

  /** `stacks.values().map(|v| v.len()).max()`. */
  method Tallest(stacks: Stacks) returns (r: Option<nat>)
    ensures r.None? <==> stacks == map[]
    ensures r.Some? ==> IsTallest(stacks, r.value)
  {
    if stacks == map[] {
      return None;
    }
    var k0 :| k0 in stacks;
    var n := |stacks[k0]|;
    var rest := stacks.Keys - {k0};
    while rest != {}
      invariant rest <= stacks.Keys
      invariant exists k :: k in stacks && |stacks[k]| == n
      invariant forall k :: k in stacks && k !in rest ==> |stacks[k]| <= n
      decreases |rest|
    {
      var k :| k in rest;
      if |stacks[k]| > n {
        n := |stacks[k]|;
      }
      rest := rest - {k};
    }
    return Some(n);
  }

  /** What `move_crates` computes once the tallest height `n` is known: the
      instructions from line n + 2 on, then the top crates. */
  ghost function Rearranged(lines: seq<string>, stacks: Stacks, n: nat): Result<string, CraneError> {
    var moves := if n + 2 <= |lines| then lines[n + 2..] else [];
    match RunMoves(stacks, moves)
    case Err(e) => Err(e)
    case Ok(s) => Tops(s)
  }

  /** The crates of one instruction, one at a time (the inner `for` loop). */
  method Perform(stacks: Stacks, m: Move) returns (r: Result<Stacks, CraneError>)
    ensures r == MoveMany(stacks, m.count, m.from, m.to)
  {
    var s: Stacks := stacks;
    for c := 0 to m.count
      invariant MoveMany(stacks, m.count, m.from, m.to) == MoveMany(s, m.count - c, m.from, m.to)
    {
      if m.from >= 0 && m.from in s {
        var from: nat := m.from;
        var a := s[from];
        if a == [] {
          return Err(EmptyPop);
        }
        var value := a[|a| - 1];
        s := s[from := a[..|a| - 1]];
        if m.to >= 0 && m.to in s {
          var to: nat := m.to;
          s := s[to := s[to] + [value]];
        }
      }
    }
    return Ok(s);
  }

  /** The instruction loop of `move_crates`, stopping at the first error. */
  method ApplyMoves(stacks: Stacks, lines: seq<string>) returns (r: Result<Stacks, CraneError>)
    ensures r == RunMoves(stacks, lines)
  {
    var s := stacks;
    for k := 0 to |lines|
      invariant RunMoves(stacks, lines) == RunMoves(s, lines[k..])
    {
      assert lines[k..][1..] == lines[k + 1..];
      var m := ParseMove(lines[k]);
      if m.Err? {
        return Err(m.error);
      }
      var moved := Perform(s, m.value);
      if moved.Err? {
        return Err(moved.error);
      }
      s := moved.value;
    }
    assert lines[|lines|..] == [];
    return Ok(s);
  }

  /** `move_crates`: the input stacks are copied, rearranged and read. */
  method MoveCrates(lines: seq<string>, stacks: Stacks) returns (r: Result<string, CraneError>)
    ensures r == Err(NoStacks) <==> stacks == map[]
    ensures stacks != map[] ==> exists n :: IsTallest(stacks, n) && r == Rearranged(lines, stacks, n)
  {
    var tallest := Tallest(stacks);
    if tallest.None? {
      return Err(NoStacks);
    }
    var n := tallest.value;
    var first := if n + 2 <= |lines| then n + 2 else |lines|;
    var moved := ApplyMoves(stacks, lines[first..]);
    if moved.Err? {
      r := Err(moved.error);
    } else {
      r := ReadTops(moved.value);
      TopsOneEach(moved.value);
    }
    assert r == Rearranged(lines, stacks, n);
  }
}
