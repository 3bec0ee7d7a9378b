/** Day 03: rucksacks. Every item is a letter with a priority, a-z worth 1
    to 26 and A-Z worth 27 to 52. Part 1 scores the items found in both
    halves of a line; part 2 scores, for every group of three lines, the
    items the group has in common. */
module Day03 {
  import opened Text

  predicate IsLower(c: char) {
    'a' <= c <= 'z'
  }

  predicate IsUpper(c: char) {
    'A' <= c <= 'Z'
  }

  predicate IsLetter(c: char) {
    IsLower(c) || IsUpper(c)
  }

  // ---------------------------------------------------------------- value

  /** The priority of one item, as the `match` inside `value` computes it. */
  function Priority(c: char): int {
    if IsLower(c) then c as int - 'a' as int + 1 else c as int - 'A' as int + 27
  }

  /** The letter of a priority from 1 to 52. */
  function LetterOf(p: int): char
    requires 1 <= p <= 52
  {
    if p <= 26 then ('a' as int + p - 1) as char else ('A' as int + p - 27) as char
  }

  /** The priorities are a one-to-one numbering of the 52 letters by 1..52:
      lower case first, then upper case. */
  lemma PriorityNumbersLetters(c: char, p: int)
    ensures IsLower(c) ==> 1 <= Priority(c) <= 26
    ensures IsUpper(c) ==> 27 <= Priority(c) <= 52
    ensures IsLetter(c) ==> LetterOf(Priority(c)) == c
    ensures 1 <= p <= 52 ==> IsLetter(LetterOf(p)) && Priority(LetterOf(p)) == p
  {
  }

  /** A least element of `s`, found by taking any element out first. */
  ghost function LeastOf(s: set<char>): (c: char)
    requires s != {}
    ensures c in s && forall d :: d in s ==> c <= d
    decreases s
  {
    var x :| x in s;
    if s - {x} == {} then
      SingleLeast(s, x);
      x
    else
      var m := LeastOf(s - {x});
      LeastOfSplit(s, x, m);
      if x < m then x else m
  }

  lemma SingleLeast(s: set<char>, x: char)
    requires x in s && s - {x} == {}
    ensures forall d :: d in s ==> x <= d
  {
    forall d | d in s
      ensures x <= d
    {
      assert d !in s - {x};
    }
  }

  /** The least of `s` is the smaller of one element and the least of the others. */
  lemma LeastOfSplit(s: set<char>, x: char, m: char)
    requires x in s && m in s - {x} && forall d :: d in s - {x} ==> m <= d
    ensures var c := if x < m then x else m; c in s && forall d :: d in s ==> c <= d
  {
    var c := if x < m then x else m;
    forall d | d in s
      ensures c <= d
    {
      if d != x {
        assert d in s - {x};
      }
    }
  }

  /** Every non-empty set of characters has a least one. */
  lemma HasLeast(s: set<char>)
    requires s != {}
    ensures exists c :: c in s && forall d :: d in s ==> c <= d
  {
    var c := LeastOf(s);
  }

  function Least(s: set<char>): (c: char)
    requires s != {}
    ensures c in s && forall d :: d in s ==> c <= d
  {
    HasLeast(s);
    var c :| c in s && forall d :: d in s ==> c <= d;
    c
  }

  /** `value`: the priorities of the items of a set added up. The sum is
      taken in increasing order of the items; `ValueRemove` shows that the
      order does not matter. */
  function Value(s: set<char>): int
    decreases s
  {
    if s == {} then 0 else var c := Least(s); Priority(c) + Value(s - {c})
  }

  /** Any item of the set can be taken out first. */
  lemma {:induction false} ValueRemove(s: set<char>, c: char)
    requires c in s
    ensures Value(s) == Priority(c) + Value(s - {c})
    decreases s
  {
    var m := Least(s);
    if c != m {
      ValueRemove(s - {m}, c);
      assert m in s - {c};
      var l := Least(s - {c});
      assert l in s;
      assert l <= m && m <= l;
      assert s - {m} - {c} == s - {c} - {m};
    }
  }

  /** The value of two sets without common items is the sum of their values. */
  lemma {:induction false} ValueUnion(a: set<char>, b: set<char>)
    requires a * b == {}
    ensures Value(a + b) == Value(a) + Value(b)
    decreases a
  {
    if a != {} {
      var c := Least(a);
      ValueRemove(a + b, c);
      assert (a + b) - {c} == (a - {c}) + b;
      ValueUnion(a - {c}, b);
    } else {
      assert a + b == b;
    }
  }

  /** A set of letters is worth between 1 and 52 points per item. */
  lemma {:induction false} ValueOfLetters(s: set<char>)
    requires forall c :: c in s ==> IsLetter(c)
    ensures |s| <= Value(s) <= 52 * |s|
    decreases s
  {
    if s != {} {
      var c := Least(s);
      PriorityNumbersLetters(c, 0);
      ValueOfLetters(s - {c});
    }
  }

  // ---------------------------------------------------------------- part 1

  /** The characters of a string, as `chars().collect()` gathers them. */
  function CharSet(s: string): set<char> {
    set c | c in s
  }

  /** Where `part1` cuts a line: `take(line.len() / 2)` counts characters up
      to half the byte length, or the whole line when it has fewer. */
  function Half(line: string): (h: nat)
    ensures h <= |line|
  {
    if Utf8Len(line) / 2 <= |line| then Utf8Len(line) / 2 else |line|
  }

  /** The items found both among the characters `chars().take(h)` keeps and
      among those `chars().skip(h)` keeps, for `h` half the byte length. */
  function Common(line: string): (r: set<char>)
    ensures r <= CharSet(line[..Half(line)]) && r <= CharSet(line[Half(line)..])
    ensures forall c ::
              c in r <==>
                (exists i :: 0 <= i < Half(line) && line[i] == c) &&
                (exists j :: Half(line) <= j < |line| && line[j] == c)
  {
    var h := Half(line);
    assert forall c :: c in line[..h] <==> exists i :: 0 <= i < h && line[i] == c by {
      forall c | c in line[..h] ensures exists i :: 0 <= i < h && line[i] == c {
        var i :| 0 <= i < h && line[..h][i] == c;
      }
    }
    assert forall c :: c in line[h..] <==> exists j :: h <= j < |line| && line[j] == c by {
      forall c | c in line[h..] ensures exists j :: h <= j < |line| && line[j] == c {
        var i :| 0 <= i < |line| - h && line[h..][i] == c;
        assert line[h + i] == c;
      }
      forall c | exists j :: h <= j < |line| && line[j] == c ensures c in line[h..] {
        var j :| h <= j < |line| && line[j] == c;
        assert line[h..][j - h] == c;
      }
    }
    CharSet(line[..h]) * CharSet(line[h..])
  }

  /** On an ASCII line the cut is at half the characters. A character of two
      or more bytes moves it later: `"éé"` is four bytes long, so the cut falls
      after both characters, the second half is empty and nothing is common. */
  lemma HalfOfLines(line: string)
    ensures (forall i :: 0 <= i < |line| ==> line[i] as int < 0x80) ==> Half(line) == |line| / 2
    ensures Half("\U{00E9}\U{00E9}") == 2 && Common("\U{00E9}\U{00E9}") == {}
  {
    if forall i :: 0 <= i < |line| ==> line[i] as int < 0x80 {
      AsciiLen(line);
    }
    var s := "\U{00E9}\U{00E9}";
    assert s[1..][1..] == [];
    assert Utf8Len(s) == 4;
    assert s[2..] == [];
  }

  /** `part1`: the value of the common items of every line, added up. */
  function Part1(lines: seq<string>): int {
    if lines == [] then 0 else Part1(lines[..|lines| - 1]) + Value(Common(lines[|lines| - 1]))
  }

  /** The part 1 total is a sum over the lines: it splits at any point. */
  lemma {:induction false} Part1Append(a: seq<string>, b: seq<string>)
    ensures Part1(a + b) == Part1(a) + Part1(b)
    decreases |b|
  {
    if b != [] {
      var b' := b[..|b| - 1];
      assert (a + b)[..|a + b| - 1] == a + b';
      Part1Append(a, b');
    } else {
      assert a + b == a;
    }
  }

  // ---------------------------------------------------------------- part 2

  /** The running set of `part2` after one more line: the line's items
      replace an empty running set and are intersected with any other. */
  function Running(common: set<char>, lineSet: set<char>): set<char> {
    if common == {} then lineSet else common * lineSet
  }

  /** The rest of `part2`'s total when the running set is `common` and `k`
      lines of the current group have been seen. */
  function Walk(common: set<char>, k: nat, lines: seq<string>): int
    decreases |lines|
  {
    if lines == [] then 0
    else
      var next := Running(common, CharSet(lines[0]));
      if k % 3 == 2 then Value(next) + Walk({}, 0, lines[1..]) else Walk(next, k + 1, lines[1..])
  }

  function Part2Total(lines: seq<string>): int {
    Walk({}, 0, lines)
  }

  /** `part2`. */
  method Part2(lines: seq<string>) returns (total: int)
    ensures total == Part2Total(lines)
  {
    total := 0;
    var common: set<char> := {};
    for i := 0 to |lines|
      invariant Part2Total(lines) == total + Walk(common, i % 3, lines[i..])
    {
      assert lines[i..][1..] == lines[i + 1..];
      var lineSet := CharSet(lines[i]);
      common := if common == {} then lineSet else common * lineSet;
      if (i + 1) % 3 == 0 {
        total := total + Value(common);
        common := {};
      } else {
        assert (i + 1) % 3 == i % 3 + 1;
      }
    }
    assert lines[|lines|..] == [];
  }

  /** The running set at the end of a group of three lines. */
  function GroupSet(a: string, b: string, c: string): set<char> {
    Running(Running(Running({}, CharSet(a)), CharSet(b)), CharSet(c))
  }

  /** The groups of three from the front, each scored by its `GroupSet`;
      fewer than three left-over lines score nothing. */
  function Groups(lines: seq<string>): int
    decreases |lines|
  {
    if |lines| < 3 then 0 else Value(GroupSet(lines[0], lines[1], lines[2])) + Groups(lines[3..])
  }

  /** `part2` scores each complete group of three lines by its running set
      and nothing else. */
  lemma {:induction false} Part2ByGroups(lines: seq<string>)
    ensures Part2Total(lines) == Groups(lines)
    decreases |lines|
  {
    if |lines| >= 3 {
      var r1 := Running({}, CharSet(lines[0]));
      var r2 := Running(r1, CharSet(lines[1]));
      assert lines[1..][0] == lines[1] && lines[1..][1..] == lines[2..];
      assert lines[2..][0] == lines[2] && lines[2..][1..] == lines[3..];
      assert Part2Total(lines) == Walk(r1, 1, lines[1..]);
      assert Walk(r1, 1, lines[1..]) == Walk(r2, 2, lines[2..]);
      assert Walk(r2, 2, lines[2..]) == Value(GroupSet(lines[0], lines[1], lines[2])) + Part2Total(lines[3..]);
      Part2ByGroups(lines[3..]);
    } else if |lines| == 2 {
      var r1 := Running({}, CharSet(lines[0]));
      assert lines[1..][0] == lines[1] && lines[1..][1..] == [];
      assert Part2Total(lines) == Walk(r1, 1, lines[1..]);
      assert Walk(r1, 1, lines[1..]) == Walk(Running(r1, CharSet(lines[1])), 2, []);
    } else if |lines| == 1 {
      assert lines[1..] == [];
      assert Part2Total(lines) == Walk(Running({}, CharSet(lines[0])), 1, []);
    }
  }

  /** Lines after the last complete group do not count. */
  lemma {:induction false} LeftoverLines(lines: seq<string>)
    ensures Groups(lines) == Groups(lines[..|lines| - |lines| % 3])
    decreases |lines|
  {
    var n := |lines| - |lines| % 3;
    if |lines| >= 3 {
      LeftoverLines(lines[3..]);
      assert lines[3..][..|lines[3..]| - |lines[3..]| % 3] == lines[..n][3..];
      assert lines[..n][0] == lines[0] && lines[..n][1] == lines[1] && lines[..n][2] == lines[2];
    }
  }

  /** The items all three lines have in common, which the puzzle calls the
      group's badge. */
  function Badge(a: string, b: string, c: string): (r: set<char>)
    ensures forall x :: x in r <==> x in a && x in b && x in c
  {
    CharSet(a) * CharSet(b) * CharSet(c)
  }

  /** When a group has a badge, the running set is the badge. */
  lemma GroupSetIsBadge(a: string, b: string, c: string)
    requires Badge(a, b, c) != {}
    ensures GroupSet(a, b, c) == Badge(a, b, c)
  {
    var x :| x in Badge(a, b, c);
    assert x in CharSet(a) && x in CharSet(a) * CharSet(b);
  }

  /** Three lines without a common item: the running set empties after the
      second line and the third line replaces it, so the group scores the
      third line's items instead of nothing. */
  lemma GroupWithoutBadge()
    ensures Badge("a", "b", "c") == {}
    ensures GroupSet("a", "b", "c") == {'c'}
    ensures Value(GroupSet("a", "b", "c")) == 3 && Value(Badge("a", "b", "c")) == 0
  {
    assert CharSet("a") == {'a'} && CharSet("b") == {'b'} && CharSet("c") == {'c'};
    assert Least({'c'}) == 'c';
    assert {'c'} - {'c'} == {};
  }

  /** Each complete group scored by its badge. */
  function BadgeTotal(lines: seq<string>): int
    decreases |lines|
  {
    if |lines| < 3 then 0 else Value(Badge(lines[0], lines[1], lines[2])) + BadgeTotal(lines[3..])
  }

  /** Every complete group has a badge. */
  predicate HasBadges(lines: seq<string>)
    decreases |lines|
  {
    |lines| < 3 || (Badge(lines[0], lines[1], lines[2]) != {} && HasBadges(lines[3..]))
  }

  /** On input where every group has a badge, `part2` totals the badges. */
  lemma {:induction false} Part2TotalsBadges(lines: seq<string>)
    requires HasBadges(lines)
    ensures Part2Total(lines) == BadgeTotal(lines)
    decreases |lines|
  {
    Part2ByGroups(lines);
    BadgesAreGroups(lines);
  }

  lemma {:induction false} BadgesAreGroups(lines: seq<string>)
    requires HasBadges(lines)
    ensures Groups(lines) == BadgeTotal(lines)
    decreases |lines|
  {
    if |lines| >= 3 {
      GroupSetIsBadge(lines[0], lines[1], lines[2]);
      BadgesAreGroups(lines[3..]);
    }
  }

  /** The rest of the corrected total when the running set is `common` and `k`
      lines of the current group have been seen: the first line of a group
      starts a new running set, and later lines are always intersected. */
  function FixedWalk(common: set<char>, k: nat, lines: seq<string>): int
    decreases |lines|
  {
    if lines == [] then 0
    else
      var next := if k % 3 == 0 then CharSet(lines[0]) else common * CharSet(lines[0]);
      if k % 3 == 2 then Value(next) + FixedWalk({}, 0, lines[1..]) else FixedWalk(next, k + 1, lines[1..])
  }

  /** Restarting the running set at each group scores every complete group
      by its badge. */
  lemma {:induction false} FixedWalkIsBadgeTotal(lines: seq<string>)
    ensures FixedWalk({}, 0, lines) == BadgeTotal(lines)
    decreases |lines|
  {
    if |lines| >= 3 {
      var r1 := CharSet(lines[0]);
      var r2 := r1 * CharSet(lines[1]);
      assert lines[1..][0] == lines[1] && lines[1..][1..] == lines[2..];
      assert lines[2..][0] == lines[2] && lines[2..][1..] == lines[3..];
      assert FixedWalk({}, 0, lines) == FixedWalk(r1, 1, lines[1..]);
      assert FixedWalk(r1, 1, lines[1..]) == FixedWalk(r2, 2, lines[2..]);
      assert FixedWalk(r2, 2, lines[2..]) == Value(Badge(lines[0], lines[1], lines[2])) + FixedWalk({}, 0, lines[3..]);
      FixedWalkIsBadgeTotal(lines[3..]);
    } else if |lines| == 2 {
      assert lines[1..][0] == lines[1] && lines[1..][1..] == [];
      assert FixedWalk({}, 0, lines) == FixedWalk(CharSet(lines[0]), 1, lines[1..]);
      assert FixedWalk(CharSet(lines[0]), 1, lines[1..]) == FixedWalk(CharSet(lines[0]) * CharSet(lines[1]), 2, []);
    } else if |lines| == 1 {
      assert lines[1..] == [];
      assert FixedWalk({}, 0, lines) == FixedWalk(CharSet(lines[0]), 1, []);
    }
  }

  /** One line of the corrected loop, at index `i`. */
  lemma FixedWalkStep(common: set<char>, i: nat, lines: seq<string>)
    requires i < |lines|
    ensures var next := if i % 3 == 0 then CharSet(lines[i]) else common * CharSet(lines[i]);
            FixedWalk(common, i % 3, lines[i..]) ==
              if (i + 1) % 3 == 0 then Value(next) + FixedWalk({}, (i + 1) % 3, lines[i + 1..])
              else FixedWalk(next, (i + 1) % 3, lines[i + 1..])
  {
    assert lines[i..][1..] == lines[i + 1..];
    assert (i + 1) % 3 == 0 <==> i % 3 == 2;
    assert (i + 1) % 3 != 0 ==> (i + 1) % 3 == i % 3 + 1;
  }

  /** `part2` with the running set restarted at the first line of every
      group rather than whenever it is empty. */
  method Part2Fixed(lines: seq<string>) returns (total: int)
    ensures total == BadgeTotal(lines)
  {
    FixedWalkIsBadgeTotal(lines);
    total := 0;
    var common: set<char> := {};
    for i := 0 to |lines|
      invariant BadgeTotal(lines) == total + FixedWalk(common, i % 3, lines[i..])
    {
      FixedWalkStep(common, i, lines);
      var lineSet := CharSet(lines[i]);
      common := if i % 3 == 0 then lineSet else common * lineSet;
      if (i + 1) % 3 == 0 {
        total := total + Value(common);
        common := {};
      }
    }
    assert lines[|lines|..] == [];
  }

  /** The corrected part 2 scores the group without a common item at 0. */
  lemma FixedGroupWithoutBadge()
    ensures BadgeTotal(["a", "b", "c"]) == 0
  {
    GroupWithoutBadge();
    assert ["a", "b", "c"][3..] == [];
  }
}
