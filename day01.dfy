/** Day 01: calorie counting. The lines list numbers, one per line, and blank
    lines separate the elves. `count_calories` adds up every elf's numbers,
    sorts the totals from largest to smallest, and answers the sum of the
    first `n`. */
module Day01 {
  import opened Text

  datatype CalorieError = BadNumber   // a non-blank line that is not a number

  // ---------------------------------------------------------------- totals

  /** The state of the loop of `count_calories` after `lines`: the totals
      pushed so far and the running total of the current elf. */
  function Scan(lines: seq<string>): Result<(seq<nat>, nat), CalorieError>
    decreases |lines|
  {
    if lines == [] then Ok(([], 0))
    else
      match Scan(lines[..|lines| - 1])
      case Err(e) => Err(e)
      case Ok(state) => Step(state, lines[|lines| - 1])
  }

  /** One line of the loop: a blank line closes the current elf, any other
      line must be a number and is added to the running total. */
  function Step(state: (seq<nat>, nat), line: string): Result<(seq<nat>, nat), CalorieError> {
    if line == "" then Ok((state.0 + [state.1], 0))
    else
      match ParseNat(line)
      case None => Err(BadNumber)
      case Some(v) => Ok((state.0, state.1 + v))
  }

  /** The totals once the last elf is pushed as well. */
  function Totals(lines: seq<string>): Result<seq<nat>, CalorieError> {
    match Scan(lines)
    case Err(e) => Err(e)
    case Ok(state) => Ok(state.0 + [state.1])
  }

  /** The number of blank lines. */
  function Blanks(lines: seq<string>): nat {
    if lines == [] then 0 else Blanks(lines[..|lines| - 1]) + (if lines[|lines| - 1] == "" then 1 else 0)
  }

  /** The numbers of all non-blank lines added up. */
  function Calories(lines: seq<string>): nat {
    if lines == [] then 0
    else
      Calories(lines[..|lines| - 1]) +
      (match ParseNat(lines[|lines| - 1]) case Some(v) => v case None => 0)
  }

  function Sum(s: seq<nat>): nat {
    if s == [] then 0 else Sum(s[..|s| - 1]) + s[|s| - 1]
  }

  /** A non-blank line that is not a number is an error, and the only one. */
  lemma {:induction false} ScanFails(lines: seq<string>)
    ensures Scan(lines).Err? <==> exists i :: 0 <= i < |lines| && lines[i] != "" && ParseNat(lines[i]).None?
    decreases |lines|
  {
    if lines != [] {
      var front := lines[..|lines| - 1];
      ScanFails(front);
      if exists i :: 0 <= i < |front| && front[i] != "" && ParseNat(front[i]).None? {
        var i :| 0 <= i < |front| && front[i] != "" && ParseNat(front[i]).None?;
        assert lines[i] == front[i];
      }
      if exists i :: 0 <= i < |lines| && lines[i] != "" && ParseNat(lines[i]).None? {
        var i :| 0 <= i < |lines| && lines[i] != "" && ParseNat(lines[i]).None?;
        if i < |front| {
          assert front[i] == lines[i];
        }
      }
    }
  }

  /** Every blank line pushes a total and the last elf is always pushed, so
      there is one total more than there are blank lines; all totals
      together hold every number. */
  lemma {:induction false} ScanCounts(lines: seq<string>)
    ensures Scan(lines).Ok? ==>
              |Scan(lines).value.0| == Blanks(lines) &&
              Sum(Scan(lines).value.0) + Scan(lines).value.1 == Calories(lines)
    decreases |lines|
  {
    if lines != [] {
      var front := lines[..|lines| - 1];
      ScanCounts(front);
      if Scan(front).Ok? {
        var d := Scan(front).value.0;
        assert (d + [Scan(front).value.1])[..|d|] == d;
      }
    }
  }

  lemma TotalsCount(lines: seq<string>)
    ensures Totals(lines).Err? <==> exists i :: 0 <= i < |lines| && lines[i] != "" && ParseNat(lines[i]).None?
    ensures Totals(lines).Ok? ==>
              |Totals(lines).value| == Blanks(lines) + 1 && Sum(Totals(lines).value) == Calories(lines)
  {
    ScanFails(lines);
    ScanCounts(lines);
    if Scan(lines).Ok? {
      var d := Scan(lines).value.0;
      assert (d + [Scan(lines).value.1])[..|d|] == d;
    }
  }

  function Shifted(front: seq<nat>, r: Result<(seq<nat>, nat), CalorieError>): Result<(seq<nat>, nat), CalorieError> {
    match r
    case Err(e) => Err(e)
    case Ok(state) => Ok((front + state.0, state.1))
  }

  lemma {:induction false} ScanAfterBlank(a: seq<string>, b: seq<string>)
    requires Totals(a).Ok?
    ensures Scan(a + [""] + b) == Shifted(Totals(a).value, Scan(b))
    decreases |b|
  {
    if b == [] {
      assert (a + [""] + b)[..|a|] == a;
      assert Totals(a).value + [] == Totals(a).value;
    } else {
      var b' := b[..|b| - 1];
      assert (a + [""] + b)[..|a + [""] + b| - 1] == a + [""] + b';
      ScanAfterBlank(a, b');
      var x := b[|b| - 1];
      if Scan(b').Ok? {
        var s := Scan(b').value;
        assert Totals(a).value + (s.0 + [s.1]) == Totals(a).value + s.0 + [s.1];
      }
    }
  }

  /** A blank line separates the elves before it from those after it. */
  lemma TotalsSplit(a: seq<string>, b: seq<string>)
    requires Totals(a).Ok? && Totals(b).Ok?
    ensures Totals(a + [""] + b) == Ok(Totals(a).value + Totals(b).value)
  {
    ScanAfterBlank(a, b);
    var s := Scan(b).value;
    assert Totals(a).value + s.0 + [s.1] == Totals(a).value + (s.0 + [s.1]);
  }

  /** Lines without a blank one belong to a single elf, whose total is the
      sum of their numbers. */
  lemma OneElf(lines: seq<string>)
    requires forall i :: 0 <= i < |lines| ==> lines[i] != ""
    requires Totals(lines).Ok?
    ensures Totals(lines) == Ok([Calories(lines)])
  {
    NoBlanks(lines);
    ScanCounts(lines);
    var state := Scan(lines).value;
    assert |state.0| == 0;
    assert state.0 + [state.1] == [Calories(lines)];
  }

  lemma {:induction false} NoBlanks(lines: seq<string>)
    requires forall i :: 0 <= i < |lines| ==> lines[i] != ""
    ensures Blanks(lines) == 0
    decreases |lines|
  {
    if lines != [] {
      NoBlanks(lines[..|lines| - 1]);
    }
  }

  // ---------------------------------------------------------------- sorting

  /** Largest first. */
  predicate Descending(s: seq<nat>) {
    forall k, l :: 0 <= k < l < |s| ==> s[k] >= s[l]
  }

  /** `x` put into a largest-first sequence before the first element that is
      not larger. */
  function InsertDesc(x: nat, s: seq<nat>): (r: seq<nat>)
    requires Descending(s)
    ensures Descending(r)
    ensures multiset(r) == multiset(s) + multiset{x}
    ensures r[0] == (if s == [] || x >= s[0] then x else s[0])
    decreases |s|
  {
    if s == [] then [x]
    else if x >= s[0] then
      DescendingCons(x, s);
      [x] + s
    else
      DescendingTail(s);
      var rest := InsertDesc(x, s[1..]);
      DescendingCons(s[0], rest);
      assert s == [s[0]] + s[1..];
      [s[0]] + rest
  }

  lemma DescendingTail(s: seq<nat>)
    requires Descending(s) && s != []
    ensures Descending(s[1..])
    ensures |s| > 1 ==> s[0] >= s[1]
  {
    assert forall k :: 0 <= k < |s| - 1 ==> s[1..][k] == s[k + 1];
  }

  /** A largest-first sequence stays so with a first element not smaller
      than its old first element. */
  lemma DescendingCons(x: nat, s: seq<nat>)
    requires Descending(s) && (s == [] || x >= s[0])
    ensures Descending([x] + s)
  {
    var r := [x] + s;
    forall k, l | 0 <= k < l < |r|
      ensures r[k] >= r[l]
    {
      assert r[l] == s[l - 1];
      if k == 0 {
        assert s[0] >= s[l - 1];
      } else {
        assert r[k] == s[k - 1];
      }
    }
  }

  /** `data.sort_by(|a, b| b.cmp(a))`: the totals largest first. */
  function SortDesc(s: seq<nat>): (r: seq<nat>)
    ensures Descending(r)
    ensures multiset(r) == multiset(s)
    decreases |s|
  {
    if s == [] then []
    else
      assert s == [s[0]] + s[1..];
      InsertDesc(s[0], SortDesc(s[1..]))
  }

  function Min(a: nat, b: nat): nat { if a <= b then a else b }

  /** The sum of the first `n` of a sequence, or of all of it when it is
      shorter (`iter().take(n).sum()`). */
  function TopSum(s: seq<nat>, n: nat): nat {
    Sum(s[..Min(n, |s|)])
  }

  lemma {:induction false} SumAppend(a: seq<nat>, b: seq<nat>)
    ensures Sum(a + b) == Sum(a) + Sum(b)
    decreases |b|
  {
    if b == [] {
      assert a + b == a;
    } else {
      assert (a + b)[..|a + b| - 1] == a + b[..|b| - 1];
      SumAppend(a, b[..|b| - 1]);
    }
  }

  /** Taking one element out of a sequence. */
  lemma SumRemove(b: seq<nat>, k: nat)
    requires k < |b|
    ensures multiset(b) == multiset(b[..k] + b[k + 1..]) + multiset{b[k]}
    ensures Sum(b) == Sum(b[..k] + b[k + 1..]) + b[k]
  {
    SplitAt(b, k);
    MultisetRemove(b[..k], b[k], b[k + 1..]);
    SumMiddle(b[..k], b[k], b[k + 1..]);
  }

  lemma SplitAt(b: seq<nat>, k: nat)
    requires k < |b|
    ensures b == b[..k] + [b[k]] + b[k + 1..]
  {
  }

  lemma MultisetRemove(front: seq<nat>, x: nat, back: seq<nat>)
    ensures multiset(front + [x] + back) == multiset(front + back) + multiset{x}
  {
    assert multiset(front + [x] + back) == multiset(front) + multiset{x} + multiset(back);
  }

  lemma SumMiddle(front: seq<nat>, x: nat, back: seq<nat>)
    ensures Sum(front + [x] + back) == Sum(front + back) + x
  {
    SumAppend(front + [x], back);
    SumAppend(front, [x]);
    SumAppend(front, back);
    assert Sum([x]) == x by {
      assert [x][..0] == [];
    }
  }

  lemma CancelOne(a: multiset<nat>, b: multiset<nat>, x: nat)
    requires a + multiset{x} == b + multiset{x}
    ensures a == b
  {
    assert forall e :: a[e] == (a + multiset{x})[e] - multiset{x}[e];
    assert forall e :: b[e] == (b + multiset{x})[e] - multiset{x}[e];
  }

  /** Reordering does not change a sum. */
  lemma {:induction false} SumOfPermutation(a: seq<nat>, b: seq<nat>)
    requires multiset(a) == multiset(b)
    ensures Sum(a) == Sum(b)
    decreases |a|
  {
    if a != [] {
      var x := a[|a| - 1];
      var a' := a[..|a| - 1];
      assert a == a' + [x];
      assert multiset(a) == multiset(a') + multiset{x};
      assert x in multiset(b);
      var k :| 0 <= k < |b| && b[k] == x;
      var b' := b[..k] + b[k + 1..];
      SumRemove(b, k);
      CancelOne(multiset(a'), multiset(b'), x);
      SumOfPermutation(a', b');
    }
  }

  /** The largest-first order of a collection is unique. */
  lemma {:induction false} DescendingUnique(s: seq<nat>, t: seq<nat>)
    requires Descending(s) && Descending(t) && multiset(s) == multiset(t)
    ensures s == t
    decreases |s|
  {
    if s != [] {
      assert |t| == |multiset(t)| == |s|;
      assert s[0] in multiset(t) && t[0] in multiset(s);
      assert s[0] >= t[0] by {
        var k :| 0 <= k < |s| && s[k] == t[0];
      }
      assert t[0] >= s[0] by {
        var k :| 0 <= k < |t| && t[k] == s[0];
      }
      assert s == [s[0]] + s[1..] && t == [t[0]] + t[1..];
      assert multiset(s) == multiset(s[1..]) + multiset{s[0]};
      assert multiset(t) == multiset(t[1..]) + multiset{s[0]};
      CancelOne(multiset(s[1..]), multiset(t[1..]), s[0]);
      DescendingUnique(s[1..], t[1..]);
    }
  }

  /** With n = 1 the answer is the largest total. */
  lemma TopOneIsMax(s: seq<nat>, totals: seq<nat>)
    requires Descending(s) && multiset(s) == multiset(totals) && totals != []
    ensures TopSum(s, 1) in totals
    ensures forall x :: x in totals ==> x <= TopSum(s, 1)
  {
    assert |s| == |multiset(totals)| == |totals|;
    assert s[..1] == [s[0]] && [s[0]][..0] == [];
    assert TopSum(s, 1) == Sum(s[..1]) == s[0];
    assert s[0] in multiset(totals);
    forall x | x in totals ensures x <= s[0] {
      assert x in multiset(s);
      var k :| 0 <= k < |s| && s[k] == x;
    }
  }

  /** Taking more totals never answers less; taking at least all of them
      answers the sum of all. */
  lemma TopSumGrows(s: seq<nat>, totals: seq<nat>, n: nat)
    requires multiset(s) == multiset(totals)
    ensures TopSum(s, n) <= TopSum(s, n + 1)
    ensures n >= |totals| ==> TopSum(s, n) == Sum(totals)
  {
    assert |s| == |multiset(totals)| == |totals|;
    if n < |s| {
      assert s[..n + 1][..n] == s[..n];
    }
    if n >= |s| {
      assert s[..|s|] == s;
      SumOfPermutation(s, totals);
    }
  }

  // ---------------------------------------------------------------- count_calories

  lemma {:induction false} ScanStops(lines: seq<string>, i: nat)
    requires i <= |lines| && Scan(lines[..i]).Err?
    ensures Scan(lines) == Scan(lines[..i])
    decreases |lines| - i
  {
    if i < |lines| {
      assert lines[..i + 1][..i] == lines[..i];
      ScanStops(lines, i + 1);
    } else {
      assert lines[..i] == lines;
    }
  }

  /** `count_calories`: the totals sorted largest first, and the first `n`
      of them added up. */
  method CountCalories(lines: seq<string>, n: nat) returns (r: Result<nat, CalorieError>)
    ensures r.Err? <==> Totals(lines).Err?
    ensures r.Ok? ==>
              exists sorted: seq<nat> ::
                Descending(sorted) && multiset(sorted) == multiset(Totals(lines).value) &&
                r.value == TopSum(sorted, n)
  {
    var data: seq<nat> := [];
    var total: nat := 0;
    for i := 0 to |lines|
      invariant Scan(lines[..i]) == Ok((data, total))
    {
      assert lines[..i + 1][..i] == lines[..i];
      var line := lines[i];
      if line == "" {
        data := data + [total];
        total := 0;
        continue;
      }
      var value := ParseNat(line);
      if value.None? {
        ScanStops(lines, i + 1);
        return Err(BadNumber);
      }
      total := total + value.value;
    }
    assert lines[..|lines|] == lines;
    data := data + [total];
    var sorted := SortDesc(data);
    return Ok(TopSum(sorted, n));
  }
}
