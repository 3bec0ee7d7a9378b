/** Distress signal (day_13/src/main.rs): packets are nested lists of
    numbers, compared by a recursive ordering that part 1 applies to pairs
    and part 2 uses to sort every packet together with two divider packets. */
module Day13 {
  import opened Text

  /** A packet: a number or a list of packets (the JSON values the source parses). */
  datatype Packet = Num(n: nat) | Lst(items: seq<Packet>)

  datatype Ordering = Less | Equal | Greater

  type Pair = (Packet, Packet)

  /** A non-empty input line holds one packet; empty lines separate pairs. */
  datatype Line = Blank | Data(packet: Packet)

  datatype DataError = OddPacketCount

  function Flip(o: Ordering): Ordering {
    match o
    case Less => Greater
    case Equal => Equal
    case Greater => Less
  }

  /** `u64::cmp` on two numbers. */
  function CompareNat(x: nat, y: nat): (r: Ordering)
    ensures r == Less <==> x < y
    ensures r == Equal <==> x == y
    ensures r == Greater <==> x > y
  {
    if x < y then Less else if x == y then Equal else Greater
  }

  // ---------------------------------------------------------------------
  // The ordering
  // ---------------------------------------------------------------------

  function Size(p: Packet): nat {
    match p
    case Num(_) => 1
    case Lst(items) => 1 + SizeOfAll(items)
  }

  function SizeOfAll(s: seq<Packet>): nat {
    if s == [] then 0 else Size(s[0]) + SizeOfAll(s[1..])
  }

  lemma {:induction false} SizeOfElement(s: seq<Packet>, i: nat)
    requires i < |s|
    ensures Size(s[i]) <= SizeOfAll(s)
  {
    if i > 0 {
      SizeOfElement(s[1..], i - 1);
    }
  }

  /** `compare`: numbers by value; lists element by element; a number
      against a list is first wrapped as a one-element list. */
  function Compare(left: Packet, right: Packet): Ordering
    decreases Size(left) + Size(right), 0
  {
    match (left, right)
    case (Num(x), Num(y)) => CompareNat(x, y)
    case (Lst(a), Lst(b)) => CompareFrom(a, b, 0)
    case (Num(x), Lst(b)) =>
      assert SizeOfAll([Num(x)]) == 1;
      CompareFrom([Num(x)], b, 0)
    case (Lst(a), Num(y)) =>
      assert SizeOfAll([Num(y)]) == 1;
      CompareFrom(a, [Num(y)], 0)
  }

  /** The loop of `compare` over two lists, from index `i`: an index past
      both ends gives `Equal`, past the left end only `Less`, past the right
      end only `Greater`; otherwise the elements decide unless they are equal. */
  function CompareFrom(a: seq<Packet>, b: seq<Packet>, i: nat): Ordering
    decreases SizeOfAll(a) + SizeOfAll(b), 1, if i < |a| || i < |b| then (if |a| < |b| then |b| else |a|) - i else 0
  {
    if i >= |a| && i >= |b| then Equal
    else if i >= |a| then Less
    else if i >= |b| then Greater
    else
      SizeOfElement(a, i);
      SizeOfElement(b, i);
      var c := Compare(a[i], b[i]);
      if c != Equal then c else CompareFrom(a, b, i + 1)
  }

  /** A number is compared with a list as the one-element list holding it, on either side. */
  lemma NumberAgainstList(x: nat, b: seq<Packet>)
    ensures Compare(Num(x), Lst(b)) == Compare(Lst([Num(x)]), Lst(b))
    ensures Compare(Lst(b), Num(x)) == Compare(Lst(b), Lst([Num(x)]))
  {
  }

  /** Every packet compares equal to itself. */
  lemma {:induction false} CompareReflexive(p: Packet)
    ensures Compare(p, p) == Equal
    decreases Size(p), 0
  {
    match p
    case Num(_) =>
    case Lst(a) => CompareFromReflexive(a, 0);
  }

  lemma {:induction false} CompareFromReflexive(a: seq<Packet>, i: nat)
    ensures CompareFrom(a, a, i) == Equal
    decreases SizeOfAll(a), 1, if i < |a| then |a| - i else 0
  {
    if i < |a| {
      SizeOfElement(a, i);
      CompareReflexive(a[i]);
      CompareFromReflexive(a, i + 1);
    }
  }

  /** Swapping the operands reverses the ordering. */
  lemma {:induction false} CompareAntisymmetric(l: Packet, r: Packet)
    ensures Compare(l, r) == Flip(Compare(r, l))
    decreases Size(l) + Size(r), 0
  {
    match (l, r)
    case (Num(x), Num(y)) =>
    case (Lst(a), Lst(b)) => CompareFromAntisymmetric(a, b, 0);
    case (Num(x), Lst(b)) =>
      assert SizeOfAll([Num(x)]) == 1;
      CompareFromAntisymmetric([Num(x)], b, 0);
    case (Lst(a), Num(y)) =>
      assert SizeOfAll([Num(y)]) == 1;
      CompareFromAntisymmetric(a, [Num(y)], 0);
  }

  lemma {:induction false} CompareFromAntisymmetric(a: seq<Packet>, b: seq<Packet>, i: nat)
    ensures CompareFrom(a, b, i) == Flip(CompareFrom(b, a, i))
    decreases SizeOfAll(a) + SizeOfAll(b), 1, if i < |a| || i < |b| then (if |a| < |b| then |b| else |a|) - i else 0
  {
    if i < |a| && i < |b| {
      SizeOfElement(a, i);
      SizeOfElement(b, i);
      CompareAntisymmetric(a[i], b[i]);
      CompareFromAntisymmetric(a, b, i + 1);
    }
  }

  lemma {:induction false} CompareFromSkipsEqual(a: seq<Packet>, b: seq<Packet>, i: nat, k: nat)
    requires i <= k <= |a| && k <= |b|
    requires forall j :: i <= j < k ==> Compare(a[j], b[j]) == Equal
    ensures CompareFrom(a, b, i) == CompareFrom(a, b, k)
    decreases k - i
  {
    if i < k {
      CompareFromSkipsEqual(a, b, i + 1, k);
    }
  }

  /** Two lists compare lexicographically: past a common prefix of equal
      elements, the first unequal pair of elements decides; if one list is a
      prefix of the other, the shorter is `Less`; lists of equal length whose
      elements are all equal are `Equal`. */
  lemma ListsCompareAtFirstDifference(a: seq<Packet>, b: seq<Packet>, k: nat)
    requires k <= |a| && k <= |b|
    requires forall j :: 0 <= j < k ==> Compare(a[j], b[j]) == Equal
    requires k == |a| || k == |b| || Compare(a[k], b[k]) != Equal
    ensures Compare(Lst(a), Lst(b)) == if k < |a| && k < |b| then Compare(a[k], b[k]) else CompareNat(|a|, |b|)
  {
    CompareFromSkipsEqual(a, b, 0, k);
  }

  // ---------------------------------------------------------------------
  // Reading the pairs
  // ---------------------------------------------------------------------

  /** The packets of the non-blank lines, in order. */
  function Packets(lines: seq<Line>): seq<Packet> {
    if lines == [] then []
    else
      var last := lines[|lines| - 1];
      Packets(lines[..|lines| - 1]) + (if last.Blank? then [] else [last.packet])
  }

  /** The packets are exactly those of the non-blank lines. */
  lemma {:induction false} PacketsOfLines(lines: seq<Line>, p: Packet)
    ensures p in Packets(lines) <==> Data(p) in lines
  {
    if lines != [] {
      var init := lines[..|lines| - 1];
      PacketsOfLines(init, p);
      assert lines == init + [lines[|lines| - 1]];
    }
  }

  /** The pairs, flattened back into one sequence of packets. */
  function Flatten(pairs: seq<Pair>): seq<Packet> {
    if pairs == [] then []
    else
      var last := pairs[|pairs| - 1];
      Flatten(pairs[..|pairs| - 1]) + [last.0, last.1]
  }

  lemma {:induction false} FlattenLength(pairs: seq<Pair>)
    ensures |Flatten(pairs)| == 2 * |pairs|
  {
    if pairs != [] {
      FlattenLength(pairs[..|pairs| - 1]);
    }
  }

  /** `get_data`: collect the packets of the non-blank lines, require an even
      number of them, and pair them up in order. Pairing inverts flattening. */
  method GetData(lines: seq<Line>) returns (r: Result<seq<Pair>, DataError>)
    ensures r.Err? <==> |Packets(lines)| % 2 == 1
    ensures r.Ok? ==> 2 * |r.value| == |Packets(lines)|
    ensures r.Ok? ==> forall k :: 0 <= k < |r.value| ==>
              r.value[k] == (Packets(lines)[2 * k], Packets(lines)[2 * k + 1])
    ensures r.Ok? ==> Flatten(r.value) == Packets(lines)
  {
    var nums: seq<Packet> := [];
    for i := 0 to |lines|
      invariant nums == Packets(lines[..i])
    {
      assert lines[..i + 1][..i] == lines[..i];
      if lines[i].Data? {
        nums := nums + [lines[i].packet];
      }
    }
    assert lines[..|lines|] == lines;
    if |nums| % 2 != 0 {
      return Err(OddPacketCount);
    }
    var pairs := PairUp(nums);
    return Ok(pairs);
  }

  /** The loop over `(0..nums.len()).step_by(2)` that pairs `nums[i]` with
      `nums[i + 1]`, for an even number of packets. */
  method PairUp(nums: seq<Packet>) returns (pairs: seq<Pair>)
    requires |nums| % 2 == 0
    ensures 2 * |pairs| == |nums|
    ensures forall k :: 0 <= k < |pairs| ==> pairs[k] == (nums[2 * k], nums[2 * k + 1])
    ensures Flatten(pairs) == nums
  {
    pairs := [];
    var i := 0;
    while i < |nums|
      invariant 0 <= i <= |nums| && i % 2 == 0 && 2 * |pairs| == i
      invariant forall k :: 0 <= k < |pairs| ==> pairs[k] == (nums[2 * k], nums[2 * k + 1])
      invariant Flatten(pairs) == nums[..i]
    {
      assert (pairs + [(nums[i], nums[i + 1])])[..|pairs|] == pairs;
      assert nums[..i + 2] == nums[..i] + [nums[i], nums[i + 1]];
      pairs := pairs + [(nums[i], nums[i + 1])];
      i := i + 2;
    }
    assert nums[..i] == nums;
  }

  // ---------------------------------------------------------------------
  // Part 1
  // ---------------------------------------------------------------------

  function InOrder(p: Pair): bool {
    Compare(p.0, p.1) == Less
  }

  /** `part1`: the sum of the 1-based indices of the pairs in the right order. */
  function OrderedIndexSum(pairs: seq<Pair>): nat {
    if pairs == [] then 0
    else OrderedIndexSum(pairs[..|pairs| - 1]) + (if InOrder(pairs[|pairs| - 1]) then |pairs| else 0)
  }

  function Triangle(n: nat): nat {
    n * (n + 1) / 2
  }

  /** The sum is at most 1 + 2 + ... + n, and reaches it exactly when every
      pair is in the right order. */
  lemma {:induction false} OrderedIndexSumBound(pairs: seq<Pair>)
    ensures OrderedIndexSum(pairs) <= Triangle(|pairs|)
    ensures OrderedIndexSum(pairs) == Triangle(|pairs|) <==> forall i :: 0 <= i < |pairs| ==> InOrder(pairs[i])
  {
    if pairs != [] {
      var n := |pairs|;
      var init := pairs[..n - 1];
      OrderedIndexSumBound(init);
      assert Triangle(n) == Triangle(n - 1) + n by {
        assert n * (n + 1) == (n - 1) * n + 2 * n;
      }
      if forall i :: 0 <= i < |pairs| ==> InOrder(pairs[i]) {
        assert forall i :: 0 <= i < |init| ==> InOrder(init[i]) by {
          forall i | 0 <= i < |init| ensures InOrder(init[i]) { assert init[i] == pairs[i]; }
        }
      } else {
        var i :| 0 <= i < |pairs| && !InOrder(pairs[i]);
        if i < n - 1 {
          assert init[i] == pairs[i];
        }
      }
    }
  }

  /** The sum is 0 exactly when no pair is in the right order. */
  lemma {:induction false} OrderedIndexSumZero(pairs: seq<Pair>)
    ensures OrderedIndexSum(pairs) == 0 <==> forall i :: 0 <= i < |pairs| ==> !InOrder(pairs[i])
  {
    if pairs != [] {
      var n := |pairs|;
      var init := pairs[..n - 1];
      OrderedIndexSumZero(init);
      if forall i :: 0 <= i < |pairs| ==> !InOrder(pairs[i]) {
        assert forall i :: 0 <= i < |init| ==> !InOrder(init[i]) by {
          forall i | 0 <= i < |init| ensures !InOrder(init[i]) { assert init[i] == pairs[i]; }
        }
      } else {
        var i :| 0 <= i < |pairs| && InOrder(pairs[i]);
        if i < n - 1 {
          assert init[i] == pairs[i];
        }
      }
    }
  }

  /** A pair of identical packets is never in the right order. */
  lemma IdenticalPairNotInOrder(p: Packet)
    ensures !InOrder((p, p))
  {
    CompareReflexive(p);
  }

  method Part1(lines: seq<Line>) returns (r: Result<nat, DataError>)
    ensures r.Err? <==> |Packets(lines)| % 2 == 1
    ensures r.Ok? ==> exists pairs :: Flatten(pairs) == Packets(lines) && r.value == OrderedIndexSum(pairs)
  {
    var data := GetData(lines);
    if data.Err? {
      return Err(data.error);
    }
    return Ok(OrderedIndexSum(data.value));
  }

  // ---------------------------------------------------------------------
  // Part 2
  // ---------------------------------------------------------------------

  /** The divider packets `[[2]]` and `[[6]]`. */
  const Divider1: Packet := Lst([Lst([Num(2)])])
  const Divider2: Packet := Lst([Lst([Num(6)])])

  lemma DividersInOrder()
    ensures Compare(Divider1, Divider2) == Less
  {
    ListsCompareAtFirstDifference([Lst([Num(2)])], [Lst([Num(6)])], 0);
    ListsCompareAtFirstDifference([Num(2)], [Num(6)], 0);
  }

  function IsDivider(p: Packet): bool {
    p == Divider1 || p == Divider2
  }

  /** Every neighbouring pair is in non-descending order. */
  ghost predicate SortedRange(s: seq<Packet>, lo: nat, hi: nat)
    requires lo <= hi <= |s|
  {
    forall k :: lo < k < hi ==> Compare(s[k - 1], s[k]) != Greater
  }

  /** Where a stable insertion puts `x` after the run `s`: just after the
      last element that does not compare Greater than `x`, so that `x` passes
      only elements Greater than it and stays behind every equal one. */
  function InsertPoint(s: seq<Packet>, x: Packet): (k: nat)
    ensures k <= |s|
  {
    if s == [] || Compare(s[|s| - 1], x) != Greater then |s|
    else InsertPoint(s[..|s| - 1], x)
  }

  function InsertLast(s: seq<Packet>, x: Packet): seq<Packet> {
    var k := InsertPoint(s, x);
    s[..k] + [x] + s[k..]
  }

  /** The order `sort_by(compare)` leaves the packets in: `sort_by` is a
      stable sort, which is the result of inserting the elements one by one,
      each behind every earlier element it does not precede. */
  function InsertionSorted(s: seq<Packet>): (r: seq<Packet>)
    ensures |r| == |s|
  {
    if s == [] then [] else InsertLast(InsertionSorted(s[..|s| - 1]), s[|s| - 1])
  }

  /** The insertion point is exact: every element after it is Greater than
      `x`, and the one before it is not. */
  lemma {:induction false} InsertPointExact(s: seq<Packet>, x: Packet)
    ensures forall m :: InsertPoint(s, x) <= m < |s| ==> Compare(s[m], x) == Greater
    ensures InsertPoint(s, x) > 0 ==> Compare(s[InsertPoint(s, x) - 1], x) != Greater
  {
    if s != [] && Compare(s[|s| - 1], x) == Greater {
      var init := s[..|s| - 1];
      InsertPointExact(init, x);
      var k := InsertPoint(init, x);
      forall m | k <= m < |s|
        ensures Compare(s[m], x) == Greater
      {
        if m < |s| - 1 {
          assert s[m] == init[m];
        }
      }
      if k > 0 {
        assert s[k - 1] == init[k - 1];
      }
    }
  }

  /** A sorted run, then `x`, then a sorted run, is sorted when `x` fits
      between the two runs. */
  lemma SpliceSorted(a: seq<Packet>, x: Packet, b: seq<Packet>)
    requires SortedRange(a, 0, |a|) && SortedRange(b, 0, |b|)
    requires a != [] ==> Compare(a[|a| - 1], x) != Greater
    requires b != [] ==> Compare(x, b[0]) != Greater
    ensures SortedRange(a + [x] + b, 0, |a| + |b| + 1)
  {
    var r := a + [x] + b;
    forall m | 0 < m < |r|
      ensures Compare(r[m - 1], r[m]) != Greater
    {
      if m < |a| {
        assert r[m - 1] == a[m - 1] && r[m] == a[m];
      } else if m == |a| {
        assert r[m - 1] == a[m - 1] && r[m] == x;
      } else if m == |a| + 1 {
        assert r[m - 1] == x && r[m] == b[0];
      } else {
        assert r[m - 1] == b[m - |a| - 2] && r[m] == b[m - |a| - 1];
      }
    }
  }

  /** The two parts of a sorted run are sorted. */
  lemma SlicesSorted(s: seq<Packet>, k: nat)
    requires k <= |s| && SortedRange(s, 0, |s|)
    ensures SortedRange(s[..k], 0, k) && SortedRange(s[k..], 0, |s| - k)
  {
    forall m | 0 < m < |s| - k
      ensures Compare(s[k..][m - 1], s[k..][m]) != Greater
    {
      assert s[k..][m - 1] == s[k + m - 1] && s[k..][m] == s[k + m];
    }
  }

  /** The two neighbours of the insertion point. */
  lemma InsertPointNeighbours(s: seq<Packet>, x: Packet)
    ensures InsertPoint(s, x) < |s| ==> Compare(x, s[InsertPoint(s, x)]) == Less
    ensures InsertPoint(s, x) > 0 ==> Compare(s[InsertPoint(s, x) - 1], x) != Greater
  {
    InsertPointExact(s, x);
    var k := InsertPoint(s, x);
    if k < |s| {
      CompareAntisymmetric(x, s[k]);
    }
  }

  /** One insertion into a sorted run keeps it sorted. */
  lemma InsertLastSorted(s: seq<Packet>, x: Packet)
    requires SortedRange(s, 0, |s|)
    ensures SortedRange(InsertLast(s, x), 0, |s| + 1)
  {
    var k := InsertPoint(s, x);
    var a, b := s[..k], s[k..];
    InsertPointNeighbours(s, x);
    SlicesSorted(s, k);
    assert b != [] ==> b[0] == s[k];
    assert a != [] ==> a[|a| - 1] == s[k - 1];
    SpliceSorted(a, x, b);
  }

  /** One insertion adds exactly `x`. */
  lemma InsertLastAdds(s: seq<Packet>, x: Packet)
    ensures multiset(InsertLast(s, x)) == multiset(s) + multiset{x}
  {
    var k := InsertPoint(s, x);
    assert s == s[..k] + s[k..];
  }

  /** The stable order is sorted by `compare` and a permutation of its input. */
  lemma {:induction false} InsertionSortedSorted(s: seq<Packet>)
    ensures SortedRange(InsertionSorted(s), 0, |s|)
    ensures multiset(InsertionSorted(s)) == multiset(s)
  {
    if s != [] {
      var init := s[..|s| - 1];
      InsertionSortedSorted(init);
      InsertLastSorted(InsertionSorted(init), s[|s| - 1]);
      InsertLastAdds(InsertionSorted(init), s[|s| - 1]);
      assert s == init + [s[|s| - 1]];
    }
  }

  /** `sort_by(compare)` on the packets, in place, as an insertion sort by
      adjacent swaps. */
  method SortPackets(a: array<Packet>)
    modifies a
    ensures a[..] == InsertionSorted(old(a[..]))
    ensures SortedRange(a[..], 0, a.Length)
    ensures multiset(a[..]) == multiset(old(a[..]))
  {
    ghost var s := a[..];
    for i := 0 to a.Length
      invariant a[..] == InsertionSorted(s[..i]) + s[i..]
    {
      assert s[..i + 1][..i] == s[..i];
      InsertInPlace(a, i);
      assert s[i..][1..] == s[i + 1..];
    }
    assert s[..a.Length] == s;
    InsertionSortedSorted(s);
  }

  /** `t` is `p` with `x` put in at `j`, followed by `rest`, stated element
      by element. */
  ghost predicate Spliced(t: seq<Packet>, p: seq<Packet>, j: nat, x: Packet, rest: seq<Packet>) {
    && j <= |p| && |t| == |p| + 1 + |rest| && t[j] == x
    && (forall k :: 0 <= k < j ==> t[k] == p[k])
    && (forall k :: j < k <= |p| ==> t[k] == p[k - 1])
    && (forall k :: |p| < k < |t| ==> t[k] == rest[k - |p| - 1])
  }

  lemma SplicedIs(t: seq<Packet>, p: seq<Packet>, j: nat, x: Packet, rest: seq<Packet>)
    requires Spliced(t, p, j, x, rest)
    ensures t == p[..j] + [x] + p[j..] + rest
  {
  }

  /** Swapping `x` with its left neighbour moves it one place left in `p`. */
  lemma SwapSpliced(s: seq<Packet>, t: seq<Packet>, p: seq<Packet>, j: nat, x: Packet, rest: seq<Packet>)
    requires Spliced(s, p, j, x, rest) && 0 < j
    requires t == s[j - 1 := s[j]][j := s[j - 1]]
    ensures Spliced(t, p, j - 1, x, rest)
  {
  }

  /** One pass of the insertion sort: move `a[i]` left past every neighbour
      Greater than it, stopping at the first that is not. */
  method InsertInPlace(a: array<Packet>, i: nat)
    requires i < a.Length
    modifies a
    ensures a[..] == InsertLast(old(a[..i]), old(a[i])) + old(a[i + 1..])
  {
    ghost var p, x, rest := a[..i], a[i], a[i + 1..];
    assert Spliced(a[..], p, i, x, rest);
    assert p[..i] == p;
    var j := i;
    while j > 0 && Compare(a[j - 1], a[j]) == Greater
      invariant 0 <= j <= i
      invariant Spliced(a[..], p, j, x, rest)
      invariant InsertPoint(p, x) == InsertPoint(p[..j], x)
      decreases j
    {
      assert a[j - 1] == p[j - 1] && a[j] == x;
      assert p[..j][..j - 1] == p[..j - 1];
      ghost var s := a[..];
      a[j - 1], a[j] := a[j], a[j - 1];
      SwapSpliced(s, a[..], p, j, x, rest);
      j := j - 1;
    }
    assert j > 0 ==> a[j - 1] == p[j - 1] && a[j] == x;
    assert InsertPoint(p[..j], x) == j;
    SplicedIs(a[..], p, j, x, rest);
  }

  /** The comparisons the insertions make on the packets `[2]` and `[7]`. */
  lemma TieComparisons()
    ensures Compare(Divider1, Divider2) == Less
    ensures Compare(Divider2, Lst([Num(2)])) == Greater
    ensures Compare(Divider1, Lst([Num(2)])) == Equal && Compare(Lst([Num(2)]), Divider1) == Equal
    ensures Compare(Divider2, Lst([Num(7)])) == Less && Compare(Lst([Num(7)]), Divider2) == Greater
  {
    DividersInOrder();
    ListsCompareAtFirstDifference([Num(6)], [Num(2)], 0);
    ListsCompareAtFirstDifference([Lst([Num(6)])], [Num(2)], 0);
    CompareReflexive(Num(2));
    ListsCompareAtFirstDifference([Num(2)], [Num(2)], 1);
    ListsCompareAtFirstDifference([Lst([Num(2)])], [Num(2)], 1);
    CompareAntisymmetric(Lst([Num(2)]), Divider1);
    ListsCompareAtFirstDifference([Num(6)], [Num(7)], 0);
    ListsCompareAtFirstDifference([Lst([Num(6)])], [Num(7)], 0);
    CompareAntisymmetric(Lst([Num(7)]), Divider2);
  }

  /** The stable order of the dividers followed by `[2]` and `[7]`. */
  lemma StableTieSorted()
    ensures InsertionSorted([Divider1, Divider2, Lst([Num(2)]), Lst([Num(7)])])
            == [Divider1, Lst([Num(2)]), Divider2, Lst([Num(7)])]
  {
    var p2, p7 := Lst([Num(2)]), Lst([Num(7)]);
    TieComparisons();
    var s := [Divider1, Divider2, p2, p7];
    assert s[..1][..0] == [] && s[..1][0] == Divider1;
    assert InsertionSorted(s[..1]) == [Divider1];
    assert s[..2][..1] == s[..1];
    assert InsertionSorted(s[..2]) == [Divider1, Divider2];
    assert s[..3][..2] == s[..2];
    assert [Divider1, Divider2][..1] == [Divider1];
    assert InsertPoint([Divider1, Divider2], p2) == 1;
    assert InsertionSorted(s[..3]) == [Divider1, p2, Divider2];
    assert s[..3] == s[..|s| - 1];
  }

  /** Stability decides the answer. `[2]` ties with the divider `[[2]]`
      although the packets differ; the stable sort keeps the divider, pushed
      first, ahead of it, so the input lines `[2]`, `[7]` answer 1 × 3. The
      order with `[2]` first is sorted too and would answer 2 × 3 instead. */
  lemma StableTieExample()
    ensures Compare(Lst([Num(2)]), Divider1) == Equal && Lst([Num(2)]) != Divider1
    ensures InsertionSorted([Divider1, Divider2] + Packets([Data(Lst([Num(2)])), Data(Lst([Num(7)]))]))
            == [Divider1, Lst([Num(2)]), Divider2, Lst([Num(7)])]
    ensures DividerProduct([Divider1, Lst([Num(2)]), Divider2, Lst([Num(7)])]) == 3
    ensures SortedRange([Lst([Num(2)]), Divider1, Divider2, Lst([Num(7)])], 0, 4)
    ensures DividerProduct([Lst([Num(2)]), Divider1, Divider2, Lst([Num(7)])]) == 6
  {
    var p2, p7 := Lst([Num(2)]), Lst([Num(7)]);
    var lines := [Data(p2), Data(p7)];
    assert lines[..1][..0] == [];
    assert Packets(lines[..1]) == [p2];
    assert [Divider1, Divider2] + Packets(lines) == [Divider1, Divider2, p2, p7];
    StableTieSorted();
    TieComparisons();
    DividerProductOfTwo([Divider1, p2, Divider2, p7], 0, 2);
    DividerProductOfTwo([p2, Divider1, Divider2, p7], 1, 2);
  }

  /** The product of the 1-based positions of the divider packets. */
  function DividerProduct(s: seq<Packet>): nat {
    if s == [] then 1
    else DividerProduct(s[..|s| - 1]) * (if IsDivider(s[|s| - 1]) then |s| else 1)
  }

  /** When each divider occurs once, at positions `i` and `j`, the product is
      the product of those 1-based positions. */
  lemma {:induction false} DividerProductOfTwo(s: seq<Packet>, i: nat, j: nat)
    requires i < j < |s| && IsDivider(s[i]) && IsDivider(s[j])
    requires forall k :: 0 <= k < |s| && k != i && k != j ==> !IsDivider(s[k])
    ensures DividerProduct(s) == (i + 1) * (j + 1)
  {
    var n := |s|;
    var init := s[..n - 1];
    if j < n - 1 {
      forall k | 0 <= k < |init| && k != i && k != j
        ensures !IsDivider(init[k])
      {
        assert init[k] == s[k];
      }
      DividerProductOfTwo(init, i, j);
    } else {
      forall k | 0 <= k < |init| && k != i
        ensures !IsDivider(init[k])
      {
        assert init[k] == s[k];
      }
      DividerProductOfOne(init, i);
    }
  }

  lemma {:induction false} DividerProductOfOne(s: seq<Packet>, i: nat)
    requires i < |s| && IsDivider(s[i])
    requires forall k :: 0 <= k < |s| && k != i ==> !IsDivider(s[k])
    ensures DividerProduct(s) == i + 1
  {
    var n := |s|;
    var init := s[..n - 1];
    if i < n - 1 {
      forall k | 0 <= k < |init| && k != i
        ensures !IsDivider(init[k])
      {
        assert init[k] == s[k];
      }
      DividerProductOfOne(init, i);
    } else {
      forall k | 0 <= k < |init|
        ensures !IsDivider(init[k])
      {
        assert init[k] == s[k];
      }
      DividerProductOfNone(init);
    }
  }

  lemma {:induction false} DividerProductOfNone(s: seq<Packet>)
    requires forall k :: 0 <= k < |s| ==> !IsDivider(s[k])
    ensures DividerProduct(s) == 1
  {
    if s != [] {
      var init := s[..|s| - 1];
      forall k | 0 <= k < |init|
        ensures !IsDivider(init[k])
      {
        assert init[k] == s[k];
      }
      DividerProductOfNone(init);
    }
  }

  /** The packet list of `part2`: the dividers, then both packets of every pair. */
  method AllPackets(pairs: seq<Pair>) returns (packets: seq<Packet>)
    ensures packets == [Divider1, Divider2] + Flatten(pairs)
  {
    packets := [Divider1, Divider2];
    for k := 0 to |pairs|
      invariant packets == [Divider1, Divider2] + Flatten(pairs[..k])
    {
      assert pairs[..k + 1][..k] == pairs[..k];
      packets := packets + [pairs[k].0, pairs[k].1];
    }
    assert pairs[..|pairs|] == pairs;
  }

  /** The final product of `part2`, over the sorted array. */
  method MultiplyDividerPositions(a: array<Packet>) returns (product: nat)
    ensures product == DividerProduct(a[..])
  {
    product := 1;
    for i := 0 to a.Length
      invariant product == DividerProduct(a[..i])
    {
      assert a[..i + 1][..i] == a[..i];
      if a[i] == Divider1 || a[i] == Divider2 {
        product := product * (i + 1);
      }
    }
    assert a[..a.Length] == a[..];
  }

  /** `part2`: all packets plus the two dividers, sorted, and the product of
      the dividers' 1-based positions in the sorted order. */
  method Part2(lines: seq<Line>) returns (r: Result<nat, DataError>)
    ensures r.Err? <==> |Packets(lines)| % 2 == 1
    ensures r.Ok? ==> r.value == DividerProduct(InsertionSorted([Divider1, Divider2] + Packets(lines)))
  {
    var data := GetData(lines);
    if data.Err? {
      return Err(data.error);
    }
    var packets := AllPackets(data.value);
    var a := new Packet[|packets|](i requires 0 <= i < |packets| => packets[i]);
    assert a[..] == packets;
    SortPackets(a);
    var product := MultiplyDividerPositions(a);
    return Ok(product);
  }
}
