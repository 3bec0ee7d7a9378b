/** Day 04: pairs of section assignments, one pair per line `a-b,c-d`. Part 1
    counts the pairs where one range contains the other; part 2 counts the
    pairs that overlap. */
module Day04 {
  import opened Text

  /** An inclusive range `start..=end`. */
  type Range = (nat, nat)

  type Pair = (Range, Range)

  /** `RangeInclusive::contains`. A range whose start is past its end
      contains nothing. */
  predicate Contains(r: Range, x: int) {
    r.0 <= x <= r.1
  }

  predicate WellFormed(r: Range) {
    r.0 <= r.1
  }

  function Max(a: int, b: int): int { if a >= b then a else b }

  function Min(a: int, b: int): int { if a <= b then a else b }

  function Swap(p: Pair): Pair { (p.1, p.0) }

  // ---------------------------------------------------------------- ranges

  /** A pair line whose comma-separated fields were split at `-` and parsed
      already: the numbers of each field, in order. */
  type Fields = seq<seq<nat>>

  datatype RangeError = MissingField   // fewer than two fields or numbers

  /** A line with two fields of at least two numbers each. */
  predicate Complete(f: Fields) {
    |f| >= 2 && |f[0]| >= 2 && |f[1]| >= 2
  }

  /** `ranges`: the first two numbers of the first two fields of every line.
      Indexing a missing field or number is an error. */
  function Ranges(lines: seq<Fields>): (r: Result<seq<Pair>, RangeError>)
    ensures r.Ok? <==> forall i :: 0 <= i < |lines| ==> Complete(lines[i])
    ensures r.Ok? ==>
              |r.value| == |lines| &&
              forall i :: 0 <= i < |lines| ==>
                r.value[i] == ((lines[i][0][0], lines[i][0][1]), (lines[i][1][0], lines[i][1][1]))
    decreases |lines|
  {
    if lines == [] then Ok([])
    else
      var f := lines[|lines| - 1];
      var front := Ranges(lines[..|lines| - 1]);
      if !Complete(f) then Err(MissingField)
      else if front.Err? then Err(front.error)
      else Ok(front.value + [((f[0][0], f[0][1]), (f[1][0], f[1][1]))])
  }

  // ---------------------------------------------------------------- predicates

  /** The filter of `part1`: the second range holds both ends of the first,
      or the first holds both ends of the second. */
  predicate FullyContains(p: Pair) {
    (Contains(p.1, p.0.0) && Contains(p.1, p.0.1)) || (Contains(p.0, p.1.0) && Contains(p.0, p.1.1))
  }

  /** The filter of `part2`: some end of one range lies in the other. */
  predicate Overlaps(p: Pair) {
    Contains(p.1, p.0.0) || Contains(p.1, p.0.1) || Contains(p.0, p.1.0) || Contains(p.0, p.1.1)
  }

  /** Every section of `a` is a section of `b`. */
  ghost predicate Within(a: Range, b: Range) {
    forall x :: Contains(a, x) ==> Contains(b, x)
  }

  /** For proper ranges, holding both ends of the other range means holding
      all of it. */
  lemma FullyContainsMeansWithin(p: Pair)
    requires WellFormed(p.0) && WellFormed(p.1)
    ensures FullyContains(p) <==> Within(p.0, p.1) || Within(p.1, p.0)
  {
    if Within(p.0, p.1) {
      assert Contains(p.0, p.0.0) && Contains(p.0, p.0.1);
    }
    if Within(p.1, p.0) {
      assert Contains(p.1, p.1.0) && Contains(p.1, p.1.1);
    }
  }

  /** For proper ranges, the `part2` filter holds exactly when the ranges
      share a section, which is when the later start is not past the
      earlier end. */
  lemma OverlapsMeansShared(p: Pair)
    requires WellFormed(p.0) && WellFormed(p.1)
    ensures Overlaps(p) <==> Max(p.0.0, p.1.0) <= Min(p.0.1, p.1.1)
    ensures Overlaps(p) <==> exists x :: Contains(p.0, x) && Contains(p.1, x)
  {
    if Overlaps(p) {
      if Contains(p.1, p.0.0) {
        assert Contains(p.0, p.0.0) && Contains(p.1, p.0.0);
      } else if Contains(p.1, p.0.1) {
        assert Contains(p.0, p.0.1) && Contains(p.1, p.0.1);
      } else {
        // the fourth end cannot be the only one inside the other range
        assert Contains(p.0, p.1.0) && Contains(p.1, p.1.0);
      }
    }
  }

  /** Neither filter depends on the order of the two ranges. */
  lemma FiltersAreSymmetric(p: Pair)
    ensures FullyContains(Swap(p)) <==> FullyContains(p)
    ensures Overlaps(Swap(p)) <==> Overlaps(p)
  {
  }

  /** A pair that passes the `part1` filter passes the `part2` filter. */
  lemma ContainedOverlaps(p: Pair)
    ensures FullyContains(p) ==> Overlaps(p)
  {
  }

  // ---------------------------------------------------------------- counts

  /** `filter(..).count()`. */
  function Count(ps: seq<Pair>, keep: Pair -> bool): nat {
    if ps == [] then 0 else Count(ps[..|ps| - 1], keep) + (if keep(ps[|ps| - 1]) then 1 else 0)
  }

  /** A filter that keeps more pairs counts at least as many, and no filter
      counts more pairs than there are. */
  lemma {:induction false} CountMono(ps: seq<Pair>, keep: Pair -> bool, more: Pair -> bool)
    requires forall p :: keep(p) ==> more(p)
    ensures Count(ps, keep) <= Count(ps, more) <= |ps|
  {
    if ps != [] {
      CountMono(ps[..|ps| - 1], keep, more);
    }
  }

  function Part1(lines: seq<Fields>): Result<nat, RangeError> {
    match Ranges(lines)
    case Err(e) => Err(e)
    case Ok(ps) => Ok(Count(ps, FullyContains))
  }

  function Part2(lines: seq<Fields>): Result<nat, RangeError> {
    match Ranges(lines)
    case Err(e) => Err(e)
    case Ok(ps) => Ok(Count(ps, Overlaps))
  }

  /** Both parts fail on the same input; otherwise the part 1 count is at
      most the part 2 count, which is at most the number of lines. */
  lemma Part1AtMostPart2(lines: seq<Fields>)
    ensures Part1(lines).Err? <==> Part2(lines).Err?
    ensures Part1(lines).Ok? ==> Part1(lines).value <= Part2(lines).value <= |lines|
  {
    if Ranges(lines).Ok? {
      forall p ensures FullyContains(p) ==> Overlaps(p) {
        ContainedOverlaps(p);
      }
      CountMono(Ranges(lines).value, FullyContains, Overlaps);
    }
  }
}
