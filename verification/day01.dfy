/** Day 1: find two (part 1) and three (part 2) expense entries summing to 2020
    and multiply them. Lines have already been split off the input; the entries
    are sorted before either search runs. */
module Day01 {
  import opened Wrappers
  import opened Decimal
  import opened Sorting

  const TARGET: int := 2020

  /** `parse_ints`: one `i64` per line; a line that is not an `i64` panics. */
  function ParseInts(lines: seq<string>): (r: Option<seq<int>>)
    ensures r.Some? ==> |r.value| == |lines|
    ensures r.Some? <==> forall k :: 0 <= k < |lines| ==> ParseSigned(lines[k], I64_LIMIT).Some?
    ensures r.Some? ==> forall k :: 0 <= k < |lines| ==> Some(r.value[k]) == ParseSigned(lines[k], I64_LIMIT)
  {
    if lines == [] then Some([])
    else
      match ParseSigned(lines[0], I64_LIMIT)
      case None => None
      case Some(v) =>
        match ParseInts(lines[1..])
        case None => None
        case Some(rest) => Some([v] + rest)
  }

  function ShowLines(xs: seq<int>): (lines: seq<string>)
    ensures |lines| == |xs|
  {
    if xs == [] then [] else [ShowInt(xs[0])] + ShowLines(xs[1..])
  }

  /** Printing every entry on its own line and parsing the lines back gives the entries. */
  lemma {:induction false} ParseShowLines(xs: seq<int>)
    requires forall k :: 0 <= k < |xs| ==> -(I64_LIMIT as int) <= xs[k] < I64_LIMIT
    ensures ParseInts(ShowLines(xs)) == Some(xs)
  {
    if xs != [] {
      ParseShowInt(xs[0], I64_LIMIT);
      ParseShowLines(xs[1..]);
      ParseIntsCons(xs[0], ShowInt(xs[0]), ShowLines(xs[1..]), xs[1..]);
      assert xs == [xs[0]] + xs[1..];
    }
  }

  lemma ParseIntsCons(v: int, line: string, rest: seq<string>, vs: seq<int>)
    requires ParseSigned(line, I64_LIMIT) == Some(v) && ParseInts(rest) == Some(vs)
    ensures ParseInts([line] + rest) == Some([v] + vs)
  {
    assert ([line] + rest)[1..] == rest;
  }

  /** Positions `s` and `e` (not necessarily distinct) hold entries summing to 2020. */
  predicate PairAt(numbers: seq<int>, s: int, e: int)
  {
    0 <= s < |numbers| && 0 <= e < |numbers| && numbers[s] + numbers[e] == TARGET
  }

  /** `part1`: two pointers moving inwards from both ends. An empty list underflows
      `len - 1`, and a pointer that walks off either end indexes out of bounds:
      both panic, modelled as `None`. Nothing keeps `start < end`, so an entry of
      1010 may be paired with itself. */
  method Part1(numbers: seq<int>) returns (r: Option<int>)
    ensures r.Some? ==> exists s, e :: PairAt(numbers, s, e) && r.value == numbers[s] * numbers[e]
    ensures Sorted(numbers) && (exists s, e :: s <= e && PairAt(numbers, s, e)) ==> r.Some?
  {
    if |numbers| == 0 {
      return None;
    }
    var start: int := 0;
    var end: int := |numbers| - 1;
    while true
      invariant 0 <= start && end < |numbers|
      invariant Sorted(numbers) ==>
        forall i, j :: i <= j && PairAt(numbers, i, j) ==> start <= i && j <= end
      decreases |numbers| - start + end
    {
      if start >= |numbers| || end < 0 {
        return None;
      }
      var sum := numbers[start] + numbers[end];
      if sum > TARGET {
        if end == 0 {
          return None;
        }
        end := end - 1;
      } else if sum < TARGET {
        start := start + 1;
      } else {
        return Some(numbers[start] * numbers[end]);
      }
    }
  }

  /** Positions `i < k < j` hold entries summing to 2020. */
  predicate TripleAt(numbers: seq<int>, i: int, k: int, j: int)
  {
    0 <= i < k < j < |numbers| && numbers[i] + numbers[k] + numbers[j] == TARGET
  }

  /** Some middle position completes a triple around `i` and `j`. */
  predicate Closes(numbers: seq<int>, i: int, j: int)
  {
    exists k :: i < k < j && TripleAt(numbers, i, k, j)
  }

  /** `part2`: for each `i`, scan `j` upwards, remembering the entries strictly
      between `i` and `j`; the first `(i, j)` whose missing third entry was seen
      gives the product. `0..len - 1` underflows on an empty list (`None`); the
      result is 0 when no triple exists. */
  method Part2(numbers: seq<int>) returns (r: Option<int>)
    ensures r.None? <==> |numbers| == 0
    ensures r.Some? && (exists i, j :: Closes(numbers, i, j)) ==>
      exists i, k, j :: TripleAt(numbers, i, k, j) && r.value == numbers[i] * numbers[j] * numbers[k]
        && forall i', j' :: Closes(numbers, i', j') ==> i < i' || (i == i' && j <= j')
    ensures r.Some? && !(exists i, j :: Closes(numbers, i, j)) ==> r.value == 0
  {
    if |numbers| == 0 {
      return None;
    }
    var i := 0;
    while i < |numbers| - 1
      invariant 0 <= i <= |numbers|
      invariant forall i', j' :: Closes(numbers, i', j') ==> i <= i'
    {
      var cache: set<int> := {};
      var j := i + 1;
      while j < |numbers|
        invariant i + 1 <= j <= |numbers|
        invariant cache == set k | i < k < j :: numbers[k]
        invariant forall j' :: Closes(numbers, i, j') ==> j <= j'
      {
        var lookingFor := TARGET - numbers[i] - numbers[j];
        if lookingFor in cache {
          var k :| i < k < j && numbers[k] == lookingFor;
          assert TripleAt(numbers, i, k, j);
          assert Closes(numbers, i, j);
          return Some(numbers[i] * numbers[j] * lookingFor);
        }
        assert !Closes(numbers, i, j);
        cache := cache + {numbers[j]};
        j := j + 1;
      }
      i := i + 1;
    }
    return Some(0);
  }
}
