/** Day 10: the adapter chain. Joltages are framed by the outlet (0) and the
    device (the largest adapter plus 3); part 1 multiplies the numbers of
    1-jolt and 3-jolt gaps, part 2 counts the arrangements in which every
    step rises by at most 3. */
module Day10 {
  import opened Wrappers
  import opened Seqs
  import opened Sorting

  /** Every element is at most every later one. */
  predicate Ascending(numbers: seq<int>)
  {
    forall a, b :: 0 <= a < b < |numbers| ==> numbers[a] <= numbers[b]
  }

  /** The differences of neighbouring elements. */
  function Gaps(numbers: seq<int>): (g: seq<int>)
    ensures |g| == if |numbers| < 2 then 0 else |numbers| - 1
    ensures forall k :: 0 <= k < |g| ==> g[k] == numbers[k + 1] - numbers[k]
    decreases |numbers|
  {
    if |numbers| < 2 then [] else [numbers[1] - numbers[0]] + Gaps(numbers[1..])
  }

  /** How many of `gaps` equal `d`. */
  function GapCount(gaps: seq<int>, d: int): nat
  {
    if gaps == [] then 0
    else GapCount(gaps[..|gaps| - 1], d) + (if gaps[|gaps| - 1] == d then 1 else 0)
  }

  lemma GapCountSnoc(gaps: seq<int>, k: nat, d: int)
    requires k < |gaps|
    ensures GapCount(gaps[..k + 1], d) == GapCount(gaps[..k], d) + (if gaps[k] == d then 1 else 0)
  {
    assert gaps[..k + 1][..k] == gaps[..k];
  }

  /** `part1`: over every pair of neighbours, counts the differences of 1 and
      of 3 and multiplies the two counts. A `usize` difference that would be
      negative panics (`None`). */
  method Part1(numbers: seq<nat>) returns (r: Option<nat>)
    ensures r.None? <==> exists k :: 0 <= k < |Gaps(numbers)| && Gaps(numbers)[k] < 0
    ensures r.Some? ==> r.value == GapCount(Gaps(numbers), 1) * GapCount(Gaps(numbers), 3)
  {
    ghost var gaps := Gaps(numbers);
    var ones: nat, threes: nat := 0, 0;
    var n := if |numbers| < 2 then 0 else |numbers| - 1;
    for k := 0 to n
      invariant forall j :: 0 <= j < k ==> gaps[j] >= 0
      invariant ones == GapCount(gaps[..k], 1) && threes == GapCount(gaps[..k], 3)
    {
      var d := numbers[k + 1] as int - numbers[k] as int;
      assert d == gaps[k];
      if d < 0 {
        assert 0 <= k < |Gaps(numbers)| && Gaps(numbers)[k] < 0;
        return None;
      }
      ones, threes := CountGap(gaps, k, d, ones, threes);
    }
    assert gaps[..|gaps|] == gaps;
    assert ones == GapCount(gaps, 1) && threes == GapCount(gaps, 3);
    return Some(ones * threes);
  }

  /** One gap of the `part1` loop: a 1 or a 3 bumps its counter. */
  method CountGap(ghost gaps: seq<int>, k: nat, d: int, ones: nat, threes: nat) returns (ones': nat, threes': nat)
    requires k < |gaps| && d == gaps[k]
    requires ones == GapCount(gaps[..k], 1) && threes == GapCount(gaps[..k], 3)
    ensures ones' == GapCount(gaps[..k + 1], 1) && threes' == GapCount(gaps[..k + 1], 3)
  {
    GapCountSnoc(gaps, k, 1);
    GapCountSnoc(gaps, k, 3);
    ones', threes' := ones, threes;
    if d == 1 {
      ones' := ones + 1;
    } else if d == 3 {
      threes' := threes + 1;
    }
  }

  /** A gap is counted as a 1 or as a 3, never both: the two counts together
      are at most the number of gaps. */
  lemma {:induction false} GapCountsBound(gaps: seq<int>)
    ensures GapCount(gaps, 1) + GapCount(gaps, 3) <= |gaps|
  {
    if gaps != [] {
      GapCountsBound(gaps[..|gaps| - 1]);
    }
  }

  /** The `take_while` count of the first pass, scanning from index `j` after
      position `i`: elements at most 3 above `numbers[i]` are counted up to the
      first one more than 3 above it. An element below `numbers[i]` met on the
      way makes the `usize` subtraction panic (`None`). */
  function ReachFrom(numbers: seq<int>, i: nat, j: nat): (r: Option<nat>)
    requires i < j <= |numbers|
    ensures r.Some? ==> j + r.value <= |numbers|
    ensures r.Some? ==> forall k :: j <= k < j + r.value ==> numbers[i] <= numbers[k] <= numbers[i] + 3
    ensures r.Some? && j + r.value < |numbers| ==> numbers[j + r.value] > numbers[i] + 3
    ensures r.None? ==> exists k :: j <= k < |numbers| && numbers[k] < numbers[i]
    ensures Ascending(numbers) ==> r.Some?
    decreases |numbers| - j
  {
    if j == |numbers| then Some(0)
    else if numbers[j] < numbers[i] then None
    else if numbers[j] - numbers[i] <= 3 then
      match ReachFrom(numbers, i, j + 1)
      case None => None
      case Some(c) => Some(c + 1)
    else Some(0)
  }

  /** The number of adapters reachable from position `i`. */
  function Reach(numbers: seq<int>, i: nat): (r: Option<nat>)
    requires i < |numbers|
    ensures r.Some? ==> i + 1 + r.value <= |numbers|
  {
    ReachFrom(numbers, i, i + 1)
  }

  /** The arrangements from position `i` to the last position: chains of
      increasing positions whose every step rises by at most 3. */
  function Paths(numbers: seq<int>, i: nat): int
    requires i < |numbers|
    decreases |numbers| - i, |numbers| - i
  {
    if i == |numbers| - 1 then 1 else PathsVia(numbers, i, i + 1)
  }

  /** The arrangements from position `i` whose next step is at `j` or later. */
  function PathsVia(numbers: seq<int>, i: nat, j: nat): int
    requires i < j <= |numbers|
    decreases |numbers| - i, |numbers| - j
  {
    if j == |numbers| then 0
    else (if numbers[j] - numbers[i] <= 3 then Paths(numbers, j) else 0) + PathsVia(numbers, i, j + 1)
  }

  /** Beyond a step of more than 3 no further step fits, on ascending input. */
  lemma {:induction false} PathsViaBeyond(numbers: seq<int>, i: nat, j: nat)
    requires Ascending(numbers) && i < j <= |numbers|
    requires j < |numbers| ==> numbers[j] > numbers[i] + 3
    ensures PathsVia(numbers, i, j) == 0
    decreases |numbers| - j
  {
    if j < |numbers| {
      if j + 1 < |numbers| {
        assert numbers[j] <= numbers[j + 1];
      }
      PathsViaBeyond(numbers, i, j + 1);
    }
  }

  /** The block the second pass sums is exactly the arrangements via `j` onwards. */
  lemma {:induction false} BlockSum(numbers: seq<int>, ways: seq<int>, i: nat, j: nat, c: nat)
    requires Ascending(numbers) && |ways| == |numbers|
    requires i < |numbers| && i < j <= i + 1 + c && Reach(numbers, i) == Some(c)
    requires forall k :: i < k < |numbers| ==> ways[k] == Paths(numbers, k)
    ensures Sum(ways[j..i + 1 + c]) == PathsVia(numbers, i, j)
    decreases i + 1 + c - j
  {
    var e := i + 1 + c;
    if j == e {
      PathsViaBeyond(numbers, i, j);
    } else {
      BlockSum(numbers, ways, i, j + 1, c);
      assert ways[j..e][1..] == ways[j + 1..e];
    }
  }

  /** `part2`: a first pass replaces every element by its reach, the last by 1,
      and a backward pass replaces each element by the sum of the next
      `reach` elements. `numbers.len() - 1` underflows on an empty list, and the
      first pass can panic on unsorted input: `None`. On ascending input the
      answer is the number of arrangements. */
  method Part2(numbers: seq<int>) returns (r: Option<int>)
    ensures r.None? <==> |numbers| == 0 || exists i :: 0 <= i < |numbers| && Reach(numbers, i).None?
    ensures |numbers| > 0 && Ascending(numbers) ==> r == Some(Paths(numbers, 0))
  {
    if |numbers| == 0 {
      return None;
    }
    var last := |numbers| - 1;
    // First pass. The reach of position `i` reads only positions after `i`,
    // which still hold their original values.
    var v := numbers;
    for i := 0 to |numbers|
      invariant |v| == |numbers|
      invariant forall k :: 0 <= k < i ==> v[k] >= 0 && Reach(numbers, k) == Some(v[k] as nat)
      invariant forall k :: i <= k < |numbers| ==> v[k] == numbers[k]
    {
      var c := Reach(numbers, i);
      if c.None? {
        return None;
      }
      v := v[i := c.value];
    }
    ghost var reach := v;
    v := v[last := 1];
    var i := last;
    while i > 0
      invariant 0 <= i <= last && |v| == |numbers|
      invariant forall k :: 0 <= k < i ==> v[k] == reach[k]
      invariant Ascending(numbers) ==> forall k :: i <= k < |numbers| ==> v[k] == Paths(numbers, k)
    {
      i := i - 1;
      var c := v[i] as nat;
      if Ascending(numbers) {
        BlockSum(numbers, v, i, i + 1, c);
      }
      v := v[i := Sum(v[i + 1..i + 1 + c])];
    }
    return Some(v[0]);
  }

  /** The framing in `main`: the outlet 0 is added, the list is sorted, and the
      device at the largest value plus 3 goes last. */
  function Frame(adapters: seq<nat>): (r: seq<int>)
    ensures |r| == |adapters| + 2 && Ascending(r)
    ensures multiset(r[..|r| - 1]) == multiset([0] + adapters)
    ensures forall k :: 0 <= k < |r| - 1 ==> r[k] <= r[|r| - 1] - 3
    ensures r[0] == 0
    ensures r[|r| - 1] == r[|r| - 2] + 3
  {
    var sorted := Sort([0] + adapters);
    var r := sorted + [sorted[|sorted| - 1] + 3];
    assert r[..|r| - 1] == sorted;
    FrameStartsAtZero(adapters, sorted);
    r
  }

  lemma FrameStartsAtZero(adapters: seq<nat>, sorted: seq<int>)
    requires Sorted(sorted) && multiset(sorted) == multiset([0] + adapters)
    ensures |sorted| > 0 && sorted[0] == 0
  {
    assert 0 in multiset(sorted);
    assert sorted[0] in multiset([0] + adapters);
  }
}
