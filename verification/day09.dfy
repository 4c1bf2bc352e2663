/** Day 9: the XMAS cipher. A number is valid when two distinct entries of the
    window of `preamble` numbers before it sum to it; the weakness is a
    contiguous run of numbers that sums to the first invalid number. */
module Day09 {
  import opened Wrappers
  import opened Sorting

  /** Two distinct positions of `s` sum to `target`. */
  predicate HasPair(s: seq<int>, target: int)
  {
    exists i, j :: 0 <= i < j < |s| && s[i] + s[j] == target
  }

  /** `pair_exists`: two pointers walking inwards over `numbers`, which the
      caller sorts. `numbers.len() - 1` underflows on an empty list (`None`).
      On an ascending list the answer is exactly `HasPair`; whatever the order,
      a `true` answer is a genuine pair. */
  method PairExists(numbers: seq<int>, number: int) returns (r: Option<bool>)
    ensures r.None? <==> |numbers| == 0
    ensures r == Some(true) ==> HasPair(numbers, number)
    ensures r.Some? && Sorted(numbers) ==> (r.value <==> HasPair(numbers, number))
  {
    if |numbers| == 0 {
      return None;
    }
    var start: nat := 0;
    var end: nat := |numbers| - 1;
    while start != end
      invariant start <= end < |numbers|
      invariant Sorted(numbers) ==> forall i, j :: 0 <= i < j < |numbers| && numbers[i] + numbers[j] == number ==>
        start <= i && j <= end
      decreases end - start
    {
      var sum := numbers[start] + numbers[end];
      if sum > number {
        end := end - 1;
      } else if sum < number {
        start := start + 1;
      } else {
        return Some(true);
      }
    }
    return Some(false);
  }

  /** Sum of `numbers[s..e]`. */
  function WindowSum(numbers: seq<nat>, s: nat, e: nat): nat
    requires s <= e <= |numbers|
    decreases e
  {
    if s == e then 0 else WindowSum(numbers, s, e - 1) + numbers[e - 1]
  }

  /** Peeling the first element off a window. */
  lemma {:induction false} WindowSumFront(numbers: seq<nat>, s: nat, e: nat)
    requires s < e <= |numbers|
    ensures WindowSum(numbers, s, e) == numbers[s] + WindowSum(numbers, s + 1, e)
    decreases e
  {
    if s + 1 < e {
      WindowSumFront(numbers, s, e - 1);
    }
  }

  /** Dropping elements from the front of a window never raises its sum. */
  lemma {:induction false} WindowSumShrink(numbers: seq<nat>, s: nat, s': nat, e: nat)
    requires s <= s' <= e <= |numbers|
    ensures WindowSum(numbers, s', e) <= WindowSum(numbers, s, e)
    decreases s' - s
  {
    if s < s' {
      WindowSumFront(numbers, s, e);
      WindowSumShrink(numbers, s + 1, s', e);
    }
  }

  /** A non-empty window `[s, e)` summing to `search`. */
  predicate WindowAt(numbers: seq<nat>, search: nat, s: nat, e: nat)
  {
    s < e <= |numbers| && WindowSum(numbers, s, e) == search
  }

  /** Some non-empty window ending strictly before index `bound` sums to `search`. */
  predicate WindowBefore(numbers: seq<nat>, search: nat, bound: nat)
  {
    exists s: nat, e: nat :: s < e < bound && WindowAt(numbers, search, s, e)
  }

  function Min(a: nat, b: nat): nat
  {
    if a <= b then a else b
  }

  /** `find_subset` with the loop `for i in 1..bound`: a sliding window
      `[start, i)` that sheds elements from the front while its sum is too
      large (keeping at least one element), is checked against `search`, then
      takes in `numbers[i]`. Reading `numbers[0]`, or `numbers[i]` past the end,
      panics, and so does running out of windows: all `None`. The answer is a
      window with the smallest possible end, and `None` means there is no window
      ending before `bound` (and before the end of the list). */
  method FindSubset(numbers: seq<nat>, search: nat, bound: nat) returns (r: Option<(nat, nat)>)
    ensures r.Some? ==> r.value.1 < bound && WindowAt(numbers, search, r.value.0, r.value.1)
    ensures r.Some? ==> !WindowBefore(numbers, search, r.value.1)
    ensures r.Some? ==> forall s: nat :: s < r.value.0 ==> !WindowAt(numbers, search, s, r.value.1)
    ensures r.None? <==> |numbers| == 0 || !WindowBefore(numbers, search, Min(bound, |numbers| + 1))
  {
    if |numbers| == 0 {
      return None;
    }
    var current: nat := numbers[0];
    var start: nat := 0;
    var i: nat := 1;
    while i < bound
      invariant start < i <= |numbers|
      invariant bound >= 1 ==> i <= bound
      invariant current == WindowSum(numbers, start, i)
      invariant forall s: nat :: s < start ==> WindowSum(numbers, s, i) > search
      invariant forall s: nat, e: nat :: e < i ==> !WindowAt(numbers, search, s, e)
    {
      while current > search && start < i - 1
        invariant start < i
        invariant current == WindowSum(numbers, start, i)
        invariant forall s: nat :: s < start ==> WindowSum(numbers, s, i) > search
      {
        WindowSumFront(numbers, start, i);
        current := current - numbers[start];
        start := start + 1;
      }
      if current == search {
        assert WindowAt(numbers, search, start, i);
        return Some((start, i));
      }
      forall s: nat
        ensures !WindowAt(numbers, search, s, i)
      {
        if start <= s < i {
          WindowSumShrink(numbers, start, s, i);
        }
      }
      if i >= |numbers| {
        return None;
      }
      current := current + numbers[i];
      i := i + 1;
    }
    return None;
  }

  /** `find_subset` as written: the loop stops before `position`, so the
      windows ending just before the invalid number are never checked. */
  method FindSubsetAsWritten(numbers: seq<nat>, search: nat, position: nat) returns (r: Option<(nat, nat)>)
    requires position < |numbers|
    ensures r.Some? ==> r.value.1 < position && WindowAt(numbers, search, r.value.0, r.value.1)
    ensures r.Some? ==> forall s: nat :: s < r.value.0 ==> !WindowAt(numbers, search, s, r.value.1)
    ensures r.None? <==> !WindowBefore(numbers, search, position)
  {
    r := FindSubset(numbers, search, position);
  }

  /** On `[1, 2, 3, 5]`, where 5 at position 3 is the invalid number, the window
      `[1, 3)` sums to 5 but ends at the position, and no earlier window does. */
  lemma AsWrittenMissesLastWindow()
    ensures WindowAt([1, 2, 3, 5], 5, 1, 3)
    ensures !WindowBefore([1, 2, 3, 5], 5, 3)
  {
    var n: seq<nat> := [1, 2, 3, 5];
    assert WindowSum(n, 1, 2) == 2;
    forall s: nat, e: nat | e < 3
      ensures !WindowAt(n, 5, s, e)
    {
      if e == 1 {
        assert WindowSum(n, 0, 1) == 1;
      } else if e == 2 {
        assert WindowSum(n, 0, 2) == 3;
      }
    }
  }

  /** The search for 5 below position 3 of `[1, 2, 3, 5]`: as written it finds
      nothing, while the corrected search finds the window `[1, 3)`. */
  method AsWrittenMissesExample() returns (asWritten: Option<(nat, nat)>, intended: Option<(nat, nat)>)
    ensures asWritten.None?
    ensures intended == Some((1, 3))
  {
    var n: seq<nat> := [1, 2, 3, 5];
    AsWrittenMissesLastWindow();
    asWritten := FindSubsetAsWritten(n, 5, 3);
    intended := FindWeakWindow(n, 5, 3);
    assert WindowSum(n, 2, 3) == 3 && WindowSum(n, 1, 3) == 5 && WindowSum(n, 0, 3) == 6;
  }

  /** The weakness search as intended: every window ending at or before the
      invalid number's position is a candidate. */
  method FindWeakWindow(numbers: seq<nat>, search: nat, position: nat) returns (r: Option<(nat, nat)>)
    requires position < |numbers|
    ensures r.Some? ==> r.value.1 <= position && WindowAt(numbers, search, r.value.0, r.value.1)
    ensures r.Some? ==> !WindowBefore(numbers, search, r.value.1)
    ensures r.Some? ==> forall s: nat :: s < r.value.0 ==> !WindowAt(numbers, search, s, r.value.1)
    ensures r.None? <==> !exists s: nat, e: nat :: e <= position && WindowAt(numbers, search, s, e)
  {
    r := FindSubset(numbers, search, position + 1);
  }

  /** The window of `preamble` numbers before position `p` has a pair summing
      to `numbers[p]`. */
  predicate ValidAt(numbers: seq<nat>, preamble: nat, p: nat)
    requires preamble <= p < |numbers|
  {
    HasPair(numbers[p - preamble..p], numbers[p])
  }

  /** `find_invalid`: slides a window of `preamble` numbers and returns the
      first following number that is not a sum of two of them, with its
      position. `windows(0)` panics, and so do reading past the end after the
      last window and finding nothing: `None`. */
  method FindInvalid(numbers: seq<nat>, preamble: nat) returns (r: Option<(nat, nat)>)
    ensures r.Some? ==> preamble <= r.value.1 < |numbers| && r.value.0 == numbers[r.value.1]
    ensures r.Some? ==> !ValidAt(numbers, preamble, r.value.1)
    ensures r.Some? ==> forall p :: preamble <= p < r.value.1 ==> ValidAt(numbers, preamble, p)
    ensures r.None? <==> preamble == 0 || forall p :: preamble <= p < |numbers| ==> ValidAt(numbers, preamble, p)
  {
    if preamble == 0 {
      return None;
    }
    var p := preamble;
    while p < |numbers|
      invariant preamble <= p
      invariant forall q :: preamble <= q < p && q < |numbers| ==> ValidAt(numbers, preamble, q)
    {
      var valid := CheckAt(numbers, preamble, p);
      if !valid {
        return Some((numbers[p], p));
      }
      p := p + 1;
    }
    return None;
  }

  /** One step of the slide: sort the window and ask `pair_exists`. */
  method CheckAt(numbers: seq<nat>, preamble: nat, p: nat) returns (valid: bool)
    requires 0 < preamble <= p < |numbers|
    ensures valid <==> ValidAt(numbers, preamble, p)
  {
    var window: seq<int> := numbers[p - preamble..p];
    var sorted := Sort(window);
    var found := PairExists(sorted, numbers[p]);
    SortKeepsPairs(window, sorted, numbers[p]);
    valid := found.value;
  }

  /** Pairs at two distinct positions, stated on the multiset of values. */
  predicate MultisetPair(m: multiset<int>, target: int)
  {
    exists a, b :: a in m && b in m && a + b == target && (a != b || m[a] >= 2)
  }

  /** Whether a list has a pair depends only on its values, not their order;
      so sorting before `pair_exists` keeps the answer. */
  lemma HasPairMultiset(s: seq<int>, target: int)
    ensures HasPair(s, target) <==> MultisetPair(multiset(s), target)
  {
    if HasPair(s, target) {
      var i, j :| 0 <= i < j < |s| && s[i] + s[j] == target;
      assert s[i] in multiset(s) && s[j] in multiset(s);
      if s[i] == s[j] {
        CountTwo(s, i, j);
      }
    }
    if MultisetPair(multiset(s), target) {
      var a, b :| a in multiset(s) && b in multiset(s) && a + b == target && (a != b || multiset(s)[a] >= 2);
      if a != b {
        var i :| 0 <= i < |s| && s[i] == a;
        var j :| 0 <= j < |s| && s[j] == b;
        if i < j {
          assert s[i] + s[j] == target;
        } else {
          assert s[j] + s[i] == target;
        }
      } else {
        TwoPositions(s, a);
      }
    }
  }

  lemma SortKeepsPairs(s: seq<int>, sorted: seq<int>, target: int)
    requires multiset(sorted) == multiset(s)
    ensures HasPair(sorted, target) <==> HasPair(s, target)
  {
    HasPairMultiset(sorted, target);
    HasPairMultiset(s, target);
  }

  lemma CountTwo(s: seq<int>, i: nat, j: nat)
    requires i < j < |s| && s[i] == s[j]
    ensures multiset(s)[s[i]] >= 2
  {
    assert s == s[..j] + s[j..];
    assert s[i] == s[..j][i];
    assert s[j] == s[j..][0];
  }

  lemma {:induction false} TwoPositions(s: seq<int>, a: int)
    requires multiset(s)[a] >= 2
    ensures exists i, j :: 0 <= i < j < |s| && s[i] == a && s[j] == a
  {
    assert s == [s[0]] + s[1..];
    if s[0] == a {
      assert a in multiset(s[1..]);
      var j :| 0 <= j < |s[1..]| && s[1..][j] == a;
      assert s[0] == a && s[j + 1] == a;
    } else {
      TwoPositions(s[1..], a);
      var i, j :| 0 <= i < j < |s[1..]| && s[1..][i] == a && s[1..][j] == a;
      assert s[i + 1] == a && s[j + 1] == a;
    }
  }

  /** The weakness: the smallest plus the largest number of the window, which
      `main` reads off the ends of the sorted window. */
  function Weakness(window: seq<int>): (r: int)
    requires |window| > 0
    ensures exists a, b :: (a in window && b in window && r == a + b &&
      forall x :: x in window ==> a <= x <= b)
  {
    var sorted := Sort(window);
    SortedEnds(window, sorted);
    sorted[0] + sorted[|sorted| - 1]
  }

  lemma SortedEnds(window: seq<int>, sorted: seq<int>)
    requires |window| > 0 && Sorted(sorted) && multiset(sorted) == multiset(window)
    ensures |sorted| > 0 && sorted[0] in window && sorted[|sorted| - 1] in window
    ensures forall x :: x in window ==> sorted[0] <= x <= sorted[|sorted| - 1]
  {
    assert |sorted| == |multiset(window)| == |window|;
    assert sorted[0] in multiset(sorted) && sorted[|sorted| - 1] in multiset(sorted);
    forall x | x in window
      ensures sorted[0] <= x <= sorted[|sorted| - 1]
    {
      assert x in multiset(sorted);
      var k :| 0 <= k < |sorted| && sorted[k] == x;
    }
  }
}
