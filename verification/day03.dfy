/** Day 3: count the trees ('#') met on a slope through a map whose lines repeat
    to the right. The slope moves `step` columns right for every `down` lines. */
module Day03 {
  import opened Wrappers
  import opened Arith

  /** Every line has the same length `w`. */
  predicate Uniform(lines: seq<string>, w: nat)
  {
    forall k :: 0 <= k < |lines| ==> |lines[k]| == w
  }

  /** The `k`-th visit (`k >= 1`) reads line `k * down`. No visited line is empty. */
  ghost predicate VisitedNonEmpty(lines: seq<string>, down: nat)
  {
    forall k: nat :: 1 <= k && Scale(k, down) < |lines| ==> lines[Scale(k, down)] != []
  }

  /** Trees on the first `m` visits of a map of width `w`: the `k`-th visit reads
      line `k * down` at column `(k * step) mod w`. */
  function TreesUpTo(lines: seq<string>, step: nat, down: nat, w: nat, m: nat): nat
    requires w > 0 && Uniform(lines, w)
    requires m == 0 || Scale(m, down) < |lines|
  {
    if m == 0 then 0
    else
      ScaleMono(m - 1, m, down);
      TreesUpTo(lines, step, down, w, m - 1) + TreeAt(lines[Scale(m, down)], Scale(m, step))
  }

  /** 1 when `line`, repeated to the right, has a tree at column `index`. */
  function TreeAt(line: string, index: nat): nat
    requires |line| > 0
  {
    if line[index % |line|] == '#' then 1 else 0
  }

  /** The trees on the first `m` visits are at most `m`. */
  lemma {:induction false} TreesUpToBound(lines: seq<string>, step: nat, down: nat, w: nat, m: nat)
    requires w > 0 && Uniform(lines, w)
    requires m == 0 || Scale(m, down) < |lines|
    ensures TreesUpTo(lines, step, down, w, m) <= m
  {
    if m > 0 {
      ScaleMono(m - 1, m, down);
      TreesUpToBound(lines, step, down, w, m - 1);
    }
  }

  /** `solve`: visits lines `down`, `2 * down`, ... and counts those with a tree
      at the current column; the column starts at `step`, is reduced modulo the
      line's length before the lookup, and grows by `step` after it.
      `step_by(0)` panics, and so does `% 0` on an empty visited line: both are
      `None`. On a map whose lines all have one positive width the count is
      `TreesUpTo` over every visit. */
  method Solve(lines: seq<string>, step: nat, down: nat) returns (r: Option<nat>)
    ensures r.None? <==> down == 0 || !VisitedNonEmpty(lines, down)
    ensures r.Some? ==> r.value == 0 || Scale(r.value, down) < |lines|
    ensures r.Some? && |lines| > 0 && Uniform(lines, |lines[0]|) && |lines[0]| > 0 ==>
      exists m: nat :: (m == 0 || Scale(m, down) < |lines|) && Scale(m + 1, down) >= |lines| &&
        r.value == TreesUpTo(lines, step, down, |lines[0]|, m)
  {
    if down == 0 {
      assert Scale(1, 0) == 0;
      return None;
    }
    var uniform := |lines| > 0 && Uniform(lines, |lines[0]|) && |lines[0]| > 0;
    var w := if uniform then |lines[0]| else 1;
    var index: nat := step;
    var trees: nat := 0;
    var row: nat := down;
    ghost var k: nat := 1;
    assert Scale(1, down) == down && Scale(1, step) == step;
    while row < |lines|
      invariant row == Scale(k, down) && k >= 1
      invariant k == 1 || Scale(k - 1, down) < |lines|
      invariant forall k': nat :: 1 <= k' < k && Scale(k', down) < |lines| ==> lines[Scale(k', down)] != []
      invariant trees <= k - 1
      invariant uniform ==> index % w == Scale(k, step) % w
      invariant uniform ==> trees == TreesUpTo(lines, step, down, w, k - 1)
      decreases |lines| - row
    {
      var line := lines[row];
      if |line| == 0 {
        return None;
      }
      if uniform {
        assert |line| == w;
        ModAdd(Scale(k, step), step, w);
      }
      trees := trees + TreeAt(line, index);
      index := index % |line| + step;
      forall k': nat | 1 <= k' < k + 1 && Scale(k', down) < |lines|
        ensures lines[Scale(k', down)] != []
      {
      }
      row := row + down;
      k := k + 1;
    }
    forall k': nat | 1 <= k' && Scale(k', down) < |lines|
      ensures lines[Scale(k', down)] != []
    {
      if k' >= k {
        ScaleMono(k, k', down);
      }
    }
    if trees > 0 {
      ScaleMono(trees, k - 1, down);
    }
    return Some(trees);
  }

  /** The visited lines are exactly the positive multiples of `down`. */
  lemma VisitedAreMultiples(lines: seq<string>, down: nat)
    requires down > 0
    ensures VisitedNonEmpty(lines, down) <==>
      forall j :: 0 < j < |lines| && j % down == 0 ==> lines[j] != []
  {
    if VisitedNonEmpty(lines, down) {
      forall j | 0 < j < |lines| && j % down == 0
        ensures lines[j] != []
      {
        ScaleMultiple(j, down);
        var k: nat :| k <= j && Scale(k, down) == j;
      }
    } else {
      var k: nat :| 1 <= k && Scale(k, down) < |lines| && lines[Scale(k, down)] == [];
      var j := Scale(k, down);
      ScaleMono(1, k, down);
      assert Scale(1, down) == down;
      ScaleAtLeast(k, down);
      ScaleMultiple(j, down);
    }
  }
}
