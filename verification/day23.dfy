/** Day 23: crab cups. Cups labelled by the digits of the input stand in a
    circle; each move picks up the three cups after the current one, puts
    them back after the destination cup (the next lower label that was not
    picked up, wrapping to the highest) and advances the current cup.
    Part 1 plays 100 moves on a double-ended queue whose front is the current
    cup; part 2 extends the circle to a million cups and plays ten million
    moves on a successor array, where `link[x]` is the cup after `x`. */
module Day23 {
  import opened Wrappers
  import opened Decimal
  import opened Arith

  const MOVES_PART1: nat := 100
  const CUPS: nat := 1_000_000
  const MOVES_PART2: nat := 10_000_000

  // ---------------------------------------------------------------- input

  /** The labels: every character of the input that parses as a `usize` on
      its own, which is exactly the ASCII digits, in order. */
  function Labels(input: string): (cups: seq<nat>)
    ensures |cups| <= |input|
    ensures forall k :: 0 <= k < |cups| ==> cups[k] < 10
  {
    if input == [] then []
    else (if IsDigit(input[0]) then [DigitValue(input[0])] else []) + Labels(input[1..])
  }

  function ShowLabels(cups: seq<nat>): string
    requires forall k :: 0 <= k < |cups| ==> cups[k] < 10
  {
    if cups == [] then [] else [DigitChar(cups[0])] + ShowLabels(cups[1..])
  }

  /** Writing the labels as digits, followed by anything without digits (a
      line break), reads back the same labels. */
  lemma {:induction false} LabelsShow(cups: seq<nat>, tail: string)
    requires forall k :: 0 <= k < |cups| ==> cups[k] < 10
    requires forall k :: 0 <= k < |tail| ==> !IsDigit(tail[k])
    ensures Labels(ShowLabels(cups) + tail) == cups
  {
    if cups == [] {
      assert ShowLabels(cups) + tail == tail;
      TailLabels(tail);
    } else {
      var rest := ShowLabels(cups[1..]) + tail;
      assert ShowLabels(cups) + tail == [DigitChar(cups[0])] + rest;
      LabelsShow(cups[1..], tail);
      LabelsCons(DigitChar(cups[0]), rest);
      assert cups == [cups[0]] + cups[1..];
    }
  }

  lemma LabelsCons(c: char, s: string)
    requires IsDigit(c)
    ensures Labels([c] + s) == [DigitValue(c)] + Labels(s)
  {
    assert ([c] + s)[1..] == s;
  }

  lemma {:induction false} TailLabels(tail: string)
    requires forall k :: 0 <= k < |tail| ==> !IsDigit(tail[k])
    ensures Labels(tail) == []
  {
    if tail != [] {
      TailLabels(tail[1..]);
    }
  }

  // --------------------------------------------------------- the circle

  predicate Distinct(s: seq<nat>)
  {
    forall i, j :: 0 <= i < j < |s| ==> s[i] != s[j]
  }

  /** The position after `i` in a circle of `n` positions: `(i + 1) % n`. */
  function Succ(i: nat, n: nat): nat
  {
    if i + 1 < n then i + 1 else 0
  }

  /** `order` lists the labels `1..|order|` once each, going round the circle,
      and `link` sends every label to the one after it. */
  predicate Ring(link: seq<nat>, order: seq<nat>)
  {
    && |order| >= 1 && |link| == |order| + 1
    && Distinct(order)
    && (forall i :: 0 <= i < |order| ==> 1 <= order[i] < |link|)
    && (forall v :: 1 <= v < |link| ==> v in order)
    && forall i {:trigger link[order[i]]} :: 0 <= i < |order| ==> link[order[i]] == order[Succ(i, |order|)]
  }

  /** The `k`-th label below `current` counting down round the labels
      `1..size`: where the destination search is after `k` steps. */
  function Walk(current: nat, size: nat, k: nat): nat
  {
    if k < current then current - k else if k <= current + size then current + size - k else 0
  }

  lemma WalkRange(current: nat, size: nat, k: nat)
    requires 1 <= current <= size && k < size
    ensures 1 <= Walk(current, size, k) <= size
    ensures Walk(current, size, k) == current <==> k == 0
  {
  }

  lemma WalkInjective(current: nat, size: nat, i: nat, j: nat)
    requires 1 <= current <= size && i < size && j < size
    requires Walk(current, size, i) == Walk(current, size, j)
    ensures i == j
  {
  }

  // --------------------------------------------------------- part 1 move

  /** How far `v` lies below `current` going down round `size` labels, as
      the source's sort key computes it; `None` where its unsigned
      subtraction would underflow. */
  function Below(current: nat, v: nat, size: nat): Option<nat>
  {
    if v > current then (if current + size >= v then Some(current + size - v) else None)
    else Some(current - v)
  }

  /** Counting down from `current`, label `v` is reached after exactly as
      many steps as `Below` says. */
  lemma BelowWalk(current: nat, size: nat, v: nat)
    requires 1 <= current <= size && 1 <= v <= size
    ensures Below(current, v, size).Some?
    ensures Below(current, v, size).value < size
    ensures Walk(current, size, Below(current, v, size).value) == v
  {
  }

  function Distances(rest: seq<nat>, current: nat, size: nat): (r: Option<seq<nat>>)
    ensures r.Some? <==> forall k :: 0 <= k < |rest| ==> Below(current, rest[k], size).Some?
    ensures r.Some? ==> |r.value| == |rest|
    ensures r.Some? ==> forall k :: 0 <= k < |rest| ==> Below(current, rest[k], size) == Some(r.value[k])
  {
    if rest == [] then Some([])
    else
      match Below(current, rest[0], size)
      case None => None
      case Some(d) =>
        match Distances(rest[1..], current, size)
        case None => None
        case Some(ds) => Some([d] + ds)
  }

  /** Position `i` comes no later than `j` when the positions are stably
      sorted by distance. */
  predicate Before(ds: seq<nat>, i: nat, j: nat)
    requires i < |ds| && j < |ds|
  {
    ds[i] < ds[j] || (ds[i] == ds[j] && i <= j)
  }

  /** The position a stable sort by distance puts first among the first `n`
      positions other than `except`. */
  function Least(ds: seq<nat>, except: int, n: nat): (r: Option<nat>)
    requires n <= |ds|
    ensures r.None? <==> n == 0 || (n == 1 && except == 0)
    ensures r.Some? ==> r.value < n && r.value != except
    ensures r.Some? ==> forall j :: 0 <= j < n && j != except ==> Before(ds, r.value, j)
  {
    if n == 0 then None
    else
      var prev := Least(ds, except, n - 1);
      if n - 1 == except then prev
      else if prev.None? then Some(n - 1)
      else if ds[n - 1] < ds[prev.value] then
        assert forall j | 0 <= j < n - 1 && j != except :: Before(ds, prev.value, j) && ds[n - 1] < ds[j];
        Some(n - 1)
      else
        assert Before(ds, prev.value, n - 1);
        prev
  }

  function First(ds: seq<nat>): (i: nat)
    requires ds != []
    ensures i < |ds| && forall j :: 0 <= j < |ds| ==> Before(ds, i, j)
  {
    Least(ds, -1, |ds|).value
  }

  /** `order.iter().skip(1).next()`: the position the stable sort puts
      second, or `None` when there is none. */
  function Second(ds: seq<nat>): (i: Option<nat>)
    ensures i.Some? <==> |ds| >= 2
    ensures i.Some? ==> i.value < |ds| && i.value != First(ds)
    ensures i.Some? ==> forall j :: 0 <= j < |ds| && j != First(ds) ==> Before(ds, i.value, j)
  {
    if |ds| < 2 then None else Least(ds, First(ds), |ds|)
  }

  /** One move of part 1 on the deque `cups`, `size` being the number of
      cups read from the input. `None` where the source panics: fewer than
      four cups to pop and drain, nothing left for `skip(1)`, or an
      underflowing distance. */
  function Move1(cups: seq<nat>, size: nat): (r: Option<seq<nat>>)
    ensures r.Some? <==> |cups| >= 5 && forall k :: 4 <= k < |cups| ==> Below(cups[0], cups[k], size).Some?
    ensures r.Some? ==> |r.value| == |cups|
  {
    if |cups| < 4 then None
    else
      var current := cups[0];
      var rest := cups[4..] + [current];
      assert forall k :: 4 <= k < |cups| ==> cups[k] == rest[k - 4];
      assert Below(current, current, size).Some?;
      match Distances(rest, current, size)
      case None => None
      case Some(ds) =>
        match Second(ds)
        case None => None
        case Some(d) => Some(rest[..d + 1] + cups[1..4] + rest[d + 1..])
  }

  /** A part 1 move keeps the cups: the same labels, as often as before. */
  lemma Move1Cups(cups: seq<nat>, size: nat)
    requires Move1(cups, size).Some?
    ensures multiset(Move1(cups, size).value) == multiset(cups)
  {
    var rest := cups[4..] + [cups[0]];
    var d := Second(Distances(rest, cups[0], size).value).value;
    var spliced := rest[..d + 1] + cups[1..4] + rest[d + 1..];
    assert Move1(cups, size).value == spliced;
    SpliceCups(cups, d);
    assert multiset(spliced) == multiset(cups);
  }

  lemma SpliceCups(cups: seq<nat>, d: nat)
    requires |cups| >= 4 && d < |cups| - 3
    ensures var rest := cups[4..] + [cups[0]];
      multiset(rest[..d + 1] + cups[1..4] + rest[d + 1..]) == multiset(cups)
  {
    var rest := cups[4..] + [cups[0]];
    assert rest == rest[..d + 1] + rest[d + 1..];
    assert multiset(rest) == multiset(rest[..d + 1]) + multiset(rest[d + 1..]);
    assert multiset(rest) == multiset(cups[4..]) + multiset([cups[0]]);
    assert multiset(rest[..d + 1] + cups[1..4] + rest[d + 1..])
      == multiset(rest[..d + 1]) + multiset(cups[1..4]) + multiset(rest[d + 1..]);
    assert cups == [cups[0]] + cups[1..4] + cups[4..];
    assert multiset(cups) == multiset([cups[0]]) + multiset(cups[1..4]) + multiset(cups[4..]);
    var a, b, c := multiset(rest[..d + 1]), multiset(cups[1..4]), multiset(rest[d + 1..]);
    assert a + b + c == (a + c) + b;
  }

  /** `k` moves of part 1. They keep the cups, and a single move already
      needs five of them. */
  function Moves1(cups: seq<nat>, size: nat, k: nat): (r: Option<seq<nat>>)
    ensures r.Some? ==> |r.value| == |cups|
    ensures r.Some? ==> multiset(r.value) == multiset(cups)
    ensures k > 0 && r.Some? ==> |cups| >= 5
    decreases k
  {
    if k == 0 then Some(cups)
    else
      match Moves1(cups, size, k - 1)
      case None => None
      case Some(earlier) =>
        if Move1(earlier, size).Some? then Move1Cups(earlier, size); Move1(earlier, size) else None
  }

  /** Where `x` first stands in `s`. */
  function Position(s: seq<nat>, x: nat): (p: nat)
    requires x in s
    ensures p < |s| && s[p] == x && x !in s[..p]
  {
    if s[0] == x then 0 else Position(s[1..], x) + 1
  }

  /** The labels after cup 1 going round, as part 1 prints them; `None` when
      there is no cup 1. */
  function Answer1(cups: seq<nat>): (r: Option<seq<nat>>)
    ensures r.Some? <==> 1 in cups
    ensures r.Some? ==> |r.value| == |cups| - 1
  {
    if 1 !in cups then None
    else
      var p := Position(cups, 1);
      Some(cups[p + 1..] + cups[..p])
  }

  /** Part 1's answer reads the circle clockwise from the cup after cup 1. */
  lemma Answer1Around(cups: seq<nat>)
    requires 1 in cups
    ensures forall k :: 0 <= k < |cups| - 1 ==> Answer1(cups).value[k] == cups[(Position(cups, 1) + 1 + k) % |cups|]
  {
    var p, n := Position(cups, 1), |cups|;
    var r := Answer1(cups).value;
    forall k | 0 <= k < n - 1
      ensures r[k] == cups[(p + 1 + k) % n]
    {
      if p + 1 + k < n {
        ModUnique(p + 1 + k, 0, p + 1 + k, n);
      } else {
        ModUnique(p + 1 + k, 1, p + 1 + k - n, n);
      }
    }
  }

  /** Part 1 prints one label fewer than there are cups. For labels that
      are a permutation of `1..k` with `k >= 5` it always finishes, and
      prints every label except 1. */
  function Part1(input: string): (r: Option<seq<nat>>)
    ensures r.Some? ==> |r.value| == |Labels(input)| - 1
    ensures Permutation(Labels(input)) && |Labels(input)| >= 5 ==>
      r.Some? && multiset(r.value) + multiset{1} == multiset(Labels(input))
  {
    var cups := Labels(input);
    PlayPart1(input);
    match Moves1(cups, |cups|, MOVES_PART1)
    case None => None
    case Some(last) => if 1 in last then Answer1Cups(last); Answer1(last) else None
  }

  // ---------------------------------------------------------- part 2 setup

  /** The labels followed by `|numbers| + 1 ..= total`. */
  function Extend(numbers: seq<nat>, total: nat): (r: seq<nat>)
    ensures |numbers| <= |r| && r[..|numbers|] == numbers
    ensures |r| == if total > |numbers| then total else |numbers|
    ensures forall k :: |numbers| <= k < |r| ==> r[k] == k + 1
  {
    if total <= |numbers| then numbers
    else numbers + seq(total - |numbers|, i => |numbers| + 1 + i)
  }

  /** The successor vector after the writes for the first `i` labels:
      `link[numbers[k]] = numbers[(k + 1) % len]`, starting from zeros;
      `None` when a label indexes past the vector. */
  function Write(numbers: seq<nat>, i: nat): (r: Option<seq<nat>>)
    requires i <= |numbers|
    ensures r.Some? <==> forall k :: 0 <= k < i ==> numbers[k] <= |numbers|
    ensures r.Some? ==> |r.value| == |numbers| + 1
  {
    if i == 0 then Some(seq(|numbers| + 1, _ => 0))
    else
      match Write(numbers, i - 1)
      case None => None
      case Some(link) =>
        if numbers[i - 1] <= |numbers| then Some(link[numbers[i - 1] := numbers[i % |numbers|]]) else None
  }

  /** `parse`: the successor vector over the extended labels and the first
      label; `None` when there are no labels or one is out of range. */
  function Parse(input: string, total: nat): (r: Option<(seq<nat>, nat)>)
    ensures var numbers := Extend(Labels(input), total);
      r.Some? <==> numbers != [] && forall k :: 0 <= k < |numbers| ==> numbers[k] <= |numbers|
    ensures r.Some? ==> var numbers := Extend(Labels(input), total);
      |r.value.0| == |numbers| + 1 && r.value.1 == numbers[0]
  {
    var numbers := Extend(Labels(input), total);
    match Write(numbers, |numbers|)
    case None => None
    case Some(link) => if numbers == [] then None else Some((link, numbers[0]))
  }

  /** With distinct labels the writes do not clobber one another: each
      written label links to the next one round the list. */
  lemma {:induction false} WriteLinks(numbers: seq<nat>, i: nat)
    requires i <= |numbers| && Distinct(numbers)
    requires forall k :: 0 <= k < |numbers| ==> numbers[k] <= |numbers|
    ensures Write(numbers, i).Some?
    ensures forall k :: 0 <= k < i ==> Write(numbers, i).value[numbers[k]] == numbers[Succ(k, |numbers|)]
  {
    if i > 0 {
      WriteLinks(numbers, i - 1);
      var n := |numbers|;
      var link := Write(numbers, i - 1).value;
      assert i % n == Succ(i - 1, n) by {
        if i < n {
          ModUnique(i, 0, i, n);
        } else {
          ModUnique(i, 1, 0, n);
        }
      }
      assert Write(numbers, i).value == link[numbers[i - 1] := numbers[Succ(i - 1, n)]];
      forall k | 0 <= k < i - 1
        ensures numbers[k] != numbers[i - 1]
      {
      }
    }
  }

  predicate Permutation(numbers: seq<nat>)
  {
    && Distinct(numbers)
    && (forall k :: 0 <= k < |numbers| ==> 1 <= numbers[k] <= |numbers|)
    && (forall v :: 1 <= v <= |numbers| ==> v in numbers)
  }

  lemma ExtendPermutation(numbers: seq<nat>, total: nat)
    requires Permutation(numbers)
    ensures Permutation(Extend(numbers, total))
  {
    var r := Extend(numbers, total);
    forall v | 1 <= v <= |r|
      ensures v in r
    {
      if v > |numbers| {
        assert r[v - 1] == v;
      } else {
        assert v in r[..|numbers|];
      }
    }
  }

  /** Labels that are a permutation of `1..k` give a successor vector that
      is a single cycle through every label up to `total` (and up to `k`
      when that is larger), starting from the first label. */
  lemma ParseRing(input: string, total: nat)
    requires Permutation(Labels(input))
    requires Labels(input) != [] || total >= 1
    ensures Parse(input, total).Some?
    ensures Ring(Parse(input, total).value.0, Extend(Labels(input), total))
    ensures Parse(input, total).value.1 == Extend(Labels(input), total)[0]
  {
    var numbers := Extend(Labels(input), total);
    ExtendPermutation(Labels(input), total);
    WriteLinks(numbers, |numbers|);
  }

  // ---------------------------------------------------------- part 2 move

  /** One step of the destination search: one lower, wrapping from 1 to the
      highest label. */
  function Down(d: nat, max: nat): nat
  {
    if d > 1 then d - 1 else max
  }

  /** The destination loop, trying at most `tries` labels below `from`:
      the first that is not picked up. `None` when the tries run out. */
  function Destination(from: nat, picked: seq<nat>, max: nat, tries: nat): (r: Option<nat>)
    ensures r.Some? ==> r.value !in picked
    decreases tries
  {
    if tries == 0 then None
    else
      var d := Down(from, max);
      if d !in picked then Some(d) else Destination(d, picked, max, tries - 1)
  }

  /** One move of part 2 on the successor vector: the next current cup and
      the relinked vector. `None` where the source would index out of
      bounds; the destination loop is given one try per label, after which
      the source's loop could only repeat itself. */
  function Move2(link: seq<nat>, current: nat): (r: Option<(seq<nat>, nat)>)
    ensures r.Some? ==> |r.value.0| == |link|
  {
    if current >= |link| then None
    else
      var a := link[current];
      if a >= |link| then None
      else
        var b := link[a];
        if b >= |link| then None
        else
          var c := link[b];
          if c >= |link| then None
          else
            var once := link[current := link[c]];
            match Destination(current, [a, b, c], |link| - 1, |link| - 1)
            case None => None
            case Some(dest) =>
              if dest >= |link| then None
              else
                var moved := once[dest := a][c := once[dest]];
                Some((moved, moved[current]))
  }

  /** `k` moves of part 2, which keep the length of the successor vector. */
  function Moves2(link: seq<nat>, current: nat, k: nat): (r: Option<(seq<nat>, nat)>)
    ensures r.Some? ==> |r.value.0| == |link|
    decreases k
  {
    if k == 0 then Some((link, current))
    else
      match Moves2(link, current, k - 1)
      case None => None
      case Some(earlier) => Move2(earlier.0, earlier.1)
  }

  /** The product of the two labels after cup 1. */
  function Answer2(link: seq<nat>): (r: Option<nat>)
    ensures r.Some? <==> 1 < |link| && link[1] < |link|
  {
    if |link| < 2 || link[1] >= |link| then None else Some(link[1] * link[link[1]])
  }

  /** For labels that are a permutation of `1..k` with `k <= CUPS`, part 2
      always finishes, and its answer is the product of the first two
      labels part 1's procedure would print after playing the same number
      of moves on the same million cups. */
  function Part2(input: string): (r: Option<nat>)
    ensures Permutation(Labels(input)) && |Labels(input)| <= CUPS ==>
      r.Some? &&
      var order := Extend(Labels(input), CUPS);
      Moves1(order, |order|, MOVES_PART2).Some? && r == FirstTwoProduct(Moves1(order, |order|, MOVES_PART2).value)
  {
    PlayPart2(input);
    match Parse(input, CUPS)
    case None => None
    case Some(parsed) =>
      match Moves2(parsed.0, parsed.1, MOVES_PART2)
      case None => None
      case Some(last) => Answer2(last.0)
  }

  // ------------------------------------------------- the two parts agree

  /** Each step of the destination search is the next label counting down. */
  lemma WalkDown(current: nat, size: nat, k: nat)
    requires 1 <= current <= size && k + 1 < size
    ensures Down(Walk(current, size, k), size) == Walk(current, size, k + 1)
  {
  }

  /** The destination search stops at the first label below `current`,
      counting down round `1..max`, that is not picked up; with at least
      five labels that is at most four steps away, so four tries suffice. */
  lemma DestinationIsWalk(current: nat, picked: seq<nat>, max: nat, tries: nat) returns (k: nat)
    requires 1 <= current <= max && 5 <= max && 4 <= tries && |picked| == 3
    ensures 1 <= k <= 4
    ensures Walk(current, max, k) !in picked
    ensures forall i :: 1 <= i < k ==> Walk(current, max, i) in picked
    ensures Destination(current, picked, max, tries) == Some(Walk(current, max, k))
  {
    WalkDown(current, max, 0);
    WalkDown(current, max, 1);
    WalkDown(current, max, 2);
    WalkDown(current, max, 3);
    var w1, w2, w3, w4 := Walk(current, max, 1), Walk(current, max, 2), Walk(current, max, 3), Walk(current, max, 4);
    assert Walk(current, max, 0) == current;
    var found := Destination(current, picked, max, tries);
    if w1 !in picked {
      k := 1;
    } else {
      assert found == Destination(w1, picked, max, tries - 1);
      if w2 !in picked {
        k := 2;
      } else {
        assert found == Destination(w2, picked, max, tries - 2);
        if w3 !in picked {
          k := 3;
        } else {
          assert found == Destination(w3, picked, max, tries - 3);
          assert w1 != w2 && w1 != w3 && w2 != w3;
          assert w4 != w1 && w4 != w2 && w4 != w3;
          k := 4;
        }
      }
    }
  }

  /** On a circle of at least five cups, the destination of the move from
      `order[0]` is some `order[j]` past the picked cups, and it is the cup
      strictly nearest below the current one among all cups not picked up. */
  lemma RingDestination(link: seq<nat>, order: seq<nat>) returns (j: nat)
    requires Ring(link, order) && |order| >= 5
    ensures 4 <= j < |order|
    ensures Destination(order[0], order[1..4], |order|, |order|) == Some(order[j])
    ensures forall i :: 4 <= i < |order| ==> Below(order[0], order[i], |order|).Some?
    ensures forall i :: 4 <= i < |order| && i != j ==>
      Below(order[0], order[j], |order|).value < Below(order[0], order[i], |order|).value
  {
    var n, current, picked := |order|, order[0], order[1..4];
    var k := DestinationIsWalk(current, picked, n, n);
    var w := Walk(current, n, k);
    WalkRange(current, n, k);
    assert w in order;
    var t :| 0 <= t < n && order[t] == w;
    assert t != 1 && t != 2 && t != 3 by {
      assert order[1] in picked && order[2] in picked && order[3] in picked;
    }
    j := t;
    BelowWalk(current, n, w);
    WalkInjective(current, n, k, Below(current, w, n).value);
    forall i | 4 <= i < n
      ensures Below(current, order[i], n).Some?
      ensures i != j ==> Below(current, w, n).value < Below(current, order[i], n).value
    {
      BelowWalk(current, n, order[i]);
      var ki := Below(current, order[i], n).value;
      if i != j {
        WalkRange(current, n, ki);
        assert order[i] !in picked && order[i] != current && order[i] != w;
        assert Walk(current, n, ki) == order[i];
      }
    }
  }

  /** Where each position of the circle after a move comes from, with
      `order[0]` current and `order[j]` the destination: the cups up to the
      destination, the three picked cups, the rest, then the old current. */
  function Source(n: nat, j: nat, i: nat): nat
  {
    if i + 1 == n then 0
    else if i + 4 <= j then i + 4
    else if i + 1 <= j then i + 4 - j
    else i + 1
  }

  /** The successor a position of the old listing has once the move has
      relinked the current cup, the destination and the last picked cup. */
  function Relinked(n: nat, j: nat, t: nat): nat
  {
    if t == 0 then 4 else if t == j then 1 else if t == 3 then Succ(j, n) else Succ(t, n)
  }

  lemma SourceFollows(n: nat, j: nat, i: nat)
    requires 4 <= j < n && i < n
    ensures Source(n, j, i) < n
    ensures Source(n, j, Succ(i, n)) == Relinked(n, j, Source(n, j, i))
  {
  }

  lemma SourceInjective(n: nat, j: nat, i: nat, i': nat)
    requires 4 <= j < n && i < i' < n
    ensures Source(n, j, i) != Source(n, j, i')
  {
  }

  /** The circle after a move, read from the new current cup. */
  function Rotated(order: seq<nat>, j: nat): seq<nat>
    requires 4 <= j < |order|
  {
    order[4..j + 1] + order[1..4] + order[j + 1..] + [order[0]]
  }

  lemma RotatedSource(order: seq<nat>, j: nat)
    requires 4 <= j < |order|
    ensures |Rotated(order, j)| == |order|
    ensures forall i :: 0 <= i < |order| ==> Rotated(order, j)[i] == order[Source(|order|, j, i)]
    ensures multiset(Rotated(order, j)) == multiset(order)
  {
    var r, n := Rotated(order, j), |order|;
    forall i | 0 <= i < n
      ensures r[i] == order[Source(n, j, i)]
    {
      if i + 1 == n {
      } else if i + 4 <= j {
        assert r[i] == order[4..j + 1][i];
      } else if i + 1 <= j {
        assert r[i] == (order[4..j + 1] + order[1..4])[i];
      } else {
        assert r[i] == (order[4..j + 1] + order[1..4] + order[j + 1..])[i];
      }
    }
    assert order == [order[0]] + order[1..4] + order[4..j + 1] + order[j + 1..];
    var a, b, c, d := multiset([order[0]]), multiset(order[1..4]), multiset(order[4..j + 1]), multiset(order[j + 1..]);
    assert multiset(r) == c + b + d + a;
    assert multiset(order) == a + b + c + d;
  }

  /** The vector part 2's move produces on a circle of at least five cups,
      `order[j]` being the destination. */
  function Relink(link: seq<nat>, order: seq<nat>, j: nat): seq<nat>
    requires 4 <= j < |order| && forall i :: 0 <= i < |order| ==> order[i] < |link|
  {
    link[order[0] := order[4]][order[j] := order[1]][order[3] := order[Succ(j, |order|)]]
  }

  lemma RelinkAt(link: seq<nat>, order: seq<nat>, j: nat, t: nat)
    requires Ring(link, order) && 4 <= j < |order| && t < |order|
    ensures Relink(link, order, j)[order[t]] == order[Relinked(|order|, j, t)]
  {
    assert order[0] != order[3] && order[j] != order[3] && order[0] != order[j];
    if t != 0 && t != 3 && t != j {
      assert order[t] != order[0] && order[t] != order[3] && order[t] != order[j];
    }
  }

  /** After the move the vector is again a single cycle through every label,
      in the order of `Rotated`. */
  lemma RelinkRing(link: seq<nat>, order: seq<nat>, j: nat)
    requires Ring(link, order) && 4 <= j < |order|
    ensures Ring(Relink(link, order, j), Rotated(order, j))
  {
    var m, r := Relink(link, order, j), Rotated(order, j);
    assert |m| == |link| && |r| == |order|;
    RotatedDistinct(order, j);
    RotatedLabels(link, order, j);
    RotatedLinks(link, order, j);
  }

  lemma RotatedDistinct(order: seq<nat>, j: nat)
    requires Distinct(order) && 4 <= j < |order|
    ensures Distinct(Rotated(order, j))
  {
    var n, r := |order|, Rotated(order, j);
    RotatedSource(order, j);
    forall i, i' | 0 <= i < i' < n
      ensures r[i] != r[i']
    {
      SourceInjective(n, j, i, i');
    }
  }

  lemma RotatedLabels(link: seq<nat>, order: seq<nat>, j: nat)
    requires Ring(link, order) && 4 <= j < |order|
    ensures forall i :: 0 <= i < |order| ==> 1 <= Rotated(order, j)[i] < |link|
    ensures forall v :: 1 <= v < |link| ==> v in Rotated(order, j)
  {
    var n, r := |order|, Rotated(order, j);
    RotatedSource(order, j);
    forall i | 0 <= i < n
      ensures 1 <= r[i] < |link|
    {
      assert r[i] in multiset(order);
    }
    forall v | 1 <= v < |link|
      ensures v in r
    {
      assert v in order;
      assert v in multiset(order);
    }
  }

  lemma RotatedLinks(link: seq<nat>, order: seq<nat>, j: nat)
    requires Ring(link, order) && 4 <= j < |order|
    ensures forall i :: 0 <= i < |order| ==>
      Relink(link, order, j)[Rotated(order, j)[i]] == Rotated(order, j)[Succ(i, |order|)]
  {
    var n, r, m := |order|, Rotated(order, j), Relink(link, order, j);
    RotatedSource(order, j);
    forall i | 0 <= i < n
      ensures m[r[i]] == r[Succ(i, n)]
    {
      SourceFollows(n, j, i);
      RelinkAt(link, order, j, Source(n, j, i));
    }
  }

  /** Part 2's move on the successor vector of a circle of at least five
      cups: the picked cups are the three after the current one, the
      current cup is relinked past them, they go back after the
      destination, the destination's old successor follows them, and the
      cup now after the current one becomes current. */
  lemma RingMove2(link: seq<nat>, order: seq<nat>, j: nat)
    requires Ring(link, order) && 4 <= j < |order|
    requires Destination(order[0], order[1..4], |order|, |order|) == Some(order[j])
    ensures Move2(link, order[0]) == Some((Relink(link, order, j), order[4]))
  {
    var n := |order|;
    assert link[order[0]] == order[1] && link[order[1]] == order[2] && link[order[2]] == order[3];
    assert link[order[3]] == order[4];
    assert [order[1], order[2], order[3]] == order[1..4];
    assert order[0] != order[j] && order[0] != order[3];
    assert link[order[j]] == order[Succ(j, n)];
  }

  /** Part 1's move on the deque listing a circle of at least five cups,
      `order[j]` being the cup nearest below the current one that is not
      picked up. */
  lemma RingMove1(link: seq<nat>, order: seq<nat>, j: nat)
    requires Ring(link, order) && 4 <= j < |order|
    requires forall i :: 4 <= i < |order| ==> Below(order[0], order[i], |order|).Some?
    requires forall i :: 4 <= i < |order| && i != j ==>
      Below(order[0], order[j], |order|).value < Below(order[0], order[i], |order|).value
    ensures Move1(order, |order|) == Some(Rotated(order, j))
  {
    var n, current := |order|, order[0];
    var rest := order[4..] + [current];
    var m := n - 4;
    forall i | 0 <= i < |rest|
      ensures Below(current, rest[i], n).Some?
    {
      if i < m {
        assert rest[i] == order[i + 4];
      }
    }
    var ds := Distances(rest, current, n).value;
    assert ds[m] == 0;
    forall i | 0 <= i < m
      ensures ds[i] >= 1
      ensures i != j - 4 ==> ds[j - 4] < ds[i]
    {
      assert rest[i] == order[i + 4] && order[i + 4] != order[0];
      assert rest[j - 4] == order[j];
    }
    var f := First(ds);
    assert Before(ds, f, m);
    assert f == m;
    var q := Second(ds).value;
    assert Before(ds, q, j - 4);
    assert q == j - 4;
    assert Move1(order, n) == Some(rest[..q + 1] + order[1..4] + rest[q + 1..]);
    assert rest[..q + 1] == order[4..j + 1];
    assert rest[q + 1..] == order[j + 1..] + [current];
    assert rest[..q + 1] + order[1..4] + rest[q + 1..] == Rotated(order, j);
  }

  /** One move of part 1 and one move of part 2 play the same game: on any
      circle of at least five cups listed by the deque and linked by the
      vector, the moved deque lists the relinked vector's circle from its
      new current cup. */
  lemma SameMove(link: seq<nat>, order: seq<nat>)
    requires Ring(link, order) && |order| >= 5
    ensures Move1(order, |order|).Some? && Move2(link, order[0]).Some?
    ensures Move2(link, order[0]).value.1 == Move1(order, |order|).value[0]
    ensures Ring(Move2(link, order[0]).value.0, Move1(order, |order|).value)
  {
    var j := RingDestination(link, order);
    RingMove1(link, order, j);
    RingMove2(link, order, j);
    RelinkRing(link, order, j);
  }

  lemma Moves1Last(cups: seq<nat>, size: nat, k: nat, earlier: seq<nat>)
    requires Moves1(cups, size, k) == Some(earlier)
    ensures Moves1(cups, size, k + 1) == Move1(earlier, size)
  {
  }

  lemma Moves2Last(link: seq<nat>, current: nat, k: nat, earlier: (seq<nat>, nat))
    requires Moves2(link, current, k) == Some(earlier)
    ensures Moves2(link, current, k + 1) == Move2(earlier.0, earlier.1)
  {
  }

  /** ... and so do any number of moves: after `k` moves of both, the
      vector is a single cycle in the order the deque lists, starting from
      the current cup. */
  lemma {:induction false} SameGame(link: seq<nat>, order: seq<nat>, k: nat) returns (link': seq<nat>, order': seq<nat>)
    requires Ring(link, order) && |order| >= 5
    ensures Moves1(order, |order|, k) == Some(order')
    ensures Moves2(link, order[0], k) == Some((link', order'[0]))
    ensures Ring(link', order') && |order'| == |order|
    decreases k
  {
    if k > 0 {
      var j: nat := k - 1;
      var l, o := SameGame(link, order, j);
      SameMove(l, o);
      order' := Move1(o, |o|).value;
      link' := Move2(l, o[0]).value.0;
      Moves1Last(order, |order|, j, o);
      Moves2Last(link, order[0], j, (l, o[0]));
    } else {
      link', order' := link, order;
    }
  }

  /** Part 2's answer is the product of the first two labels part 1 would
      print for the same circle. */
  lemma SameAnswer(link: seq<nat>, order: seq<nat>)
    requires Ring(link, order) && |order| >= 3
    ensures Answer2(link).Some? && Answer1(order).Some?
    ensures Answer2(link).value == Answer1(order).value[0] * Answer1(order).value[1]
  {
    var n := |order|;
    assert 1 in order;
    var p := Position(order, 1);
    var r := Answer1(order).value;
    assert r == order[p + 1..] + order[..p];
    assert link[1] == order[Succ(p, n)];
    assert r[0] == order[Succ(p, n)];
    assert link[order[Succ(p, n)]] == order[Succ(Succ(p, n), n)];
    assert r[1] == order[Succ(Succ(p, n), n)];
  }

  // ------------------------------------------------------------- answers

  /** Part 1 prints every label of the circle except 1. */
  lemma Answer1Cups(cups: seq<nat>)
    requires 1 in cups
    ensures multiset(Answer1(cups).value) + multiset{1} == multiset(cups)
  {
    var p := Position(cups, 1);
    assert cups == cups[..p] + [1] + cups[p + 1..];
    assert multiset(cups) == multiset(cups[..p]) + multiset{1} + multiset(cups[p + 1..]);
    assert Answer1(cups).value == cups[p + 1..] + cups[..p];
  }

  /** The product of the first two labels part 1 would print. */
  function FirstTwoProduct(cups: seq<nat>): Option<nat>
  {
    match Answer1(cups)
    case None => None
    case Some(r) => if |r| < 2 then None else Some(r[0] * r[1])
  }

  /** Labels that are a permutation of `1..k` with `k >= 5` play all of
      part 1's moves and keep cup 1. */
  lemma PlayPart1(input: string)
    ensures Permutation(Labels(input)) && |Labels(input)| >= 5 ==>
      Moves1(Labels(input), |Labels(input)|, MOVES_PART1).Some? &&
      1 in Moves1(Labels(input), |Labels(input)|, MOVES_PART1).value
  {
    var cups := Labels(input);
    if Permutation(cups) && |cups| >= 5 {
      ParseRing(input, 0);
      var link := Parse(input, 0).value.0;
      var link', last := SameGame(link, cups, MOVES_PART1);
      assert 1 in cups;
      assert multiset(last) == multiset(cups);
      assert 1 in multiset(last);
    }
  }

  /** Labels that are a permutation of `1..k` with `k <= CUPS` play all of
      part 2's moves, in step with part 1's procedure on the same cups. */
  lemma PlayPart2(input: string)
    ensures Permutation(Labels(input)) && |Labels(input)| <= CUPS ==>
      var order := Extend(Labels(input), CUPS);
      Parse(input, CUPS).Some? && Moves1(order, |order|, MOVES_PART2).Some? &&
      var parsed := Parse(input, CUPS).value;
      Moves2(parsed.0, parsed.1, MOVES_PART2).Some? &&
      Answer2(Moves2(parsed.0, parsed.1, MOVES_PART2).value.0).Some? &&
      Answer2(Moves2(parsed.0, parsed.1, MOVES_PART2).value.0) == FirstTwoProduct(Moves1(order, |order|, MOVES_PART2).value)
  {
    if Permutation(Labels(input)) && |Labels(input)| <= CUPS {
      var order := Extend(Labels(input), CUPS);
      ParseRing(input, CUPS);
      var link := Parse(input, CUPS).value.0;
      var link', last := SameGame(link, order, MOVES_PART2);
      SameAnswer(link', last);
    }
  }
}
