/** Day 21: allergen assessment. Every line is a food: its ingredients, and
    some of the allergens it contains. Each allergen is in exactly one
    ingredient and each ingredient holds at most one allergen, so an
    allergen's candidates are the ingredients common to every food that
    lists it. */
module Day21 {
  import opened Wrappers
  import opened Seqs
  import opened Sorting

  /** One line: the set of its ingredients and the list of its allergens. */
  datatype Food = Food(ingredients: set<string>, allergens: seq<string>)

  // ------------------------------------------------------------- parsing

  /** The text between the two groups of `^(.*) \(contains (.*)\)$`. */
  const Contains: string := " (contains "

  /** `line` reads as `a (contains b)`; `.` matches anything but a line
      feed. */
  predicate Shape(line: string, a: string, b: string)
  {
    '\n' !in line && line == a + Contains + b + ")"
  }

  /** The last position below `n` where `pat` occurs in `s`. */
  function LastBefore(s: string, pat: string, n: nat): (r: Option<nat>)
    ensures r.Some? ==> r.value < n && OccursAt(s, pat, r.value)
    ensures r.Some? ==> forall k :: r.value < k < n ==> !OccursAt(s, pat, k)
    ensures r.None? ==> forall k :: 0 <= k < n ==> !OccursAt(s, pat, k)
  {
    if n == 0 then None
    else if OccursAt(s, pat, n - 1) then Some(n - 1)
    else LastBefore(s, pat, n - 1)
  }

  /** Every reading of a line as `a (contains b)` puts `Contains` at `|a|`
      in the line without its closing parenthesis. */
  lemma ShapeOccurs(line: string)
    ensures forall a, b :: Shape(line, a, b) ==>
      line != [] && line[|line| - 1] == ')' && OccursAt(line[..|line| - 1], Contains, |a|)
  {
    forall a, b | Shape(line, a, b)
      ensures line != [] && line[|line| - 1] == ')' && OccursAt(line[..|line| - 1], Contains, |a|)
    {
      var t := line[..|line| - 1];
      assert t == a + Contains + b;
      assert t[|a|..|a| + |Contains|] == Contains;
    }
  }

  /** An occurrence of `Contains` in the line without its closing
      parenthesis gives a reading of the line. */
  lemma OccursShape(line: string, p: nat)
    requires '\n' !in line && line != [] && line[|line| - 1] == ')'
    requires OccursAt(line[..|line| - 1], Contains, p)
    ensures Shape(line, line[..p], line[p + |Contains|..|line| - 1])
  {
    var t := line[..|line| - 1];
    assert t == t[..p] + t[p..p + |Contains|] + t[p + |Contains|..];
    assert line == t + [')'];
  }

  /** `CONTAINS_RE.captures(line)`: the greedy first group reaches the last
      " (contains " that still leaves room for the closing parenthesis. The
      captures read the line back, the first one is the longest possible,
      and there is no capture exactly when the line has no such reading. */
  function Captures(line: string): (r: Option<(string, string)>)
    ensures r.Some? ==> Shape(line, r.value.0, r.value.1)
    ensures r.Some? ==> forall a, b :: Shape(line, a, b) ==> |a| <= |r.value.0|
    ensures r.None? <==> forall a, b :: !Shape(line, a, b)
  {
    ShapeOccurs(line);
    if '\n' in line || line == [] || line[|line| - 1] != ')' then None
    else
      var t := line[..|line| - 1];
      match LastBefore(t, Contains, |t| + 1)
      case None => None
      case Some(p) =>
        OccursShape(line, p);
        assert t[p + |Contains|..] == line[p + |Contains|..|line| - 1];
        Some((t[..p], t[p + |Contains|..]))
  }

  /** The food on one line: the ingredients split at single spaces into a
      set, the allergens split at ", " in order; a line of another shape
      panics at `unwrap`. */
  function ParseFood(line: string): (r: Option<Food>)
    ensures r.Some? <==> exists a, b :: Shape(line, a, b)
    ensures r.Some? ==> var (a, b) := Captures(line).value;
      (forall x :: x in r.value.ingredients <==> x in Split(a, ' ')) && r.value.allergens == SplitText(b, ", ")
  {
    match Captures(line)
    case None => None
    case Some((a, b)) => Some(Food((set x | x in Split(a, ' ')), SplitText(b, ", ")))
  }

  /** `parse` reads every line, or panics. */
  function ParseFoods(lines: seq<string>): (r: Option<seq<Food>>)
    ensures r.Some? <==> forall k :: 0 <= k < |lines| ==> ParseFood(lines[k]).Some?
    ensures r.Some? ==> |r.value| == |lines|
    ensures r.Some? ==> forall k :: 0 <= k < |lines| ==> ParseFood(lines[k]) == Some(r.value[k])
  {
    if lines == [] then Some([])
    else
      match (ParseFood(lines[0]), ParseFoods(lines[1..]))
      case (Some(f), Some(fs)) => Some([f] + fs)
      case _ => None
  }

  /** A food written the way the input writes it. */
  function ShowFood(ingredients: seq<string>, allergens: seq<string>): string
    requires |ingredients| >= 1 && |allergens| >= 1
  {
    Join(ingredients, ' ') + Contains + JoinText(allergens, ", ") + ")"
  }

  /** `c` is missing from the parts and from the separator of a join. */
  lemma {:induction false} JoinTextLacks(parts: seq<string>, pat: string, c: char)
    requires |parts| >= 1 && c !in pat
    requires forall k :: 0 <= k < |parts| ==> c !in parts[k]
    ensures c !in JoinText(parts, pat)
  {
    if |parts| > 1 {
      JoinTextLacks(parts[1..], pat, c);
    }
  }

  /** `Contains` occurs after `a` only at `|a|` when `b` has no '('. */
  lemma ContainsLast(a: string, b: string)
    requires '(' !in b
    ensures forall k :: |a| < k <= |a + Contains + b| ==> !OccursAt(a + Contains + b, Contains, k)
  {
    var t := a + Contains + b;
    forall k | |a| < k <= |t|
      ensures !OccursAt(t, Contains, k)
    {
      if k + |Contains| <= |t| {
        assert t[k..k + |Contains|][1] == t[k + 1];
        if k + 1 < |a| + |Contains| {
          assert t[k + 1] == Contains[k + 1 - |a|];
        } else {
          assert t[k + 1] == b[k + 1 - |a| - |Contains|];
        }
      }
    }
  }

  /** A food written out reads back: its ingredients as a set and its
      allergens in order, when names hold no separators. */
  lemma ParseShowFood(ingredients: seq<string>, allergens: seq<string>)
    requires |ingredients| >= 1 && |allergens| >= 1
    requires forall k :: 0 <= k < |ingredients| ==> ' ' !in ingredients[k] && '\n' !in ingredients[k]
    requires forall k :: 0 <= k < |allergens| ==> ',' !in allergens[k] && '(' !in allergens[k] && '\n' !in allergens[k]
    ensures ParseFood(ShowFood(ingredients, allergens)) == Some(Food((set x | x in ingredients), allergens))
  {
    var a := Join(ingredients, ' ');
    var b := JoinText(allergens, ", ");
    var line := ShowFood(ingredients, allergens);
    JoinChars(ingredients, ' ', c => c != '\n');
    JoinTextLacks(allergens, ", ", '\n');
    JoinTextLacks(allergens, ", ", '(');
    assert '\n' !in a;
    assert '\n' !in line by {
      assert line == a + Contains + b + ")";
    }
    assert Shape(line, a, b);
    var r := Captures(line);
    var a', b' := r.value.0, r.value.1;
    ShapeOccurs(line);
    var t := line[..|line| - 1];
    assert t == a + Contains + b;
    ContainsLast(a, b);
    assert |a'| == |a|;
    assert a' == a && b' == b;
    SplitJoin(ingredients, ' ');
    SplitTextJoin(allergens, ", ");
  }

  // ---------------------------------------------------------- frequencies

  /** Every ingredient of some food. */
  function Ingredients(foods: seq<Food>): (r: set<string>)
    ensures forall x :: x in r <==> exists i :: 0 <= i < |foods| && x in foods[i].ingredients
  {
    if foods == [] then {} else Ingredients(foods[..|foods| - 1]) + foods[|foods| - 1].ingredients
  }

  /** A frequency, zero for an ingredient never counted. */
  function Get(m: map<string, nat>, x: string): nat
  {
    if x in m then m[x] else 0
  }

  /** `*ingredients_frequency.entry(ingredient).or_insert(0) += 1` for each
      ingredient of one food. */
  function Tally(m: map<string, nat>, ingredients: set<string>): (r: map<string, nat>)
    ensures r.Keys == m.Keys + ingredients
    ensures forall x :: Get(r, x) == Get(m, x) + if x in ingredients then 1 else 0
  {
    map x | x in m.Keys + ingredients :: Get(m, x) + if x in ingredients then 1 else 0
  }

  /** `ingredients_frequency` after every food. */
  function Frequency(foods: seq<Food>): (r: map<string, nat>)
    ensures r.Keys == Ingredients(foods)
  {
    if foods == [] then map[] else Tally(Frequency(foods[..|foods| - 1]), foods[|foods| - 1].ingredients)
  }

  /** The foods that hold `x`. */
  ghost function Containing(foods: seq<Food>, x: string): set<nat>
  {
    set i: nat | i < |foods| && x in foods[i].ingredients
  }

  /** An ingredient's frequency is the number of foods that hold it, each
      food counted once. */
  lemma {:induction false} FrequencyCounts(foods: seq<Food>, x: string)
    ensures Get(Frequency(foods), x) == |Containing(foods, x)|
  {
    if foods != [] {
      var n := |foods| - 1;
      var init := foods[..n];
      FrequencyCounts(init, x);
      ContainingSnoc(foods, x);
    }
  }

  lemma ContainingSnoc(foods: seq<Food>, x: string)
    requires foods != []
    ensures Containing(foods, x) == Containing(foods[..|foods| - 1], x) + if x in foods[|foods| - 1].ingredients then {|foods| - 1} else {}
    ensures |foods| - 1 !in Containing(foods[..|foods| - 1], x)
  {
    var n := |foods| - 1;
    assert forall i :: 0 <= i < n ==> foods[..n][i] == foods[i];
  }

  // ----------------------------------------------------------- candidates

  function Elements(xs: seq<string>): (r: set<string>)
    ensures forall x :: x in r <==> x in xs
  {
    set x | x in xs
  }

  /** Every allergen some food lists. */
  function Allergens(foods: seq<Food>): (r: set<string>)
    ensures forall a :: a in r <==> exists i :: 0 <= i < |foods| && a in foods[i].allergens
  {
    if foods == [] then {} else Allergens(foods[..|foods| - 1]) + Elements(foods[|foods| - 1].allergens)
  }

  /** The `for allergen in allergens` loop of one food: an allergen seen
      before keeps the ingredients it shares with this food, a new one
      takes all of this food's ingredients. Listing an allergen twice
      changes nothing more. */
  function Narrow(m: map<string, set<string>>, allergens: seq<string>, ingredients: set<string>): (r: map<string, set<string>>)
    ensures r.Keys == m.Keys + Elements(allergens)
    ensures forall a :: a in r && a in allergens ==> r[a] == if a in m then m[a] * ingredients else ingredients
    ensures forall a :: a in r && a !in allergens ==> r[a] == m[a]
    decreases |allergens|
  {
    if allergens == [] then m
    else
      var a := allergens[0];
      var m' := m[a := if a in m then m[a] * ingredients else ingredients];
      var r := Narrow(m', allergens[1..], ingredients);
      assert allergens == [a] + allergens[1..];
      assert forall b :: b in allergens <==> b == a || b in allergens[1..];
      r
  }

  /** `allergens_to_ingredients` after every food. */
  function Candidates(foods: seq<Food>): (r: map<string, set<string>>)
    ensures r.Keys == Allergens(foods)
  {
    if foods == [] then map[] else Narrow(Candidates(foods[..|foods| - 1]), foods[|foods| - 1].allergens, foods[|foods| - 1].ingredients)
  }

  /** `x` is in every food that lists `a`. */
  ghost predicate InEvery(foods: seq<Food>, a: string, x: string)
  {
    forall i :: 0 <= i < |foods| && a in foods[i].allergens ==> x in foods[i].ingredients
  }

  /** An allergen's candidates are the ingredients common to every food
      that lists it. */
  lemma {:induction false} CandidatesExact(foods: seq<Food>, a: string, x: string)
    requires a in Candidates(foods)
    ensures x in Candidates(foods)[a] <==> InEvery(foods, a, x)
  {
    var n := |foods| - 1;
    var init := foods[..n];
    InEverySnoc(foods, a, x);
    if a in Candidates(init) {
      CandidatesExact(init, a, x);
    } else {
      InEveryUnlisted(init, a, x);
    }
  }

  lemma InEverySnoc(foods: seq<Food>, a: string, x: string)
    requires foods != []
    ensures InEvery(foods, a, x) <==>
      (InEvery(foods[..|foods| - 1], a, x) && (a in foods[|foods| - 1].allergens ==> x in foods[|foods| - 1].ingredients))
  {
    var n := |foods| - 1;
    assert forall i :: 0 <= i < n ==> foods[..n][i] == foods[i];
  }

  lemma InEveryUnlisted(foods: seq<Food>, a: string, x: string)
    requires a !in Allergens(foods)
    ensures InEvery(foods, a, x)
  {
  }

  // ---------------------------------------------------------------- part1

  /** `x` is a candidate of some allergen. */
  ghost predicate Suspect(candidates: map<string, set<string>>, x: string)
  {
    exists a :: a in candidates && x in candidates[a]
  }

  /** The sum of the frequencies over a set, in any order. */
  ghost function SumGet(m: map<string, nat>, s: set<string>): nat
    decreases |s|
  {
    if s == {} then 0 else var x :| x in s; Get(m, x) + SumGet(m, s - {x})
  }

  lemma {:induction false} SumGetPick(m: map<string, nat>, s: set<string>, y: string)
    requires y in s
    ensures SumGet(m, s) == Get(m, y) + SumGet(m, s - {y})
    decreases |s|
  {
    var x :| x in s && SumGet(m, s) == Get(m, x) + SumGet(m, s - {x});
    if x != y {
      SumGetPick(m, s - {x}, y);
      SumGetPick(m, s - {y}, x);
      assert s - {x} - {y} == s - {y} - {x};
    }
  }

  /** `part1`: the frequencies of the ingredients no allergen can be in. */
  ghost function Part1(frequency: map<string, nat>, candidates: map<string, set<string>>): (r: nat)
    ensures forall x :: x in frequency && !Suspect(candidates, x) ==> frequency[x] <= r
    ensures (forall x :: x in frequency ==> Suspect(candidates, x)) ==> r == 0
  {
    var safe := set x | x in frequency && !Suspect(candidates, x);
    SumGetBound(frequency, safe);
    assert forall x :: x in frequency && !Suspect(candidates, x) ==> x in safe && Get(frequency, x) == frequency[x];
    assert (forall x :: x in frequency ==> Suspect(candidates, x)) ==> safe == {};
    SumGet(frequency, safe)
  }

  /** Every member of the set adds its frequency to the sum. */
  lemma SumGetBound(m: map<string, nat>, s: set<string>)
    ensures forall y :: y in s ==> Get(m, y) <= SumGet(m, s)
  {
    forall y | y in s
      ensures Get(m, y) <= SumGet(m, s)
    {
      SumGetPick(m, s, y);
    }
  }

  /** How often the ingredients of `s` occur over all foods. */
  function Occurrences(foods: seq<Food>, s: set<string>): nat
  {
    if foods == [] then 0 else Occurrences(foods[..|foods| - 1], s) + |foods[|foods| - 1].ingredients * s|
  }

  lemma {:induction false} SumGetTally(m: map<string, nat>, ingredients: set<string>, s: set<string>)
    ensures SumGet(Tally(m, ingredients), s) == SumGet(m, s) + |ingredients * s|
    decreases |s|
  {
    if s != {} {
      var y :| y in s;
      SumGetPick(Tally(m, ingredients), s, y);
      SumGetPick(m, s, y);
      SumGetTally(m, ingredients, s - {y});
      InterPick(ingredients, s, y);
    }
  }

  lemma InterPick(a: set<string>, s: set<string>, y: string)
    requires y in s
    ensures |a * s| == |a * (s - {y})| + if y in a then 1 else 0
  {
    if y in a {
      assert a * s == a * (s - {y}) + {y};
    } else {
      assert a * s == a * (s - {y});
    }
  }

  lemma {:induction false} FrequencySum(foods: seq<Food>, s: set<string>)
    ensures SumGet(Frequency(foods), s) == Occurrences(foods, s)
  {
    if foods == [] {
      SumGetEmpty(s);
    } else {
      var n := |foods| - 1;
      FrequencySum(foods[..n], s);
      SumGetTally(Frequency(foods[..n]), foods[n].ingredients, s);
    }
  }

  lemma {:induction false} SumGetEmpty(s: set<string>)
    ensures SumGet(map[], s) == 0
    decreases |s|
  {
    if s != {} {
      var y :| y in s;
      SumGetPick(map[], s, y);
      SumGetEmpty(s - {y});
    }
  }

  /** The ingredients that cannot hold an allergen: for every allergen,
      some food lists it without them. */
  ghost function Safe(foods: seq<Food>): set<string>
  {
    set x | x in Ingredients(foods) && forall a :: a in Allergens(foods) ==> !InEvery(foods, a, x)
  }

  /** `part1` counts how often the safe ingredients occur over all foods. */
  lemma Part1Counts(foods: seq<Food>)
    ensures Part1(Frequency(foods), Candidates(foods)) == Occurrences(foods, Safe(foods))
  {
    var frequency, candidates := Frequency(foods), Candidates(foods);
    forall x | x in Ingredients(foods)
      ensures Suspect(candidates, x) <==> exists a :: a in Allergens(foods) && InEvery(foods, a, x)
    {
      forall a | a in candidates
        ensures x in candidates[a] <==> InEvery(foods, a, x)
      {
        CandidatesExact(foods, a, x);
      }
    }
    assert (set x | x in frequency && !Suspect(candidates, x)) == Safe(foods);
    FrequencySum(foods, Safe(foods));
  }

  // ---------------------------------------------------------------- part2

  /** `allergen_with_multiple_ingredients`. */
  predicate Multiple(m: map<string, set<string>>)
  {
    exists a :: a in m && |m[a]| > 1
  }

  /** `find(|set| set.len() == 1)` over the values listed in `order`: the
      position of the first singleton. */
  function FirstSingleton(m: map<string, set<string>>, order: seq<string>): (r: Option<nat>)
    ensures r.Some? ==> r.value < |order| && order[r.value] in m && |m[order[r.value]]| == 1
    ensures r.Some? ==> forall j :: 0 <= j < r.value && order[j] in m ==> |m[order[j]]| != 1
    ensures r.None? ==> forall j :: 0 <= j < |order| && order[j] in m ==> |m[order[j]]| != 1
  {
    if order == [] then None
    else if order[0] in m && |m[order[0]]| == 1 then Some(0)
    else
      match FirstSingleton(m, order[1..])
      case None => None
      case Some(k) => Some(k + 1)
  }

  /** One pass of the `while` body: singleton sets stay, every other set
      loses the elements of `s`. Sets only shrink. */
  function Eliminated(m: map<string, set<string>>, s: set<string>): (r: map<string, set<string>>)
    ensures r.Keys == m.Keys
    ensures forall a :: a in m ==> r[a] <= m[a]
    ensures forall a :: a in m && |m[a]| == 1 ==> r[a] == m[a]
    ensures forall a :: a in m && |m[a]| != 1 ==> r[a] !! s && m[a] - s <= r[a]
  {
    map a | a in m :: if |m[a]| == 1 then m[a] else m[a] - s
  }

  /** The `while` loop of `part2`. Each pass walks the map in its own
      order, `orders[k]` for pass `k`, since every pass collects into a new
      `HashMap`. Running out of orders stands for a loop that goes on; a
      pass without a singleton panics at `unwrap`. When the loop ends,
      every set has at most one element and only lost elements. */
  function Eliminate(m: map<string, set<string>>, orders: seq<seq<string>>): (r: Option<map<string, set<string>>>)
    ensures r.Some? ==> r.value.Keys == m.Keys
    ensures r.Some? ==> forall a :: a in m ==> r.value[a] <= m[a] && |r.value[a]| <= 1
    decreases |orders|
  {
    if !Multiple(m) then Some(m)
    else if orders == [] then None
    else
      match FirstSingleton(m, orders[0])
      case None => None
      case Some(k) => Eliminate(Eliminated(m, m[orders[0][k]]), orders[1..])
  }

  /** `assign` picks a distinct candidate for every allergen. */
  predicate Assignment(m: map<string, set<string>>, assign: map<string, string>)
  {
    assign.Keys == m.Keys
    && (forall a :: a in m ==> assign[a] in m[a])
    && (forall a, b :: a in assign && b in assign && a != b ==> assign[a] != assign[b])
  }

  lemma SingletonIs(s: set<string>, x: string)
    requires |s| == 1 && x in s
    ensures s == {x}
  {
    assert |s - {x}| == 0;
    assert s - {x} == {};
  }

  /** `assign` gives each listed allergen a distinct ingredient of every
      food that lists it: a solution of the puzzle. */
  ghost predicate Explains(foods: seq<Food>, assign: map<string, string>)
  {
    assign.Keys == Allergens(foods)
    && (forall a, b :: a in assign && b in assign && a != b ==> assign[a] != assign[b])
    && (forall a :: a in assign ==> InEvery(foods, a, assign[a]))
  }

  /** A solution of the puzzle is a distinct choice of candidates. */
  lemma ExplainsAssignment(foods: seq<Food>, assign: map<string, string>)
    requires Explains(foods, assign)
    ensures Assignment(Candidates(foods), assign)
  {
    forall a | a in Candidates(foods)
      ensures assign[a] in Candidates(foods)[a]
    {
      CandidatesExact(foods, a, assign[a]);
    }
  }

  /** A pass keeps every assignment that the sets still allow. */
  lemma EliminatedKeeps(m: map<string, set<string>>, b: string, assign: map<string, string>)
    requires Assignment(m, assign) && b in m && |m[b]| == 1
    ensures Assignment(Eliminated(m, m[b]), assign)
  {
    SingletonIs(m[b], assign[b]);
  }

  /** When the loop ends, every allergen is left with exactly the
      ingredient any distinct choice of candidates gives it. */
  lemma {:induction false} EliminateSolves(m: map<string, set<string>>, orders: seq<seq<string>>, assign: map<string, string>)
    requires Assignment(m, assign) && Eliminate(m, orders).Some?
    ensures forall a :: a in m ==> Eliminate(m, orders).value[a] == {assign[a]}
    decreases |orders|
  {
    if !Multiple(m) {
      forall a | a in m
        ensures m[a] == {assign[a]}
      {
        assert |m[a]| <= 1;
        SingletonIs(m[a], assign[a]);
      }
    } else {
      var k := FirstSingleton(m, orders[0]).value;
      EliminatedKeeps(m, orders[0][k], assign);
      EliminateSolves(Eliminated(m, m[orders[0][k]]), orders[1..], assign);
    }
  }

  /** A pass whose singleton is missing from every other set changes
      nothing. */
  lemma EliminatedNothing(m: map<string, set<string>>, s: set<string>)
    requires forall a :: a in m && |m[a]| != 1 ==> m[a] !! s
    ensures Eliminated(m, s) == m
  {
    var r := Eliminated(m, s);
    forall a | a in m
      ensures r[a] == m[a]
    {
      if |m[a]| != 1 {
        assert m[a] - s == m[a];
      }
    }
  }

  /** Candidates on which no pass makes progress: the only singleton is
      `{x}`, and removing `x` leaves `{y, z}` as it was. */
  function Stuck(a: string, b: string, x: string, y: string, z: string): map<string, set<string>>
  {
    map[a := {x}, b := {y, z}]
  }

  /** On `Stuck` the loop never ends, whatever order each pass walks in. */
  lemma {:induction false} StuckForever(a: string, b: string, x: string, y: string, z: string, orders: seq<seq<string>>)
    requires a != b && x != y && x != z && y != z
    ensures Eliminate(Stuck(a, b, x, y, z), orders) == None
    decreases |orders|
  {
    var m := Stuck(a, b, x, y, z);
    assert |m[b]| == 2;
    assert Multiple(m);
    if orders != [] {
      match FirstSingleton(m, orders[0])
      case None =>
      case Some(k) =>
        assert orders[0][k] == a;
        EliminatedNothing(m, {x});
        StuckForever(a, b, x, y, z, orders[1..]);
    }
  }

  /** Candidates where the order of the pass decides: `a` is picked first
      under one order and changes nothing, `b` under the other and settles
      `c`. */
  function Racy(a: string, b: string, c: string, x: string, y: string, z: string): map<string, set<string>>
  {
    map[a := {x}, b := {y}, c := {y, z}]
  }

  lemma RacyStalls(a: string, b: string, c: string, x: string, y: string, z: string)
    requires a != b && a != c && b != c && x != y && x != z && y != z
    ensures Eliminate(Racy(a, b, c, x, y, z), [[a, b, c]]) == None
  {
    var m := Racy(a, b, c, x, y, z);
    assert |m[c]| == 2;
    assert Multiple(m);
    assert FirstSingleton(m, [a, b, c]) == Some(0);
    EliminatedNothing(m, {x});
  }

  lemma RacySettles(a: string, b: string, c: string, x: string, y: string, z: string)
    requires a != b && a != c && b != c && x != y && x != z && y != z
    ensures Eliminate(Racy(a, b, c, x, y, z), [[b, a, c]]) == Some(map[a := {x}, b := {y}, c := {z}])
  {
    var m := Racy(a, b, c, x, y, z);
    assert |m[c]| == 2;
    assert Multiple(m);
    assert FirstSingleton(m, [b, a, c]) == Some(0);
    var r := Eliminated(m, {y});
    assert r[c] == {z} by {
      assert m[c] - {y} == {z};
    }
    assert r == map[a := {x}, b := {y}, c := {z}];
    assert |r[c]| == 1;
    assert !Multiple(r);
  }

  /** The singleton `find` returns need not make progress. With one
      singleton whose ingredient no other set holds, no order ever ends
      the loop; and on the same sets one order of a pass can stall where
      another ends the loop. */
  lemma FindNeedNotProgress(orders: seq<seq<string>>)
    ensures Eliminate(map["dairy" := {"mxmxvkd"}, "fish" := {"sqjhc", "fvjkl"}], orders) == None
    ensures Eliminate(map["dairy" := {"mxmxvkd"}, "fish" := {"sqjhc"}, "soy" := {"sqjhc", "fvjkl"}], [["dairy", "fish", "soy"]]) == None
    ensures Eliminate(map["dairy" := {"mxmxvkd"}, "fish" := {"sqjhc"}, "soy" := {"sqjhc", "fvjkl"}], [["fish", "dairy", "soy"]])
      == Some(map["dairy" := {"mxmxvkd"}, "fish" := {"sqjhc"}, "soy" := {"fvjkl"}])
  {
    assert "dairy"[0] != "fish"[0] && "dairy"[0] != "soy"[0] && "fish"[0] != "soy"[0];
    assert "mxmxvkd"[0] != "sqjhc"[0] && "mxmxvkd"[0] != "fvjkl"[0] && "sqjhc"[0] != "fvjkl"[0];
    StuckForever("dairy", "fish", "mxmxvkd", "sqjhc", "fvjkl", orders);
    RacyStalls("dairy", "fish", "soy", "mxmxvkd", "sqjhc", "fvjkl");
    RacySettles("dairy", "fish", "soy", "mxmxvkd", "sqjhc", "fvjkl");
  }

  /** The ingredient `v.iter().next().unwrap()` takes from each set, in the
      order the map lists its keys; an empty set panics. */
  function Firsts(m: map<string, set<string>>, listing: seq<string>): (r: Option<seq<(string, string)>>)
    requires forall k :: 0 <= k < |listing| ==> listing[k] in m && |m[listing[k]]| <= 1
    ensures r.Some? ==> |r.value| == |listing|
    ensures r.Some? ==> forall k :: 0 <= k < |listing| ==> r.value[k] == (listing[k], r.value[k].1) && m[listing[k]] == {r.value[k].1}
    ensures r.None? <==> exists k :: 0 <= k < |listing| && m[listing[k]] == {}
  {
    if listing == [] then Some([])
    else if m[listing[0]] == {} then None
    else
      var x :| x in m[listing[0]];
      SingletonIs(m[listing[0]], x);
      match Firsts(m, listing[1..])
      case None => None
      case Some(rest) => Some([(listing[0], x)] + rest)
  }

  /** The `fold` with `format!("{},{}", canonical, ing.1)`. */
  function Commas(names: seq<string>): (r: string)
  {
    if names == [] then [] else Commas(names[..|names| - 1]) + [','] + names[|names| - 1]
  }

  /** The fold with its leading comma cut off by `[1..]`, which panics on
      an empty string. */
  function Canonical(names: seq<string>): (r: Option<string>)
    ensures r.None? <==> names == []
    ensures r.Some? ==> r.value == Join(names, ',')
  {
    var text := Commas(names);
    CommasJoin(names);
    if |text| < 1 then None else Some(text[1..])
  }

  /** The fold is a comma before each name. */
  lemma {:induction false} CommasJoin(names: seq<string>)
    ensures names == [] <==> Commas(names) == []
    ensures names != [] ==> Commas(names) == [','] + Join(names, ',')
  {
    if names != [] {
      var n := |names| - 1;
      var init := names[..n];
      assert Commas(names) == Commas(init) + [','] + names[n];
      if n > 0 {
        CommasJoin(init);
        JoinSnoc(init, names[n]);
        assert init + [names[n]] == names;
        assert Commas(names) == [','] + (Join(init, ',') + [','] + names[n]);
      } else {
        assert Join(names, ',') == names[0];
      }
    }
  }

  lemma {:induction false} JoinSnoc(parts: seq<string>, last: string)
    requires |parts| >= 1
    ensures Join(parts + [last], ',') == Join(parts, ',') + [','] + last
  {
    if |parts| > 1 {
      JoinSnoc(parts[1..], last);
      assert (parts + [last])[1..] == parts[1..] + [last];
    }
  }

  /** The ingredient of each pair. */
  function Seconds(pairs: seq<(string, string)>): (r: seq<string>)
    ensures |r| == |pairs| && forall k :: 0 <= k < |pairs| ==> r[k] == pairs[k].1
  {
    seq(|pairs|, k requires 0 <= k < |pairs| => pairs[k].1)
  }

  /** `part2` on the candidates, with the order of every pass and the
      order the final map lists its keys in. */
  function Part2(candidates: map<string, set<string>>, orders: seq<seq<string>>, listing: seq<string>): (r: Option<string>)
    requires forall k :: 0 <= k < |listing| ==> listing[k] in candidates
    ensures r.Some? <==> (Eliminate(candidates, orders).Some? && listing != [] &&
                          forall k :: 0 <= k < |listing| ==> |Eliminate(candidates, orders).value[listing[k]]| == 1)
  {
    match Eliminate(candidates, orders)
    case None => None
    case Some(m) =>
      match Firsts(m, listing)
      case None => None
      case Some(pairs) => Canonical(Seconds(SortPairs(pairs)))
  }

  /** Strictly ascending names. */
  predicate Ascending(names: seq<string>)
  {
    forall i, j :: 0 <= i < j < |names| ==> StrLt(names[i], names[j])
  }

  /** There is one ascending listing of a set. */
  lemma {:induction false} AscendingUnique(xs: seq<string>, ys: seq<string>)
    requires Ascending(xs) && Ascending(ys)
    requires forall a :: a in xs <==> a in ys
    ensures xs == ys
    decreases |xs|
  {
    if xs != [] {
      assert xs[0] in xs;
    }
    if ys != [] {
      assert ys[0] in ys;
    }
    if xs != [] && ys != [] {
      var j :| 0 <= j < |ys| && ys[j] == xs[0];
      var i :| 0 <= i < |xs| && xs[i] == ys[0];
      if i != 0 && j != 0 {
        StrLeAntisym(xs[0], ys[0]);
      }
      assert xs[0] == ys[0];
      forall a
        ensures a in xs[1..] <==> a in ys[1..]
      {
        if a in xs[1..] {
          TailMember(xs, ys, a);
        }
        if a in ys[1..] {
          TailMember(ys, xs, a);
        }
      }
      AscendingUnique(xs[1..], ys[1..]);
      assert xs == [xs[0]] + xs[1..] && ys == [ys[0]] + ys[1..];
    }
  }

  lemma TailMember(xs: seq<string>, ys: seq<string>, a: string)
    requires Ascending(xs) && Ascending(ys) && xs != [] && ys != [] && xs[0] == ys[0]
    requires forall b :: b in xs <==> b in ys
    requires a in xs[1..]
    ensures a in ys[1..]
  {
    var k :| 0 <= k < |xs[1..]| && xs[1..][k] == a;
    assert xs[k + 1] == a;
    assert a in xs;
    var m :| 0 <= m < |ys| && ys[m] == a;
    assert m != 0;
    assert ys[1..][m - 1] == a;
  }

  /** The chosen ingredients of the allergens in a listing. */
  function Values(assign: map<string, string>, names: seq<string>): (r: seq<string>)
    requires forall k :: 0 <= k < |names| ==> names[k] in assign
    ensures |r| == |names| && forall k :: 0 <= k < |names| ==> r[k] == assign[names[k]]
  {
    seq(|names|, k requires 0 <= k < |names| => assign[names[k]])
  }

  /** When the loop ends, `part2` joins with commas the ingredients of the
      allergens in ascending order of their names. */
  lemma Part2Solves(candidates: map<string, set<string>>, orders: seq<seq<string>>, listing: seq<string>,
                    assign: map<string, string>, names: seq<string>)
    requires Assignment(candidates, assign) && Eliminate(candidates, orders).Some?
    requires forall k :: 0 <= k < |listing| ==> listing[k] in candidates
    requires forall a :: a in candidates ==> a in listing
    requires forall i, j :: 0 <= i < j < |listing| ==> listing[i] != listing[j]
    requires Ascending(names) && forall a :: a in candidates <==> a in names
    requires candidates != map[]
    ensures Part2(candidates, orders, listing) == Some(Join(Values(assign, names), ','))
  {
    var m := Eliminate(candidates, orders).value;
    EliminateSolves(candidates, orders, assign);
    FirstsAssigned(m, listing, assign);
    var pairs := Firsts(m, listing).value;
    var sorted := SortPairs(pairs);
    SortedKeys(sorted, pairs, listing, assign);
    var keys := Keys(sorted);
    AscendingUnique(keys, names);
  }

  /** With every set down to its assigned ingredient, the pairs are the
      allergens of the listing with their ingredients. */
  lemma {:induction false} FirstsAssigned(m: map<string, set<string>>, listing: seq<string>, assign: map<string, string>)
    requires forall k :: 0 <= k < |listing| ==> listing[k] in m
    requires forall a :: a in m ==> a in assign && m[a] == {assign[a]}
    ensures Firsts(m, listing).Some?
    ensures forall k :: 0 <= k < |listing| ==> Firsts(m, listing).value[k] == (listing[k], assign[listing[k]])
  {
  }

  /** Sorted pairs of distinct allergens and their ingredients list the
      allergens in ascending order. */
  lemma SortedKeys(sorted: seq<(string, string)>, pairs: seq<(string, string)>,
                   listing: seq<string>, assign: map<string, string>)
    requires PairsSorted(sorted) && multiset(sorted) == multiset(pairs) && |pairs| == |listing|
    requires forall k :: 0 <= k < |listing| ==> listing[k] in assign && pairs[k] == (listing[k], assign[listing[k]])
    requires forall i, j :: 0 <= i < j < |listing| ==> listing[i] != listing[j]
    ensures Ascending(Keys(sorted))
    ensures forall a :: a in Keys(sorted) <==> a in listing
    ensures forall k :: 0 <= k < |sorted| ==> Keys(sorted)[k] in assign
    ensures Seconds(sorted) == Values(assign, Keys(sorted))
  {
    var keys := Keys(sorted);
    SortedFromListing(sorted, pairs, listing, assign);
    forall i, j | 0 <= i < j < |keys|
      ensures StrLt(keys[i], keys[j])
    {
      if sorted[i] == sorted[j] {
        TwiceCount(sorted, i, j);
        DistinctCount(pairs, sorted[i]);
      }
    }
    forall a | a in listing
      ensures a in keys
    {
      var j :| 0 <= j < |listing| && listing[j] == a;
      assert pairs[j] in multiset(sorted);
      var k :| 0 <= k < |sorted| && sorted[k] == pairs[j];
      assert keys[k] == a;
    }
  }

  /** The allergen of each pair. */
  function Keys(pairs: seq<(string, string)>): (r: seq<string>)
    ensures |r| == |pairs| && forall k :: 0 <= k < |pairs| ==> r[k] == pairs[k].0
  {
    seq(|pairs|, k requires 0 <= k < |pairs| => pairs[k].0)
  }

  /** Sorting pairs of distinct allergens and their ingredients keeps them
      such pairs. */
  lemma SortedFromListing(sorted: seq<(string, string)>, pairs: seq<(string, string)>,
                          listing: seq<string>, assign: map<string, string>)
    requires multiset(sorted) == multiset(pairs) && |pairs| == |listing|
    requires forall k :: 0 <= k < |listing| ==> listing[k] in assign && pairs[k] == (listing[k], assign[listing[k]])
    requires forall i, j :: 0 <= i < j < |listing| ==> listing[i] != listing[j]
    ensures forall k :: 0 <= k < |sorted| ==> sorted[k].0 in assign && sorted[k].1 == assign[sorted[k].0]
    ensures forall k :: 0 <= k < |sorted| ==> sorted[k].0 in listing
    ensures forall i, j :: 0 <= i < j < |pairs| ==> pairs[i] != pairs[j]
  {
    forall k | 0 <= k < |sorted|
      ensures sorted[k].0 in assign && sorted[k].1 == assign[sorted[k].0] && sorted[k].0 in listing
    {
      assert sorted[k] in multiset(pairs);
      var j :| 0 <= j < |pairs| && pairs[j] == sorted[k];
    }
    forall i, j | 0 <= i < j < |pairs|
      ensures pairs[i] != pairs[j]
    {
      assert pairs[i].0 != pairs[j].0;
    }
  }

  /** An element at two positions occurs twice. */
  lemma TwiceCount<T>(s: seq<T>, i: nat, j: nat)
    requires i < j < |s| && s[i] == s[j]
    ensures multiset(s)[s[i]] >= 2
  {
    assert s == s[..j] + [s[j]] + s[j + 1..];
    assert s[..j][i] == s[i];
    assert s[i] in multiset(s[..j]);
  }

  /** Distinct elements occur once each. */
  lemma {:induction false} DistinctCount<T>(s: seq<T>, x: T)
    requires forall i, j :: 0 <= i < j < |s| ==> s[i] != s[j]
    ensures multiset(s)[x] <= 1
  {
    if s != [] {
      assert s == [s[0]] + s[1..];
      DistinctCount(s[1..], x);
      if x == s[0] {
        assert x !in s[1..];
      }
    }
  }
}
