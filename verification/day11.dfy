/** Day 11: seating. Every round decides each seat from the previous round's
    grid: an empty seat ('L') with no occupied seat around becomes occupied
    ('#'), an occupied seat with too many occupied around becomes empty, and
    everything else stays. Part 1 looks at the eight neighbours with threshold
    4, part 2 at the first seat visible in each direction with threshold 5. */
module Day11 {
  import opened Wrappers
  import opened Day11Grid

  datatype Part = One | Two

  function Threshold(part: Part): nat
  {
    if part == One then 4 else 5
  }

  /** The `match (taken, seat)` of both iterations. */
  function NextSeat(seat: char, taken: nat, threshold: nat): char
  {
    if taken == 0 && seat == 'L' then '#'
    else if seat == '#' && taken >= threshold then 'L'
    else seat
  }

  /** The rule changes only seats, and moves each one the way the puzzle says. */
  lemma NextSeatCases(seat: char, taken: nat, threshold: nat)
    ensures !IsSeat(seat) ==> NextSeat(seat, taken, threshold) == seat
    ensures seat == 'L' ==> (NextSeat(seat, taken, threshold) == '#' <==> taken == 0)
    ensures seat == '#' ==> (NextSeat(seat, taken, threshold) == 'L' <==> taken >= threshold)
    ensures IsSeat(seat) ==> IsSeat(NextSeat(seat, taken, threshold))
  {
  }

  /** The number of '#' in `s`. */
  function Hashes(s: seq<char>): nat
    ensures Hashes(s) <= |s|
  {
    if s == [] then 0 else Hashes(s[..|s| - 1]) + (if s[|s| - 1] == '#' then 1 else 0)
  }

  lemma {:induction false} HashesAppend(a: seq<char>, b: seq<char>)
    ensures Hashes(a + b) == Hashes(a) + Hashes(b)
    decreases |b|
  {
    if b != [] {
      assert (a + b)[..|a + b| - 1] == a + b[..|b| - 1];
      assert (a + b)[|a + b| - 1] == b[|b| - 1];
      assert Hashes(b) == Hashes(b[..|b| - 1]) + (if b[|b| - 1] == '#' then 1 else 0);
      HashesAppend(a, b[..|b| - 1]);
      assert Hashes(a + b) == Hashes((a + b)[..|a + b| - 1]) + (if (a + b)[|a + b| - 1] == '#' then 1 else 0);
    } else {
      assert a + b == a;
    }
  }

  /** How many of the looked-at places hold an occupied seat. */
  function OccupiedAmong(s: seq<Option<char>>): nat
  {
    if s == [] then 0 else (if s[0] == Some('#') then 1 else 0) + OccupiedAmong(s[1..])
  }

  /** Counting '#' after `filter_map` counts the places holding '#'. */
  lemma {:induction false} HashesSomes(s: seq<Option<char>>)
    ensures Hashes(Somes(s)) == OccupiedAmong(s)
  {
    if s != [] {
      var head: seq<char> := if s[0].Some? then [s[0].value] else [];
      HashesSomes(s[1..]);
      HashesAppend(head, Somes(s[1..]));
      if s[0].Some? {
        assert head[..0] == [];
      }
    }
  }

  lemma Directions()
    ensures forall k :: 0 <= k < 8 ==> Direction(ROW_STEPS[k], COLUMN_STEPS[k])
  {
    forall k | 0 <= k < 8
      ensures Direction(ROW_STEPS[k], COLUMN_STEPS[k])
    {
      if k == 0 {} else if k == 1 {} else if k == 2 {} else if k == 3 {}
      else if k == 4 {} else if k == 5 {} else if k == 6 {} else {}
    }
  }

  /** The first seat visible in each of the eight directions, starting one step
      away (`DIRECTIONS` and `in_sight`). */
  function Sights(g: Grid, row: int, column: int): (r: seq<Option<char>>)
    requires WellFormed(g)
    ensures |r| == 8
  {
    Directions();
    seq(8, k requires 0 <= k < 8 =>
      FirstSeat(g, row + ROW_STEPS[k], column + COLUMN_STEPS[k], ROW_STEPS[k], COLUMN_STEPS[k]))
  }

  /** The occupied seats a cell takes into account. */
  function Taken(g: Grid, row: int, column: int, part: Part): nat
    requires WellFormed(g)
  {
    if part == One then Hashes(Neighbors(g, row, column))
    else Hashes(Somes(Sights(g, row, column)))
  }

  /** Part 1 counts occupied neighbours; part 2 counts the directions whose
      first visible seat is occupied. */
  lemma TakenCounts(g: Grid, row: int, column: int)
    requires WellFormed(g)
    ensures Taken(g, row, column, One) == OccupiedAmong(Around(g, row, column))
    ensures Taken(g, row, column, Two) == OccupiedAmong(Sights(g, row, column))
  {
    HashesSomes(Around(g, row, column));
    HashesSomes(Sights(g, row, column));
  }

  function NextCell(g: Grid, row: int, column: int, part: Part): char
    requires WellFormed(g) && InBounds(g, row, column)
  {
    NextSeat(g.points[row][column], Taken(g, row, column, part), Threshold(part))
  }

  /** One synchronous round: every in-bounds cell follows the rule applied to
      the old grid; cells past `columns` on a longer line stay. */
  function Step(g: Grid, part: Part): (r: Grid)
    requires WellFormed(g)
    ensures WellFormed(r) && SameShape(g, r)
  {
    Grid(seq(|g.points|, i requires 0 <= i < |g.points| =>
        seq(|g.points[i]|, j requires 0 <= j < |g.points[i]| =>
          if j < g.columns then NextCell(g, i, j, part) else g.points[i][j])),
      g.rows, g.columns)
  }

  /** '#' cells in the first `n` lines, reading `w` columns of each. */
  function RowsOccupied(points: seq<seq<char>>, n: nat, w: nat): nat
    requires n <= |points| && forall i :: 0 <= i < |points| ==> |points[i]| >= w
  {
    if n == 0 then 0 else RowsOccupied(points, n - 1, w) + Hashes(points[n - 1][..w])
  }

  /** The number of occupied seats in the grid. */
  function Occupied(g: Grid): nat
    requires WellFormed(g)
  {
    RowsOccupied(g.points, g.rows, g.columns)
  }

  lemma {:induction false} RowsOccupiedFrame(p: seq<seq<char>>, q: seq<seq<char>>, n: nat, w: nat)
    requires n <= |p| && n <= |q|
    requires forall i :: 0 <= i < |p| ==> |p[i]| >= w
    requires forall i :: 0 <= i < |q| ==> |q[i]| >= w
    requires forall i :: 0 <= i < n ==> p[i][..w] == q[i][..w]
    ensures RowsOccupied(p, n, w) == RowsOccupied(q, n, w)
  {
    if n > 0 {
      RowsOccupiedFrame(p, q, n - 1, w);
    }
  }

  /** The cells already decided when the walk is at `(row, column)`. */
  predicate Decided(g: Grid, ng: Grid, part: Part, row: int, column: int)
    requires WellFormed(g) && WellFormed(ng) && SameShape(g, ng)
  {
    forall i, j :: 0 <= i < |g.points| && 0 <= j < |g.points[i]| ==>
      ng.points[i][j] ==
        if j < g.columns && (i < row || (i == row && j < column)) then NextCell(g, i, j, part) else g.points[i][j]
  }

  /** `iteration_part1` and `iteration_part2`: walks the points in row-major
      order (the order of `points_iter`), decides each from the old grid, writes
      changes into a clone with `set`, and counts the seats that end up
      occupied. */
  method Iteration(g: Grid, part: Part) returns (ng: Grid, occupied: nat)
    requires WellFormed(g)
    ensures ng == Step(g, part)
    ensures occupied == Occupied(ng)
  {
    ng := g;
    occupied := 0;
    for row := 0 to g.rows
      invariant WellFormed(ng) && SameShape(g, ng)
      invariant Decided(g, ng, part, row, 0)
      invariant occupied == RowsOccupied(ng.points, row, g.columns)
    {
      ng, occupied := VisitRow(g, ng, part, row, occupied);
    }
    StepIsDecided(g, ng, part);
  }

  /** The points of one row, left to right. */
  method VisitRow(g: Grid, ng: Grid, part: Part, row: int, occupied: nat) returns (ng': Grid, occupied': nat)
    requires WellFormed(g) && WellFormed(ng) && SameShape(g, ng) && 0 <= row < g.rows
    requires Decided(g, ng, part, row, 0)
    requires occupied == RowsOccupied(ng.points, row, g.columns)
    ensures WellFormed(ng') && SameShape(g, ng')
    ensures Decided(g, ng', part, row + 1, 0)
    ensures occupied' == RowsOccupied(ng'.points, row + 1, g.columns)
  {
    ng', occupied' := ng, occupied;
    for column := 0 to g.columns
      invariant WellFormed(ng') && SameShape(g, ng')
      invariant Decided(g, ng', part, row, column)
      invariant occupied' == RowsOccupied(ng'.points, row, g.columns) + Hashes(ng'.points[row][..column])
    {
      var before := ng';
      var counted: nat;
      ng', counted := Visit(g, ng', part, row, column);
      occupied' := occupied' + counted;
      DecideCell(g, before, ng', part, row, column);
    }
    RowDone(g, ng', part, row);
  }

  lemma RowDone(g: Grid, ng: Grid, part: Part, row: int)
    requires WellFormed(g) && WellFormed(ng) && SameShape(g, ng) && 0 <= row < g.rows
    requires Decided(g, ng, part, row, g.columns)
    ensures Decided(g, ng, part, row + 1, 0)
    ensures RowsOccupied(ng.points, row + 1, g.columns) ==
      RowsOccupied(ng.points, row, g.columns) + Hashes(ng.points[row][..g.columns])
  {
  }

  /** One point of the walk: the `match (taken, seat)` arm, writing with `set`
      only when the seat changes, and counting the seat if it ends up occupied. */
  method Visit(g: Grid, ng: Grid, part: Part, row: int, column: int) returns (ng': Grid, counted: nat)
    requires WellFormed(g) && WellFormed(ng) && SameShape(g, ng) && InBounds(g, row, column)
    requires ng.points[row][column] == g.points[row][column]
    ensures ng' == ng.(points := ng.points[row := ng.points[row][column := NextCell(g, row, column, part)]])
    ensures counted == if NextCell(g, row, column, part) == '#' then 1 else 0
  {
    var seat := Get(g, row, column).value;
    var taken := Taken(g, row, column, part);
    ghost var v := NextCell(g, row, column, part);
    ng', counted := ng, 0;
    if taken == 0 && seat == 'L' {
      ng' := Set(ng, row, column, '#').0;
      counted := 1;
    } else if seat == '#' && taken >= Threshold(part) {
      ng' := Set(ng, row, column, 'L').0;
    } else {
      assert ng.points[row][column := v] == ng.points[row];
      if seat == '#' {
        counted := 1;
      }
    }
  }

  /** Deciding the cell at `(row, column)` extends the decided region by one
      cell and the count by the cell's new seat. */
  lemma DecideCell(g: Grid, before: Grid, ng: Grid, part: Part, row: int, column: int)
    requires WellFormed(g) && WellFormed(before) && SameShape(g, before)
    requires InBounds(g, row, column) && Decided(g, before, part, row, column)
    requires ng == before.(points := before.points[row := before.points[row][column := NextCell(g, row, column, part)]])
    ensures WellFormed(ng) && SameShape(g, ng)
    ensures Decided(g, ng, part, row, column + 1)
    ensures RowsOccupied(ng.points, row, g.columns) == RowsOccupied(before.points, row, g.columns)
    ensures Hashes(ng.points[row][..column + 1]) ==
      Hashes(before.points[row][..column]) + (if NextCell(g, row, column, part) == '#' then 1 else 0)
  {
    DecideCellRegion(g, before, ng, part, row, column);
    DecideCellCount(g, before, ng, part, row, column);
  }

  lemma DecideCellRegion(g: Grid, before: Grid, ng: Grid, part: Part, row: int, column: int)
    requires WellFormed(g) && WellFormed(before) && SameShape(g, before)
    requires InBounds(g, row, column) && Decided(g, before, part, row, column)
    requires ng == before.(points := before.points[row := before.points[row][column := NextCell(g, row, column, part)]])
    ensures WellFormed(ng) && SameShape(g, ng)
    ensures Decided(g, ng, part, row, column + 1)
  {
    forall i, j | 0 <= i < |g.points| && 0 <= j < |g.points[i]|
      ensures ng.points[i][j] ==
        if j < g.columns && (i < row || (i == row && j < column + 1)) then NextCell(g, i, j, part) else g.points[i][j]
    {
      if i == row && j == column {
      } else {
        assert ng.points[i][j] == before.points[i][j];
      }
    }
  }

  lemma DecideCellCount(g: Grid, before: Grid, ng: Grid, part: Part, row: int, column: int)
    requires WellFormed(g) && WellFormed(before) && SameShape(g, before)
    requires InBounds(g, row, column)
    requires ng == before.(points := before.points[row := before.points[row][column := NextCell(g, row, column, part)]])
    ensures WellFormed(ng)
    ensures RowsOccupied(ng.points, row, g.columns) == RowsOccupied(before.points, row, g.columns)
    ensures Hashes(ng.points[row][..column + 1]) ==
      Hashes(before.points[row][..column]) + (if NextCell(g, row, column, part) == '#' then 1 else 0)
  {
    RowsOccupiedFrame(before.points, ng.points, row, g.columns);
    var line := ng.points[row][..column + 1];
    assert line[..column] == before.points[row][..column];
  }

  lemma StepIsDecided(g: Grid, ng: Grid, part: Part)
    requires WellFormed(g) && WellFormed(ng) && SameShape(g, ng)
    requires Decided(g, ng, part, g.rows, 0)
    ensures ng == Step(g, part)
  {
    var s := Step(g, part);
    forall i | 0 <= i < |g.points|
      ensures ng.points[i] == s.points[i]
    {
    }
  }

  /** `k` rounds. */
  function Rounds(g: Grid, part: Part, k: nat): (r: Grid)
    requires WellFormed(g)
    ensures WellFormed(r)
  {
    if k == 0 then g else Step(Rounds(g, part, k - 1), part)
  }

  /** A round leaves the grid as it is. */
  predicate Stable(g: Grid, part: Part)
    requires WellFormed(g)
  {
    Step(g, part) == g
  }

  /** The loops of `part1` and `part2`: repeat rounds until one changes
      nothing, then answer with that round's count. The source loops without
      bound; at most `fuel` rounds are run here, and `None` means they were not
      enough. The answer is the occupied count of the first stable round. */
  method Settle(g: Grid, part: Part, fuel: nat) returns (r: Option<nat>)
    requires WellFormed(g)
    ensures r.Some? ==> exists k :: 0 <= k < fuel && FirstStable(g, part, k) && r.value == Occupied(Rounds(g, part, k))
    ensures r.None? <==> NoneStable(g, part, fuel)
  {
    var grid := g;
    for k := 0 to fuel
      invariant grid == Rounds(g, part, k)
      invariant NoneStable(g, part, k)
    {
      var next, occupied := Iteration(grid, part);
      if grid == next {
        assert FirstStable(g, part, k);
        return Some(occupied);
      }
      RoundsNext(g, part, k);
      grid := next;
    }
    return None;
  }

  /** Round `k` is the first stable one. */
  predicate FirstStable(g: Grid, part: Part, k: nat)
    requires WellFormed(g)
  {
    Stable(Rounds(g, part, k), part) && NoneStable(g, part, k)
  }

  /** No round before round `k` is stable. */
  predicate NoneStable(g: Grid, part: Part, k: nat)
    requires WellFormed(g)
  {
    forall j :: 0 <= j < k ==> !Stable(Rounds(g, part, j), part)
  }

  lemma RoundsNext(g: Grid, part: Part, k: nat)
    requires WellFormed(g)
    ensures Rounds(g, part, k + 1) == Step(Rounds(g, part, k), part)
  {
  }

  /** `part1` and `part2` from the puzzle input. An empty input panics in
      `Grid2D::new`, and a line shorter than the first panics in `get`: both
      `None`, as is running out of fuel. */
  method Solve(lines: seq<string>, part: Part, fuel: nat) returns (r: Option<nat>)
    ensures lines == [] ==> r.None?
    ensures r.None? <==> lines == [] || !WellFormed(New(lines).value) || NoneStable(New(lines).value, part, fuel)
    ensures r.Some? ==> exists g :: (New(lines) == Some(g) && WellFormed(g) &&
      exists k :: 0 <= k < fuel && FirstStable(g, part, k) && r.value == Occupied(Rounds(g, part, k)))
  {
    var g := New(lines);
    if g.None? || !WellFormed(g.value) {
      return None;
    }
    r := Settle(g.value, part, fuel);
  }
}
