/** The seat grid of day 11: rows of characters with a fixed number of rows and
    columns, a bounds-checked accessor, the eight neighbours of a cell, rays in
    one of the eight directions, and the row-major walk over the cells. */
module Day11Grid {
  import opened Wrappers

  /** `Grid2D`: `columns` is the length of the first line; a later line may be
      longer (its extra cells are never read) but not shorter. */
  datatype Grid = Grid(points: seq<seq<char>>, rows: int, columns: int)

  predicate WellFormed(g: Grid)
  {
    g.rows == |g.points| && g.columns >= 0 &&
    forall r :: 0 <= r < |g.points| ==> |g.points[r]| >= g.columns
  }

  /** `Grid2D::new`: `points[0]` panics on empty input (`None`). */
  function New(lines: seq<string>): (r: Option<Grid>)
    ensures r.None? <==> lines == []
    ensures r.Some? ==> r.value.points == lines && r.value.rows == |lines| && r.value.columns == |lines[0]|
    ensures r.Some? ==> (WellFormed(r.value) <==> forall k :: 0 <= k < |lines| ==> |lines[k]| >= |lines[0]|)
  {
    if lines == [] then None else Some(Grid(lines, |lines|, |lines[0]|))
  }

  predicate InBounds(g: Grid, row: int, column: int)
  {
    0 <= row < g.rows && 0 <= column < g.columns
  }

  /** `Grid2D::get`. */
  function Get(g: Grid, row: int, column: int): (r: Option<char>)
    requires WellFormed(g)
    ensures r.None? <==> !InBounds(g, row, column)
    ensures r.Some? ==> r.value == g.points[row][column]
  {
    if row < 0 || column < 0 || row >= g.rows || column >= g.columns then None
    else Some(g.points[row][column])
  }

  /** Same shape: the same rows, columns and line lengths. */
  predicate SameShape(a: Grid, b: Grid)
  {
    a.rows == b.rows && a.columns == b.columns && |a.points| == |b.points| &&
    forall r :: 0 <= r < |a.points| ==> |a.points[r]| == |b.points[r]|
  }

  /** `Grid2D::set`: out of bounds nothing changes and the answer is `false`;
      in bounds exactly one cell changes and the answer is `true`. */
  function Set(g: Grid, row: int, column: int, value: char): (r: (Grid, bool))
    requires WellFormed(g)
    ensures r.1 <==> InBounds(g, row, column)
    ensures !r.1 ==> r.0 == g
    ensures WellFormed(r.0) && SameShape(g, r.0)
    ensures r.1 ==> r.0.points[row][column] == value
    ensures forall i, j :: 0 <= i < |g.points| && 0 <= j < |g.points[i]| && (i, j) != (row, column) ==>
      r.0.points[i][j] == g.points[i][j]
  {
    if row < 0 || column < 0 || row >= g.rows || column >= g.columns then (g, false)
    else
      var line := g.points[row][column := value];
      (g.(points := g.points[row := line]), true)
  }

  /** Reading after writing: the written cell reads back the new value, every
      other point reads as before. */
  lemma GetSet(g: Grid, row: int, column: int, value: char, i: int, j: int)
    requires WellFormed(g)
    ensures Get(Set(g, row, column, value).0, i, j) ==
      if (i, j) == (row, column) && InBounds(g, row, column) then Some(value) else Get(g, i, j)
  {
  }

  /** The eight directions, in the order `neighbors` and `DIRECTIONS` list them. */
  const ROW_STEPS: seq<int> := [0, 1, 1, 1, 0, -1, -1, -1]
  const COLUMN_STEPS: seq<int> := [-1, -1, 0, 1, 1, 1, 0, -1]

  /** The values of `s` that are present, in order (`filter_map`). */
  function Somes(s: seq<Option<char>>): (r: seq<char>)
    ensures |r| <= |s|
  {
    if s == [] then [] else (if s[0].Some? then [s[0].value] else []) + Somes(s[1..])
  }

  /** How many entries of `s` are present. */
  function Present(s: seq<Option<char>>): nat
  {
    if s == [] then 0 else (if s[0].Some? then 1 else 0) + Present(s[1..])
  }

  lemma {:induction false} SomesLength(s: seq<Option<char>>)
    ensures |Somes(s)| == Present(s)
  {
    if s != [] {
      SomesLength(s[1..]);
    }
  }

  /** The eight cells around `(row, column)`, absent where out of bounds. */
  function Around(g: Grid, row: int, column: int): (r: seq<Option<char>>)
    requires WellFormed(g)
    ensures |r| == 8
    ensures forall k :: 0 <= k < 8 ==> r[k] == Get(g, row + ROW_STEPS[k], column + COLUMN_STEPS[k])
  {
    seq(8, k requires 0 <= k < 8 => Get(g, row + ROW_STEPS[k], column + COLUMN_STEPS[k]))
  }

  /** `Grid2D::neighbors`: the in-bounds cells among the eight around, in order. */
  function Neighbors(g: Grid, row: int, column: int): (r: seq<char>)
    requires WellFormed(g)
    ensures |r| <= 8
  {
    Somes(Around(g, row, column))
  }

  /** An interior cell has all eight neighbours. */
  lemma InteriorNeighbors(g: Grid, row: int, column: int)
    requires WellFormed(g)
    requires 1 <= row < g.rows - 1 && 1 <= column < g.columns - 1
    ensures |Neighbors(g, row, column)| == 8
  {
    var a := Around(g, row, column);
    SomesLength(a);
    PresentAll(a);
  }

  lemma {:induction false} PresentAll(s: seq<Option<char>>)
    requires forall k :: 0 <= k < |s| ==> s[k].Some?
    ensures Present(s) == |s|
  {
    if s != [] {
      PresentAll(s[1..]);
    }
  }

  /** A position `k` steps along a direction component in {-1, 0, 1}. */
  function Along(x: int, k: nat, step: int): int
  {
    if step == 1 then x + k else if step == -1 then x - k else x
  }

  /** One of the eight directions. */
  predicate Direction(rowStep: int, columnStep: int)
  {
    -1 <= rowStep <= 1 && -1 <= columnStep <= 1 && (rowStep != 0 || columnStep != 0)
  }

  /** Steps left before a ray through in-bounds cells must leave the grid. */
  function Budget(g: Grid, row: int, column: int, rowStep: int, columnStep: int): int
  {
    if rowStep == 1 then g.rows - row
    else if rowStep == -1 then row + 1
    else if columnStep == 1 then g.columns - column
    else column + 1
  }

  predicate IsSeat(c: char)
  {
    c == 'L' || c == '#'
  }

  /** `in_sight(...).find(is seat)`: the first seat on the ray starting at
      `(row, column)`, or `None` once the ray leaves the grid. */
  function FirstSeat(g: Grid, row: int, column: int, rowStep: int, columnStep: int): (r: Option<char>)
    requires WellFormed(g) && Direction(rowStep, columnStep)
    ensures r.Some? ==> IsSeat(r.value)
    decreases Budget(g, row, column, rowStep, columnStep)
  {
    match Get(g, row, column)
    case None => None
    case Some(c) => if IsSeat(c) then Some(c) else FirstSeat(g, row + rowStep, column + columnStep, rowStep, columnStep)
  }

  /** The cell `k` steps along the ray. */
  function RayAt(g: Grid, row: int, column: int, rowStep: int, columnStep: int, k: nat): Option<char>
    requires WellFormed(g)
  {
    Get(g, Along(row, k, rowStep), Along(column, k, columnStep))
  }

  /** The first `k` cells of the ray are in bounds and are not seats. */
  predicate ClearFor(g: Grid, row: int, column: int, rowStep: int, columnStep: int, k: nat)
    requires WellFormed(g)
  {
    forall j: nat :: j < k ==>
      RayAt(g, row, column, rowStep, columnStep, j).Some? && !IsSeat(RayAt(g, row, column, rowStep, columnStep, j).value)
  }

  /** The `k`-th cell of the ray is where the search stops, with answer `answer`:
      outside the grid with no answer, or a seat that is the answer. */
  predicate StopsAt(g: Grid, row: int, column: int, rowStep: int, columnStep: int, k: nat, answer: Option<char>)
    requires WellFormed(g)
  {
    match RayAt(g, row, column, rowStep, columnStep, k)
    case None => answer.None?
    case Some(c) => IsSeat(c) && answer == Some(c)
  }

  /** The line-of-sight search stops at the first cell of the ray that is out of
      bounds or a seat, and answers with that seat, if any. */
  lemma {:induction false} FirstSeatOnRay(g: Grid, row: int, column: int, rowStep: int, columnStep: int)
    requires WellFormed(g) && Direction(rowStep, columnStep)
    ensures exists k: nat :: (ClearFor(g, row, column, rowStep, columnStep, k) &&
      StopsAt(g, row, column, rowStep, columnStep, k, FirstSeat(g, row, column, rowStep, columnStep)))
    decreases Budget(g, row, column, rowStep, columnStep)
  {
    assert RayAt(g, row, column, rowStep, columnStep, 0) == Get(g, row, column);
    var answer := FirstSeat(g, row, column, rowStep, columnStep);
    match Get(g, row, column)
    case None =>
      assert StopsAt(g, row, column, rowStep, columnStep, 0, answer);
    case Some(c) =>
      if IsSeat(c) {
        assert StopsAt(g, row, column, rowStep, columnStep, 0, answer);
      } else {
        var row', column' := row + rowStep, column + columnStep;
        FirstSeatOnRay(g, row', column', rowStep, columnStep);
        var k: nat :| ClearFor(g, row', column', rowStep, columnStep, k) &&
          StopsAt(g, row', column', rowStep, columnStep, k, answer);
        RayStepBack(g, row, column, rowStep, columnStep, k, answer);
      }
  }

  /** A clear ray from the next cell, behind a cell that is not a seat, is a
      clear ray one cell longer. */
  lemma RayStepBack(g: Grid, row: int, column: int, rowStep: int, columnStep: int, k: nat, answer: Option<char>)
    requires WellFormed(g) && Direction(rowStep, columnStep)
    requires Get(g, row, column).Some? && !IsSeat(Get(g, row, column).value)
    requires ClearFor(g, row + rowStep, column + columnStep, rowStep, columnStep, k)
    requires StopsAt(g, row + rowStep, column + columnStep, rowStep, columnStep, k, answer)
    ensures ClearFor(g, row, column, rowStep, columnStep, k + 1)
    ensures StopsAt(g, row, column, rowStep, columnStep, k + 1, answer)
  {
    assert RayAt(g, row, column, rowStep, columnStep, 0) == Get(g, row, column);
    forall j: nat | j < k + 1
      ensures RayAt(g, row, column, rowStep, columnStep, j).Some?
      ensures !IsSeat(RayAt(g, row, column, rowStep, columnStep, j).value)
    {
      if j > 0 {
        RayAtNext(g, row, column, rowStep, columnStep, j - 1);
      }
    }
    RayAtNext(g, row, column, rowStep, columnStep, k);
  }

  lemma RayAtNext(g: Grid, row: int, column: int, rowStep: int, columnStep: int, j: nat)
    requires WellFormed(g) && Direction(rowStep, columnStep)
    ensures RayAt(g, row, column, rowStep, columnStep, j + 1) == RayAt(g, row + rowStep, column + columnStep, rowStep, columnStep, j)
  {
  }

  /** `PointIterator` from `(row, column)`: the current point if it is in
      bounds, then the next column or the start of the next row. */
  function PointsFrom(g: Grid, row: int, column: int): (r: seq<(int, int)>)
    requires WellFormed(g)
    ensures forall k :: 0 <= k < |r| ==> InBounds(g, r[k].0, r[k].1) && FromOn(r[k], row, column)
    ensures forall i, j :: 0 <= i < j < |r| ==> RowMajorBefore(r[i], r[j])
    decreases g.rows - row, g.columns - column
  {
    if Get(g, row, column).None? then []
    else
      var rest := if column + 1 < g.columns then PointsFrom(g, row, column + 1) else PointsFrom(g, row + 1, 0);
      [(row, column)] + rest
  }

  /** `p` is at `(row, column)` or later in row-major order. */
  predicate FromOn(p: (int, int), row: int, column: int)
  {
    (p.0 == row && p.1 >= column) || p.0 > row
  }

  /** Started in bounds, the walk reaches every later in-bounds point. */
  lemma {:induction false} PointsFromComplete(g: Grid, row: int, column: int, i: int, j: int)
    requires WellFormed(g) && InBounds(g, row, column)
    requires InBounds(g, i, j) && FromOn((i, j), row, column)
    ensures (i, j) in PointsFrom(g, row, column)
    decreases g.rows - row, g.columns - column
  {
    if (i, j) != (row, column) {
      if column + 1 < g.columns {
        PointsFromComplete(g, row, column + 1, i, j);
      } else {
        PointsFromComplete(g, row + 1, 0, i, j);
      }
    }
  }

  /** Strictly earlier in row-major order. */
  predicate RowMajorBefore(p: (int, int), q: (int, int))
  {
    p.0 < q.0 || (p.0 == q.0 && p.1 < q.1)
  }

  /** `points_iter`: every in-bounds point exactly once, in row-major order. */
  function Points(g: Grid): (r: seq<(int, int)>)
    requires WellFormed(g)
    ensures forall i: int, j: int :: (i, j) in r <==> InBounds(g, i, j)
    ensures forall i, j :: 0 <= i < j < |r| ==> RowMajorBefore(r[i], r[j])
  {
    var r := PointsFrom(g, 0, 0);
    forall i: int, j: int | InBounds(g, i, j)
      ensures (i, j) in r
    {
      PointsFromComplete(g, 0, 0, i, j);
    }
    r
  }

  /** `iter` (`GridIterator`): the cell values in the order of `points_iter`. */
  function Cells(g: Grid): (r: seq<char>)
    requires WellFormed(g)
    ensures |r| == |Points(g)|
    ensures forall k :: 0 <= k < |r| ==> Some(r[k]) == Get(g, Points(g)[k].0, Points(g)[k].1)
  {
    var points := Points(g);
    seq(|points|, k requires 0 <= k < |points| => g.points[points[k].0][points[k].1])
  }
}
