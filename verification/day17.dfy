/** Day 17: Conway cubes. Active points live in a four-dimensional lattice;
    every cycle a point is active next when exactly three of its 80
    neighbours are active, or when it is active and exactly two are. The
    grid keeps a bounding box that grows by one on every side each cycle; in
    three-dimensional mode the fourth coordinate stays 0. */
module Day17 {

  // ------------------------------------------------------------ the data

  /** `Point`, an `(i8, i8, i8, i8)`. */
  datatype Point = Point(x: int, y: int, z: int, w: int)

  /** `AxisBoundary`: an inclusive range of one coordinate. */
  datatype Axis = Axis(lo: int, hi: int)

  datatype Bounds = Bounds(x: Axis, y: Axis, z: Axis, w: Axis)

  /** `Grid`: the box, the active points and the number of dimensions. */
  datatype Grid = Grid(bounds: Bounds, active: set<Point>, dimensions: nat)

  predicate InAxis(a: Axis, v: int)
  {
    a.lo <= v <= a.hi
  }

  /** Two points differ by at most 1 in every coordinate. */
  predicate Near(p: Point, q: Point)
  {
    -1 <= q.x - p.x <= 1 && -1 <= q.y - p.y <= 1 && -1 <= q.z - p.z <= 1 && -1 <= q.w - p.w <= 1
  }

  predicate Distinct(s: seq<Point>)
  {
    forall i, j :: 0 <= i < j < |s| ==> s[i] != s[j]
  }

  // ------------------------------------------------------------ Grid::new

  /** `x as i8` on a `usize`: the value modulo 256, read in two's complement. */
  function AsI8(n: nat): (r: int)
    ensures -128 <= r < 128 && (n - r) % 256 == 0
    ensures n < 128 ==> r == n
  {
    if n % 256 < 128 then n % 256 else n % 256 - 256
  }

  /** The points a line activates, in the order its characters are visited. */
  function LineCells(line: string, y: nat): (r: seq<Point>)
    ensures forall p :: p in r <==>
      exists x :: 0 <= x < |line| && line[x] == '#' && p == Point(AsI8(x), AsI8(y), 0, 0)
  {
    if line == [] then []
    else
      var init := line[..|line| - 1];
      assert forall x :: 0 <= x < |init| ==> init[x] == line[x];
      LineCells(init, y)
      + (if line[|line| - 1] == '#' then [Point(AsI8(|line| - 1), AsI8(y), 0, 0)] else [])
  }

  /** `p` is the cast position of some '#' of the lines. */
  predicate Marked(lines: seq<string>, p: Point)
  {
    exists y, x :: 0 <= y < |lines| && 0 <= x < |lines[y]| && lines[y][x] == '#'
                   && p == Point(AsI8(x), AsI8(y), 0, 0)
  }

  /** The points the lines activate, in the order `new` visits them. */
  function GridCells(lines: seq<string>): (r: seq<Point>)
    ensures forall p :: p in r <==> Marked(lines, p)
  {
    if lines == [] then []
    else
      var init := lines[..|lines| - 1];
      assert forall y :: 0 <= y < |init| ==> init[y] == lines[y];
      var r := GridCells(init) + LineCells(lines[|lines| - 1], |lines| - 1);
      assert forall p :: p in r <==> Marked(lines, p) by {
        forall p
          ensures p in r <==> Marked(lines, p)
        {
          if Marked(lines, p) {
            var y, x :| 0 <= y < |lines| && 0 <= x < |lines[y]| && lines[y][x] == '#'
                        && p == Point(AsI8(x), AsI8(y), 0, 0);
            if y < |init| {
              assert Marked(init, p);
            }
          }
          if p in GridCells(init) {
            var y, x :| 0 <= y < |init| && 0 <= x < |init[y]| && init[y][x] == '#'
                        && p == Point(AsI8(x), AsI8(y), 0, 0);
            assert lines[y][x] == '#';
          }
        }
      }
      r
  }

  /** The `fold` for the largest x and y, starting from (0, 0). */
  function MaxXY(ps: seq<Point>): (r: (int, int))
    ensures r.0 >= 0 && r.1 >= 0
    ensures forall p :: p in ps ==> p.x <= r.0 && p.y <= r.1
    ensures r.0 == 0 || exists p :: p in ps && p.x == r.0
    ensures r.1 == 0 || exists p :: p in ps && p.y == r.1
  {
    if ps == [] then (0, 0)
    else
      var m := MaxXY(ps[..|ps| - 1]);
      var p := ps[|ps| - 1];
      assert forall q :: q in ps[..|ps| - 1] ==> q in ps;
      assert forall q :: q in ps ==> q in ps[..|ps| - 1] || q == p;
      (if p.x > m.0 then p.x else m.0, if p.y > m.1 then p.y else m.1)
  }

  /** Fewer than 128 lines of fewer than 128 characters: the cast keeps
      every coordinate. */
  predicate Small(lines: seq<string>)
  {
    |lines| <= 128 && forall y :: 0 <= y < |lines| ==> |lines[y]| <= 128
  }

  /** On a small input the cells are exactly the '#' positions, uncast. */
  lemma SmallCells(lines: seq<string>)
    requires Small(lines)
    ensures forall p: Point :: p in GridCells(lines) <==>
      0 <= p.y < |lines| && 0 <= p.x < |lines[p.y]| && lines[p.y][p.x] == '#' && p.z == 0 && p.w == 0
  {
    forall p | p in GridCells(lines)
      ensures 0 <= p.y < |lines| && 0 <= p.x < |lines[p.y]| && lines[p.y][p.x] == '#'
    {
      assert Marked(lines, p);
      var y, x :| 0 <= y < |lines| && 0 <= x < |lines[y]| && lines[y][x] == '#'
                  && p == Point(AsI8(x), AsI8(y), 0, 0);
      assert p.x == x && p.y == y;
    }
    forall p: Point | 0 <= p.y < |lines| && 0 <= p.x < |lines[p.y]| && lines[p.y][p.x] == '#' && p.z == 0 && p.w == 0
      ensures p in GridCells(lines)
    {
      assert p == Point(AsI8(p.x), AsI8(p.y), 0, 0);
      assert Marked(lines, p);
    }
  }

  /** The box holds every active point, and in three-dimensional mode every
      active point lies at w = 0. */
  predicate Contained(g: Grid)
  {
    forall p :: p in g.active ==>
      InAxis(g.bounds.x, p.x) && InAxis(g.bounds.y, p.y) && InAxis(g.bounds.z, p.z)
      && (if g.dimensions == 3 then p.w == 0 else InAxis(g.bounds.w, p.w))
  }

  /** `Grid::new`: the '#' at column x of line y activates (x, y, 0, 0),
      cast to `i8`, and the box runs from 0 to the largest x and y, with z
      and w at 0. */
  function New(lines: seq<string>, dimensions: nat): (g: Grid)
    ensures g.dimensions == dimensions
    ensures forall p :: p in g.active ==> p.z == 0 && p.w == 0
  {
    var cells := GridCells(lines);
    var m := MaxXY(cells);
    Grid(Bounds(Axis(0, m.0), Axis(0, m.1), Axis(0, 0), Axis(0, 0)), (set p | p in cells), dimensions)
  }

  /** On a small input `new` activates exactly the points (x, y, 0, 0) where
      line y has '#' at column x ... */
  lemma NewActive(lines: seq<string>, dimensions: nat)
    requires Small(lines)
    ensures forall x, y :: Point(x, y, 0, 0) in New(lines, dimensions).active <==>
      0 <= y < |lines| && 0 <= x < |lines[y]| && lines[y][x] == '#'
  {
    SmallCells(lines);
    assert New(lines, dimensions).active == set p | p in GridCells(lines);
  }

  /** ... and its box holds them. */
  lemma NewContained(lines: seq<string>, dimensions: nat)
    requires Small(lines)
    ensures Contained(New(lines, dimensions))
  {
    var g := New(lines, dimensions);
    var cells := GridCells(lines);
    var m := MaxXY(cells);
    assert g.active == set p | p in cells;
    assert g.bounds == Bounds(Axis(0, m.0), Axis(0, m.1), Axis(0, 0), Axis(0, 0));
    forall p | p in g.active
      ensures InAxis(g.bounds.x, p.x) && InAxis(g.bounds.y, p.y) && InAxis(g.bounds.z, p.z)
      ensures if g.dimensions == 3 then p.w == 0 else InAxis(g.bounds.w, p.w)
    {
      assert p in cells;
      SmallCell(lines, p);
    }
  }

  /** A cell of a small input has coordinates that are not negative. */
  lemma SmallCell(lines: seq<string>, p: Point)
    requires Small(lines) && p in GridCells(lines)
    ensures p.x >= 0 && p.y >= 0 && p.z == 0 && p.w == 0
  {
    assert Marked(lines, p);
  }

  // ---------------------------------------------------------- neighbours

  /** `iproduct!` over the four ranges x−1..=x+1, …, w−1..=w+1: the last
      coordinate varies fastest. */
  function Cube(p: Point): (r: seq<Point>)
    ensures |r| == 81
  {
    seq(81, k requires 0 <= k < 81 =>
      Point(p.x - 1 + k / 27, p.y - 1 + k / 9 % 3, p.z - 1 + k / 3 % 3, p.w - 1 + k % 3))
  }

  /** `filter(|p| p != x)`. */
  function Without(s: seq<Point>, x: Point): (r: seq<Point>)
    ensures forall q :: q in r <==> q in s && q != x
  {
    if s == [] then []
    else
      assert forall q :: q in s <==> q == s[0] || q in s[1..];
      (if s[0] == x then [] else [s[0]]) + Without(s[1..], x)
  }

  /** `neighbours`. */
  function Neighbours(p: Point): seq<Point>
  {
    Without(Cube(p), p)
  }

  /** Position k of the cube, spelled by its four base-3 digits. */
  lemma Digits(k: int)
    requires 0 <= k < 81
    ensures 0 <= k / 27 < 3 && k == 27 * (k / 27) + 9 * (k / 9 % 3) + 3 * (k / 3 % 3) + k % 3
  {
    var q := k / 3;
    assert k == 3 * q + k % 3;
    assert q / 3 == k / 9 && q / 9 == k / 27;
    assert q == 9 * (q / 9) + 3 * (q / 3 % 3) + q % 3;
  }

  /** The point with digits a, b, c, d sits at position 27a + 9b + 3c + d. */
  lemma Position(a: int, b: int, c: int, d: int)
    requires 0 <= a < 3 && 0 <= b < 3 && 0 <= c < 3 && 0 <= d < 3
    ensures var k := 27 * a + 9 * b + 3 * c + d;
      k / 27 == a && k / 9 % 3 == b && k / 3 % 3 == c && k % 3 == d
  {
  }

  /** The cube is exactly the points near `p`, each once. */
  lemma CubeNear(p: Point)
    ensures Distinct(Cube(p))
    ensures forall q :: q in Cube(p) <==> Near(p, q)
  {
    var c := Cube(p);
    forall i, j | 0 <= i < j < 81
      ensures c[i] != c[j]
    {
      Digits(i);
      Digits(j);
    }
    forall q | Near(p, q)
      ensures q in c
    {
      var a, b, e, d := q.x - p.x + 1, q.y - p.y + 1, q.z - p.z + 1, q.w - p.w + 1;
      Position(a, b, e, d);
      assert c[27 * a + 9 * b + 3 * e + d] == q;
    }
  }

  /** Dropping one element from a sequence without repeats. */
  lemma {:induction false} WithoutDistinct(s: seq<Point>, x: Point)
    requires Distinct(s)
    ensures Distinct(Without(s, x))
    ensures |Without(s, x)| == if x in s then |s| - 1 else |s|
  {
    if s != [] {
      assert Distinct(s[1..]);
      WithoutDistinct(s[1..], x);
      assert x in s <==> x == s[0] || x in s[1..];
      if s[0] == x {
        assert x !in s[1..];
      } else {
        var r := [s[0]] + Without(s[1..], x);
        assert s[0] !in s[1..];
        forall i, j | 0 <= i < j < |r|
          ensures r[i] != r[j]
        {
          if i == 0 {
            assert r[j] in Without(s[1..], x);
          }
        }
      }
    }
  }

  /** `neighbours` yields 80 points, no point twice, and they are exactly
      the points other than `p` within 1 of it in every coordinate. */
  lemma NeighboursExact(p: Point)
    ensures |Neighbours(p)| == 80 && Distinct(Neighbours(p))
    ensures forall q :: q in Neighbours(p) <==> q != p && Near(p, q)
  {
    CubeNear(p);
    WithoutDistinct(Cube(p), p);
  }

  // --------------------------------------------------------- active_next

  /** How many entries of `s` lie in `active` (`filter(..).count()`). */
  function CountIn(s: seq<Point>, active: set<Point>): (n: nat)
    ensures n <= |s|
    ensures n > 0 ==> exists q :: q in s && q in active
  {
    if s == [] then 0
    else (if s[0] in active then 1 else 0) + CountIn(s[1..], active)
  }

  /** Counting the entries of a sequence without repeats is counting the
      set of them. */
  lemma {:induction false} CountInSet(s: seq<Point>, active: set<Point>)
    requires Distinct(s)
    ensures CountIn(s, active) == |set q | q in s && q in active|
  {
    if s != [] {
      assert Distinct(s[1..]);
      CountInSet(s[1..], active);
      var tail := set q | q in s[1..] && q in active;
      var all := set q | q in s && q in active;
      assert s[0] !in tail by {
        assert forall i :: 0 <= i < |s[1..]| ==> s[1..][i] == s[i + 1];
      }
      if s[0] in active {
        assert all == tail + {s[0]};
      } else {
        assert all == tail;
      }
    }
  }

  /** The active points around `p`. */
  function Around(active: set<Point>, p: Point): set<Point>
  {
    set q | q in active && q != p && Near(p, q)
  }

  /** `active_next`. */
  function ActiveNext(active: set<Point>, p: Point): bool
  {
    var n := CountIn(Neighbours(p), active);
    n == 3 || (p in active && n == 2)
  }

  /** `active_next` holds iff exactly three of the points around are active,
      or the point is active and exactly two are. */
  lemma ActiveNextAround(active: set<Point>, p: Point)
    ensures ActiveNext(active, p) <==>
      |Around(active, p)| == 3 || (p in active && |Around(active, p)| == 2)
  {
    NeighboursExact(p);
    CountInSet(Neighbours(p), active);
    assert (set q | q in Neighbours(p) && q in active) == Around(active, p);
  }

  /** A point that becomes active has an active neighbour. */
  lemma ActiveNextNeighbour(active: set<Point>, p: Point)
    requires ActiveNext(active, p)
    ensures exists q :: q in active && Near(p, q)
  {
    NeighboursExact(p);
    var q :| q in Neighbours(p) && q in active;
  }

  // ------------------------------------------------------ next_boundaries

  function WidenAxis(a: Axis): Axis
  {
    Axis(a.lo - 1, a.hi + 1)
  }

  /** `next_boundaries`. */
  function Widen(b: Bounds): Bounds
  {
    Bounds(WidenAxis(b.x), WidenAxis(b.y), WidenAxis(b.z), WidenAxis(b.w))
  }

  /** The widened box reaches every point near a point of the box, and
      holds the box. */
  lemma WidenReach(a: Axis, v: int, u: int)
    requires InAxis(a, v) && -1 <= u - v <= 1
    ensures InAxis(WidenAxis(a), u) && InAxis(WidenAxis(a), v)
  {
  }

  // ---------------------------------------------------------------- next

  /** The points of a box. */
  function BoxPoints(x: Axis, y: Axis, z: Axis, w: Axis): (r: set<Point>)
    ensures forall p :: p in r <==> InAxis(x, p.x) && InAxis(y, p.y) && InAxis(z, p.z) && InAxis(w, p.w)
  {
    set a, b, c, d | x.lo <= a <= x.hi && y.lo <= b <= y.hi && z.lo <= c <= z.hi && w.lo <= d <= w.hi
      :: Point(a, b, c, d)
  }

  /** `next`: widen the box (the w range pinned to 0 in three dimensions) and
      keep the points of it that are active next, judged on the old set. */
  function Next(g: Grid): (r: Grid)
    ensures r.bounds == Widen(g.bounds) && r.dimensions == g.dimensions
    ensures forall p :: p in r.active ==> ActiveNext(g.active, p)
    ensures g.dimensions == 3 ==> forall p :: p in r.active ==> p.w == 0
  {
    var b := Widen(g.bounds);
    var w := if g.dimensions == 3 then Axis(0, 0) else b.w;
    Grid(b, (set p | p in BoxPoints(b.x, b.y, b.z, w) && ActiveNext(g.active, p)), g.dimensions)
  }

  /** When the box holds the active points, a cycle misses nothing: the new
      set is exactly the points that become active (at w = 0 in three
      dimensions), and the widened box holds it. */
  lemma NextExact(g: Grid)
    requires Contained(g)
    ensures Contained(Next(g))
    ensures forall p :: p in Next(g).active <==>
      ActiveNext(g.active, p) && (g.dimensions == 3 ==> p.w == 0)
  {
    var b := Widen(g.bounds);
    forall p | ActiveNext(g.active, p) && (g.dimensions == 3 ==> p.w == 0)
      ensures p in Next(g).active
    {
      ActiveNextNeighbour(g.active, p);
      var q :| q in g.active && Near(p, q);
      WidenReach(g.bounds.x, q.x, p.x);
      WidenReach(g.bounds.y, q.y, p.y);
      WidenReach(g.bounds.z, q.z, p.z);
      if g.dimensions != 3 {
        WidenReach(g.bounds.w, q.w, p.w);
      }
    }
  }

  /** `next` `n` times. */
  function Cycles(g: Grid, n: nat): (r: Grid)
    ensures r.dimensions == g.dimensions
  {
    if n == 0 then g else Next(Cycles(g, n - 1))
  }

  /** Every cycle is exact, so the grid after `n` cycles holds what `n`
      generations of the rule give. */
  lemma {:induction false} CyclesExact(g: Grid, n: nat)
    requires Contained(g)
    ensures Contained(Cycles(g, n))
    ensures n > 0 ==> forall p :: p in Cycles(g, n).active <==>
      ActiveNext(Cycles(g, n - 1).active, p) && (g.dimensions == 3 ==> p.w == 0)
  {
    if n > 0 {
      CyclesExact(g, n - 1);
      NextExact(Cycles(g, n - 1));
    }
  }

  /** `run`: the number of active points after six cycles. On a small input
      they are exactly the points the rule activates from the fifth cycle. */
  function Run(lines: seq<string>, dimensions: nat): (r: nat)
    ensures r == |Cycles(New(lines, dimensions), 6).active|
    ensures Small(lines) ==> forall p :: p in Cycles(New(lines, dimensions), 6).active <==>
      ActiveNext(Cycles(New(lines, dimensions), 5).active, p) && (dimensions == 3 ==> p.w == 0)
  {
    if Small(lines) then RunExact(lines, dimensions); |Cycles(New(lines, dimensions), 6).active|
    else |Cycles(New(lines, dimensions), 6).active|
  }

  /** On a small input the six cycles are exact generations of the rule. */
  lemma RunExact(lines: seq<string>, dimensions: nat)
    requires Small(lines)
    ensures Contained(Cycles(New(lines, dimensions), 6))
    ensures forall p :: p in Cycles(New(lines, dimensions), 6).active <==>
      ActiveNext(Cycles(New(lines, dimensions), 5).active, p) && (dimensions == 3 ==> p.w == 0)
  {
    NewContained(lines, dimensions);
    CyclesExact(New(lines, dimensions), 6);
  }
}
