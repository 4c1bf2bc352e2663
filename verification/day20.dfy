/** Day 20: jigsaw tiles. Square character tiles, their eight orientations,
    border matching, assembly of a square placement grid, stitching of the
    border-stripped interiors into one image, and the sea-monster scan. */
module Day20 {
  import opened Wrappers
  import opened Seqs
  import opened Arith

  type Grid = seq<seq<char>>

  predicate IsSquare(g: Grid, n: nat)
  {
    |g| == n && forall r :: 0 <= r < n ==> |g[r]| == n
  }

  /** A tile's cells with the sizes `Tile::new` records: `height` is the number
      of lines and `width` the length of the first one. */
  datatype Tile = Tile(points: Grid, width: nat, height: nat)

  /** The shape every tile of a puzzle has: a non-empty square grid. */
  predicate ValidTile(t: Tile)
  {
    t.width == t.height && t.width >= 1 && IsSquare(t.points, t.width)
  }

  /** `Tile::new` on the lines below a tile header. */
  function NewTile(lines: Grid): (t: Tile)
    requires |lines| >= 1
    ensures t.points == lines && t.height == |lines| && t.width == |lines[0]|
    ensures IsSquare(lines, |lines|) ==> ValidTile(t)
  {
    Tile(lines, |lines[0]|, |lines|)
  }

  // ---------------------------------------------------------------------
  // Orientations

  /** `rotate_left`: the cell at (r, c) moves to (n - 1 - c, r). */
  function RotateLeft(g: Grid, n: nat): (rot: Grid)
    requires n >= 1 && IsSquare(g, n)
    ensures IsSquare(rot, n)
    ensures forall r, c :: 0 <= r < n && 0 <= c < n ==> rot[n - 1 - c][r] == g[r][c]
  {
    var rot := seq(n, i requires 0 <= i < n => seq(n, j requires 0 <= j < n => g[j][n - 1 - i]));
    assert forall r, c :: 0 <= r < n && 0 <= c < n ==> rot[n - 1 - c][r] == g[r][c];
    rot
  }

  /** `flip_horizontal`: every row reversed, the row count kept. */
  function FlipHorizontal(g: Grid): (f: Grid)
    ensures |f| == |g|
    ensures forall r :: 0 <= r < |g| ==> |f[r]| == |g[r]|
    ensures forall r :: 0 <= r < |g| ==> f[r] == Reverse(g[r])
  {
    seq(|g|, r requires 0 <= r < |g| => Reverse(g[r]))
  }

  /** Four left rotations of a square grid give the grid back. */
  lemma RotateFourTimes(g: Grid, n: nat)
    requires n >= 1 && IsSquare(g, n)
    ensures RotateLeft(RotateLeft(RotateLeft(RotateLeft(g, n), n), n), n) == g
  {
    var r1 := RotateLeft(g, n);
    var r2 := RotateLeft(r1, n);
    var r3 := RotateLeft(r2, n);
    var r4 := RotateLeft(r3, n);
    forall i, j | 0 <= i < n && 0 <= j < n
      ensures r4[i][j] == g[i][j]
    {
      assert r1[n - 1 - j][i] == g[i][j];
      assert r2[n - 1 - i][n - 1 - j] == r1[n - 1 - j][i];
      assert r3[j][n - 1 - i] == r2[n - 1 - i][n - 1 - j];
      assert r4[i][j] == r3[j][n - 1 - i];
    }
    assert forall i :: 0 <= i < n ==> r4[i] == g[i];
  }

  /** Flipping twice gives the grid back. */
  lemma FlipTwice(g: Grid)
    ensures FlipHorizontal(FlipHorizontal(g)) == g
  {
    var f2 := FlipHorizontal(FlipHorizontal(g));
    forall r | 0 <= r < |g|
      ensures f2[r] == g[r]
    {
      assert forall c :: 0 <= c < |g[r]| ==> f2[r][c] == g[r][c];
    }
  }

  lemma FlipSquare(g: Grid, n: nat)
    requires IsSquare(g, n)
    ensures IsSquare(FlipHorizontal(g), n)
  {
  }

  /** The state of a `TransformationIterator`: the working copy of the cells
      and the two countdowns. */
  datatype TransformationIterator =
    TransformationIterator(points: Grid, width: nat, height: nat, rotations: nat, flippedRotations: nat)

  predicate ValidIterator(it: TransformationIterator)
  {
    it.width == it.height && it.width >= 1 && IsSquare(it.points, it.width)
    && it.rotations <= 4 && it.flippedRotations <= 4
  }

  function NewIterator(points: Grid, width: nat, height: nat): TransformationIterator
  {
    TransformationIterator(points, width, height, 4, 4)
  }

  /** One call of `next`: the untouched grid first, then three left rotations,
      then a flip, then three more rotations. */
  function Next(it: TransformationIterator): (r: Option<(Tile, TransformationIterator)>)
    requires ValidIterator(it)
    ensures r.Some? ==> (ValidIterator(r.value.1)
      && r.value.1.rotations + r.value.1.flippedRotations + 1 == it.rotations + it.flippedRotations
      && r.value.0 == Tile(r.value.1.points, it.width, it.height))
    ensures r.None? <==> it.rotations == 0 && it.flippedRotations == 0
  {
    var n := it.width;
    if it.rotations == 4 then
      Some((Tile(it.points, n, n), it.(rotations := 3)))
    else if it.rotations > 0 then
      var p := RotateLeft(it.points, n);
      Some((Tile(p, n, n), it.(points := p, rotations := it.rotations - 1)))
    else if it.flippedRotations == 4 then
      var p := FlipHorizontal(it.points);
      Some((Tile(p, n, n), it.(points := p, flippedRotations := 3)))
    else if it.flippedRotations > 0 then
      var p := RotateLeft(it.points, n);
      Some((Tile(p, n, n), it.(points := p, flippedRotations := it.flippedRotations - 1)))
    else
      None
  }

  /** Everything the iterator yields, in order (`.collect()`). */
  function Collect(it: TransformationIterator): (ts: seq<Tile>)
    requires ValidIterator(it)
    ensures |ts| == it.rotations + it.flippedRotations
    decreases it.rotations + it.flippedRotations
  {
    match Next(it)
    case None => []
    case Some((t, rest)) => [t] + Collect(rest)
  }

  /** The eight grids in the order the iterator yields them. */
  function Orientations(g: Grid, n: nat): (os: seq<Grid>)
    requires n >= 1 && IsSquare(g, n)
    ensures |os| == 8
    ensures forall k :: 0 <= k < 8 ==> IsSquare(os[k], n)
  {
    var r1 := RotateLeft(g, n);
    var r2 := RotateLeft(r1, n);
    var r3 := RotateLeft(r2, n);
    var f := FlipHorizontal(r3);
    FlipSquare(r3, n);
    var f1 := RotateLeft(f, n);
    var f2 := RotateLeft(f1, n);
    var f3 := RotateLeft(f2, n);
    [g, r1, r2, r3, f, f1, f2, f3]
  }

  /** The iterator yields exactly eight tiles of the source size, in the order
      original, three rotations, flip of the third rotation, three rotations. */
  lemma CollectIsOrientations(g: Grid, n: nat)
    requires n >= 1 && IsSquare(g, n)
    ensures var ts := Collect(NewIterator(g, n, n));
      |ts| == 8
      && (forall k :: 0 <= k < 8 ==> ts[k] == Tile(Orientations(g, n)[k], n, n))
  {
    var os := Orientations(g, n);
    FlipSquare(RotateLeft(RotateLeft(RotateLeft(g, n), n), n), n);
    var it0 := NewIterator(g, n, n);
    var it1 := it0.(rotations := 3);
    var it2 := it1.(points := os[1], rotations := 2);
    var it3 := it2.(points := os[2], rotations := 1);
    var it4 := it3.(points := os[3], rotations := 0);
    var it5 := it4.(points := os[4], flippedRotations := 3);
    var it6 := it5.(points := os[5], flippedRotations := 2);
    var it7 := it6.(points := os[6], flippedRotations := 1);
    var it8 := it7.(points := os[7], flippedRotations := 0);
    assert Collect(it8) == [];
    assert Collect(it7) == [Tile(os[7], n, n)];
    assert Collect(it6) == [Tile(os[6], n, n)] + Collect(it7);
    assert Collect(it5) == [Tile(os[5], n, n)] + Collect(it6);
    assert Collect(it4) == [Tile(os[4], n, n)] + Collect(it5);
    assert Collect(it3) == [Tile(os[3], n, n)] + Collect(it4);
    assert Collect(it2) == [Tile(os[2], n, n)] + Collect(it3);
    assert Collect(it1) == [Tile(os[1], n, n)] + Collect(it2);
    assert Collect(it0) == [Tile(os[0], n, n)] + Collect(it1);
  }

  /** The cached `transformations` of a tile. */
  function Transformations(t: Tile): (ts: seq<Tile>)
    requires ValidTile(t)
    ensures |ts| == 8
    ensures forall k :: 0 <= k < 8 ==> ValidTile(ts[k])
  {
    CollectIsOrientations(t.points, t.width);
    Collect(NewIterator(t.points, t.width, t.height))
  }
  /** Every orientation keeps the tile's size. */
  lemma TransformationsWidth(t: Tile)
    requires ValidTile(t)
    ensures forall k :: 0 <= k < 8 ==> Transformations(t)[k].width == t.width
  {
    CollectIsOrientations(t.points, t.width);
  }


  // ---------------------------------------------------------------------
  // Borders

  /** Row 0, read left to right (over `0..height`, so square tiles only). */
  function Top(t: Tile): (b: seq<char>)
    requires ValidTile(t)
    ensures |b| == t.height && forall c :: 0 <= c < t.height ==> b[c] == t.points[0][c]
  {
    seq(t.height, c requires 0 <= c < t.height => t.points[0][c])
  }

  /** Row `height - 1`, read left to right. */
  function Bottom(t: Tile): (b: seq<char>)
    requires ValidTile(t)
    ensures |b| == t.height && forall c :: 0 <= c < t.height ==> b[c] == t.points[t.height - 1][c]
  {
    seq(t.height, c requires 0 <= c < t.height => t.points[t.height - 1][c])
  }

  /** Column 0, read top to bottom. */
  function Left(t: Tile): (b: seq<char>)
    requires ValidTile(t)
    ensures |b| == t.width && forall r :: 0 <= r < t.width ==> b[r] == t.points[r][0]
  {
    seq(t.width, r requires 0 <= r < t.width => t.points[r][0])
  }

  /** Column `width - 1`, read top to bottom. */
  function Right(t: Tile): (b: seq<char>)
    requires ValidTile(t)
    ensures |b| == t.width && forall r :: 0 <= r < t.width ==> b[r] == t.points[r][t.width - 1]
  {
    seq(t.width, r requires 0 <= r < t.width => t.points[r][t.width - 1])
  }

  function Rotated(t: Tile): (r: Tile)
    requires ValidTile(t)
    ensures ValidTile(r)
  {
    Tile(RotateLeft(t.points, t.width), t.width, t.height)
  }

  function Flipped(t: Tile): (f: Tile)
    requires ValidTile(t)
    ensures ValidTile(f)
  {
    FlipSquare(t.points, t.width);
    Tile(FlipHorizontal(t.points), t.width, t.height)
  }

  /** How a left rotation moves the borders: the right border becomes the top,
      the top (reversed) the left, the left the bottom, the bottom (reversed) the right. */
  lemma RotateBorders(t: Tile)
    requires ValidTile(t)
    ensures Top(Rotated(t)) == Right(t)
    ensures Left(Rotated(t)) == Reverse(Top(t))
    ensures Bottom(Rotated(t)) == Left(t)
    ensures Right(Rotated(t)) == Reverse(Bottom(t))
  {
    var n := t.width;
    var r := Rotated(t);
    forall j | 0 <= j < n
      ensures Top(r)[j] == Right(t)[j]
      ensures Left(r)[j] == Reverse(Top(t))[j]
      ensures Bottom(r)[j] == Left(t)[j]
      ensures Right(r)[j] == Reverse(Bottom(t))[j]
    {
      assert r.points[n - 1 - (n - 1 - j)][0] == t.points[0][n - 1 - j];
      assert r.points[n - 1 - 0][j] == t.points[j][0];
      assert r.points[n - 1 - (n - 1)][j] == t.points[j][n - 1];
      assert r.points[n - 1 - j][n - 1] == t.points[n - 1][j];
      assert r.points[j][n - 1] == t.points[n - 1][n - 1 - j];
    }
  }

  /** A horizontal flip reverses the top and bottom borders and swaps left and right. */
  lemma FlipBorders(t: Tile)
    requires ValidTile(t)
    ensures Top(Flipped(t)) == Reverse(Top(t))
    ensures Bottom(Flipped(t)) == Reverse(Bottom(t))
    ensures Left(Flipped(t)) == Right(t)
    ensures Right(Flipped(t)) == Left(t)
  {
    var n := t.width;
    var f := Flipped(t);
    assert forall i :: 0 <= i < n ==> f.points[i] == Reverse(t.points[i]);
    forall j | 0 <= j < n
      ensures Top(f)[j] == Reverse(Top(t))[j]
    {
      assert Top(f)[j] == Reverse(t.points[0])[j];
    }
    forall j | 0 <= j < n
      ensures Bottom(f)[j] == Reverse(Bottom(t))[j]
    {
      assert Bottom(f)[j] == Reverse(t.points[n - 1])[j];
    }
    forall j | 0 <= j < n
      ensures Left(f)[j] == Right(t)[j]
    {
      assert Left(f)[j] == Reverse(t.points[j])[0];
    }
    forall j | 0 <= j < n
      ensures Right(f)[j] == Left(t)[j]
    {
      assert Right(f)[j] == Reverse(t.points[j])[n - 1];
    }
  }

  // ---------------------------------------------------------------------
  // Assembly

  /** A tile map entry: the tile id and its tile. A `HashMap<usize, Tile>` is
      modelled as the sequence of its entries in iteration order. */
  type Entry = (nat, Tile)

  /** No id occurs twice. */
  predicate DistinctIds(placed: seq<Entry>)
  {
    forall i, j :: 0 <= i < j < |placed| ==> placed[i].0 != placed[j].0
  }

  /** The entries of a tile map: valid tiles under distinct keys. */
  predicate ValidPool(tiles: seq<Entry>)
  {
    && (forall k :: 0 <= k < |tiles| ==> ValidTile(tiles[k].1))
    && DistinctIds(tiles)
  }

  function Ids(tiles: seq<Entry>): set<nat>
  {
    set e | e in tiles :: e.0
  }

  /** `tilemap.remove(&id)`: the entry with that id is gone, the others keep their order. */
  function Remove(tiles: seq<Entry>, id: nat): (rest: seq<Entry>)
    ensures forall e :: e in rest <==> e in tiles && e.0 != id
    ensures |rest| <= |tiles|
  {
    if tiles == [] then []
    else if tiles[0].0 == id then Remove(tiles[1..], id)
    else [tiles[0]] + Remove(tiles[1..], id)
  }

  /** Removing keeps the pool valid and takes exactly `id` out of its key set. */
  lemma RemovePool(tiles: seq<Entry>, id: nat)
    requires ValidPool(tiles)
    ensures ValidPool(Remove(tiles, id))
    ensures Ids(Remove(tiles, id)) == Ids(tiles) - {id}
  {
    var rest := Remove(tiles, id);
    forall k | 0 <= k < |rest| ensures ValidTile(rest[k].1) {
      assert rest[k] in tiles;
    }
    RemoveDistinct(tiles, id);
  }

  lemma {:induction false} RemoveDistinct(tiles: seq<Entry>, id: nat)
    requires DistinctIds(tiles)
    ensures DistinctIds(Remove(tiles, id))
    decreases |tiles|
  {
    if tiles != [] {
      RemoveDistinct(tiles[1..], id);
      var tail := Remove(tiles[1..], id);
      if tiles[0].0 != id {
        var rest := [tiles[0]] + tail;
        assert rest == Remove(tiles, id);
        forall i, j | 0 <= i < j < |rest| ensures rest[i].0 != rest[j].0 {
          assert rest[j] == tail[j - 1];
          if i == 0 {
            assert tail[j - 1] in tiles[1..];
            var m :| 0 <= m < |tiles[1..]| && tiles[1..][m] == tail[j - 1];
            assert tiles[m + 1] == rest[j];
          } else {
            assert rest[i] == tail[i - 1];
          }
        }
      }
    }
  }

  /** No other tile, in any orientation, has a right border equal to `t`'s left
      border or a bottom border equal to `t`'s top border. */
  predicate IsTopLeft(tiles: seq<Entry>, id: nat, t: Tile)
    requires ValidPool(tiles) && ValidTile(t)
  {
    forall k, u :: 0 <= k < |tiles| && tiles[k].0 != id && 0 <= u < 8 ==>
      Right(Transformations(tiles[k].1)[u]) != Left(t)
      && Bottom(Transformations(tiles[k].1)[u]) != Top(t)
  }

  /** The orientations of one tile, from index `u` on, tried in order. */
  function FirstTopLeftOrientation(tiles: seq<Entry>, id: nat, ts: seq<Tile>, u: nat): (r: Option<Tile>)
    requires ValidPool(tiles) && |ts| == 8 && u <= 8
    requires forall k :: 0 <= k < 8 ==> ValidTile(ts[k])
    ensures r.Some? ==> exists k :: u <= k < 8 && ts[k] == r.value && IsTopLeft(tiles, id, ts[k])
                                   && forall j :: u <= j < k ==> !IsTopLeft(tiles, id, ts[j])
    ensures r.None? ==> forall k :: u <= k < 8 ==> !IsTopLeft(tiles, id, ts[k])
    decreases 8 - u
  {
    if u == 8 then None
    else if IsTopLeft(tiles, id, ts[u]) then Some(ts[u])
    else FirstTopLeftOrientation(tiles, id, ts, u + 1)
  }

  function FindTopLeftFrom(tiles: seq<Entry>, i: nat): (r: Option<Entry>)
    requires ValidPool(tiles) && i <= |tiles|
    ensures r.Some? ==> (exists k, u :: i <= k < |tiles| && 0 <= u < 8 && r.value.0 == tiles[k].0
                           && r.value.1 == Transformations(tiles[k].1)[u] && IsTopLeft(tiles, r.value.0, r.value.1))
    ensures r.None? ==> forall k, u :: i <= k < |tiles| && 0 <= u < 8 ==>
      !IsTopLeft(tiles, tiles[k].0, Transformations(tiles[k].1)[u])
    decreases |tiles| - i
  {
    if i == |tiles| then None
    else
      var ts := Transformations(tiles[i].1);
      match FirstTopLeftOrientation(tiles, tiles[i].0, ts, 0)
      case Some(t) =>
        assert exists u :: 0 <= u < 8 && ts[u] == t && IsTopLeft(tiles, tiles[i].0, ts[u]);
        Some((tiles[i].0, t))
      case None =>
        var r := FindTopLeftFrom(tiles, i + 1);
        assert r.None? ==> forall k, u :: i <= k < |tiles| && 0 <= u < 8 ==>
          !IsTopLeft(tiles, tiles[k].0, Transformations(tiles[k].1)[u]) by {
          if r.None? {
            forall k, u | i <= k < |tiles| && 0 <= u < 8
              ensures !IsTopLeft(tiles, tiles[k].0, Transformations(tiles[k].1)[u])
            {
              if k == i {
                assert !IsTopLeft(tiles, tiles[i].0, ts[u]);
              }
            }
          }
        }
        r
  }

  /** `find_top_left`: the first tile, in map order, with an orientation whose
      left and top borders match nothing else; `None` is the source's panic. */
  function FindTopLeft(tiles: seq<Entry>): (r: Option<Entry>)
    requires ValidPool(tiles)
    ensures r.Some? ==> (exists k, u :: 0 <= k < |tiles| && 0 <= u < 8 && r.value.0 == tiles[k].0
                           && r.value.1 == Transformations(tiles[k].1)[u] && IsTopLeft(tiles, r.value.0, r.value.1))
    ensures r.None? <==> forall k, u :: 0 <= k < |tiles| && 0 <= u < 8 ==>
      !IsTopLeft(tiles, tiles[k].0, Transformations(tiles[k].1)[u])
  {
    FindTopLeftFrom(tiles, 0)
  }

  /** Growing a column downward (matching a top border against the previous
      bottom border) or a row rightward (left against the previous right). */
  datatype Direction = Downward | Rightward

  function Entrance(t: Tile, dir: Direction): seq<char>
    requires ValidTile(t)
  {
    if dir == Downward then Top(t) else Left(t)
  }

  function Exit(t: Tile, dir: Direction): seq<char>
    requires ValidTile(t)
  {
    if dir == Downward then Bottom(t) else Right(t)
  }

  /** Some orientation of a pool tile fits against `border`. */
  predicate AnyFits(tiles: seq<Entry>, border: seq<char>, dir: Direction)
    requires ValidPool(tiles)
  {
    exists k, u :: 0 <= k < |tiles| && 0 <= u < 8 && Entrance(Transformations(tiles[k].1)[u], dir) == border
  }

  /** `t` is an orientation of the pool tile with id `id`. */
  predicate FromPool(tiles: seq<Entry>, id: nat, t: Tile)
    requires ValidPool(tiles)
  {
    exists k, u :: 0 <= k < |tiles| && 0 <= u < 8 && tiles[k].0 == id && Transformations(tiles[k].1)[u] == t
  }

  function FirstFitOrientation(ts: seq<Tile>, border: seq<char>, dir: Direction, u: nat): (r: Option<Tile>)
    requires |ts| == 8 && u <= 8
    requires forall k :: 0 <= k < 8 ==> ValidTile(ts[k])
    ensures r.Some? ==> exists k :: u <= k < 8 && ts[k] == r.value && Entrance(ts[k], dir) == border
                                   && forall j :: u <= j < k ==> Entrance(ts[j], dir) != border
    ensures r.None? ==> forall k :: u <= k < 8 ==> Entrance(ts[k], dir) != border
    decreases 8 - u
  {
    if u == 8 then None
    else if Entrance(ts[u], dir) == border then Some(ts[u])
    else FirstFitOrientation(ts, border, dir, u + 1)
  }

  /** One pass of the `'inner` loop: the first remaining tile, in map order,
      with the first orientation that fits. */
  function FirstFit(tiles: seq<Entry>, border: seq<char>, dir: Direction): (r: Option<Entry>)
    requires ValidPool(tiles)
    ensures r.Some? ==> (FromPool(tiles, r.value.0, r.value.1) && ValidTile(r.value.1)
                         && Entrance(r.value.1, dir) == border)
    ensures r.None? <==> !AnyFits(tiles, border, dir)
    decreases |tiles|
  {
    if tiles == [] then None
    else
      match FirstFitOrientation(Transformations(tiles[0].1), border, dir, 0)
      case Some(t) => Some((tiles[0].0, t))
      case None =>
        var r := FirstFit(tiles[1..], border, dir);
        assert r.Some? ==> FromPool(tiles, r.value.0, r.value.1) by {
          if r.Some? {
            var k, u :| 0 <= k < |tiles[1..]| && 0 <= u < 8 && tiles[1..][k].0 == r.value.0
              && Transformations(tiles[1..][k].1)[u] == r.value.1;
            assert tiles[k + 1] == tiles[1..][k];
          }
        }
        assert r.None? ==> !AnyFits(tiles, border, dir) by {
          if r.None? {
            forall k, u | 0 <= k < |tiles| && 0 <= u < 8
              ensures Entrance(Transformations(tiles[k].1)[u], dir) != border
            {
              if k > 0 { assert tiles[k] == tiles[1..][k - 1]; }
            }
          }
        }
        r
  }

  /** The border the next placed tile must match. */
  function LastBorder(start: seq<char>, placed: seq<Entry>, dir: Direction): seq<char>
    requires forall k :: 0 <= k < |placed| ==> ValidTile(placed[k].1)
  {
    if placed == [] then start else Exit(placed[|placed| - 1].1, dir)
  }

  /** Each placed tile's entrance border equals the exit border before it. */
  predicate Chained(start: seq<char>, placed: seq<Entry>, dir: Direction)
    requires forall k :: 0 <= k < |placed| ==> ValidTile(placed[k].1)
  {
    && (|placed| > 0 ==> Entrance(placed[0].1, dir) == start)
    && (forall k :: 0 <= k < |placed| - 1 ==> Entrance(placed[k + 1].1, dir) == Exit(placed[k].1, dir))
  }

  /** `count` iterations of the growth loop of `find_first_column` and
      `find_row`: a match is removed from the pool and appended; an iteration
      without a match appends nothing and the loop goes on. */
  function Grow(border: seq<char>, tiles: seq<Entry>, count: nat, dir: Direction): (r: (seq<Entry>, seq<Entry>))
    requires ValidPool(tiles)
    ensures var (placed, rest) := r;
      && |placed| <= count
      && ValidPool(rest)
      && (forall k :: 0 <= k < |placed| ==> ValidTile(placed[k].1) && FromPool(tiles, placed[k].0, placed[k].1))
      && DistinctIds(placed)
      && Ids(rest) == Ids(tiles) - Ids(placed)
      && Ids(placed) <= Ids(tiles)
      && (forall e :: e in rest ==> e in tiles)
      && Chained(border, placed, dir)
      && (|placed| < count ==> !AnyFits(rest, LastBorder(border, placed, dir), dir))
    decreases count
  {
    if count == 0 then ([], tiles)
    else
      match FirstFit(tiles, border, dir)
      case None => Grow(border, tiles, count - 1, dir)
      case Some((id, t)) =>
        var pool := Remove(tiles, id);
        RemovePool(tiles, id);
        var (placed, rest) := Grow(Exit(t, dir), pool, count - 1, dir);
        var all := [(id, t)] + placed;
        GrowStep(border, tiles, id, t, pool, placed, rest, dir);
        (all, rest)
  }

  lemma GrowStep(border: seq<char>, tiles: seq<Entry>, id: nat, t: Tile, pool: seq<Entry>,
                 placed: seq<Entry>, rest: seq<Entry>, dir: Direction)
    requires ValidPool(tiles) && ValidTile(t)
    requires FromPool(tiles, id, t) && Entrance(t, dir) == border
    requires pool == Remove(tiles, id) && ValidPool(pool) && Ids(pool) == Ids(tiles) - {id}
    requires ValidPool(rest)
    requires forall k :: 0 <= k < |placed| ==> ValidTile(placed[k].1) && FromPool(pool, placed[k].0, placed[k].1)
    requires DistinctIds(placed)
    requires Ids(rest) == Ids(pool) - Ids(placed)
    requires Ids(placed) <= Ids(pool)
    requires forall e :: e in rest ==> e in pool
    requires Chained(Exit(t, dir), placed, dir)
    ensures var all := [(id, t)] + placed;
      && (forall k :: 0 <= k < |all| ==> ValidTile(all[k].1) && FromPool(tiles, all[k].0, all[k].1))
      && DistinctIds(all)
      && Ids(rest) == Ids(tiles) - Ids(all)
      && Ids(all) <= Ids(tiles)
      && (forall e :: e in rest ==> e in tiles)
      && Chained(border, all, dir)
      && LastBorder(Exit(t, dir), placed, dir) == LastBorder(border, all, dir)
  {
    var all := [(id, t)] + placed;
    forall k | 0 <= k < |all| ensures ValidTile(all[k].1) && FromPool(tiles, all[k].0, all[k].1) {
      if k > 0 {
        assert all[k] == placed[k - 1];
        FromPoolSub(pool, tiles, placed[k - 1].0, placed[k - 1].1);
      }
    }
    FromPoolId(tiles, id, t);
    ConsDistinct((id, t), placed, pool);
    forall k | 0 <= k < |all| - 1 ensures Entrance(all[k + 1].1, dir) == Exit(all[k].1, dir) {
      assert all[k + 1] == placed[k];
      if k > 0 { assert all[k] == placed[k - 1]; }
    }
  }

  lemma FromPoolId(tiles: seq<Entry>, id: nat, t: Tile)
    requires ValidPool(tiles) && FromPool(tiles, id, t)
    ensures id in Ids(tiles)
  {
    var m, u :| 0 <= m < |tiles| && 0 <= u < 8 && tiles[m].0 == id && Transformations(tiles[m].1)[u] == t;
    assert tiles[m] in tiles;
  }

  /** The rows of a layout laid end to end. */
  function Flatten(rows: seq<seq<Entry>>): seq<Entry>
  {
    if rows == [] then [] else rows[0] + Flatten(rows[1..])
  }

  lemma FlattenAppend(a: seq<seq<Entry>>, b: seq<seq<Entry>>)
    ensures Flatten(a + b) == Flatten(a) + Flatten(b)
    decreases |a|
  {
    if a != [] {
      assert (a + b)[1..] == a[1..] + b;
      FlattenAppend(a[1..], b);
    } else {
      assert a + b == b;
    }
  }

  /** `n` rows with no tiles. */
  function EmptyRows(n: nat): (rows: seq<seq<Entry>>)
    ensures |rows| == n && forall i :: 0 <= i < n ==> rows[i] == []
  {
    seq(n, _ => [])
  }

  lemma FlattenEmptyRows(n: nat)
    ensures Flatten(EmptyRows(n)) == []
    decreases n
  {
    if n > 0 {
      assert EmptyRows(n)[1..] == EmptyRows(n - 1);
      FlattenEmptyRows(n - 1);
    }
  }

  predicate AllValid(row: seq<Entry>)
  {
    forall k :: 0 <= k < |row| ==> ValidTile(row[k].1)
  }

  /** Neighbours in a row meet at the right border of one and the left border of the next. */
  predicate RowChained(row: seq<Entry>)
    requires AllValid(row)
  {
    forall k :: 0 <= k < |row| - 1 ==> Left(row[k + 1].1) == Right(row[k].1)
  }

  lemma IdsAppend(a: seq<Entry>, b: seq<Entry>)
    ensures Ids(a + b) == Ids(a) + Ids(b)
  {
    assert forall e :: e in a + b <==> e in a || e in b;
  }

  lemma DistinctAppend(a: seq<Entry>, b: seq<Entry>)
    requires DistinctIds(a) && DistinctIds(b) && Ids(a) !! Ids(b)
    ensures DistinctIds(a + b)
    ensures Ids(a + b) == Ids(a) + Ids(b)
  {
    IdsAppend(a, b);
    var ab := a + b;
    forall i, j | 0 <= i < j < |ab| ensures ab[i].0 != ab[j].0 {
      if i < |a| && j >= |a| {
        assert ab[i] == a[i] && ab[j] == b[j - |a|];
        assert a[i] in a && b[j - |a|] in b;
        assert ab[i].0 in Ids(a) && ab[j].0 in Ids(b);
      } else if i >= |a| {
        assert ab[i] == b[i - |a|] && ab[j] == b[j - |a|];
      } else {
        assert ab[i] == a[i] && ab[j] == a[j];
      }
    }
  }

  lemma FromPoolSub(small: seq<Entry>, big: seq<Entry>, id: nat, t: Tile)
    requires ValidPool(small) && ValidPool(big)
    requires forall e :: e in small ==> e in big
    requires FromPool(small, id, t)
    ensures FromPool(big, id, t)
  {
    var k, u :| 0 <= k < |small| && 0 <= u < 8 && small[k].0 == id && Transformations(small[k].1)[u] == t;
    assert small[k] in big;
    var m :| 0 <= m < |big| && big[m] == small[k];
    assert Transformations(big[m].1)[u] == t;
  }

  /** A head tile followed by the tiles grown after it, with their ids. */
  lemma ConsDistinct(c: Entry, placed: seq<Entry>, pool: seq<Entry>)
    requires DistinctIds(placed) && Ids(placed) <= Ids(pool) && c.0 !in Ids(pool)
    ensures DistinctIds([c] + placed)
    ensures Ids([c] + placed) == {c.0} + Ids(placed)
  {
    DistinctAppend([c], placed);
  }

  /** A layout row is a head tile and the tiles `Grow` placed after it. */
  predicate LayoutRows(column: seq<Entry>, pool: seq<Entry>, count: nat, rows: seq<seq<Entry>>)
    requires ValidPool(pool)
  {
    && |rows| == |column|
    && (forall i :: 0 <= i < |rows| ==>
          1 <= |rows[i]| <= count + 1 && rows[i][0] == column[i] && AllValid(rows[i]) && RowChained(rows[i]))
    && (forall i, k :: 0 <= i < |rows| && 1 <= k < |rows[i]| ==> FromPool(pool, rows[i][k].0, rows[i][k].1))
  }

  /** `find_row` for every tile of the first column, in order, each call
      taking its tiles from what the calls before it left in the pool. */
  function BuildRows(column: seq<Entry>, pool: seq<Entry>, count: nat): (r: (seq<seq<Entry>>, seq<Entry>))
    requires ValidPool(pool) && AllValid(column)
    requires DistinctIds(column) && Ids(column) !! Ids(pool)
    ensures var (rows, rest) := r;
      && LayoutRows(column, pool, count, rows)
      && ValidPool(rest)
      && (forall e :: e in rest ==> e in pool)
      && Ids(rest) <= Ids(pool)
      && DistinctIds(Flatten(rows))
      && Ids(Flatten(rows)) == Ids(column) + (Ids(pool) - Ids(rest))
    decreases |column|
  {
    if column == [] then ([], pool)
    else
      var c := column[0];
      var (placed, pool1) := Grow(Right(c.1), pool, count, Rightward);
      ColumnTail(column, pool, pool1);
      var (rows, rest) := BuildRows(column[1..], pool1, count);
      BuildRowsStep(column, pool, count, placed, pool1, rows, rest);
      ([[c] + placed] + rows, rest)
  }

  lemma ColumnTail(column: seq<Entry>, pool: seq<Entry>, pool1: seq<Entry>)
    requires |column| > 0 && AllValid(column) && DistinctIds(column) && Ids(column) !! Ids(pool)
    requires Ids(pool1) <= Ids(pool)
    ensures AllValid(column[1..]) && DistinctIds(column[1..]) && Ids(column[1..]) !! Ids(pool1)
    ensures Ids(column) == {column[0].0} + Ids(column[1..])
  {
    assert column == [column[0]] + column[1..];
    IdsAppend([column[0]], column[1..]);
    forall i, j | 0 <= i < j < |column[1..]| ensures column[1..][i].0 != column[1..][j].0 {
      assert column[1..][i] == column[i + 1] && column[1..][j] == column[j + 1];
    }
  }

  lemma BuildRowsStep(column: seq<Entry>, pool: seq<Entry>, count: nat, placed: seq<Entry>, pool1: seq<Entry>,
                      rows: seq<seq<Entry>>, rest: seq<Entry>)
    requires ValidPool(pool) && |column| > 0 && AllValid(column)
    requires DistinctIds(column) && Ids(column) !! Ids(pool)
    requires Ids(column) == {column[0].0} + Ids(column[1..])
    requires |placed| <= count && ValidPool(pool1)
    requires forall k :: 0 <= k < |placed| ==> ValidTile(placed[k].1) && FromPool(pool, placed[k].0, placed[k].1)
    requires DistinctIds(placed) && Ids(pool1) == Ids(pool) - Ids(placed) && Ids(placed) <= Ids(pool)
    requires forall e :: e in pool1 ==> e in pool
    requires Chained(Right(column[0].1), placed, Rightward)
    requires LayoutRows(column[1..], pool1, count, rows)
    requires ValidPool(rest) && (forall e :: e in rest ==> e in pool1) && Ids(rest) <= Ids(pool1)
    requires DistinctIds(Flatten(rows))
    requires Ids(Flatten(rows)) == Ids(column[1..]) + (Ids(pool1) - Ids(rest))
    ensures var all := [[column[0]] + placed] + rows;
      && LayoutRows(column, pool, count, all)
      && (forall e :: e in rest ==> e in pool)
      && Ids(rest) <= Ids(pool)
      && DistinctIds(Flatten(all))
      && Ids(Flatten(all)) == Ids(column) + (Ids(pool) - Ids(rest))
  {
    var all := [[column[0]] + placed] + rows;
    StepLayout(column, pool, count, placed, pool1, rows);
    StepIds(column, pool, placed, pool1, rows, rest);
  }

  lemma StepLayout(column: seq<Entry>, pool: seq<Entry>, count: nat, placed: seq<Entry>, pool1: seq<Entry>,
                   rows: seq<seq<Entry>>)
    requires ValidPool(pool) && |column| > 0 && AllValid(column)
    requires |placed| <= count && ValidPool(pool1)
    requires forall k :: 0 <= k < |placed| ==> ValidTile(placed[k].1) && FromPool(pool, placed[k].0, placed[k].1)
    requires forall e :: e in pool1 ==> e in pool
    requires Chained(Right(column[0].1), placed, Rightward)
    requires LayoutRows(column[1..], pool1, count, rows)
    ensures LayoutRows(column, pool, count, [[column[0]] + placed] + rows)
  {
    var c := column[0];
    var row := [c] + placed;
    var all := [row] + rows;
    forall k | 0 <= k < |row| - 1 ensures Left(row[k + 1].1) == Right(row[k].1) {
      if k > 0 { assert row[k] == placed[k - 1] && row[k + 1] == placed[k]; }
    }
    forall i | 0 <= i < |all|
      ensures 1 <= |all[i]| <= count + 1 && all[i][0] == column[i] && AllValid(all[i]) && RowChained(all[i])
    {
      if i > 0 { assert all[i] == rows[i - 1] && column[i] == column[1..][i - 1]; }
    }
    forall i, k | 0 <= i < |all| && 1 <= k < |all[i]|
      ensures FromPool(pool, all[i][k].0, all[i][k].1)
    {
      if i > 0 {
        assert all[i][k] == rows[i - 1][k];
        FromPoolSub(pool1, pool, all[i][k].0, all[i][k].1);
      } else {
        assert all[0][k] == placed[k - 1];
      }
    }
  }

  lemma StepIds(column: seq<Entry>, pool: seq<Entry>, placed: seq<Entry>, pool1: seq<Entry>,
                rows: seq<seq<Entry>>, rest: seq<Entry>)
    requires |column| > 0
    requires DistinctIds(column) && Ids(column) !! Ids(pool)
    requires Ids(column) == {column[0].0} + Ids(column[1..])
    requires DistinctIds(placed) && Ids(pool1) == Ids(pool) - Ids(placed) && Ids(placed) <= Ids(pool)
    requires forall e :: e in pool1 ==> e in pool
    requires (forall e :: e in rest ==> e in pool1) && Ids(rest) <= Ids(pool1)
    requires DistinctIds(Flatten(rows))
    requires Ids(Flatten(rows)) == Ids(column[1..]) + (Ids(pool1) - Ids(rest))
    ensures var all := [[column[0]] + placed] + rows;
      && (forall e :: e in rest ==> e in pool)
      && Ids(rest) <= Ids(pool)
      && DistinctIds(Flatten(all))
      && Ids(Flatten(all)) == Ids(column) + (Ids(pool) - Ids(rest))
  {
    var c := column[0];
    var row := [c] + placed;
    var all := [row] + rows;
    assert c.0 in Ids(column) by { assert c in column; }
    ConsDistinct(c, placed, pool);
    assert all[1..] == rows;
    assert Flatten(all) == row + Flatten(rows);
    DistinctAppend(row, Flatten(rows));
  }

  /** `find_image` up to the tile layout: the top-left tile, the first
      column grown below it, one row grown right of every column tile, and
      the rows the column did not reach left empty. */
  function Assemble(tiles: seq<Entry>, side: nat): (r: Option<seq<seq<Entry>>>)
    requires ValidPool(tiles)
    requires side * side <= |tiles| < (side + 1) * (side + 1)
    ensures r.None? <==> FindTopLeft(tiles).None?
    ensures r.Some? ==> LayoutOf(tiles, side, r.value)
  {
    match FindTopLeft(tiles)
    case None => None
    case Some((id, t)) =>
      TopLeftSide(tiles, side);
      var pool0 := Remove(tiles, id);
      RemovePool(tiles, id);
      var (below, pool1) := Grow(Bottom(t), pool0, side - 1, Downward);
      var column := [(id, t)] + below;
      FirstColumn(tiles, id, t, pool0, below, pool1);
      var (rows, rest) := BuildRows(column, pool1, side - 1);
      var image := rows + EmptyRows(side - |rows|);
      AssembleFacts(tiles, id, t, pool0, below, pool1, rows, image, side);
      Some(image)
  }

  /** A top-left tile exists only when there is a tile, so the side is at
      least 1. */
  lemma TopLeftSide(tiles: seq<Entry>, side: nat)
    requires ValidPool(tiles) && FindTopLeft(tiles).Some?
    requires |tiles| < (side + 1) * (side + 1)
    ensures side >= 1
  {
    var k, u :| 0 <= k < |tiles| && 0 <= u < 8 && FindTopLeft(tiles).value.0 == tiles[k].0;
    SquareOfOne(side);
  }

  lemma SquareOfOne(n: nat)
    ensures n == 0 ==> (n + 1) * (n + 1) == 1
  {
  }

  /** What `find_image` promises about its layout: `side` rows of at most
      `side` tiles each, starting with the top-left tile; neighbours in a
      row and consecutive row heads meet at equal borders; no tile is used
      twice, and every tile is an orientation of one from the map. */
  predicate LayoutOf(tiles: seq<Entry>, side: nat, image: seq<seq<Entry>>)
    requires ValidPool(tiles)
  {
    && side >= 1 && RowsShaped(image, side)
    && |image[0]| >= 1 && FindTopLeft(tiles) == Some(image[0][0])
    && HeadsChained(image, side)
    && TilesFrom(tiles, image)
    && DistinctIds(Flatten(image))
  }

  /** `side` rows of at most `side` valid tiles, neighbours meeting at equal borders. */
  predicate RowsShaped(image: seq<seq<Entry>>, side: nat)
  {
    && |image| == side
    && (forall i :: 0 <= i < side ==> |image[i]| <= side && AllValid(image[i]) && RowChained(image[i]))
  }

  /** Each non-empty row follows a non-empty row whose head's bottom border is its head's top border. */
  predicate HeadsChained(image: seq<seq<Entry>>, side: nat)
    requires RowsShaped(image, side)
  {
    forall i :: 0 < i < side && |image[i]| > 0 ==>
      |image[i - 1]| > 0 && Top(image[i][0].1) == Bottom(image[i - 1][0].1)
  }

  /** Every placed tile is an orientation of a tile of the map, under its id. */
  predicate TilesFrom(tiles: seq<Entry>, image: seq<seq<Entry>>)
    requires ValidPool(tiles)
  {
    forall i, k :: 0 <= i < |image| && 0 <= k < |image[i]| ==> FromPool(tiles, image[i][k].0, image[i][k].1)
  }

  lemma FirstColumn(tiles: seq<Entry>, id: nat, t: Tile, pool0: seq<Entry>, below: seq<Entry>, pool1: seq<Entry>)
    requires ValidPool(tiles) && ValidTile(t) && FromPool(tiles, id, t)
    requires pool0 == Remove(tiles, id) && ValidPool(pool0) && Ids(pool0) == Ids(tiles) - {id}
    requires ValidPool(pool1)
    requires forall k :: 0 <= k < |below| ==> ValidTile(below[k].1) && FromPool(pool0, below[k].0, below[k].1)
    requires DistinctIds(below) && Ids(pool1) == Ids(pool0) - Ids(below) && Ids(below) <= Ids(pool0)
    ensures AllValid([(id, t)] + below)
    ensures DistinctIds([(id, t)] + below)
    ensures Ids([(id, t)] + below) !! Ids(pool1)
  {
    ConsDistinct((id, t), below, pool0);
  }

  lemma AssembleFacts(tiles: seq<Entry>, id: nat, t: Tile, pool0: seq<Entry>, below: seq<Entry>,
                      pool1: seq<Entry>, rows: seq<seq<Entry>>, image: seq<seq<Entry>>, side: nat)
    requires ValidPool(tiles) && ValidTile(t) && side >= 1
    requires FindTopLeft(tiles) == Some((id, t)) && FromPool(tiles, id, t)
    requires pool0 == Remove(tiles, id) && ValidPool(pool0) && ValidPool(pool1)
    requires |below| <= side - 1 && AllValid(below)
    requires forall k :: 0 <= k < |below| ==> FromPool(pool0, below[k].0, below[k].1)
    requires Chained(Bottom(t), below, Downward)
    requires forall e :: e in pool1 ==> e in pool0
    requires LayoutRows([(id, t)] + below, pool1, side - 1, rows)
    requires DistinctIds(Flatten(rows))
    requires image == rows + EmptyRows(side - |rows|)
    ensures LayoutOf(tiles, side, image)
  {
    assert Flatten(image) == Flatten(rows) by {
      FlattenAppend(rows, EmptyRows(side - |rows|));
      FlattenEmptyRows(side - |rows|);
    }
    LayoutShape(id, t, below, pool1, rows, image, side);
    LayoutColumn(id, t, below, pool1, rows, image, side);
    LayoutFromPool(tiles, id, t, pool0, below, pool1, rows, image, side);
    assert image[0] == rows[0];
  }

  lemma LayoutShape(id: nat, t: Tile, below: seq<Entry>, pool1: seq<Entry>, rows: seq<seq<Entry>>,
                    image: seq<seq<Entry>>, side: nat)
    requires ValidPool(pool1) && side >= 1 && |below| <= side - 1
    requires LayoutRows([(id, t)] + below, pool1, side - 1, rows)
    requires image == rows + EmptyRows(side - |rows|)
    ensures RowsShaped(image, side)
  {
    forall i | 0 <= i < side ensures |image[i]| <= side && AllValid(image[i]) && RowChained(image[i]) {
      if i < |rows| { assert image[i] == rows[i]; } else { assert image[i] == []; }
    }
  }

  lemma LayoutColumn(id: nat, t: Tile, below: seq<Entry>, pool1: seq<Entry>, rows: seq<seq<Entry>>,
                     image: seq<seq<Entry>>, side: nat)
    requires ValidPool(pool1) && ValidTile(t) && side >= 1 && |below| <= side - 1 && AllValid(below)
    requires Chained(Bottom(t), below, Downward)
    requires LayoutRows([(id, t)] + below, pool1, side - 1, rows)
    requires image == rows + EmptyRows(side - |rows|)
    requires RowsShaped(image, side)
    ensures HeadsChained(image, side)
  {
    var column := [(id, t)] + below;
    forall i | 0 < i < side && |image[i]| > 0
      ensures |image[i - 1]| > 0 && Top(image[i][0].1) == Bottom(image[i - 1][0].1)
    {
      assert i < |rows|;
      assert image[i] == rows[i] && image[i - 1] == rows[i - 1];
      assert image[i][0] == column[i] && image[i - 1][0] == column[i - 1];
      if i == 1 {
        assert column[1] == below[0];
      } else {
        assert column[i] == below[i - 1] && column[i - 1] == below[i - 2];
      }
    }
  }

  lemma LayoutFromPool(tiles: seq<Entry>, id: nat, t: Tile, pool0: seq<Entry>, below: seq<Entry>,
                       pool1: seq<Entry>, rows: seq<seq<Entry>>, image: seq<seq<Entry>>, side: nat)
    requires ValidPool(tiles) && FromPool(tiles, id, t) && side >= 1
    requires pool0 == Remove(tiles, id) && ValidPool(pool0) && ValidPool(pool1)
    requires |below| <= side - 1
    requires forall k :: 0 <= k < |below| ==> FromPool(pool0, below[k].0, below[k].1)
    requires forall e :: e in pool1 ==> e in pool0
    requires LayoutRows([(id, t)] + below, pool1, side - 1, rows)
    requires image == rows + EmptyRows(side - |rows|)
    ensures TilesFrom(tiles, image)
  {
    var column := [(id, t)] + below;
    forall i, k | 0 <= i < side && 0 <= k < |image[i]| ensures FromPool(tiles, image[i][k].0, image[i][k].1) {
      assert i < |rows| && image[i] == rows[i];
      if k == 0 {
        assert image[i][0] == column[i];
        if i > 0 {
          assert column[i] == below[i - 1];
          FromPoolSub(pool0, tiles, below[i - 1].0, below[i - 1].1);
        }
      } else {
        FromPoolSub(pool1, pool0, rows[i][k].0, rows[i][k].1);
        FromPoolSub(pool0, tiles, rows[i][k].0, rows[i][k].1);
      }
    }
  }

  // ---------------------------------------------------------------------
  // Stitching

  /** `get_row_without_borders`: row `k` of a tile without its first and last cell. */
  function InnerRow(t: Tile, k: nat): (row: seq<char>)
    requires ValidTile(t) && t.width >= 2 && k < t.height
    ensures |row| == t.width - 2
    ensures forall c :: 1 <= c < t.width - 1 ==> row[c - 1] == t.points[k][c]
  {
    t.points[k][1..t.width - 1]
  }

  /** All tiles of the layout are `n` cells wide. */
  predicate Uniform(row: seq<Tile>, n: nat)
  {
    forall j :: 0 <= j < |row| ==> ValidTile(row[j]) && row[j].width == n
  }

  /** One image line: interior row `k` of every tile of a layout row, left to right. */
  function Joined(row: seq<Tile>, n: nat, k: nat): (line: seq<char>)
    requires n >= 2 && Uniform(row, n) && k < n
    ensures |line| == Scale(|row|, n - 2)
  {
    if row == [] then [] else InnerRow(row[0], k) + Joined(row[1..], n, k)
  }

  /** One pass of the source's innermost loops for one tile: its interior rows
      appended to the `tileRows` lines of the band. */
  function AppendTile(band: seq<seq<char>>, t: Tile, tileRows: nat): (r: seq<seq<char>>)
    requires |band| == tileRows && ValidTile(t) && t.width == tileRows + 2
    ensures |r| == tileRows
  {
    seq(tileRows, k requires 0 <= k < tileRows => band[k] + InnerRow(t, k + 1))
  }

  /** The tiles of one layout row appended to a band, in order. */
  function FillBand(band: seq<seq<char>>, row: seq<Tile>, tileRows: nat): (r: seq<seq<char>>)
    requires |band| == tileRows && Uniform(row, tileRows + 2)
    ensures |r| == tileRows
    decreases |row|
  {
    if row == [] then band else FillBand(AppendTile(band, row[0], tileRows), row[1..], tileRows)
  }

  /** Appending tile by tile builds every line of a band out of the joined interior rows. */
  lemma {:induction false} FillBandJoins(band: seq<seq<char>>, row: seq<Tile>, tileRows: nat)
    requires |band| == tileRows && Uniform(row, tileRows + 2)
    ensures forall k :: 0 <= k < tileRows ==>
      FillBand(band, row, tileRows)[k] == band[k] + Joined(row, tileRows + 2, k + 1)
    decreases |row|
  {
    if row != [] {
      var next := AppendTile(band, row[0], tileRows);
      FillBandJoins(next, row[1..], tileRows);
      forall k | 0 <= k < tileRows
        ensures FillBand(band, row, tileRows)[k] == band[k] + Joined(row, tileRows + 2, k + 1)
      {
        assert next[k] == band[k] + InnerRow(row[0], k + 1);
      }
    }
  }

  /** The tiles of a layout without their ids. */
  function Layout(image: seq<seq<Entry>>): (layout: seq<seq<Tile>>)
    ensures |layout| == |image|
    ensures forall i :: 0 <= i < |image| ==> |layout[i]| == |image[i]|
    ensures forall i, k :: 0 <= i < |image| && 0 <= k < |image[i]| ==> layout[i][k] == image[i][k].1
  {
    seq(|image|, i requires 0 <= i < |image| => seq(|image[i]|, k requires 0 <= k < |image[i]| => image[i][k].1))
  }

  function EmptyBand(tileRows: nat): (band: seq<seq<char>>)
    ensures |band| == tileRows && forall k :: 0 <= k < tileRows ==> band[k] == []
  {
    seq(tileRows, _ => [])
  }

  /** The final image of `find_image`: band `b` holds lines `b * tileRows` to
      `b * tileRows + tileRows - 1`, each made of the interior rows of layout row `b`. */
  function Stitch(layout: seq<seq<Tile>>, tileRows: nat): (lines: Grid)
    requires forall b :: 0 <= b < |layout| ==> Uniform(layout[b], tileRows + 2)
    ensures |lines| == Scale(|layout|, tileRows)
    decreases |layout|
  {
    if layout == [] then []
    else FillBand(EmptyBand(tileRows), layout[0], tileRows) + Stitch(layout[1..], tileRows)
  }

  /** Block `b` of `m` blocks of `q` lines starts inside the image. */
  lemma {:induction false} BlockIndex(b: nat, m: nat, q: nat, k: nat)
    requires b < m && k < q
    ensures Scale(b, q) + k < Scale(m, q)
    decreases m
  {
    if b + 1 < m {
      BlockIndex(b, m - 1, q, k);
    }
  }

  /** Line `b * tileRows + k` of the stitched image is interior row `k + 1`
      of layout row `b`, tiles side by side. */
  lemma StitchLine(layout: seq<seq<Tile>>, tileRows: nat, b: nat, k: nat)
    requires forall i :: 0 <= i < |layout| ==> Uniform(layout[i], tileRows + 2)
    requires b < |layout| && k < tileRows
    ensures Scale(b, tileRows) + k < |Stitch(layout, tileRows)|
    ensures Stitch(layout, tileRows)[Scale(b, tileRows) + k] == Joined(layout[b], tileRows + 2, k + 1)
  {
    StitchLineAt(layout, tileRows, b, k, Scale(b, tileRows) + k);
  }

  lemma {:induction false} StitchLineAt(layout: seq<seq<Tile>>, q: nat, b: nat, k: nat, offset: nat)
    requires forall i :: 0 <= i < |layout| ==> Uniform(layout[i], q + 2)
    requires b < |layout| && k < q && offset == Scale(b, q) + k
    ensures offset < |Stitch(layout, q)|
    ensures Stitch(layout, q)[offset] == Joined(layout[b], q + 2, k + 1)
    decreases b
  {
    var band := FillBand(EmptyBand(q), layout[0], q);
    var below := Stitch(layout[1..], q);
    assert Stitch(layout, q) == band + below;
    if b == 0 {
      FillBandJoins(EmptyBand(q), layout[0], q);
      assert band[k] == [] + Joined(layout[0], q + 2, k + 1);
    } else {
      StitchLineAt(layout[1..], q, b - 1, k, offset - q);
      assert layout[1..][b - 1] == layout[b];
    }
  }

  /** Offset `j * (n - 2) + c` of `Joined` is cell `c + 1` of tile `j`'s row `k`. */
  lemma JoinedCell(row: seq<Tile>, n: nat, k: nat, j: nat, c: nat)
    requires n >= 2 && Uniform(row, n) && k < n
    requires j < |row| && c < n - 2
    ensures Scale(j, n - 2) + c < |Joined(row, n, k)|
    ensures Joined(row, n, k)[Scale(j, n - 2) + c] == row[j].points[k][c + 1]
  {
    JoinedCellAt(row, n, k, j, c, Scale(j, n - 2) + c);
  }

  lemma {:induction false} JoinedCellAt(row: seq<Tile>, n: nat, k: nat, j: nat, c: nat, offset: nat)
    requires n >= 2 && Uniform(row, n) && k < n
    requires j < |row| && c < n - 2 && offset == Scale(j, n - 2) + c
    ensures offset < |Joined(row, n, k)|
    ensures Joined(row, n, k)[offset] == row[j].points[k][c + 1]
    decreases j
  {
    var first := InnerRow(row[0], k);
    assert Joined(row, n, k) == first + Joined(row[1..], n, k);
    if j > 0 {
      JoinedCellAt(row[1..], n, k, j - 1, c, offset - (n - 2));
      assert row[1..][j - 1] == row[j];
    }
  }

  /** The stitched image cell by cell: interior cell (k + 1, c + 1) of the
      tile in layout row `b`, column `j` lands at (b * (n - 2) + k, j * (n - 2) + c). */
  lemma StitchCell(layout: seq<seq<Tile>>, n: nat, b: nat, j: nat, k: nat, c: nat)
    requires n >= 2 && forall i :: 0 <= i < |layout| ==> Uniform(layout[i], n)
    requires b < |layout| && j < |layout[b]| && k < n - 2 && c < n - 2
    ensures var lines := Stitch(layout, n - 2);
      && Scale(b, n - 2) + k < |lines|
      && Scale(j, n - 2) + c < |lines[Scale(b, n - 2) + k]|
      && lines[Scale(b, n - 2) + k][Scale(j, n - 2) + c] == layout[b][j].points[k + 1][c + 1]
  {
    StitchLine(layout, n - 2, b, k);
    JoinedCell(layout[b], n, k + 1, j, c);
  }

  /** All tiles of the pool are `n` cells wide. */
  predicate UniformPool(tiles: seq<Entry>, n: nat)
  {
    forall k :: 0 <= k < |tiles| ==> tiles[k].1.width == n
  }

  lemma FromPoolWidth(tiles: seq<Entry>, n: nat, id: nat, t: Tile)
    requires ValidPool(tiles) && UniformPool(tiles, n) && FromPool(tiles, id, t)
    ensures ValidTile(t) && t.width == n
  {
    var k, u :| 0 <= k < |tiles| && 0 <= u < 8 && tiles[k].0 == id && Transformations(tiles[k].1)[u] == t;
    TransformationsWidth(tiles[k].1);
  }

  /** The ids of a layout, row by row: the source's `tile_composition`. */
  function Composition(image: seq<seq<Entry>>): (comp: seq<seq<nat>>)
    ensures |comp| == |image|
    ensures forall i :: 0 <= i < |image| ==> |comp[i]| == |image[i]|
    ensures forall i, k :: 0 <= i < |image| && 0 <= k < |image[i]| ==> comp[i][k] == image[i][k].0
  {
    seq(|image|, i requires 0 <= i < |image| => seq(|image[i]|, k requires 0 <= k < |image[i]| => image[i][k].0))
  }

  /** The image that `find_image` stitches from a layout of `n`-wide tiles. */
  predicate StitchedFrom(image: seq<seq<Entry>>, n: nat, img: Tile)
  {
    && n >= 3
    && |img.points| == Scale(|image|, n - 2) == img.height
    && CellsFrom(image, n, img.points)
  }

  /** Every interior cell of every placed tile is where `CellFrom` puts it. */
  predicate CellsFrom(image: seq<seq<Entry>>, n: nat, lines: Grid)
  {
    forall b, j, k, c :: 0 <= b < |image| && 0 <= j < |image[b]| && 1 <= k < n - 1 && 1 <= c < n - 1 ==>
      CellFrom(image, n, lines, b, j, k, c)
  }

  /** Interior cell (k, c) of the tile in layout row `b`, column `j` sits at
      line `b * (n - 2) + k - 1`, column `j * (n - 2) + c - 1` of the image. */
  predicate CellFrom(image: seq<seq<Entry>>, n: nat, lines: Grid, b: nat, j: nat, k: nat, c: nat)
    requires b < |image| && j < |image[b]| && 1 <= k < n - 1 && 1 <= c < n - 1
  {
    && k < |image[b][j].1.points| && c < |image[b][j].1.points[k]|
    && Scale(b, n - 2) + k - 1 < |lines|
    && Scale(j, n - 2) + c - 1 < |lines[Scale(b, n - 2) + k - 1]|
    && lines[Scale(b, n - 2) + k - 1][Scale(j, n - 2) + c - 1] == image[b][j].1.points[k][c]
  }

  /** `find_image`: the tile composition and the stitched image, or `None`
      where the source panics (no top-left tile; tiles narrower than three
      cells, which leave no interior rows). `side` is the integer square root
      of the tile count. */
  function FindImage(tiles: seq<Entry>, side: nat, n: nat): (r: Option<(seq<seq<nat>>, Tile)>)
    requires ValidPool(tiles) && UniformPool(tiles, n)
    requires side * side <= |tiles| < (side + 1) * (side + 1)
    ensures r.None? <==> FindTopLeft(tiles).None? || n < 3
    ensures r.Some? ==> (exists image :: LayoutOf(tiles, side, image)
                                          && r.value.0 == Composition(image) && StitchedFrom(image, n, r.value.1))
  {
    match Assemble(tiles, side)
    case None => None
    case Some(image) =>
      if n < 3 then None
      else
        LayoutUniform(tiles, side, image, n);
        var lines := Stitch(Layout(image), n - 2);
        BlockIndex(0, side, n - 2, 0);
        var img := Tile(lines, |lines[0]|, |lines|);
        StitchedLayout(image, n);
        assert StitchedFrom(image, n, img);
        Some((Composition(image), img))
  }

  lemma LayoutUniform(tiles: seq<Entry>, side: nat, image: seq<seq<Entry>>, n: nat)
    requires ValidPool(tiles) && UniformPool(tiles, n) && LayoutOf(tiles, side, image)
    ensures forall i :: 0 <= i < |Layout(image)| ==> Uniform(Layout(image)[i], n)
  {
    var layout := Layout(image);
    forall i, j | 0 <= i < |layout| && 0 <= j < |layout[i]| ensures ValidTile(layout[i][j]) && layout[i][j].width == n {
      FromPoolWidth(tiles, n, image[i][j].0, image[i][j].1);
    }
  }

  lemma StitchedLayout(image: seq<seq<Entry>>, n: nat)
    requires n >= 3 && forall i :: 0 <= i < |Layout(image)| ==> Uniform(Layout(image)[i], n)
    ensures CellsFrom(image, n, Stitch(Layout(image), n - 2))
  {
    var lines := Stitch(Layout(image), n - 2);
    forall b, j, k, c | 0 <= b < |image| && 0 <= j < |image[b]| && 1 <= k < n - 1 && 1 <= c < n - 1
      ensures CellFrom(image, n, lines, b, j, k, c)
    {
      StitchedCell(image, n, b, j, k, c);
    }
  }

  lemma StitchedCell(image: seq<seq<Entry>>, n: nat, b: nat, j: nat, k: nat, c: nat)
    requires n >= 3 && forall i :: 0 <= i < |Layout(image)| ==> Uniform(Layout(image)[i], n)
    requires b < |image| && j < |image[b]| && 1 <= k < n - 1 && 1 <= c < n - 1
    ensures CellFrom(image, n, Stitch(Layout(image), n - 2), b, j, k, c)
  {
    var layout := Layout(image);
    var lines := Stitch(layout, n - 2);
    assert layout[b][j] == image[b][j].1;
    StitchCell(layout, n, b, j, k - 1, c - 1);
    var row := Scale(b, n - 2) + (k - 1);
    var col := Scale(j, n - 2) + (c - 1);
    assert row == Scale(b, n - 2) + k - 1 && col == Scale(j, n - 2) + c - 1;
    assert row < |lines| && col < |lines[row]| && lines[row][col] == layout[b][j].points[k][c];
  }

  /** `part1`: the product of the ids at the four corners of the composition;
      `None` where the source indexes out of bounds. */
  function Part1(comp: seq<seq<nat>>): (r: Option<nat>)
    ensures (|comp| >= 1 && forall i :: 0 <= i < |comp| ==> |comp[i]| == |comp|) ==>
      var s := |comp| - 1;
      r == Some(comp[0][0] * comp[0][s] * comp[s][0] * comp[s][s])
    ensures r.Some? ==> |comp| >= 1 && 1 <= |comp[0]| <= |comp|
    ensures r.Some? <==> |comp| >= 1 && 1 <= |comp[0]| <= |comp| && |comp[|comp[0]| - 1]| >= |comp[0]|
    ensures r.Some? ==> var s := |comp[0]| - 1; r.value == comp[0][0] * comp[0][s] * comp[s][0] * comp[s][s]
  {
    if |comp| == 0 || |comp[0]| == 0 then None
    else
      var side := |comp[0]| - 1;
      if side >= |comp| || side >= |comp[side]| then None
      else Some(comp[0][0] * comp[0][side] * comp[side][0] * comp[side][side])
  }

  // ---------------------------------------------------------------------
  // Sea monsters

  /** Column offsets of the monster's '#' cells on its three lines, relative to
      the leftmost column of the monster. */
  const MonsterHead: nat := 18
  const MonsterBody: seq<nat> := [0, 5, 6, 11, 12, 17, 18, 19]
  const MonsterFeet: seq<nat> := [1, 4, 7, 10, 13, 16]

  /** The monster's cells as (line, column) offsets. */
  function MonsterCells(): seq<(nat, nat)>
  {
    [(0, MonsterHead)]
    + seq(|MonsterBody|, i requires 0 <= i < |MonsterBody| => (1, MonsterBody[i]))
    + seq(|MonsterFeet|, i requires 0 <= i < |MonsterFeet| => (2, MonsterFeet[i]))
  }

  /** The pattern has fifteen distinct cells: the `tags_in_monster` constant. */
  lemma MonsterSize()
    ensures |MonsterCells()| == 15
    ensures forall i, j :: 0 <= i < j < 15 ==> MonsterCells()[i] != MonsterCells()[j]
  {
    MonsterCellsList();
  }

  /** Cell (r, c) exists and holds '#'. */
  predicate HashAt(g: Grid, r: int, c: int)
  {
    0 <= r < |g| && 0 <= c < |g[r]| && g[r][c] == '#'
  }

  /** A whole monster with its top-left corner at (r, c). */
  predicate MonsterAt(g: Grid, r: nat, c: nat)
  {
    forall i :: 0 <= i < |MonsterCells()| ==> HashAt(g, r + MonsterCells()[i].0, c + MonsterCells()[i].1)
  }

  /** `offsets.iter().all(|x| row[x + idx] == '#')` as the source evaluates it:
      `None` when an index past the end is reached before a mismatch. */
  function AllHashAsWritten(row: seq<char>, offsets: seq<nat>, idx: nat): Option<bool>
  {
    if offsets == [] then Some(true)
    else if idx + offsets[0] >= |row| then None
    else if row[idx + offsets[0]] != '#' then Some(false)
    else AllHashAsWritten(row, offsets[1..], idx)
  }

  /** The inner loop of `monsters_in` over the anchors `idx` with
      `18 + idx < |first|`, as written. */
  function RowMonstersAsWritten(first: seq<char>, second: seq<char>, third: seq<char>, idx: nat): Option<nat>
    decreases |first| - idx
  {
    if MonsterHead + idx >= |first| then Some(0)
    else
      var rest := RowMonstersAsWritten(first, second, third, idx + 1);
      if first[MonsterHead + idx] != '#' then rest
      else
        match AllHashAsWritten(second, MonsterBody, idx)
        case None => None
        case Some(false) => rest
        case Some(true) =>
          match AllHashAsWritten(third, MonsterFeet, idx)
          case None => None
          case Some(false) => rest
          case Some(true) => if rest.None? then None else Some(rest.value + 1)
  }

  /** `monsters_in` as written, over the windows of three lines starting at `r`.
      `None` is a panic: a line shorter than 18 cells (the `first_row[18..]`
      slice) or a monster body read past the end of its line. */
  function MonstersInAsWritten(g: Grid, r: nat): (res: Option<nat>)
    ensures r + 3 > |g| ==> res == Some(0)
    ensures res.None? <==> exists row :: r <= row && row + 3 <= |g| && WindowPanics(g, row)
    decreases |g| - r
  {
    if r + 3 > |g| then Some(0)
    else
      PanicsSplit(g, r);
      if |g[r]| < MonsterHead then None
      else
      match RowMonstersAsWritten(g[r], g[r + 1], g[r + 2], 0)
      case None => None
      case Some(here) =>
        match MonstersInAsWritten(g, r + 1)
        case None => None
        case Some(below) => Some(here + below)
  }

  /** The window of three lines at `row` makes `monsters_in` panic: its first
      line is shorter than 18 cells, or a body read runs past a line. */
  predicate WindowPanics(g: Grid, row: nat)
    requires row + 3 <= |g|
  {
    |g[row]| < MonsterHead || RowMonstersAsWritten(g[row], g[row + 1], g[row + 2], 0).None?
  }

  /** The corrected check: every offset lies inside the row and holds '#'. */
  function AllHash(row: seq<char>, offsets: seq<nat>, idx: nat): (b: bool)
    ensures b <==> forall i :: 0 <= i < |offsets| ==> idx + offsets[i] < |row| && row[idx + offsets[i]] == '#'
  {
    if offsets == [] then true
    else idx + offsets[0] < |row| && row[idx + offsets[0]] == '#' && AllHash(row, offsets[1..], idx)
  }

  /** The check `monsters_in` applies at anchor `idx` of a window, with reads
      past the end of a line counting as no monster. */
  predicate MonsterCheck(first: seq<char>, second: seq<char>, third: seq<char>, idx: nat)
  {
    MonsterHead + idx < |first| && first[MonsterHead + idx] == '#'
    && AllHash(second, MonsterBody, idx) && AllHash(third, MonsterFeet, idx)
  }

  /** The corrected inner loop: the anchors from `idx` on whose check passes. */
  function RowMonsters(first: seq<char>, second: seq<char>, third: seq<char>, idx: nat): (n: nat)
    ensures n == |Anchors(first, second, third, idx)|
    decreases |first| - idx
  {
    AnchorsStep(first, second, third, idx);
    if MonsterHead + idx >= |first| then 0
    else
      var rest := RowMonsters(first, second, third, idx + 1);
      if MonsterCheck(first, second, third, idx) then rest + 1 else rest
  }

  /** The anchors from `idx` on at which the check passes. */
  function Anchors(first: seq<char>, second: seq<char>, third: seq<char>, idx: nat): set<nat>
  {
    set c: nat | idx <= c < |first| && MonsterCheck(first, second, third, c)
  }

  lemma AnchorsStep(first: seq<char>, second: seq<char>, third: seq<char>, idx: nat)
    ensures MonsterHead + idx >= |first| ==> Anchors(first, second, third, idx) == {}
    ensures MonsterHead + idx < |first| ==>
      Anchors(first, second, third, idx) ==
        Anchors(first, second, third, idx + 1) + (if MonsterCheck(first, second, third, idx) then {idx} else {})
    ensures idx !in Anchors(first, second, third, idx + 1)
  {
  }

  /** The three lines at `row` hold a monster anchored at column `c`. */
  predicate MonsterWindow(g: Grid, row: nat, c: nat)
  {
    row + 2 < |g| && MonsterCheck(g[row], g[row + 1], g[row + 2], c)
  }

  /** `monsters_in` with the out-of-bounds reads treated as mismatches. */
  function MonstersIn(g: Grid, r: nat): (n: nat)
    ensures n == 0 <==> forall row: nat, c: nat :: r <= row ==> !MonsterWindow(g, row, c)
    decreases |g| - r
  {
    if r + 3 > |g| then 0
    else
      RowNoneAt(g, r);
      WindowsSplit(g, r);
      RowMonsters(g[r], g[r + 1], g[r + 2], 0) + MonstersIn(g, r + 1)
  }

  lemma RowNone(first: seq<char>, second: seq<char>, third: seq<char>)
    ensures RowMonsters(first, second, third, 0) == 0 <==> forall c: nat :: !MonsterCheck(first, second, third, c)
  {
    if c: nat :| MonsterCheck(first, second, third, c) {
      assert c in Anchors(first, second, third, 0);
    }
  }

  lemma WindowsSplit(g: Grid, r: nat)
    requires r + 3 <= |g|
    ensures (forall row: nat, c: nat :: r <= row ==> !MonsterWindow(g, row, c)) <==>
      (forall c: nat :: !MonsterWindow(g, r, c)) &&
      (forall row: nat, c: nat :: r + 1 <= row ==> !MonsterWindow(g, row, c))
  {
  }

  lemma RowNoneAt(g: Grid, r: nat)
    requires r + 3 <= |g|
    ensures RowMonsters(g[r], g[r + 1], g[r + 2], 0) == 0 <==> forall c: nat :: !MonsterWindow(g, r, c)
  {
    RowNone(g[r], g[r + 1], g[r + 2]);
    if RowMonsters(g[r], g[r + 1], g[r + 2], 0) != 0 {
      var c: nat :| MonsterCheck(g[r], g[r + 1], g[r + 2], c);
      assert MonsterWindow(g, r, c);
    }
  }

  lemma PanicsSplit(g: Grid, r: nat)
    requires r + 3 <= |g|
    ensures (exists row :: r <= row && row + 3 <= |g| && WindowPanics(g, row)) <==>
      WindowPanics(g, r) || exists row :: r + 1 <= row && row + 3 <= |g| && WindowPanics(g, row)
  {
  }

  /** The source's three-line check at a window is exactly the fifteen-cell pattern. */
  lemma MonsterCheckIsPattern(g: Grid, r: nat, c: nat)
    requires r + 2 < |g|
    ensures MonsterCheck(g[r], g[r + 1], g[r + 2], c) <==> MonsterAt(g, r, c)
  {
    if MonsterAt(g, r, c) { PatternPassesCheck(g, r, c); }
    if MonsterCheck(g[r], g[r + 1], g[r + 2], c) { CheckGivesPattern(g, r, c); }
  }

  lemma MonsterCellsList()
    ensures MonsterCells() == [(0, 18), (1, 0), (1, 5), (1, 6), (1, 11), (1, 12), (1, 17), (1, 18), (1, 19),
                               (2, 1), (2, 4), (2, 7), (2, 10), (2, 13), (2, 16)]
  {
  }

  lemma PatternPassesCheck(g: Grid, r: nat, c: nat)
    requires r + 2 < |g| && MonsterAt(g, r, c)
    ensures MonsterCheck(g[r], g[r + 1], g[r + 2], c)
  {
    var m := MonsterCells();
    MonsterCellsList();
    assert HashAt(g, r + m[0].0, c + m[0].1);
    forall i | 0 <= i < |MonsterBody| ensures c + MonsterBody[i] < |g[r + 1]| && g[r + 1][c + MonsterBody[i]] == '#' {
      assert m[1 + i] == (1, MonsterBody[i]);
      assert HashAt(g, r + m[1 + i].0, c + m[1 + i].1);
    }
    forall i | 0 <= i < |MonsterFeet| ensures c + MonsterFeet[i] < |g[r + 2]| && g[r + 2][c + MonsterFeet[i]] == '#' {
      assert m[9 + i] == (2, MonsterFeet[i]);
      assert HashAt(g, r + m[9 + i].0, c + m[9 + i].1);
    }
  }

  lemma CheckGivesPattern(g: Grid, r: nat, c: nat)
    requires r + 2 < |g| && MonsterCheck(g[r], g[r + 1], g[r + 2], c)
    ensures MonsterAt(g, r, c)
  {
    var m := MonsterCells();
    MonsterCellsList();
    forall i | 0 <= i < 15 ensures HashAt(g, r + m[i].0, c + m[i].1) {
      if 1 <= i < 9 {
        assert m[i] == (1, MonsterBody[i - 1]);
      } else if 9 <= i {
        assert m[i] == (2, MonsterFeet[i - 9]);
      }
    }
  }

  /** Whenever the source's check does not panic it agrees with the corrected one. */
  lemma {:induction false} AllHashAgrees(row: seq<char>, offsets: seq<nat>, idx: nat)
    ensures AllHashAsWritten(row, offsets, idx).Some? ==> AllHashAsWritten(row, offsets, idx).value == AllHash(row, offsets, idx)
    ensures AllHashAsWritten(row, offsets, idx).None? ==> !AllHash(row, offsets, idx)
    decreases |offsets|
  {
    if offsets != [] {
      AllHashAgrees(row, offsets[1..], idx);
    }
  }

  lemma {:induction false} RowMonstersAgree(first: seq<char>, second: seq<char>, third: seq<char>, idx: nat)
    ensures RowMonstersAsWritten(first, second, third, idx).Some? ==>
      RowMonstersAsWritten(first, second, third, idx).value == RowMonsters(first, second, third, idx)
    decreases |first| - idx
  {
    if MonsterHead + idx < |first| {
      RowMonstersAgree(first, second, third, idx + 1);
      AllHashAgrees(second, MonsterBody, idx);
      AllHashAgrees(third, MonsterFeet, idx);
    }
  }

  /** Every count `monsters_in` returns without panicking is the corrected count. */
  lemma {:induction false} MonstersInAgrees(g: Grid, r: nat)
    ensures MonstersInAsWritten(g, r).Some? ==> MonstersInAsWritten(g, r).value == MonstersIn(g, r)
    decreases |g| - r
  {
    if r + 3 <= |g| {
      RowMonstersAgree(g[r], g[r + 1], g[r + 2], 0);
      MonstersInAgrees(g, r + 1);
    }
  }

  /** Three lines of twenty '#'. */
  function Hashes(): Grid
  {
    seq(3, _ => seq(20, _ => '#'))
  }

  /** On `Hashes()` the anchor at column 1 passes the head test and the
      source reads the body at column 20, one past the end of the line. */
  lemma MonstersInOutOfBounds()
    ensures MonstersInAsWritten(Hashes(), 0).None?
  {
    var line := seq(20, _ => '#');
    var g := Hashes();
    assert g[0] == line && g[1] == line && g[2] == line;
    BodyOutOfBounds(line);
    assert RowMonstersAsWritten(line, line, line, 1).None?;
    assert RowMonstersAsWritten(line, line, line, 0).None?;
  }

  lemma BodyOutOfBounds(line: seq<char>)
    requires line == seq(20, _ => '#')
    ensures AllHashAsWritten(line, MonsterBody, 1).None?
  {
    var body := MonsterBody;
    assert AllHashAsWritten(line, body[7..], 1).None?;
    assert body[6..][1..] == body[7..];
    assert body[5..][1..] == body[6..];
    assert body[4..][1..] == body[5..];
    assert body[3..][1..] == body[4..];
    assert body[2..][1..] == body[3..];
    assert body[1..][1..] == body[2..];
    assert AllHashAsWritten(line, body[6..], 1).None?;
    assert AllHashAsWritten(line, body[5..], 1).None?;
    assert AllHashAsWritten(line, body[4..], 1).None?;
    assert AllHashAsWritten(line, body[3..], 1).None?;
    assert AllHashAsWritten(line, body[2..], 1).None?;
    assert AllHashAsWritten(line, body[1..], 1).None?;
  }

  /** On `Hashes()` the corrected scan finds the one monster anchored at column 0. */
  lemma MonstersInHashes()
    ensures MonstersIn(Hashes(), 0) == 1
  {
    var line := seq(20, _ => '#');
    var g := Hashes();
    assert g[0] == line && g[1] == line && g[2] == line;
    HashesAnchors(line);
    assert MonstersIn(g, 1) == 0;
  }

  lemma HashesAnchors(line: seq<char>)
    requires line == seq(20, _ => '#')
    ensures Anchors(line, line, line, 0) == {0}
  {
    assert MonsterCheck(line, line, line, 0) by {
      assert forall i :: 0 <= i < |MonsterBody| ==> 0 + MonsterBody[i] < |line|;
      assert forall i :: 0 <= i < |MonsterFeet| ==> 0 + MonsterFeet[i] < |line|;
    }
    assert !MonsterCheck(line, line, line, 1) by {
      assert !(1 + MonsterBody[7] < |line|);
    }
    forall c | 2 <= c ensures !MonsterCheck(line, line, line, c) {
      assert MonsterHead + c >= |line|;
    }
  }

  /** `count_monsters` with the corrected `MonstersIn`: the first non-zero
      monster count over the image's orientations, in the order the iterator
      yields them, or 0. The code as written is `CountMonstersAsWritten`. */
  function CountMonsters(img: Tile): (n: nat)
    requires ValidTile(img)
    ensures n != 0 ==> (exists k :: 0 <= k < 8 && n == MonstersIn(Transformations(img)[k].points, 0)
                                    && forall j :: 0 <= j < k ==> MonstersIn(Transformations(img)[j].points, 0) == 0)
    ensures n == 0 <==> forall k :: 0 <= k < 8 ==> MonstersIn(Transformations(img)[k].points, 0) == 0
  {
    FirstMonsters(Transformations(img), 0)
  }

  function FirstMonsters(ts: seq<Tile>, k: nat): (n: nat)
    requires k <= |ts|
    ensures n != 0 ==> (exists i :: k <= i < |ts| && n == MonstersIn(ts[i].points, 0)
                                    && forall j :: k <= j < i ==> MonstersIn(ts[j].points, 0) == 0)
    ensures n == 0 <==> forall i :: k <= i < |ts| ==> MonstersIn(ts[i].points, 0) == 0
    decreases |ts| - k
  {
    if k == |ts| then 0
    else if MonstersIn(ts[k].points, 0) != 0 then MonstersIn(ts[k].points, 0)
    else FirstMonsters(ts, k + 1)
  }

  /** `count_monsters` as written, over `monsters_in` as written: `None` where
      the orientation the loop reaches makes `monsters_in` panic. Whenever it
      does not panic it agrees with the corrected count. */
  function CountMonstersAsWritten(img: Tile): (n: Option<nat>)
    requires ValidTile(img)
    ensures n.Some? ==> n.value == CountMonsters(img)
  {
    FirstMonstersAsWritten(Transformations(img), 0)
  }

  function FirstMonstersAsWritten(ts: seq<Tile>, k: nat): (n: Option<nat>)
    requires k <= |ts|
    ensures n.Some? ==> n.value == FirstMonsters(ts, k)
    ensures n.None? ==> exists i :: k <= i < |ts| && MonstersInAsWritten(ts[i].points, 0).None?
    decreases |ts| - k
  {
    if k == |ts| then Some(0)
    else
      MonstersInAgrees(ts[k].points, 0);
      match MonstersInAsWritten(ts[k].points, 0)
      case None => None
      case Some(m) => if m != 0 then Some(m) else FirstMonstersAsWritten(ts, k + 1)
  }

  /** The number of '#' cells of a grid. */
  function CountHash(g: Grid): nat
  {
    if g == [] then 0 else CountWhere(g[0], c => c == '#') + CountHash(g[1..])
  }

  /** `part2` with the corrected monster count: the '#' cells that belong to
      no sea monster; `None` for an image that is not square or when the
      `usize` subtraction goes below zero. The code as written also panics
      wherever `CountMonstersAsWritten` does. */
  function Part2(img: Tile): (r: Option<nat>)
    ensures r.Some? <==> ValidTile(img) && 15 * CountMonsters(img) <= CountHash(img.points)
    ensures r.Some? ==> r.value + 15 * CountMonsters(img) == CountHash(img.points)
  {
    if !ValidTile(img) then None
    else
      var monsters := CountMonsters(img);
      var total := CountHash(img.points);
      if total < monsters * 15 then None else Some(total - monsters * 15)
  }
}
