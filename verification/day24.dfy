/** Day 24: lobby layout. Hexagonal floor tiles are addressed in axial
    coordinates; each input line spells a walk from the reference tile
    `(0, 0)` as a run of the six direction names without separators, and
    the tile it ends on is flipped. Part 1 counts the black tiles; part 2
    then applies a Life-like daily rule a hundred times. */
module Day24 {
  import opened Wrappers
  import opened Seqs

  datatype Colour = White | Black

  datatype Tile = Tile(x: int, y: int)

  /** The direction names in the order the parser tries them. */
  const DIRECTIONS: seq<string> := ["ne", "nw", "se", "sw", "e", "w"]

  /** The offset of each direction, index for index with `DIRECTIONS`. */
  const BASE_COORDINATES: seq<(int, int)> := [(0, 1), (-1, 1), (1, -1), (0, -1), (1, 0), (-1, 0)]

  /** The index of each direction's opposite: ne/sw, nw/se and e/w. */
  const OPPOSITE: seq<nat> := [3, 2, 1, 0, 5, 4]

  const DAYS: nat := 100

  // ---------------------------------------------------------- steps

  /** The offset `step` adds for a direction name; `None` where it panics
      on an unknown name. */
  function Offset(direction: string): (r: Option<(int, int)>)
    ensures r.Some? <==> direction in DIRECTIONS
  {
    if direction == "se" then Some((1, -1))
    else if direction == "sw" then Some((0, -1))
    else if direction == "ne" then Some((0, 1))
    else if direction == "nw" then Some((-1, 1))
    else if direction == "e" then Some((1, 0))
    else if direction == "w" then Some((-1, 0))
    else None
  }

  function Step(tile: Tile, direction: string): (r: Option<Tile>)
    ensures r.Some? <==> direction in DIRECTIONS
  {
    match Offset(direction)
    case None => None
    case Some(d) => Some(Tile(tile.x + d.0, tile.y + d.1))
  }

  /** The table of base coordinates and the offsets `step` applies agree. */
  lemma BaseCoordinates()
    ensures |BASE_COORDINATES| == |DIRECTIONS|
    ensures forall i :: 0 <= i < |DIRECTIONS| ==> Offset(DIRECTIONS[i]) == Some(BASE_COORDINATES[i])
  {
  }

  /** The tile one step from `tile` in the i-th direction. */
  function StepBy(tile: Tile, i: nat): Tile
    requires i < |DIRECTIONS|
  {
    Tile(tile.x + BASE_COORDINATES[i].0, tile.y + BASE_COORDINATES[i].1)
  }

  /** `step` with the i-th direction name moves to `StepBy(tile, i)`. */
  lemma StepIndex(tile: Tile, i: nat)
    requires i < |DIRECTIONS|
    ensures Step(tile, DIRECTIONS[i]) == Some(StepBy(tile, i))
  {
    BaseCoordinates();
  }

  /** Each direction is the opposite of its opposite. */
  lemma OppositeOpposite()
    ensures |OPPOSITE| == |DIRECTIONS|
    ensures forall i :: 0 <= i < |DIRECTIONS| ==> OPPOSITE[i] < |DIRECTIONS| && OPPOSITE[OPPOSITE[i]] == i
  {
  }

  /** A step followed by a step the opposite way returns to the start. */
  lemma OppositesCancel(tile: Tile, i: nat)
    requires i < |DIRECTIONS|
    ensures OPPOSITE[i] < |DIRECTIONS|
    ensures Step(Step(tile, DIRECTIONS[i]).value, DIRECTIONS[OPPOSITE[i]]) == Some(tile)
  {
    OppositeOpposite();
    var j := OPPOSITE[i];
    StepIndex(tile, i);
    var next := Step(tile, DIRECTIONS[i]).value;
    StepIndex(next, j);
    assert BASE_COORDINATES[i].0 + BASE_COORDINATES[j].0 == 0;
    assert BASE_COORDINATES[i].1 + BASE_COORDINATES[j].1 == 0;
  }

  // ----------------------------------------------------- neighbours

  /** Two tiles share an edge: they differ by at most one in each axial
      coordinate and in the third, implied, cube coordinate. */
  predicate Adjacent(a: Tile, b: Tile)
  {
    var dx, dy := b.x - a.x, b.y - a.y;
    -1 <= dx <= 1 && -1 <= dy <= 1 && -1 <= dx + dy <= 1 && (dx != 0 || dy != 0)
  }

  function Neighbours(tile: Tile): (r: seq<Tile>)
    ensures |r| == 6
  {
    seq(6, i requires 0 <= i < 6 => StepBy(tile, i))
  }

  /** The neighbours are six distinct tiles, the i-th one step away in the
      i-th direction. */
  lemma NeighboursStep(tile: Tile)
    ensures forall i :: 0 <= i < 6 ==> Step(tile, DIRECTIONS[i]) == Some(Neighbours(tile)[i])
    ensures forall i, j :: 0 <= i < j < 6 ==> Neighbours(tile)[i] != Neighbours(tile)[j]
  {
    BaseCoordinates();
  }

  /** The six neighbours are exactly the tiles sharing an edge. */
  lemma NeighboursAdjacent(tile: Tile, other: Tile)
    ensures other in Neighbours(tile) <==> Adjacent(tile, other)
  {
    var r := Neighbours(tile);
    if Adjacent(tile, other) {
      var dx, dy := other.x - tile.x, other.y - tile.y;
      var i := if (dx, dy) == (0, 1) then 0 else if (dx, dy) == (-1, 1) then 1
        else if (dx, dy) == (1, -1) then 2 else if (dx, dy) == (0, -1) then 3
        else if (dx, dy) == (1, 0) then 4 else 5;
      assert r[i] == other;
    }
  }

  lemma NeighboursSymmetric(tile: Tile, other: Tile)
    ensures other in Neighbours(tile) <==> tile in Neighbours(other)
  {
    NeighboursAdjacent(tile, other);
    NeighboursAdjacent(other, tile);
  }

  // ------------------------------------------------------ one line

  /** The first direction, in `DIRECTIONS` order, that the line starts
      with: the `for` loop with its `break`. */
  function Match(line: string): (r: Option<nat>)
    ensures r.Some? ==> r.value < |DIRECTIONS| && StartsWith(line, DIRECTIONS[r.value])
    ensures r.None? <==> forall i :: 0 <= i < |DIRECTIONS| ==> !StartsWith(line, DIRECTIONS[i])
  {
    MatchFrom(line, 0)
  }

  function MatchFrom(line: string, i: nat): (r: Option<nat>)
    requires i <= |DIRECTIONS|
    ensures r.Some? ==> i <= r.value < |DIRECTIONS| && StartsWith(line, DIRECTIONS[r.value])
    ensures r.None? <==> forall k :: i <= k < |DIRECTIONS| ==> !StartsWith(line, DIRECTIONS[k])
    decreases |DIRECTIONS| - i
  {
    if i == |DIRECTIONS| then None
    else if StartsWith(line, DIRECTIONS[i]) then Some(i)
    else MatchFrom(line, i + 1)
  }

  /** At most one direction name starts any line, so the order the parser
      tries them in (two-letter names first) never changes the result. */
  lemma MatchUnique(line: string, i: nat, j: nat)
    requires i < |DIRECTIONS| && j < |DIRECTIONS|
    requires StartsWith(line, DIRECTIONS[i]) && StartsWith(line, DIRECTIONS[j])
    ensures i == j
  {
    assert line[0] == DIRECTIONS[i][0] == DIRECTIONS[j][0];
    if |DIRECTIONS[i]| == 2 && |DIRECTIONS[j]| == 2 {
      assert line[1] == DIRECTIONS[i][1] == DIRECTIONS[j][1];
    }
  }

  /** One round of the `while` loop: consume the matched direction and
      step (`StepIndex` shows this is `step` with the matched name), or
      leave line and tile as they are when nothing matches. */
  function Advance(line: string, tile: Tile): (string, Tile)
  {
    match Match(line)
    case None => (line, tile)
    case Some(i) => (line[|DIRECTIONS[i]|..], StepBy(tile, i))
  }

  /** The `while` loop run for at most `fuel` rounds; `None` when the line
      is not used up by then. */
  function Walk(line: string, tile: Tile, fuel: nat): (r: Option<Tile>)
    ensures line == [] ==> r == Some(tile)
    decreases fuel
  {
    if line == [] then Some(tile)
    else if fuel == 0 then None
    else
      var (rest, next) := Advance(line, tile);
      Walk(rest, next, fuel - 1)
  }

  lemma WalkOnce(line: string, tile: Tile, fuel: nat, rest: string, next: Tile, end: Tile)
    requires line != [] && fuel > 0 && Advance(line, tile) == (rest, next)
    requires Walk(rest, next, fuel - 1) == Some(end)
    ensures Walk(line, tile, fuel) == Some(end)
  {
  }

  /** A non-empty line that starts with no direction name is never
      shortened, so the loop runs forever on it. */
  lemma {:induction false} WalkStuck(line: string, tile: Tile, fuel: nat)
    requires line != [] && Match(line).None?
    ensures Walk(line, tile, fuel).None?
    decreases fuel
  {
    if fuel > 0 {
      WalkStuck(line, tile, fuel - 1);
    }
  }

  predicate IsRoute(route: seq<nat>)
  {
    forall k :: 0 <= k < |route| ==> route[k] < |DIRECTIONS|
  }

  /** A route written out as a line. */
  function Spell(route: seq<nat>): (line: string)
    requires IsRoute(route)
    ensures |route| <= |line|
  {
    if route == [] then [] else DIRECTIONS[route[0]] + Spell(route[1..])
  }

  /** The tile reached by taking the route's steps in order. */
  function Follow(tile: Tile, route: seq<nat>): Tile
    requires IsRoute(route)
    decreases route
  {
    if route == [] then tile
    else Follow(StepBy(tile, route[0]), route[1..])
  }

  lemma AdvanceSpell(route: seq<nat>, tile: Tile)
    requires IsRoute(route) && route != []
    ensures Advance(Spell(route), tile) == (Spell(route[1..]), StepBy(tile, route[0]))
  {
    var line := Spell(route);
    var d := DIRECTIONS[route[0]];
    assert line == d + Spell(route[1..]);
    assert StartsWith(line, d);
    var m := Match(line).value;
    MatchUnique(line, m, route[0]);
    assert line[|d|..] == Spell(route[1..]);
  }

  /** Every route's spelling walks to the route's end in one round per
      step. */
  lemma {:induction false} WalkSpell(route: seq<nat>, tile: Tile, fuel: nat)
    requires IsRoute(route) && |route| <= fuel
    ensures Walk(Spell(route), tile, fuel) == Some(Follow(tile, route))
    decreases route
  {
    if route != [] {
      WalkSpell(route[1..], StepBy(tile, route[0]), fuel - 1);
      WalkSpellStep(route, tile, fuel);
    } else {
      assert Spell(route) == [];
    }
  }

  lemma WalkSpellStep(route: seq<nat>, tile: Tile, fuel: nat)
    requires IsRoute(route) && route != [] && |route| <= fuel
    requires Walk(Spell(route[1..]), StepBy(tile, route[0]), fuel - 1) == Some(Follow(StepBy(tile, route[0]), route[1..]))
    ensures Walk(Spell(route), tile, fuel) == Some(Follow(tile, route))
  {
    var next, after := StepBy(tile, route[0]), route[1..];
    AdvanceSpell(route, tile);
    WalkOnce(Spell(route), tile, fuel, Spell(after), next, Follow(next, after));
  }

  /** ... and a walk that ends read the whole line as a route. */
  lemma {:induction false} WalkSpelled(line: string, tile: Tile, fuel: nat) returns (route: seq<nat>)
    requires Walk(line, tile, fuel).Some?
    ensures IsRoute(route) && |route| <= fuel && Spell(route) == line
    ensures Walk(line, tile, fuel) == Some(Follow(tile, route))
    decreases fuel
  {
    if line == [] {
      route := [];
    } else {
      if Match(line).None? {
        WalkStuck(line, tile, fuel);
      }
      var j: nat := fuel - 1;
      var i := Match(line).value;
      var d := DIRECTIONS[i];
      var next := StepBy(tile, i);
      assert Walk(line, tile, fuel) == Walk(line[|d|..], next, j);
      var rest := WalkSpelled(line[|d|..], next, j);
      route := [i] + rest;
      assert route[0] == i && route[1..] == rest;
      assert Spell(route) == d + Spell(rest);
      assert line == d + line[|d|..];
      assert Follow(tile, route) == Follow(next, rest);
    }
  }

  /** One round per character is always enough fuel: a walk that ends at
      all ends within `|line|` rounds, so a walk that needs more never
      ends. */
  lemma WalkFuel(line: string, tile: Tile, fuel: nat)
    requires Walk(line, tile, fuel).Some?
    ensures Walk(line, tile, |line|) == Walk(line, tile, fuel)
  {
    var route := WalkSpelled(line, tile, fuel);
    WalkSpell(route, tile, |line|);
  }

  // --------------------------------------------------------- part 1

  /** Where each line's walk from the reference tile ends; `None` when some
      line can never be used up. */
  function Walks(lines: seq<string>): (r: Option<seq<Tile>>)
    ensures r.Some? <==> forall i :: 0 <= i < |lines| ==> Walk(lines[i], Tile(0, 0), |lines[i]|).Some?
    ensures r.Some? ==> |r.value| == |lines|
    ensures r.Some? ==> forall i :: 0 <= i < |lines| ==> Walk(lines[i], Tile(0, 0), |lines[i]|) == Some(r.value[i])
  {
    if lines == [] then Some([])
    else
      match Walk(lines[0], Tile(0, 0), |lines[0]|)
      case None => None
      case Some(t) =>
        match Walks(lines[1..])
        case None => None
        case Some(ts) => Some([t] + ts)
  }

  /** Flip one tile: a tile never seen before turns black. */
  function Flip(tiles: map<Tile, Colour>, tile: Tile): map<Tile, Colour>
  {
    var state := if tile !in tiles then Black else if tiles[tile] == Black then White else Black;
    tiles[tile := state]
  }

  /** The floor after flipping the visited tiles in order. */
  function Flips(visited: seq<Tile>): map<Tile, Colour>
  {
    if visited == [] then map[]
    else Flip(Flips(visited[..|visited| - 1]), visited[|visited| - 1])
  }

  /** A tile is on the floor once visited, and black exactly when visited
      an odd number of times. */
  lemma {:induction false} FlipsParity(visited: seq<Tile>, tile: Tile)
    ensures tile in Flips(visited) <==> tile in visited
    ensures tile in Flips(visited) ==> (Flips(visited)[tile] == Black <==> multiset(visited)[tile] % 2 == 1)
  {
    if visited != [] {
      var earlier, last := visited[..|visited| - 1], visited[|visited| - 1];
      assert visited == earlier + [last];
      FlipsParity(earlier, tile);
    }
  }

  function BlackCount(tiles: map<Tile, Colour>): nat
  {
    |set t | t in tiles && tiles[t] == Black|
  }

  function Part1Floor(lines: seq<string>): Option<map<Tile, Colour>>
  {
    match Walks(lines)
    case None => None
    case Some(visited) => Some(Flips(visited))
  }

  function Part1(lines: seq<string>): (r: Option<nat>)
    ensures r.None? <==> exists i :: 0 <= i < |lines| && Walk(lines[i], Tile(0, 0), |lines[i]|).None?
  {
    match Part1Floor(lines)
    case None => None
    case Some(tiles) => Some(BlackCount(tiles))
  }

  /** Part 1 counts the tiles that the lines' walks end on an odd number of
      times, and fails exactly when some line can never be used up. */
  lemma Part1Odd(lines: seq<string>)
    ensures Part1(lines).None? <==> exists i :: 0 <= i < |lines| && Walk(lines[i], Tile(0, 0), |lines[i]|).None?
    ensures Part1(lines).Some? ==>
      var visited := Walks(lines).value;
      Part1(lines).value == |set t | t in visited && multiset(visited)[t] % 2 == 1|
  {
    if Part1(lines).Some? {
      var visited := Walks(lines).value;
      var tiles := Flips(visited);
      forall t
        ensures (t in tiles && tiles[t] == Black) <==> (t in visited && multiset(visited)[t] % 2 == 1)
      {
        FlipsParity(visited, t);
      }
      assert (set t | t in tiles && tiles[t] == Black) == (set t | t in visited && multiset(visited)[t] % 2 == 1);
    }
  }

  // ---------------------------------------------------------- part 2

  /** A tile's colour, white when it is not on the floor. */
  function ColourAt(tiles: map<Tile, Colour>, tile: Tile): Colour
  {
    if tile in tiles then tiles[tile] else White
  }

  function BlackIn(tiles: map<Tile, Colour>, around: seq<Tile>): (n: nat)
    ensures n <= |around|
  {
    if around == [] then 0
    else (if ColourAt(tiles, around[0]) == Black then 1 else 0) + BlackIn(tiles, around[1..])
  }

  function BlackAround(tiles: map<Tile, Colour>, tile: Tile): nat
  {
    BlackIn(tiles, Neighbours(tile))
  }

  /** The daily rule: a black tile with none or more than two black
      neighbours turns white, a white tile with exactly two turns black. */
  function Rule(colour: Colour, black: nat): (r: Colour)
    ensures r == Black <==> black == 2 || (colour == Black && black == 1)
  {
    match colour
    case White => if black == 2 then Black else White
    case Black => if black == 0 || black > 2 then White else Black
  }

  /** The colour the inner loop gives a neighbour not yet on the floor: a
      white tile under the rule. */
  function Fresh(snapshot: map<Tile, Colour>): Tile -> Colour
  {
    t => if BlackAround(snapshot, t) == 2 then Black else White
  }

  /** Each tile's colour under the rule, on the floor or not. */
  function Next(tiles: map<Tile, Colour>): Tile -> Colour
  {
    t => Rule(ColourAt(tiles, t), BlackAround(tiles, t))
  }

  /** The inner loop over one tile's neighbours: each neighbour not yet in
      `state` is added with the colour `paint` gives it. */
  function AddMissing(state: map<Tile, Colour>, around: seq<Tile>, paint: Tile -> Colour): map<Tile, Colour>
    decreases around
  {
    if around == [] then state
    else
      var n := around[0];
      var next := if n in state then state else state[n := paint(n)];
      AddMissing(next, around[1..], paint)
  }

  /** One round of the outer loop, for an entry of the day's snapshot. */
  function Visit(snapshot: map<Tile, Colour>, state: map<Tile, Colour>, entry: (Tile, Colour)): (r: map<Tile, Colour>)
    ensures state.Keys + (set n | n in Neighbours(entry.0)) <= r.Keys
    ensures r.Keys <= state.Keys + (set n | n in Neighbours(entry.0)) + {entry.0}
    ensures forall t :: t in state && t != entry.0 ==> r[t] == state[t]
    ensures forall t :: t in r && t !in state && t != entry.0 ==> r[t] == Fresh(snapshot)(t)
    ensures entry.0 in state && state[entry.0] == entry.1 ==>
      r[entry.0] == Rule(entry.1, BlackAround(snapshot, entry.0))
  {
    var (tile, colour) := entry;
    AddMissingFill(state, Neighbours(tile), Fresh(snapshot));
    var added := AddMissing(state, Neighbours(tile), Fresh(snapshot));
    var black := BlackAround(snapshot, tile);
    match colour
    case White => if black == 2 then added[tile := Black] else added
    case Black => if black == 0 || black > 2 then added[tile := White] else added
  }

  /** A loop over `entries` in order, each round taking the state to
      `round(state, entry)`. */
  function Rounds(state: map<Tile, Colour>, entries: seq<(Tile, Colour)>,
                  round: (map<Tile, Colour>, (Tile, Colour)) -> map<Tile, Colour>): map<Tile, Colour>
  {
    if entries == [] then state
    else round(Rounds(state, entries[..|entries| - 1], round), entries[|entries| - 1])
  }

  /** A round of the outer loop on the given snapshot. */
  function Round(snapshot: map<Tile, Colour>): (map<Tile, Colour>, (Tile, Colour)) -> map<Tile, Colour>
  {
    (state, entry) => Visit(snapshot, state, entry)
  }

  /** The outer loop over the snapshot's entries in the given order,
      starting from a copy of the snapshot. */
  function Process(snapshot: map<Tile, Colour>, entries: seq<(Tile, Colour)>): map<Tile, Colour>
  {
    Rounds(snapshot, entries, Round(snapshot))
  }

  /** `entries` lists the map's entries, each once, in some order: what the
      map's iterator yields. */
  predicate Listing(entries: seq<(Tile, Colour)>, tiles: map<Tile, Colour>)
  {
    (forall i, j :: 0 <= i < j < |entries| ==> entries[i].0 != entries[j].0) &&
    (forall i :: 0 <= i < |entries| ==> entries[i].0 in tiles && tiles[entries[i].0] == entries[i].1) &&
    (forall t :: t in tiles ==> (t, tiles[t]) in entries)
  }

  /** One day, with the map iterated in the order `entries`. */
  function Day(tiles: map<Tile, Colour>, entries: seq<(Tile, Colour)>): (r: map<Tile, Colour>)
    ensures Listing(entries, tiles) ==> r == NextDay(tiles)
  {
    if Listing(entries, tiles) then
      ProcessPartial(tiles, entries);
      ListingTiles(entries, tiles);
      PartialAll(tiles);
      Process(tiles, entries)
    else
      Process(tiles, entries)
  }

  function Around(tiles: set<Tile>): set<Tile>
  {
    set t, i | t in tiles && 0 <= i < 6 :: Neighbours(t)[i]
  }

  /** The next day's floor, as a whole: every tile on the floor or next to
      it, coloured by the rule. */
  function NextDay(tiles: map<Tile, Colour>): map<Tile, Colour>
  {
    map t | t in tiles.Keys + Around(tiles.Keys) :: Next(tiles)(t)
  }

  /** The day's first outer rounds, for the tiles in `done`: those tiles and
      the tiles next to them that are not in the snapshot carry their `rule`
      colour, the rest of the snapshot its old colour. */
  function Partial(tiles: map<Tile, Colour>, done: set<Tile>, rule: Tile -> Colour): map<Tile, Colour>
  {
    map t | t in tiles.Keys + Around(done) :: if t in done || t !in tiles then rule(t) else tiles[t]
  }

  /** `state` with the tiles of `extra` it lacks added in their `paint`
      colour. */
  function Fill(state: map<Tile, Colour>, extra: set<Tile>, paint: Tile -> Colour): map<Tile, Colour>
  {
    map t | t in state.Keys + extra :: if t in state then state[t] else paint(t)
  }

  lemma {:induction false} AddMissingFill(state: map<Tile, Colour>, around: seq<Tile>, paint: Tile -> Colour)
    ensures AddMissing(state, around, paint) == Fill(state, (set n | n in around), paint)
    decreases around
  {
    if around == [] {
      assert Fill(state, {}, paint) == state;
    } else {
      var n := around[0];
      var next := if n in state then state else state[n := paint(n)];
      AddMissingFill(next, around[1..], paint);
      assert (set m | m in around) == {n} + (set m | m in around[1..]);
      assert Fill(next, (set m | m in around[1..]), paint) == Fill(state, (set m | m in around), paint);
    }
  }

  lemma AroundAdd(done: set<Tile>, tile: Tile)
    ensures Around(done + {tile}) == Around(done) + (set n | n in Neighbours(tile))
  {
    var r := Neighbours(tile);
    forall u | u in Around(done + {tile})
      ensures u in Around(done) + (set n | n in r)
    {
      var t, i :| t in done + {tile} && 0 <= i < 6 && u == Neighbours(t)[i];
      if t != tile {
        assert u in Around(done);
      }
    }
    forall u | u in (set n | n in r)
      ensures u in Around(done + {tile})
    {
      var i :| 0 <= i < 6 && r[i] == u;
    }
  }

  /** A tile that is not on the floor gets the same colour from the inner
      loop as from the rule. */
  lemma FreshNext(tiles: map<Tile, Colour>, t: Tile)
    requires t !in tiles
    ensures Fresh(tiles)(t) == Next(tiles)(t)
  {
  }

  /** One outer round extends the partial day by the round's tile. */
  lemma VisitPartial(tiles: map<Tile, Colour>, done: set<Tile>, entry: (Tile, Colour))
    requires done <= tiles.Keys
    requires entry.0 in tiles && tiles[entry.0] == entry.1 && entry.0 !in done
    ensures Visit(tiles, Partial(tiles, done, Next(tiles)), entry) == Partial(tiles, done + {entry.0}, Next(tiles))
  {
    var tile := entry.0;
    var before := Partial(tiles, done, Next(tiles));
    var around := set n | n in Neighbours(tile);
    AddMissingFill(before, Neighbours(tile), Fresh(tiles));
    VisitUpdate(tiles, before, entry);
    forall t | t !in tiles
      ensures Fresh(tiles)(t) == Next(tiles)(t)
    {
      FreshNext(tiles, t);
    }
    AroundAdd(done, tile);
    FillPartial(tiles, done, tile, Next(tiles), Fresh(tiles));
  }

  /** The round's own update always writes the rule's colour, since the
      tile still has its snapshot colour. */
  lemma VisitUpdate(tiles: map<Tile, Colour>, state: map<Tile, Colour>, entry: (Tile, Colour))
    requires entry.0 in state && state[entry.0] == entry.1
    ensures Visit(tiles, state, entry)
      == AddMissing(state, Neighbours(entry.0), Fresh(tiles))[entry.0 := Rule(entry.1, BlackAround(tiles, entry.0))]
  {
    var added := AddMissing(state, Neighbours(entry.0), Fresh(tiles));
    AddMissingFill(state, Neighbours(entry.0), Fresh(tiles));
    assert added[entry.0] == entry.1;
  }

  lemma FillPartial(tiles: map<Tile, Colour>, done: set<Tile>, tile: Tile, rule: Tile -> Colour, paint: Tile -> Colour)
    requires done <= tiles.Keys && tile in tiles && tile !in done
    requires forall t :: t !in tiles ==> paint(t) == rule(t)
    requires Around(done + {tile}) == Around(done) + (set n | n in Neighbours(tile))
    ensures Fill(Partial(tiles, done, rule), (set n | n in Neighbours(tile)), paint)[tile := rule(tile)]
      == Partial(tiles, done + {tile}, rule)
  {
    var before := Partial(tiles, done, rule);
    var added := Fill(before, (set n | n in Neighbours(tile)), paint);
    var after := Partial(tiles, done + {tile}, rule);
    assert added.Keys + {tile} == after.Keys;
    forall t | t in added && t != tile
      ensures added[t] == after[t]
    {
      if t in before {
        assert added[t] == before[t];
      } else {
        assert added[t] == paint(t);
      }
    }
    UpdateEqual(added, after, tile, rule(tile));
  }

  lemma UpdateEqual(a: map<Tile, Colour>, b: map<Tile, Colour>, k: Tile, v: Colour)
    requires a.Keys + {k} == b.Keys && b[k] == v
    requires forall t :: t in a && t != k ==> a[t] == b[t]
    ensures a[k := v] == b
  {
  }

  /** The tiles an entry sequence lists. */
  function EntryTiles(entries: seq<(Tile, Colour)>): set<Tile>
  {
    set e | e in entries :: e.0
  }

  lemma EntryTilesLast(entries: seq<(Tile, Colour)>)
    requires entries != []
    ensures EntryTiles(entries) == EntryTiles(entries[..|entries| - 1]) + {entries[|entries| - 1].0}
  {
    assert entries == entries[..|entries| - 1] + [entries[|entries| - 1]];
  }

  /** The rounds before the last one visit snapshot tiles other than the
      last round's. */
  lemma EntryTilesFront(tiles: map<Tile, Colour>, entries: seq<(Tile, Colour)>)
    requires entries != []
    requires forall i, j :: 0 <= i < j < |entries| ==> entries[i].0 != entries[j].0
    requires forall i :: 0 <= i < |entries| ==> entries[i].0 in tiles
    ensures EntryTiles(entries[..|entries| - 1]) <= tiles.Keys
    ensures entries[|entries| - 1].0 !in EntryTiles(entries[..|entries| - 1])
  {
    var front := entries[..|entries| - 1];
    forall e | e in front
      ensures e.0 in tiles && e.0 != entries[|entries| - 1].0
    {
      var i :| 0 <= i < |front| && front[i] == e;
      assert entries[i] == e;
    }
  }

  /** A loop whose every round extends a partial day by its entry's tile
      ends on the partial day of all the entries' tiles. */
  lemma {:induction false} RoundsPartial(tiles: map<Tile, Colour>, entries: seq<(Tile, Colour)>,
                                          round: (map<Tile, Colour>, (Tile, Colour)) -> map<Tile, Colour>,
                                          rule: Tile -> Colour)
    requires forall i, j :: 0 <= i < j < |entries| ==> entries[i].0 != entries[j].0
    requires forall i :: 0 <= i < |entries| ==> entries[i].0 in tiles && tiles[entries[i].0] == entries[i].1
    requires forall done: set<Tile>, e: (Tile, Colour) ::
      done <= tiles.Keys && e.0 in tiles && tiles[e.0] == e.1 && e.0 !in done ==>
      round(Partial(tiles, done, rule), e) == Partial(tiles, done + {e.0}, rule)
    ensures Rounds(tiles, entries, round) == Partial(tiles, EntryTiles(entries), rule)
    decreases |entries|
  {
    if entries == [] {
      PartialNone(tiles, rule);
    } else {
      var front := entries[..|entries| - 1];
      RoundsPartial(tiles, front, round, rule);
      EntryTilesLast(entries);
      EntryTilesFront(tiles, entries);
    }
  }

  lemma ProcessPartial(tiles: map<Tile, Colour>, entries: seq<(Tile, Colour)>)
    requires forall i, j :: 0 <= i < j < |entries| ==> entries[i].0 != entries[j].0
    requires forall i :: 0 <= i < |entries| ==> entries[i].0 in tiles && tiles[entries[i].0] == entries[i].1
    ensures Process(tiles, entries) == Partial(tiles, EntryTiles(entries), Next(tiles))
  {
    forall done: set<Tile>, e: (Tile, Colour) |
      done <= tiles.Keys && e.0 in tiles && tiles[e.0] == e.1 && e.0 !in done
      ensures Round(tiles)(Partial(tiles, done, Next(tiles)), e) == Partial(tiles, done + {e.0}, Next(tiles))
    {
      VisitPartial(tiles, done, e);
    }
    RoundsPartial(tiles, entries, Round(tiles), Next(tiles));
  }

  lemma ListingTiles(entries: seq<(Tile, Colour)>, tiles: map<Tile, Colour>)
    requires Listing(entries, tiles)
    ensures EntryTiles(entries) == tiles.Keys
  {
    forall t | t in tiles
      ensures t in EntryTiles(entries)
    {
      assert (t, tiles[t]) in entries;
    }
  }

  /** Before the first round the day's state is the snapshot. */
  lemma PartialNone(tiles: map<Tile, Colour>, rule: Tile -> Colour)
    ensures Partial(tiles, {}, rule) == tiles
  {
    assert Around({}) == {};
  }

  /** After the last round every tile carries its rule colour. */
  lemma PartialEvery(tiles: map<Tile, Colour>, rule: Tile -> Colour)
    ensures Partial(tiles, tiles.Keys, rule) == map t | t in tiles.Keys + Around(tiles.Keys) :: rule(t)
  {
  }

  lemma PartialAll(tiles: map<Tile, Colour>)
    ensures Partial(tiles, tiles.Keys, Next(tiles)) == NextDay(tiles)
  {
    PartialEvery(tiles, Next(tiles));
  }

  lemma {:induction false} BlackInWhite(tiles: map<Tile, Colour>, around: seq<Tile>)
    requires forall i :: 0 <= i < |around| ==> around[i] !in tiles
    ensures BlackIn(tiles, around) == 0
    decreases around
  {
    if around != [] {
      BlackInWhite(tiles, around[1..]);
    }
  }

  /** A tile next to a tile of a set is in the set's surroundings. */
  lemma InAround(tiles: set<Tile>, t: Tile, u: Tile)
    requires t in tiles && u in Neighbours(t)
    ensures u in Around(tiles)
  {
    var j :| 0 <= j < 6 && Neighbours(t)[j] == u;
  }

  /** On the next day's floor every tile, on the floor or not, has the
      colour the rule gives it on the day before. */
  lemma NextDayRule(tiles: map<Tile, Colour>, tile: Tile)
    ensures ColourAt(NextDay(tiles), tile) == Rule(ColourAt(tiles, tile), BlackAround(tiles, tile))
  {
    if tile !in NextDay(tiles) {
      var r := Neighbours(tile);
      forall i | 0 <= i < |r|
        ensures r[i] !in tiles
      {
        NeighboursSymmetric(tile, r[i]);
        if r[i] in tiles {
          InAround(tiles.Keys, r[i], tile);
        }
      }
      BlackInWhite(tiles, r);
    }
  }

  /** `k` applications of a day's step. */
  function Iterate(step: map<Tile, Colour> -> map<Tile, Colour>, tiles: map<Tile, Colour>, k: nat): map<Tile, Colour>
    decreases k
  {
    if k == 0 then tiles else step(Iterate(step, tiles, k - 1))
  }

  lemma {:induction false} IterateSame(f: map<Tile, Colour> -> map<Tile, Colour>, g: map<Tile, Colour> -> map<Tile, Colour>, tiles: map<Tile, Colour>, k: nat)
    requires forall m :: f(m) == g(m)
    ensures Iterate(f, tiles, k) == Iterate(g, tiles, k)
    decreases k
  {
    if k > 0 {
      IterateSame(f, g, tiles, k - 1);
    }
  }

  /** `k` days of the rule. */
  function Days(tiles: map<Tile, Colour>, k: nat): map<Tile, Colour>
  {
    Iterate(NextDay, tiles, k)
  }

  /** `k` days of the loop, with `order` the map's iteration order. */
  function DaysIn(tiles: map<Tile, Colour>, k: nat, order: map<Tile, Colour> -> seq<(Tile, Colour)>): map<Tile, Colour>
  {
    Iterate(m => Day(m, order(m)), tiles, k)
  }

  /** The loop's outcome does not depend on the map's iteration order. */
  lemma DaysInExact(tiles: map<Tile, Colour>, k: nat, order: map<Tile, Colour> -> seq<(Tile, Colour)>)
    requires forall m :: Listing(order(m), m)
    ensures DaysIn(tiles, k, order) == Days(tiles, k)
  {
    assert forall m :: Day(m, order(m)) == NextDay(m);
    IterateSame(m => Day(m, order(m)), NextDay, tiles, k);
  }

  /** Part 2 fails exactly when part 1 does, and otherwise counts the
      black tiles after a hundred days of the loop, whatever order the map
      is iterated in. */
  function Part2(lines: seq<string>): (r: Option<nat>)
    ensures r.None? <==> exists i :: 0 <= i < |lines| && Walk(lines[i], Tile(0, 0), |lines[i]|).None?
    ensures r.Some? ==> forall order: map<Tile, Colour> -> seq<(Tile, Colour)> :: (forall m :: Listing(order(m), m)) ==>
      r.value == BlackCount(DaysIn(Part1Floor(lines).value, DAYS, order))
  {
    match Part1Floor(lines)
    case None => None
    case Some(tiles) => DaysInAll(tiles, DAYS); Some(BlackCount(Days(tiles, DAYS)))
  }

  lemma DaysInAll(tiles: map<Tile, Colour>, k: nat)
    ensures forall order: map<Tile, Colour> -> seq<(Tile, Colour)> :: (forall m :: Listing(order(m), m)) ==> DaysIn(tiles, k, order) == Days(tiles, k)
  {
    forall order: map<Tile, Colour> -> seq<(Tile, Colour)> | forall m :: Listing(order(m), m)
      ensures DaysIn(tiles, k, order) == Days(tiles, k)
    {
      DaysInExact(tiles, k, order);
    }
  }
}
