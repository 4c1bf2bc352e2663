/** Day 12: a ship follows navigation commands. In part 1 the letters move the
    ship or turn its heading; in part 2 they move or rotate a waypoint and `F`
    moves the ship towards it. Panics of the source are `None`. */
module Day12 {
  import opened Wrappers
  import opened Arith
  import opened Decimal

  /** Heading in degrees counter-clockwise from east, position, and the
      waypoint relative to the ship. */
  datatype Ship = Ship(angle: int, x: int, y: int, waypointX: int, waypointY: int)

  /** `Ship::new`: heading east at the origin, waypoint 10 east and 1 north. */
  const START: Ship := Ship(0, 0, 0, 10, 1)

  /** A vector of the plane: east and north components. */
  datatype Vec = Vec(x: int, y: int)

  /** A quarter turn counter-clockwise. */
  function Left(v: Vec): Vec
  {
    Vec(-v.y, v.x)
  }

  /** The unit step of a compass letter, for the letters that have one. */
  function Unit(direction: char): Option<Vec>
  {
    if direction == 'E' then Some(Vec(1, 0))
    else if direction == 'W' then Some(Vec(-1, 0))
    else if direction == 'N' then Some(Vec(0, 1))
    else if direction == 'S' then Some(Vec(0, -1))
    else None
  }

  /** `advance`: moves the ship `distance` towards a compass letter. Any other
      letter panics. */
  function Advance(ship: Ship, direction: char, distance: int): (r: Option<Ship>)
    ensures r.Some? <==> Unit(direction).Some?
    ensures r.Some? ==> r.value == ship.(x := ship.x + distance * Unit(direction).value.x,
                                         y := ship.y + distance * Unit(direction).value.y)
  {
    match direction
    case 'E' => Some(ship.(x := ship.x + distance))
    case 'W' => Some(ship.(x := ship.x - distance))
    case 'N' => Some(ship.(y := ship.y + distance))
    case 'S' => Some(ship.(y := ship.y - distance))
    case _ => None
  }

  /** `advance_waypoint`: the same move applied to the waypoint. */
  function AdvanceWaypoint(ship: Ship, direction: char, distance: int): (r: Option<Ship>)
    ensures r.Some? <==> Unit(direction).Some?
    ensures r.Some? ==> r.value == ship.(waypointX := ship.waypointX + distance * Unit(direction).value.x,
                                         waypointY := ship.waypointY + distance * Unit(direction).value.y)
  {
    match direction
    case 'E' => Some(ship.(waypointX := ship.waypointX + distance))
    case 'W' => Some(ship.(waypointX := ship.waypointX - distance))
    case 'N' => Some(ship.(waypointY := ship.waypointY + distance))
    case 'S' => Some(ship.(waypointY := ship.waypointY - distance))
    case _ => None
  }

  /** A move changes exactly one coordinate, by the distance, and moving back
      the same distance restores the ship. */
  lemma AdvanceBack(ship: Ship, direction: char, distance: int)
    requires Unit(direction).Some?
    ensures Advance(ship, direction, distance).Some?
    ensures var s := Advance(ship, direction, distance).value;
            Abs(s.x - ship.x) + Abs(s.y - ship.y) == Abs(distance)
            && (s.x == ship.x || s.y == ship.y)
            && Advance(s, direction, -distance) == Some(ship)
    ensures var s := AdvanceWaypoint(ship, direction, distance).value;
            Abs(s.waypointX - ship.waypointX) + Abs(s.waypointY - ship.waypointY) == Abs(distance)
            && (s.waypointX == ship.waypointX || s.waypointY == ship.waypointY)
            && AdvanceWaypoint(s, direction, -distance) == Some(ship)
  {
  }

  /** `turn`: `R` turns clockwise, `L` counter-clockwise, both reduced with
      Rust's `%` by 360. Any other letter panics. */
  function Turn(ship: Ship, turn: char, degrees: int): (r: Option<Ship>)
    ensures r.Some? <==> turn == 'R' || turn == 'L'
    ensures r.Some? ==> r.value == ship.(angle := r.value.angle)
    ensures r.Some? && 0 <= ship.angle < 360 && 0 <= degrees <= 360 ==> 0 <= r.value.angle < 360
  {
    match turn
    case 'R' => Some(ship.(angle := Rem(ship.angle + (360 - degrees), 360)))
    case 'L' => Some(ship.(angle := Rem(ship.angle + degrees, 360)))
    case _ => None
  }

  /** For a heading in [0, 360) and degrees in [0, 360], turning right and then
      left by the same degrees restores the heading, and so does the reverse. */
  lemma TurnBack(ship: Ship, degrees: int)
    requires 0 <= ship.angle < 360 && 0 <= degrees <= 360
    ensures Turn(Turn(ship, 'R', degrees).value, 'L', degrees) == Some(ship)
    ensures Turn(Turn(ship, 'L', degrees).value, 'R', degrees) == Some(ship)
  {
    var a := ship.angle;
    ModAdd(a + 360 - degrees, degrees, 360);
    ModAdd(a + degrees, 360 - degrees, 360);
    ModUnique(a + 360, 1, a, 360);
  }

  /** The compass letter of a heading that is a right angle. */
  function Heading(angle: int): Option<char>
  {
    match angle
    case 0 => Some('E')
    case 90 => Some('N')
    case 180 => Some('W')
    case 270 => Some('S')
    case _ => None
  }

  /** `apply_without_waypoint`. */
  function ApplyWithoutWaypoint(ship: Ship, command: char, value: int): (r: Option<Ship>)
    ensures r.Some? ==> r.value.waypointX == ship.waypointX && r.value.waypointY == ship.waypointY
    ensures command == 'F' ==> (r.Some? <==> ship.angle in {0, 90, 180, 270})
    ensures command == 'F' && r.Some? ==>
              var u := Unit(Heading(ship.angle).value).value;
              r.value == ship.(x := ship.x + value * u.x, y := ship.y + value * u.y)
    ensures (command == 'R' || command == 'L') ==> r == Turn(ship, command, value)
    ensures command !in {'R', 'L', 'F'} ==> r == Advance(ship, command, value)
  {
    if command == 'R' || command == 'L' then Turn(ship, command, value)
    else if command == 'F' then
      match Heading(ship.angle)
      case Some(d) => Advance(ship, d, value)
      case None => None
    else Advance(ship, command, value)
  }

  /** The amount `rotate_waypoint` turns counter-clockwise: `R` by
      `(360 - degrees) % 360`, `L` by `degrees % 360` (Rust's `%`), and no
      rotation for any other letter. */
  function Rotation(turn: char, degrees: int): int
  {
    if turn == 'R' then Rem(360 - degrees, 360)
    else if turn == 'L' then Rem(degrees, 360)
    else 0
  }

  /** The number of quarter turns in a right-angle rotation. */
  function Quarters(rotation: int): nat
  {
    if rotation == 90 then 1 else if rotation == 180 then 2 else if rotation == 270 then 3 else 0
  }

  /** `k` quarter turns counter-clockwise about the origin. */
  function QuarterTurns(v: Vec, k: nat): Vec
  {
    if k == 0 then v else Left(QuarterTurns(v, k - 1))
  }

  /** `rotate_waypoint`: rotations by 0, 90, 180 or 270 degrees; any other
      rotation panics. */
  function RotateWaypoint(ship: Ship, turn: char, degrees: int): (r: Option<Ship>)
    ensures r.Some? <==> Rotation(turn, degrees) in {0, 90, 180, 270}
    ensures r.Some? ==> r.value.x == ship.x && r.value.y == ship.y && r.value.angle == ship.angle
    ensures r.Some? ==> Vec(r.value.waypointX, r.value.waypointY)
                        == QuarterTurns(Vec(ship.waypointX, ship.waypointY), Quarters(Rotation(turn, degrees)))
  {
    var rotation := Rotation(turn, degrees);
    var (x, y) := (ship.waypointX, ship.waypointY);
    QuarterTurnsValues(Vec(x, y));
    match rotation
    case 0 => Some(ship)
    case 90 => Some(ship.(waypointX := -y, waypointY := x))
    case 180 => Some(ship.(waypointX := -x, waypointY := -y))
    case 270 => Some(ship.(waypointX := y, waypointY := -x))
    case _ => None
  }

  lemma QuarterTurnsValues(v: Vec)
    ensures QuarterTurns(v, 0) == v
    ensures QuarterTurns(v, 1) == Vec(-v.y, v.x)
    ensures QuarterTurns(v, 2) == Vec(-v.x, -v.y)
    ensures QuarterTurns(v, 3) == Vec(v.y, -v.x)
  {
    assert QuarterTurns(v, 1) == Left(v);
    assert QuarterTurns(v, 2) == Left(Left(v));
  }

  /** Quarter turns keep the Manhattan length of a vector. */
  lemma {:induction false} QuarterTurnsLength(v: Vec, k: nat)
    ensures Abs(QuarterTurns(v, k).x) + Abs(QuarterTurns(v, k).y) == Abs(v.x) + Abs(v.y)
  {
    if k > 0 {
      QuarterTurnsLength(v, k - 1);
    }
  }

  /** Four quarter turns are the identity. */
  lemma {:induction false} QuarterTurnsCycle(v: Vec, k: nat)
    ensures QuarterTurns(v, k + 4) == QuarterTurns(v, k)
  {
    if k == 0 {
      QuarterTurnsValues(v);
      assert QuarterTurns(v, 4) == Left(QuarterTurns(v, 3));
    } else {
      QuarterTurnsCycle(v, k - 1);
    }
  }

  /** Rotating the waypoint keeps its Manhattan distance from the ship. */
  lemma RotateKeepsLength(ship: Ship, turn: char, degrees: int)
    requires RotateWaypoint(ship, turn, degrees).Some?
    ensures var s := RotateWaypoint(ship, turn, degrees).value;
            Abs(s.waypointX) + Abs(s.waypointY) == Abs(ship.waypointX) + Abs(ship.waypointY)
  {
    QuarterTurnsLength(Vec(ship.waypointX, ship.waypointY), Quarters(Rotation(turn, degrees)));
  }

  /** For degrees in [0, 360], a rotation either way succeeds exactly when the
      degrees are a multiple of 90. */
  lemma RotateRightAngles(ship: Ship, turn: char, degrees: int)
    requires turn == 'R' || turn == 'L'
    requires 0 <= degrees <= 360
    ensures RotateWaypoint(ship, turn, degrees).Some? <==> degrees % 90 == 0
  {
    if degrees % 90 == 0 {
      RightAngle(degrees);
    }
  }

  /** A multiple of 90 in [0, 360] is one of the five right-angle values. */
  lemma RightAngle(degrees: int)
    requires 0 <= degrees <= 360 && degrees % 90 == 0
    ensures degrees in {0, 90, 180, 270, 360}
  {
    var q := degrees / 90;
    assert degrees == q * 90;
    assert 0 <= q <= 4;
  }

  /** Rotating right and then left by the same right angle restores the
      waypoint. */
  lemma RotateBack(ship: Ship, degrees: int)
    requires 0 <= degrees <= 360 && degrees % 90 == 0
    ensures RotateWaypoint(ship, 'R', degrees).Some?
    ensures RotateWaypoint(RotateWaypoint(ship, 'R', degrees).value, 'L', degrees) == Some(ship)
  {
    RightAngle(degrees);
  }

  /** Turning the heading and rotating the waypoint agree: the unit step of the
      new heading is the old one rotated as `rotate_waypoint` would rotate it. */
  lemma TurnMatchesRotation(ship: Ship, turn: char, degrees: int)
    requires ship.angle in {0, 90, 180, 270}
    requires turn == 'R' || turn == 'L'
    requires 0 <= degrees <= 360 && degrees % 90 == 0
    ensures var s := Turn(ship, turn, degrees).value;
            Heading(s.angle).Some?
            && Unit(Heading(s.angle).value)
               == Some(QuarterTurns(Unit(Heading(ship.angle).value).value, Quarters(Rotation(turn, degrees))))
  {
    RightAngle(degrees);
    var rotation := Rotation(turn, degrees);
    assert rotation in {0, 90, 180, 270};
    assert Turn(ship, turn, degrees).value.angle == (ship.angle + rotation) % 360;
    HeadingTurns(ship.angle, rotation);
  }

  lemma HeadingTurns(angle: int, rotation: int)
    requires angle in {0, 90, 180, 270} && rotation in {0, 90, 180, 270}
    ensures Heading((angle + rotation) % 360).Some?
    ensures Unit(Heading((angle + rotation) % 360).value)
            == Some(QuarterTurns(Unit(Heading(angle).value).value, Quarters(rotation)))
    decreases rotation
  {
    var sum := angle + rotation;
    if rotation == 0 {
      ModUnique(sum, 0, sum, 360);
    } else {
      var previous := (angle + rotation - 90) % 360;
      HeadingTurns(angle, rotation - 90);
      assert Quarters(rotation) == Quarters(rotation - 90) + 1;
      if sum < 360 {
        ModUnique(sum, 0, sum, 360);
        ModUnique(sum - 90, 0, sum - 90, 360);
      } else if sum == 360 {
        ModUnique(sum, 1, 0, 360);
        ModUnique(sum - 90, 0, sum - 90, 360);
      } else {
        ModUnique(sum, 1, sum - 360, 360);
        ModUnique(sum - 90, 1, sum - 450, 360);
      }
      HeadingLeft(previous);
    }
  }

  /** A quarter turn of the heading turns its unit step left. */
  lemma HeadingLeft(angle: int)
    requires angle in {0, 90, 180, 270}
    ensures Heading(if angle == 270 then 0 else angle + 90).Some?
    ensures Unit(Heading(if angle == 270 then 0 else angle + 90).value) == Some(Left(Unit(Heading(angle).value).value))
  {
  }

  /** `apply_with_waypoint`. */
  function ApplyWithWaypoint(ship: Ship, command: char, value: int): (r: Option<Ship>)
    ensures r.Some? ==> r.value.angle == ship.angle
    ensures command == 'F' ==> r.Some? && r.value.waypointX == ship.waypointX && r.value.waypointY == ship.waypointY
    ensures command == 'F' ==> r.value.x - ship.x == value * ship.waypointX && r.value.y - ship.y == value * ship.waypointY
    ensures (command == 'R' || command == 'L') ==> r == RotateWaypoint(ship, command, value)
    ensures command !in {'R', 'L', 'F'} ==> r == AdvanceWaypoint(ship, command, value)
  {
    if command == 'R' || command == 'L' then RotateWaypoint(ship, command, value)
    else if command == 'F' then
      Some(ship.(x := ship.x + ship.waypointX * value, y := ship.y + ship.waypointY * value))
    else AdvanceWaypoint(ship, command, value)
  }

  /** `F` with a waypoint equals `value` moves of one waypoint each. */
  lemma {:induction false} ForwardRepeats(ship: Ship, value: nat)
    ensures ApplyWithWaypoint(ship, 'F', value + 1)
            == ApplyWithWaypoint(ApplyWithWaypoint(ship, 'F', value).value, 'F', 1)
  {
    assert ship.waypointX * (value + 1) == ship.waypointX * value + ship.waypointX;
    assert ship.waypointY * (value + 1) == ship.waypointY * value + ship.waypointY;
  }

  /** One input line: the first character is the command (slicing `[..1]`
      panics on an empty line or a non-ASCII first character) and the rest
      parses as an `i32`. */
  function ParseCommand(line: string): (r: Option<(char, int)>)
    ensures r.Some? <==> |line| > 0 && line[0] as int < 128 && ParseSigned(line[1..], I32_LIMIT).Some?
    ensures r.Some? ==> r.value.0 == line[0] && Some(r.value.1) == ParseSigned(line[1..], I32_LIMIT)
    ensures r.Some? ==> -(I32_LIMIT as int) <= r.value.1 < I32_LIMIT
  {
    if |line| == 0 || line[0] as int >= 128 then None
    else
      match ParseSigned(line[1..], I32_LIMIT)
      case Some(v) => Some((line[0], v))
      case None => None
  }

  /** A command letter followed by an `i32` written in decimal reads back. */
  lemma ParseShowCommand(command: char, value: int)
    requires command as int < 128 && -(I32_LIMIT as int) <= value < I32_LIMIT
    ensures ParseCommand([command] + ShowInt(value)) == Some((command, value))
  {
    ParseShowInt(value, I32_LIMIT);
    assert ([command] + ShowInt(value))[1..] == ShowInt(value);
  }

  /** One command, under either part's rules. */
  function Apply(ship: Ship, command: char, value: int, withWaypoint: bool): Option<Ship>
  {
    if withWaypoint then ApplyWithWaypoint(ship, command, value) else ApplyWithoutWaypoint(ship, command, value)
  }

  /** The lines in order; the first unparsable line or panicking command is
      `None`. */
  function Sail(ship: Ship, lines: seq<string>, withWaypoint: bool): (r: Option<Ship>)
    ensures r.Some? && !withWaypoint ==> r.value.waypointX == ship.waypointX && r.value.waypointY == ship.waypointY
    ensures r.Some? && withWaypoint ==> r.value.angle == ship.angle
    decreases lines
  {
    if lines == [] then Some(ship)
    else
      match ParseCommand(lines[0])
      case None => None
      case Some(c) =>
        match Apply(ship, c.0, c.1, withWaypoint)
        case None => None
        case Some(next) => Sail(next, lines[1..], withWaypoint)
  }

  /** Sailing a concatenation is sailing the parts one after the other. */
  lemma {:induction false} SailAppend(ship: Ship, a: seq<string>, b: seq<string>, withWaypoint: bool)
    ensures Sail(ship, a + b, withWaypoint)
            == match Sail(ship, a, withWaypoint) case None => None case Some(s) => Sail(s, b, withWaypoint)
    decreases a
  {
    if a != [] {
      assert (a + b)[0] == a[0] && (a + b)[1..] == a[1..] + b;
      match ParseCommand(a[0])
      case None =>
      case Some(c) =>
        match Apply(ship, c.0, c.1, withWaypoint)
        case None =>
        case Some(next) => SailAppend(next, a[1..], b, withWaypoint);
    } else {
      assert a + b == b;
    }
  }

  /** Without a waypoint the waypoint never moves; when every turn is at most
      360 degrees the heading stays in [0, 360). */
  lemma {:induction false} SailWithoutWaypoint(ship: Ship, lines: seq<string>)
    requires 0 <= ship.angle < 360
    requires forall k :: 0 <= k < |lines| && ParseCommand(lines[k]).Some? ==> 0 <= ParseCommand(lines[k]).value.1 <= 360
    requires Sail(ship, lines, false).Some?
    ensures var s := Sail(ship, lines, false).value;
            s.waypointX == ship.waypointX && s.waypointY == ship.waypointY && 0 <= s.angle < 360
    decreases lines
  {
    if lines != [] {
      var c := ParseCommand(lines[0]).value;
      var next := Apply(ship, c.0, c.1, false).value;
      assert 0 <= next.angle < 360;
      forall k | 0 <= k < |lines[1..]| && ParseCommand(lines[1..][k]).Some?
        ensures 0 <= ParseCommand(lines[1..][k]).value.1 <= 360
      {
        assert lines[1..][k] == lines[k + 1];
      }
      SailWithoutWaypoint(next, lines[1..]);
    }
  }

  /** `part1` and `part2`: the Manhattan distance of the final position from
      the start. */
  function Distance(lines: seq<string>, withWaypoint: bool): (r: Option<nat>)
    ensures r.Some? <==> Sail(START, lines, withWaypoint).Some?
  {
    match Sail(START, lines, withWaypoint)
    case None => None
    case Some(s) => Some(Abs(s.x) + Abs(s.y))
  }
}
