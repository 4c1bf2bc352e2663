# Advent of Code 2020 solvers, modelled in Dafny

This project models the Rust solvers of Advent of Code 2020 (every day except 5 and 7). It proves what each solver computes. Each day is one module in one file (`day01.dfy` … `day25.dfy`; day 11's grid type lives in `day11_grid.dfy`). A handful of shared modules hold what several days use:

- `Wrappers`: the `Option` type.
- `Decimal`: Rust's integer `parse` for a given integer width, and decimal rendering with its round trip.
- `Arith`: Rust's truncating `/` and `%` (`Quot`, `Rem`), and multiplication as repeated addition (`Scale`).
- `Seqs`: sums, counts, `split`/`join`, whitespace words, `trim`, reversal and substring search.
- `Sorting`: insertion sorts by integer key and by string order, each proved to return a sorted permutation.

Conventions used throughout:

- **Panics become `None`.** A panic the caller can provoke (`unwrap` on a failed parse, an index past the end, a `u32` subtraction below zero) is `None` in an `Option` result. A `requires` clause is used only where the source's callers always establish the condition.
- **Loops that need not end take `fuel`.** Such a loop (a fixpoint, a game, a search, or a backtracking matcher) gets a `fuel: nat` parameter. Running out of fuel is `None`, meaning the source would still be running. For each such loop a lemma shows that more fuel does not change an answer already found, or that a small fixed amount always suffices.
- **Hash order is a parameter.** Where the source iterates a `HashMap` or `HashSet` and the order can matter, the order is an explicit parameter: the tile map of day 20 is a sequence of entries, and days 21 and 24 take the order as an argument. Lemmas say when that order matters: for day 24 it never does, for day 21 it can, and day 16's product is proved not to depend on it.
- **Integers are unbounded** unless the width matters. Day 14 works on `bv64` words. Overflow that panics is modelled where a day's answer depends on it: day 25's `u64` products and day 2's `u32` subtraction.
- **Lines are given.** Input arrives as the sequence of its lines (or blocks of lines); reading standard input and printing are left out.

## Model

| member | source | states |
|---|---|---|
| Day01.ParseInts | day01/src/main.rs:4-9 | Yields one entry per line; it succeeds exactly when every line parses as an `i64`, and each entry is the value of its own line. |
| Day01.ParseShowLines | day01/src/main.rs:4-9 | Parsing `i64` entries that were printed one per line gives the entries back. |
| Day01.Part1 | day01/src/main.rs:11-28 | Any answer is the product of two entries that sum to 2020; the two positions may coincide. On sorted input that holds such a pair, an answer is always found. |
| Day01.Part2 | day01/src/main.rs:30-48 | Fails only on an empty list. Otherwise it returns the product of a triple at positions i < k < j summing to 2020, taking the lexicographically first (i, j); it returns 0 when no triple exists. |
| Day02.ParseBounds | day02/src/main.rs:14-17 | Succeeds exactly when every `-`-separated field parses as a `u32`; the result holds each field's value in order. |
| Day02.ParsePolicy | day02/src/main.rs:12-27 | A parsed policy has bounds that fit in a `u32`, and its password is the line's third word. |
| Day02.ParseFormat | day02/src/main.rs:12-27 | Parsing the line a policy is written as gives that policy back. |
| Day02.TallyCounts | day02/src/main.rs:30-33 | The fold's tally has exactly the password's characters as keys, each mapped to its number of occurrences. |
| Day02.OldPolicyCounts | day02/src/main.rs:29-38 | The old policy holds iff the character occurs at least once and between `c1` and `c2` times. |
| Day02.Nth | day02/src/main.rs:41-42 | `chars().nth(n)` is present exactly when n is below the length, and it is then the n-th character. |
| Day02.NewPolicy | day02/src/main.rs:40-46 | Panics exactly when a bound is 0 (the `u32` subtraction). Otherwise it holds iff exactly one of the 1-based positions `c1` and `c2` exists and holds the character. |
| Day02.ParseAll | day02/src/main.rs:50-52 | Succeeds iff every line parses; each entry is its own line's policy. |
| Day02.Part1 | day02/src/main.rs:49-55 | Succeeds exactly when every line parses, and the count never exceeds the number of lines. |
| Day02.Part1Counts | day02/src/main.rs:49-55 | Part 1 counts exactly the lines whose character occurs between `c1` and `c2` times, and at least once. |
| Day02.Part2 | day02/src/main.rs:57-63 | Succeeds iff every line parses and has both bounds positive; the count never exceeds the number of lines. |
| Day02.Part2Counts | day02/src/main.rs:57-63 | Part 2 counts exactly the lines with the character at exactly one of the two positions. |
| Day03.TreesUpToBound | day03/src/main.rs:7-17 | No more trees are met than lines are visited. |
| Day03.Solve | day03/src/main.rs:3-20 | Panics exactly when `down` is 0 or a visited line (a positive multiple of `down`) is empty. On a map whose lines share one positive width, the count is the number of trees on every visited line: visit k reads line k·down at column k·step modulo the width. |
| Day03.VisitedAreMultiples | day03/src/main.rs:7 | The lines `skip(down).step_by(down)` visits are exactly the lines whose index is a positive multiple of `down`. |
| Day04.GroupsNonBlank | day04/src/main.rs:85-92 | Each closed group holds only non-blank lines. |
| Day04.BlankIndexFirst | day04/src/main.rs:85-92 | A group closes at the first blank line: no line before it is blank. |
| Day04.GroupsEndLast | day04/src/main.rs:85-92 | The lines the scan never closes into a group, after the last blank line, are all non-blank. |
| Day04.GroupsTerminated | day04/src/main.rs:85-92 | Writing groups out, each closed by a blank line, and scanning the lines gives the same groups back. |
| Day04.TerminatedGroups | day04/src/main.rs:85-92 | The closed groups, written out again, are exactly the lines up to and including the last blank line; a group after it is never counted. |
| Day04.DataKeys | day04/src/main.rs:120-126 | A key is in the passport data exactly when some entry has that key. |
| Day04.DataLastWins | day04/src/main.rs:120-126 | Each key of the passport data maps to the value of the last entry with that key. |
| Day04.KeysAreDataKeys | day04/src/main.rs:94-97 | Part 1's key set is the key set of part 2's data. |
| Day04.Rule | day04/src/main.rs:31-36 | Accepting text is a `u64` numeral (an optional '+' and ASCII digits) whose value is in range; for a range within `u64`, every such numeral is accepted. |
| Day04.RuleAccepts | day04/src/main.rs:31-36 | Every number in range, written in decimal, is accepted. |
| Day04.HeightMatch | day04/src/main.rs:40 | Matches exactly three digits followed by "cm" or two digits followed by "in", and captures the digits and the unit. |
| Day04.Valid | day04/src/main.rs:38-79 | A valid passport passes all four pattern checks. |
| Day04.ValidIff | day04/src/main.rs:38-79 | `valid` holds exactly when the three years are numerals within 1920–2002, 2010–2020 and 2020–2030, the height is three digits for 150–193 followed by "cm" or two digits for 59–76 followed by "in", the hair colour is '#' and six lower-case hex digits, the eye colour one of the seven names, and the id nine digits. |
| Day04.ValidWhenInRange | day04/src/main.rs:38-79 | Data whose years and height (in either unit) are written plainly in range, with a well-formed hair colour, eye colour and id, is valid. |
| Day04.Part1 | day04/src/main.rs:81-101 | Counts no more passports than there are closed groups. |
| Day04.Part1Counts | day04/src/main.rs:81-101 | On passports written out, each closed by a blank line, part 1 counts exactly the passports whose keys include the seven required ones. |
| Day04.Part2 | day04/src/main.rs:103-130 | Counts no more passports than part 1. |
| Day04.Part2Counts | day04/src/main.rs:103-130 | On passports written out the same way, part 2 counts exactly the passports that hold the seven required keys and pass every field check of `valid`. |
| Day06.Alphabet | day06/src/main.rs:31 | The starting answer set holds exactly the 26 letters 'a' to 'z'. |
| Day06.Intersection | day06/src/main.rs:26-28 | The result holds exactly the elements that are in both sets. |
| Day06.UnionMembers | day06/src/main.rs:18-20 | A character is in a group's union iff some line of the group contains it. |
| Day06.CommonMembers | day06/src/main.rs:31-44 | A character is in a group's common set iff it is a lower-case letter that every line of the group contains. |
| Day06.GroupsCount | day06/src/main.rs:10-16 | Each blank line closes exactly one group, so there are as many groups as blank lines. |
| Day06.GroupsNonBlank | day06/src/main.rs:10-21 | No group contains a blank line. |
| Day06.Part1Lines | day06/src/main.rs:6-24 | Mid-scan, with the open answers equal to the open group's union, the final count adds the unions of all groups still to be closed; lines after the last blank line add nothing. |
| Day06.Part1 | day06/src/main.rs:6-24 | Part 1 is the sum over the blank-line separated groups of the number of questions anyone in the group answered. |
| Day06.Part2Lines | day06/src/main.rs:30-47 | Mid-scan, with the open answers equal to the letters common to the open group, the final count adds the common letters of every group still to be closed. |
| Day06.Part2Bound | day06/src/main.rs:30-47 | Each closed group adds at most 26 to part 2. |
| Day06.Part2 | day06/src/main.rs:30-47 | Part 2 is the sum over the groups of the number of questions everyone in the group answered. |
| Day08.ParseInstruction | day08/src/main.rs:40-51 | An accepted line has a three-letter operation, a space and an explicitly signed decimal argument, and the argument fits in an `isize`. |
| Day08.ParseFormat | day08/src/main.rs:40-51 | Parsing the line an instruction is written as gives the instruction back. |
| Day08.Parse | day08/src/main.rs:33-62 | Succeeds iff every line parses; the program holds one instruction per line, in order. |
| Day08.Run | day08/src/main.rs:68-79 | The loop follows the step rule from the given pointer and executes no pointer twice or from `history`. The accumulator grows by the executed instructions' arguments, and the loop stops only on a repeated pointer or one outside the program. |
| Day08.Execute | day08/src/main.rs:64-86 | From pointer 0, the run is a chain of distinct pointers, and the accumulator is the sum along it. The run stops outside the program or at a pointer already executed, after at most one step per instruction. |
| Day08.ChainUnique | day08/src/main.rs:68-79 | Two runs from the same start that both stop are the same run. |
| Day08.ExecuteUnique | day08/src/main.rs:64-86 | Any stopping chain from pointer 0 is exactly what `execute` computes: same path, pointer and accumulator. |
| Day08.Part1 | day08/src/main.rs:64-103 | The accumulator part 1 prints is the one collected along the run from instruction 0 that stops, at a repeated instruction or off the program, and any such run collects the same. |
| Day08.Succeeded | day08/src/main.rs:81-97 | A run succeeds exactly when there is a path from instruction 0 to one past the last instruction that visits no instruction twice. |
| Day08.Swap | day08/src/main.rs:117-121 | `nop` and `jmp` trade places and keep their argument. |
| Day08.Replace | day08/src/main.rs:88-90 | Only the instruction at the given index changes, and the length stays the same. |
| Day08.RepairFrom | day08/src/main.rs:106-131 | Finds nothing iff no swap at or after the index lets the program run off its end. Otherwise it gives the accumulator of the first such swap. |
| Day08.Part2 | day08/src/main.rs:105-132 | Panics (`None`) iff no single `nop`/`jmp` swap repairs the program. Otherwise it returns the repaired run's accumulator for the lowest repairing index. |
| Day09.PairExists | day09/src/main.rs:3-20 | Panics (`None`) exactly on an empty list. A `true` answer is always a pair of distinct positions summing to the number; on an ascending list the answer is exactly whether such a pair exists. |
| Day09.WindowSumShrink | day09/src/main.rs:27-30 | Dropping numbers from the front of a window never raises its sum. |
| Day09.FindSubset | day09/src/main.rs:22-40 | With the loop bound as a parameter: an answer is a non-empty window summing to the target that ends before the bound. No window ends earlier, and no window with the same end starts earlier. It finds nothing exactly when no such window exists, or the list is empty. |
| Day09.FindSubsetAsWritten | day09/src/main.rs:22-40 | With the loop `1..position` as written: an answer is the leftmost window summing to the target among those with the earliest end before `position`, and it finds nothing exactly when no window ending strictly before `position` sums to the target. |
| Day09.AsWrittenMissesLastWindow | day09/src/main.rs:26 | On [1, 2, 3, 5], where 5 at position 3 is the invalid number, the window [1, 3) sums to 5, and no window ending before position 3 does. |
| Day09.AsWrittenMissesExample | day09/src/main.rs:21-37 | On that input the search as written finds nothing, while the corrected search finds the window [1, 3). |
| Day09.FindWeakWindow | day09/src/main.rs:22-40 | The corrected search: it finds a window summing to the target that ends at or before the invalid number's position, with the earliest end and then the leftmost start, and finds nothing only when no such window exists. |
| Day09.FindInvalid | day09/src/main.rs:42-54 | Returns the first number, after the preamble, that no pair of distinct numbers in the preceding `preamble` numbers sums to, together with its position. It fails exactly when the preamble is 0 or every number is valid. |
| Day09.CheckAt | day09/src/main.rs:44-49 | Copying and sorting the window, then asking for a pair, answers exactly whether two distinct numbers among the `preamble` numbers before the position sum to it. |
| Day09.HasPairMultiset | day09/src/main.rs:45-46 | Whether a list has a pair depends only on its multiset of values, so sorting the window first changes nothing. |
| Day09.Weakness | day09/src/main.rs:62-64 | The result is the smallest plus the largest number of the window. |
| Day09.SortedEnds | day09/src/main.rs:62-64 | The ends of the sorted window are its minimum and maximum. |
| Day10.Part1 | day10/src/main.rs:3-15 | Panics (`None`, a `usize` underflow) exactly when some joltage is smaller than the one before it. Otherwise the answer is the number of gaps of 1 times the number of gaps of 3. |
| Day10.GapCountsBound | day10/src/main.rs:7-11 | No gap counts as both a 1 and a 3, so together they number at most the gaps. |
| Day10.ReachFrom | day10/src/main.rs:21-24 | The `take_while` count: every counted joltage is within 3 above the start, and the first joltage after them is not. The count is always defined on ascending input; it panics only when it meets a smaller joltage. |
| Day10.PathsViaBeyond | day10/src/main.rs:23 | On ascending input, no arrangement steps past a joltage more than 3 above the current one. |
| Day10.BlockSum | day10/src/main.rs:29-31 | The block the second pass adds up is exactly the number of arrangements whose next step lies in that block. |
| Day10.Part2 | day10/src/main.rs:17-34 | Panics (`None`) exactly on an empty list or when some reach count panics. On non-empty ascending input the answer is the number of chains from the first joltage to the last in which every step rises by at most 3. |
| Day10.Frame | day10/src/main.rs:40-43 | The framed list starts at the outlet 0, is ascending, holds the outlet and every adapter, and ends with the device, exactly 3 above the largest of them. |
| Day10.FrameStartsAtZero | day10/src/main.rs:41-42 | Sorting the adapters together with 0 puts 0 first. |
| Day11Grid.New | day11/src/grid.rs:9-19 | Panics (`None`) exactly on empty input. Otherwise the grid holds the lines, with as many rows as lines and as many columns as the first line. It is well formed exactly when no line is shorter than the first. |
| Day11Grid.Get | day11/src/grid.rs:21-27 | Absent exactly outside the rows and columns; otherwise the character stored there. |
| Day11Grid.Set | day11/src/grid.rs:29-36 | Answers `true` exactly in bounds, and then the cell holds the new value. Out of bounds the grid is unchanged. The shape and every other cell are always unchanged. |
| Day11Grid.GetSet | day11/src/grid.rs:21-36 | Reading after writing gives the written value at the written in-bounds point and the old value everywhere else. |
| Day11Grid.Around | day11/src/grid.rs:38-48 | The eight cells around a point, in the listed order, each absent when out of bounds. |
| Day11Grid.SomesLength | day11/src/grid.rs:49-51 | `filter_map` keeps exactly the present cells. |
| Day11Grid.InteriorNeighbors | day11/src/grid.rs:38-52 | A cell away from the edges has all eight neighbours. |
| Day11Grid.FirstSeatOnRay | day11/src/grid.rs:174-185 | Searching for a seat along a line of sight stops at the first cell that is a seat or out of bounds. Every earlier cell is in bounds and floor, and the answer is that seat, if any. |
| Day11Grid.PointsFromComplete | day11/src/grid.rs:126-146 | Started in bounds, the point iterator reaches every later in-bounds point. |
| Day11Grid.Points | day11/src/grid.rs:109-146 | The points iterated are exactly the in-bounds points, each once, in strictly increasing row-major order. |
| Day11Grid.Cells | day11/src/grid.rs:92-107 | The cell iterator yields the value of each point, in the order the point iterator visits them. |
| Day11.NextSeatCases | day11/src/main.rs:25-37 | Floor never changes. An empty seat becomes occupied exactly when it sees no occupied seat. An occupied seat empties exactly when it sees at least the threshold: 4 in part 1, 5 in part 2. A seat stays a seat. |
| Day11.HashesSomes | day11/src/main.rs:49-57 | Counting '#' after `filter_map` counts the looked-at places that hold an occupied seat. |
| Day11.TakenCounts | day11/src/main.rs:23 | Part 1 counts the occupied neighbours among the eight cells around; part 2 counts the directions whose first visible seat is occupied. |
| Day11.Iteration | day11/src/main.rs:17-75 | The in-place walk over a clone equals the synchronous round, in which every cell follows the rule applied to the old grid. The count is the number of occupied seats in the new grid. |
| Day11.Settle | day11/src/main.rs:77-103 | The answer is the occupied count of the first round that a further round leaves unchanged. `None` exactly when none of the first `fuel` rounds is stable. |
| Day11.Solve | day11/src/main.rs:77-103 | Empty input, or a line shorter than the first, panics (`None`); otherwise `None` means that none of the first `fuel` rounds is stable. Any answer is the occupied count of the first stable round of the grid read from the input. |
| Day12.Advance | day12/src/main.rs:36-44 | Panics (`None`) exactly on a letter other than E, W, N or S. Otherwise it moves the ship's position by the distance along that compass direction and changes nothing else. |
| Day12.AdvanceWaypoint | day12/src/main.rs:65-73 | The same move applied to the waypoint, with the same panics. |
| Day12.AdvanceBack | day12/src/main.rs:36-44 | Moving a distance and then its negation returns the ship, and the waypoint, to where it was. |
| Day12.Turn | day12/src/main.rs:46-52 | Panics exactly on a letter other than R or L. A turn changes only the heading. From a heading in [0, 360), a turn of 0 to 360 degrees stays in [0, 360). |
| Day12.TurnBack | day12/src/main.rs:46-52 | Turning right and then left by the same degrees restores the heading, and so does the reverse order. |
| Day12.ApplyWithoutWaypoint | day12/src/main.rs:22-34 | The waypoint never moves. `F` panics exactly when the heading is not a right angle; otherwise it moves the ship by the value along the heading's unit step. R and L are the turn. Any other letter is a move. |
| Day12.RotateWaypoint | day12/src/main.rs:75-100 | Panics exactly when the reduced rotation is not 0, 90, 180 or 270 degrees. Otherwise it turns the waypoint counter-clockwise by that many quarter turns and leaves the ship alone. |
| Day12.QuarterTurnsLength | day12/src/main.rs:84-99 | Quarter turns keep a vector's Manhattan length. |
| Day12.QuarterTurnsCycle | day12/src/main.rs:84-99 | Four quarter turns are the identity. |
| Day12.RotateKeepsLength | day12/src/main.rs:75-100 | Rotating the waypoint keeps its Manhattan distance from the ship. |
| Day12.RotateRightAngles | day12/src/main.rs:75-100 | For 0 to 360 degrees, a rotation either way succeeds exactly when the degrees are a multiple of 90. |
| Day12.RotateBack | day12/src/main.rs:75-100 | Rotating right and then left by the same right angle restores the waypoint. |
| Day12.TurnMatchesRotation | day12/src/main.rs:46-52 | Turning the heading agrees with rotating the waypoint: the new heading's unit step is the old one rotated the same way. |
| Day12.ApplyWithWaypoint | day12/src/main.rs:54-63 | The heading never changes. `F` always succeeds, keeps the waypoint and moves the ship by the value times the waypoint. R and L are the waypoint rotation. Any other letter moves the waypoint. |
| Day12.ForwardRepeats | day12/src/main.rs:57-60 | `F` by n + 1 is `F` by n followed by one more move by the waypoint. |
| Day12.ParseCommand | day12/src/main.rs:107-108 | A line parses exactly when it is non-empty, starts with an ASCII character and the rest parses as an `i32`; the command is the first character and the value that parse. |
| Day12.ParseShowCommand | day12/src/main.rs:107-108 | An ASCII letter followed by an `i32` written in decimal reads back as that command and value. |
| Day12.Sail | day12/src/main.rs:103-124 | Under part 1's rules the waypoint never moves; under part 2's the heading never changes. |
| Day12.SailAppend | day12/src/main.rs:106-110 | Sailing a concatenation of lines is sailing the first part and then the second from where the first stopped. |
| Day12.SailWithoutWaypoint | day12/src/main.rs:103-113 | Under part 1's rules the waypoint never moves. When every value is 0 to 360, the heading stays in [0, 360). |
| Day12.Distance | day12/src/main.rs:103-125 | An answer exists exactly when every line parses and no command panics. |
| Day13.Egcd | day13/src/main.rs:3-10 | For non-negative arguments the first component is non-negative. `EgcdBezout`, `EgcdDivides` and `EgcdGreatest` state that it is the greatest common divisor, with Bezout coefficients. |
| Day13.EgcdBezout | day13/src/main.rs:3-10 | The two coefficients `egcd` returns, with Rust's truncating division and remainder, combine the arguments into the returned value: a·x + b·y = g. |
| Day13.EgcdDivides | day13/src/main.rs:3-10 | The returned value divides both arguments. |
| Day13.EgcdGreatest | day13/src/main.rs:3-10 | Every common divisor of the arguments divides the returned value, so it is their greatest common divisor. |
| Day13.BezoutCoprime | day13/src/main.rs:3-10 | For non-negative arguments with some combination equal to 1, `egcd` returns 1. |
| Day13.ModInv | day13/src/main.rs:12-19 | Answers exactly when `egcd` reports the two numbers coprime; for a positive modulus the answer lies in [0, n). |
| Day13.ModInvInverse | day13/src/main.rs:12-19 | The answer is a modular inverse: x times it is 1 modulo n. |
| Day13.ModInvComplete | day13/src/main.rs:12-19 | For non-negative x, whenever an inverse exists `mod_inv` finds one. |
| Day13.CrtSum | day13/src/main.rs:26-29 | The `?` in the loop fails exactly when some bus's share of the product has no inverse modulo its own modulus. |
| Day13.ChineseRemainderAsWritten | day13/src/main.rs:21-32 | The function as written, with Rust's sign-keeping `%` on the sum. It fails exactly when some inverse is missing. |
| Day13.AsWrittenCongruent | day13/src/main.rs:31 | The as-written result is in the right residue class: reducing it into [0, prod) gives the corrected result. |
| Day13.AsWrittenNegative | day13/src/main.rs:31 | For the schedule "2,x,x,x,x,3" the as-written result is -2, a negative timestamp; the corrected result is 4. |
| Day13.ChineseRemainder | day13/src/main.rs:21-32 | The corrected function fails exactly when an inverse is missing, and otherwise lies in [0, |prod|). |
| Day13.CoprimeShare | day13/src/main.rs:27-28 | For positive, pairwise coprime moduli, each bus's share of the product is coprime to its modulus, so no inverse is missing. |
| Day13.ChineseRemainderSolves | day13/src/main.rs:21-32 | For positive, pairwise coprime moduli the corrected result exists and meets every bus's congruence. |
| Day13.ChineseRemainderLeast | day13/src/main.rs:21-32 | No non-negative number meeting every congruence is smaller than the corrected result. |
| Day13.DepartureLeast | day13/src/main.rs:41-42 | `(t / id) * id + id` is the least multiple of the id strictly after t. |
| Day13.BusIdsExact | day13/src/main.rs:38-40 | The ids kept are exactly the values of the entries that parse as `u64`. |
| Day13.Earliest | day13/src/main.rs:45 | The picked bus has the earliest departure, and it is the first bus with that departure, as the stable sort leaves it. |
| Day13.Part1 | day13/src/main.rs:34-48 | Fails exactly when there are fewer than two lines, the timestamp does not parse, no id parses, or an id is 0. Otherwise the answer is the wait for the first bus with the earliest departure, times its id. |
| Day13.ScheduleSound | day13/src/main.rs:51-62 | Every bus comes from a numeric entry, with residue equal to its id minus its offset in the list. |
| Day13.ScheduleComplete | day13/src/main.rs:51-62 | Every numeric entry becomes such a bus. |
| Day13.OffsetCongruence | day13/src/main.rs:59 | A bus leaves at t plus its offset exactly when t meets the bus's congruence. |
| Day13.Part2 | day13/src/main.rs:50-65 | The corrected `part2` fails exactly when there is no line, an id on the last line is 0, or some bus's share of the product has no inverse. Its answer is a non-negative timestamp, where the source's `sum % prod` can be negative (`Part2AsWritten`). |
| Day13.Part2AsWritten | day13/src/main.rs:50-65 | `part2` as written, with the sign-keeping `%`: it fails exactly when the corrected part 2 does, and otherwise agrees with it modulo the product of the ids. |
| Day13.Part2AsWrittenNegative | day13/src/main.rs:50-65 | On the one-line input "2,x,x,x,x,3", `part2` as written answers -2 and the corrected part 2 answers 4. |
| Day13.ExampleSchedule | day13/src/main.rs:51-62 | The line "2,x,x,x,x,3" schedules bus 2 at offset 0 and bus 3 at offset 5. |
| Day13.Part2Departs | day13/src/main.rs:50-65 | For positive, pairwise coprime ids, the answer exists and every bus leaves at the answer plus its offset. |
| Day13.Part2Least | day13/src/main.rs:50-65 | No earlier non-negative timestamp has every bus leave at its offset. |
| Day14.FromBinary | day14/src/main.rs:26-27 | `from_str_radix(_, 2)` succeeds exactly on a non-empty numeral of binary digits whose value fits in 64 bits. |
| Day14.BinaryWordBits | day14/src/main.rs:26-27 | The word read from a binary numeral has a bit set exactly where the numeral has a '1'. |
| Day14.VersionOneMasks | day14/src/main.rs:26-27 | Decoded masks mean the mask contains only '0', '1' and 'X'. Where the mask has '1' the stored bit is 1, where it has '0' the bit is 0, and where it has 'X' the value's bit is kept. |
| Day14.VersionTwoMasks | day14/src/main.rs:71-75 | The OR mask has a bit exactly where the mask has '1', and the floating mask exactly where it has 'X'. |
| Day14.InsertGet | day14/src/main.rs:37 | After an insert the address holds the new value and every other address is unchanged. |
| Day14.InsertTotal | day14/src/main.rs:41 | An insert changes the sum of the stored values by the new value minus the value it overwrites. |
| Day14.LowestBit | day14/src/main.rs:49-50 | `mask & (!mask + 1)` is a single set bit of the mask with no set bit below it. Clearing it removes that position and no other, and makes the mask smaller. |
| Day14.FloatingInsertsAll | day14/src/main.rs:44-56 | The recursion performs a fixed list of inserts, in order. |
| Day14.FloatingAddressesAgree | day14/src/main.rs:44-56 | The addresses written are exactly those that agree with the location outside the floating bits; none are written when the mask is 0. |
| Day14.FloatingWrites | day14/src/main.rs:44-56 | After `floating_combinations`, every address that agrees with the location outside the mask holds the value, and every other address is unchanged. |
| Day14.FloatingValid | day14/src/main.rs:44-56 | The writes never give one address two entries. |
| Day14.MaskLine | day14/src/main.rs:9 | A captured mask is non-empty, and the line is "mask = " followed by it. |
| Day14.MemAtShape | day14/src/main.rs:10 | A memory match captures two non-empty decimal numerals, and the text is "mem[" + address + "] = " + value. |
| Day14.FirstMatch | day14/src/main.rs:10 | The unanchored search finds the leftmost position where the pattern matches, or reports that there is none. |
| Day14.MemLineOf | day14/src/main.rs:10 | A memory line built from two numerals is matched and captures those numerals. |
| Day14.MaskLineNotMem | day14/src/main.rs:9-10 | A mask line never matches the memory pattern. |
| Day14.MemLineParsed | day14/src/main.rs:30-35 | A rendered memory line reads back as its address and value, and is not a mask line. |
| Day14.StepOne | day14/src/main.rs:22-39 | A line keeps memory free of repeated addresses. `StepOneMask` and `StepOneWrites` state its mask and memory effects. |
| Day14.StepOneMask | day14/src/main.rs:22-28 | A mask line replaces both masks with those read from its text, or panics when they do not decode. |
| Day14.StepOneWrites | day14/src/main.rs:30-38 | A memory line stores the masked value, `(value | or) & and`, at its address and changes no other address. |
| Day14.RunOne | day14/src/main.rs:21-39 | Running the lines never gives one address two entries. |
| Day14.Part1 | day14/src/main.rs:13-42 | Part 1 fails exactly when the version 1 run does; otherwise it is the sum of the final memory, in which no address has two entries, and an empty program sums to 0. |
| Day14.WriteTwoAddresses | day14/src/main.rs:85-92 | A version 2 write stores the value at every address that agrees with `address | or` outside the floating bits, and nowhere else. |
| Day14.StepTwo | day14/src/main.rs:67-94 | A line keeps memory free of repeated addresses. `StepTwoMask` and `StepTwoWrites` state its mask and memory effects. |
| Day14.StepTwoMask | day14/src/main.rs:67-76 | A mask line replaces the OR and floating masks with those read from its text, or panics. |
| Day14.StepTwoWrites | day14/src/main.rs:78-93 | A memory line writes the value to every address that agrees with the written address, with the '1' bits set, outside the floating bits. It changes nothing else. |
| Day14.RunTwo | day14/src/main.rs:66-94 | Running the lines never gives one address two entries. |
| Day14.Part2 | day14/src/main.rs:58-97 | Part 2 fails exactly when the version 2 run does; otherwise it is the sum of the final memory, and an empty program sums to 0. |
| Day15.SeedsRoundTrip | day15/src/main.rs:9-12 | Comma-joined `u32` numerals read back as the same list of seeds. |
| Day15.LastTurn | day15/src/main.rs:21 | The turn a number was last spoken: that turn holds the number, and no later turn does. |
| Day15.Step | day15/src/main.rs:21-26 | One pass of the loop advances the turn by one and keeps every record at or before the current turn. The number spoken is less than the new turn. |
| Day15.Run | day15/src/main.rs:20-27 | The loop stops exactly at turn `nth`, or at once when the seeds already reach it, and keeps the records valid. |
| Day15.RecordsAppend | day15/src/main.rs:17 | Recording a newly spoken number at the next turn keeps the map equal to "last turn spoken" for every number. |
| Day15.SeedAll | day15/src/main.rs:14-18 | The seeding loop as written records every seed, the last included. It ends at turn \|seeds\| with the last seed as the number spoken. |
| Day15.Seed | day15/src/main.rs:14-18 | The corrected seeding records every seed but the last, ending at the same turn with the same last number. |
| Day15.PlayAsWritten | day15/src/main.rs:4-30 | As written, when `nth` does not go past the seeds, the answer is the last seed, or 0 for no seeds. |
| Day15.AsWrittenRepeatedSeed | day15/src/main.rs:14-24 | With seeds [1, 1] the code as written says 0 on turn 3, although the game says 1: 1 was spoken on turns 1 and 2. |
| Day15.AsWrittenAgrees | day15/src/main.rs:14-24 | When the last seed does not occur earlier, the code as written agrees with the corrected seeding. |
| Day15.StepTracks | day15/src/main.rs:20-27 | One loop pass speaks the game's next number: the difference between the turns the last number was spoken on, or 0 if it was new. |
| Day15.RunTracks | day15/src/main.rs:20-27 | The whole loop keeps the state equal to the game after each turn. |
| Day15.PlaySays | day15/src/main.rs:4-30 | With the corrected seeding, the answer is the number the game speaks on turn `nth`. |
| Day15.Play | day15/src/main.rs:14-30 | With the corrected seeding, when `nth` does not go past the seeds the answer is the last seed, or 0 for no seeds. |
| Day15.PickNth | day15/src/main.rs:4-30 | `pick_nth` with the corrected seeding: the last seed (or 0) when `nth` does not go past the seeds, and otherwise the number the game speaks on turn `nth`. |
| Day16.InAnyRule | day16/src/main.rs:32-36 | True exactly when some rule admits the value in one of its two inclusive ranges. |
| Day16.MatchSpanSound | day16/src/main.rs:13 | A matched `\d+-\d+` is two numerals joined by a dash. |
| Day16.MatchSpanComplete | day16/src/main.rs:13 | Two numerals joined by a dash are matched, with those numerals captured. |
| Day16.MatchRuleSound | day16/src/main.rs:13 | A rule line the pattern matches is exactly the text of its five captures, and those captures are ones the pattern can produce. |
| Day16.MatchRuleComplete | day16/src/main.rs:13 | The text of any captures the pattern can produce is matched and gives back the same captures. |
| Day16.ToField | day16/src/main.rs:52-60 | A rule built from captures keeps the captured name; the numbers must fit in `u32`, or the `unwrap` panics. |
| Day16.MapAllSpec | day16/src/main.rs:50-79 | Reading the lines succeeds exactly when every line can be classified without a panic, and then keeps each line's classification in order. |
| Day16.AbsorbAllAppend | day16/src/main.rs:50-79 | Reading the lines in two parts is reading the first part and then the second from the state it left. |
| Day16.AbsorbRules | day16/src/main.rs:52-60 | Rule lines are appended to the rules in order and change nothing else. |
| Day16.AbsorbNearby | day16/src/main.rs:71-72 | After the nearby header, ticket lines are appended to the nearby tickets in order. |
| Day16.ClassifyRule | day16/src/main.rs:50-60 | A written rule line, once trimmed, is classified as that very rule. |
| Day16.ClassifyTicket | day16/src/main.rs:65-69 | A written non-empty ticket is classified as that very ticket. |
| Day16.ReadNotesText | day16/src/main.rs:39-83 | Notes written in the puzzle's layout read back as the same notes. |
| Day16.Invalid | day16/src/main.rs:91-95 | Exactly the ticket's values that no rule admits, in order: every listed value is one of the ticket's and no rule admits it, and every such value is listed, as many times as it occurs in the ticket. |
| Day16.ErrorRateFlat | day16/src/main.rs:85-98 | The per-ticket sums added up equal the sum of every nearby value that no rule admits. |
| Day16.Part1 | day16/src/main.rs:85-98 | Succeeds exactly when the notes parse. The answer is the sum of every nearby value that no rule admits. |
| Day16.ValidNoInvalid | day16/src/main.rs:106 | A ticket passes the `all` filter exactly when it has no value that no rule admits. |
| Day16.ValidTickets | day16/src/main.rs:103-108 | Keeps exactly the nearby tickets all of whose values some rule admits. |
| Day16.AnyRejects | day16/src/main.rs:129-132 | `any_invalid` is false exactly when every valid ticket's value at the position fits the rule. A true answer names a ticket whose value does not fit. It panics only when a ticket is too short. |
| Day16.Matching | day16/src/main.rs:121-140 | The rules counted are exactly the rules not yet settled whose range fits every valid ticket at the position. |
| Day16.Decide | day16/src/main.rs:116-146 | A position changes only when it was unsettled and exactly one unsettled rule fits its column. It is then settled with that rule and your value there. |
| Day16.SettleOne | day16/src/main.rs:142-146 | Settling a fitting rule at a new position keeps the loop invariant: the count equals the settled positions and rules, each settled rule fits, and none is used twice. |
| Day16.DecideSettled | day16/src/main.rs:116-146 | One position of the `for` loop keeps the invariant. |
| Day16.SweepSettled | day16/src/main.rs:116-147 | One sweep over all positions keeps the invariant. |
| Day16.EliminateSettled | day16/src/main.rs:115-148 | The `while` loop keeps the invariant. |
| Day16.SettledComplete | day16/src/main.rs:115 | When the count reaches the number of positions, every position is settled by exactly one fitting rule, with no rule used twice. |
| Day16.Infer | day16/src/main.rs:100-148 | Any settling the loop ends with is complete: every position has one fitting rule and no rule name repeats. |
| Day16.DepartureProductPermutes | day16/src/main.rs:150-153 | The "departure" product does not depend on the `HashMap`'s iteration order. |
| Day16.Part2 | day16/src/main.rs:100-154 | An answer is the "departure" product of a complete settling of your ticket. |
| Day16.ValidPositions | day16/src/main.rs:178-188 | Lists, in ascending order, exactly the positions whose column fits the rule. It panics only when a ticket is too short. |
| Day16.CandidatesOf | day16/src/main.rs:175-191 | One entry per rule, in order, each listing exactly the positions that fit it. |
| Day16.ByCount | day16/src/main.rs:193 | A permutation of the candidates ordered by how many positions each may take, fewest first. |
| Day16.FirstUnfilled | day16/src/main.rs:199-203 | The first listed position not yet filled, or none when every listed position is filled. |
| Day16.FillFilled | day16/src/main.rs:198-210 | Each rule in sorted order takes one position it lists that was not filled before, with your value there, and no position twice. |
| Day16.FillTotal | day16/src/main.rs:196-212 | The total is the starting total times the "departure" product of what was settled. |
| Day16.AlternativeSound | day16/src/main.rs:163-213 | Each position of your ticket is taken once, by a rule of the notes that fits its column. The answer is the "departure" product. |
| Day16.Part2Alternative | day16/src/main.rs:163-213 | An answer is the "departure" product of an assignment that gives every position one fitting rule. |
| Day17.AsI8 | day17/src/main.rs:24 | `as i8` gives the value in [-128, 128) that is congruent to the input modulo 256, and leaves values below 128 unchanged. |
| Day17.LineCells | day17/src/main.rs:22-26 | A line activates exactly the points (x as i8, y as i8, 0, 0) for the columns x that hold '#'. |
| Day17.GridCells | day17/src/main.rs:21-27 | The points activated are exactly the cast positions of the '#' characters. |
| Day17.MaxXY | day17/src/main.rs:29-31 | The fold gives, for each of x and y, the largest coordinate of an active point, or 0. Both results are at least 0 and bound every active point. |
| Day17.SmallCells | day17/src/main.rs:21-27 | Below 128 lines of under 128 characters, the activated points are exactly the '#' positions, with no wrap-around from the cast. |
| Day17.NewActive | day17/src/main.rs:15-38 | On such an input, `new` activates exactly the points (x, y, 0, 0) where line y has '#' at column x. |
| Day17.NewContained | day17/src/main.rs:15-38 | The starting box holds every active point. |
| Day17.CubeNear | day17/src/main.rs:41 | The 81 points of the `iproduct!` are exactly the points within 1 in every coordinate, each listed once. |
| Day17.NeighboursExact | day17/src/main.rs:40-43 | `neighbours` yields 80 distinct points: exactly the points within 1 in every coordinate, other than the point itself. |
| Day17.CountInSet | day17/src/main.rs:46-48 | Counting the neighbours that are active counts the set of active neighbours. |
| Day17.ActiveNextAround | day17/src/main.rs:45-51 | A point is active next exactly when 3 of its neighbours are active, or it is active and 2 are. |
| Day17.ActiveNextNeighbour | day17/src/main.rs:45-51 | A point that becomes active has an active neighbour. |
| Day17.WidenReach | day17/src/main.rs:53-61 | Each widened range contains the old one and every coordinate within 1 of it. |
| Day17.Next | day17/src/main.rs:63-77 | The box grows by one on every side. Every point kept active obeys the rule, and in three dimensions every point has w = 0. |
| Day17.NextExact | day17/src/main.rs:63-77 | When the box holds the active points, a cycle misses nothing. The new active set is exactly the points that obey the rule, with w = 0 in three dimensions, and the new box holds them. |
| Day17.CyclesExact | day17/src/main.rs:83-85 | Every cycle is exact in that sense, so the box always holds the active points. |
| Day17.RunExact | day17/src/main.rs:80-88 | On a small input, the sixth cycle is exactly the rule applied to the fifth. |
| Day17.Run | day17/src/main.rs:80-88 | `run` counts the cubes active after six cycles; for a grid small enough that coordinates fit an `i8`, those are exactly the cubes the rule activates from the fifth cycle's cubes, in the plane w = 0 when there are three dimensions. |
| Day18.TokenizeAppend | day18/src/main.rs:44-53 | Tokenizing goes character by character: the tokens of a concatenation are the tokens of each part. |
| Day18.Operand | day18/src/main.rs:11-17 | A successful read starts at a token that exists and always advances. Anything else panics (`None`): a missing token, or one that is not a digit or '('. |
| Day18.Evaluate | day18/src/main.rs:19-39 | A successful evaluation starts at an existing token and always advances. |
| Day18.OperandTerm | day18/src/main.rs:11-17 | At a digit or a parenthesised expression, `operand` returns its left-to-right value and the position just past it. |
| Day18.EvaluateExpr | day18/src/main.rs:19-39 | Reading an expression that ends at the end of the tokens or at a non-operator gives its left-to-right value and the position one past where it ends. |
| Day18.ContinueExpr | day18/src/main.rs:22-36 | At an operator followed by an expression, the loop folds that expression onto the running value, left to right. |
| Day18.TokenizeShow | day18/src/main.rs:44-53 | Tokenizing an expression written out gives the tokens of that expression. |
| Day18.ParseShow | day18/src/main.rs:41-57 | `parse` of an expression written as in the puzzle input is its value with both operators applied strictly left to right. |
| Day18.Parse | day18/src/main.rs:41-57 | A line with no tokens fails, and a line that tokenizes as a well-formed expression evaluates to that expression's left-to-right value. |
| Day18.Total | day18/src/main.rs:59-67 | The sum exists exactly when every line parses. |
| Day18.Run1 | day18/src/main.rs:59-67 | The sum exists exactly when every line parses. `Run1Show` gives its value on written expressions. |
| Day18.Run1Show | day18/src/main.rs:59-67 | On written expressions, `run1` is the sum of their left-to-right values. |
| Day18.ReplaceAppend | day18/src/main.rs:75-77 | `str::replace` works piece by piece when no occurrence of the pattern straddles the cut. |
| Day18.ReplaceParen | day18/src/main.rs:75-76 | Doubling a parenthesis character in written text doubles the parentheses it was written with. |
| Day18.ReplaceTimes | day18/src/main.rs:77 | Replacing " * " in written text replaces exactly the multiplication signs. |
| Day18.RewriteShow | day18/src/main.rs:73-78 | The rewrite of a written expression is the expression written with doubled parentheses and ") * (" for each multiplication, all wrapped in one pair of parentheses. |
| Day18.BuildTokens | day18/src/main.rs:73-81 | The tokens `run2` reads are exactly the tokens of an expression whose runs of additions are grouped. |
| Day18.FoldAdd | day18/src/main.rs:24-28 | A run of additions adds up its terms. |
| Day18.FoldTimes | day18/src/main.rs:29-33 | A run of multiplications multiplies out. |
| Day18.BuildValue | day18/src/main.rs:73-78 | Read left to right, the grouped expression has the value the expression has when `+` binds tighter than `*`. |
| Day18.ParseRewriteShow | day18/src/main.rs:69-85 | `parse` of the rewrite of a written expression is its value with addition before multiplication. |
| Day18.Run2 | day18/src/main.rs:69-85 | The sum exists exactly when every rewritten line parses. `Run2Show` gives its value on written expressions. |
| Day18.Run2Show | day18/src/main.rs:69-85 | On written expressions, `run2` is the sum of their values with addition before multiplication. |
| Day19.AtoiAll | day19/src/main.rs:4-6 | The list is read exactly when every part is a `usize` numeral, keeping each value in order. |
| Day19.ParseRule | day19/src/main.rs:25-38 | A rule read from text never holds an empty sequence of rule numbers. |
| Day19.ParseShowRule | day19/src/main.rs:25-38 | A rule written as the puzzle input writes it (a quoted character, a list of numbers, or two lists around " \| ") reads back as the same rule. |
| Day19.ParseShowLine | day19/src/main.rs:18-21 | A written "n: body" line reads back as its number and its rule. |
| Day19.ParseLine | day19/src/main.rs:18-21 | A rule line parses exactly when it has a `: ` separator, a number before it and a rule after it, and then gives that number and that rule. |
| Day19.CollectSome | day19/src/main.rs:15-23 | The map is built exactly when every line reads without a panic. |
| Day19.CollectLastWins | day19/src/main.rs:22 | Each rule number holds the rule of the last line with that number. |
| Day19.ParseRules | day19/src/main.rs:15-23 | Rules read from text never hold an empty sequence. |
| Day19.PushCons | day19/src/main.rs:58-61 | Pushing a sequence in reverse leaves its first rule on top and the rest of it below, in order. |
| Day19.Match | day19/src/main.rs:40-85 | With well-formed rules, a stack longer than the message never matches, since every rule takes at least one character. `MatchExact` states that an answer says exactly whether the message derives from the stack. |
| Day19.MatchFuel | day19/src/main.rs:66-85 | More recursion depth never changes an answer already given. |
| Day19.MatchSound | day19/src/main.rs:66-85 | A match is a derivation: the message splits into texts derived from the stack's rules, read from the top down. |
| Day19.MatchComplete | day19/src/main.rs:66-85 | With rules whose sequences are non-empty, a message that derives from the stack is matched whenever the matcher answers. |
| Day19.MatchExact | day19/src/main.rs:66-85 | When the matcher answers, the answer says exactly whether the message derives from the stack. |
| Day19.InRuleNonEmpty | day19/src/main.rs:40-50 | No rule derives the empty text, which is why an empty message with a non-empty stack is rejected. |
| Day19.CountMatchesExact | day19/src/main.rs:91-94 | The count is the number of messages that derive from rule 0. |
| Day19.Part1Exact | day19/src/main.rs:87-95 | `part1` counts exactly the messages that derive from rule 0 of the parsed rules. |
| Day19.Part1 | day19/src/main.rs:87-95 | Part 1 fails when the rules do not parse, and otherwise counts the messages that match rule 0. |
| Day19.Override | day19/src/main.rs:101-102 | Replacing rules 8 and 11 keeps every sequence non-empty. |
| Day19.Part2Exact | day19/src/main.rs:97-108 | `part2` counts exactly the messages that derive from rule 0 of the replaced rules. |
| Day19.Part2 | day19/src/main.rs:97-108 | Part 2 fails when the rules do not parse, and otherwise counts the messages that match rule 0 once rules 8 and 11 are replaced. |
| Day19.EightRepeats | day19/src/main.rs:101 | With the new rules, rule 8 derives exactly one or more texts of rule 42 in a row. |
| Day19.ElevenBalanced | day19/src/main.rs:102 | With the new rules, rule 11 derives a text of rule 42, then nothing or a text of rule 11, then a text of rule 31. |
| Day20.NewTile | day20/src/main.rs:17-31 | A tile keeps its lines as cells with height the line count and width the first line's length; square lines give a valid tile. |
| Day20.RotateLeft | day20/src/main.rs:70-83 | A left rotation of a square grid is square of the same side and moves the cell at (r, c) to (n - 1 - c, r). |
| Day20.FlipHorizontal | day20/src/main.rs:84-95 | A horizontal flip keeps the row count and row lengths and reverses every row. |
| Day20.RotateFourTimes | day20/src/main.rs:70-83 | Four left rotations of a square grid give the grid back. |
| Day20.FlipTwice | day20/src/main.rs:84-95 | Flipping twice gives the grid back. |
| Day20.FlipSquare | day20/src/main.rs:84-95 | Flipping keeps a grid square. |
| Day20.Next | day20/src/main.rs:110-155 | Each call yields a tile of the source's size and uses up one of the remaining orientations; the iterator is exhausted exactly when both counters are zero. |
| Day20.Collect | day20/src/main.rs:96-155 | Collecting yields one tile per remaining orientation. |
| Day20.Orientations | day20/src/main.rs:110-155 | The eight orientations of a square grid are square grids of the same side. |
| Day20.CollectIsOrientations | day20/src/main.rs:96-155 | A fresh iterator yields exactly eight tiles: the grid, three successive left rotations, the flip of the third rotation, and three more rotations. |
| Day20.Transformations | day20/src/main.rs:9-31 | A tile's cached transformations are eight valid tiles. |
| Day20.TransformationsWidth | day20/src/main.rs:110-155 | Every orientation keeps the tile's width. |
| Day20.Top | day20/src/main.rs:40-43 | The top border is row 0 read left to right. |
| Day20.Bottom | day20/src/main.rs:44-49 | The bottom border is the last row read left to right. |
| Day20.Left | day20/src/main.rs:50-53 | The left border is column 0 read top to bottom. |
| Day20.Right | day20/src/main.rs:54-58 | The right border is the last column read top to bottom. |
| Day20.RotateBorders | day20/src/main.rs:40-83 | After a left rotation the top border is the old right border, the left border the reversed old top, the bottom the old left, and the right the reversed old bottom. |
| Day20.FlipBorders | day20/src/main.rs:40-58 | After a flip the top and bottom borders are reversed and left and right are swapped. |
| Day20.Remove | day20/src/main.rs:285 | Removing an id from the tile map keeps exactly the entries with other ids. |
| Day20.RemovePool | day20/src/main.rs:285 | Removing an id keeps the map valid and takes exactly that id out of its key set. |
| Day20.RemoveDistinct | day20/src/main.rs:237 | Removing an id keeps the ids distinct. |
| Day20.FirstTopLeftOrientation | day20/src/main.rs:185-213 | The orientation found is the first, from the given index on, whose left and top borders meet no other tile; none is found only when no such orientation exists. |
| Day20.FindTopLeftFrom | day20/src/main.rs:180-217 | The tile found is an orientation of a map tile whose left border is no other tile's right border and whose top border is no other tile's bottom border, in any orientation; none is found only when no tile has such an orientation. |
| Day20.FindTopLeft | day20/src/main.rs:180-217 | `find_top_left` returns a corner orientation of a map tile, and panics exactly when no tile has one. |
| Day20.FirstFitOrientation | day20/src/main.rs:231-241 | The orientation found is the first whose entrance border equals the given border; none is found only when no orientation fits. |
| Day20.FirstFit | day20/src/main.rs:230-243 | A fit is an orientation of a tile still in the map whose entrance border is the given border; none is found exactly when no remaining tile fits in any orientation. |
| Day20.Grow | day20/src/main.rs:219-276 | The growth loop places at most `count` distinct tiles, each an orientation of a tile it removes from the map, each matching the border before it; it places fewer only when nothing left fits. |
| Day20.GrowStep | day20/src/main.rs:229-244 | Placing a fitting tile before a chain grown from the rest of the map gives a chain grown from the whole map. |
| Day20.FromPoolId | day20/src/main.rs:219-276 | A tile taken from the map has an id of the map. |
| Day20.BuildRows | day20/src/main.rs:296-304 | Calling `find_row` on each tile of the first column builds rows that start with the column's tiles, use each map tile at most once, and take exactly the tiles that leave the map. |
| Day20.StepLayout | day20/src/main.rs:296-304 | A row grown from the first column tile in front of the rows of the rest of the column is a layout of the whole column. |
| Day20.Assemble | day20/src/main.rs:278-304 | The layout exists exactly when a top-left tile exists, and then has `side` rows of chained, distinct map tiles. |
| Day20.AssembleFacts | day20/src/main.rs:278-304 | The first column and the rows grown from it form a layout of the map. |
| Day20.LayoutFromPool | day20/src/main.rs:278-304 | Every tile of the layout is an orientation of a map tile under its own id. |
| Day20.InnerRow | day20/src/main.rs:32-35 | A row without borders is the row's cells 1 to width - 2, in order. |
| Day20.FillBandJoins | day20/src/main.rs:306-317 | Appending the tiles of a layout row line by line extends band line k by the joined interior row k + 1 of the tiles. |
| Day20.Stitch | day20/src/main.rs:306-317 | The stitched image has `height - 2` lines per layout row. |
| Day20.StitchLine | day20/src/main.rs:306-317 | Image line `b * (height - 2) + k` is the interior row k + 1 of the tiles of layout row b, joined left to right. |
| Day20.StitchCell | day20/src/main.rs:306-317 | Interior cell (k + 1, c + 1) of the tile at layout row b, column j sits at image cell (b * (n - 2) + k, j * (n - 2) + c). |
| Day20.Composition | day20/src/main.rs:287-329 | The tile composition has the layout's shape and holds each placed tile's id. |
| Day20.FindImage | day20/src/main.rs:278-331 | `find_image` fails exactly when no top-left tile exists or tiles are too narrow to have interior cells; otherwise its composition is the ids of a layout of the map and its image is that layout stitched cell by cell. |
| Day20.StitchedLayout | day20/src/main.rs:306-317 | Every interior cell of every placed tile is at its place in the stitched image. |
| Day20.Part1 | day20/src/main.rs:371-378 | The answer exists exactly when the first row is non-empty and no longer than the composition, and the row at its last index is at least as long. It is then the product of the ids at the four corners, and on a square composition the corners are the composition's own. |
| Day20.MonsterSize | day20/src/main.rs:4-6 | The sea monster has fifteen distinct cells, the constant `part2` subtracts per monster. |
| Day20.MonsterCheckIsPattern | day20/src/main.rs:333-356 | The three-line check at an anchor holds exactly when the fifteen monster cells are all '#'. |
| Day20.AllHash | day20/src/main.rs:342-348 | The corrected body check holds exactly when every offset is inside the row and holds '#'. |
| Day20.RowMonsters | day20/src/main.rs:340-352 | The corrected row count is the number of anchors whose check passes. |
| Day20.AllHashAgrees | day20/src/main.rs:342-348 | Whenever the source's `all` does not panic it agrees with the bounded check, and a panic means the check fails. |
| Day20.RowMonstersAgree | day20/src/main.rs:340-352 | Whenever the source's row loop does not panic it counts the corrected anchors. |
| Day20.MonstersInAgrees | day20/src/main.rs:333-356 | Every monster count the source returns without panicking is the corrected count. |
| Day20.MonstersInOutOfBounds | day20/src/main.rs:342-348 | On three lines of twenty '#' the source reads past the end of a line. |
| Day20.BodyOutOfBounds | day20/src/main.rs:342-348 | The body check at anchor 1 of a twenty-cell line of '#' reads past its end. |
| Day20.MonstersInHashes | day20/src/main.rs:333-356 | On three lines of twenty '#' the corrected scan finds the one monster. |
| Day20.HashesAnchors | day20/src/main.rs:340-352 | On a line of twenty '#' the only monster anchor is column 0. |
| Day20.MonstersInAsWritten | day20/src/main.rs:333-356 | `monsters_in` as written counts nothing below three lines, and panics exactly when some window of three lines has a first line shorter than 18 cells or a body read past the end of a line. |
| Day20.MonstersIn | day20/src/main.rs:333-356 | The corrected scan finds no monster exactly when no window of three lines holds the monster at any column. |
| Day20.CountMonsters | day20/src/main.rs:358-369 | With the corrected scan, the count is the first non-zero monster count over the eight orientations, and zero exactly when every orientation has none. |
| Day20.FirstMonsters | day20/src/main.rs:358-369 | With the corrected scan, the count is the first non-zero monster count from the given orientation on, and zero exactly when none of them has a monster. |
| Day20.CountMonstersAsWritten | day20/src/main.rs:358-369 | The loop over orientations with `monsters_in` as written: whenever it does not panic, it gives the corrected count. |
| Day20.FirstMonstersAsWritten | day20/src/main.rs:358-369 | From a given orientation on, with `monsters_in` as written: a count it returns is the corrected one, and it panics only when some remaining orientation makes `monsters_in` panic. |
| Day20.Part2 | day20/src/main.rs:380-394 | With the corrected scan, the answer is the number of '#' cells minus fifteen per monster, and exists exactly when the image is square and the subtraction does not underflow. |
| Day21.LastBefore | day21/src/main.rs:9 | The position found is the last occurrence of the pattern below the bound; none is found only when the pattern does not occur there. |
| Day21.ShapeOccurs | day21/src/main.rs:9 | Every reading of a line as `a (contains b)` ends in ')' and has " (contains " at position \|a\|. |
| Day21.OccursShape | day21/src/main.rs:9 | Every occurrence of " (contains " in a line ending in ')' gives a reading of the line. |
| Day21.Captures | day21/src/main.rs:9-17 | The captures read the line as `a (contains b)` with the longest possible `a`, and fail exactly when the line has no such reading. |
| Day21.ParseFoods | day21/src/main.rs:16-30 | Parsing succeeds exactly when every line parses, and then yields one food per line. |
| Day21.ParseShowFood | day21/src/main.rs:16-30 | A food written as its ingredients, " (contains " and its allergens reads back as the set of its ingredients and the list of its allergens. |
| Day21.ParseFood | day21/src/main.rs:16-30 | A line parses exactly when it has the `(contains ...)` shape, and then holds the words before it as ingredients and the comma-separated names inside it as allergens. |
| Day21.Ingredients | day21/src/main.rs:32-34 | The ingredients are exactly those of some food. |
| Day21.Tally | day21/src/main.rs:32-34 | Counting one food adds one to the frequency of each of its ingredients and nothing to the others. |
| Day21.Frequency | day21/src/main.rs:12-51 | The frequency map has exactly the ingredients of the foods as keys. |
| Day21.FrequencyCounts | day21/src/main.rs:32-34 | An ingredient's frequency is the number of foods that hold it. |
| Day21.Allergens | day21/src/main.rs:36-48 | The allergens are exactly those some food lists. |
| Day21.Narrow | day21/src/main.rs:36-48 | Each listed allergen's candidates become its old candidates intersected with the food's ingredients, or the ingredients when it is new; unlisted allergens keep theirs. |
| Day21.Candidates | day21/src/main.rs:12-51 | The candidate map has exactly the listed allergens as keys. |
| Day21.CandidatesExact | day21/src/main.rs:36-48 | An ingredient is a candidate of an allergen exactly when every food listing the allergen holds it. |
| Day21.FrequencySum | day21/src/main.rs:54-67 | Summing the frequencies over a set of ingredients counts their occurrences over all foods. |
| Day21.Part1Counts | day21/src/main.rs:54-67 | `part1` counts the occurrences of the ingredients that, for every allergen, some food listing it lacks. |
| Day21.Part1 | day21/src/main.rs:54-67 | Part 1 counts every occurrence of each ingredient that no allergen can be in, and is 0 when every ingredient is suspect. |
| Day21.FirstSingleton | day21/src/main.rs:79-83 | `find` returns the first allergen in iteration order whose candidate set has one element, and none only when no set has one. |
| Day21.Eliminated | day21/src/main.rs:85-94 | A pass keeps the allergens, keeps singleton sets, and takes the found ingredient out of every other set. |
| Day21.Eliminate | day21/src/main.rs:78-95 | When the loop ends every allergen has at most one candidate left, from its original set. |
| Day21.ExplainsAssignment | day21/src/main.rs:36-48 | A solution of the puzzle picks a distinct candidate for every allergen. |
| Day21.EliminatedKeeps | day21/src/main.rs:85-94 | A pass driven by a singleton keeps every distinct choice of candidates the sets allow. |
| Day21.EliminateSolves | day21/src/main.rs:78-95 | When the loop ends with a distinct choice possible, every allergen is left with exactly its chosen ingredient. |
| Day21.EliminatedNothing | day21/src/main.rs:85-94 | A pass whose singleton is in no other set changes nothing. |
| Day21.StuckForever | day21/src/main.rs:78-95 | On candidates where every singleton is disjoint from the other sets, the loop never ends, whatever the order. |
| Day21.RacyStalls | day21/src/main.rs:79-83 | In one iteration order the loop repeats the same pass forever. |
| Day21.RacySettles | day21/src/main.rs:79-83 | In another iteration order the same candidates settle. |
| Day21.FindNeedNotProgress | day21/src/main.rs:78-95 | The singleton `find` returns need not make progress, so whether the loop ends depends on the hash order. |
| Day21.Firsts | day21/src/main.rs:97-100 | The pairs list each allergen with the single ingredient of its set; taking one fails exactly when some set is empty. |
| Day21.Canonical | day21/src/main.rs:104-108 | The answer is the names joined by commas, and fails exactly when there are no names. |
| Day21.CommasJoin | day21/src/main.rs:104-107 | The fold puts a comma before each name. |
| Day21.Part2Solves | day21/src/main.rs:77-109 | When the loop ends and a distinct choice exists, `part2` lists the chosen ingredients joined by commas in ascending order of their allergens. |
| Day21.Part2 | day21/src/main.rs:77-109 | Part 2 answers exactly when the elimination ends, there is an allergen, and every listed allergen is left with a single ingredient. |
| Day21.AscendingUnique | day21/src/main.rs:102 | A set has one ascending listing. |
| Day21.FirstsAssigned | day21/src/main.rs:97-100 | With every set down to its chosen ingredient, the pairs are each allergen with that ingredient. |
| Day21.SortedKeys | day21/src/main.rs:97-102 | Sorted pairs of distinct allergens list the allergens in ascending order with their chosen ingredients. |
| Day22.ParseCards | day22/src/main.rs:7-13 | The cards parse exactly when every line is a `u32`, one card per line. |
| Day22.ParsePlayer | day22/src/main.rs:7-13 | A block parses exactly when every line after its header is a `u32`, and then gives those values in order; an empty block gives an empty deck. |
| Day22.Parse | day22/src/main.rs:15-21 | Parsing succeeds exactly when there are at least two blocks and both parse; the decks are the first two blocks' cards. |
| Day22.ParseShowPlayer | day22/src/main.rs:7-13 | A block written as a header and one card per line reads back as its deck. |
| Day22.Score | day22/src/main.rs:86-89 | The weighted sum counts every card at least once and at most as many times as there are cards. `ScoreSnoc` gives the weights exactly. |
| Day22.ScoreSnoc | day22/src/main.rs:86-89 | A card put under the deck counts once and adds one more weight to every card above it. |
| Day22.Settle | day22/src/main.rs:28-34 | The end of a round keeps the number of cards in play. |
| Day22.SettleCards | day22/src/main.rs:28-34 | A round neither loses nor makes cards. |
| Day22.Combat | day22/src/main.rs:24-35 | When the loop of `part1` ends, one deck is empty. |
| Day22.CombatCards | day22/src/main.rs:23-41 | When the loop of `part1` ends, the decks hold exactly the cards they started with. |
| Day22.Part1 | day22/src/main.rs:23-41 | `part1` answers exactly when its loop ends within the budget, and then returns the deck still holding cards, in the order the loop left it, with the other deck empty. That deck holds every card of the game. |
| Day22.Part1IsPart2 | day22/src/main.rs:23-41 | On decks whose cards are too high for any sub-game, when the recursive game empties a deck, `part1` and `part2` score the same deck. |
| Day22.CombatFuel | day22/src/main.rs:24-35 | The result of `part1` does not depend on the round budget once it ends within it. |
| Day22.CircleRound | day22/src/main.rs:24-34 | The circle decks both hold cards, and a round moves each to the next. |
| Day22.CombatForever | day22/src/main.rs:24-35 | On the circle decks the loop of `part1` never ends. |
| Day22.Game | day22/src/main.rs:43-78 | A game that ends with an empty deck is won by the player still holding cards; a game that ends with both decks holding cards ended on a repeat and is won by player 1. |
| Day22.RoundWinner | day22/src/main.rs:58-66 | The player holding the lower card wins a round only through a sub-game, which needs both players to hold at least as many cards as the values drawn. `RoundWinnerFuel` and `HighCardsRound` state the rest. |
| Day22.GameCards | day22/src/main.rs:43-78 | A recursive game neither loses nor makes cards. |
| Day22.Part2 | day22/src/main.rs:93-100 | The deck scored is the final deck of the recursive game's winner, player 1's on a win for player 1 and player 2's otherwise. It holds only cards of the game, and all of them when the game ended with an empty deck. |
| Day22.GameFuel | day22/src/main.rs:43-78 | The result of `part2` does not depend on the budget once it ends within it. |
| Day22.RoundWinnerFuel | day22/src/main.rs:58-66 | The winner of a round does not depend on the budget once its sub-game ends within it. |
| Day22.GameIsCombat | day22/src/main.rs:43-78 | On decks whose cards are too high for any sub-game, a recursive game that empties a deck plays exactly the rounds of `part1`. |
| Day22.HighCardsRound | day22/src/main.rs:58-66 | On such decks a round goes to the higher card and the decks stay too small for a sub-game. |
| Day22.GameStep | day22/src/main.rs:46-74 | A game that has not ended plays its round and continues with the state remembered. |
| Day22.CircleUnseen | day22/src/main.rs:51-53 | No state of the first six rounds around the circle repeats an earlier one. |
| Day22.CircleGame | day22/src/main.rs:46-74 | Around the circle the recursive game comes back to its first state and player 1 wins on the repeat. |
| Day22.CircleRepeats | day22/src/main.rs:51-53 | The repeat rule ends the game that `part1` never finishes, in player 1's favour. |
| Day23.Labels | day23/src/main.rs:5-8 | The labels are single digits, no more of them than input characters. |
| Day23.LabelsShow | day23/src/main.rs:5-8 | Digits written out, followed by text without digits, read back as the same labels. |
| Day23.WalkRange | day23/src/main.rs:74-83 | Counting down round the labels stays among them and returns to the current label only after a full round. |
| Day23.BelowWalk | day23/src/main.rs:20-24 | The distance part 1 sorts by is the number of steps the countdown takes from the current label to that label. |
| Day23.Distances | day23/src/main.rs:17-27 | The distances exist exactly when no subtraction underflows, one per remaining cup. |
| Day23.Least | day23/src/main.rs:29-30 | The position found comes first in a stable sort by distance among the others, and is missing only when there are no others. |
| Day23.Second | day23/src/main.rs:29-30 | `skip(1).next()` is the position the stable sort puts second, and exists exactly when there are two positions. |
| Day23.Move1 | day23/src/main.rs:13-32 | A part 1 move succeeds exactly when there are at least five cups and no distance underflows, and keeps the number of cups. |
| Day23.Move1Cups | day23/src/main.rs:13-32 | A part 1 move keeps the cups: the same labels, as often as before. |
| Day23.Moves1 | day23/src/main.rs:12-33 | Any number of part 1 moves keep the cups, the same labels as often as before, and a single move already needs five cups. |
| Day23.Answer1 | day23/src/main.rs:35-38 | The printed labels exist exactly when cup 1 is present, and leave out only cup 1. |
| Day23.Answer1Around | day23/src/main.rs:35-38 | The printed labels read the circle clockwise from the cup after cup 1. |
| Day23.Answer1Cups | day23/src/main.rs:35-38 | Part 1 prints every label of the circle except 1. |
| Day23.Part1 | day23/src/main.rs:4-40 | Part 1 prints one label fewer than there are cups; for labels that are a permutation of 1 to k with k at least 5 it finishes and prints every label except 1. |
| Day23.PlayPart1 | day23/src/main.rs:12-33 | Labels that are a permutation of 1 to k with k at least 5 play all hundred moves and keep cup 1. |
| Day23.Extend | day23/src/main.rs:48 | The labels are kept and followed by the labels from one more than their count up to the total. |
| Day23.Write | day23/src/main.rs:50-53 | The writes succeed exactly when every label is within the vector. |
| Day23.WriteLinks | day23/src/main.rs:50-53 | With distinct labels every label's entry is the label after it round the circle. |
| Day23.ExtendPermutation | day23/src/main.rs:48 | A permutation of 1 to k extended to a total stays a permutation. |
| Day23.ParseRing | day23/src/main.rs:42-56 | Labels that are a permutation give a successor vector that is one cycle through every label, starting at the first label. |
| Day23.Parse | day23/src/main.rs:42-56 | `parse` succeeds exactly when there is a first label and every label is within the vector, which is one longer than the labels, and returns the first label. |
| Day23.Destination | day23/src/main.rs:72-83 | The destination is never a picked-up cup. |
| Day23.DestinationIsWalk | day23/src/main.rs:72-83 | The destination is the first label counting down from the current one that was not picked up, at most four steps away. |
| Day23.RingDestination | day23/src/main.rs:72-83 | On a circle of at least five cups the destination of part 2 is the cup part 1's sort puts second. |
| Day23.Move2 | day23/src/main.rs:63-89 | A part 2 move keeps the length of the successor vector. |
| Day23.Moves2 | day23/src/main.rs:62-90 | Any number of part 2 moves keep the length of the successor vector. |
| Day23.Answer2 | day23/src/main.rs:92-94 | The answer exists exactly when cup 1 and the cup after it are within the vector. |
| Day23.RelinkRing | day23/src/main.rs:71-87 | After a move the vector is again one cycle through every label. |
| Day23.RotatedSource | day23/src/main.rs:13-32 | The circle after a move holds the same cups. |
| Day23.RingMove2 | day23/src/main.rs:63-89 | Part 2's move on a circle of at least five cups relinks it and makes the cup after the three picked up the current one. |
| Day23.RingMove1 | day23/src/main.rs:13-32 | Part 1's move on the same circle yields the same circle read from the new current cup. |
| Day23.SameMove | day23/src/main.rs:13-89 | One move of part 1 and one of part 2 play the same game: the same next current cup and the same circle. |
| Day23.SameGame | day23/src/main.rs:12-90 | After any number of moves part 1 and part 2 still hold the same circle. |
| Day23.SameAnswer | day23/src/main.rs:35-94 | Part 2's answer is the product of the first two labels part 1 would print. |
| Day23.Part2 | day23/src/main.rs:42-95 | For labels that are a permutation of 1 to k with k at most a million, part 2 finishes with the product of the first two labels part 1's procedure would print on the same million cups after ten million moves. |
| Day23.PlayPart2 | day23/src/main.rs:58-94 | For such labels the parsed vector plays all ten million moves in step with part 1's procedure, and the final product exists. |
| Day24.Offset | day24/src/main.rs:24-32 | A direction name has an offset exactly when it is one of the six names; any other name panics. |
| Day24.Step | day24/src/main.rs:23-36 | A step succeeds exactly when the direction is one of the six names. |
| Day24.BaseCoordinates | day24/src/main.rs:4-32 | The table of base coordinates gives, index for index, the offset `step` applies for each direction name. |
| Day24.StepIndex | day24/src/main.rs:23-36 | A step with the i-th direction name moves by the i-th base coordinate. |
| Day24.OppositeOpposite | day24/src/main.rs:4-5 | Pairing ne with sw, nw with se and e with w is its own inverse. |
| Day24.OppositesCancel | day24/src/main.rs:23-36 | A step followed by a step the opposite way returns to the start. |
| Day24.Neighbours | day24/src/main.rs:38-43 | A tile has six neighbours. |
| Day24.NeighboursStep | day24/src/main.rs:38-43 | The neighbours are six distinct tiles, the i-th one step away in the i-th direction. |
| Day24.NeighboursAdjacent | day24/src/main.rs:38-43 | The neighbours are exactly the tiles sharing an edge. |
| Day24.NeighboursSymmetric | day24/src/main.rs:38-43 | Being a neighbour is symmetric. |
| Day24.Match | day24/src/main.rs:53-59 | The direction found is the first the line starts with, and none is found exactly when the line starts with no direction name. |
| Day24.MatchUnique | day24/src/main.rs:53-59 | At most one direction name starts any line, so the order the parser tries them in does not matter. |
| Day24.Walk | day24/src/main.rs:49-60 | An empty line leaves the walk on the tile it starts from; what other lines do is stated by WalkStuck, WalkSpell and WalkSpelled. |
| Day24.WalkStuck | day24/src/main.rs:52-60 | A non-empty line that starts with no direction name is never used up: the loop runs forever. |
| Day24.WalkSpell | day24/src/main.rs:52-60 | A route written out as direction names walks to the route's end. |
| Day24.WalkSpelled | day24/src/main.rs:52-60 | A walk that ends read the whole line as a route, and ended where the route ends. |
| Day24.WalkFuel | day24/src/main.rs:52-60 | One round per character is always enough for a walk that ends. |
| Day24.Walks | day24/src/main.rs:49-60 | The walks succeed exactly when every line's walk ends, one tile per line. |
| Day24.FlipsParity | day24/src/main.rs:62-70 | A tile is on the floor once visited, and black exactly when visited an odd number of times. |
| Day24.Part1 | day24/src/main.rs:46-74 | Part 1 fails exactly when some line can never be used up. |
| Day24.Part1Odd | day24/src/main.rs:46-74 | Part 1 counts the tiles the walks end on an odd number of times, and fails exactly when some line is never used up. |
| Day24.BlackIn | day24/src/main.rs:101-104 | No more tiles are counted black than are looked at. |
| Day24.Rule | day24/src/main.rs:93-117 | A tile is black the next day exactly when it has two black neighbours, or is black with one. |
| Day24.AddMissingFill | day24/src/main.rs:85-99 | The inner loop adds exactly the neighbours not yet on the floor, each in its painted colour. |
| Day24.FreshNext | day24/src/main.rs:85-99 | A tile not on the floor gets from the inner loop the colour the daily rule gives it. |
| Day24.VisitPartial | day24/src/main.rs:82-118 | One round of the outer loop extends the partial day by its own tile and that tile's neighbours. |
| Day24.VisitUpdate | day24/src/main.rs:101-117 | The round's own update always leaves the tile in the colour the rule gives it. |
| Day24.Visit | day24/src/main.rs:82-117 | One round adds the tile's neighbours not yet on the floor in the colour the rule gives them, keeps every other tile's colour, and gives a tile still in its snapshot colour its rule colour. |
| Day24.RoundsPartial | day24/src/main.rs:82-118 | A loop whose every round extends a partial day covers the tiles of all its entries. |
| Day24.ProcessPartial | day24/src/main.rs:82-118 | The outer loop over the snapshot's entries gives each entry's tile and its neighbours their rule colour and leaves the rest of the snapshot. |
| Day24.Day | day24/src/main.rs:79-119 | However the map is iterated, one day of the loop is the next day's floor under the rule. |
| Day24.PartialAll | day24/src/main.rs:79-119 | After every round of a day the floor is the next day's floor. |
| Day24.NextDayRule | day24/src/main.rs:85-117 | On the next day's floor every tile, on the floor or not, has the colour the rule gives it from its black neighbours. |
| Day24.DaysInExact | day24/src/main.rs:76-122 | Any number of days of the loop, whatever the iteration order, is the same number of days of the rule. |
| Day24.DaysInAll | day24/src/main.rs:76-122 | The same holds for every iteration order at once. |
| Day24.Part2 | day24/src/main.rs:76-140 | Part 2 fails exactly when part 1 does, and otherwise counts the black tiles after a hundred days of the loop, whatever order the map is iterated in. |
| Day25.EncryptionKey | day25/src/main.rs:3-9 | The key after `loop_size` rounds is the key raised to the loop size modulo 20201227, and a key small enough that no product overflows a `u64` always gets an answer. |
| Day25.Handshake | day25/src/main.rs:3-35 | The card transforming the door's public key and the door transforming the card's agree, on the public key of the product of the loop sizes. |
| Day25.CrackFromFinds | day25/src/main.rs:15-22 | The loop returns the first loop size from its start whose public key is the key, and runs past its budget only when none within it is. |
| Day25.Crack | day25/src/main.rs:11-23 | `crack_loop_size` returns the least loop size whose public key is the key, runs on past the budget exactly when no loop size within it is, and never finds a key at or above the modulus. |
| Day25.Answer | day25/src/main.rs:25-35 | The answer is the door's key raised to the cracked loop size modulo 20201227, and for a door key too small to overflow it is missing only when the loop size is not found. |
| Day25.AnswerShared | day25/src/main.rs:25-35 | When the door's key is a public key, the answer exists exactly when the card's loop size is found, and is the key the door computes from the card's public key. |
| Decimal.ParseUnsigned | day09/src/main.rs:58 | An unsigned parse yields only values the integer type holds. |
| Decimal.ParseSigned | day01/src/main.rs:7 | A signed parse yields only values the integer type holds. |
| Decimal.ParseShowNat | day09/src/main.rs:58 | A number the type holds, written in decimal, parses back to itself. |
| Decimal.ParseShowInt | day01/src/main.rs:7 | A signed number the type holds, written in decimal, parses back to itself. |
| Decimal.ShowNatDigitsValue | day09/src/main.rs:58 | A digit string without leading zeros is the rendering of its own value. |
| Decimal.ParseEach | day13/src/main.rs:38-41 | `filter_map` of a parse keeps at most the parts it was given, each a value the type holds. |
| Decimal.ParseEachShowEach | day13/src/main.rs:38-41 | Numbers written out in decimal are all kept, in order, by `filter_map` of a parse. |
| Decimal.CommaListRoundTrip | day13/src/main.rs:38-41 | A comma-separated list of numbers split at commas and parsed gives the numbers back. |
| Seqs.JoinSplit | day13/src/main.rs:39 | Splitting at a separator and joining with it gives the text back. |
| Seqs.SplitJoin | day13/src/main.rs:39 | Parts without the separator, joined with it, split back into the same parts. |
| Seqs.WordsJoinSpace | day04/src/main.rs:94 | Words separated by single spaces split at whitespace back into the same words. |
| Seqs.Trim | day16/src/main.rs:50 | A trimmed line neither starts nor ends with whitespace. |
| Arith.Rem | day13/src/main.rs:15 | Rust's `%` has the sign of the dividend and a magnitude below the divisor's, and agrees with the Euclidean remainder on non-negative operands. |
| Arith.QuotRem | day13/src/main.rs:7-8 | Rust's truncating quotient and remainder recompose the dividend. |
| Sorting.Sort | day10/src/main.rs:42 | Sorting yields an ascending permutation of its input. |
| Sorting.SortByKey | day13/src/main.rs:45 | Sorting by a key yields a permutation ascending in the key, and it is stable: the elements sharing a key keep their order in the input. |
| Sorting.SortPairs | day21/src/main.rs:102 | Sorting pairs of strings yields a permutation ascending in the lexicographic order of the pairs. |

## Left out

- Reading standard input, printing, and the glue in each `main`: models start from the input's lines and return the answers.
- Days 5 and 7: day05/src/main.rs and day07/src/main.rs are not part of this model.
- Fixed-width overflow of `i64`, `u64`, `u32`, `usize`, `i16` and `i8` arithmetic is not modelled except where stated above; every other sum and product is an unbounded integer.
- Day 3: only the tree count of one slope is modelled; `main`'s product over the five slopes is left out.
- Day 3: `line.len()` counts bytes while `nth` counts characters. The model counts characters for both, which is the same on ASCII maps. On a line with multi-byte characters the source wraps its column at the byte length, and `nth` can then panic.
- Day 4: the patterns read `\d` as an ASCII digit. A `pid` of nine non-ASCII Unicode digits matches `^\d{9}$` in the source, which never parses it, so the source accepts it where the model rejects it. A Unicode digit in a year or height makes `rule`'s parse fail, which gives false in both.
- Day 16: the rule pattern reads `\d+` as ASCII digits. A rule line with non-ASCII Unicode digits matches in the source and then panics in `u32::from_str(..).unwrap()`; the model does not read it as a rule.
- MemAtShape: `\d` and `\w` in the day 14 patterns are read as ASCII digits and ASCII word characters. The source also matches a mask or memory line with a non-ASCII Unicode letter or digit and then panics in `from_str_radix(..).unwrap()` or `parse().unwrap()`; the model ignores such a line.
- Trim: `IsSpace` is the ASCII whitespace set. Rust's `trim` and `split_whitespace` also strip the other Unicode White_Space characters, which the model keeps.
- Day 11, day 16 (`Part2`), day 19, day 21, day 22 and day 25: the loops that need not end are bounded by `fuel`. A `None` from running out stands for a run that does not end, or for a recursion deep enough to overflow the stack.
- Day13.ModInv: requires a non-zero modulus. For modulus 0, `egcd(x, 0)` returns g = x, so the source reaches its `%` by zero only when x is 1. Its caller passes one bus id, and `prod / modulus` (day13/src/main.rs:27) already panics on an id of 0.
- Day13.ChineseRemainder: requires non-zero bus ids, because `prod / modulus` panics on an id of 0; `Day13.Part2` returns `None` for such a schedule.
- Day13.Part2: uses the corrected remainder, reduced into [0, prod). The source's `sum % prod` can be negative; `Part2AsWritten` models it, and `Part2AsWrittenNegative` shows -2 on "2,x,x,x,x,3".
- Day 15: the 30,000,000-turn run is the same function applied to a larger turn number. The seeds are parsed with `filter_map` as in the source, so a seed followed by the input's final newline does not parse and is dropped.
- Day 17: coordinates are `i8` in the source. Only the `as i8` cast of the starting grid's indices is modelled (`AsI8`); later overflow of the neighbour arithmetic is not, and the lemmas are about the unbounded lattice.
- Day 18: `to_digit(10).unwrap()` panics on non-ASCII digits. The tokenizer model keeps only ASCII digits, and `run2`'s debugging `println!` is left out.
- Day 19: `Part1` and `Part2` take the rule lines and the messages already split. The source's `split("\n\n")` and its panic when the second block is missing are not modelled. The source slices messages by bytes. Messages are modelled as character sequences, which is the same for ASCII input.
- Day 20: the tile count's square root is computed through `f64` in the source. The model takes the side as a parameter whose square is at most the tile count and whose successor's square exceeds it. Parsing the tile headers is left out: the tile map is given as its entries in iteration order.
- Day 21: `part1` is a ghost sum over a set, since the sum does not depend on the map's order. `Part1Counts` relates it to the foods.
- Day 22: the source remembers each pair of decks by a 64-bit `DefaultHasher` value. The model remembers the exact pair of decks, so hash collisions, which could end a game early, are not modelled. The `u32` score is an unbounded integer.
- Day 23: printing part 1's labels is left out; `Answer1` returns them. The destination search of part 2 is given one try per label; on any circle of cups it is proved never to need more. Agreement between the deque of part 1 and the successor array of part 2 is proved for circles of at least five cups with labels 1 to n.
- Day 24: coordinates are `i16` in the source and unbounded integers here. A line that starts with no direction name makes the source loop forever; the walk is `None` then (`WalkStuck`), with one round per character as its fuel. `Part2` applies the daily rule, and `DaysInExact` shows it equals the loop under any iteration order.
- Day 25: a `u64` product that overflows is `None`, read as a debug-build panic. That 7 generates the whole group modulo 20201227 is not proved, so `Crack` is bounded by `fuel`.
- Day20.CountMonsters: counts with the corrected scan `MonstersIn`. Where the source's `monsters_in` reads past a line and panics, it counts; `CountMonstersAsWritten` models the panicking loop.
- Day20.FirstMonsters: uses the corrected scan; `FirstMonstersAsWritten` models the source's loop, panics included.
- Day20.Part2: uses the corrected scan, so it does not model the panic `count_monsters` can raise through `monsters_in`.
- Day24.Walk: its contract states only the empty line. `WalkStuck`, `WalkSpell` and `WalkSpelled` state what it does on every other line.
- Day12.Distance: states only when the distance exists. The Manhattan distance itself is written out in the body and not restated.

## Findings

| source | as written | input that shows it | evidently intended | confidence | as-written member | corrected member |
|---|---|---|---|---|---|---|
| day09/src/main.rs:21-37 | `find_subset` tries the windows `1..position` only, so a window ending at `position` is never checked | numbers [1, 2, 3, 5], target 5, position 3: the window of 2 and 3 is missed | every window before the invalid number is tried | high (proved; not executed) | Day09.FindSubsetAsWritten, Day09.AsWrittenMissesExample | Day09.FindWeakWindow |
| day13/src/main.rs:21-32 | `chinese_remainder` returns `sum % prod`, which keeps the sign of a negative sum | schedule "2,x,x,x,x,3" gives -2 | the least non-negative solution, 4 | high (proved; not executed) | Day13.ChineseRemainderAsWritten, Day13.AsWrittenNegative, Day13.Part2AsWritten, Day13.Part2AsWrittenNegative | Day13.ChineseRemainder, Day13.ChineseRemainderSolves, Day13.ChineseRemainderLeast, Day13.Part2 |
| day15/src/main.rs:14-25 | the seeding records the last seed's turn before the first new turn reads it, so a last seed that repeats an earlier one is taken as new | seeds [1, 1]: turn 3 says 0 | 1, the gap between the two turns on which 1 was spoken | high (proved; not executed) | Day15.PlayAsWritten, Day15.AsWrittenRepeatedSeed | Day15.Play, Day15.PlaySays |
| day20/src/main.rs:340-352 | `monsters_in` scans anchors up to width - 19, but the body offsets reach 19, so `second_row[19 + idx]` can read past the line | an image of three lines of twenty '#' reads index 20 of a 20-cell line | every anchor whose monster fits in the image is checked, and out-of-range cells count as no match | high (proved; not executed) | Day20.MonstersInAsWritten, Day20.MonstersInOutOfBounds | Day20.MonstersIn, Day20.MonstersInAgrees, Day20.MonstersInHashes |

Day 21 shows a further behaviour that depends on hash order. `find` may return a singleton that no other set contains, and then the `while` loop repeats the same pass forever (`Day21.FindNeedNotProgress`, `Day21.StuckForever`, `Day21.RacyStalls`, `Day21.RacySettles`). Whether the loop ends therefore depends on the map's hash order. This is a property of the algorithm rather than a slip in the code, so it is stated but not corrected.
