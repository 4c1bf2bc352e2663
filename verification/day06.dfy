/** Day 6: customs answers. Each group's lines are one person's answers; part 1
    adds the sizes of the groups' unions, part 2 of their intersections with
    'a'..='z'. A group is counted when a blank line closes it. */
module Day06 {
  import Seqs

  /** The first `n` lower-case letters. */
  function Letters(n: nat): (s: set<char>)
    requires n <= 26
    ensures |s| == n
    ensures forall c :: c in s <==> 'a' as int <= c as int < 'a' as int + n
  {
    if n == 0 then {}
    else
      var c := ('a' as int + n - 1) as char;
      var s := Letters(n - 1);
      assert c !in s;
      s + {c}
  }

  predicate IsLetter(c: char)
  {
    'a' <= c <= 'z'
  }

  /** The characters 'a'..='z'. */
  function Alphabet(): (s: set<char>)
    ensures |s| == 26
    ensures forall c :: c in s <==> 'a' <= c <= 'z'
  {
    var s := set c: char | IsLetter(c);
    assert s == Letters(26);
    s
  }

  /** The characters of a line. */
  function Chars(line: string): set<char>
  {
    set k | 0 <= k < |line| :: line[k]
  }

  /** `intersection(a, b)`: the elements of `a` that are in `b`. */
  function Intersection(a: set<char>, b: set<char>): (r: set<char>)
    ensures r <= a && r <= b
    ensures forall e :: e in a && e in b ==> e in r
  {
    set e | e in a && e in b
  }

  /** The state of the scan: the answers of the open group and the count of the
      closed ones. */
  datatype Scan = Scan(answers: set<char>, count: nat)

  /** One line of part 1: a blank line adds the union to the count and starts an
      empty one; any other line adds its characters. */
  function Step1(s: Scan, line: string): Scan
  {
    if line == [] then Scan({}, s.count + |s.answers|) else Scan(s.answers + Chars(line), s.count)
  }

  /** One line of part 2: a blank line adds the intersection to the count and
      restarts from the alphabet; any other line intersects with its characters. */
  function Step2(s: Scan, line: string): Scan
  {
    if line == [] then Scan(Alphabet(), s.count + |s.answers|)
    else Scan(Intersection(s.answers, Chars(line)), s.count)
  }

  function Run1(s: Scan, lines: seq<string>): Scan
    decreases |lines|
  {
    if lines == [] then s else Run1(Step1(s, lines[0]), lines[1..])
  }

  function Run2(s: Scan, lines: seq<string>): Scan
    decreases |lines|
  {
    if lines == [] then s else Run2(Step2(s, lines[0]), lines[1..])
  }

  /** `part1`: the sum, over the groups closed by a blank line, of the number
      of characters anyone in the group answered. */
  function Part1(lines: seq<string>): (r: nat)
    ensures r == SumUnions(Groups(lines))
  {
    Part1Lines([], 0, lines);
    Run1(Scan({}, 0), lines).count
  }

  /** `part2`: the sum, over the closed groups, of the number of letters
      everyone in the group answered. */
  function Part2(lines: seq<string>): (r: nat)
    ensures r == SumCommons(Groups(lines))
  {
    Part2Lines([], 0, lines);
    Run2(Scan(Alphabet(), 0), lines).count
  }

  /** The groups still to be closed when `open` holds the open group's lines:
      each blank line closes a group, and the lines after the last blank line
      form no group. */
  function GroupsFrom(open: seq<string>, lines: seq<string>): seq<seq<string>>
    decreases |lines|
  {
    if lines == [] then []
    else if lines[0] == [] then [open] + GroupsFrom([], lines[1..])
    else GroupsFrom(open + [lines[0]], lines[1..])
  }

  /** The groups of the input, each closed by a blank line. */
  function Groups(lines: seq<string>): seq<seq<string>>
  {
    GroupsFrom([], lines)
  }

  /** There is one group per blank line. */
  lemma {:induction false} GroupsFromCount(open: seq<string>, lines: seq<string>)
    ensures |GroupsFrom(open, lines)| == multiset(lines)[[]]
    decreases |lines|
  {
    if lines != [] {
      assert lines == [lines[0]] + lines[1..];
      assert multiset(lines) == multiset([lines[0]]) + multiset(lines[1..]);
      if lines[0] == [] {
        GroupsFromCount([], lines[1..]);
      } else {
        GroupsFromCount(open + [lines[0]], lines[1..]);
      }
    }
  }

  lemma GroupsCount(lines: seq<string>)
    ensures |Groups(lines)| == multiset(lines)[[]]
  {
    GroupsFromCount([], lines);
  }

  /** No group holds a blank line. */
  lemma {:induction false} GroupsFromNonBlank(open: seq<string>, lines: seq<string>)
    requires forall k :: 0 <= k < |open| ==> open[k] != []
    ensures forall j, k :: 0 <= j < |GroupsFrom(open, lines)| && 0 <= k < |GroupsFrom(open, lines)[j]| ==>
      GroupsFrom(open, lines)[j][k] != []
    decreases |lines|
  {
    if lines != [] {
      if lines[0] == [] {
        GroupsFromNonBlank([], lines[1..]);
        assert GroupsFrom(open, lines) == [open] + GroupsFrom([], lines[1..]);
      } else {
        var grown := open + [lines[0]];
        assert forall k :: 0 <= k < |grown| ==> grown[k] != [];
        GroupsFromNonBlank(grown, lines[1..]);
      }
    }
  }

  lemma GroupsNonBlank(lines: seq<string>)
    ensures forall j, k :: 0 <= j < |Groups(lines)| && 0 <= k < |Groups(lines)[j]| ==> Groups(lines)[j][k] != []
  {
    GroupsFromNonBlank([], lines);
  }

  /** Everyone's answers in a group. */
  function Union(group: seq<string>): set<char>
  {
    if group == [] then {} else Union(group[..|group| - 1]) + Chars(group[|group| - 1])
  }

  /** The letters everyone in a group answered. */
  function Common(group: seq<string>): set<char>
  {
    if group == [] then Alphabet() else Intersection(Common(group[..|group| - 1]), Chars(group[|group| - 1]))
  }

  /** Characters in some line of the group. */
  lemma {:induction false} UnionMembers(group: seq<string>, c: char)
    ensures c in Union(group) <==> exists k :: 0 <= k < |group| && c in group[k]
  {
    if group != [] {
      var init := group[..|group| - 1];
      UnionMembers(init, c);
      if c in Union(init) {
        var k :| 0 <= k < |init| && c in init[k];
        assert group[k] == init[k];
      }
      if exists k :: 0 <= k < |group| && c in group[k] {
        var k :| 0 <= k < |group| && c in group[k];
        if k < |init| {
          assert init[k] == group[k];
        }
      }
    }
  }

  /** Letters in every line of the group. */
  lemma {:induction false} CommonMembers(group: seq<string>, c: char)
    ensures c in Common(group) <==> 'a' <= c <= 'z' && forall k :: 0 <= k < |group| ==> c in group[k]
  {
    if group != [] {
      var init := group[..|group| - 1];
      CommonMembers(init, c);
      if 'a' <= c <= 'z' && forall k :: 0 <= k < |group| ==> c in group[k] {
        assert forall k :: 0 <= k < |init| ==> init[k] == group[k];
      }
    }
  }

  function SumUnions(groups: seq<seq<string>>): nat
  {
    if groups == [] then 0 else |Union(groups[0])| + SumUnions(groups[1..])
  }

  function SumCommons(groups: seq<seq<string>>): nat
  {
    if groups == [] then 0 else |Common(groups[0])| + SumCommons(groups[1..])
  }

  lemma UnionSnoc(group: seq<string>, line: string)
    ensures Union(group + [line]) == Union(group) + Chars(line)
  {
    assert (group + [line])[..|group|] == group;
  }

  lemma CommonSnoc(group: seq<string>, line: string)
    ensures Common(group + [line]) == Intersection(Common(group), Chars(line))
  {
    assert (group + [line])[..|group|] == group;
  }

  lemma UnionsCons(group: seq<string>, groups: seq<seq<string>>)
    ensures SumUnions([group] + groups) == |Union(group)| + SumUnions(groups)
  {
    assert ([group] + groups)[1..] == groups;
  }

  lemma CommonsCons(group: seq<string>, groups: seq<seq<string>>)
    ensures SumCommons([group] + groups) == |Common(group)| + SumCommons(groups)
  {
    assert ([group] + groups)[1..] == groups;
  }

  /** Part 1 from the middle of the input: when the open answers are the
      union of the open group, the count grows by the unions of the groups
      still to be closed. */
  lemma {:induction false} Part1Lines(open: seq<string>, count: nat, lines: seq<string>)
    ensures Run1(Scan(Union(open), count), lines).count == count + SumUnions(GroupsFrom(open, lines))
    decreases |lines|
  {
    if lines != [] {
      var s := Scan(Union(open), count);
      if lines[0] == [] {
        var closed := count + |Union(open)|;
        assert Step1(s, lines[0]) == Scan(Union([]), closed);
        Part1Lines([], closed, lines[1..]);
        UnionsCons(open, GroupsFrom([], lines[1..]));
      } else {
        UnionSnoc(open, lines[0]);
        assert Step1(s, lines[0]) == Scan(Union(open + [lines[0]]), count);
        Part1Lines(open + [lines[0]], count, lines[1..]);
      }
    }
  }

  /** Part 2 from the middle of the input: when the open answers are the
      letters common to the open group, the count grows by the common letters
      of the groups still to be closed. */
  lemma {:induction false} Part2Lines(open: seq<string>, count: nat, lines: seq<string>)
    ensures Run2(Scan(Common(open), count), lines).count == count + SumCommons(GroupsFrom(open, lines))
    decreases |lines|
  {
    if lines != [] {
      if lines[0] == [] {
        Part2Lines([], count + |Common(open)|, lines[1..]);
        CommonsCons(open, GroupsFrom([], lines[1..]));
      } else {
        CommonSnoc(open, lines[0]);
        Part2Lines(open + [lines[0]], count, lines[1..]);
      }
    }
  }

  /** Each group adds at most 26 to part 2. */
  lemma {:induction false} Part2Bound(lines: seq<string>)
    ensures Part2(lines) <= 26 * |Groups(lines)|
  {
    CommonsBound(Groups(lines));
  }

  lemma {:induction false} CommonsBound(groups: seq<seq<string>>)
    ensures SumCommons(groups) <= 26 * |groups|
  {
    if groups != [] {
      CommonsBound(groups[1..]);
      assert Common(groups[0]) <= Alphabet() by {
        forall c | c in Common(groups[0]) ensures c in Alphabet() {
          CommonMembers(groups[0], c);
        }
      }
      Seqs.SubsetCard(Common(groups[0]), Alphabet());
    }
  }
}
