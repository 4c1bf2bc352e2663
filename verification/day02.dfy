/** Day 2: password policies of the form "c1-c2 ch: password". The old policy
    bounds how often `ch` occurs; the new one wants `ch` at exactly one of the
    1-based positions `c1` and `c2`. */
module Day02 {
  import opened Wrappers
  import opened Seqs
  import opened Decimal

  datatype Policy = Policy(c1: nat, c2: nat, character: char, password: string)

  predicate ValidPolicy(p: Policy)
  {
    p.c1 < U32_LIMIT && p.c2 < U32_LIMIT
  }

  /** Parses each field of a `-`-separated list as a `u32`; one bad field panics. */
  function ParseBounds(fields: seq<string>): (r: Option<seq<nat>>)
    ensures r.Some? ==> |r.value| == |fields|
    ensures r.Some? ==> forall k :: 0 <= k < |fields| ==> Some(r.value[k]) == ParseUnsigned(fields[k], U32_LIMIT)
    ensures r.Some? <==> forall k :: 0 <= k < |fields| ==> ParseUnsigned(fields[k], U32_LIMIT).Some?
  {
    if fields == [] then Some([])
    else
      match ParseUnsigned(fields[0], U32_LIMIT)
      case None => None
      case Some(v) =>
        match ParseBounds(fields[1..])
        case None => None
        case Some(rest) => Some([v] + rest)
  }

  /** `Policy::parse`: the first three whitespace-separated words are the bounds
      "c1-c2", the character followed by ':', and the password. A missing word,
      bound or character, a bound that is not a `u32`, or a character word
      without the trailing ':' panics, modelled as `None`. Extra words and extra
      bounds are ignored. */
  function ParsePolicy(line: string): (r: Option<Policy>)
    ensures r.Some? ==> ValidPolicy(r.value)
    ensures r.Some? ==> |Words(line)| >= 3 && r.value.password == Words(line)[2]
  {
    var parts := Words(line);
    if |parts| < 3 then None
    else
      match ParseBounds(Split(parts[0], '-'))
      case None => None
      case Some(bounds) =>
        if |bounds| < 2 then None
        else
          var word := parts[1];
          if |word| < 2 || word[|word| - 1] != ':' then None
          else Some(Policy(bounds[0], bounds[1], word[0], parts[2]))
  }

  /** The line a policy is written as. */
  function Format(p: Policy): string
  {
    ShowNat(p.c1) + "-" + ShowNat(p.c2) + " " + [p.character, ':'] + " " + p.password
  }

  /** Parsing a formatted policy gives the policy back. */
  lemma ParseFormat(p: Policy)
    requires ValidPolicy(p)
    requires !IsSpace(p.character) && IsWord(p.password)
    ensures ParsePolicy(Format(p)) == Some(p)
  {
    var bounds := ShowNat(p.c1) + "-" + ShowNat(p.c2);
    var word := [p.character, ':'];
    assert IsWord(bounds) && IsWord(word);
    var words := [bounds, word, p.password];
    assert JoinSpace(words[2..]) == p.password;
    assert JoinSpace(words[1..]) == word + " " + p.password;
    assert Format(p) == JoinSpace(words);
    WordsJoinSpace(words);
    var fields := [ShowNat(p.c1), ShowNat(p.c2)];
    assert bounds == Join(fields, '-');
    SplitJoin(fields, '-');
    ParseShowNat(p.c1, U32_LIMIT);
    ParseShowNat(p.c2, U32_LIMIT);
    var second := [ShowNat(p.c2)];
    assert ParseBounds(second) == Some([p.c2]) by {
      assert second[1..] == [];
      assert ParseBounds(second[1..]) == Some([]);
      assert ParseUnsigned(second[0], U32_LIMIT) == Some(p.c2);
      assert [p.c2] + [] == [p.c2];
    }
    assert fields[1..] == second;
    assert ParseUnsigned(fields[0], U32_LIMIT) == Some(p.c1);
    assert [p.c1] + [p.c2] == [p.c1, p.c2];
    assert ParseBounds(fields) == Some([p.c1, p.c2]);
  }

  /** Occurrences of `c` in `s`. */
  function Occurrences(s: string, c: char): nat
  {
    CountWhere(s, x => x == c)
  }

  /** The character tally the old policy folds the password into: a map from each
      character of `s` to its number of occurrences. */
  function Tally(s: string): (m: map<char, nat>)
  {
    if s == [] then map[]
    else
      var m := Tally(s[..|s| - 1]);
      var c := s[|s| - 1];
      m[c := if c in m then m[c] + 1 else 1]
  }

  /** The tally has exactly the password's characters as keys, each mapped to its
      number of occurrences. */
  lemma {:induction false} TallyCounts(s: string, c: char)
    ensures c in Tally(s) <==> c in s
    ensures c in Tally(s) ==> Tally(s)[c] == Occurrences(s, c)
    decreases |s|
  {
    if s != [] {
      var init := s[..|s| - 1];
      var last := s[|s| - 1];
      TallyCounts(init, c);
      assert s == init + [last];
      CountWhereAppend(init, [last], x => x == c);
      assert CountWhere([last], x => x == c) == (if last == c then 1 else 0) by {
        assert [last][1..] == [];
      }
      assert c in s <==> c in init || c == last;
      CountWherePositive(init, x => x == c);
    }
  }

  /** `old_policy_comply`: the character occurs, and its tally is within the bounds. */
  function OldPolicy(p: Policy): bool
  {
    var tally := Tally(p.password);
    p.character in tally && p.c1 <= tally[p.character] <= p.c2
  }

  /** The old policy holds iff the character occurs between `c1` and `c2` times
      (and at least once, even when `c1` is 0). */
  lemma OldPolicyCounts(p: Policy)
    ensures OldPolicy(p) <==>
      0 < Occurrences(p.password, p.character) && p.c1 <= Occurrences(p.password, p.character) <= p.c2
  {
    TallyCounts(p.password, p.character);
    CountWherePositive(p.password, x => x == p.character);
  }

  /** `chars().nth(n)`. */
  function Nth(s: string, n: nat): (r: Option<char>)
    ensures r.Some? <==> n < |s|
    ensures r.Some? ==> r.value == s[n]
  {
    if n < |s| then Some(s[n]) else None
  }

  /** The 1-based position `pos` of `s` exists and holds `c`. */
  predicate HoldsAt(s: string, pos: nat, c: char)
  {
    1 <= pos <= |s| && s[pos - 1] == c
  }

  /** `new_policy_comply`: `c1 - 1` and `c2 - 1` are `u32` subtractions that
      panic for a bound of 0 (`None`); otherwise exactly one of the two
      positions must hold the character, and a position past the end holds
      nothing. */
  function NewPolicy(p: Policy): (r: Option<bool>)
    ensures r.None? <==> p.c1 == 0 || p.c2 == 0
    ensures r.Some? ==>
      (r.value <==> HoldsAt(p.password, p.c1, p.character) != HoldsAt(p.password, p.c2, p.character))
  {
    if p.c1 == 0 || p.c2 == 0 then None
    else
      var opt1 := Nth(p.password, p.c1 - 1);
      var opt2 := Nth(p.password, p.c2 - 1);
      var want := Some(p.character);
      Some((opt1 == want && opt2 != want) || (opt1 != want && opt2 == want))
  }

  /** Every line parsed; a line that does not parse panics, modelled as `None`. */
  function ParseAll(lines: seq<string>): (r: Option<seq<Policy>>)
    ensures r.Some? <==> forall k :: 0 <= k < |lines| ==> ParsePolicy(lines[k]).Some?
    ensures r.Some? ==> |r.value| == |lines| && forall k :: 0 <= k < |lines| ==>
      Some(r.value[k]) == ParsePolicy(lines[k])
  {
    if lines == [] then Some([])
    else
      match ParsePolicy(lines[0])
      case None => None
      case Some(p) =>
        match ParseAll(lines[1..])
        case None => None
        case Some(rest) => Some([p] + rest)
  }

  /** `part1`: the number of lines satisfying the old policy. */
  function Part1(lines: seq<string>): (r: Option<nat>)
    ensures r.Some? <==> forall k :: 0 <= k < |lines| ==> ParsePolicy(lines[k]).Some?
    ensures r.Some? ==> r.value <= |lines|
  {
    match ParseAll(lines)
    case None => None
    case Some(policies) => Some(CountWhere(policies, OldPolicy))
  }

  /** The old policy's verdict, stated through occurrence counts. */
  predicate OccursWithin(p: Policy)
  {
    0 < Occurrences(p.password, p.character) && p.c1 <= Occurrences(p.password, p.character) <= p.c2
  }

  /** Part 1 counts exactly the lines whose character occurs, between `c1` and
      `c2` times. */
  lemma Part1Counts(lines: seq<string>)
    requires Part1(lines).Some?
    ensures Part1(lines).value == CountWhere(ParseAll(lines).value, OccursWithin)
  {
    var policies := ParseAll(lines).value;
    forall k | 0 <= k < |policies|
      ensures OldPolicy(policies[k]) == OccursWithin(policies[k])
    {
      OldPolicyCounts(policies[k]);
    }
    CountWhereSame(policies, OldPolicy, OccursWithin);
  }

  /** The new policy's check on `p` succeeds and holds. */
  predicate NewHolds(p: Policy)
  {
    NewPolicy(p) == Some(true)
  }

  /** `part2`: the number of lines satisfying the new policy; a line whose check
      panics makes it `None`. */
  function Part2(lines: seq<string>): (r: Option<nat>)
    ensures r.Some? <==> (ParseAll(lines).Some? &&
      forall k :: 0 <= k < |lines| ==> ParseAll(lines).value[k].c1 > 0 && ParseAll(lines).value[k].c2 > 0)
    ensures r.Some? ==> r.value <= |lines|
  {
    match ParseAll(lines)
    case None => None
    case Some(policies) =>
      if forall k :: 0 <= k < |policies| ==> NewPolicy(policies[k]).Some? then
        Some(CountWhere(policies, NewHolds))
      else None
  }

  /** The new policy's verdict, stated through positions. */
  predicate HoldsAtOne(p: Policy)
  {
    HoldsAt(p.password, p.c1, p.character) != HoldsAt(p.password, p.c2, p.character)
  }

  /** Part 2 counts exactly the lines with the character at one of the two positions. */
  lemma Part2Counts(lines: seq<string>)
    requires Part2(lines).Some?
    ensures Part2(lines).value == CountWhere(ParseAll(lines).value, HoldsAtOne)
  {
    var policies := ParseAll(lines).value;
    CountWhereSame(policies, NewHolds, HoldsAtOne);
  }
}
