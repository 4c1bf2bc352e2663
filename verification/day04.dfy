/** Day 4: passports. Lines of `key:value` entries form groups that end at a
    blank line; part 1 wants the seven required keys, part 2 also validates
    their values. The regular expressions of the source are written out as
    character-level predicates, with `\d` read as an ASCII digit. */
module Day04 {
  import opened Wrappers
  import opened Seqs
  import opened Decimal

  const REQUIRED_FIELDS: set<string> := {"byr", "iyr", "eyr", "hgt", "hcl", "ecl", "pid"}

  /** The groups the scan over the lines closes: each blank line ends the group
      of the lines since the previous blank line (possibly none). Lines after
      the last blank line never reach a blank line and form no group. */
  function Groups(lines: seq<string>): seq<seq<string>>
    decreases |lines|
  {
    var i := BlankIndex(lines);
    if i == |lines| then [] else [lines[..i]] + Groups(lines[i + 1..])
  }

  /** Index of the first blank line, or `|lines|`. */
  function BlankIndex(lines: seq<string>): (i: nat)
    ensures i <= |lines|
    ensures i < |lines| ==> lines[i] == []
  {
    if lines == [] then 0 else if lines[0] == [] then 0 else 1 + BlankIndex(lines[1..])
  }

  /** No line before the first blank line is blank. */
  lemma {:induction false} BlankIndexFirst(lines: seq<string>, k: nat)
    requires k < BlankIndex(lines)
    ensures lines[k] != []
  {
    if k > 0 {
      BlankIndexFirst(lines[1..], k - 1);
    }
  }

  /** No closed group holds a blank line. */
  lemma {:induction false} GroupsNonBlank(lines: seq<string>)
    ensures forall g, k :: 0 <= g < |Groups(lines)| && 0 <= k < |Groups(lines)[g]| ==> Groups(lines)[g][k] != []
    decreases |lines|
  {
    var i := BlankIndex(lines);
    if i < |lines| {
      var tail := lines[i + 1..];
      GroupsNonBlank(tail);
      GroupsStep(lines);
      forall k | 0 <= k < i
        ensures lines[..i][k] != []
      {
        BlankIndexFirst(lines, k);
      }
    }
  }

  /** Each group followed by its closing blank line. */
  function Terminated(groups: seq<seq<string>>): seq<string>
  {
    if groups == [] then [] else groups[0] + [[]] + Terminated(groups[1..])
  }

  /** Writing groups out, each closed by a blank line, and reading them back gives
      the groups. */
  lemma {:induction false} GroupsTerminated(groups: seq<seq<string>>)
    requires forall g :: 0 <= g < |groups| ==> forall k :: 0 <= k < |groups[g]| ==> groups[g][k] != []
    ensures Groups(Terminated(groups)) == groups
  {
    if groups != [] {
      var lines := Terminated(groups);
      var rest := Terminated(groups[1..]);
      assert lines == groups[0] + [[]] + rest;
      BlankAfter(groups[0], rest);
      assert lines[..|groups[0]|] == groups[0];
      assert lines[|groups[0]| + 1..] == rest;
      GroupsTerminated(groups[1..]);
    }
  }

  lemma {:induction false} BlankAfter(group: seq<string>, rest: seq<string>)
    requires forall k :: 0 <= k < |group| ==> group[k] != []
    ensures BlankIndex(group + [[]] + rest) == |group|
  {
    if group != [] {
      assert (group + [[]] + rest)[1..] == group[1..] + [[]] + rest;
      BlankAfter(group[1..], rest);
    }
  }

  /** One past the last blank line, or 0 when there is none. */
  function GroupsEnd(lines: seq<string>): (n: nat)
    ensures n <= |lines|
    decreases |lines|
  {
    var i := BlankIndex(lines);
    if i == |lines| then 0 else i + 1 + GroupsEnd(lines[i + 1..])
  }

  /** No line after the end of the last group is blank. */
  lemma {:induction false} GroupsEndLast(lines: seq<string>, k: nat)
    requires GroupsEnd(lines) <= k < |lines|
    ensures lines[k] != []
    decreases |lines|
  {
    var i := BlankIndex(lines);
    if i == |lines| {
      BlankIndexFirst(lines, k);
    } else {
      var tail := lines[i + 1..];
      GroupsStep(lines);
      GroupsEndLast(tail, k - i - 1);
      assert tail[k - i - 1] == lines[k];
    }
  }

  /** The groups written out are the lines up to the last blank line: the
      scan loses only the lines after it. */
  lemma {:induction false} TerminatedGroups(lines: seq<string>)
    ensures Terminated(Groups(lines)) == lines[..GroupsEnd(lines)]
    decreases |lines|
  {
    var i := BlankIndex(lines);
    if i < |lines| {
      var tail := lines[i + 1..];
      TerminatedGroups(tail);
      GroupsStep(lines);
      TerminatedCons(lines[..i], Groups(tail));
      PrefixThroughBlank(lines, i, GroupsEnd(tail));
    }
  }

  /** Past a blank line, the groups and their end come from the lines after it. */
  lemma {:induction false} GroupsStep(lines: seq<string>)
    requires BlankIndex(lines) < |lines|
    ensures Groups(lines) == [lines[..BlankIndex(lines)]] + Groups(lines[BlankIndex(lines) + 1..])
    ensures GroupsEnd(lines) == BlankIndex(lines) + 1 + GroupsEnd(lines[BlankIndex(lines) + 1..])
  {
  }

  lemma {:induction false} PrefixThroughBlank(lines: seq<string>, i: nat, n: nat)
    requires i < |lines| && lines[i] == [] && i + 1 + n <= |lines|
    ensures lines[..i] + [[]] + lines[i + 1..][..n] == lines[..i + 1 + n]
  {
    var left := lines[..i] + [[]] + lines[i + 1..][..n];
    assert |left| == i + 1 + n;
    forall k | 0 <= k < i + 1 + n
      ensures left[k] == lines[k]
    {
      if k > i {
        assert left[k] == lines[i + 1..][k - i - 1];
      }
    }
  }

  lemma {:induction false} TerminatedCons(group: seq<string>, groups: seq<seq<string>>)
    ensures Terminated([group] + groups) == group + [[]] + Terminated(groups)
  {
    assert ([group] + groups)[1..] == groups;
  }

  /** An entry `key:value`: the key is the text before the first ':', the value
      the text after the last one (the whole entry for both when there is no ':'). */
  function Entry(word: string): (string, string)
  {
    var fields := Split(word, ':');
    (fields[0], fields[|fields| - 1])
  }

  /** The entries of a group, line by line and word by word. */
  function Entries(group: seq<string>): seq<(string, string)>
  {
    if group == [] then [] else Entries(group[..|group| - 1]) + EntriesOf(Words(group[|group| - 1]))
  }

  function EntriesOf(words: seq<string>): (entries: seq<(string, string)>)
    ensures |entries| == |words|
    ensures forall k :: 0 <= k < |words| ==> entries[k] == Entry(words[k])
  {
    if words == [] then [] else [Entry(words[0])] + EntriesOf(words[1..])
  }

  /** The passport data: entries inserted in order, so a later entry with the
      same key replaces an earlier one. */
  function Data(entries: seq<(string, string)>): map<string, string>
  {
    if entries == [] then map[]
    else
      var last := entries[|entries| - 1];
      Data(entries[..|entries| - 1])[last.0 := last.1]
  }

  /** A key is in the data exactly when some entry has it. */
  lemma {:induction false} DataKeys(entries: seq<(string, string)>, key: string)
    ensures key in Data(entries) <==> exists i :: 0 <= i < |entries| && entries[i].0 == key
  {
    if entries != [] {
      var init := entries[..|entries| - 1];
      DataKeys(init, key);
      if exists i :: 0 <= i < |init| && init[i].0 == key {
        var i :| 0 <= i < |init| && init[i].0 == key;
        assert entries[i] == init[i];
      }
      if exists i :: 0 <= i < |entries| && entries[i].0 == key {
        var i :| 0 <= i < |entries| && entries[i].0 == key;
        if i < |init| {
          assert init[i] == entries[i];
        }
      }
    }
  }

  /** Each key's value in the data is the value of the last entry with that key. */
  lemma {:induction false} DataLastWins(entries: seq<(string, string)>, key: string)
    requires key in Data(entries)
    ensures exists i :: (0 <= i < |entries| && entries[i].0 == key &&
      Data(entries)[key] == entries[i].1 && forall j :: i < j < |entries| ==> entries[j].0 != key)
  {
    var init := entries[..|entries| - 1];
    var last := entries[|entries| - 1];
    if last.0 == key {
      assert Data(entries)[key] == last.1;
    } else {
      assert key in Data(init);
      DataLastWins(init, key);
      var i :| 0 <= i < |init| && init[i].0 == key && Data(init)[key] == init[i].1
        && forall j :: i < j < |init| ==> init[j].0 != key;
      assert entries[i] == init[i];
      assert forall j :: i < j < |entries| - 1 ==> entries[j] == init[j];
    }
  }

  /** The keys of a group's entries: the set part 1 collects. */
  function Keys(group: seq<string>): set<string>
  {
    set e | e in Entries(group) :: e.0
  }

  /** Part 1's key set is the key set of part 2's data. */
  lemma {:induction false} KeysAreDataKeys(group: seq<string>)
    ensures Keys(group) == Data(Entries(group)).Keys
  {
    var entries := Entries(group);
    forall key
      ensures key in Keys(group) <==> key in Data(entries)
    {
      DataKeys(entries, key);
      if key in Keys(group) {
        var e :| e in entries && e.0 == key;
      }
    }
  }

  /** Digits, after an optional '+', whose value lies in `[lo, hi]`. */
  predicate Numeral(data: string, lo: nat, hi: nat)
  {
    |data| > 0 && var body := if data[0] == '+' then data[1..] else data;
    body != [] && AllDigits(body) && lo <= DigitsValue(body) <= hi
  }

  /** `rule`: the text is a `u64` (an optional '+' and ASCII digits) within
      `[lo, hi]`. */
  function Rule(data: string, lo: nat, hi: nat): (r: bool)
    ensures r ==> Numeral(data, lo, hi)
    ensures hi < U64_LIMIT && Numeral(data, lo, hi) ==> r
  {
    match ParseUnsigned(data, U64_LIMIT)
    case Some(v) => lo <= v <= hi
    case None => false
  }

  /** Every number in range, written in decimal, passes the rule. */
  lemma {:induction false} RuleAccepts(n: nat, lo: nat, hi: nat)
    requires lo <= n <= hi < U64_LIMIT
    ensures Rule(ShowNat(n), lo, hi)
  {
    ParseShowNat(n, U64_LIMIT);
  }

  /** `^(\d{3})cm$|^(\d{2})in$`: the captured digits, and whether they are
      centimetres (the first alternative). */
  function HeightMatch(s: string): (r: Option<(string, bool)>)
    ensures r.Some? && r.value.1 <==> |s| == 5 && AllDigits(s[..3]) && s[3..] == "cm"
    ensures r.Some? && !r.value.1 <==> |s| == 4 && AllDigits(s[..2]) && s[2..] == "in"
    ensures r.Some? ==> AllDigits(r.value.0) && s == r.value.0 + (if r.value.1 then "cm" else "in")
  {
    if |s| == 5 && AllDigits(s[..3]) && s[3..] == "cm" then Some((s[..3], true))
    else if |s| == 4 && AllDigits(s[..2]) && s[2..] == "in" then Some((s[..2], false))
    else None
  }

  predicate IsHex(c: char)
  {
    '0' <= c <= '9' || 'a' <= c <= 'f'
  }

  /** `^#[0-9a-f]{6}$`. */
  predicate HairColor(s: string)
  {
    |s| == 7 && s[0] == '#' && forall k :: 1 <= k < 7 ==> IsHex(s[k])
  }

  const EYE_COLORS: set<string> := {"amb", "blu", "brn", "gry", "grn", "hzl", "oth"}

  /** `^\d{9}$`. */
  predicate PassportId(s: string)
  {
    |s| == 9 && AllDigits(s)
  }

  /** `valid`, called only once the required keys are present: the four pattern
      checks, the three year ranges, and the height range for its unit. */
  function Valid(data: map<string, string>): (r: bool)
    requires REQUIRED_FIELDS <= data.Keys
    ensures r ==> (HeightMatch(data["hgt"]).Some? && HairColor(data["hcl"]) &&
      data["ecl"] in EYE_COLORS && PassportId(data["pid"]))
  {
    var hgt := HeightMatch(data["hgt"]);
    if hgt.None? || !HairColor(data["hcl"]) || data["ecl"] !in EYE_COLORS || !PassportId(data["pid"]) then false
    else if !Rule(data["byr"], 1920, 2002) || !Rule(data["iyr"], 2010, 2020) || !Rule(data["eyr"], 2020, 2030) then false
    else if hgt.value.1 then Rule(hgt.value.0, 150, 193)
    else Rule(hgt.value.0, 59, 76)
  }

  /** A height within the rules: three digits for 150 to 193 followed by "cm",
      or two digits for 59 to 76 followed by "in". */
  predicate HeightInRange(s: string)
  {
    (|s| == 5 && AllDigits(s[..3]) && s[3..] == "cm" && 150 <= DigitsValue(s[..3]) <= 193)
    || (|s| == 4 && AllDigits(s[..2]) && s[2..] == "in" && 59 <= DigitsValue(s[..2]) <= 76)
  }

  /** Every check `valid` makes, each field on its own. */
  predicate PassportValid(data: map<string, string>)
    requires REQUIRED_FIELDS <= data.Keys
  {
    FieldsValid(data["byr"], data["iyr"], data["eyr"], data["hgt"], data["hcl"], data["ecl"], data["pid"])
  }

  predicate FieldsValid(byr: string, iyr: string, eyr: string, hgt: string, hcl: string, ecl: string, pid: string)
  {
    Rule(byr, 1920, 2002) && Rule(iyr, 2010, 2020) && Rule(eyr, 2020, 2030)
    && HeightInRange(hgt) && HairColor(hcl) && ecl in EYE_COLORS && PassportId(pid)
  }

  /** `valid` accepts exactly the data whose years are in their ranges, whose
      height is in the range of its unit, and whose hair colour, eye colour and
      id are well formed. */
  lemma {:induction false} ValidIff(data: map<string, string>)
    requires REQUIRED_FIELDS <= data.Keys
    ensures Valid(data) <==> PassportValid(data)
  {
    HeightRule(data["hgt"]);
  }

  /** The height check of `valid`, as the capture and the rule on it. */
  lemma {:induction false} HeightRule(s: string)
    ensures (HeightMatch(s).Some? && Rule(HeightMatch(s).value.0, if HeightMatch(s).value.1 then 150 else 59,
              if HeightMatch(s).value.1 then 193 else 76)) <==> HeightInRange(s)
  {
    if |s| == 5 && AllDigits(s[..3]) && s[3..] == "cm" {
      assert s[..3][0] != '+' by { assert IsDigit(s[..3][0]); }
    } else if |s| == 4 && AllDigits(s[..2]) && s[2..] == "in" {
      assert s[..2][0] != '+' by { assert IsDigit(s[..2][0]); }
    }
  }

  /** A passport in which every value is written plainly in range is valid,
      with the height in either unit. */
  lemma {:induction false} ValidWhenInRange(data: map<string, string>, byr: nat, iyr: nat, eyr: nat, height: nat, cm: bool)
    requires REQUIRED_FIELDS <= data.Keys
    requires 1920 <= byr <= 2002 && data["byr"] == ShowNat(byr)
    requires 2010 <= iyr <= 2020 && data["iyr"] == ShowNat(iyr)
    requires 2020 <= eyr <= 2030 && data["eyr"] == ShowNat(eyr)
    requires cm ==> 150 <= height <= 193 && data["hgt"] == ShowNat(height) + "cm"
    requires !cm ==> 59 <= height <= 76 && data["hgt"] == ShowNat(height) + "in"
    requires HairColor(data["hcl"]) && data["ecl"] in EYE_COLORS && PassportId(data["pid"])
    ensures Valid(data)
  {
    FieldsInRange(data["byr"], data["iyr"], data["eyr"], data["hgt"], byr, iyr, eyr, height, cm);
    ValidIff(data);
  }

  lemma {:induction false} FieldsInRange(byrs: string, iyrs: string, eyrs: string, hgt: string, byr: nat, iyr: nat, eyr: nat, height: nat, cm: bool)
    requires 1920 <= byr <= 2002 && byrs == ShowNat(byr)
    requires 2010 <= iyr <= 2020 && iyrs == ShowNat(iyr)
    requires 2020 <= eyr <= 2030 && eyrs == ShowNat(eyr)
    requires cm ==> 150 <= height <= 193 && hgt == ShowNat(height) + "cm"
    requires !cm ==> 59 <= height <= 76 && hgt == ShowNat(height) + "in"
    ensures Rule(byrs, 1920, 2002) && Rule(iyrs, 2010, 2020) && Rule(eyrs, 2020, 2030) && HeightInRange(hgt)
  {
    RuleAccepts(byr, 1920, 2002);
    RuleAccepts(iyr, 2010, 2020);
    RuleAccepts(eyr, 2020, 2030);
    HeightShown(hgt, height, cm);
  }

  /** A height written plainly in range passes the height check. */
  lemma {:induction false} HeightShown(s: string, height: nat, cm: bool)
    requires cm ==> 150 <= height <= 193 && s == ShowNat(height) + "cm"
    requires !cm ==> 59 <= height <= 76 && s == ShowNat(height) + "in"
    ensures HeightInRange(s)
  {
    DigitsValueShowNat(height);
    if cm {
      ShowNatLength3(height);
      assert s[..3] == ShowNat(height) && s[3..] == "cm";
    } else {
      ShowNatLength2(height);
      assert s[..2] == ShowNat(height) && s[2..] == "in";
    }
  }

  lemma {:induction false} ShowNatLength2(n: nat)
    requires 10 <= n < 100
    ensures |ShowNat(n)| == 2
  {
    assert ShowNat(n) == ShowNat(n / 10) + [DigitChar(n % 10)];
  }

  lemma {:induction false} ShowNatLength3(n: nat)
    requires 100 <= n < 1000
    ensures |ShowNat(n)| == 3
  {
    assert ShowNat(n) == ShowNat(n / 10) + [DigitChar(n % 10)];
    assert ShowNat(n / 10) == ShowNat(n / 100) + [DigitChar(n / 10 % 10)];
  }

  predicate HasRequired(group: seq<string>)
  {
    REQUIRED_FIELDS <= Keys(group)
  }

  predicate HasValidData(group: seq<string>)
  {
    KeysAreDataKeys(group);
    REQUIRED_FIELDS <= Keys(group) && Valid(Data(Entries(group)))
  }

  /** `part1`: the closed groups whose keys include the seven required ones. */
  function Part1(lines: seq<string>): (r: nat)
    ensures r <= |Groups(lines)|
  {
    CountWhere(Groups(lines), HasRequired)
  }

  /** `part2`: the closed groups that also pass `valid`. */
  function Part2(lines: seq<string>): (r: nat)
    ensures r <= Part1(lines)
  {
    CountAtMost(Groups(lines), HasValidData, HasRequired);
    CountWhere(Groups(lines), HasValidData)
  }

  /** The groups that hold the required keys and pass every check of `valid`. */
  predicate ValidGroup(group: seq<string>)
  {
    KeysAreDataKeys(group);
    HasRequired(group) && PassportValid(Data(Entries(group)))
  }

  /** Part 1 of passports written out, each closed by a blank line, counts the
      passports whose keys include the seven required ones. */
  lemma {:induction false} Part1Counts(groups: seq<seq<string>>)
    requires forall g :: 0 <= g < |groups| ==> forall k :: 0 <= k < |groups[g]| ==> groups[g][k] != []
    ensures Part1(Terminated(groups)) == CountWhere(groups, HasRequired)
  {
    GroupsTerminated(groups);
  }

  /** Part 2 of passports written out, each closed by a blank line, counts the
      passports that hold the required keys and pass every field check. */
  lemma {:induction false} Part2Counts(groups: seq<seq<string>>)
    requires forall g :: 0 <= g < |groups| ==> forall k :: 0 <= k < |groups[g]| ==> groups[g][k] != []
    ensures Part2(Terminated(groups)) == CountWhere(groups, ValidGroup)
  {
    GroupsTerminated(groups);
    forall i | 0 <= i < |groups|
      ensures HasValidData(groups[i]) == ValidGroup(groups[i])
    {
      KeysAreDataKeys(groups[i]);
      if HasRequired(groups[i]) {
        ValidIff(Data(Entries(groups[i])));
      }
    }
    CountWhereSame(groups, HasValidData, ValidGroup);
  }

  /** Counting with a stronger predicate counts no more. */
  lemma {:induction false} CountAtMost(s: seq<seq<string>>, p: seq<string> -> bool, q: seq<string> -> bool)
    requires forall k :: 0 <= k < |s| ==> p(s[k]) ==> q(s[k])
    ensures CountWhere(s, p) <= CountWhere(s, q)
  {
    if s != [] {
      CountAtMost(s[1..], p, q);
    }
  }
}
