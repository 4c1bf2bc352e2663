/** Day 19: monster messages. Rules are single characters, sequences of
    rule numbers, or a choice between two sequences. A message is matched
    by a backtracking stack machine: the stack holds the rule numbers still
    to match (its top is the last element), a character rule consumes one
    character, a sequence is pushed in reverse, and a choice tries both
    sequences on copies of the stack. */
module Day19 {
  import opened Wrappers
  import opened Seqs
  import opened Decimal

  // -------------------------------------------------------------- rules

  datatype Rule = Unit(c: char) | SubRules(subs: seq<nat>) | Or(first: seq<nat>, second: seq<nat>)

  type Rules = map<nat, Rule>

  /** Every sequence in a rule names at least one rule. */
  predicate WellFormedRule(r: Rule)
  {
    match r
    case Unit(_) => true
    case SubRules(xs) => xs != []
    case Or(a, b) => a != [] && b != []
  }

  predicate WellFormed(rules: Rules)
  {
    forall n :: n in rules ==> WellFormedRule(rules[n])
  }

  // -------------------------------------------------------------- parsing

  /** `atoi`: a `usize` on a 64-bit target; anything else panics. */
  function Atoi(s: string): Option<nat>
  {
    ParseUnsigned(s, U64_LIMIT)
  }

  /** `map(atoi).collect()`: every part read, or a panic. */
  function AtoiAll(parts: seq<string>): (r: Option<seq<nat>>)
    ensures r.Some? <==> forall k :: 0 <= k < |parts| ==> Atoi(parts[k]).Some?
    ensures r.Some? ==> |r.value| == |parts|
    ensures r.Some? ==> forall k :: 0 <= k < |parts| ==> Atoi(parts[k]) == Some(r.value[k])
  {
    if parts == [] then Some([])
    else
      match (Atoi(parts[0]), AtoiAll(parts[1..]))
      case (Some(n), Some(ns)) => Some([n] + ns)
      case _ => None
  }

  /** A space-separated list of rule numbers; never empty when read. */
  function Numbers(s: string): (r: Option<seq<nat>>)
    ensures r.Some? ==> r.value != []
  {
    AtoiAll(Split(s, ' '))
  }

  /** The alternatives of a choice, each read as a list of numbers. */
  function NumbersEach(alts: seq<string>): (r: Option<seq<seq<nat>>>)
    ensures r.Some? <==> forall k :: 0 <= k < |alts| ==> Numbers(alts[k]).Some?
    ensures r.Some? ==> |r.value| == |alts|
    ensures r.Some? ==> forall k :: 0 <= k < |alts| ==> Numbers(alts[k]) == Some(r.value[k])
  {
    if alts == [] then Some([])
    else
      match (Numbers(alts[0]), NumbersEach(alts[1..]))
      case (Some(x), Some(xs)) => Some([x] + xs)
      case _ => None
  }

  /** `parse_rule`: a body with a quote is the character after the opening
      quote; a body with a bar is a choice of its first two alternatives
      (all of them must read); anything else is a sequence. Bodies that do
      not read panic. */
  function ParseRule(body: string): (r: Option<Rule>)
    ensures r.Some? ==> WellFormedRule(r.value)
  {
    if '"' in body then
      if |body| >= 2 then Some(Unit(body[1])) else None
    else if '|' in body then
      match NumbersEach(SplitText(body, " | "))
      case Some(groups) => if |groups| >= 2 then Some(Or(groups[0], groups[1])) else None
      case None => None
    else
      match Numbers(body)
      case Some(ns) => Some(SubRules(ns))
      case None => None
  }

  /** One line of `parse_rules`: the number before ": " and the rule after. */
  function ParseLine(line: string): (r: Option<(nat, Rule)>)
    ensures r.Some? ==> WellFormedRule(r.value.1)
    ensures r.Some? <==> var parts := SplitText(line, ": ");
      |parts| >= 2 && Atoi(parts[0]).Some? && ParseRule(parts[1]).Some?
    ensures r.Some? ==> var parts := SplitText(line, ": ");
      Atoi(parts[0]) == Some(r.value.0) && ParseRule(parts[1]) == Some(r.value.1)
  {
    var parts := SplitText(line, ": ");
    if |parts| < 2 then None
    else
      match (Atoi(parts[0]), ParseRule(parts[1]))
      case (Some(n), Some(r)) => Some((n, r))
      case _ => None
  }

  /** `collect` into a `HashMap`: the entries in order, a later entry
      replacing an earlier one with the same number; a missing entry is a
      line that panicked. */
  function Collect(entries: seq<Option<(nat, Rule)>>): (r: Option<Rules>)
    ensures r.Some? ==> forall n :: n in r.value ==> exists i :: 0 <= i < |entries| && entries[i] == Some((n, r.value[n]))
    decreases |entries|
  {
    if entries == [] then Some(map[])
    else
      var m := Collect(entries[..|entries| - 1]);
      var e := entries[|entries| - 1];
      if m.Some? && e.Some? then
        assert forall i :: 0 <= i < |entries| - 1 ==> entries[..|entries| - 1][i] == entries[i];
        Some(m.value[e.value.0 := e.value.1])
      else None
  }

  /** The map is built exactly when every line reads. */
  lemma {:induction false} CollectSome(entries: seq<Option<(nat, Rule)>>)
    ensures Collect(entries).Some? <==> forall i :: 0 <= i < |entries| ==> entries[i].Some?
    decreases |entries|
  {
    if entries != [] {
      var init := entries[..|entries| - 1];
      CollectSome(init);
      assert forall i :: 0 <= i < |init| ==> init[i] == entries[i];
    }
  }

  /** Each number holds the rule of the last entry with that number. */
  lemma {:induction false} CollectLastWins(entries: seq<Option<(nat, Rule)>>, i: nat)
    requires Collect(entries).Some? && i < |entries| && entries[i].Some?
    requires forall j :: i < j < |entries| && entries[j].Some? ==> entries[j].value.0 != entries[i].value.0
    ensures entries[i].value.0 in Collect(entries).value
    ensures Collect(entries).value[entries[i].value.0] == entries[i].value.1
    decreases |entries|
  {
    var init := entries[..|entries| - 1];
    if i < |entries| - 1 {
      assert forall j :: 0 <= j < |init| ==> init[j] == entries[j];
      CollectLastWins(init, i);
    }
  }

  /** `parse_rules`: every line read, then collected. */
  function ParseRules(lines: seq<string>): (r: Option<Rules>)
    ensures r.Some? ==> WellFormed(r.value)
  {
    var entries := seq(|lines|, i requires 0 <= i < |lines| => ParseLine(lines[i]));
    var r := Collect(entries);
    assert r.Some? ==> forall n :: n in r.value ==> WellFormedRule(r.value[n]) by {
      if r.Some? {
        forall n | n in r.value
          ensures WellFormedRule(r.value[n])
        {
          var i :| 0 <= i < |entries| && entries[i] == Some((n, r.value[n]));
        }
      }
    }
    r
  }

  // ------------------------------------------------------- writing rules

  /** Rule numbers separated by single spaces. */
  function ShowList(ns: seq<nat>): string
    requires ns != []
  {
    Join(ShowEach(ns), ' ')
  }

  /** The body of a rule as the puzzle input writes it. */
  function ShowRule(r: Rule): string
    requires WellFormedRule(r)
  {
    match r
    case Unit(c) => ['"', c, '"']
    case SubRules(xs) => ShowList(xs)
    case Or(a, b) => ShowList(a) + " | " + ShowList(b)
  }

  predicate InRange(ns: seq<nat>)
  {
    forall k :: 0 <= k < |ns| ==> ns[k] < U64_LIMIT
  }

  predicate RuleInRange(r: Rule)
  {
    match r
    case Unit(_) => true
    case SubRules(xs) => InRange(xs)
    case Or(a, b) => InRange(a) && InRange(b)
  }

  predicate DigitOrSpace(c: char)
  {
    IsDigit(c) || c == ' '
  }

  lemma ShowListChars(ns: seq<nat>)
    requires ns != []
    ensures forall m :: 0 <= m < |ShowList(ns)| ==> DigitOrSpace(ShowList(ns)[m])
  {
    JoinChars(ShowEach(ns), ' ', DigitOrSpace);
  }

  lemma {:induction false} AtoiAllShowEach(ns: seq<nat>)
    requires InRange(ns)
    ensures AtoiAll(ShowEach(ns)) == Some(ns)
  {
    if ns != [] {
      ParseShowNat(ns[0], U64_LIMIT);
      assert ShowEach(ns)[1..] == ShowEach(ns[1..]);
      AtoiAllShowEach(ns[1..]);
      assert [ns[0]] + ns[1..] == ns;
    }
  }

  /** A written list of numbers reads back as the list. */
  lemma NumbersShowList(ns: seq<nat>)
    requires ns != [] && InRange(ns)
    ensures Numbers(ShowList(ns)) == Some(ns)
  {
    forall k | 0 <= k < |ShowEach(ns)|
      ensures ' ' !in ShowEach(ns)[k]
    {
      var s := ShowEach(ns)[k];
      assert AllDigits(s);
      assert forall m :: 0 <= m < |s| ==> s[m] != ' ';
    }
    SplitJoin(ShowEach(ns), ' ');
    AtoiAllShowEach(ns);
  }

  /** No occurrence of `pat` in `s` when `s` lacks one of its characters. */
  /** " | " first occurs after a text without a bar. */
  lemma BarFirst(a: string, b: string)
    requires '|' !in a
    ensures forall k :: 0 <= k < |a| ==> !OccursAt(a + " | " + b, " | ", k)
  {
    var s := a + " | " + b;
    forall k | 0 <= k < |a|
      ensures !OccursAt(s, " | ", k)
    {
      assert s[k..k + 3][1] == s[k + 1];
      if k + 1 < |a| {
        assert s[k + 1] == a[k + 1];
      } else {
        assert s[k + 1] == ' ';
      }
    }
  }

  /** ": " first occurs after a text without a colon. */
  lemma ColonFirst(a: string, b: string)
    requires ':' !in a
    ensures forall k :: 0 <= k < |a| ==> !OccursAt(a + ": " + b, ": ", k)
  {
    var s := a + ": " + b;
    forall k | 0 <= k < |a|
      ensures !OccursAt(s, ": ", k)
    {
      assert s[k..k + 2][0] == s[k] == a[k];
    }
  }

  /** A written list holds no quote, bar or colon. */
  lemma ShowListPlain(ns: seq<nat>)
    requires ns != []
    ensures '"' !in ShowList(ns) && '|' !in ShowList(ns) && ':' !in ShowList(ns)
  {
    ShowListChars(ns);
  }

  /** A written choice holds no quote and no colon, but a bar. */
  lemma ShowOrPlain(a: seq<nat>, b: seq<nat>)
    requires a != [] && b != []
    ensures var s := ShowList(a) + " | " + ShowList(b);
      '"' !in s && ':' !in s && s[|ShowList(a)| + 1] == '|'
  {
    ShowListPlain(a);
    ShowListPlain(b);
  }

  /** `parse_rule` reads a written rule back. */
  lemma ParseShowRule(r: Rule)
    requires WellFormedRule(r) && RuleInRange(r)
    ensures ParseRule(ShowRule(r)) == Some(r)
  {
    match r
    case Unit(c) =>
      assert ShowRule(r)[0] == '"';
    case SubRules(xs) =>
      ShowListPlain(xs);
      NumbersShowList(xs);
    case Or(a, b) =>
      ShowOrPlain(a, b);
      SplitShowOr(a, b);
      NumbersShowOr(a, b);
  }

  /** A written choice splits at its bar into its two written lists ... */
  lemma SplitShowOr(a: seq<nat>, b: seq<nat>)
    requires a != [] && b != []
    ensures SplitText(ShowList(a) + " | " + ShowList(b), " | ") == [ShowList(a), ShowList(b)]
  {
    var sa := ShowList(a);
    var sb := ShowList(b);
    ShowListPlain(a);
    ShowListPlain(b);
    BarFirst(sa, sb);
    SplitFirst(sa, " | ", sb);
    Absent(sb, " | ", 1);
    SplitAbsent(sb, " | ");
  }

  /** ... which read back as the two lists. */
  lemma NumbersShowOr(a: seq<nat>, b: seq<nat>)
    requires a != [] && b != [] && InRange(a) && InRange(b)
    ensures NumbersEach([ShowList(a), ShowList(b)]) == Some([a, b])
  {
    NumbersShowList(a);
    NumbersShowList(b);
    var alts := [ShowList(a), ShowList(b)];
    assert forall k :: 0 <= k < |alts| ==> Numbers(alts[k]).Some? by {
      forall k | 0 <= k < |alts| ensures Numbers(alts[k]).Some? {
        if k == 0 { assert alts[k] == ShowList(a); } else { assert alts[k] == ShowList(b); }
      }
    }
    var r := NumbersEach(alts);
    assert |r.value| == 2 && Numbers(alts[0]) == Some(r.value[0]) && Numbers(alts[1]) == Some(r.value[1]);
    assert r.value == [a, b];
  }

  /** A written rule holds no ": ". */
  lemma ShowRuleNoColon(r: Rule)
    requires WellFormedRule(r)
    ensures forall k :: 0 <= k < |ShowRule(r)| ==> !OccursAt(ShowRule(r), ": ", k)
  {
    match r
    case Unit(c) =>
      var s := ShowRule(r);
      forall k | 0 <= k < 3
        ensures !OccursAt(s, ": ", k)
      {
        if k < 2 {
          assert s[k..k + 2][0] == s[k] && s[k..k + 2][1] == s[k + 1];
        }
      }
    case SubRules(xs) =>
      ShowListPlain(xs);
      Absent(ShowRule(r), ": ", 0);
    case Or(a, b) =>
      ShowOrPlain(a, b);
      Absent(ShowRule(r), ": ", 0);
  }

  /** A written rule line, "n: body", reads back as its number and rule. */
  lemma ParseShowLine(n: nat, r: Rule)
    requires n < U64_LIMIT && WellFormedRule(r) && RuleInRange(r)
    ensures ParseLine(ShowNat(n) + ": " + ShowRule(r)) == Some((n, r))
  {
    var sn := ShowNat(n);
    assert forall m :: 0 <= m < |sn| ==> IsDigit(sn[m]);
    ColonFirst(sn, ShowRule(r));
    SplitFirst(sn, ": ", ShowRule(r));
    ShowRuleNoColon(r);
    SplitAbsent(ShowRule(r), ": ");
    ParseShowNat(n, U64_LIMIT);
    ParseShowRule(r);
  }

  // ------------------------------------------------------------ matching

  /** `match_sub_rules` pushes the sequence in reverse. */
  function Push(stack: seq<nat>, xs: seq<nat>): seq<nat>
  {
    stack + Reverse(xs)
  }

  /** So the first rule of the sequence is on top, the rest of it below. */
  lemma PushCons(stack: seq<nat>, xs: seq<nat>)
    requires xs != []
    ensures Push(stack, xs) == Push(stack, xs[1..]) + [xs[0]]
  {
    ReverseCons(xs);
  }

  /** `is_match` with a bound on the recursion depth; `None` is a panic
      (a rule number without a rule) or an exhausted bound. An empty stack
      with an empty message matches, and either one empty alone does not. */
  function Match(rules: Rules, message: string, stack: seq<nat>, fuel: nat): (r: Option<bool>)
    ensures WellFormed(rules) && |stack| > |message| ==> r != Some(true)
    decreases fuel
  {
    if stack == [] && message == [] then Some(true)
    else if stack == [] || message == [] then Some(false)
    else if fuel == 0 then None
    else
      var n := stack[|stack| - 1];
      var rest := stack[..|stack| - 1];
      if n !in rules then None
      else
        match rules[n]
        case Unit(c) =>
          if message[0] == c then Match(rules, message[1..], rest, fuel - 1) else Some(false)
        case SubRules(xs) => Match(rules, message, Push(rest, xs), fuel - 1)
        case Or(a, b) =>
          match Match(rules, message, Push(rest, a), fuel - 1)
          case Some(true) => Some(true)
          case Some(false) => Match(rules, message, Push(rest, b), fuel - 1)
          case None => None
  }

  /** More depth never changes an answer already given. */
  lemma {:induction false} MatchFuel(rules: Rules, message: string, stack: seq<nat>, fuel: nat, more: nat)
    requires fuel <= more && Match(rules, message, stack, fuel).Some?
    ensures Match(rules, message, stack, more) == Match(rules, message, stack, fuel)
    decreases fuel
  {
    if stack != [] && message != [] {
      var n := stack[|stack| - 1];
      var rest := stack[..|stack| - 1];
      match rules[n]
      case Unit(c) =>
        if message[0] == c {
          MatchFuel(rules, message[1..], rest, fuel - 1, more - 1);
        }
      case SubRules(xs) =>
        MatchFuel(rules, message, Push(rest, xs), fuel - 1, more - 1);
      case Or(a, b) =>
        MatchFuel(rules, message, Push(rest, a), fuel - 1, more - 1);
        if Match(rules, message, Push(rest, a), fuel - 1) == Some(false) {
          MatchFuel(rules, message, Push(rest, b), fuel - 1, more - 1);
        }
    }
  }

  // ------------------------------------------------------------ grammar

  /** `w` derives from rule `n` by a derivation at most `d` deep. */
  ghost predicate InRule(rules: Rules, n: nat, w: string, d: nat)
    decreases d, 0, 0
  {
    d > 0 && n in rules &&
    match rules[n]
    case Unit(c) => w == [c]
    case SubRules(xs) => InSeq(rules, xs, w, d - 1)
    case Or(a, b) => InSeq(rules, a, w, d - 1) || InSeq(rules, b, w, d - 1)
  }

  /** `w` is the concatenation of texts derived from the rules `xs`, in order. */
  ghost predicate InSeq(rules: Rules, xs: seq<nat>, w: string, d: nat)
    decreases d, 1, |xs|
  {
    if xs == [] then w == []
    else exists i :: 0 <= i <= |w| && InRule(rules, xs[0], w[..i], d) && InSeq(rules, xs[1..], w[i..], d)
  }

  /** `w` derives from the stack read from its top down. */
  ghost predicate InStack(rules: Rules, stack: seq<nat>, w: string, d: nat)
    decreases |stack|
  {
    if stack == [] then w == []
    else
      exists i :: 0 <= i <= |w| && InRule(rules, stack[|stack| - 1], w[..i], d)
        && InStack(rules, stack[..|stack| - 1], w[i..], d)
  }

  ghost predicate Derives(rules: Rules, stack: seq<nat>, w: string)
  {
    exists d :: InStack(rules, stack, w, d)
  }

  lemma {:induction false} InRuleMono(rules: Rules, n: nat, w: string, d: nat, e: nat)
    requires d <= e && InRule(rules, n, w, d)
    ensures InRule(rules, n, w, e)
    decreases d, 0, 0
  {
    match rules[n]
    case Unit(_) =>
    case SubRules(xs) => InSeqMono(rules, xs, w, d - 1, e - 1);
    case Or(a, b) =>
      if InSeq(rules, a, w, d - 1) {
        InSeqMono(rules, a, w, d - 1, e - 1);
      } else {
        InSeqMono(rules, b, w, d - 1, e - 1);
      }
  }

  lemma {:induction false} InSeqMono(rules: Rules, xs: seq<nat>, w: string, d: nat, e: nat)
    requires d <= e && InSeq(rules, xs, w, d)
    ensures InSeq(rules, xs, w, e)
    decreases d, 1, |xs|
  {
    if xs != [] {
      var i :| 0 <= i <= |w| && InRule(rules, xs[0], w[..i], d) && InSeq(rules, xs[1..], w[i..], d);
      InRuleMono(rules, xs[0], w[..i], d, e);
      InSeqMono(rules, xs[1..], w[i..], d, e);
    }
  }

  lemma {:induction false} InStackMono(rules: Rules, stack: seq<nat>, w: string, d: nat, e: nat)
    requires d <= e && InStack(rules, stack, w, d)
    ensures InStack(rules, stack, w, e)
    decreases |stack|
  {
    if stack != [] {
      var top := stack[|stack| - 1];
      var rest := stack[..|stack| - 1];
      var i :| 0 <= i <= |w| && InRule(rules, top, w[..i], d) && InStack(rules, rest, w[i..], d);
      InRuleMono(rules, top, w[..i], d, e);
      InStackMono(rules, rest, w[i..], d, e);
    }
  }

  /** A pushed sequence derives a prefix, the stack below the rest ... */
  lemma {:induction false} PushSplit(rules: Rules, stack: seq<nat>, xs: seq<nat>, w: string, d: nat)
    requires InStack(rules, Push(stack, xs), w, d)
    ensures exists i :: 0 <= i <= |w| && InSeq(rules, xs, w[..i], d) && InStack(rules, stack, w[i..], d)
    decreases |xs|
  {
    if xs == [] {
      assert Push(stack, xs) == stack;
      assert w[..0] == [] && w[0..] == w;
    } else {
      PushCons(stack, xs);
      var p := Push(stack, xs);
      assert p[|p| - 1] == xs[0] && p[..|p| - 1] == Push(stack, xs[1..]);
      var j :| 0 <= j <= |w| && InRule(rules, xs[0], w[..j], d) && InStack(rules, Push(stack, xs[1..]), w[j..], d);
      PushSplit(rules, stack, xs[1..], w[j..], d);
      var k :| 0 <= k <= |w[j..]| && InSeq(rules, xs[1..], w[j..][..k], d) && InStack(rules, stack, w[j..][k..], d);
      var i := j + k;
      assert w[..i][..j] == w[..j] && w[..i][j..] == w[j..][..k];
      InSeqIntro(rules, xs, w[..i], j, d);
      assert w[i..] == w[j..][k..];
    }
  }

  /** The split that a derivation of a nonempty list makes. */
  lemma InSeqElim(rules: Rules, xs: seq<nat>, w: string, d: nat) returns (i: nat)
    requires xs != [] && InSeq(rules, xs, w, d)
    ensures i <= |w| && InRule(rules, xs[0], w[..i], d) && InSeq(rules, xs[1..], w[i..], d)
  {
    i :| 0 <= i <= |w| && InRule(rules, xs[0], w[..i], d) && InSeq(rules, xs[1..], w[i..], d);
  }

  lemma InSeqIntro(rules: Rules, xs: seq<nat>, w: string, i: nat, d: nat)
    requires xs != [] && i <= |w| && InRule(rules, xs[0], w[..i], d) && InSeq(rules, xs[1..], w[i..], d)
    ensures InSeq(rules, xs, w, d)
  {
  }

  lemma InStackIntro(rules: Rules, stack: seq<nat>, w: string, i: nat, d: nat)
    requires stack != [] && i <= |w|
    requires InRule(rules, stack[|stack| - 1], w[..i], d) && InStack(rules, stack[..|stack| - 1], w[i..], d)
    ensures InStack(rules, stack, w, d)
  {
  }

  /** ... and conversely. */
  lemma {:induction false} PushJoin(rules: Rules, stack: seq<nat>, xs: seq<nat>, w: string, i: nat, d: nat)
    requires i <= |w| && InSeq(rules, xs, w[..i], d) && InStack(rules, stack, w[i..], d)
    ensures InStack(rules, Push(stack, xs), w, d)
    decreases |xs|
  {
    if xs == [] {
      assert Push(stack, xs) == stack;
      assert w[i..] == w;
    } else {
      PushCons(stack, xs);
      var p := Push(stack, xs);
      assert p[|p| - 1] == xs[0] && p[..|p| - 1] == Push(stack, xs[1..]);
      var u := w[..i];
      var j := InSeqElim(rules, xs, u, d);
      var v := w[j..];
      assert v[..i - j] == u[j..] && v[i - j..] == w[i..];
      PushJoin(rules, stack, xs[1..], v, i - j, d);
      assert u[..j] == w[..j];
      InStackIntro(rules, p, w, j, d);
    }
  }

  /** With well-formed rules, no rule derives the empty text. */
  lemma {:induction false} InRuleNonEmpty(rules: Rules, n: nat, w: string, d: nat)
    requires WellFormed(rules) && InRule(rules, n, w, d)
    ensures w != []
    decreases d, 0, 0
  {
    match rules[n]
    case Unit(_) =>
    case SubRules(xs) => InSeqNonEmpty(rules, xs, w, d - 1);
    case Or(a, b) =>
      if InSeq(rules, a, w, d - 1) {
        InSeqNonEmpty(rules, a, w, d - 1);
      } else {
        InSeqNonEmpty(rules, b, w, d - 1);
      }
  }

  lemma {:induction false} InSeqNonEmpty(rules: Rules, xs: seq<nat>, w: string, d: nat)
    requires WellFormed(rules) && xs != [] && InSeq(rules, xs, w, d)
    ensures w != []
    decreases d, 1, |xs|
  {
    var i :| 0 <= i <= |w| && InRule(rules, xs[0], w[..i], d) && InSeq(rules, xs[1..], w[i..], d);
    InRuleNonEmpty(rules, xs[0], w[..i], d);
  }

  lemma InStackNonEmpty(rules: Rules, stack: seq<nat>, w: string, d: nat)
    requires WellFormed(rules) && stack != [] && InStack(rules, stack, w, d)
    ensures w != []
  {
    var i :| 0 <= i <= |w| && InRule(rules, stack[|stack| - 1], w[..i], d)
      && InStack(rules, stack[..|stack| - 1], w[i..], d);
    InRuleNonEmpty(rules, stack[|stack| - 1], w[..i], d);
  }

  /** Expanding the top rule into one of its sequences keeps what is
      derived, one level deeper. */
  lemma ExpandSound(rules: Rules, stack: seq<nat>, xs: seq<nat>, w: string, d: nat)
    requires stack != [] && stack[|stack| - 1] in rules
    requires var r := rules[stack[|stack| - 1]];
      r == SubRules(xs) || (r.Or? && (r.first == xs || r.second == xs))
    requires InStack(rules, Push(stack[..|stack| - 1], xs), w, d)
    ensures InStack(rules, stack, w, d + 1)
  {
    var rest := stack[..|stack| - 1];
    PushSplit(rules, rest, xs, w, d);
    var i :| 0 <= i <= |w| && InSeq(rules, xs, w[..i], d) && InStack(rules, rest, w[i..], d);
    InStackMono(rules, rest, w[i..], d, d + 1);
    assert InRule(rules, stack[|stack| - 1], w[..i], d + 1);
  }

  /** A match is a derivation of the message from the stack. */
  lemma {:induction false} MatchSound(rules: Rules, message: string, stack: seq<nat>, fuel: nat)
    requires Match(rules, message, stack, fuel) == Some(true)
    ensures Derives(rules, stack, message)
    decreases fuel
  {
    if stack == [] {
      assert InStack(rules, stack, message, 0);
    } else {
      var n := stack[|stack| - 1];
      var rest := stack[..|stack| - 1];
      match rules[n]
      case Unit(c) =>
        MatchSound(rules, message[1..], rest, fuel - 1);
        var d: nat :| InStack(rules, rest, message[1..], d);
        InStackMono(rules, rest, message[1..], d, d + 1);
        assert message[..1] == [c];
        assert InRule(rules, n, message[..1], d + 1);
        assert InStack(rules, stack, message, d + 1);
      case SubRules(xs) =>
        MatchSound(rules, message, Push(rest, xs), fuel - 1);
        var d: nat :| InStack(rules, Push(rest, xs), message, d);
        ExpandSound(rules, stack, xs, message, d);
      case Or(a, b) =>
        var xs := if Match(rules, message, Push(rest, a), fuel - 1) == Some(true) then a else b;
        MatchSound(rules, message, Push(rest, xs), fuel - 1);
        var d: nat :| InStack(rules, Push(rest, xs), message, d);
        ExpandSound(rules, stack, xs, message, d);
    }
  }

  /** With well-formed rules, a message that derives from the stack is
      matched whenever the matcher gives an answer. */
  lemma {:induction false} MatchComplete(rules: Rules, message: string, stack: seq<nat>, fuel: nat, d: nat)
    requires WellFormed(rules) && InStack(rules, stack, message, d)
    requires Match(rules, message, stack, fuel).Some?
    ensures Match(rules, message, stack, fuel) == Some(true)
    decreases fuel, 1
  {
    if stack != [] {
      InStackNonEmpty(rules, stack, message, d);
      var n := stack[|stack| - 1];
      var rest := stack[..|stack| - 1];
      var i :| 0 <= i <= |message| && InRule(rules, n, message[..i], d) && InStack(rules, rest, message[i..], d);
      match rules[n]
      case Unit(c) =>
        assert message[..i] == [c];
        assert i == 1 && message[0] == message[..i][0];
        MatchComplete(rules, message[1..], rest, fuel - 1, d);
      case SubRules(xs) =>
        MatchCompletePush(rules, message, rest, xs, i, fuel - 1, d);
      case Or(a, b) =>
        if InSeq(rules, a, message[..i], d - 1) {
          MatchCompletePush(rules, message, rest, a, i, fuel - 1, d);
        } else if Match(rules, message, Push(rest, a), fuel - 1) == Some(false) {
          MatchCompletePush(rules, message, rest, b, i, fuel - 1, d);
        }
    }
  }

  /** The step of `MatchComplete` that expands a rule into its sub-rules. */
  lemma {:induction false} MatchCompletePush(rules: Rules, message: string, rest: seq<nat>, xs: seq<nat>, i: nat, fuel: nat, d: nat)
    requires WellFormed(rules) && 1 <= d && i <= |message|
    requires InSeq(rules, xs, message[..i], d - 1) && InStack(rules, rest, message[i..], d)
    requires Match(rules, message, Push(rest, xs), fuel).Some?
    ensures Match(rules, message, Push(rest, xs), fuel) == Some(true)
    decreases fuel + 1, 0
  {
    InSeqMono(rules, xs, message[..i], d - 1, d);
    PushJoin(rules, rest, xs, message, i, d);
    MatchComplete(rules, message, Push(rest, xs), fuel, d);
  }

  /** The matcher's answer, when it gives one, says exactly whether the
      message derives from the stack. */
  lemma MatchExact(rules: Rules, message: string, stack: seq<nat>, fuel: nat)
    requires WellFormed(rules) && Match(rules, message, stack, fuel).Some?
    ensures Match(rules, message, stack, fuel).value <==> Derives(rules, stack, message)
  {
    if Match(rules, message, stack, fuel).value {
      MatchSound(rules, message, stack, fuel);
    } else if Derives(rules, stack, message) {
      var d: nat :| InStack(rules, stack, message, d);
      MatchComplete(rules, message, stack, fuel, d);
    }
  }

  // --------------------------------------------------------- part1, part2

  /** `filter(is_match(message, rules, [0])).count()`. */
  function CountMatches(rules: Rules, messages: seq<string>, fuel: nat): (r: Option<nat>)
    ensures r.Some? ==> r.value <= |messages|
    decreases |messages|
  {
    if messages == [] then Some(0)
    else
      match (CountMatches(rules, messages[..|messages| - 1], fuel), Match(rules, messages[|messages| - 1], [0], fuel))
      case (Some(k), Some(b)) => Some(if b then k + 1 else k)
      case _ => None
  }

  /** The positions of the messages that derive from rule 0. */
  ghost function Valid(rules: Rules, messages: seq<string>): set<nat>
  {
    set i: nat | i < |messages| && Derives(rules, [0], messages[i])
  }

  /** The count is the number of messages that derive from rule 0. */
  lemma {:induction false} CountMatchesExact(rules: Rules, messages: seq<string>, fuel: nat)
    requires WellFormed(rules) && CountMatches(rules, messages, fuel).Some?
    ensures CountMatches(rules, messages, fuel).value == |Valid(rules, messages)|
    decreases |messages|
  {
    if messages != [] {
      var init := messages[..|messages| - 1];
      var last := |messages| - 1;
      CountMatchesExact(rules, init, fuel);
      MatchExact(rules, messages[last], [0], fuel);
      ValidSnoc(rules, messages);
    }
  }

  lemma ValidSnoc(rules: Rules, messages: seq<string>)
    requires messages != []
    ensures var init := messages[..|messages| - 1];
      var last := |messages| - 1;
      Valid(rules, messages)
        == Valid(rules, init) + (if Derives(rules, [0], messages[last]) then {last} else {})
      && last !in Valid(rules, init)
  {
    var init := messages[..|messages| - 1];
    assert forall i :: 0 <= i < |init| ==> init[i] == messages[i];
  }

  /** `part1`: the number of messages that derive from rule 0. */
  function Part1(ruleLines: seq<string>, messages: seq<string>, fuel: nat): (r: Option<nat>)
    ensures ParseRules(ruleLines).None? ==> r.None?
    ensures r.Some? ==> ParseRules(ruleLines).Some? && r.value == |Valid(ParseRules(ruleLines).value, messages)|
  {
    match ParseRules(ruleLines)
    case Some(rules) =>
      var n := CountMatches(rules, messages, fuel);
      if n.Some? then CountMatchesExact(rules, messages, fuel); n else n
    case None => None
  }

  /** The rules of `part2`: 8 becomes "42 | 42 8", 11 becomes "42 31 | 42 11 31". */
  function Override(rules: Rules): (r: Rules)
    ensures WellFormed(rules) ==> WellFormed(r)
  {
    rules[8 := Or([42], [42, 8])][11 := Or([42, 31], [42, 11, 31])]
  }

  /** `part2`: the number of messages that derive from rule 0 once rules 8
      and 11 are replaced. */
  function Part2(ruleLines: seq<string>, messages: seq<string>, fuel: nat): (r: Option<nat>)
    ensures ParseRules(ruleLines).None? ==> r.None?
    ensures r.Some? ==> ParseRules(ruleLines).Some? && r.value == |Valid(Override(ParseRules(ruleLines).value), messages)|
  {
    match ParseRules(ruleLines)
    case Some(rules) =>
      var n := CountMatches(Override(rules), messages, fuel);
      if n.Some? then CountMatchesExact(Override(rules), messages, fuel); n else n
    case None => None
  }

  lemma Part1Exact(ruleLines: seq<string>, messages: seq<string>, fuel: nat)
    requires Part1(ruleLines, messages, fuel).Some?
    ensures ParseRules(ruleLines).Some?
    ensures Part1(ruleLines, messages, fuel).value == |Valid(ParseRules(ruleLines).value, messages)|
  {
    CountMatchesExact(ParseRules(ruleLines).value, messages, fuel);
  }

  lemma Part2Exact(ruleLines: seq<string>, messages: seq<string>, fuel: nat)
    requires Part2(ruleLines, messages, fuel).Some?
    ensures ParseRules(ruleLines).Some?
    ensures Part2(ruleLines, messages, fuel).value == |Valid(Override(ParseRules(ruleLines).value), messages)|
  {
    CountMatchesExact(Override(ParseRules(ruleLines).value), messages, fuel);
  }

  // ------------------------------------------------ the rules of part2

  ghost predicate DerivesRule(rules: Rules, n: nat, w: string)
  {
    exists d :: InRule(rules, n, w, d)
  }

  ghost predicate DerivesSeq(rules: Rules, xs: seq<nat>, w: string)
  {
    exists d :: InSeq(rules, xs, w, d)
  }

  /** A choice derives what either of its sequences derives. */
  lemma DerivesOr(rules: Rules, n: nat, w: string)
    requires n in rules && rules[n].Or?
    ensures DerivesRule(rules, n, w) <==> DerivesSeq(rules, rules[n].first, w) || DerivesSeq(rules, rules[n].second, w)
  {
    if DerivesRule(rules, n, w) {
      var d: nat :| InRule(rules, n, w, d);
      assert InSeq(rules, rules[n].first, w, d - 1) || InSeq(rules, rules[n].second, w, d - 1);
    }
    if DerivesSeq(rules, rules[n].first, w) {
      var d: nat :| InSeq(rules, rules[n].first, w, d);
      assert InRule(rules, n, w, d + 1);
    } else if DerivesSeq(rules, rules[n].second, w) {
      var d: nat :| InSeq(rules, rules[n].second, w, d);
      assert InRule(rules, n, w, d + 1);
    }
  }

  /** A sequence derives a text derived by its first rule followed by one
      derived by the rest. */
  lemma DerivesCons(rules: Rules, xs: seq<nat>, w: string)
    requires xs != []
    ensures DerivesSeq(rules, xs, w)
        <==> exists u, v :: w == u + v && DerivesRule(rules, xs[0], u) && DerivesSeq(rules, xs[1..], v)
  {
    if DerivesSeq(rules, xs, w) {
      var d: nat :| InSeq(rules, xs, w, d);
      var i :| 0 <= i <= |w| && InRule(rules, xs[0], w[..i], d) && InSeq(rules, xs[1..], w[i..], d);
      assert w == w[..i] + w[i..] && DerivesRule(rules, xs[0], w[..i]) && DerivesSeq(rules, xs[1..], w[i..]);
    }
    if exists u, v :: w == u + v && DerivesRule(rules, xs[0], u) && DerivesSeq(rules, xs[1..], v) {
      var u, v :| w == u + v && DerivesRule(rules, xs[0], u) && DerivesSeq(rules, xs[1..], v);
      var d1: nat :| InRule(rules, xs[0], u, d1);
      var d2: nat :| InSeq(rules, xs[1..], v, d2);
      var d := if d1 < d2 then d2 else d1;
      InRuleMono(rules, xs[0], u, d1, d);
      InSeqMono(rules, xs[1..], v, d2, d);
      assert w[..|u|] == u && w[|u|..] == v;
      assert InSeq(rules, xs, w, d);
    }
  }

  /** A one-rule sequence derives what the rule derives. */
  lemma DerivesOne(rules: Rules, x: nat, w: string)
    ensures DerivesSeq(rules, [x], w) <==> DerivesRule(rules, x, w)
  {
    DerivesCons(rules, [x], w);
    assert [x][1..] == [];
    assert InSeq(rules, [], [], 0);
    if DerivesSeq(rules, [x], w) {
      var u, v :| w == u + v && DerivesRule(rules, x, u) && DerivesSeq(rules, [], v);
      assert v == [] && w == u;
    }
    if DerivesRule(rules, x, w) {
      assert w == w + [];
    }
  }

  /** With the rules of `part2`, rule 8 derives one or more texts of rule 42. */
  lemma EightRepeats(rules: Rules, w: string)
    ensures var o := Override(rules);
      (DerivesRule(o, 8, w) <==>
         (DerivesRule(o, 42, w) || exists u, v :: w == u + v && DerivesRule(o, 42, u) && DerivesRule(o, 8, v)))
  {
    var o := Override(rules);
    DerivesOr(o, 8, w);
    DerivesOne(o, 42, w);
    DerivesCons(o, [42, 8], w);
    assert [42, 8][1..] == [8];
    forall v
      ensures DerivesSeq(o, [8], v) <==> DerivesRule(o, 8, v)
    {
      DerivesOne(o, 8, v);
    }
  }

  /** With the rules of `part2`, rule 11 derives a text of rule 42, then
      either nothing or a text of rule 11, then a text of rule 31. */
  lemma ElevenBalanced(rules: Rules, w: string)
    ensures var o := Override(rules);
      (DerivesRule(o, 11, w) <==>
         ((exists u, x :: w == u + x && DerivesRule(o, 42, u) && DerivesRule(o, 31, x))
          || (exists u, v, x :: w == u + v + x && DerivesRule(o, 42, u) && DerivesRule(o, 11, v) && DerivesRule(o, 31, x))))
  {
    var o := Override(rules);
    DerivesOr(o, 11, w);
    Pair(o, 42, 31, w);
    if DerivesSeq(o, [42, 11, 31], w) {
      TripleSplit(o, w);
    }
    if exists u, v, x :: w == u + v + x && DerivesRule(o, 42, u) && DerivesRule(o, 11, v) && DerivesRule(o, 31, x) {
      var u, v, x :| w == u + v + x && DerivesRule(o, 42, u) && DerivesRule(o, 11, v) && DerivesRule(o, 31, x);
      TripleJoin(o, u, v, x);
    }
  }

  lemma TripleSplit(o: Rules, w: string)
    requires DerivesSeq(o, [42, 11, 31], w)
    ensures exists u, v, x :: w == u + v + x && DerivesRule(o, 42, u) && DerivesRule(o, 11, v) && DerivesRule(o, 31, x)
  {
    DerivesCons(o, [42, 11, 31], w);
    assert [42, 11, 31][1..] == [11, 31];
    var u, m :| w == u + m && DerivesRule(o, 42, u) && DerivesSeq(o, [11, 31], m);
    Pair(o, 11, 31, m);
    var v, x :| m == v + x && DerivesRule(o, 11, v) && DerivesRule(o, 31, x);
    assert w == u + v + x;
  }

  lemma TripleJoin(o: Rules, u: string, v: string, x: string)
    requires DerivesRule(o, 42, u) && DerivesRule(o, 11, v) && DerivesRule(o, 31, x)
    ensures DerivesSeq(o, [42, 11, 31], u + v + x)
  {
    Pair(o, 11, 31, v + x);
    DerivesCons(o, [42, 11, 31], u + (v + x));
    assert [42, 11, 31][1..] == [11, 31];
    assert u + v + x == u + (v + x);
  }

  /** A two-rule sequence derives a text of the first followed by one of the second. */
  lemma Pair(rules: Rules, x: nat, y: nat, w: string)
    ensures DerivesSeq(rules, [x, y], w) <==> exists u, v :: w == u + v && DerivesRule(rules, x, u) && DerivesRule(rules, y, v)
  {
    DerivesCons(rules, [x, y], w);
    assert [x, y][1..] == [y];
    forall v
      ensures DerivesSeq(rules, [y], v) <==> DerivesRule(rules, y, v)
    {
      DerivesOne(rules, y, v);
    }
  }
}
