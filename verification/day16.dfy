/** Day 16: ticket translation. The notes name field rules, each two inclusive
    ranges, then your ticket and the nearby tickets. Part 1 sums the nearby
    values no rule admits; part 2 settles which rule describes which position
    and multiplies your ticket's "departure" fields. */
module Day16 {
  import opened Wrappers
  import opened Seqs
  import opened Decimal
  import opened Sorting

  // ---------------------------------------------------------------- notes

  /** The inclusive range `lo..=hi`; empty when `hi < lo`. */
  datatype Span = Span(lo: nat, hi: nat)

  predicate Contains(s: Span, v: nat)
  {
    s.lo <= v <= s.hi
  }

  datatype Rule = Rule(first: Span, second: Span)

  predicate Admits(rule: Rule, v: nat)
  {
    Contains(rule.first, v) || Contains(rule.second, v)
  }

  /** A named rule, one entry of `Notes::rules`. */
  datatype Field = Field(name: string, rule: Rule)

  type Ticket = seq<nat>

  datatype Notes = Notes(rules: seq<Field>, your: Ticket, nearby: seq<Ticket>)

  /** `in_any_rule`: the rules are tried in order until one admits `v`. */
  function InAnyRule(rules: seq<Field>, v: nat): (b: bool)
    ensures b <==> exists k :: 0 <= k < |rules| && Admits(rules[k].rule, v)
  {
    if rules == [] then false
    else
      assert forall k :: 1 <= k < |rules| ==> rules[k] == rules[1..][k - 1];
      Admits(rules[0].rule, v) || InAnyRule(rules[1..], v)
  }

  // ----------------------------------------------------------- rule lines

  /** The five groups of `^(.*): (\d+)\-(\d+) or (\d+)-(\d+)$`. */
  datatype Captures = Captures(name: string, lo1: string, hi1: string, lo2: string, hi2: string)

  /** `\d+`, read as ASCII digits. */
  predicate IsNumeral(s: string)
  {
    s != [] && AllDigits(s)
  }

  function SpanText(lo: string, hi: string): string
  {
    lo + "-" + hi
  }

  /** What follows the name in a rule line. */
  function TailText(c: Captures): string
  {
    ": " + (SpanText(c.lo1, c.hi1) + " or " + SpanText(c.lo2, c.hi2))
  }

  /** The line the captures come from. */
  function CapturesText(c: Captures): string
  {
    c.name + TailText(c)
  }

  /** Captures the pattern can produce: `.` stops at line breaks. */
  predicate WellFormed(c: Captures)
  {
    '\n' !in c.name
    && IsNumeral(c.lo1) && IsNumeral(c.hi1) && IsNumeral(c.lo2) && IsNumeral(c.hi2)
  }

  /** `\d+-\d+`, split at its dash. */
  function MatchSpan(s: string): Option<(string, string)>
  {
    var parts := Split(s, '-');
    if |parts| == 2 && IsNumeral(parts[0]) && IsNumeral(parts[1]) then Some((parts[0], parts[1]))
    else None
  }

  /** `: \d+-\d+ or \d+-\d+` up to the end of the line. */
  function MatchTail(s: string): Option<(string, string, string, string)>
  {
    if |s| >= 2 && s[..2] == ": " then
      var words := Split(s[2..], ' ');
      if |words| == 3 && words[1] == "or" then
        match (MatchSpan(words[0]), MatchSpan(words[2]))
        case (Some(a), Some(b)) => Some((a.0, a.1, b.0, b.1))
        case _ => None
      else None
    else None
  }

  /** `TICKET_RULE_RE.captures(line)`. The tail holds a single ':', its first
      character, so the greedy `(.*)` ends the name at the last ':' of the line. */
  function MatchRule(line: string): Option<Captures>
  {
    var i := LastIndexOf(line, ':');
    if i < |line| && '\n' !in line[..i] then
      match MatchTail(line[i..])
      case Some(t) => Some(Captures(line[..i], t.0, t.1, t.2, t.3))
      case None => None
    else None
  }

  lemma MatchSpanSound(s: string)
    requires MatchSpan(s).Some?
    ensures IsNumeral(MatchSpan(s).value.0) && IsNumeral(MatchSpan(s).value.1)
    ensures s == SpanText(MatchSpan(s).value.0, MatchSpan(s).value.1)
  {
    var parts := Split(s, '-');
    JoinSplit(s, '-');
    assert Join(parts, '-') == parts[0] + ['-'] + Join(parts[1..], '-');
  }

  lemma MatchSpanComplete(lo: string, hi: string)
    requires IsNumeral(lo) && IsNumeral(hi)
    ensures MatchSpan(SpanText(lo, hi)) == Some((lo, hi))
  {
    assert Join([lo, hi], '-') == SpanText(lo, hi) by {
      assert [lo, hi][1..] == [hi];
    }
    SplitJoin([lo, hi], '-');
  }

  /** A three-part join, spelled out. */
  lemma JoinThree(w: seq<string>, sep: char)
    requires |w| == 3
    ensures Join(w, sep) == w[0] + [sep] + (w[1] + [sep] + w[2])
  {
    assert w[1..][1..] == [w[2]];
    assert Join(w[1..], sep) == w[1] + [sep] + w[2];
  }

  /** A string that splits in three is the three parts joined. */
  lemma SplitThree(x: string, sep: char)
    requires |Split(x, sep)| == 3
    ensures x == Split(x, sep)[0] + [sep] + (Split(x, sep)[1] + [sep] + Split(x, sep)[2])
  {
    JoinSplit(x, sep);
    JoinThree(Split(x, sep), sep);
  }

  /** The three words joined at spaces, with "or" between. */
  lemma OrJoin(x: string, y: string)
    ensures x + [' '] + ("or" + [' '] + y) == x + " or " + y
  {
  }

  /** A string that opens with ": " is ": " and the rest. */
  lemma ColonSpaceRest(s: string)
    requires |s| >= 2 && s[..2] == ": "
    ensures s == ": " + s[2..]
  {
    assert s == s[..2] + s[2..];
  }

  /** What `MatchTail` found, piece by piece. */
  lemma MatchTailParts(s: string)
    requires MatchTail(s).Some?
    ensures |s| >= 2 && s[..2] == ": "
    ensures |Split(s[2..], ' ')| == 3 && Split(s[2..], ' ')[1] == "or"
    ensures MatchSpan(Split(s[2..], ' ')[0]).Some? && MatchSpan(Split(s[2..], ' ')[2]).Some?
    ensures MatchTail(s).value.0 == MatchSpan(Split(s[2..], ' ')[0]).value.0
    ensures MatchTail(s).value.1 == MatchSpan(Split(s[2..], ' ')[0]).value.1
    ensures MatchTail(s).value.2 == MatchSpan(Split(s[2..], ' ')[2]).value.0
    ensures MatchTail(s).value.3 == MatchSpan(Split(s[2..], ' ')[2]).value.1
  {
  }

  lemma MatchTailSound(s: string)
    requires MatchTail(s).Some?
    ensures var t := MatchTail(s).value;
      IsNumeral(t.0) && IsNumeral(t.1) && IsNumeral(t.2) && IsNumeral(t.3)
      && s == ": " + (SpanText(t.0, t.1) + " or " + SpanText(t.2, t.3))
  {
    MatchTailParts(s);
    var x := s[2..];
    var words := Split(x, ' ');
    MatchSpanSound(words[0]);
    MatchSpanSound(words[2]);
    SplitThree(x, ' ');
    OrJoin(words[0], words[2]);
    ColonSpaceRest(s);
  }

  /** Digits and dashes hold no space. */
  lemma SpanTextChars(lo: string, hi: string)
    requires IsNumeral(lo) && IsNumeral(hi)
    ensures forall m :: 0 <= m < |SpanText(lo, hi)| ==> IsDigit(SpanText(lo, hi)[m]) || SpanText(lo, hi)[m] == '-'
  {
    forall m | 0 <= m < |SpanText(lo, hi)|
      ensures IsDigit(SpanText(lo, hi)[m]) || SpanText(lo, hi)[m] == '-'
    {
      if m > |lo| {
        assert SpanText(lo, hi)[m] == hi[m - |lo| - 1];
      }
    }
  }

  lemma MatchTailComplete(c: Captures)
    requires WellFormed(c)
    ensures MatchTail(TailText(c)) == Some((c.lo1, c.hi1, c.lo2, c.hi2))
  {
    var x := SpanText(c.lo1, c.hi1);
    var y := SpanText(c.lo2, c.hi2);
    SpanTextChars(c.lo1, c.hi1);
    SpanTextChars(c.lo2, c.hi2);
    JoinThree([x, "or", y], ' ');
    assert x + [' '] + ("or" + [' '] + y) == x + " or " + y;
    SplitJoin([x, "or", y], ' ');
    assert TailText(c)[2..] == x + " or " + y;
    MatchSpanComplete(c.lo1, c.hi1);
    MatchSpanComplete(c.lo2, c.hi2);
  }

  /** What `MatchRule` found, piece by piece. */
  lemma MatchRuleParts(line: string)
    requires MatchRule(line).Some?
    ensures LastIndexOf(line, ':') < |line| && '\n' !in line[..LastIndexOf(line, ':')]
    ensures MatchTail(line[LastIndexOf(line, ':')..]).Some?
    ensures var t := MatchTail(line[LastIndexOf(line, ':')..]).value;
      MatchRule(line).value == Captures(line[..LastIndexOf(line, ':')], t.0, t.1, t.2, t.3)
  {
  }

  /** Matched captures are ones the pattern can produce. */
  lemma MatchRuleWellFormed(line: string)
    requires MatchRule(line).Some?
    ensures WellFormed(MatchRule(line).value)
  {
    MatchRuleParts(line);
    MatchTailSound(line[LastIndexOf(line, ':')..]);
  }

  /** A line cut where the name ends and the tail begins. */
  lemma CapturesTextAt(line: string, i: nat, c: Captures)
    requires i <= |line| && c.name == line[..i]
    requires line[i..] == ": " + (SpanText(c.lo1, c.hi1) + " or " + SpanText(c.lo2, c.hi2))
    ensures CapturesText(c) == line
  {
    assert line == line[..i] + line[i..];
  }

  /** The captures of a matched line spell the line. */
  lemma MatchRuleText(line: string)
    requires MatchRule(line).Some?
    ensures CapturesText(MatchRule(line).value) == line
  {
    var i := LastIndexOf(line, ':');
    MatchRuleParts(line);
    MatchTailSound(line[i..]);
    CapturesTextAt(line, i, MatchRule(line).value);
  }

  /** A line the pattern matches is the text of its captures ... */
  lemma MatchRuleSound(line: string)
    requires MatchRule(line).Some?
    ensures WellFormed(MatchRule(line).value)
    ensures CapturesText(MatchRule(line).value) == line
  {
    MatchRuleWellFormed(line);
    MatchRuleText(line);
  }

  /** ... and the text of any captures the pattern can produce is matched
      with exactly those captures. */
  lemma MatchRuleComplete(c: Captures)
    requires WellFormed(c)
    ensures MatchRule(CapturesText(c)) == Some(c)
  {
    var x := SpanText(c.lo1, c.hi1);
    var y := SpanText(c.lo2, c.hi2);
    var rest := " " + (x + " or " + y);
    SpanTextChars(c.lo1, c.hi1);
    SpanTextChars(c.lo2, c.hi2);
    assert ':' !in rest by {
      forall m | 0 <= m < |rest|
        ensures rest[m] != ':'
      {
        if 1 <= m <= |x| {
          assert rest[m] == x[m - 1];
        } else if |x| + 4 < m {
          assert rest[m] == y[m - |x| - 5];
        }
      }
    }
    assert CapturesText(c) == c.name + [':'] + rest;
    LastIndexOfBefore(c.name, ':', rest);
    assert CapturesText(c)[..|c.name|] == c.name;
    assert CapturesText(c)[|c.name|..] == TailText(c);
    MatchTailComplete(c);
  }

  /** The numbers of a matched rule; `u32::from_str(..).unwrap()` panics on a
      numeral too large for `u32`. */
  function ToField(c: Captures): (r: Option<Field>)
    ensures r.Some? ==> r.value.name == c.name
  {
    match (ParseUnsigned(c.lo1, U32_LIMIT), ParseUnsigned(c.hi1, U32_LIMIT),
           ParseUnsigned(c.lo2, U32_LIMIT), ParseUnsigned(c.hi2, U32_LIMIT))
    case (Some(a), Some(b), Some(x), Some(y)) => Some(Field(c.name, Rule(Span(a, b), Span(x, y))))
    case _ => None
  }

  // ---------------------------------------------------------- other lines

  /** What one trimmed line of the notes is. */
  datatype Line = RuleLine(field: Field) | YourHeader | NearbyHeader | Blank | TicketLine(values: Ticket)

  /** The `match` in `into` on the trimmed line: a rule when the pattern
      matches (`None` for the panic on an oversized number), the two headers,
      a blank line, and otherwise a ticket of the comma-separated entries that
      read as `u32`. */
  function Classify(line: string): Option<Line>
  {
    var t := Trim(line);
    match MatchRule(t)
    case Some(c) =>
      (match ToField(c)
       case Some(f) => Some(RuleLine(f))
       case None => None)
    case None =>
      if t == "your ticket:" then Some(YourHeader)
      else if t == "nearby tickets:" then Some(NearbyHeader)
      else if t == [] then Some(Blank)
      else Some(TicketLine(ParseEach(Split(t, ','), U32_LIMIT)))
  }

  /** The notes so far and the two header flags. */
  datatype Reader = Reader(notes: Notes, your: bool, nearby: bool)

  /** One pass of the loop in `into`. Rules are kept wherever they appear; a
      ticket goes to the nearby tickets once their header was seen, otherwise
      replaces your ticket once its header was seen, and is otherwise dropped. */
  function Absorb(r: Reader, line: Line): Reader
  {
    match line
    case RuleLine(f) => r.(notes := r.notes.(rules := r.notes.rules + [f]))
    case YourHeader => r.(your := true)
    case NearbyHeader => r.(nearby := true)
    case Blank => r
    case TicketLine(t) =>
      if r.nearby then r.(notes := r.notes.(nearby := r.notes.nearby + [t]))
      else if r.your then r.(notes := r.notes.(your := t))
      else r
  }

  function AbsorbAll(r: Reader, ls: seq<Line>): Reader
    decreases |ls|
  {
    if ls == [] then r else AbsorbAll(Absorb(r, ls[0]), ls[1..])
  }

  /** `f` applied to every element, or `None` as soon as one application
      fails (`collect` into an `Option`). */
  function MapAll<A, B>(xs: seq<A>, f: A -> Option<B>): (r: Option<seq<B>>)
    ensures r.Some? ==> |r.value| == |xs|
  {
    if xs == [] then Some([])
    else
      match f(xs[0])
      case None => None
      case Some(y) =>
        match MapAll(xs[1..], f)
        case None => None
        case Some(ys) => Some([y] + ys)
  }

  /** `MapAll` succeeds exactly when every application does, with their
      results in order. */
  lemma {:induction false} MapAllSpec<A, B>(xs: seq<A>, f: A -> Option<B>)
    ensures MapAll(xs, f).Some? <==> forall k :: 0 <= k < |xs| ==> f(xs[k]).Some?
    ensures MapAll(xs, f).Some? ==> forall k :: 0 <= k < |xs| ==> MapAll(xs, f).value[k] == f(xs[k]).value
  {
    if xs != [] {
      MapAllSpec(xs[1..], f);
      assert forall k :: 1 <= k < |xs| ==> xs[1..][k - 1] == xs[k];
    }
  }

  lemma MapAllPointwise<A, B>(xs: seq<A>, f: A -> Option<B>, ys: seq<B>)
    requires |ys| == |xs| && forall k :: 0 <= k < |xs| ==> f(xs[k]) == Some(ys[k])
    ensures MapAll(xs, f) == Some(ys)
  {
    MapAllSpec(xs, f);
    assert MapAll(xs, f).value == ys;
  }

  lemma MapAllFive<A, B>(f: A -> Option<B>, x0: A, x1: A, x2: A, x3: A, x4: A, y0: B, y1: B, y2: B, y3: B, y4: B)
    requires f(x0) == Some(y0) && f(x1) == Some(y1) && f(x2) == Some(y2)
    requires f(x3) == Some(y3) && f(x4) == Some(y4)
    ensures MapAll([x0, x1, x2, x3, x4], f) == Some([y0, y1, y2, y3, y4])
  {
    MapAllPointwise([x0, x1, x2, x3, x4], f, [y0, y1, y2, y3, y4]);
  }

  lemma MapAllAppend<A, B>(a: seq<A>, b: seq<A>, f: A -> Option<B>, x: seq<B>, y: seq<B>)
    requires MapAll(a, f) == Some(x) && MapAll(b, f) == Some(y)
    ensures MapAll(a + b, f) == Some(x + y)
  {
    MapAllSpec(a, f);
    MapAllSpec(b, f);
    forall k | 0 <= k < |a + b|
      ensures f((a + b)[k]) == Some((x + y)[k])
    {
      if k >= |a| {
        assert (a + b)[k] == b[k - |a|];
      }
    }
    MapAllPointwise(a + b, f, x + y);
  }

  /** `src.into()` over the lines of the input. The model classifies every
      line before absorbing them; a panic on any line ends the parse with
      `None` either way. */
  function ReadNotes(lines: seq<string>): Option<Notes>
  {
    match MapAll(lines, Classify)
    case None => None
    case Some(ls) => Some(AbsorbAll(Reader(Notes([], [], []), false, false), ls).notes)
  }

  lemma {:induction false} AbsorbAllAppend(r: Reader, a: seq<Line>, b: seq<Line>)
    ensures AbsorbAll(r, a + b) == AbsorbAll(AbsorbAll(r, a), b)
    decreases |a|
  {
    if a != [] {
      assert (a + b)[0] == a[0];
      assert (a + b)[1..] == a[1..] + b;
      AbsorbAllAppend(Absorb(r, a[0]), a[1..], b);
    } else {
      assert a + b == b;
    }
  }

  // ---------------------------------------------------- writing notes out

  /** The captures a rule line of `f` shows. */
  function CapturesOf(f: Field): Captures
  {
    Captures(f.name, ShowNat(f.rule.first.lo), ShowNat(f.rule.first.hi),
             ShowNat(f.rule.second.lo), ShowNat(f.rule.second.hi))
  }

  function RuleText(f: Field): string
  {
    CapturesText(CapturesOf(f))
  }

  function TicketText(t: Ticket): string
  {
    if t == [] then [] else Join(ShowEach(t), ',')
  }

  function RuleTexts(rules: seq<Field>): (lines: seq<string>)
    ensures |lines| == |rules|
    ensures forall k :: 0 <= k < |rules| ==> lines[k] == RuleText(rules[k])
  {
    if rules == [] then [] else [RuleText(rules[0])] + RuleTexts(rules[1..])
  }

  function TicketTexts(tickets: seq<Ticket>): (lines: seq<string>)
    ensures |lines| == |tickets|
    ensures forall k :: 0 <= k < |tickets| ==> lines[k] == TicketText(tickets[k])
  {
    if tickets == [] then [] else [TicketText(tickets[0])] + TicketTexts(tickets[1..])
  }

  /** The notes in the layout of the puzzle input. */
  function NotesText(n: Notes): seq<string>
  {
    RuleTexts(n.rules) + MiddleText(n.your) + TicketTexts(n.nearby)
  }

  predicate FitsU32(t: Ticket)
  {
    forall k :: 0 <= k < |t| ==> t[k] < U32_LIMIT
  }

  /** A rule whose line reads back as itself: its name has no line break and
      no leading whitespace, and its bounds fit `u32`. */
  predicate WritableField(f: Field)
  {
    '\n' !in f.name && (f.name == [] || !IsSpace(f.name[0]))
    && f.rule.first.lo < U32_LIMIT && f.rule.first.hi < U32_LIMIT
    && f.rule.second.lo < U32_LIMIT && f.rule.second.hi < U32_LIMIT
  }

  /** Notes whose text reads back as themselves; an empty nearby ticket would
      be written as a blank line, which is skipped. */
  predicate Writable(n: Notes)
  {
    (forall k :: 0 <= k < |n.rules| ==> WritableField(n.rules[k]))
    && FitsU32(n.your)
    && (forall k :: 0 <= k < |n.nearby| ==> n.nearby[k] != [] && FitsU32(n.nearby[k]))
  }

  lemma RuleTextTrimmed(f: Field)
    requires WritableField(f)
    ensures Trim(RuleText(f)) == RuleText(f)
  {
    var line := RuleText(f);
    var last := ShowNat(f.rule.second.hi);
    assert line[|line| - 1] == last[|last| - 1];
    assert line[0] == if f.name == [] then ':' else f.name[0];
    TrimPlain(line);
  }

  lemma ToFieldCaptures(f: Field)
    requires WritableField(f)
    ensures ToField(CapturesOf(f)) == Some(f)
  {
    ParseShowNat(f.rule.first.lo, U32_LIMIT);
    ParseShowNat(f.rule.first.hi, U32_LIMIT);
    ParseShowNat(f.rule.second.lo, U32_LIMIT);
    ParseShowNat(f.rule.second.hi, U32_LIMIT);
  }

  /** A trimmed line the pattern matches, with numbers that fit, is a rule. */
  lemma ClassifyMatched(line: string, c: Captures, f: Field)
    requires Trim(line) == line && MatchRule(line) == Some(c) && ToField(c) == Some(f)
    ensures Classify(line) == Some(RuleLine(f))
  {
  }

  lemma ClassifyRule(f: Field)
    requires WritableField(f)
    ensures Classify(RuleText(f)) == Some(RuleLine(f))
  {
    RuleTextTrimmed(f);
    MatchRuleComplete(CapturesOf(f));
    ToFieldCaptures(f);
    ClassifyMatched(RuleText(f), CapturesOf(f), f);
  }

  /** A written ticket is digits and commas, and not empty. */
  lemma TicketTextChars(t: Ticket)
    requires t != []
    ensures TicketText(t) != []
    ensures forall m :: 0 <= m < |TicketText(t)| ==> IsDigit(TicketText(t)[m]) || TicketText(t)[m] == ','
  {
    JoinChars(ShowEach(t), ',', (c: char) => IsDigit(c) || c == ',');
  }

  /** A line without ':' is no rule line. */
  lemma NoColonNoRule(line: string)
    requires ':' !in line
    ensures MatchRule(line) == None
  {
  }

  lemma ClassifyTicket(t: Ticket)
    requires t != [] && FitsU32(t)
    ensures Classify(TicketText(t)) == Some(TicketLine(t))
  {
    var line := TicketText(t);
    TicketTextChars(t);
    TrimPlain(line);
    assert ':' !in line;
    NoColonNoRule(line);
    assert "your ticket:"[11] == ':' && "nearby tickets:"[14] == ':';
    CommaListRoundTrip(t, U32_LIMIT);
  }

  lemma YourHeaderNoRule()
    ensures MatchRule("your ticket:") == None
  {
    LastIndexOfBefore("your ticket", ':', "");
    assert "your ticket" + [':'] + "" == "your ticket:";
    assert "your ticket:"[11..] == ":";
  }

  lemma NearbyHeaderNoRule()
    ensures MatchRule("nearby tickets:") == None
  {
    LastIndexOfBefore("nearby tickets", ':', "");
    assert "nearby tickets" + [':'] + "" == "nearby tickets:";
    assert "nearby tickets:"[14..] == ":";
  }

  lemma ClassifyYourHeader()
    ensures Classify("your ticket:") == Some(YourHeader)
  {
    TrimPlain("your ticket:");
    YourHeaderNoRule();
  }

  lemma ClassifyNearbyHeader()
    ensures Classify("nearby tickets:") == Some(NearbyHeader)
  {
    TrimPlain("nearby tickets:");
    NearbyHeaderNoRule();
  }

  lemma ClassifyBlank()
    ensures Classify("") == Some(Blank)
  {
    TrimPlain("");
  }

  function RuleLines(rules: seq<Field>): (ls: seq<Line>)
    ensures |ls| == |rules|
    ensures forall k :: 0 <= k < |rules| ==> ls[k] == RuleLine(rules[k])
  {
    if rules == [] then [] else [RuleLine(rules[0])] + RuleLines(rules[1..])
  }

  function TicketLines(tickets: seq<Ticket>): (ls: seq<Line>)
    ensures |ls| == |tickets|
    ensures forall k :: 0 <= k < |tickets| ==> ls[k] == TicketLine(tickets[k])
  {
    if tickets == [] then [] else [TicketLine(tickets[0])] + TicketLines(tickets[1..])
  }

  lemma {:induction false} AbsorbRules(r: Reader, rules: seq<Field>)
    ensures AbsorbAll(r, RuleLines(rules)) == r.(notes := r.notes.(rules := r.notes.rules + rules))
    decreases |rules|
  {
    if rules == [] {
      assert r.notes.rules + rules == r.notes.rules;
    } else {
      AbsorbRules(Absorb(r, RuleLine(rules[0])), rules[1..]);
      assert r.notes.rules + [rules[0]] + rules[1..] == r.notes.rules + rules;
    }
  }

  lemma {:induction false} AbsorbNearby(r: Reader, tickets: seq<Ticket>)
    requires r.nearby
    ensures AbsorbAll(r, TicketLines(tickets)) == r.(notes := r.notes.(nearby := r.notes.nearby + tickets))
    decreases |tickets|
  {
    if tickets == [] {
      assert r.notes.nearby + tickets == r.notes.nearby;
    } else {
      AbsorbNearby(Absorb(r, TicketLine(tickets[0])), tickets[1..]);
      assert r.notes.nearby + [tickets[0]] + tickets[1..] == r.notes.nearby + tickets;
    }
  }

  /** The classified lines of written-out notes. */
  function MiddleLines(your: Ticket): seq<Line>
  {
    [Blank, YourHeader, if your == [] then Blank else TicketLine(your), Blank, NearbyHeader]
  }

  function MiddleText(your: Ticket): seq<string>
  {
    ["", "your ticket:", TicketText(your), "", "nearby tickets:"]
  }

  lemma ClassifyRules(rules: seq<Field>)
    requires forall k :: 0 <= k < |rules| ==> WritableField(rules[k])
    ensures MapAll(RuleTexts(rules), Classify) == Some(RuleLines(rules))
  {
    forall k | 0 <= k < |rules|
      ensures Classify(RuleTexts(rules)[k]) == Some(RuleLines(rules)[k])
    {
      ClassifyRule(rules[k]);
    }
    MapAllPointwise(RuleTexts(rules), Classify, RuleLines(rules));
  }

  lemma ClassifyTickets(tickets: seq<Ticket>)
    requires forall k :: 0 <= k < |tickets| ==> tickets[k] != [] && FitsU32(tickets[k])
    ensures MapAll(TicketTexts(tickets), Classify) == Some(TicketLines(tickets))
  {
    forall k | 0 <= k < |tickets|
      ensures Classify(TicketTexts(tickets)[k]) == Some(TicketLines(tickets)[k])
    {
      ClassifyTicket(tickets[k]);
    }
    MapAllPointwise(TicketTexts(tickets), Classify, TicketLines(tickets));
  }

  lemma ClassifyYour(your: Ticket)
    requires FitsU32(your)
    ensures Classify(TicketText(your)) == Some(if your == [] then Blank else TicketLine(your))
  {
    if your != [] {
      ClassifyTicket(your);
    } else {
      ClassifyBlank();
    }
  }

  lemma ClassifyMiddle(your: Ticket)
    requires FitsU32(your)
    ensures MapAll(MiddleText(your), Classify) == Some(MiddleLines(your))
  {
    var y := if your == [] then Blank else TicketLine(your);
    ClassifyBlank();
    ClassifyYourHeader();
    ClassifyNearbyHeader();
    ClassifyYour(your);
    MapAllFive(Classify, "", "your ticket:", TicketText(your), "", "nearby tickets:",
               Blank, YourHeader, y, Blank, NearbyHeader);
  }

  lemma ClassifyNotes(n: Notes)
    requires Writable(n)
    ensures MapAll(NotesText(n), Classify) == Some(RuleLines(n.rules) + MiddleLines(n.your) + TicketLines(n.nearby))
  {
    ClassifyRules(n.rules);
    ClassifyMiddle(n.your);
    ClassifyTickets(n.nearby);
    MapAllAppend(RuleTexts(n.rules), MiddleText(n.your), Classify, RuleLines(n.rules), MiddleLines(n.your));
    MapAllAppend(RuleTexts(n.rules) + MiddleText(n.your), TicketTexts(n.nearby), Classify,
                 RuleLines(n.rules) + MiddleLines(n.your), TicketLines(n.nearby));
  }

  lemma AbsorbNotes(n: Notes)
    ensures AbsorbAll(Reader(Notes([], [], []), false, false),
                      RuleLines(n.rules) + MiddleLines(n.your) + TicketLines(n.nearby)).notes == n
  {
    var start := Reader(Notes([], [], []), false, false);
    var rules := RuleLines(n.rules);
    var middle := MiddleLines(n.your);
    var nearby := TicketLines(n.nearby);
    AbsorbAllAppend(start, rules + middle, nearby);
    AbsorbAllAppend(start, rules, middle);
    AbsorbRules(start, n.rules);
    assert [] + n.rules == n.rules;
    var r1 := Reader(Notes(n.rules, [], []), false, false);
    var y := if n.your == [] then Blank else TicketLine(n.your);
    var ra := Reader(Notes(n.rules, [], []), true, false);
    var rb := Reader(Notes(n.rules, n.your, []), true, false);
    var r2 := Reader(Notes(n.rules, n.your, []), true, true);
    assert AbsorbAll(r2, []) == r2;
    assert AbsorbAll(rb, [NearbyHeader]) == r2 by { assert [NearbyHeader][1..] == []; }
    assert AbsorbAll(rb, [Blank, NearbyHeader]) == r2 by { assert [Blank, NearbyHeader][1..] == [NearbyHeader]; }
    assert AbsorbAll(ra, [y, Blank, NearbyHeader]) == r2 by { assert [y, Blank, NearbyHeader][1..] == [Blank, NearbyHeader]; }
    assert AbsorbAll(r1, [YourHeader, y, Blank, NearbyHeader]) == r2 by {
      assert [YourHeader, y, Blank, NearbyHeader][1..] == [y, Blank, NearbyHeader];
    }
    assert middle[1..] == [YourHeader, y, Blank, NearbyHeader];
    assert AbsorbAll(r1, middle) == r2;
    AbsorbNearby(r2, n.nearby);
    assert [] + n.nearby == n.nearby;
  }

  /** Notes written out in the puzzle's layout read back as the same notes. */
  lemma ReadNotesText(n: Notes)
    requires Writable(n)
    ensures ReadNotes(NotesText(n)) == Some(n)
  {
    ClassifyNotes(n);
    AbsorbNotes(n);
  }

  // --------------------------------------------------------------- part 1

  /** The values of `t` no rule admits, in order. */
  function Invalid(rules: seq<Field>, t: Ticket): (r: seq<nat>)
    ensures forall k :: 0 <= k < |r| ==> r[k] in t && !InAnyRule(rules, r[k])
    ensures forall k :: 0 <= k < |t| && !InAnyRule(rules, t[k]) ==> t[k] in r
    ensures forall v :: multiset(r)[v] == if InAnyRule(rules, v) then 0 else multiset(t)[v]
  {
    if t == [] then []
    else
      assert t == [t[0]] + t[1..];
      var rest := Invalid(rules, t[1..]);
      if InAnyRule(rules, t[0]) then rest else [t[0]] + rest
  }

  lemma {:induction false} InvalidAppend(rules: seq<Field>, a: Ticket, b: Ticket)
    ensures Invalid(rules, a + b) == Invalid(rules, a) + Invalid(rules, b)
  {
    if a == [] {
      assert a + b == b;
    } else {
      assert (a + b)[0] == a[0];
      assert (a + b)[1..] == a[1..] + b;
      InvalidAppend(rules, a[1..], b);
    }
  }

  /** The per-ticket sums of invalid values, summed over the nearby tickets. */
  function ErrorRate(rules: seq<Field>, nearby: seq<Ticket>): nat
  {
    if nearby == [] then 0
    else
      SumNonNegative(Invalid(rules, nearby[0]));
      Sum(Invalid(rules, nearby[0])) + ErrorRate(rules, nearby[1..])
  }

  /** All the nearby values, ticket after ticket. */
  function Flatten(tickets: seq<Ticket>): seq<nat>
  {
    if tickets == [] then [] else tickets[0] + Flatten(tickets[1..])
  }

  /** The error rate is the sum of every nearby value no rule admits. */
  lemma {:induction false} ErrorRateFlat(rules: seq<Field>, nearby: seq<Ticket>)
    ensures ErrorRate(rules, nearby) == Sum(Invalid(rules, Flatten(nearby)))
  {
    if nearby != [] {
      ErrorRateFlat(rules, nearby[1..]);
      InvalidAppend(rules, nearby[0], Flatten(nearby[1..]));
      SumAppend(Invalid(rules, nearby[0]), Invalid(rules, Flatten(nearby[1..])));
    }
  }

  /** `part1`. */
  function Part1(lines: seq<string>): (r: Option<nat>)
    ensures r.Some? <==> ReadNotes(lines).Some?
    ensures r.Some? ==> r.value == Sum(Invalid(ReadNotes(lines).value.rules, Flatten(ReadNotes(lines).value.nearby)))
  {
    match ReadNotes(lines)
    case None => None
    case Some(n) =>
      ErrorRateFlat(n.rules, n.nearby);
      Some(ErrorRate(n.rules, n.nearby))
  }

  // -------------------------------------------------------- valid tickets

  /** `ticket.iter().all(|value| notes.in_any_rule(value))`. */
  predicate ValidTicket(rules: seq<Field>, t: Ticket)
  {
    forall k :: 0 <= k < |t| ==> InAnyRule(rules, t[k])
  }

  /** A ticket is valid exactly when it adds nothing to the error rate's list. */
  lemma ValidNoInvalid(rules: seq<Field>, t: Ticket)
    ensures ValidTicket(rules, t) <==> Invalid(rules, t) == []
  {
    if !ValidTicket(rules, t) {
      var k :| 0 <= k < |t| && !InAnyRule(rules, t[k]);
      assert t[k] in Invalid(rules, t);
    }
  }

  /** The `filter` building `valid_tickets`: the valid nearby tickets, in order. */
  function ValidTickets(rules: seq<Field>, nearby: seq<Ticket>): (r: seq<Ticket>)
    ensures |r| <= |nearby|
    ensures forall k :: 0 <= k < |r| ==> ValidTicket(rules, r[k]) && r[k] in nearby
    ensures forall k :: 0 <= k < |nearby| && ValidTicket(rules, nearby[k]) ==> nearby[k] in r
  {
    if nearby == [] then []
    else if ValidTicket(rules, nearby[0]) then [nearby[0]] + ValidTickets(rules, nearby[1..])
    else ValidTickets(rules, nearby[1..])
  }

  // -------------------------------------------------------------- columns

  /** Every ticket has a value at `p` and `rule` admits them all. */
  predicate Column(tickets: seq<Ticket>, rule: Rule, p: nat)
  {
    forall k :: 0 <= k < |tickets| ==> p < |tickets[k]| && Admits(rule, tickets[k][p])
  }

  /** Every ticket reaches position `p`. */
  predicate Reach(tickets: seq<Ticket>, p: nat)
  {
    forall k :: 0 <= k < |tickets| ==> p < |tickets[k]|
  }

  /** `any_invalid`: the tickets are read in order until one has a value at
      `p` that `rule` rejects; `ticket[position]` on a ticket too short
      panics, which is `None`. */
  function AnyRejects(tickets: seq<Ticket>, rule: Rule, p: nat): (r: Option<bool>)
    ensures r == Some(false) <==> Column(tickets, rule, p)
    ensures r == Some(true) ==> exists k :: 0 <= k < |tickets| && p < |tickets[k]| && !Admits(rule, tickets[k][p])
    ensures Reach(tickets, p) ==> r.Some?
  {
    if tickets == [] then Some(false)
    else if p >= |tickets[0]| then None
    else
      assert forall k :: 1 <= k < |tickets| ==> tickets[1..][k - 1] == tickets[k];
      if !Admits(rule, tickets[0][p]) then Some(true)
      else AnyRejects(tickets[1..], rule, p)
  }

  // --------------------------------------------------------------- part 2

  /** The rules not yet settled (their names not in `taken`) that fit column
      `p`, in rule order; `None` when a ticket is too short. */
  function Matching(rules: seq<Field>, tickets: seq<Ticket>, taken: set<string>, p: nat): (r: Option<seq<Field>>)
    ensures r.Some? ==> forall k :: 0 <= k < |r.value| ==>
      r.value[k] in rules && r.value[k].name !in taken && Column(tickets, r.value[k].rule, p)
    ensures r.Some? ==> forall k :: 0 <= k < |rules| && rules[k].name !in taken && Column(tickets, rules[k].rule, p) ==>
      rules[k] in r.value
    ensures Reach(tickets, p) ==> r.Some?
  {
    if rules == [] then Some([])
    else
      assert forall k :: 1 <= k < |rules| ==> rules[1..][k - 1] == rules[k];
      if rules[0].name in taken then Matching(rules[1..], tickets, taken, p)
      else
        match AnyRejects(tickets, rules[0].rule, p)
        case None => None
        case Some(rejects) =>
          match Matching(rules[1..], tickets, taken, p)
          case None => None
          case Some(ms) => if rejects then Some(ms) else Some([rules[0]] + ms)
  }

  /** A rule settled at a position: the rule (whose name keys `inferred_rules`),
      the position, and your ticket's value there. */
  datatype Assignment = Assignment(field: Field, position: nat, value: nat)

  function Taken(found: seq<Assignment>): set<string>
  {
    set a | a in found :: a.field.name
  }

  /** `inferred_positions`, the settled rules in the order they were settled,
      and `positions_inferred_count`. */
  datatype Inference = Inference(inferred: seq<bool>, found: seq<Assignment>, count: nat)

  /** `a` settles position `p` with your value there, by a rule of the
      notes not in `taken` that fits the column, and no other such rule
      fits it. */
  predicate Unique(your: Ticket, rules: seq<Field>, tickets: seq<Ticket>, taken: set<string>, p: nat, a: Assignment)
  {
    a.position == p && p < |your| && a.value == your[p]
    && a.field in rules && a.field.name !in taken && Column(tickets, a.field.rule, p)
    && forall k :: 0 <= k < |rules| && rules[k].name !in taken && Column(tickets, rules[k].rule, p) ==>
         rules[k] == a.field
  }

  /** One position of the `for` loop: a position not yet settled is settled
      when exactly one unsettled rule fits its column. Whatever is settled is
      that rule, at `p`, with your value there; otherwise nothing changes. */
  function Decide(your: Ticket, rules: seq<Field>, tickets: seq<Ticket>, st: Inference, p: nat): (r: Option<Inference>)
    requires p < |your| == |st.inferred|
    ensures r.Some? ==> |r.value.inferred| == |your|
    ensures r.Some? && r.value != st ==>
      !st.inferred[p] && |r.value.found| == |st.found| + 1
      && r.value == Inference(st.inferred[p := true], st.found + [r.value.found[|st.found|]], st.count + 1)
      && Unique(your, rules, tickets, Taken(st.found), p, r.value.found[|st.found|])
    ensures (forall k :: 0 <= k < |tickets| ==> p < |tickets[k]|) ==> r.Some?
  {
    if st.inferred[p] then Some(st)
    else
      match Matching(rules, tickets, Taken(st.found), p)
      case None => None
      case Some(ms) =>
        if |ms| == 1 then
          Some(Inference(st.inferred[p := true], st.found + [Assignment(ms[0], p, your[p])], st.count + 1))
        else Some(st)
  }

  /** The `for` loop over the positions from `p` on. */
  function Sweep(your: Ticket, rules: seq<Field>, tickets: seq<Ticket>, st: Inference, p: nat): (r: Option<Inference>)
    requires p <= |your| == |st.inferred|
    ensures r.Some? ==> |r.value.inferred| == |your|
    decreases |your| - p
  {
    if p == |your| then Some(st)
    else
      match Decide(your, rules, tickets, st, p)
      case None => None
      case Some(next) => Sweep(your, rules, tickets, next, p + 1)
  }

  /** The `while` loop: sweeps until every position is settled. A sweep
      that settles nothing repeats forever in the source; `fuel` bounds the
      sweeps and `None` stands for running out. */
  function Eliminate(your: Ticket, rules: seq<Field>, tickets: seq<Ticket>, st: Inference, fuel: nat): (r: Option<Inference>)
    requires |your| == |st.inferred|
    ensures r.Some? ==> |r.value.inferred| == |your| && r.value.count == |your|
    decreases fuel
  {
    if st.count == |your| then Some(st)
    else if fuel == 0 then None
    else
      match Sweep(your, rules, tickets, st, 0)
      case None => None
      case Some(next) => Eliminate(your, rules, tickets, next, fuel - 1)
  }

  /** Number of settled positions. */
  function Trues(s: seq<bool>): (n: nat)
    ensures n <= |s|
  {
    if s == [] then 0 else (if s[0] then 1 else 0) + Trues(s[1..])
  }

  lemma {:induction false} TruesSet(s: seq<bool>, p: nat)
    requires p < |s| && !s[p]
    ensures Trues(s[p := true]) == Trues(s) + 1
  {
    if p > 0 {
      assert s[p := true][1..] == s[1..][p - 1 := true];
      TruesSet(s[1..], p - 1);
    }
  }

  lemma {:induction false} TruesAll(s: seq<bool>)
    requires Trues(s) == |s|
    ensures forall p :: 0 <= p < |s| ==> s[p]
  {
    if s != [] {
      TruesAll(s[1..]);
      assert forall p :: 1 <= p < |s| ==> s[p] == s[1..][p - 1];
    }
  }

  /** An assignment is sound: its rule is one of the notes', the position is
      one of your ticket's, the value is yours there, and every valid ticket's
      value there fits the rule. */
  predicate Fits(your: Ticket, rules: seq<Field>, tickets: seq<Ticket>, a: Assignment)
  {
    a.field in rules && a.position < |your| && a.value == your[a.position]
    && Column(tickets, a.field.rule, a.position)
  }

  /** Two assignments share neither the rule name nor the position. */
  predicate Apart(a: Assignment, b: Assignment)
  {
    a.field.name != b.field.name && a.position != b.position
  }

  /** The loop invariant of `part2`: the count is the number of settled
      positions and of settled rules; each settled rule is sound; no name and
      no position is settled twice; a position is marked iff a rule was
      settled there. */
  predicate Settled(your: Ticket, rules: seq<Field>, tickets: seq<Ticket>, st: Inference)
  {
    |st.inferred| == |your|
    && st.count == |st.found| && st.count == Trues(st.inferred)
    && (forall i :: 0 <= i < |st.found| ==> Fits(your, rules, tickets, st.found[i]))
    && (forall i, j :: 0 <= i < j < |st.found| ==> Apart(st.found[i], st.found[j]))
    && (forall p :: 0 <= p < |your| ==> (st.inferred[p] <==> SettledAt(st.found, p)))
  }

  predicate SettledAt(found: seq<Assignment>, p: nat)
  {
    exists i :: 0 <= i < |found| && found[i].position == p
  }

  /** Settling position `p` with an assignment that fits and keeps apart
      from the ones found keeps the state settled. */
  lemma SettleOne(your: Ticket, rules: seq<Field>, tickets: seq<Ticket>, st: Inference, p: nat, a: Assignment)
    requires p < |your| && Settled(your, rules, tickets, st) && !st.inferred[p]
    requires a.position == p && Fits(your, rules, tickets, a)
    requires forall i :: 0 <= i < |st.found| ==> Apart(st.found[i], a)
    ensures Settled(your, rules, tickets, Inference(st.inferred[p := true], st.found + [a], st.count + 1))
  {
    var r := Inference(st.inferred[p := true], st.found + [a], st.count + 1);
    TruesSet(st.inferred, p);
    forall q | 0 <= q < |your|
      ensures r.inferred[q] <==> SettledAt(r.found, q)
    {
      if q == p {
        assert r.found[|st.found|].position == q;
      } else if st.inferred[q] {
        var i :| 0 <= i < |st.found| && st.found[i].position == q;
        assert r.found[i].position == q;
      }
    }
  }

  lemma DecideSettled(your: Ticket, rules: seq<Field>, tickets: seq<Ticket>, st: Inference, p: nat)
    requires p < |your| && Settled(your, rules, tickets, st)
    requires Decide(your, rules, tickets, st, p).Some?
    ensures Settled(your, rules, tickets, Decide(your, rules, tickets, st, p).value)
  {
    var r := Decide(your, rules, tickets, st, p).value;
    if r != st {
      var a := r.found[|st.found|];
      forall i | 0 <= i < |st.found|
        ensures Apart(st.found[i], a)
      {
        assert st.found[i] in st.found;
      }
      SettleOne(your, rules, tickets, st, p, a);
    }
  }


  lemma {:induction false} SweepSettled(your: Ticket, rules: seq<Field>, tickets: seq<Ticket>, st: Inference, p: nat)
    requires p <= |your| && Settled(your, rules, tickets, st)
    requires Sweep(your, rules, tickets, st, p).Some?
    ensures Settled(your, rules, tickets, Sweep(your, rules, tickets, st, p).value)
    decreases |your| - p
  {
    if p < |your| {
      DecideSettled(your, rules, tickets, st, p);
      SweepSettled(your, rules, tickets, Decide(your, rules, tickets, st, p).value, p + 1);
    }
  }

  lemma {:induction false} EliminateSettled(your: Ticket, rules: seq<Field>, tickets: seq<Ticket>, st: Inference, fuel: nat)
    requires Settled(your, rules, tickets, st)
    requires Eliminate(your, rules, tickets, st, fuel).Some?
    ensures Settled(your, rules, tickets, Eliminate(your, rules, tickets, st, fuel).value)
    decreases fuel
  {
    if st.count != |your| {
      SweepSettled(your, rules, tickets, st, 0);
      EliminateSettled(your, rules, tickets, Sweep(your, rules, tickets, st, 0).value, fuel - 1);
    }
  }

  /** Every position of your ticket gets exactly one sound rule, and no rule
      name is used twice. */
  predicate Complete(your: Ticket, rules: seq<Field>, tickets: seq<Ticket>, found: seq<Assignment>)
  {
    (forall i :: 0 <= i < |found| ==> Fits(your, rules, tickets, found[i]))
    && (forall i, j :: 0 <= i < j < |found| ==> Apart(found[i], found[j]))
    && (forall p :: 0 <= p < |your| ==> SettledAt(found, p))
  }

  lemma StartSettled(your: Ticket, rules: seq<Field>, tickets: seq<Ticket>)
    ensures Settled(your, rules, tickets, Inference(seq(|your|, _ => false), [], 0))
  {
    FalsesNone(|your|);
  }

  lemma SettledComplete(your: Ticket, rules: seq<Field>, tickets: seq<Ticket>, st: Inference)
    requires Settled(your, rules, tickets, st) && st.count == |your|
    ensures Complete(your, rules, tickets, st.found)
  {
    TruesAll(st.inferred);
  }

  /** The settled rules `part2` ends with, or `None` when a ticket is too
      short or the fuel runs out. */
  function Infer(n: Notes, fuel: nat): (r: Option<seq<Assignment>>)
    ensures r.Some? ==> Complete(n.your, n.rules, ValidTickets(n.rules, n.nearby), r.value)
  {
    var tickets := ValidTickets(n.rules, n.nearby);
    var start := Inference(seq(|n.your|, _ => false), [], 0);
    match Eliminate(n.your, n.rules, tickets, start, fuel)
    case None => None
    case Some(st) =>
      StartSettled(n.your, n.rules, tickets);
      EliminateSettled(n.your, n.rules, tickets, start, fuel);
      SettledComplete(n.your, n.rules, tickets, st);
      Some(st.found)
  }

  lemma {:induction false} FalsesNone(n: nat)
    ensures Trues(seq(n, _ => false)) == 0
  {
    if n > 0 {
      assert seq(n, _ => false)[1..] == seq(n - 1, _ => false);
      FalsesNone(n - 1);
    }
  }

  predicate IsDeparture(name: string)
  {
    StartsWith(name, "departure")
  }

  /** The product of the values settled for "departure" rules; 1 when there
      are none. `part2` folds over the `HashMap` in its own order, which does
      not change a product (`DepartureProductPermutes`). */
  function DepartureProduct(found: seq<Assignment>): nat
  {
    if found == [] then 1
    else (if IsDeparture(found[0].field.name) then found[0].value else 1) * DepartureProduct(found[1..])
  }

  /** Without "departure" rules the product is empty. */
  lemma {:induction false} DepartureProductNone(found: seq<Assignment>)
    requires forall i :: 0 <= i < |found| ==> !IsDeparture(found[i].field.name)
    ensures DepartureProduct(found) == 1
  {
    if found != [] {
      DepartureProductNone(found[1..]);
    }
  }

  /** Taking one assignment out of the product divides its factor out. */
  lemma {:induction false} DepartureProductRemove(found: seq<Assignment>, i: nat)
    requires i < |found|
    ensures DepartureProduct(found)
      == (if IsDeparture(found[i].field.name) then found[i].value else 1) * DepartureProduct(found[..i] + found[i + 1..])
  {
    if i > 0 {
      DepartureProductRemove(found[1..], i - 1);
      assert found[1..][..i - 1] + found[1..][i..] == (found[..i] + found[i + 1..])[1..];
      var f0 := if IsDeparture(found[0].field.name) then found[0].value else 1;
      var fi := if IsDeparture(found[i].field.name) then found[i].value else 1;
      var rest := DepartureProduct(found[1..][..i - 1] + found[1..][i..]);
      assert f0 * (fi * rest) == fi * (f0 * rest);
    } else {
      assert found[..0] + found[1..] == found[1..];
    }
  }

  /** The product does not depend on the order of the settled rules. */
  lemma {:induction false} DepartureProductPermutes(a: seq<Assignment>, b: seq<Assignment>)
    requires multiset(a) == multiset(b)
    ensures DepartureProduct(a) == DepartureProduct(b)
    decreases |a|
  {
    if a != [] {
      assert a[0] in multiset(b);
      var i :| 0 <= i < |b| && b[i] == a[0];
      var rest := b[..i] + b[i + 1..];
      assert b == b[..i] + [b[i]] + b[i + 1..];
      assert a == [a[0]] + a[1..];
      assert multiset(a) == multiset{a[0]} + multiset(a[1..]);
      assert multiset(b) == multiset(b[..i]) + multiset{b[i]} + multiset(b[i + 1..]);
      assert multiset(rest) == multiset(b[..i]) + multiset(b[i + 1..]);
      forall x
        ensures multiset(a[1..])[x] == multiset(rest)[x]
      {
        assert multiset(a)[x] == multiset{a[0]}[x] + multiset(a[1..])[x];
        assert multiset(b)[x] == multiset(b[..i])[x] + multiset{b[i]}[x] + multiset(b[i + 1..])[x];
      }
      assert multiset(a[1..]) == multiset(rest);
      DepartureProductPermutes(a[1..], rest);
      DepartureProductRemove(b, i);
    } else {
      assert |b| == |multiset(b)| == 0;
    }
  }

  /** `part2`, with the sweep budget `fuel`: an answer is the "departure"
      product of a complete settling of your ticket. */
  function Part2(lines: seq<string>, fuel: nat): (r: Option<nat>)
    ensures r.Some? ==> ReadNotes(lines).Some?
    ensures r.Some? ==>
      var n := ReadNotes(lines).value;
      exists found :: Complete(n.your, n.rules, ValidTickets(n.rules, n.nearby), found) && r.value == DepartureProduct(found)
  {
    match ReadNotes(lines)
    case None => None
    case Some(n) =>
      match Infer(n, fuel)
      case None => None
      case Some(found) => Some(DepartureProduct(found))
  }

  // ---------------------------------------------------- part2_alternative

  /** The positions from `p` below `n` whose column fits `rule`, ascending;
      `None` when a ticket is too short. */
  function ValidPositions(tickets: seq<Ticket>, rule: Rule, p: nat, n: nat): (r: Option<seq<nat>>)
    requires p <= n
    ensures r.Some? ==> forall k :: 0 <= k < |r.value| ==> p <= r.value[k] < n && Column(tickets, rule, r.value[k])
    ensures r.Some? ==> forall q :: p <= q < n && Column(tickets, rule, q) ==> q in r.value
    ensures r.Some? ==> forall i, j :: 0 <= i < j < |r.value| ==> r.value[i] < r.value[j]
    ensures (forall k :: 0 <= k < |tickets| ==> n <= |tickets[k]|) ==> r.Some?
    decreases n - p
  {
    if p == n then Some([])
    else
      match AnyRejects(tickets, rule, p)
      case None => None
      case Some(rejects) =>
        match ValidPositions(tickets, rule, p + 1, n)
        case None => None
        case Some(qs) => if rejects then Some(qs) else Some([p] + qs)
  }

  /** A rule with the positions it may take: an entry of
      `inferred_rules_matches`. */
  datatype Candidate = Candidate(field: Field, positions: seq<nat>)

  /** `c` lists, ascending, exactly the positions below `n` whose column fits
      its rule. */
  predicate Candidacy(tickets: seq<Ticket>, n: nat, c: Candidate)
  {
    (forall k :: 0 <= k < |c.positions| ==> c.positions[k] < n && Column(tickets, c.field.rule, c.positions[k]))
    && (forall q :: 0 <= q < n && Column(tickets, c.field.rule, q) ==> q in c.positions)
    && (forall i, j :: 0 <= i < j < |c.positions| ==> c.positions[i] < c.positions[j])
  }

  /** The first loop of `part2_alternative`: each rule with its valid
      positions, in rule order. */
  function CandidatesOf(rules: seq<Field>, tickets: seq<Ticket>, n: nat): (r: Option<seq<Candidate>>)
    ensures r.Some? ==> |r.value| == |rules|
    ensures r.Some? ==> forall k :: 0 <= k < |rules| ==> r.value[k].field == rules[k] && Candidacy(tickets, n, r.value[k])
  {
    if rules == [] then Some([])
    else
      match ValidPositions(tickets, rules[0].rule, 0, n)
      case None => None
      case Some(qs) =>
        match CandidatesOf(rules[1..], tickets, n)
        case None => None
        case Some(cs) =>
          assert forall k :: 1 <= k < |rules| ==> rules[1..][k - 1] == rules[k];
          Some([Candidate(rules[0], qs)] + cs)
  }

  function Count(c: Candidate): int
  {
    |c.positions|
  }

  /** `sort_by` on the number of valid positions, fewest first; the sort is
      stable, as Rust's `sort_by` is. */
  function ByCount(cs: seq<Candidate>): (r: seq<Candidate>)
    ensures |r| == |cs| && multiset(r) == multiset(cs)
    ensures forall i, j :: 0 <= i < j < |r| ==> |r[i].positions| <= |r[j].positions|
  {
    var r := SortByKey(cs, Count);
    assert forall i, j :: 0 <= i < j < |r| ==> Count(r[i]) <= Count(r[j]);
    r
  }

  /** `find(|p| !filled_positions.contains(p))`: the first of `qs` not yet
      filled, or `None` when all are (the `unwrap` panics). */
  function FirstUnfilled(qs: seq<nat>, filled: set<nat>): (r: Option<nat>)
    ensures r.Some? ==> r.value !in filled
    ensures r.Some? ==> exists i :: 0 <= i < |qs| && qs[i] == r.value && (forall j :: 0 <= j < i ==> qs[j] in filled)
    ensures r.None? ==> forall k :: 0 <= k < |qs| ==> qs[k] in filled
  {
    if qs == [] then None
    else if qs[0] !in filled then Some(qs[0])
    else
      var r := FirstUnfilled(qs[1..], filled);
      assert forall k :: 1 <= k < |qs| ==> qs[1..][k - 1] == qs[k];
      if r.Some? then
        var i :| 0 <= i < |qs[1..]| && qs[1..][i] == r.value && (forall j :: 0 <= j < i ==> qs[1..][j] in filled);
        assert qs[i + 1] == r.value;
        r
      else r
  }

  /** The factor an assignment contributes to the answer. */
  function Factor(a: Assignment): nat
  {
    if IsDeparture(a.field.name) then a.value else 1
  }

  /** Every position a candidate lists lies on your ticket. */
  predicate OnTicket(cs: seq<Candidate>, your: Ticket)
  {
    forall k, m :: 0 <= k < |cs| && 0 <= m < |cs[k].positions| ==> cs[k].positions[m] < |your|
  }

  /** The second loop of `part2_alternative` from position `i` on: the `i`-th
      rule by count takes its first unfilled position, which is then filled,
      and multiplies `total` by your value there when it is a "departure"
      rule. `None` when there are fewer rules than positions (the index
      `inferred_rules_matches[position]` panics) or no position is left. */
  function Fill(cs: seq<Candidate>, your: Ticket, i: nat, filled: set<nat>, total: nat): (r: Option<(seq<Assignment>, nat)>)
    requires i <= |your| && OnTicket(cs, your)
    decreases |your| - i
  {
    if i == |your| then Some(([], total))
    else if i >= |cs| then None
    else
      match FirstUnfilled(cs[i].positions, filled)
      case None => None
      case Some(q) =>
        var a := Assignment(cs[i].field, q, your[q]);
        match Fill(cs, your, i + 1, filled + {q}, if IsDeparture(cs[i].field.name) then total * your[q] else total)
        case None => None
        case Some(rest) => Some(([a] + rest.0, rest.1))
  }

  /** What `Fill` settles from rule `i` on: one position per remaining
      rule, in sorted order, each a position that rule lists, with your value
      there; no position is taken twice or was filled before. */
  predicate Filled(cs: seq<Candidate>, your: Ticket, i: nat, filled: set<nat>, found: seq<Assignment>)
  {
    i + |found| == |your|
    && (forall k :: 0 <= k < |found| ==>
          i + k < |cs| && found[k].field == cs[i + k].field && found[k].position in cs[i + k].positions
          && found[k].position < |your| && found[k].value == your[found[k].position]
          && found[k].position !in filled)
    && (forall j, k :: 0 <= j < k < |found| ==> found[j].position != found[k].position)
  }

  /** `Fill` settles as `Filled` says ... */
  lemma {:induction false} FillFilled(cs: seq<Candidate>, your: Ticket, i: nat, filled: set<nat>, total: nat)
    requires i <= |your| && OnTicket(cs, your)
    requires Fill(cs, your, i, filled, total).Some?
    ensures Filled(cs, your, i, filled, Fill(cs, your, i, filled, total).value.0)
    decreases |your| - i
  {
    if i < |your| {
      var q := FirstUnfilled(cs[i].positions, filled).value;
      var a := Assignment(cs[i].field, q, your[q]);
      var next := if IsDeparture(cs[i].field.name) then total * your[q] else total;
      FillFilled(cs, your, i + 1, filled + {q}, next);
      var rest := Fill(cs, your, i + 1, filled + {q}, next).value;
      assert Fill(cs, your, i, filled, total).value.0 == [a] + rest.0;
      FillStep(cs, your, i, filled, a, rest.0);
    }
  }

  /** ... and its total is the starting total times the "departure"
      values. */
  lemma {:induction false} FillTotal(cs: seq<Candidate>, your: Ticket, i: nat, filled: set<nat>, total: nat)
    requires i <= |your| && OnTicket(cs, your)
    requires Fill(cs, your, i, filled, total).Some?
    ensures Fill(cs, your, i, filled, total).value.1 == total * DepartureProduct(Fill(cs, your, i, filled, total).value.0)
    decreases |your| - i
  {
    if i < |your| {
      var q := FirstUnfilled(cs[i].positions, filled).value;
      var a := Assignment(cs[i].field, q, your[q]);
      var next := if IsDeparture(cs[i].field.name) then total * your[q] else total;
      FillTotal(cs, your, i + 1, filled + {q}, next);
      var rest := Fill(cs, your, i + 1, filled + {q}, next).value;
      var found := [a] + rest.0;
      assert Fill(cs, your, i, filled, total).value == (found, rest.1);
      assert DepartureProduct(found) == Factor(a) * DepartureProduct(rest.0) by {
        assert found[1..] == rest.0;
      }
      assert next == total * Factor(a);
      MulRegroup(total, Factor(a), DepartureProduct(rest.0));
    }
  }

  lemma MulRegroup(x: nat, y: nat, z: nat)
    ensures (x * y) * z == x * (y * z)
  {
  }

  lemma FillStep(cs: seq<Candidate>, your: Ticket, i: nat, filled: set<nat>, a: Assignment, rest: seq<Assignment>)
    requires i < |cs| && a.field == cs[i].field && a.position in cs[i].positions
    requires a.position < |your| && a.value == your[a.position] && a.position !in filled
    requires Filled(cs, your, i + 1, filled + {a.position}, rest)
    ensures Filled(cs, your, i, filled, [a] + rest)
  {
    var found := [a] + rest;
    assert found[0] == a;
    assert forall k :: 1 <= k < |found| ==> found[k] == rest[k - 1];
    assert forall k :: 0 <= k < |rest| ==> rest[k].position != a.position;
  }

  /** `part2_alternative`'s settling on parsed notes: the assignments in
      sorted order and the product. */
  function Alternative(n: Notes): (r: Option<(seq<Assignment>, nat)>)
  {
    var tickets := ValidTickets(n.rules, n.nearby);
    match CandidatesOf(n.rules, tickets, |n.your|)
    case None => None
    case Some(cs) =>
      var sorted := ByCount(cs);
      assert OnTicket(sorted, n.your) by {
        forall k, m | 0 <= k < |sorted| && 0 <= m < |sorted[k].positions|
          ensures sorted[k].positions[m] < |n.your|
        {
          assert sorted[k] in multiset(cs);
        }
      }
      Fill(sorted, n.your, 0, {}, 1)
  }

  /** Sorting keeps every candidate a rule of the notes with its valid
      positions. */
  lemma SortedCandidates(rules: seq<Field>, tickets: seq<Ticket>, n: nat, cs: seq<Candidate>)
    requires CandidatesOf(rules, tickets, n) == Some(cs)
    ensures forall k :: 0 <= k < |ByCount(cs)| ==> ByCount(cs)[k].field in rules && Candidacy(tickets, n, ByCount(cs)[k])
  {
    var sorted := ByCount(cs);
    forall k | 0 <= k < |sorted|
      ensures sorted[k].field in rules && Candidacy(tickets, n, sorted[k])
    {
      assert sorted[k] in multiset(cs);
      var m :| 0 <= m < |cs| && cs[m] == sorted[k];
    }
  }

  /** Each position of your ticket is taken once, by a rule of the notes
      that fits its column, and the answer is the product of the
      "departure" values. */
  lemma AlternativeSound(n: Notes)
    requires Alternative(n).Some?
    ensures |Alternative(n).value.0| == |n.your|
    ensures forall k :: 0 <= k < |Alternative(n).value.0| ==>
      Fits(n.your, n.rules, ValidTickets(n.rules, n.nearby), Alternative(n).value.0[k])
    ensures forall j, k :: 0 <= j < k < |Alternative(n).value.0| ==>
      Alternative(n).value.0[j].position != Alternative(n).value.0[k].position
    ensures Alternative(n).value.1 == DepartureProduct(Alternative(n).value.0)
  {
    var tickets := ValidTickets(n.rules, n.nearby);
    var cs := CandidatesOf(n.rules, tickets, |n.your|).value;
    var sorted := ByCount(cs);
    SortedCandidates(n.rules, tickets, |n.your|, cs);
    assert OnTicket(sorted, n.your);
    assert Alternative(n) == Fill(sorted, n.your, 0, {}, 1);
    FillFilled(sorted, n.your, 0, {}, 1);
    FillTotal(sorted, n.your, 0, {}, 1);
    var found := Alternative(n).value.0;
    forall k | 0 <= k < |found|
      ensures Fits(n.your, n.rules, tickets, found[k])
    {
      var q := found[k].position;
      assert q in sorted[k].positions;
      var i :| 0 <= i < |sorted[k].positions| && sorted[k].positions[i] == q;
    }
  }

  /** `part2_alternative`: an answer is the "departure" product of an
      assignment that gives every position of your ticket one sound rule. */
  function Part2Alternative(lines: seq<string>): (r: Option<nat>)
    ensures r.Some? ==> ReadNotes(lines).Some?
    ensures r.Some? ==>
      var n := ReadNotes(lines).value;
      exists found: seq<Assignment> ::
        && |found| == |n.your|
        && (forall k :: 0 <= k < |found| ==> Fits(n.your, n.rules, ValidTickets(n.rules, n.nearby), found[k]))
        && (forall j, k :: 0 <= j < k < |found| ==> found[j].position != found[k].position)
        && r.value == DepartureProduct(found)
  {
    match ReadNotes(lines)
    case None => None
    case Some(n) =>
      match Alternative(n)
      case None => None
      case Some(res) =>
        AlternativeSound(n);
        Some(res.1)
  }
}
