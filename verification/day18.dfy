/** Day 18: operation order. A tokenizer turns each line into digits,
    parentheses, `+` and `*`; a recursive evaluator applies the operators
    strictly left to right. The second part rewrites the text (wrap it in
    parentheses, double every parenthesis, turn " * " into ") * (") so that
    the same evaluator gives `+` priority over `*`. */
module Day18 {
  import opened Wrappers
  import opened Seqs

  // ------------------------------------------------------------- tokens

  datatype Token = Num(n: nat) | LParen | RParen | Plus | Mul

  /** The token a character stands for; every other character is skipped. */
  function TokenOf(c: char): Option<Token>
  {
    if c == '(' then Some(LParen)
    else if c == ')' then Some(RParen)
    else if c == '+' then Some(Plus)
    else if c == '*' then Some(Mul)
    else if '0' <= c <= '9' then Some(Num(c as int - '0' as int))
    else None
  }

  /** The tokenizer loop of `parse`. */
  function Tokenize(line: string): (ts: seq<Token>)
    ensures |ts| <= |line|
  {
    if line == [] then [] else TokenText(line[0]) + Tokenize(line[1..])
  }

  /** The tokens of one character: none, or the one it stands for. */
  function TokenText(c: char): seq<Token>
  {
    match TokenOf(c)
    case Some(t) => [t]
    case None => []
  }

  /** Tokenizing goes character by character. */
  lemma {:induction false} TokenizeAppend(a: string, b: string)
    ensures Tokenize(a + b) == Tokenize(a) + Tokenize(b)
  {
    if a != [] {
      assert (a + b)[0] == a[0] && (a + b)[1..] == a[1..] + b;
      TokenizeAppend(a[1..], b);
      assert Tokenize(a + b) == TokenText(a[0]) + Tokenize(a[1..] + b);
      assert Tokenize(a) == TokenText(a[0]) + Tokenize(a[1..]);
      assert Tokenize(a + b) == TokenText(a[0]) + (Tokenize(a[1..]) + Tokenize(b));
    } else {
      assert a + b == b;
    }
  }

  // ---------------------------------------------------------- evaluator

  /** `operand`: a number, or a parenthesised expression evaluated from the
      next token on. Reading past the end or a token that is not an operand
      panics (`None`). The position comes back past the operand. */
  function Operand(ts: seq<Token>, pos: nat): (r: Option<(nat, nat)>)
    requires pos <= |ts|
    ensures r.Some? ==> pos < |ts| && pos < r.value.1
    decreases |ts| - pos, 1
  {
    if pos == |ts| then None
    else
      match ts[pos]
      case Num(n) => Some((n, pos + 1))
      case LParen => Evaluate(ts, pos + 1)
      case _ => None
  }

  /** `evaluate`: an operand, then the `while` loop. */
  function Evaluate(ts: seq<Token>, pos: nat): (r: Option<(nat, nat)>)
    requires pos <= |ts|
    ensures r.Some? ==> pos < |ts| && pos < r.value.1
    decreases |ts| - pos, 2
  {
    match Operand(ts, pos)
    case None => None
    case Some(o) => Continue(ts, o.0, o.1)
  }

  /** The `while` loop of `evaluate`: as long as an operator follows, apply
      it to the value so far and the next operand; at the end, or at any
      other token, stop and return the position one past it. */
  function Continue(ts: seq<Token>, value: nat, pos: nat): (r: Option<(nat, nat)>)
    ensures r.Some? ==> pos < r.value.1
    decreases if pos < |ts| then |ts| - pos else 0, 3
  {
    if pos < |ts| && (ts[pos] == Plus || ts[pos] == Mul) then
      match Operand(ts, pos + 1)
      case None => None
      case Some(o) => Continue(ts, if ts[pos] == Plus then value + o.0 else value * o.0, o.1)
    else Some((value, pos + 1))
  }

  /** `parse`: tokenize the line and evaluate from the first token. A line
      without tokens panics; a line whose tokens are those of an expression
      gives its left-to-right value. */
  function Parse(line: string): (r: Option<nat>)
    ensures Tokenize(line) == [] ==> r.None?
    ensures forall e :: Valid(e) && Tokenize(line) == ExprTokens(e) ==> r == Some(Value(e))
  {
    EvaluateTokens(Tokenize(line));
    match Evaluate(Tokenize(line), 0)
    case Some(r) => Some(r.0)
    case None => None
  }

  // ---------------------------------------------------------- expressions

  datatype Op = Add | Times

  /** Well-formed expressions: terms joined by operators, a term being a
      digit or a parenthesised expression. */
  datatype Term = Digit(d: nat) | Group(e: Expr)
  datatype Expr = Last(t: Term) | More(t: Term, op: Op, rest: Expr)

  /** Every digit is a single decimal digit. */
  predicate ValidTerm(t: Term)
    decreases t
  {
    match t
    case Digit(d) => d < 10
    case Group(e) => Valid(e)
  }

  predicate Valid(e: Expr)
    decreases e
  {
    match e
    case Last(t) => ValidTerm(t)
    case More(t, _, r) => ValidTerm(t) && Valid(r)
  }

  function Apply(op: Op, a: nat, b: nat): nat
  {
    if op == Add then a + b else a * b
  }

  /** The value with both operators applied strictly left to right. */
  function TermValue(t: Term): nat
    decreases t
  {
    match t
    case Digit(d) => d
    case Group(e) => Value(e)
  }

  function Value(e: Expr): nat
    decreases e
  {
    match e
    case Last(t) => TermValue(t)
    case More(t, op, r) => Fold(TermValue(t), op, r)
  }

  /** `acc op e`, continuing left to right. */
  function Fold(acc: nat, op: Op, e: Expr): nat
    decreases e
  {
    match e
    case Last(t) => Apply(op, acc, TermValue(t))
    case More(t, op2, r) => Fold(Apply(op, acc, TermValue(t)), op2, r)
  }

  /** The value with `+` binding tighter than `*`: `pending + e`, where the
      pending sum joins the first run of additions of `e`. */
  function PrecTerm(t: Term): nat
    decreases t
  {
    match t
    case Digit(d) => d
    case Group(e) => Prec(0, e)
  }

  function Prec(pending: nat, e: Expr): nat
    decreases e
  {
    match e
    case Last(t) => pending + PrecTerm(t)
    case More(t, Add, r) => Prec(pending + PrecTerm(t), r)
    case More(t, Times, r) => (pending + PrecTerm(t)) * Prec(0, r)
  }

  // ------------------------------------------------------ text and tokens

  /** The tokens of an expression, with the tokens written for an opening
      parenthesis, a closing one and a multiplication as parameters. */
  function TermTokensWith(t: Term, open: seq<Token>, close: seq<Token>, times: seq<Token>): seq<Token>
    decreases t
  {
    match t
    case Digit(d) => [Num(d)]
    case Group(e) => open + TokensWith(e, open, close, times) + close
  }

  function TokensWith(e: Expr, open: seq<Token>, close: seq<Token>, times: seq<Token>): seq<Token>
    decreases e
  {
    match e
    case Last(t) => TermTokensWith(t, open, close, times)
    case More(t, op, r) =>
      TermTokensWith(t, open, close, times) + (if op == Add then [Plus] else times) + TokensWith(r, open, close, times)
  }

  function TermTokens(t: Term): seq<Token>
  {
    TermTokensWith(t, [LParen], [RParen], [Mul])
  }

  function ExprTokens(e: Expr): seq<Token>
  {
    TokensWith(e, [LParen], [RParen], [Mul])
  }

  function DigitChar(d: nat): char
    requires d < 10
  {
    ('0' as int + d) as char
  }

  /** An expression written out, with single spaces around the operators and
      the texts for the parentheses and the multiplication as parameters. */
  function ShowTermWith(t: Term, open: string, close: string, times: string): (s: string)
    requires ValidTerm(t)
    ensures s != []
    decreases t
  {
    match t
    case Digit(d) => [DigitChar(d)]
    case Group(e) => open + ShowWith(e, open, close, times) + close
  }

  function ShowWith(e: Expr, open: string, close: string, times: string): (s: string)
    requires Valid(e)
    ensures s != []
    decreases e
  {
    match e
    case Last(t) => ShowTermWith(t, open, close, times)
    case More(t, op, r) =>
      ShowTermWith(t, open, close, times) + (if op == Add then " + " else times) + ShowWith(r, open, close, times)
  }

  /** The usual text of an expression, as the puzzle input writes it. */
  function Show(e: Expr): string
    requires Valid(e)
  {
    ShowWith(e, "(", ")", " * ")
  }

  lemma TokenizeDigit(d: nat)
    requires d < 10
    ensures Tokenize([DigitChar(d)]) == [Num(d)]
  {
  }

  /** Tokenizing text written out gives the tokens written out. */
  lemma {:induction false} TokenizeShowTerm(t: Term, open: string, close: string, times: string)
    requires ValidTerm(t)
    ensures Tokenize(ShowTermWith(t, open, close, times))
         == TermTokensWith(t, Tokenize(open), Tokenize(close), Tokenize(times))
    decreases t
  {
    match t
    case Digit(d) => TokenizeDigit(d);
    case Group(e) =>
      TokenizeShow(e, open, close, times);
      TokenizeAppend(open, ShowWith(e, open, close, times));
      TokenizeAppend(open + ShowWith(e, open, close, times), close);
  }

  lemma {:induction false} TokenizeShow(e: Expr, open: string, close: string, times: string)
    requires Valid(e)
    ensures Tokenize(ShowWith(e, open, close, times)) == TokensWith(e, Tokenize(open), Tokenize(close), Tokenize(times))
    decreases e
  {
    match e
    case Last(t) => TokenizeShowTerm(t, open, close, times);
    case More(t, op, r) =>
      var a := ShowTermWith(t, open, close, times);
      var sep := if op == Add then " + " else times;
      var b := ShowWith(r, open, close, times);
      TokenizeShowTerm(t, open, close, times);
      TokenizeShow(r, open, close, times);
      TokenizeAppend(a, sep);
      TokenizeAppend(a + sep, b);
      TokenizePlusSign();
  }

  lemma TokenizePlusSign()
    ensures Tokenize(" + ") == [Plus]
  {
    assert Tokenize(" + ") == TokenText(' ') + Tokenize("+ ");
  }

  // ------------------------------------------------ evaluating expressions

  /** `xs` sits in `ts` from position `pos` on. */
  predicate At(ts: seq<Token>, pos: nat, xs: seq<Token>)
  {
    pos + |xs| <= |ts| && forall k :: 0 <= k < |xs| ==> ts[pos + k] == xs[k]
  }

  /** Position `p` ends an expression: the end, or a token that is no operator. */
  predicate Stops(ts: seq<Token>, p: nat)
  {
    p >= |ts| || (ts[p] != Plus && ts[p] != Mul)
  }

  lemma AtAppend(ts: seq<Token>, pos: nat, a: seq<Token>, b: seq<Token>)
    requires At(ts, pos, a + b)
    ensures At(ts, pos, a) && At(ts, pos + |a|, b)
  {
    assert forall k :: 0 <= k < |a| ==> (a + b)[k] == a[k];
    assert forall k :: 0 <= k < |b| ==> (a + b)[|a| + k] == b[k];
  }

  lemma AtHead(ts: seq<Token>, pos: nat, xs: seq<Token>)
    requires At(ts, pos, xs) && xs != []
    ensures pos < |ts| && ts[pos] == xs[0]
  {
    assert ts[pos + 0] == xs[0];
  }

  /** `operand` reads a term written at `pos` and returns its left-to-right
      value and the position just after it. */
  lemma {:induction false} OperandTerm(t: Term, ts: seq<Token>, pos: nat)
    requires At(ts, pos, TermTokens(t))
    ensures Operand(ts, pos) == Some((TermValue(t), pos + |TermTokens(t)|))
    decreases t
  {
    match t
    case Digit(d) => AtHead(ts, pos, TermTokens(t));
    case Group(e) =>
      AtAppend(ts, pos, [LParen] + ExprTokens(e), [RParen]);
      AtAppend(ts, pos, [LParen], ExprTokens(e));
      AtHead(ts, pos, [LParen]);
      AtHead(ts, pos + 1 + |ExprTokens(e)|, [RParen]);
      EvaluateExpr(e, ts, pos + 1);
  }

  /** `evaluate` reads an expression written at `pos` and ended by a token
      that is no operator, or by the end: it returns the expression's value
      with the operators applied left to right, and the position one past
      the end. */
  lemma {:induction false} EvaluateExpr(e: Expr, ts: seq<Token>, pos: nat)
    requires At(ts, pos, ExprTokens(e)) && Stops(ts, pos + |ExprTokens(e)|)
    ensures Evaluate(ts, pos) == Some((Value(e), pos + |ExprTokens(e)| + 1))
    decreases e
  {
    match e
    case Last(t) =>
      OperandTerm(t, ts, pos);
    case More(t, op, r) =>
      var tt := TermTokens(t);
      var sep := if op == Add then [Plus] else [Mul];
      TokensMore(t, op, r);
      AtAppend(ts, pos, tt + sep, ExprTokens(r));
      AtAppend(ts, pos, tt, sep);
      OperandTerm(t, ts, pos);
      AtHead(ts, pos + |tt|, sep);
      ContinueExpr(TermValue(t), op, r, ts, pos + |tt|);
  }

  lemma TokensMore(t: Term, op: Op, r: Expr)
    ensures ExprTokens(More(t, op, r)) == TermTokens(t) + (if op == Add then [Plus] else [Mul]) + ExprTokens(r)
  {
  }

  /** The loop of `evaluate` at an operator followed by the rest of an
      expression folds the rest in, left to right. */
  lemma {:induction false} ContinueExpr(acc: nat, op: Op, e: Expr, ts: seq<Token>, pos: nat)
    requires pos < |ts| && ts[pos] == (if op == Add then Plus else Mul)
    requires At(ts, pos + 1, ExprTokens(e)) && Stops(ts, pos + 1 + |ExprTokens(e)|)
    ensures Continue(ts, acc, pos) == Some((Fold(acc, op, e), pos + 1 + |ExprTokens(e)| + 1))
    decreases e
  {
    match e
    case Last(t) =>
      OperandTerm(t, ts, pos + 1);
      ContinueLast(acc, op, t, ts, pos);
    case More(t, op2, r) =>
      var tt := TermTokens(t);
      var sep := if op2 == Add then [Plus] else [Mul];
      TokensMore(t, op2, r);
      AtAppend(ts, pos + 1, tt + sep, ExprTokens(r));
      AtAppend(ts, pos + 1, tt, sep);
      OperandTerm(t, ts, pos + 1);
      AtHead(ts, pos + 1 + |tt|, sep);
      ContinueExpr(Apply(op, acc, TermValue(t)), op2, r, ts, pos + 1 + |tt|);
  }

  /** The last operand of an expression ends the loop. */
  lemma ContinueLast(acc: nat, op: Op, t: Term, ts: seq<Token>, pos: nat)
    requires pos < |ts| && ts[pos] == (if op == Add then Plus else Mul)
    requires Operand(ts, pos + 1) == Some((TermValue(t), pos + 1 + |TermTokens(t)|))
    requires Stops(ts, pos + 1 + |ExprTokens(Last(t))|)
    ensures Continue(ts, acc, pos) == Some((Fold(acc, op, Last(t)), pos + 1 + |ExprTokens(Last(t))| + 1))
  {
  }

  /** The tokens of any valid expression evaluate to its value. */
  lemma EvaluateTokens(ts: seq<Token>)
    ensures forall e :: Valid(e) && ts == ExprTokens(e) ==> Evaluate(ts, 0) == Some((Value(e), |ts| + 1))
  {
    forall e | Valid(e) && ts == ExprTokens(e)
      ensures Evaluate(ts, 0) == Some((Value(e), |ts| + 1))
    {
      EvaluateExpr(e, ts, 0);
    }
  }

  /** `parse` of a written expression is its value with the operators
      applied left to right. */
  lemma ParseShow(e: Expr)
    requires Valid(e)
    ensures Parse(Show(e)) == Some(Value(e))
  {
    TokenizeShow(e, "(", ")", " * ");
    assert Tokenize("(") == [LParen] && Tokenize(")") == [RParen] && Tokenize(" * ") == [Mul];
    EvaluateExpr(e, ExprTokens(e), 0);
  }

  // --------------------------------------------------------------- run1

  /** The sum of the values, or `None` when one of them is missing (a line
      that panics). */
  function Total(values: seq<Option<nat>>): (r: Option<nat>)
    ensures r.Some? <==> forall i :: 0 <= i < |values| ==> values[i].Some?
  {
    if values == [] then Some(0)
    else
      match (Total(values[..|values| - 1]), values[|values| - 1])
      case (Some(a), Some(b)) => Some(a + b)
      case _ => None
  }

  function SumNat(s: seq<nat>): nat
  {
    if s == [] then 0 else SumNat(s[..|s| - 1]) + s[|s| - 1]
  }

  /** The total of values that are all present is their sum. */
  lemma {:induction false} TotalSome(values: seq<Option<nat>>, s: seq<nat>)
    requires |values| == |s| && forall i :: 0 <= i < |s| ==> values[i] == Some(s[i])
    ensures Total(values) == Some(SumNat(s))
  {
    if s != [] {
      TotalSome(values[..|values| - 1], s[..|s| - 1]);
    }
  }

  /** `run1`: the sum of `parse` over the lines. */
  function Run1(lines: seq<string>): (r: Option<nat>)
    ensures r.Some? <==> forall i :: 0 <= i < |lines| ==> Parse(lines[i]).Some?
  {
    var values := seq(|lines|, i requires 0 <= i < |lines| => Parse(lines[i]));
    assert forall i :: 0 <= i < |lines| ==> values[i] == Parse(lines[i]);
    Total(values)
  }

  /** On written expressions `run1` sums their left-to-right values. */
  lemma Run1Show(es: seq<Expr>)
    requires forall i :: 0 <= i < |es| ==> Valid(es[i])
    ensures Run1(seq(|es|, i requires 0 <= i < |es| => Show(es[i])))
         == Some(SumNat(seq(|es|, i requires 0 <= i < |es| => Value(es[i]))))
  {
    var lines := seq(|es|, i requires 0 <= i < |es| => Show(es[i]));
    forall i | 0 <= i < |es|
      ensures Parse(lines[i]) == Some(Value(es[i]))
    {
      ParseShow(es[i]);
    }
    TotalSome(seq(|lines|, i requires 0 <= i < |lines| => Parse(lines[i])),
              seq(|es|, i requires 0 <= i < |es| => Value(es[i])));
  }

  // ------------------------------------------------------------ replace

  /** `str::replace` with a non-empty pattern: scan left to right, replacing
      each occurrence that does not overlap an earlier one. */
  function Replace(s: string, pat: string, rep: string): string
    requires pat != []
    decreases |s|
  {
    if |s| < |pat| then s
    else if s[..|pat|] == pat then rep + Replace(s[|pat|..], pat, rep)
    else [s[0]] + Replace(s[1..], pat, rep)
  }

  /** No proper prefix of `pat` ends `a`: an occurrence cannot straddle a
      cut after `a`. */
  predicate NoStraddle(a: string, pat: string)
  {
    forall k :: 0 < k < |pat| && k <= |a| ==> a[|a| - k..] != pat[..k]
  }

  lemma NoStraddleDrop(a: string, pat: string, n: nat)
    requires n <= |a| && NoStraddle(a, pat)
    ensures NoStraddle(a[n..], pat)
  {
    forall k | 0 < k < |pat| && k <= |a[n..]|
      ensures a[n..][|a[n..]| - k..] != pat[..k]
    {
      assert a[n..][|a[n..]| - k..] == a[|a| - k..];
    }
  }

  /** Replacing in two texts one after the other is replacing in each, when
      no occurrence straddles the cut. */
  lemma {:induction false} ReplaceAppend(a: string, b: string, pat: string, rep: string)
    requires pat != [] && NoStraddle(a, pat)
    ensures Replace(a + b, pat, rep) == Replace(a, pat, rep) + Replace(b, pat, rep)
    decreases |a|
  {
    if a == [] {
      assert a + b == b;
    } else if |a + b| < |pat| {
    } else if |a| >= |pat| {
      assert (a + b)[..|pat|] == a[..|pat|];
      if a[..|pat|] == pat {
        assert (a + b)[|pat|..] == a[|pat|..] + b;
        NoStraddleDrop(a, pat, |pat|);
        ReplaceAppend(a[|pat|..], b, pat, rep);
      } else {
        ReplaceAppendStep(a, b, pat, rep);
      }
    } else {
      assert a[|a| - |a|..] == a;
      assert (a + b)[..|pat|][..|a|] == a;
      ReplaceAppendStep(a, b, pat, rep);
    }
  }

  /** The step of `ReplaceAppend` where the first character is kept. */
  lemma {:induction false} ReplaceAppendStep(a: string, b: string, pat: string, rep: string)
    requires pat != [] && NoStraddle(a, pat) && a != [] && |pat| <= |a + b|
    requires (a + b)[..|pat|] != pat && (|a| >= |pat| ==> a[..|pat|] != pat)
    ensures Replace(a + b, pat, rep) == Replace(a, pat, rep) + Replace(b, pat, rep)
    decreases |a|, 0
  {
    assert (a + b)[1..] == a[1..] + b;
    NoStraddleDrop(a, pat, 1);
    ReplaceAppend(a[1..], b, pat, rep);
  }

  /** A one-character pattern never straddles a cut. */
  lemma ReplaceCharAppend(a: string, b: string, c: char, rep: string)
    ensures Replace(a + b, [c], rep) == Replace(a, [c], rep) + Replace(b, [c], rep)
  {
    ReplaceAppend(a, b, [c], rep);
  }

  /** " * " never straddles a cut after a character other than a space or
      a star. */
  lemma ReplaceTimesAppend(a: string, b: string)
    requires a != [] && a[|a| - 1] != ' ' && a[|a| - 1] != '*'
    ensures Replace(a + b, " * ", ") * (") == Replace(a, " * ", ") * (") + Replace(b, " * ", ") * (")
  {
    forall k | 0 < k < 3 && k <= |a|
      ensures a[|a| - k..] != " * "[..k]
    {
      assert a[|a| - k..][k - 1] == a[|a| - 1];
    }
    assert NoStraddle(a, " * ");
    ReplaceAppend(a, b, " * ", ") * (");
  }

  /** Doubling one parenthesis character in written text doubles it in the
      texts for the parentheses and leaves everything else alone. */
  lemma {:induction false} ReplaceParenTerm(t: Term, open: string, close: string, times: string, c: char, rep: string)
    requires ValidTerm(t) && (c == '(' || c == ')')
    ensures Replace(ShowTermWith(t, open, close, times), [c], rep)
         == ShowTermWith(t, Replace(open, [c], rep), Replace(close, [c], rep), Replace(times, [c], rep))
    decreases t
  {
    match t
    case Digit(d) =>
      var x := [DigitChar(d)];
      assert x[..1] == x && x[1..] == [];
    case Group(e) =>
      ReplaceParen(e, open, close, times, c, rep);
      ReplaceCharAppend(open, ShowWith(e, open, close, times), c, rep);
      ReplaceCharAppend(open + ShowWith(e, open, close, times), close, c, rep);
  }

  lemma {:induction false} ReplaceParen(e: Expr, open: string, close: string, times: string, c: char, rep: string)
    requires Valid(e) && (c == '(' || c == ')')
    ensures Replace(ShowWith(e, open, close, times), [c], rep)
         == ShowWith(e, Replace(open, [c], rep), Replace(close, [c], rep), Replace(times, [c], rep))
    decreases e
  {
    match e
    case Last(t) => ReplaceParenTerm(t, open, close, times, c, rep);
    case More(t, op, r) =>
      var a := ShowTermWith(t, open, close, times);
      var sep := if op == Add then " + " else times;
      var b := ShowWith(r, open, close, times);
      ReplaceParenTerm(t, open, close, times, c, rep);
      ReplaceParen(r, open, close, times, c, rep);
      ReplaceCharAppend(a, sep, c, rep);
      ReplaceCharAppend(a + sep, b, c, rep);
      ReplacePlusSign(c, rep);
  }

  /** The text of an addition holds no parenthesis. */
  lemma ReplacePlusSign(c: char, rep: string)
    requires c == '(' || c == ')'
    ensures Replace(" + ", [c], rep) == " + "
  {
    assert " + "[..1] != [c] && " + "[1..] == "+ ";
    assert "+ "[..1] != [c] && "+ "[1..] == " ";
    assert " "[..1] != [c] && " "[1..] == [];
  }

  /** Written text starts with a digit or with the opening text. */
  lemma ShowTermFirst(t: Term, open: string, close: string, times: string)
    requires ValidTerm(t) && open != [] && open[0] == '('
    ensures ShowTermWith(t, open, close, times)[0] == '(' || '0' <= ShowTermWith(t, open, close, times)[0] <= '9'
  {
  }

  /** Written text ends with a digit or with the closing text. */
  lemma {:induction false} ShowLast(e: Expr, open: string, close: string, times: string)
    requires Valid(e) && close != [] && close[|close| - 1] == ')'
    ensures var s := ShowWith(e, open, close, times);
      s[|s| - 1] == ')' || '0' <= s[|s| - 1] <= '9'
    decreases e
  {
    match e
    case Last(t) =>
    case More(t, op, r) =>
      ShowLast(r, open, close, times);
  }

  /** Where " * " does not start, the first character is kept. */
  lemma ReplaceKeep(x: string)
    requires x != [] && (|x| < 3 || x[..3] != " * ")
    ensures Replace(x, " * ", ") * (") == [x[0]] + Replace(x[1..], " * ", ") * (")
  {
  }

  lemma PlusText(r: string)
    ensures " + " + r == [' '] + (['+'] + ([' '] + r))
  {
  }

  /** " + " before a term is kept as it is ... */
  lemma ReplacePlus(s: string)
    requires s != [] && s[0] != '*'
    ensures Replace(" + " + s, " * ", ") * (") == " + " + Replace(s, " * ", ") * (")
  {
    var r := Replace(s, " * ", ") * (");
    var z := [' '] + s;
    var y := ['+'] + z;
    var x := [' '] + y;
    assert |z| >= 3 ==> z[..3][1] == s[0];
    assert z[0] == ' ' && z[1..] == s;
    ReplaceKeep(z);
    assert |y| >= 3 ==> y[..3][0] == '+';
    assert y[0] == '+' && y[1..] == z;
    ReplaceKeep(y);
    assert x[..3][1] == '+';
    assert x[0] == ' ' && x[1..] == y;
    ReplaceKeep(x);
    assert Replace(x, " * ", ") * (") == [' '] + (['+'] + ([' '] + r));
    PlusText(r);
    PlusText(s);
  }

  /** ... and " * " is replaced. */
  lemma ReplaceStar(s: string)
    ensures Replace(" * " + s, " * ", ") * (") == ") * (" + Replace(s, " * ", ") * (")
  {
    assert (" * " + s)[..3] == " * ";
    assert (" * " + s)[3..] == s;
  }

  /** Replacing " * " in text with doubled parentheses replaces exactly the
      multiplication texts. */
  lemma {:induction false} ReplaceTimesTerm(t: Term)
    requires ValidTerm(t)
    ensures Replace(ShowTermWith(t, "((", "))", " * "), " * ", ") * (") == ShowTermWith(t, "((", "))", ") * (")
    decreases t
  {
    match t
    case Digit(d) =>
    case Group(e) =>
      var s := ShowWith(e, "((", "))", " * ");
      ReplaceTimes(e);
      ShowLast(e, "((", "))", " * ");
      ReplaceTimesAppend("((", s + "))");
      ReplaceTimesAppend(s, "))");
      assert "((" + s + "))" == "((" + (s + "))");
  }

  lemma {:induction false} ReplaceTimes(e: Expr)
    requires Valid(e)
    ensures Replace(ShowWith(e, "((", "))", " * "), " * ", ") * (") == ShowWith(e, "((", "))", ") * (")
    decreases e
  {
    match e
    case Last(t) => ReplaceTimesTerm(t);
    case More(t, op, r) =>
      var a := ShowTermWith(t, "((", "))", " * ");
      var sep := if op == Add then " + " else " * ";
      var b := ShowWith(r, "((", "))", " * ");
      ReplaceTimesTerm(t);
      ReplaceTimes(r);
      ShowLast(Last(t), "((", "))", " * ");
      ReplaceTimesAppend(a, sep + b);
      ShowFirst(r);
      ShowMore(t, op, r, "((", "))", " * ");
      ShowMore(t, op, r, "((", "))", ") * (");
      if op == Add {
        ReplacePlus(b);
      } else {
        ReplaceStar(b);
      }
  }

  /** The text of a longer expression: its first term, the operator, the rest. */
  lemma ShowMore(t: Term, op: Op, r: Expr, open: string, close: string, times: string)
    requires ValidTerm(t) && Valid(r)
    ensures ShowWith(More(t, op, r), open, close, times)
         == ShowTermWith(t, open, close, times) + ((if op == Add then " + " else times) + ShowWith(r, open, close, times))
  {
  }

  /** Written text with doubled parentheses starts with a digit or '('. */
  lemma ShowFirst(e: Expr)
    requires Valid(e)
    ensures ShowWith(e, "((", "))", " * ")[0] != '*'
  {
    match e
    case Last(t) => ShowTermFirst(t, "((", "))", " * ");
    case More(t, _, _) => ShowTermFirst(t, "((", "))", " * ");
  }

  // --------------------------------------------------------------- run2

  /** The rewrite of `run2`. */
  function Rewrite(line: string): string
  {
    "(" + Replace(Replace(Replace(line, "(", "(("), ")", "))"), " * ", ") * (") + ")"
  }

  /** The three replacements on a written expression. */
  lemma RewriteShow(e: Expr)
    requires Valid(e)
    ensures Rewrite(Show(e)) == "(" + ShowWith(e, "((", "))", ") * (") + ")"
  {
    ReplaceParen(e, "(", ")", " * ", '(', "((");
    assert Replace("(", "(", "((") == "((" && Replace(")", "(", "((") == ")" && Replace(" * ", "(", "((") == " * ";
    ReplaceParen(e, "((", ")", " * ", ')', "))");
    assert Replace("((", ")", "))") == "((" && Replace(")", ")", "))") == "))" && Replace(" * ", ")", "))") == " * ";
    ReplaceTimes(e);
  }

  /** The rewritten text read as an expression: each run of additions becomes
      a parenthesised group, the groups multiplied, and every parenthesised
      term becomes the group of its own rewrite. */
  function Size(e: Expr): nat
    decreases e
  {
    match e
    case Last(t) => TermSize(t)
    case More(t, _, r) => TermSize(t) + 1 + Size(r)
  }

  function TermSize(t: Term): nat
    decreases t
  {
    match t
    case Digit(_) => 1
    case Group(e) => 1 + Size(e)
  }

  /** All top-level operators of `e` are `op`. */
  predicate AllOps(e: Expr, op: Op)
  {
    match e
    case Last(_) => true
    case More(_, o, r) => o == op && AllOps(r, op)
  }

  function Regroup(t: Term): Term
    decreases TermSize(t), 0
  {
    match t
    case Digit(d) => Digit(d)
    case Group(e) => Group(Build(e))
  }

  /** The leading run of additions of `e`, regrouped, and what follows its
      first multiplication. */
  function Segment(e: Expr): (r: (Expr, Option<Expr>))
    ensures AllOps(r.0, Add)
    ensures r.1.Some? ==> Size(r.1.value) < Size(e)
    decreases Size(e), 1
  {
    match e
    case Last(t) => (Last(Regroup(t)), None)
    case More(t, Add, r) => (More(Regroup(t), Add, Segment(r).0), Segment(r).1)
    case More(t, Times, r) => (Last(Regroup(t)), Some(r))
  }

  function Build(e: Expr): (r: Expr)
    ensures AllOps(r, Times)
    decreases Size(e), 2
  {
    match Segment(e).1
    case None => Last(Group(Segment(e).0))
    case Some(r) => More(Group(Segment(e).0), Times, Build(r))
  }

  /** The tokens `run2` reads for a written expression. */
  function Rewritten(e: Expr): seq<Token>
  {
    TokensWith(e, [LParen, LParen], [RParen, RParen], [RParen, Mul, LParen])
  }

  lemma {:induction false} RegroupTokens(t: Term)
    ensures TermTokens(Regroup(t)) == TermTokensWith(t, [LParen, LParen], [RParen, RParen], [RParen, Mul, LParen])
    decreases TermSize(t), 0
  {
    match t
    case Digit(d) =>
    case Group(e) =>
      BuildTokens(e);
  }

  lemma {:induction false} SegmentTokens(e: Expr)
    ensures ExprTokens(Segment(e).0) + (match Segment(e).1 case None => [] case Some(r) => [RParen, Mul, LParen] + Rewritten(r))
         == Rewritten(e)
    decreases Size(e), 1
  {
    match e
    case Last(t) => RegroupTokens(t);
    case More(t, Add, r) =>
      RegroupTokens(t);
      SegmentTokens(r);
    case More(t, Times, r) =>
      RegroupTokens(t);
  }

  /** The regrouped expression has exactly the tokens `run2` reads. */
  lemma {:induction false} BuildTokens(e: Expr)
    ensures ExprTokens(Build(e)) == [LParen] + Rewritten(e) + [RParen]
    decreases Size(e), 2
  {
    SegmentTokens(e);
    var seg := Segment(e).0;
    match Segment(e).1
    case None =>
      assert Build(e) == Last(Group(seg));
      assert ExprTokens(seg) + [] == ExprTokens(seg);
      assert ExprTokens(Last(Group(seg))) == TermTokens(Group(seg));
    case Some(r) =>
      assert Build(e) == More(Group(seg), Times, Build(r));
      BuildTokens(r);
      assert ExprTokens(More(Group(seg), Times, Build(r))) == TermTokens(Group(seg)) + [Mul] + ExprTokens(Build(r));
      GroupsText(ExprTokens(seg), Rewritten(r));
  }

  lemma GroupsText(x: seq<Token>, y: seq<Token>)
    ensures [LParen] + x + [RParen] + [Mul] + ([LParen] + y + [RParen])
         == [LParen] + (x + ([RParen, Mul, LParen] + y)) + [RParen]
  {
  }

  /** A run of additions adds up. */
  lemma {:induction false} FoldAdd(a: nat, e: Expr)
    requires AllOps(e, Add)
    ensures Fold(a, Add, e) == a + Value(e)
    decreases e
  {
    match e
    case Last(t) =>
    case More(t, _, r) =>
      FoldAdd(a + TermValue(t), r);
      FoldAdd(TermValue(t), r);
  }

  /** A run of multiplications multiplies out. */
  lemma {:induction false} FoldTimes(a: nat, e: Expr)
    requires AllOps(e, Times)
    ensures Fold(a, Times, e) == a * Value(e)
    decreases e
  {
    match e
    case Last(t) =>
    case More(t, _, r) =>
      FoldTimes(a * TermValue(t), r);
      FoldTimes(TermValue(t), r);
      MulRegroup(a, TermValue(t), Value(r));
  }

  lemma MulRegroup(x: nat, y: nat, z: nat)
    ensures (x * y) * z == x * (y * z)
  {
  }

  lemma {:induction false} RegroupValue(t: Term)
    ensures TermValue(Regroup(t)) == PrecTerm(t)
    decreases TermSize(t), 0
  {
    match t
    case Digit(d) =>
    case Group(e) =>
      BuildValue(e);
  }

  /** A pending sum joins the first run of additions, which multiplies what
      follows the first multiplication. */
  lemma {:induction false} SegmentValue(x: nat, e: Expr)
    ensures Prec(x, e) == (x + Value(Segment(e).0)) * (match Segment(e).1 case None => 1 case Some(r) => Prec(0, r))
    decreases Size(e), 1
  {
    match e
    case Last(t) => RegroupValue(t);
    case More(t, Add, r) =>
      RegroupValue(t);
      SegmentValue(x + PrecTerm(t), r);
      FoldAdd(TermValue(Regroup(t)), Segment(r).0);
    case More(t, Times, r) =>
      RegroupValue(t);
  }

  /** Left to right, the regrouped expression has the value with `+` first. */
  lemma {:induction false} BuildValue(e: Expr)
    ensures Value(Build(e)) == Prec(0, e)
    decreases Size(e), 2
  {
    SegmentValue(0, e);
    match Segment(e).1
    case None =>
    case Some(r) =>
      BuildValue(r);
      FoldTimes(Value(Segment(e).0), Build(r));
  }

  /** `parse` of the rewrite of a written expression is its value with `+`
      binding tighter than `*`. */
  lemma ParseRewriteShow(e: Expr)
    requires Valid(e)
    ensures Parse(Rewrite(Show(e))) == Some(Prec(0, e))
  {
    RewriteShow(e);
    var s := ShowWith(e, "((", "))", ") * (");
    var ts := ExprTokens(Build(e));
    TokenizeShow(e, "((", "))", ") * (");
    assert Tokenize("((") == [LParen, LParen] && Tokenize("))") == [RParen, RParen];
    assert Tokenize(") * (") == [RParen, Mul, LParen];
    assert Tokenize(s) == Rewritten(e);
    TokenizeAppend("(", s);
    TokenizeAppend("(" + s, ")");
    assert Tokenize("(") == [LParen] && Tokenize(")") == [RParen];
    BuildTokens(e);
    assert Tokenize(Rewrite(Show(e))) == ts;
    assert At(ts, 0, ts);
    EvaluateExpr(Build(e), ts, 0);
    BuildValue(e);
  }

  /** `run2`: the sum of `parse` over the rewritten lines. */
  function Run2(lines: seq<string>): (r: Option<nat>)
    ensures r.Some? <==> forall i :: 0 <= i < |lines| ==> Parse(Rewrite(lines[i])).Some?
  {
    var values := seq(|lines|, i requires 0 <= i < |lines| => Parse(Rewrite(lines[i])));
    assert forall i :: 0 <= i < |lines| ==> values[i] == Parse(Rewrite(lines[i]));
    Total(values)
  }

  /** On written expressions `run2` sums their values with `+` first. */
  lemma Run2Show(es: seq<Expr>)
    requires forall i :: 0 <= i < |es| ==> Valid(es[i])
    ensures Run2(seq(|es|, i requires 0 <= i < |es| => Show(es[i])))
         == Some(SumNat(seq(|es|, i requires 0 <= i < |es| => Prec(0, es[i]))))
  {
    var lines := seq(|es|, i requires 0 <= i < |es| => Show(es[i]));
    forall i | 0 <= i < |es|
      ensures Parse(Rewrite(lines[i])) == Some(Prec(0, es[i]))
    {
      ParseRewriteShow(es[i]);
    }
    TotalSome(seq(|lines|, i requires 0 <= i < |lines| => Parse(Rewrite(lines[i]))),
              seq(|es|, i requires 0 <= i < |es| => Prec(0, es[i])));
  }
}
