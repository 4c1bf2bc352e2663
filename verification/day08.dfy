/** Day 8: the handheld console. A program of `acc`, `jmp` and `nop`
    instructions runs until an instruction is about to execute a second time or
    the instruction pointer leaves the program; the repair swaps one `nop` and
    `jmp` so that the program runs off its end. */
module Day08 {
  import opened Wrappers
  import opened Decimal
  import Seqs

  datatype Instruction = Acc(value: int) | Nop(value: int) | Jmp(value: int)

  /** `Computer::parse` for one line: `^(nop|acc|jmp) (-\d+|\+\d+)$` with the
      argument read as an `isize`. Anything else panics (`None`). */
  function ParseInstruction(line: string): (r: Option<Instruction>)
    ensures r.Some? ==> |line| >= 6 && line[3] == ' ' && (line[4] == '+' || line[4] == '-')
    ensures r.Some? ==> -(I64_LIMIT as int) <= r.value.value < I64_LIMIT
  {
    if |line| < 6 || line[3] != ' ' || (line[4] != '+' && line[4] != '-') || !AllDigits(line[5..]) then None
    else
      match ParseSigned(line[4..], I64_LIMIT)
      case None => None
      case Some(v) =>
        var op := line[..3];
        if op == "acc" then Some(Acc(v))
        else if op == "nop" then Some(Nop(v))
        else if op == "jmp" then Some(Jmp(v))
        else None
  }

  /** The line an instruction is written as, with its argument's sign explicit. */
  function Format(i: Instruction): string
  {
    var op := match i
      case Acc(_) => "acc"
      case Nop(_) => "nop"
      case Jmp(_) => "jmp";
    op + " " + (if i.value < 0 then "-" + ShowNat(-i.value) else "+" + ShowNat(i.value))
  }

  /** Parsing a written instruction gives it back. */
  lemma ParseFormat(i: Instruction)
    requires -(I64_LIMIT as int) <= i.value < I64_LIMIT
    ensures ParseInstruction(Format(i)) == Some(i)
  {
    var line := Format(i);
    var magnitude := if i.value < 0 then -i.value else i.value;
    var sign := if i.value < 0 then '-' else '+';
    var op := line[..3];
    assert line == op + " " + [sign] + ShowNat(magnitude);
    assert line[3] == ' ' && line[4] == sign;
    assert line[5..] == ShowNat(magnitude);
    assert line[4..][1..] == ShowNat(magnitude);
    DigitsValueShowNat(magnitude);
    assert ParseSigned(line[4..], I64_LIMIT) == Some(i.value);
    match i
    case Acc(_) => assert op == "acc";
    case Nop(_) => assert op == "nop";
    case Jmp(_) => assert op == "jmp";
  }

  /** `Computer::parse`: every line must parse. */
  function Parse(lines: seq<string>): (r: Option<seq<Instruction>>)
    ensures r.Some? <==> forall k :: 0 <= k < |lines| ==> ParseInstruction(lines[k]).Some?
    ensures r.Some? ==> |r.value| == |lines|
    ensures r.Some? ==> forall k :: 0 <= k < |lines| ==> Some(r.value[k]) == ParseInstruction(lines[k])
  {
    if lines == [] then Some([])
    else
      match ParseInstruction(lines[0])
      case None => None
      case Some(i) =>
        match Parse(lines[1..])
        case None => None
        case Some(rest) => Some([i] + rest)
  }

  /** Where the instruction pointer goes after executing `i` at `ip`. */
  function NextIp(i: Instruction, ip: int): int
  {
    match i
    case Jmp(v) => ip + v
    case _ => ip + 1
  }

  /** What executing `i` adds to the accumulator. */
  function AccDelta(i: Instruction): int
  {
    match i
    case Acc(v) => v
    case _ => 0
  }

  predicate InProgram(prog: seq<Instruction>, ip: int)
  {
    0 <= ip < |prog|
  }

  /** `path` is the sequence of instruction pointers executed from `start`, and
      `final` is where the last of them sent the pointer. */
  predicate Chain(prog: seq<Instruction>, path: seq<int>, start: int, final: int)
  {
    && (forall k :: 0 <= k < |path| ==> InProgram(prog, path[k]))
    && (path == [] ==> final == start)
    && (path != [] ==> path[0] == start)
    && (forall k :: 0 <= k < |path| - 1 ==> path[k + 1] == NextIp(prog[path[k]], path[k]))
    && (path != [] ==> final == NextIp(prog[path[|path| - 1]], path[|path| - 1]))
  }

  /** Sum of the accumulator changes along a path. */
  function AccAlong(prog: seq<Instruction>, path: seq<int>): int
    requires forall k :: 0 <= k < |path| ==> InProgram(prog, path[k])
  {
    if path == [] then 0
    else
      assert InProgram(prog, path[0]);
      AccDelta(prog[path[0]]) + AccAlong(prog, path[1..])
  }

  predicate Distinct(path: seq<int>)
  {
    forall i, j :: 0 <= i < j < |path| ==> path[i] != path[j]
  }

  function Range(n: nat): (s: set<int>)
    ensures |s| == n
    ensures forall i :: i in s <==> 0 <= i < n
  {
    if n == 0 then {} else Range(n - 1) + {n - 1}
  }

  /** The state `execute` stops in: the accumulator, the instruction pointer,
      and the instruction pointers executed on the way, in order. */
  datatype Outcome = Outcome(acc: int, ip: int, path: seq<int>)

  /** The `execute` loop from an intermediate state: `seen` is its `history`.
      Each step records the pointer, then applies the instruction. */
  function Run(prog: seq<Instruction>, acc: int, ip: int, seen: set<int>): (r: Outcome)
    requires seen <= Range(|prog|)
    ensures Chain(prog, r.path, ip, r.ip)
    ensures Distinct(r.path) && forall k :: 0 <= k < |r.path| ==> r.path[k] !in seen
    ensures r.acc == acc + AccAlong(prog, r.path)
    ensures r.ip in seen || !InProgram(prog, r.ip) || r.ip in r.path
    ensures |r.path| <= |prog| - |seen|
    decreases |prog| - |seen|
  {
    Seqs.SubsetCard(seen, Range(|prog|));
    if ip in seen || !InProgram(prog, ip) then Outcome(acc, ip, [])
    else
      var seen' := seen + {ip};
      assert |seen'| == |seen| + 1;
      Seqs.SubsetCard(seen', Range(|prog|));
      var r := Run(prog, acc + AccDelta(prog[ip]), NextIp(prog[ip], ip), seen');
      OutcomeCons(prog, acc, ip, seen, r);
      Outcome(r.acc, r.ip, [ip] + r.path)
  }

  /** The step case of `Run`: the outcome from the next pointer, with `ip`
      recorded, extended by `ip` is an outcome from `ip`. */
  lemma OutcomeCons(prog: seq<Instruction>, acc: int, ip: int, seen: set<int>, r: Outcome)
    requires InProgram(prog, ip) && ip !in seen
    requires Chain(prog, r.path, NextIp(prog[ip], ip), r.ip)
    requires Distinct(r.path) && forall k :: 0 <= k < |r.path| ==> r.path[k] !in seen + {ip}
    requires r.acc == acc + AccDelta(prog[ip]) + AccAlong(prog, r.path)
    requires r.ip in seen + {ip} || !InProgram(prog, r.ip) || r.ip in r.path
    ensures Chain(prog, [ip] + r.path, ip, r.ip)
    ensures Distinct([ip] + r.path) && forall k :: 0 <= k < |[ip] + r.path| ==> ([ip] + r.path)[k] !in seen
    ensures r.acc == acc + AccAlong(prog, [ip] + r.path)
    ensures r.ip in seen || !InProgram(prog, r.ip) || r.ip in [ip] + r.path
  {
    var path := [ip] + r.path;
    ChainCons(prog, ip, r.path, r.ip);
    DistinctCons(ip, r.path);
    assert path[1..] == r.path;
  }

  lemma DistinctCons(x: int, path: seq<int>)
    requires Distinct(path) && forall k :: 0 <= k < |path| ==> path[k] != x
    ensures Distinct([x] + path)
  {
    var p := [x] + path;
    forall i, j | 0 <= i < j < |p|
      ensures p[i] != p[j]
    {
      assert p[j] == path[j - 1];
      if i > 0 {
        assert p[i] == path[i - 1];
      }
    }
  }

  /** Executing `ip` first extends a chain from where it sends the pointer. */
  lemma ChainCons(prog: seq<Instruction>, ip: int, path: seq<int>, final: int)
    requires InProgram(prog, ip) && Chain(prog, path, NextIp(prog[ip], ip), final)
    ensures Chain(prog, [ip] + path, ip, final)
  {
    var p := [ip] + path;
    forall k | 0 <= k < |p| - 1
      ensures p[k + 1] == NextIp(prog[p[k]], p[k])
    {
      if k > 0 {
        assert p[k] == path[k - 1] && p[k + 1] == path[k];
      }
    }
  }

  /** `execute` from a fresh computer. */
  function Execute(prog: seq<Instruction>): (r: Outcome)
    ensures Chain(prog, r.path, 0, r.ip) && Distinct(r.path)
    ensures r.acc == AccAlong(prog, r.path)
    ensures !InProgram(prog, r.ip) || r.ip in r.path
    ensures |r.path| <= |prog|
  {
    Run(prog, 0, 0, {})
  }

  /** `executed_successfully`: the pointer stopped exactly one past the end,
      that is, some run from pointer 0 that repeats no pointer gets there. */
  predicate Succeeded(prog: seq<Instruction>): (b: bool)
    ensures b <==> exists path :: Chain(prog, path, 0, |prog|) && Distinct(path)
  {
    ExecuteAll(prog);
    Execute(prog).ip == |prog|
  }

  /** `part1`: the accumulator when the run stops, the sum along the one
      stopping chain from pointer 0. */
  function Part1(prog: seq<Instruction>): (r: int)
    ensures exists path, final :: Chain(prog, path, 0, final) && Stops(prog, path, final) && r == AccAlong(prog, path)
    ensures forall path, final :: Chain(prog, path, 0, final) && Stops(prog, path, final) ==> r == AccAlong(prog, path)
  {
    ExecuteAll(prog);
    Execute(prog).acc
  }

  /** Every stopping chain from pointer 0 is the run of `execute`. */
  lemma ExecuteAll(prog: seq<Instruction>)
    ensures Stops(prog, Execute(prog).path, Execute(prog).ip)
    ensures forall path, final :: Chain(prog, path, 0, final) && Stops(prog, path, final) ==>
      Execute(prog) == Outcome(AccAlong(prog, path), final, path)
  {
    forall path, final | Chain(prog, path, 0, final) && Stops(prog, path, final)
      ensures Execute(prog) == Outcome(AccAlong(prog, path), final, path)
    {
      ExecuteUnique(prog, path, final);
    }
  }

  /** Two chains from the same start agree on their common length. */
  lemma {:induction false} ChainsAgree(prog: seq<Instruction>, p: seq<int>, q: seq<int>, start: int, fp: int, fq: int, k: nat)
    requires Chain(prog, p, start, fp) && Chain(prog, q, start, fq)
    requires k <= |p| && k <= |q|
    ensures p[..k] == q[..k]
  {
    if k > 1 {
      ChainsAgree(prog, p, q, start, fp, fq, k - 1);
      assert p[k - 2] == q[k - 2];
      assert p[..k] == p[..k - 1] + [p[k - 1]];
      assert q[..k] == q[..k - 1] + [q[k - 1]];
    } else if k == 1 {
      assert p[..1] == [p[0]] && q[..1] == [q[0]];
    }
  }

  /** A chain stops where the `execute` loop would: it repeats no pointer, and
      its final pointer is outside the program or already executed. */
  predicate Stops(prog: seq<Instruction>, path: seq<int>, final: int)
  {
    Distinct(path) && (!InProgram(prog, final) || final in path)
  }

  /** A chain that is a proper prefix of another cannot stop. */
  lemma ShorterDoesNotStop(prog: seq<Instruction>, p: seq<int>, q: seq<int>, start: int, fp: int, fq: int)
    requires Chain(prog, p, start, fp) && Chain(prog, q, start, fq)
    requires |p| < |q| && p == q[..|p|] && Distinct(q)
    ensures !Stops(prog, p, fp)
  {
    var n := |p|;
    assert fp == q[n] by {
      if n > 0 {
        assert p[n - 1] == q[n - 1];
      }
    }
    assert InProgram(prog, q[n]);
  }

  /** Two stopping chains from the same start are the same run. */
  lemma ChainUnique(prog: seq<Instruction>, p: seq<int>, q: seq<int>, start: int, fp: int, fq: int)
    requires Chain(prog, p, start, fp) && Chain(prog, q, start, fq)
    requires Stops(prog, p, fp) && Stops(prog, q, fq)
    ensures p == q && fp == fq
  {
    if |p| < |q| {
      ChainsAgree(prog, p, q, start, fp, fq, |p|);
      assert p[..|p|] == p;
      ShorterDoesNotStop(prog, p, q, start, fp, fq);
    } else if |q| < |p| {
      ChainsAgree(prog, q, p, start, fq, fp, |q|);
      assert q[..|q|] == q;
      ShorterDoesNotStop(prog, q, p, start, fq, fp);
    } else {
      ChainsAgree(prog, p, q, start, fp, fq, |p|);
      assert p[..|p|] == p && q[..|q|] == q;
    }
  }

  /** `execute` is characterised by the step rule alone: any stopping chain from
      pointer 0 is its run, with the accumulator summed along it. */
  lemma ExecuteUnique(prog: seq<Instruction>, path: seq<int>, final: int)
    requires Chain(prog, path, 0, final) && Stops(prog, path, final)
    ensures Execute(prog) == Outcome(AccAlong(prog, path), final, path)
  {
    var r := Execute(prog);
    ChainUnique(prog, path, r.path, 0, final, r.ip);
  }

  /** Instructions the repair may swap. */
  predicate Swappable(i: Instruction)
  {
    i.Nop? || i.Jmp?
  }

  /** `nop` and `jmp` trade places, keeping the argument. */
  function Swap(i: Instruction): (r: Instruction)
    requires Swappable(i)
    ensures Swappable(r) && r.value == i.value && r.Nop? == i.Jmp?
  {
    if i.Nop? then Jmp(i.value) else Nop(i.value)
  }

  /** `Computer::replace`: one instruction overwritten. */
  function Replace(prog: seq<Instruction>, instruction: Instruction, ip: nat): (r: seq<Instruction>)
    requires ip < |prog|
    ensures |r| == |prog| && r[ip] == instruction
    ensures forall k :: 0 <= k < |prog| && k != ip ==> r[k] == prog[k]
  {
    prog[ip := instruction]
  }

  /** Swapping the instruction at `line` lets the program run off its end. */
  predicate Fixes(prog: seq<Instruction>, line: nat)
  {
    line < |prog| && Swappable(prog[line]) && Succeeded(Replace(prog, Swap(prog[line]), line))
  }

  /** The repair search of `part2` from index `line` on. */
  function RepairFrom(prog: seq<Instruction>, line: nat): (r: Option<int>)
    ensures r.None? <==> forall j :: line <= j < |prog| ==> !Fixes(prog, j)
    ensures r.Some? ==> exists j :: (line <= j < |prog| && Fixes(prog, j) &&
      (forall j' :: line <= j' < j ==> !Fixes(prog, j')) &&
      r.value == Execute(Replace(prog, Swap(prog[j]), j)).acc)
    decreases |prog| - line
  {
    if line >= |prog| then None
    else if Fixes(prog, line) then Some(Execute(Replace(prog, Swap(prog[line]), line)).acc)
    else RepairFrom(prog, line + 1)
  }

  /** `part2`: the accumulator of the first repaired program, by index, that
      runs off its end; `None` where the source panics because none does. */
  function Part2(prog: seq<Instruction>): (r: Option<int>)
    ensures r.None? <==> forall j :: 0 <= j < |prog| ==> !Fixes(prog, j)
    ensures r.Some? ==> exists j :: (0 <= j < |prog| && Fixes(prog, j) &&
      (forall j' :: 0 <= j' < j ==> !Fixes(prog, j')) &&
      r.value == Execute(Replace(prog, Swap(prog[j]), j)).acc)
  {
    RepairFrom(prog, 0)
  }
}
