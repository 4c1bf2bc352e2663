/** Day 15: the memory game. After the seeds, each turn speaks how many turns
    apart the previous number was spoken the last two times, or 0 when it
    was new. A map from each number to the turn it was last recorded carries
    the game; turns count from 1. */
module Day15 {
  import opened Decimal
  import opened Seqs

  // ---------------------------------------------------------------- input

  /** The seeds: the input split at commas, keeping what reads as `u32`. */
  function Seeds(input: string): seq<nat>
  {
    ParseEach(Split(input, ','), U32_LIMIT)
  }

  /** Comma-separated `u32` numerals read back as the numbers they show. */
  lemma SeedsRoundTrip(seeds: seq<nat>)
    requires seeds != [] && forall k :: 0 <= k < |seeds| ==> seeds[k] < U32_LIMIT
    ensures Seeds(Join(ShowEach(seeds), ',')) == seeds
  {
    CommaListRoundTrip(seeds, U32_LIMIT);
  }

  // ------------------------------------------------------------ the game

  /** The turn on which `x` was last spoken in `h`. */
  function LastTurn(h: seq<nat>, x: nat): (t: nat)
    requires x in h
    ensures 1 <= t <= |h| && h[t - 1] == x
    ensures forall k :: t <= k < |h| ==> h[k] != x
  {
    if h[|h| - 1] == x then |h| else LastTurn(h[..|h| - 1], x)
  }

  /** The number spoken after `h`: the distance between the turns on which
      the last number was spoken the last two times, or 0 if it was new. */
  function Next(h: seq<nat>): nat
    requires h != []
  {
    if h[|h| - 1] in h[..|h| - 1] then |h| - LastTurn(h[..|h| - 1], h[|h| - 1]) else 0
  }

  /** The first `t` numbers of the game: the seeds, then `Next` over and over. */
  function Spoken(seeds: seq<nat>, t: nat): (h: seq<nat>)
    requires seeds != []
    ensures |h| == t
    decreases t
  {
    if t <= |seeds| then seeds[..t] else Spoken(seeds, t - 1) + [Next(Spoken(seeds, t - 1))]
  }

  /** The number spoken on turn `t`. */
  function Say(seeds: seq<nat>, t: nat): nat
    requires seeds != [] && t >= 1
  {
    Spoken(seeds, t)[t - 1]
  }

  // ----------------------------------------------------------- pick_nth

  /** The state of `pick_nth`: `spoken`, `current_turn` and `last_seen`. */
  datatype Game = Game(spoken: map<nat, nat>, turn: nat, last: nat)

  /** No record lies beyond the current turn. */
  predicate Valid(g: Game)
  {
    forall x :: x in g.spoken ==> g.spoken[x] <= g.turn
  }

  /** `spoken` records, for each number of `h`, the last turn it was spoken,
      and nothing else. */
  predicate Records(spoken: map<nat, nat>, h: seq<nat>)
  {
    (forall x :: x in spoken ==> x in h && spoken[x] == LastTurn(h, x))
    && (forall x :: x in h ==> x in spoken)
  }

  /** One pass of the `while` loop: the last number's record moves to the
      current turn, and the next number is the distance back to the record it
      replaced, or 0 when there was none. The number is below the new turn. */
  function Step(g: Game): (r: Game)
    requires Valid(g)
    ensures Valid(r) && r.turn == g.turn + 1 && r.last < r.turn
  {
    Game(g.spoken[g.last := g.turn], g.turn + 1,
         if g.last in g.spoken then g.turn - g.spoken[g.last] else 0)
  }

  /** The `while` loop: one step per turn until the counter reaches `nth`. */
  function Run(g: Game, nth: nat): (r: Game)
    requires Valid(g)
    ensures Valid(r)
    ensures r.turn == if g.turn < nth then nth else g.turn
    ensures g.turn < nth ==> r.last < r.turn
    decreases nth - g.turn
  {
    if g.turn < nth then Run(Step(g), nth) else g
  }

  /** Recording one more spoken number. */
  lemma RecordsAppend(spoken: map<nat, nat>, h: seq<nat>, x: nat)
    requires Records(spoken, h)
    ensures Records(spoken[x := |h| + 1], h + [x])
  {
    forall y | y in spoken[x := |h| + 1]
      ensures y in h + [x] && spoken[x := |h| + 1][y] == LastTurn(h + [x], y)
    {
      if y != x {
        assert (h + [x])[..|h|] == h;
      }
    }
  }

  /** The seeding loop as written: every seed, the last one included, is
      recorded with its turn. */
  function SeedAll(numbers: seq<nat>): (g: Game)
    ensures Valid(g) && g.turn == |numbers|
    ensures Records(g.spoken, numbers)
    ensures numbers != [] ==> g.last == numbers[|numbers| - 1]
    decreases |numbers|
  {
    if numbers == [] then Game(map[], 0, 0)
    else
      RecordsAppend(SeedAll(numbers[..|numbers| - 1]).spoken, numbers[..|numbers| - 1], numbers[|numbers| - 1]);
      assert numbers[..|numbers| - 1] + [numbers[|numbers| - 1]] == numbers;
      Game(SeedAll(numbers[..|numbers| - 1]).spoken[numbers[|numbers| - 1] := |numbers|],
           |numbers|, numbers[|numbers| - 1])
  }

  /** The seeding the game needs: every seed but the last is recorded, and
      the last is only the number just spoken. */
  function Seed(numbers: seq<nat>): (g: Game)
    ensures Valid(g) && g.turn == |numbers|
    ensures numbers != [] ==> Records(g.spoken, numbers[..|numbers| - 1]) && g.last == numbers[|numbers| - 1]
  {
    if numbers == [] then Game(map[], 0, 0)
    else Game(SeedAll(numbers[..|numbers| - 1]).spoken, |numbers|, numbers[|numbers| - 1])
  }

  /** `pick_nth` on parsed seeds, as written. When `nth` does not exceed the
      number of seeds the loop never runs and the last seed comes back (0 when
      there are none). */
  function PlayAsWritten(numbers: seq<nat>, nth: nat): (r: nat)
    ensures nth <= |numbers| ==> r == if numbers == [] then 0 else numbers[|numbers| - 1]
  {
    Run(SeedAll(numbers), nth).last
  }

  /** `pick_nth` on parsed seeds, with the intended seeding; early answers
      as in `PlayAsWritten`. */
  function Play(numbers: seq<nat>, nth: nat): (r: nat)
    ensures nth <= |numbers| ==> r == if numbers == [] then 0 else numbers[|numbers| - 1]
  {
    Run(Seed(numbers), nth).last
  }

  /** `pick_nth(input, nth)` with the corrected seeding of `Play`; the code as
      written is `PlayAsWritten` on the same seeds. The answer is the number
      the game speaks on turn `nth`. */
  function PickNth(input: string, nth: nat): (r: nat)
    ensures nth <= |Seeds(input)| ==> r == if Seeds(input) == [] then 0 else Seeds(input)[|Seeds(input)| - 1]
    ensures Seeds(input) != [] && nth >= |Seeds(input)| ==> r == Say(Seeds(input), nth)
  {
    var seeds := Seeds(input);
    if seeds != [] && nth >= |seeds| then
      PlaySays(seeds, nth);
      Play(seeds, nth)
    else Play(seeds, nth)
  }

  /** The state after turn `t` of the game. */
  predicate Tracks(g: Game, seeds: seq<nat>)
    requires seeds != []
  {
    |seeds| <= g.turn
    && Records(g.spoken, Spoken(seeds, g.turn)[..g.turn - 1])
    && g.last == Spoken(seeds, g.turn)[g.turn - 1]
  }

  /** A step plays the next turn of the game. */
  lemma StepTracks(g: Game, seeds: seq<nat>)
    requires seeds != [] && Valid(g) && Tracks(g, seeds)
    ensures Tracks(Step(g), seeds)
  {
    var h := Spoken(seeds, g.turn);
    assert h[..g.turn - 1] + [h[g.turn - 1]] == h;
    RecordsAppend(g.spoken, h[..g.turn - 1], g.last);
    assert Spoken(seeds, g.turn + 1) == h + [Next(h)];
    assert Spoken(seeds, g.turn + 1)[..g.turn] == h;
  }

  lemma {:induction false} RunTracks(g: Game, seeds: seq<nat>, nth: nat)
    requires seeds != [] && Valid(g) && Tracks(g, seeds)
    ensures Tracks(Run(g, nth), seeds)
    decreases nth - g.turn
  {
    if g.turn < nth {
      StepTracks(g, seeds);
      RunTracks(Step(g), seeds, nth);
    }
  }

  /** With the intended seeding, `pick_nth` returns the number spoken on turn
      `nth` of the game. */
  lemma PlaySays(seeds: seq<nat>, nth: nat)
    requires seeds != [] && nth >= |seeds|
    ensures Play(seeds, nth) == Say(seeds, nth)
  {
    assert Spoken(seeds, |seeds|) == seeds;
    assert seeds[..|seeds|][..|seeds| - 1] == seeds[..|seeds| - 1];
    RunTracks(Seed(seeds), seeds, nth);
  }

  /** The seeding as written records the last seed before the first turn
      reads its previous record, so that turn always speaks 0. When the last
      seed is new the two seedings agree from then on ... */
  lemma AsWrittenAgrees(seeds: seq<nat>, nth: nat)
    requires seeds != [] && seeds[|seeds| - 1] !in seeds[..|seeds| - 1]
    ensures PlayAsWritten(seeds, nth) == Play(seeds, nth)
  {
    if |seeds| < nth {
      assert Step(SeedAll(seeds)) == Step(Seed(seeds));
    }
  }

  /** ... but a repeated last seed is answered with 0 where the game asks
      for the distance back to its earlier turn: seeds 1, 1 speak 1 on turn
      3, and the loop as written answers 0. */
  lemma AsWrittenRepeatedSeed()
    ensures PlayAsWritten([1, 1], 3) == 0
    ensures Say([1, 1], 3) == 1 == Play([1, 1], 3)
  {
    PlaySays([1, 1], 3);
    assert Spoken([1, 1], 2) == [1, 1];
    assert [1, 1][..1] == [1];
  }
}
