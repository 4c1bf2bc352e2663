/** Day 22: Crab Combat. Two players draw their top cards; the higher card
    wins the round and goes to the bottom of its owner's deck, followed by
    the other card. Recursive Combat settles a round by a sub-game when
    both players hold at least as many cards as the values they drew, and
    ends a game in player 1's favour when a pair of decks repeats. */
module Day22 {
  import opened Wrappers
  import opened Seqs
  import opened Decimal

  /** The two decks, top card first. */
  datatype Decks = Decks(one: seq<nat>, two: seq<nat>)

  /** Every card of both decks. */
  function Cards(d: Decks): multiset<nat>
  {
    multiset(d.one) + multiset(d.two)
  }

  // ---------------------------------------------------------------- input

  /** `line.parse::<u32>().unwrap()` for every line. */
  function ParseCards(lines: seq<string>): (r: Option<seq<nat>>)
    ensures r.Some? <==> forall k :: 0 <= k < |lines| ==> ParseUnsigned(lines[k], U32_LIMIT).Some?
    ensures r.Some? ==> |r.value| == |lines|
    ensures r.Some? ==> forall k :: 0 <= k < |lines| ==> ParseUnsigned(lines[k], U32_LIMIT) == Some(r.value[k])
  {
    if lines == [] then Some([])
    else
      match (ParseUnsigned(lines[0], U32_LIMIT), ParseCards(lines[1..]))
      case (Some(c), Some(cs)) => Some([c] + cs)
      case _ => None
  }

  /** `parse_player`: the lines of a block after its header. */
  function ParsePlayer(lines: seq<string>): (r: Option<seq<nat>>)
    ensures r.Some? <==> forall k :: 1 <= k < |lines| ==> ParseUnsigned(lines[k], U32_LIMIT).Some?
    ensures r.Some? ==> |r.value| == if lines == [] then 0 else |lines| - 1
    ensures r.Some? ==> forall k :: 1 <= k < |lines| ==> ParseUnsigned(lines[k], U32_LIMIT) == Some(r.value[k - 1])
  {
    if lines == [] then Some([]) else ParseCards(lines[1..])
  }

  /** `parse`: the first two blocks of lines; fewer blocks panic. */
  function Parse(blocks: seq<seq<string>>): (r: Option<Decks>)
    ensures r.Some? <==> |blocks| >= 2 && ParsePlayer(blocks[0]).Some? && ParsePlayer(blocks[1]).Some?
    ensures r.Some? ==> Some(r.value.one) == ParsePlayer(blocks[0]) && Some(r.value.two) == ParsePlayer(blocks[1])
  {
    if |blocks| < 2 then None
    else
      match (ParsePlayer(blocks[0]), ParsePlayer(blocks[1]))
      case (Some(one), Some(two)) => Some(Decks(one, two))
      case _ => None
  }

  /** A block written out with its header reads back as its deck. */
  lemma {:induction false} ParseShowPlayer(header: string, cards: seq<nat>)
    requires forall k :: 0 <= k < |cards| ==> cards[k] < U32_LIMIT
    ensures ParsePlayer([header] + ShowEach(cards)) == Some(cards)
  {
    assert ([header] + ShowEach(cards))[1..] == ShowEach(cards);
    forall k | 0 <= k < |cards|
      ensures ParseUnsigned(ShowEach(cards)[k], U32_LIMIT) == Some(cards[k])
    {
      ShowEachAt(cards, k);
      ParseShowNat(cards[k], U32_LIMIT);
    }
    var r := ParseCards(ShowEach(cards));
    assert r.value == cards;
  }

  lemma {:induction false} ShowEachAt(ns: seq<nat>, k: nat)
    requires k < |ns|
    ensures |ShowEach(ns)| == |ns| && ShowEach(ns)[k] == ShowNat(ns[k])
  {
    if k > 0 {
      ShowEachAt(ns[1..], k - 1);
    } else {
      ShowEachLength(ns);
    }
  }

  lemma {:induction false} ShowEachLength(ns: seq<nat>)
    ensures |ShowEach(ns)| == |ns|
  {
    if ns != [] {
      ShowEachLength(ns[1..]);
    }
  }

  // ---------------------------------------------------------------- score

  /** `(1..=len).rev().map(|weight| weight * deck.pop_front())`, summed:
      the bottom card counts once, the one above it twice, and so on. */
  function Score(deck: seq<nat>): (r: nat)
    ensures Sum(deck) <= r <= |deck| * Sum(deck)
  {
    if deck == [] then 0 else |deck| * deck[0] + Score(deck[1..])
  }

  /** A card put under the deck counts once, and every card above it one
      time more than before. */
  lemma {:induction false} ScoreSnoc(deck: seq<nat>, x: nat)
    ensures Score(deck + [x]) == Score(deck) + Sum(deck) + x
  {
    if deck != [] {
      var t := deck[1..];
      assert (deck + [x])[1..] == t + [x];
      ScoreSnoc(t, x);
      assert Score(deck + [x]) == (|deck| + 1) * deck[0] + Score(t + [x]);
      assert (|deck| + 1) * deck[0] == |deck| * deck[0] + deck[0];
    }
  }

  // ---------------------------------------------------------------- part1

  /** The end of a round: the winner puts its own card, then the other one,
      under its deck. Cards are neither lost nor made. */
  function Settle(d: Decks, oneWins: bool): (r: Decks)
    requires d.one != [] && d.two != []
    ensures |r.one| + |r.two| == |d.one| + |d.two|
  {
    var c1, c2 := d.one[0], d.two[0];
    if oneWins then Decks(d.one[1..] + [c1, c2], d.two[1..])
    else Decks(d.one[1..], d.two[1..] + [c2, c1])
  }

  /** Cards are neither lost nor made by a round. */
  lemma SettleCards(d: Decks, oneWins: bool)
    requires d.one != [] && d.two != []
    ensures Cards(Settle(d, oneWins)) == Cards(d)
  {
    assert d.one == [d.one[0]] + d.one[1..] && d.two == [d.two[0]] + d.two[1..];
  }

  /** A round of `part1`: the higher card wins; a tie goes to player 2. */
  function Round(d: Decks): Decks
    requires d.one != [] && d.two != []
  {
    Settle(d, d.one[0] > d.two[0])
  }

  /** The `while` loop of `part1`; it has no guard against a game that
      goes round in circles, so running out of fuel stands for that. When
      it ends, one deck is empty. */
  function Combat(d: Decks, fuel: nat): (r: Option<Decks>)
    ensures r.Some? ==> r.value.one == [] || r.value.two == []
    decreases fuel
  {
    if d.one == [] || d.two == [] then Some(d)
    else if fuel == 0 then None
    else Combat(Round(d), fuel - 1)
  }

  /** The cards are all still there when the loop ends. */
  lemma {:induction false} CombatCards(d: Decks, fuel: nat)
    requires Combat(d, fuel).Some?
    ensures Cards(Combat(d, fuel).value) == Cards(d)
    decreases fuel
  {
    if d.one != [] && d.two != [] {
      SettleCards(d, d.one[0] > d.two[0]);
      CombatCards(Round(d), fuel - 1);
    }
  }

  /** `part1`: the deck that is not empty when the loop ends, in the order
      the loop left it; the other deck is then empty. It holds every card. */
  function Part1(d: Decks, fuel: nat): (r: Option<seq<nat>>)
    ensures r.Some? <==> Combat(d, fuel).Some?
    ensures r.Some? ==> var e := Combat(d, fuel).value;
      if e.one != [] then r.value == e.one && e.two == [] else r.value == e.two
    ensures r.Some? ==> multiset(r.value) == Cards(d)
  {
    match Combat(d, fuel)
    case None => None
    case Some(e) =>
      CombatCards(d, fuel);
      Some(if e.one != [] then e.one else e.two)
  }

  /** More fuel does not change an answer. */
  lemma {:induction false} CombatFuel(d: Decks, fuel: nat, more: nat)
    requires Combat(d, fuel).Some? && fuel <= more
    ensures Combat(d, more) == Combat(d, fuel)
    decreases fuel
  {
    if d.one != [] && d.two != [] {
      CombatFuel(Round(d), fuel - 1, more - 1);
    }
  }

  /** Decks that come back to themselves after six rounds: `Circle(i)`
      is the state after `i` rounds. */
  function Circle(i: nat): Decks
  {
    match i % 6
    case 0 => Decks([43, 19], [2, 29, 14])
    case 1 => Decks([19, 43, 2], [29, 14])
    case 2 => Decks([43, 2], [14, 29, 19])
    case 3 => Decks([2, 43, 14], [29, 19])
    case 4 => Decks([43, 14], [19, 29, 2])
    case _ => Decks([14, 43, 19], [29, 2])
  }

  lemma CircleRound(i: nat)
    ensures Circle(i).one != [] && Circle(i).two != []
    ensures Round(Circle(i)) == Circle(i + 1)
  {
    assert (i + 1) % 6 == (i % 6 + 1) % 6;
  }

  /** `part1` has no loop guard: on `Circle(0)` it never ends. */
  lemma {:induction false} CombatForever(i: nat, fuel: nat)
    ensures Combat(Circle(i), fuel) == None
    decreases fuel
  {
    CircleRound(i);
    if fuel > 0 {
      CombatForever(i + 1, fuel - 1);
    }
  }

  // ---------------------------------------------------------------- part2

  /** The end of a recursive game: whether player 1 won, and the decks as
      they were left. */
  datatype Outcome = Outcome(oneWins: bool, decks: Decks)

  /** `part2` on decks, with the pairs of decks this game has already
      seen. A game ends when a deck empties, and the player who still holds
      cards wins; or when a pair of decks repeats, and player 1 wins with
      both decks still holding cards. */
  function Game(d: Decks, seen: set<Decks>, fuel: nat): (r: Option<Outcome>)
    ensures r.Some? && (r.value.decks.one == [] || r.value.decks.two == []) ==> (r.value.oneWins <==> r.value.decks.two == [])
    ensures r.Some? && r.value.decks.one != [] && r.value.decks.two != [] ==> r.value.oneWins
    decreases fuel, 0
  {
    if d.one == [] || d.two == [] then Some(Outcome(d.two == [], d))
    else if d in seen then Some(Outcome(true, d))
    else if fuel == 0 then None
    else
      match RoundWinner(d, fuel - 1)
      case None => None
      case Some(w) => Game(Settle(d, w), seen + {d}, fuel - 1)
  }

  /** Whether player 1 wins a round of `part2`: by a sub-game on copies of
      the next cards, as many as the values drawn, when both players have
      that many left; by the higher card otherwise. */
  function RoundWinner(d: Decks, fuel: nat): (r: Option<bool>)
    requires d.one != [] && d.two != []
    ensures r.Some? && (r.value <==> d.one[0] <= d.two[0]) ==> |d.one| - 1 >= d.one[0] && |d.two| - 1 >= d.two[0]
    decreases fuel, 1
  {
    var c1, c2 := d.one[0], d.two[0];
    if |d.one| - 1 >= c1 && |d.two| - 1 >= c2 then
      match Game(Decks(d.one[1..][..c1], d.two[1..][..c2]), {}, fuel)
      case None => None
      case Some(o) => Some(o.oneWins)
    else Some(c1 > c2)
  }

  /** Cards are neither lost nor made by a recursive game. */
  lemma {:induction false} GameCards(d: Decks, seen: set<Decks>, fuel: nat)
    requires Game(d, seen, fuel).Some?
    ensures Cards(Game(d, seen, fuel).value.decks) == Cards(d)
    decreases fuel
  {
    if d.one != [] && d.two != [] && d !in seen {
      var w := RoundWinner(d, fuel - 1).value;
      SettleCards(d, w);
      GameCards(Settle(d, w), seen + {d}, fuel - 1);
    }
  }

  /** `part2` on whole decks, and the deck of its winner as `main` scores
      it: every card when a deck ran out, player 1's deck after a repeat. */
  function Part2(d: Decks, fuel: nat): (r: Option<seq<nat>>)
    ensures r.Some? <==> Game(d, {}, fuel).Some?
    ensures r.Some? ==> var o := Game(d, {}, fuel).value; r.value == if o.oneWins then o.decks.one else o.decks.two
    ensures r.Some? ==> multiset(r.value) <= Cards(d)
    ensures r.Some? && (Game(d, {}, fuel).value.decks.one == [] || Game(d, {}, fuel).value.decks.two == []) ==>
      multiset(r.value) == Cards(d)
  {
    match Game(d, {}, fuel)
    case None => None
    case Some(o) =>
      GameCards(d, {}, fuel);
      Some(if o.oneWins then o.decks.one else o.decks.two)
  }

  /** On decks too small for any sub-game, a recursive game that ends with
      an empty deck scores the same deck as `part1`. */
  lemma Part1IsPart2(d: Decks, fuel: nat)
    requires HighCards(d) && Game(d, {}, fuel).Some?
    requires Game(d, {}, fuel).value.decks.one == [] || Game(d, {}, fuel).value.decks.two == []
    ensures Part1(d, fuel) == Part2(d, fuel)
  {
    GameIsCombat(d, {}, fuel);
  }

  lemma {:induction false} GameFuel(d: Decks, seen: set<Decks>, fuel: nat, more: nat)
    requires Game(d, seen, fuel).Some? && fuel <= more
    ensures Game(d, seen, more) == Game(d, seen, fuel)
    decreases fuel, 0
  {
    if d.one != [] && d.two != [] && d !in seen {
      RoundWinnerFuel(d, fuel - 1, more - 1);
      var w := RoundWinner(d, fuel - 1).value;
      GameFuel(Settle(d, w), seen + {d}, fuel - 1, more - 1);
    }
  }

  lemma {:induction false} RoundWinnerFuel(d: Decks, fuel: nat, more: nat)
    requires d.one != [] && d.two != []
    requires RoundWinner(d, fuel).Some? && fuel <= more
    ensures RoundWinner(d, more) == RoundWinner(d, fuel)
    decreases fuel, 1
  {
    var c1, c2 := d.one[0], d.two[0];
    if |d.one| - 1 >= c1 && |d.two| - 1 >= c2 {
      GameFuel(Decks(d.one[1..][..c1], d.two[1..][..c2]), {}, fuel, more);
    }
  }

  /** Every card is larger than the number of cards in play, so no round
      can start a sub-game. */
  predicate HighCards(d: Decks)
  {
    forall c :: c in Cards(d) ==> c > |d.one| + |d.two|
  }

  /** On decks too small for any sub-game, a recursive game that ends with
      an empty deck is the game of `part1`, round by round. */
  lemma {:induction false} GameIsCombat(d: Decks, seen: set<Decks>, fuel: nat)
    requires HighCards(d) && Game(d, seen, fuel).Some?
    requires Game(d, seen, fuel).value.decks.one == [] || Game(d, seen, fuel).value.decks.two == []
    ensures Combat(d, fuel) == Some(Game(d, seen, fuel).value.decks)
    decreases fuel
  {
    if d.one != [] && d.two != [] {
      HighCardsRound(d, fuel - 1);
      GameStep(d, seen, fuel, d.one[0] > d.two[0]);
      GameIsCombat(Round(d), seen + {d}, fuel - 1);
    }
  }

  /** A round on such decks is settled by the higher card, and leaves
      decks that are still too small for a sub-game. */
  lemma HighCardsRound(d: Decks, fuel: nat)
    requires HighCards(d) && d.one != [] && d.two != []
    ensures RoundWinner(d, fuel) == Some(d.one[0] > d.two[0])
    ensures HighCards(Round(d))
  {
    assert d.one[0] in Cards(d) && d.two[0] in Cards(d);
    SettleCards(d, d.one[0] > d.two[0]);
  }

  /** A round of a game that has not ended. */
  lemma GameStep(d: Decks, seen: set<Decks>, fuel: nat, w: bool)
    requires d.one != [] && d.two != [] && d !in seen && fuel > 0
    requires RoundWinner(d, fuel - 1) == Some(w)
    ensures Game(d, seen, fuel) == Game(Settle(d, w), seen + {d}, fuel - 1)
  {
  }

  /** The states of the first `i` rounds around the circle. */
  function CircleSeen(i: nat): set<Decks>
  {
    if i == 0 then {} else CircleSeen(i - 1) + {Circle(i - 1)}
  }

  lemma CircleDistinct(i: nat, j: nat)
    requires i < j < 6
    ensures Circle(i) != Circle(j)
  {
    assert Circle(i).one != Circle(j).one by {
      assert |Circle(i).one| != |Circle(j).one| || Circle(i).one[0] != Circle(j).one[0] || Circle(i).one[1] != Circle(j).one[1];
    }
  }

  /** No state of the first six rounds repeats an earlier one. */
  lemma {:induction false} CircleUnseen(i: nat, k: nat)
    requires k <= i < 6
    ensures Circle(i) !in CircleSeen(k)
  {
    if k > 0 {
      CircleUnseen(i, k - 1);
      CircleDistinct(k - 1, i);
    }
  }

  lemma {:induction false} CircleSeenStart(k: nat)
    requires k >= 1
    ensures Circle(0) in CircleSeen(k)
  {
    if k > 1 {
      CircleSeenStart(k - 1);
    }
  }

  /** No round around the circle starts a sub-game. */
  lemma CircleRoundWinner(i: nat, fuel: nat)
    ensures Circle(i).one != [] && Circle(i).two != []
    ensures RoundWinner(Circle(i), fuel) == Some(Circle(i).one[0] > Circle(i).two[0])
  {
  }

  lemma CircleGameStep(i: nat)
    requires i < 6
    ensures Game(Circle(i), CircleSeen(i), 7 - i) == Game(Circle(i + 1), CircleSeen(i + 1), 6 - i)
  {
    CircleUnseen(i, i);
    CircleRoundWinner(i, 6 - i);
    CircleRound(i);
    GameStep(Circle(i), CircleSeen(i), 7 - i, Circle(i).one[0] > Circle(i).two[0]);
  }

  lemma {:induction false} CircleGame(i: nat)
    requires i <= 6
    ensures Game(Circle(i), CircleSeen(i), 7 - i) == Some(Outcome(true, Circle(0)))
    decreases 6 - i
  {
    if i == 6 {
      CircleSeenStart(6);
      assert Circle(6) == Circle(0);
    } else {
      CircleGameStep(i);
      CircleGame(i + 1);
    }
  }

  /** The repeat rule ends the game `part1` never finishes: on `Circle(0)`,
      after six rounds the decks repeat and player 1 wins. */
  lemma CircleRepeats()
    ensures Game(Circle(0), {}, 7) == Some(Outcome(true, Circle(0)))
  {
    CircleGame(0);
  }
}
