/** The solo game of the Dobble page (`page.tsx`) as pure transitions: the
    user's card, the opponent's card and the draw pile, the started/over
    flags, the clock readings and the shake flag. The wall clock (`Date.now`)
    is a parameter of each transition. */
module Game {
  import opened Wrappers
  import opened Types
  import opened Generate
  import opened Plane
  import opened Util

  datatype GameState = GameState(
    pile: seq<Card>,
    opponentCard: Option<Card>,
    userCard: Option<Card>,
    started: bool,
    over: bool,
    startTime: Option<int>,
    elapsed: int,
    shake: bool)

  /** The state before the first game: nothing dealt, nothing running. */
  const Initial: GameState := GameState([], None, None, false, false, None, 0, false)

  /** `startGame`: `dealt` is the shuffled deck, or the error the generator
      threw. A deck of at least two cards deals the first to the user, the
      second to the opponent and keeps the rest as the pile; a thrown error
      or a shorter deck leaves every piece of state as it was. */
  function StartGame(g: GameState, dealt: Result<seq<Card>, DeckError>, now: int): (r: GameState)
    ensures dealt.Failure? || |dealt.value| < 2 ==> r == g
    ensures dealt.Success? && |dealt.value| >= 2 ==>
              && r.userCard == Some(dealt.value[0])
              && r.opponentCard == Some(dealt.value[1])
              && [dealt.value[0], dealt.value[1]] + r.pile == dealt.value
              && r.started && !r.over
              && r.startTime == Some(now) && r.elapsed == 0
              && r.shake == g.shake
  {
    match dealt
    case Failure(_) => g
    case Success(deck) =>
      if |deck| >= 2 then
        g.(userCard := Some(deck[0]), opponentCard := Some(deck[1]), pile := deck[2..],
           started := true, over := false, startTime := Some(now), elapsed := 0)
      else
        g
  }

  /** Both cards are on the table and the game is running. */
  predicate Active(g: GameState)
  {
    g.started && !g.over && g.userCard.Some? && g.opponentCard.Some?
  }

  /** The identifier a click must name to count as a match. */
  function Match(g: GameState): (r: Option<int>)
    requires Active(g)
    ensures r.None? <==> Common(Ids(g.userCard.value), Ids(g.opponentCard.value)) == {}
  {
    FindCommonSymbol(g.userCard.value, g.opponentCard.value)
  }

  /** `if (startTime)`: a missing start time, or a start time of 0, is falsy. */
  predicate Truthy(t: Option<int>)
  {
    t.Some? && t.value != 0
  }

  /** `handleSymbolClick(clicked)` at wall-clock time `now`. */
  function HandleSymbolClick(g: GameState, clicked: int, now: int): (r: GameState)
    ensures !Active(g) ==> r == g
    ensures Active(g) && Match(g) != Some(clicked) ==> r == g.(shake := true)
    ensures Active(g) && Match(g) == Some(clicked) && |g.pile| > 0 ==>
              && r.userCard == g.opponentCard
              && r.opponentCard.Some? && [r.opponentCard.value] + r.pile == g.pile
              && r == g.(userCard := r.userCard, opponentCard := r.opponentCard, pile := r.pile)
    ensures Active(g) && Match(g) == Some(clicked) && |g.pile| == 0 ==>
              && r.over && !r.started
              && r.elapsed == (if Truthy(g.startTime) then now - g.startTime.value else g.elapsed)
              && r == g.(over := r.over, started := r.started, elapsed := r.elapsed)
  {
    if !g.started || g.over || g.userCard.None? || g.opponentCard.None? then
      g
    else if Match(g) == Some(clicked) then
      if |g.pile| > 0 then
        assert [g.pile[0]] + g.pile[1..] == g.pile;
        g.(userCard := g.opponentCard, opponentCard := Some(g.pile[0]), pile := g.pile[1..])
      else
        g.(over := true, started := false,
           elapsed := if Truthy(g.startTime) then now - g.startTime.value else g.elapsed)
    else
      g.(shake := true)
  }

  // ---------------------------------------------------------------------
  // Playing a dealt deck through

  /** Cards `k` and `k + 1` of `deck` are on the table and the rest after
      them is the pile, in order. */
  ghost predicate Dealt(g: GameState, deck: seq<Card>, k: nat)
  {
    && k + 2 <= |deck|
    && g.userCard == Some(deck[k])
    && g.opponentCard == Some(deck[k + 1])
    && g.pile == deck[k + 2..]
    && g.started && !g.over
  }

  /** Neighbouring cards of `deck` always share an identifier. */
  ghost predicate ChainMatches(deck: seq<Card>)
  {
    forall k :: 0 <= k < |deck| - 1 ==> Common(Ids(deck[k]), Ids(deck[k + 1])) != {}
  }

  /** The click that names the current match (any value when there is none). */
  function Answer(g: GameState): int
  {
    if Active(g) && Match(g).Some? then Match(g).value else 0
  }

  /** The state after `k` clicks, each naming the current match, all at time `now`. */
  function CorrectRun(g: GameState, k: nat, now: int): GameState
    decreases k
  {
    if k == 0 then g else
      var h := CorrectRun(g, k - 1, now);
      HandleSymbolClick(h, Answer(h), now)
  }

  /** A correct click moves the game one card along the deck, or ends it on
      the last card. */
  lemma CorrectStep(g: GameState, deck: seq<Card>, k: nat, now: int)
    requires Dealt(g, deck, k) && ChainMatches(deck)
    ensures var h := HandleSymbolClick(g, Answer(g), now);
            if k + 2 < |deck| then Dealt(h, deck, k + 1)
            else h.over && !h.started && h.pile == [] && h.userCard == g.userCard
  {
    assert Common(Ids(deck[k]), Ids(deck[k + 1])) != {};
    if k + 2 < |deck| {
      assert deck[k + 2..] == [deck[k + 2]] + deck[k + 3..];
    }
  }

  /** A wrong click changes nothing but the shake flag. */
  lemma WrongClick(g: GameState, deck: seq<Card>, k: nat, clicked: int, now: int)
    requires Dealt(g, deck, k) && Match(g) != Some(clicked)
    ensures HandleSymbolClick(g, clicked, now) == g.(shake := true)
    ensures Dealt(HandleSymbolClick(g, clicked, now), deck, k)
  {
  }

  /** One click of the user: the symbol identifier and the time it came in. */
  datatype Click = Click(symbol: int, time: int)

  /** The state after the clicks, in order. */
  function Play(g: GameState, clicks: seq<Click>): GameState
    decreases |clicks|
  {
    if |clicks| == 0 then g
    else Play(HandleSymbolClick(g, clicks[0].symbol, clicks[0].time), clicks[1..])
  }

  /** Before a game has started, and once it is over (or while a card is
      missing), no sequence of clicks changes anything. */
  lemma {:induction false} InactiveIsFinal(g: GameState, clicks: seq<Click>)
    requires !Active(g)
    ensures Play(g, clicks) == g
    decreases |clicks|
  {
    if |clicks| > 0 {
      InactiveIsFinal(g, clicks[1..]);
    }
  }

  /** After `k` correct clicks from a fresh deal, with `k` below the pile size
      plus one, cards `k` and `k + 1` are on the table, the pile has shrunk
      by exactly `k` and the clock readings are those of the deal. */
  lemma {:induction false} RunDeals(g: GameState, deck: seq<Card>, start: int, k: nat, now: int)
    requires |deck| >= 2 && ChainMatches(deck) && k <= |deck| - 2
    ensures var h := CorrectRun(StartGame(g, Success(deck), start), k, now);
            Dealt(h, deck, k) && |h.pile| == |deck| - 2 - k &&
            h.startTime == Some(start) && h.elapsed == 0
    decreases k
  {
    var s := StartGame(g, Success(deck), start);
    if k == 0 {
      assert CorrectRun(s, 0, now) == s;
      assert s.pile == deck[2..];
    } else {
      RunDeals(g, deck, start, k - 1, now);
      var h := CorrectRun(s, k - 1, now);
      assert CorrectRun(s, k, now) == HandleSymbolClick(h, Answer(h), now);
      CorrectStep(h, deck, k - 1, now);
    }
  }

  /** From a fresh deal with a pile of `p` cards, the game is still running
      after every run of at most `p` correct clicks and is over after
      exactly `p + 1`; the final time is measured from the start. */
  lemma GameEndsAfterPilePlusOne(g: GameState, deck: seq<Card>, start: int, now: int)
    requires |deck| >= 2 && ChainMatches(deck)
    ensures var s := StartGame(g, Success(deck), start);
            var p := |s.pile|;
            && p == |deck| - 2
            && (forall k :: 0 <= k <= p ==> !CorrectRun(s, k, now).over)
            && CorrectRun(s, p + 1, now).over
            && !CorrectRun(s, p + 1, now).started
            && CorrectRun(s, p + 1, now).elapsed == (if start != 0 then now - start else 0)
  {
    var s := StartGame(g, Success(deck), start);
    var p := |deck| - 2;
    forall k | 0 <= k <= p
      ensures !CorrectRun(s, k, now).over
    {
      RunDeals(g, deck, start, k, now);
    }
    RunDeals(g, deck, start, p, now);
    CorrectStep(CorrectRun(s, p, now), deck, p, now);
  }

  /** A 31-card deal (order 5): after 29 correct clicks the pile is empty but
      the game still runs; the 30th correct click ends it. */
  lemma ThirtyOneCardGame(g: GameState, deck: seq<Card>, start: int, now: int)
    requires |deck| == 31 && ChainMatches(deck)
    ensures var s := StartGame(g, Success(deck), start);
            && CorrectRun(s, 29, now).pile == [] && !CorrectRun(s, 29, now).over
            && CorrectRun(s, 30, now).over
  {
    RunDeals(g, deck, start, 29, now);
    GameEndsAfterPilePlusOne(g, deck, start, now);
  }

  // ---------------------------------------------------------------------
  // Playing a shuffled generated deck

  /** `order` lists every position of a deck of `size` cards exactly once. */
  ghost predicate IsPermutation(order: seq<int>, size: int)
  {
    && |order| == size
    && (forall k :: 0 <= k < |order| ==> 0 <= order[k] < size)
    && (forall k, l :: 0 <= k < l < |order| ==> order[k] != order[l])
  }

  /** The deck rearranged by `order`. */
  function Rearrange(deck: seq<Card>, order: seq<int>): (r: seq<Card>)
    requires forall k :: 0 <= k < |order| ==> 0 <= order[k] < |deck|
    ensures |r| == |order| && forall k :: 0 <= k < |order| ==> r[k] == deck[order[k]]
  {
    seq(|order|, k requires 0 <= k < |order| => deck[order[k]])
  }

  /** A shuffle loses no card: every position of the deck occurs in the
      order, so every card of the deck is dealt (the order having no
      repeats, each position is dealt once). */
  lemma RearrangeDealsEvery(deck: seq<Card>, order: seq<int>)
    requires IsPermutation(order, |deck|)
    ensures |Rearrange(deck, order)| == |deck|
    ensures forall i :: 0 <= i < |deck| ==> i in order && deck[i] in Rearrange(deck, order)
  {
    var r := Rearrange(deck, order);
    forall i | 0 <= i < |deck|
      ensures i in order && deck[i] in r
    {
      OrderHits(order, |deck|, i);
      var k :| 0 <= k < |order| && order[k] == i;
      assert r[k] == deck[i];
    }
  }

  /** A permutation of the positions below `size` hits each of them. */
  lemma OrderHits(order: seq<int>, size: int, i: int)
    requires IsPermutation(order, size) && 0 <= i < size
    ensures exists k :: 0 <= k < |order| && order[k] == i
  {
    var dealt := set v | v in order;
    var all := Positions(size);
    DistinctCard(order);
    assert dealt <= all;
    assert |all - dealt| == |all| - |dealt| == 0;
    assert i in all;
    assert i !in all - dealt;
    assert i in dealt;
  }

  /** The positions of a deck of `size` cards. */
  function Positions(size: int): (r: set<int>)
    ensures forall i :: i in r <==> 0 <= i < size
    ensures size >= 0 ==> |r| == size
    decreases size
  {
    if size <= 0 then {} else Positions(size - 1) + {size - 1}
  }

  /** However the generated deck of a prime order is shuffled, every correct
      click finds a match and the game ends after one click per card beyond
      the first. */
  lemma ShuffledDeckPlays(n: int, sample: (nat, nat, nat) -> Pos, order: seq<int>,
                          g: GameState, start: int, now: int)
    requires GenerateDobbleDeck(n, sample).Success?
    requires IsPermutation(order, |GenerateDobbleDeck(n, sample).value|)
    ensures var dealt := Rearrange(GenerateDobbleDeck(n, sample).value, order);
            && |dealt| == DeckSize(n) && |dealt| >= 2
            && ChainMatches(dealt)
            && CorrectRun(StartGame(g, Success(dealt), start), |dealt| - 1, now).over
  {
    var deck := GenerateDobbleDeck(n, sample).value;
    var dealt := Rearrange(deck, order);
    DeckHasTwoCards(n, sample);
    ShuffledChain(n, sample, order);
    PlaysToEnd(g, dealt, start, now);
  }

  lemma PlaysToEnd(g: GameState, deck: seq<Card>, start: int, now: int)
    requires |deck| >= 2 && ChainMatches(deck)
    ensures CorrectRun(StartGame(g, Success(deck), start), |deck| - 1, now).over
  {
    GameEndsAfterPilePlusOne(g, deck, start, now);
  }

  lemma DeckHasTwoCards(n: int, sample: (nat, nat, nat) -> Pos)
    requires GenerateDobbleDeck(n, sample).Success?
    ensures |GenerateDobbleDeck(n, sample).value| == DeckSize(n) >= 2
  {
    assert n >= 2;
    MulMono(1, n, n);
  }

  /** Neighbours in a shuffled generated deck sit at distinct positions of
      the deck, so they share an identifier. */
  lemma ShuffledChain(n: int, sample: (nat, nat, nat) -> Pos, order: seq<int>)
    requires GenerateDobbleDeck(n, sample).Success?
    requires IsPermutation(order, |GenerateDobbleDeck(n, sample).value|)
    ensures ChainMatches(Rearrange(GenerateDobbleDeck(n, sample).value, order))
  {
    var deck := GenerateDobbleDeck(n, sample).value;
    var dealt := Rearrange(deck, order);
    forall k | 0 <= k < |dealt| - 1
      ensures Common(Ids(dealt[k]), Ids(dealt[k + 1])) != {}
    {
      GeneratedCardsMatch(n, sample, order[k], order[k + 1]);
    }
  }
}
