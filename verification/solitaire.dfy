/** Solitaire rule logic: card colour and placement legality, the movability rule,
    the bounded LIFO card stack, and the score / move counters of a game. */
module Solitaire {
  import opened Optional
  import opened Ecs

  // ---------------------------------------------------------------------------
  // Cards
  // ---------------------------------------------------------------------------

  datatype CardSuit = Hearts | Diamonds | Clubs | Spades

  datatype CardRank = Ace | Two | Three | Four | Five | Six | Seven | Eight | Nine | Ten | Jack | Queen | King

  datatype CardColor = Red | Black

  datatype CardLocation = Deck | Waste | Tableau | Foundation | FreeCell | Hand

  /** The numeric value of a rank (its `as u8` discriminant): Ace = 1 .. King = 13. */
  function RankValue(r: CardRank): (v: nat)
    ensures 1 <= v <= 13
    ensures v == 1 <==> r == Ace
    ensures v == 13 <==> r == King
  {
    match r
    case Ace => 1
    case Two => 2
    case Three => 3
    case Four => 4
    case Five => 5
    case Six => 6
    case Seven => 7
    case Eight => 8
    case Nine => 9
    case Ten => 10
    case Jack => 11
    case Queen => 12
    case King => 13
  }

  /** Different ranks have different values. */
  lemma RankValueInjective(a: CardRank, b: CardRank)
    ensures RankValue(a) == RankValue(b) ==> a == b
  {
  }

  /** A card with its game state; display and animation coordinates are not modelled. */
  datatype SolitaireCard = SolitaireCard(
    suit: CardSuit,
    rank: CardRank,
    isFaceUp: bool,
    locationType: CardLocation,
    positionInLocation: nat,
    isMovable: bool,
    isSelected: bool)

  /** The movability rule, stated on its own: a card may move exactly when it is face up
      and lies on the tableau, the waste pile or a free cell. */
  predicate MovabilityConsistent(c: SolitaireCard) {
    c.isMovable <==> c.isFaceUp && c.locationType in {Tableau, Waste, FreeCell}
  }

  /** `SolitaireCard::new`: face down in the deck, neither movable nor selected. */
  function NewCard(suit: CardSuit, rank: CardRank): (c: SolitaireCard)
    ensures c.suit == suit && c.rank == rank
    ensures !c.isFaceUp && !c.isMovable && !c.isSelected
    ensures c.locationType == Deck && c.positionInLocation == 0
    ensures MovabilityConsistent(c)
  {
    SolitaireCard(suit, rank, false, Deck, 0, false, false)
  }

  /** `update_movability`: recomputes `isMovable` from the face and the location. */
  function UpdateMovability(c: SolitaireCard): (r: SolitaireCard)
    ensures MovabilityConsistent(r)
    ensures r == c.(isMovable := r.isMovable)
  {
    if !c.isFaceUp then c.(isMovable := false)
    else
      match c.locationType
      case Foundation => c.(isMovable := false)
      case Tableau => c.(isMovable := true)
      case Waste => c.(isMovable := true)
      case FreeCell => c.(isMovable := true)
      case _ => c.(isMovable := false)
  }

  /** `flip_up`. */
  function FlipUp(c: SolitaireCard): (r: SolitaireCard)
    ensures r.isFaceUp && MovabilityConsistent(r)
    ensures r.suit == c.suit && r.rank == c.rank && r.isSelected == c.isSelected
    ensures r.locationType == c.locationType && r.positionInLocation == c.positionInLocation
  {
    UpdateMovability(c.(isFaceUp := true))
  }

  /** `flip_down`: a face-down card is neither movable nor selected. */
  function FlipDown(c: SolitaireCard): (r: SolitaireCard)
    ensures !r.isFaceUp && !r.isMovable && !r.isSelected && MovabilityConsistent(r)
    ensures r.suit == c.suit && r.rank == c.rank
    ensures r.locationType == c.locationType && r.positionInLocation == c.positionInLocation
  {
    c.(isFaceUp := false, isMovable := false, isSelected := false)
  }

  /** `set_location`. */
  function SetLocation(c: SolitaireCard, location: CardLocation, position: nat): (r: SolitaireCard)
    ensures r.locationType == location && r.positionInLocation == position
    ensures MovabilityConsistent(r)
    ensures r.suit == c.suit && r.rank == c.rank && r.isFaceUp == c.isFaceUp && r.isSelected == c.isSelected
  {
    UpdateMovability(c.(locationType := location, positionInLocation := position))
  }

  /** A face-down card is never movable, whatever happened to it before. */
  lemma FaceDownNeverMovable(c: SolitaireCard, location: CardLocation, position: nat)
    requires !c.isFaceUp
    ensures !SetLocation(c, location, position).isMovable
    ensures !FlipDown(c).isMovable && !UpdateMovability(c).isMovable
  {
  }

  /** `get_color`. */
  function GetColor(c: SolitaireCard): (color: CardColor)
    ensures color == Red <==> c.suit in {Hearts, Diamonds}
    ensures color == Black <==> c.suit in {Clubs, Spades}
  {
    match c.suit
    case Hearts => Red
    case Diamonds => Red
    case Clubs => Black
    case Spades => Black
  }

  /** `can_place_on_tableau`: `c` goes on `other` when the colours alternate and `c` is
      exactly one rank lower. */
  function CanPlaceOnTableau(c: SolitaireCard, other: SolitaireCard): (b: bool)
    ensures b <==> (c.suit in {Hearts, Diamonds} <==> other.suit in {Clubs, Spades})
                   && RankValue(other.rank) == RankValue(c.rank) + 1
    ensures b ==> c.rank != King && other.rank != Ace
  {
    GetColor(c) != GetColor(other) && RankValue(other.rank) == RankValue(c.rank) + 1
  }

  /** `can_place_on_empty_tableau`: only a King starts an empty column. */
  function CanPlaceOnEmptyTableau(c: SolitaireCard): (b: bool)
    ensures b <==> RankValue(c.rank) == 13
  {
    c.rank == King
  }

  /** `can_place_on_foundation`: an Ace starts an empty foundation; otherwise the suit
      must match and the rank be exactly one higher than the top. */
  function CanPlaceOnFoundation(c: SolitaireCard, top: Option<SolitaireCard>): (b: bool)
    ensures top.None? ==> (b <==> RankValue(c.rank) == 1)
    ensures top.Some? ==> (b <==> c.suit == top.value.suit && RankValue(c.rank) == RankValue(top.value.rank) + 1)
    ensures top.Some? && b ==> GetColor(c) == GetColor(top.value) && c.rank != Ace && top.value.rank != King
  {
    match top
    case None => c.rank == Ace
    case Some(t) => c.suit == t.suit && RankValue(c.rank) == RankValue(t.rank) + 1
  }

  /** Tableau placement never goes both ways, never places a card on itself, and never
      places a King on another card. */
  lemma TableauPlacementShape(a: SolitaireCard, b: SolitaireCard)
    ensures CanPlaceOnTableau(a, b) ==> !CanPlaceOnTableau(b, a)
    ensures !CanPlaceOnTableau(a, a)
    ensures a.rank == King ==> !CanPlaceOnTableau(a, b)
    ensures CanPlaceOnTableau(a, b) ==> (a.suit in {Hearts, Diamonds} <==> b.suit in {Clubs, Spades})
  {
  }

  /** A card that may continue a foundation pile on `t` could never be placed under `t`
      in a tableau run (same suit means same colour), and is never an Ace. */
  lemma FoundationAndTableauDisagree(c: SolitaireCard, t: SolitaireCard)
    requires CanPlaceOnFoundation(c, Some(t))
    ensures !CanPlaceOnTableau(t, c)
    ensures c.rank != Ace
  {
  }

  /** Every card of `pile` was a legal foundation placement on the card below it. */
  predicate LegalFoundationPile(pile: seq<SolitaireCard>) {
    && (|pile| > 0 ==> CanPlaceOnFoundation(pile[0], None))
    && (forall i | 0 < i < |pile| :: CanPlaceOnFoundation(pile[i], Some(pile[i - 1])))
  }

  /** A foundation built by legal placements is Ace, Two, Three, ... of one suit, so it
      never holds more than 13 cards (the capacity `CardStack::new` gives a foundation). */
  lemma {:induction false} LegalFoundationPileIsAscendingSuit(pile: seq<SolitaireCard>)
    requires LegalFoundationPile(pile)
    ensures forall i | 0 <= i < |pile| :: pile[i].suit == pile[0].suit && RankValue(pile[i].rank) == i + 1
    ensures |pile| <= 13
    decreases |pile|
  {
    if |pile| > 0 {
      var init := pile[..|pile| - 1];
      assert LegalFoundationPile(init) by {
        forall i | 0 < i < |init|
          ensures CanPlaceOnFoundation(init[i], Some(init[i - 1]))
        {
          assert init[i] == pile[i] && init[i - 1] == pile[i - 1];
        }
      }
      LegalFoundationPileIsAscendingSuit(init);
      var n := |pile| - 1;
      if n > 0 {
        assert CanPlaceOnFoundation(pile[n], Some(pile[n - 1]));
        assert pile[n - 1] == init[n - 1];
        assert pile[0] == init[0];
      }
      assert RankValue(pile[n].rank) == n + 1;
      assert forall i | 0 <= i < n :: pile[i] == init[i];
    }
  }

  /** Conversely, Ace, Two, Three, ... of one suit is a pile of legal foundation placements. */
  lemma AscendingSuitPileIsLegal(pile: seq<SolitaireCard>)
    requires forall i | 0 <= i < |pile| :: pile[i].suit == pile[0].suit && RankValue(pile[i].rank) == i + 1
    ensures LegalFoundationPile(pile)
  {
    if |pile| > 0 {
      RankValueInjective(pile[0].rank, Ace);
    }
  }

  // ---------------------------------------------------------------------------
  // CardStack
  // ---------------------------------------------------------------------------

  /** A pile of card entities, bottom first; `maxCapacity` is -1 when unbounded. Display
      coordinates and card spacing are not modelled. */
  datatype CardStack = CardStack(cards: seq<Entity>, stackType: CardLocation, stackIndex: nat, maxCapacity: int)

  /** A bounded stack never holds more cards than its capacity. */
  predicate WithinCapacity(s: CardStack) {
    s.maxCapacity > 0 ==> |s.cards| <= s.maxCapacity
  }

  /** `CardStack::new`: a foundation holds 13 cards, a free cell one, every other pile is unbounded. */
  function NewStack(stackType: CardLocation, stackIndex: nat): (s: CardStack)
    ensures |s.cards| == 0 && s.stackType == stackType && s.stackIndex == stackIndex
    ensures stackType == Foundation ==> s.maxCapacity == 13
    ensures stackType == FreeCell ==> s.maxCapacity == 1
    ensures stackType !in {Foundation, FreeCell} ==> s.maxCapacity == -1
    ensures WithinCapacity(s)
  {
    var capacity := match stackType
      case Tableau => -1
      case Foundation => 13
      case FreeCell => 1
      case Waste => -1
      case _ => -1;
    CardStack([], stackType, stackIndex, capacity)
  }

  /** `len`. */
  function StackLen(s: CardStack): (n: nat)
    ensures n == 0 <==> StackIsEmpty(s)
    ensures WithinCapacity(s) && s.maxCapacity > 0 ==> n <= s.maxCapacity
  {
    |s.cards|
  }

  /** `is_empty`. */
  function StackIsEmpty(s: CardStack): (b: bool)
    ensures b <==> s.cards == []
  {
    |s.cards| == 0
  }

  /** `push_card`: refused on a bounded stack that is full; otherwise the card goes on top. */
  function PushCard(s: CardStack, e: Entity): (r: (CardStack, bool))
    ensures r.1 <==> !(s.maxCapacity > 0 && |s.cards| >= s.maxCapacity)
    ensures r.1 ==> r.0 == s.(cards := s.cards + [e])
    ensures !r.1 ==> r.0 == s
    ensures WithinCapacity(s) ==> WithinCapacity(r.0)
  {
    if s.maxCapacity > 0 && |s.cards| >= s.maxCapacity then (s, false)
    else (s.(cards := s.cards + [e]), true)
  }

  /** `pop_card`: takes the top card off, or reports an empty stack. */
  function PopCard(s: CardStack): (r: (CardStack, Option<Entity>))
    ensures r.1.None? <==> StackIsEmpty(s)
    ensures r.1.None? ==> r.0 == s
    ensures r.1.Some? ==> s.cards == r.0.cards + [r.1.value]
    ensures r.0 == s.(cards := r.0.cards)
    ensures WithinCapacity(s) ==> WithinCapacity(r.0)
  {
    if |s.cards| == 0 then (s, None)
    else (s.(cards := s.cards[..|s.cards| - 1]), Some(s.cards[|s.cards| - 1]))
  }

  /** `peek_top`: the top card, if any. */
  function PeekTop(s: CardStack): (r: Option<Entity>)
    ensures r.None? <==> StackIsEmpty(s)
    ensures r.Some? ==> r.value in s.cards
  {
    if |s.cards| == 0 then None else Some(s.cards[|s.cards| - 1])
  }

  /** `len` counts the cards: a successful push adds one, a pop that returns a card takes
      one away, and a refused push or an empty pop leaves it as it was. */
  lemma StackLenCountsPushPop(s: CardStack, e: Entity)
    ensures PushCard(s, e).1 ==> StackLen(PushCard(s, e).0) == StackLen(s) + 1
    ensures !PushCard(s, e).1 ==> StackLen(PushCard(s, e).0) == StackLen(s)
    ensures PopCard(s).1.Some? ==> StackLen(PopCard(s).0) == StackLen(s) - 1
    ensures PopCard(s).1.None? ==> StackLen(PopCard(s).0) == 0
  {
  }

  /** Peeking shows exactly the card a pop would take, without taking it. */
  lemma PeekIsPopWithoutRemoval(s: CardStack)
    ensures PeekTop(s) == PopCard(s).1
  {
  }

  /** LIFO: after a successful push of `e`, `e` is on top and popping restores the stack. */
  lemma PushThenPop(s: CardStack, e: Entity)
    requires PushCard(s, e).1
    ensures PeekTop(PushCard(s, e).0) == Some(e)
    ensures PopCard(PushCard(s, e).0) == (s, Some(e))
  {
    var s' := PushCard(s, e).0;
    assert s'.cards[..|s'.cards| - 1] == s.cards;
  }

  /** Pushing back the card just popped is accepted and restores the stack. */
  lemma PopThenPush(s: CardStack)
    requires WithinCapacity(s) && !StackIsEmpty(s)
    ensures var (s', top) := PopCard(s); PushCard(s', top.value) == (s, true)
  {
    var (s', top) := PopCard(s);
    assert s'.cards + [top.value] == s.cards;
  }

  // ---------------------------------------------------------------------------
  // Game state counters
  // ---------------------------------------------------------------------------

  datatype SolitaireType = Klondike | Spider | FreeCellGame

  /** The score and counters of one game; `startTime` is supplied by the caller. */
  datatype SolitaireGameState = SolitaireGameState(
    gameType: SolitaireType,
    score: nat,
    moveCount: nat,
    startTime: nat,
    isCompleted: bool,
    isWon: bool,
    deckTurns: nat,
    hintAvailable: bool,
    idleTime: nat)

  /** `SolitaireGameState::new`, with the clock reading passed in. */
  function NewGameState(gameType: SolitaireType, now: nat): (st: SolitaireGameState)
    ensures st.gameType == gameType && st.startTime == now
    ensures st.score == 0 && st.moveCount == 0 && st.deckTurns == 0 && st.idleTime == 0
    ensures !st.isCompleted && !st.isWon && st.hintAvailable
  {
    SolitaireGameState(gameType, 0, 0, now, false, false, 0, true, 0)
  }

  /** `record_move`: one more move, `points` more score, idle time reset. */
  function RecordMove(st: SolitaireGameState, points: nat): (r: SolitaireGameState)
    ensures r.moveCount == st.moveCount + 1
    ensures r.score == st.score + points
    ensures r.idleTime == 0
    ensures r == st.(moveCount := r.moveCount, score := r.score, idleTime := 0)
  {
    st.(moveCount := st.moveCount + 1, score := st.score + points, idleTime := 0)
  }

  /** `record_deck_turn`: from the third turn on, 2 points are taken off, but only when the
      score holds at least 2; the score never goes below zero. */
  function RecordDeckTurn(st: SolitaireGameState): (r: SolitaireGameState)
    ensures r.deckTurns == st.deckTurns + 1
    ensures r.idleTime == 0
    ensures r.score == if r.deckTurns > 2 && st.score >= 2 then st.score - 2 else st.score
    ensures r == st.(deckTurns := r.deckTurns, score := r.score, idleTime := 0)
  {
    var turns := st.deckTurns + 1;
    var score := if turns > 2 && st.score >= 2 then st.score - 2 else st.score;
    st.(deckTurns := turns, score := score, idleTime := 0)
  }

  function Sum(ps: seq<nat>): nat
    decreases |ps|
  {
    if |ps| == 0 then 0 else Sum(ps[..|ps| - 1]) + ps[|ps| - 1]
  }

  /** Records the moves in order. */
  function RecordMoves(st: SolitaireGameState, ps: seq<nat>): SolitaireGameState
    decreases |ps|
  {
    if |ps| == 0 then st else RecordMove(RecordMoves(st, ps[..|ps| - 1]), ps[|ps| - 1])
  }

  /** The score is the sum of the points of every recorded move, and the move count their number. */
  lemma {:induction false} RecordMovesTotals(st: SolitaireGameState, ps: seq<nat>)
    ensures RecordMoves(st, ps).score == st.score + Sum(ps)
    ensures RecordMoves(st, ps).moveCount == st.moveCount + |ps|
    ensures RecordMoves(st, ps).deckTurns == st.deckTurns
    decreases |ps|
  {
    if |ps| > 0 {
      RecordMovesTotals(st, ps[..|ps| - 1]);
    }
  }

  /** Records `k` deck turns in a row. */
  function RecordDeckTurns(st: SolitaireGameState, k: nat): SolitaireGameState
    decreases k
  {
    if k == 0 then st else RecordDeckTurn(RecordDeckTurns(st, k - 1))
  }

  /** How many of `k` further turns, after `d` turns already made, are the third or later. */
  function PenalisedTurns(d: nat, k: nat): nat {
    if d + k <= 2 then 0 else if d >= 2 then k else d + k - 2
  }

  function Min(a: nat, b: nat): nat {
    if a <= b then a else b
  }

  /** After `k` deck turns the score has lost 2 points for each penalised turn, until fewer
      than 2 points were left: the score never underflows. */
  lemma {:induction false} DeckTurnsPenalty(st: SolitaireGameState, k: nat)
    ensures RecordDeckTurns(st, k).deckTurns == st.deckTurns + k
    ensures RecordDeckTurns(st, k).score == st.score - 2 * Min(PenalisedTurns(st.deckTurns, k), st.score / 2)
    decreases k
  {
    if k > 0 {
      DeckTurnsPenalty(st, k - 1);
    }
  }
}
