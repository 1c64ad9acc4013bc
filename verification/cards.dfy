/**
 Cards, the 52-card deck the server builds for every round, and the hand
 total `calc_score` computes (server.py, play_round).
 */
module Cards {
  import opened Bytes

  /**
   A card as the server holds it: the (rank, suit) pair of the deck list.
   The fields have the widths send_card packs them in (rank an unsigned
   short, suit a byte); every card of the deck fits them.
   */
  datatype Card = Card(rank: u16, suit: byte)

  /** Rank 1 is the Ace, 11..13 are Jack, Queen, King; suits are 0..3. */
  predicate Valid(c: Card) {
    1 <= c.rank <= 13 && 0 <= c.suit <= 3
  }

  predicate AllValid(cards: seq<Card>) {
    forall i | 0 <= i < |cards| :: Valid(cards[i])
  }

  predicate Distinct<T(==)>(s: seq<T>) {
    forall i, j | 0 <= i < j < |s| :: s[i] != s[j]
  }

  /**
   The deck before shuffling, in the order of the comprehension over rank
   1..13 and, within a rank, suit 0..3: card k is rank k / 4 + 1, suit k % 4.
   It holds every valid card exactly once.
   */
  function FullDeck(): (d: seq<Card>)
    ensures |d| == 52
    ensures AllValid(d)
    ensures Distinct(d)
    ensures forall c: Card | Valid(c) :: c in d
  {
    var d := seq(52, k requires 0 <= k < 52 => Card(k / 4 + 1, k % 4));
    forall c: Card | Valid(c)
      ensures c in d
    {
      var k := (c.rank - 1) * 4 + c.suit;
      assert k / 4 == c.rank - 1 && k % 4 == c.suit;
      assert d[k] == c;
    }
    d
  }

  /** What a shuffle of the server's deck may return: the 52 cards in some order. */
  predicate IsShuffle(deck: seq<Card>) {
    multiset(deck) == multiset(FullDeck())
  }

  /** A sequence is duplicate-free exactly when no element occurs twice in its multiset. */
  lemma {:induction false} DistinctIffSingleOccurrences<T>(s: seq<T>)
    ensures Distinct(s) <==> forall x :: multiset(s)[x] <= 1
    decreases |s|
  {
    if |s| > 0 {
      var s', y := s[..|s| - 1], s[|s| - 1];
      assert s == s' + [y];
      DistinctIffSingleOccurrences(s');
      if Distinct(s) {
        assert Distinct(s');
        assert y !in s';
      } else {
        var i, j :| 0 <= i < j < |s| && s[i] == s[j];
        var x := s[i];
        assert s[..j] + s[j..] == s;
        assert x in multiset(s[..j]) by { assert s[..j][i] == x; }
        assert x in multiset(s[j..]) by { assert s[j..][0] == x; }
        assert multiset(s)[x] == multiset(s[..j])[x] + multiset(s[j..])[x];
      }
    }
  }

  /** Fewer occurrences of every element keep a sequence duplicate-free. */
  lemma DistinctSubMultiset<T>(s: seq<T>, t: seq<T>)
    requires Distinct(s) && multiset(t) <= multiset(s)
    ensures Distinct(t)
  {
    DistinctIffSingleOccurrences(s);
    DistinctIffSingleOccurrences(t);
    forall x
      ensures multiset(t)[x] <= 1
    {
      assert multiset(t)[x] <= multiset(s)[x];
    }
  }

  /** A shuffled deck holds 52 valid cards, none twice. */
  lemma ShuffleIsDeck(deck: seq<Card>)
    requires IsShuffle(deck)
    ensures |deck| == 52 && AllValid(deck) && Distinct(deck)
  {
    var full := FullDeck();
    assert |deck| == |multiset(deck)| == |multiset(full)| == 52;
    forall i | 0 <= i < |deck|
      ensures Valid(deck[i])
    {
      assert deck[i] in multiset(full);
      var k :| 0 <= k < |full| && full[k] == deck[i];
    }
    DistinctSubMultiset(full, deck);
  }

  // ------------------------------------------------------- Popping the deck

  /**
   `drawn` is what |drawn| successive deck.pop() calls return, in order, and
   `rest` what is left: the cards leave from the end of the list.
   */
  predicate PoppedFrom(deck: seq<Card>, rest: seq<Card>, drawn: seq<Card>) {
    |drawn| <= |deck| && rest == deck[..|deck| - |drawn|]
    && forall i | 0 <= i < |drawn| :: drawn[i] == deck[|deck| - 1 - i]
  }

  /** Popping in two stretches is popping once. */
  lemma PoppedTrans(a: seq<Card>, b: seq<Card>, c: seq<Card>, x: seq<Card>, y: seq<Card>)
    requires PoppedFrom(a, b, x) && PoppedFrom(b, c, y)
    ensures PoppedFrom(a, c, x + y)
  {
  }

  /** Every card popped is one card of the deck, and the deck only loses what was popped. */
  lemma PoppedConserves(deck: seq<Card>, rest: seq<Card>, drawn: seq<Card>)
    requires PoppedFrom(deck, rest, drawn)
    ensures multiset(deck) == multiset(rest) + multiset(drawn)
    ensures |deck| == |rest| + |drawn|
    ensures Distinct(deck) ==> Distinct(drawn)
  {
    var top := deck[|rest|..];
    assert deck == rest + top;
    assert multiset(top) == multiset(drawn) by {
      PermutationOfReverse(top, drawn);
    }
    if Distinct(deck) {
      forall i, j | 0 <= i < j < |drawn|
        ensures drawn[i] != drawn[j]
      {
        assert deck[|deck| - 1 - j] != deck[|deck| - 1 - i];
      }
    }
  }

  lemma AllValidAppend(a: seq<Card>, b: seq<Card>)
    ensures AllValid(a + b) <==> AllValid(a) && AllValid(b)
  {
    if AllValid(a + b) {
      forall i | 0 <= i < |a|
        ensures Valid(a[i])
      {
        assert a[i] == (a + b)[i];
      }
      forall i | 0 <= i < |b|
        ensures Valid(b[i])
      {
        assert b[i] == (a + b)[|a| + i];
      }
    }
  }

  /** Cards popped from a deck of valid cards are valid, and so is what is left. */
  lemma PoppedValid(deck: seq<Card>, rest: seq<Card>, drawn: seq<Card>)
    requires PoppedFrom(deck, rest, drawn) && AllValid(deck)
    ensures AllValid(rest) && AllValid(drawn)
  {
  }

  /** A sequence and its reversal hold the same elements. */
  lemma {:induction false} PermutationOfReverse(s: seq<Card>, r: seq<Card>)
    requires |r| == |s| && forall i | 0 <= i < |s| :: r[i] == s[|s| - 1 - i]
    ensures multiset(s) == multiset(r)
    decreases |s|
  {
    if |s| > 0 {
      var s', r' := s[1..], r[..|r| - 1];
      PermutationOfReverse(s', r');
      assert s == [s[0]] + s';
      assert r == r' + [r[|r| - 1]];
    }
  }

  // ---------------------------------------------------------------- Scoring

  /** The count of a card before any Ace is demoted: Ace 11, face cards 10, others their rank. */
  function SoftValue(c: Card): (r: int) {
    if c.rank == 1 then 11 else if c.rank >= 11 then 10 else c.rank
  }

  function IsAce(c: Card): (r: bool) {
    c.rank == 1
  }

  /** The first loop of calc_score: the total with every Ace at 11. */
  function RawTotal(cards: seq<Card>): (r: int)
    decreases |cards|
  {
    if |cards| == 0 then 0 else RawTotal(cards[..|cards| - 1]) + SoftValue(cards[|cards| - 1])
  }

  function AceCount(cards: seq<Card>): (n: nat)
    ensures n <= |cards|
    decreases |cards|
  {
    if |cards| == 0 then 0
    else AceCount(cards[..|cards| - 1]) + (if IsAce(cards[|cards| - 1]) then 1 else 0)
  }

  /**
   The second loop of calc_score: while the total is over 21 and an Ace is
   still counted as 11, count it as 1 instead.
   */
  function Demote(total: int, aces: nat): (r: int)
    decreases aces
  {
    if total > 21 && aces > 0 then Demote(total - 10, aces - 1) else total
  }

  /**
   What the demotion loop leaves: a total between the all-hard and the
   all-soft one, a whole number of Aces below the latter; every demotion
   was needed; and a result over 21 means no Ace was left to demote.
   */
  lemma {:induction false} DemoteBounds(total: int, aces: nat)
    ensures var r := Demote(total, aces);
      total - 10 * aces <= r <= total
      && (total - r) % 10 == 0
      && (r < total ==> r + 10 > 21)
      && (r > 21 ==> r == total - 10 * aces)
    decreases aces
  {
    if total > 21 && aces > 0 {
      DemoteBounds(total - 10, aces - 1);
    }
  }

  /** calc_score(cards). */
  function Score(cards: seq<Card>): (r: int) {
    Demote(RawTotal(cards), AceCount(cards))
  }

  /** The count of a card with every Ace at 1: Ace 1, face cards 10, others their rank. */
  function HardValue(c: Card): (r: int) {
    if c.rank >= 11 then 10 else c.rank
  }

  /** The total with every Ace counted as 1, card by card. */
  function HardTotal(cards: seq<Card>): (r: int)
    decreases |cards|
  {
    if |cards| == 0 then 0 else HardTotal(cards[..|cards| - 1]) + HardValue(cards[|cards| - 1])
  }

  /** The hand holds an Ace. */
  predicate HasAce(cards: seq<Card>) {
    exists i | 0 <= i < |cards| :: cards[i].rank == 1
  }

  /**
   Independent statement of the hand value: the hard total, raised by 10
   (one soft Ace) when the hand has an Ace and that keeps it at 21 or less.
   */
  function BestTotal(cards: seq<Card>): (r: int) {
    var hard := HardTotal(cards);
    if HasAce(cards) && hard + 10 <= 21 then hard + 10 else hard
  }

  /** The first loop of calc_score counts each Ace 10 above its hard value. */
  lemma {:induction false} RawTotalIsHardPlusAces(cards: seq<Card>)
    ensures RawTotal(cards) == HardTotal(cards) + 10 * AceCount(cards)
    decreases |cards|
  {
    if |cards| > 0 {
      RawTotalIsHardPlusAces(cards[..|cards| - 1]);
    }
  }

  /** The Ace counter of calc_score is positive exactly when the hand holds an Ace. */
  lemma {:induction false} AceCountCountsAces(cards: seq<Card>)
    ensures AceCount(cards) > 0 <==> HasAce(cards)
    decreases |cards|
  {
    if |cards| > 0 {
      var init := cards[..|cards| - 1];
      AceCountCountsAces(init);
      if HasAce(init) {
        var i :| 0 <= i < |init| && init[i].rank == 1;
        assert cards[i] == init[i];
      }
      if HasAce(cards) && !IsAce(cards[|cards| - 1]) {
        var i :| 0 <= i < |cards| && cards[i].rank == 1;
        assert init[i] == cards[i];
      }
    }
  }

  /** With valid cards, every Ace contributes at least 1 to the hard total. */
  lemma {:induction false} HardTotalAtLeastAces(cards: seq<Card>)
    requires AllValid(cards)
    ensures HardTotal(cards) >= AceCount(cards)
    ensures HardTotal(cards) >= |cards|
    decreases |cards|
  {
    if |cards| > 0 {
      HardTotalAtLeastAces(cards[..|cards| - 1]);
    }
  }

  /**
   calc_score agrees with the independent definition: it keeps at most one
   Ace soft, and exactly one whenever that does not bust the hand. So it is
   the largest total not over 21 when there is one.
   */
  lemma ScoreIsBestTotal(cards: seq<Card>)
    requires AllValid(cards)
    ensures Score(cards) == BestTotal(cards)
  {
    HardTotalAtLeastAces(cards);
    RawTotalIsHardPlusAces(cards);
    AceCountCountsAces(cards);
    var raw, aces := RawTotal(cards), AceCount(cards);
    DemoteBounds(raw, aces);
    var r := Score(cards);
    var k := (raw - r) / 10;
    assert r == raw - 10 * k;
    if aces > 0 && HardTotal(cards) + 10 <= 21 {
      // demoting every Ace but one already reaches 21 or less, and demoting
      // one Ace fewer would leave two soft Aces, at least 22
      assert k <= aces - 1 || r <= 21;
    }
  }

  /** A hand is bust exactly when even its all-hard total is over 21. */
  lemma BustIffHardTotalOver21(cards: seq<Card>)
    requires AllValid(cards)
    ensures Score(cards) > 21 <==> HardTotal(cards) > 21
  {
    ScoreIsBestTotal(cards);
  }

  /** A hand that is not bust holds at most 21 cards, since each counts at least 1. */
  lemma NotBustIsShort(cards: seq<Card>)
    requires AllValid(cards) && Score(cards) <= 21
    ensures |cards| <= 21
  {
    HardTotalAtLeastAces(cards);
    BustIffHardTotalOver21(cards);
  }

  /** The totals of a hand grow card by card. */
  lemma TotalsOfAppend(cards: seq<Card>, c: Card)
    ensures RawTotal(cards + [c]) == RawTotal(cards) + SoftValue(c)
    ensures AceCount(cards + [c]) == AceCount(cards) + (if IsAce(c) then 1 else 0)
  {
  }

  lemma TotalsOfPair(a: Card, b: Card)
    ensures RawTotal([a, b]) == SoftValue(a) + SoftValue(b)
    ensures AceCount([a, b]) == (if IsAce(a) then 1 else 0) + (if IsAce(b) then 1 else 0)
  {
    TotalsOfAppend([], a);
    TotalsOfAppend([a], b);
    assert [a] + [b] == [a, b];
  }

  /** Scores of the hands a round can hold. */
  lemma ScoreExamples()
    ensures Score([Card(1, 0), Card(13, 0)]) == 21
    ensures Score([Card(1, 0), Card(1, 1), Card(9, 0)]) == 21
    ensures Score([Card(13, 0), Card(12, 0), Card(2, 0)]) == 22
    ensures Score([Card(7, 0), Card(9, 0)]) == 16
  {
    TotalsOfPair(Card(1, 0), Card(13, 0));
    TotalsOfPair(Card(7, 0), Card(9, 0));
    TotalsOfPair(Card(1, 0), Card(1, 1));
    TotalsOfAppend([Card(1, 0), Card(1, 1)], Card(9, 0));
    assert [Card(1, 0), Card(1, 1)] + [Card(9, 0)] == [Card(1, 0), Card(1, 1), Card(9, 0)];
    assert Demote(31, 2) == Demote(21, 1);
    TotalsOfPair(Card(13, 0), Card(12, 0));
    TotalsOfAppend([Card(13, 0), Card(12, 0)], Card(2, 0));
    assert [Card(13, 0), Card(12, 0)] + [Card(2, 0)] == [Card(13, 0), Card(12, 0), Card(2, 0)];
  }

  /** Two cards never bust: the worst case, two Aces, scores 12. */
  lemma TwoCardsNeverBust(a: Card, b: Card)
    ensures Score([a, b]) <= 21
  {
    TotalsOfPair(a, b);
    DemoteBounds(RawTotal([a, b]), AceCount([a, b]));
  }
}
