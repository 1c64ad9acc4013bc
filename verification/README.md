# Blackjack over UDP offers and TCP rounds — a Dafny model

This project models the game core of a small client/server Blackjack game:

- The **wire codec** of `protocol.py`. Four fixed-width big-endian `struct` layouts: offer (39 bytes), request (38), client payload (10) and server payload (9). Also the game result codes and `pad_string`.
- **One round** of the server's `play_round`:
  - the 52-card deck, popped from its end;
  - `calc_score`;
  - the initial deal with the hidden dealer card;
  - the player loop, driven by the client's messages;
  - the bust exit without the final packet;
  - the dealer drawing below 17;
  - the outcome rule and the final result packet.
- **A session** of `handle_client`: request validation, then the requested number of rounds on one connection.
- **The client's filters**: which offer datagrams `find_server` accepts and which port it connects to, the 1..255 check on the rounds typed in, and the request packet it sends.

Everything is a pure function over byte sequences and card sequences, except four methods: the loops `Session.RunRounds` (the `for` loop over rounds), `Client.FindServer` and `Client.ReadRounds`, and `Session.HandleClient`, which checks the request and then calls `RunRounds`. The shuffled deck is an input, and every `recv` call is an input element. A round's output is the sequence of server payloads it sent, the hands, how it ended, and the messages it left for the next round.

Modules, one per file except bytes.dfy, which holds two:

| module | contents |
|---|---|
| `Wrappers` (bytes.dfy) | `Option` |
| `Bytes` (bytes.dfy) | bytes, big-endian 16/32-bit fields, `pad_string` |
| `Utf8` (utf8.dfy) | when a byte string decodes as UTF-8 (section 4 of RFC 3629) |
| `Protocol` (protocol.dfy) | constants, result codes, and the four layouts with encoders, decoders and round trips |
| `Cards` (cards.dfy) | cards, the full deck, popping, `calc_score` and an independent best-total definition |
| `Round` (round.dfy) | `play_round` and the properties of a round |
| `Session` (session.dfy) | `handle_client` and the offer the server broadcasts |
| `Client` (client.dfy) | offer acceptance, the rounds prompt, the request |

Every `recv` in a session is bounded by the 60-second timeout that `handle_client` sets on the socket (server.py:41). So a timeout is modelled as one possible outcome of a `recv` (`Round.Received.TimedOut`). In the player loop it raises inside the `try`. The handler then returns from `play_round`, and the session goes on with its next round.

Four behaviours of the code worth noting:

- The timeout above applies to every receive, not only to the request.
- A connection error during the player's turn ends only that round (server.py:158-160), not the session.
- A request or an offer whose name field is not UTF-8 is dropped like a malformed one, because the decode raises (server.py:55, client.py:44).
- The decision field is decoded before the cookie and type are checked (server.py:135). So a 10-byte message with a foreign cookie but a non-UTF-8 decision ends the round instead of being ignored.

## Model

| member | source | states |
|---|---|---|
| Bytes.BigEndian16 | Blackjack/protocol.py:10 | packing a value as `!H` gives two bytes that unpack to the value again |
| Bytes.FromBigEndian16 | Blackjack/protocol.py:10 | unpacking two bytes as `!H`; no contract of its own: BigEndian16 and BigEndian16Unique show it is the inverse of packing |
| Bytes.BigEndian32 | Blackjack/protocol.py:9-14 | packing a value as `!I` gives four bytes that unpack to the value again |
| Bytes.FromBigEndian32 | Blackjack/protocol.py:9-14 | unpacking four bytes as `!I`; no contract of its own: BigEndian32 and BigEndian32Unique show it is the inverse of packing |
| Bytes.BigEndian16Unique | Blackjack/protocol.py:10 | two bytes are the `!H` encoding of exactly one value, so decoding then encoding gives the bytes back |
| Bytes.BigEndian32Unique | Blackjack/protocol.py:9-14 | four bytes are the `!I` encoding of exactly one value (the cookie field of every layout) |
| Bytes.PadString | Blackjack/protocol.py:22-23 | `pad_string` returns exactly `length` bytes: a short text followed by zero bytes up to the width, a long text cut to its first `length` bytes |
| Bytes.PadStringIdempotent | Blackjack/protocol.py:22-23 | padding an already padded field changes nothing (why `struct`'s own `32s` padding of a padded name is harmless) |
| Bytes.PadStringKeepsPrefix | Blackjack/protocol.py:22-23 | whatever its length, the field starts with the text's first bytes |
| Utf8.LeadLength | Blackjack/server.py:135 | a character of a valid UTF-8 string takes 1 to 4 bytes, and an ASCII byte is a character on its own |
| Utf8.WellFormed | Blackjack/server.py:135 | when `decode('utf-8')` succeeds (the byte sequences of section 4 of RFC 3629); it also decides the name decodes at server.py:55 and client.py:44; no contract of its own: AsciiIsWellFormed and TailCannotLead state it |
| Utf8.AsciiIsWellFormed | Blackjack/server.py:55 | every ASCII string, zero padding included, decodes; so the names the programs send always decode |
| Utf8.TailCannotLead | Blackjack/server.py:135 | a field starting with a continuation byte does not decode, so such a decision raises |
| Protocol.GameResult.Code | Blackjack/protocol.py:17-20 | every result code is one of 0..3 |
| Protocol.ResultOfCode | Blackjack/protocol.py:17-20 | exactly the codes 0..3 are results, and reading a code back gives the result carrying it |
| Protocol.ResultCodesDistinct | Blackjack/protocol.py:17-20 | Playing, Tie, Loss and Win have four different codes, so a code identifies its result |
| Protocol.PadName | Blackjack/protocol.py:22 | the default width is 32: a name field is always 32 bytes, zero-padded or cut |
| Protocol.EncodeOffer | Blackjack/protocol.py:9-10 | an offer is 39 bytes: the cookie big-endian in bytes 0..3, the type in byte 4, the port big-endian in bytes 5..6, the padded name after |
| Protocol.DecodeOffer | Blackjack/client.py:36 | unpacking succeeds exactly on 39 bytes, and every accepted buffer is the encoding of the fields it yields |
| Protocol.OfferRoundTrip | Blackjack/protocol.py:9-10 | decoding an encoded offer gives back its fields, with the name as `pad_string` stores it |
| Protocol.EncodeRequest | Blackjack/protocol.py:11-12 | a request is 38 bytes: the cookie, the type, the round count in byte 5 and the padded name |
| Protocol.DecodeRequest | Blackjack/server.py:49 | unpacking succeeds exactly on 38 bytes, and every accepted buffer is the encoding of its fields |
| Protocol.RequestRoundTrip | Blackjack/protocol.py:11-12 | decoding an encoded request gives back its fields, the name padded |
| Protocol.EncodeClientPayload | Blackjack/protocol.py:13 | a client payload is 10 bytes: the cookie, the type, then the 5-byte decision |
| Protocol.DecodeClientPayload | Blackjack/server.py:134 | unpacking succeeds exactly on 10 bytes, and every accepted buffer is the encoding of its fields |
| Protocol.ClientPayloadRoundTrip | Blackjack/protocol.py:13 | decoding an encoded client payload gives back its fields, the decision padded to 5 bytes |
| Protocol.EncodeServerPayload | Blackjack/protocol.py:14 | a server payload is 9 bytes: the rank takes two bytes, big-endian, in bytes 6..7 |
| Protocol.DecodeServerPayload | Blackjack/protocol.py:14 | unpacking succeeds exactly on 9 bytes, and every accepted buffer is the encoding of its fields |
| Protocol.ServerPayloadRoundTrip | Blackjack/protocol.py:14 | a server payload has no string field, so its round trip is exact |
| Cards.FullDeck | Blackjack/server.py:70 | the unshuffled deck has 52 valid cards, no card twice, and every valid card |
| Cards.ShuffleIsDeck | Blackjack/server.py:70-71 | any permutation of that deck again has 52 distinct valid cards |
| Cards.DistinctIffSingleOccurrences | Blackjack/server.py:70 | a sequence has no repeated element exactly when each element occurs at most once in its multiset |
| Cards.DistinctSubMultiset | Blackjack/server.py:70 | taking some of the cards of a deck without repeats gives a sequence without repeats |
| Cards.PoppedTrans | Blackjack/server.py:108-124 | popping a deck in two stretches is popping it once |
| Cards.PoppedConserves | Blackjack/server.py:108-124 | each pop takes one card: the deck shrinks by exactly the cards popped, and from a deck without repeats no card is popped twice |
| Cards.PermutationOfReverse | Blackjack/server.py:108 | the cards popped off the end are the top of the deck in reverse, so the same cards |
| Cards.AllValidAppend | Blackjack/server.py:109 | a hand is valid exactly when both of its parts are |
| Cards.PoppedValid | Blackjack/server.py:108-124 | cards popped from a deck of valid cards are valid, and so is what is left |
| Cards.SoftValue | Blackjack/server.py:93-99 | what the first loop of `calc_score` adds for one card; no contract of its own: RawTotalIsHardPlusAces relates it to the separate hard-value table, and ScoreExamples pins values |
| Cards.RawTotal | Blackjack/server.py:90-99 | the total after the first loop of `calc_score`; no contract of its own: TotalsOfAppend and RawTotalIsHardPlusAces state it |
| Cards.AceCount | Blackjack/server.py:91-95 | a hand has at most as many Aces as cards |
| Cards.AceCountCountsAces | Blackjack/server.py:93-95 | the Ace counter of `calc_score` is positive exactly when the hand holds an Ace |
| Cards.Demote | Blackjack/server.py:101-103 | the demotion loop of `calc_score`; no contract of its own: DemoteBounds states what it leaves |
| Cards.DemoteBounds | Blackjack/server.py:101-103 | the loop subtracts 10 per Ace it demotes, at most once per Ace; it stops at 21 or below unless every Ace was demoted; and it never demotes an Ace it did not need to |
| Cards.RawTotalIsHardPlusAces | Blackjack/server.py:92-99 | the first loop's total is the all-hard total (Ace 1, face 10, others their rank, summed card by card) plus 10 for every Ace it counted |
| Cards.HardTotalAtLeastAces | Blackjack/server.py:92-99 | with every Ace counted as 1, each card counts at least 1 |
| Cards.Score | Blackjack/server.py:89-104 | `calc_score`; no contract of its own: ScoreIsBestTotal, BustIffHardTotalOver21, NotBustIsShort, TwoCardsNeverBust and ScoreExamples state its value |
| Cards.BestTotal | Blackjack/server.py:89-104 | the reference hand value, built from its own card table: the all-hard total, plus 10 when the hand has an Ace and that stays at 21 or less; no contract of its own, ScoreIsBestTotal compares `calc_score` with it |
| Cards.ScoreIsBestTotal | Blackjack/server.py:89-104 | `calc_score` agrees with an independent definition: the all-hard total, plus 10 when one Ace can be soft without passing 21 |
| Cards.BustIffHardTotalOver21 | Blackjack/server.py:89-104 | a hand scores over 21 exactly when even its all-hard total is over 21 |
| Cards.NotBustIsShort | Blackjack/server.py:89-104 | a hand that is not bust holds at most 21 cards |
| Cards.TotalsOfAppend | Blackjack/server.py:92-99 | the raw total and the Ace count grow card by card |
| Cards.TotalsOfPair | Blackjack/server.py:92-99 | the raw total and Ace count of a two-card hand |
| Cards.ScoreExamples | Blackjack/server.py:89-104 | Ace+King is 21, Ace+Ace+9 is 21, King+Queen+2 is 22, 7+9 is 16 |
| Cards.TwoCardsNeverBust | Blackjack/server.py:108-115 | a two-card hand never scores over 21 (two Aces make 12) |
| Round.ResultPacket | Blackjack/server.py:189-190 | the final packet, rank and suit 0; no contract of its own: CardPacketIsNotResultPacket and SettleSends state it |
| Round.CardPacket | Blackjack/server.py:77-86 | `send_card` packs the cookie, type 0x4, the result code, the rank and the suit |
| Round.Packets | Blackjack/server.py:77-86 | the packets of a run of cards sent while play goes on; no contract of its own: PacketsOfCards, PacketsAppend and PacketsCons state them |
| Round.PacketsOfCards | Blackjack/server.py:77-86 | cards sent while play goes on give one Playing packet per card, in order |
| Round.PacketsAppend | Blackjack/server.py:108-120 | the packets of two runs of cards are the packets of each, one after the other |
| Round.CardPacketIsNotResultPacket | Blackjack/server.py:189-190 | a card packet never looks like the final packet, since no card has rank 0 |
| Round.StripZeros | Blackjack/server.py:135 | the result of `strip('\x00')` is no longer than its input, is empty or has non-zero bytes at both ends, and is the input itself when the input has no zero end |
| Round.StripZerosIsSlice | Blackjack/server.py:135 | `strip('\x00')` removes only zero bytes and only at the ends: the result is a slice of the input with nothing but zeros before and after it (with StripZeros's contract, the shortest such slice) |
| Round.ParseDecision | Blackjack/server.py:131-156 | how one received message drives the player loop; no contract of its own: ParseDecisionBytes and ClientDecisionsParse state it |
| Round.ParseDecisionBytes | Blackjack/server.py:131-156 | a message is a hit or a stand exactly when its first ten bytes are the payload header and "Hittt" or "Stand"; it raises exactly when its decision field is not UTF-8; every other message is skipped |
| Round.PayloadFields | Blackjack/server.py:134-143 | the cookie and type the loop checks are the header bytes, and the decision is bytes 5..9 |
| Round.ClientDecisionsParse | Blackjack/server.py:145-156 | a well-formed "Hittt" or "Stand" payload is read as that decision, whatever follows it in the same recv |
| Round.Deal | Blackjack/server.py:106-125 | the deal pops four cards, two to the player and two to the dealer, and sends exactly the first three, each with Playing; the fourth stays hidden |
| Round.Decisions | Blackjack/server.py:129-135 | one decision per recv call |
| Round.Receive | Blackjack/server.py:131-160 | a recv that times out raises, any other is parsed; no contract of its own: DecisionAt and DeckNeverRunsOut use it |
| Round.DecisionAt | Blackjack/server.py:129-135 | the i-th decision is the one the i-th recv leads to |
| Round.PlayerTurn | Blackjack/server.py:129-160 | the player loop; no contract of its own: SkipStep, HitStep, BustStep, StopStep and PlayerTurnPops, PlayerTurnSends, PlayerTurnSendsBust, PlayerTurnScores, PlayerTurnReads and PlayerTurnEnds state it |
| Round.AfterHit | Blackjack/server.py:146-154 | one hit: pop a card into the player's hand and send it; no contract of its own: HitStep and BustStep state it |
| Round.SkipStep | Blackjack/server.py:133-143 | a skipped message leaves the table as it was and only counts as read |
| Round.HitStep | Blackjack/server.py:145-154 | a hit that does not bust pops one card, sends it with Playing and goes on |
| Round.BustStep | Blackjack/server.py:145-152 | the busting hit pops one card, sends it with Loss and ends the turn |
| Round.StopStep | Blackjack/server.py:155-160 | a stand, a raising message or an empty deck ends the turn with the table as it was |
| Round.HitsFromHit | Blackjack/server.py:146-147 | one hit followed by more hits is hits from the earlier table |
| Round.PlayerTurnPops | Blackjack/server.py:145-147 | the player's turn only pops cards into the player's hand, in pop order; the dealer's hand is untouched |
| Round.PacketsCons | Blackjack/server.py:154 | a Playing packet followed by the packets of more cards is the packets of all of them |
| Round.PlayerTurnSends | Blackjack/server.py:145-154 | unless the turn busts, each hit went out with Playing as it was drawn, and nothing else was sent |
| Round.BustAfterHitSends | Blackjack/server.py:145-154 | the packets of a turn that busted after more hits |
| Round.PlayerTurnSendsBust | Blackjack/server.py:145-152 | the busting card is the last packet of the turn and carries Loss; every hit before it carried Playing |
| Round.PlayerTurnScores | Blackjack/server.py:145-152 | a bust ends over 21; any other end from a hand at 21 or less is at 21 or less |
| Round.PlayerTurnReads | Blackjack/server.py:129-160 | the turn reads a prefix of the messages; it runs out only after reading all of them, and otherwise reads at least one |
| Round.PlayerTurnEnds | Blackjack/server.py:129-160 | the last message read ended the turn: a stand, the busting hit, a message that raises, or a hit on an empty deck |
| Round.SkippedMessagesChangeNothing | Blackjack/server.py:133-143 | messages the loop skips before the rest change nothing but the count of messages read |
| Round.DealerDraws | Blackjack/server.py:172-175 | the dealer loop; no contract of its own: DealerDrawStep, DealerDrawsPops, DealerDrawsSends and DealerDrawsStops state it |
| Round.AfterDraw | Blackjack/server.py:173-175 | one dealer draw: pop a card into the dealer's hand and send it; no contract of its own: DealerDrawStep states it |
| Round.DealerDrawStep | Blackjack/server.py:172-175 | below 17 with cards left, the dealer draws one card and goes on |
| Round.DealerDrawsPops | Blackjack/server.py:172-175 | the dealer's draws are pops into the dealer's hand; the player's hand is untouched |
| Round.DealerDrawsSends | Blackjack/server.py:172-175 | each dealer draw is sent with Playing as it is drawn |
| Round.DealerDrawsStops | Blackjack/server.py:172-175 | the dealer stops at 17 or more unless the deck runs out first, and was below 17 before every draw |
| Round.Outcome | Blackjack/server.py:177-187 | a dealer over 21 means Win; else the higher score wins and equal scores tie; never Playing |
| Round.OutcomeSwaps | Blackjack/server.py:180-187 | between hands that did not bust, swapping them swaps Win and Loss and keeps Tie |
| Round.RoundStages | Blackjack/server.py:127-169 | a round is the deal, the player's turn, and only after a stand the dealer; a bust, a raise and running out of messages end it early |
| Round.Settle | Blackjack/server.py:168-190 | the round after a stand; no contract of its own: SettlePops, SettleSends, SettleScores and SettleNeverRunsOut state it |
| Round.PlayRound | Blackjack/server.py:69-190 | `play_round` on a shuffled deck; no contract of its own: RoundStages, RoundSendsBust, RoundSendsCut, RoundSendsSettled, RoundScores, DeckNeverRunsOut, RoundCardsDistinct and HiddenCardStaysHidden state what it does |
| Round.SettlePops | Blackjack/server.py:168-175 | settling pops only into the dealer's hand, behind its two cards |
| Round.SettleSends | Blackjack/server.py:168-190 | settling sends the hidden card, then each draw, then the result unless the deck ran out |
| Round.SettleScores | Blackjack/server.py:168-187 | a settled round ends with the dealer at 17 or more and its result is the outcome rule on both scores |
| Round.RoundHands | Blackjack/server.py:106-175 | both hands keep their two dealt cards as the first two, and the dealer draws only after a stand |
| Round.RoundPops | Blackjack/server.py:106-175 | the round pops two player cards, the dealer's two cards, the player's hits, then the dealer's draws, in that order |
| Round.RoundReads | Blackjack/server.py:129-160 | a round reads a prefix of the messages and leaves the rest to the next round |
| Round.RoundSendsBust | Blackjack/server.py:145-166 | on a bust the client receives the shown cards with Playing, then the busting card with Loss, and no final packet; the hidden card is never sent |
| Round.ShownPackets | Blackjack/server.py:106-175 | the packets of the turn and of the dealer put together |
| Round.RoundSendsCut | Blackjack/server.py:158-160 | a round cut short in the player's turn sent only the shown cards, with Playing, and no result |
| Round.RoundSendsSettled | Blackjack/server.py:168-190 | after a stand the client receives every shown card with Playing, the hidden card right after the hits, and the result last |
| Round.RoundScores | Blackjack/server.py:145-187 | a bust is over 21; a settled round has the player at 21 or less, the dealer at 17 or more having drawn only below 17, and the outcome rule's result |
| Round.SettleNeverRunsOut | Blackjack/server.py:172-175 | with 20 valid cards left the dealer never empties the deck |
| Round.TurnLeavesCards | Blackjack/server.py:127-160 | unless the player busts, the turn leaves at most 21 cards in the player's hand and the rest of the 52 in the deck |
| Round.DeckNeverRunsOut | Blackjack/server.py:146-173 | a full deck never runs out, neither at the player's pop (server.py:146) nor at the dealer's (server.py:173): so a round ends early only by a bust, by a recv that times out or a decision that is not UTF-8, or by the modelled input running out |
| Round.ShownArePopped | Blackjack/server.py:106-175 | every card sent was popped, no more often than it was popped |
| Round.RoundCardsDistinct | Blackjack/server.py:70-175 | on a deck without repeats no card is dealt twice and no card is sent twice in a round |
| Round.HiddenCardStaysHidden | Blackjack/server.py:122-125 | a round that ends before the dealer's turn never sends the hidden card |
| Session.RequestedRounds | Blackjack/server.py:42-55 | the request check of `handle_client`; no contract of its own: RequestedRoundsBytes, RequestIgnoresTail and Client.RequestAccepted state it |
| Session.Requested | Blackjack/server.py:41-55 | a first recv that times out plays nothing; no contract of its own: HandleClient states its effect |
| Session.RequestedRoundsBytes | Blackjack/server.py:42-55 | a session plays exactly when the first recv has at least 38 bytes, the request header and a name that decodes; the round count is byte 5 |
| Session.RequestIgnoresTail | Blackjack/server.py:49 | bytes after the first 38 of the request recv change nothing |
| Session.ServerOffer | Blackjack/server.py:19-25 | the broadcast offer is a 39-byte datagram |
| Session.SessionRounds | Blackjack/server.py:59-61 | the rounds of the `for` loop; no contract of its own: SessionRoundsChain and RunRounds state them |
| Session.SessionRoundsChain | Blackjack/server.py:59-61 | at most the requested rounds; each on the messages the previous left; every round but the last lets the session go on; fewer only when the last did not |
| Session.RunRounds | Blackjack/server.py:59-61 | the `for` loop computes the rounds of the recursive definition |
| Session.HandleClient | Blackjack/server.py:37-67 | no round unless the request is accepted; then up to the requested count of rounds, chained through the unread messages, stopping early only after a round that ends the session |
| Client.AcceptOffer | Blackjack/client.py:32-47 | the offer filter of `find_server`; no contract of its own: AcceptOfferBytes, OfferIgnoresTail and OfferAccepted state it |
| Client.AcceptOfferBytes | Blackjack/client.py:32-47 | a datagram is accepted exactly when it has at least 39 bytes, the offer header and a name that decodes; the port is the big-endian value of bytes 5 and 6 |
| Client.OfferIgnoresTail | Blackjack/client.py:36 | bytes after the first 39 of a datagram change nothing |
| Client.FindServer | Blackjack/client.py:25-50 | the first acceptable datagram decides the server and its sender's address; every datagram before it was rejected |
| Client.ReadRounds | Blackjack/client.py:61-69 | the first line parsing to a number from 1 to 255 is taken; every line before it was rejected or out of range |
| Client.BuildRequest | Blackjack/client.py:71-77 | the request the client sends is 38 bytes |
| Client.PadNameAscii | Blackjack/protocol.py:22-23 | padding an ASCII name keeps it ASCII |
| Client.RequestAccepted | Blackjack/client.py:71-77 | the server decodes the client's request to the rounds chosen and the padded team name, and plays exactly those rounds, whatever follows it in the same recv |
| Client.OfferAccepted | Blackjack/client.py:32-47 | the client accepts the server's broadcast offer and connects to the port it announces |

## Left out

- Sockets, `accept`, `sendall`, `recvfrom` and broadcasting. Sent packets are an output sequence, and received messages and datagrams are input sequences. TCP may split or merge messages; each input element is the result of one `recv`.
- Threads, the `running` flag, `KeyboardInterrupt` and `time.sleep`: they are concurrency and shutdown plumbing.
- `random.shuffle`: each round's deck is a parameter of length 52, and `Cards.IsShuffle` states what a shuffle of the full deck is.
- `get_local_ip`, `print` and `input()`: console and display only. The prompt loop's lines arrive already parsed by `int`.
- UTF-8 decoding, other than whether it raises: decoded text is only compared with ASCII words or printed.
- `str.strip()` on the team name, which only affects what is printed.
- The client's single `recv` placeholder after sending the request (client.py:84-85).
- Exceptions from `sendall` and connection resets: they are runtime socket failures. Only the recv timeout is modelled.
- Running out of modelled input (`Starved`, or `None` from `FindServer` and `ReadRounds`). The programs would wait instead. A closed connection makes `recv` return empty data, so the player loop would spin on `continue` for ever. The model stops the session there.
- The dealer's pop on an empty deck is modelled as the `DeckEmpty` end, which ends the session. `Round.DeckNeverRunsOut` shows that a full deck never gets there.
- The card fields are the 16-bit rank and 8-bit suit `send_card` packs. Values outside those widths would make `struct.pack` raise, and no card of the deck has them.
- Session.HandleClient: requires 255 decks, one per possible round. That is the most a request byte can ask for.
