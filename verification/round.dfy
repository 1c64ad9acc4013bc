/**
 One round of play_round (server.py): the deal, the player's turn driven by
 the client's messages, the dealer's draws, the outcome and the packets the
 server sends. The shuffled deck is a parameter; each element of `incoming`
 is the outcome of one conn.recv(1024) call.
 */
module Round {
  import opened Wrappers
  import opened Bytes
  import opened Utf8
  import opened Protocol
  import opened Cards

  // --------------------------------------------------------------- Packets

  /** send_card(rank, suit, result): a server payload naming one card. */
  function CardPacket(c: Card, result: GameResult): (p: ServerPayload)
    ensures p.cookie == MagicCookie && p.msgType == MsgTypePayload
    ensures ResultOfCode(p.result) == Some(result)
    ensures p.rank == c.rank && p.suit == c.suit
  {
    ServerPayload(MagicCookie, MsgTypePayload, result.Code(), c.rank, c.suit)
  }

  /** send_card(0, 0, winner): the final packet, which names no card. */
  function ResultPacket(result: GameResult): (r: ServerPayload) {
    ServerPayload(MagicCookie, MsgTypePayload, result.Code(), 0, 0)
  }

  /** The packets of a run of cards sent while the round is still being played. */
  function Packets(cards: seq<Card>): (r: seq<ServerPayload>)
    decreases |cards|
  {
    if |cards| == 0 then [] else Packets(cards[..|cards| - 1]) + [CardPacket(cards[|cards| - 1], Playing)]
  }

  /** One packet per card, in the order of the cards. */
  lemma {:induction false} PacketsOfCards(cards: seq<Card>)
    ensures |Packets(cards)| == |cards|
    ensures forall i | 0 <= i < |cards| :: Packets(cards)[i] == CardPacket(cards[i], Playing)
    decreases |cards|
  {
    if |cards| > 0 {
      PacketsOfCards(cards[..|cards| - 1]);
    }
  }

  lemma {:induction false} PacketsAppend(a: seq<Card>, b: seq<Card>)
    ensures Packets(a + b) == Packets(a) + Packets(b)
    decreases |b|
  {
    if |b| == 0 {
      assert a + b == a;
    } else {
      var b' := b[..|b| - 1];
      assert (a + b)[..|a + b| - 1] == a + b';
      PacketsAppend(a, b');
    }
  }

  /** A valid card never has rank 0, so no card packet looks like the final packet. */
  lemma CardPacketIsNotResultPacket(c: Card, a: GameResult, b: GameResult)
    requires Valid(c)
    ensures CardPacket(c, a) != ResultPacket(b)
  {
  }

  // ------------------------------------------------------------- Decisions

  /** The decisions the client sends, as bytes: "Hittt" and "Stand". */
  const HitWord: seq<byte> := [0x48, 0x69, 0x74, 0x74, 0x74]
  const StandWord: seq<byte> := [0x53, 0x74, 0x61, 0x6E, 0x64]

  /**
   str.strip('\x00') on decoded text. In UTF-8 the byte 0 only ever encodes
   U+0000, so stripping NUL characters is stripping zero bytes at both ends.
   */
  function StripZeros(s: seq<byte>): (r: seq<byte>)
    ensures |r| <= |s|
    ensures |r| > 0 ==> r[0] != 0 && r[|r| - 1] != 0
    ensures |r| == |s| ==> r == s
    ensures |s| > 0 && s[0] != 0 && s[|s| - 1] != 0 ==> r == s
    decreases |s|
  {
    if |s| > 0 && s[0] == 0 then StripZeros(s[1..])
    else if |s| > 0 && s[|s| - 1] == 0 then StripZeros(s[..|s| - 1])
    else s
  }

  /** Every byte of `s` before index `i` and from index `j` on is zero. */
  predicate ZerosOutside(s: seq<byte>, i: nat, j: nat)
    requires i <= j <= |s|
  {
    (forall k | 0 <= k < i :: s[k] == 0) && (forall k | j <= k < |s| :: s[k] == 0)
  }

  /** A slice of `s[1..]` with zeros around it, when `s` starts with a zero, is one of `s`. */
  lemma ZerosOutsideFront(s: seq<byte>, i: nat, j: nat)
    requires |s| > 0 && s[0] == 0 && i <= j <= |s| - 1 && ZerosOutside(s[1..], i, j)
    ensures s[1..][i..j] == s[i + 1..j + 1] && ZerosOutside(s, i + 1, j + 1)
  {
  }

  /** A slice of `s` without its last byte, when that byte is zero, with zeros around it is one of `s`. */
  lemma ZerosOutsideBack(s: seq<byte>, i: nat, j: nat)
    requires |s| > 0 && s[|s| - 1] == 0 && i <= j <= |s| - 1 && ZerosOutside(s[..|s| - 1], i, j)
    ensures s[..|s| - 1][i..j] == s[i..j] && ZerosOutside(s, i, j)
  {
  }

  /** Where StripZeros cuts `s`: the result is `s[i..j]`, with only zeros outside. */
  lemma {:induction false} StripZerosBounds(s: seq<byte>) returns (i: nat, j: nat)
    ensures i <= j <= |s| && StripZeros(s) == s[i..j] && ZerosOutside(s, i, j)
    decreases |s|
  {
    if |s| > 0 && s[0] == 0 {
      var i', j' := StripZerosBounds(s[1..]);
      ZerosOutsideFront(s, i', j');
      i, j := i' + 1, j' + 1;
    } else if |s| > 0 && s[|s| - 1] == 0 {
      i, j := StripZerosBounds(s[..|s| - 1]);
      ZerosOutsideBack(s, i, j);
    } else {
      i, j := 0, |s|;
    }
  }

  /**
   Stripping only removes bytes at the ends, and only zero ones: the result
   is a slice of `s` with nothing but zeros around it. As its ends are not
   zero, it is the shortest such slice.
   */
  lemma StripZerosIsSlice(s: seq<byte>)
    ensures exists i: nat, j: nat | i <= j <= |s| :: StripZeros(s) == s[i..j] && ZerosOutside(s, i, j)
  {
    var i, j := StripZerosBounds(s);
  }

  /** How one received message drives the player loop. */
  datatype Decision =
    | Hit          // a valid payload saying "Hittt"
    | Stand        // a valid payload saying "Stand"
    | Ignored      // too short, wrong cookie or type, or another word: `continue`
    | Raises       // recv timed out, or the decision field is not UTF-8: the handler ends the round

  /**
   The body of the player loop up to the choice of branch: the length check,
   unpacking the first 10 bytes, decoding the decision (which comes before
   the cookie and type checks), then comparing the stripped text.
   */
  function ParseDecision(data: seq<byte>): (r: Decision) {
    if |data| < 10 then Ignored
    else
      var p := DecodeClientPayload(data[..10]).value;
      if !WellFormed(p.decision) then Raises
      else if p.cookie != MagicCookie || p.msgType != MsgTypePayload then Ignored
      else if StripZeros(p.decision) == HitWord then Hit
      else if StripZeros(p.decision) == StandWord then Stand
      else Ignored
  }

  /** What one conn.recv(1024) call does: return a chunk of bytes, or raise after the 60-second timeout. */
  datatype Received = Chunk(data: seq<byte>) | TimedOut

  /** The decision a recv call leads to; a timeout raises inside the loop's try block. */
  function Receive(m: Received): (r: Decision) {
    match m
    case Chunk(data) => ParseDecision(data)
    case TimedOut => Raises
  }

  /** The payload header the player loop accepts: the cookie, then type 0x4. */
  predicate PayloadHeader(data: seq<byte>)
    requires |data| >= 5
  {
    data[..4] == BigEndian32(MagicCookie) && data[4] == MsgTypePayload
  }

  /**
   Which messages are which, in terms of their bytes: a hit or a stand is a
   message whose first ten bytes are exactly the header and the five letters;
   a message fails only through its decision field; everything else is
   skipped. The zero-stripping never matters because both words are five
   non-zero bytes, the whole field.
   */
  lemma {:induction false} ParseDecisionBytes(data: seq<byte>)
    ensures ParseDecision(data) == Hit
        <==> |data| >= 10 && PayloadHeader(data) && data[5..10] == HitWord
    ensures ParseDecision(data) == Stand
        <==> |data| >= 10 && PayloadHeader(data) && data[5..10] == StandWord
    ensures ParseDecision(data) == Raises
        <==> |data| >= 10 && !WellFormed(data[5..10])
  {
    if |data| >= 10 {
      var p := DecodeClientPayload(data[..10]).value;
      PayloadFields(data);
      AsciiIsWellFormed(HitWord);
      AsciiIsWellFormed(StandWord);
      if StripZeros(p.decision) == HitWord || StripZeros(p.decision) == StandWord {
        assert StripZeros(p.decision) == p.decision;
      }
    }
  }

  /** The fields unpacked from the first ten bytes of a message, in terms of those bytes. */
  lemma PayloadFields(data: seq<byte>)
    requires |data| >= 10
    ensures var p := DecodeClientPayload(data[..10]).value;
      p.decision == data[5..10]
      && (p.cookie == MagicCookie && p.msgType == MsgTypePayload <==> PayloadHeader(data))
  {
  }

  /** A payload the client builds, whatever follows it in the same read, starts with the header and its word. */
  lemma ClientPayloadLayout(word: seq<byte>, rest: seq<byte>)
    requires |word| == 5
    ensures var m := EncodeClientPayload(ClientPayload(MagicCookie, MsgTypePayload, word)) + rest;
      |m| >= 10 && PayloadHeader(m) && m[5..10] == word
  {
  }

  /** The packets the client sends are read as the decisions they spell. */
  lemma ClientDecisionsParse(rest: seq<byte>)
    ensures ParseDecision(EncodeClientPayload(ClientPayload(MagicCookie, MsgTypePayload, HitWord)) + rest) == Hit
    ensures ParseDecision(EncodeClientPayload(ClientPayload(MagicCookie, MsgTypePayload, StandWord)) + rest) == Stand
  {
    ClientPayloadLayout(HitWord, rest);
    ClientPayloadLayout(StandWord, rest);
    ParseDecisionBytes(EncodeClientPayload(ClientPayload(MagicCookie, MsgTypePayload, HitWord)) + rest);
    ParseDecisionBytes(EncodeClientPayload(ClientPayload(MagicCookie, MsgTypePayload, StandWord)) + rest);
  }

  // ----------------------------------------------------------------- Table

  /** The state of a round: the deck left, both hands, and every packet sent so far. */
  datatype Table = Table(deck: seq<Card>, player: seq<Card>, dealer: seq<Card>, sent: seq<ServerPayload>)

  /**
   The initial deal: two pops to the player and one to the dealer, each
   sent as it is dealt, then the hidden fourth pop, which is not sent.
   */
  function Deal(deck: seq<Card>): (t: Table)
    requires |deck| >= 4
    ensures |t.player| == 2 && |t.dealer| == 2
    ensures PoppedFrom(deck, t.deck, t.player + t.dealer)
    ensures t.sent == Packets(t.player + t.dealer[..1])
  {
    var n := |deck|;
    var shown := [deck[n - 1], deck[n - 2], deck[n - 3]];
    assert [deck[n - 1], deck[n - 2]] + [deck[n - 3], deck[n - 4]][..1] == shown;
    Table(deck[..n - 4], [deck[n - 1], deck[n - 2]], [deck[n - 3], deck[n - 4]], Packets(shown))
  }

  // ----------------------------------------------------------- Player turn

  /** The decision each received message carries, message by message. */
  function Decisions(incoming: seq<Received>): (ds: seq<Decision>)
    ensures |ds| == |incoming|
  {
    if |incoming| == 0 then [] else [Receive(incoming[0])] + Decisions(incoming[1..])
  }

  /** The i-th decision is the i-th message's. */
  lemma {:induction false} DecisionAt(incoming: seq<Received>, i: nat)
    requires i < |incoming|
    ensures Decisions(incoming)[i] == Receive(incoming[i])
    decreases i
  {
    if i > 0 {
      DecisionAt(incoming[1..], i - 1);
    }
  }

  datatype TurnEnd =
    | Stood       // "Stand": go on to the dealer
    | Bust        // a hit took the player over 21; that card went out with Loss
    | Aborted     // the exception handler: a raising recv or decode, or a hit on an empty deck
    | OutOfInput  // the modelled recv calls ran out before the turn ended

  /** How the player loop ended, the table then, and how many messages it read. */
  datatype Turn = Turn(table: Table, end: TurnEnd, read: nat)

  /**
   The player loop, on the decisions of the messages it receives. It reads
   them until one ends the turn; a skipped message leaves the table as it
   was. A hit pops the next card into the player's hand and sends it: with
   Loss, ending the turn, when the new score is over 21, and with Playing
   otherwise.
   */
  function PlayerTurn(t: Table, ds: seq<Decision>): (r: Turn)
    decreases |ds|
  {
    if |ds| == 0 then Turn(t, OutOfInput, 0)
    else
      match ds[0]
      case Ignored => var r := PlayerTurn(t, ds[1..]); r.(read := r.read + 1)
      case Raises => Turn(t, Aborted, 1)
      case Stand => Turn(t, Stood, 1)
      case Hit =>
        if |t.deck| == 0 then Turn(t, Aborted, 1)
        else if Score(AfterHit(t).player) > 21 then Turn(AfterHit(t, Loss), Bust, 1)
        else var r := PlayerTurn(AfterHit(t), ds[1..]); r.(read := r.read + 1)
  }

  /** The table after a hit: the top card moves to the player's hand and is sent with `result`. */
  function AfterHit(t: Table, result: GameResult := Playing): (r: Table)
    requires |t.deck| > 0
  {
    var c := t.deck[|t.deck| - 1];
    Table(t.deck[..|t.deck| - 1], t.player + [c], t.dealer, t.sent + [CardPacket(c, result)])
  }

  /** A skipped message only adds to the count of messages read. */
  lemma SkipStep(t: Table, ds: seq<Decision>)
    requires |ds| > 0 && ds[0] == Ignored
    ensures var r := PlayerTurn(t, ds[1..]); PlayerTurn(t, ds) == r.(read := r.read + 1)
  {
  }

  /** A hit that does not bust is one pop, one packet, then the rest of the turn. */
  lemma HitStep(t: Table, ds: seq<Decision>)
    requires |ds| > 0 && ds[0] == Hit && |t.deck| > 0 && Score(AfterHit(t).player) <= 21
    ensures var r := PlayerTurn(AfterHit(t), ds[1..]); PlayerTurn(t, ds) == r.(read := r.read + 1)
  {
  }

  /** The hit that busts pops one card, sends it with Loss and ends the turn. */
  lemma BustStep(t: Table, ds: seq<Decision>)
    requires |ds| > 0 && ds[0] == Hit && |t.deck| > 0 && Score(AfterHit(t).player) > 21
    ensures PlayerTurn(t, ds) == Turn(AfterHit(t, Loss), Bust, 1)
  {
  }

  /** Every other message that counts ends the turn with the table as it was. */
  lemma StopStep(t: Table, ds: seq<Decision>)
    requires |ds| == 0 || ds[0] == Stand || ds[0] == Raises || (ds[0] == Hit && |t.deck| == 0)
    ensures PlayerTurn(t, ds).table == t && PlayerTurn(t, ds).end != Bust
  {
  }

  /** `after` is `before` with `hits` popped into the player's hand. */
  predicate HitsFrom(before: Table, after: Table) {
    |after.player| >= |before.player| && after.player[..|before.player|] == before.player
    && PoppedFrom(before.deck, after.deck, after.player[|before.player|..])
    && after.dealer == before.dealer
  }

  /** A hit followed by more hits is hits. */
  lemma HitsFromHit(t: Table, result: GameResult, r: Table)
    requires |t.deck| > 0 && HitsFrom(AfterHit(t, result), r)
    ensures HitsFrom(t, r)
    ensures r.player[|t.player|..] == [t.deck[|t.deck| - 1]] + r.player[|t.player| + 1..]
  {
  }

  /**
   The player's turn only pops cards into the player's hand: the hand grows
   by the cards popped, in pop order, and the dealer's hand stays as it was.
   */
  lemma {:induction false} PlayerTurnPops(t: Table, ds: seq<Decision>)
    ensures HitsFrom(t, PlayerTurn(t, ds).table)
    decreases |ds|
  {
    if |ds| > 0 && ds[0] == Ignored {
      SkipStep(t, ds);
      PlayerTurnPops(t, ds[1..]);
    } else if |ds| > 0 && ds[0] == Hit && |t.deck| > 0 {
      if Score(AfterHit(t).player) <= 21 {
        HitStep(t, ds);
        PlayerTurnPops(AfterHit(t), ds[1..]);
        HitsFromHit(t, Playing, PlayerTurn(AfterHit(t), ds[1..]).table);
      } else {
        BustStep(t, ds);
        HitsFromHit(t, Loss, AfterHit(t, Loss));
      }
    } else {
      StopStep(t, ds);
      assert t.player[|t.player|..] == [];
    }
  }

  /** A packet sent before a run of packets for the rest of the cards. */
  lemma PacketsCons(sent: seq<ServerPayload>, c: Card, rest: seq<Card>)
    ensures sent + [CardPacket(c, Playing)] + Packets(rest) == sent + Packets([c] + rest)
  {
    PacketsAppend([c], rest);
    assert Packets([c]) == Packets([]) + [CardPacket(c, Playing)];
  }

  /** Each hit is sent with Playing as it is drawn, as long as the turn does not end in a bust. */
  lemma {:induction false} PlayerTurnSends(t: Table, ds: seq<Decision>)
    ensures var r := PlayerTurn(t, ds);
      |r.table.player| >= |t.player|
      && (r.end != Bust ==> r.table.sent == t.sent + Packets(r.table.player[|t.player|..]))
    decreases |ds|
  {
    PlayerTurnPops(t, ds);
    if |ds| > 0 && ds[0] == Ignored {
      SkipStep(t, ds);
      PlayerTurnSends(t, ds[1..]);
    } else if |ds| > 0 && ds[0] == Hit && |t.deck| > 0 {
      if Score(AfterHit(t).player) <= 21 {
        var t' := AfterHit(t);
        HitStep(t, ds);
        PlayerTurnSends(t', ds[1..]);
        PlayerTurnPops(t', ds[1..]);
        var r := PlayerTurn(t', ds[1..]).table;
        HitsFromHit(t, Playing, r);
        PacketsCons(t.sent, t.deck[|t.deck| - 1], r.player[|t'.player|..]);
      } else {
        BustStep(t, ds);
      }
    } else {
      StopStep(t, ds);
      assert t.player[|t.player|..] == [];
    }
  }

  /** The packets of a turn that busted after one more hit before it. */
  lemma BustAfterHitSends(t: Table, r: Table)
    requires |t.deck| > 0
    requires var t' := AfterHit(t);
      |r.player| > |t'.player| && r.player[..|t'.player|] == t'.player
      && r.sent == t'.sent + Packets(r.player[|t'.player|..|r.player| - 1]) + [CardPacket(r.player[|r.player| - 1], Loss)]
    ensures |r.player| > |t.player|
    ensures r.sent == t.sent + Packets(r.player[|t.player|..|r.player| - 1]) + [CardPacket(r.player[|r.player| - 1], Loss)]
  {
    var t' := AfterHit(t);
    var c := t.deck[|t.deck| - 1];
    var n := |r.player|;
    var rest := r.player[|t'.player|..n - 1];
    assert r.player[|t.player|..n - 1] == [c] + rest by {
      assert r.player[|t.player|] == t'.player[|t.player|] == c;
    }
    PacketsCons(t.sent, c, rest);
  }

  /**
   The hit that busts the player goes out with Loss and is the last packet
   of the turn; every hit before it went out with Playing.
   */
  lemma {:induction false} PlayerTurnSendsBust(t: Table, ds: seq<Decision>)
    ensures var r := PlayerTurn(t, ds);
      |r.table.player| >= |t.player|
      && (r.end == Bust ==>
            |r.table.player| > |t.player|
            && r.table.sent == t.sent + Packets(r.table.player[|t.player|..|r.table.player| - 1])
                 + [CardPacket(r.table.player[|r.table.player| - 1], Loss)])
    decreases |ds|
  {
    if |ds| > 0 && ds[0] == Ignored {
      SkipStep(t, ds);
      PlayerTurnSendsBust(t, ds[1..]);
    } else if |ds| > 0 && ds[0] == Hit && |t.deck| > 0 {
      if Score(AfterHit(t).player) <= 21 {
        var t' := AfterHit(t);
        HitStep(t, ds);
        PlayerTurnSendsBust(t', ds[1..]);
        PlayerTurnPops(t', ds[1..]);
        var turn := PlayerTurn(t', ds[1..]);
        if turn.end == Bust {
          BustAfterHitSends(t, turn.table);
        }
      } else {
        BustStep(t, ds);
        assert AfterHit(t, Loss).player[|t.player|..|t.player|] == [];
      }
    } else {
      StopStep(t, ds);
    }
  }

  /**
   A turn that ends in Bust ends over 21; any other turn that starts at 21
   or less ends there too, since every hit that crosses 21 ends the turn.
   */
  lemma {:induction false} PlayerTurnScores(t: Table, ds: seq<Decision>)
    ensures var r := PlayerTurn(t, ds);
      (r.end == Bust ==> Score(r.table.player) > 21)
      && (r.end != Bust && Score(t.player) <= 21 ==> Score(r.table.player) <= 21)
    decreases |ds|
  {
    if |ds| > 0 && ds[0] == Ignored {
      SkipStep(t, ds);
      PlayerTurnScores(t, ds[1..]);
    } else if |ds| > 0 && ds[0] == Hit && |t.deck| > 0 {
      if Score(AfterHit(t).player) <= 21 {
        HitStep(t, ds);
        PlayerTurnScores(AfterHit(t), ds[1..]);
      } else {
        BustStep(t, ds);
      }
    } else {
      StopStep(t, ds);
    }
  }

  /**
   The turn reads a prefix of the messages, and only runs out of messages
   by reading all of them.
   */
  lemma {:induction false} PlayerTurnReads(t: Table, ds: seq<Decision>)
    ensures var r := PlayerTurn(t, ds);
      r.read <= |ds|
      && (r.end == OutOfInput ==> r.read == |ds|)
      && (r.end != OutOfInput ==> r.read > 0)
    decreases |ds|
  {
    if |ds| > 0 && ds[0] == Ignored {
      SkipStep(t, ds);
      PlayerTurnReads(t, ds[1..]);
    } else if |ds| > 0 && ds[0] == Hit && |t.deck| > 0 && Score(AfterHit(t).player) <= 21 {
      HitStep(t, ds);
      PlayerTurnReads(AfterHit(t), ds[1..]);
    }
  }

  /**
   The last message a turn read is the one that ended it: a stand, the
   busting hit, or, for an aborted turn, a message that raises or a hit
   on an empty deck.
   */
  lemma {:induction false} PlayerTurnEnds(t: Table, ds: seq<Decision>)
    ensures var r := PlayerTurn(t, ds);
      r.read <= |ds|
      && (r.end != OutOfInput ==>
            r.read > 0
            && (r.end == Stood ==> ds[r.read - 1] == Stand)
            && (r.end == Bust ==> ds[r.read - 1] == Hit)
            && (r.end == Aborted ==> ds[r.read - 1] == Raises || (ds[r.read - 1] == Hit && r.table.deck == [])))
    decreases |ds|
  {
    PlayerTurnReads(t, ds);
    if |ds| > 0 && ds[0] == Ignored {
      SkipStep(t, ds);
      PlayerTurnEnds(t, ds[1..]);
    } else if |ds| > 0 && ds[0] == Hit && |t.deck| > 0 && Score(AfterHit(t).player) <= 21 {
      HitStep(t, ds);
      PlayerTurnEnds(AfterHit(t), ds[1..]);
    }
  }

  /** Messages the loop skips change nothing but the count read: the first message that counts decides. */
  lemma {:induction false} SkippedMessagesChangeNothing(t: Table, skipped: seq<Decision>, rest: seq<Decision>)
    requires forall i | 0 <= i < |skipped| :: skipped[i] == Ignored
    ensures var r := PlayerTurn(t, rest);
      PlayerTurn(t, skipped + rest) == r.(read := r.read + |skipped|)
    decreases |skipped|
  {
    if |skipped| > 0 {
      assert (skipped + rest)[0] == skipped[0];
      assert (skipped + rest)[1..] == skipped[1..] + rest;
      SkippedMessagesChangeNothing(t, skipped[1..], rest);
    } else {
      assert skipped + rest == rest;
    }
  }

  // ----------------------------------------------------------- Dealer turn

  /** The dealer's table after the draws, and whether the deck lasted. */
  datatype Draws = Draws(table: Table, ok: bool)

  /**
   The dealer loop: while the dealer's score is below 17, pop a card into
   the dealer's hand and send it. A pop on an empty deck raises; `ok` is
   false then.
   */
  function DealerDraws(t: Table): (r: Draws)
    decreases |t.deck|
  {
    if Score(t.dealer) >= 17 then Draws(t, true)
    else if |t.deck| == 0 then Draws(t, false)
    else
      DealerDraws(AfterDraw(t))
  }

  /** The table after one dealer draw. */
  function AfterDraw(t: Table): (r: Table)
    requires |t.deck| > 0
  {
    var c := t.deck[|t.deck| - 1];
    Table(t.deck[..|t.deck| - 1], t.player, t.dealer + [c], t.sent + [CardPacket(c, Playing)])
  }

  /** Drawing while below 17 from a non-empty deck is one draw followed by the rest of the loop. */
  lemma DealerDrawStep(t: Table)
    requires Score(t.dealer) < 17 && |t.deck| > 0
    ensures DealerDraws(t) == DealerDraws(AfterDraw(t))
  {
  }

  /**
   The dealer's draws are pops into the dealer's hand, in pop order; the
   player's hand stays as it was.
   */
  lemma {:induction false} DealerDrawsPops(t: Table)
    ensures var r := DealerDraws(t);
      |r.table.dealer| >= |t.dealer| && r.table.dealer[..|t.dealer|] == t.dealer
      && PoppedFrom(t.deck, r.table.deck, r.table.dealer[|t.dealer|..])
      && r.table.player == t.player
    decreases |t.deck|
  {
    if Score(t.dealer) < 17 && |t.deck| > 0 {
      var c := t.deck[|t.deck| - 1];
      var t' := AfterDraw(t);
      DealerDrawStep(t);
      DealerDrawsPops(t');
      var r := DealerDraws(t');
      assert r.table.dealer[|t.dealer|..] == [c] + r.table.dealer[|t'.dealer|..];
      assert r.table.dealer[..|t'.dealer|][..|t.dealer|] == t.dealer;
      PoppedTrans(t.deck, t'.deck, r.table.deck, [c], r.table.dealer[|t'.dealer|..]);
    }
  }

  /** Each card the dealer draws is sent with Playing as it is drawn. */
  lemma {:induction false} DealerDrawsSends(t: Table)
    ensures var r := DealerDraws(t);
      |r.table.dealer| >= |t.dealer|
      && r.table.sent == t.sent + Packets(r.table.dealer[|t.dealer|..])
    decreases |t.deck|
  {
    DealerDrawsPops(t);
    if Score(t.dealer) < 17 && |t.deck| > 0 {
      var c := t.deck[|t.deck| - 1];
      var t' := AfterDraw(t);
      DealerDrawStep(t);
      DealerDrawsSends(t');
      DealerDrawsPops(t');
      var r := DealerDraws(t');
      assert r.table.dealer[|t.dealer|..] == [c] + r.table.dealer[|t'.dealer|..];
      PacketsAppend([c], r.table.dealer[|t'.dealer|..]);
    } else {
      assert DealerDraws(t).table == t;
    }
  }

  /**
   The dealer stops exactly when the hand reaches 17, unless the deck runs
   out first, and every draw was needed: the hand was below 17 before each.
   */
  lemma {:induction false} DealerDrawsStops(t: Table)
    ensures var r := DealerDraws(t);
      |r.table.dealer| >= |t.dealer|
      && (r.ok <==> Score(r.table.dealer) >= 17)
      && (!r.ok ==> r.table.deck == [])
      && forall k | |t.dealer| <= k < |r.table.dealer| :: Score(r.table.dealer[..k]) < 17
    decreases |t.deck|
  {
    DealerDrawsPops(t);
    if Score(t.dealer) < 17 && |t.deck| > 0 {
      var t' := AfterDraw(t);
      DealerDrawStep(t);
      DealerDrawsStops(t');
      DealerDrawsPops(t');
      var r := DealerDraws(t');
      forall k | |t.dealer| <= k < |r.table.dealer|
        ensures Score(r.table.dealer[..k]) < 17
      {
        if k == |t.dealer| {
          assert r.table.dealer[..k] == t.dealer;
        }
      }
    }
  }

  // --------------------------------------------------------------- Outcome

  /** The result for a player who did not bust, from the two final scores. */
  function Outcome(player: int, dealer: int): (r: GameResult)
    ensures r != Playing
    ensures r == Win <==> dealer > 21 || player > dealer
    ensures r == Loss <==> dealer <= 21 && dealer > player
    ensures r == Tie <==> dealer <= 21 && dealer == player
  {
    if dealer > 21 then Win
    else if player > dealer then Win
    else if dealer > player then Loss
    else Tie
  }

  /** Between two hands that did not bust, swapping the hands swaps Win and Loss. */
  lemma OutcomeSwaps(a: int, b: int)
    requires a <= 21 && b <= 21
    ensures Outcome(a, b) == Win <==> Outcome(b, a) == Loss
    ensures Outcome(a, b) == Tie <==> Outcome(b, a) == Tie
  {
  }

  // ----------------------------------------------------------------- Round

  /** How a round ended. Every end but `Settled` leaves out the final packet. */
  datatype RoundEnd =
    | Settled(result: GameResult)  // the final packet with the result went out
    | Busted                       // the player busted; the round returns at once
    | TurnAborted                  // the player loop's exception handler returned
    | DeckEmpty                    // the dealer popped an empty deck; the error leaves play_round
    | Starved                      // the modelled recv calls ran out during the player's turn
  {
    /** Whether handle_client goes on to its next round afterwards. */
    predicate Continues() {
      !DeckEmpty? && !Starved?
    }
  }

  /** The end of a round: the final table, how it ended, and the messages left for the next round. */
  datatype RoundTrace = RoundTrace(table: Table, end: RoundEnd, unread: seq<Received>)

  /** play_round on a shuffled deck and the messages the client sends. */
  function PlayRound(deck: seq<Card>, incoming: seq<Received>): (r: RoundTrace)
    requires |deck| == 52
  {
    var t0 := Deal(deck);
    var turn := PlayerTurn(t0, Decisions(incoming));
    PlayerTurnReads(t0, Decisions(incoming));
    PlayerTurnPops(t0, Decisions(incoming));
    var unread := incoming[turn.read..];
    match turn.end
    case Bust => RoundTrace(turn.table, Busted, unread)
    case Aborted => RoundTrace(turn.table, TurnAborted, unread)
    case OutOfInput => RoundTrace(turn.table, Starved, unread)
    case Stood => Settle(turn.table, unread)
  }

  /**
   After "Stand": send the hidden card, let the dealer draw, and send the
   result, which the outcome rule takes from the two final scores.
   */
  function Settle(t: Table, unread: seq<Received>): (r: RoundTrace)
    requires |t.dealer| == 2
  {
    var d := DealerDraws(t.(sent := t.sent + [CardPacket(t.dealer[1], Playing)]));
    if d.ok then
      var result := Outcome(Score(d.table.player), Score(d.table.dealer));
      RoundTrace(d.table.(sent := d.table.sent + [ResultPacket(result)]), Settled(result), unread)
    else
      RoundTrace(d.table, DeckEmpty, unread)
  }

  /** Settling pops only into the dealer's hand, behind its two cards. */
  lemma SettlePops(t: Table, unread: seq<Received>)
    requires |t.dealer| == 2
    ensures var r := Settle(t, unread);
      (r.end.Settled? || r.end.DeckEmpty?) && r.unread == unread
      && |r.table.dealer| >= 2 && r.table.dealer[..2] == t.dealer
      && r.table.player == t.player
      && PoppedFrom(t.deck, r.table.deck, r.table.dealer[2..])
  {
    DealerDrawsPops(t.(sent := t.sent + [CardPacket(t.dealer[1], Playing)]));
  }

  /** Settling sends the hidden card and every draw with Playing, then, unless the deck ran out, the result. */
  lemma SettleSends(t: Table, unread: seq<Received>)
    requires |t.dealer| == 2
    ensures var r := Settle(t, unread);
      |r.table.dealer| >= 2
      && (r.end.Settled? ==> r.table.sent == t.sent + Packets(r.table.dealer[1..]) + [ResultPacket(r.end.result)])
      && (r.end.DeckEmpty? ==> r.table.sent == t.sent + Packets(r.table.dealer[1..]))
  {
    var t' := t.(sent := t.sent + [CardPacket(t.dealer[1], Playing)]);
    DealerDrawsPops(t');
    DealerDrawsSends(t');
    var d := DealerDraws(t');
    var drawn := d.table.dealer[2..];
    assert d.table.dealer[1..] == [t.dealer[1]] + drawn;
    PacketsCons(t.sent, t.dealer[1], drawn);
  }

  /**
   A settled round ends with the dealer at 17 or more, having drawn only
   while below 17, and its result is the outcome rule on the two scores.
   */
  lemma SettleScores(t: Table, unread: seq<Received>)
    requires |t.dealer| == 2
    ensures var r := Settle(t, unread);
      |r.table.dealer| >= |t.dealer| && r.table.player == t.player
      && (r.end.Settled? ==>
            r.end.result == Outcome(Score(r.table.player), Score(r.table.dealer))
            && Score(r.table.dealer) >= 17)
      && (r.end.DeckEmpty? ==> r.table.deck == [])
      && forall k | |t.dealer| <= k < |r.table.dealer| :: Score(r.table.dealer[..k]) < 17
  {
    var t' := t.(sent := t.sent + [CardPacket(t.dealer[1], Playing)]);
    DealerDrawsPops(t');
    DealerDrawsStops(t');
  }

  /** Every card the round popped, in the order the pops happened. */
  function Pops(t: Table): (r: seq<Card>)
    requires |t.player| >= 2 && |t.dealer| >= 2
  {
    t.player[..2] + t.dealer[..2] + t.player[2..] + t.dealer[2..]
  }

  /**
   The cards whose packets went out, in sending order: the first two player
   cards, the dealer's visible card, the player's hits, then (only when the
   player stood) the hidden card and the dealer's draws.
   */
  function Shown(r: RoundTrace): (shown: seq<Card>)
    requires |r.table.player| >= 2 && |r.table.dealer| >= 2
  {
    var p, d := r.table.player, r.table.dealer;
    if r.end.Settled? || r.end.DeckEmpty? then p[..2] + d[..1] + p[2..] + d[1..]
    else p[..2] + d[..1] + p[2..]
  }

  /** A round is the deal, the player's turn on the messages' decisions, and, after a stand, the settling. */
  lemma RoundStages(deck: seq<Card>, incoming: seq<Received>)
    requires |deck| == 52
    ensures var turn := PlayerTurn(Deal(deck), Decisions(incoming));
      var r := PlayRound(deck, incoming);
      turn.read <= |incoming| && |turn.table.dealer| == 2
      && (turn.end == Stood ==> r == Settle(turn.table, incoming[turn.read..]))
      && (turn.end != Stood ==> r.table == turn.table && r.unread == incoming[turn.read..])
      && (r.end.Busted? <==> turn.end == Bust)
      && (r.end.TurnAborted? <==> turn.end == Aborted)
      && (r.end.Starved? <==> turn.end == OutOfInput)
  {
    PlayerTurnReads(Deal(deck), Decisions(incoming));
    PlayerTurnPops(Deal(deck), Decisions(incoming));
  }

  /** Both hands keep their two dealt cards as their first two, and the dealer draws only after a stand. */
  lemma RoundHands(deck: seq<Card>, incoming: seq<Received>)
    requires |deck| == 52
    ensures var r := PlayRound(deck, incoming);
      |r.table.player| >= 2 && |r.table.dealer| >= 2
      && r.table.player[..2] == Deal(deck).player
      && r.table.dealer[..2] == Deal(deck).dealer
      && (!r.end.Settled? && !r.end.DeckEmpty? ==> |r.table.dealer| == 2)
  {
    var t0 := Deal(deck);
    var ds := Decisions(incoming);
    RoundStages(deck, incoming);
    PlayerTurnPops(t0, ds);
    var turn := PlayerTurn(t0, ds);
    if turn.end == Stood {
      SettlePops(turn.table, incoming[turn.read..]);
    }
  }

  /**
   A round pops the deck in this order: two player cards, the dealer's
   visible and hidden card, the player's hits, the dealer's draws. The
   dealer only draws after the player stood.
   */
  lemma RoundPops(deck: seq<Card>, incoming: seq<Received>)
    requires |deck| == 52
    ensures var r := PlayRound(deck, incoming);
      |r.table.player| >= 2 && |r.table.dealer| >= 2
      && PoppedFrom(deck, r.table.deck, Pops(r.table))
      && (!r.end.Settled? && !r.end.DeckEmpty? ==> |r.table.dealer| == 2)
  {
    var t0 := Deal(deck);
    var ds := Decisions(incoming);
    PlayerTurnPops(t0, ds);
    PlayerTurnReads(t0, ds);
    var turn := PlayerTurn(t0, ds);
    var t1 := turn.table;
    PoppedTrans(deck, t0.deck, t1.deck, t0.player + t0.dealer, t1.player[2..]);
    assert t0.player + t0.dealer + t1.player[2..] == Pops(t1);
    if turn.end == Stood {
      var unread := incoming[turn.read..];
      SettlePops(t1, unread);
      var t2 := Settle(t1, unread).table;
      PoppedTrans(deck, t1.deck, t2.deck, Pops(t1), t2.dealer[2..]);
      assert Pops(t1) + t2.dealer[2..] == Pops(t2);
    }
  }

  /**
   The round reads a prefix of the client's messages and leaves the rest to
   the next round; it reads all of them when it starves.
   */
  lemma RoundReads(deck: seq<Card>, incoming: seq<Received>)
    requires |deck| == 52
    ensures var r := PlayRound(deck, incoming);
      |r.unread| <= |incoming| && r.unread == incoming[|incoming| - |r.unread|..]
      && (r.end.Starved? ==> r.unread == [])
  {
    RoundStages(deck, incoming);
    PlayerTurnReads(Deal(deck), Decisions(incoming));
    var turn := PlayerTurn(Deal(deck), Decisions(incoming));
    var unread := incoming[turn.read..];
    if turn.end == Stood {
      SettlePops(turn.table, unread);
    }
    assert PlayRound(deck, incoming).unread == unread;
    assert |incoming| - |unread| == turn.read;
  }

  /**
   What the client receives when the player busts: the cards shown so far
   with Playing, then the busting card with Loss, and nothing after it; the
   hidden card is never sent.
   */
  lemma RoundSendsBust(deck: seq<Card>, incoming: seq<Received>)
    requires |deck| == 52
    ensures var r := PlayRound(deck, incoming);
      |r.table.player| >= 2 && |r.table.dealer| >= 2
      && (r.end.Busted? ==>
            |Shown(r)| > 0
            && r.table.sent == Packets(Shown(r)[..|Shown(r)| - 1]) + [CardPacket(Shown(r)[|Shown(r)| - 1], Loss)])
  {
    RoundHands(deck, incoming);
    RoundStages(deck, incoming);
    var t0 := Deal(deck);
    var ds := Decisions(incoming);
    PlayerTurnPops(t0, ds);
    PlayerTurnSendsBust(t0, ds);
    var turn := PlayerTurn(t0, ds);
    if turn.end == Bust {
      var t1 := turn.table;
      var hits := t1.player[2..];
      var r := PlayRound(deck, incoming);
      PacketsAppend(t0.player + t0.dealer[..1], hits[..|hits| - 1]);
      assert t1.player[2..|t1.player| - 1] == hits[..|hits| - 1];
      assert Shown(r) == t0.player + t0.dealer[..1] + hits;
      assert Shown(r)[..|Shown(r)| - 1] == t0.player + t0.dealer[..1] + hits[..|hits| - 1];
    }
  }

  /** The packets of the shown cards, put together from the turn's and the dealer's. */
  lemma ShownPackets(p: seq<Card>, d: seq<Card>, early: seq<ServerPayload>, late: seq<ServerPayload>)
    requires |p| >= 2 && |d| >= 2
    requires early == Packets(p[..2] + d[..1]) + Packets(p[2..])
    requires late == early + Packets(d[1..])
    ensures early == Packets(p[..2] + d[..1] + p[2..])
    ensures late == Packets(p[..2] + d[..1] + p[2..] + d[1..])
  {
    PacketsAppend(p[..2] + d[..1], p[2..]);
    PacketsAppend(p[..2] + d[..1] + p[2..], d[1..]);
  }

  /**
   What the client receives when the round ends in the player's turn
   without a bust: the cards shown so far, all with Playing, and no result.
   */
  lemma RoundSendsCut(deck: seq<Card>, incoming: seq<Received>)
    requires |deck| == 52
    ensures var r := PlayRound(deck, incoming);
      |r.table.player| >= 2 && |r.table.dealer| >= 2
      && (r.end.TurnAborted? || r.end.Starved? ==> r.table.sent == Packets(Shown(r)))
  {
    RoundPops(deck, incoming);
    var t0 := Deal(deck);
    var ds := Decisions(incoming);
    PlayerTurnPops(t0, ds);
    PlayerTurnSends(t0, ds);
    var turn := PlayerTurn(t0, ds);
    if turn.end == Aborted || turn.end == OutOfInput {
      var t1 := turn.table;
      ShownPackets(t1.player, t1.dealer, t1.sent, t1.sent + Packets(t1.dealer[1..]));
    }
  }

  /**
   What the client receives when the player stood: every shown card with
   Playing, the hidden card right after the player's hits, and the result
   packet last exactly when the deck lasted.
   */
  lemma RoundSendsSettled(deck: seq<Card>, incoming: seq<Received>)
    requires |deck| == 52
    ensures var r := PlayRound(deck, incoming);
      |r.table.player| >= 2 && |r.table.dealer| >= 2
      && (r.end.Settled? ==> r.table.sent == Packets(Shown(r)) + [ResultPacket(r.end.result)])
      && (r.end.DeckEmpty? ==> r.table.sent == Packets(Shown(r)))
  {
    RoundHands(deck, incoming);
    RoundStages(deck, incoming);
    var t0 := Deal(deck);
    var ds := Decisions(incoming);
    PlayerTurnPops(t0, ds);
    PlayerTurnReads(t0, ds);
    PlayerTurnSends(t0, ds);
    var turn := PlayerTurn(t0, ds);
    if turn.end == Stood {
      var t1 := turn.table;
      var unread := incoming[turn.read..];
      SettlePops(t1, unread);
      SettleSends(t1, unread);
      var r := Settle(t1, unread);
      var t2 := r.table;
      ShownPackets(t2.player, t2.dealer, t1.sent, t1.sent + Packets(t2.dealer[1..]));
    }
  }

  /**
   A settled round: the player did not bust, the dealer stopped at 17 or
   more having drawn only while below 17, and the result is the outcome
   rule applied to the two scores. A busted round: the player is over 21.
   */
  lemma RoundScores(deck: seq<Card>, incoming: seq<Received>)
    requires |deck| == 52
    ensures var r := PlayRound(deck, incoming);
      |r.table.dealer| >= 2
      && (r.end.Busted? ==> Score(r.table.player) > 21)
      && (r.end.Settled? ==>
            r.end.result == Outcome(Score(r.table.player), Score(r.table.dealer))
            && Score(r.table.player) <= 21 && Score(r.table.dealer) >= 17)
      && (!r.end.Busted? ==> Score(r.table.player) <= 21)
      && (r.end.Settled? || r.end.DeckEmpty? ==>
            forall k | 2 <= k < |r.table.dealer| :: Score(r.table.dealer[..k]) < 17)
  {
    RoundPops(deck, incoming);
    var t0 := Deal(deck);
    TwoCardsNeverBust(t0.player[0], t0.player[1]);
    assert t0.player == [t0.player[0], t0.player[1]];
    var ds := Decisions(incoming);
    PlayerTurnPops(t0, ds);
    PlayerTurnReads(t0, ds);
    PlayerTurnScores(t0, ds);
    var turn := PlayerTurn(t0, ds);
    if turn.end == Stood {
      SettleScores(turn.table, incoming[turn.read..]);
    }
  }

  /**
   A dealer holding two valid cards never empties a deck of 20 valid cards:
   it stops below 22 cards, so settling always reaches the result.
   */
  lemma SettleNeverRunsOut(t: Table, unread: seq<Received>)
    requires |t.dealer| == 2 && |t.deck| >= 20 && AllValid(t.deck) && AllValid(t.dealer)
    ensures Settle(t, unread).end.Settled?
  {
    var t' := t.(sent := t.sent + [CardPacket(t.dealer[1], Playing)]);
    DealerDrawsPops(t');
    DealerDrawsStops(t');
    var d := DealerDraws(t');
    var drawn := d.table.dealer[2..];
    PoppedValid(t.deck, d.table.deck, drawn);
    assert d.table.dealer == t.dealer + drawn;
    AllValidAppend(t.dealer, drawn);
    if !d.ok {
      NotBustIsShort(d.table.dealer);
      PoppedConserves(t.deck, d.table.deck, drawn);
      assert false;
    }
  }

  /**
   The player's turn on a deck of valid cards: unless it busts, it ends with
   at most 21 cards in the player's hand, all hands valid, and 50 minus the
   player's cards left in the deck.
   */
  lemma TurnLeavesCards(deck: seq<Card>, incoming: seq<Received>)
    requires |deck| == 52 && AllValid(deck)
    ensures var t := PlayerTurn(Deal(deck), Decisions(incoming)).table;
      AllValid(t.deck) && AllValid(t.dealer) && |t.dealer| == 2
      && (PlayerTurn(Deal(deck), Decisions(incoming)).end != Bust ==>
            |t.player| <= 21 && |t.deck| == 50 - |t.player|)
  {
    var t0 := Deal(deck);
    var ds := Decisions(incoming);
    PoppedValid(deck, t0.deck, t0.player + t0.dealer);
    PoppedConserves(deck, t0.deck, t0.player + t0.dealer);
    AllValidAppend(t0.player, t0.dealer);
    PlayerTurnPops(t0, ds);
    var turn := PlayerTurn(t0, ds);
    var t1 := turn.table;
    var hits := t1.player[2..];
    PoppedValid(t0.deck, t1.deck, hits);
    PoppedConserves(t0.deck, t1.deck, hits);
    if turn.end != Bust {
      TwoCardsNeverBust(t0.player[0], t0.player[1]);
      assert t0.player == [t0.player[0], t0.player[1]];
      PlayerTurnScores(t0, ds);
      assert t1.player == t0.player + hits;
      AllValidAppend(t0.player, hits);
      NotBustIsShort(t1.player);
    }
  }

  /**
   A full deck never runs out during a round: neither the player's pop nor
   the dealer's fails. So a round ends early only by a bust, by a recv that
   times out or a message whose decision is not UTF-8 (the last one the
   round read), or by the modelled input running out.
   */
  lemma DeckNeverRunsOut(deck: seq<Card>, incoming: seq<Received>)
    requires |deck| == 52 && AllValid(deck)
    ensures var r := PlayRound(deck, incoming);
      !r.end.DeckEmpty?
      && (r.end.TurnAborted? ==>
            |r.unread| < |incoming|
            && var m := incoming[|incoming| - |r.unread| - 1];
               m.TimedOut? || (|m.data| >= 10 && !WellFormed(m.data[5..10])))
  {
    RoundStages(deck, incoming);
    TurnLeavesCards(deck, incoming);
    var ds := Decisions(incoming);
    var turn := PlayerTurn(Deal(deck), ds);
    if turn.end == Stood {
      SettleNeverRunsOut(turn.table, incoming[turn.read..]);
    } else if turn.end == Aborted {
      PlayerTurnEnds(Deal(deck), ds);
      DecisionAt(incoming, turn.read - 1);
      if incoming[turn.read - 1].Chunk? {
        ParseDecisionBytes(incoming[turn.read - 1].data);
      }
    }
  }

  /** The cards shown are some of the cards popped, each at most as often. */
  lemma ShownArePopped(r: RoundTrace)
    requires |r.table.player| >= 2 && |r.table.dealer| >= 2
    ensures multiset(Shown(r)) <= multiset(Pops(r.table))
  {
    var p, d := r.table.player, r.table.dealer;
    assert d[..2] == d[..1] + [d[1]];
    assert d[1..] == [d[1]] + d[2..];
    assert multiset(Pops(r.table)) == multiset(p[..2]) + multiset(d[..1]) + multiset(p[2..]) + multiset(d[1..]);
  }

  /**
   On a deck without repeated cards, no card is dealt twice in a round and
   no card is shown twice.
   */
  lemma RoundCardsDistinct(deck: seq<Card>, incoming: seq<Received>)
    requires |deck| == 52 && Distinct(deck)
    ensures var r := PlayRound(deck, incoming);
      |r.table.player| >= 2 && |r.table.dealer| >= 2
      && Distinct(Pops(r.table)) && Distinct(Shown(r))
  {
    RoundPops(deck, incoming);
    var r := PlayRound(deck, incoming);
    PoppedConserves(deck, r.table.deck, Pops(r.table));
    ShownArePopped(r);
    DistinctSubMultiset(Pops(r.table), Shown(r));
  }

  /**
   On a deck without repeated cards, a round that ends before the dealer's
   turn never shows the dealer's hidden card.
   */
  lemma HiddenCardStaysHidden(deck: seq<Card>, incoming: seq<Received>)
    requires |deck| == 52 && Distinct(deck)
    ensures var r := PlayRound(deck, incoming);
      |r.table.player| >= 2 && |r.table.dealer| >= 2
      && (!r.end.Settled? && !r.end.DeckEmpty? ==> r.table.dealer[1] !in Shown(r))
  {
    RoundCardsDistinct(deck, incoming);
    var r := PlayRound(deck, incoming);
    if !r.end.Settled? && !r.end.DeckEmpty? {
      var p, d := r.table.player, r.table.dealer;
      var pops, shown := Pops(r.table), Shown(r);
      assert pops[3] == d[1];
      forall i | 0 <= i < |shown|
        ensures shown[i] != d[1]
      {
        var k := if i < 3 then i else i + 1;
        assert shown[i] == pops[k];
      }
    }
  }
}
