/**
 One client session of handle_client (server.py): read the request from the
 first recv, check its size, cookie and type, decode the team name, then play
 the requested number of rounds on the same connection. Each round gets its
 own shuffled deck, a parameter here; every round reads the messages the
 previous one left unread.
 */
module Session {
  import opened Wrappers
  import opened Bytes
  import opened Utf8
  import opened Protocol
  import opened Cards
  import opened Round

  /** The size of a request, the length handle_client demands of its first recv. */
  const RequestSize: nat := 38

  /**
   The number of rounds a first recv asks for, or None when handle_client
   returns without playing: fewer than 38 bytes, a wrong cookie or type, or a
   team name that is not UTF-8 (whose decode raises). Bytes after the first
   38 are never looked at.
   */
  function RequestedRounds(data: seq<byte>): (r: Option<nat>) {
    if |data| < RequestSize then None
    else
      var q := DecodeRequest(data[..RequestSize]).value;
      if q.cookie != MagicCookie || q.msgType != MsgTypeRequest then None
      else if !WellFormed(q.name) then None
      else Some(q.rounds as nat)
  }

  /** The request header handle_client accepts: the cookie, then type 0x3. */
  predicate RequestHeader(data: seq<byte>)
    requires |data| >= 5
  {
    data[..4] == BigEndian32(MagicCookie) && data[4] == MsgTypeRequest
  }

  /**
   Which requests are played, in terms of their bytes: exactly those of 38
   bytes or more with the request header and a name field that decodes; the
   round count is byte 5.
   */
  lemma RequestedRoundsBytes(data: seq<byte>)
    ensures RequestedRounds(data).Some?
        <==> |data| >= RequestSize && RequestHeader(data) && WellFormed(data[6..RequestSize])
    ensures RequestedRounds(data).Some? ==> RequestedRounds(data).value == data[5] as nat
  {
  }

  /** Whatever else the first recv returned after the 38 request bytes changes nothing. */
  lemma RequestIgnoresTail(data: seq<byte>, extra: seq<byte>)
    requires |data| >= RequestSize
    ensures RequestedRounds(data + extra) == RequestedRounds(data)
  {
    assert (data + extra)[..RequestSize] == data[..RequestSize];
  }

  /** The server's team name, "Team ", as its UTF-8 bytes. */
  const ServerName: seq<byte> := [0x54, 0x65, 0x61, 0x6D, 0x20]

  /** The offer broadcast_offers sends every second, for the TCP port the server listens on. */
  function ServerOffer(port: u16): (r: seq<byte>)
    ensures |r| == 39
  {
    EncodeOffer(Offer(MagicCookie, MsgTypeOffer, port, PadName(ServerName)))
  }

  /** What the first recv of a session leads to; a timeout raises and ends the session. */
  function Requested(m: Received): (r: Option<nat>) {
    match m
    case Chunk(data) => RequestedRounds(data)
    case TimedOut => None
  }

  /**
   A round function: how play_round maps a shuffled deck and the messages
   still unread to the end of the round. The session loop is stated for any
   such function and run with PlayRound.
   */
  type Play = (seq<Card>, seq<Received>) --> RoundTrace

  /** `play` can run on every deck of `decks`. */
  ghost predicate Playable(play: Play, decks: seq<seq<Card>>) {
    forall i, u | 0 <= i < |decks| :: play.requires(decks[i], u)
  }

  /**
   The `for` loop of handle_client from some round on: play `count` more
   rounds on the decks given, each on the messages the one before left,
   stopping after a round that does not let the session go on.
   */
  function SessionRounds(play: Play, decks: seq<seq<Card>>, unread: seq<Received>, count: nat): (r: seq<RoundTrace>)
    requires count <= |decks| && Playable(play, decks)
    decreases count
  {
    if count == 0 then []
    else
      var r := play(decks[0], unread);
      if r.end.Continues() then [r] + SessionRounds(play, decks[1..], r.unread, count - 1) else [r]
  }

  /**
   The rounds of a session: at most `count` of them, the first on the
   messages after the request, each next one on what the previous one left,
   every round but the last letting the session go on, and fewer than
   `count` only when the last one did not.
   */
  lemma {:induction false} SessionRoundsChain(play: Play, decks: seq<seq<Card>>, unread: seq<Received>, count: nat)
    requires count <= |decks| && Playable(play, decks)
    ensures var rs := SessionRounds(play, decks, unread, count);
      |rs| <= count
      && (count > 0 ==> |rs| > 0 && rs[0] == play(decks[0], unread))
      && (forall i {:trigger rs[i]} | 0 < i < |rs| :: rs[i] == play(decks[i], rs[i - 1].unread))
      && (forall i | 0 <= i < |rs| - 1 :: rs[i].end.Continues())
      && (0 < |rs| < count ==> !rs[|rs| - 1].end.Continues())
    decreases count
  {
    if count > 0 {
      var r := play(decks[0], unread);
      if r.end.Continues() {
        assert Playable(play, decks[1..]) by {
          forall i, u | 0 <= i < |decks[1..]|
            ensures play.requires(decks[1..][i], u)
          {
            assert decks[1..][i] == decks[i + 1];
          }
        }
        var rest := SessionRounds(play, decks[1..], r.unread, count - 1);
        SessionRoundsChain(play, decks[1..], r.unread, count - 1);
        var rs := [r] + rest;
        forall i | 0 < i < |rs|
          ensures rs[i] == play(decks[i], rs[i - 1].unread)
        {
          assert rs[i] == rest[i - 1] && decks[i] == decks[1..][i - 1];
          if i > 1 {
            assert rs[i - 1] == rest[i - 2];
          }
        }
        forall i | 0 <= i < |rs| - 1
          ensures rs[i].end.Continues()
        {
          if i > 0 {
            assert rs[i] == rest[i - 1];
          }
        }
      }
    }
  }

  /** The `for` loop of handle_client, round by round. */
  method RunRounds(play: Play, decks: seq<seq<Card>>, first: seq<Received>, n: nat) returns (played: seq<RoundTrace>)
    requires n <= |decks| && Playable(play, decks)
    ensures played == SessionRounds(play, decks, first, n)
  {
    played := [];
    var unread := first;
    var i := 0;
    while i < n
      invariant 0 <= i <= n && |played| == i
      invariant Playable(play, decks[i..])
      invariant played + SessionRounds(play, decks[i..], unread, n - i) == SessionRounds(play, decks, first, n)
      decreases n - i
    {
      var r := play(decks[i], unread);
      assert decks[i..][0] == decks[i] && decks[i..][1..] == decks[i + 1..];
      played := played + [r];
      if !r.end.Continues() {
        break;
      }
      unread := r.unread;
      i := i + 1;
    }
  }

  /**
   handle_client after accepting a connection: `incoming` are the outcomes
   of its recv calls in order, the first being the request, and `decks[i]`
   is the shuffled deck of round i. No round is played unless the request
   is accepted; then the rounds are played one after the other, each on the
   messages the one before left, and the loop stops early only when a round
   leaves play_round by an exception (the dealer's pop on an empty deck) or
   the modelled recv calls run out.
   */
  method HandleClient(incoming: seq<Received>, decks: seq<seq<Card>>) returns (played: seq<RoundTrace>)
    requires |decks| >= 255
    requires forall i | 0 <= i < |decks| :: |decks[i]| == 52
    ensures |incoming| == 0 || Requested(incoming[0]).None? ==> played == []
    ensures |incoming| > 0 && Requested(incoming[0]).Some? ==>
      var n := Requested(incoming[0]).value;
      |played| <= n
      && (n > 0 ==> |played| > 0 && played[0] == PlayRound(decks[0], incoming[1..]))
      && (forall i {:trigger played[i]} | 0 < i < |played| :: played[i] == PlayRound(decks[i], played[i - 1].unread))
      && (forall i | 0 <= i < |played| - 1 :: played[i].end.Continues())
      && (0 < |played| < n ==> !played[|played| - 1].end.Continues())
  {
    played := [];
    if |incoming| == 0 {
      return;
    }
    var requested := Requested(incoming[0]);
    if requested.None? {
      return;
    }
    var n := requested.value;
    assert n < 0x100;
    assert Playable(PlayRound, decks);
    played := RunRounds(PlayRound, decks, incoming[1..], n);
    SessionRoundsChain(PlayRound, decks, incoming[1..], n);
  }
}
