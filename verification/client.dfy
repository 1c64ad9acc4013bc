/**
 The client's side of the protocol (client.py): which offer datagrams it
 accepts while looking for a server, how it settles on a number of rounds,
 and the request it sends once connected.
 */
module Client {
  import opened Wrappers
  import opened Bytes
  import opened Utf8
  import opened Protocol
  import opened Session

  /** The size of an offer, the length find_server demands of a datagram. */
  const OfferSize: nat := 39

  /**
   The TCP port an offer datagram announces, or None when find_server skips
   it: fewer than 39 bytes, a wrong cookie or type, or a server name that is
   not UTF-8 (whose decode raises inside the loop's try block). Bytes after
   the first 39 are never looked at.
   */
  function AcceptOffer(data: seq<byte>): (r: Option<u16>) {
    if |data| < OfferSize then None
    else
      var o := DecodeOffer(data[..OfferSize]).value;
      if o.cookie != MagicCookie || o.msgType != MsgTypeOffer then None
      else if !WellFormed(o.name) then None
      else Some(o.port)
  }

  /** The offer header find_server accepts: the cookie, then type 0x2. */
  predicate OfferHeader(data: seq<byte>)
    requires |data| >= 5
  {
    data[..4] == BigEndian32(MagicCookie) && data[4] == MsgTypeOffer
  }

  /**
   Which datagrams are offers, in terms of their bytes: exactly those of 39
   bytes or more with the offer header and a name field that decodes; the
   port is the big-endian value of bytes 5 and 6.
   */
  lemma AcceptOfferBytes(data: seq<byte>)
    ensures AcceptOffer(data).Some?
        <==> |data| >= OfferSize && OfferHeader(data) && WellFormed(data[7..OfferSize])
    ensures AcceptOffer(data).Some? ==> AcceptOffer(data).value == FromBigEndian16(data[5..7])
  {
  }

  /** Whatever follows the 39 offer bytes in a datagram changes nothing. */
  lemma OfferIgnoresTail(data: seq<byte>, extra: seq<byte>)
    requires |data| >= OfferSize
    ensures AcceptOffer(data + extra) == AcceptOffer(data)
  {
    assert (data + extra)[..OfferSize] == data[..OfferSize];
  }

  /** What one recvfrom call returns: the sender's address and the datagram. */
  datatype Datagram = Datagram(sender: string, data: seq<byte>)

  /** Where the client connects: the offer's sender and the port it announced. */
  datatype Server = Server(address: string, port: u16)

  /**
   find_server on the datagrams that arrive, in order: skip every one that
   is not an offer and take the first that is. `used` is how many datagrams
   were read; when none is an offer, all of them were read and there is no
   server (the program would go on waiting).
   */
  method FindServer(datagrams: seq<Datagram>) returns (found: Option<Server>, used: nat)
    ensures used <= |datagrams|
    ensures forall j | 0 <= j < used - 1 :: AcceptOffer(datagrams[j].data).None?
    ensures found.None? ==> used == |datagrams| && forall j | 0 <= j < |datagrams| :: AcceptOffer(datagrams[j].data).None?
    ensures found.Some? ==>
      used > 0
      && AcceptOffer(datagrams[used - 1].data) == Some(found.value.port)
      && found.value.address == datagrams[used - 1].sender
  {
    used := 0;
    while used < |datagrams|
      invariant used <= |datagrams|
      invariant forall j | 0 <= j < used :: AcceptOffer(datagrams[j].data).None?
    {
      var d := datagrams[used];
      used := used + 1;
      var port := AcceptOffer(d.data);
      if port.Some? {
        return Some(Server(d.sender, port.value)), used;
      }
    }
    return None, used;
  }

  /** The largest round count one request byte can carry. */
  const MaxRounds: nat := 255

  /**
   The loop asking for a number of rounds, on the lines the user enters:
   None for a line `int` rejects (ValueError), else the number it parses
   to. The first number from 1 to 255 is taken; `used` is how many lines
   were read, and when no line qualifies all of them were read and there is
   no answer (the program would go on asking).
   */
  method ReadRounds(lines: seq<Option<int>>) returns (rounds: Option<byte>, used: nat)
    ensures used <= |lines|
    ensures forall j | 0 <= j < used - 1 :: !(lines[j].Some? && 1 <= lines[j].value <= MaxRounds)
    ensures rounds.None? ==>
      used == |lines| && forall j | 0 <= j < |lines| :: !(lines[j].Some? && 1 <= lines[j].value <= MaxRounds)
    ensures rounds.Some? ==> used > 0 && lines[used - 1] == Some(rounds.value as int) && 1 <= rounds.value
  {
    used := 0;
    while used < |lines|
      invariant used <= |lines|
      invariant forall j | 0 <= j < used :: !(lines[j].Some? && 1 <= lines[j].value <= MaxRounds)
    {
      var line := lines[used];
      used := used + 1;
      if line.Some? && 1 <= line.value <= MaxRounds {
        return Some(line.value), used;
      }
    }
    return None, used;
  }

  /** The client's team name, "Team Joker", as its UTF-8 bytes. */
  const ClientName: seq<byte> := [0x54, 0x65, 0x61, 0x6D, 0x20, 0x4A, 0x6F, 0x6B, 0x65, 0x72]

  /** The request connect_and_play sends for the number of rounds chosen. */
  function BuildRequest(rounds: byte): (r: seq<byte>)
    ensures |r| == 38
  {
    EncodeRequest(Request(MagicCookie, MsgTypeRequest, rounds, PadName(ClientName)))
  }

  /** Padding an ASCII name with zero bytes keeps it ASCII. */
  lemma PadNameAscii(name: seq<byte>)
    requires IsAscii(name)
    ensures IsAscii(PadName(name))
  {
  }

  /**
   The server reads the client's request back, with whatever follows it in
   the same recv: the request layout gives the rounds and the padded team
   name, and handle_client plays exactly the rounds chosen.
   */
  lemma RequestAccepted(rounds: byte, extra: seq<byte>)
    ensures DecodeRequest(BuildRequest(rounds)) == Some(Request(MagicCookie, MsgTypeRequest, rounds, PadName(ClientName)))
    ensures RequestedRounds(BuildRequest(rounds) + extra) == Some(rounds as nat)
  {
    var q := Request(MagicCookie, MsgTypeRequest, rounds, PadName(ClientName));
    RequestRoundTrip(q);
    PadStringIdempotent(ClientName, NameWidth);
    PadNameAscii(ClientName);
    AsciiIsWellFormed(PadName(ClientName));
    RequestIgnoresTail(BuildRequest(rounds), extra);
  }

  /** The client accepts the server's offer, with whatever follows it, and connects to the port it announces. */
  lemma OfferAccepted(port: u16, extra: seq<byte>)
    ensures AcceptOffer(ServerOffer(port) + extra) == Some(port)
  {
    var o := Offer(MagicCookie, MsgTypeOffer, port, PadName(ServerName));
    OfferRoundTrip(o);
    PadStringIdempotent(ServerName, NameWidth);
    PadNameAscii(ServerName);
    AsciiIsWellFormed(PadName(ServerName));
    OfferIgnoresTail(ServerOffer(port), extra);
  }
}
