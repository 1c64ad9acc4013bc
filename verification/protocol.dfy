/**
 The shared protocol definitions of protocol.py: the constants, the four
 packet layouts, the game result codes and `pad_string`. Each `struct`
 format string gets a record holding exactly the tuple `struct.unpack`
 returns for it, an encoder (`struct.pack`) and a decoder (`struct.unpack`,
 which fails unless the buffer has exactly the layout's size). The record
 fields carry the ranges of their struct codes ('B' = byte, 'H' = u16,
 'I' = u32), which every caller in the program respects. Checking the cookie
 and the message type is left to the callers, as in the program.
 */
module Protocol {
  import opened Wrappers
  import opened Bytes

  const UdpPort: nat := 13122
  const MagicCookie: nat := 0xABCD_DCBA
  const MsgTypeOffer: byte := 0x2
  const MsgTypeRequest: byte := 0x3
  const MsgTypePayload: byte := 0x4

  /** Default width of pad_string, and the width of every name field. */
  const NameWidth: nat := 32

  /** The game results carried in a server payload. */
  datatype GameResult = Playing | Tie | Loss | Win {
    function Code(): (c: byte)
      ensures c <= 3
    {
      match this
      case Playing => 0x0
      case Tie => 0x1
      case Loss => 0x2
      case Win => 0x3
    }
  }

  /** Reads a result code back; exactly the codes 0..3 are results. */
  function ResultOfCode(c: int): (r: Option<GameResult>)
    ensures r.Some? <==> 0 <= c <= 3
    ensures r.Some? ==> r.value.Code() == c
  {
    if c == 0 then Some(Playing)
    else if c == 1 then Some(Tie)
    else if c == 2 then Some(Loss)
    else if c == 3 then Some(Win)
    else None
  }

  /** The four results have four different codes, so a code identifies its result. */
  lemma ResultCodesDistinct(a: GameResult, b: GameResult)
    ensures a.Code() == b.Code() <==> a == b
    ensures ResultOfCode(a.Code()) == Some(a)
  {
  }

  /** pad_string(text) with its default length: the content of every name field. */
  function PadName(text: seq<byte>): (r: seq<byte>)
    ensures |r| == NameWidth
    ensures |text| <= NameWidth ==> r == text + seq(NameWidth - |text|, _ => 0)
    ensures |text| > NameWidth ==> r == text[..NameWidth]
  {
    var r := PadString(text, NameWidth);
    assert |text| <= NameWidth ==> r == r[..|text|] + r[|text|..];
    r
  }

  // ---------------------------------------------------------------- Offer

  /** FORMAT_OFFER = '!IBH32s': cookie, type, server TCP port, server name. */
  datatype Offer = Offer(cookie: u32, msgType: byte, port: u16, name: seq<byte>)

  /** struct.pack(FORMAT_OFFER, ...): a 39-byte datagram. */
  function EncodeOffer(o: Offer): (r: seq<byte>)
    ensures |r| == 39
    ensures r[..4] == BigEndian32(o.cookie) && r[4] == o.msgType
    ensures r[5..7] == BigEndian16(o.port) && r[7..] == PadName(o.name)
  {
    BigEndian32(o.cookie) + [o.msgType] + BigEndian16(o.port) + PadName(o.name)
  }

  /** struct.unpack(FORMAT_OFFER, data); every buffer it accepts is the encoding of its result. */
  function DecodeOffer(data: seq<byte>): (r: Option<Offer>)
    ensures r.Some? <==> |data| == 39
    ensures r.Some? ==> |r.value.name| == NameWidth && EncodeOffer(r.value) == data
  {
    if |data| != 39 then None
    else
      BigEndian32Unique(data[..4]);
      BigEndian16Unique(data[5..7]);
      assert data == data[..4] + [data[4]] + data[5..7] + data[7..];
      Some(Offer(FromBigEndian32(data[..4]), data[4], FromBigEndian16(data[5..7]), data[7..]))
  }

  /** Decoding an encoded offer gives the fields back, with the name as pad_string stores it. */
  lemma OfferRoundTrip(o: Offer)
    ensures DecodeOffer(EncodeOffer(o)) == Some(o.(name := PadName(o.name)))
  {
  }

  // -------------------------------------------------------------- Request

  /** FORMAT_REQUEST = '!IBB32s': cookie, type, rounds requested, team name. */
  datatype Request = Request(cookie: u32, msgType: byte, rounds: byte, name: seq<byte>)

  /** struct.pack(FORMAT_REQUEST, ...): a 38-byte message. */
  function EncodeRequest(q: Request): (r: seq<byte>)
    ensures |r| == 38
    ensures r[..4] == BigEndian32(q.cookie) && r[4] == q.msgType && r[5] == q.rounds
    ensures r[6..] == PadName(q.name)
  {
    BigEndian32(q.cookie) + [q.msgType, q.rounds] + PadName(q.name)
  }

  /** struct.unpack(FORMAT_REQUEST, data). */
  function DecodeRequest(data: seq<byte>): (r: Option<Request>)
    ensures r.Some? <==> |data| == 38
    ensures r.Some? ==> |r.value.name| == NameWidth && EncodeRequest(r.value) == data
  {
    if |data| != 38 then None
    else
      BigEndian32Unique(data[..4]);
      assert data == data[..4] + [data[4], data[5]] + data[6..];
      Some(Request(FromBigEndian32(data[..4]), data[4], data[5], data[6..]))
  }

  lemma RequestRoundTrip(q: Request)
    ensures DecodeRequest(EncodeRequest(q)) == Some(q.(name := PadName(q.name)))
  {
  }

  // ------------------------------------------------------- Client payload

  /** FORMAT_PAYLOAD_CLIENT = '!IB5s': cookie, type, decision. */
  datatype ClientPayload = ClientPayload(cookie: u32, msgType: byte, decision: seq<byte>)

  /** struct.pack(FORMAT_PAYLOAD_CLIENT, ...): a 10-byte message. */
  function EncodeClientPayload(p: ClientPayload): (r: seq<byte>)
    ensures |r| == 10
    ensures r[..4] == BigEndian32(p.cookie) && r[4] == p.msgType
    ensures r[5..] == PadString(p.decision, 5)
  {
    BigEndian32(p.cookie) + [p.msgType] + PadString(p.decision, 5)
  }

  /** struct.unpack(FORMAT_PAYLOAD_CLIENT, data). */
  function DecodeClientPayload(data: seq<byte>): (r: Option<ClientPayload>)
    ensures r.Some? <==> |data| == 10
    ensures r.Some? ==> |r.value.decision| == 5 && EncodeClientPayload(r.value) == data
  {
    if |data| != 10 then None
    else
      BigEndian32Unique(data[..4]);
      assert data == data[..4] + [data[4]] + data[5..];
      Some(ClientPayload(FromBigEndian32(data[..4]), data[4], data[5..]))
  }

  lemma ClientPayloadRoundTrip(p: ClientPayload)
    ensures DecodeClientPayload(EncodeClientPayload(p))
         == Some(p.(decision := PadString(p.decision, 5)))
  {
  }

  // ------------------------------------------------------- Server payload

  /** FORMAT_PAYLOAD_SERVER = '!IBBHB': cookie, type, result, rank (an unsigned short), suit. */
  datatype ServerPayload = ServerPayload(cookie: u32, msgType: byte, result: byte, rank: u16, suit: byte)

  /** struct.pack(FORMAT_PAYLOAD_SERVER, ...): a 9-byte message, the rank taking two bytes. */
  function EncodeServerPayload(p: ServerPayload): (r: seq<byte>)
    ensures |r| == 9
    ensures r[..4] == BigEndian32(p.cookie) && r[4] == p.msgType && r[5] == p.result
    ensures r[6..8] == BigEndian16(p.rank) && r[8] == p.suit
  {
    BigEndian32(p.cookie) + [p.msgType, p.result] + BigEndian16(p.rank) + [p.suit]
  }

  /** struct.unpack(FORMAT_PAYLOAD_SERVER, data). */
  function DecodeServerPayload(data: seq<byte>): (r: Option<ServerPayload>)
    ensures r.Some? <==> |data| == 9
    ensures r.Some? ==> EncodeServerPayload(r.value) == data
  {
    if |data| != 9 then None
    else
      BigEndian32Unique(data[..4]);
      BigEndian16Unique(data[6..8]);
      assert data == data[..4] + [data[4], data[5]] + data[6..8] + [data[8]];
      Some(ServerPayload(FromBigEndian32(data[..4]), data[4], data[5], FromBigEndian16(data[6..8]), data[8]))
  }

  /** A server payload has no string field, so its round trip is exact. */
  lemma ServerPayloadRoundTrip(p: ServerPayload)
    ensures DecodeServerPayload(EncodeServerPayload(p)) == Some(p)
  {
  }
}
