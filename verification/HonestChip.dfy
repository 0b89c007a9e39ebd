/**
 The other end of the channel: how a chip takes commands and builds responses under section 9.8 of
 ICAO Doc 9303-11. It is written from the standard, computes with its own cryptography, and shares
 with the terminal only the keys, the padding and the TLV grammar.
 */
module HonestChip {
  import opened BerTlv
  import opened ByteStrings
  import opened ChipCrypto
  import opened Padding
  import opened SecureMessaging
  import opened SendSequenceCounter

  /** A command as it was before protection; le is -1 when there was no Le. */
  datatype Request = Request(header: Bytes, data: Bytes, le: int)

  /** Checks and unwraps a protected command under the chip's own advanced counter. */
  function Receive(suite: Suite, ssc: Bytes, apdu: Bytes): Option<Request>
    requires suite.Valid() && |ssc| == suite.Block()
  {
    if |apdu| < 6 || |apdu| != 6 + apdu[4] as nat || apdu[|apdu| - 1] != 0 then None
    else
      var header, body := apdu[..4], apdu[5..|apdu| - 1];
      match Split(body)
      case None => None
      case Some(ds) => ReceiveObjects(suite, ssc, header, body, ds)
  }

  function ReceiveObjects(suite: Suite, ssc: Bytes, header: Bytes, body: Bytes, ds: seq<Bytes>): Option<Request>
    requires suite.Valid() && |ssc| == suite.Block() && Split(body) == Some(ds)
  {
    SplitSpellsInput(body);
    if Concat(ds) != body || ds == [] then None
    else
      var last, ms := ds[|ds| - 1], ds[..|ds| - 1];
      if last[0] != 0x8E || |last| != 10 then None
      else if Checksum(suite, ssc + IsoPad(BlockOf(suite), header) + Concat(ms)) != last[2..] then None
      else if ms != [] && ms[0][0] == 0x87 then
        match Opened(suite, ssc, ms[0])
        case None => None
        case Some(data) => WithLe(header, data, ms[1..])
      else WithLe(header, [], ms)
  }

  function WithLe(header: Bytes, data: Bytes, ms: seq<Bytes>): Option<Request>
    requires AllObjects(ms)
  {
    if ms == [] then Some(Request(header, data, -1))
    else if |ms| == 1 && ms[0][0] == 0x97 && |ms[0]| == 3 then Some(Request(header, data, ms[0][2]))
    else None
  }

  /** Response data and status word bytes before protection. */
  datatype Reply = Reply(data: Option<Bytes>, sw1: Byte, sw2: Byte)
  {
    /** The padded data and its indicator byte fit a two-byte length. */
    predicate Fits(suite: Suite) {
      data.Some? ==> 1 + |IsoPad(BlockOf(suite), data.value)| < 0x10000
    }
  }

  function PayloadObjects(suite: Suite, ssc: Bytes, reply: Reply): (ds: seq<Bytes>)
    requires suite.Valid() && |ssc| == suite.Block() && reply.Fits(suite)
  {
    (match reply.data
     case None => []
     case Some(p) =>
       PadIsAlignedAndMinimal(BlockOf(suite), p);
       [Encode(0x87, [0x01] + Encipher(suite, ssc, IsoPad(BlockOf(suite), p)))])
    + [Encode(0x99, [reply.sw1, reply.sw2])]
  }

  /** The data objects of a protected response, for an already advanced counter. */
  function ReplyObjects(suite: Suite, ssc: Bytes, reply: Reply): (ds: seq<Bytes>)
    requires suite.Valid() && |ssc| == suite.Block() && reply.Fits(suite)
  {
    var payload := PayloadObjects(suite, ssc, reply);
    payload + [Encode(0x8E, Checksum(suite, ssc + Concat(payload)))]
  }

  function Respond(suite: Suite, ssc: Bytes, reply: Reply): Bytes
    requires suite.Valid() && |ssc| == suite.Block() && reply.Fits(suite)
  {
    Concat(ReplyObjects(suite, ssc, reply)) + [0x90, 0x00]
  }
}
