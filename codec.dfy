/**
  * The RCON packet layout: building a request packet, and reading the
  * response header and payload the way the client's `send` does.
  *
  * A packet is, little-endian throughout:
  *   [Length int32][RequestID int32][Type int32][Body bytes][0x00 0x00]
  * where Length counts every byte after the Length field.
  */
module Codec {
  import opened LittleEndian
  import opened Errors

  /** Request id the server echoes when authentication fails. */
  const FailureType: int32 := -1
  /** Packet type of a command request. */
  const CommandType: int32 := 2
  /** Packet type of an authentication request. */
  const AuthenticationType: int32 := 3
  /** First request id of a fresh or closed client. */
  const ResetID: int32 := 1

  /**
    * The packet `createPacket` builds for `body` and `packetType` while the
    * client's request id is `requestID`. The length field is `int32(len(body) + 10)`,
    * truncated to 32 bits as Go's conversion does.
    */
  function CreatePacket(requestID: int32, packetType: int32, body: seq<byte>): (p: seq<byte>)
    ensures |p| == |body| + 14
    ensures DecodeInt32(p[..4]) == Wrap32(|body| + 10)
    ensures DecodeInt32(p[4..8]) == requestID
    ensures DecodeInt32(p[8..12]) == packetType
    ensures p[12..|p| - 2] == body
    ensures p[|p| - 2..] == [0, 0]
  {
    var length := Wrap32(|body| + 10);
    var p := EncodeInt32(length) + EncodeInt32(requestID) + EncodeInt32(packetType) + body + [0, 0];
    assert p[..4] == EncodeInt32(length);
    assert p[4..8] == EncodeInt32(requestID);
    assert p[8..12] == EncodeInt32(packetType);
    DecodeEncodeInt32(length);
    DecodeEncodeInt32(requestID);
    DecodeEncodeInt32(packetType);
    p
  }

  /** When the body is short enough, the length field counts exactly the bytes that follow it. */
  lemma LengthFieldCountsRest(requestID: int32, packetType: int32, body: seq<byte>)
    requires |body| + 10 <= MaxInt32
    ensures var p := CreatePacket(requestID, packetType, body);
      DecodeInt32(p[..4]) == |p| - 4
  {
  }

  /**
    * With no overflow check, a body of 2^32 - 10 bytes gets a length field of 0:
    * the conversion to int32 silently drops the high bits.
    */
  lemma LengthFieldTruncates(requestID: int32, packetType: int32, body: seq<byte>)
    requires |body| == Two32 - 10
    ensures DecodeInt32(CreatePacket(requestID, packetType, body)[..4]) == 0
  {
  }

  /** The command `list` sent with request id 1, byte for byte. */
  lemma ListCommandPacket()
    ensures CreatePacket(1, CommandType, [0x6C, 0x69, 0x73, 0x74])
         == [0x0E, 0x00, 0x00, 0x00, 0x01, 0x00, 0x00, 0x00, 0x02, 0x00, 0x00, 0x00,
             0x6C, 0x69, 0x73, 0x74, 0x00, 0x00]
  {
    EncodeInt32Examples();
  }

  /** The 8-byte response header: the packet size, then the echoed request id. There is no type field. */
  datatype Headers = Headers(size: int32, requestID: int32)

  /** The header `binary.Read` fills from 8 bytes. */
  function ReadHeaders(h: seq<byte>): (hd: Headers)
    requires |h| == 8
    ensures h == EncodeInt32(hd.size) + EncodeInt32(hd.requestID)
  {
    assert h == h[..4] + h[4..];
    Headers(DecodeInt32(h[..4]), DecodeInt32(h[4..]))
  }

  /** The first 8 bytes of a packet read back as a header recover its length field and request id. */
  lemma ReadHeadersOfPacket(requestID: int32, packetType: int32, body: seq<byte>)
    ensures var p := CreatePacket(requestID, packetType, body);
      ReadHeaders(p[..8]) == Headers(Wrap32(|body| + 10), requestID)
  {
    var p := CreatePacket(requestID, packetType, body);
    assert p[..8][..4] == p[..4];
    assert p[..8][4..] == p[4..8];
  }

  /** `res.size - 8`, computed in int32 arithmetic (so it wraps for sizes near the minimum). */
  function PayloadLength(size: int32): (n: int32)
    ensures size >= MinInt32 + 8 ==> n == size - 8
    ensures size < MinInt32 + 8 ==> n == size - 8 + Two32
  {
    Wrap32(size - 8)
  }

  /** A response handed back by `send`. */
  datatype Response = Response(requestID: int32, body: seq<byte>)

  /** What the reads of `send` produce from the unread inbound bytes, and the bytes left after them. */
  datatype Received = Received(outcome: Result<Response>, rest: seq<byte>)

  /**
    * The reads `send` performs after writing its packet: an 8-byte header, then
    * `size - 8` payload bytes, which become the response body as they are.
    * A stream that ends early yields ShortRead with everything consumed; a
    * negative payload length yields NegativePayload with only the header consumed.
    */
  function ReadResponse(inbound: seq<byte>): (r: Received)
    ensures r.outcome.Success? <==>
      |inbound| >= 8 && 0 <= PayloadLength(ReadHeaders(inbound[..8]).size) <= |inbound| - 8
    ensures r.outcome.Success? ==>
      var hd := ReadHeaders(inbound[..8]);
      r.outcome.value.requestID == hd.requestID &&
      |r.outcome.value.body| == PayloadLength(hd.size) &&
      inbound == inbound[..8] + r.outcome.value.body + r.rest
    ensures r.outcome.Failure? ==> r.outcome.error in {ShortRead, NegativePayload}
    ensures |r.rest| <= |inbound| && r.rest == inbound[|inbound| - |r.rest|..]
  {
    if |inbound| < 8 then Received(Failure(ShortRead), [])
    else
      var hd := ReadHeaders(inbound[..8]);
      var n := PayloadLength(hd.size);
      if n < 0 then Received(Failure(NegativePayload), inbound[8..])
      else if |inbound| - 8 < n then Received(Failure(ShortRead), [])
      else
        assert inbound == inbound[..8] + inbound[8..8 + n] + inbound[8 + n..];
        Received(Success(Response(hd.requestID, inbound[8..8 + n])), inbound[8 + n..])
  }

  /**
    * A reply laid out as `CreatePacket` lays out packets is read with its request id
    * recovered, but the body handed back is the 4-byte type field followed by the
    * first len(body) - 2 bytes of body-plus-padding, and the last 4 bytes of the
    * reply stay unread in the stream.
    */
  lemma {:induction false} ReadWellFormedReply(requestID: int32, packetType: int32, body: seq<byte>, more: seq<byte>)
    requires |body| + 10 <= MaxInt32
    ensures var p := CreatePacket(requestID, packetType, body);
      var tail := EncodeInt32(packetType) + body + [0, 0];
      ReadResponse(p + more) == Received(Success(Response(requestID, tail[..|body| + 2])), tail[|body| + 2..] + more)
  {
    var p := CreatePacket(requestID, packetType, body);
    var inbound := p + more;
    var tail := EncodeInt32(packetType) + body + [0, 0];
    assert inbound[..8] == p[..8];
    ReadHeadersOfPacket(requestID, packetType, body);
    assert PayloadLength(ReadHeaders(inbound[..8]).size) == |body| + 2;
    assert p == p[..8] + tail by {
      assert p[8..12] == EncodeInt32(packetType) by {
        assert EncodeInt32(DecodeInt32(p[8..12])) == p[8..12];
      }
      assert p[8..] == p[8..12] + p[12..|p| - 2] + p[|p| - 2..];
      assert p == p[..8] + p[8..];
    }
    assert inbound[8..8 + |body| + 2] == tail[..|body| + 2];
    assert inbound[8 + |body| + 2..] == tail[|body| + 2..] + more;
  }

  /**
    * For a reply body of two or more bytes, the body `send` returns is the reply's
    * type field and its body without the last two bytes; it is never the reply's body.
    */
  lemma ReplyBodyIsNotStripped(requestID: int32, packetType: int32, body: seq<byte>, more: seq<byte>)
    requires |body| + 10 <= MaxInt32 && |body| >= 2
    ensures var r := ReadResponse(CreatePacket(requestID, packetType, body) + more);
      r.outcome.Success? &&
      r.outcome.value.body == EncodeInt32(packetType) + body[..|body| - 2] &&
      r.outcome.value.body != body &&
      r.rest == body[|body| - 2..] + [0, 0] + more
  {
    ReadWellFormedReply(requestID, packetType, body, more);
    var tail := EncodeInt32(packetType) + body + [0, 0];
    assert tail[..|body| + 2] == EncodeInt32(packetType) + body[..|body| - 2];
    assert tail[|body| + 2..] == body[|body| - 2..] + [0, 0];
  }
}
