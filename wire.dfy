/**
 * The frames every encoder builds. A request frame is the kind byte, a zero
 * byte, the kind's declared length and a body; a reply frame is the kind
 * byte, a status byte and the client id's text. Both travel as wire text:
 * upper-case hexadecimal pairs separated by spaces.
 */
module Wire {
  import opened Bytes
  import opened Payload
  import Utf8
  import Request
  import Response

  /** A request frame: the header `{:02x}` kind and `{:04x}` length, then the body. */
  function RequestFrame(kind: Request.RequestType, body: seq<Byte>): seq<Byte>
  {
    [Request.ToValue(kind), 0x00, Request.GetLength(kind)] + body
  }

  /** The header the encoders format: `{:02x}` of the kind, `{:04x}` of its length. */
  function RequestHeader(kind: Request.RequestType): string
  {
    PairLower(Request.ToValue(kind)) + PairLower(0) + PairLower(Request.GetLength(kind))
  }

  lemma RequestHeaderIsHex(kind: Request.RequestType)
    ensures RequestHeader(kind) == HexLower([Request.ToValue(kind), 0x00, Request.GetLength(kind)])
  {
    var h: seq<Byte> := [Request.ToValue(kind), 0x00, Request.GetLength(kind)];
    assert h[1..][1..][1..] == [];
    assert HexLower(h[1..][1..]) == PairLower(Request.GetLength(kind));
    assert HexLower(h[1..]) == PairLower(0) + PairLower(Request.GetLength(kind));
  }

  /** Spacing a header followed by a lower-case hexadecimal body gives the frame's wire text. */
  lemma RequestTextIsWire(kind: Request.RequestType, body: seq<Byte>)
    ensures Spaced(RequestHeader(kind) + HexLower(body)) == SpacedHex(RequestFrame(kind, body))
  {
    RequestHeaderIsHex(kind);
    HexLowerConcat([Request.ToValue(kind), 0x00, Request.GetLength(kind)], body);
    SpacedHexLower(RequestFrame(kind, body));
  }

  /** A request frame parses back to its kind, its declared length and its body. */
  lemma RequestFrameParses(kind: Request.RequestType, body: seq<Byte>)
    ensures Request.Parse(RequestFrame(kind, body)) ==
            Wrappers.Ok(Request.RequestPacket(kind, Request.GetLength(kind), body))
  {
    Request.GetByValueToValue(kind);
    assert RequestFrame(kind, body)[3..] == body;
  }

  /** A request frame's wire text: the header's three pairs, a space, then the body's pairs. */
  lemma RequestFrameText(kind: Request.RequestType, body: seq<Byte>)
    requires body != []
    ensures SpacedHex(RequestFrame(kind, body)) ==
            SpacedHex([Request.ToValue(kind), 0x00, Request.GetLength(kind)]) + " " + SpacedHex(body)
  {
    SpacedHexConcat([Request.ToValue(kind), 0x00, Request.GetLength(kind)], body);
  }

  /** The documented example id, 24564, as its four frame bytes and their wire text. */
  lemma ExampleId()
    ensures BE4(24564) == [0x00, 0x00, 0x5F, 0xF4]
    ensures SpacedHex(BE4(24564)) == "00 00 5F F4"
  {
    assert BE4(24564) == [0x00, 0x00, 0x5F, 0xF4];
  }

  /** The status a reply carries. */
  function Status(isError: bool): Response.ResponseType
  {
    if isError then Response.Error else Response.Success
  }

  /** A reply frame: `[kind, status]` followed by the bytes of the client id text. */
  function Reply(kind: Request.RequestType, clientId: string, isError: bool): (r: seq<Byte>)
    ensures |r| >= 2 && r[0] == Request.ToValue(kind)
    ensures r[1] == 0x07 <==> isError
    ensures r[1] == 0x06 <==> !isError
    ensures r[2..] == Utf8.Encode(clientId)
  {
    [Request.ToValue(kind), Response.ToValue(Status(isError))] + Utf8.Encode(clientId)
  }

  /** The text the reply builders format: `{:02x}` kind, `{:02x}` status, upper-case hex of the id. */
  function ReplyText(kind: Request.RequestType, clientId: string, isError: bool): string
  {
    PairLower(Request.ToValue(kind)) + PairLower(Response.ToValue(Status(isError)))
      + HexUpper(Utf8.Encode(clientId))
  }

  lemma ReplyTextIsWire(kind: Request.RequestType, clientId: string, isError: bool)
    ensures Spaced(ReplyText(kind, clientId, isError)) == SpacedHex(Reply(kind, clientId, isError))
  {
    var k := Request.ToValue(kind);
    var s := Response.ToValue(Status(isError));
    var e := Utf8.Encode(clientId);
    UpperPair(k);
    UpperPair(s);
    UpperHexUpper(e);
    UpperConcat(PairLower(k), PairLower(s));
    UpperConcat(PairLower(k) + PairLower(s), HexUpper(e));
    assert HexUpper([k, s]) == PairUpper(k) + PairUpper(s) by {
      assert [k, s][1..][1..] == [];
    }
    HexUpperConcat([k, s], e);
    SpacedHexOfText(ReplyText(kind, clientId, isError), Reply(kind, clientId, isError));
  }

  /** Size of the receive buffer both ends read a datagram into. */
  const BUFFER_SIZE: nat := 64

  /** The part of a datagram a 64-byte buffer holds: a longer one is cut short. */
  function Received(datagram: seq<Byte>): (filled: seq<Byte>)
    ensures |filled| <= BUFFER_SIZE && |filled| <= |datagram| && filled == datagram[..|filled|]
    ensures |datagram| <= BUFFER_SIZE ==> filled == datagram
    ensures |datagram| > BUFFER_SIZE ==> filled == datagram[..BUFFER_SIZE]
  {
    if |datagram| <= BUFFER_SIZE then datagram else datagram[..BUFFER_SIZE]
  }
}
