/**
 * The logout request: its encoder (kind 0x04, declared length 0, the
 * client id as eight hexadecimal digits), the reply builder and the
 * decoder, which rejects any payload longer than the declared length.
 */
module Logout {
  import opened Wrappers
  import opened Bytes
  import opened Payload
  import opened Validation
  import Request
  import ClientId
  import Wire

  /** The bytes of a logout frame: `04 00 00` and the id as four big-endian bytes. */
  function Frame(clientId: U32): seq<Byte>
  {
    Wire.RequestFrame(Request.Logout, BE4(clientId))
  }

  /** `Logout::generate_payload`: the wire text of the frame, whose length byte is 0. */
  method GeneratePayload(clientId: U32) returns (r: Result<string, string>)
    ensures r == Ok(SpacedHex(Frame(clientId)))
    ensures |r.value| == 20
  {
    var text := Wire.RequestHeader(Request.Logout) + HexLower(BE4(clientId));
    var spaced := ApplySpacing(text);
    Wire.RequestTextIsWire(Request.Logout, BE4(clientId));
    return Ok(spaced);
  }

  /** `Logout::generate_response`: `[04, status]` and the bytes of the client id text. */
  method GenerateResponse(clientId: string, isError: bool) returns (r: Result<string, string>)
    ensures r == Ok(SpacedHex(Wire.Reply(Request.Logout, clientId, isError)))
  {
    var spaced := ApplySpacing(Wire.ReplyText(Request.Logout, clientId, isError));
    Wire.ReplyTextIsWire(Request.Logout, clientId, isError);
    return Ok(spaced);
  }

  /**
   * `Logout::parse`: more bytes than declared is `InvalidLogoutPayload`;
   * otherwise the per-byte reading of the id, or `InvalidClientId` when the
   * payload is empty or reads past `u32::MAX`. It consults no store.
   */
  function Parse(payloadLength: nat, data: seq<Byte>): (r: Result<U32, string>)
    ensures r.Ok? <==> |data| <= payloadLength && data != [] && ClientId.PerByteValue(data) <= U32_MAX
    ensures r.Ok? ==> r.value == ClientId.PerByteValue(data)
    ensures r.Err? ==> r.error == Message(if |data| > payloadLength then InvalidLogoutPayload else InvalidClientId)
  {
    if |data| > payloadLength then Err(Message(InvalidLogoutPayload))
    else
      match ClientId.Decode(data)
      case Some(clientId) => Ok(clientId)
      case None => Err(Message(InvalidClientId))
  }

  /**
   * With the declared length 0 the decoder never succeeds: a non-empty
   * payload is too long and an empty one has no digits.
   */
  lemma ZeroLengthNeverParses(data: seq<Byte>)
    ensures Parse(0, data).Err?
    ensures Parse(0, data) == Err(if data == [] then Message(InvalidClientId) else Message(InvalidLogoutPayload))
  {
  }

  /** So every frame the encoder builds is rejected once it reaches the decoder. */
  lemma GeneratedFrameRejected(clientId: U32)
    ensures Request.Parse(Frame(clientId)) == Ok(Request.RequestPacket(Request.Logout, 0, BE4(clientId)))
    ensures Parse(0, BE4(clientId)) == Err(Message(InvalidLogoutPayload))
  {
    Wire.RequestFrameParses(Request.Logout, BE4(clientId));
  }

  /** The frame the test expects, `04 00 04 00 00 5F F4`, and its wire text. */
  lemma ExpectedText()
    ensures SpacedHex([0x04, 0x00, 0x04, 0x00, 0x00, 0x5F, 0xF4]) == "04 00 04" + " " + "00 00 5F F4"
  {
    Wire.ExampleId();
    SpacedHexConcat([0x04, 0x00, 0x04], [0x00, 0x00, 0x5F, 0xF4]);
    assert SpacedHex([0x04, 0x00, 0x04]) == "04 00 04";
    assert [0x04, 0x00, 0x04] + [0x00, 0x00, 0x5F, 0xF4] == [0x04, 0x00, 0x04, 0x00, 0x00, 0x5F, 0xF4];
  }

  /** The encoder's text for client 24564: "04 00 00 00 00 5F F4". */
  lemma ExampleText()
    ensures SpacedHex(Frame(24564)) == "04 00 00" + " " + "00 00 5F F4"
  {
    Wire.ExampleId();
    Wire.RequestFrameText(Request.Logout, BE4(24564));
    assert SpacedHex([0x04, 0x00, 0x00]) == "04 00 00";
  }

  /** That text is not the "04 00 04 00 00 5F F4" the encoder's test expects. */
  lemma ExampleMismatch()
    ensures SpacedHex(Frame(24564)) != "04 00 04" + " " + "00 00 5F F4"
  {
    ExpectedText();
    SpacedHexRoundTrip(Frame(24564));
    SpacedHexRoundTrip([0x04, 0x00, 0x04, 0x00, 0x00, 0x5F, 0xF4]);
    assert Frame(24564)[2] == 0x00;
  }

  /** The text the test expects reads back as the frame `04 00 04 00 00 5F F4`. */
  lemma ExpectedFrameBytes()
    ensures SpacedHexDecode("04 00 04" + " " + "00 00 5F F4") == Some([0x04, 0x00, 0x04, 0x00, 0x00, 0x5F, 0xF4])
  {
    ExpectedText();
    SpacedHexRoundTrip([0x04, 0x00, 0x04, 0x00, 0x00, 0x5F, 0xF4]);
  }

  /** That frame's payload is accepted with its declared length 4, and rejected with the length 0 the encoder declares. */
  lemma ExpectedFrameAccepted()
    ensures Parse(4, [0x00, 0x00, 0x5F, 0xF4]) == Ok(24564)
    ensures Parse(0, [0x00, 0x00, 0x5F, 0xF4]) == Err(Message(InvalidLogoutPayload))
  {
    ClientId.DecodeExample();
  }
}
