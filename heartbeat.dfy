/**
 * The heartbeat request: its encoder (kind 0x03, declared length 4, the
 * client id as eight hexadecimal digits), the reply builder and the
 * decoder, which reads the client id with the per-byte rule and looks the
 * user up.
 */
module Heartbeat {
  import opened Wrappers
  import opened Bytes
  import opened Payload
  import opened Records
  import opened Validation
  import Request
  import ClientId
  import Wire

  /** What the decoder hands on to the store. */
  datatype HeartbeatData = HeartbeatData(timestamp: Timestamp, id: Option<RecordId>, sourceAddress: string, user: RecordId)

  /** The bytes of a heartbeat frame: `03 00 04` and the id as four big-endian bytes. */
  function Frame(clientId: U32): seq<Byte>
  {
    Wire.RequestFrame(Request.HeartBeat, BE4(clientId))
  }

  /**
   * `Heartbeat::generate_payload`: the wire text of the frame, always seven
   * tokens. `{:08x}` of the id is the lower-case hexadecimal of its four
   * big-endian bytes.
   */
  method GeneratePayload(clientId: U32) returns (r: Result<string, string>)
    ensures r == Ok(SpacedHex(Frame(clientId)))
    ensures |r.value| == 20
  {
    var text := Wire.RequestHeader(Request.HeartBeat) + HexLower(BE4(clientId));
    var spaced := ApplySpacing(text);
    Wire.RequestTextIsWire(Request.HeartBeat, BE4(clientId));
    return Ok(spaced);
  }

  /** The documented example: client 24564 is "03 00 04 00 00 5F F4". */
  lemma ExamplePayload()
    ensures Frame(24564) == [0x03, 0x00, 0x04, 0x00, 0x00, 0x5F, 0xF4]
    ensures SpacedHex(Frame(24564)) == "03 00 04" + " " + "00 00 5F F4"
  {
    Wire.ExampleId();
    Wire.RequestFrameText(Request.HeartBeat, BE4(24564));
    assert SpacedHex([0x03, 0x00, 0x04]) == "03 00 04";
  }

  /**
   * `Heartbeat::generate_response`: `[03, status]` and the bytes of the
   * client id text, with status 0x07 exactly when `isError`.
   */
  method GenerateResponse(clientId: string, isError: bool) returns (r: Result<string, string>)
    ensures r == Ok(SpacedHex(Wire.Reply(Request.HeartBeat, clientId, isError)))
  {
    var spaced := ApplySpacing(Wire.ReplyText(Request.HeartBeat, clientId, isError));
    Wire.ReplyTextIsWire(Request.HeartBeat, clientId, isError);
    return Ok(spaced);
  }

  /**
   * `Heartbeat::parse`. `lookup` is the user store's `get_by_client_id`
   * (opening the store included) and `now` the clock's reading.
   */
  function Parse(sourceAddress: string, payloadLength: nat, data: seq<Byte>,
                 lookup: U32 -> Result<UserData, string>, now: Timestamp): (r: Result<HeartbeatData, string>)
    ensures |data| < payloadLength ==> r == Err(Message(InvalidHeartbeatPayload))
    ensures |data| >= payloadLength && ClientId.Decode(data).None? ==> r == Err(Message(InvalidClientId))
    ensures r.Ok? <==>
      && |data| >= payloadLength
      && ClientId.Decode(data).Some?
      && lookup(ClientId.Decode(data).value).Ok?
      && lookup(ClientId.Decode(data).value).value.id.Some?
    ensures r.Ok? ==>
      r.value == HeartbeatData(now, None, sourceAddress, lookup(ClientId.Decode(data).value).value.id.value)
  {
    if |data| < payloadLength then Err(Message(InvalidHeartbeatPayload))
    else
      match ClientId.Decode(data)
      case None => Err(Message(InvalidClientId))
      case Some(clientId) =>
        match lookup(clientId)
        case Err(e) => Err(e)
        case Ok(userData) =>
          match userData.id
          case Some(userId) => Ok(HeartbeatData(now, None, sourceAddress, userId))
          case None => Err(Message(InvalidUserId))
  }

  /**
   * The store is consulted only after the id is read: the outcome of a
   * frame that is too short or whose id does not read does not depend on it.
   */
  lemma LookupOnlyAfterDecode(sourceAddress: string, payloadLength: nat, data: seq<Byte>,
                              lookup1: U32 -> Result<UserData, string>, lookup2: U32 -> Result<UserData, string>,
                              now: Timestamp)
    requires |data| < payloadLength || ClientId.Decode(data).None?
    ensures Parse(sourceAddress, payloadLength, data, lookup1, now) ==
            Parse(sourceAddress, payloadLength, data, lookup2, now)
  {
  }

  /** A user row without a record id is `InvalidUserId`; a store failure comes back as the store's own text. */
  lemma LookupOutcomes(sourceAddress: string, payloadLength: nat, data: seq<Byte>,
                       lookup: U32 -> Result<UserData, string>, now: Timestamp)
    requires |data| >= payloadLength && ClientId.Decode(data).Some?
    ensures lookup(ClientId.Decode(data).value).Err? ==>
      Parse(sourceAddress, payloadLength, data, lookup, now) == Err(lookup(ClientId.Decode(data).value).error)
    ensures lookup(ClientId.Decode(data).value).Ok? && lookup(ClientId.Decode(data).value).value.id.None? ==>
      Parse(sourceAddress, payloadLength, data, lookup, now) == Err(Message(InvalidUserId))
  {
  }

  /**
   * A frame built by the encoder, read back through the frame parser and
   * this decoder: the store is asked for the per-byte reading of the id's
   * four bytes, which is the id itself exactly when the bytes are
   * unambiguous (every byte after the first non-zero one is at least 0x10).
   */
  lemma FrameRoundTrip(clientId: U32)
    ensures var packet := Request.Parse(Frame(clientId));
      && packet == Ok(Request.RequestPacket(Request.HeartBeat, 4, BE4(clientId)))
      && ClientId.Decode(packet.value.payload).Some?
      && (ClientId.Decode(packet.value.payload).value == clientId <==> ClientId.Unambiguous(BE4(clientId)))
  {
    Wire.RequestFrameParses(Request.HeartBeat, BE4(clientId));
    ClientId.DecodeFourBytes(BE4(clientId));
    ClientId.DecodeBigEndianFrame(clientId);
  }

  /** Client 256 is sent as `03 00 04 00 00 01 00` and looked up as client 16. */
  lemma SendsWrongClient(sourceAddress: string, lookup: U32 -> Result<UserData, string>, now: Timestamp)
    ensures Request.Parse(Frame(256)).value.payload == [0, 0, 1, 0]
    ensures Parse(sourceAddress, 4, Request.Parse(Frame(256)).value.payload, lookup, now) ==
            Parse(sourceAddress, 4, BE4(16), lookup, now)
  {
    Wire.RequestFrameParses(Request.HeartBeat, BE4(256));
    ClientId.RoundTripFailsFor256();
    assert BE4(16) == [0, 0, 0, 16];
    ClientId.DecodeFourBytes(BE4(16));
    ClientId.DecodeBigEndianFrame(16);
    assert ClientId.Unambiguous(BE4(16));
  }
}
