/**
 * The coordinates request: its encoder (kind 0x02, declared length 4, the
 * client id, then the latitude's and the longitude's eight bytes), the
 * reply builder and the decoder, which checks the payload piece by piece
 * and fills in a record as it goes.
 */
module Coordinates {
  import opened Wrappers
  import opened Bytes
  import opened Payload
  import opened Records
  import opened Validation
  import Request
  import ClientId
  import Wire

  /** What the decoder hands on to the store. */
  datatype CoordinatesData = CoordinatesData(user: RecordId, latitude: F64, longitude: F64, timestamp: Timestamp)

  const LATITUDE_HEX_ERROR: string := "unable to parse latitude and convert to hex"
  const LONGITUDE_HEX_ERROR: string := "unable to parse longtitude and convert to hex"
  /** The decoder's own text for a user row without a record id (not a `ValidationError`). */
  const INVALID_USER_ID: string := "invalid user id"

  /** The bytes of a coordinates frame: `02 00 04`, the id's four bytes, then both coordinates' bytes. */
  function Frame(clientId: U32, latitude: seq<Byte>, longitude: seq<Byte>): seq<Byte>
  {
    Wire.RequestFrame(Request.Coordinates, BE4(clientId) + latitude + longitude)
  }

  /**
   * `Coordinates::generate_payload`. `toHex` is `IEEE754::to_64bit_hex`,
   * given as the bytes whose hexadecimal it writes, or None when it fails.
   */
  method GeneratePayload(clientId: U32, latitude: F64, longitude: F64, toHex: F64 -> Option<seq<Byte>>)
    returns (r: Result<string, string>)
    ensures toHex(latitude).None? ==> r == Err(LATITUDE_HEX_ERROR)
    ensures toHex(latitude).Some? && toHex(longitude).None? ==> r == Err(LONGITUDE_HEX_ERROR)
    ensures toHex(latitude).Some? && toHex(longitude).Some? ==>
            r == Ok(SpacedHex(Frame(clientId, toHex(latitude).value, toHex(longitude).value)))
  {
    var latitudeHex := toHex(latitude);
    if latitudeHex.None? {
      return Err(LATITUDE_HEX_ERROR);
    }
    var longitudeHex := toHex(longitude);
    if longitudeHex.None? {
      return Err(LONGITUDE_HEX_ERROR);
    }
    var text := Wire.RequestHeader(Request.Coordinates)
      + HexLower(BE4(clientId)) + HexLower(latitudeHex.value) + HexLower(longitudeHex.value);
    var spaced := ApplySpacing(text);
    PayloadTextIsWire(clientId, latitudeHex.value, longitudeHex.value);
    return Ok(spaced);
  }

  lemma HexLowerThree(a: seq<Byte>, b: seq<Byte>, c: seq<Byte>)
    ensures HexLower(a) + HexLower(b) + HexLower(c) == HexLower(a + b + c)
  {
    HexLowerConcat(a, b);
    HexLowerConcat(a + b, c);
  }

  lemma PayloadTextIsWire(clientId: U32, latitude: seq<Byte>, longitude: seq<Byte>)
    ensures Spaced(Wire.RequestHeader(Request.Coordinates)
                   + HexLower(BE4(clientId)) + HexLower(latitude) + HexLower(longitude))
            == SpacedHex(Frame(clientId, latitude, longitude))
  {
    var id := BE4(clientId);
    var h := Wire.RequestHeader(Request.Coordinates);
    var t := HexLower(id) + HexLower(latitude) + HexLower(longitude);
    HexLowerThree(id, latitude, longitude);
    assert h + HexLower(id) + HexLower(latitude) + HexLower(longitude) == h + t;
    assert t == HexLower(id + latitude + longitude);
    Wire.RequestTextIsWire(Request.Coordinates, id + latitude + longitude);
    assert Frame(clientId, latitude, longitude) == Wire.RequestFrame(Request.Coordinates, id + latitude + longitude);
  }

  /** The length byte says 4 while twenty payload bytes follow. */
  lemma DeclaredLengthDisagrees(clientId: U32, latitude: seq<Byte>, longitude: seq<Byte>)
    requires |latitude| == 8 && |longitude| == 8
    ensures Frame(clientId, latitude, longitude)[2] == 4
    ensures |Frame(clientId, latitude, longitude)[3..]| == 20
  {
  }

  /**
   * The test's frame for client 24564 at 10.00001, -127.000001, given the
   * eight bytes the test expects for each coordinate.
   */
  lemma ExampleFrame()
    ensures Frame(24564, [0x40, 0x24, 0x00, 0x01, 0x4F, 0x8B, 0x58, 0x8E],
                         [0xC0, 0x5F, 0xC0, 0x00, 0x04, 0x31, 0xBD, 0xE8]) ==
      [0x02, 0x00, 0x04, 0x00, 0x00, 0x5F, 0xF4, 0x40, 0x24, 0x00, 0x01, 0x4F, 0x8B, 0x58, 0x8E,
       0xC0, 0x5F, 0xC0, 0x00, 0x04, 0x31, 0xBD, 0xE8]
  {
    assert BE4(24564) == [0x00, 0x00, 0x5F, 0xF4];
  }

  /** `Coordinates::generate_response`: `[02, status]` and the bytes of the client id text. */
  method GenerateResponse(clientId: string, isError: bool) returns (r: Result<string, string>)
    ensures r == Ok(SpacedHex(Wire.Reply(Request.Coordinates, clientId, isError)))
  {
    var spaced := ApplySpacing(Wire.ReplyText(Request.Coordinates, clientId, isError));
    Wire.ReplyTextIsWire(Request.Coordinates, clientId, isError);
    return Ok(spaced);
  }

  /**
   * What `Coordinates::parse` returns, check by check: the length, the id's
   * four bytes, the user row, the latitude's bytes [4, 12), the longitude's
   * bytes [12, 20). `lookup` is `get_by_client_id` (opening the store
   * included), `toFloat` is `IEEE754::to_64bit_float` and `now` the clock.
   */
  function ParseSpec(payloadLength: nat, data: seq<Byte>, lookup: U32 -> Result<UserData, string>,
                     toFloat: seq<Byte> -> Option<F64>, now: Timestamp): Result<CoordinatesData, string>
  {
    if |data| < payloadLength then Err(Message(InvalidCoordinatesPayload))
    else if |data| < 4 then Err(Message(ClientIdEmpty))
    else if ClientId.Decode(data[..4]).None? then Err(Message(InvalidClientId))
    else
      var user := lookup(ClientId.Decode(data[..4]).value);
      if user.Err? then Err(user.error)
      else if user.value.id.None? then Err(INVALID_USER_ID)
      else if |data| < 12 then Err(Message(InvalidLatitude))
      else if toFloat(data[4..12]).None? then Err(Message(UnableToParseLatitude))
      else if |data| < 20 then Err(Message(InvalidLongitude))
      else if toFloat(data[12..20]).None? then Err(Message(UnableToParseLongitude))
      else Ok(CoordinatesData(user.value.id.value, toFloat(data[4..12]).value, toFloat(data[12..20]).value, now))
  }

  /** `Coordinates::parse`: the record starts at 0.0, 0.0 and each coordinate is stored once read. */
  method Parse(payloadLength: nat, data: seq<Byte>, lookup: U32 -> Result<UserData, string>,
               toFloat: seq<Byte> -> Option<F64>, now: Timestamp) returns (r: Result<CoordinatesData, string>)
    ensures r == ParseSpec(payloadLength, data, lookup, toFloat, now)
  {
    if |data| < payloadLength {
      return Err(Message(InvalidCoordinatesPayload));
    }
    if |data| < 4 {
      return Err(Message(ClientIdEmpty));
    }
    var clientId := ClientId.Decode(data[0..4]);
    if clientId.None? {
      return Err(Message(InvalidClientId));
    }
    var userData := lookup(clientId.value);
    if userData.Err? {
      return Err(userData.error);
    }
    if userData.value.id.None? {
      return Err(INVALID_USER_ID);
    }
    var coordinatesData := CoordinatesData(userData.value.id.value, 0, 0, now);
    if |data| < 12 {
      return Err(Message(InvalidLatitude));
    }
    var latitude := toFloat(data[4..12]);
    if latitude.None? {
      return Err(Message(UnableToParseLatitude));
    }
    coordinatesData := coordinatesData.(latitude := latitude.value);
    if |data| < 20 {
      return Err(Message(InvalidLongitude));
    }
    var longitude := toFloat(data[12..20]);
    if longitude.None? {
      return Err(Message(UnableToParseLongitude));
    }
    coordinatesData := coordinatesData.(longitude := longitude.value);
    return Ok(coordinatesData);
  }

  /** Four bytes always read as an id, so the `InvalidClientId` check never fires. */
  lemma ClientIdAlwaysReads(payloadLength: nat, data: seq<Byte>, lookup: U32 -> Result<UserData, string>,
                            toFloat: seq<Byte> -> Option<F64>, now: Timestamp)
    requires |data| >= payloadLength && |data| >= 4
    ensures ClientId.Decode(data[..4]).Some?
    ensures ParseSpec(payloadLength, data, lookup, toFloat, now) == Err(Message(InvalidClientId)) ==>
            lookup(ClientId.Decode(data[..4]).value) == Err(Message(InvalidClientId))
  {
    ClientId.DecodeFourBytes(data[..4]);
  }

  /**
   * `ClientIdEmpty` is the decoder's own answer exactly for a payload of the
   * declared length with fewer than four bytes; with four or more it can
   * only be the store's error passed through.
   */
  lemma ShortIdIsEmpty(payloadLength: nat, data: seq<Byte>, lookup: U32 -> Result<UserData, string>,
                       toFloat: seq<Byte> -> Option<F64>, now: Timestamp)
    ensures payloadLength <= |data| < 4 ==> ParseSpec(payloadLength, data, lookup, toFloat, now) == Err(Message(ClientIdEmpty))
    ensures |data| < payloadLength ==> ParseSpec(payloadLength, data, lookup, toFloat, now) != Err(Message(ClientIdEmpty))
    ensures |data| >= 4 && ParseSpec(payloadLength, data, lookup, toFloat, now) == Err(Message(ClientIdEmpty)) ==>
            lookup(ClientId.Decode(data[..4]).value) == Err(Message(ClientIdEmpty))
  {
    assert Message(InvalidCoordinatesPayload) != Message(ClientIdEmpty) by {
      Validation.MessageNamesError(InvalidCoordinatesPayload);
      Validation.MessageNamesError(ClientIdEmpty);
    }
    if payloadLength <= |data| && |data| >= 4 {
      ClientId.DecodeFourBytes(data[..4]);
      var user := lookup(ClientId.Decode(data[..4]).value);
      if user.Ok? {
        // Every later check reports a message other than `ClientIdEmpty`.
        forall e | e in {InvalidLatitude, UnableToParseLatitude, InvalidLongitude, UnableToParseLongitude}
          ensures Message(e) != Message(ClientIdEmpty)
        {
          Validation.MessageNamesError(e);
          Validation.MessageNamesError(ClientIdEmpty);
        }
      }
    }
  }

  /**
   * The user row is checked before the coordinates are: a payload too short
   * for them, from an unknown user, reports the store's error.
   */
  lemma LookupBeforeCoordinates(payloadLength: nat, data: seq<Byte>, lookup: U32 -> Result<UserData, string>,
                                toFloat: seq<Byte> -> Option<F64>, now: Timestamp)
    requires payloadLength <= |data| && 4 <= |data| < 20
    ensures ClientId.Decode(data[..4]).Some?
    ensures lookup(ClientId.Decode(data[..4]).value).Err? ==>
            ParseSpec(payloadLength, data, lookup, toFloat, now) == Err(lookup(ClientId.Decode(data[..4]).value).error)
    ensures lookup(ClientId.Decode(data[..4]).value).Ok? && lookup(ClientId.Decode(data[..4]).value).value.id.Some? ==>
            ParseSpec(payloadLength, data, lookup, toFloat, now).Err?
  {
    ClientId.DecodeFourBytes(data[..4]);
  }

  /** Bytes from index 20 on are never read. */
  lemma IgnoresTail(payloadLength: nat, a: seq<Byte>, b: seq<Byte>, lookup: U32 -> Result<UserData, string>,
                    toFloat: seq<Byte> -> Option<F64>, now: Timestamp)
    requires |a| >= 20 && |b| >= 20 && a[..20] == b[..20]
    requires |a| >= payloadLength && |b| >= payloadLength
    ensures ParseSpec(payloadLength, a, lookup, toFloat, now) == ParseSpec(payloadLength, b, lookup, toFloat, now)
  {
    assert a[..4] == a[..20][..4] && b[..4] == b[..20][..4];
    assert a[4..12] == a[..20][4..12] && b[4..12] == b[..20][4..12];
    assert a[12..20] == a[..20][12..20] && b[12..20] == b[..20][12..20];
  }

  /**
   * A frame built by the encoder, read back through the frame parser and
   * this decoder: the coordinates come back as the float decoder reads
   * their bytes, and the store is asked for the per-byte reading of the
   * id, which is the id itself exactly when its bytes are unambiguous.
   */
  lemma FrameRoundTrip(clientId: U32, latitude: seq<Byte>, longitude: seq<Byte>,
                       lookup: U32 -> Result<UserData, string>, toFloat: seq<Byte> -> Option<F64>, now: Timestamp)
    requires |latitude| == 8 && |longitude| == 8
    requires toFloat(latitude).Some? && toFloat(longitude).Some?
    ensures var packet := Request.Parse(Frame(clientId, latitude, longitude));
      && packet == Ok(Request.RequestPacket(Request.Coordinates, 4, BE4(clientId) + latitude + longitude))
      && ClientId.Decode(BE4(clientId)).Some?
      && (ClientId.Decode(BE4(clientId)).value == clientId <==> ClientId.Unambiguous(BE4(clientId)))
      && var user := lookup(ClientId.Decode(BE4(clientId)).value);
      && (user.Ok? && user.value.id.Some? ==>
           ParseSpec(4, packet.value.payload, lookup, toFloat, now) ==
           Ok(CoordinatesData(user.value.id.value, toFloat(latitude).value, toFloat(longitude).value, now)))
  {
    var body := BE4(clientId) + latitude + longitude;
    Wire.RequestFrameParses(Request.Coordinates, body);
    ClientId.DecodeFourBytes(BE4(clientId));
    ClientId.DecodeBigEndianFrame(clientId);
    assert body[..4] == BE4(clientId);
    assert body[4..12] == latitude;
    assert body[12..20] == longitude;
  }
}
