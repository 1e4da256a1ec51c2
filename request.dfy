/**
 * The request frame: byte 0 is the kind, byte 1 is never read, byte 2 is
 * the declared payload length, and everything from byte 3 on is the
 * payload, whatever the declared length says.
 */
module Request {
  import opened Wrappers
  import opened Bytes
  import NumParse
  import opened Validation

  datatype RequestType = Login | Coordinates | HeartBeat | Logout | Invalid

  /** The kind byte of a request type (its enum discriminant). */
  function ToValue(k: RequestType): Byte
  {
    match k
    case Login => 0x01
    case Coordinates => 0x02
    case HeartBeat => 0x03
    case Logout => 0x04
    case Invalid => 0x00
  }

  /** The length byte the encoders write for each kind. */
  function GetLength(k: RequestType): (n: Byte)
    ensures k == Login ==> n == 0x14
    ensures k == Coordinates || k == HeartBeat ==> n == 0x04
    ensures k == Logout || k == Invalid ==> n == 0x00
  {
    match k
    case Login => 0x14
    case Coordinates => 0x04
    case HeartBeat => 0x04
    case Logout => 0x00
    case Invalid => 0x00
  }

  /** The kind a byte names: 0x01 to 0x04 are the four requests, every other byte is Invalid. */
  function GetByValue(v: Byte): (k: RequestType)
    ensures k == Login <==> v == 0x01
    ensures k == Coordinates <==> v == 0x02
    ensures k == HeartBeat <==> v == 0x03
    ensures k == Logout <==> v == 0x04
    ensures k == Invalid <==> (v == 0x00 || v > 0x04)
  {
    if v == 0x01 then Login
    else if v == 0x02 then Coordinates
    else if v == 0x03 then HeartBeat
    else if v == 0x04 then Logout
    else Invalid
  }

  /** Reading a kind's byte gives the kind back, Invalid included (through 0x00). */
  lemma GetByValueToValue(k: RequestType)
    ensures GetByValue(ToValue(k)) == k
  {
  }

  datatype RequestPacket = RequestPacket(requestType: RequestType, payloadLength: nat, payload: seq<Byte>)

  /**
   * `RequestPacket::parse`. The length byte is rendered in decimal and
   * re-parsed as a `usize`, and the payload is taken with `get(3..)`; both
   * always succeed once byte 2 exists, so the only errors are a missing
   * first byte and a missing length byte.
   */
  function Parse(data: seq<Byte>): (r: Result<RequestPacket, ValidationError>)
    ensures |data| == 0 ==> r == Err(InvalidRequestPacket)
    ensures 1 <= |data| < 3 ==> r == Err(InvalidRequestPacketPayloadLength)
    ensures |data| >= 3 ==> r == Ok(RequestPacket(GetByValue(data[0]), data[2], data[3..]))
    ensures r.Err? ==> r.error != UnableToParseRequestPayloadLength && r.error != InvalidRequestPacketPayload
  {
    if |data| == 0 then Err(InvalidRequestPacket)
    else
      var requestType := GetByValue(data[0]);
      if |data| < 3 then Err(InvalidRequestPacketPayloadLength)
      else
        NumParse.DecimalRoundTrip(data[2], USIZE_MAX);
        match NumParse.ParseUnsigned(NumParse.Decimal(data[2]), 10, USIZE_MAX)
        case Err(_) => Err(UnableToParseRequestPayloadLength)
        case Ok(payloadLength) =>
          if 3 <= |data| then Ok(RequestPacket(requestType, payloadLength, data[3..]))
          else Err(InvalidRequestPacketPayload)
  }

  /** The declared length of a parsed frame is one byte: at most 255. */
  lemma DeclaredLengthFitsByte(data: seq<Byte>)
    requires Parse(data).Ok?
    ensures Parse(data).value.payloadLength <= 255
  {
  }

  /** Byte 1 is never read: frames that differ only there parse identically. */
  lemma ParseIgnoresByteOne(a: seq<Byte>, b: seq<Byte>)
    requires |a| == |b|
    requires forall i :: 0 <= i < |a| && i != 1 ==> a[i] == b[i]
    ensures Parse(a) == Parse(b)
  {
    if |a| >= 3 {
      assert a[3..] == b[3..];
    }
  }
}
