/**
 * The client's side of a reply: the status check, the conversion of the
 * client id text, and how `simulate` reads the reply datagram it receives
 * after sending a request.
 */
module Client {
  import opened Wrappers
  import opened Bytes
  import opened NumParse
  import Utf8
  import Request
  import Response
  import Wire

  /** `check_response_status`: the error status 0x07 fails with "ERROR: " and the given text. */
  function CheckResponseStatus(status: Byte, errorMessage: string): (r: Result<(), string>)
    ensures r.Err? <==> status == Response.ToValue(Response.Error)
    ensures r.Err? ==> r.error == "ERROR: " + errorMessage
  {
    if status == Response.ToValue(Response.Error) then Err("ERROR: " + errorMessage) else Ok(())
  }

  /** The `Debug` text of a `ParseIntError`'s kind. */
  function KindName(kind: IntErrorKind): string
  {
    match kind
    case Empty => "Empty"
    case InvalidDigit => "InvalidDigit"
    case PosOverflow => "PosOverflow"
  }

  /**
   * `client_id_to_u32`: no text is "invalid client id"; text is accepted
   * exactly when it is decimal digits, after an optional `+`, whose value
   * fits a `u32`, and a failure is reported with the `Debug` form of the
   * parse error.
   */
  function ClientIdToU32(value: Option<string>): (r: Result<U32, string>)
    ensures value.None? ==> r == Err("invalid client id")
    ensures r.Ok? <==> value.Some? && Unsigned(value.value) != [] && AllDigits(Unsigned(value.value), 10)
                       && Horner(0, Unsigned(value.value), 10) <= U32_MAX
    ensures r.Ok? ==> r.value == Horner(0, Unsigned(value.value), 10)
    ensures value.Some? && ParseUnsigned(value.value, 10, U32_MAX).Err? ==>
            r == Err("unable to parse client id, reason: ParseIntError { kind: "
                     + KindName(ParseUnsigned(value.value, 10, U32_MAX).error) + " }")
  {
    match value
    case None => Err("invalid client id")
    case Some(clientId) =>
      match ParseUnsigned(clientId, 10, U32_MAX)
      case Ok(n) =>
        ParseUnsignedValue(clientId, 10, U32_MAX);
        Ok(n as U32)
      case Err(kind) =>
        ParseUnsignedValue(clientId, 10, U32_MAX);
        Err("unable to parse client id, reason: ParseIntError { kind: " + KindName(kind) + " }")
  }

  /** Every client id's decimal text converts back to the id. */
  lemma ClientIdRoundTrip(n: U32)
    ensures ClientIdToU32(Some(Decimal(n))) == Ok(n)
  {
    DecimalRoundTrip(n, U32_MAX);
  }

  /**
   * The reply-reading part of `simulate`: an Invalid request kind is "nothing
   * to do" before anything is received; otherwise the received bytes are
   * read: none is "nothing is received"; from two bytes on the status is
   * checked; one byte is "invalid client id"; the rest is the id's text,
   * decoded leniently. The kind byte of the reply is never looked at.
   */
  function ReadReply(requestType: Request.RequestType, datagram: seq<Byte>): (r: Result<string, string>)
    ensures requestType == Request.Invalid ==> r == Err("nothing to do")
    ensures requestType != Request.Invalid ==>
      var filled := Wire.Received(datagram);
      && (|filled| == 0 ==> r == Err("nothing is received"))
      && (|filled| == 1 ==> r == Err("invalid client id"))
      && (|filled| >= 2 && filled[1] == 0x07 ==> r == Err("ERROR: login failed"))
      && (|filled| >= 2 && filled[1] != 0x07 ==> r == Ok(Utf8.Lossy(filled[2..])))
  {
    if requestType == Request.Invalid then Err("nothing to do")
    else
      var filled := Wire.Received(datagram);
      if |filled| > 0 then
        var status := if |filled| > 1 then CheckResponseStatus(filled[1], "login failed") else Ok(());
        assert "ERROR: " + "login failed" == "ERROR: login failed";
        if status.Err? then Err(status.error)
        else if |filled| >= 2 then Ok(Utf8.Lossy(filled[2..]))
        else Err("invalid client id")
      else Err("nothing is received")
  }

  /** The reply's first byte is never compared with the request's kind. */
  lemma KindByteIgnored(requestType: Request.RequestType, a: seq<Byte>, b: seq<Byte>)
    requires |a| == |b| && a != [] && a[1..] == b[1..]
    ensures ReadReply(requestType, a) == ReadReply(requestType, b)
  {
    if |a| > 64 {
      assert a[..64][1..] == a[1..][..63] == b[1..][..63] == b[..64][1..];
    }
    if |a| >= 2 {
      assert a[1] == a[1..][0] == b[1..][0] == b[1];
      var fa := Wire.Received(a);
      var fb := Wire.Received(b);
      assert fa[2..] == fb[2..] by {
        assert fa[2..] == a[1..][1..|fa| - 1];
        assert fb[2..] == b[1..][1..|fb| - 1];
      }
    }
  }

  /**
   * Round trip with the server: a success reply carrying a client id's
   * decimal text is read back as that text and converts to the id; an
   * error reply is "ERROR: login failed".
   */
  lemma ReplyRoundTrip(requestType: Request.RequestType, kind: Request.RequestType, n: U32, isError: bool)
    requires requestType != Request.Invalid
    ensures !isError ==> ReadReply(requestType, Wire.Reply(kind, Decimal(n), isError)) == Ok(Decimal(n))
    ensures isError ==> ReadReply(requestType, Wire.Reply(kind, Decimal(n), isError)) == Err("ERROR: login failed")
    ensures !isError ==> ClientIdToU32(Some(Decimal(n))) == Ok(n)
  {
    var text := Decimal(n);
    assert Pow10(10) == 10000000000;
    DecimalLength(n, 10);
    forall i | 0 <= i < |text| ensures text[i] as int < 0x80 {
    }
    Utf8.EncodeAscii(text);
    Utf8.DecodeEncode(text);
    ClientIdRoundTrip(n);
  }
}
