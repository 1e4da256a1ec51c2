/**
 * The first server binary: the same frame layout, decoded with `unwrap`
 * and `panic!` instead of errors, printing what it read and never
 * replying. Any malformed datagram ends the process.
 */
module Legacy {
  import opened Wrappers
  import opened Bytes
  import opened Records
  import Utf8
  import Validation
  import Request
  import Wire
  import ClientId
  import Login
  import Heartbeat
  import Logout
  import Coordinates
  import Server

  /** What the binary decodes from one datagram (and prints). */
  datatype Decoded =
    | LoginDecoded(credentials: Login.Credentials)
    | HeartbeatDecoded(clientId: U32)
    | LogoutDecoded(clientId: U32)
    | CoordinatesDecoded(clientId: U32, latitude: F64, longitude: F64)

  /**
   * `RequestPacket::parse`: `get(0)`, `get(2)` and the decimal round trip
   * of byte 2 are unwrapped; only a frame shorter than three bytes panics,
   * and otherwise it agrees with the library's frame parser.
   */
  function ParsePacket(data: seq<Byte>): (r: Outcome<Request.RequestPacket>)
    ensures r.Panicked? <==> |data| < 3
    ensures r.Returned? ==> Request.Parse(data) == Ok(r.value)
  {
    if |data| < 3 then Panicked
    else Returned(Request.RequestPacket(Request.GetByValue(data[0]), data[2], data[3..]))
  }

  /**
   * `LoginData::parse`: the same split as the library's decoder, but a
   * short payload panics instead of being an error, as does a half that is
   * not UTF-8.
   */
  function LoginParse(payloadLength: nat, c: seq<Byte>): (r: Outcome<Login.Credentials>)
    ensures r.Returned? <==> Login.ParseSpec(payloadLength, c).Returned? && Login.ParseSpec(payloadLength, c).value.Ok?
    ensures r.Returned? ==> Login.ParseSpec(payloadLength, c) == Returned(Ok(r.value))
  {
    if |c| < payloadLength then Panicked
    else
      match (Utf8.FromUtf8(Login.UsernameBytes(c)), Utf8.FromUtf8(Login.PasswordBytes(c)))
      case (Some(username), Some(password)) => Returned(Login.Credentials(username, password))
      case _ => Panicked
  }

  /**
   * `HeartBeatData::parse` and `LogoutData::parse`, which are the same
   * code: more bytes than declared panics, and so does a payload whose
   * per-byte reading is not a u32 (the empty one included).
   */
  function ClientIdParse(payloadLength: nat, data: seq<Byte>): (r: Outcome<U32>)
    ensures r.Panicked? <==> |data| > payloadLength || data == [] || ClientId.PerByteValue(data) > U32_MAX
    ensures r.Returned? ==> r.value == ClientId.PerByteValue(data)
  {
    if |data| > payloadLength then Panicked
    else
      match ClientId.Decode(data)
      case None => Panicked
      case Some(clientId) => Returned(clientId)
  }

  /**
   * `CoordinatesData::parse`: a payload shorter than declared, or shorter
   * than the twenty bytes it slices, panics, as does a coordinate whose
   * eight bytes do not convert. The id's four bytes always read.
   */
  function CoordinatesParse(payloadLength: nat, data: seq<Byte>, toFloat: seq<Byte> -> Option<F64>): (r: Outcome<Decoded>)
    ensures r.Returned? <==>
      |data| >= payloadLength && |data| >= 20 && toFloat(data[4..12]).Some? && toFloat(data[12..20]).Some?
    ensures r.Returned? ==> r.value.CoordinatesDecoded? && r.value.clientId == ClientId.PerByteValue(data[..4])
    ensures r.Returned? ==> r.value.latitude == toFloat(data[4..12]).value && r.value.longitude == toFloat(data[12..20]).value
  {
    if |data| < payloadLength || |data| < 4 then Panicked
    else
      ClientId.DecodeFourBytes(data[..4]);
      match ClientId.Decode(data[..4])
      case None => assert false; Panicked
      case Some(clientId) =>
        if |data| < 20 then Panicked
        else
          match (toFloat(data[4..12]), toFloat(data[12..20]))
          case (Some(latitude), Some(longitude)) => Returned(CoordinatesDecoded(clientId, latitude, longitude))
          case _ => Panicked
  }

  /** One pass of the loop: the 64-byte buffer, the frame, and the kind's decoder; an unknown kind panics. */
  function Step(datagram: seq<Byte>, toFloat: seq<Byte> -> Option<F64>): Outcome<Decoded>
  {
    match ParsePacket(Wire.Received(datagram))
    case Panicked => Panicked
    case Returned(packet) =>
      match packet.requestType
      case Login =>
        (match LoginParse(packet.payloadLength, packet.payload)
         case Panicked => Panicked
         case Returned(credentials) => Returned(LoginDecoded(credentials)))
      case HeartBeat =>
        (match ClientIdParse(packet.payloadLength, packet.payload)
         case Panicked => Panicked
         case Returned(clientId) => Returned(HeartbeatDecoded(clientId)))
      case Logout =>
        (match ClientIdParse(packet.payloadLength, packet.payload)
         case Panicked => Panicked
         case Returned(clientId) => Returned(LogoutDecoded(clientId)))
      case Coordinates => CoordinatesParse(packet.payloadLength, packet.payload, toFloat)
      case Invalid => Panicked
  }

  /** What the binary prints before it stops or the datagrams run out. */
  datatype Log = Log(decoded: seq<Decoded>, panicked: bool)

  /**
   * The loop over the datagrams in the order received, each handled by
   * `step`: every datagram before the first one that panics is decoded,
   * and nothing after it is read.
   */
  function Served(step: seq<Byte> -> Outcome<Decoded>, datagrams: seq<seq<Byte>>): (r: Log)
    ensures |r.decoded| <= |datagrams|
    ensures forall i :: 0 <= i < |r.decoded| ==> step(datagrams[i]) == Returned(r.decoded[i])
    ensures r.panicked <==> |r.decoded| < |datagrams|
    ensures r.panicked ==> step(datagrams[|r.decoded|]).Panicked?
  {
    if datagrams == [] then Log([], false)
    else
      var t := |datagrams| - 1;
      var before := Served(step, datagrams[..t]);
      if before.panicked then before
      else
        match step(datagrams[t])
        case Panicked => Log(before.decoded, true)
        case Returned(d) => Log(before.decoded + [d], false)
  }

  /** `main`'s loop over a finite run of datagrams. */
  method Serve(datagrams: seq<seq<Byte>>, toFloat: seq<Byte> -> Option<F64>) returns (decoded: seq<Decoded>, panicked: bool)
    ensures Log(decoded, panicked) == Served(d => Step(d, toFloat), datagrams)
  {
    ghost var step := (d: seq<Byte>) => Step(d, toFloat);
    decoded := [];
    panicked := false;
    var t := 0;
    while t < |datagrams|
      invariant 0 <= t <= |datagrams|
      invariant Log(decoded, false) == Served(step, datagrams[..t])
    {
      assert datagrams[..t + 1][..t] == datagrams[..t];
      var outcome := Step(datagrams[t], toFloat);
      assert outcome == step(datagrams[t]);
      match outcome {
        case Panicked =>
          panicked := true;
          ServedStops(step, datagrams, t + 1);
          return;
        case Returned(d) =>
          decoded := decoded + [d];
      }
      t := t + 1;
    }
    assert datagrams[..t] == datagrams;
  }

  /** Once a datagram has panicked, later datagrams change nothing. */
  lemma {:induction false} ServedStops(step: seq<Byte> -> Outcome<Decoded>, datagrams: seq<seq<Byte>>, i: nat)
    requires i <= |datagrams|
    requires Served(step, datagrams[..i]).panicked
    ensures Served(step, datagrams) == Served(step, datagrams[..i])
  {
    if i < |datagrams| {
      var t := |datagrams| - 1;
      assert datagrams[..t][..i] == datagrams[..i];
      ServedStops(step, datagrams[..t], i);
    } else {
      assert datagrams[..i] == datagrams;
    }
  }

  // ------------------------------------------------ against the library server

  /** What the library server skips without a word, this binary panics on. */
  lemma PanicsWhereServerSkips(env: Server.Env, t: nat, datagram: seq<Byte>, toFloat: seq<Byte> -> Option<F64>)
    requires |datagram| < 3 || Request.GetByValue(datagram[0]) == Request.Invalid
    ensures Step(datagram, toFloat) == Panicked
    ensures Server.Dispatch(env, t, datagram) == Server.Continue(None)
  {
  }

  /**
   * The two decoders check the heartbeat's declared length in opposite
   * directions: a payload shorter than declared is read here and refused
   * by the library, a longer one panics here and passes the library's check.
   */
  lemma HeartbeatLengthChecksOpposite(sourceAddress: string, payloadLength: nat, data: seq<Byte>,
                                      lookup: U32 -> Result<UserData, string>, now: Timestamp)
    requires ClientId.Decode(data).Some?
    ensures |data| < payloadLength ==>
      && ClientIdParse(payloadLength, data) == Returned(ClientId.Decode(data).value)
      && Heartbeat.Parse(sourceAddress, payloadLength, data, lookup, now) == Err(Validation.Message(Validation.InvalidHeartbeatPayload))
    ensures |data| > payloadLength ==>
      && ClientIdParse(payloadLength, data) == Panicked
      && (Heartbeat.Parse(sourceAddress, payloadLength, data, lookup, now).Ok? <==>
          lookup(ClientId.Decode(data).value).Ok? && lookup(ClientId.Decode(data).value).value.id.Some?)
  {
  }

  /** The logout decoders agree: every library error is a panic here. */
  lemma LogoutAgrees(payloadLength: nat, data: seq<Byte>)
    ensures ClientIdParse(payloadLength, data) ==
      match Logout.Parse(payloadLength, data) case Ok(n) => Returned(n) case Err(_) => Panicked
  {
  }

  /**
   * Wherever the library's coordinates decoder succeeds, this one reads the
   * same coordinates; it never consults the user store.
   */
  lemma CoordinatesAgree(payloadLength: nat, data: seq<Byte>, lookup: U32 -> Result<UserData, string>,
                         toFloat: seq<Byte> -> Option<F64>, now: Timestamp)
    requires Coordinates.ParseSpec(payloadLength, data, lookup, toFloat, now).Ok?
    ensures var r := Coordinates.ParseSpec(payloadLength, data, lookup, toFloat, now).value;
      CoordinatesParse(payloadLength, data, toFloat) ==
        Returned(CoordinatesDecoded(ClientId.Decode(data[..4]).value, r.latitude, r.longitude))
  {
  }

  // ------------------------------------------------ the client's frames

  /** A login frame from the client's encoder decodes to its credentials once the payload reaches twenty bytes. */
  lemma LoginFrameDecodes(username: string, password: string, toFloat: seq<Byte> -> Option<F64>)
    requires '\0' !in username && '\0' !in password
    requires |Login.Frame(username, password)| <= Wire.BUFFER_SIZE
    ensures var n := |Utf8.Encode(username)| + 1 + |Utf8.Encode(password)|;
      Step(Login.Frame(username, password), toFloat) ==
        if n < 0x14 then Panicked else Returned(LoginDecoded(Login.Credentials(username, password)))
  {
    Login.FrameRoundTrip(username, password);
  }

  /** A heartbeat frame from the client's encoder always decodes, to the per-byte reading of its id. */
  lemma HeartbeatFrameDecodes(clientId: U32, toFloat: seq<Byte> -> Option<F64>)
    ensures Step(Heartbeat.Frame(clientId), toFloat).Returned?
    ensures Step(Heartbeat.Frame(clientId), toFloat).value.HeartbeatDecoded?
    ensures Step(Heartbeat.Frame(clientId), toFloat).value.clientId == clientId <==> ClientId.Unambiguous(BE4(clientId))
  {
    Heartbeat.FrameRoundTrip(clientId);
  }

  /** A logout frame from the client's encoder declares length 0 and always panics. */
  lemma LogoutFramePanics(clientId: U32, toFloat: seq<Byte> -> Option<F64>)
    ensures Step(Logout.Frame(clientId), toFloat) == Panicked
  {
    Logout.GeneratedFrameRejected(clientId);
  }

  /** A coordinates frame from the client's encoder decodes whenever both coordinates convert. */
  lemma CoordinatesFrameDecodes(clientId: U32, latitude: seq<Byte>, longitude: seq<Byte>, toFloat: seq<Byte> -> Option<F64>)
    requires |latitude| == 8 && |longitude| == 8
    ensures Step(Coordinates.Frame(clientId, latitude, longitude), toFloat).Returned? <==>
            toFloat(latitude).Some? && toFloat(longitude).Some?
  {
    var body := BE4(clientId) + latitude + longitude;
    Wire.RequestFrameParses(Request.Coordinates, body);
    assert body[4..12] == latitude && body[12..20] == longitude;
  }
}
