/**
 * The server's receive loop: each datagram is read into a 64-byte buffer,
 * framed, and handed to its kind's decoder; the handler may send one reply,
 * and an error raised with `?` anywhere in it ends the loop.
 */
module Server {
  import opened Wrappers
  import opened Bytes
  import opened Records
  import opened Validation
  import NumParse
  import Request
  import Wire
  import Login
  import Heartbeat
  import Logout
  import Coordinates

  // ------------------------------------------------ `{:?}` of a String

  /** How `{:?}` writes one character of a string. */
  function EscapeChar(c: char): string
  {
    if c == '"' then "\\\""
    else if c == '\\' then "\\\\"
    else if c == '\n' then "\\n"
    else if c == '\r' then "\\r"
    else if c == '\t' then "\\t"
    else if c == '\0' then "\\0"
    else [c]
  }

  function Escaped(s: string): string
  {
    if s == [] then "" else EscapeChar(s[0]) + Escaped(s[1..])
  }

  /** `format!("{:?}", s)` for a `String`: quoted, with quotes, backslashes and control characters escaped. */
  function DebugString(s: string): (r: string)
    ensures |r| >= 2 && r[0] == '"' && r[|r| - 1] == '"'
  {
    "\"" + Escaped(s) + "\""
  }

  /** Reads escaped text back: the inverse of `Escaped`. */
  function Unescaped(t: string): Option<string>
  {
    if t == [] then Some([])
    else if t[0] == '"' then None
    else if t[0] != '\\' then
      match Unescaped(t[1..])
      case None => None
      case Some(rest) => Some([t[0]] + rest)
    else if |t| < 2 then None
    else
      var c := t[1];
      var d := if c == '"' then Some('"')
               else if c == '\\' then Some('\\')
               else if c == 'n' then Some('\n')
               else if c == 'r' then Some('\r')
               else if c == 't' then Some('\t')
               else if c == '0' then Some('\0')
               else None;
      match d
      case None => None
      case Some(ch) =>
        match Unescaped(t[2..])
        case None => None
        case Some(rest) => Some([ch] + rest)
  }

  lemma EscapeCharReads(c: char, t: string)
    ensures Unescaped(EscapeChar(c) + t) ==
      match Unescaped(t) case None => None case Some(rest) => Some([c] + rest)
  {
    var e := EscapeChar(c);
    assert (e + t)[0] == e[0];
    if |e| == 2 {
      assert (e + t)[1] == e[1] && (e + t)[2..] == t;
    } else {
      assert (e + t)[1..] == t;
    }
  }

  lemma {:induction false} UnescapeEscaped(s: string)
    ensures Unescaped(Escaped(s)) == Some(s)
  {
    if s != [] {
      UnescapeEscaped(s[1..]);
      EscapeCharReads(s[0], Escaped(s[1..]));
      assert [s[0]] + s[1..] == s;
    }
  }

  /** The quoted text names its string: different errors are quoted differently. */
  lemma DebugStringInjective(a: string, b: string)
    requires DebugString(a) == DebugString(b)
    ensures a == b
  {
    var ra := DebugString(a);
    assert Escaped(a) == ra[1..|ra| - 1];
    assert Escaped(b) == ra[1..|ra| - 1];
    UnescapeEscaped(a);
    UnescapeEscaped(b);
  }

  // ------------------------------------------------ collaborators

  /** The stores the handlers open (`Heartbeat::new`, `User::new`, `Coordinates::new`). */
  datatype Store = HeartbeatStore | UserStore | CoordinatesStore

  /**
   * Everything outside the protocol, as seen while handling the datagram
   * with index `t`: the sender's address, the clock, the user store's
   * queries (opening the store included), the other stores' openings and
   * inserts, the float decoder, the login reply builder (which may panic),
   * the logout deletion, and `Payload::to_binary`, the conversion of reply
   * text to bytes (its definition is not part of this model).
   */
  datatype Env = Env(
    loadConfig: Result<(), string>,
    sourceAddress: nat -> string,
    now: nat -> Timestamp,
    userByClientId: (nat, U32) -> Result<UserData, string>,
    authenticate: (nat, string, string) -> Result<UserData, string>,
    userById: (nat, RecordId) -> Result<UserData, string>,
    connect: (nat, Store) -> Result<(), string>,
    createHeartbeat: (nat, Heartbeat.HeartbeatData) -> Result<Heartbeat.HeartbeatData, string>,
    createCoordinates: (nat, Coordinates.CoordinatesData) -> Result<Coordinates.CoordinatesData, string>,
    toFloat: seq<Byte> -> Option<F64>,
    loginResponse: (string, bool) -> Outcome<Result<string, string>>,
    toBinary: string -> Option<seq<Byte>>,
    logout: (nat, U32) -> Result<bool, string>)

  /** What handling one datagram does to the loop. */
  datatype Step = Continue(reply: Option<string>) | Terminate(error: string) | Panic

  // ------------------------------------------------ one datagram

  function LoginStep(env: Env, t: nat, packet: Request.RequestPacket): Step
  {
    match Login.ParseSpec(packet.payloadLength, packet.payload)
    case Panicked => Panic
    case Returned(Err(e)) => Terminate(e)
    case Returned(Ok(credentials)) =>
      var response := match env.authenticate(t, credentials.username, credentials.password)
                      case Ok(userData) => env.loginResponse(NumParse.Decimal(userData.clientId), false)
                      case Err(_) => env.loginResponse("0", true);
      match response
      case Panicked => Panic
      case Returned(Err(e)) => Terminate(e)
      case Returned(Ok(text)) => Continue(Some(text))
  }

  /** `Login::generate_response` as written: its body is `todo!()`. */
  function Unimplemented(clientId: string, isError: bool): Outcome<Result<string, string>>
  {
    Panicked
  }

  function HeartbeatStep(env: Env, t: nat, packet: Request.RequestPacket): Step
  {
    var lookup := (clientId: U32) => env.userByClientId(t, clientId);
    match Heartbeat.Parse(env.sourceAddress(t), packet.payloadLength, packet.payload, lookup, env.now(t))
    case Err(e) => Terminate(e)
    case Ok(heartbeatData) =>
      match env.connect(t, HeartbeatStore)
      case Err(e) => Terminate(e)
      case Ok(_) =>
        match env.createHeartbeat(t, heartbeatData)
        case Err(e) => Terminate(DebugString(e))
        case Ok(stored) =>
          match env.connect(t, UserStore)
          case Err(e) => Terminate(e)
          case Ok(_) =>
            match env.userById(t, stored.user)
            case Ok(userData) =>
              Continue(Some(SpacedHex(Wire.Reply(Request.HeartBeat, NumParse.Decimal(userData.clientId), false))))
            case Err(_) =>
              Continue(Some(SpacedHex(Wire.Reply(Request.HeartBeat, "000000000", true))))
  }

  function LogoutStep(packet: Request.RequestPacket): Step
  {
    match Logout.Parse(packet.payloadLength, packet.payload)
    case Err(e) => Terminate(e)
    case Ok(_) => Continue(None)
  }

  function CoordinatesStep(env: Env, t: nat, packet: Request.RequestPacket): Step
  {
    var lookup := (clientId: U32) => env.userByClientId(t, clientId);
    match Coordinates.ParseSpec(packet.payloadLength, packet.payload, lookup, env.toFloat, env.now(t))
    case Err(e) => Terminate(e)
    case Ok(coordinatesData) =>
      match env.connect(t, CoordinatesStore)
      case Err(e) => Terminate(e)
      case Ok(_) =>
        match env.createCoordinates(t, coordinatesData)
        case Err(e) => Terminate(e)
        case Ok(_) => Continue(None)
  }

  /**
   * The body of `launch`'s loop for the datagram with index `t`: a framing
   * error or an Invalid kind is logged and skipped; otherwise the kind's
   * handler runs.
   */
  function Dispatch(env: Env, t: nat, datagram: seq<Byte>): Step
  {
    match Request.Parse(Wire.Received(datagram))
    case Err(_) => Continue(None)
    case Ok(packet) =>
      match packet.requestType
      case Login => LoginStep(env, t, packet)
      case HeartBeat => HeartbeatStep(env, t, packet)
      case Logout => LogoutStep(packet)
      case Coordinates => CoordinatesStep(env, t, packet)
      case Invalid => Continue(None)
  }

  // ------------------------------------------------ the loop

  /** A datagram sent back: its destination and its bytes. */
  datatype Sent = Sent(to: string, bytes: seq<Byte>)

  /**
   * `respond`: the reply text is converted to bytes and sent; text that
   * does not convert is reported and nothing is sent.
   */
  function Respond(toBinary: string -> Option<seq<Byte>>, sent: seq<Sent>, to: string, text: string): seq<Sent>
  {
    match toBinary(text)
    case None => sent
    case Some(bytes) => sent + [Sent(to, bytes)]
  }

  /** Why the loop stopped, or that the datagrams ran out while it was still running. */
  datatype Ending = Running | Terminated(error: string) | Crashed

  datatype Trace = Trace(sent: seq<Sent>, ending: Ending)

  /** The replies sent and how the loop ends, over the datagrams in the order received. */
  function Run(env: Env, datagrams: seq<seq<Byte>>): Trace
  {
    if datagrams == [] then
      if env.loadConfig.Err? then Trace([], Terminated(env.loadConfig.error)) else Trace([], Running)
    else
      var t := |datagrams| - 1;
      var before := Run(env, datagrams[..t]);
      if before.ending != Running then before
      else
        match Dispatch(env, t, datagrams[t])
        case Continue(None) => before
        case Continue(Some(text)) => Trace(Respond(env.toBinary, before.sent, env.sourceAddress(t), text), Running)
        case Terminate(e) => Trace(before.sent, Terminated(e))
        case Panic => Trace(before.sent, Crashed)
  }

  /** Once the loop has ended, later datagrams change nothing. */
  lemma {:induction false} RunStops(env: Env, datagrams: seq<seq<Byte>>, i: nat)
    requires i <= |datagrams|
    requires Run(env, datagrams[..i]).ending != Running
    ensures Run(env, datagrams) == Run(env, datagrams[..i])
  {
    if i < |datagrams| {
      var t := |datagrams| - 1;
      assert datagrams[..t][..i] == datagrams[..i];
      RunStops(env, datagrams[..t], i);
    } else {
      assert datagrams[..i] == datagrams;
    }
  }

  /**
   * `UdpServer::launch` over the datagrams it receives: load the
   * configuration, then handle datagram after datagram until one ends the loop.
   */
  method Launch(env: Env, datagrams: seq<seq<Byte>>) returns (sent: seq<Sent>, ending: Ending)
    ensures Trace(sent, ending) == Run(env, datagrams)
  {
    sent := [];
    if env.loadConfig.Err? {
      ending := Terminated(env.loadConfig.error);
      RunStops(env, datagrams, 0);
      assert datagrams[..0] == [];
      return;
    }
    ending := Running;
    var t := 0;
    assert datagrams[..0] == [];
    while t < |datagrams|
      invariant 0 <= t <= |datagrams|
      invariant Trace(sent, ending) == Run(env, datagrams[..t])
      invariant ending == Running
    {
      assert datagrams[..t + 1][..t] == datagrams[..t];
      match Dispatch(env, t, datagrams[t]) {
        case Continue(reply) =>
          if reply.Some? {
            sent := Respond(env.toBinary, sent, env.sourceAddress(t), reply.value);
          }
        case Terminate(e) =>
          ending := Terminated(e);
          RunStops(env, datagrams, t + 1);
          return;
        case Panic =>
          ending := Crashed;
          RunStops(env, datagrams, t + 1);
          return;
      }
      t := t + 1;
    }
    assert datagrams[..t] == datagrams;
  }

  /**
   * A handler's reply never ends the loop: text that does not convert to
   * bytes is only reported, and a converted reply is sent to the datagram's
   * source.
   */
  lemma {:induction false} RepliesKeepRunning(env: Env, datagrams: seq<seq<Byte>>, datagram: seq<Byte>, text: string)
    requires Run(env, datagrams).ending == Running
    requires Dispatch(env, |datagrams|, datagram) == Continue(Some(text))
    ensures var after := Run(env, datagrams + [datagram]);
      && after.ending == Running
      && after.sent == match env.toBinary(text)
                       case None => Run(env, datagrams).sent
                       case Some(bytes) => Run(env, datagrams).sent + [Sent(env.sourceAddress(|datagrams|), bytes)]
  {
    assert (datagrams + [datagram])[..|datagrams|] == datagrams;
    assert (datagrams + [datagram])[|datagrams|] == datagram;
  }

  // ------------------------------------------------ properties of a step

  /** A datagram too short to frame (fewer than three bytes) is skipped without reply. */
  lemma FramingErrorContinues(env: Env, t: nat, datagram: seq<Byte>)
    ensures |datagram| < 3 <==> Request.Parse(Wire.Received(datagram)).Err?
    ensures |datagram| < 3 ==> Dispatch(env, t, datagram) == Continue(None)
  {
  }

  /** An unknown kind byte is skipped without reply. */
  lemma InvalidKindContinues(env: Env, t: nat, datagram: seq<Byte>)
    requires |datagram| >= 3 && Request.GetByValue(datagram[0]) == Request.Invalid
    ensures Dispatch(env, t, datagram) == Continue(None)
  {
  }

  /** Only bytes that fit the 64-byte buffer matter. */
  lemma OnlyBufferRead(env: Env, t: nat, a: seq<Byte>, b: seq<Byte>)
    requires |a| >= Wire.BUFFER_SIZE && |b| >= Wire.BUFFER_SIZE && a[..Wire.BUFFER_SIZE] == b[..Wire.BUFFER_SIZE]
    ensures Dispatch(env, t, a) == Dispatch(env, t, b)
  {
  }

  /** The packet a datagram of at least three bytes frames into. */
  function Packet(datagram: seq<Byte>): Request.RequestPacket
    requires |datagram| >= 3
  {
    Request.Parse(Wire.Received(datagram)).value
  }

  /**
   * A decodable login is answered with the reply builder's text for the
   * user's decimal client id, or for "0" with the error status when
   * authentication fails; a builder error ends the loop and a builder
   * panic crashes it.
   */
  lemma LoginReplies(env: Env, t: nat, datagram: seq<Byte>, credentials: Login.Credentials)
    requires |datagram| >= 3 && Request.GetByValue(datagram[0]) == Request.Login
    requires Login.ParseSpec(Packet(datagram).payloadLength, Packet(datagram).payload) == Returned(Ok(credentials))
    ensures var auth := env.authenticate(t, credentials.username, credentials.password);
      var response := if auth.Ok? then env.loginResponse(NumParse.Decimal(auth.value.clientId), false)
                      else env.loginResponse("0", true);
      Dispatch(env, t, datagram) ==
        match response
        case Panicked => Panic
        case Returned(Ok(text)) => Continue(Some(text))
        case Returned(Err(e)) => Terminate(e)
  {
  }

  /** With the reply builder as written, the first decodable login ends the server with a panic. */
  lemma LoginPanicsAsWritten(env: Env, t: nat, datagram: seq<Byte>)
    requires env.loginResponse == Unimplemented
    requires |datagram| >= 3 && Request.GetByValue(datagram[0]) == Request.Login
    ensures Dispatch(env, t, datagram) ==
      match Login.ParseSpec(Packet(datagram).payloadLength, Packet(datagram).payload)
      case Returned(Ok(_)) => Panic
      case Returned(Err(e)) => Terminate(e)
      case Panicked => Panic
  {
  }

  /**
   * A stored heartbeat gets a reply: success with the user's decimal client
   * id, or the error status with "000000000" when the user cannot be
   * fetched again. A failed insert ends the loop with the error quoted.
   */
  lemma HeartbeatReplies(env: Env, t: nat, datagram: seq<Byte>, data: Heartbeat.HeartbeatData)
    requires |datagram| >= 3 && Request.GetByValue(datagram[0]) == Request.HeartBeat
    requires Heartbeat.Parse(env.sourceAddress(t), Packet(datagram).payloadLength, Packet(datagram).payload,
                             (clientId: U32) => env.userByClientId(t, clientId), env.now(t)) == Ok(data)
    requires env.connect(t, HeartbeatStore).Ok?
    ensures env.createHeartbeat(t, data).Err? ==>
            Dispatch(env, t, datagram) == Terminate(DebugString(env.createHeartbeat(t, data).error))
    ensures env.createHeartbeat(t, data).Ok? && env.connect(t, UserStore).Ok? ==>
            var user := env.userById(t, env.createHeartbeat(t, data).value.user);
            Dispatch(env, t, datagram) ==
              if user.Ok? then Continue(Some(SpacedHex(Wire.Reply(Request.HeartBeat, NumParse.Decimal(user.value.clientId), false))))
              else Continue(Some(SpacedHex(Wire.Reply(Request.HeartBeat, "000000000", true))))
  {
    assert Dispatch(env, t, datagram) == HeartbeatStep(env, t, Packet(datagram));
  }

  /** Logout and coordinates requests never get a reply. */
  lemma SilentKinds(env: Env, t: nat, datagram: seq<Byte>)
    requires |datagram| >= 3
    requires Request.GetByValue(datagram[0]) in {Request.Logout, Request.Coordinates}
    ensures !Dispatch(env, t, datagram).Continue? || Dispatch(env, t, datagram).reply.None?
  {
  }

  /** The logout deletion is never invoked: the step does not depend on it. */
  lemma LogoutNeverDeletes(env: Env, t: nat, datagram: seq<Byte>, deletion: (nat, U32) -> Result<bool, string>)
    ensures Dispatch(env.(logout := deletion), t, datagram) == Dispatch(env, t, datagram)
  {
  }

  /** A decoder's error is not caught: it ends the loop with the decoder's text. */
  lemma DecodeErrorsTerminate(env: Env, t: nat, datagram: seq<Byte>)
    requires |datagram| >= 3
    ensures var p := Packet(datagram);
      match Request.GetByValue(datagram[0])
      case Login =>
        Login.ParseSpec(p.payloadLength, p.payload).Returned? && Login.ParseSpec(p.payloadLength, p.payload).value.Err? ==>
        Dispatch(env, t, datagram) == Terminate(Login.ParseSpec(p.payloadLength, p.payload).value.error)
      case HeartBeat =>
        var r := Heartbeat.Parse(env.sourceAddress(t), p.payloadLength, p.payload,
                                 (clientId: U32) => env.userByClientId(t, clientId), env.now(t));
        r.Err? ==> Dispatch(env, t, datagram) == Terminate(r.error)
      case Logout =>
        Logout.Parse(p.payloadLength, p.payload).Err? ==>
        Dispatch(env, t, datagram) == Terminate(Logout.Parse(p.payloadLength, p.payload).error)
      case Coordinates =>
        var r := Coordinates.ParseSpec(p.payloadLength, p.payload,
                                       (clientId: U32) => env.userByClientId(t, clientId), env.toFloat, env.now(t));
        r.Err? ==> Dispatch(env, t, datagram) == Terminate(r.error)
      case Invalid => Dispatch(env, t, datagram) == Continue(None)
  {
  }

  /** Every logout frame the client's encoder builds ends the server's loop. */
  lemma GeneratedLogoutEndsLoop(env: Env, t: nat, clientId: U32)
    ensures Dispatch(env, t, Logout.Frame(clientId)) == Terminate(Message(InvalidLogoutPayload))
  {
    Logout.GeneratedFrameRejected(clientId);
  }
}
