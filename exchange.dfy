/**
 * The client and the server together: what one request from the client's
 * encoders does to the server's loop, and what the client reads back.
 */
module Exchange {
  import opened Wrappers
  import opened Bytes
  import opened Records
  import opened Validation
  import NumParse
  import Request
  import Wire
  import ClientId
  import Heartbeat
  import Login
  import Logout
  import Server
  import Client

  /**
   * What the exchanges below ask of `Payload::to_binary`: it reads the wire
   * text of any bytes back as those bytes. `Bytes.SpacedHexDecode` is one
   * conversion that does (`Bytes.SpacedHexRoundTrip`).
   */
  ghost predicate InvertsWireText(toBinary: string -> Option<seq<Byte>>)
  {
    forall bs :: toBinary(SpacedHex(bs)) == Some(bs)
  }

  /** The stand-in conversion meets that requirement, so it can be met. */
  lemma StandInInverts()
    ensures InvertsWireText(SpacedHexDecode)
  {
    forall bs: seq<Byte>
      ensures SpacedHexDecode(SpacedHex(bs)) == Some(bs)
    {
      SpacedHexRoundTrip(bs);
    }
  }

  /**
   * Any conversion that meets the requirement agrees with the one test
   * vector the source gives for `Payload::to_binary`.
   */
  lemma InvertsMeetsLoginTest(toBinary: string -> Option<seq<Byte>>)
    requires InvertsWireText(toBinary)
    ensures toBinary("01 00 14 72 6F" + " " + "6F 74 00 6E 6F" + " " + "74 73 65 63 75" + " " + "72 65 70 61 73" + " " + "73 77 6F 72 64") ==
      Some([1, 0, 20, 114, 111, 111, 116, 0, 110, 111, 116, 115, 101, 99, 117, 114, 101, 112, 97,
            115, 115, 119, 111, 114, 100])
  {
    Login.ExampleFrameBytes();
    Login.ExampleFrame();
    assert toBinary(SpacedHex(Login.Frame("root", "notsecurepassword"))) == Some(Login.Frame("root", "notsecurepassword"));
  }

  /**
   * A reply built as spaced hexadecimal reaches the socket as the reply's
   * own bytes, under a conversion that inverts the wire text.
   */
  lemma RespondSendsReply(toBinary: string -> Option<seq<Byte>>, sent: seq<Server.Sent>, to: string,
                          kind: Request.RequestType, clientId: string, isError: bool)
    requires InvertsWireText(toBinary)
    ensures Server.Respond(toBinary, sent, to, SpacedHex(Wire.Reply(kind, clientId, isError))) ==
            sent + [Server.Sent(to, Wire.Reply(kind, clientId, isError))]
  {
    assert toBinary(SpacedHex(Wire.Reply(kind, clientId, isError))) == Some(Wire.Reply(kind, clientId, isError));
  }

  /**
   * A heartbeat for a client whose id bytes are unambiguous, with every
   * store call succeeding: the server sends one reply, and the client reads
   * the user's client id back from it.
   */
  lemma HeartbeatExchange(env: Server.Env, clientId: U32, stored: Heartbeat.HeartbeatData, user: UserData)
    requires env.loadConfig.Ok? && InvertsWireText(env.toBinary)
    requires ClientId.Unambiguous(BE4(clientId))
    requires env.userByClientId(0, clientId).Ok? && env.userByClientId(0, clientId).value.id.Some?
    requires env.connect(0, Server.HeartbeatStore).Ok? && env.connect(0, Server.UserStore).Ok?
    requires env.createHeartbeat(0, Heartbeat.HeartbeatData(env.now(0), None, env.sourceAddress(0),
                                                           env.userByClientId(0, clientId).value.id.value)) == Ok(stored)
    requires env.userById(0, stored.user) == Ok(user)
    ensures var reply := Wire.Reply(Request.HeartBeat, NumParse.Decimal(user.clientId), false);
      && Server.Run(env, [Heartbeat.Frame(clientId)]) == Server.Trace([Server.Sent(env.sourceAddress(0), reply)], Server.Running)
      && Client.ReadReply(Request.HeartBeat, reply) == Ok(NumParse.Decimal(user.clientId))
      && Client.ClientIdToU32(Some(NumParse.Decimal(user.clientId))) == Ok(user.clientId)
  {
    var datagrams := [Heartbeat.Frame(clientId)];
    assert datagrams[..0] == [];
    Heartbeat.FrameRoundTrip(clientId);
    RespondSendsReply(env.toBinary, [], env.sourceAddress(0), Request.HeartBeat, NumParse.Decimal(user.clientId), false);
    Client.ReplyRoundTrip(Request.HeartBeat, Request.HeartBeat, user.clientId, false);
  }

  /** The client's logout request ends the server's loop, with nothing sent back. */
  lemma LogoutExchange(env: Server.Env, clientId: U32)
    requires env.loadConfig.Ok?
    ensures Server.Run(env, [Logout.Frame(clientId)]) == Server.Trace([], Server.Terminated(Message(InvalidLogoutPayload)))
  {
    var datagrams := [Logout.Frame(clientId)];
    assert datagrams[..0] == [];
    Server.GeneratedLogoutEndsLoop(env, 0, clientId);
  }
}
