/** The decoders' error vocabulary and the text each error displays as. */
module Validation {
  import opened Wrappers

  datatype ValidationError =
    | InvalidLogin
    | InvalidLoginPayload
    | InvalidClientId
    | InvalidLogoutPayload
    | InvalidHeartbeatPayload
    | InvalidCoordinatesPayload
    | InvalidLatitude
    | InvalidLongitude
    | ClientIdEmpty
    | UnableToParseLatitude
    | UnableToParseLongitude
    | InvalidRequestPacket
    | InvalidRequestPacketPayloadLength
    | InvalidRequestPacketPayload
    | UnableToParseRequestPayloadLength
    | InvalidUserId

  /** The `Display` text (`to_string()`) of an error. */
  function Message(e: ValidationError): string
  {
    match e
    case InvalidLogin => "Invalid login attempt"
    case InvalidLoginPayload => "Invalid login payload"
    case InvalidClientId => "Invalid client ID"
    case InvalidLogoutPayload => "Invalid logout payload"
    case InvalidHeartbeatPayload => "Invalid heartbeat payload"
    case InvalidCoordinatesPayload => "Invalid coordinates payload"
    case InvalidLatitude => "Invalid latitude value"
    case InvalidLongitude => "Invalid longitude value"
    case ClientIdEmpty => "Client ID is empty"
    case UnableToParseLatitude => "Unable to parse latitude"
    case UnableToParseLongitude => "Unable to parse longitude"
    case InvalidRequestPacket => "Invalid request packet"
    case InvalidRequestPacketPayloadLength => "Invalid request packet payload length"
    case InvalidRequestPacketPayload => "Invalid request packet payload"
    case UnableToParseRequestPayloadLength => "Unable to parse request payload length"
    case InvalidUserId => "Invalid UserId"
  }

  /** Which error a message names, if any: the reading a receiver of the text can do. */
  function FromMessage(m: string): Option<ValidationError>
  {
    if m == "Invalid login attempt" then Some(InvalidLogin)
    else if m == "Invalid login payload" then Some(InvalidLoginPayload)
    else if m == "Invalid client ID" then Some(InvalidClientId)
    else if m == "Invalid logout payload" then Some(InvalidLogoutPayload)
    else if m == "Invalid heartbeat payload" then Some(InvalidHeartbeatPayload)
    else if m == "Invalid coordinates payload" then Some(InvalidCoordinatesPayload)
    else if m == "Invalid latitude value" then Some(InvalidLatitude)
    else if m == "Invalid longitude value" then Some(InvalidLongitude)
    else if m == "Client ID is empty" then Some(ClientIdEmpty)
    else if m == "Unable to parse latitude" then Some(UnableToParseLatitude)
    else if m == "Unable to parse longitude" then Some(UnableToParseLongitude)
    else if m == "Invalid request packet" then Some(InvalidRequestPacket)
    else if m == "Invalid request packet payload length" then Some(InvalidRequestPacketPayloadLength)
    else if m == "Invalid request packet payload" then Some(InvalidRequestPacketPayload)
    else if m == "Unable to parse request payload length" then Some(UnableToParseRequestPayloadLength)
    else if m == "Invalid UserId" then Some(InvalidUserId)
    else None
  }

  /** Every error's message names that error and no other. */
  lemma MessageNamesError(e: ValidationError)
    ensures FromMessage(Message(e)) == Some(e)
  {
    if e in {InvalidLogin, InvalidLoginPayload, InvalidClientId, InvalidLogoutPayload} {
      LoginAndLogoutMessages(e);
    } else if e in {InvalidHeartbeatPayload, InvalidCoordinatesPayload, InvalidLatitude, InvalidLongitude} {
      PayloadMessages(e);
    } else if e in {ClientIdEmpty, UnableToParseLatitude} {
      ClientIdAndLatitudeMessages(e);
    } else if e in {UnableToParseLongitude, InvalidRequestPacket} {
      LongitudeAndPacketMessages(e);
    } else if e in {InvalidRequestPacketPayloadLength, InvalidRequestPacketPayload} {
      PacketPayloadMessages(e);
    } else if e == UnableToParseRequestPayloadLength {
      RequestLengthMessage();
    } else {
      UserIdMessage();
    }
  }

  lemma LoginAndLogoutMessages(e: ValidationError)
    requires e in {InvalidLogin, InvalidLoginPayload, InvalidClientId, InvalidLogoutPayload}
    ensures FromMessage(Message(e)) == Some(e)
  {
    if e == InvalidLoginPayload {
      assert Message(e)[14] != Message(InvalidLogin)[14];
    }
  }

  lemma PayloadMessages(e: ValidationError)
    requires e in {InvalidHeartbeatPayload, InvalidCoordinatesPayload, InvalidLatitude, InvalidLongitude}
    ensures FromMessage(Message(e)) == Some(e)
  {
    if e == InvalidLatitude {
      assert Message(e)[9] != Message(InvalidLogoutPayload)[9];
    }
  }

  lemma ClientIdAndLatitudeMessages(e: ValidationError)
    requires e in {ClientIdEmpty, UnableToParseLatitude}
    ensures FromMessage(Message(e)) == Some(e)
  {
  }

  lemma LongitudeAndPacketMessages(e: ValidationError)
    requires e in {UnableToParseLongitude, InvalidRequestPacket}
    ensures FromMessage(Message(e)) == Some(e)
  {
    if e == UnableToParseLongitude {
      assert Message(e)[0] != Message(InvalidHeartbeatPayload)[0];
    } else {
      assert Message(e)[8] != Message(InvalidLogoutPayload)[8];
      assert Message(e)[8] != Message(InvalidLatitude)[8];
    }
  }

  lemma PacketPayloadMessages(e: ValidationError)
    requires e in {InvalidRequestPacketPayloadLength, InvalidRequestPacketPayload}
    ensures FromMessage(Message(e)) == Some(e)
  {
  }

  lemma RequestLengthMessage()
    ensures FromMessage(Message(UnableToParseRequestPayloadLength)) == Some(UnableToParseRequestPayloadLength)
  {
  }

  lemma UserIdMessage()
    ensures FromMessage(Message(InvalidUserId)) == Some(InvalidUserId)
  {
  }

  /** The sixteen messages are pairwise distinct, so an error string identifies its variant. */
  lemma MessagesDistinct(a: ValidationError, b: ValidationError)
    requires Message(a) == Message(b)
    ensures a == b
  {
    MessageNamesError(a);
    MessageNamesError(b);
  }
}
