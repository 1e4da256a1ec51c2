# gps-study UDP protocol, modelled in Dafny

A GPS client and a collector server exchange single UDP datagrams in a small
binary protocol. This project models the protocol's core and proves
properties of it:

- **The request frame.** Byte 0 is the kind (login, coordinates, heartbeat,
  logout, or anything else as Invalid). Byte 1 is never read. Byte 2 is a
  declared payload length. Everything from byte 3 on is the payload.
- **The wire text.** Every encoder returns upper-case hexadecimal pairs
  separated by single spaces, built by `Payload::apply_spacing`.
- **The per-kind codecs.** Each kind has an encoder (`generate_payload`), a
  reply builder (`generate_response`, `[kind, status] ++ bytes of the id
  text`) and a decoder (`parse`), which returns the `ValidationError`
  message texts.
- **The server's receive loop** (`UdpServer::launch`). For each datagram it
  decides whether to reply, with what, and whether the loop goes on or ends
  through `?`.
- **The client's reading of a reply**: `check_response_status`,
  `client_id_to_u32` and the receiving part of `simulate`.
- **The first server binary** (`src/main.rs`). Its decoders are the same,
  but each failure is a panic.

The modules follow the source files:

| module | models |
|---|---|
| `Wrappers` | `Option`, `Result`, and `Outcome` (a value, or a panic) |
| `Bytes` | bytes, `u32`, and the hexadecimal renderings |
| `NumParse` | `from_str_radix` and `to_string` |
| `Utf8` | `String::from_utf8`, `from_utf8_lossy` and a string's bytes, as RFC 3629 defines them |
| `Payload` | `Payload::apply_spacing` |
| `Request`, `Response`, `Validation` | `src/request.rs`, `src/response.rs`, `src/validation.rs` |
| `Wire` | the request and reply frames that all codecs share, and the 64-byte receive buffer |
| `ClientId` | the per-byte `{:x}` id decoding |
| `Login`, `Heartbeat`, `Logout`, `Coordinates` | `src/actions/*.rs` |
| `Server` | `src/udp_server.rs` |
| `Client` | `client/src/udp_client.rs` |
| `Legacy` | `src/main.rs` |
| `Exchange` | whole client–server exchanges |

Where the source changes state step by step, the model is imperative too:
- `Payload.ApplySpacing`, `Login.Parse`, `Coordinates.Parse`,
  `Server.Launch` and `Legacy.Serve` are methods with their loops or
  in-place record updates;
- each is proved equal to a specification function;
- the properties are proved about that function.

The encoders are methods that call `ApplySpacing` and are proved to return
`SpacedHex` of the frame's bytes. The proofs about the frames can therefore
be stated at byte level.

## What the model shows about the code

Each point below is a proved lemma. The model follows the code throughout,
including where the code disagrees with its own doc comments and tests.

- **The client id is decoded per byte.** Each byte is formatted with `{:x}`
  (one digit below 0x10), the pieces are concatenated, and the result is
  parsed in base 16.
  - This is the big-endian value exactly when every byte after the first
    non-zero one is at least 0x10 (`ClientId.PerByteVersusBigEndian`).
  - `0A 0A` and `AA` collide (`ClientId.DecodeCollision`).
  - Client 256 is sent as `00 00 01 00` and looked up as client 16
    (`ClientId.RoundTripFailsFor256`, `Heartbeat.SendsWrongClient`).
  - The encoders write an id as eight zero-padded digits (`{:08x}`), that
    is, as four big-endian bytes. The format comments at
    `src/actions/heartbeat.rs:24-32` and `src/actions/logout.rs:11-19` show
    24564 as `00 00 5F F4`. The decoder does not read every id written
    that way back as itself. The model keeps the decoder's rule and states
    big-endian reading only as the reference it is compared with
    (`Bytes.BigEndian`).
- **The logout encoder declares length 0** (`get_length`), and the logout
  decoder rejects every payload longer than the declared length.
  - No logout frame built by the encoder is ever accepted
    (`Logout.GeneratedFrameRejected`).
  - The server's loop ends on the first one (`Server.GeneratedLogoutEndsLoop`,
    `Exchange.LogoutExchange`).
  - The format comment at `src/actions/logout.rs:11-19` and the encoder's
    test at `src/actions/logout.rs:94` both give `04 00 04 00 00 5F F4`.
    The encoder produces `04 00 00 00 00 5F F4` (`Logout.ExampleMismatch`),
    and only the documented frame is accepted (`Logout.ExpectedFrameAccepted`).
- **The coordinates frame declares length 4** while 20 payload bytes
  follow (`Coordinates.DeclaredLengthDisagrees`).
- **The two heartbeat decoders check the declared length in opposite
  directions** (`Legacy.HeartbeatLengthChecksOpposite`).
- **Decoder errors end the server's loop** through `?`
  (`Server.DecodeErrorsTerminate`). The same loop only logs a framing
  error or an unknown kind and goes on (`src/udp_server.rs:125-130`). A
  single malformed login, heartbeat, logout or coordinates payload
  therefore stops the server.
- **`Login::generate_response` is `todo!()`.** With it as written, every
  decodable login crashes the server (`Server.LoginPanicsAsWritten`).
- **Frames shorter than three bytes fail with two different errors.** An
  empty frame fails with `InvalidRequestPacket`, and a one- or two-byte
  frame with `InvalidRequestPacketPayloadLength`. The two other packet
  errors, `UnableToParseRequestPayloadLength` and
  `InvalidRequestPacketPayload`, are never returned (`Request.Parse`).
- **A login payload without a zero byte is accepted.** It becomes the
  username, with an empty password and no error (`Login.NoSeparator`).
- **The first binary panics where the library server skips a datagram**
  (`Legacy.PanicsWhereServerSkips`).
- **`Logout::logout` is never called.** It deletes a client's records
  (`src/actions/logout.rs:65-83`), but the server's logout branch only
  decodes the payload (`Server.LogoutNeverDeletes`).

## Model

| member | source | states |
|---|---|---|
| Bytes.BE4 | src/actions/heartbeat.rs:37 | `{:08x}` of a u32 spells four bytes whose big-endian value is the id |
| Bytes.HexLower | src/actions/login.rs:24 | `hex::encode` writes two digits per byte |
| Bytes.HexUpper | src/actions/login.rs:23 | `hex::encode_upper` writes two digits per byte |
| Bytes.SpacedHex | src/payload.rs:8-16 | the wire text of n ≥ 1 bytes has 3n − 1 characters; no bytes give the empty text |
| Bytes.UpperDigitValue | src/payload.rs:16 | an upper-case hexadecimal digit is read back as exactly the value it was written for |
| Bytes.SpacedHexRoundTrip | src/udp_server.rs:17 | the reference conversion reads the wire text back as exactly the bytes it was made from |
| Bytes.SpacedHexInjective | src/udp_server.rs:17 | two byte strings with the same wire text are equal |
| Bytes.SpacedHexConcat | src/payload.rs:8-16 | the wire text of a concatenation is the two texts joined by one space |
| NumParse.ToDigit | src/actions/heartbeat.rs:78 | a digit accepted in a radix is below the radix |
| NumParse.ParseDigitsValue | src/actions/heartbeat.rs:78 | on valid digits `from_str_radix` yields their positional value, or overflow exactly when that exceeds the type's maximum |
| NumParse.ParseUnsigned | src/actions/heartbeat.rs:78 | `from_str_radix` for an unsigned type: `Empty` for no text, `InvalidDigit` for a lone sign, a `-` or a non-digit, `PosOverflow` above the maximum; its meaning is pinned by `ParseUnsignedValue` and `ParseUnsignedDigits` |
| NumParse.ParseDigitsRejects | client/src/udp_client.rs:87 | text containing a non-digit is rejected, never read as a number |
| NumParse.ParseUnsignedDigits | src/actions/heartbeat.rs:78 | a non-empty, unsigned digit string parses to its value when that fits, and is an overflow otherwise |
| NumParse.ParseUnsignedValue | client/src/udp_client.rs:87 | an unsigned parse succeeds exactly on a non-empty digit string, after an optional `+`, whose value fits, and yields that value |
| NumParse.Decimal | src/udp_server.rs:52 | `to_string` of a number is a non-empty string of decimal digits |
| NumParse.DecimalValue | src/udp_server.rs:52 | the decimal text of n has positional value n |
| NumParse.DecimalLength | client/src/udp_client.rs:87 | a number below 10^k has at most k decimal digits |
| NumParse.DecimalRoundTrip | src/request.rs:57 | rendering a number in decimal and parsing it back gives the number, whenever it fits the target type |
| NumParse.HornerAppend | src/actions/heartbeat.rs:76-78 | appending a digit multiplies the value by the radix and adds the digit |
| Utf8.EncodeChar | src/actions/login.rs:23-24 | a character encodes to one to four bytes |
| Utf8.Encode | src/actions/login.rs:23-24 | the bytes `hex::encode` reads from a string: each character's UTF-8 sequence in order; `DecodeEncode`, `EncodeZeroFree` and `EncodeAscii` state its meaning |
| Utf8.EncodeCharDecodes | src/actions/login.rs:63-64 | each character's bytes form one complete sequence that decodes to the character, whatever follows |
| Utf8.DecodeEncode | src/actions/login.rs:63-64 | a string's bytes are valid UTF-8, and both the strict and the lossy decoder give the string back |
| Utf8.EncodeZeroFree | src/actions/login.rs:50-60 | a string's bytes contain a zero byte exactly where the string has a NUL character |
| Utf8.EncodeAscii | src/actions/heartbeat.rs:47 | an ASCII string is its own bytes, one per character |
| Utf8.EncodeAsciiBytes | src/actions/login.rs:91-94 | an ASCII string encodes to its code points |
| Utf8.MatchLength | client/src/udp_client.rs:183 | the lossy decoder always consumes between one byte and one complete sequence |
| Utf8.Lossy | client/src/udp_client.rs:183 | `String::from_utf8_lossy`: each complete sequence becomes its character and each maximal ill-formed part U+FFFD; `DecodeEncode` shows it returns the string a valid input encodes |
| Utf8.FromUtf8 | src/actions/login.rs:63-64 | `String::from_utf8`: the string for well-formed input, an error otherwise; `DecodeEncode` shows every string's bytes are accepted and read back as it |
| Payload.ApplySpacing | src/payload.rs:5-17 | the result is the input with a space pushed after every second character, then trimmed and upper-cased; it holds no lower-case ASCII letter and is empty for empty input |
| Payload.Trim | src/payload.rs:16 | `trim` drops leading and trailing whitespace; `TrimInterleaved` states what it leaves of the spaced text |
| Payload.Upper | src/payload.rs:16 | upper-casing keeps the length and maps each character on its own |
| Payload.InterleavedAppend | src/payload.rs:8-15 | each pushed character is followed by a space exactly when it completes a pair |
| Payload.TrimInterleaved | src/payload.rs:16 | on text without whitespace, trimming the loop's output leaves exactly the pairs separated by single spaces |
| Payload.SpacedIsGrouped | src/payload.rs:8-16 | on text without whitespace the result is the upper-cased text in pairs separated by single spaces |
| Payload.SpacedLayout | src/payload.rs:8-16 | for n ≥ 1 characters without whitespace the result has n + (n − 1)/2 characters, a space at every third position, the upper-cased input elsewhere and no trailing space |
| Payload.SpacedRemoveSpaces | src/payload.rs:8-16 | deleting the spaces from the result gives the upper-cased input |
| Payload.SpacedHexOfText | src/payload.rs:8-16 | text that upper-cases to the hexadecimal of some bytes, in any mix of cases, is spaced into exactly the wire text of those bytes |
| Payload.SpacedHexLower | src/payload.rs:8-16 | spacing lower-case hexadecimal gives the wire text of its bytes |
| Payload.UpperHexLower | src/payload.rs:16 | upper-casing `hex::encode` gives `hex::encode_upper` |
| Payload.GroupedLayout | src/payload.rs:8-16 | the pairs layout has a space at every third position and the input characters elsewhere |
| Payload.RemoveSpacesGrouped | src/payload.rs:8-16 | removing the spaces from the pairs layout of text without whitespace gives the text back |
| Request.GetLength | src/request.rs:23-31 | the declared length is 0x14 for login, 0x04 for coordinates and heartbeat, 0x00 for logout and Invalid |
| Request.GetByValue | src/request.rs:33-41 | 0x01 to 0x04 name login, coordinates, heartbeat and logout; every other byte, 0x00 and 0x05 to 0xFF, is Invalid |
| Request.GetByValueToValue | src/request.rs:13-41 | reading a kind's own byte gives the kind back, Invalid included through 0x00 |
| Request.ToValue | src/request.rs:13-21 | the kind byte: 0x01 login, 0x02 coordinates, 0x03 heartbeat, 0x04 logout, 0x00 Invalid; `GetByValueToValue` shows `get_by_value` inverts it |
| Request.Parse | src/request.rs:52-73 | an empty frame is `InvalidRequestPacket`, one of one or two bytes is `InvalidRequestPacketPayloadLength`; from three bytes on the parse succeeds with kind `get_by_value(data[0])`, length `data[2]` and payload `data[3..]` verbatim, so the two other errors are unreachable |
| Request.DeclaredLengthFitsByte | src/request.rs:57-63 | the declared length of a parsed frame is at most 255 |
| Request.ParseIgnoresByteOne | src/request.rs:52-73 | frames that differ only at index 1 parse identically |
| Response.ToValue | src/response.rs:8-13 | success is 0x06 and error 0x07, the enum's discriminants, in both directions |
| Response.StatusIdentifiesType | src/response.rs:3-4 | the two codes differ, so a status byte identifies success or error |
| Validation.MessageNamesError | src/validation.rs:28-49 | each of the sixteen errors displays as its own fixed message, and reading the message back names that error |
| Validation.MessagesDistinct | src/validation.rs:28-49 | the messages are pairwise distinct, so an error string identifies its variant |
| Validation.Message | src/validation.rs:26-52 | the `Display` text of each of the sixteen errors; `MessageNamesError` and `MessagesDistinct` show each text names one error |
| Wire.RequestHeaderIsHex | src/actions/heartbeat.rs:38-39 | the `{:02x}` kind and `{:04x}` length are the hexadecimal of the frame's first three bytes |
| Wire.RequestHeader | src/actions/heartbeat.rs:37-39 | the `{:02x}` kind and `{:04x}` length the encoders format; `RequestHeaderIsHex` shows it is the hex of the frame's first three bytes |
| Wire.RequestTextIsWire | src/actions/heartbeat.rs:41-43 | spacing the header and the lower-case hexadecimal of a body gives the wire text of the frame |
| Wire.RequestFrameParses | src/request.rs:52-73 | a request frame parses back to its kind, its declared length and its body |
| Wire.RequestFrameText | src/actions/heartbeat.rs:131 | a frame's wire text is the header's three pairs, a space, then the body's pairs |
| Wire.ExampleId | src/actions/heartbeat.rs:131 | the id 24564 is the bytes `00 00 5F F4` |
| Wire.Reply | src/actions/heartbeat.rs:46-58 | a reply frame is the kind byte, then 0x07 exactly when it reports an error and 0x06 otherwise, then the bytes of the id text |
| Wire.ReplyTextIsWire | src/actions/heartbeat.rs:55-57 | spacing `{:02x}` kind, `{:02x}` status and the upper-case hexadecimal of the id text gives the reply frame's wire text |
| Wire.Received | src/udp_server.rs:33-35 | the 64-byte buffer holds exactly the first min(size, 64) bytes of the datagram: the whole datagram when it fits, its first 64 bytes otherwise |
| ClientId.MinimalHex | src/actions/heartbeat.rs:76 | `{:x}` of a byte is one digit below 0x10 and two otherwise |
| ClientId.PerByteHexDigits | src/actions/heartbeat.rs:76-78 | the concatenated per-byte text is all hexadecimal digits, non-empty for a non-empty slice, and its value is the per-byte reading |
| ClientId.PerByteHex | src/actions/heartbeat.rs:76 | the concatenation of each byte's `{:x}` form, in order; `PerByteHexDigits` gives its digits and value |
| ClientId.ParsePerByteHex | src/actions/heartbeat.rs:76-78 | parsing that text in base 16 fails on an empty slice, overflows above `u32::MAX`, and otherwise yields the per-byte reading |
| ClientId.Decode | src/actions/heartbeat.rs:76-78 | the decoded id is the per-byte reading; there is none for an empty slice or a reading above `u32::MAX` |
| ClientId.BigEndianZero | src/actions/heartbeat.rs:76-78 | the big-endian value is zero exactly when every byte is zero |
| ClientId.PerByteVersusBigEndian | src/actions/heartbeat.rs:76-78 | the per-byte reading never exceeds the big-endian value and equals it exactly when every byte after the first non-zero one is at least 0x10 |
| ClientId.DecodeBigEndianFrame | src/actions/heartbeat.rs:76-78 | the four bytes the encoders write for an id decode to the id exactly when they are unambiguous in that sense |
| ClientId.BigEndianFourBytes | src/actions/coordinates.rs:91-97 | four bytes have a big-endian value of at most `u32::MAX` |
| ClientId.DecodeFourBytes | src/actions/coordinates.rs:91-97 | a four-byte slice always decodes |
| ClientId.PerByteValueSnoc | src/actions/heartbeat.rs:76-78 | appending a byte shifts the reading by one digit below 0x10 and by two otherwise |
| ClientId.DecodeExample | src/actions/heartbeat.rs:131 | `00 00 5F F4` decodes to 24564 |
| ClientId.DecodeCollision | src/actions/heartbeat.rs:76-78 | `0A 0A` and `AA` both decode to 0xAA |
| ClientId.RoundTripFailsFor256 | src/actions/heartbeat.rs:76-78 | client 256 is written as `00 00 01 00` and decodes to 16 |
| Login.PayloadTextIsHex | src/actions/login.rs:23-32 | the formatted text upper-cases to the hexadecimal of the frame `[01, 00, 14] ++ username ++ [00] ++ password` |
| Login.GeneratePayload | src/actions/login.rs:22-35 | the encoder never fails and returns the wire text of `[01, 00, 14] ++ UTF-8 username ++ [00] ++ UTF-8 password` |
| Login.FrameDeclaresTwenty | src/actions/login.rs:26 | the length byte is 0x14 whatever the credentials' lengths |
| Login.FrameLayout | src/actions/login.rs:28-32 | the frame's bytes are `1, 0, 20`, the username, a zero byte, the password |
| Login.ExampleUsername | src/actions/login.rs:84 | "root" is the bytes 114 111 111 116 |
| Login.ExamplePassword | src/actions/login.rs:85 | "notsecurepassword" is its seventeen ASCII bytes |
| Login.ExampleFrameBytes | src/actions/login.rs:91-94 | root / notsecurepassword is the test's 25 frame bytes |
| Login.ExampleFrame | src/actions/login.rs:84-90 | root / notsecurepassword encodes to "01 00 14 72 6F 6F 74 00 6E 6F 74 73 65 63 75 72 65 70 61 73 73 77 6F 72 64" |
| Login.ExampleBinary | src/actions/login.rs:91-97 | that text reads back as the test's 25 bytes |
| Login.FirstZero | src/actions/login.rs:50-54 | the switch happens at the first zero byte: no zero before it, a zero at it unless there is none |
| Login.NonZero | src/actions/login.rs:51-56 | the password collects no zero byte |
| Login.Parse | src/actions/login.rs:42-66 | the loop keeps the username as the bytes before the first zero and the password as the non-zero bytes after it; a payload shorter than declared is `InvalidLoginPayload`, a half that is not UTF-8 panics |
| Login.PasswordGrows | src/actions/login.rs:55-56 | each non-zero byte after the separator is pushed onto the password |
| Login.SplitJoined | src/actions/login.rs:50-60 | the halves are split back out of `u ++ [0] ++ p` when neither contains a zero |
| Login.ParseJoined | src/actions/login.rs:42-66 | credentials without NUL characters, sent as `u ++ [0] ++ p` with at least the declared length, parse back to themselves |
| Login.NoSeparator | src/actions/login.rs:50-60 | a payload without a zero byte becomes the username in full, with an empty password and no error |
| Login.HalvesZeroFree | src/actions/login.rs:50-60 | every zero byte is dropped: neither half contains one |
| Login.FrameRoundTrip | src/actions/login.rs:22-66 | an encoded frame is framed as a login, then rejected as `InvalidLoginPayload` when its payload is shorter than 20 bytes and parsed back to its credentials otherwise |
| Login.ParseSpec | src/actions/login.rs:42-66 | `Login::parse`: `InvalidLoginPayload` for fewer bytes than declared, otherwise the halves at the first zero byte with every zero dropped, and a panic when a half is not UTF-8; `Parse`, `ParseJoined` and `NoSeparator` state it |
| Heartbeat.GeneratePayload | src/actions/heartbeat.rs:36-44 | the encoder returns the wire text of `03 00 04` and the id's four big-endian bytes, always seven tokens (20 characters) |
| Heartbeat.ExamplePayload | src/actions/heartbeat.rs:128-133 | client 24564 encodes to "03 00 04 00 00 5F F4" |
| Heartbeat.GenerateResponse | src/actions/heartbeat.rs:46-59 | the reply is the wire text of `[03, status] ++ bytes of the id text`, status 0x07 exactly when it reports an error |
| Heartbeat.Parse | src/actions/heartbeat.rs:68-95 | a payload shorter than declared is `InvalidHeartbeatPayload`; an id that does not decode is `InvalidClientId`; the result is a record exactly when the id decodes and the store returns a user with a record id, and it then carries the clock, the source address and that record id |
| Heartbeat.LookupOnlyAfterDecode | src/actions/heartbeat.rs:73-81 | the store is consulted only after the id decodes |
| Heartbeat.LookupOutcomes | src/actions/heartbeat.rs:80-91 | a store error comes back unchanged; a user without a record id is `InvalidUserId` |
| Heartbeat.FrameRoundTrip | src/actions/heartbeat.rs:36-95 | an encoded frame is framed as a heartbeat with length 4 and its id's bytes; the decoder reads the id back exactly when its bytes are unambiguous |
| Heartbeat.SendsWrongClient | src/actions/heartbeat.rs:36-95 | the frame for client 256 is decoded as the frame for client 16 |
| Logout.GeneratePayload | src/actions/logout.rs:23-31 | the encoder returns the wire text of `04 00 00` and the id's four big-endian bytes |
| Logout.GenerateResponse | src/actions/logout.rs:33-45 | the reply is the wire text of `[04, status] ++ bytes of the id text` |
| Logout.Parse | src/actions/logout.rs:53-63 | the decoder succeeds exactly for a non-empty payload of at most the declared length whose per-byte reading fits a u32, and yields that reading; a failure is `InvalidLogoutPayload` when the payload is too long and `InvalidClientId` otherwise; no store is consulted |
| Logout.ZeroLengthNeverParses | src/actions/logout.rs:53-63 | with declared length 0 the decoder never succeeds: an empty payload is `InvalidClientId`, any other is `InvalidLogoutPayload` |
| Logout.GeneratedFrameRejected | src/actions/logout.rs:53-63 | an encoded frame is framed with length 0 and its payload is rejected |
| Logout.ExpectedText | src/actions/logout.rs:94 | the test's text "04 00 04 00 00 5F F4" is the wire text of the frame `04 00 04 00 00 5F F4` |
| Logout.ExampleText | src/actions/logout.rs:23-31 | client 24564 encodes to "04 00 00 00 00 5F F4" |
| Logout.ExampleMismatch | src/actions/logout.rs:91-100 | the encoder's text for 24564 is not the text its test expects |
| Logout.ExpectedFrameBytes | src/actions/logout.rs:98-99 | the expected text reads back as `04 00 04 00 00 5F F4` |
| Logout.ExpectedFrameAccepted | src/actions/logout.rs:53-63 | that payload decodes to 24564 under length 4 and is rejected under length 0 |
| Coordinates.GeneratePayload | src/actions/coordinates.rs:45-71 | a latitude or longitude that does not convert gives its own error text; otherwise the wire text of `02 00 04`, the id's four bytes and both coordinates' bytes |
| Coordinates.PayloadTextIsWire | src/actions/coordinates.rs:64-70 | the formatted text spaces into the frame's wire text |
| Coordinates.DeclaredLengthDisagrees | src/actions/coordinates.rs:45-71 | the length byte says 4 while 20 payload bytes follow |
| Coordinates.ExampleFrame | src/actions/coordinates.rs:209 | client 24564 with the test's coordinate bytes is the test's 23-byte frame |
| Coordinates.GenerateResponse | src/actions/coordinates.rs:73-85 | the reply is the wire text of `[02, status] ++ bytes of the id text` |
| Coordinates.Parse | src/actions/coordinates.rs:87-171 | the record starts at 0.0, 0.0 and each coordinate is stored once read; the checks run in order: length, id slice, store, latitude slice and conversion, longitude slice and conversion, each with its own error, and a user without a record id is "invalid user id" |
| Coordinates.ClientIdAlwaysReads | src/actions/coordinates.rs:93-166 | four bytes always decode, so `InvalidClientId` can come only from the store |
| Coordinates.ShortIdIsEmpty | src/actions/coordinates.rs:88-169 | the decoder itself answers `ClientIdEmpty` exactly for a payload that passes the length check with fewer than four bytes; with four or more bytes that text can only be the store's error passed through |
| Coordinates.LookupBeforeCoordinates | src/actions/coordinates.rs:98-163 | a payload too short for the coordinates reports the store's error first, and fails anyway for a known user |
| Coordinates.IgnoresTail | src/actions/coordinates.rs:140-164 | bytes from index 20 on are never read |
| Coordinates.FrameRoundTrip | src/actions/coordinates.rs:45-171 | an encoded frame is framed with length 4; the coordinates come back as the float decoder reads their bytes, and the id is read back exactly when its bytes are unambiguous |
| Coordinates.ParseSpec | src/actions/coordinates.rs:87-171 | `Coordinates::parse`: the length, id, user, latitude and longitude checks in source order, each with its own error; `Parse` and the lemmas after it state it |
| Client.CheckResponseStatus | client/src/udp_client.rs:54-64 | the status check fails, with "ERROR: " and the message, exactly when the status is 0x07 |
| Client.ClientIdToU32 | client/src/udp_client.rs:85-93 | a missing id is "invalid client id"; an id text is accepted exactly when it is decimal digits, after an optional `+`, whose value fits a u32, and yields that value; otherwise the parse error's `Debug` form |
| Client.ClientIdRoundTrip | client/src/udp_client.rs:85-89 | every id's decimal text converts back to the id |
| Client.KindName | client/src/udp_client.rs:89 | the `{:?}` text of a `ParseIntError` kind, used in the error `ClientIdToU32` states |
| Client.ReadReply | client/src/udp_client.rs:161-193 | an Invalid request is "nothing to do"; an empty reply is "nothing is received"; one byte is "invalid client id"; from two bytes on, status 0x07 is "ERROR: login failed" and any other status gives the lossy text of bytes 2 onwards |
| Client.KindByteIgnored | client/src/udp_client.rs:171-172 | the reply's kind byte is never compared with the request's kind |
| Client.ReplyRoundTrip | client/src/udp_client.rs:178-185 | a success reply carrying an id's decimal text is read back as that text and converts to the id; an error reply is "ERROR: login failed" |
| Server.DebugString | src/udp_server.rs:98 | `{:?}` of a string is quoted |
| Server.UnescapeEscaped | src/udp_server.rs:98 | the escaped text reads back as the string |
| Server.DebugStringInjective | src/udp_server.rs:98 | different insert errors end the loop with different texts |
| Server.Respond | src/udp_server.rs:12-26 | `respond`: the reply text converted by `to_binary` is appended to what was sent, and nothing is sent when it does not convert; `RepliesKeepRunning` and `Exchange.RespondSendsReply` state it |
| Server.LoginStep | src/udp_server.rs:41-65 | the login branch: a decoder error ends the loop, a panic crashes it, otherwise the builder's reply; `LoginReplies` and `LoginPanicsAsWritten` state it |
| Server.HeartbeatStep | src/udp_server.rs:66-106 | the heartbeat branch: decode, insert, look the user up, reply; `HeartbeatReplies` states it |
| Server.LogoutStep | src/udp_server.rs:107-114 | the logout branch: a decoder error ends the loop, otherwise nothing is sent; `SilentKinds` and `GeneratedLogoutEndsLoop` state it |
| Server.CoordinatesStep | src/udp_server.rs:115-124 | the coordinates branch: decode, open the store and insert, any error ending the loop, and never a reply; `SilentKinds` and `DecodeErrorsTerminate` state it |
| Server.Dispatch | src/udp_server.rs:37-131 | one pass of the loop: a framing error or an unknown kind is skipped, otherwise the kind's branch runs; `FramingErrorContinues` and `InvalidKindContinues` state it |
| Server.Run | src/udp_server.rs:27-133 | the replies sent and how the loop ends over the datagrams received; `Launch` is proved equal to it and `RunStops` shows an ended loop stays ended |
| Server.Launch | src/udp_server.rs:27-133 | the loop's replies and ending are those of the step function over the datagrams received, after the configuration loads |
| Server.RunStops | src/udp_server.rs:32-133 | once the loop has ended, later datagrams change nothing |
| Server.RepliesKeepRunning | src/udp_server.rs:60-64 | a reply never ends the loop: text that does not convert is only reported, converted text is sent to the sender |
| Server.FramingErrorContinues | src/udp_server.rs:37-130 | a datagram has a framing error exactly when it has fewer than three bytes, and it is skipped without a reply |
| Server.InvalidKindContinues | src/udp_server.rs:125-127 | an unknown kind is skipped without a reply |
| Server.OnlyBufferRead | src/udp_server.rs:33-35 | only the first 64 bytes of a datagram matter |
| Server.LoginReplies | src/udp_server.rs:41-65 | a decodable login is answered with the reply builder's text for the user's decimal id, or for "0" with the error status when authentication fails; a builder error ends the loop and a builder panic crashes it |
| Server.LoginPanicsAsWritten | src/udp_server.rs:41-65 | with `generate_response` as written, a decodable login crashes the server |
| Server.HeartbeatReplies | src/udp_server.rs:66-106 | a failed insert ends the loop with the error quoted; a stored heartbeat is answered with success and the user's decimal id, or the error status and "000000000" when the user cannot be fetched |
| Server.SilentKinds | src/udp_server.rs:107-124 | logout and coordinates requests never get a reply |
| Server.LogoutNeverDeletes | src/udp_server.rs:107-114 | the logout deletion is never called |
| Server.DecodeErrorsTerminate | src/udp_server.rs:41-124 | every decoder error ends the loop with the decoder's text |
| Server.GeneratedLogoutEndsLoop | src/udp_server.rs:107-114 | every logout frame the client's encoder builds ends the loop with `InvalidLogoutPayload` |
| Legacy.ParsePacket | src/main.rs:34-46 | the unwrapped frame parser panics exactly on fewer than three bytes and otherwise agrees with the library's |
| Legacy.LoginParse | src/main.rs:56-83 | the binary returns credentials exactly where the library's decoder does, the same ones; a short payload or a half that is not UTF-8 panics |
| Legacy.ClientIdParse | src/main.rs:93-126 | the heartbeat and logout id decoder panics exactly on more bytes than declared, an empty payload, or a reading above `u32::MAX`, and otherwise yields the per-byte reading |
| Legacy.CoordinatesParse | src/main.rs:138-175 | the decoder returns exactly when the payload has the declared length and 20 bytes and both coordinates convert; it yields the id's per-byte reading and both coordinates |
| Legacy.Served | src/main.rs:186-225 | every datagram before the first that panics is decoded, and that one panics |
| Legacy.Serve | src/main.rs:182-227 | the loop decodes the datagrams received until the first panic, as `Served` says |
| Legacy.ServedStops | src/main.rs:186-225 | after a panic, later datagrams change nothing |
| Legacy.Step | src/main.rs:186-221 | one pass of the first binary's loop: buffer, frame, then the kind's decoder, an unknown kind panicking; `PanicsWhereServerSkips` and the per-kind lemmas state it |
| Legacy.PanicsWhereServerSkips | src/main.rs:186-221 | a short datagram or an unknown kind panics here and is skipped by the library server |
| Legacy.HeartbeatLengthChecksOpposite | src/main.rs:93-104 | a payload shorter than declared is read here and refused by the library; a longer one panics here and passes the library's check |
| Legacy.LogoutAgrees | src/main.rs:114-126 | the logout decoders agree, every library error being a panic here |
| Legacy.CoordinatesAgree | src/main.rs:138-175 | wherever the library's decoder succeeds, this one reads the same coordinates, without the store |
| Legacy.LoginFrameDecodes | src/main.rs:56-83 | a login frame from the client's encoder that fits the 64-byte buffer decodes to its credentials once its payload reaches 20 bytes, and panics below |
| Legacy.HeartbeatFrameDecodes | src/main.rs:93-104 | a heartbeat frame from the client's encoder always decodes, to its own id exactly when the id's bytes are unambiguous |
| Legacy.LogoutFramePanics | src/main.rs:114-126 | a logout frame from the client's encoder always panics |
| Legacy.CoordinatesFrameDecodes | src/main.rs:138-175 | a coordinates frame from the client's encoder decodes exactly when both coordinates convert |
| Exchange.RespondSendsReply | src/udp_server.rs:12-26 | under a conversion that inverts the wire text, a reply built as wire text reaches the socket as the reply frame's own bytes |
| Exchange.StandInInverts | src/udp_server.rs:17 | the reference conversion inverts the wire text of every byte string, so that requirement can be met |
| Exchange.InvertsMeetsLoginTest | src/actions/login.rs:91-97 | any conversion that inverts the wire text turns the login test's text into the test's 25 bytes |
| Exchange.HeartbeatExchange | src/udp_server.rs:66-106 | under a conversion that inverts the wire text, a heartbeat whose id bytes are unambiguous, with every store call succeeding, gets one reply, from which the client reads the user's id |
| Exchange.LogoutExchange | src/udp_server.rs:107-114 | the client's logout request ends the server's loop with nothing sent |

## Left out

- The user store, the heartbeat and coordinates tables, and the credential
  check (`src/db.rs`, `src/user.rs`, `Login::authenticate`, the `create`
  methods, `Logout::logout`) are database code. They are fields of
  `Server.Env` (`authenticate`, `userByClientId`, `userById`, `connect`,
  `createHeartbeat`, `createCoordinates`, `logout`), or function
  parameters of the decoders, returning success or an error text.
  - Opening a store (`User::new`, `Heartbeat::new`, `Coordinates::new`) is
    folded into `connect` or into the lookup it precedes.
  - Each field takes the datagram's index, so answers may change over time.
- `src/config.rs` (file and environment input, TOML) is not part of this
  model. Loading the configuration is the `loadConfig` result.
- The web server, the websocket stream, the map UI and the client's
  orchestration (`client/src/main.rs`, `client/src/lib.rs`: CLI, the
  spawned heartbeat task, timeouts, JSON loading) are not part of this
  model.
- IEEE 754 doubles are not modelled. A coordinate is its 64-bit pattern
  (`Records.F64`). `IEEE754::to_64bit_hex`, `to_64bit_float` and
  `to_64bit` are the opaque parameters `toHex` and `toFloat`; both
  servers' decoders are given the same `toFloat`. The client's parsing of
  `f64` text is not part of this model.
- Coordinates.GeneratePayload: `toHex` returns whole bytes, so the model
  takes `IEEE754::to_64bit_hex` to write complete, zero-padded pairs of
  digits. The source supports this only through the two test values at
  `src/actions/coordinates.rs:209`.
- `Payload::to_binary` is not defined in the source. The server's
  conversion is the `toBinary` field of `Server.Env`, and nothing is
  assumed about it in general.
  - `Bytes.SpacedHexDecode`, the exact inverse of the wire text, is the
    reference conversion. It is used for the test vectors
    (`Login.ExampleBinary`, `Logout.ExpectedFrameBytes`).
  - The client's conversion of its own request text is not modelled. The
    exchanges hand the server the frame's bytes directly.
- Exchange.RespondSendsReply: holds only under `Exchange.InvertsWireText`,
  the requirement that the conversion reads any wire text back as its
  bytes. `Exchange.StandInInverts` shows `SpacedHexDecode` meets it.
- Exchange.HeartbeatExchange: holds only under `Exchange.InvertsWireText`
  for the server's `toBinary`, as above.
- `ValidationError::to_hex` is `todo!()` and never called.
- `Login::generate_response` is `todo!()`, declared without parameters but
  called with two. It is the `loginResponse` field of `Server.Env`, and
  `Server.Unimplemented` is the behaviour as written.
- Sockets (bind, connect, send and receive failures), the clock
  (`Utc::now`, a parameter) and all `println!`/`eprint!` logging are not
  modelled. A failed send is reported by the source and ignored; the model
  sends every reply whose text converts.
- Server.Launch: `launch` loops forever over datagrams as they arrive. The
  model runs it over a finite sequence of received datagrams, and
  `Running` means they ran out first.
- Legacy.Serve: the timestamps the first binary reads are only printed and
  are left out of `Decoded`.
- Payload.ApplySpacing: `to_uppercase` is modelled on ASCII letters only.
  Every other character is kept as it is (the encoders only ever pass
  hexadecimal digits).
- Server.DebugString: escapes quotes, backslashes, `\n`, `\r`, `\t` and
  `\0`. The other escapes `{:?}` applies to non-printable characters are
  not modelled.
- Legacy.LoginParse: the first binary's loop is the same loop as the
  library decoder's, whose iteration `Login.Parse` models. The first
  binary's decoder is stated over the same split functions rather than as
  a second copy of the loop.
- Client.ReadReply: the branch for a received buffer with no first byte
  cannot be reached once at least one byte was received. It is left out.
- `usize` is taken to be 64 bits wide.
