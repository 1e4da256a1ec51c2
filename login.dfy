/**
 * The login request: its encoder (credentials as spaced hexadecimal wire
 * text) and its decoder, which splits the payload on zero bytes.
 */
module Login {
  import opened Wrappers
  import opened Bytes
  import opened Payload
  import Utf8
  import Request
  import opened Validation

  /** The bytes of a login frame for the given credentials. */
  function Frame(username: string, password: string): seq<Byte>
  {
    [Request.ToValue(Request.Login), 0x00, Request.GetLength(Request.Login)]
      + Utf8.Encode(username) + [0x00] + Utf8.Encode(password)
  }

  /**
   * The text the encoder hands to `apply_spacing`: kind as `{:02x}`, length
   * as `{:04x}`, the username upper-case hex, "00", the password lower-case hex.
   */
  function PayloadText(username: string, password: string): string
  {
    PairLower(Request.ToValue(Request.Login))
      + PairLower(0) + PairLower(Request.GetLength(Request.Login))
      + HexUpper(Utf8.Encode(username)) + "00" + HexLower(Utf8.Encode(password))
  }

  lemma PayloadTextIsHex(username: string, password: string)
    ensures Upper(PayloadText(username, password)) == HexUpper(Frame(username, password))
  {
    var u := Utf8.Encode(username);
    var p := Utf8.Encode(password);
    var header: seq<Byte> := [0x01, 0x00, 0x14];
    assert "00" == PairLower(0);
    UpperPair(0x01);
    UpperPair(0x00);
    UpperPair(0x14);
    UpperHexUpper(u);
    UpperHexLower(p);
    var t1 := PairLower(0x01) + PairLower(0) + PairLower(0x14);
    UpperConcat(PairLower(0x01), PairLower(0));
    UpperConcat(PairLower(0x01) + PairLower(0), PairLower(0x14));
    UpperConcat(t1, HexUpper(u));
    UpperConcat(t1 + HexUpper(u), "00");
    UpperConcat(t1 + HexUpper(u) + "00", HexLower(p));
    assert HexUpper(header) == PairUpper(0x01) + PairUpper(0) + PairUpper(0x14) by {
      assert header[1..][1..][1..] == [];
    }
    assert HexUpper([0x00]) == PairUpper(0);
    HexUpperConcat(header, u);
    HexUpperConcat(header + u, [0x00]);
    HexUpperConcat(header + u + [0x00], p);
  }

  /**
   * `Login::generate_payload`: the wire text of the frame `[01, 00, 14]`, the
   * UTF-8 username, a zero byte and the UTF-8 password. It never fails.
   */
  method GeneratePayload(username: string, password: string) returns (r: Result<string, string>)
    ensures r == Ok(SpacedHex(Frame(username, password)))
  {
    var text := PayloadText(username, password);
    var spaced := ApplySpacing(text);
    PayloadTextIsHex(username, password);
    SpacedHexOfText(text, Frame(username, password));
    return Ok(spaced);
  }

  /** The declared length byte of a login frame is 0x14 whatever the credentials. */
  lemma FrameDeclaresTwenty(username: string, password: string)
    ensures |Frame(username, password)| == 4 + |Utf8.Encode(username)| + |Utf8.Encode(password)|
    ensures Frame(username, password)[2] == 0x14
  {
  }

  lemma ExampleUsername()
    ensures Utf8.Encode("root") == [114, 111, 111, 116]
  {
    var s := "root";
    assert s[0] as int == 114 && s[1] as int == 111 && s[2] as int == 111 && s[3] as int == 116;
    Utf8.EncodeAsciiBytes(s, [114, 111, 111, 116]);
  }

  lemma ExamplePassword()
    ensures Utf8.Encode("notsecurepassword") ==
      [110, 111, 116, 115, 101, 99, 117, 114, 101, 112, 97, 115, 115, 119, 111, 114, 100]
  {
    var s := "notsecurepassword";
    var e: seq<Byte> := [110, 111, 116, 115, 101, 99, 117, 114, 101, 112, 97, 115, 115, 119, 111, 114, 100];
    assert s[0] as int == e[0] && s[1] as int == e[1] && s[2] as int == e[2] && s[3] as int == e[3];
    assert s[4] as int == e[4] && s[5] as int == e[5] && s[6] as int == e[6] && s[7] as int == e[7];
    assert s[8] as int == e[8] && s[9] as int == e[9] && s[10] as int == e[10] && s[11] as int == e[11];
    assert s[12] as int == e[12] && s[13] as int == e[13] && s[14] as int == e[14] && s[15] as int == e[15];
    assert s[16] as int == e[16];
    Utf8.EncodeAsciiBytes(s, e);
  }

  lemma FrameLayout(username: string, password: string)
    ensures Frame(username, password) == [1, 0, 20] + Utf8.Encode(username) + [0] + Utf8.Encode(password)
  {
  }

  lemma ExampleJoin()
    ensures [1, 0, 20] + [114, 111, 111, 116] + [0]
            + [110, 111, 116, 115, 101, 99, 117, 114, 101, 112, 97, 115, 115, 119, 111, 114, 100] ==
      [1, 0, 20, 114, 111, 111, 116, 0, 110, 111, 116, 115, 101, 99, 117, 114, 101, 112, 97,
       115, 115, 119, 111, 114, 100]
  {
  }

  /** The documented example, root / notsecurepassword, as bytes. */
  lemma ExampleFrameBytes()
    ensures Frame("root", "notsecurepassword") ==
      [1, 0, 20, 114, 111, 111, 116, 0, 110, 111, 116, 115, 101, 99, 117, 114, 101, 112, 97,
       115, 115, 119, 111, 114, 100]
  {
    FrameLayout("root", "notsecurepassword");
    ExampleUsername();
    ExamplePassword();
    ExampleJoin();
  }

  lemma ExampleToken1() ensures SpacedHex([1, 0, 20, 114, 111]) == "01 00 14 72 6F" {}
  lemma ExampleToken2() ensures SpacedHex([111, 116, 0, 110, 111]) == "6F 74 00 6E 6F" {}
  lemma ExampleToken3() ensures SpacedHex([116, 115, 101, 99, 117]) == "74 73 65 63 75" {}
  lemma ExampleToken4() ensures SpacedHex([114, 101, 112, 97, 115]) == "72 65 70 61 73" {}
  lemma ExampleToken5() ensures SpacedHex([115, 119, 111, 114, 100]) == "73 77 6F 72 64" {}

  lemma SpacedHexFive(c1: seq<Byte>, c2: seq<Byte>, c3: seq<Byte>, c4: seq<Byte>, c5: seq<Byte>)
    requires c1 != [] && c2 != [] && c3 != [] && c4 != [] && c5 != []
    ensures SpacedHex(c1 + c2 + c3 + c4 + c5) ==
      SpacedHex(c1) + " " + SpacedHex(c2) + " " + SpacedHex(c3) + " " + SpacedHex(c4) + " " + SpacedHex(c5)
  {
    SpacedHexConcat(c1, c2);
    SpacedHexConcat(c1 + c2, c3);
    SpacedHexConcat(c1 + c2 + c3, c4);
    SpacedHexConcat(c1 + c2 + c3 + c4, c5);
  }

  lemma ExampleSplit()
    ensures [1, 0, 20, 114, 111, 111, 116, 0, 110, 111, 116, 115, 101, 99, 117, 114, 101, 112, 97,
             115, 115, 119, 111, 114, 100] ==
            [1, 0, 20, 114, 111] + [111, 116, 0, 110, 111] + [116, 115, 101, 99, 117]
            + [114, 101, 112, 97, 115] + [115, 119, 111, 114, 100]
  {
  }

  /**
   * The documented example as wire text: the string the encoder's test
   * expects, "01 00 14 72 6F 6F 74 00 6E 6F 74 73 65 63 75 72 65 70 61 73 73 77 6F 72 64".
   */
  lemma ExampleFrame()
    ensures SpacedHex(Frame("root", "notsecurepassword")) ==
      "01 00 14 72 6F" + " " + "6F 74 00 6E 6F" + " " + "74 73 65 63 75" + " " + "72 65 70 61 73" + " " + "73 77 6F 72 64"
  {
    ExampleFrameBytes();
    ExampleSplit();
    SpacedHexFive([1, 0, 20, 114, 111], [111, 116, 0, 110, 111], [116, 115, 101, 99, 117],
                  [114, 101, 112, 97, 115], [115, 119, 111, 114, 100]);
    ExampleToken1();
    ExampleToken2();
    ExampleToken3();
    ExampleToken4();
    ExampleToken5();
  }

  /** The example's wire text reads back as the example's bytes. */
  lemma ExampleBinary()
    ensures SpacedHexDecode("01 00 14 72 6F" + " " + "6F 74 00 6E 6F" + " " + "74 73 65 63 75" + " " + "72 65 70 61 73" + " " + "73 77 6F 72 64") ==
      Some([1, 0, 20, 114, 111, 111, 116, 0, 110, 111, 116, 115, 101, 99, 117, 114, 101, 112, 97,
            115, 115, 119, 111, 114, 100])
  {
    ExampleFrameBytes();
    ExampleFrame();
    SpacedHexRoundTrip(Frame("root", "notsecurepassword"));
  }

  // ---------------------------------------------------------------- decoding

  datatype Credentials = Credentials(username: string, password: string)

  /** Index of the first zero byte, or the length when there is none. */
  function FirstZero(c: seq<Byte>): (k: nat)
    ensures k <= |c|
    ensures k < |c| ==> c[k] == 0
    ensures forall i :: 0 <= i < k ==> c[i] != 0
  {
    if c == [] then 0 else if c[0] == 0 then 0 else 1 + FirstZero(c[1..])
  }

  /** The bytes that are not zero, in order. */
  function NonZero(c: seq<Byte>): (r: seq<Byte>)
    ensures 0 !in r
  {
    if c == [] then []
    else NonZero(c[..|c| - 1]) + (if c[|c| - 1] == 0 then [] else [c[|c| - 1]])
  }

  /** The username bytes: everything before the first zero. */
  function UsernameBytes(c: seq<Byte>): seq<Byte>
  {
    c[..FirstZero(c)]
  }

  /** The password bytes: every non-zero byte after the first zero. */
  function PasswordBytes(c: seq<Byte>): seq<Byte>
  {
    var k := FirstZero(c);
    if k < |c| then NonZero(c[k + 1..]) else []
  }

  /**
   * What `Login::parse` does: too few bytes is `InvalidLoginPayload`; otherwise
   * the split halves, and a panic when either half is not UTF-8.
   */
  function ParseSpec(payloadLength: nat, c: seq<Byte>): Outcome<Result<Credentials, string>>
  {
    if |c| < payloadLength then Returned(Err(Message(InvalidLoginPayload)))
    else
      match (Utf8.FromUtf8(UsernameBytes(c)), Utf8.FromUtf8(PasswordBytes(c)))
      case (Some(u), Some(p)) => Returned(Ok(Credentials(u, p)))
      case _ => Panicked
  }

  /** `Login::parse`: one pass over the payload, switching halves at the first zero. */
  method Parse(payloadLength: nat, c: seq<Byte>) returns (r: Outcome<Result<Credentials, string>>)
    ensures r == ParseSpec(payloadLength, c)
  {
    if |c| < payloadLength {
      return Returned(Err(Message(InvalidLoginPayload)));
    }
    var username: seq<Byte> := [];
    var password: seq<Byte> := [];
    var separatorFlag := false;
    ghost var k := FirstZero(c);
    for i := 0 to |c|
      invariant i <= k ==> !separatorFlag && username == c[..i] && password == []
      invariant k < i ==> separatorFlag && username == c[..k] && password == NonZero(c[k + 1..i])
    {
      if i < k {
        assert c[i] != 0 && c[..i + 1] == c[..i] + [c[i]];
      } else if i == k {
        assert c[i] == 0 && c[k + 1..i + 1] == [];
      } else {
        PasswordGrows(c, k, i);
      }
      if c[i] == 0 {
        separatorFlag := true;
        continue;
      }
      if separatorFlag {
        password := password + [c[i]];
      } else {
        username := username + [c[i]];
      }
    }
    if k < |c| {
      assert c[k + 1..] == c[k + 1..|c|];
    } else {
      assert c[..|c|] == c;
    }
    match Utf8.FromUtf8(username)
    case None => return Panicked;
    case Some(u) =>
      match Utf8.FromUtf8(password)
      case None => return Panicked;
      case Some(p) => return Returned(Ok(Credentials(u, p)));
  }

  /** One more byte after the separator adds itself to the password unless it is zero. */
  lemma PasswordGrows(c: seq<Byte>, k: nat, i: nat)
    requires k < i < |c|
    ensures NonZero(c[k + 1..i + 1]) == NonZero(c[k + 1..i]) + (if c[i] == 0 then [] else [c[i]])
  {
    assert c[k + 1..i + 1][..i - k - 1] == c[k + 1..i];
  }

  lemma {:induction false} NonZeroOfZeroFree(c: seq<Byte>)
    requires 0 !in c
    ensures NonZero(c) == c
  {
    if c != [] {
      NonZeroOfZeroFree(c[..|c| - 1]);
    }
  }

  /** The first zero is the zero that only non-zero bytes precede. */
  lemma {:induction false} FirstZeroAt(c: seq<Byte>, j: nat)
    requires j < |c| && c[j] == 0
    requires forall i :: 0 <= i < j ==> c[i] != 0
    ensures FirstZero(c) == j
  {
    if j > 0 {
      FirstZeroAt(c[1..], j - 1);
    }
  }

  /** Without any zero byte, the first zero is past the end. */
  lemma {:induction false} FirstZeroAbsent(c: seq<Byte>)
    requires 0 !in c
    ensures FirstZero(c) == |c|
  {
    if c != [] {
      assert c[0] in c;
      assert forall x :: x in c[1..] ==> x in c;
      FirstZeroAbsent(c[1..]);
    }
  }

  /** The username and password halves are split back out of `u ++ [0] ++ p`. */
  lemma SplitJoined(u: seq<Byte>, p: seq<Byte>)
    requires 0 !in u && 0 !in p
    ensures FirstZero(u + [0] + p) == |u|
    ensures UsernameBytes(u + [0] + p) == u && PasswordBytes(u + [0] + p) == p
  {
    var c := u + [0] + p;
    var k := |u|;
    assert c[..k] == u && c[k] == 0 && c[k + 1..] == p;
    forall i | 0 <= i < k ensures c[i] != 0 {
      assert c[i] == u[i];
      assert u[i] in u;
    }
    FirstZeroAt(c, k);
    NonZeroOfZeroFree(p);
    assert PasswordBytes(c) == NonZero(c[k + 1..]);
  }

  /**
   * Round trip: credentials without NUL characters, sent as `u ++ [0] ++ p`
   * with at least `payloadLength` bytes, parse back to themselves.
   */
  lemma ParseJoined(payloadLength: nat, username: string, password: string)
    requires '\0' !in username && '\0' !in password
    requires |Utf8.Encode(username)| + 1 + |Utf8.Encode(password)| >= payloadLength
    ensures ParseSpec(payloadLength, Utf8.Encode(username) + [0] + Utf8.Encode(password)) ==
            Returned(Ok(Credentials(username, password)))
  {
    Utf8.EncodeZeroFree(username);
    Utf8.EncodeZeroFree(password);
    SplitJoined(Utf8.Encode(username), Utf8.Encode(password));
    Utf8.DecodeEncode(username);
    Utf8.DecodeEncode(password);
  }

  /** A payload without a zero byte is all username, with an empty password and no error. */
  lemma NoSeparator(payloadLength: nat, c: seq<Byte>)
    requires 0 !in c && |c| >= payloadLength
    requires Utf8.Valid(c)
    ensures ParseSpec(payloadLength, c) == Returned(Ok(Credentials(Utf8.Lossy(c), "")))
  {
    FirstZeroAbsent(c);
    assert c[..|c|] == c;
    assert Utf8.Encode("") == [];
    Utf8.DecodeEncode("");
  }

  /** Every zero byte is dropped: neither half contains one. */
  lemma HalvesZeroFree(c: seq<Byte>)
    ensures 0 !in UsernameBytes(c) && 0 !in PasswordBytes(c)
  {
    var k := FirstZero(c);
    assert forall i :: 0 <= i < k ==> c[..k][i] == c[i];
  }

  /**
   * A frame built by the encoder and read back through the frame parser:
   * credentials shorter than the declared 20 bytes are rejected, longer
   * ones come back unchanged.
   */
  lemma FrameRoundTrip(username: string, password: string)
    requires '\0' !in username && '\0' !in password
    ensures var n := |Utf8.Encode(username)| + 1 + |Utf8.Encode(password)|;
      && Request.Parse(Frame(username, password)).Ok?
      && var packet := Request.Parse(Frame(username, password)).value;
      && packet.requestType == Request.Login
      && ParseSpec(packet.payloadLength, packet.payload) ==
         if n < 0x14 then Returned(Err(Message(InvalidLoginPayload)))
         else Returned(Ok(Credentials(username, password)))
  {
    var f := Frame(username, password);
    var body := Utf8.Encode(username) + [0] + Utf8.Encode(password);
    assert f[3..] == body;
    if |body| >= 0x14 {
      ParseJoined(0x14, username, password);
    }
  }
}
