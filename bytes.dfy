/**
 * Bytes, fixed-width integers and their hexadecimal renderings, as the
 * protocol's encoders format them (`{:02x}`, `{:04x}`, `{:08x}`,
 * `hex::encode`, `hex::encode_upper`) and as the tests compare them
 * (space-separated upper-case pairs).
 */
module Bytes {
  import opened Wrappers

  type Byte = b: int | 0 <= b < 256

  const U32_MAX: nat := 0xFFFF_FFFF
  type U32 = n: int | 0 <= n <= U32_MAX

  /** `usize` on the 64-bit targets the server is built for. */
  const USIZE_MAX: nat := 0xFFFF_FFFF_FFFF_FFFF

  /** Unsigned big-endian value of a byte string (fixed-width decoding). */
  function BigEndian(bs: seq<Byte>): nat
  {
    if bs == [] then 0 else BigEndian(bs[..|bs| - 1]) * 256 + bs[|bs| - 1]
  }

  /** The four bytes that `format!("{:08x}", n)` spells out: big-endian `n`. */
  function BE4(n: U32): (r: seq<Byte>)
    ensures |r| == 4 && BigEndian(r) == n
  {
    var q1 := n / 256;
    var q2 := q1 / 256;
    var q3 := q2 / 256;
    var r := [q3, q2 % 256, q1 % 256, n % 256];
    assert BigEndian([q3]) == q3 by { assert [q3][..0] == []; }
    assert BigEndian([q3, q2 % 256]) == q3 * 256 + q2 % 256 by { assert [q3, q2 % 256][..1] == [q3]; }
    assert q3 * 256 + q2 % 256 == q2;
    assert BigEndian(r[..3]) == q1 by { assert r[..3][..2] == [q3, q2 % 256]; }
    assert r[..3] == [q3, q2 % 256, q1 % 256];
    r
  }

  /** The lower-case hexadecimal digit for `d`: `0`-`9`, then `a`-`f`. */
  function LowerDigit(d: nat): char
    requires d < 16
  {
    if d < 10 then ('0' as int + d) as char else ('a' as int + d - 10) as char
  }

  /** The upper-case hexadecimal digit for `d`: `0`-`9`, then `A`-`F`. */
  function UpperDigit(d: nat): char
    requires d < 16
  {
    if d < 10 then ('0' as int + d) as char else ('A' as int + d - 10) as char
  }

  /** `format!("{:02x}", b)`. */
  function PairLower(b: Byte): string
  {
    [LowerDigit(b / 16), LowerDigit(b % 16)]
  }

  /** `format!("{:02X}", b)`, one token of the wire text. */
  function PairUpper(b: Byte): string
  {
    [UpperDigit(b / 16), UpperDigit(b % 16)]
  }

  /** `hex::encode`: two lower-case digits per byte. */
  function HexLower(bs: seq<Byte>): (r: string)
    ensures |r| == 2 * |bs|
  {
    if bs == [] then "" else PairLower(bs[0]) + HexLower(bs[1..])
  }

  /** `hex::encode_upper`: two upper-case digits per byte. */
  function HexUpper(bs: seq<Byte>): (r: string)
    ensures |r| == 2 * |bs|
  {
    if bs == [] then "" else PairUpper(bs[0]) + HexUpper(bs[1..])
  }

  lemma {:induction false} HexLowerConcat(a: seq<Byte>, b: seq<Byte>)
    ensures HexLower(a + b) == HexLower(a) + HexLower(b)
  {
    if a != [] {
      HexLowerConcat(a[1..], b);
      assert (a + b)[0] == a[0] && (a + b)[1..] == a[1..] + b;
    } else {
      assert a + b == b;
    }
  }

  /** The wire text: one upper-case pair per byte, pairs separated by one space. */
  function SpacedHex(bs: seq<Byte>): (r: string)
    ensures |bs| > 0 ==> |r| == 3 * |bs| - 1
    ensures bs == [] ==> r == ""
  {
    if bs == [] then ""
    else if |bs| == 1 then PairUpper(bs[0])
    else PairUpper(bs[0]) + " " + SpacedHex(bs[1..])
  }

  /** Value of an upper-case hexadecimal digit, or None. */
  function UpperDigitValue(c: char): (r: Option<nat>)
    ensures r.Some? ==> r.value < 16 && UpperDigit(r.value) == c
    ensures forall d: nat :: d < 16 && UpperDigit(d) == c ==> r == Some(d)
  {
    if '0' <= c <= '9' then Some(c as int - '0' as int)
    else if 'A' <= c <= 'F' then Some(c as int - 'A' as int + 10)
    else None
  }

  function PairValue(c0: char, c1: char): Option<Byte>
  {
    match (UpperDigitValue(c0), UpperDigitValue(c1))
    case (Some(h), Some(l)) => Some(h * 16 + l)
    case _ => None
  }

  /**
   * Reads the wire text back into bytes: the inverse that the encoders'
   * tests expect of the text-to-binary conversion.
   */
  function SpacedHexDecode(text: string): Option<seq<Byte>>
  {
    if text == "" then Some([])
    else if |text| < 2 then None
    else
      match PairValue(text[0], text[1])
      case None => None
      case Some(b) =>
        if |text| == 2 then Some([b])
        else if |text| > 3 && text[2] == ' ' then
          match SpacedHexDecode(text[3..])
          case None => None
          case Some(rest) => Some([b] + rest)
        else None
  }

  lemma PairUpperDecodes(b: Byte)
    ensures PairValue(PairUpper(b)[0], PairUpper(b)[1]) == Some(b)
  {
    assert UpperDigit(b / 16) == PairUpper(b)[0];
    assert UpperDigit(b % 16) == PairUpper(b)[1];
  }

  lemma DecodeOneToken(b: Byte)
    ensures SpacedHexDecode(PairUpper(b)) == Some([b])
  {
    PairUpperDecodes(b);
  }

  lemma DecodeTokenThenRest(b: Byte, t: string)
    requires t != ""
    ensures SpacedHexDecode(PairUpper(b) + " " + t) ==
      match SpacedHexDecode(t)
      case None => None
      case Some(rest) => Some([b] + rest)
  {
    var text := PairUpper(b) + " " + t;
    PairUpperDecodes(b);
    assert text[0] == PairUpper(b)[0] && text[1] == PairUpper(b)[1];
    assert text[2] == ' ' && text[3..] == t;
  }

  /** The wire text determines its bytes: reading it back gives them exactly. */
  lemma {:induction false} SpacedHexRoundTrip(bs: seq<Byte>)
    ensures SpacedHexDecode(SpacedHex(bs)) == Some(bs)
  {
    if |bs| == 1 {
      DecodeOneToken(bs[0]);
      assert [bs[0]] == bs;
    } else if |bs| > 1 {
      SpacedHexRoundTrip(bs[1..]);
      DecodeTokenThenRest(bs[0], SpacedHex(bs[1..]));
      assert [bs[0]] + bs[1..] == bs;
    }
  }

  /** The wire text of a concatenation is the two texts joined by one space. */
  lemma {:induction false} SpacedHexConcat(a: seq<Byte>, b: seq<Byte>)
    requires a != [] && b != []
    ensures SpacedHex(a + b) == SpacedHex(a) + " " + SpacedHex(b)
  {
    assert (a + b)[0] == a[0] && (a + b)[1..] == a[1..] + b;
    if |a| > 1 {
      SpacedHexConcat(a[1..], b);
    }
  }

  /** Two byte strings with the same wire text are equal. */
  lemma SpacedHexInjective(a: seq<Byte>, b: seq<Byte>)
    requires SpacedHex(a) == SpacedHex(b)
    ensures a == b
  {
    SpacedHexRoundTrip(a);
    SpacedHexRoundTrip(b);
  }
}
