/**
 * How the server reads a client id out of payload bytes: each byte is
 * formatted with `{:x}` (one digit below 0x10, two otherwise), the pieces
 * are concatenated and the result is parsed with `u32::from_str_radix(_, 16)`.
 */
module ClientId {
  import opened Wrappers
  import opened Bytes
  import opened NumParse

  /** `format!("{:x}", b)`: the shortest lower-case hexadecimal form. */
  function MinimalHex(b: Byte): (r: string)
    ensures |r| == (if b < 16 then 1 else 2)
  {
    if b < 16 then [LowerDigit(b)] else PairLower(b)
  }

  /** The concatenation of every byte's `{:x}` form. */
  function PerByteHex(data: seq<Byte>): string
  {
    if data == [] then "" else PerByteHex(data[..|data| - 1]) + MinimalHex(data[|data| - 1])
  }

  lemma LowerDigitValue(d: nat)
    requires d < 16
    ensures ToDigit(LowerDigit(d), 16) == Some(d)
  {
  }

  /** The number the concatenated text spells in base 16: each byte shifts the value by its own width. */
  function PerByteValue(data: seq<Byte>): nat
  {
    if data == [] then 0
    else
      var b := data[|data| - 1];
      PerByteValue(data[..|data| - 1]) * (if b < 16 then 16 else 256) + b
  }

  /** The per-byte text is all hexadecimal digits and spells `PerByteValue`. */
  lemma {:induction false} PerByteHexDigits(data: seq<Byte>)
    ensures AllDigits(PerByteHex(data), 16)
    ensures data != [] ==> PerByteHex(data) != []
    ensures Horner(0, PerByteHex(data), 16) == PerByteValue(data)
  {
    if data != [] {
      var init := data[..|data| - 1];
      var b := data[|data| - 1];
      PerByteHexDigits(init);
      var h := PerByteHex(init);
      if b < 16 {
        LowerDigitValue(b);
        HornerAppend(0, h, LowerDigit(b), 16);
      } else {
        LowerDigitValue(b / 16);
        LowerDigitValue(b % 16);
        HornerAppend(0, h, LowerDigit(b / 16), 16);
        HornerAppend(0, h + [LowerDigit(b / 16)], LowerDigit(b % 16), 16);
        assert h + PairLower(b) == h + [LowerDigit(b / 16)] + [LowerDigit(b % 16)];
      }
    }
  }

  lemma ParsePerByteHex(data: seq<Byte>)
    ensures data == [] ==> ParseUnsigned(PerByteHex(data), 16, U32_MAX) == Err(Empty)
    ensures data != [] ==> ParseUnsigned(PerByteHex(data), 16, U32_MAX) ==
                           if PerByteValue(data) <= U32_MAX then Ok(PerByteValue(data)) else Err(PosOverflow)
  {
    PerByteHexDigits(data);
    if data != [] {
      ParseUnsignedDigits(PerByteHex(data), 16, U32_MAX);
    }
  }

  /**
   * The decoded id, or None where `from_str_radix` fails: on an empty
   * slice, or when the per-byte reading exceeds `u32::MAX`.
   */
  function Decode(data: seq<Byte>): (r: Option<U32>)
    ensures data == [] ==> r == None
    ensures data != [] ==> r == if PerByteValue(data) <= U32_MAX then Some(PerByteValue(data)) else None
  {
    ParsePerByteHex(data);
    match ParseUnsigned(PerByteHex(data), 16, U32_MAX)
    case Ok(v) => Some(v)
    case Err(_) => None
  }

  /** Every byte after the first non-zero byte is at least 0x10. */
  predicate Unambiguous(data: seq<Byte>)
  {
    forall i, j :: 0 <= i < j < |data| && data[i] != 0 ==> data[j] >= 16
  }

  lemma {:induction false} BigEndianZero(data: seq<Byte>)
    ensures BigEndian(data) == 0 <==> forall i :: 0 <= i < |data| ==> data[i] == 0
  {
    if data != [] {
      var init := data[..|data| - 1];
      BigEndianZero(init);
      assert forall i :: 0 <= i < |init| ==> init[i] == data[i];
    }
  }

  /**
   * The per-byte reading never exceeds the big-endian value of the bytes,
   * and the two agree exactly when every byte after the first non-zero
   * one is at least 0x10.
   */
  lemma {:induction false} PerByteVersusBigEndian(data: seq<Byte>)
    ensures PerByteValue(data) <= BigEndian(data)
    ensures PerByteValue(data) == BigEndian(data) <==> Unambiguous(data)
  {
    if data != [] {
      var init := data[..|data| - 1];
      var b := data[|data| - 1];
      PerByteVersusBigEndian(init);
      assert BigEndian(data) == BigEndian(init) * 256 + b;
      if Unambiguous(data) {
        forall i, j | 0 <= i < j < |init| && init[i] != 0 ensures init[j] >= 16 {
          assert data[i] == init[i] && data[j] == init[j];
        }
      }
      if b >= 16 {
        if Unambiguous(init) {
          forall i, j | 0 <= i < j < |data| && data[i] != 0 ensures data[j] >= 16 {
            if j < |data| - 1 { assert data[i] == init[i] && data[j] == init[j]; }
          }
        }
      } else if BigEndian(init) == 0 {
        BigEndianZero(init);
        assert forall i :: 0 <= i < |init| ==> data[i] == init[i];
      } else {
        BigEndianZero(init);
        var i :| 0 <= i < |init| && init[i] != 0;
        assert data[i] != 0 && i < |data| - 1;
        assert !Unambiguous(data);
      }
    }
  }

  /** The fixed-width reading of a u32's four bytes and the per-byte reading agree under the same condition. */
  lemma DecodeBigEndianFrame(n: U32)
    ensures Decode(BE4(n)) == Some(n) <==> Unambiguous(BE4(n))
  {
    PerByteVersusBigEndian(BE4(n));
  }

  lemma BigEndianFourBytes(data: seq<Byte>)
    requires |data| == 4
    ensures BigEndian(data) <= U32_MAX
  {
    var d0: int, d1: int, d2: int, d3: int := data[0], data[1], data[2], data[3];
    var p3 := data[..3];
    var p2 := p3[..2];
    var p1 := p2[..1];
    assert p1[..0] == [];
    assert BigEndian(p1) == d0;
    assert BigEndian(p2) == d0 * 256 + d1;
    assert BigEndian(p3) == (d0 * 256 + d1) * 256 + d2;
    assert BigEndian(data) == ((d0 * 256 + d1) * 256 + d2) * 256 + d3;
  }

  /** A four-byte slice always decodes: it is never empty and never exceeds `u32::MAX`. */
  lemma DecodeFourBytes(data: seq<Byte>)
    requires |data| == 4
    ensures Decode(data).Some?
  {
    PerByteVersusBigEndian(data);
    BigEndianFourBytes(data);
  }

  /** Appending a byte shifts the reading by that byte's width. */
  lemma PerByteValueSnoc(init: seq<Byte>, b: Byte)
    ensures PerByteValue(init + [b]) == PerByteValue(init) * (if b < 16 then 16 else 256) + b
  {
    assert (init + [b])[..|init|] == init;
  }

  /** The documented heartbeat example: 00 00 5F F4 is client 24564. */
  lemma DecodeExample()
    ensures Decode([0x00, 0x00, 0x5F, 0xF4]) == Some(24564)
  {
    PerByteValueSnoc([], 0x00);
    PerByteValueSnoc([0x00], 0x00);
    PerByteValueSnoc([0x00, 0x00], 0x5F);
    PerByteValueSnoc([0x00, 0x00, 0x5F], 0xF4);
    assert [0x00, 0x00, 0x5F] + [0xF4] == [0x00, 0x00, 0x5F, 0xF4];
  }

  /** Distinct payloads collide: 0A 0A and AA both decode to 0xAA. */
  lemma DecodeCollision()
    ensures Decode([0x0A, 0x0A]) == Decode([0xAA]) == Some(0xAA)
  {
    var two: seq<Byte> := [0x0A, 0x0A];
    assert two[..1] == [0x0A] && two[..1][..0] == [];
    var one: seq<Byte> := [0xAA];
    assert one[..0] == [];
  }

  /** Client 256 is sent as 00 00 01 00 but read back as client 16. */
  lemma RoundTripFailsFor256()
    ensures BE4(256) == [0, 0, 1, 0]
    ensures Decode(BE4(256)) == Some(16)
  {
    assert BE4(256) == [0, 0, 1, 0];
    PerByteValueSnoc([], 0);
    PerByteValueSnoc([0], 0);
    PerByteValueSnoc([0, 0], 1);
    PerByteValueSnoc([0, 0, 1], 0);
    assert [0, 0, 1] + [0] == [0, 0, 1, 0];
  }
}
