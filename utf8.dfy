/**
 * UTF-8 as RFC 3629 defines it: the encoding Rust strings are stored in
 * (`String::as_bytes`, `hex::encode`), the strict decoder
 * (`String::from_utf8`) and the lossy one (`String::from_utf8_lossy`,
 * which puts U+FFFD in place of each maximal ill-formed subsequence).
 */
module Utf8 {
  import opened Wrappers
  import opened Bytes

  const REPLACEMENT: char := '\U{FFFD}'

  /** The one to four bytes of a scalar value (section 3 of RFC 3629). */
  function EncodeChar(c: char): (r: seq<Byte>)
    ensures 1 <= |r| <= 4
  {
    var n := c as int;
    if n < 0x80 then [n]
    else if n < 0x800 then [0xC0 + n / 64, 0x80 + n % 64]
    else if n < 0x1_0000 then [0xE0 + n / 64 / 64, 0x80 + n / 64 % 64, 0x80 + n % 64]
    else [0xF0 + n / 64 / 64 / 64, 0x80 + n / 64 / 64 % 64, 0x80 + n / 64 % 64, 0x80 + n % 64]
  }

  /** The bytes of a string. */
  function Encode(s: string): seq<Byte>
  {
    if s == [] then [] else EncodeChar(s[0]) + Encode(s[1..])
  }

  /** Length of the sequence a lead byte announces, 0 for a byte that cannot lead. */
  function SequenceLength(b: Byte): nat
  {
    if b < 0x80 then 1
    else if 0xC2 <= b <= 0xDF then 2
    else if 0xE0 <= b <= 0xEF then 3
    else if 0xF0 <= b <= 0xF4 then 4
    else 0
  }

  /** Whether byte `k` (1 to 3) may follow the lead byte `s[0]` (section 4 of RFC 3629). */
  predicate Continues(s: seq<Byte>, k: nat)
    requires 1 <= k < |s|
  {
    if k == 1 then
      (if s[0] == 0xE0 then 0xA0 else if s[0] == 0xF0 then 0x90 else 0x80) <= s[1] <=
      (if s[0] == 0xED then 0x9F else if s[0] == 0xF4 then 0x8F else 0xBF)
    else 0x80 <= s[k] <= 0xBF
  }

  /**
   * Length of the longest prefix of `s` that starts a well-formed sequence
   * (the whole sequence when it is complete), at least one byte.
   */
  function MatchLength(s: seq<Byte>): (m: nat)
    requires s != []
    ensures 1 <= m <= |s|
    ensures m > 1 ==> m <= SequenceLength(s[0])
  {
    var n := SequenceLength(s[0]);
    if n <= 1 || |s| < 2 || !Continues(s, 1) then 1
    else if n == 2 || |s| < 3 || !Continues(s, 2) then 2
    else if n == 3 || |s| < 4 || !Continues(s, 3) then 3
    else 4
  }

  /** `s` begins with a complete, well-formed sequence. */
  predicate StartsComplete(s: seq<Byte>)
  {
    s != [] && SequenceLength(s[0]) > 0 && MatchLength(s) == SequenceLength(s[0])
  }

  /** The scalar value of a complete sequence. */
  function DecodeSequence(s: seq<Byte>): char
    requires StartsComplete(s)
  {
    var n := SequenceLength(s[0]);
    var b0: int := s[0];
    if n == 1 then b0 as char
    else
      var b1: int := s[1];
      if n == 2 then ((b0 - 0xC0) * 64 + (b1 - 0x80)) as char
      else
        var b2: int := s[2];
        if n == 3 then ((b0 - 0xE0) * 4096 + (b1 - 0x80) * 64 + (b2 - 0x80)) as char
        else
          var b3: int := s[3];
          ((b0 - 0xF0) * 0x4_0000 + (b1 - 0x80) * 4096 + (b2 - 0x80) * 64 + (b3 - 0x80)) as char
  }

  /** `String::from_utf8_lossy`: each maximal ill-formed subsequence becomes U+FFFD. */
  function Lossy(s: seq<Byte>): string
  {
    if s == [] then ""
    else if StartsComplete(s) then
      [DecodeSequence(s)] + Lossy(s[SequenceLength(s[0])..])
    else [REPLACEMENT] + Lossy(s[MatchLength(s)..])
  }

  /** Well-formed UTF-8: the bytes split into complete sequences. */
  predicate Valid(s: seq<Byte>)
  {
    s == [] || (StartsComplete(s) && Valid(s[SequenceLength(s[0])..]))
  }

  /** `String::from_utf8`: the string, or an error on ill-formed input. */
  function FromUtf8(s: seq<Byte>): Option<string>
  {
    if Valid(s) then Some(Lossy(s)) else None
  }

  /** The encoding of one scalar value is a complete sequence that decodes back to it, whatever follows. */
  lemma EncodeCharDecodes(c: char, t: seq<Byte>)
    ensures StartsComplete(EncodeChar(c) + t)
    ensures SequenceLength((EncodeChar(c) + t)[0]) == |EncodeChar(c)|
    ensures DecodeSequence(EncodeChar(c) + t) == c
  {
    var n := c as int;
    var e := EncodeChar(c);
    var s := e + t;
    if n < 0x80 {
    } else if n < 0x800 {
      assert n == n / 64 * 64 + n % 64;
    } else if n < 0x1_0000 {
      var q := n / 64;
      assert n == q * 64 + n % 64;
      assert q == q / 64 * 64 + q % 64;
      assert s[0] == 0xE0 + q / 64 && s[1] == 0x80 + q % 64 && s[2] == 0x80 + n % 64;
    } else {
      var q := n / 64;
      var q2 := q / 64;
      assert n == q * 64 + n % 64;
      assert q == q2 * 64 + q % 64;
      assert q2 == q2 / 64 * 64 + q2 % 64;
      assert s[0] == 0xF0 + q2 / 64 && s[1] == 0x80 + q2 % 64;
      assert s[2] == 0x80 + q % 64 && s[3] == 0x80 + n % 64;
    }
  }

  /** Strings survive the round trip through their bytes, lossy or strict. */
  lemma {:induction false} DecodeEncode(s: string)
    ensures Valid(Encode(s)) && Lossy(Encode(s)) == s
    ensures FromUtf8(Encode(s)) == Some(s)
  {
    if s != [] {
      var e := EncodeChar(s[0]);
      var rest := Encode(s[1..]);
      EncodeCharDecodes(s[0], rest);
      assert (e + rest)[|e|..] == rest;
      DecodeEncode(s[1..]);
      assert [s[0]] + s[1..] == s;
    }
  }

  /** A string's bytes contain a zero byte exactly where the string has a NUL character. */
  lemma {:induction false} EncodeZeroFree(s: string)
    ensures (0 in Encode(s)) <==> ('\0' in s)
  {
    if s != [] {
      EncodeZeroFree(s[1..]);
      var e := EncodeChar(s[0]);
      assert (0 in e) <==> s[0] == '\0';
      assert Encode(s) == e + Encode(s[1..]);
      assert s == [s[0]] + s[1..];
    }
  }

  /** An ASCII string is its own bytes. */
  lemma {:induction false} EncodeAscii(s: string)
    requires forall i :: 0 <= i < |s| ==> s[i] as int < 0x80
    ensures |Encode(s)| == |s|
    ensures forall i :: 0 <= i < |s| ==> Encode(s)[i] == s[i] as int
  {
    if s != [] {
      EncodeAscii(s[1..]);
      assert Encode(s) == [s[0] as int] + Encode(s[1..]);
      forall i | 1 <= i < |s| ensures Encode(s)[i] == s[i] as int {
        assert s[1..][i - 1] == s[i];
      }
    }
  }

  /** An ASCII string encodes to its code points, one byte each. */
  lemma EncodeAsciiBytes(s: string, e: seq<Byte>)
    requires |s| == |e| && forall i :: 0 <= i < |s| ==> s[i] as int == e[i] < 0x80
    ensures Encode(s) == e
  {
    EncodeAscii(s);
  }
}
