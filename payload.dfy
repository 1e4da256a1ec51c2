/**
 * `Payload::apply_spacing`: the wire text every encoder returns. The loop
 * pushes each character and, after every second one, a space; the result is
 * then trimmed and upper-cased.
 */
module Payload {
  import opened Bytes

  /** Rust's `char::is_whitespace`: the Unicode White_Space property. */
  predicate IsWhitespace(c: char)
  {
    ('\t' <= c <= '\r') || c == ' ' || c == '\U{0085}' || c == '\U{00A0}' || c == '\U{1680}'
    || ('\U{2000}' <= c <= '\U{200A}') || c == '\U{2028}' || c == '\U{2029}' || c == '\U{202F}'
    || c == '\U{205F}' || c == '\U{3000}'
  }

  predicate NoWhitespace(s: string)
  {
    forall i :: 0 <= i < |s| ==> !IsWhitespace(s[i])
  }

  /** `str::trim_start`. */
  function TrimStart(s: string): string
  {
    if s != [] && IsWhitespace(s[0]) then TrimStart(s[1..]) else s
  }

  /** `str::trim_end`. */
  function TrimEnd(s: string): string
  {
    if s != [] && IsWhitespace(s[|s| - 1]) then TrimEnd(s[..|s| - 1]) else s
  }

  /** `str::trim`. */
  function Trim(s: string): string
  {
    TrimEnd(TrimStart(s))
  }

  function UpperChar(c: char): char
  {
    if 'a' <= c <= 'z' then (c as int - 32) as char else c
  }

  /** `str::to_uppercase` on ASCII letters; every other character is kept. */
  function Upper(s: string): (r: string)
    ensures |r| == |s| && forall i :: 0 <= i < |s| ==> r[i] == UpperChar(s[i])
  {
    seq(|s|, i requires 0 <= i < |s| => UpperChar(s[i]))
  }

  /** What the loop accumulates: each character, and a space after every second one. */
  function Interleaved(s: string): string
  {
    if |s| < 2 then s else s[..2] + " " + Interleaved(s[2..])
  }

  /** The result of `apply_spacing(value)`. */
  function Spaced(value: string): string
  {
    Upper(Trim(Interleaved(value)))
  }

  /** Characters in pairs separated by single spaces, nothing after the last pair. */
  function Grouped(s: string): string
  {
    if |s| <= 2 then s else s[..2] + " " + Grouped(s[2..])
  }

  lemma {:induction false} InterleavedAppend(s: string, c: char)
    ensures Interleaved(s + [c]) == Interleaved(s) + [c] + (if |s| % 2 == 1 then " " else "")
    decreases |s|
  {
    if |s| >= 2 {
      assert (s + [c])[..2] == s[..2];
      assert (s + [c])[2..] == s[2..] + [c];
      InterleavedAppend(s[2..], c);
    } else if |s| == 1 {
      assert (s + [c])[2..] == [];
    }
  }

  /**
   * `apply_spacing` as written: `counter` is 0 or 1 at the top of each
   * iteration and is reset exactly when it reaches 2; the result is the
   * trimmed, upper-cased text the loop built.
   */
  method ApplySpacing(value: string) returns (r: string)
    ensures r == Spaced(value)
    ensures forall i :: 0 <= i < |r| ==> !('a' <= r[i] <= 'z')
    ensures value == "" ==> r == ""
  {
    var withSpacing: string := "";
    var counter: nat := 0;
    for i := 0 to |value|
      invariant counter == i % 2
      invariant withSpacing == Interleaved(value[..i])
    {
      InterleavedAppend(value[..i], value[i]);
      assert value[..i + 1] == value[..i] + [value[i]];
      withSpacing := withSpacing + [value[i]];
      counter := counter + 1;
      if counter == 2 {
        withSpacing := withSpacing + " ";
        counter := 0;
      }
    }
    assert value[..|value|] == value;
    r := Upper(Trim(withSpacing));
  }

  lemma {:induction false} TrimEndSpace(s: string)
    requires s != [] && !IsWhitespace(s[|s| - 1])
    ensures TrimEnd(s + " ") == s
  {
    assert (s + " ")[..|s|] == s;
  }

  lemma {:induction false} InterleavedShape(s: string)
    requires NoWhitespace(s)
    ensures Interleaved(s) == if |s| >= 2 && |s| % 2 == 0 then Grouped(s) + " " else Grouped(s)
    decreases |s|
  {
    if |s| > 2 {
      assert NoWhitespace(s[2..]) by {
        forall i | 0 <= i < |s[2..]| ensures !IsWhitespace(s[2..][i]) { assert s[2..][i] == s[i + 2]; }
      }
      InterleavedShape(s[2..]);
    } else if |s| == 2 {
      assert s[2..] == [] && s[..2] == s;
    }
  }

  lemma {:induction false} GroupedEnds(s: string)
    requires NoWhitespace(s) && s != []
    ensures Grouped(s) != [] && Grouped(s)[0] == s[0]
    ensures !IsWhitespace(Grouped(s)[|Grouped(s)| - 1])
    decreases |s|
  {
    if |s| > 2 {
      assert NoWhitespace(s[2..]) by {
        forall i | 0 <= i < |s[2..]| ensures !IsWhitespace(s[2..][i]) { assert s[2..][i] == s[i + 2]; }
      }
      GroupedEnds(s[2..]);
    }
  }

  /** On text without whitespace, trimming only drops the loop's trailing space. */
  lemma TrimInterleaved(s: string)
    requires NoWhitespace(s)
    ensures Trim(Interleaved(s)) == Grouped(s)
  {
    InterleavedShape(s);
    if s != [] {
      GroupedEnds(s);
      var g := Grouped(s);
      if |s| >= 2 && |s| % 2 == 0 {
        assert TrimStart(g + " ") == g + " ";
        TrimEndSpace(g);
      } else {
        assert TrimStart(g) == g;
      }
    }
  }

  lemma {:induction false} UpperGrouped(s: string)
    ensures Upper(Grouped(s)) == Grouped(Upper(s))
    decreases |s|
  {
    if |s| > 2 {
      UpperGrouped(s[2..]);
      assert Upper(s)[2..] == Upper(s[2..]);
      assert Upper(s)[..2] == Upper(s[..2]);
      assert Upper(s[..2] + " " + Grouped(s[2..])) == Upper(s[..2]) + " " + Upper(Grouped(s[2..]));
    }
  }

  /** For text without whitespace, `apply_spacing` pairs up the upper-cased characters. */
  lemma SpacedIsGrouped(s: string)
    requires NoWhitespace(s)
    ensures Spaced(s) == Grouped(Upper(s))
  {
    TrimInterleaved(s);
    UpperGrouped(s);
  }

  lemma {:induction false} GroupedLayout(s: string)
    ensures |s| >= 1 ==> |Grouped(s)| == |s| + (|s| - 1) / 2
    ensures forall k :: 0 <= k < |Grouped(s)| ==>
      Grouped(s)[k] == if k % 3 == 2 then ' ' else s[k - k / 3]
    decreases |s|
  {
    if |s| > 2 {
      GroupedLayout(s[2..]);
      var g := Grouped(s);
      forall k | 0 <= k < |g| ensures g[k] == if k % 3 == 2 then ' ' else s[k - k / 3] {
        if k >= 3 {
          assert g[k] == Grouped(s[2..])[k - 3];
          assert (k - 3) % 3 == k % 3 && (k - 3) / 3 == k / 3 - 1;
        }
      }
    }
  }

  /**
   * For text without whitespace of n >= 1 characters, the result has
   * n + (n - 1) / 2 characters: a space at every third position and the
   * upper-cased input elsewhere, so one space after every second character
   * and none at the end.
   */
  lemma SpacedLayout(s: string)
    requires NoWhitespace(s) && |s| >= 1
    ensures |Spaced(s)| == |s| + (|s| - 1) / 2
    ensures forall k :: 0 <= k < |Spaced(s)| ==>
      Spaced(s)[k] == if k % 3 == 2 then ' ' else UpperChar(s[k - k / 3])
    ensures Spaced(s)[|Spaced(s)| - 1] != ' '
  {
    SpacedIsGrouped(s);
    var u := Upper(s);
    GroupedLayout(u);
    var r := Spaced(s);
    assert r == Grouped(u);
    forall k | 0 <= k < |r| ensures r[k] == if k % 3 == 2 then ' ' else UpperChar(s[k - k / 3]) {
      assert r[k] == if k % 3 == 2 then ' ' else u[k - k / 3];
    }
    var m := |s| - 1;
    var k := |r| - 1;
    assert k == m + m / 2;
    assert m == 2 * (m / 2) + m % 2;
    assert k == 3 * (m / 2) + m % 2;
    assert k % 3 == m % 2;
    assert r[k] == UpperChar(s[k - k / 3]);
    assert !IsWhitespace(s[k - k / 3]);
  }

  /** Text with its spaces removed. */
  function RemoveSpaces(s: string): string
  {
    if s == [] then [] else (if s[0] == ' ' then [] else [s[0]]) + RemoveSpaces(s[1..])
  }

  lemma {:induction false} RemoveSpacesConcat(a: string, b: string)
    ensures RemoveSpaces(a + b) == RemoveSpaces(a) + RemoveSpaces(b)
  {
    if a != [] {
      assert (a + b)[0] == a[0] && (a + b)[1..] == a[1..] + b;
      RemoveSpacesConcat(a[1..], b);
    } else {
      assert a + b == b;
    }
  }

  lemma {:induction false} RemoveSpacesNone(s: string)
    requires NoWhitespace(s)
    ensures RemoveSpaces(s) == s
  {
    if s != [] {
      assert NoWhitespace(s[1..]) by {
        forall i | 0 <= i < |s[1..]| ensures !IsWhitespace(s[1..][i]) { assert s[1..][i] == s[i + 1]; }
      }
      RemoveSpacesNone(s[1..]);
      assert !IsWhitespace(s[0]);
    }
  }

  lemma {:induction false} RemoveSpacesGrouped(s: string)
    requires NoWhitespace(s)
    ensures RemoveSpaces(Grouped(s)) == s
    decreases |s|
  {
    if |s| <= 2 {
      RemoveSpacesNone(s);
    } else {
      assert NoWhitespace(s[2..]) by {
        forall i | 0 <= i < |s[2..]| ensures !IsWhitespace(s[2..][i]) { assert s[2..][i] == s[i + 2]; }
      }
      RemoveSpacesGrouped(s[2..]);
      assert NoWhitespace(s[..2]) by {
        forall i | 0 <= i < 2 ensures !IsWhitespace(s[..2][i]) { assert s[..2][i] == s[i]; }
      }
      RemoveSpacesNone(s[..2]);
      RemoveSpacesConcat(s[..2] + " ", Grouped(s[2..]));
      RemoveSpacesConcat(s[..2], " ");
      assert RemoveSpaces(" ") == "";
      assert s[..2] + s[2..] == s;
    }
  }

  /** Deleting the spaces from the result gives back the upper-cased input. */
  lemma SpacedRemoveSpaces(s: string)
    requires NoWhitespace(s)
    ensures RemoveSpaces(Spaced(s)) == Upper(s)
  {
    SpacedIsGrouped(s);
    assert NoWhitespace(Upper(s));
    RemoveSpacesGrouped(Upper(s));
  }

  lemma {:induction false} GroupedHex(bs: seq<Byte>)
    ensures Grouped(HexUpper(bs)) == SpacedHex(bs)
    decreases |bs|
  {
    if |bs| > 1 {
      GroupedHex(bs[1..]);
      var h := HexUpper(bs);
      assert h[..2] == PairUpper(bs[0]) && h[2..] == HexUpper(bs[1..]);
    }
  }

  lemma {:induction false} HexUpperNoWhitespace(bs: seq<Byte>)
    ensures NoWhitespace(HexUpper(bs))
  {
    if bs != [] {
      HexUpperNoWhitespace(bs[1..]);
      var h := HexUpper(bs);
      forall i | 0 <= i < |h| ensures !IsWhitespace(h[i]) {
        if i >= 2 { assert h[i] == HexUpper(bs[1..])[i - 2]; }
      }
    }
  }

  /**
   * Any text that upper-cases to the hexadecimal of some bytes (upper, lower
   * or mixed case, as the encoders' `format!` pieces are) is spaced into
   * exactly the wire text of those bytes.
   */
  lemma SpacedHexOfText(text: string, bs: seq<Byte>)
    requires Upper(text) == HexUpper(bs)
    ensures Spaced(text) == SpacedHex(bs)
  {
    HexUpperNoWhitespace(bs);
    assert NoWhitespace(text) by {
      forall i | 0 <= i < |text| ensures !IsWhitespace(text[i]) {
        assert Upper(text)[i] == UpperChar(text[i]);
      }
    }
    SpacedIsGrouped(text);
    GroupedHex(bs);
  }

  lemma UpperConcat(a: string, b: string)
    ensures Upper(a + b) == Upper(a) + Upper(b)
  {
  }

  lemma UpperDigits(d: nat)
    requires d < 16
    ensures UpperChar(LowerDigit(d)) == UpperDigit(d) && UpperChar(UpperDigit(d)) == UpperDigit(d)
  {
  }

  lemma UpperPair(b: Byte)
    ensures Upper(PairLower(b)) == PairUpper(b) && Upper(PairUpper(b)) == PairUpper(b)
  {
    UpperDigits(b / 16);
    UpperDigits(b % 16);
  }

  lemma {:induction false} UpperHexLower(bs: seq<Byte>)
    ensures Upper(HexLower(bs)) == HexUpper(bs)
  {
    if bs != [] {
      UpperHexLower(bs[1..]);
      UpperPair(bs[0]);
      UpperConcat(PairLower(bs[0]), HexLower(bs[1..]));
    }
  }

  lemma {:induction false} UpperHexUpper(bs: seq<Byte>)
    ensures Upper(HexUpper(bs)) == HexUpper(bs)
  {
    if bs != [] {
      UpperHexUpper(bs[1..]);
      UpperPair(bs[0]);
      UpperConcat(PairUpper(bs[0]), HexUpper(bs[1..]));
    }
  }

  lemma {:induction false} HexUpperConcat(a: seq<Byte>, b: seq<Byte>)
    ensures HexUpper(a + b) == HexUpper(a) + HexUpper(b)
  {
    if a != [] {
      HexUpperConcat(a[1..], b);
      assert (a + b)[0] == a[0] && (a + b)[1..] == a[1..] + b;
    } else {
      assert a + b == b;
    }
  }

  /** Spacing the lower-case hexadecimal of some bytes gives their wire text. */
  lemma SpacedHexLower(bs: seq<Byte>)
    ensures Spaced(HexLower(bs)) == SpacedHex(bs)
  {
    UpperHexLower(bs);
    SpacedHexOfText(HexLower(bs), bs);
  }
}
