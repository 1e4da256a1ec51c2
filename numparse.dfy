/**
 * Rust's unsigned integer parsing (`uN::from_str_radix`, `str::parse::<uN>`)
 * and decimal rendering (`to_string`, `format!("{}")`) of naturals.
 */
module NumParse {
  import opened Wrappers

  /** The `kind` of a `ParseIntError` that an unsigned parse can report. */
  datatype IntErrorKind = Empty | InvalidDigit | PosOverflow

  /** `char::to_digit(radix)`: ASCII digits and letters of either case. */
  function ToDigit(c: char, radix: nat): (r: Option<nat>)
    requires 2 <= radix <= 36
    ensures r.Some? ==> r.value < radix
  {
    var d := if '0' <= c <= '9' then c as int - '0' as int
             else if 'a' <= c <= 'z' then c as int - 'a' as int + 10
             else if 'A' <= c <= 'Z' then c as int - 'A' as int + 10
             else 36;
    if d < radix then Some(d) else None
  }

  predicate AllDigits(s: string, radix: nat)
    requires 2 <= radix <= 36
  {
    forall i :: 0 <= i < |s| ==> ToDigit(s[i], radix).Some?
  }

  /** Positional value of a digit string read left to right from `acc`. */
  function Horner(acc: nat, s: string, radix: nat): nat
    requires 2 <= radix <= 36
    requires AllDigits(s, radix)
    decreases s
  {
    if s == [] then acc else Horner(acc * radix + ToDigit(s[0], radix).value, s[1..], radix)
  }

  /** The digit loop: the first invalid digit or the first overflow ends it. */
  function ParseDigits(s: string, radix: nat, max: nat, acc: nat): Result<nat, IntErrorKind>
    requires 2 <= radix <= 36
  {
    if s == [] then Ok(acc)
    else match ToDigit(s[0], radix)
      case None => Err(InvalidDigit)
      case Some(d) =>
        if acc * radix + d > max then Err(PosOverflow)
        else ParseDigits(s[1..], radix, max, acc * radix + d)
  }

  /**
   * `from_str_radix` for an unsigned type whose largest value is `max`:
   * empty input, a lone sign, a `-` sign or any non-digit is an error, a
   * leading `+` is accepted, and a value above `max` overflows.
   */
  function ParseUnsigned(s: string, radix: nat, max: nat): Result<nat, IntErrorKind>
    requires 2 <= radix <= 36
  {
    if s == [] then Err(Empty)
    else if (s[0] == '+' || s[0] == '-') && |s| == 1 then Err(InvalidDigit)
    else ParseDigits(Unsigned(s), radix, max, 0)
  }

  /** The digits an unsigned parse reads: the text after an optional leading `+`. */
  function Unsigned(s: string): string
  {
    if s != [] && s[0] == '+' then s[1..] else s
  }

  lemma MulAtLeast(a: nat, k: nat)
    requires k >= 1
    ensures a * k >= a
  {
  }

  lemma AllDigitsTail(s: string, radix: nat)
    requires 2 <= radix <= 36 && s != [] && AllDigits(s, radix)
    ensures AllDigits(s[1..], radix)
  {
    forall i | 0 <= i < |s[1..]| ensures ToDigit(s[1..][i], radix).Some? {
      assert s[1..][i] == s[i + 1];
    }
  }

  lemma {:induction false} HornerGrows(acc: nat, s: string, radix: nat)
    requires 2 <= radix <= 36 && AllDigits(s, radix)
    ensures Horner(acc, s, radix) >= acc
    decreases s
  {
    if s != [] {
      var next := acc * radix + ToDigit(s[0], radix).value;
      assert next >= acc by { MulAtLeast(acc, radix); }
      AllDigitsTail(s, radix);
      HornerGrows(next, s[1..], radix);
    }
  }

  /** On a string of valid digits the loop yields the value, or overflows exactly when it exceeds `max`. */
  lemma {:induction false} ParseDigitsValue(s: string, radix: nat, max: nat, acc: nat)
    requires 2 <= radix <= 36 && AllDigits(s, radix) && acc <= max
    ensures ParseDigits(s, radix, max, acc) ==
      if Horner(acc, s, radix) <= max then Ok(Horner(acc, s, radix)) else Err(PosOverflow)
  {
    if s != [] {
      var next := acc * radix + ToDigit(s[0], radix).value;
      HornerGrows(next, s[1..], radix);
      if next <= max {
        ParseDigitsValue(s[1..], radix, max, next);
      }
    }
  }

  /** A digit string with an invalid digit is rejected, never read as a number. */
  lemma {:induction false} ParseDigitsRejects(s: string, radix: nat, max: nat, acc: nat)
    requires 2 <= radix <= 36 && !AllDigits(s, radix)
    ensures ParseDigits(s, radix, max, acc).Err?
  {
    if ToDigit(s[0], radix).Some? {
      var next := acc * radix + ToDigit(s[0], radix).value;
      if next <= max {
        assert !AllDigits(s[1..], radix) by {
          var i :| 0 <= i < |s| && ToDigit(s[i], radix).None?;
          assert i > 0 && s[1..][i - 1] == s[i];
        }
        ParseDigitsRejects(s[1..], radix, max, next);
      }
    }
  }

  /** Horner's rule read from the other end: appending a digit shifts the value one place. */
  lemma {:induction false} HornerAppend(acc: nat, s: string, c: char, radix: nat)
    requires 2 <= radix <= 36 && AllDigits(s, radix) && ToDigit(c, radix).Some?
    ensures AllDigits(s + [c], radix)
    ensures Horner(acc, s + [c], radix) == Horner(acc, s, radix) * radix + ToDigit(c, radix).value
    decreases s
  {
    assert AllDigits(s + [c], radix) by {
      forall i | 0 <= i < |s + [c]| ensures ToDigit((s + [c])[i], radix).Some? {
        if i < |s| { assert (s + [c])[i] == s[i]; }
      }
    }
    if s == [] {
      assert [c][1..] == [];
    } else {
      var next := acc * radix + ToDigit(s[0], radix).value;
      assert (s + [c])[0] == s[0] && (s + [c])[1..] == s[1..] + [c];
      assert Horner(acc, s + [c], radix) == Horner(next, s[1..] + [c], radix);
      HornerAppend(next, s[1..], c, radix);
    }
  }

  /** A string of digits with a leading zero digit has the value of the rest. */
  lemma HornerLeadingZero(s: string, radix: nat)
    requires 2 <= radix <= 36 && AllDigits(s, radix) && s != [] && ToDigit(s[0], radix) == Some(0)
    ensures AllDigits(s[1..], radix) && Horner(0, s, radix) == Horner(0, s[1..], radix)
  {
    assert AllDigits(s[1..], radix) by {
      forall i | 0 <= i < |s[1..]| ensures ToDigit(s[1..][i], radix).Some? {
        assert s[1..][i] == s[i + 1];
      }
    }
  }

  const DECIMAL_DIGITS: string := "0123456789"

  /** `n.to_string()`: decimal digits, no sign, no leading zero. */
  function Decimal(n: nat): (r: string)
    ensures r != [] && AllDigits(r, 10)
    ensures forall i :: 0 <= i < |r| ==> '0' <= r[i] <= '9'
  {
    if n < 10 then [DECIMAL_DIGITS[n]]
    else Decimal(n / 10) + [DECIMAL_DIGITS[n % 10]]
  }

  lemma {:induction false} DecimalValue(n: nat)
    ensures Horner(0, Decimal(n), 10) == n
  {
    if n < 10 {
      assert Decimal(n)[1..] == [];
    } else {
      DecimalValue(n / 10);
      HornerAppend(0, Decimal(n / 10), DECIMAL_DIGITS[n % 10], 10);
    }
  }

  function Pow10(k: nat): nat
  {
    if k == 0 then 1 else 10 * Pow10(k - 1)
  }

  /** A number below 10^k has at most k decimal digits. */
  lemma {:induction false} DecimalLength(n: nat, k: nat)
    requires 1 <= k && n < Pow10(k)
    ensures |Decimal(n)| <= k
  {
    if n >= 10 {
      assert n / 10 < Pow10(k - 1);
      DecimalLength(n / 10, k - 1);
    }
  }

  /** Rendering a number in decimal and parsing it back gives the number, whenever it fits. */
  lemma DecimalRoundTrip(n: nat, max: nat)
    requires n <= max
    ensures ParseUnsigned(Decimal(n), 10, max) == Ok(n)
  {
    DecimalValue(n);
    ParseDigitsValue(Decimal(n), 10, max, 0);
  }

  /** For a string of digits (no sign), parsing succeeds exactly with its value when that fits. */
  lemma ParseUnsignedDigits(s: string, radix: nat, max: nat)
    requires 2 <= radix <= 36 && s != [] && AllDigits(s, radix)
    ensures ParseUnsigned(s, radix, max) ==
      if Horner(0, s, radix) <= max then Ok(Horner(0, s, radix)) else Err(PosOverflow)
  {
    assert ToDigit(s[0], radix).Some?;
    ParseDigitsValue(s, radix, max, 0);
  }

  /**
   * What an unsigned parse accepts: exactly a non-empty digit string, after
   * an optional `+`, whose value fits; and it yields that value.
   */
  lemma ParseUnsignedValue(s: string, radix: nat, max: nat)
    requires 2 <= radix <= 36
    ensures ParseUnsigned(s, radix, max).Ok? <==>
      Unsigned(s) != [] && AllDigits(Unsigned(s), radix) && Horner(0, Unsigned(s), radix) <= max
    ensures ParseUnsigned(s, radix, max).Ok? ==> ParseUnsigned(s, radix, max).value == Horner(0, Unsigned(s), radix)
  {
    if s == [] {
    } else if (s[0] == '+' || s[0] == '-') && |s| == 1 {
      if s[0] == '-' {
        assert ToDigit(Unsigned(s)[0], radix).None?;
      }
    } else if AllDigits(Unsigned(s), radix) {
      ParseDigitsValue(Unsigned(s), radix, max, 0);
    } else {
      ParseDigitsRejects(Unsigned(s), radix, max, 0);
    }
  }
}
