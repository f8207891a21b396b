/** Shared vocabulary: optional values, HTTP failures and the decimal
    rendering of integers that Python's f-strings perform. */
module Common {

  datatype Option<T> = None | Some(value: T)

  /** An `HTTPException` raised by a route: status code and detail text. */
  datatype HttpError = HttpError(status: int, detail: string)

  /** What a route answers: a value, or the exception it raised. */
  datatype Response<T> = Ok(value: T) | Fail(error: HttpError)

  /** A service-level outcome: a value, or the message of a `ValueError`. */
  datatype Result<T> = Success(value: T) | Failure(message: string)

  /** The character of a decimal digit. */
  function DigitChar(d: nat): (c: char)
    requires d < 10
    ensures '0' <= c <= '9' && (c as int) - ('0' as int) == d
  {
    "0123456789"[d]
  }

  /** The value of a decimal digit character (0 for any other character). */
  function DigitValue(c: char): nat
  {
    if '0' <= c <= '9' then (c as int) - ('0' as int) else 0
  }

  /** `str(n)` for a non-negative integer: its decimal digits, most significant first. */
  function NatToDecimal(n: nat): (s: string)
    ensures |s| >= 1
    ensures forall i :: 0 <= i < |s| ==> '0' <= s[i] <= '9'
    decreases n
  {
    if n < 10 then [DigitChar(n)] else NatToDecimal(n / 10) + [DigitChar(n % 10)]
  }

  /** Reads a string of decimal digits back into a number. */
  function DecimalToNat(s: string): nat
    decreases |s|
  {
    if s == [] then 0 else DecimalToNat(s[..|s| - 1]) * 10 + DigitValue(s[|s| - 1])
  }

  /** Reading back the rendering of `n` gives `n`. */
  lemma {:induction false} DecimalRoundTrip(n: nat)
    ensures DecimalToNat(NatToDecimal(n)) == n
  {
    if n >= 10 {
      var s := NatToDecimal(n / 10);
      var t := s + [DigitChar(n % 10)];
      assert t[..|t| - 1] == s;
      DecimalRoundTrip(n / 10);
    }
  }

  /** `str(i)` for any integer: a minus sign in front of negative numbers. */
  function IntToString(i: int): string
  {
    if i < 0 then "-" + NatToDecimal(-i) else NatToDecimal(i)
  }

  /** Reads back what `IntToString` renders. */
  function ParseInt(s: string): int
  {
    if |s| > 0 && s[0] == '-' then -(DecimalToNat(s[1..]) as int) else DecimalToNat(s)
  }

  /** `ParseInt` of a string that starts with a digit reads it as a whole. */
  lemma {:induction false} ParseUnsigned(d: string)
    requires |d| >= 1 && '0' <= d[0] <= '9'
    ensures ParseInt(d) == DecimalToNat(d)
  {
  }

  /** `ParseInt` of a minus sign followed by digits negates them. */
  lemma {:induction false} ParseSigned(d: string)
    ensures ParseInt("-" + d) == -(DecimalToNat(d) as int)
  {
    assert ("-" + d)[1..] == d;
  }

  lemma {:induction false} IntToStringRoundTrip(i: int)
    ensures ParseInt(IntToString(i)) == i
  {
    if i < 0 {
      var n: nat := -i;
      var d := NatToDecimal(n);
      assert IntToString(i) == "-" + d;
      ParseSigned(d);
      DecimalRoundTrip(n);
    } else {
      var n: nat := i;
      var d := NatToDecimal(n);
      assert IntToString(i) == d;
      ParseUnsigned(d);
      DecimalRoundTrip(n);
    }
  }

  /** Distinct integers render to distinct strings. */
  lemma IntToStringInjective(a: int, b: int)
    requires IntToString(a) == IntToString(b)
    ensures a == b
  {
    IntToStringRoundTrip(a);
    IntToStringRoundTrip(b);
  }

  /** Python's `s.startswith(prefix)`. */
  predicate StartsWith(s: string, prefix: string)
  {
    |prefix| <= |s| && s[..|prefix|] == prefix
  }
}
