/**
 * The few string operations the source relies on, over byte strings:
 * literals, String.IsNullOrWhiteSpace, a case-insensitive comparison and the
 * decimal rendering used by string interpolation.
 */
module Text {
  import opened Primitives

  /** A C# string literal as its bytes (every literal in the core is ASCII). */
  function Ascii(s: string): (r: Bytes)
    ensures |r| == |s|
  {
    seq(|s|, i requires 0 <= i < |s| => (s[i] as int) % 0x100)
  }

  predicate IsAsciiString(s: string)
  {
    forall i :: 0 <= i < |s| ==> s[i] as int < 0x80
  }

  /** Distinct ASCII literals have distinct bytes. */
  lemma AsciiInjective(a: string, b: string)
    requires IsAsciiString(a) && IsAsciiString(b)
    requires Ascii(a) == Ascii(b)
    ensures a == b
  {
    assert forall i | 0 <= i < |a| :: a[i] as int == Ascii(a)[i];
  }

  /** char.IsWhiteSpace restricted to single-byte characters. */
  predicate IsWhiteSpace(b: byte)
  {
    b == 0x20 || 0x09 <= b <= 0x0D
  }

  /** String.IsNullOrWhiteSpace: empty, or nothing but white space. */
  predicate IsBlank(s: Bytes)
  {
    forall i :: 0 <= i < |s| ==> IsWhiteSpace(s[i])
  }

  function ToLower(b: byte): byte
  {
    if 0x41 <= b <= 0x5A then b + 0x20 else b
  }

  /** Ordinal comparison after folding ASCII upper case to lower case. */
  predicate EqualsIgnoreCase(a: Bytes, b: Bytes)
  {
    |a| == |b| && forall i :: 0 <= i < |a| ==> ToLower(a[i]) == ToLower(b[i])
  }

  /** The decimal digits of `n`, most significant first, with no leading zero. */
  function Digits(n: nat): (r: Bytes)
    ensures |r| >= 1
    ensures forall i :: 0 <= i < |r| ==> 0x30 <= r[i] <= 0x39
    ensures n > 0 ==> r[0] != 0x30
  {
    if n < 10 then [0x30 + n] else Digits(n / 10) + [0x30 + n % 10]
  }

  /** Int32.ToString(): an optional minus sign, then the decimal digits. */
  function Decimal(n: int): (r: Bytes)
    ensures |r| >= 1 && (r[0] == 0x2D <==> n < 0)
  {
    if n < 0 then [0x2D] + Digits(-n) else Digits(n)
  }

  /** The number a string of decimal digits denotes, read most significant first. */
  function DigitsValue(s: Bytes): int
  {
    if |s| == 0 then 0 else DigitsValue(s[..|s| - 1]) * 10 + (s[|s| - 1] as int - 0x30)
  }

  /** The number a decimal rendering denotes: a leading minus sign negates the digits after it. */
  function DecimalValue(s: Bytes): int
  {
    if |s| > 0 && s[0] == 0x2D then -DigitsValue(s[1..]) else DigitsValue(s)
  }

  /** The digits of `n` denote `n`. */
  lemma {:induction false} DigitsDenote(n: nat)
    ensures DigitsValue(Digits(n)) == n
    decreases n
  {
    if n >= 10 {
      DigitsDenote(n / 10);
      var d := Digits(n / 10) + [0x30 + n % 10];
      assert d[..|d| - 1] == Digits(n / 10);
    }
  }

  /** The rendering of `n` reads back as `n`, so two numbers never share a rendering. */
  lemma DecimalDenotes(n: int, m: int)
    ensures DecimalValue(Decimal(n)) == n
    ensures Decimal(n) == Decimal(m) ==> n == m
  {
    DigitsDenote(if n < 0 then -n else n);
    DigitsDenote(if m < 0 then -m else m);
    if n < 0 {
      assert Decimal(n)[1..] == Digits(-n);
    }
    if m < 0 {
      assert Decimal(m)[1..] == Digits(-m);
    }
  }
}
