/**
 * The two integer conversions of Go's strconv package that the log parser
 * and the schema mapping rely on: `ParseInt(s, 10, 32)` and `Itoa`, plus the
 * wrap-around narrowing `int32(x)`.
 */
module Strconv {
  import opened Wrappers
  import opened ByteStrings

  const MIN_INT32: int := -0x8000_0000
  const MAX_INT32: int := 0x7fff_ffff

  predicate InInt32(x: int)
  {
    MIN_INT32 <= x <= MAX_INT32
  }

  predicate IsDigit(c: char)
  {
    '0' <= c <= '9'
  }

  predicate AllDigits(s: Bytes)
  {
    forall k :: 0 <= k < |s| ==> IsDigit(s[k])
  }

  function DigitValue(c: char): (d: nat)
    requires IsDigit(c)
    ensures d < 10
  {
    (c as int) - ('0' as int)
  }

  function DigitChar(d: nat): (c: char)
    requires d < 10
    ensures IsDigit(c) && DigitValue(c) == d
  {
    (('0' as int) + d) as char
  }

  /** The number a string of decimal digits denotes, most significant first. */
  function DecimalValue(s: Bytes): nat
    requires AllDigits(s)
  {
    if |s| == 0 then 0 else DecimalValue(s[..|s| - 1]) * 10 + DigitValue(s[|s| - 1])
  }

  /**
   * strconv.ParseInt(s, 10, 32): an optional '+' or '-', then one or more
   * decimal digits (no underscores in base 10), and a value that fits in a
   * signed 32-bit integer.  Any other input is an error (None): the empty
   * string, a lone sign, a non-digit, or a value out of range.
   */
  function ParseInt32(s: Bytes): (r: Option<int>)
    ensures r.Some? ==> InInt32(r.value)
  {
    if |s| == 0 then None
    else
      var signed := s[0] == '+' || s[0] == '-';
      var digits := if signed then s[1..] else s;
      if |digits| == 0 || !AllDigits(digits) then None
      else
        var v: int := if s[0] == '-' then 0 - (DecimalValue(digits) as int) else DecimalValue(digits);
        if InInt32(v) then Some(v) else None
  }

  /** Decimal digits of a natural number, without leading zeros. */
  function NatDigits(n: nat): (s: Bytes)
    ensures |s| >= 1
  {
    if n < 10 then [DigitChar(n)] else NatDigits(n / 10) + [DigitChar(n % 10)]
  }

  /** strconv.Itoa: the decimal rendering, with '-' in front of a negative number. */
  function Itoa(n: int): Bytes
  {
    if n < 0 then ['-'] + NatDigits(-n) else NatDigits(n)
  }

  /** NatDigits yields digits only, the first of them non-zero unless n is 0, and denotes n. */
  lemma {:induction false} NatDigitsValue(n: nat)
    ensures AllDigits(NatDigits(n)) && DecimalValue(NatDigits(n)) == n
    ensures NatDigits(n)[0] == '0' <==> n == 0
  {
    if n >= 10 {
      NatDigitsValue(n / 10);
      var s := NatDigits(n);
      assert s[..|s| - 1] == NatDigits(n / 10);
    }
  }

  /**
   * Itoa and ParseInt32 round-trip on exactly the 32-bit range: rendering
   * any integer and parsing it back gives the integer when it fits in 32
   * bits and a range error otherwise.
   */
  lemma ParseItoa(n: int)
    ensures ParseInt32(Itoa(n)) == if InInt32(n) then Some(n) else None
  {
    if n < 0 {
      NatDigitsValue(-n);
      assert Itoa(n)[1..] == NatDigits(-n);
    } else {
      NatDigitsValue(n);
    }
  }

  /** An explicit '+' sign is accepted and changes nothing. */
  lemma ParsePlusSign(n: nat)
    ensures ParseInt32(['+'] + Itoa(n)) == ParseInt32(Itoa(n))
  {
    NatDigitsValue(n);
    assert (['+'] + Itoa(n))[1..] == Itoa(n);
  }

  /** A string with a byte that is neither a digit nor a leading sign is rejected. */
  lemma ParseRejectsNonDigit(s: Bytes, k: nat)
    requires 0 <= k < |s| && !IsDigit(s[k]) && (k > 0 || (s[0] != '+' && s[0] != '-'))
    ensures ParseInt32(s) == None
  {
    if k > 0 && (s[0] == '+' || s[0] == '-') {
      assert s[1..][k - 1] == s[k];
    }
  }

  /** Go's int32(x): keep the low 32 bits, read as two's complement. */
  function ToInt32(x: int): (r: int)
    ensures InInt32(r)
    ensures (r - x) % 0x1_0000_0000 == 0
    ensures InInt32(x) ==> r == x
  {
    (x - MIN_INT32) % 0x1_0000_0000 + MIN_INT32
  }
}
