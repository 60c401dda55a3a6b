/** encodeNumber of NormalSudoku.java: the character a cell value is drawn
    with, a digit for 0..9 and a letter from 'A' on for 10 and above. Java's
    int is 32 bits and wraps around; its char is a 16-bit code unit, and the
    cast to char keeps the low 16 bits. */
module Encoding {
  import opened Wrappers
  import opened Grid

  newtype Int32 = x: int | -0x8000_0000 <= x < 0x8000_0000

  /** A UTF-16 code unit, the value of a Java char. */
  newtype CodeUnit = c: int | 0 <= c < 0x1_0000

  const DigitZero: int := 48
  const LetterA: int := 65

  /** Java's int addition: the sum wrapped around to 32 bits. */
  function Add(a: Int32, b: Int32): Int32 {
    ((a as int + b as int + 0x8000_0000) % 0x1_0000_0000 - 0x8000_0000) as Int32
  }

  /** Java's (char) cast of an int: its low 16 bits. */
  function ToChar(x: Int32): CodeUnit {
    (x as int % 0x1_0000) as CodeUnit
  }

  /** encodeNumber: negative numbers are refused; 0..9 become '0'..'9';
      n >= 10 becomes 'A' + (n - 10), taken modulo 2^16 by the cast, so the
      letters run out after 'Z' (n = 35). */
  function EncodeNumber(number: Int32): (r: Result<CodeUnit, Error>)
    ensures r.Failure? <==> number < 0
    ensures r.Failure? ==> r.error == NegativeNumber
    ensures 0 <= number <= 9 ==> r == Success((DigitZero + number as int) as CodeUnit)
    ensures 10 <= number ==> r == Success(((number as int + LetterA - 10) % 0x1_0000) as CodeUnit)
  {
    if number < 0 then Failure(NegativeNumber)
    else if number >= 0 && number <= 9 then Success(ToChar(Add(DigitZero as Int32, number)))
    else Success(ToChar(Add(LetterA as Int32, Add(number, -10))))
  }

  /** The value a digit or upper-case letter stands for: '0'..'9' are 0..9,
      'A'..'Z' are 10..35; any other character stands for none. */
  function DecodeDigit(c: CodeUnit): (r: Option<int>)
    ensures r.Some? ==> 0 <= r.value <= 35
  {
    if DigitZero <= c as int <= DigitZero + 9 then Some(c as int - DigitZero)
    else if LetterA <= c as int <= LetterA + 25 then Some(c as int - LetterA + 10)
    else None
  }

  /** The numbers 0..35 are drawn as digits and letters that read back as themselves. */
  lemma EncodeDecode(n: Int32)
    requires 0 <= n <= 35
    ensures EncodeNumber(n).Success?
    ensures DecodeDigit(EncodeNumber(n).value) == Some(n as int)
  {
  }

  /** Every digit and upper-case letter is the drawing of the value it stands for. */
  lemma DecodeEncode(c: CodeUnit)
    requires DecodeDigit(c).Some?
    ensures EncodeNumber(DecodeDigit(c).value as Int32) == Success(c)
  {
  }

  /** Distinct numbers below 65529 are drawn differently. */
  lemma EncodeInjective(a: Int32, b: Int32)
    requires 0 <= a < 65529 && 0 <= b < 65529
    requires EncodeNumber(a) == EncodeNumber(b)
    ensures a == b
  {
  }

  /** The bound is tight: 65529 wraps around to the drawing of 0. */
  lemma EncodeWrapsAround()
    ensures EncodeNumber(65529) == EncodeNumber(0) == Success(DigitZero as CodeUnit)
  {
  }

  /** The cell values 36..49 of a 49×49 board are drawn past 'Z' ('[' to 'h'),
      as characters that stand for no value. */
  lemma PastTheLetters(n: Int32)
    requires 36 <= n <= 49
    ensures EncodeNumber(n).Success?
    ensures DecodeDigit(EncodeNumber(n).value).None?
    ensures EncodeNumber(n).value as int == LetterA + 26 + (n as int - 36)
  {
  }
}
