/** Hexadecimal digits, as they are printed in either case and as `convertCharToInt` reads them. */
module HexDigits {

  type nibble = d: int | 0 <= d < 16

  /** One digit of `%X` or of `%x`. */
  function Digit(d: nibble, upper: bool): char {
    if d < 10 then '0' + d as char else (if upper then 'A' else 'a') + (d - 10) as char
  }

  /** Anything that is not a hex digit counts as 0. */
  function CharToInt(c: char): nibble {
    if '0' <= c <= '9' then (c - '0') as int
    else if 'A' <= c <= 'F' then (c - 'A') as int + 10
    else if 'a' <= c <= 'f' then (c - 'a') as int + 10
    else 0
  }

  lemma DigitRoundTrip(d: nibble, upper: bool)
    ensures CharToInt(Digit(d, upper)) == d
    ensures Digit(d, upper) != ' ' && Digit(d, upper) != '\n' && Digit(d, upper) != '\0'
  {
  }
}
