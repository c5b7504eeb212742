/**
 Lower-case hexadecimal formatting of words, as the `{:08x}` format
 specifier produces it, together with the parser that undoes it.
 */
module Hex {
  import opened Words

  predicate IsLowerHexDigit(c: char)
  {
    '0' <= c <= '9' || 'a' <= c <= 'f'
  }

  predicate IsLowerHex(s: string)
  {
    forall i :: 0 <= i < |s| ==> IsLowerHexDigit(s[i])
  }

  /** The value of one lower-case hex digit. */
  function DigitValue(c: char): (n: word)
    requires IsLowerHexDigit(c)
    ensures n < 16
    ensures ('0' <= c <= '9') <==> n < 10
  {
    if c == '0' then 0 else
    if c == '1' then 1 else
    if c == '2' then 2 else
    if c == '3' then 3 else
    if c == '4' then 4 else
    if c == '5' then 5 else
    if c == '6' then 6 else
    if c == '7' then 7 else
    if c == '8' then 8 else
    if c == '9' then 9 else
    if c == 'a' then 10 else
    if c == 'b' then 11 else
    if c == 'c' then 12 else
    if c == 'd' then 13 else
    if c == 'e' then 14 else 15
  }

  /** The lower-case hex digit of a nibble. */
  function Digit(n: word): (c: char)
    requires n < 16
    ensures IsLowerHexDigit(c)
    ensures DigitValue(c) == n
  {
    if n == 0 then '0' else
    if n == 1 then '1' else
    if n == 2 then '2' else
    if n == 3 then '3' else
    if n == 4 then '4' else
    if n == 5 then '5' else
    if n == 6 then '6' else
    if n == 7 then '7' else
    if n == 8 then '8' else
    if n == 9 then '9' else
    if n == 10 then 'a' else
    if n == 11 then 'b' else
    if n == 12 then 'c' else
    if n == 13 then 'd' else
    if n == 14 then 'e' else 'f'
  }

  /** Every lower-case hex digit is the digit of its own value. */
  lemma DigitOfValue(c: char)
    requires IsLowerHexDigit(c)
    ensures Digit(DigitValue(c)) == c
  {
  }

  /** `{:08x}`: eight lower-case hex digits, most significant nibble first,
      zero-padded. */
  function Hex32(w: word): (s: string)
    ensures |s| == 8 && IsLowerHex(s)
  {
    [Digit(w >> 28), Digit((w >> 24) & 0xF), Digit((w >> 20) & 0xF), Digit((w >> 16) & 0xF),
     Digit((w >> 12) & 0xF), Digit((w >> 8) & 0xF), Digit((w >> 4) & 0xF), Digit(w & 0xF)]
  }

  /** Formatting loses nothing: the digits read back as the word. */
  lemma Parse32OfHex32(w: word)
    ensures Parse32(Hex32(w)) == w
  {
  }

  /** The word written by eight hex digits, most significant first. */
  function Parse32(s: string): (w: word)
    requires |s| == 8 && IsLowerHex(s)
  {
    Nibbles(DigitValue(s[0]), DigitValue(s[1]), DigitValue(s[2]), DigitValue(s[3]),
            DigitValue(s[4]), DigitValue(s[5]), DigitValue(s[6]), DigitValue(s[7]))
  }

  /** The word made of eight nibbles, most significant first. */
  function Nibbles(v0: word, v1: word, v2: word, v3: word, v4: word, v5: word, v6: word, v7: word): (w: word)
    requires v0 < 16 && v1 < 16 && v2 < 16 && v3 < 16 && v4 < 16 && v5 < 16 && v6 < 16 && v7 < 16
    ensures w >> 28 == v0 && (w >> 24) & 0xF == v1 && (w >> 20) & 0xF == v2 && (w >> 16) & 0xF == v3
    ensures (w >> 12) & 0xF == v4 && (w >> 8) & 0xF == v5 && (w >> 4) & 0xF == v6 && w & 0xF == v7
  {
    (v0 << 28) | (v1 << 24) | (v2 << 20) | (v3 << 16) | (v4 << 12) | (v5 << 8) | (v6 << 4) | v7
  }

  /** A word whose nibbles are the values of the digits of s is formatted as s. */
  lemma Hex32OfDigitValues(s: string, w: word)
    requires |s| == 8 && IsLowerHex(s)
    requires w >> 28 == DigitValue(s[0]) && (w >> 24) & 0xF == DigitValue(s[1])
    requires (w >> 20) & 0xF == DigitValue(s[2]) && (w >> 16) & 0xF == DigitValue(s[3])
    requires (w >> 12) & 0xF == DigitValue(s[4]) && (w >> 8) & 0xF == DigitValue(s[5])
    requires (w >> 4) & 0xF == DigitValue(s[6]) && w & 0xF == DigitValue(s[7])
    ensures Hex32(w) == s
  {
    DigitOfValue(s[0]); DigitOfValue(s[1]); DigitOfValue(s[2]); DigitOfValue(s[3]);
    DigitOfValue(s[4]); DigitOfValue(s[5]); DigitOfValue(s[6]); DigitOfValue(s[7]);
    assert s == [s[0], s[1], s[2], s[3], s[4], s[5], s[6], s[7]];
  }

  /** Every eight-digit lower-case hex string is the formatting of a word. */
  lemma Hex32OfParse32(s: string)
    requires |s| == 8 && IsLowerHex(s)
    ensures Hex32(Parse32(s)) == s
  {
    Hex32OfDigitValues(s, Parse32(s));
  }

  /** The two hex digits of a byte, high nibble first. */
  function HexByte(b: byte): (s: string)
    ensures |s| == 2 && IsLowerHex(s)
    ensures (DigitValue(s[0]) << 4) | DigitValue(s[1]) == b as word
  {
    [Digit((b as word) >> 4), Digit((b as word) & 0xF)]
  }
}
