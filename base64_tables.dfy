/**
 * The Base64 option bits and the three dialects' alphabets and decoding
 * tables: the standard alphabet and the URL- and filename-safe alphabet of
 * sections 3 and 4 of RFC 3548, and the "ordered" alphabet whose encodings
 * sort like the data they encode.
 *
 * Each 64-entry alphabet and 256-entry decoding table is written as the
 * ranges it is made of; every entry has the value of the corresponding table.
 */
module Base64Tables {
  import opened Common

  /** The `options` word of the codec. */
  type Options = bv32

  const NO_OPTIONS: Options := 0
  const ENCODE: Options := 1
  const DECODE: Options := 0
  const GZIP: Options := 2
  const DONT_GUNZIP: Options := 4
  const DO_BREAK_LINES: Options := 8
  const URL_SAFE: Options := 16
  const ORDERED: Options := 32

  /** What a stream takes from its constructor's `options`: encoding or decoding, line breaks, the alphabet. */
  datatype Mode = Mode(encode: bool, breakLines: bool, options: Options)

  /** The stream constructors' reading of `options`. */
  function StreamMode(options: Options): (m: Mode)
    ensures m.options == options
    ensures m.encode <==> options & ENCODE == ENCODE
    ensures m.breakLines <==> options & DO_BREAK_LINES == DO_BREAK_LINES
  {
    Mode(options & ENCODE != 0, options & DO_BREAK_LINES != 0, options)
  }

  /** Maximum line length of broken output. */
  const MAX_LINE_LENGTH: nat := 76

  const EQUALS_SIGN: byte := 61   // '='
  const NEW_LINE: byte := 10      // '\n'

  /** The decoding-table values that are not 6-bit digits. */
  const WHITE_SPACE_ENC: int := -5
  const EQUALS_SIGN_ENC: int := -1
  const INVALID_ENC: int := -9

  datatype Dialect = Standard | UrlSafe | Ordered

  /** `getAlphabet` / `getDecodabet`: URL_SAFE is tested first, then ORDERED. */
  function DialectOf(options: Options): (d: Dialect)
    ensures d == UrlSafe <==> options & URL_SAFE == URL_SAFE
    ensures d == Ordered <==> options & URL_SAFE != URL_SAFE && options & ORDERED == ORDERED
  {
    if options & URL_SAFE == URL_SAFE then UrlSafe
    else if options & ORDERED == ORDERED then Ordered
    else Standard
  }

  /** A 6-bit digit. */
  type Digit = i: byte | i < 64

  /** The alphabet: the character that encodes digit `i`. */
  function Alphabet(d: Dialect, i: Digit): byte
  {
    match d
    case Ordered =>
      if i == 0 then 45                  // '-'
      else if i <= 10 then 48 + (i - 1)  // '0'..'9'
      else if i <= 36 then 65 + (i - 11) // 'A'..'Z'
      else if i == 37 then 95            // '_'
      else 97 + (i - 38)                 // 'a'..'z'
    case _ =>
      if i < 26 then 65 + i              // 'A'..'Z'
      else if i < 52 then 97 + (i - 26)  // 'a'..'z'
      else if i < 62 then 48 + (i - 52)  // '0'..'9'
      else if i == 62 then (if d == Standard then 43 else 45)  // '+' or '-'
      else (if d == Standard then 47 else 95)                  // '/' or '_'
  }

  /** Tab, line feed, carriage return and space. */
  predicate IsWhiteSpace(c: byte)
  {
    c == 9 || c == 10 || c == 13 || c == 32
  }

  /** An entry of a decoding table. */
  datatype Entry =
    | Sextet(digit: Digit)  // the digit the character encodes
    | Padding               // -1: the equals sign
    | WhiteSpace            // -5
    | Invalid               // -9

  /** The signed byte the table stores for an entry. */
  function TableValue(e: Entry): (v: int)
    ensures e.Sextet? <==> 0 <= v
    ensures v >= WHITE_SPACE_ENC <==> !e.Invalid?
    ensures v >= EQUALS_SIGN_ENC <==> e.Sextet? || e.Padding?
  {
    match e
    case Sextet(digit) => digit as int
    case Padding => EQUALS_SIGN_ENC
    case WhiteSpace => WHITE_SPACE_ENC
    case Invalid => INVALID_ENC
  }

  /** The decoding table of a dialect, entry for character `c`. */
  function Decodabet(d: Dialect, c: byte): (e: Entry)
    ensures e == WhiteSpace <==> IsWhiteSpace(c)
    ensures e == Padding <==> c == EQUALS_SIGN
    ensures c >= 0x80 ==> e == Invalid
  {
    if IsWhiteSpace(c) then WhiteSpace
    else if c == EQUALS_SIGN then Padding
    else match d
      case Ordered =>
        if c == 45 then Sextet(0)
        else if 48 <= c <= 57 then Sextet(c - 47)
        else if 65 <= c <= 90 then Sextet(c - 54)
        else if c == 95 then Sextet(37)
        else if 97 <= c <= 122 then Sextet(c - 59)
        else Invalid
      case _ =>
        if 65 <= c <= 90 then Sextet(c - 65)
        else if 97 <= c <= 122 then Sextet(c - 97 + 26)
        else if 48 <= c <= 57 then Sextet(c - 48 + 52)
        else if c == (if d == Standard then 43 else 45) then Sextet(62)
        else if c == (if d == Standard then 47 else 95) then Sextet(63)
        else Invalid
  }

  /** Every character of the alphabet decodes to its own position. */
  lemma AlphabetDecodes(d: Dialect, i: Digit)
    ensures Decodabet(d, Alphabet(d, i)) == Sextet(i)
  {
  }

  /** An alphabet character is seven-bit, is not '=' and is not white space. */
  lemma AlphabetChar(d: Dialect, i: Digit)
    ensures Alphabet(d, i) < 0x80 && Alphabet(d, i) != EQUALS_SIGN && !IsWhiteSpace(Alphabet(d, i))
  {
  }

  /** Every character the table gives a digit to is the alphabet's character for that digit. */
  lemma DecodabetInverts(d: Dialect, c: byte)
    requires Decodabet(d, c).Sextet?
    ensures Alphabet(d, Decodabet(d, c).digit) == c
  {
  }

  /** No two digits share a character, and no alphabet character is '=' or white space. */
  lemma AlphabetIsCode(d: Dialect, i: Digit, j: Digit)
    ensures Alphabet(d, i) == Alphabet(d, j) ==> i == j
    ensures Alphabet(d, i) != EQUALS_SIGN && !IsWhiteSpace(Alphabet(d, i))
  {
    AlphabetDecodes(d, i);
    AlphabetDecodes(d, j);
  }

  /** The ordered alphabet is ascending, so encodings compare like the digits they encode. */
  lemma OrderedAlphabetAscends(i: Digit, j: Digit)
    requires i < j
    ensures Alphabet(Ordered, i) < Alphabet(Ordered, j)
  {
  }
}
