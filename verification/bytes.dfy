/** Bytes of the input buffer and the C-locale character classes the decoder
    consults (`isspace`, `isxdigit` and the `ctoh` table of parser.c). */
module Bytes {

  type byte = b: int | 0 <= b < 0x100

  /** The byte at index `i` of the NUL-terminated buffer whose text is `s`.
      Index `|s|` is the terminator; the model reads every index past the
      text as that terminator, and the scanners that could run beyond it
      stop at `|s|` explicitly. */
  function At(s: seq<byte>, i: nat): byte {
    if i < |s| then s[i] else 0
  }

  /** The `n` bytes of the buffer starting at `i`. */
  function Window(s: seq<byte>, i: nat, n: nat): (w: seq<byte>)
    ensures |w| == n
    ensures forall k :: 0 <= k < n ==> w[k] == At(s, i + k)
    ensures i + n <= |s| ==> w == s[i..i + n]
  {
    if n == 0 then [] else Window(s, i, n - 1) + [At(s, i + n - 1)]
  }

  const NUL: byte := 0x00
  const QUOTE: byte := 0x22      // "
  const PLUS: byte := 0x2B       // +
  const COMMA: byte := 0x2C      // ,
  const MINUS: byte := 0x2D      // -
  const SLASH: byte := 0x2F      // /
  const ZERO: byte := 0x30       // 0
  const COLON: byte := 0x3A      // :
  const UPPER_X: byte := 0x58    // X
  const L_SQUARE: byte := 0x5B   // [
  const BACKSLASH: byte := 0x5C  // \
  const R_SQUARE: byte := 0x5D   // ]
  const LOWER_X: byte := 0x78    // x
  const L_BRACE: byte := 0x7B    // {
  const R_BRACE: byte := 0x7D    // }

  /** `isspace` in the C locale: space, \t, \n, \v, \f and \r. */
  predicate IsSpace(c: byte) {
    c == 0x20 || 0x09 <= c <= 0x0D
  }

  /** `isxdigit` in the C locale. */
  predicate IsXDigit(c: byte) {
    0x30 <= c <= 0x39 || 0x41 <= c <= 0x46 || 0x61 <= c <= 0x66
  }

  /** The digit that spells `v` in base 16, in lower or upper case. */
  function HexDigit(v: nat, lower: bool): byte
    requires v < 16
  {
    (if lower then "0123456789abcdef" else "0123456789ABCDEF")[v] as byte
  }

  /** The `ctoh` table: the value of a hexadecimal digit, 0 for any other byte. */
  function HexValue(c: byte): (v: nat)
    ensures v < 16
    ensures !IsXDigit(c) ==> v == 0
    ensures IsXDigit(c) ==> c == HexDigit(v, c >= 0x61)
  {
    if 0x30 <= c <= 0x39 then c - 0x30
    else if 0x41 <= c <= 0x46 then c - 0x41 + 10
    else if 0x61 <= c <= 0x66 then c - 0x61 + 10
    else 0
  }

  /** Reading a digit back with `ctoh` gives the value it spells. */
  lemma HexDigitRoundTrip(v: nat, lower: bool)
    requires v < 16
    ensures IsXDigit(HexDigit(v, lower)) && HexValue(HexDigit(v, lower)) == v
  {
  }

  /** No byte of `w` is a NUL: `w` is a whole C string. */
  predicate NulFree(w: seq<byte>) {
    forall k :: 0 <= k < |w| ==> w[k] != NUL
  }

  /** A C string stops at its first NUL: the bytes of `s` before the first 0. */
  function CString(s: seq<byte>): (r: seq<byte>)
    ensures |r| <= |s| && r == s[..|r|]
    ensures NulFree(r)
    ensures |r| < |s| ==> s[|r|] == NUL
  {
    if |s| == 0 || s[0] == NUL then [] else [s[0]] + CString(s[1..])
  }

  /** The number of consecutive `isspace` bytes starting at `j`: the loop
      `while (isspace(*json)) ++json` of parser.c:289, and the whitespace
      that `strtoul` skips. */
  function SpaceRun(s: seq<byte>, j: nat): (n: nat)
    ensures j + n <= |s| || n == 0
    ensures forall k :: j <= k < j + n ==> IsSpace(At(s, k))
    ensures !IsSpace(At(s, j + n))
    decreases |s| - j
  {
    if j < |s| && IsSpace(s[j]) then 1 + SpaceRun(s, j + 1) else 0
  }

  /** The number of consecutive hexadecimal digits starting at `j`. */
  function HexRun(s: seq<byte>, j: nat): (n: nat)
    ensures j + n <= |s| || n == 0
    ensures forall k :: j <= k < j + n ==> IsXDigit(At(s, k))
    ensures !IsXDigit(At(s, j + n))
    decreases |s| - j
  {
    if j < |s| && IsXDigit(s[j]) then 1 + HexRun(s, j + 1) else 0
  }

  function Pow16(n: nat): (p: nat)
    ensures p >= 1
  {
    if n == 0 then 1 else 16 * Pow16(n - 1)
  }

  /** The value of the `n` hexadecimal digits starting at `j`, accumulated
      most significant first as `hex = (hex << 4) | ctoh[c]` does. */
  function HexNumber(s: seq<byte>, j: nat, n: nat): (v: nat)
    ensures v < Pow16(n)
  {
    if n == 0 then 0 else HexNumber(s, j, n - 1) * 16 + HexValue(At(s, j + n - 1))
  }
}
