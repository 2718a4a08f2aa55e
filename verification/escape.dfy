/** The escape codec: the measuring half (`measure_escape_sequence`, which
    reads `\u` digits with `strtoul`), the materializing half
    (`unescape_code_point`, which demands four `isxdigit` bytes) and the
    UTF-8 encoder they share (`get_utf8_code_point_length` and
    `put_utf8_code_point`). All positions are those of the byte after the
    backslash. */
module Escape {
  import opened Bytes
  import opened Results
  import opened Utf8

  const LOWER_U: byte := 0x75  // u

  /** The eight one-letter escapes and the byte each stands for: the
      quote, the backslash and the slash stand for themselves, and the five
      letters `b f n r t` for control characters. */
  function ShortEscape(c: byte): (r: Option<byte>)
    ensures r.Some? <==> c in {BACKSLASH, QUOTE, SLASH, 0x62, 0x66, 0x6E, 0x72, 0x74}
    ensures r.Some? ==> (r.value == c <==> c in {BACKSLASH, QUOTE, SLASH})
    ensures r.Some? && r.value != c ==> r.value < 0x20
  {
    if c == BACKSLASH then Some(BACKSLASH)
    else if c == QUOTE then Some(QUOTE)
    else if c == SLASH then Some(SLASH)
    else if c == 0x62 then Some(0x08)  // \b
    else if c == 0x66 then Some(0x0C)  // \f
    else if c == 0x6E then Some(0x0A)  // \n
    else if c == 0x72 then Some(0x0D)  // \r
    else if c == 0x74 then Some(0x09)  // \t
    else None
  }

  /** How many code points a UTF-8 form of `n` bytes can carry: the free
      bits of the lead byte (0xxxxxxx, 110xxxxx, 1110xxxx) and six per
      continuation byte (section 3 of RFC 3629). */
  function Capacity(n: nat): nat
    requires 1 <= n <= 3
  {
    if n == 1 then 0x80 else if n == 2 then 0x20 * 0x40 else 0x10 * 0x40 * 0x40
  }

  /** `get_utf8_code_point_length`, whose parameter is an `int32_t`: the
      shortest UTF-8 form that can carry a 16-bit value. A negative value
      counts as one byte, and anything past 16 bits as three. */
  function CodePointLength(hex: int): (n: nat)
    ensures 1 <= n <= 3
    ensures 0 <= hex < Capacity(3) ==> hex < Capacity(n) && (n > 1 ==> Capacity(n - 1) <= hex)
    ensures hex < 0 ==> n == 1
    ensures Capacity(3) <= hex ==> n == 3
  {
    if hex <= 0x7F then 1
    else if 0x80 <= hex <= 0x7FF then 2
    else 3
  }

  /** `put_utf8_code_point` for the 16-bit values a `\u` escape carries
      (section 3 of RFC 3629, one to three bytes). The disjoint bit fields
      `0xc0 | hex >> 6` and `0x80 | (hex & 0x3f)` are written as sums. */
  function PutCodePoint(hex: nat): (w: seq<byte>)
    requires hex <= 0xFFFF
    ensures |w| == CodePointLength(hex)
    ensures 1 + BytesLeft(w[0]) == |w|
    ensures forall k :: 1 <= k < |w| ==> IsTrailing(w[k])
  {
    if hex <= 0x7F then [hex]
    else if 0x80 <= hex <= 0x7FF then [0xC0 + hex / 64, 0x80 + hex % 64]
    else [0xE0 + hex / 4096, 0x80 + (hex / 64) % 64, 0x80 + hex % 64]
  }

  /** Decoding of a one-, two- or three-byte UTF-8 sequence. */
  function DecodeCodePoint(w: seq<byte>): int
    requires 1 <= |w| <= 3
  {
    if |w| == 1 then w[0]
    else if |w| == 2 then (w[0] as int - 0xC0) * 64 + (w[1] as int - 0x80)
    else (w[0] as int - 0xE0) * 4096 + (w[1] as int - 0x80) * 64 + (w[2] as int - 0x80)
  }

  /** The encoder is invertible: decoding what it writes gives the value back. */
  lemma PutDecodeRoundTrip(hex: nat)
    requires hex <= 0xFFFF
    ensures DecodeCodePoint(PutCodePoint(hex)) == hex
  {
    if 0x7FF < hex {
      assert hex == (hex / 4096) * 4096 + ((hex / 64) % 64) * 64 + hex % 64;
    }
  }

  /** What the encoder writes is itself accepted by the classification
      tables as one code point of the same length. */
  lemma PutIsCheckedCodePoint(hex: nat)
    requires hex <= 0xFFFF
    ensures CheckCodePoint(PutCodePoint(hex), 0) == |PutCodePoint(hex)|
  {
    var w := PutCodePoint(hex);
    assert forall k :: 0 < k <= BytesLeft(At(w, 0)) ==> At(w, k) == w[k];
  }

  /** The outcome of `strtoul(p, &end, 16)` as glibc computes it:
      `consumed` is `end - p`, and the value is the digits' `magnitude`,
      negated after a '-'. */
  datatype Conversion = Conversion(consumed: nat, negative: bool, magnitude: nat)

  /** `strtoul` in base 16 from `i`: leading `isspace` bytes, an optional
      sign, an optional "0x"/"0X" prefix, then the longest run of hex
      digits. With no digit after a prefix, `end` points at the 'x'; with
      no digit at all, nothing is consumed. */
  function StrtoulHex(s: seq<byte>, i: nat): (c: Conversion)
    ensures c.consumed > 0 ==> i + c.consumed <= |s| && At(s, i + c.consumed - 1) != NUL
  {
    var p := i + SpaceRun(s, i);
    var signed := At(s, p) == MINUS || At(s, p) == PLUS;
    var q := if signed then p + 1 else p;
    var prefixed := At(s, q) == ZERO && (At(s, q + 1) == LOWER_X || At(s, q + 1) == UPPER_X);
    var r := if prefixed then q + 2 else q;
    var digits := HexRun(s, r);
    if digits > 0 then
      assert IsXDigit(At(s, r + digits - 1));
      Conversion(r + digits - i, At(s, p) == MINUS, HexNumber(s, r, digits))
    else if prefixed then
      Conversion(q + 1 - i, At(s, p) == MINUS, 0)
    else
      Conversion(0, false, 0)
  }

  const ULONG_MAX: nat := 0xFFFF_FFFF_FFFF_FFFF

  /** The `unsigned long` strtoul returns: saturated on overflow, negated
      modulo 2^64 after a '-'. */
  function ULongValue(c: Conversion): (v: nat)
    ensures v <= ULONG_MAX
  {
    if c.magnitude > ULONG_MAX then ULONG_MAX
    else if c.negative && c.magnitude > 0 then ULONG_MAX + 1 - c.magnitude
    else c.magnitude
  }

  /** The result is stored in a `uint32_t` and then passed as the `int32_t`
      parameter of `get_utf8_code_point_length`. */
  function Int32OfUint32(x: nat): (v: int)
    ensures -0x8000_0000 <= v < 0x8000_0000
  {
    var u := x % 0x1_0000_0000;
    if u >= 0x8000_0000 then u - 0x1_0000_0000 else u
  }

  /** How many source bytes an escape occupies and how many UTF-8 bytes it
      decodes to. */
  datatype EscapeSize = EscapeSize(consumed: nat, length: nat)

  /** `measure_escape_sequence`: `None` for an unknown escape letter or a
      `\u` after which `strtoul` does not consume exactly four bytes. */
  function MeasureEscape(s: seq<byte>, i: nat): (r: Option<EscapeSize>)
    ensures r.Some? ==> 1 <= r.value.length <= 3 && 1 <= r.value.consumed
    ensures r.Some? ==> i + r.value.consumed <= |s|
  {
    var c := At(s, i);
    if ShortEscape(c).Some? then Some(EscapeSize(1, 1))
    else if c == LOWER_U then
      var conv := StrtoulHex(s, i + 1);
      if conv.consumed != 4 then None
      else Some(EscapeSize(5, CodePointLength(Int32OfUint32(ULongValue(conv)))))
    else None
  }

  /** The four bytes from `j` are hexadecimal digits (the `isxdigit` loop of
      `unescape_code_point`). */
  predicate FourHexDigits(s: seq<byte>, j: nat) {
    forall k :: j <= k < j + 4 ==> IsXDigit(At(s, k))
  }

  /** Source bytes read and UTF-8 bytes written by one escape. */
  datatype Unescaped = Unescaped(consumed: nat, bytes: seq<byte>)

  /** `unescape_code_point`: `None` for an unknown escape letter or a `\u`
      not followed by four hex digits. The check that the code point fits
      in the output block (`end - out < len`) is left to the caller's loop,
      which fails in the same way. */
  function UnescapeCodePoint(s: seq<byte>, i: nat): (r: Option<Unescaped>)
    ensures r.Some? ==> 1 <= |r.value.bytes| <= 3 && 1 + BytesLeft(r.value.bytes[0]) == |r.value.bytes|
    ensures r.Some? ==> 1 <= r.value.consumed && i + r.value.consumed <= |s|
  {
    var c := At(s, i);
    match ShortEscape(c)
    case Some(b) => Some(Unescaped(1, [b]))
    case None =>
      if c != LOWER_U then None
      else if !FourHexDigits(s, i + 1) then None
      else
        var hex := HexNumber(s, i + 1, 4);
        assert IsXDigit(At(s, i + 4));
        Some(Unescaped(5, PutCodePoint(hex)))
  }

  /** Four hex digits followed by a byte that is not one: `strtoul` reads
      exactly those digits, so both halves see the same value. */
  lemma StrtoulOnFourDigits(s: seq<byte>, j: nat)
    requires FourHexDigits(s, j) && !IsXDigit(At(s, j + 4))
    ensures StrtoulHex(s, j) == Conversion(4, false, HexNumber(s, j, 4))
  {
    assert IsXDigit(At(s, j)) && IsXDigit(At(s, j + 1));
    assert SpaceRun(s, j) == 0;
  }

  /** A one-letter escape is measured as one byte read and one written, and
      materialized as the byte the letter stands for. */
  lemma ShortEscapeAgreement(s: seq<byte>, i: nat)
    requires ShortEscape(At(s, i)).Some?
    ensures MeasureEscape(s, i) == Some(EscapeSize(1, 1))
    ensures UnescapeCodePoint(s, i) == Some(Unescaped(1, [ShortEscape(At(s, i)).value]))
  {
  }

  /** A value below 2^31 keeps its value as an `int32_t`. */
  lemma Int32OfSmall(x: nat)
    requires x < 0x8000_0000
    ensures Int32OfUint32(x) == x
  {
  }

  /** A `\u` whose four bytes after the 'u' are hex digits and whose fifth
      is not: measure consumes 5 and reports the length of the value,
      materialize consumes 5 and writes `put_utf8_code_point` of that value. */
  lemma HexEscapeAgreement(s: seq<byte>, i: nat)
    requires At(s, i) == LOWER_U
    requires FourHexDigits(s, i + 1) && !IsXDigit(At(s, i + 5))
    ensures var hex := HexNumber(s, i + 1, 4);
      && MeasureEscape(s, i) == Some(EscapeSize(5, CodePointLength(hex)))
      && UnescapeCodePoint(s, i) == Some(Unescaped(5, PutCodePoint(hex)))
  {
    var hex := HexNumber(s, i + 1, 4);
    StrtoulOnFourDigits(s, i + 1);
    assert Pow16(4) == 0x1_0000;
    assert ULongValue(Conversion(4, false, hex)) == hex;
    Int32OfSmall(hex);
    assert MeasureEscape(s, i) == Some(EscapeSize(5, CodePointLength(hex)));
  }

  /** The two halves agree on every escape the measuring half accepts:
      materialize fails only for a `\u` whose next four bytes are not all
      hex digits, and otherwise consumes and writes exactly what was
      measured. */
  lemma MeasureThenMaterialize(s: seq<byte>, i: nat)
    requires MeasureEscape(s, i).Some?
    ensures UnescapeCodePoint(s, i).None? <==> (At(s, i) == LOWER_U && !FourHexDigits(s, i + 1))
    ensures UnescapeCodePoint(s, i).Some? ==>
      && UnescapeCodePoint(s, i).value.consumed == MeasureEscape(s, i).value.consumed
      && |UnescapeCodePoint(s, i).value.bytes| == MeasureEscape(s, i).value.length
  {
    if At(s, i) == LOWER_U && FourHexDigits(s, i + 1) {
      var conv := StrtoulHex(s, i + 1);
      assert conv.consumed == 4;
      HexEscapeAgreement(s, i);
    }
  }

  /** Any escape letter outside the eight short ones and 'u' is refused by
      both halves. */
  lemma UnknownEscapeRefused(s: seq<byte>, i: nat)
    requires ShortEscape(At(s, i)).None? && At(s, i) != LOWER_U
    ensures MeasureEscape(s, i).None? && UnescapeCodePoint(s, i).None?
  {
  }

  /** A valid escape followed by a fifth hex digit, such as the `\u00e9` of
      `\u00e91`, is refused by the measuring half, because `strtoul` also
      reads the trailing digit; section 7 of RFC 8259 allows it. The
      materializing half alone would accept it. */
  lemma FifthDigitRefused(s: seq<byte>, i: nat)
    requires At(s, i) == LOWER_U && FourHexDigits(s, i + 1) && IsXDigit(At(s, i + 5))
    ensures MeasureEscape(s, i).None?
    ensures UnescapeCodePoint(s, i).Some?
  {
    assert IsXDigit(At(s, i + 1)) && IsXDigit(At(s, i + 2));
  }

  /** `strtoul` also takes leading whitespace, a sign and a "0x" prefix, so
      the measuring half accepts `\u 7ff`, `\u+7ff`, `\u-001` and `\u0x7f`,
      all of which the materializing half refuses. */
  lemma MeasureAcceptsNonDigits()
    ensures MeasureEscape([LOWER_U, 0x20, 0x37, 0x66, 0x66], 0) == Some(EscapeSize(5, 2))
    ensures MeasureEscape([LOWER_U, PLUS, 0x37, 0x66, 0x66], 0) == Some(EscapeSize(5, 2))
    ensures MeasureEscape([LOWER_U, MINUS, 0x30, 0x30, 0x31], 0) == Some(EscapeSize(5, 1))
    ensures MeasureEscape([LOWER_U, ZERO, LOWER_X, 0x37, 0x66], 0) == Some(EscapeSize(5, 1))
    ensures UnescapeCodePoint([LOWER_U, 0x20, 0x37, 0x66, 0x66], 0).None?
    ensures UnescapeCodePoint([LOWER_U, PLUS, 0x37, 0x66, 0x66], 0).None?
    ensures UnescapeCodePoint([LOWER_U, MINUS, 0x30, 0x30, 0x31], 0).None?
    ensures UnescapeCodePoint([LOWER_U, ZERO, LOWER_X, 0x37, 0x66], 0).None?
  {
    LeadingSpaceAccepted();
    LeadingPlusAccepted();
    LeadingMinusAccepted();
    HexPrefixAccepted();
  }

  lemma LeadingSpaceAccepted()
    ensures MeasureEscape([LOWER_U, 0x20, 0x37, 0x66, 0x66], 0) == Some(EscapeSize(5, 2))
    ensures UnescapeCodePoint([LOWER_U, 0x20, 0x37, 0x66, 0x66], 0).None?
  {
    var s: seq<byte> := [LOWER_U, 0x20, 0x37, 0x66, 0x66];
    assert SpaceRun(s, 1) == 1;
    assert HexRun(s, 2) == 3;
    assert HexNumber(s, 2, 1) == 0x7 && HexNumber(s, 2, 2) == 0x7F;
    assert HexNumber(s, 2, 3) == 0x7FF;
    assert !IsXDigit(At(s, 1));
  }

  lemma LeadingPlusAccepted()
    ensures MeasureEscape([LOWER_U, PLUS, 0x37, 0x66, 0x66], 0) == Some(EscapeSize(5, 2))
    ensures UnescapeCodePoint([LOWER_U, PLUS, 0x37, 0x66, 0x66], 0).None?
  {
    var s: seq<byte> := [LOWER_U, PLUS, 0x37, 0x66, 0x66];
    assert SpaceRun(s, 1) == 0;
    assert HexRun(s, 2) == 3;
    assert HexNumber(s, 2, 1) == 0x7 && HexNumber(s, 2, 2) == 0x7F;
    assert HexNumber(s, 2, 3) == 0x7FF;
    assert !IsXDigit(At(s, 1));
  }

  lemma LeadingMinusAccepted()
    ensures MeasureEscape([LOWER_U, MINUS, 0x30, 0x30, 0x31], 0) == Some(EscapeSize(5, 1))
    ensures UnescapeCodePoint([LOWER_U, MINUS, 0x30, 0x30, 0x31], 0).None?
  {
    var s: seq<byte> := [LOWER_U, MINUS, 0x30, 0x30, 0x31];
    assert SpaceRun(s, 1) == 0;
    assert HexRun(s, 2) == 3;
    assert HexNumber(s, 2, 1) == 0 && HexNumber(s, 2, 2) == 0;
    assert HexNumber(s, 2, 3) == 1;
    assert StrtoulHex(s, 1) == Conversion(4, true, 1);
    assert ULongValue(Conversion(4, true, 1)) == ULONG_MAX;
    assert Int32OfUint32(ULONG_MAX) == -1;
    assert !IsXDigit(At(s, 1));
  }

  lemma HexPrefixAccepted()
    ensures MeasureEscape([LOWER_U, ZERO, LOWER_X, 0x37, 0x66], 0) == Some(EscapeSize(5, 1))
    ensures UnescapeCodePoint([LOWER_U, ZERO, LOWER_X, 0x37, 0x66], 0).None?
  {
    var s: seq<byte> := [LOWER_U, ZERO, LOWER_X, 0x37, 0x66];
    assert SpaceRun(s, 1) == 0;
    assert HexRun(s, 3) == 2;
    assert HexNumber(s, 3, 2) == 0x7F;
    assert !IsXDigit(At(s, 2));
  }
}
