/** The UTF-8 classification tables of parser.c and the two routines that
    read a literal (unescaped) code point out of a string body:
    `check_code_point`, used while measuring, and `copy_code_point`, used
    while materializing. The tables are looser than section 4 of RFC 3629:
    lone continuation bytes, five- and six-byte leads, overlong forms and
    surrogates all pass. */
module Utf8 {
  import opened Bytes
  import opened Results

  /** 2 to the power `n`. */
  function Pow2(n: nat): nat {
    if n == 0 then 1 else 2 * Pow2(n - 1)
  }

  /** `utf8_bytes_left`: how many continuation bytes a lead byte announces,
      one fewer than its leading one bits, so 0 for an ASCII byte or a lone
      continuation byte; -1 for 0xFE and 0xFF, which can never lead. */
  function BytesLeft(lead: byte): (n: int)
    ensures -1 <= n <= 5
    ensures n == -1 <==> lead >= 0xFE
    ensures n == 0 <==> lead < 0xC0
    ensures 1 <= n ==> 0x100 - 0x80 / Pow2(n) <= lead < 0x100 - 0x40 / Pow2(n)
  {
    if lead < 0xC0 then 0
    else if lead < 0xE0 then 1
    else if lead < 0xF0 then 2
    else if lead < 0xF8 then 3
    else if lead < 0xFC then 4
    else if lead < 0xFE then 5
    else -1
  }

  /** `is_trailing_utf8_byte`: the continuation bytes, those whose two
      high bits are 10. */
  function IsTrailing(b: byte): (t: bool)
    ensures t <==> b / 64 == 2
  {
    0x80 <= b <= 0xBF
  }

  /** The continuation loop shared by both routines: each of the `count`
      bytes from `j` on is a continuation byte. */
  function TrailingRun(s: seq<byte>, j: nat, count: nat): (ok: bool)
    ensures ok <==> forall k :: j <= k < j + count ==> IsTrailing(At(s, k))
    decreases count
  {
    count == 0 || (IsTrailing(At(s, j)) && TrailingRun(s, j + 1, count - 1))
  }

  /** `check_code_point`: the length of the code point that starts at `i`,
      or 0 when the lead byte cannot lead or one of the announced
      continuation bytes is not one. */
  function CheckCodePoint(s: seq<byte>, i: nat): (n: nat)
    ensures n == 0 <==>
      (BytesLeft(At(s, i)) == -1 ||
       exists k :: i < k <= i + BytesLeft(At(s, i)) && !IsTrailing(At(s, k)))
    ensures n != 0 ==> n == 1 + BytesLeft(At(s, i))
    ensures n != 0 && i < |s| ==> i + n <= |s|
  {
    var left := BytesLeft(At(s, i));
    if left == -1 then 0
    else if TrailingRun(s, i + 1, left) then
      assert left > 0 ==> IsTrailing(At(s, i + left));
      left + 1
    else 0
  }

  /** `copy_code_point`: the bytes of the code point at `i`, or `None`
      when the lead byte cannot lead or a continuation byte is missing. The
      check that they fit in the output block is left to the caller's
      loop, which fails in the same way. */
  function CopyCodePoint(s: seq<byte>, i: nat): (r: Option<seq<byte>>)
    ensures r.Some? <==> CheckCodePoint(s, i) != 0
    ensures r.Some? ==> r.value == Window(s, i, CheckCodePoint(s, i))
  {
    var left := BytesLeft(At(s, i));
    if left == -1 then None
    else if TrailingRun(s, i + 1, left) then Some(Window(s, i, left + 1))
    else None
  }

  /** Sequences section 4 of RFC 3629 forbids that the tables accept: a lone
      continuation byte, a five-byte lead, an overlong two-byte form of '/'
      and an encoded surrogate. */
  lemma TablesAcceptIllFormed()
    ensures CheckCodePoint([0x80], 0) == 1
    ensures CheckCodePoint([0xF8, 0x88, 0x80, 0x80, 0x80], 0) == 5
    ensures CheckCodePoint([0xC0, 0xAF], 0) == 2
    ensures CheckCodePoint([0xED, 0xA0, 0x80], 0) == 3
  {
  }
}
