/** The two passes over a string body: `measure_string_lexeme` validates the
    body up to the closing quote and computes the unescaped length
    (terminating NUL included); `unescape_string` later re-reads the same
    bytes into a block of exactly that length. The body starts just after
    the opening quote. Both loops are the walks of `StringWalk`, fed with
    what one iteration of each reads at every position. */
module JsonString {
  import opened Bytes
  import opened Results
  import opened Utf8
  import opened Escape
  import opened StringWalk

  /** One iteration of the loop of `measure_string_lexeme` at `j`. The C
      switch has no case for the NUL terminator (`check_code_point` takes
      0x00 as a one-byte code point), so on an unterminated string it reads
      past the buffer; the model stops at the end of the text and fails.
      Raw control bytes below 0x20 are accepted, which section 7 of
      RFC 8259 forbids. */
  function MeasureStep(s: seq<byte>, j: nat): (m: Measure)
    requires j < |s|
    ensures m == Close <==> s[j] == QUOTE
    ensures m.Advance? ==> j + m.consumed <= |s|
  {
    if s[j] == QUOTE then Close
    else if s[j] == BACKSLASH then
      match MeasureEscape(s, j + 1)
      case None => Reject
      case Some(e) => Advance(1 + e.consumed, e.length)
    else
      var n := CheckCodePoint(s, j);
      if n == 0 then Reject else Advance(n, n)
  }

  function MeasureSteps(s: seq<byte>): (t: seq<Measure>)
    ensures |t| == |s| && forall k :: 0 <= k < |s| ==> t[k] == MeasureStep(s, k)
  {
    seq(|s|, k requires 0 <= k < |s| => MeasureStep(s, k))
  }

  /** One iteration of the loop of `unescape_string` at `j`: the closing
      quote, an escape handed to `unescape_code_point`, or a literal code
      point handed to `copy_code_point`. */
  function UnescapeStep(s: seq<byte>, j: nat): (p: Piece)
    requires j < |s|
    ensures p == End <==> s[j] == QUOTE
    ensures p.Write? ==> j + p.consumed <= |s|
  {
    if s[j] == QUOTE then End
    else if s[j] == BACKSLASH then
      match UnescapeCodePoint(s, j + 1)
      case None => Fail(BadEscape)
      case Some(u) => Write(1 + u.consumed, u.bytes)
    else
      match CopyCodePoint(s, j)
      case None => Fail(BadCodePoint)
      case Some(w) => Write(|w|, w)
  }

  function UnescapeSteps(s: seq<byte>): (t: seq<Piece>)
    ensures |t| == |s| && forall k :: 0 <= k < |s| ==> t[k] == UnescapeStep(s, k)
  {
    seq(|s|, k requires 0 <= k < |s| => UnescapeStep(s, k))
  }

  /** The result of `measure_string_lexeme`: bytes read including the
      closing quote, and the unescaped length including the NUL. */
  datatype StringMeasure = StringMeasure(consumed: nat, unescapedLength: nat)

  function MeasureString(s: seq<byte>, begin: nat): (r: Option<StringMeasure>)
    ensures r.Some? ==> 1 <= r.value.consumed && begin + r.value.consumed <= |s|
    ensures r.Some? ==> s[begin + r.value.consumed - 1] == QUOTE
    ensures r.Some? ==> 1 <= r.value.unescapedLength
  {
    match MeasureWalk(MeasureSteps(s), begin, 0)
    case None => None
    case Some(m) =>
      assert MeasureStep(s, m.end - 1) == Close;
      Some(StringMeasure(m.end - begin, m.length))
  }

  /** The measure of a string is where its measuring walk ends and what
      it counts. */
  lemma MeasuredByWalk(s: seq<byte>, begin: nat, e: nat, ul: nat)
    requires MeasureWalk(MeasureSteps(s), begin, 0) == Some(Measured(e, ul))
    ensures MeasureString(s, begin) == Some(StringMeasure(e - begin, ul))
  {
  }

  /** The bytes the materializing loop writes for the body at `begin`, up
      to the closing quote: each literal code point copied, each escape
      decoded. */
  function Decoded(s: seq<byte>, begin: nat): seq<byte> {
    Written(UnescapeSteps(s), begin)
  }

  /** `unescape_string` into a block of `cap` bytes: the materialized
      string, terminating NUL included. */
  function UnescapeString(s: seq<byte>, begin: nat, cap: nat): (r: Result<seq<byte>, StringError>)
    ensures r.Ok? ==> 1 <= |r.value| == cap && r.value[cap - 1] == NUL
    ensures r.Ok? ==> r.value == Decoded(s, begin) + [NUL]
  {
    var t := UnescapeSteps(s);
    assert [] + Written(t, begin) == Written(t, begin);
    UnescapeWalk(t, begin, [], cap)
  }

  /** A `\u` escape at `k` whose four bytes after the 'u' are not all hex
      digits: `strtoul` may still read four bytes there, but
      `unescape_code_point` refuses it. */
  predicate LooseHexEscape(s: seq<byte>, k: nat) {
    At(s, k) == BACKSLASH && At(s, k + 1) == LOWER_U && !FourHexDigits(s, k + 2)
  }

  /** No position the measuring loop visits from `begin` holds a loose
      `\u` escape. */
  ghost predicate NoLooseEscape(s: seq<byte>, begin: nat) {
    forall k: nat :: OnWalk(MeasureSteps(s), begin, k) ==> !LooseHexEscape(s, k)
  }

  /** At every position the two iterations agree; where measuring advances,
      materializing refuses exactly the loose `\u` escapes; and the closing
      quote is never one. */
  lemma StepsAgree(s: seq<byte>, j: nat)
    requires j < |s|
    ensures Agrees(MeasureStep(s, j), UnescapeStep(s, j))
    ensures MeasureStep(s, j).Advance? ==> (UnescapeStep(s, j) == Fail(BadEscape) <==> LooseHexEscape(s, j))
    ensures MeasureStep(s, j) == Close ==> !LooseHexEscape(s, j)
  {
    if s[j] == BACKSLASH && MeasureEscape(s, j + 1).Some? {
      MeasureThenMaterialize(s, j + 1);
    }
  }

  /** The theorem behind the `assert(out == end)` of `unescape_string`: a
      string the lexer measured materializes into exactly the measured
      number of bytes, ending in NUL, or fails because of an escape; it
      fails exactly when the measuring loop passed over a loose `\u`
      escape, one that only `strtoul` accepts. */
  lemma TwoPass(s: seq<byte>, begin: nat)
    requires MeasureString(s, begin).Some?
    ensures var r := UnescapeString(s, begin, MeasureString(s, begin).value.unescapedLength);
      && (r.Ok? || r == Err(BadEscape))
      && (r.Ok? ==> |r.value| == MeasureString(s, begin).value.unescapedLength && r.value[|r.value| - 1] == NUL)
      && (r.Ok? <==> NoLooseEscape(s, begin))
  {
    var mt, pt := MeasureSteps(s), UnescapeSteps(s);
    var cap := MeasureString(s, begin).value.unescapedLength;
    forall k | 0 <= k < |s|
      ensures Agrees(mt[k], pt[k])
    {
      StepsAgree(s, k);
    }
    WalkAgreement(mt, pt, begin, [], cap);
    forall k: nat | OnWalk(mt, begin, k)
      ensures k < |s| && (pt[k] == Fail(BadEscape) <==> LooseHexEscape(s, k))
    {
      VisitedInside(mt, begin, 0, k);
      StepsAgree(s, k);
    }
  }

  /** A literal code point both loops accept is copied unchanged. */
  lemma CopyStep(s: seq<byte>, j: nat)
    requires j < |s| && s[j] != QUOTE && s[j] != BACKSLASH && CheckCodePoint(s, j) != 0
    ensures var n := CheckCodePoint(s, j);
      && j + n <= |s|
      && MeasureStep(s, j) == Advance(n, n)
      && UnescapeStep(s, j) == Write(n, s[j..j + n])
  {
  }

  /** Along a measured body without a backslash, every step copies its
      code point unchanged, so what is written is the body itself. */
  lemma DecodedVerbatim(s: seq<byte>, j: nat, ul: nat)
    requires MeasureWalk(MeasureSteps(s), j, ul).Some?
    requires forall k :: j <= k < MeasureWalk(MeasureSteps(s), j, ul).value.end ==> s[k] != BACKSLASH
    ensures Written(UnescapeSteps(s), j) == s[j..MeasureWalk(MeasureSteps(s), j, ul).value.end - 1]
  {
    var mt, pt := MeasureSteps(s), UnescapeSteps(s);
    var e := MeasureWalk(mt, j, ul).value.end;
    forall k | j <= k < e
      ensures CopiesAt(mt, pt, s, k)
    {
      if s[k] != QUOTE && CheckCodePoint(s, k) != 0 {
        CopyStep(s, k);
      }
    }
    WrittenIsCopy(mt, pt, s, j, ul);
  }

  /** A body without a backslash materializes as itself followed by the
      NUL: `unescape_string` copies it unchanged. */
  lemma VerbatimBody(s: seq<byte>, begin: nat)
    requires MeasureString(s, begin).Some?
    requires forall k :: begin <= k < begin + MeasureString(s, begin).value.consumed ==> s[k] != BACKSLASH
    ensures var m := MeasureString(s, begin).value;
      UnescapeString(s, begin, m.unescapedLength) == Ok(s[begin..begin + m.consumed - 1] + [NUL])
  {
    TwoPass(s, begin);
    VerbatimNotLoose(s, begin);
    DecodedVerbatim(s, begin, 0);
  }

  /** A body without a backslash has no escape at all, so none is loose. */
  lemma VerbatimNotLoose(s: seq<byte>, begin: nat)
    requires MeasureString(s, begin).Some?
    requires forall k :: begin <= k < begin + MeasureString(s, begin).value.consumed ==> s[k] != BACKSLASH
    ensures NoLooseEscape(s, begin)
  {
    var mt := MeasureSteps(s);
    forall k: nat | OnWalk(mt, begin, k)
      ensures !LooseHexEscape(s, k)
    {
      VisitedInside(mt, begin, 0, k);
    }
  }

  /** An ASCII byte other than the quote and the backslash is measured as
      one byte and copied as itself. */
  lemma AsciiCopied(s: seq<byte>, k: nat)
    requires k < |s| && s[k] < 0x80 && s[k] != QUOTE && s[k] != BACKSLASH
    ensures MeasureStep(s, k) == Advance(1, 1) && UnescapeStep(s, k) == Write(1, [s[k]])
  {
    assert CheckCodePoint(s, k) == 1;
    CopyStep(s, k);
  }

  /** Such a byte puts itself before what the steps after it write. */
  lemma AsciiWritten(s: seq<byte>, k: nat)
    requires k < |s| && s[k] < 0x80 && s[k] != QUOTE && s[k] != BACKSLASH
    ensures Written(UnescapeSteps(s), k) == [s[k]] + Written(UnescapeSteps(s), k + 1)
  {
    AsciiCopied(s, k);
    WrittenStep(UnescapeSteps(s), k, 1, [s[k]]);
  }

  lemma Concat5(a: byte, b: byte, c: byte, d: byte, e: byte)
    ensures [a] + ([b] + ([c] + ([d, e] + []))) == [a, b, c, d, e]
  {
  }

  /** The text from `begin` spells the body `caf\u00e9"`: three letters,
      a `\u` escape of U+00E9 and the closing quote. */
  predicate SpellsCafe(s: seq<byte>, begin: nat) {
    && begin + 10 <= |s|
    && s[begin] == 0x63 && s[begin + 1] == 0x61 && s[begin + 2] == 0x66
    && s[begin + 3] == BACKSLASH && s[begin + 4] == LOWER_U
    && s[begin + 5] == 0x30 && s[begin + 6] == 0x30 && s[begin + 7] == 0x65 && s[begin + 8] == 0x39
    && s[begin + 9] == QUOTE
  }

  /** The escape `\u00e9` is measured as two bytes and written as
      0xC3 0xA9, the UTF-8 form of U+00E9. */
  lemma CafeEscapeStep(s: seq<byte>, begin: nat)
    requires SpellsCafe(s, begin)
    ensures MeasureStep(s, begin + 3) == Advance(6, 2) && UnescapeStep(s, begin + 3) == Write(6, [0xC3, 0xA9])
  {
    var h := begin + 5;
    assert HexNumber(s, h, 4) == 0xE9 by {
      assert HexNumber(s, h, 1) == 0;
      assert HexNumber(s, h, 2) == 0;
      assert HexNumber(s, h, 3) == 0xE;
    }
    HexEscapeAgreement(s, begin + 4);
    assert PutCodePoint(0xE9) == [0xC3, 0xA9];
  }

  /** The body `caf\u00e9"` is measured as ten bytes, closing quote
      included, and an unescaped length of six, NUL included. */
  lemma CafeMeasured(s: seq<byte>, begin: nat)
    requires SpellsCafe(s, begin)
    ensures MeasureString(s, begin) == Some(StringMeasure(10, 6))
  {
    var mt := MeasureSteps(s);
    AsciiCopied(s, begin);
    AsciiCopied(s, begin + 1);
    AsciiCopied(s, begin + 2);
    CafeEscapeStep(s, begin);
    assert mt[begin + 9] == Close;
    assert MeasureWalk(mt, begin + 9, 5) == Some(Measured(begin + 10, 6));
    assert MeasureWalk(mt, begin + 3, 3) == Some(Measured(begin + 10, 6));
    assert MeasureWalk(mt, begin + 2, 2) == Some(Measured(begin + 10, 6));
    assert MeasureWalk(mt, begin + 1, 1) == Some(Measured(begin + 10, 6));
    assert MeasureWalk(mt, begin, 0) == Some(Measured(begin + 10, 6));
  }

  /** The only escape of `caf\u00e9"` has four hex digits. */
  lemma CafeNoLooseEscape(s: seq<byte>, begin: nat)
    requires SpellsCafe(s, begin)
    ensures NoLooseEscape(s, begin)
  {
    var mt := MeasureSteps(s);
    CafeMeasured(s, begin);
    assert MeasureWalk(mt, begin, 0).Some?;
    forall k: nat | OnWalk(mt, begin, k)
      ensures !LooseHexEscape(s, k)
    {
      VisitedInside(mt, begin, 0, k);
      CafeBackslash(s, begin, k);
    }
  }

  /** The body `caf\u00e9"` has its only backslash at offset 3, and four
      hex digits follow the `u` after it. */
  lemma CafeBackslash(s: seq<byte>, begin: nat, k: nat)
    requires SpellsCafe(s, begin) && begin <= k < begin + 10
    ensures At(s, k) == BACKSLASH <==> k == begin + 3
    ensures !LooseHexEscape(s, k)
  {
    if k == begin + 3 {
      assert FourHexDigits(s, begin + 5);
    }
  }

  /** What the steps of `caf\u00e9"` write: the three letters, then the
      two bytes of the escape. */
  lemma CafeDecoded(s: seq<byte>, begin: nat)
    requires SpellsCafe(s, begin)
    ensures Decoded(s, begin) == [0x63, 0x61, 0x66, 0xC3, 0xA9]
  {
    var pt := UnescapeSteps(s);
    CafeEscapeStep(s, begin);
    assert pt[begin + 9] == End && Written(pt, begin + 9) == [];
    WrittenStep(pt, begin + 3, 6, [0xC3, 0xA9]);
    AsciiWritten(s, begin + 2);
    AsciiWritten(s, begin + 1);
    AsciiWritten(s, begin);
    Concat5(s[begin], s[begin + 1], s[begin + 2], 0xC3, 0xA9);
  }

  /** The body `caf\u00e9"` materializes into a six-byte block with the
      escape as the two-byte UTF-8 form of U+00E9. */
  lemma CafeMaterialized(s: seq<byte>, begin: nat)
    requires SpellsCafe(s, begin)
    ensures UnescapeString(s, begin, 6) == Ok([0x63, 0x61, 0x66, 0xC3, 0xA9, NUL])
  {
    CafeMeasured(s, begin);
    TwoPass(s, begin);
    CafeNoLooseEscape(s, begin);
    CafeDecoded(s, begin);
    assert [0x63, 0x61, 0x66, 0xC3, 0xA9] + [NUL] == [0x63, 0x61, 0x66, 0xC3, 0xA9, NUL];
  }

  /** A body of one ASCII byte, neither a quote nor a backslash, and the
      closing quote measures as two bytes, NUL counted, and materializes
      as that byte and the NUL. */
  lemma OneByteBody(s: seq<byte>, b: nat)
    requires b + 1 < |s| && s[b] < 0x80 && s[b] != QUOTE && s[b] != BACKSLASH && s[b + 1] == QUOTE
    ensures MeasureString(s, b) == Some(StringMeasure(2, 2))
    ensures UnescapeString(s, b, 2) == Ok([s[b], NUL])
  {
    var mt := MeasureSteps(s);
    assert CheckCodePoint(s, b) == 1;
    assert mt[b] == Advance(1, 1) && mt[b + 1] == Close;
    assert MeasureWalk(mt, b + 1, 1) == Some(Measured(b + 2, 2));
    assert MeasureWalk(mt, b, 0) == Some(Measured(b + 2, 2));
    assert MeasureString(s, b) == Some(StringMeasure(2, 2));
    VerbatimBody(s, b);
    assert s[b..b + 1] + [NUL] == [s[b], NUL];
  }

  /** The bytes a run of `n` one-letter escapes from `j` stands for, in
      order, or `None` when the text from `j` does not start with such a
      run. */
  function ShortEscapeRun(s: seq<byte>, j: nat, n: nat): (r: Option<seq<byte>>)
    ensures r.Some? ==> |r.value| == n
    ensures r.Some? && 0 < n ==> j + 2 * n <= |s|
    decreases n
  {
    if n == 0 then Some([])
    else if At(s, j) != BACKSLASH || ShortEscape(At(s, j + 1)).None? then None
    else match ShortEscapeRun(s, j + 2, n - 1)
      case None => None
      case Some(w) => Some([ShortEscape(At(s, j + 1)).value] + w)
  }

  /** A run of `n` escapes is its first escape's byte, then the run of
      `n - 1` after it. */
  lemma ShortEscapeRunStep(s: seq<byte>, j: nat, n: nat, b: byte, w: seq<byte>)
    requires 0 < n && At(s, j) == BACKSLASH && ShortEscape(At(s, j + 1)) == Some(b)
    requires ShortEscapeRun(s, j + 2, n - 1) == Some(w)
    ensures ShortEscapeRun(s, j, n) == Some([b] + w)
  {
  }

  /** A non-empty run starts with a backslash and an escape letter, and
      the rest of it is a run one shorter. */
  lemma ShortEscapeRunHead(s: seq<byte>, j: nat, n: nat)
    requires 0 < n && ShortEscapeRun(s, j, n).Some?
    ensures j + 1 < |s| && s[j] == BACKSLASH && ShortEscape(s[j + 1]).Some?
    ensures ShortEscapeRun(s, j + 2, n - 1).Some?
    ensures ShortEscapeRun(s, j, n).value == [ShortEscape(s[j + 1]).value] + ShortEscapeRun(s, j + 2, n - 1).value
  {
  }

  /** A one-letter escape at `k` is measured as two bytes read and one
      written, and materialized as the byte its letter stands for. */
  lemma ShortEscapeStep(s: seq<byte>, k: nat)
    requires k + 1 < |s| && s[k] == BACKSLASH && ShortEscape(s[k + 1]).Some?
    ensures MeasureStep(s, k) == Advance(2, 1)
    ensures UnescapeStep(s, k) == Write(2, [ShortEscape(s[k + 1]).value])
  {
    ShortEscapeAgreement(s, k + 1);
  }

  /** Measuring a run of `n` one-letter escapes and the closing quote from
      `j` counts one byte per escape and one for the NUL. */
  lemma {:induction false} ShortEscapeRunMeasured(s: seq<byte>, j: nat, n: nat, ul: nat)
    requires ShortEscapeRun(s, j, n).Some? && At(s, j + 2 * n) == QUOTE
    ensures MeasureWalk(MeasureSteps(s), j, ul) == Some(Measured(j + 2 * n + 1, ul + n + 1))
    decreases n
  {
    var mt := MeasureSteps(s);
    if n == 0 {
      assert s[j] == QUOTE && mt[j] == Close;
      assert MeasureWalk(mt, j, ul) == Some(Measured(j + 1, ul + 1));
    } else {
      ShortEscapeRunHead(s, j, n);
      ShortEscapeStep(s, j);
      MeasureWalkStep(mt, j, ul, 2, 1);
      assert j + 2 + 2 * (n - 1) == j + 2 * n;
      ShortEscapeRunMeasured(s, j + 2, n - 1, ul + 1);
    }
  }

  /** The steps of such a run write the bytes the escapes stand for. */
  lemma {:induction false} ShortEscapeRunWritten(s: seq<byte>, j: nat, n: nat)
    requires ShortEscapeRun(s, j, n).Some? && At(s, j + 2 * n) == QUOTE
    ensures Written(UnescapeSteps(s), j) == ShortEscapeRun(s, j, n).value
    decreases n
  {
    var pt := UnescapeSteps(s);
    if n == 0 {
      assert pt[j] == End;
    } else {
      ShortEscapeRunHead(s, j, n);
      ShortEscapeStep(s, j);
      WrittenStep(pt, j, 2, [ShortEscape(s[j + 1]).value]);
      assert j + 2 + 2 * (n - 1) == j + 2 * n;
      ShortEscapeRunWritten(s, j + 2, n - 1);
    }
  }

  /** No position of such a run holds a loose `\u` escape: after every
      backslash comes a letter other than 'u', or the next backslash, or
      the closing quote. */
  lemma {:induction false} ShortEscapeRunNotLoose(s: seq<byte>, j: nat, n: nat, k: nat)
    requires ShortEscapeRun(s, j, n).Some? && At(s, j + 2 * n) == QUOTE
    requires j <= k <= j + 2 * n
    ensures !LooseHexEscape(s, k)
    decreases n
  {
    if n > 0 && j + 2 <= k {
      assert j + 2 + 2 * (n - 1) == j + 2 * n;
      ShortEscapeRunNotLoose(s, j + 2, n - 1, k);
    } else if n > 1 && k == j + 1 {
      assert ShortEscapeRun(s, j + 2, n - 1).Some?;
    }
  }

  /** A body of `n` one-letter escapes and the closing quote measures as
      `2n + 1` bytes and `n + 1` unescaped bytes, and materializes as the
      bytes the escapes stand for, then the NUL. */
  lemma ShortEscapesMaterialized(s: seq<byte>, begin: nat, n: nat)
    requires ShortEscapeRun(s, begin, n).Some? && At(s, begin + 2 * n) == QUOTE
    ensures MeasureString(s, begin) == Some(StringMeasure(2 * n + 1, n + 1))
    ensures UnescapeString(s, begin, n + 1) == Ok(ShortEscapeRun(s, begin, n).value + [NUL])
  {
    var mt := MeasureSteps(s);
    ShortEscapeRunMeasured(s, begin, n, 0);
    MeasuredByWalk(s, begin, begin + 2 * n + 1, n + 1);
    TwoPass(s, begin);
    forall k: nat | OnWalk(mt, begin, k)
      ensures !LooseHexEscape(s, k)
    {
      VisitedInside(mt, begin, 0, k);
      ShortEscapeRunNotLoose(s, begin, n, k);
    }
    ShortEscapeRunWritten(s, begin, n);
  }

  /** The text from `begin` spells the body `\n\t\\\"\/"`: five
      one-letter escapes and the closing quote. */
  predicate SpellsControls(s: seq<byte>, begin: nat) {
    && begin + 11 <= |s|
    && s[begin] == BACKSLASH && s[begin + 1] == 0x6E
    && s[begin + 2] == BACKSLASH && s[begin + 3] == 0x74
    && s[begin + 4] == BACKSLASH && s[begin + 5] == BACKSLASH
    && s[begin + 6] == BACKSLASH && s[begin + 7] == QUOTE
    && s[begin + 8] == BACKSLASH && s[begin + 9] == SLASH
    && s[begin + 10] == QUOTE
  }

  /** The body `\n\t\\\"\/"` materializes as a line feed, a tab, a
      backslash, a quote, a slash and the NUL. */
  lemma ControlsMaterialized(s: seq<byte>, begin: nat)
    requires SpellsControls(s, begin)
    ensures MeasureString(s, begin) == Some(StringMeasure(11, 6))
    ensures UnescapeString(s, begin, 6) == Ok([0x0A, 0x09, 0x5C, 0x22, 0x2F, NUL])
  {
    ShortEscapeRunStep(s, begin + 8, 1, 0x2F, []);
    assert [0x2F] + [] == [0x2F];
    ShortEscapeRunStep(s, begin + 6, 2, 0x22, [0x2F]);
    assert [0x22] + [0x2F] == [0x22, 0x2F];
    ShortEscapeRunStep(s, begin + 4, 3, 0x5C, [0x22, 0x2F]);
    assert [0x5C] + [0x22, 0x2F] == [0x5C, 0x22, 0x2F];
    ShortEscapeRunStep(s, begin + 2, 4, 0x09, [0x5C, 0x22, 0x2F]);
    assert [0x09] + [0x5C, 0x22, 0x2F] == [0x09, 0x5C, 0x22, 0x2F];
    ShortEscapeRunStep(s, begin, 5, 0x0A, [0x09, 0x5C, 0x22, 0x2F]);
    assert [0x0A] + [0x09, 0x5C, 0x22, 0x2F] == [0x0A, 0x09, 0x5C, 0x22, 0x2F];
    ShortEscapesMaterialized(s, begin, 5);
    assert [0x0A, 0x09, 0x5C, 0x22, 0x2F] + [NUL] == [0x0A, 0x09, 0x5C, 0x22, 0x2F, NUL];
  }

  /** The text from `begin` spells the body `\b\f\r"`. */
  predicate SpellsBackspaceFeedReturn(s: seq<byte>, begin: nat) {
    && begin + 7 <= |s|
    && s[begin] == BACKSLASH && s[begin + 1] == 0x62
    && s[begin + 2] == BACKSLASH && s[begin + 3] == 0x66
    && s[begin + 4] == BACKSLASH && s[begin + 5] == 0x72
    && s[begin + 6] == QUOTE
  }

  /** The body `\b\f\r"` materializes as a backspace, a form feed, a
      carriage return and the NUL. */
  lemma BackspaceFeedReturnMaterialized(s: seq<byte>, begin: nat)
    requires SpellsBackspaceFeedReturn(s, begin)
    ensures MeasureString(s, begin) == Some(StringMeasure(7, 4))
    ensures UnescapeString(s, begin, 4) == Ok([0x08, 0x0C, 0x0D, NUL])
  {
    ShortEscapeRunStep(s, begin + 4, 1, 0x0D, []);
    assert [0x0D] + [] == [0x0D];
    ShortEscapeRunStep(s, begin + 2, 2, 0x0C, [0x0D]);
    assert [0x0C] + [0x0D] == [0x0C, 0x0D];
    ShortEscapeRunStep(s, begin, 3, 0x08, [0x0C, 0x0D]);
    assert [0x08] + [0x0C, 0x0D] == [0x08, 0x0C, 0x0D];
    ShortEscapesMaterialized(s, begin, 3);
    assert [0x08, 0x0C, 0x0D] + [NUL] == [0x08, 0x0C, 0x0D, NUL];
  }
}
