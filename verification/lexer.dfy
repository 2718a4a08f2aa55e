/** `next_lexeme` and its helper `is_prefix`: skip `isspace` bytes, then
    read one lexeme. Numbers are read by the C library's `strtod`, which the
    model takes as a parameter. */
module Lexer {
  import opened Bytes
  import opened Results
  import opened JsonString

  /** An IEEE-754 double, by its bit pattern. */
  datatype Double = Double(bits: bv64)

  /** What `strtod` reports when called at a position: how many bytes it
      read (0 when it found no number) and the value. */
  datatype NumberScan = NumberScan(consumed: nat, value: Double)

  /** `strtod` applied to the text at a position. */
  type Strtod = (seq<byte>, nat) -> NumberScan

  datatype LexemeKind =
    | LBrace | RBrace | LSquare | RSquare | Comma | Colon
    | TrueWord | FalseWord | NullWord
    | Str(unescapedLength: nat)
    | Num(number: Double)

  /** A lexeme and where it begins: its first byte, or for a string the
      byte after the opening quote. */
  datatype Lexeme = Lexeme(kind: LexemeKind, begin: nat)

  /** A lexeme and the bytes read for it, leading whitespace included. */
  datatype Lexed = Lexed(lexeme: Lexeme, consumed: nat)

  /** Why `next_lexeme` returned 0. */
  datatype LexError = EndOfInput | BadWord | BadString | BadNumber

  const TRUE_WORD: seq<byte> := [0x74, 0x72, 0x75, 0x65]          // true
  const FALSE_WORD: seq<byte> := [0x66, 0x61, 0x6C, 0x73, 0x65]   // false
  const NULL_WORD: seq<byte> := [0x6E, 0x75, 0x6C, 0x6C]          // null

  /** The loop `while (*prefix && *str && *prefix++ == *str++);` followed by
      `return *prefix`, with the literal `w` read from index `p` and the
      text from `j`. Both pointers advance even when the comparison fails,
      so a mismatch returns the literal's next byte, which is the NUL after
      a mismatch on its last byte. */
  function PrefixRest(w: seq<byte>, p: nat, s: seq<byte>, j: nat): byte
    decreases |w| - p
  {
    if p < |w| && At(s, j) != NUL then
      if w[p] == At(s, j) then PrefixRest(w, p + 1, s, j + 1) else At(w, p + 1)
    else At(w, p)
  }


  /** A literal is a C string: it has no NUL byte. */
  predicate Literal(w: seq<byte>) {
    1 <= |w| && forall k :: 0 <= k < |w| ==> w[k] != NUL
  }

  /** What `is_prefix` really accepts: every byte of the literal but the
      last matches the text, and the text has some byte other than the
      terminator where the last one should be. */
  predicate WordAccepted(w: seq<byte>, s: seq<byte>, j: nat)
    requires 1 <= |w|
  {
    (forall k :: j <= k < j + |w| - 1 ==> At(s, k) == w[k - j]) && At(s, j + |w| - 1) != NUL
  }

  lemma {:induction false} PrefixRestAccepts(w: seq<byte>, p: nat, s: seq<byte>, j: nat)
    requires Literal(w) && p < |w|
    ensures PrefixRest(w, p, s, j) == NUL <==>
      (forall k :: p <= k < |w| - 1 ==> At(s, j + k - p) == w[k]) && At(s, j + |w| - 1 - p) != NUL
    decreases |w| - p
  {
    if At(s, j) != NUL && w[p] == At(s, j) && p + 1 < |w| {
      PrefixRestAccepts(w, p + 1, s, j + 1);
    } else if At(s, j) != NUL && w[p] != At(s, j) && p + 1 < |w| {
      assert At(w, p + 1) != NUL;
    }
  }

  /** `is_prefix(w, s + j)`, which `next_lexeme` calls with a literal
      only and which rejects the word when it is non-zero. It returns 0
      exactly when the word is accepted in the sense of `WordAccepted`: a
      mismatch on the literal's last byte goes unnoticed. */
  function IsPrefix(w: seq<byte>, s: seq<byte>, j: nat): (r: byte)
    requires Literal(w)
    ensures r == NUL <==> WordAccepted(w, s, j)
  {
    PrefixRestAccepts(w, 0, s, j);
    PrefixRest(w, 0, s, j)
  }

  /** The single-byte lexemes and the bytes that spell them. */
  function PunctuationOf(c: byte): (k: Option<LexemeKind>)
    ensures k.Some? ==> k.value in {LBrace, RBrace, LSquare, RSquare, Comma, Colon}
  {
    if c == L_BRACE then Some(LBrace)
    else if c == R_BRACE then Some(RBrace)
    else if c == L_SQUARE then Some(LSquare)
    else if c == R_SQUARE then Some(RSquare)
    else if c == COMMA then Some(Comma)
    else if c == COLON then Some(Colon)
    else None
  }

  /** The literal that spells a word lexeme. */
  function Spelling(k: LexemeKind): (w: Option<seq<byte>>)
    ensures w.Some? ==> Literal(w.value)
  {
    match k
    case TrueWord => Some(TRUE_WORD)
    case FalseWord => Some(FALSE_WORD)
    case NullWord => Some(NULL_WORD)
    case _ => None
  }

  /** A byte that sends `next_lexeme` to its `default` case, `strtod`:
      neither the terminator, nor punctuation, nor the first letter of a
      word, nor a quote. */
  predicate StartsNumber(c: byte) {
    c != NUL && PunctuationOf(c).None? && c != TRUE_WORD[0] && c != FALSE_WORD[0] && c != NULL_WORD[0] && c != QUOTE
  }

  /** The outcome at a quote at `j`: a string lexeme exactly when the body
      after the quote measures, otherwise a bad string. */
  predicate IsStringOutcome(s: seq<byte>, j: nat, r: Result<Lexed, LexError>) {
    && (r.Ok? <==> MeasureString(s, j + 1).Some?)
    && (r.Ok? ==> r.value.lexeme.kind.Str?)
    && (r.Err? ==> r.error == BadString)
  }

  /** The outcome at the first letter of the literal `w` at `j`: the word
      `k` exactly when `is_prefix` accepts it, otherwise a bad word. */
  predicate IsWordOutcome(s: seq<byte>, j: nat, w: seq<byte>, k: LexemeKind, r: Result<Lexed, LexError>)
    requires 1 <= |w|
  {
    && (r.Ok? <==> WordAccepted(w, s, j))
    && (r.Ok? ==> r.value.lexeme.kind == k)
    && (r.Err? ==> r.error == BadWord)
  }

  /** The outcome at any other byte at `j`: a number exactly when `strtod`
      reads something there, otherwise a bad number. */
  predicate IsNumberOutcome(s: seq<byte>, j: nat, strtod: Strtod, r: Result<Lexed, LexError>) {
    && (r.Ok? <==> 0 < strtod(s, j).consumed && j + strtod(s, j).consumed <= |s|)
    && (r.Ok? ==> r.value.lexeme.kind.Num?)
    && (r.Err? ==> r.error == BadNumber)
  }

  /** `next_lexeme` at `i`. A word after its first byte is checked with
      `is_prefix` only; nothing checks what follows it. A number is
      whatever `strtod` reads; an answer running past the text is taken as
      a failure, which `strtod` never produces. */
  function NextLexeme(s: seq<byte>, i: nat, strtod: Strtod): (r: Result<Lexed, LexError>)
    ensures r == Err(EndOfInput) <==> At(s, i + SpaceRun(s, i)) == NUL
    ensures r.Ok? ==> 1 <= r.value.consumed && i + r.value.consumed <= |s|
    ensures r.Ok? ==> i <= r.value.lexeme.begin < i + r.value.consumed
    ensures r.Ok? ==> forall k :: i <= k < i + SpaceRun(s, i) ==> IsSpace(At(s, k))
    ensures r.Ok? ==> r.value.lexeme.begin == i + SpaceRun(s, i) + (if r.value.lexeme.kind.Str? then 1 else 0)
  {
    var j := i + SpaceRun(s, i);
    var c := At(s, j);
    if c == NUL then Err(EndOfInput)
    else if PunctuationOf(c).Some? then Ok(Lexed(Lexeme(PunctuationOf(c).value, j), j + 1 - i))
    else if c == TRUE_WORD[0] then Word(s, i, j, TRUE_WORD, TrueWord)
    else if c == FALSE_WORD[0] then Word(s, i, j, FALSE_WORD, FalseWord)
    else if c == NULL_WORD[0] then Word(s, i, j, NULL_WORD, NullWord)
    else if c == QUOTE then StringLexeme(s, i, j)
    else NumberLexeme(s, i, j, strtod)
  }

  /** What `next_lexeme` does with the first byte after the whitespace: a
      quote gives a string lexeme exactly when the body measures, the first
      letter of a literal gives that word exactly when `is_prefix` accepts
      it, and any other byte that is not punctuation or the terminator
      gives a number exactly when `strtod` reads one; each failure names
      its case. */
  lemma LexemeByFirstByte(s: seq<byte>, i: nat, strtod: Strtod)
    ensures var j, r := i + SpaceRun(s, i), NextLexeme(s, i, strtod);
      && (At(s, j) == QUOTE ==> IsStringOutcome(s, j, r))
      && (At(s, j) == TRUE_WORD[0] ==> IsWordOutcome(s, j, TRUE_WORD, TrueWord, r))
      && (At(s, j) == FALSE_WORD[0] ==> IsWordOutcome(s, j, FALSE_WORD, FalseWord, r))
      && (At(s, j) == NULL_WORD[0] ==> IsWordOutcome(s, j, NULL_WORD, NullWord, r))
      && (StartsNumber(At(s, j)) ==> IsNumberOutcome(s, j, strtod, r))
  {
  }

  /** The `'"'` case: the body after the quote is measured; the lexeme
      begins there. */
  function StringLexeme(s: seq<byte>, i: nat, j: nat): (r: Result<Lexed, LexError>)
    requires i <= j < |s|
    ensures r.Ok? ==> r.value.lexeme.begin == j + 1 && r.value.lexeme.kind.Str?
    ensures r.Ok? ==> j + 1 < i + r.value.consumed <= |s|
    ensures r.Ok? ==>
      MeasureString(s, j + 1) == Some(StringMeasure(i + r.value.consumed - (j + 1), r.value.lexeme.kind.unescapedLength))
    ensures r.Ok? <==> MeasureString(s, j + 1).Some?
    ensures r.Err? ==> r.error == BadString
  {
    match MeasureString(s, j + 1)
    case None => Err(BadString)
    case Some(m) => Ok(Lexed(Lexeme(Str(m.unescapedLength), j + 1), j + 1 + m.consumed - i))
  }

  /** The `default` case: whatever `strtod` reads at `j`. */
  function NumberLexeme(s: seq<byte>, i: nat, j: nat, strtod: Strtod): (r: Result<Lexed, LexError>)
    requires i <= j
    ensures r.Ok? ==> r.value.lexeme.begin == j && r.value.lexeme.kind.Num?
    ensures r.Ok? ==> j < i + r.value.consumed <= |s|
    ensures r.Ok? ==> strtod(s, j) == NumberScan(i + r.value.consumed - j, r.value.lexeme.kind.number)
    ensures r.Ok? <==> 0 < strtod(s, j).consumed && j + strtod(s, j).consumed <= |s|
    ensures r.Err? ==> r.error == BadNumber
  {
    var n := strtod(s, j);
    if n.consumed == 0 || j + n.consumed > |s| then Err(BadNumber)
    else Ok(Lexed(Lexeme(Num(n.value), j), j + n.consumed - i))
  }

  /** `CONCRETE_WORD_LEXEME`: the word `w` at `j`, whose first byte is
      already known to match, after whitespace from `i`. */
  function Word(s: seq<byte>, i: nat, j: nat, w: seq<byte>, k: LexemeKind): (r: Result<Lexed, LexError>)
    requires i <= j && j < |s| && Literal(w) && At(s, j) == w[0]
    ensures r.Ok? <==> WordAccepted(w, s, j)
    ensures r.Ok? ==> r.value == Lexed(Lexeme(k, j), j + |w| - i) && j + |w| <= |s|
    ensures r.Err? ==> r.error == BadWord
  {
    if IsPrefix(w, s, j) != NUL then Err(BadWord)
    else Ok(Lexed(Lexeme(k, j), j + |w| - i))
  }

  /** A punctuation byte after the whitespace is always lexed, as itself,
      in one byte. */
  lemma PunctuationLexed(s: seq<byte>, i: nat, strtod: Strtod)
    requires PunctuationOf(At(s, i + SpaceRun(s, i))).Some?
    ensures NextLexeme(s, i, strtod) ==
      Ok(Lexed(Lexeme(PunctuationOf(At(s, i + SpaceRun(s, i))).value, i + SpaceRun(s, i)), SpaceRun(s, i) + 1))
  {
  }

  /** A word lexeme is a literal `is_prefix` accepted, and is read in as
      many bytes as the literal has. */
  lemma WordLexed(s: seq<byte>, i: nat, strtod: Strtod)
    requires NextLexeme(s, i, strtod).Ok? && Spelling(NextLexeme(s, i, strtod).value.lexeme.kind).Some?
    ensures var r, w := NextLexeme(s, i, strtod).value, Spelling(NextLexeme(s, i, strtod).value.lexeme.kind).value;
      WordAccepted(w, s, r.lexeme.begin) && r.consumed == SpaceRun(s, i) + |w|
  {
    var c := At(s, i + SpaceRun(s, i));
    if c == TRUE_WORD[0] {
      assert Spelling(TrueWord) == Some(TRUE_WORD);
    } else if c == FALSE_WORD[0] {
      assert Spelling(FalseWord) == Some(FALSE_WORD);
    } else {
      assert Spelling(NullWord) == Some(NULL_WORD);
    }
  }

  /** A string lexeme is a body `measure_string_lexeme` accepted, read
      together with its opening quote. */
  lemma StringLexed(s: seq<byte>, i: nat, strtod: Strtod)
    requires NextLexeme(s, i, strtod).Ok? && NextLexeme(s, i, strtod).value.lexeme.kind.Str?
    ensures var r := NextLexeme(s, i, strtod).value;
      MeasureString(s, r.lexeme.begin) == Some(StringMeasure(r.consumed - SpaceRun(s, i) - 1, r.lexeme.kind.unescapedLength))
  {
  }

  /** A number lexeme is what `strtod` read. */
  lemma NumberLexed(s: seq<byte>, i: nat, strtod: Strtod)
    requires NextLexeme(s, i, strtod).Ok? && NextLexeme(s, i, strtod).value.lexeme.kind.Num?
    ensures var r := NextLexeme(s, i, strtod).value;
      strtod(s, r.lexeme.begin) == NumberScan(r.consumed - SpaceRun(s, i), r.lexeme.kind.number)
  {
  }

  /** `trux` lexes as `true`: the mismatch on the last letter is missed. */
  lemma TruxIsTrue(strtod: Strtod)
    ensures NextLexeme([0x74, 0x72, 0x75, 0x78], 0, strtod) == Ok(Lexed(Lexeme(TrueWord, 0), 4))
  {
    var s: seq<byte> := [0x74, 0x72, 0x75, 0x78];
    assert SpaceRun(s, 0) == 0;
    assert WordAccepted(TRUE_WORD, s, 0);
  }

  /** `truex` lexes as `true` followed by a lexeme starting at `x`: nothing
      checks that a word ends where its letters do. */
  lemma TruexIsTrueThenMore(strtod: Strtod)
    ensures NextLexeme([0x74, 0x72, 0x75, 0x65, 0x78], 0, strtod) == Ok(Lexed(Lexeme(TrueWord, 0), 4))
  {
    var s: seq<byte> := [0x74, 0x72, 0x75, 0x65, 0x78];
    assert SpaceRun(s, 0) == 0;
    assert WordAccepted(TRUE_WORD, s, 0);
  }

  /** `tru` at the end of the text is refused: the terminator stands where
      the last letter should be. */
  lemma TruIsRefused(strtod: Strtod)
    ensures NextLexeme([0x74, 0x72, 0x75], 0, strtod) == Err(BadWord)
  {
    var s: seq<byte> := [0x74, 0x72, 0x75];
    assert SpaceRun(s, 0) == 0;
    assert !WordAccepted(TRUE_WORD, s, 0);
  }

  /** A mismatch before the last letter is caught: `tuxe` is refused. */
  lemma TuxeIsRefused(strtod: Strtod)
    ensures NextLexeme([0x74, 0x75, 0x78, 0x65], 0, strtod) == Err(BadWord)
  {
    var s: seq<byte> := [0x74, 0x75, 0x78, 0x65];
    assert SpaceRun(s, 0) == 0;
    assert !WordAccepted(TRUE_WORD, s, 0) by { assert At(s, 1) != TRUE_WORD[1]; }
  }

  /** Vertical tab and form feed are skipped as whitespace, which section 2
      of RFC 8259 does not allow. */
  lemma VerticalTabAndFormFeedSkipped(strtod: Strtod)
    ensures NextLexeme([0x0B, 0x0C, L_BRACE], 0, strtod) == Ok(Lexed(Lexeme(LBrace, 2), 3))
  {
    var s: seq<byte> := [0x0B, 0x0C, L_BRACE];
    assert SpaceRun(s, 2) == 0;
    assert SpaceRun(s, 0) == 2;
  }
}
