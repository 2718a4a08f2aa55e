/** The recursive-descent decoder: `json_parse_value`, `json_parse_object`
    and `json_parse_array`. Each works on the text from a position and, on
    success, reports the value and the number of bytes it read; the C
    convention "0 bytes read means failure" becomes a `Result`. */
module Parser {
  import opened Bytes
  import opened Results
  import opened StringWalk
  import opened JsonString
  import opened Lexer
  import opened ObjectStore
  import opened ArrayStore

  /** `struct jsonValue`: a string is its materialized bytes without the
      terminating NUL. */
  datatype Value =
    | Object(members: Store<Value>)
    | Array(elements: Vec<Value>)
    | String(text: seq<byte>)
    | Number(number: Double)
    | Boolean(truth: bool)
    | Null

  /** A parsed value and the bytes read for it. */
  datatype Parsed = Parsed(value: Value, consumed: nat)

  /** Why a parse returned 0: the lexer failed, a lexeme came where the
      grammar does not allow it, or a string failed to materialize. */
  datatype ParseError = LexFailed(lex: LexError) | Unexpected(kind: LexemeKind) | StringFailed(string: StringError)

  /** The capacity `json_parse_object` creates a non-empty object with. */
  const OBJECT_CAPACITY: nat := 10

  /** The capacity `json_parse_array` creates a non-empty array with. */
  const ARRAY_CAPACITY: nat := 4

  /** What the decoder guarantees of every value it builds: objects are
      well-formed tables that keep an empty slot (unless created empty),
      with C-string keys; arrays fit their blocks; and so on inside. */
  predicate Valid(v: Value)
    decreases v
  {
    match v
    case Object(st) =>
      && WellFormed(st)
      && (|st.slots| == 0 || st.size < |st.slots|)
      && forall p :: 0 <= p < |st.slots| && st.slots[p].Entry? ==>
        NulFree(st.slots[p].key) && Valid(st.slots[p].value)
    case Array(a) => Fits(a) && forall k :: 0 <= k < |a.items| ==> Valid(a.items[k])
    case _ => true
  }

  /** Every pair of the table has a C-string key and a valid value. */
  predicate ValidEntries(st: Store<Value>) {
    forall p :: 0 <= p < |st.slots| && st.slots[p].Entry? ==> NulFree(st.slots[p].key) && Valid(st.slots[p].value)
  }

  /** `} ] , :` cannot start a value: `json_parse_value` takes the
      `default` branch of its switch. */
  predicate CannotStartValue(k: LexemeKind) {
    k.RBrace? || k.RSquare? || k.Comma? || k.Colon?
  }

  /** The value a successful `json_parse_value` returns for its first
      lexeme: the constants, the lexed number, a string, or a container of
      the bracket's kind. */
  predicate Introduces(k: LexemeKind, v: Value) {
    match k
    case LBrace => v.Object?
    case LSquare => v.Array?
    case TrueWord => v == Boolean(true)
    case FalseWord => v == Boolean(false)
    case NullWord => v == Null
    case Str(_) => v.String?
    case Num(d) => v == Number(d)
    case _ => false
  }

  /** The kind of the lexeme at `k`, if there is one. */
  function KindAt(s: seq<byte>, k: nat, strtod: Strtod): Option<LexemeKind> {
    match NextLexeme(s, k, strtod)
    case Ok(lx) => Some(lx.lexeme.kind)
    case Err(_) => None
  }

  /** Where the lexeme at `k` ends, or `k` when there is none. */
  function After(s: seq<byte>, k: nat, strtod: Strtod): nat {
    match NextLexeme(s, k, strtod)
    case Ok(lx) => k + lx.consumed
    case Err(_) => k
  }

  /** `next_lexeme` with its failure turned into a parse error. */
  function Lex(s: seq<byte>, i: nat, strtod: Strtod): (r: Result<Lexed, ParseError>)
    ensures NextLexeme(s, i, strtod).Ok? <==> r.Ok?
    ensures r.Ok? ==> r.value == NextLexeme(s, i, strtod).value
  {
    match NextLexeme(s, i, strtod)
    case Err(e) => Err(LexFailed(e))
    case Ok(lx) => Ok(lx)
  }

  /** `unescape_string` on a string lexeme: the allocated block, NUL
      included. */
  function Materialize(s: seq<byte>, begin: nat, length: nat): (r: Result<seq<byte>, ParseError>)
    ensures r.Ok? ==> 1 <= |r.value| && r.value[|r.value| - 1] == NUL
    ensures r.Ok? <==> UnescapeString(s, begin, length).Ok?
    ensures r.Ok? ==> r.value == UnescapeString(s, begin, length).value == Decoded(s, begin) + [NUL]
  {
    match UnescapeString(s, begin, length)
    case Err(e) => Err(StringFailed(e))
    case Ok(block) => Ok(block)
  }

  /** `json_parse_value` at `i`. A string value is the materialized body
      without its NUL, one byte shorter than the measured length; it is
      refused exactly when the body has a `\u` escape only `strtoul`
      accepts. */
  function ParseValue(s: seq<byte>, i: nat, strtod: Strtod): (r: Result<Parsed, ParseError>)
    requires i <= |s|
    ensures r.Ok? ==> 1 <= r.value.consumed && i + r.value.consumed <= |s|
    ensures r.Ok? ==> Valid(r.value.value)
    ensures NextLexeme(s, i, strtod).Err? ==> r.Err?
    ensures NextLexeme(s, i, strtod).Ok? && CannotStartValue(NextLexeme(s, i, strtod).value.lexeme.kind) ==> r.Err?
    ensures r.Ok? ==> Introduces(NextLexeme(s, i, strtod).value.lexeme.kind, r.value.value)
    ensures NextLexeme(s, i, strtod).Ok? && NextLexeme(s, i, strtod).value.lexeme.kind.Str? ==>
      && (r.Ok? <==> NoLooseEscape(s, NextLexeme(s, i, strtod).value.lexeme.begin))
      && (r.Ok? ==> |r.value.value.text| == NextLexeme(s, i, strtod).value.lexeme.kind.unescapedLength - 1)
      && (r.Ok? ==> r.value.value.text == Decoded(s, NextLexeme(s, i, strtod).value.lexeme.begin))
    ensures r.Ok? && KindAt(s, i, strtod) == Some(LBrace) && KindAt(s, After(s, i, strtod), strtod) != Some(RBrace) ==>
      HoldsFirstMember(s, After(s, i, strtod), strtod, r.value.value.members)
    decreases |s| - i, 1
  {
    var lx :- Lex(s, i, strtod);
    var j := i + lx.consumed;
    assert KindAt(s, i, strtod) == Some(lx.lexeme.kind) && After(s, i, strtod) == j;
    match lx.lexeme.kind
    case LBrace => ObjectValue(s, i, After(s, i, strtod), strtod)
    case LSquare => ArrayValue(s, i, After(s, i, strtod), strtod)
    case TrueWord => Ok(Parsed(Boolean(true), lx.consumed))
    case FalseWord => Ok(Parsed(Boolean(false), lx.consumed))
    case NullWord => Ok(Parsed(Null, lx.consumed))
    case Str(length) =>
      StringLexed(s, i, strtod);
      MaterializeMeasured(s, lx.lexeme.begin, length);
      var block :- Materialize(s, lx.lexeme.begin, length);
      Ok(Parsed(String(block[..|block| - 1]), lx.consumed))
    case Num(d) => Ok(Parsed(Number(d), lx.consumed))
    case _ => Err(Unexpected(lx.lexeme.kind))
  }

  /** The `'{'` case of `json_parse_value`, whose lexeme spans `i` to `j`:
      the object parsed after it. */
  function ObjectValue(s: seq<byte>, i: nat, j: nat, strtod: Strtod): (r: Result<Parsed, ParseError>)
    requires i < j <= |s|
    ensures r.Ok? ==> j < i + r.value.consumed <= |s|
    ensures r.Ok? ==> r.value.value.Object? && Valid(r.value.value)
    ensures r.Ok? && KindAt(s, j, strtod) != Some(RBrace) ==> HoldsFirstMember(s, j, strtod, r.value.value.members)
    decreases |s| - j, 4
  {
    var o :- ParseObject(s, j, strtod);
    Ok(Parsed(o.value, j - i + o.consumed))
  }

  /** The `'['` case of `json_parse_value`, whose lexeme spans `i` to `j`:
      the array parsed after it. */
  function ArrayValue(s: seq<byte>, i: nat, j: nat, strtod: Strtod): (r: Result<Parsed, ParseError>)
    requires i < j <= |s|
    ensures r.Ok? ==> j < i + r.value.consumed <= |s|
    ensures r.Ok? ==> r.value.value.Array? && Valid(r.value.value)
    ensures KindAt(s, j, strtod) == Some(RSquare) ==> r == Ok(Parsed(Array(CreateVec(0)), After(s, j, strtod) - i))
    ensures r.Ok? && KindAt(s, j, strtod) != Some(RSquare) ==>
      && ARRAY_CAPACITY <= r.value.value.elements.capacity
      && ParseValue(s, j, strtod).Ok? && 1 <= |r.value.value.elements.items|
      && r.value.value.elements.items[0] == ParseValue(s, j, strtod).value.value
    ensures KindAt(s, j, strtod) != Some(RSquare) ==>
      var e := ParseElements(s, j, CreateVec(ARRAY_CAPACITY), strtod);
      && (r.Ok? <==> e.Ok?)
      && (r.Ok? ==> r.value.value.elements == e.value.0 && i + r.value.consumed == e.value.1)
    decreases |s| - j, 4
  {
    var a :- ParseArray(s, j, strtod);
    Ok(Parsed(a.value, j - i + a.consumed))
  }

  /** Every key of `st` is in `out` with the same value: adding members
      never changes a key already present, so of two members with the
      same key the first one stays. */
  ghost predicate KeepsEarlier(st: Store<Value>, out: Store<Value>)
    requires DistinctKeys(st.slots) && DistinctKeys(out.slots)
  {
    forall name :: name in Contents(st.slots) ==>
      name in Contents(out.slots) && Contents(out.slots)[name] == Contents(st.slots)[name]
  }

  /** The member whose key lexeme is `key` and whose colon is looked for
      at `k` is in `out`: the key is a string that materializes, a colon
      follows, a value parses after it, and the name (the materialized
      block up to its NUL) maps to that value, or to the value `st`
      already held for the name, since the first member wins. */
  ghost predicate HoldsMember(s: seq<byte>, k: nat, key: Lexeme, st: Store<Value>, strtod: Strtod, out: Store<Value>)
    decreases |s| - k, 0
  {
    && DistinctKeys(st.slots) && DistinctKeys(out.slots)
    && key.kind.Str?
    && UnescapeString(s, key.begin, key.kind.unescapedLength).Ok?
    && KindAt(s, k, strtod) == Some(Colon)
    && k < After(s, k, strtod) <= |s|
    && ParseValue(s, After(s, k, strtod), strtod).Ok?
    && var name := CString(UnescapeString(s, key.begin, key.kind.unescapedLength).value);
      && name in Contents(out.slots)
      && Contents(out.slots)[name] ==
        if name in Contents(st.slots) then Contents(st.slots)[name]
        else ParseValue(s, After(s, k, strtod), strtod).value.value
  }

  /** The object parsed after the `{` that ends before `j` holds its first
      member, in a table that started empty, with the value parsed for
      it. */
  ghost predicate HoldsFirstMember(s: seq<byte>, j: nat, strtod: Strtod, out: Store<Value>)
    decreases |s| - j, 2
  {
    && NextLexeme(s, j, strtod).Ok?
    && HoldsMember(s, After(s, j, strtod), NextLexeme(s, j, strtod).value.lexeme, Create(OBJECT_CAPACITY), strtod, out)
  }

  /** A string lexeme is there. */
  predicate IsStr(k: Option<LexemeKind>) {
    k.Some? && k.value.Str?
  }

  lemma KeepsEarlierTransitive(a: Store<Value>, b: Store<Value>, c: Store<Value>)
    requires DistinctKeys(a.slots) && DistinctKeys(b.slots) && DistinctKeys(c.slots)
    requires KeepsEarlier(a, b) && KeepsEarlier(b, c)
    ensures KeepsEarlier(a, c)
  {
  }

  /** A member added to `st` and kept on the way to `out` maps in `out` to
      its value, or to the earlier value of its name. */
  lemma AddedThenKept(st: Store<Value>, added: Store<Value>, out: Store<Value>, name: seq<byte>, v: Value)
    requires DistinctKeys(st.slots) && DistinctKeys(added.slots) && DistinctKeys(out.slots)
    requires name in Contents(st.slots) ==> Contents(added.slots) == Contents(st.slots)
    requires name !in Contents(st.slots) ==> Contents(added.slots) == Contents(st.slots)[name := v]
    requires KeepsEarlier(added, out)
    ensures name in Contents(out.slots)
    ensures Contents(out.slots)[name] == if name in Contents(st.slots) then Contents(st.slots)[name] else v
  {
  }

  lemma EmptyObjectValid(n: nat)
    ensures ValidEntries(Create(n)) && Valid(Object(Create(n)))
  {
  }

  /** `json_parse_object` at `j`, just after the `{`. A `}` first gives an
      object of capacity 0; otherwise the members go into a table of
      capacity 10. */
  function ParseObject(s: seq<byte>, j: nat, strtod: Strtod): (r: Result<Parsed, ParseError>)
    requires j <= |s|
    ensures r.Ok? ==> 1 <= r.value.consumed && j + r.value.consumed <= |s|
    ensures r.Ok? ==> r.value.value.Object? && Valid(r.value.value)
    ensures KindAt(s, j, strtod) == Some(RBrace) ==> r == Ok(Parsed(Object(Create(0)), After(s, j, strtod) - j))
    ensures r.Ok? && KindAt(s, j, strtod) != Some(RBrace) ==> OBJECT_CAPACITY <= |r.value.value.members.slots|
    ensures r.Ok? && KindAt(s, j, strtod) != Some(RBrace) ==> HoldsFirstMember(s, j, strtod, r.value.value.members)
    decreases |s| - j, 3
  {
    var first :- Lex(s, j, strtod);
    assert After(s, j, strtod) == j + first.consumed && KindAt(s, j, strtod) == Some(first.lexeme.kind);
    if first.lexeme.kind == RBrace then
      EmptyObjectValid(0);
      Ok(Parsed(Object(Create(0)), first.consumed))
    else
      EmptyObjectValid(OBJECT_CAPACITY);
      var m :- ParseMembers(s, After(s, j, strtod), NextLexeme(s, j, strtod).value.lexeme, Create(OBJECT_CAPACITY), strtod);
      Ok(Parsed(Object(m.0), m.1 - j))
  }

  /** A member of an object: its name, its value and the position just
      after the value. */
  datatype Member = Member(name: seq<byte>, value: Value, next: nat)

  /** The part of a turn of the loop of `json_parse_object` that reads one
      member: the key lexeme `key` must be a string that materializes, a
      colon must follow at `k`, and a value must parse after it. */
  function MemberHead(s: seq<byte>, k: nat, key: Lexeme, strtod: Strtod): (r: Result<Member, ParseError>)
    requires k <= |s|
    ensures r.Ok? <==>
      && key.kind.Str? && UnescapeString(s, key.begin, key.kind.unescapedLength).Ok?
      && KindAt(s, k, strtod) == Some(Colon) && ParseValue(s, After(s, k, strtod), strtod).Ok?
    ensures r.Ok? ==> k < After(s, k, strtod) < r.value.next <= |s|
    ensures r.Ok? ==>
      && r.value.name == CString(UnescapeString(s, key.begin, key.kind.unescapedLength).value)
      && r.value.value == ParseValue(s, After(s, k, strtod), strtod).value.value
      && r.value.next == After(s, k, strtod) + ParseValue(s, After(s, k, strtod), strtod).value.consumed
    ensures r.Ok? ==> NulFree(r.value.name) && Valid(r.value.value)
    decreases |s| - k, 0
  {
    if !key.kind.Str? then Err(Unexpected(key.kind))
    else
      var block :- Materialize(s, key.begin, key.kind.unescapedLength);
      var colon :- Lex(s, k, strtod);
      assert KindAt(s, k, strtod) == Some(colon.lexeme.kind) && After(s, k, strtod) == k + colon.consumed;
      if colon.lexeme.kind != Colon then Err(Unexpected(colon.lexeme.kind))
      else
        var v :- ParseValue(s, After(s, k, strtod), strtod);
        Ok(Member(CString(block), v.value, After(s, k, strtod) + v.consumed))
  }

  /** The loop of `json_parse_object` from the lexeme `key`, which ends at
      `k`, adding members to `st`: a string key, a colon and a value. The
      table and the position after the closing `}` are returned. */
  function ParseMembers(s: seq<byte>, k: nat, key: Lexeme, st: Store<Value>, strtod: Strtod): (r: Result<(Store<Value>, nat), ParseError>)
    requires k <= |s| && WellFormed(st) && 3 <= |st.slots|
    ensures r.Ok? ==> k < r.value.1 <= |s|
    ensures r.Ok? ==> WellFormed(r.value.0) && |st.slots| <= |r.value.0.slots| && r.value.0.size < |r.value.0.slots|
    ensures r.Ok? && ValidEntries(st) ==> ValidEntries(r.value.0)
    ensures r.Ok? ==> KeepsEarlier(st, r.value.0)
    ensures r.Ok? ==> HoldsMember(s, k, key, st, strtod, r.value.0)
    ensures !key.kind.Str? ==> r.Err?
    ensures KindAt(s, k, strtod) != Some(Colon) ==> r.Err?
    decreases |s| - k, 1
  {
    var m :- MemberHead(s, k, key, strtod);
    MemberAdded(s, m.next, st, m.name, m.value, strtod)
  }

  /** `json_object_add_pair` of the member just parsed, whose value ends
      at `k`, then the rest of the turn of the loop: the member's name
      maps to its value, or to the value the table already held for the
      name. */
  function MemberAdded(s: seq<byte>, k: nat, st: Store<Value>, name: seq<byte>, v: Value, strtod: Strtod): (r: Result<(Store<Value>, nat), ParseError>)
    requires k <= |s| && WellFormed(st) && 3 <= |st.slots| && NulFree(name)
    ensures r.Ok? ==> k < r.value.1 <= |s|
    ensures r.Ok? ==> WellFormed(r.value.0) && |st.slots| <= |r.value.0.slots| && r.value.0.size < |r.value.0.slots|
    ensures r.Ok? && ValidEntries(st) && Valid(v) ==> ValidEntries(r.value.0)
    ensures r.Ok? ==> KeepsEarlier(st, r.value.0)
    ensures r.Ok? ==> name in Contents(r.value.0.slots)
    ensures r.Ok? ==> Contents(r.value.0.slots)[name] == if name in Contents(st.slots) then Contents(st.slots)[name] else v
    decreases |s| - k, 1
  {
    var added := Added(st, name, v);
    var rest := MembersAfter(s, k, added, strtod);
    if rest.Err? then rest
    else
      KeepsEarlierTransitive(st, added, rest.value.0);
      AddedThenKept(st, added, rest.value.0, name, v);
      rest
  }

  /** The rest of one turn of the loop of `json_parse_object`, after a
      member was added: `}` stops it, `,` begins the next turn, anything
      else fails. */
  function MembersAfter(s: seq<byte>, k: nat, st: Store<Value>, strtod: Strtod): (r: Result<(Store<Value>, nat), ParseError>)
    requires k <= |s| && WellFormed(st) && 3 <= |st.slots| && st.size < |st.slots|
    ensures r.Ok? ==> k < r.value.1 <= |s|
    ensures r.Ok? ==> WellFormed(r.value.0) && |st.slots| <= |r.value.0.slots| && r.value.0.size < |r.value.0.slots|
    ensures r.Ok? && ValidEntries(st) ==> ValidEntries(r.value.0)
    ensures r.Ok? ==> KeepsEarlier(st, r.value.0)
    ensures KindAt(s, k, strtod) == Some(RBrace) ==> r == Ok((st, After(s, k, strtod)))
    ensures KindAt(s, k, strtod) != Some(RBrace) && KindAt(s, k, strtod) != Some(Comma) ==> r.Err?
    ensures KindAt(s, k, strtod) == Some(Comma) ==> r == NextMember(s, After(s, k, strtod), st, strtod)
    decreases |s| - k, 0
  {
    var sep :- Lex(s, k, strtod);
    var k2 := k + sep.consumed;
    assert After(s, k, strtod) == k2 && KindAt(s, k, strtod) == Some(sep.lexeme.kind);
    if sep.lexeme.kind == RBrace then Ok((st, k2))
    else if sep.lexeme.kind != Comma then Err(Unexpected(sep.lexeme.kind))
    else NextMember(s, After(s, k, strtod), st, strtod)
  }

  /** The next turn of the loop of `json_parse_object`, after a comma that
      ends at `k`: the next lexeme is the next member's key. */
  function NextMember(s: seq<byte>, k: nat, st: Store<Value>, strtod: Strtod): (r: Result<(Store<Value>, nat), ParseError>)
    requires k <= |s| && WellFormed(st) && 3 <= |st.slots| && st.size < |st.slots|
    ensures r.Ok? ==> k < r.value.1 <= |s|
    ensures r.Ok? ==> WellFormed(r.value.0) && |st.slots| <= |r.value.0.slots| && r.value.0.size < |r.value.0.slots|
    ensures r.Ok? && ValidEntries(st) ==> ValidEntries(r.value.0)
    ensures r.Ok? ==> KeepsEarlier(st, r.value.0)
    ensures !IsStr(KindAt(s, k, strtod)) ==> r.Err?
    ensures NextLexeme(s, k, strtod).Ok? ==> r == ParseMembers(s, After(s, k, strtod), NextLexeme(s, k, strtod).value.lexeme, st, strtod)
    decreases |s| - k, 2
  {
    var next :- Lex(s, k, strtod);
    assert After(s, k, strtod) == k + next.consumed && KindAt(s, k, strtod) == Some(next.lexeme.kind);
    ParseMembers(s, After(s, k, strtod), NextLexeme(s, k, strtod).value.lexeme, st, strtod)
  }

  /** One turn of the loop of `json_parse_object`: once a member is read
      (a string key that materializes, a colon and a value), it is added
      to `st`, and the rest of the turn goes on after the value with that
      table. */
  lemma MembersStep(s: seq<byte>, k: nat, key: Lexeme, st: Store<Value>, strtod: Strtod)
    requires k <= |s| && WellFormed(st) && 3 <= |st.slots| && MemberHead(s, k, key, strtod).Ok?
    ensures var m := MemberHead(s, k, key, strtod).value;
      && m.next <= |s| && NulFree(m.name)
      && ParseMembers(s, k, key, st, strtod) == MembersAfter(s, m.next, Added(st, m.name, m.value), strtod)
  {
    var m := MemberHead(s, k, key, strtod).value;
    MemberHeadThenAdded(s, k, key, st, strtod);
    MemberAddedIsAdded(s, m.next, st, m.name, m.value, strtod);
  }

  /** Once its member is read, a turn of the loop adds it. */
  lemma MemberHeadThenAdded(s: seq<byte>, k: nat, key: Lexeme, st: Store<Value>, strtod: Strtod)
    requires k <= |s| && WellFormed(st) && 3 <= |st.slots| && MemberHead(s, k, key, strtod).Ok?
    ensures var m := MemberHead(s, k, key, strtod).value;
      m.next <= |s| && NulFree(m.name) && ParseMembers(s, k, key, st, strtod) == MemberAdded(s, m.next, st, m.name, m.value, strtod)
  {
  }

  /** `MemberAdded` is the rest of the turn on the table with the member
      added. */
  lemma MemberAddedIsAdded(s: seq<byte>, k: nat, st: Store<Value>, name: seq<byte>, v: Value, strtod: Strtod)
    requires k <= |s| && WellFormed(st) && 3 <= |st.slots| && NulFree(name)
    ensures MemberAdded(s, k, st, name, v, strtod) == MembersAfter(s, k, Added(st, name, v), strtod)
  {
  }

  /** `json_object_add_pair` of a parsed member, with what the loop of
      `json_parse_object` relies on: the table stays well formed with an
      empty slot, and a table of C-string keys and valid values stays
      one. */
  function Added(st: Store<Value>, name: seq<byte>, v: Value): (r: Store<Value>)
    requires WellFormed(st) && 3 <= |st.slots| && NulFree(name)
    ensures WellFormed(r) && |st.slots| <= |r.slots| && r.size < |r.slots|
    ensures st.size <= r.size
    ensures name in Contents(st.slots) ==> Contents(r.slots) == Contents(st.slots)
    ensures name !in Contents(st.slots) ==> Contents(r.slots) == Contents(st.slots)[name := v]
    ensures ValidEntries(st) && Valid(v) ==> ValidEntries(r)
    ensures KeepsEarlier(st, r)
  {
    var r := AddPair(st, name, v);
    AddPairKeepsValid(st, name, v);
    r
  }

  lemma AddPairKeepsValid(st: Store<Value>, name: seq<byte>, v: Value)
    requires WellFormed(st) && 0 < |st.slots| && NulFree(name)
    ensures ValidEntries(st) && Valid(v) ==> ValidEntries(AddPair(st, name, v))
  {
    var r := AddPair(st, name, v);
    AddPairEntries(st, name, v);
    if ValidEntries(st) && Valid(v) {
      forall p | 0 <= p < |r.slots| && r.slots[p].Entry?
        ensures NulFree(r.slots[p].key) && Valid(r.slots[p].value)
      {
        if r.slots[p] != Entry(name, v) {
          var q :| 0 <= q < |st.slots| && st.slots[q] == r.slots[p];
        }
      }
    }
  }

  /** `json_parse_array` at `j`, just after the `[`. A `]` first gives an
      array of capacity 0; otherwise the first element is parsed from `j`
      again, since the lexeme looked at is not skipped, into an array of
      capacity 4. */
  function ParseArray(s: seq<byte>, j: nat, strtod: Strtod): (r: Result<Parsed, ParseError>)
    requires j <= |s|
    ensures r.Ok? ==> 1 <= r.value.consumed && j + r.value.consumed <= |s|
    ensures r.Ok? ==> r.value.value.Array? && Valid(r.value.value)
    ensures KindAt(s, j, strtod) == Some(RSquare) ==> r == Ok(Parsed(Array(CreateVec(0)), After(s, j, strtod) - j))
    ensures r.Ok? && KindAt(s, j, strtod) != Some(RSquare) ==> ARRAY_CAPACITY <= r.value.value.elements.capacity
    ensures r.Ok? && KindAt(s, j, strtod) != Some(RSquare) ==>
      && ParseValue(s, j, strtod).Ok? && 1 <= |r.value.value.elements.items|
      && r.value.value.elements.items[0] == ParseValue(s, j, strtod).value.value
    ensures KindAt(s, j, strtod) != Some(RSquare) ==>
      var e := ParseElements(s, j, CreateVec(ARRAY_CAPACITY), strtod);
      && (r.Ok? <==> e.Ok?)
      && (r.Ok? ==> r.value.value.elements == e.value.0 && j + r.value.consumed == e.value.1)
    decreases |s| - j, 3
  {
    var first :- Lex(s, j, strtod);
    assert After(s, j, strtod) == j + first.consumed && KindAt(s, j, strtod) == Some(first.lexeme.kind);
    if first.lexeme.kind == RSquare then
      Ok(Parsed(Array(CreateVec(0)), first.consumed))
    else
      var e :- ParseElements(s, j, CreateVec(ARRAY_CAPACITY), strtod);
      Ok(Parsed(Array(e.0), e.1 - j))
  }

  /** `out` holds the values of `a` at the same indices, and maybe more. */
  predicate Extends(a: Vec<Value>, out: Vec<Value>) {
    |a.items| <= |out.items| && forall n :: 0 <= n < |a.items| ==> out.items[n] == a.items[n]
  }

  /** All values of `a` are valid. */
  predicate ValidItems(a: Vec<Value>) {
    forall n :: 0 <= n < |a.items| ==> Valid(a.items[n])
  }

  /** The loop of `json_parse_array` from `k`, appending to `a`: a value,
      added before the next lexeme is looked at. The array and the
      position after the closing `]` are returned. */
  function ParseElements(s: seq<byte>, k: nat, a: Vec<Value>, strtod: Strtod): (r: Result<(Vec<Value>, nat), ParseError>)
    requires k <= |s| && Fits(a) && 0 < a.capacity
    ensures r.Ok? ==> k < r.value.1 <= |s|
    ensures r.Ok? ==> Fits(r.value.0) && 0 < r.value.0.capacity
    ensures r.Ok? && ValidItems(a) ==> ValidItems(r.value.0)
    ensures r.Ok? ==> Extends(a, r.value.0) && |a.items| < |r.value.0.items|
    ensures r.Ok? ==> ParseValue(s, k, strtod).Ok? && r.value.0.items[|a.items|] == ParseValue(s, k, strtod).value.value
    ensures r.Ok? ==> a.capacity <= r.value.0.capacity
    decreases |s| - k, 2
  {
    if ParseValue(s, k, strtod).Err? then Err(ParseValue(s, k, strtod).error)
    else ElementAdded(s, k + ParseValue(s, k, strtod).value.consumed, Add(a, ParseValue(s, k, strtod).value.value), strtod)
  }

  /** The rest of a turn of the loop of `json_parse_array` once the value
      that ends at `k` is appended to `a`. */
  function ElementAdded(s: seq<byte>, k: nat, a: Vec<Value>, strtod: Strtod): (r: Result<(Vec<Value>, nat), ParseError>)
    requires k <= |s| && Fits(a) && 0 < a.capacity
    ensures r.Ok? ==> k < r.value.1 <= |s|
    ensures r.Ok? ==> Fits(r.value.0) && 0 < r.value.0.capacity
    ensures r.Ok? && ValidItems(a) ==> ValidItems(r.value.0)
    ensures r.Ok? ==> Extends(a, r.value.0)
    ensures r.Ok? ==> a.capacity <= r.value.0.capacity
    decreases |s| - k, 2
  {
    ElementsAfter(s, k, a, strtod)
  }

  /** `ElementAdded` is the rest of the turn. */
  lemma ElementAddedIsAfter(s: seq<byte>, k: nat, a: Vec<Value>, strtod: Strtod)
    requires k <= |s| && Fits(a) && 0 < a.capacity
    ensures ElementAdded(s, k, a, strtod) == ElementsAfter(s, k, a, strtod)
  {
  }

  /** The rest of one turn of the loop of `json_parse_array`: `]` stops it,
      `,` begins the next turn, anything else fails. */
  function ElementsAfter(s: seq<byte>, k: nat, a: Vec<Value>, strtod: Strtod): (r: Result<(Vec<Value>, nat), ParseError>)
    requires k <= |s| && Fits(a) && 0 < a.capacity
    ensures r.Ok? ==> k < r.value.1 <= |s|
    ensures r.Ok? ==> Fits(r.value.0) && 0 < r.value.0.capacity
    ensures r.Ok? && ValidItems(a) ==> ValidItems(r.value.0)
    ensures r.Ok? ==> Extends(a, r.value.0)
    ensures r.Ok? ==> a.capacity <= r.value.0.capacity
    ensures KindAt(s, k, strtod) != Some(RSquare) && KindAt(s, k, strtod) != Some(Comma) ==> r.Err?
    ensures KindAt(s, k, strtod) == Some(Comma) && KindAt(s, After(s, k, strtod), strtod) == Some(RSquare) ==> r.Err?
    ensures KindAt(s, k, strtod) == Some(RSquare) ==> r == Ok((a, After(s, k, strtod)))
    ensures KindAt(s, k, strtod) == Some(Comma) ==> r == ParseElements(s, After(s, k, strtod), a, strtod)
    decreases |s| - k, 1
  {
    var sep :- Lex(s, k, strtod);
    assert After(s, k, strtod) == k + sep.consumed && KindAt(s, k, strtod) == Some(sep.lexeme.kind);
    if sep.lexeme.kind == RSquare then Ok((a, After(s, k, strtod)))
    else if sep.lexeme.kind != Comma then Err(Unexpected(sep.lexeme.kind))
    else
      assert KindAt(s, After(s, k, strtod), strtod) == Some(RSquare) ==> ParseValue(s, After(s, k, strtod), strtod).Err?;
      ParseElements(s, After(s, k, strtod), a, strtod)
  }

  /** One turn of the loop: the value at `k` is appended, and the rest of
      the turn goes on after it. */
  lemma ElementsStep(s: seq<byte>, k: nat, a: Vec<Value>, strtod: Strtod)
    requires k <= |s| && Fits(a) && 0 < a.capacity && ParseValue(s, k, strtod).Ok?
    ensures k + ParseValue(s, k, strtod).value.consumed <= |s|
    ensures ParseElements(s, k, a, strtod)
      == ElementsAfter(s, k + ParseValue(s, k, strtod).value.consumed, Add(a, ParseValue(s, k, strtod).value.value), strtod)
  {
    var v := ParseValue(s, k, strtod).value;
    ValueThenAdded(s, k, a, strtod);
    ElementAddedIsAfter(s, k + v.consumed, Add(a, v.value), strtod);
  }

  /** Once its value is parsed, a turn of the loop appends it. */
  lemma ValueThenAdded(s: seq<byte>, k: nat, a: Vec<Value>, strtod: Strtod)
    requires k <= |s| && Fits(a) && 0 < a.capacity && ParseValue(s, k, strtod).Ok?
    ensures var v := ParseValue(s, k, strtod).value;
      k + v.consumed <= |s| && ParseElements(s, k, a, strtod) == ElementAdded(s, k + v.consumed, Add(a, v.value), strtod)
  {
  }

  /** A value that starts with `[` is the array parsed after it, so every
      fact `ArrayValue` states holds of `ParseValue` there. */
  lemma ArrayDispatched(s: seq<byte>, i: nat, strtod: Strtod)
    requires i <= |s| && KindAt(s, i, strtod) == Some(LSquare)
    ensures i < After(s, i, strtod) <= |s|
    ensures ParseValue(s, i, strtod) == ArrayValue(s, i, After(s, i, strtod), strtod)
  {
  }

  /** A value that starts with `{` is the object parsed after it. */
  lemma ObjectDispatched(s: seq<byte>, i: nat, strtod: Strtod)
    requires i <= |s| && KindAt(s, i, strtod) == Some(LBrace)
    ensures i < After(s, i, strtod) <= |s|
    ensures ParseValue(s, i, strtod) == ObjectValue(s, i, After(s, i, strtod), strtod)
  {
  }

  /** A value that starts with `{` and is not `{}` is the object holding
      the table its members leave, from the first key on, and it fails
      exactly when they do. */
  lemma ObjectFromMembers(s: seq<byte>, i: nat, strtod: Strtod)
    requires i <= |s| && KindAt(s, i, strtod) == Some(LBrace)
    requires NextLexeme(s, After(s, i, strtod), strtod).Ok? && KindAt(s, After(s, i, strtod), strtod) != Some(RBrace)
    ensures var j := After(s, i, strtod);
      && i < j < After(s, j, strtod) <= |s|
      && var m := ParseMembers(s, After(s, j, strtod), NextLexeme(s, j, strtod).value.lexeme, Create(OBJECT_CAPACITY), strtod);
      && (ParseValue(s, i, strtod).Ok? <==> m.Ok?)
      && (m.Ok? ==> ParseValue(s, i, strtod).value == Parsed(Object(m.value.0), m.value.1 - i))
  {
    ObjectDispatched(s, i, strtod);
    var j := After(s, i, strtod);
    ObjectOfMembers(s, j, strtod);
    ObjectValueOfObject(s, i, j, strtod);
  }

  /** `ObjectValue` is `ParseObject` with the `{` counted in. */
  lemma ObjectValueOfObject(s: seq<byte>, i: nat, j: nat, strtod: Strtod)
    requires i < j <= |s|
    ensures ObjectValue(s, i, j, strtod).Ok? <==> ParseObject(s, j, strtod).Ok?
    ensures ObjectValue(s, i, j, strtod).Ok? ==>
      ObjectValue(s, i, j, strtod).value == Parsed(ParseObject(s, j, strtod).value.value, j - i + ParseObject(s, j, strtod).value.consumed)
  {
  }

  /** An object that is not `{}` holds the table its members leave. */
  lemma ObjectOfMembers(s: seq<byte>, j: nat, strtod: Strtod)
    requires j <= |s| && NextLexeme(s, j, strtod).Ok? && KindAt(s, j, strtod) != Some(RBrace)
    ensures j < After(s, j, strtod) <= |s|
    ensures var m := ParseMembers(s, After(s, j, strtod), NextLexeme(s, j, strtod).value.lexeme, Create(OBJECT_CAPACITY), strtod);
      && (ParseObject(s, j, strtod).Ok? <==> m.Ok?)
      && (m.Ok? ==> ParseObject(s, j, strtod).value == Parsed(Object(m.value.0), m.value.1 - j))
  {
    assert Lex(s, j, strtod) == Ok(NextLexeme(s, j, strtod).value);
  }

  /** A measured string body materializes into exactly the measured
      number of bytes, and does so unless the body has a `\u` escape only
      `strtoul` accepts. */
  lemma MaterializeMeasured(s: seq<byte>, begin: nat, length: nat)
    requires MeasureString(s, begin).Some? && MeasureString(s, begin).value.unescapedLength == length
    ensures Materialize(s, begin, length).Ok? <==> NoLooseEscape(s, begin)
    ensures Materialize(s, begin, length).Ok? ==> |Materialize(s, begin, length).value| == length
  {
    TwoPass(s, begin);
  }

  /** Looking up the name of an object's first member finds the value
      parsed after its colon: a later member with the same name does not
      replace it. */
  lemma FirstMemberFound(s: seq<byte>, i: nat, strtod: Strtod)
    requires i <= |s| && ParseValue(s, i, strtod).Ok?
    requires KindAt(s, i, strtod) == Some(LBrace) && KindAt(s, After(s, i, strtod), strtod) != Some(RBrace)
    ensures var j := After(s, i, strtod);
      NextLexeme(s, j, strtod).Ok? &&
      var key := NextLexeme(s, j, strtod).value.lexeme;
      key.kind.Str? && UnescapeString(s, key.begin, key.kind.unescapedLength).Ok? &&
      var c := After(s, After(s, j, strtod), strtod);
      c <= |s| && ParseValue(s, c, strtod).Ok? &&
      var v := ParseValue(s, i, strtod).value.value;
      v.Object? && 0 < |v.members.slots| &&
      Get(v.members, CString(UnescapeString(s, key.begin, key.kind.unescapedLength).value)) ==
        Some(ParseValue(s, c, strtod).value.value)
  {
    var v := ParseValue(s, i, strtod).value.value;
    var j := After(s, i, strtod);
    assert HoldsFirstMember(s, j, strtod, v.members);
    var key := NextLexeme(s, j, strtod).value.lexeme;
    assert HoldsMember(s, After(s, j, strtod), key, Create(OBJECT_CAPACITY), strtod, v.members);
    var name := CString(UnescapeString(s, key.begin, key.kind.unescapedLength).value);
    assert name !in Contents(Create<Value>(OBJECT_CAPACITY).slots);
    ContentsOfSlots(v.members.slots);
  }

  /** A quote, one ASCII byte other than a quote or a backslash, and a
      closing quote lex as a string lexeme of three bytes whose block
      holds two bytes, NUL included. */
  lemma QuotedByteLexed(s: seq<byte>, i: nat, strtod: Strtod)
    requires i + 2 < |s| && s[i] == QUOTE && s[i + 2] == QUOTE
    requires s[i + 1] < 0x80 && s[i + 1] != QUOTE && s[i + 1] != BACKSLASH
    ensures NextLexeme(s, i, strtod) == Ok(Lexed(Lexeme(Str(2), i + 1), 3))
  {
    assert SpaceRun(s, i) == 0;
    OneByteBody(s, i + 1);
    assert NextLexeme(s, i, strtod) == StringLexeme(s, i, i);
  }

  /** `{"a":1,"b":2}` with the one byte `b` as the second key: two
      members, the first named `a`. */
  function TwoMembers(b: byte): seq<byte> {
    [L_BRACE, QUOTE, 0x61, QUOTE, COLON, 0x31, COMMA, QUOTE, b, QUOTE, COLON, 0x32, R_BRACE]
  }

  /** A byte that spells itself inside a string and is not the NUL that
      ends a C string. */
  predicate PlainKey(b: byte) {
    0 < b < 0x80 && b != QUOTE && b != BACKSLASH
  }

  /** `strtod` reads the one-digit numbers of `TwoMembers(b)` as `one` and
      `two`. */
  predicate ReadsDigits(strtod: Strtod, b: byte, one: Double, two: Double) {
    strtod(TwoMembers(b), 5) == NumberScan(1, one) && strtod(TwoMembers(b), 11) == NumberScan(1, two)
  }

  /** The braces, colons and comma of `TwoMembers(b)` are lexed in place,
      in one byte each. */
  lemma TwoPunctuation(strtod: Strtod, b: byte)
    ensures KindAt(TwoMembers(b), 0, strtod) == Some(LBrace) && After(TwoMembers(b), 0, strtod) == 1
    ensures KindAt(TwoMembers(b), 4, strtod) == Some(Colon) && After(TwoMembers(b), 4, strtod) == 5
    ensures KindAt(TwoMembers(b), 6, strtod) == Some(Comma) && After(TwoMembers(b), 6, strtod) == 7
    ensures KindAt(TwoMembers(b), 10, strtod) == Some(Colon) && After(TwoMembers(b), 10, strtod) == 11
    ensures KindAt(TwoMembers(b), 12, strtod) == Some(RBrace) && After(TwoMembers(b), 12, strtod) == 13
  {
    TwoPunctuationAt(strtod, b, 0);
    TwoPunctuationAt(strtod, b, 4);
    TwoPunctuationAt(strtod, b, 6);
    TwoPunctuationAt(strtod, b, 10);
    TwoPunctuationAt(strtod, b, 12);
  }

  /** A punctuation byte of `TwoMembers(b)` is a lexeme of one byte. */
  lemma TwoPunctuationAt(strtod: Strtod, b: byte, i: nat)
    requires i == 0 || i == 4 || i == 6 || i == 10 || i == 12
    ensures KindAt(TwoMembers(b), i, strtod) == PunctuationOf(TwoMembers(b)[i]) && After(TwoMembers(b), i, strtod) == i + 1
  {
    PunctuationLexed(TwoMembers(b), i, strtod);
  }

  /** The keys of `TwoMembers(b)` are string lexemes of a one-byte body,
      which materializes as that byte and the NUL. */
  lemma TwoKeys(strtod: Strtod, b: byte)
    requires PlainKey(b)
    ensures NextLexeme(TwoMembers(b), 1, strtod) == Ok(Lexed(Lexeme(Str(2), 2), 3))
    ensures NextLexeme(TwoMembers(b), 7, strtod) == Ok(Lexed(Lexeme(Str(2), 8), 3))
    ensures UnescapeString(TwoMembers(b), 2, 2) == Ok([0x61, NUL])
    ensures UnescapeString(TwoMembers(b), 8, 2) == Ok([b, NUL])
  {
    var s := TwoMembers(b);
    QuotedByteLexed(s, 1, strtod);
    QuotedByteLexed(s, 7, strtod);
    OneByteBody(s, 2);
    OneByteBody(s, 8);
  }

  /** The digits of `TwoMembers(b)` are values of one byte. */
  lemma TwoNumbers(strtod: Strtod, b: byte, one: Double, two: Double)
    requires ReadsDigits(strtod, b, one, two)
    ensures ParseValue(TwoMembers(b), 5, strtod) == Ok(Parsed(Number(one), 1))
    ensures ParseValue(TwoMembers(b), 11, strtod) == Ok(Parsed(Number(two), 1))
  {
    TwoNumberAt(strtod, b, 5, one);
    TwoNumberAt(strtod, b, 11, two);
  }

  /** A digit of `TwoMembers(b)` is the value `strtod` reads there. */
  lemma TwoNumberAt(strtod: Strtod, b: byte, i: nat, d: Double)
    requires (i == 5 || i == 11) && strtod(TwoMembers(b), i) == NumberScan(1, d)
    ensures ParseValue(TwoMembers(b), i, strtod) == Ok(Parsed(Number(d), 1))
  {
    TwoDigitLexed(strtod, b, i, d);
    NumberParsed(TwoMembers(b), i, strtod);
  }

  /** A digit of `TwoMembers(b)` is a number lexeme of one byte. */
  lemma TwoDigitLexed(strtod: Strtod, b: byte, i: nat, d: Double)
    requires (i == 5 || i == 11) && strtod(TwoMembers(b), i) == NumberScan(1, d)
    ensures NextLexeme(TwoMembers(b), i, strtod) == Ok(Lexed(Lexeme(Num(d), i), 1))
  {
    assert SpaceRun(TwoMembers(b), i) == 0;
  }

  /** A number lexeme is a value by itself. */
  lemma NumberParsed(s: seq<byte>, i: nat, strtod: Strtod)
    requires i <= |s| && NextLexeme(s, i, strtod).Ok? && NextLexeme(s, i, strtod).value.lexeme.kind.Num?
    ensures var lx := NextLexeme(s, i, strtod).value;
      ParseValue(s, i, strtod) == Ok(Parsed(Number(lx.lexeme.kind.number), lx.consumed))
  {
    assert Lex(s, i, strtod) == Ok(NextLexeme(s, i, strtod).value);
  }

  /** The name a one-byte key stands for. */
  lemma OneByteName(b: byte)
    requires b != NUL
    ensures CString([b, NUL]) == [b]
  {
    assert [b, NUL][1..] == [NUL];
  }

  /** Both members of `TwoMembers(b)` are read: `a` with the first value,
      `b` with the second. */
  lemma TwoHeads(strtod: Strtod, b: byte, one: Double, two: Double)
    requires PlainKey(b) && ReadsDigits(strtod, b, one, two)
    ensures MemberHead(TwoMembers(b), 4, Lexeme(Str(2), 2), strtod) == Ok(Member([0x61], Number(one), 6))
    ensures MemberHead(TwoMembers(b), 10, Lexeme(Str(2), 8), strtod) == Ok(Member([b], Number(two), 12))
  {
    TwoPunctuation(strtod, b);
    TwoKeys(strtod, b);
    TwoNumbers(strtod, b, one, two);
    OneByteName(0x61);
    OneByteName(b);
  }

  /** The table `TwoMembers(b)` leaves: `a` and then `b` added to the empty
      table of capacity 10. */
  function TwoTable(b: byte, one: Double, two: Double): (r: Store<Value>)
    requires PlainKey(b)
    ensures WellFormed(r) && OBJECT_CAPACITY <= |r.slots| && r.size < |r.slots|
    ensures b == 0x61 ==> Contents(r.slots) == map[[0x61] := Number(one)]
    ensures b != 0x61 ==> Contents(r.slots) == map[[0x61] := Number(one), [b] := Number(two)]
  {
    Added(Added(Create(OBJECT_CAPACITY), [0x61], Number(one)), [b], Number(two))
  }

  /** The members of `TwoMembers(b)`, from the first colon, go into the
      table `TwoTable`, and the object ends after the closing brace. */
  lemma TwoMembersParsed(strtod: Strtod, b: byte, one: Double, two: Double)
    requires PlainKey(b) && ReadsDigits(strtod, b, one, two)
    ensures ParseMembers(TwoMembers(b), 4, Lexeme(Str(2), 2), Create(OBJECT_CAPACITY), strtod) == Ok((TwoTable(b, one, two), 13))
  {
    var s := TwoMembers(b);
    TwoPunctuation(strtod, b);
    TwoKeys(strtod, b);
    TwoHeads(strtod, b, one, two);
    var first := Added(Create(OBJECT_CAPACITY), [0x61], Number(one));
    MembersStep(s, 4, Lexeme(Str(2), 2), Create(OBJECT_CAPACITY), strtod);
    MembersStep(s, 10, Lexeme(Str(2), 8), first, strtod);
    assert MembersAfter(s, 6, first, strtod) == ParseMembers(s, 10, Lexeme(Str(2), 8), first, strtod);
  }

  /** `TwoMembers(b)` parses into an object whose table is `TwoTable`. */
  lemma TwoParsed(strtod: Strtod, b: byte, one: Double, two: Double)
    requires PlainKey(b) && ReadsDigits(strtod, b, one, two)
    ensures ParseValue(TwoMembers(b), 0, strtod) == Ok(Parsed(Object(TwoTable(b, one, two)), 13))
  {
    TwoPunctuation(strtod, b);
    TwoKeys(strtod, b);
    TwoMembersParsed(strtod, b, one, two);
    ObjectFromMembers(TwoMembers(b), 0, strtod);
  }

  /** Looking up `a` in the object `{"a":1,"a":2}` parses into gives the
      first value, since `json_object_add_pair` keeps a key's first value,
      and any other name is absent. */
  lemma FirstOfTwiceWins(strtod: Strtod, one: Double, two: Double, other: seq<byte>)
    requires ReadsDigits(strtod, 0x61, one, two) && NulFree(other) && other != [0x61]
    ensures ParseValue(TwoMembers(0x61), 0, strtod).Ok?
    ensures var v := ParseValue(TwoMembers(0x61), 0, strtod).value.value;
      && v.Object? && 0 < |v.members.slots| && v.members.size < |v.members.slots|
      && Get(v.members, [0x61]) == Some(Number(one))
      && Get(v.members, other) == None
  {
    TwoParsed(strtod, 0x61, one, two);
  }

  /** Looking up each name of `{"a":1,"b":2}` in the object it parses into
      gives that member's value, and any other name is absent. */
  lemma EveryMemberFound(strtod: Strtod, one: Double, two: Double, other: seq<byte>)
    requires ReadsDigits(strtod, 0x62, one, two) && NulFree(other) && other != [0x61] && other != [0x62]
    ensures ParseValue(TwoMembers(0x62), 0, strtod).Ok?
    ensures var v := ParseValue(TwoMembers(0x62), 0, strtod).value.value;
      && v.Object? && 0 < |v.members.slots| && v.members.size < |v.members.slots|
      && Get(v.members, [0x61]) == Some(Number(one))
      && Get(v.members, [0x62]) == Some(Number(two))
      && Get(v.members, other) == None
  {
    TwoParsed(strtod, 0x62, one, two);
    TwoLookups(0x62, one, two, other);
  }

  /** Looking up each name in `TwoTable` with two different names gives
      its value, and any other name is absent. */
  lemma TwoLookups(b: byte, one: Double, two: Double, other: seq<byte>)
    requires PlainKey(b) && b != 0x61 && NulFree(other) && other != [0x61] && other != [b]
    ensures var table := TwoTable(b, one, two);
      && Get(table, [0x61]) == Some(Number(one))
      && Get(table, [b]) == Some(Number(two))
      && Get(table, other) == None
  {
    OnlyTwoNames(b, one, two, other);
  }

  /** The two names are all the map holds. */
  lemma OnlyTwoNames(b: byte, one: Double, two: Double, other: seq<byte>)
    requires other != [0x61] && other != [b]
    ensures var named := map[[0x61] := Number(one), [b] := Number(two)];
      other !in named && named[[b]] == Number(two)
  {
  }

  /** `[1,2]`: an array of two numbers. */
  const ONE_TWO: seq<byte> := [L_SQUARE, 0x31, COMMA, 0x32, R_SQUARE]

  /** `strtod` reads the digits of `ONE_TWO` as `one` and `two`. */
  predicate ReadsPair(strtod: Strtod, one: Double, two: Double) {
    strtod(ONE_TWO, 1) == NumberScan(1, one) && strtod(ONE_TWO, 3) == NumberScan(1, two)
  }

  /** The brackets and the comma of `ONE_TWO` are lexed in place, in one
      byte each. */
  lemma PairPunctuation(strtod: Strtod)
    ensures KindAt(ONE_TWO, 0, strtod) == Some(LSquare) && After(ONE_TWO, 0, strtod) == 1
    ensures KindAt(ONE_TWO, 2, strtod) == Some(Comma) && After(ONE_TWO, 2, strtod) == 3
    ensures KindAt(ONE_TWO, 4, strtod) == Some(RSquare) && After(ONE_TWO, 4, strtod) == 5
  {
    PunctuationLexed(ONE_TWO, 0, strtod);
    PunctuationLexed(ONE_TWO, 2, strtod);
    PunctuationLexed(ONE_TWO, 4, strtod);
  }

  /** The digits of `ONE_TWO` parse as one-byte numbers. */
  lemma PairNumbers(strtod: Strtod, one: Double, two: Double)
    requires ReadsPair(strtod, one, two)
    ensures KindAt(ONE_TWO, 1, strtod) == Some(Num(one))
    ensures ParseValue(ONE_TWO, 1, strtod) == Ok(Parsed(Number(one), 1))
    ensures ParseValue(ONE_TWO, 3, strtod) == Ok(Parsed(Number(two), 1))
  {
    assert SpaceRun(ONE_TWO, 1) == 0 && SpaceRun(ONE_TWO, 3) == 0;
  }

  /** The second element of `ONE_TWO` is appended to any array, and the
      `]` after it ends the loop. */
  lemma PairSecond(strtod: Strtod, one: Double, two: Double, a: Vec<Value>)
    requires ReadsPair(strtod, one, two) && Fits(a) && 0 < a.capacity
    ensures ParseElements(ONE_TWO, 3, a, strtod) == Ok((Add(a, Number(two)), 5))
  {
    PairPunctuation(strtod);
    PairNumbers(strtod, one, two);
    ElementsStep(ONE_TWO, 3, a, strtod);
  }

  /** The first element of `ONE_TWO`, then the comma, then the second. */
  lemma PairElements(strtod: Strtod, one: Double, two: Double)
    requires ReadsPair(strtod, one, two)
    ensures ParseElements(ONE_TWO, 1, CreateVec(ARRAY_CAPACITY), strtod)
      == Ok((Add(Add(CreateVec(ARRAY_CAPACITY), Number(one)), Number(two)), 5))
  {
    PairPunctuation(strtod);
    PairNumbers(strtod, one, two);
    var first := Add(CreateVec(ARRAY_CAPACITY), Number(one));
    ElementsStep(ONE_TWO, 1, CreateVec(ARRAY_CAPACITY), strtod);
    PairSecond(strtod, one, two, first);
  }

  /** `[1,2]` parses into an array whose items are exactly the two numbers,
      in the order of the text, and nothing else. */
  lemma PairParses(strtod: Strtod, one: Double, two: Double)
    requires ReadsPair(strtod, one, two)
    ensures ParseValue(ONE_TWO, 0, strtod).Ok?
    ensures ParseValue(ONE_TWO, 0, strtod).value.consumed == 5
    ensures var v := ParseValue(ONE_TWO, 0, strtod).value.value;
      v.Array? && v.elements.items == [Number(one), Number(two)]
  {
    PairPunctuation(strtod);
    PairNumbers(strtod, one, two);
    PairElements(strtod, one, two);
    ArrayDispatched(ONE_TWO, 0, strtod);
    var e := Add(Add(CreateVec<Value>(ARRAY_CAPACITY), Number(one)), Number(two));
    assert e.items == [Number(one), Number(two)];
  }
}
