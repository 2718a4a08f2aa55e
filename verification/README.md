# retro-json decoder, modelled in Dafny

This project models `parser.c` of retro-json, a dependency-free JSON
decoder written in C. It covers the lexer (`next_lexeme` with `is_prefix`),
the two-pass string engine, the open-addressing hash table behind objects,
the growable array and the recursive-descent parser. The string engine has
a measuring pass (`measure_string_lexeme`, `measure_escape_sequence`,
`check_code_point`) and a materializing pass (`unescape_string`,
`unescape_code_point`, `copy_code_point`, `put_utf8_code_point`). The
parser is `json_parse_value`, `json_parse_object` and `json_parse_array`.

The input buffer is a `seq<byte>` holding the text before the C
terminator. `Bytes.At` reads 0 at and after the end of the text. Every
C function that "returns the number of bytes read, 0 on failure" becomes
a function returning a `Result`. The success value carries the byte
count, and the error names the reason. `strtod` is a parameter of the
lexer and the parser.

Modules, in dependency order:

- `Results`: the `Option` and `Result` datatypes.
- `Bytes`: bytes, the C-locale classes `isspace` and `isxdigit`, the
  `ctoh` table, and C strings.
- `Utf8`: the `utf8_bytes_left` and `is_trailing_utf8_byte` tables,
  `check_code_point` and `copy_code_point`.
- `Escape`: both halves of the escape codec, plus the `strtoul` they
  disagree over.
- `StringWalk`: the two string loops, abstracted over what one iteration
  reads, and their agreement theorem.
- `JsonString`: the two string passes on real bytes.
- `Lexer`: `next_lexeme`.
- `ObjectStore`: `struct jsonObject` and its operations.
- `ArrayStore`: `struct jsonArray` and its operations.
- `Parser`: the three parse functions and the `Valid` invariant of the
  values they build.

The main results are these:

- **Two-pass agreement** (`JsonString.TwoPass`). A body the lexer
  measured materializes into exactly the measured number of bytes, ending
  in NUL. So the `assert(out == end)` of `unescape_string` cannot fire.
  The only failure is a `\u` escape that `strtoul` reads but
  `unescape_code_point` refuses, and the result holds exactly when no
  such escape is visited.
- **The hash table is a map.** `AddPair`, `Grow`, `Get` and `ForEach`
  are specified against `Contents`, the key-to-value map the slots hold.
  A duplicate key keeps its first value. Growth preserves the map and
  doubles the capacity. A lookup after an insertion finds the inserted
  pair.
- **The parser builds only valid values** (`Parser.Valid`). Objects are
  well-formed tables that keep an empty slot, with keys free of NUL
  bytes. Arrays fit their blocks. The parser fails on every grammar
  violation its loops check.
- **The parser's loops follow the text.** `Parser.ElementsStep` and
  `Parser.MembersStep` state one turn of each loop: the value read is
  appended, or the member read is added, and the loop goes on after it.
  `ElementsAfter` and `MembersAfter` state how a turn ends: on `]` or `}`
  the result is unchanged, and on `,` the next turn starts. Chained
  together, these make every element and every member reachable, and
  nothing else is added. `[1,2]` (`Parser.PairParses`) and
  `{"a":1,"b":2}` (`Parser.EveryMemberFound`) are worked through.

## Model

| member | source | states |
|---|---|---|
| Utf8.BytesLeft | parser.c:32-49 | the table gives -1 to 5 continuation bytes: 0 exactly below 0xC0, -1 exactly for 0xFE and 0xFF, and otherwise the count the lead byte's run of high one bits announces, one less than the run's length |
| Utf8.IsTrailing | parser.c:51-68 | the table marks exactly the bytes whose two high bits are 10 |
| Utf8.CheckCodePoint | parser.c:218-228 | 0 exactly when the lead byte cannot lead or one of its announced continuation bytes is not 10xxxxxx; otherwise 1 plus the announced count, staying inside the text |
| Utf8.CopyCodePoint | parser.c:117-128 | copying succeeds exactly when `check_code_point` accepts the same position, and yields the bytes of that code point |
| Utf8.TablesAcceptIllFormed | parser.c:32-68 | the tables accept a lone continuation byte, a five-byte lead, an overlong form and an encoded surrogate, all of which RFC 3629 forbids |
| Bytes.HexValue | parser.c:70-87 | `ctoh` gives a value below 16, 0 for a byte that is not a hex digit, and for a hex digit the value that digit spells in its case |
| Bytes.HexDigitRoundTrip | parser.c:70-87 | `ctoh` reads every upper- or lower-case spelling of a value below 16 back as that value |
| Escape.CodePointLength | parser.c:90-96 | for a 16-bit value, the length is the shortest UTF-8 form whose lead and continuation bits can carry it; a negative value counts as one byte and a value past 16 bits as three |
| Escape.PutCodePoint | parser.c:100-112 | the encoder writes as many bytes as `get_utf8_code_point_length` predicts, with a lead byte announcing that count and continuation bytes after it |
| Escape.PutDecodeRoundTrip | parser.c:100-112 | decoding what the encoder writes gives back the 16-bit value |
| Escape.PutIsCheckedCodePoint | parser.c:100-112 | `check_code_point` accepts what the encoder writes as a single code point of the written length |
| Escape.ShortEscape | parser.c:142 | exactly the eight letters `\ " / b f n r t` are one-letter escapes; the quote, the backslash and the slash stand for themselves, and the five letters for control characters |
| Escape.MeasureEscape | parser.c:198-214 | an accepted escape occupies at least one byte inside the text and decodes to 1 to 3 bytes |
| Escape.UnescapeCodePoint | parser.c:136-156 | an accepted escape writes 1 to 3 bytes forming one code point by the tables, and consumes bytes inside the text |
| Escape.StrtoulOnFourDigits | parser.c:206-207 | exactly four hex digits make `strtoul` read four bytes, giving their value, not negated |
| Escape.ShortEscapeAgreement | parser.c:202-205 | a one-letter escape is measured as one byte read and one written, and materialized (parser.c:142) as the one byte its letter stands for |
| Escape.HexEscapeAgreement | parser.c:143-151 | on four hex digits followed by a non-digit, both halves consume 5 bytes; measuring reports the encoded length of the value and materializing writes its encoding |
| Escape.MeasureThenMaterialize | parser.c:198-214 | for every escape the measuring half accepts, materializing fails exactly for a `\u` not followed by four hex digits, and otherwise consumes and writes what was measured |
| Escape.UnknownEscapeRefused | parser.c:141-153 | an escape letter outside the eight short ones and `u` is refused by both halves |
| Escape.FifthDigitRefused | parser.c:206-208 | a `\u` with four hex digits followed by a fifth is refused by the measuring half, though materializing alone would accept it |
| Escape.MeasureAcceptsNonDigits | parser.c:206-208 | `\u` followed by a space, `+`, `-` or `0x` passes measuring and fails materializing |
| StringWalk.MeasureWalk | parser.c:234-260 | a successful measuring loop stops just past a closing quote, with a length greater than the count it started from |
| StringWalk.MeasureWalkStep | parser.c:245-257 | a step that reads some bytes hands the measuring loop on past them, adding its count to the length |
| StringWalk.UnescapeWalk | parser.c:162-192 | a successful materializing loop fills the block exactly, ends in NUL and keeps what was written before |
| StringWalk.VisitedInside | parser.c:234-260 | every position a successful measuring loop visits lies before its end and is not a rejection |
| StringWalk.WalkAgreement | parser.c:162-192 | when the per-position steps agree, materializing into the measured length never runs out of room, never runs off the text and never ends with a wrong fill; it succeeds exactly when no visited step refuses an escape |
| StringWalk.WrittenIsCopy | parser.c:182-186 | where every visited step copies its bytes unchanged, what the materializing loop writes is the text from the start up to the closing quote |
| JsonString.MeasureStep | parser.c:238-257 | one measuring iteration closes exactly at a quote and advances inside the text |
| JsonString.UnescapeStep | parser.c:170-186 | one materializing iteration ends exactly at a quote and advances inside the text |
| JsonString.MeasureString | parser.c:234-260 | an accepted body ends with its closing quote inside the text, and its unescaped length counts at least the NUL |
| JsonString.UnescapeString | parser.c:162-192 | a materialized string has the block's length, ends in NUL, and before the NUL holds the bytes each visited step wrote, in order |
| JsonString.StepsAgree | parser.c:176-186 | at every position the two iterations agree, and the materializing one refuses exactly the `\u` escapes not followed by four hex digits |
| JsonString.TwoPass | parser.c:172-175 | a measured body materializes into exactly the measured length ending in NUL, or fails with an escape error, and it fails exactly when a loose `\u` escape is visited |
| JsonString.CopyStep | parser.c:253-257 | a literal code point the measuring loop accepts is measured and copied as the same bytes (parser.c:182-186) |
| JsonString.AsciiCopied | parser.c:253-257 | an ASCII byte other than the quote and the backslash is measured as one byte and copied as itself |
| JsonString.DecodedVerbatim | parser.c:182-186 | along a measured body with no backslash, the bytes written are the body itself |
| JsonString.VerbatimBody | parser.c:162-192 | a measured body with no backslash materializes as itself followed by NUL |
| JsonString.VerbatimNotLoose | parser.c:245-251 | a measured body with no backslash visits no escape, so no `\u` escape in it is refused by one half only |
| JsonString.OneByteBody | parser.c:234-260 | a one-byte ASCII body is measured as two bytes with an unescaped length of two, and materializes as that byte and NUL |
| JsonString.CafeEscapeStep | parser.c:176-181 | the escape `\u00e9` is measured as 6 bytes and 2 output bytes, and materialized as 0xC3 0xA9 |
| JsonString.CafeMeasured | parser.c:234-260 | the body `caf\u00e9"` is measured as 10 bytes with an unescaped length of 6 |
| JsonString.CafeNoLooseEscape | parser.c:206-209 | the only escape of that body has four hex digits, so no visited escape is loose |
| JsonString.CafeDecoded | parser.c:169-188 | the steps over that body write `caf` and then 0xC3 0xA9 |
| JsonString.CafeMaterialized | parser.c:162-192 | the body `caf\u00e9"` materializes into the six bytes `caf`, 0xC3, 0xA9, NUL |
| JsonString.MeasuredByWalk | parser.c:234-260 | a measuring loop that ends from the body's start gives the string's consumed bytes and unescaped length |
| JsonString.ShortEscapeRunStep | parser.c:176-181 | a backslash, an escape letter and a shorter run of one-letter escapes make a run that decodes to the letter's byte followed by the shorter run's bytes |
| JsonString.ShortEscapeRunHead | parser.c:176-181 | a non-empty run of one-letter escapes starts with a backslash and an escape letter, and decodes to that letter's byte followed by the rest of the run |
| JsonString.ShortEscapeStep | parser.c:176-181 | a backslash and an escape letter are measured as two bytes read and one written (parser.c:245-251), and materialized as the byte the letter stands for |
| JsonString.ShortEscapeRunMeasured | parser.c:234-260 | measuring a run of `n` one-letter escapes and the closing quote counts one unescaped byte per escape and one for the NUL, and ends after the quote |
| JsonString.ShortEscapeRunWritten | parser.c:169-188 | the materializing steps over such a run write the bytes its escapes stand for, in order |
| JsonString.ShortEscapeRunNotLoose | parser.c:206-209 | no position of such a run holds a `\u` escape that only one half accepts |
| JsonString.ShortEscapesMaterialized | parser.c:162-192 | a body of `n` one-letter escapes and the closing quote measures as `2n+1` bytes and `n+1` unescaped bytes, and materializes as the bytes the escapes stand for, then NUL |
| JsonString.ControlsMaterialized | parser.c:162-192 | the body `\n\t\\\"\/"` materializes as 0x0A 0x09 0x5C 0x22 0x2F NUL |
| JsonString.BackspaceFeedReturnMaterialized | parser.c:162-192 | the body `\b\f\r"` materializes as 0x08 0x0C 0x0D NUL |
| Bytes.SpaceRun | parser.c:289 | the skipped bytes are all `isspace`, and the byte after them is not |
| Lexer.IsPrefix | parser.c:263-266 | `is_prefix` returns 0 exactly when every letter but the last matches and some byte other than the terminator stands at the last one |
| Lexer.PrefixRestAccepts | parser.c:264-265 | from any letter on, the loop ends on the NUL after the literal exactly when the remaining letters but the last match and the text has not ended at the last one |
| Lexer.Word | parser.c:273-277 | a word lexeme is produced exactly when `is_prefix` accepts it, covering as many bytes as the literal has; otherwise the error is a bad word |
| Lexer.NextLexeme | parser.c:285-317 | end of input is reported exactly when only whitespace is left; a lexeme covers at least one byte inside the text, after whitespace only, and begins after the whitespace, or after the opening quote for a string |
| Lexer.LexemeByFirstByte | parser.c:299-315 | after the whitespace, a quote leads to the string lexeme, `t`, `f` and `n` to the word lexemes, and a byte that can start a number to what `strtod` read, with the outcomes of those cases |
| Lexer.StringLexeme | parser.c:302-309 | a string lexeme begins after the quote, and it carries the length measured for the body and the bytes read up to the closing quote |
| Lexer.NumberLexeme | parser.c:310-315 | a number lexeme is exactly what `strtod` read at that position; an empty read is a bad number |
| Lexer.PunctuationLexed | parser.c:293-298 | a punctuation byte after whitespace is lexed as itself, in one byte |
| Lexer.WordLexed | parser.c:299-301 | a word lexeme is a literal `is_prefix` accepted, read in as many bytes as the literal has |
| Lexer.StringLexed | parser.c:302-309 | a string lexeme is a body `measure_string_lexeme` accepted, read together with its opening quote |
| Lexer.NumberLexed | parser.c:310-315 | a number lexeme is what `strtod` read |
| Lexer.TruxIsTrue | parser.c:263-266 | `trux` lexes as `true`, because the mismatch on the last letter goes unnoticed |
| Lexer.TruexIsTrueThenMore | parser.c:273-277 | `truex` lexes as `true` in four bytes, because nothing checks where a word ends |
| Lexer.TruIsRefused | parser.c:264-265 | `tru` at the end of the text is refused |
| Lexer.TuxeIsRefused | parser.c:263-266 | a mismatch before the last letter is caught |
| Lexer.VerticalTabAndFormFeedSkipped | parser.c:289 | vertical tab and form feed are skipped as whitespace |
| ObjectStore.HashOfCString | parser.c:320-325 | bytes after a NUL do not change the hash |
| ObjectStore.HashExamples | parser.c:320-325 | djb2 starts from 5381 and multiplies by 33 before adding each byte |
| ObjectStore.Hash | parser.c:320-325 | the hash is a `size_t`, below 2^64 |
| ObjectStore.HashAppend | parser.c:320-325 | a byte other than NUL appended to a NUL-free key multiplies the hash by 33 and adds the byte, modulo 2^64 |
| ObjectStore.HashFromStopsAtNul | parser.c:322-324 | the loop stops at the first NUL, so what follows it does not matter |
| ObjectStore.Rehash | parser.c:359-362 | re-adding the old slots in index order into the doubled table gives a well-formed table of the same size and key-to-value map |
| ObjectStore.Probe | parser.c:335-338 | the probe passes only slots holding other keys and stops on the key or on an empty slot |
| ObjectStore.Create | parser.c:370-391 | a new table is well formed, holds nothing and has the requested capacity |
| ObjectStore.Place | parser.c:334-342 | on a table with an empty slot, a present key changes nothing, and an absent key is added to the map and counted |
| ObjectStore.Grow | parser.c:345-365 | growing doubles the capacity and keeps the size and the key-to-value map |
| ObjectStore.AddPair | parser.c:329-343 | growth happens exactly when `3*size >= 2*capacity`; a present key keeps its first value; an absent key is added; a table of capacity 3 or more keeps an empty slot |
| ObjectStore.Get | parser.c:394-404 | lookup returns the key's value when the map holds the key, and nothing otherwise |
| ObjectStore.ForEach | parser.c:420-428 | iteration visits nothing when the size is 0, and otherwise the occupied slots in index order |
| ObjectStore.ForEachVisitsContents | parser.c:420-428 | iteration of a well-formed table visits exactly the map's pairs, `size` of them, each key once |
| ObjectStore.AddPairEntries | parser.c:329-343 | after an insertion, every stored pair is the inserted one or was stored before |
| ObjectStore.AddPairThenGet | parser.c:394-404 | after an insertion, lookup of the key finds its first value, and every other key is looked up as before |
| ArrayStore.CreateVec | parser.c:474-485 | a new array is empty with the requested capacity |
| ArrayStore.Add | parser.c:489-504 | adding appends at index `size` and keeps the earlier values; the capacity doubles exactly when the array was full |
| ArrayStore.AddAllAppends | parser.c:489-504 | a run of additions appends in order; the capacity is the initial one doubled some number of times, and after any growth the block is more than half full |
| ArrayStore.ForEachIndexed | parser.c:519-525 | iteration visits every value with its index, in order |
| Parser.ParseValue | parser.c:557-601 | a parsed value lies inside the text and is valid; it fails on a lexer failure and on `} ] , :`; a success has the kind its first lexeme introduces; a string is refused exactly for a loose `\u` escape and is otherwise the bytes its body decodes to; an object that is not `{}` holds its first member with the value parsed for it |
| Parser.ObjectValue | parser.c:565-570 | the `{` case yields a valid object ending inside the text, holding its first member when it is not `{}` |
| Parser.ObjectDispatched | parser.c:565-570 | a value whose first lexeme is `{` is the object parsed after it |
| Parser.ObjectValueOfObject | parser.c:565-570 | the `{` case succeeds exactly when `json_parse_object` does, with the same object and the `{` counted in |
| Parser.ObjectOfMembers | parser.c:439-448 | an object that is not `{}` succeeds exactly when its member loop does, from the first key into the empty capacity-10 table, and holds the table that loop leaves |
| Parser.ObjectFromMembers | parser.c:565-570 | a value that starts with `{` and is not `{}` succeeds exactly when its member loop does, and is then the object holding the table the loop leaves |

| Parser.ArrayValue | parser.c:571-576 | the `[` case yields a valid array ending inside the text; `[]` gives the capacity-0 array, and otherwise it succeeds exactly when the element loop from the first lexeme does, holding the elements that loop leaves |
| Parser.ArrayDispatched | parser.c:571-576 | a value whose first lexeme is `[` is the array parsed after it |

| Parser.Materialize | parser.c:590-591 | a string block is accepted exactly when `unescape_string` succeeds, and is then the decoded body followed by NUL |
| Parser.ParseObject | parser.c:433-469 | `}` first gives the capacity-0 object; otherwise a success is a valid object of capacity at least 10 that holds its first member: the key's name maps to the value parsed after the colon |
| Parser.ParseMembers | parser.c:446-461 | a non-string key or a missing colon fails; a success keeps the table well formed with an empty slot, keeps every earlier key's value, keeps keys NUL-free and values valid, and holds the member just read: its name maps to the value parsed after the colon, or to the earlier value of that name |
| Parser.MemberHead | parser.c:447-453 | a member is read exactly when the key is a string that materializes, a colon follows and a value parses after it; the member's name is the key's C string, its value is that value, and it ends after the value |
| Parser.MemberHeadThenAdded | parser.c:447-454 | once a member is read, the turn of the loop goes on by adding it |
| Parser.MemberAdded | parser.c:454-460 | after adding the member, the rest of the loop leaves a well-formed table where the member's name maps to its value, or to the name's earlier value |
| Parser.MemberAddedIsAdded | parser.c:454-460 | adding the member and going on is the rest of the turn on the table with the member added |
| Parser.MembersStep | parser.c:446-460 | one turn of the loop: once a member is read, the result is the rest of the turn, from the end of the value, on the table with the member added |
| Parser.AddedThenKept | parser.c:454-460 | a member added and then kept by the rest of the loop is found in the final table with its own value, or with its name's earlier value |
| Parser.MembersAfter | parser.c:455-460 | after a member, `}` ends the object with the table unchanged, anything but `}` or `,` fails, and `,` goes on to the next member |
| Parser.NextMember | parser.c:446-460 | after a `,`, the next lexeme is taken as the next key, so anything but a string fails |
| Parser.Added | parser.c:454 | adding a parsed member keeps the table well formed with an empty slot; a duplicate name leaves the map unchanged, and a new name extends it |
| Parser.ParseArray | parser.c:528-554 | `]` first gives the capacity-0 array; otherwise it succeeds exactly when the element loop from the first lexeme does, into an empty capacity-4 array, and holds the elements that loop leaves, the first being the value parsed right after the `[` |
| Parser.ParseElements | parser.c:540-548 | a success extends the array, with the value parsed at the position as its next element, and keeps the values valid |
| Parser.ElementsAfter | parser.c:543-547 | after an element, `]` ends the array unchanged, `,` goes on to the next element, anything else fails, and a trailing `,` before `]` fails |
| Parser.ElementAdded | parser.c:543-547 | after appending, the rest of the loop keeps the earlier elements and the array fits its block |
| Parser.ElementAddedIsAfter | parser.c:543-547 | appending and going on is the rest of the turn |
| Parser.ValueThenAdded | parser.c:540-545 | once the value is parsed, the turn of the loop goes on by appending it |
| Parser.ElementsStep | parser.c:540-548 | one turn of the loop: the value at the position is appended, and the rest of the turn goes on after it |

| Parser.MaterializeMeasured | parser.c:588-591 | a measured string lexeme materializes into exactly the measured number of bytes, unless it has a loose `\u` escape |
| Parser.FirstMemberFound | parser.c:446-454 | in a parsed object that is not `{}`, looking up the first member's name gives the value parsed after its colon, whatever later members repeat that name |
| Parser.QuotedByteLexed | parser.c:302-309 | a quote, one ASCII byte other than a quote or backslash, and a closing quote lex as a three-byte string lexeme whose block holds two bytes |
| Parser.FirstOfTwiceWins | parser.c:446-461 | `{"a":1,"a":2}` parses into an object in which looking up `a` gives 1, the first value, and every other name is absent |
| Parser.EveryMemberFound | parser.c:446-461 | `{"a":1,"b":2}` parses into an object in which `a` gives 1, `b` gives 2, and every other name is absent |
| Parser.TwoMembersParsed | parser.c:446-461 | the member loop over `{"a":1,"<b>":2}` leaves the capacity-10 table with `a` and then `b` added, and ends after the closing brace |
| Parser.TwoParsed | parser.c:557-570 | `{"a":1,"<b>":2}` parses, in all 13 bytes, into the object holding that table |
| Parser.TwoTable | parser.c:454 | that table holds exactly `a` with 1, and `b` with 2 when `b` is another name |
| Parser.TwoLookups | parser.c:394-404 | in that table with two names, looking up each name gives its value and any other name is absent |
| Parser.NumberParsed | parser.c:595-597 | a number lexeme is a value by itself, of the number `strtod` read |
| Parser.PairParses | parser.c:528-554 | `[1,2]` parses, in all 5 bytes, into an array whose items are exactly the two numbers, in order |
| Parser.PairElements | parser.c:540-548 | the element loop over `[1,2]` appends the two numbers in order and ends after the `]` |


## Behaviour kept from the code

The model follows `parser.c` wherever it departs from RFC 8259 or from
the project's own description:

- `is_prefix` misses a mismatch on a word's last letter, so `trux`
  is `true`.
- Nothing checks what follows a word, so `truex` is `true` followed by
  more text.
- `isspace` also skips vertical tab and form feed.
- Raw control bytes below 0x20 are accepted inside strings.
- The measuring half reads `\u` digits with `strtoul`. So it accepts
  leading space, a sign or `0x`, which the materializing half then
  refuses. It also refuses a `\u` escape followed by a fifth hex digit.
- A duplicate object key is neither rejected nor stored. The first value
  stays, and the document still parses.
- A non-empty object starts with capacity 10 (`json_object_create(10)`).
  The `OBJECT_INITIAL_CAPACITY` macro, defined as 8, is never used.
- The object table grows *before* inserting, whenever
  `3*size >= 2*capacity`.
- Numbers are whatever `strtod` reads. So a leading `+`, `inf`, `NAN`
  and hexadecimal floats such as `0x1p3` are accepted, all of which
  section 6 of RFC 8259 forbids. The model takes `strtod` as a
  parameter, so it keeps this behaviour without restating it.

## Left out

- Allocation: `json_malloc` and `json_free` are taken to always succeed.
  Freeing, the leaks on failure paths and the single keys-and-values
  block are not modelled.
- `json_value_free`, `json_object_free` and `json_array_free` only
  release memory, so they have no counterpart.
- `strtod`: it is a parameter. An answer that would run past the text is
  taken as a failure, which the real `strtod` never produces. Floating
  point is otherwise opaque (`Double` is a bit pattern).
- Locale: `isspace` and `isxdigit` are those of the C locale.
- The callbacks of `json_object_for_each` and `json_array_for_each`: the
  model returns the sequence of arguments they would be called with, and
  `user_data` is dropped.
- Unterminated strings: in C, `measure_string_lexeme` takes the
  terminating NUL as a one-byte code point and reads past the buffer. The
  model stops at the end of the text and fails.
- Recursion depth and stack exhaustion are not modelled.
- The `assert(out == end)` of `unescape_string` and the `assert`s of
  `json_object_grow` and `json_array_add` become preconditions or the
  error `LengthMismatch`. No abort is modelled.
- `parser.h` is not part of this model. The field layout of
  `struct jsonValue` and `struct LexemeData` is replaced by datatypes.
- Utf8.CopyCodePoint: does not model the `end - out` room check, because
  the caller's loop `StringWalk.UnescapeWalk` makes the same check with
  the same outcome.
- Escape.UnescapeCodePoint: does not model the `end - out` room check,
  for the same reason.
- ObjectStore.AddPair: does not return the constant 0 that
  `json_object_add_pair` returns; only the table is modelled.
- ObjectStore.Get: requires a non-zero capacity and an empty slot. A
  lookup on the capacity-0 object divides by zero in C. On a full table,
  a present key is still found, but the probe for an absent key never
  stops.
- ObjectStore.AddPairThenGet: is stated for capacity 3 or more. After an
  insertion, only such tables are guaranteed an empty slot, and the
  parser only builds such tables.
