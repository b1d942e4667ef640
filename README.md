# pipemd: the configuration lexer and the `render_pipeline` record parser

pipemd keeps render-pipeline settings in a small record written inside
shader sources:

    #render_pipeline(name: "Textured", vs_entry: "vs_main", fs_entry: "fs_main",)

This project models the two files that read such a record:

- code_gen/src/lex.rs, the tokenizer:
  - `SpannedStr`, a borrowed view of a string with a byte span;
  - the longest-prefix scanner `lex`;
  - the one-token classifier `lex_token`;
  - `TokenStream`, which lexes the whole input up front and then hands out
    the tokens through a forward-only cursor.
- code_gen/src/config.rs, the parser: `expect_token` and
  `RenderPipelineConfig::parse`, with its closures `parse_ident`,
  `parse_field` and `parse_struct`. They fill the three slots `name`,
  `vs_entry` and `fs_entry`.

The model is written in the same form as the source:

- Code that only computes is written as functions: the `SpannedStr`
  methods, `lex` and `lex_token`.
- The source's loops are written as methods with loop invariants:
  - `skip` and `lex` (`SkipIter`, `LexIter`);
  - the token loop of `TokenStream::new`;
  - the `while let` loop of `parse_struct` (`ParseMoreFields`).
- Whatever updates state in place is a class:
  - `TokenStream` is a class with a mutable `index`;
  - the three `Option` locals of `parse`, which `parse_field` writes through
    a `&mut`, are the class `Slots`.

Each operation is proved against a reference function:

- `lex_token` agrees with `Classify`, which works on code points rather than
  byte spans. `TokenStream::new` agrees with `Scan`, except on empty or
  all-whitespace input: there `new` reports `EndOfInput` (its first
  `lex_token` call fails) where `Scan` gives no tokens.
- The parser methods follow the functions `ExpectAt`, `IdentAt`, `FieldAt`,
  `FieldsFrom`, `BodyAt`, `StructAt` and `ParseTokens`, which work on token
  positions.
- `Parse` equals `ParseSource`.

On top of these the lemmas state:

- what each `SpannedStr` operation reads, and that `lex` is maximal;
- what `lex_token` gives for each shape of input;
- that a token list written out with whitespace between its tokens lexes
  back to the same tokens;
- that every token `lex_token` reads is printable and lexes back from its
  own text, which closes the round trip in the other direction;
- the exact set of token lists that `parse` accepts, and the slots it then
  fills, with the last write to a slot winning;
- every error `parse` reports, with the token it names;
- the unit tests of config.rs, stated for every whitespace layout.

Strings are sequences of Unicode scalar values. Byte offsets are offsets
into their UTF-8 encoding, as defined in section 3 of RFC 3629. Rust panics
when a `&str` is sliced off a code-point boundary, so the operations that
slice carry a `requires` saying the span is on boundaries (`Sliceable`).
`char::is_whitespace` is written out as the 25 White_Space code points.
`char::is_alphabetic` and `char::is_numeric` are a parameter
(`UnicodeProps`). The predicate `Coherent` constrains it to what the real
tables satisfy: exact on ASCII, and no whitespace character is alphabetic
or numeric.

Files:

| file | module | contents |
|---|---|---|
| wrappers.dfy | Wrappers | `Option`, `Result` |
| chars.dfy | Chars | character classes, `UnicodeProps` |
| utf8.dfy | Utf8 | UTF-8 widths, byte offsets, code-point boundaries |
| lexer.dfy | Lexer | `SpannedStr`, `lex`, `lex_token`, `TokenStream`, and the code-point reference `Classify` |
| lexer_facts.dfy | LexerFacts | properties of the `SpannedStr` operations and of `lex_token` |
| tokenize_facts.dfy | TokenizeFacts | `TokenStream::new` as a scan, and the round trip from laid-out tokens |
| config.dfy | Config | the parser: reference functions, `Slots`, the methods |
| config_facts.dfy | ConfigFacts | what `parse` accepts and what it reports, on token lists |
| config_source.dfy | ConfigSource | `parse` on source text, and the unit-test examples |

## Model

| member | source | states |
|---|---|---|
| Chars.AsciiProps | code_gen/src/lex.rs:162-163 | the ASCII character tables are one coherent instance of what `is_alphabetic` and `is_alphanumeric` consult |
| Utf8.Width | code_gen/src/lex.rs:103-106 | every code point takes 1 to 4 bytes of UTF-8 |
| Utf8.EncodeChar | code_gen/src/lex.rs:75-81 | the UTF-8 encoding of a code point has the width's length, a first byte that is not a continuation byte, and continuation bytes after it |
| Utf8.Encode | code_gen/src/lex.rs:84 | the encoding of a string is as long as its byte length, the `src.len()` of the source |
| Utf8.OffsetStrict | code_gen/src/lex.rs:103-106 | byte offsets of code points strictly increase with the index |
| Utf8.CodePointIndexOfOffset | code_gen/src/lex.rs:103-106 | the byte offset of every code point, and of the end, maps back to that code point's index |
| Utf8.CharBoundaryByBytes | code_gen/src/lex.rs:79 | a byte position is a code-point boundary exactly when it is 0, the length, or the position of a byte that is not a continuation byte, which is the test behind Rust's slicing panic |
| Lexer.SpannedStr.Remaining | code_gen/src/lex.rs:83-93 | the view after the span can itself be sliced when the span ends on a boundary |
| Lexer.SpannedStr.Skip | code_gen/src/lex.rs:99-115 | the view after skipping can be sliced |
| Lexer.From | code_gen/src/lex.rs:118-122 | the view of a whole string reads exactly that string |
| Lexer.SkipIter | code_gen/src/lex.rs:99-115 | the `char_indices().take(n + 1)` loop of `skip` returns what `Skip` specifies |
| Lexer.RunLength | code_gen/src/lex.rs:134-155 | the longest prefix whose code points all satisfy the matcher: every code point before the count passes, and the next one fails or the input ends |
| Lexer.Lex | code_gen/src/lex.rs:134-155 | `lex` returns a view starting at byte 0 of the same source that can be sliced and ends on a code-point boundary |
| Lexer.LexIter | code_gen/src/lex.rs:134-155 | the loop of `lex` returns the span `Lex` specifies |
| Lexer.LexSubstring | code_gen/src/lex.rs:134-155 | the text `lex` returns is the longest prefix the matcher accepts |
| Lexer.LexRemaining | code_gen/src/lex.rs:83-93 | after `lex`, `remaining` is the view of the rest of the input, or none when the prefix is all of it |
| Lexer.SkipReads | code_gen/src/lex.rs:99-115 | skipping `n` code points of a view that reads `a` succeeds exactly when `a` is longer than `n`, and then reads `a` from code point `n` on |
| Lexer.TokenAtIdent | code_gen/src/lex.rs:162-165 | unfolding step: an identifier start gives an identifier token of the alphanumeric-or-underscore prefix, followed by the view after it |
| Lexer.TokenAtPunctuation | code_gen/src/lex.rs:166-170 | unfolding step: each of `# ( ) , :` gives its token and the view one code point further |
| Lexer.TokenAtQuote | code_gen/src/lex.rs:171-182 | unfolding step: a quote goes to the string-literal arm |
| Lexer.TokenAtInvalid | code_gen/src/lex.rs:183 | unfolding step: any other first character gives `InvalidChar` with that character |
| Lexer.StringBodyAgrees | code_gen/src/lex.rs:172-181 | the string arm reads up to the next quote or newline, and fails with `NonterminatedString` unless a quote comes first |
| Lexer.TokenAgrees | code_gen/src/lex.rs:161-184 | on a view reading non-empty text, the arm of `lex_token` and the code-point classification give the same token and the same remainder |
| Lexer.LexTokenUnfold | code_gen/src/lex.rs:157-161 | `lex_token` skips the leading whitespace; it gives `EndOfInput` when only whitespace remains, and otherwise classifies the first code point after it |
| Lexer.LexTokenClassifies | code_gen/src/lex.rs:157-185 | `lex_token` agrees with `Classify`: the same token or error, and a remainder that reads what follows the token |
| Lexer.ClassifyTokenProgress | code_gen/src/lex.rs:161-184 | every token that is read consumes at least one code point |
| Lexer.LexTokenProgress | code_gen/src/lex.rs:157-185 | the remainder after a token can be sliced and is strictly shorter than the input, so the loop of `TokenStream::new` terminates |
| Lexer.LexRestOk | code_gen/src/lex.rs:24-31 | unfolding step: one turn of the loop of `new` adds the token it lexed to the front of what the rest of the loop collects |
| Lexer.TokenStream.FromTokens | code_gen/src/lex.rs:32 | a fresh stream holds the given tokens with its cursor at 0 |
| Lexer.TokenStream.New | code_gen/src/lex.rs:20-33 | `new` fails exactly when `Tokenize` fails, with the same error; otherwise it holds every token of `Tokenize` with the cursor at 0 |
| Lexer.TokenStream.Peek | code_gen/src/lex.rs:35-41 | `peek` returns none exactly when no token is left, and otherwise the first token left |
| Lexer.TokenStream.Next | code_gen/src/lex.rs:43-49 | `next` returns what `peek` would have returned and moves the cursor by one exactly when that was a token; the tokens left lose their first |
| LexerFacts.SubstringIsSpan | code_gen/src/lex.rs:75-81 | `substring` is exactly the code points whose first byte lies in `[start, end)`, and empty when start is not before end |
| LexerFacts.CodePointsInRange | code_gen/src/lex.rs:79 | the code points between two boundary offsets are the slice between their indices |
| LexerFacts.RemainingSpan | code_gen/src/lex.rs:83-93 | `remaining` is none exactly when the end is at or past `src.len()`; otherwise it runs from the end to `src.len()` and reads the text after the span |
| LexerFacts.FirstCharOfSubstring | code_gen/src/lex.rs:95-97 | `first_char` is none exactly on an empty substring, and otherwise its first code point |
| LexerFacts.FirstCharAt | code_gen/src/lex.rs:95-97 | the first code point is the source's code point at the start offset |
| LexerFacts.NoBoundaryInside | code_gen/src/lex.rs:79 | no byte inside a code point's encoding is a boundary |
| LexerFacts.FirstCharWidth | code_gen/src/lex.rs:95-97 | one code-point width past the start is a boundary, and nothing in between is |
| LexerFacts.SkipSpan | code_gen/src/lex.rs:99-115 | `skip(n)` succeeds exactly when the substring has more than `n` code points; it then starts at the byte offset of code point `n` and ends at `src.len()` |
| LexerFacts.SkipText | code_gen/src/lex.rs:99-115 | after `skip(n)` the view reads the source from code point `n` of the span on |
| LexerFacts.SkipEmpty | code_gen/src/lex.rs:110-112 | skipping in an empty view always gives none |
| LexerFacts.ReadsUnique | code_gen/src/lex.rs:83-115 | two views of one source that reach its end and read the same non-empty text are the same view |
| LexerFacts.SkipCompose | code_gen/src/lex.rs:99-115 | on a view reaching the end of its source, skipping `m` and then `n` is skipping `m + n` |
| LexerFacts.SkipComposeShortView | code_gen/src/lex.rs:114 | on a view ending before its source does, composing skips can differ from one long skip, because `skip` moves the end to `src.len()` |
| LexerFacts.LexMaximal | code_gen/src/lex.rs:134-155 | `lex` reads the longest prefix whose code points all pass the matcher at their indices, and ends at that prefix's byte offset |
| LexerFacts.RunLengthIs | code_gen/src/lex.rs:141-152 | any count up to which the matcher passes and at which it fails is the run length |
| LexerFacts.LexTokenEndOfInput | code_gen/src/lex.rs:158-161 | `lex_token` reports `EndOfInput` exactly on input that is empty or all whitespace |
| LexerFacts.ClassifyTokenNotEnd | code_gen/src/lex.rs:161-184 | once a character is found, no arm reports `EndOfInput` |
| LexerFacts.SkipsWhitespace | code_gen/src/lex.rs:158 | the whitespace scan of `lex_token` stops at the first non-whitespace code point |
| LexerFacts.LexTokenInvalidChar | code_gen/src/lex.rs:183 | after any whitespace, a character that starts no token is reported as `InvalidChar` with that character |
| LexerFacts.ClassifyAfterWhitespace | code_gen/src/lex.rs:157-161 | the classification after leading whitespace is that of the token text, shifted by the whitespace |
| LexerFacts.LexTokenIs | code_gen/src/lex.rs:157-185 | a classification of `n` code points means that `lex_token` gives that token and a remainder reading the input from `n` on |
| LexerFacts.LexTokenIdent | code_gen/src/lex.rs:162-165 | after whitespace, an identifier followed by a character that cannot continue it lexes as that identifier, with the rest after it |
| LexerFacts.IdentToken | code_gen/src/lex.rs:162-165 | an identifier is classified as exactly its maximal identifier prefix |
| LexerFacts.LexTokenPunctuation | code_gen/src/lex.rs:166-170 | after whitespace, each punctuation character lexes as its token, with the rest after it |
| LexerFacts.QuotedToken | code_gen/src/lex.rs:171-182 | a quoted body without quote or newline is classified as the string token of the body, spanning the two quotes |
| LexerFacts.LexTokenString | code_gen/src/lex.rs:171-182 | after whitespace, a quoted body lexes as the string token of the body, with the text after the closing quote |
| LexerFacts.LexTokenUnterminated | code_gen/src/lex.rs:172-179 | a quote whose body runs into the end of input or a newline gives `NonterminatedString` |
| LexerFacts.UnterminatedToken | code_gen/src/lex.rs:172-179 | a quote with no closing quote before a newline or the end classifies as `NonterminatedString` |
| TokenizeFacts.ClassifyBounds | code_gen/src/lex.rs:157-185 | a token that is read spans at least one and at most all code points of the input |
| TokenizeFacts.ScanNeverEndOfInput | code_gen/src/lex.rs:24-31 | the scan after the first token never fails with `EndOfInput`, which ends the loop cleanly |
| TokenizeFacts.LexRestScans | code_gen/src/lex.rs:24-31 | the loop of `new` over the remainder collects exactly the scan of the remainder's text |
| TokenizeFacts.TokenizeScans | code_gen/src/lex.rs:20-33 | `new` reports `EndOfInput` on empty or all-whitespace input and otherwise collects the scan of the whole input |
| TokenizeFacts.LexRestNeverEndOfInput | code_gen/src/lex.rs:26 | the loop never passes `EndOfInput` on |
| TokenizeFacts.TokenizeEndOfInput | code_gen/src/lex.rs:20-33 | `new` fails with `EndOfInput` exactly on empty or all-whitespace input |
| TokenizeFacts.ClassifyPastWhitespace | code_gen/src/lex.rs:158-159 | whitespace in front of the input shifts the token read by its length and changes nothing else |
| TokenizeFacts.ScanAfterWhitespace | code_gen/src/lex.rs:24-31 | whitespace in front of the input does not change the tokens collected |
| TokenizeFacts.ScanFails | code_gen/src/lex.rs:25-27 | when the next classification fails, the scan ends cleanly on `EndOfInput` and with that error otherwise |
| TokenizeFacts.TextStart | code_gen/src/lex.rs:158-161 | the text of a printable token starts with a code point that is not whitespace |
| TokenizeFacts.ClassifyIdentText | code_gen/src/lex.rs:162-165 | an identifier's text, followed by a character that cannot continue it, reads back as that identifier |
| TokenizeFacts.ClassifyStringText | code_gen/src/lex.rs:171-182 | a quoted literal body reads back as its string token |
| TokenizeFacts.ClassifyPunctuationText | code_gen/src/lex.rs:166-170 | a punctuation character reads back as its token |
| TokenizeFacts.PunctuationText | code_gen/src/lex.rs:166-170 | the text of each punctuation token is one character that selects that token |
| TokenizeFacts.ClassifyText | code_gen/src/lex.rs:161-184 | every printable token's text reads back as the token, spanning exactly the text |
| TokenizeFacts.ClassifyTokenPrintable | code_gen/src/lex.rs:161-184 | the token each arm of the match reads is printable, and the code points it spans are its text |
| TokenizeFacts.ClassifyPrintable | code_gen/src/lex.rs:157-185 | every token `lex_token` reads is printable, and the code points it consumed after the whitespace are exactly the token's text |
| TokenizeFacts.ClassifyRoundTrip | code_gen/src/lex.rs:157-185 | re-lexing the text a token was read from, on its own, gives back the same token spanning all of that text |
| TokenizeFacts.ScanStep | code_gen/src/lex.rs:24-31 | a classified token is followed by the scan of what follows it |
| TokenizeFacts.ScanText | code_gen/src/lex.rs:24-31 | a printable token's text in front of some input adds that token in front of the input's tokens |
| TokenizeFacts.ReadableTail | code_gen/src/lex.rs:20-33 | dropping the first token and gap of a readable layout leaves a readable layout |
| TokenizeFacts.LayoutStart | code_gen/src/lex.rs:158-161 | a readable layout is empty, starts with whitespace, or starts with its first token's text |
| TokenizeFacts.TextNotIdentChar | code_gen/src/lex.rs:163 | the text of a token that is not an identifier starts with a character that cannot continue one |
| TokenizeFacts.LayoutAfterFirst | code_gen/src/lex.rs:163 | what follows an identifier in a readable layout cannot continue the identifier |
| TokenizeFacts.ScanLayout | code_gen/src/lex.rs:20-33 | a readable layout scans back to exactly its tokens |
| TokenizeFacts.ScanLayoutStep | code_gen/src/lex.rs:24-31 | the scan of a readable layout is its first token followed by the scan of the rest |
| TokenizeFacts.ScanAllWhitespace | code_gen/src/lex.rs:26 | whitespace alone scans to no tokens |
| TokenizeFacts.LayoutNotBlank | code_gen/src/lex.rs:22 | a layout of at least one token is not all whitespace |
| TokenizeFacts.TokenizeLayout | code_gen/src/lex.rs:322-388 | `TokenStream::new` on a readable layout returns exactly its tokens, and on a layout of no tokens reports `EndOfInput`; the peek, next and multi-line stream tests are instances |
| Config.FieldNamedMeans | code_gen/src/config.rs:79-84 | a field name selects the slot of that name, and a name that is no slot's selects none, so it is reported as `UnexpectedField` |
| Config.FieldAt | code_gen/src/config.rs:74-100 | a field that is read spans exactly three tokens of the list |
| Config.FieldsFromClose | code_gen/src/config.rs:108-112 | unfolding step: a comma followed by `)` ends the loop with the cursor on the `)` and no slot changed |
| Config.FieldsFromField | code_gen/src/config.rs:108-114 | unfolding step: a comma not followed by `)` makes the loop parse one field; its error ends the loop, and otherwise the loop continues after the field |
| Config.Slots.constructor | code_gen/src/config.rs:59-61 | the three slots start empty |
| Config.Slots.Store | code_gen/src/config.rs:88-97 | storing sets the selected slot and leaves the other two alone |
| Config.ExpectToken | code_gen/src/config.rs:22-36 | the next token is consumed whenever there is one; the result is ok exactly when it is the expected token, `UnexpectedToken` with what was found otherwise, and `EndOfInput` when none is left |
| Config.ParseIdent | code_gen/src/config.rs:63-72 | the next token is consumed; an identifier gives its text, another token `UnexpectedToken` against `Ident("ident_name")`, and no token `EndOfInput` |
| Config.ParseField | code_gen/src/config.rs:74-100 | the closure follows `FieldAt`: name, known field, colon, string, each with its error, and the slot is written only when the whole field was read |
| Config.ParseStruct | code_gen/src/config.rs:102-120 | the closure follows `StructAt`: `(`, the fields only when an identifier comes first, and `)` |
| Config.ParseMoreFields | code_gen/src/config.rs:108-114 | the `while let` loop follows `FieldsFrom`, including the `break` before a `)` after a comma |
| Config.Parse | code_gen/src/config.rs:53-139 | `parse` returns exactly `ParseSource`: a lexer error as `Lex`, and otherwise the result of parsing the tokens |
| Config.ParseStream | code_gen/src/config.rs:56-138 | after the lexer, the method returns what `ParseTokens` specifies: header, struct, no token after it, every slot filled |
| ConfigFacts.SlotAssign | code_gen/src/config.rs:79-97 | a write through the selected `&mut` changes that slot only |
| ConfigFacts.AssignAllSnoc | code_gen/src/config.rs:108-114 | storing one more field after a run of fields is one more write |
| ConfigFacts.AssignAllSlot | code_gen/src/config.rs:88-97 | after a run of fields, each slot holds the value of the last field naming it, or what it held before if no field names it |
| ConfigFacts.FinalizeFilled | code_gen/src/config.rs:128-138 | the configuration is built exactly when all three slots are filled, from their values; otherwise the first empty slot in the order name, vs_entry, fs_entry is reported |
| ConfigFacts.FieldNamedName | code_gen/src/config.rs:79-82 | each slot's name selects that slot |
| ConfigFacts.MoreTokensAt | code_gen/src/config.rs:108-114 | fields written out after a comma are found by the loop at the positions it looks at |
| ConfigFacts.MoreAtTokens | code_gen/src/config.rs:108-114 | what the loop finds at those positions is the written-out fields |
| ConfigFacts.ReadSoFarPositions | code_gen/src/config.rs:102-114 | the opening and fields written out are found at the cursor positions the parser visits |
| ConfigFacts.FieldAtIndex | code_gen/src/config.rs:74-100 | a written-out field is read in three tokens and stored in its slot |
| ConfigFacts.FieldsFromStep | code_gen/src/config.rs:108-114 | one turn of the loop over a comma and a field stores the field and moves four tokens on |
| ConfigFacts.FieldsFromMore | code_gen/src/config.rs:108-114 | the loop over a run of comma-separated fields stores them all in order |
| ConfigFacts.FieldsFromEnd | code_gen/src/config.rs:108-112 | the loop stops before `)`, or on the `)` after a trailing comma, with no slot changed |
| ConfigFacts.BodyThroughFields | code_gen/src/config.rs:105-114 | the first field and the loop store every field of the record |
| ConfigFacts.ParseThroughFields | code_gen/src/config.rs:53-139 | a record's fields are all stored before the loop looks past them |
| ConfigFacts.ParseClose | code_gen/src/config.rs:53-139 | a record, with or without a trailing comma, followed by more tokens reports `ExpectedEndOfInput` on the first of them, and alone gives the slots its fields fill |
| ConfigFacts.ClosingFields | code_gen/src/config.rs:102-117 | the fields of a written-out record end on its `)` with every field stored |
| ConfigFacts.ClosedAt | code_gen/src/config.rs:117-138 | after the `)`, a further token is `ExpectedEndOfInput`, and otherwise the slots are checked |
| ConfigFacts.ParseRecord | code_gen/src/config.rs:53-139 | `parse` on a record's tokens gives what its fields store, taken in order |
| ConfigFacts.FieldAtShape | code_gen/src/config.rs:74-100 | a field that is read is exactly a slot name, a colon and a string |
| ConfigFacts.FieldsFromShape | code_gen/src/config.rs:108-114 | when the loop succeeds, it has read a run of comma-separated fields, stored them in order, and then stopped or taken a trailing comma before `)` |
| ConfigFacts.FieldsFromShapeField | code_gen/src/config.rs:108-114 | the same, when the loop starts on a comma followed by a field |
| ConfigFacts.MoreCons | code_gen/src/config.rs:108-114 | a comma and a field in front of a run of fields make a longer run that stores the first field first |
| ConfigFacts.RecordOfParse | code_gen/src/config.rs:53-139 | every token list `parse` accepts is a record, with or without a trailing comma, and is parsed to what its fields store; with ParseRecord this is exactly the accepted language |
| ConfigFacts.AcceptedEnd | code_gen/src/config.rs:117-126 | in accepted input the `)` is the last token |
| ConfigFacts.RecordShape | code_gen/src/config.rs:102-126 | a token list that has a record's opening, fields, optional trailing comma and `)` as its last token is that record |
| ConfigFacts.ParseOpening | code_gen/src/config.rs:56-103 | input that breaks off in `# render_pipeline (` reports `EndOfInput`, and any other token where one of those is expected reports `UnexpectedToken` against it |
| ConfigFacts.ParseAtField | code_gen/src/config.rs:105-113 | an identifier where a field may start is read as a field, and that field's error is `parse`'s error |
| ConfigFacts.UnknownField | code_gen/src/config.rs:83 | a field whose name selects no slot reports `UnexpectedField` with that name |
| ConfigFacts.MissingColon | code_gen/src/config.rs:86 | a known name followed by a token other than a colon reports `UnexpectedToken` against `Colon` |
| ConfigFacts.MissingString | code_gen/src/config.rs:88-95 | a name and a colon followed by a token that is not a string report `UnexpectedToken` against `String("Some String")` |
| ConfigFacts.FieldCutShort | code_gen/src/config.rs:86-96 | input that ends after a field's name or colon reports `EndOfInput` |
| ConfigFacts.NotAField | code_gen/src/config.rs:105-117 | after `(` a token other than an identifier or `)` reports `UnexpectedToken` against `)`; after a comma it is read as a field and reported against `Ident("ident_name")` |
| ConfigFacts.CommaAtEnd | code_gen/src/config.rs:108-113 | input that ends after a comma reports `EndOfInput` |
| ConfigFacts.MissingComma | code_gen/src/config.rs:108-117 | after a field, a token other than a comma or `)` reports `UnexpectedToken` against `)` |
| ConfigFacts.Unclosed | code_gen/src/config.rs:117 | input that ends after the fields reports `EndOfInput` |
| ConfigSource.PieceJoin | code_gen/src/lex.rs:157-185 | token lists that are printable and never put two identifiers side by side can be joined and stay so |
| ConfigSource.NamesPrintable | code_gen/src/config.rs:57-82 | the header and the three field names are identifiers in every coherent table |
| ConfigSource.MorePiece | code_gen/src/config.rs:108-114 | the fields after the first, with quotable values, are printable and separated |
| ConfigSource.RecordPiece | code_gen/src/config.rs:53-139 | a whole record with quotable values is printable and separated |
| ConfigSource.RecordReadable | code_gen/src/lex.rs:20-33 | a record with quotable values, laid out with any whitespace gaps, is a layout the lexer reads back |
| ConfigSource.ParseLayout | code_gen/src/config.rs:53-139 | a record written with any whitespace around its tokens parses to the slots its fields fill, taken in order |
| ConfigSource.FieldsFromNotLex | code_gen/src/config.rs:108-114 | the loop of `parse_struct` never reports a lexer error |
| ConfigSource.ParseTokensNotLex | code_gen/src/config.rs:56-138 | parsing tokens never reports a lexer error |
| ConfigSource.ParseSourceLex | code_gen/src/config.rs:54 | `parse` reports `Lex` exactly when the lexer fails, and with its error; it reports `Lex(EndOfInput)` exactly on empty or all-whitespace input |
| ConfigSource.AssignInOrder | code_gen/src/config.rs:79-97 | fields naming name, vs_entry and fs_entry in that order fill those slots with their values and leave the rest empty |
| ConfigSource.FinalizeInOrder | code_gen/src/config.rs:128-138 | such fields give the configuration of their values when there are three, and otherwise report the next slot missing |
| ConfigSource.ParseComplete | code_gen/src/config.rs:146-174 | a record of a name, a vertex entry and a fragment entry, with or without a trailing comma and in any whitespace layout, gives the configuration of its three values |
| ConfigSource.ParseMissingFields | code_gen/src/config.rs:176-190 | a record of no field, of only a name, or of a name and a vertex entry reports `MissingField` with the first slot left empty, in any whitespace layout |

## Left out

- code_gen/src/lib.rs is not part of this model. Its `PipelineConfig::from_src` (lib.rs:16-35) lexes a whole source once and then loops while the next token is an identifier: on `render_pipeline` it calls `parse`, and on any other identifier it reports `UnexpectedToken`. A record starts with `#` (code_gen/src/config.rs:56), so on a source that is a record the first `peek` gives `Hash`, the loop never runs and `from_src` returns no configurations. Its `gen_pipeline_code` (lib.rs:38-137) reads each shader file, parses it with naga and emits Rust code through `quote!`.
- The call `RenderPipelineConfig::parse(&mut tokens)` at code_gen/src/lib.rs:23 passes a token stream, but `parse` at code_gen/src/config.rs:53 takes the source `&str` and lexes it itself. The model follows config.rs: `Parse` and `ParseSource` take the source text. The loop of `from_src` over several records is not modelled.
- code_gen/src/parse.rs is not part of this model. It is an older copy of the lexer without the `Colon` token, and lib.rs:1-2 does not declare it as a module.
- code_gen/tests/code_gen.rs is not part of this model. It is an integration test that reads a file, calls `from_src` and `gen_pipeline_code`, writes the generated code to a file and compiles it with trybuild.
- The `thiserror` display strings of `LexError` and `ParseError` are not modelled; only the variants and their payloads are.
- Rust lifetimes and borrowing are not modelled. A token's text is its own string, not a slice of the source.
- `char::is_alphabetic` and `char::is_numeric` are the parameter `UnicodeProps`, not the Unicode tables. The results that depend on them assume only `Coherent`.
- `usize` overflow is not modelled; offsets and the cursor are unbounded naturals. The source calls `skip` only with `n = 1`, so `n + 1` cannot overflow; byte offsets stay at most `src.len()`, and the cursor at most the number of tokens.
- `SpannedStr::new` is the datatype constructor `SpannedStr(src, startByte, endByte)`, so it has no row of its own. `Span` is folded into its two fields.
- The following functions have no `ensures` of their own; each line names the members whose contracts state what the function computes.
- Lexer.SpannedStr.Substring: its contract is `LexerFacts.SubstringIsSpan`.
- Lexer.SpannedStr.FirstChar: its contract is `LexerFacts.FirstCharOfSubstring`.
- Lexer.LexToken: its contract is `Lexer.LexTokenClassifies`, with the per-arm lemmas of `LexerFacts`.
- Lexer.TokenAt: its contracts are `Lexer.TokenAgrees` and the unfolding steps `Lexer.TokenAtIdent`, `Lexer.TokenAtPunctuation`, `Lexer.TokenAtQuote` and `Lexer.TokenAtInvalid`.
- Lexer.StringAt and Lexer.StringBody: their contracts are `Lexer.StringAtSkip` and `Lexer.StringBodyAgrees`.
- Lexer.IsIdentStart and Lexer.IsIdentChar: character classes of the identifier arm; their meaning is stated by `LexerFacts.IdentToken` and `LexerFacts.LexTokenIdent`.
- Lexer.Punctuation: its contracts are `TokenizeFacts.PunctuationText` and `Lexer.TokenAtPunctuation`.
- Lexer.Classify, Lexer.ClassifyToken and Lexer.QuotedRest: code-point reference definitions; `Lexer.LexTokenClassifies` ties `lex_token` to them, and `TokenizeFacts.ClassifyBounds`, `LexerFacts.QuotedToken` and `LexerFacts.IdentToken` state what they give.
- Lexer.LexRest: its contracts are `TokenizeFacts.LexRestScans` and `Lexer.LexRestOk`; the method `Lexer.TokenStream.New` is proved against it.
- Lexer.Tokenize: its contracts are `TokenizeFacts.TokenizeScans`, `TokenizeFacts.TokenizeEndOfInput` and `TokenizeFacts.TokenizeLayout`; `Lexer.TokenStream.New` is proved against it.
- Chars.IsWhitespace: the 25 White_Space code points written out; `Chars.AsciiProps` and `Chars.Coherent` state how it relates to the other classes.
- Chars.IsAlphanumeric: the union of the two `UnicodeProps` classes; `Chars.Coherent` constrains them.
- Config.FieldName and Config.FieldNamed: their contracts are `Config.FieldNamedMeans` and `ConfigFacts.FieldNamedName`.
- Config.Assign: its contracts are `ConfigFacts.SlotAssign` and the method `Config.Slots.Store`.
- Config.ExpectAt: its contracts are the method `Config.ExpectToken` and `ConfigFacts.ParseOpening`.
- Config.IdentAt: its contract is the method `Config.ParseIdent`.
- Config.FieldsFrom: its contracts are `ConfigFacts.FieldsFromShape`, `ConfigFacts.FieldsFromMore`, `ConfigFacts.FieldsFromEnd`, the unfolding steps `Config.FieldsFromClose` and `Config.FieldsFromField`, and the method `Config.ParseMoreFields`.
- Config.BodyAt, Config.StructAt and Config.CloseAt: their contracts are the method `Config.ParseStruct` and `ConfigFacts.BodyThroughFields` and `ConfigFacts.ClosingFields`.
- Config.Finish: its contracts are `ConfigFacts.ClosedAt` and `ConfigFacts.AcceptedEnd`.
- Config.Finalize: its contract is `ConfigFacts.FinalizeFilled`.
- Config.ParseTokens: its contracts are `ConfigFacts.ParseRecord`, `ConfigFacts.RecordOfParse` and the error lemmas of `ConfigFacts`.
- Config.ParseSource: its contracts are the method `Config.Parse`, `ConfigSource.ParseSourceLex` and `ConfigSource.ParseLayout`.
- The equality of `substring` with a byte slice of the encoding is stated on code points (`SubstringIsSpan`), not as an equality of byte sequences.
- The five single-character arms of `lex_token` are one branch through `Punctuation`. This is the same behaviour, because the match arms are tried in order and no punctuation character is an identifier start.
- The cursor position after an error is not specified. `parse` discards the stream on every error.
- The source's `parse_struct` is one closure. Its `while let` loop is the separate method `ParseMoreFields`, proved against `FieldsFrom`.
- `skip` moves the end of the view to `src.len()`, not to the span's end. The model does the same, and `LexerFacts.SkipComposeShortView` shows where this makes repeated skips differ from one long skip.
- ConfigSource.ParseLayout: covers layouts with whitespace between the tokens only. Comments and other separators do not occur in the source's grammar.
- ConfigSource.ParseComplete and ConfigSource.ParseMissingFields: state the unit tests of config.rs for every value without quote or newline and every whitespace layout, rather than on the literal test strings. The literal strings are instances: their gaps are whitespace, and the missing-fields cases use empty gaps.
