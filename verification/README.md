# RustPascal front-end primitives in Dafny

A model of three small pieces of the RustPascal compiler front end, with
proofs of what they promise:

- the lexer (`libpascalc_lexer`): the forward-only `Cursor` over the source
  characters, the ASCII character classes, the lexeme types with their
  derived orders, the one-character dispatch of `next_lexeme` with its
  scanners, `first_lexeme`, and the whole-input driver `lexical_analyze`;
- the hasher (`libpascalc_hashing`): the rotate / xor / multiply
  accumulator `PascalcHasher`, its `write` chunking and the `write_u*`
  methods;
- the position and span primitives (`libpascalc_span`): `BytePosition`,
  `CharPosition` with their truncating and widening conversions, and the
  constants of the compact span layout.

Source text is `seq<char>` and lengths are UTF-8 byte counts (`Utf8Len`,
`Utf8Bytes`), as Rust's `str::len` reports them. The cursor is the
debug-assertions build, where the cursor records `prev`. `number` and
`block_comment` branch on `prev()`, so this is the only configuration in
which they behave as written. Every scanner is a pure function from a
cursor to the advanced cursor. `lexical_analyze` is a recursive function
returning `seq<Lexeme>`; its byte slice `&input[len..]` is
`Lexer.SliceFromByte`, which answers `None` where Rust would panic, and
which the proofs show never does.

Machine words of the hasher are integers in `[0, 2^64)`. Every operation
that can leave that range wraps explicitly: the product is taken modulo
2^64, rotation moves the top five bits down, and xor is defined bit by
bit. The target is fixed as 64-bit and little-endian.

Where the lexer's behaviour differs from what a reader of its arms might
expect, the model follows the code:

- `&` followed by an identifier start lexes as `Identifier`, never
  `RawIdentifier`;
- `{` is no comment opener and lexes as `Unknown`;
- after `&` and `%`, the number body is read with the decimal eater, so
  `8` and `9` belong to it;
- `.` is never part of an integer literal, so `1.5` lexes as an integer,
  a `Dot` and an integer.

Files: `wrappers.dfy` (`Option`), `machine_words.dfy` (the unsigned
integer types and their limits), `sequences.dfy` (`Concat`),
`char_ext.dfy`, `lexeme_type.dfy`, `cursor.dfy`, `lexer.dfy`,
`lexer_properties.dfy`, `hashing.dfy`, `position.dfy`,
`span_encoding.dfy`.

## Model

| member | source | states |
|---|---|---|
| CharExt.WhitespaceIsElevenCodePoints | compiler/libpascalc_lexer/src/ext.rs:10-29 | whitespace is exactly the eleven listed code points, and NUL is not whitespace |
| CharExt.IdClasses | compiler/libpascalc_lexer/src/ext.rs:31-42 | an identifier start is an ASCII letter or `_`; an identifier continue is a start or an ASCII digit; every start is also a continue |
| CharExt.WhitespaceAndIdentifiersDisjoint | compiler/libpascalc_lexer/src/ext.rs:10-42 | no character is both whitespace and an identifier continue |
| CharExt.DigitClasses | compiler/libpascalc_lexer/src/lib.rs:44-72 | the radix checks of the dispatch accept exactly `0-1`, `0-7`, `0-9`, and `0-9a-fA-F` for radix 2, 8, 10 and 16 |
| CharExt.ToDigit | compiler/libpascalc_lexer/src/lib.rs:44-72 | `to_digit` answers for ASCII digits and letters only, with a value below 36, and a value below 10 exactly for `0-9` |
| CharExt.AllIdContinueMeansEvery | compiler/libpascalc_lexer/src/ext.rs:54 | `chars.all(is_id_continue)` holds iff every character is an identifier continue |
| CharExt.LexicallyIdentMeaning | compiler/libpascalc_lexer/src/ext.rs:50-58 | `is_lexically_ident(s)` holds iff `s` is non-empty, starts with an identifier start and continues with identifier continues; the empty string is not one |
| LexemeTypes.BaseOrder | compiler/libpascalc_lexer/src/lexeme/type.rs:1-10 | there are exactly four bases, ordered Base2 < Base8 < Base10 < Base16 |
| LexemeTypes.LexemeTypeVariants | compiler/libpascalc_lexer/src/lexeme/type.rs:12-42 | 25 variant positions; equal positions mean equal types except for `Literal`, which carries a payload; `Unknown` is last; exactly the 18 listed kinds are punctuation |
| LexemeTypes.LiteralTypeOrderIsStrictTotal | compiler/libpascalc_lexer/src/lexeme/type.rs:44-59 | the derived order on literal types is irreflexive, transitive, asymmetric and total |
| LexemeTypes.LexemeTypeOrderIsAsymmetric | compiler/libpascalc_lexer/src/lexeme/type.rs:12-42 | the derived order on lexeme types is irreflexive and asymmetric |
| LexemeTypes.LexemeTypeOrderIsTransitive | compiler/libpascalc_lexer/src/lexeme/type.rs:12-42 | the derived order on lexeme types is transitive |
| LexemeTypes.LexemeTypeOrderIsConnected | compiler/libpascalc_lexer/src/lexeme/type.rs:12-42 | any two lexeme types are equal or ordered one way |
| LexemeTypes.LiteralsCompareByPayload | compiler/libpascalc_lexer/src/lexeme/type.rs:20 | two `Literal`s compare and are equal exactly as their payloads do |
| Cursors.Utf8Bytes | compiler/libpascalc_lexer/src/cursor.rs:15 | the byte length `str::len` of a text lies between its character count and four times it |
| Cursors.Utf8Len | compiler/libpascalc_lexer/src/cursor.rs:41-43 | a character takes 1 to 4 bytes, and 1 exactly when it is ASCII |
| Cursors.Utf8BytesAppend | compiler/libpascalc_lexer/src/cursor.rs:41-43 | the byte length of a concatenation is the sum of the byte lengths |
| Cursors.Utf8BytesStrictlyMonotone | compiler/libpascalc_lexer/src/cursor.rs:41-43 | a longer prefix has strictly more bytes, so a byte offset determines at most one character boundary |
| Cursors.AsciiBytes | compiler/libpascalc_lexer/src/cursor.rs:41-43 | an all-ASCII text is as many bytes long as it has characters |
| Cursors.New | compiler/libpascalc_lexer/src/cursor.rs:13-20 | a new cursor holds the whole input, has consumed 0 bytes, reports NUL as `prev`, and is at the end exactly when the input is empty |
| Cursors.Bump | compiler/libpascalc_lexer/src/cursor.rs:22-31 | at the end: `None` and nothing changes; otherwise: the head character, which is removed, becomes `prev` and adds its UTF-8 width to `len_consumed` |
| Cursors.BumpShiftsLookahead | compiler/libpascalc_lexer/src/cursor.rs:22-31 | after a bump, `nth_char(n)` is the old `nth_char(n + 1)`; at the end of input every lookahead is NUL, before and after a bump |
| Cursors.LenConsumed | compiler/libpascalc_lexer/src/cursor.rs:41-43 | `len_consumed` never exceeds the initial length |
| Cursors.LookaheadIsPure | compiler/libpascalc_lexer/src/cursor.rs:33-39 | `first` and `second` give the 0th and 1st remaining characters or NUL; `is_eof` means nothing remains; after a bump, `first` is the old `second` |
| Cursors.AdvancesTransitive | compiler/libpascalc_lexer/src/cursor.rs:22-31 | advancing twice is advancing, and the consumed text is the two stretches in order |
| Cursors.EatenAfterBump | compiler/libpascalc_lexer/src/cursor.rs:22-31 | bumping and then advancing consumes the head character followed by what the advance consumed |
| Cursors.LenConsumedGrowsByEatenBytes | compiler/libpascalc_lexer/src/cursor.rs:41-43 | as the cursor advances, `len_consumed` grows by exactly the bytes consumed, never decreases, and stays within the initial length |
| Cursors.LenConsumedFromNew | compiler/libpascalc_lexer/src/cursor.rs:13-20 | from a new cursor, `len_consumed` is the byte length of the consumed prefix, and the consumed text plus the rest is the input |
| Lexer.EatWhile | compiler/libpascalc_lexer/src/lib.rs:206-210 | everything consumed satisfies the predicate, and the next character, if any, does not |
| Lexer.EatDigitRun | compiler/libpascalc_lexer/src/lib.rs:149-166 | consumes a maximal run of `_` and digits; the answer says whether a digit was seen |
| Lexer.EaterDigitsAreRadixDigits | compiler/libpascalc_lexer/src/lib.rs:149-195 | the digit patterns of `eat_decimal_digits` and `eat_hexadecimal_digits` accept exactly the characters `is_digit(10)` and `is_digit(16)` accept |
| Lexer.EatDecimalDigits | compiler/libpascalc_lexer/src/lib.rs:149-166 | consumes a maximal run of `_` and `0-9`; answers true iff that run holds a digit |
| Lexer.EatHexadecimalDigits | compiler/libpascalc_lexer/src/lib.rs:178-195 | consumes a maximal run of `_` and hexadecimal digits; answers true iff that run holds a digit |
| Lexer.BlockCommentBody | compiler/libpascalc_lexer/src/lib.rs:218-227 | the loop stops right after the first `*)`, or consumes everything when there is none |
| Lexer.ScanBlockComment | compiler/libpascalc_lexer/src/lib.rs:213-228 | a `BlockComment` that ends after the first `*)` whose `*` is not the opening one, or runs to the end of input |
| Lexer.ScanCharacterString | compiler/libpascalc_lexer/src/lib.rs:247-265 | true: string content and then the closing quote were consumed; false: only string content, stopping before a newline or at the end of input |
| Lexer.ScanLineComment | compiler/libpascalc_lexer/src/lib.rs:267-273 | a `LineComment` that consumes something unless at the end of input, holds no newline after its first character, and stops before a newline or at the end |
| Lexer.ScanIdentifier | compiler/libpascalc_lexer/src/lib.rs:275-280 | an `Identifier` that consumes a maximal run of identifier continues |
| Lexer.ScanWhitespace | compiler/libpascalc_lexer/src/lib.rs:313-318 | `Whitespace` that consumes a maximal run of whitespace |
| Lexer.ScanNumber | compiler/libpascalc_lexer/src/lib.rs:282-304 | an integer, never marked empty, whose base follows `prev`, consuming a maximal run of `_` and that base's eater digits |
| Lexer.SelectArm | compiler/libpascalc_lexer/src/lib.rs:29-142 | only `(*` selects the block comment, only `//` the line comment, exactly `'` the string arm, and no fixed-kind arm emits a literal |
| Lexer.SingleArmKinds | compiler/libpascalc_lexer/src/lib.rs:80-141 | a fixed-kind arm emits a punctuation kind or `Unknown` |
| Lexer.WhitespaceAndIdentifierArms | compiler/libpascalc_lexer/src/lib.rs:36-43 | the whitespace arm is selected exactly for whitespace, the identifier arm exactly for an identifier start or `&` before one |
| Lexer.KindsOfSelectedArm | compiler/libpascalc_lexer/src/lib.rs:29-142 | a kind the selected arm can produce is `LineComment` iff `//`, `BlockComment` iff `(*`, `Whitespace` iff whitespace, `Identifier` iff an identifier start or `&` before one, a string iff `'`, and never `RawIdentifier` |
| Lexer.RunArm | compiler/libpascalc_lexer/src/lib.rs:29-142 | every arm only advances the cursor, and a fixed-kind arm consumes nothing more |
| Lexer.Dispatch | compiler/libpascalc_lexer/src/lib.rs:29-142 | the `match` only advances the cursor and yields a kind of the arm that the bumped character and `first()` select |
| Lexer.DispatchKinds | compiler/libpascalc_lexer/src/lib.rs:29-142 | the `match` yields `LineComment` iff `//`, `BlockComment` iff `(*`, `Whitespace` iff whitespace, `Identifier` iff an identifier start or `&` before one, a string literal iff `'`, and never `RawIdentifier` |
| Lexer.NextLexeme | compiler/libpascalc_lexer/src/lib.rs:27-145 | at least one character is consumed, and the lexeme's length is the bytes consumed, which is `len_consumed` |
| Lexer.FirstLexeme | compiler/libpascalc_lexer/src/lib.rs:336-340 | on non-empty input, the length is at least 1 and at most the input's byte length |
| Lexer.FirstLexemeWidth | compiler/libpascalc_lexer/src/lib.rs:336-340 | the first lexeme covers between 1 and all characters, and its length is their byte count |
| Lexer.SliceFromByte | compiler/libpascalc_lexer/src/lib.rs:349 | when the slice succeeds, it is a suffix whose dropped prefix has exactly the given byte length |
| Lexer.SliceFromByteAtBoundary | compiler/libpascalc_lexer/src/lib.rs:349 | slicing at the byte offset of a character boundary always succeeds, giving the characters after it |
| Lexer.LexicalAnalyze | compiler/libpascalc_lexer/src/lib.rs:342-353 | the driver terminates; the lengths sum to the input's byte length; there are no more lexemes than characters |
| Lexer.CutByLengths | compiler/libpascalc_lexer/src/lib.rs:342-353 | cutting by the lengths, when it succeeds, gives one piece per lexeme, each of its lexeme's byte length, and the pieces joined give the input |
| LexerProperties.FirstLexemeByArm | compiler/libpascalc_lexer/src/lib.rs:27-145 | the first lexeme is what the selected arm returns after the first character is bumped, over one more character than the arm consumed |
| LexerProperties.FirstLexemeOfSingle | compiler/libpascalc_lexer/src/lib.rs:80-135 | a fixed-kind arm's lexeme is that kind, one character wide, and that character's byte width long |
| LexerProperties.ArmOfSlash | compiler/libpascalc_lexer/src/lib.rs:30-35 | `/` selects the line comment when `/` follows, and `Slash` otherwise |
| LexerProperties.ArmOfParen | compiler/libpascalc_lexer/src/lib.rs:110-117 | `(` selects the block comment when `*` follows, and `LeftRound` otherwise |
| LexerProperties.ArmOfWhitespace | compiler/libpascalc_lexer/src/lib.rs:36-38 | whitespace selects the whitespace arm |
| LexerProperties.ArmOfIdStart | compiler/libpascalc_lexer/src/lib.rs:77-79 | an identifier start selects the identifier arm |
| LexerProperties.ArmOfAmpersand | compiler/libpascalc_lexer/src/lib.rs:39-51 | `&` selects the identifier arm before an identifier start, the number arm before an octal digit, and `Unknown` otherwise |
| LexerProperties.ArmOfQuote | compiler/libpascalc_lexer/src/lib.rs:136-140 | `'` selects the string arm |
| LexerProperties.ArmOfNumber | compiler/libpascalc_lexer/src/lib.rs:39-76 | a decimal digit, or `&`, `$`, `%` before a digit of their radix, selects the number arm |
| LexerProperties.NumberArmOnlyForIntegers | compiler/libpascalc_lexer/src/lib.rs:39-76 | the number arm is selected only in those cases |
| LexerProperties.ArmOfPunctuation | compiler/libpascalc_lexer/src/lib.rs:80-135 | each punctuation character selects its own fixed kind |
| LexerProperties.ArmOfBarePrefix | compiler/libpascalc_lexer/src/lib.rs:39-71 | `&`, `$` or `%` without a qualifying next character selects `Unknown` |
| LexerProperties.ArmOfUnrecognised | compiler/libpascalc_lexer/src/lib.rs:141 | any other character selects `Unknown` |
| LexerProperties.LineCommentLexeme | compiler/libpascalc_lexer/src/lib.rs:30-35 | `//` gives a `LineComment` over one character more than the line-comment scanner consumed |
| LexerProperties.BlockCommentLexeme | compiler/libpascalc_lexer/src/lib.rs:110-117 | `(*` gives a `BlockComment` over one character more than the block-comment scanner consumed |
| LexerProperties.WhitespaceLexeme | compiler/libpascalc_lexer/src/lib.rs:36-38 | whitespace gives `Whitespace` over one character more than the whitespace scanner consumed |
| LexerProperties.IdentifierLexeme | compiler/libpascalc_lexer/src/lib.rs:41-43 | the identifier arm gives `Identifier` over one character more than the identifier scanner consumed |
| LexerProperties.StringLexeme | compiler/libpascalc_lexer/src/lib.rs:136-140 | `'` gives a string literal whose flag is the string scanner's answer, over one character more than it consumed |
| LexerProperties.NumberLexeme | compiler/libpascalc_lexer/src/lib.rs:39-76 | an integer start gives a non-empty integer literal in the prefix's base, over one character more than the number scanner consumed |
| LexerProperties.RestOfInput | compiler/libpascalc_lexer/src/lib.rs:28 | what an arm consumed after the first character is the next stretch of the input, and the rest follows it |
| LexerProperties.WhitespaceRest | compiler/libpascalc_lexer/src/lib.rs:313-318 | read over the input, the whitespace arm covers a maximal whitespace run |
| LexerProperties.IdentifierRest | compiler/libpascalc_lexer/src/lib.rs:275-280 | read over the input, the identifier arm covers identifier continues up to the first other character |
| LexerProperties.LineCommentRest | compiler/libpascalc_lexer/src/lib.rs:267-273 | read over the input, the line comment covers no newline after `//` and stops at a newline or the end |
| LexerProperties.BlockCommentRest | compiler/libpascalc_lexer/src/lib.rs:213-228 | read over the input, the block comment ends right after the first `*)` from index 2, or runs to the end when there is none |
| LexerProperties.NumberRest | compiler/libpascalc_lexer/src/lib.rs:282-304 | read over the input, the number covers `_` and body digits up to the first character that is neither |
| LexerProperties.NumberFacts | compiler/libpascalc_lexer/src/lib.rs:149-195 | the number body is a maximal `_`/digit run holding no `.`, and after a prefix it covers at least the selecting digit |
| LexerProperties.QuoteCloses | compiler/libpascalc_lexer/src/lib.rs:252-254 | a quote preceded only by string content is a closing quote |
| LexerProperties.NoClosingQuoteBefore | compiler/libpascalc_lexer/src/lib.rs:256-257 | string content that ends at a newline or at the end leaves no closing quote |
| LexerProperties.StringRest | compiler/libpascalc_lexer/src/lib.rs:247-265 | read over the input, the string scanner answers true iff a closing quote exists, and it consumes up to that quote or up to the newline or end |
| LexerProperties.LineCommentStopsBeforeNewline | compiler/libpascalc_lexer/src/lib.rs:30-35 | `//` is a `LineComment` that ends just before the first newline after it, or at the end of input; the newline is excluded |
| LexerProperties.LoneSlash | compiler/libpascalc_lexer/src/lib.rs:30-35 | `/` not followed by `/` is `Slash` with length 1 |
| LexerProperties.BlockCommentStopsAfterFirstClose | compiler/libpascalc_lexer/src/lib.rs:110-117 | `(*` is a `BlockComment` that ends right after the first `*)` not using the opening `*`, so `(*)` is unclosed, or runs to the end of input |
| LexerProperties.LoneLeftRound | compiler/libpascalc_lexer/src/lib.rs:110-117 | `(` not followed by `*` is `LeftRound` with length 1 |
| LexerProperties.WhitespaceIsMaximalRun | compiler/libpascalc_lexer/src/lib.rs:36-38 | a whitespace lexeme is a maximal run of whitespace characters |
| LexerProperties.IdentifierRun | compiler/libpascalc_lexer/src/ext.rs:50-58 | a start followed by continues is a lexically valid identifier, all ASCII |
| LexerProperties.IdentifierScan | compiler/libpascalc_lexer/src/lib.rs:77-79 | an identifier start begins an `Identifier` running over the following maximal run of continues |
| LexerProperties.AmpersandIdentifierScan | compiler/libpascalc_lexer/src/lib.rs:39-43 | `&` before an identifier start begins an `Identifier` running over the following maximal run of continues |
| LexerProperties.IdentifierIsMaximalRun | compiler/libpascalc_lexer/src/lib.rs:77-79 | an identifier is a lexically valid identifier followed by no continue, and its length is its character count |
| LexerProperties.AmpersandIdentifier | compiler/libpascalc_lexer/src/lib.rs:39-43 | `&ident` lexes, `&` included, as one plain `Identifier` over the maximal identifier after `&`, never `RawIdentifier` |
| LexerProperties.LexicallyIdentIsOneIdentifier | compiler/libpascalc_lexer/src/ext.rs:50-58 | for a lexically valid identifier `s`, `first_lexeme(s)` is `Identifier` of length `\|s\|`, covering all of it |
| LexerProperties.LexicallyIdentIsWholeStream | compiler/libpascalc_lexer/src/lib.rs:342-353 | the driver lexes a lexically valid identifier as that single lexeme |
| LexerProperties.LexicalAnalyzeUnfolds | compiler/libpascalc_lexer/src/lib.rs:342-353 | the driver emits the first lexeme, then lexes what follows it |
| LexerProperties.IntegerLiteralExtent | compiler/libpascalc_lexer/src/lib.rs:282-304 | an integer literal takes its base from the prefix and is never empty; its body is a maximal run of `_` and eater digits (decimal after `&` and `%`); after a prefix it is at least 2 characters long; it contains no `.` |
| LexerProperties.DotIsNoBodyDigit | compiler/libpascalc_lexer/src/lib.rs:149-195 | `.` is consumed by neither digit eater |
| LexerProperties.NumberPrefixNeedsDigit | compiler/libpascalc_lexer/src/lib.rs:44-67 | after a prefix, the number arm consumes at least the digit that selected it |
| LexerProperties.BaseOfPrefixTable | compiler/libpascalc_lexer/src/lib.rs:285-300 | `$` gives Base16, `&` Base8, `%` Base2, and a digit Base10 |
| LexerProperties.IntegerLiteralsAreNeverEmpty | compiler/libpascalc_lexer/src/lib.rs:303 | the first lexeme is an integer literal iff the input starts an integer, and such a literal is never marked empty |
| LexerProperties.StringLiteralExtent | compiler/libpascalc_lexer/src/lib.rs:136-140 | `'` starts a string literal that is terminated iff a quote follows before any newline; it then ends right after that quote, and otherwise stops before the newline or at the end |
| LexerProperties.PunctuationKindsArePunctuation | compiler/libpascalc_lexer/src/lib.rs:80-135 | every punctuation character maps to a punctuation kind and is one byte wide |
| LexerProperties.PunctuationIsOneByte | compiler/libpascalc_lexer/src/lib.rs:80-135 | each of `+ - * = < > [ ] . , ) : ^ @ # ;` is its own kind with length 1 |
| LexerProperties.BarePrefixIsUnknown | compiler/libpascalc_lexer/src/lib.rs:39-71 | `&`, `$` or `%` without a qualifying next character is `Unknown` with length 1 |
| LexerProperties.UnrecognisedCharIsUnknown | compiler/libpascalc_lexer/src/lib.rs:141 | any other character, `{` included, is `Unknown` consuming exactly that character, whatever its byte width |
| LexerProperties.SingleArmIgnoresLookahead | compiler/libpascalc_lexer/src/lib.rs:80-141 | an arm of fixed kind is selected whatever follows, the end of input included |
| LexerProperties.StableSingle | compiler/libpascalc_lexer/src/lib.rs:80-141 | a fixed-kind lexeme's text lexes alone as one lexeme of that kind over all of it |
| LexerProperties.StableWhitespace | compiler/libpascalc_lexer/src/lib.rs:313-318 | a whitespace lexeme's text lexes alone as one whitespace lexeme over all of it |
| LexerProperties.StableIdentifier | compiler/libpascalc_lexer/src/lib.rs:275-280 | an identifier's text lexes alone as one identifier over all of it |
| LexerProperties.StableAmpersandIdentifier | compiler/libpascalc_lexer/src/lib.rs:39-43 | an `&ident` identifier's text lexes alone as one identifier over all of it |
| LexerProperties.StableLineComment | compiler/libpascalc_lexer/src/lib.rs:267-273 | a line comment's text lexes alone as one line comment over all of it |
| LexerProperties.StableBlockComment | compiler/libpascalc_lexer/src/lib.rs:213-228 | a block comment's text lexes alone as one block comment over all of it, closed or not |
| LexerProperties.StableNumber | compiler/libpascalc_lexer/src/lib.rs:282-304 | an integer literal's text lexes alone as one integer literal of the same base over all of it |
| LexerProperties.StableString | compiler/libpascalc_lexer/src/lib.rs:247-265 | a string literal's text lexes alone as one string literal over all of it, terminated alike |
| LexerProperties.KindStableByArm | compiler/libpascalc_lexer/src/lib.rs:29-142 | whichever arm is selected, the first lexeme's text lexes alone as one lexeme of the same kind over all of it |
| LexerProperties.FirstLexemeIsStable | compiler/libpascalc_lexer/src/lib.rs:336-340 | lexing the first lexeme's own text gives the same lexeme, kind and length, covering all of that text: what follows a lexeme never changes its kind |
| LexerProperties.LexemeTextRelexesAlone | compiler/libpascalc_lexer/src/lib.rs:342-353 | the driver lexes the first lexeme's own text as exactly that one lexeme |
| LexerProperties.LexicalAnalyzeTilesInput | compiler/libpascalc_lexer/src/lib.rs:342-353 | slicing the input by the driver's lengths always lands on character boundaries, and the pieces joined give the input back |
| LexerProperties.CutStep | compiler/libpascalc_lexer/src/lib.rs:348-349 | a first piece of whole characters followed by a valid cut of the rest is a valid cut of the input |
| LexerProperties.LexemesAreNonEmpty | compiler/libpascalc_lexer/src/lib.rs:342-353 | every lexeme the driver emits has length at least 1 |
| LexerProperties.DecimalStopsAtDot | compiler/libpascalc_lexer/src/lib.rs:149-166 | a digit followed by `.` is a one-byte decimal literal |
| LexerProperties.DecimalBeforeDot | compiler/libpascalc_lexer/src/lib.rs:342-353 | on a digit followed by `.`, the driver emits a one-byte decimal literal and continues at the `.` |
| LexerProperties.DriverStep | compiler/libpascalc_lexer/src/lib.rs:348-351 | one driver step: the first lexeme, then the lexemes of the rest |
| LexerProperties.DigitAlone | compiler/libpascalc_lexer/src/lib.rs:72-76 | a single digit is a one-byte decimal literal |
| LexerProperties.LoneDigit | compiler/libpascalc_lexer/src/lib.rs:342-353 | the driver lexes a single digit as one decimal literal |
| LexerProperties.DotThenDigit | compiler/libpascalc_lexer/src/lib.rs:342-353 | `.` then a digit lexes as `Dot` and a decimal literal |
| LexerProperties.DigitDotDigit | compiler/libpascalc_lexer/src/lib.rs:282-304 | digit, `.`, digit (`1.5`, say) lexes as an integer, a `Dot` and an integer, each one byte |
| Hashing.XorUndo | compiler/libpascalc_hashing/src/lib.rs:31 | xor with the same value twice gives back the original word |
| Hashing.RotateRightUndoesRotateLeft | compiler/libpascalc_hashing/src/lib.rs:31 | rotating left by 5 is undone by rotating right by 5, so the rotation is a bijection |
| Hashing.KInverseUndoesK | compiler/libpascalc_hashing/src/lib.rs:21-22 | `K` is odd, and the wrapping product by `K` is undone by multiplying by its inverse modulo 2^64 |
| Hashing.Default | compiler/libpascalc_hashing/src/lib.rs:35-40 | a default hasher finishes with 0 |
| Hashing.FinishIsInjective | compiler/libpascalc_hashing/src/lib.rs:42-46 | `finish` reports the state itself: two hashers finish alike iff their states are equal |
| Hashing.AddToHash | compiler/libpascalc_hashing/src/lib.rs:30-32 | multiplying the new state by the inverse of `K` recovers the rotated old state xor the value |
| Hashing.AddToHashIsInjectiveInValue | compiler/libpascalc_hashing/src/lib.rs:30-32 | for a fixed state, distinct values give distinct new states |
| Hashing.AddToHashIsInjectiveInState | compiler/libpascalc_hashing/src/lib.rs:30-32 | for a fixed value, distinct states give distinct new states |
| Hashing.ReadLe | compiler/libpascalc_hashing/src/lib.rs:53 | `n` bytes read little-endian give a value below 256^n |
| Hashing.ReadLeOfLeBytes | compiler/libpascalc_hashing/src/lib.rs:53 | reading back the `n` little-endian bytes of a value below 256^n gives the value |
| Hashing.LeBytesOfReadLe | compiler/libpascalc_hashing/src/lib.rs:53 | writing back the value read from some bytes gives those bytes |
| Hashing.TailChunksTile | compiler/libpascalc_hashing/src/lib.rs:63-75 | fewer than 8 bytes are read as chunks that join to exactly those bytes, one chunk per set bit of the count |
| Hashing.TailChunkSizes | compiler/libpascalc_hashing/src/lib.rs:63-75 | the tail chunks are 4, 2 and 1 bytes long, in strictly decreasing size |
| Hashing.ChunksTileInput | compiler/libpascalc_hashing/src/lib.rs:58-75 | `write` reads `n/8 + popcount(n mod 8)` chunks, and they join to exactly the input, so every byte is read once and in order |
| Hashing.Write | compiler/libpascalc_hashing/src/lib.rs:48-78 | the loop and the three closing `if`s leave exactly the chunked absorb of the bytes, which depends on the state and the bytes alone; an empty slice leaves the state unchanged |
| Hashing.WrittenSingleChunk | compiler/libpascalc_hashing/src/lib.rs:58-75 | writing 1, 2, 4 or 8 bytes is one absorb of their little-endian word |
| Hashing.WriteOfOneByteIsWriteU8 | compiler/libpascalc_hashing/src/lib.rs:73-83 | `write(&[b])` leaves the same state as `write_u8(b)` |
| Hashing.WriteU16IsWriteOfLeBytes | compiler/libpascalc_hashing/src/lib.rs:85-88 | `write_u16(v)` is `write` of the two little-endian bytes of `v` |
| Hashing.WriteU32IsWriteOfLeBytes | compiler/libpascalc_hashing/src/lib.rs:90-93 | `write_u32(v)` is `write` of the four little-endian bytes of `v` |
| Hashing.WriteU64IsWriteOfLeBytes | compiler/libpascalc_hashing/src/lib.rs:102-111 | `write_u64(v)` is `write` of the eight little-endian bytes of `v`, and `write_usize` is the same absorb |
| Hashing.WrittenWordsThenRest | compiler/libpascalc_hashing/src/lib.rs:58-61 | writing whole words and then more bytes equals writing them all at once |
| Positions.ByteU32RoundTrip | compiler/libpascalc_span/src/position.rs:13-19 | `BytePosition` and `u32` convert to each other without loss |
| Positions.ByteUsizeRoundTrip | compiler/libpascalc_span/src/position.rs:5-11 | `to_usize(from_usize(v))` is `v mod 2^32`, equal to `v` iff `v` fits in 32 bits; a position survives the trip through `usize` |
| Positions.CharUsizeRoundTrip | compiler/libpascalc_span/src/position.rs:26-32 | `CharPosition` and `usize` convert to each other without loss |
| Positions.CharU32RoundTrip | compiler/libpascalc_span/src/position.rs:34-40 | `to_u32(from_u32(v)) == v`; `to_u32` keeps the low 32 bits, so a position survives the trip iff it is below 2^32 |
| Positions.FromU32ThenToUsize | compiler/libpascalc_span/src/position.rs:9-36 | both kinds of position turn a `u32` into the same `usize` |
| Positions.OrderFollowsOffsets | compiler/libpascalc_span/src/position.rs:1-23 | the derived order on positions is the order of their offsets, preserved by the conversions |
| Positions.TruncationBreaksOrder | compiler/libpascalc_span/src/position.rs:5-7 | truncation does not keep the order: 2^32 becomes a smaller byte position than 1 |
| SpanEncoding.TagIsTopBit | compiler/libpascalc_span/src/span_encoding.rs:1 | `TAG_LEN` is `1 << 15`, so a field is tagged iff it is at least 0x8000 |
| SpanEncoding.TagAndLengthPartition | compiler/libpascalc_span/src/span_encoding.rs:1-2 | `TAG_LEN & MAX_LEN == 0` and `TAG_LEN \| MAX_LEN == 0xFFFF` |
| SpanEncoding.InlineLengthLeavesTagClear | compiler/libpascalc_span/src/span_encoding.rs:1-2 | a 16-bit length leaves the tag bit clear iff it is at most `MAX_LEN` |
| SpanEncoding.DummySpanIsUntagged | compiler/libpascalc_span/src/span_encoding.rs:4 | `DUMMY_SPAN` has base index 0 and length field 0, so its tag bit is clear |
| SpanEncoding.SpanEqualityIsFieldwise | compiler/libpascalc_span/src/span_encoding.rs:6-10 | spans are equal iff both raw fields are |

## Left out

- The release-build cursor, where `prev()` is always NUL (compiler/libpascalc_lexer/src/cursor.rs:51-54). Under it every integer would be Base10 and `(*` would reach `unreachable!`. Only the debug build is modelled.
- `debug_assert!`s are not behaviour and are not preconditions, with one exception: the `debug_assert!(!input.is_empty())` of `first_lexeme` (compiler/libpascalc_lexer/src/lib.rs:337) is the `requires` of `Lexer.FirstLexeme`. The one in `identifier` would not hold on the `&ident` path.
- Lexer.NextLexeme / Lexer.FirstLexeme: on empty input `next_lexeme` panics at `self.bump().unwrap()` (compiler/libpascalc_lexer/src/lib.rs:28). The `requires` exclude that panic rather than model it. `lexical_analyze` never reaches it, because it stops when the rest of the input is empty (compiler/libpascalc_lexer/src/lib.rs:344-346, `Lexer.LexicalAnalyze`).
- `raw_identifier`, `eat_identifier` and `eat_float_exponent` (compiler/libpascalc_lexer/src/lib.rs:168-176, 197-204, 306-311): nothing calls them.
- The `'{'` arm of `block_comment` (compiler/libpascalc_lexer/src/lib.rs:229-240): it cannot be reached, because `{` never dispatches to `block_comment`.
- The `unreachable!` arm of `block_comment`: the model's scanner requires `(` then `*`, the only way the dispatch enters it.
- compiler/libpascalc_lexer/src/tests.rs: its inputs are files that are not part of this model, and `integers_test` expects `Float` lexemes that the type no longer has.
- The laziness of `iter::from_fn`: the driver is a function returning the whole sequence.
- Cursors.NthChar, Cursors.First and Cursors.Second are definitional, `chars().nth(n).unwrap_or(EOF_CHAR)`; `Cursors.LookaheadIsPure` and `Cursors.BumpShiftsLookahead` state how they relate to each other and to `bump`.
- The hasher's 32-bit target (its `K`, `read_usize` and two-step `write_u64`) and native-endian reads: the target is fixed as 64-bit little-endian.
- The `PascalcHashMap` and `PascalcHashSet` aliases over the standard `HashMap` and `HashSet`.
- Line 55 of compiler/libpascalc_hashing/src/lib.rs builds an `FxHasher`, a type not defined in the code. It is read as `PascalcHasher`, which has the same field and the same `add_to_hash`.
- Hashing determinism needs no lemma: every hasher operation is a pure function of the state and the input.
- compiler/libpascalc_span/src/lib.rs (`SpanData`, module declarations): it is not part of this model, and nothing there computes.
- Span encoding and decoding, and an interning table: they do not exist in the code.
