# KiCadDoxer token layer and schematic description header, in Dafny

KiCadDoxer renders KiCad schematic files as SVG. This project models two
parts of its renderer.

- **The token layer** (`Renderer/Token.cs`):
  - how a token's raw text is decoded into its string. This covers unquoted
    atoms, quoted atoms, and the C-style escapes `\a \b \f \n \r \t \v \\ \' \" \?`.
    It also covers octal escapes, `\x`, `\u` and `\U` escapes, with UTF-16
    surrogate pairs for code points above 0xFFFF;
  - the typed reads over the decoded text: `ToBoolean`, `ToChar`, `ToInt` and
    the indexer;
  - the fixed texts of the token types;
  - the per-token cache that decodes a token's text at most once.
- **`Description.Render`** (`Renderer/Schematic/Description.cs`): it reads the
  `$Descr` header of a schematic (paper size, width, height, line break). It
  writes the `width`, `height` and `viewBox` attributes of the drawing. It then
  skips lines up to `$EndDescr`.

Modules, one per file:

| file | module | contents |
|---|---|---|
| `utf16.dfy` | `Utf16` | UTF-16 code units, the `(char)` cast, surrogate pairs |
| `common.dfy` | `Common` | token types, the exceptions as an `Error` datatype, `Result`, `Option` |
| `escapes.dfy` | `Escapes` | the decoder |
| `escape_proofs.dfy` | `EscapeProofs` | what each kind of escape decodes to, in any quoted atom |
| `escape_examples.dfy` | `EscapeExamples` | concrete escapes, including the quirks listed below |
| `quoting.dfy` | `Quoting` | an encoder for quoted atoms, and the round trip through the decoder |
| `numbers.dfy` | `Numbers` | `int.TryParse` (integer style, invariant culture) and `int.ToString()` |
| `token.dfy` | `Tokens` | the `Token` class and its typed reads |
| `description.dfy` | `Description` | the header reader and the skip loop |

`escapes.dfy` holds the decoder in two forms:
- specification functions: `Unescaped`, a fold of one loop step (`Step`) over
  the characters between the quotes;
- the loops of the source as methods (`Unescape`, `DecodeMultiCharacterEscapeCode`
  and its accumulation loop), each proved equal to its specification function.

Text is a sequence of UTF-16 code units (`CodeUnit`, 0 to 0xFFFF), as a C#
`string` is. Each exception becomes a `Failure` of the matching kind, which
keeps the text the exception message quotes.

Several parts are modelled as imperative code:
- A `Token` object holds the `Lazy<string>` state in the field `cache`, which
  can also hold a cached exception.
- The token source of `Description.Render` is a `LineSource` object. It holds a
  token sequence and a read cursor.
- The SVG writer is a `Writer` object. It records the attributes written to
  it.

`Description.Rendered` is the specification of `Render`. It gives the
attributes written, the cursor after the call, and whether the call completes.

Four behaviours of the decoder differ from what the code evidently
intends. The model follows the code in each, and a lemma proves what the
code does:
- A `\u` escape is meant to take exactly four digits and a `\U` escape
  exactly eight: Renderer/Token.cs:235-245 sets both `minimumLength` and
  `maximumLength` to 4 and to 8. The minimum-length check at
  Renderer/Token.cs:256 counts the letter `u` or `U` as well. So `\u`
  followed by 3 digits, or `\U` followed by 7, then a non-hexadecimal
  character, is accepted (`ThreeDigitUnicodeA`). With fewer digits the escape
  is a format error (`ShortHexEscapeFails`).
- `\x`, `\u` or `\U` right before the closing quote yields nothing and raises
  nothing, where a format error for an incomplete escape would be expected
  (`BareHexIntroducerDropped`).
- A lone backslash right before the closing quote is dropped the same way
  (`TrailingBackslashDropped`).
- `\uD800` yields a lone high surrogate: the decoder does not check that
  surrogate escapes come in pairs (`LoneSurrogate`).

## Model

| member | source | states |
|---|---|---|
| Utf16.CastToChar | Renderer/Token.cs:289 | the `(char)` cast of a value in 0..0xFFFF is that value |
| Utf16.EncodeUtf16 | Renderer/Token.cs:280-290 | a value at or above 0x10000 becomes exactly two code units: a high surrogate (D800-DBFF), then a low surrogate (DC00-DFFF); recombining them gives back the value. A smaller value becomes the one code unit `(char)value` |
| Utf16.SurrogatePairRoundTrip | Renderer/Token.cs:280-290 | every high and low surrogate pair combines to a code point in 0x10000..0x10FFFF, and encoding that code point gives back the same pair |
| Utf16.EncodeUtf16Injective | Renderer/Token.cs:280-290 | distinct code points above 0xFFFF are emitted as distinct surrogate pairs |
| Escapes.DecodeSingleCharacterEscapeCode | Renderer/Token.cs:294-368 | fails exactly when the character after the backslash is not a simple escape, not `x`/`u`/`U` and not an octal digit; the error names that character. Otherwise it yields at most one character, and yields one only for a simple escape or for an octal digit not followed by another octal digit |
| Escapes.ShapeOf | Renderer/Token.cs:223-246 | an escape is octal exactly when it does not start with `x`, `u` or `U`; its minimum length is at least 1 and at most its maximum |
| Escapes.Wrap32 | Renderer/Token.cs:264-278 | C# `int` arithmetic: the result lies in the 32-bit range and equals the exact value when that fits |
| Escapes.Accumulate | Renderer/Token.cs:264-278 | a value the accumulation loop keeps never exceeds 0x10FFFF |
| Escapes.AccumulateFailureSticks | Renderer/Token.cs:274-277 | once a running value exceeds 0x10FFFF, no more digits bring the escape back |
| Escapes.AccumulateNext | Renderer/Token.cs:265-278 | one more iteration of the accumulation loop multiplies by the radix, adds the digit's value, wraps to 32 bits, and fails above 0x10FFFF |
| Escapes.DecodedEscapeValue | Renderer/Token.cs:261-291 | the end of a multi-character escape fails exactly when the accumulation exceeds 0x10FFFF, and otherwise yields one or two code units |
| Escapes.MultiCharacterEscape | Renderer/Token.cs:219-292 | a multi-character escape step yields at most two code units. A code shorter than its minimum length, before a character that cannot continue it, is a format error naming the code and that character; any other error names the code alone and arises only when the accumulation of its digits exceeds 0x10FFFF |
| Escapes.RunFailureSticks | Renderer/Token.cs:404-444 | once a loop iteration raises an error, the whole decoding raises that error |
| Escapes.DecodeEscapeValue | Renderer/Token.cs:261-291 | the accumulation loop and the UTF-16 emission return exactly `DecodedEscapeValue` |
| Escapes.DecodeMultiCharacterEscapeCode | Renderer/Token.cs:219-292 | the method returns exactly `MultiCharacterEscape` |
| Escapes.Unescape | Renderer/Token.cs:370-447 | the method, with its `inEscape` flag and `escapeCode` buffer, returns exactly `Unescaped` |
| EscapeProofs.RunCompose | Renderer/Token.cs:404-444 | the character loop over a range is the loop over a first part, continued over the rest |
| EscapeProofs.PlainRun | Renderer/Token.cs:433-443 | outside an escape, characters other than a backslash are copied to the output unchanged |
| EscapeProofs.AccumulateIsBaseValue | Renderer/Token.cs:264-278 | over octal or hexadecimal digits, the accumulation is the base-8 or base-16 value of the digits, and fails exactly when that value is above 0x10FFFF |
| EscapeProofs.OctalDigitsBound | Renderer/Token.cs:223-224 | up to three octal digits have a value below 8, 64 or 512 |
| EscapeProofs.EmptyDecodesToEmpty | Renderer/Token.cs:374-377 | an empty raw text decodes to the empty string, whatever the token type |
| EscapeProofs.UnquotedAtomUnchanged | Renderer/Token.cs:379-383 | an atom that does not start with a quote decodes to its raw text |
| EscapeProofs.QuotedWithoutBackslashStripped | Renderer/Token.cs:385-391 | a quoted atom without a backslash decodes to the text between its quotes |
| EscapeProofs.SimpleEscapeDecodes | Renderer/Token.cs:298-340 | in any quoted atom whose other text holds no backslash, each of `\a \b \f \n \r \t \v \\ \' \" \?` becomes its one character, and the text around it is copied |
| EscapeProofs.UnknownEscapeFails | Renderer/Token.cs:365-366 | a backslash followed by any other character than a simple escape, `x`, `u`, `U` or an octal digit is a format error naming that character |
| EscapeProofs.OctalEscapeDecodes | Renderer/Token.cs:349-363 | one to three octal digits, ending at three or before a non-octal character, become the one character of their base-8 value; the text after them is copied |
| EscapeProofs.HexEscapeDecodes | Renderer/Token.cs:223-278 | a `\x`, `\u` or `\U` escape ends at its width or before a non-hexadecimal character. It yields the UTF-16 encoding of its base-16 value, or a format error above 0x10FFFF; the text after it is copied |
| EscapeProofs.BareHexIntroducerDropped | Renderer/Token.cs:404-446 | `\x`, `\u` or `\U` right before the closing quote yields nothing and raises no error |
| EscapeProofs.TrailingBackslashDropped | Renderer/Token.cs:435-437 | a backslash right before the closing quote yields nothing and raises no error |
| EscapeProofs.HexTooShort | Renderer/Token.cs:256-258 | a `\u` or `\U` code shorter than its minimum length, before a non-hexadecimal character, is a format error naming the code and that character |
| EscapeProofs.ShortHexEscapeFails | Renderer/Token.cs:256-258 | in any quoted atom, `\u` or `\U` with too few hexadecimal digits before a non-hexadecimal character (the closing quote at the end) is a format error naming the letter, the digits and that character |
| Quoting.QuotedRoundTrip | Renderer/Token.cs:370-447 | every text, with its backslashes and quotes escaped and put between quotes, decodes back to itself |
| EscapeExamples.OctalA | Renderer/Token.cs:349-363 | `\101` decodes to `A` |
| EscapeExamples.HexA | Renderer/Token.cs:230-233 | `\x41` decodes to `A` before a non-hexadecimal character |
| EscapeExamples.UnicodeA | Renderer/Token.cs:235-239 | `\u0041` decodes to `A`, whatever follows |
| EscapeExamples.LongUnicodeA | Renderer/Token.cs:241-245 | `\U00000041` decodes to `A`, whatever follows |
| EscapeExamples.ThreeDigitUnicodeA | Renderer/Token.cs:256 | `\u041` before a non-hexadecimal character also decodes to `A` |
| EscapeExamples.LongUnicodeEmoji | Renderer/Token.cs:280-286 | `\U0001F600` decodes to the surrogate pair D83D DE00 |
| EscapeExamples.LongUnicodeTooLarge | Renderer/Token.cs:274-277 | `\U00110000` is a format error naming the escape |
| EscapeExamples.LoneSurrogate | Renderer/Token.cs:287-290 | `\uD800` decodes to a lone high surrogate |
| EscapeExamples.UncheckedHexDigit | Renderer/Token.cs:270-272 | the character after `x` is not checked to be a digit: `\xg` decodes to the code unit 0x10 |
| EscapeExamples.GAfterX | Renderer/Token.cs:269-272 | the escape code `xg` before a non-digit yields 0x10 |
| EscapeExamples.ShortUnicodeFails | Renderer/Token.cs:256-258 | `\u12` followed by `g` is a format error naming `u12g` |
| Numbers.TrimStartRemovesWhiteSpace | Renderer/Token.cs:161 | trimming removes a prefix of white space and no more |
| Numbers.TrimEndRemovesWhiteSpace | Renderer/Token.cs:161 | trimming removes a suffix of white space and no more |
| Numbers.ParseInt32 | Renderer/Token.cs:161 | every value read is a 32-bit `int` |
| Numbers.ParseDecimal | Renderer/Token.cs:161 | the decimal text of a number reads back as that number exactly when it fits an `int` |
| Numbers.ParseIgnoresWhiteSpace | Renderer/Token.cs:161 | white space before and after a number does not change what is read |
| Tokens.TextOfTokenType | Renderer/Token.cs:198-217 | the end of file has the empty text, `)`, `(` and a line break have their one character, and an atom raises `NotSupportedException` |
| Tokens.TextOfTokenTypeInjective | Renderer/Token.cs:198-217 | no two token types share a text |
| Tokens.BooleanOf | Renderer/Token.cs:109-122 | true exactly for "Y" and "1", false exactly for "N" and "0", otherwise a format error quoting the raw token |
| Tokens.CharOf | Renderer/Token.cs:124-132 | succeeds exactly when the decoded text is one character long, and returns that character |
| Tokens.IntOf | Renderer/Token.cs:158-167 | succeeds exactly when the decoded text reads as an `int`, otherwise a format error quoting the raw token |
| Tokens.UnitAt | Renderer/Token.cs:43-49 | the indexer succeeds exactly inside the decoded text |
| Tokens.BooleanIsOneCharacter | Renderer/Token.cs:109-132 | every text read as a boolean also reads as a single character |
| Tokens.NumericBooleansAgree | Renderer/Token.cs:15-16 | "1" and "0" read as booleans agree with their integer values |
| Tokens.CharIsFirstUnit | Renderer/Token.cs:124-132 | `ToChar` returns what the indexer returns at 0 |
| Tokens.IntOfDecimal | Renderer/Token.cs:158-167 | every `int` written in decimal is read back by `ToInt` |
| Tokens.Token.constructor | Renderer/Token.cs:20-29 | a missing raw text is taken as empty, and nothing is decoded yet |
| Tokens.Token.Value | Renderer/Token.cs:18-24 | the first read decodes the raw text and keeps the result or the exception; later reads return it without decoding again |
| Tokens.Token.AsText | Renderer/Token.cs:71-74 | the string conversion returns the decoded text, decoding at most once |
| Tokens.Token.EqualsText | Renderer/Token.cs:86-94 | comparing a token with a string compares its decoded text; a decoding error propagates |
| Tokens.Token.At | Renderer/Token.cs:43-49 | the indexer reads the cached decoded text |
| Tokens.Token.ToBoolean | Renderer/Token.cs:109-122 | `BooleanOf` of the cached decoded text |
| Tokens.Token.ToChar | Renderer/Token.cs:124-132 | `CharOf` of the cached decoded text |
| Tokens.Token.ToInt | Renderer/Token.cs:158-167 | `IntOf` of the cached decoded text |
| Tokens.ReadTwice | Renderer/Token.cs:18-24 | after several typed reads of one token, its text has been decoded exactly once, and every read saw the same decoded text |
| Description.ReadKindAt | Renderer/Schematic/Description.cs:22 | a read with an expected type succeeds exactly when the next token has that type, and returns that token |
| Description.NextLineStops | Renderer/Schematic/Description.cs:46 | skipping to the next line stops right after the first line break, or at the end of the file when none comes first |
| Description.HeaderReadsHeaderAt | Renderer/Schematic/Description.cs:22-26 | a header that reads is an atom, an integer width, an integer height and a line break, in that order |
| Description.WellFormedHeaderWrites | Renderer/Schematic/Description.cs:22-32 | after such a header, exactly the width, the height and the view box are written, in that order, and the skip loop starts after the line break |
| Description.AttributesNeedHeader | Renderer/Schematic/Description.cs:22-32 | nothing is written unless the header reads, and a call that writes nothing fails; whatever is written is the three attributes of the header |
| Description.ViewBoxReadsBack | Renderer/Schematic/Description.cs:32 | the view box is `0 0 width height`, separated by single spaces, and each number reads back |
| Description.EndDescrStops | Renderer/Schematic/Description.cs:39-43 | a `$EndDescr` atom and its line break end the loop, right after the line break |
| Description.LineSkipped | Renderer/Schematic/Description.cs:44-47 | a line whose first atom is not `$EndDescr` is skipped whole, whatever it holds |
| Description.StopsAtFirstEnd | Renderer/Schematic/Description.cs:35-48 | a loop that completes stops after the first line starting with `$EndDescr` and its line break, and reads nothing beyond them |
| Description.LineSource.ReadKind | Renderer/Schematic/Description.cs:22 | `Read(TokenType)` returns a fresh, not yet decoded token, or a format error for another type, and moves the cursor as `ReadKindAt` does |
| Description.LineSource.ReadInt | Renderer/Schematic/Description.cs:24-25 | `Read(typeof(int))` reads the next token as an `int` |
| Description.LineSource.SkipToStartOfNextLine | Renderer/Schematic/Description.cs:46 | the cursor moves to just after the next line break |
| Description.Writer.WriteNonInheritedAttribute | Renderer/Schematic/Description.cs:30-32 | the attribute is appended to those already written |
| Description.ReadHeader | Renderer/Schematic/Description.cs:22-26 | the header reads give the width and height or the first error, as `Header` states |
| Description.SkipToEndOfDescription | Renderer/Schematic/Description.cs:35-48 | the `descriptionCompleted` loop ends where `SkipDescription` says, with its result |
| Description.Render | Renderer/Schematic/Description.cs:20-49 | the result, the cursor after the call and the attributes written are those `Rendered` gives |

## Left out

- `ToDouble` (Renderer/Token.cs:134-143) and the millimetre values of `width` and `height` (Renderer/Schematic/Description.cs:28): floating-point arithmetic and culture formatting. An attribute value `Millimetres(mils)` holds the number of mils it is computed from.
- `ToEnum`, `ToEnumOrDefault`, `GetEnumValueLookup`, `GetEnumStringValues` and `IsValidEnumValue`: reflection over enum types and a concurrent cache.
- `ToLowerInvariant` and `ToString`: library case mapping, and a plain getter.
- `Equals` and `GetHashCode`: they compare the `Lazy<string>` objects by reference, not decoded text.
- The `!=` operators: the negations of `==`, modelled by `Tokens.Token.EqualsText`.
- Tokens.Token.AsText: does not model the null token, for which the string conversion returns `null`.
- `PreceedingWhiteSpace` and `LineSource` fields of a token: they are kept as text only by the tokenizer.
- The line and column carried by format errors: an `Error` keeps only the offending text.
- `LineSource`, the tokenizer, is not part of this model. `Description.LineSource` stands in for it with these assumptions:
  - it is a finite token sequence ending in the one end-of-file token, whose text is empty;
  - reading at the end of file returns the end-of-file token again;
  - `Read(typeof(int))` reads the next token whatever its type;
  - `SkipToStartOfNextLine` moves past the next line-break token.
- Description.Render: assumes that `Read(typeof(int))` yields an `int`, so the view box prints the value read. `LineSource` is not part of this model; if that read returned the `Token` itself, `$"0 0 {width} {height}"` would print the token's raw text (`+0100` would stay `+0100`, where the model writes `100`).
- Description.ViewBox: writes a negative number with the invariant culture's `-`, where the interpolation at Renderer/Schematic/Description.cs:32 uses the current culture's negative sign.
- Description.ReadKindAt: a failed read still moves the cursor past the token, and `Render` states where the cursor ends after a failure. A C# caller sees only the exception, and where the tokenizer stands then is not modelled.
- Tokens.IntOf: models `int.TryParse` with `NumberStyles.Integer` and the invariant culture. That means white space U+0009-U+000D and U+0020 around it, an optional sign, and decimal digits. It does not model the trailing NUL characters .NET also accepts.
- Escapes.DecodeMultiCharacterEscapeCode: it returns the characters as a text instead of the lazily evaluated `IEnumerable<char>`. `Unescape` consumes that text at once, so nothing observable changes.
- `async`/`await`, cancellation, the output streams of the writer, and the `Description.Render(RenderContext, LineSource)` factory. The writer keeps only the list of attributes written to it.
- Renderer.Tests and Server/HttpRenderContext.cs: unit tests and HTTP request handling.
