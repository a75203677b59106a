# UniCCC core in Dafny

UniCCC is a console tool. It reads Unicode code points written as
command-line tokens and writes them out as UTF-16 big-endian bytes. This
project models the core of `UniCCC_Console/Program.cs`:

- **Tokenizing** (line 118). Every argument is cut at runs of commas and
  white space, and blank pieces are dropped (module `Tokenizer`).
- **Notation recognition** (lines 121-132). A token is tried against six
  anchored patterns in a fixed order, and the first one that matches decides
  the notation (module `Notation`):
  - `U+XXXX`;
  - `0xXXXX`;
  - `&#xHH;`;
  - `&#DDDD;`;
  - bare decimal;
  - bare hex.
- **Conversion and range check** (lines 122-141). The digit group goes
  through a model of `Convert.ToInt32`, including its 32-bit wrap of hex
  values and its overflow. The value is kept only when it lies in
  0..0x10FFFF; otherwise the token gets one diagnostic line (modules
  `Numerals` and `TokenParser`).
- **The `ParseTokensToCodePoints` loop** (lines 113-146). A method with loop
  invariants, proved against the function `CodePointsOf` for the code points
  and `DiagnosticsOf` for the diagnostics.
- **The UTF-16BE encode loop** (lines 66-87). A method proved against the
  function `EncodedBytes` and against `Surrogates`, the list of code points
  it warns about. The encoder is checked against the surrogate arithmetic of
  section 2.1 of RFC 2781. The decoder of section 2.2 of RFC 2781 serves as
  an independent partner: decoding the bytes gives the code points back
  whenever none of them is a surrogate (module `Utf16Be`).
- **The renderings** (module `Render`):
  - the `X2` hex dump of the bytes (line 97);
  - the `U+X4` code point list (line 105);
  - the display characters (line 106);
  - the surrogate warning text (line 73).

  The code point list is itself valid input: it parses back to the same
  code points.

Module `Scenarios` works example inputs through the model:
one token per notation, each kind of diagnostic, a batch, and the byte and
label renderings.

The code differs from a broader reading of the program's behaviour in a few
places. The model follows the code:

- There is no literal-character notation: a token such as `A` matches the
  bare-hex pattern.
- Because bare hex is tried last, a word made only of the letters a-f is not
  unrecognized but a code point: `bad` is read as U+0BAD.
- There is no interactive single-value path.
- A hex token wider than 32 bits, or a decimal one above 2147483647, makes
  `Convert.ToInt32` throw. The code
  does not catch that exception; see "Left out".

## Model

| member | source | states |
|---|---|---|
| Unicode.IsCodePoint | UniCCC_Console/Program.cs:138 | defines the accepted range: 0 to 0x10FFFF |
| Unicode.IsSurrogate | UniCCC_Console/Program.cs:72 | defines the surrogate range tested before the warning: 0xD800 to 0xDFFF |
| Tokenizer.SkipSeparators | UniCCC_Console/Program.cs:118 | the separator run the pattern `[,\s]+` consumes: what is removed is all separators, and what is left starts with a non-separator |
| Tokenizer.IsWhiteSpace | UniCCC_Console/Program.cs:118 | defines what `\s` matches: the characters `char.IsWhiteSpace` accepts |
| Tokenizer.IsSeparator | UniCCC_Console/Program.cs:118 | defines the character class `[,\s]`: a comma or a white-space character |
| Tokenizer.Split | UniCCC_Console/Program.cs:118 | defines `Regex.Split(s, @"[,\s]+")` as `SplitFrom` from an empty piece; SplitKeepsText and SplitAtSeparator state its behaviour |
| Tokenizer.IsNullOrWhiteSpace | UniCCC_Console/Program.cs:118 | defines `string.IsNullOrWhiteSpace`: every character is white space; BlankPieceIsEmpty relates it to split pieces |
| Tokenizer.SplitFrom | UniCCC_Console/Program.cs:118 | `Regex.Split` yields at least one piece, and no piece contains a comma or white space |
| Tokenizer.DropBlank | UniCCC_Console/Program.cs:118 | the `IsNullOrWhiteSpace` filter keeps only pieces that are not blank |
| Tokenizer.Tokens | UniCCC_Console/Program.cs:118 | every token is non-empty and holds no separator |
| Tokenizer.DropBlankConcat | UniCCC_Console/Program.cs:118 | filtering blanks distributes over concatenation |
| Tokenizer.TokensOfConcat | UniCCC_Console/Program.cs:118 | the tokens of several arguments are each argument's tokens, in argument order |
| Tokenizer.LeadingSeparatorsAreDropped | UniCCC_Console/Program.cs:118 | a leading separator run contributes no token |
| Tokenizer.SplitAtSeparator | UniCCC_Console/Program.cs:118 | a separator inside an argument cuts it into the tokens before it and the tokens after it |
| Tokenizer.SplitAtSeparatorFirst | UniCCC_Console/Program.cs:118 | a separator at the start of the rest ends the current piece |
| Tokenizer.SplitAtSeparatorAfterRun | UniCCC_Console/Program.cs:118 | a separator that extends a run adds no empty token |
| Tokenizer.SplitAfterSeparator | UniCCC_Console/Program.cs:118 | after a separator, the tokens are the current piece's, then those of the rest |
| Tokenizer.TokensAcrossSeparator | UniCCC_Console/Program.cs:118 | `a`, one separator, then `b` tokenizes as the tokens of `a` followed by the tokens of `b` |
| Tokenizer.TokensOfOne | UniCCC_Console/Program.cs:118 | one argument's tokens are its non-blank split pieces |
| Tokenizer.SplitWord | UniCCC_Console/Program.cs:118 | text without separators is never split |
| Tokenizer.TokensOfWord | UniCCC_Console/Program.cs:118 | a non-empty word without separators is exactly one token |
| Tokenizer.SkipSeparatorsKeepsText | UniCCC_Console/Program.cs:118 | skipping separators removes no other character |
| Tokenizer.SplitKeepsText | UniCCC_Console/Program.cs:118 | the pieces, concatenated, are the argument with its separators deleted |
| Tokenizer.BlankPieceIsEmpty | UniCCC_Console/Program.cs:118 | a split piece is blank if and only if it is empty |
| Tokenizer.DropBlankKeepsText | UniCCC_Console/Program.cs:118 | dropping blank pieces loses no character |
| Tokenizer.TokensKeepText | UniCCC_Console/Program.cs:118 | tokenizing loses no non-separator character and adds none: the tokens concatenate to the argument without separators |
| Numerals.IsDecimalDigit | UniCCC_Console/Program.cs:127-130 | defines the character class `[0-9]` |
| Numerals.IsHexDigit | UniCCC_Console/Program.cs:121-126 | defines the character class `[0-9A-Fa-f]` |
| Numerals.IsNumeral | UniCCC_Console/Program.cs:121-132 | defines the digit groups `[0-9]+` and `[0-9A-Fa-f]+`: one or more digits of the radix |
| Numerals.DigitValue | UniCCC_Console/Program.cs:121-132 | a hex digit's value is below 16, and below 10 exactly for the decimal digits |
| Numerals.Value | UniCCC_Console/Program.cs:122-132 | defines the number a digit string denotes in a radix, most significant digit first; ValueBelowPower and LeadingZerosKeepValue state its properties |
| Numerals.ValueBelowPower | UniCCC_Console/Program.cs:122 | a k-digit numeral is below radix^k |
| Numerals.LeadingZerosKeepValue | UniCCC_Console/Program.cs:122 | leading zeros do not change a numeral's value |
| Numerals.AllZerosHaveNoValue | UniCCC_Console/Program.cs:122 | a run of zeros is worth 0 |
| Numerals.ToInt32 | UniCCC_Console/Program.cs:122-132 | `Convert.ToInt32`: base 10 overflows exactly above int.MaxValue; base 16 overflows exactly above 0xFFFFFFFF; a result lies in the int range, agrees with the numeral's value modulo 2^32, and equals that value whenever the value fits an int or the result is non-negative |
| Numerals.ShortNumeralsConvertExactly | UniCCC_Console/Program.cs:122-132 | up to 7 hex or 9 decimal digits convert to exactly their value; up to 8 hex digits never overflow |
| Numerals.DigitChar | UniCCC_Console/Program.cs:97 | the digit written for a value below 16 is an upper-case hex digit of that value |
| Numerals.Digits | UniCCC_Console/Program.cs:105 | the shortest upper-case numeral of n, with no leading zero, reading back as n |
| Numerals.DigitsWithin | UniCCC_Console/Program.cs:105 | a number below radix^k takes at most k digits |
| Numerals.Format | UniCCC_Console/Program.cs:97 | the `Xk` format: an upper-case numeral of n, at least k wide, exactly k wide when n fits k digits, and without a leading zero when wider |
| Numerals.DecimalString | UniCCC_Console/Program.cs:139 | an `int` as interpolation writes it: its decimal digits without leading zeros, after a minus sign when negative |
| Notation.Spells | UniCCC_Console/Program.cs:121-132 | defines the language of each of the six anchored patterns: the notation's prefix, a digit group of its radix, and for the two character references an optional `;` |
| Notation.Capture | UniCCC_Console/Program.cs:121-132 | whatever a pattern captures is a digit group that spells the token in that notation |
| Notation.Recognize | UniCCC_Console/Program.cs:120-134 | the recognized notation spells the token |
| Notation.CaptureComplete | UniCCC_Console/Program.cs:121-132 | each anchored pattern matches every spelling of its notation, optional `;` included, and captures its digit group |
| Notation.RecognizeFirstMatch | UniCCC_Console/Program.cs:121-132 | first match wins: a token spelled in some notation is recognized, by a notation tried no later |
| Notation.UnrecognizedIffNoNotation | UniCCC_Console/Program.cs:133-134 | a token reaches the unrecognized branch if and only if no notation spells it |
| Notation.RecognizeSpelled | UniCCC_Console/Program.cs:121-132 | a spelling is read in its own notation and digit group, except a bare all-decimal run, which is read as decimal |
| Notation.ShapeOfSpelling | UniCCC_Console/Program.cs:121-132 | a token's leading characters determine its notation, apart from the bare decimal/hex overlap |
| Notation.NotationsDisjoint | UniCCC_Console/Program.cs:121-132 | no token is spelled in two notations, apart from the bare decimal/hex overlap |
| Notation.BareDecimalTokens | UniCCC_Console/Program.cs:129-130 | a bare run of decimal digits is read as decimal |
| Notation.BareHexTokens | UniCCC_Console/Program.cs:131-132 | a bare hex run with a letter is read as hex |
| TokenParser.UnrecognizedMessage | UniCCC_Console/Program.cs:134 | defines the text `Unrecognized token: '<t>'` |
| TokenParser.OutOfRangeMessage | UniCCC_Console/Program.cs:139 | defines the text `Out of range: <t> -> <val>`, with the value written by `DecimalString` |
| TokenParser.OverflowMessage | UniCCC_Console/Program.cs:122-132 | defines the text `Overflow: <t>`, reported where `Convert.ToInt32` throws (see Left out) |
| TokenParser.TokenValue | UniCCC_Console/Program.cs:120-132 | defines the conversion of the first matching notation's digit group, None when no pattern matches; ConvertToken is proved equal to it |
| TokenParser.Judge | UniCCC_Console/Program.cs:133-142 | what a token contributes, given its conversion; a contributed code point lies in 0..0x10FFFF |
| TokenParser.Classify | UniCCC_Console/Program.cs:120-142 | one pass of the loop body; an accepted value is always a code point |
| TokenParser.AcceptedIsNotationValue | UniCCC_Console/Program.cs:120-142 | a token is accepted if and only if it is recognized and its digits denote at most 0x10FFFF, and it is then accepted with exactly that number, never a wrapped one |
| TokenParser.SpelledCodePointAccepted | UniCCC_Console/Program.cs:120-142 | conversely, a spelling whose digits denote a code point is accepted with that code point |
| TokenParser.UnrecognizedExactly | UniCCC_Console/Program.cs:133-134 | the "Unrecognized token" diagnostic is given if and only if no notation spells the token |
| TokenParser.LargeNumbersDiagnosed | UniCCC_Console/Program.cs:136-139 | a recognized number above 0x10FFFF is diagnosed. It is an overflow above the conversion's limit. Otherwise it is "Out of range" with the converted value, which is negative when eight hex digits wrap |
| TokenParser.CodePointsOf | UniCCC_Console/Program.cs:136-141 | defines the accepted code points of a token list, in token order; CodePointsInRange, ParseOfConcat and AllAccepted state its properties |
| TokenParser.DiagnosticsOf | UniCCC_Console/Program.cs:133-139 | defines the diagnostics of a token list, in token order; EachTokenCountedOnce and UnrecognizedExactly state its properties |
| TokenParser.CodePointsInRange | UniCCC_Console/Program.cs:136-141 | every returned code point lies in 0..0x10FFFF |
| TokenParser.EachTokenCountedOnce | UniCCC_Console/Program.cs:118-143 | each token yields exactly one code point or one diagnostic |
| TokenParser.ParseOfConcat | UniCCC_Console/Program.cs:118-143 | both lists keep token order: a batch's results are its parts' results, concatenated |
| TokenParser.AllAccepted | UniCCC_Console/Program.cs:136-141 | tokens that are all accepted give their code points, in order, and no diagnostic |
| TokenParser.ParseStep | UniCCC_Console/Program.cs:118-143 | one more token appends its code point or its diagnostic to the right list and leaves the other list alone |
| TokenParser.ConvertToken | UniCCC_Console/Program.cs:120-134 | the if-chain of pattern tests returns the conversion of the first matching notation, or nothing when none matches |
| TokenParser.ParseTokensToCodePoints | UniCCC_Console/Program.cs:113-146 | the loop returns, in token order, the accepted code points and the diagnostics of the tokens of all inputs. All the code points are in range, and the two lists together have one entry per token |
| Utf16Be.CodeUnits | UniCCC_Console/Program.cs:70-86 | up to U+FFFF one unit equal to the code point; above it a high then a low surrogate that recombine to the code point (section 2.1 of RFC 2781) |
| Utf16Be.BigEndian | UniCCC_Console/Program.cs:74-75 | two bytes per unit, high byte first, reading back as the unit |
| Utf16Be.EncodeCodePoint | UniCCC_Console/Program.cs:70-86 | the bytes for one code point: `(cp >> 8) & 0xFF`, then `cp & 0xFF` up to U+FFFF. Above U+FFFF, four bytes forming a high then a low surrogate whose 10-bit payloads recombine to the code point |
| Utf16Be.SupplementaryBytes | UniCCC_Console/Program.cs:79-85 | the loop's shifts and masks for `high` and `low` give exactly those four bytes |
| Utf16Be.EncodedBytes | UniCCC_Console/Program.cs:67-87 | the byte list has the length `EncodedLength` predicts |
| Utf16Be.EncodedLength | UniCCC_Console/Program.cs:67-87 | the byte count is even and between 2 and 4 bytes per code point |
| Utf16Be.EncodedBytesOfConcat | UniCCC_Console/Program.cs:68 | code points are encoded independently, in order |
| Utf16Be.Surrogates | UniCCC_Console/Program.cs:72-73 | defines the code points warned about, in order; SurrogatesExactly characterizes them |
| Utf16Be.SurrogatesExactly | UniCCC_Console/Program.cs:72-73 | a value is warned about if and only if it is one of the code points and a surrogate |
| Utf16Be.EncodeStep | UniCCC_Console/Program.cs:68-87 | one more code point appends its bytes and, for a surrogate, its warning |
| Utf16Be.EncodeAll | UniCCC_Console/Program.cs:66-87 | the loop produces exactly `EncodedBytes` of the code points and warns about exactly their surrogates, in order |
| Utf16Be.Units | UniCCC_Console/Program.cs:74-85 | the bytes read back as half as many 16-bit units |
| Utf16Be.UnitsOfConcat | UniCCC_Console/Program.cs:74-85 | reading units distributes over concatenation |
| Utf16Be.UnitsOfBigEndian | UniCCC_Console/Program.cs:74-85 | units written high byte first read back as themselves |
| Utf16Be.DecodeCodeUnits | UniCCC_Console/Program.cs:70-86 | the decoder of section 2.2 of RFC 2781 reads a scalar value's units back as that scalar value |
| Utf16Be.DecodeInvertsEncode | UniCCC_Console/Program.cs:66-87 | decoding the bytes gives back the code points whenever none is a surrogate |
| Utf16Be.SurrogatePairAlias | UniCCC_Console/Program.cs:72-73 | the two surrogates of a supplementary code point, given one by one, encode to its very bytes: why a surrogate draws a warning |
| Render.HexByte | UniCCC_Console/Program.cs:97 | `X2` writes a byte as two upper-case hex digits of its value |
| Render.Join | UniCCC_Console/Program.cs:97 | defines `string.Join`: the words with one separator between neighbours; JoinPairsAt and TokensOfJoin state its layout |
| Render.HexBytes | UniCCC_Console/Program.cs:97 | one word per byte, each two upper-case hex digits reading back as that byte |
| Render.HexDump | UniCCC_Console/Program.cs:97 | the hex line is three characters per byte less the last space |
| Render.JoinPairsLength | UniCCC_Console/Program.cs:97 | two-character words joined by spaces take 3n-1 characters |
| Render.JoinPairsAt | UniCCC_Console/Program.cs:97 | word i sits at 3i..3i+2, followed by a space unless it is the last |
| Render.HexDumpLayout | UniCCC_Console/Program.cs:97 | the hex line is 3n-1 characters long: byte i's `X2` digits at positions 3i and 3i+1, and a space after each byte but the last |
| Render.CodePointLabel | UniCCC_Console/Program.cs:105 | `U+` then upper-case hex digits of the code point: exactly four digits up to U+FFFF, more above and then without a leading zero |
| Render.Labels | UniCCC_Console/Program.cs:105 | defines one `U+X4` label per code point, in order; ParseLabels states that they read back as the code points |
| Render.CodePointList | UniCCC_Console/Program.cs:105 | the code point line splits back into exactly its labels, and its only separators are single spaces between labels |
| Render.JoinIsSingleSpaced | UniCCC_Console/Program.cs:105 | words without separators joined by one space have no separator at either end and never two in a row |
| Render.LabelReadsBack | UniCCC_Console/Program.cs:105 | a label parses back as its own code point |
| Render.TokensOfJoin | UniCCC_Console/Program.cs:105 | words without separators, joined by spaces, tokenize back into the same words |
| Render.LabelIsWord | UniCCC_Console/Program.cs:105 | a label is non-empty and holds no separator |
| Render.ParseLabels | UniCCC_Console/Program.cs:105 | the labels, as tokens, give back the code points and no diagnostic |
| Render.CodePointListReadsBack | UniCCC_Console/Program.cs:105 | the code point line, given back as input, parses to the same code points in order with no diagnostic |
| Render.SurrogateWarning | UniCCC_Console/Program.cs:73 | the warning is `Warning: U+`, the code point's upper-case hex digits, then ` is a surrogate code unit.`; 41 characters exactly up to U+FFFF, and no leading zero when longer |
| Render.DisplayChar | UniCCC_Console/Program.cs:106 | `char.ConvertFromUtf32` succeeds if and only if the code point is a scalar value, and then gives that character |
| Render.DisplayString | UniCCC_Console/Program.cs:106 | the string line exists if and only if every code point is a scalar value, and is then those characters in order |
| Scenarios.UPlusExample | UniCCC_Console/Program.cs:121-122 | `U+0041` is accepted as 0x41 |
| Scenarios.ZeroXExample | UniCCC_Console/Program.cs:123-124 | `0x1F600` is accepted as 0x1F600 |
| Scenarios.HexReferenceExample | UniCCC_Console/Program.cs:125-126 | `&#x1F600;` and `&#x1F600` are both accepted as 0x1F600 |
| Scenarios.DecimalReferenceExample | UniCCC_Console/Program.cs:127-128 | `&#128512;` is accepted as 0x1F600 |
| Scenarios.BareDecimalExample | UniCCC_Console/Program.cs:129-130 | a bare `65` is decimal, giving 65 |
| Scenarios.BareHexExample | UniCCC_Console/Program.cs:131-132 | a bare `1F600` is hex |
| Scenarios.OutOfRangeExample | UniCCC_Console/Program.cs:138-139 | `U+110000` gives "Out of range: U+110000 -> 1114112" |
| Scenarios.WrappedExample | UniCCC_Console/Program.cs:123-139 | `0xFFFFFFFF` wraps to -1 and gives "Out of range: 0xFFFFFFFF -> -1" |
| Scenarios.OverflowExample | UniCCC_Console/Program.cs:123-124 | `0x100000000` gives the overflow diagnostic |
| Scenarios.UnrecognizedExample | UniCCC_Console/Program.cs:133-134 | `xyz!` gives "Unrecognized token: 'xyz!'" |
| Scenarios.LetterWordExample | UniCCC_Console/Program.cs:131-132 | `bad`, all letters a-f, is accepted as 0xBAD rather than unrecognized |
| Scenarios.BadTokenExample | UniCCC_Console/Program.cs:133-134 | `zz` gives "Unrecognized token: 'zz'" |
| Scenarios.SecondTokenExample | UniCCC_Console/Program.cs:123-124 | `0x42` is accepted as 0x42 |
| Scenarios.BatchExample | UniCCC_Console/Program.cs:113-146 | `U+0041 zz 0x42` gives code points 0x41, 0x42 and one diagnostic, for `zz` |
| Scenarios.EncodeExample | UniCCC_Console/Program.cs:66-87 | A and U+1F600 encode to 00 41 D8 3D DE 00 |
| Scenarios.HexBytesExample | UniCCC_Console/Program.cs:97 | those bytes format as 00, 41, D8, 3D, DE, 00 |
| Scenarios.JoinExample | UniCCC_Console/Program.cs:97 | joined with spaces they read `00 41 D8 3D DE 00` |
| Scenarios.HexDumpExample | UniCCC_Console/Program.cs:97 | the hex line of those bytes is `00 41 D8 3D DE 00` |
| Scenarios.LabelsExample | UniCCC_Console/Program.cs:105 | A and U+1F600 are labelled `U+0041` and `U+1F600` |
| Scenarios.CodePointListExample | UniCCC_Console/Program.cs:105 | their code point line is `U+0041 U+1F600` |
| Scenarios.SurrogateExample | UniCCC_Console/Program.cs:70-75 | U+D83D alone encodes to D8 3D and is warned about |
| Scenarios.SurrogateWarningExample | UniCCC_Console/Program.cs:73 | the warning reads "Warning: U+D83D is a surrogate code unit." |

## Left out

- Option parsing and the help text (Program.cs lines 5-49) are not modelled; the help block does not stop the run because its `return` is commented out (line 25). The model starts from the token list.
- Console and error-stream output, the "No valid code points." exit with status 1 (lines 54-64), and the choice between the hex-only and the full display (lines 99-108) are left out as I/O. The lines' contents are modelled by `Render`.
- The file write and its message (lines 90-94) are left out as I/O.
- The regular-expression engine is not modelled: each pattern is written as its language (`Notation.Spells`) and as a direct matcher (`Notation.Capture`).
- `$` in .NET regular expressions also matches before a final newline. A token cannot hold a newline, because `\s` splits on it, so this is not modelled.
- TokenParser.Classify: `Convert.ToInt32` throws `OverflowException` for a digit group that does not fit. The source does not catch it, so the run ends. The model reports the diagnostic "Overflow: <token>" and carries on with the next token.
- Render.DisplayChar: `char.ConvertFromUtf32` throws for a surrogate, and the source does not catch it. The model returns None, and DisplayString is then None.
- Strings are sequences of Unicode scalar values, not of UTF-16 code units. A token holding a character above U+FFFF is never a numeral, so no result depends on this.
- White space follows the set of `char.IsWhiteSpace`, written out as code point ranges.
- The shifts, masks and `|` of the encoder are written as division, remainder and addition on non-negative integers. On the operands that occur there (0..0x10FFFF) these are equivalent. The `(byte)` casts are the remainders by 0x100.
- Numerals.DecimalString: interpolating an `int` uses the current culture's negative sign; the model takes it to be '-' (the invariant culture's sign).
- Render.CodePointLabel: requires a non-negative value, since only range-checked code points are ever formatted.
- Utf16Be.EncodeAll: the warnings are returned as the list of surrogate code points, not printed; `Render.SurrogateWarning` gives each one's text.
