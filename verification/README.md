# A Dafny model of the TOML parser in `dist/index.js`

The bundled JavaScript action carries a TOML 1.0 parser (`parse`, with
`parseKey`, `extractValue`, `parseArray`, `parseInlineTable`, `peekTable`,
`parseString`, `parseValue`, the `TomlDate` constructor and the cursor
helpers `skipVoid`, `skipUntil`, `skipComment`, `getStringEnd`, …). This
project restates that parser as pure Dafny functions over `string` and
proves what each step promises: where a cursor stops and why; when a key,
string, number or date is accepted and which error refuses it; what bare
and quoted key parts, literal strings, serialised basic strings, integers
and date-times read as; when a table declaration is refused; that no value
nests deeper than the depth limit; and that the document tree never names
a key twice.

Every error of the JavaScript parser is an `Err(TomlError(kind, ptr))`
carrying the offset it reports; `ErrorKind` names one kind per message.
Where the code evidently does not do what it means to (see "## Findings"),
the function takes a `Reading`: `AsWritten` follows the code, `Corrected`
follows the intent, and both are kept side by side. The one exception is
the restart in `skipUntil`: both readings of value extraction use the
corrected loop, and the loop as written is modelled on its own
(`Cursor.SkipUntilAsWritten`; see "## Left out").

| module | file | models |
|---|---|---|
| `Results` | results.dfy | `Option`, `Result`, error kinds, the `Reading` switch |
| `Text` | text.dfy | the JavaScript string built-ins used (`indexOf`, `slice`, `trimEnd`, `trimStart`, `str[i] === c`) |
| `Cursor` | cursor.dfy | `getLineColFromPtr`, `isEscaped`, `indexOfNewline`, `skipComment`, `skipVoid`, `skipUntil`, `getStringEnd` |
| `StringLit` | strings.dfy | `parseString` (basic, literal, multi-line; escapes) |
| `DateTimes` | datetimes.dfy | `DATE_TIME_RE`, the `TomlDate` constructor and `isValid` |
| `Scalars` | scalars.dfy | `parseValue`, `INT_REGEX`, `FLOAT_REGEX`, `LEADING_ZERO` |
| `Values` | values.dfy | the value tree and the table-state tree, merged into one; nesting depth |
| `KeyParser` | keys.dfy | `parseKey`, `KEY_PART_RE` |
| `Tables` | tables.dfy | `peekTable` |
| `Extract` | extract.dfy | `sliceAndTrimEndOf`, `extractValue`, `parseArray`, `parseInlineTable` |
| `Document` | document.dfy | `parse` |
| `Statements` | statements.dfy | single lines, and three small documents run through `parse` |

The JavaScript parser keeps two parallel trees: the plain objects returned
to the caller, and a shadow tree of table states (`t`: DOTTED, EXPLICIT,
ARRAY, ARRAY_DOTTED; `d`: defined; `c`: children). The model merges them.
A table node `Tbl(kind, defined, kids)` keeps its entries in insertion
order. A key assigned a value is a `Leaf`, which is the state
`{DOTTED, d: true}`. An array of tables `Arr(init, last)` is never empty:
`last` is where later paths lead. Where the driver of `parse` holds the
current table object itself, the model holds its key path from the root.

## Model

| member | source | states |
|---|---|---|
| Text.IndexOf | dist/index.js:509 | `indexOf` answers -1 or an occurrence at or after the start, and no occurrence lies between the start and the answer |
| Text.IndexOfSeq | dist/index.js:162 | `indexOf` of a delimiter answers -1 or an occurrence at or after the start, and no earlier occurrence lies after the start |
| Text.Slice | dist/index.js:508 | `slice` within bounds is the subsequence between them; a non-empty slice comes from an ordered pair of offsets with the start inside the text |
| Text.Clamp | dist/index.js:508 | an offset given to `slice` is clamped into the text, and one already inside stays as it is |
| Text.TrimEnd | dist/index.js:515 | `trimEnd` removes only white space, from the end, and what it keeps does not end in white space |
| Text.TrimStart | dist/index.js:652 | `trimStart` removes only white space, from the start, and what it keeps does not start with white space |
| Cursor.LineColOf | dist/index.js:33-36 | the line is one plus the number of line breaks (`\r\n`, `\n` or `\r`, a `\r\n` counting once) in the text; the column is one plus the length of the last line: a line break stands right before it and none inside it; with no line break the column is the length plus one |
| Cursor.LineCol | dist/index.js:33-36 | for an offset into a document: the line is one plus the line breaks before the offset, and the column counts from just after the last of them |
| Cursor.IsEscaped | dist/index.js:97-102 | a character is escaped exactly when the run of backslashes right before it has odd length |
| Cursor.RunBeforeUnique | dist/index.js:97-102 | the backslash run before an offset has exactly one length, so `IsEscaped` is well defined |
| Cursor.BackslashRun | dist/index.js:99-100 | every counted character is a backslash and the one before the run is not |
| Cursor.IndexOfNewline | dist/index.js:103-108 | the answer is -1 or the start of a line break no later than `end`: a `\n` after no `\r`, or the `\r` of `\r\n`, with no `\n` between the start and it; -1 means that every `\n` after the start begins (with its `\r`, if any) beyond `end` |
| Cursor.ScanComment | dist/index.js:109-124 | the loop of `skipComment` stops at a `\n` or the end with a well-formed comment body, or fails at the comment start because a banned character lies ahead |
| Cursor.SkipComment | dist/index.js:109-124 | success gives the `\n` ending the comment, or the end of the text, with no banned character before it; failure, reported at the comment start, happens exactly when a banned character (control character other than tab, DEL, or a lone `\r`) precedes the first `\n` |
| Cursor.SkipBlanks | dist/index.js:127-128 | every skipped offset is a space, a tab or (unless banned) a line break, and the stop is not one |
| Cursor.SkipVoid | dist/index.js:125-132 | the result stops where neither a blank nor (unless banned) a comment starts; it moves past a leading blank; with comments banned it never fails and skips only blanks; it fails only on a bad comment |
| Cursor.SkipVoidStops | dist/index.js:125-132 | with comments allowed, every skipped offset is a blank or lies inside a comment, and the stop is neither: the result is the first offset that is not skippable |
| Cursor.SkipVoidFails | dist/index.js:125-132 | a failure is reported at a `#` whose comment holds a banned character, and everything before it is skippable |
| Cursor.SkipVoidClean | dist/index.js:125-132 | what is skipped holds no control character other than tabs and line breaks |
| Cursor.SkipVoidRejectsBadComment | dist/index.js:125-132 | a comment holding a banned character, after the blanks, makes `skipVoid` fail at its `#` |
| Cursor.ScanUntil | dist/index.js:138-153 | the loop of `skipUntil` stops just past a separator, or at the end character or a banned line break; its only failure is an unterminated structure, reported at the start |
| Cursor.ScanUntilFirstStop | dist/index.js:138-153 | the stop is the first separator, end character or banned line break that is not inside a comment; failure means there is no such stop before the end of the text |
| Cursor.SkipUntil | dist/index.js:133-154 | without an end character it stops at the end of the line, or the end of the text, and never fails; inside a structure it stops where `UntilStop` holds, never before the start |
| Cursor.SkipUntilFirstStop | dist/index.js:133-154 | inside a structure the answer is the first stop outside comments (just past it for a separator), and it fails, at the start, exactly when there is none |
| Cursor.SkipUntilAsWrittenHangs | dist/index.js:133-154 | on `x = [1 # c`, the loop as written never ends, while `SkipUntil` reports an unterminated structure |
| Cursor.SkipUntilAsWrittenMovesBack | dist/index.js:133-154 | on `x = [1, 2 # c`, the loop as written answers an offset before the value it started at, while `SkipUntil` reports an unterminated structure |
| Cursor.FindClosing | dist/index.js:161-163 | the answer is the first occurrence of the delimiter that is unescaped (or any occurrence in a literal string), or -1 when there is none |
| Cursor.FindClosingFirst | dist/index.js:159-163 | the search after the opening delimiter answers -1 exactly when no closing delimiter follows, and otherwise the first one |
| Cursor.GetStringEnd | dist/index.js:155-174 | -1 exactly when no closing delimiter follows the opening one; otherwise the end lies past the opening and right after a quote equal to the opening one, and for a one-quote string every quote before the closing one is escaped (literal strings have none) |
| Cursor.GetStringEndCloses | dist/index.js:155-174 | a found end lies just after the first closing delimiter, or after at most two more quotes of its kind for a triple-quoted string |
| Cursor.TripleStringEnd | dist/index.js:155-174 | a triple-quoted string is -1 exactly when unclosed; otherwise it ends after its first closing triple and the up to two quotes of its kind that follow it |
| Cursor.TripleClosing | dist/index.js:161-163 | a triple delimiter, once found, lies after the opening one and inside the text |
| Cursor.QuotesAfter | dist/index.js:164-171 | at most two more quote characters are taken, all of the string's kind, and fewer only when the next character is not one |
| Cursor.SingleStringEnd | dist/index.js:155-174 | a one-quote string is -1 exactly when unclosed; otherwise it ends right after its first closing quote, and every earlier quote of its kind is escaped |
| Cursor.ClosingEnd | dist/index.js:161-166 | a delimiter that is found fits inside the text and ends with its last character |
| Cursor.SingleClosing | dist/index.js:161-163 | every quote before the closing one of a one-quote string is escaped |
| StringLit.UnicodeScalar | dist/index.js:376-394 | an escape is accepted only with 4 to 8 hex digits, and then exactly when the value they spell is below 0xD800 or from 0xE000 to 0x10FFFF; it denotes that value |
| StringLit.Step | dist/index.js:358-422 | one iteration moves forward or opens an escape at the backslash; a line break fails as a newline in a string exactly outside multi-line strings; another control character fails as such; a `\u` or `\U` escape naming no scalar value fails at its backslash; an escape letter `ESC_MAP` does not know fails as unknown, except the blank that starts a line continuation in a multi-line string; at a line-ending backslash (a blank or line break after it, in a multi-line string) the blanks must reach a line break or the escape fails as invalid at its backslash, and on success the white space after that line break is skipped, nothing is appended and the decoded text restarts there |
| StringLit.Continuation | dist/index.js:395-404 | a line-ending backslash fails as an invalid escape, at the backslash, when the blanks after it do not reach a line break; otherwise parsing goes on past the white space that follows the line break, with nothing appended |
| StringLit.StepClean | dist/index.js:358-422 | every character an iteration steps over is admissible: no control character, and a line break only in a multi-line string |
| StringLit.Loop | dist/index.js:358-424 | the loop fails only with string errors, a line break failing only outside multi-line strings; success means that every character of the body is admissible |
| StringLit.BodyStart | dist/index.js:345-353 | the body starts right after a single opening quote; after a triple quote it starts past an optional `\r` and then an optional `\n`: three on when neither follows, five when `\r\n` follows, and four when `\n` or a `\r` without `\n` follows |
| StringLit.ParseStringWith | dist/index.js:344-425 | under either reading, success means every character of the body is admissible, and comment errors arise only when comments are not banned |
| StringLit.ParseString | dist/index.js:344-425 | read correctly, no comment error can arise, a line break fails only in a string that is not triple-quoted, and success means the body is admissible |
| StringLit.ParseStringAsWritten | dist/index.js:344-425 | as written, the decoder fails only with string errors, a line break fails only in a string that is not triple-quoted, and success means the body is admissible |
| StringLit.SingleLineRaw | dist/index.js:358-373 | a raw line break or control character inside the body of a string that is not triple-quoted makes it fail under both readings |
| StringLit.StepPlain | dist/index.js:358-373 | a plain character is stepped over without decoding anything |
| StringLit.LoopLiteral | dist/index.js:358-424 | a literal string is accepted exactly when each character is plain (no control character, no line break unless multi-line), and it reads as the text between its delimiters |
| StringLit.LoopPlainRun | dist/index.js:358-424 | a run of plain characters leaves the decoder's state as it was, apart from its position |
| StringLit.HexChar | dist/index.js:334 | the hex digit written for a value below 16 reads back as that value |
| StringLit.HexPairValue | dist/index.js:376-394 | `00` and two hex digits spell the character code below 128 they were made from |
| StringLit.EscapeChar | dist/index.js:335-343 | a serialiser's escape of one character is the character itself, a short escape that `ESC_MAP` maps back to it, or a `\u` escape naming it |
| StringLit.Escape | dist/index.js:335-343 | the serialised text of a non-empty string is non-empty and never starts with a quote |
| StringLit.LoopEscapedPlain | dist/index.js:358-424 | a plain character of the serialised text decodes to itself |
| StringLit.StepBackslash | dist/index.js:418-422 | a backslash opens an escape, flushing the text before it |
| StringLit.StepShortEscape | dist/index.js:406-409 | a short escape appends the character `ESC_MAP` gives it |
| StringLit.StepUnicodeEscape | dist/index.js:376-394 | a `\u` escape (four hex digits) or a `\U` escape (eight) naming a scalar value appends that character and goes on after its digits |
| StringLit.LoopEscapedShort | dist/index.js:358-424 | a short escape in the serialised text decodes to the character it stands for |
| StringLit.LoopEscapedUnicode | dist/index.js:358-424 | a `\u00XX` escape in the serialised text decodes to the character it names |
| StringLit.LoopEscaped | dist/index.js:358-424 | the serialised text of any string decodes to that string |
| StringLit.QuoteRoundTrip | dist/index.js:344-425 | any string, written as a single-line basic string, parses back to itself |
| StringLit.LoopSingleLine | dist/index.js:395-404 | outside multi-line strings the two readings of the escape skip decode alike |
| StringLit.SingleLineSame | dist/index.js:344-425 | a string that is not triple-quoted, as in a key, reads the same either way |
| StringLit.HashLineEnd | dist/index.js:155-174 | in `"""a\`, `#b`, `"""` the closing delimiter ends the document |
| StringLit.HashLineEscape | dist/index.js:358-422 | after `a` the decoder stands on the line-ending backslash with `a` decoded |
| StringLit.HashLineAsWritten | dist/index.js:395-404 | as written, the skip after the backslash runs over the line `#b` and the value is `a` |
| StringLit.HashLineCorrected | dist/index.js:395-404 | with comments not skipped, the value is `a#b` and a line break |
| StringLit.ContinuationSwallowsHashLine | dist/index.js:395-404 | in `x = """a\`, `#b`, `"""` the string ends at the closing quotes; as written its value loses the line `#b`, corrected it keeps it |
| StringLit.ContinuationJoins | dist/index.js:395-404 | in a multi-line basic string, plain text `a`, a backslash, blanks, a line break (`\n` or `\r\n`), blanks and plain text `b` not starting with a blank read as `a` followed by `b`; as written too, unless `b` starts with `#` |
| StringLit.ContinuationGapJoins | dist/index.js:395-404 | the same, with the white space after the backslash given as one piece: blanks, one line break, blanks |
| StringLit.HashAfterBackslashAsWritten | dist/index.js:395-397 | as written, in `"""a\ #x`, line break, `b"""` the first skip after the backslash runs over `#x` as a comment and the value is `ab` |
| StringLit.HashAfterBackslashCorrected | dist/index.js:395-400 | read correctly, `#x` is no line-ending white space, and the escape fails as invalid at the backslash, offset 4 |
| StringLit.CommentAfterContinuation | dist/index.js:395-404 | both readings of that string, side by side |
| DateTimes.DigitRun | dist/index.js:203 | the run holds only digits and ends before a non-digit or at the end |
| DateTimes.FractionEnd | dist/index.js:203 | a fraction is a `.` followed by at least one digit, taking every digit there is; there is none when the `.` is not followed by a digit |
| DateTimes.OffsetEnd | dist/index.js:203 | the offset is one character exactly when it is `Z` or `z`, six exactly when it is a sign and `hh:mm`, and otherwise empty |
| DateTimes.MatchDateTime | dist/index.js:203 | a match with a date part starts with `yyyy-mm-dd`, and a captured offset is non-empty |
| DateTimes.MatchDateTimeSound | dist/index.js:203 | every match comes from a split of the text into the four optional parts of `DATE_TIME_RE`, and records what that split captures |
| DateTimes.MatchDateTimeComplete | dist/index.js:203 | every split of the text into the four parts of the pattern is found, with what it captures |
| DateTimes.MatchDateTimeIff | dist/index.js:203 | the matcher answers exactly for the texts in the language of `DATE_TIME_RE` |
| DateTimes.AsciiUpper | dist/index.js:228 | upper-casing changes only the letters `a` to `z` |
| DateTimes.DateText | dist/index.js:215-231 | a time without a date is placed on `0000-01-01T`, and a time without an offset gets `Z`; the rest is the value itself, with the space between date and time turned into `T` and every letter upper-cased |
| DateTimes.ParseDateSplit | dist/index.js:204-258 | a value split into the parts of the pattern is a date-time exactly when it has a date or a time part, its hour is at most 23, and the `Date` constructor accepts its text; the result records the date part, the time part, the offset as written and that text |
| DateTimes.ParseDateNoMatch | dist/index.js:213-258 | a value outside the language of the pattern is no date-time: its text becomes empty, which `Date` refuses |
| DateTimes.LocalDate | dist/index.js:204-258 | `yyyy-mm-dd` is a local date, handed to `Date` as written |
| DateTimes.LocalTime | dist/index.js:204-258 | `hh:mm:ss` is a local time, handed to `Date` on `0000-01-01` in UTC |
| DateTimes.HourRollover | dist/index.js:222-225 | a time whose hour is above 23 is no date-time |
| DateTimes.SpacedShape | dist/index.js:203 | `yyyy-mm-dd hh:mm:ssz` matches with a date, a time and the offset `z` |
| DateTimes.SpacedOffsetDateTime | dist/index.js:204-258 | `yyyy-mm-dd hh:mm:ssz` is an offset date-time; the space becomes `T` and the text is upper-cased, while the offset is kept as `z` |
| Scalars.FirstOf | dist/index.js:332 | the first occurrence of either character, or the length when there is none |
| Scalars.Strip | dist/index.js:450 | removing underscores leaves no underscore and adds no character |
| Scalars.StripCount | dist/index.js:450 | removing underscores keeps every other character as often as it occurs |
| Scalars.StripSnoc | dist/index.js:450 | a character after a text is kept after the text's own result, unless it is an underscore |
| Scalars.StripAppend | dist/index.js:450 | removing underscores from two texts one after the other is removing them from each, so what is kept stays in order |
| Scalars.IntLitValue | dist/index.js:442-458 | a text matching `INT_REGEX` always has a numeric value, except a `0o` or `0b` literal holding a digit too large for its radix |
| Scalars.ConstantNotNumber | dist/index.js:427-443 | the named constants other than `-0` match neither `INT_REGEX` nor `FLOAT_REGEX` |
| Scalars.PointFloatLit | dist/index.js:331-332 | `3.14` matches `FLOAT_REGEX` and not `INT_REGEX` |
| Scalars.FloatExample | dist/index.js:442-468 | `3.14` reads as a float |
| Scalars.LeadingZeroExample | dist/index.js:444-449 | `007` fails with a leading-zero error at the value |
| Scalars.TrailingPointExample | dist/index.js:470-476 | `1.` is no number and no date-time: an invalid value |
| Scalars.HexExample | dist/index.js:442-466 | `0xf_f` reads as the integer 255, a BigInt only when always asked for |
| Scalars.BinaryExample | dist/index.js:442-466 | `0b1_01` reads as the integer 5 |
| Scalars.OctalOutOfRange | dist/index.js:450-456 | `0o8` fails as an invalid number at the value |
| Scalars.SignedExample | dist/index.js:442-466 | `+1_0` reads as the integer 10 |
| Scalars.ParseValue | dist/index.js:426-478 | the named constants read as their values (`inf`/`+inf` as +Infinity, `-inf` as -Infinity, `nan`/`+nan`/`-nan` as NaN, `-0` as the integer zero, a BigInt unless BigInts are off); `true`/`false` and only they are booleans; a number matching a pattern with a leading zero fails; an integer literal with a value reads as that integer (hexadecimal, octal, binary, signed, with underscores removed), as a BigInt exactly when unsafe or asked for, and fails as lossy exactly when unsafe with BigInts off; an octal or binary integer with a digit out of range fails as an invalid number, and exactly such integers do; a float that is no integer reads as its text without underscores; anything else is a date-time exactly when `TomlDate` accepts it, and an invalid value otherwise; errors are reported at the value |
| Scalars.DigitChar | dist/index.js:331 | the digit written for a value below 10 reads back as that value |
| Scalars.NatDigits | dist/index.js:331 | the decimal numeral of a number is digits only, without a leading zero |
| Scalars.NatDigitsValue | dist/index.js:451 | the numeral of `n` reads back as `n` |
| Scalars.Decimal | dist/index.js:331 | the decimal numeral of an integer is non-empty |
| Scalars.DigitsGrouped | dist/index.js:331 | a non-empty run of digits matches the digit groups of `INT_REGEX` |
| Scalars.DecimalNotConstant | dist/index.js:427-440 | a numeral is none of the named constants |
| Scalars.DecimalIntValue | dist/index.js:442-451 | a decimal numeral matches `INT_REGEX`, has no leading zero, holds no underscore and reads back as its integer |
| Scalars.DecimalLiteral | dist/index.js:331-333 | a decimal numeral matches `INT_REGEX` and not `LEADING_ZERO` |
| Scalars.DecimalValue | dist/index.js:451 | a decimal numeral reads back as its integer |
| Scalars.DecimalRoundTrip | dist/index.js:426-478 | the numeral of any integer parses back to it, as a BigInt exactly when unsafe or when BigInts are always asked for, and fails as lossy exactly when unsafe with BigInts off |
| Scalars.DigitCommaInvalid | dist/index.js:442-476 | a digit followed by a `,` is no number and no date-time: an invalid value |
| Values.Keys | dist/index.js:824 | the keys of a table, one per entry, in insertion order |
| Values.Lookup | dist/index.js:824 | a key is absent exactly when no entry names it; a found node is an entry of the table |
| Values.Put | dist/index.js:907 | after `t[k] = n` the key holds `n`, every other key holds what it held, and a new key is appended after the old ones |
| Values.PutHead | dist/index.js:907 | replacing the first entry keeps the keys and their order |
| Values.PutTail | dist/index.js:907 | replacing a later entry keeps the first one in front |
| Values.PutKeepsKeysUnique | dist/index.js:907 | `t[k] = n` never makes a key appear twice |
| Values.PutEntries | dist/index.js:907 | after `t[k] = n` each entry is an old one or the new one |
| Values.PutUniqueKeys | dist/index.js:907 | `t[k] = n` keeps every table of the tree free of repeated keys |
| Values.PutFits | dist/index.js:907 | `t[k] = n` keeps every value of the tree within the nesting depth, when `n` is |
| Tables.GetSet | dist/index.js:805-841 | replacing the table a path leads to and following the path again gives the new table |
| Tables.SetFrame | dist/index.js:805-841 | replacing a table below one key leaves every other key of the root alone |
| Tables.SetFrameApart | dist/index.js:805-841 | replacing the table a path leads to leaves every path that parts from it where it led |
| Tables.NodeAtBelow | dist/index.js:810-822 | a path that extends another reads through the table the shorter one leads to |
| Tables.GetAppend | dist/index.js:810-822 | following a path is following its first half, then the second half from there |
| Tables.SetKeepsPrefix | dist/index.js:810-822 | replacing a table deeper down keeps every prefix of its path valid |
| Tables.GetEmpty | dist/index.js:810-822 | no path leads anywhere through a fresh table |
| Tables.NodeAtCons | dist/index.js:810-822 | a path of two or more keys reads through the node of its first key, and through the last element of an array of tables |
| Tables.Peek | dist/index.js:804-867 | `peekTable` keeps the tag and flag of the table it starts from, and every entry of it under a key other than the path's first |
| Tables.PeekSucceeds | dist/index.js:804-867 | `peekTable` succeeds exactly when every proper prefix may be passed (no value; no header table or array of tables under a key-value line) and the final key may be declared (free for a key-value line; free or only implicitly created for `[t]`; free or an array of tables for `[[t]]`) |
| Tables.PeekFrame | dist/index.js:804-867 | after `peekTable`, every path that parts from the declared key leads where it led before |
| Tables.PeekAt | dist/index.js:886-899 | a peek in the current table succeeds exactly when the current path exists and the key is declarable below it, and then the current path leads to the peek's result |
| Tables.AssignLeaf | dist/index.js:907 | once the parent path exists, the value lands at the key |
| Tables.AssignLeafFrame | dist/index.js:907 | assigning a value leaves every path that parts from the key where it led |
| Tables.PeekAtFrame | dist/index.js:899 | a peek in the current table leaves every path that parts from the current path plus the key where it led |
| Tables.PeekKeeps | dist/index.js:804-867 | `peekTable` keeps the top level of the table: its keys in order ahead of any new one, and every value there |
| Tables.SetKeeps | dist/index.js:804-867 | replacing a table below the top level keeps the top level |
| Tables.PeekAtKeeps | dist/index.js:899 | so does a peek in the current table |
| Tables.AssignLeafKeeps | dist/index.js:907 | assigning a value keeps the top level, unless it would replace a value at the top level |
| Tables.PeekEmpty | dist/index.js:827-840 | below a key that does not exist yet, any declaration succeeds |
| Tables.DeclarableCons | dist/index.js:810-841 | a longer path is declarable exactly when its first key may be passed and the rest is declarable below it |
| Tables.DeclarableThrough | dist/index.js:810-841 | a path is declarable exactly when its first key may be passed and the rest is declarable in the table below, given how the two read |
| Tables.GetCons | dist/index.js:810-822 | a path reads through the node of its first key |
| Tables.PeekStep | dist/index.js:810-841 | a successful peek of a longer path rebuilds the first key around the peek below it, and reads the final key through it |
| Tables.BelowFresh | dist/index.js:827-840 | below a key that does not exist, nothing exists yet |
| Tables.PeekLastEffect | dist/index.js:842-866 | on a one-key path, `[t]` leaves a defined table keeping earlier entries, and `[[t]]` appends a fresh table; the path leads to it |
| Tables.PeekDottedEffect | dist/index.js:804-867 | after a key-value peek the parent table of the key exists and the final key is still free |
| Tables.PeekDottedStep | dist/index.js:811-816 | a key-value peek of a longer path goes through a sub-table, never an array of tables |
| Tables.DottedPrefix | dist/index.js:810-822 | the parent path reads through the table the first key leads to |
| Tables.PeekExplicitEffect | dist/index.js:855-862 | after `[t]` the key names a defined table that keeps entries an earlier header put under it, and the path leads to that table |
| Tables.PeekArrayEffect | dist/index.js:847-854 | after `[[t]]` the key holds an array of tables keeping its earlier elements and ending in one fresh table, and the path leads to that table; only the first `[[t]]` creates the array |
| Tables.PeekRejectsDuplicateKey | dist/index.js:863-865 | a key-value line for a key that exists is refused |
| Tables.PeekRejectsRedefinedTable | dist/index.js:855-858 | a second `[t]` for a defined table is refused |
| Tables.PeekRejectsKindMismatch | dist/index.js:843-846 | a declaration whose kind differs from the key's is refused, except `[t]` over a table made by `[[t.x]]` |
| Tables.PeekRejectsDottedThroughHeader | dist/index.js:814-816 | a dotted key through a `[t]` table or an array of tables is refused |
| Tables.GetUniqueKeys | dist/index.js:810-822 | the table a path leads to in a tree without repeated keys has none |
| Tables.SetUniqueKeys | dist/index.js:810-822 | replacing a table by one without repeated keys keeps the tree free of them |
| Tables.PeekLastIsPut | dist/index.js:842-866 | on a one-key path, a key-value peek changes nothing and a header writes the key's new node |
| Tables.LastNodeUniqueKeys | dist/index.js:847-862 | the node a header leaves has no repeated keys |
| Tables.PeekLastUniqueKeys | dist/index.js:842-866 | a peek on a one-key path keeps keys unique |
| Tables.PeekUniqueKeys | dist/index.js:804-867 | `peekTable` never makes a table name a key twice |
| Tables.PeekAtUniqueKeys | dist/index.js:899 | a peek in the current table keeps keys unique |
| Tables.AssignLeafUniqueKeys | dist/index.js:907 | assigning a value keeps keys unique |
| Tables.GetFits | dist/index.js:810-822 | the table a path leads to in a tree within the nesting depth is within it too |
| Tables.SetFits | dist/index.js:810-822 | replacing a table by one within the nesting depth keeps the tree within it |
| Tables.PeekFits | dist/index.js:804-867 | `peekTable` keeps the tree within the nesting depth |
| Tables.PeekAtFits | dist/index.js:899 | a peek in the current table keeps the tree within the nesting depth |
| Tables.AssignLeafFits | dist/index.js:907 | assigning a value one level shallower than the tree's bound keeps the tree within it |
| KeyParser.BareRun | dist/index.js:613 | the run holds only bare characters and ends before one that is not |
| KeyParser.KeyPartTrim | dist/index.js:672-679 | a part passing `KEY_PART_RE` trims to its run of bare characters, and only spaces and tabs are trimmed |
| KeyParser.KeyStep | dist/index.js:624-683 | one iteration moves the `.` forward, keeps the end of the key at an end character, adds at most one part, keeping the earlier ones, and fails only with key or string errors |
| KeyParser.BlankDropped | dist/index.js:625-627 | a space or a tab where a part would start is stepped over and adds nothing |
| KeyParser.BarePartRead | dist/index.js:669-680 | an unquoted part is accepted exactly when the text up to the next `.` (or the end of the key) passes `KEY_PART_RE`, and then adds its bare characters, followed in the text by blanks only; otherwise it fails at its start with an illegal-character error |
| KeyParser.QuotedStep | dist/index.js:629-668 | a quoted part adds exactly one part and keeps the end of the key at an end character |
| KeyParser.QuotedPartRead | dist/index.js:629-667 | a quoted part adds `parseString` of its text up to where `getStringEnd` ends it; a triple quote fails at the part as a multi-line key, and an unclosed one as an unfinished string |
| KeyParser.KeyLoop | dist/index.js:624-684 | the loop adds at least one part after the earlier ones and goes on after the end character and the spaces after it |
| KeyParser.ParseKeyWith | dist/index.js:614-685 | no end character after the start fails at the start; success gives at least one part and an offset past the start, not on a space or a tab |
| KeyParser.ParseKey | dist/index.js:614-685 | read correctly, the same: no end character fails at the start, success gives a non-empty key |
| KeyParser.ParseKeyAsWritten | dist/index.js:614-685 | as written, the same |
| KeyParser.JoinKey | dist/index.js:614-685 | a dotted key starts with its first part |
| KeyParser.BarePart | dist/index.js:672-679 | a bare part passes `KEY_PART_RE` and has nothing to trim |
| KeyParser.BareStep | dist/index.js:669-680 | one iteration over a bare part reads it |
| KeyParser.BarePartAt | dist/index.js:669-680 | a bare part written in the text reads back as itself |
| KeyParser.BareLast | dist/index.js:669-684 | the last bare part ends the loop, which goes on after the end character |
| KeyParser.BareNext | dist/index.js:669-683 | a bare part followed by `.` hands the loop on to the next part |
| KeyParser.BareLoop | dist/index.js:624-684 | the bare parts written up to the end character are read back one by one |
| KeyParser.JoinSplit | dist/index.js:671-672 | a written dotted key is its first part, a `.` and the rest |
| KeyParser.BareKeyRoundTrip | dist/index.js:614-685 | a dotted key of bare parts, written and followed by its end character, reads back as the same parts, and parsing goes on right after the end character |
| KeyParser.BareKeyWith | dist/index.js:614-685 | the same round trip holds for both readings |
| KeyParser.BareKeyAt | dist/index.js:614-685 | the same round trip holds at any offset of a document |
| KeyParser.DottedChars | dist/index.js:613 | a written dotted key of bare parts holds only bare characters and dots |
| KeyParser.StaleKeyString | dist/index.js:636-667 | in `"a=b" x.c = 1` the quoted part ends at offset 5 and reads `a=b` |
| KeyParser.StaleKeyFirstStep | dist/index.js:629-668 | as written, the first iteration reads `a=b` and moves to the `.`; looking for the end of the key first, it reports ` x` as an extra token |
| KeyParser.StaleKeyQuoted | dist/index.js:629-668 | the same, for the quoted-part branch |
| KeyParser.StaleKeySecondStep | dist/index.js:669-684 | the second iteration reads `c` and ends the key |
| KeyParser.StaleKeyDropsToken | dist/index.js:614-685 | `"a=b" x.c = 1` reads as the key `a=b`.`c` as written, dropping the `x`, and fails with an extra-token error at offset 5 when read correctly |
| Extract.CutAndTrim | dist/index.js:508-515 | the text is no longer than the value, and the `#` offset is -1 or inside the value |
| Extract.CutAndTrimMeaning | dist/index.js:508-515 | the text is a prefix of the value, stops at or before the first `#`, holds no `#` and does not end in white space |
| Extract.SliceAndTrimEndOf | dist/index.js:507-527 | success gives the text cut and trimmed; failure is a bad comment or a line break after the value |
| Extract.SliceAndTrimEndOfComment | dist/index.js:507-527 | read correctly, a value's comment is accepted exactly when it holds no banned character, and a bad one is reported at its `#` |
| Extract.SliceAndTrimEndOfNewline | dist/index.js:516-524 | unless allowed, no line break follows the value before its comment |
| Extract.BadCommentAcceptedAsWritten | dist/index.js:511-513 | as written, a control character in a value's comment passes when the offset of the `#` within the value falls on a line break of the document |
| Extract.BadCommentRefused | dist/index.js:511-513 | read correctly, the same comment is refused at its `#` |
| Extract.CutEnd | dist/index.js:569 | the text of a bare value is cut before a `,` ending it exactly inside a structure, or always as written |
| Extract.Resume | dist/index.js:576-579 | where parsing goes on after a bare value: at the `skipUntil` stop unless a comment follows inside a structure, and then past the blank lines and comments after it and past one `,`; a bad comment there fails |
| Extract.BareText | dist/index.js:567-580 | the text of a bare value is what `sliceAndTrimEndOf` makes of the stretch up to the `skipUntil` stop, cut before a `,` ending it; an empty text fails as a missing value at the value's start; errors of `skipUntil` and `sliceAndTrimEndOf` pass through; a non-empty text succeeds exactly when `Resume` does, at the point `Resume` names: the `skipUntil` stop at the top level or when no comment follows, inside a structure and after a comment past the blanks, comments and one `,` that follow |
| Extract.BareTextReadsBack | dist/index.js:567-580 | a bare value written at the top level, with no `#`, `,` or line break and no trailing white space, followed by a line break or the end, reads back as its own text, and parsing goes on at that line break, in both readings |
| Extract.BareValueReadsBack | dist/index.js:567-583 | such a value is what `parseValue` makes of its text, and a refusal by `parseValue` is the value's error |
| Extract.BareValue | dist/index.js:567-583 | a bare value is read exactly when its text is found and `parseValue` accepts that text; the value is what `parseValue` makes of the text, and a refusal by `parseValue` is reported at the value's start |
| Extract.DigitCommaText | dist/index.js:568-569 | a digit and a `,` ending the document run to its end, with no comment |
| Extract.TopLevelCommaDropped | dist/index.js:569 | as written, a `,` after a top-level value is dropped from its text |
| Extract.TopLevelCommaKept | dist/index.js:569 | read correctly, the `,` stays in the text |
| Extract.TopLevelCommaValue | dist/index.js:568-583 | `x = 1,` reads as 1 as written and fails as an invalid value read correctly |
| Extract.ExtractValue | dist/index.js:528-584 | a depth of 0 fails at the value; success goes on after the start, and the value read nests within the depth given |
| Extract.StringValue | dist/index.js:552-566 | an unclosed string fails as unfinished; a string value is what `parseString` decodes between the quotes, and at the top level parsing goes on right after them; inside a structure, anything after the blanks but a `,`, the end character or a line break is an unexpected character |
| Extract.ArrayLoop | dist/index.js:749-775 | a `,` where a value should be fails; an array is a list ending at its `]`, keeping the items read before, in order, and nesting within the depth; with no `]` ahead it fails |
| Extract.InlineAssign | dist/index.js:704-730 | assigning inside an inline table keeps the table's own tag and flag, gives the first key of the path an entry and leaves every other key alone |
| Extract.InlineAssignLands | dist/index.js:728-730 | the value lands at the end of the dotted key |
| Extract.InlineAssignedNotFree | dist/index.js:712-727 | once assigned, the same key is refused a second time |
| Extract.InlineAssignFits | dist/index.js:728-730 | assigning a value one level shallower keeps the inline table within the depth |
| Extract.InlineLoop | dist/index.js:686-748 | an inline table is a table ending at its `}`, and it nests within the depth |
| Extract.InlineLoopRejects | dist/index.js:692-746 | a line break, a `#` or a `,` where an entry should start fails there; a `,` before the closing `}` (or the end of the text) is a trailing comma, reported at the `,`; a table the text ends in is unfinished |
| Extract.InlineEntry | dist/index.js:703-732 | a key the inline table already holds, or one passing through a value, fails as a redefinition; a successful entry assigns some value at its key and keeps the table within the depth |
| Document.Root | dist/index.js:869-872 | the empty path leads to the root table, which has no entries |
| Document.HeaderEnd | dist/index.js:877-885 | success steps one past the key's end; failure means the table end is missing; read correctly, success means both `]` are there |
| Document.Header | dist/index.js:874-896 | a header leaves a current table that exists, keeps the top level, keys unique and the tree within the nesting depth |
| Document.TableHeader | dist/index.js:874-896 | `[t]` goes on past its key, keeps the current table valid, the top level, keys unique and the tree within the depth |
| Document.ArrayHeader | dist/index.js:874-896 | `[[t]]` goes on past its key, keeps the current table valid, the top level, keys unique and the tree within the depth |
| Document.Declare | dist/index.js:886-895 | a header succeeds exactly when its key is `Declarable` from the root, and otherwise fails at the key's start; `[t]` leaves a defined table at the key keeping what was below it, `[[t]]` appends one fresh table to the array there; every path that parts from the key is unchanged and the top level is kept; the key becomes the current table, keys stay unique and the tree within the depth |
| Document.HeaderDeclares | dist/index.js:886-895 | after a header the path leads to a table, the key holds a defined table or the appended array, other paths are unchanged, the top level is kept, keys stay unique and the tree within the depth |
| Document.Assignment | dist/index.js:897-909 | a key-value line leaves the current table as it was and existing, goes on past its start, keeps the top level, keys unique and the tree within the depth |
| Document.Assign | dist/index.js:899-908 | a key the current table refuses fails at the line's start before the value is read; otherwise the line succeeds exactly when its value does and fails with the value's error; on success the value read lands at the key below the current table, parsing goes on after the value, every path that parts from the key is unchanged, the top level is kept, and so are the current table, unique keys and the depth |
| Document.AssignKeepsCurrent | dist/index.js:899-908 | after a key-value line, the current table exists, holds the value at the key and keys stay unique |
| Document.AssignFrame | dist/index.js:899-907 | a key-value line changes nothing at a path that parts from its key and keeps the top level |
| Document.AssignFits | dist/index.js:906-907 | a value read within the depth limit keeps the tree within it |
| Document.Statement | dist/index.js:873-909 | a header or key-value statement goes on past its start, and keeps the current table valid, the top level, keys unique and the tree within the depth |
| Document.Line | dist/index.js:873-917 | a line's tree is its statement's; a statement followed, after blanks and a comment, by anything but a line break fails as lacking an end-of-line, at that character; a line ends at the end of the text or where the next statement may start |
| Document.Lines | dist/index.js:873-918 | nothing left to read gives the tree as it is; every statement keeps the top level built before it (keys in order, and their values); keys stay unique and the tree within the depth |
| Document.Parse | dist/index.js:868-920 | a document of blank lines and comments only is the empty table; the result keeps the top level the first statement built; no table of a parsed document names a key twice, and no value nests deeper than `maxDepth` |
| Document.ParseDefault | dist/index.js:868 | with the default `maxDepth` of 1000, the same |
| Document.FirstValueKept | dist/index.js:897-909 | a document whose first line is `k = v` for a one-part key parses, when it does, to a table holding the value of `v` at `k` |
| Statements.LineBreak | dist/index.js:910-917 | a statement followed by a line break and another statement, or by the end, passes the end-of-line check, and the next statement starts right after |
| Statements.HeaderLine | dist/index.js:873-917 | a header followed by the end of its line: the next statement starts on the next line |
| Statements.AssignLine | dist/index.js:897-917 | a key-value line followed by the end of its line: the next statement starts on the next line |
| Statements.KeyTextAt | dist/index.js:876 | a written dotted key of bare parts and its end character read back as the key |
| Statements.TableKeyAt | dist/index.js:875-876 | after `[`, a written dotted key and `]`, the header is a table header and its key reads back |
| Statements.ArrayKeyAt | dist/index.js:875-876 | after `[[`, a written dotted key and `]`, the key reads back and ends after the first `]` |
| Statements.ArrayBrackets | dist/index.js:875-878 | `[[` opens an array header and a `]` follows the key |
| Statements.KeyA | dist/index.js:876 | the key `a` closed by `]` reads as `a` |
| Statements.TableHeaderA | dist/index.js:874-895 | `[a]` declares `a` as an explicit table, whatever the state |
| Statements.ArrayHeaderA | dist/index.js:874-895 | `[[a]]` declares `a` as an array of tables, whatever the state |
| Statements.TableTwice | dist/index.js:886-892 | a first `[a]` declares the table `a`; a second is refused at its key |
| Statements.ArrayTwice | dist/index.js:886-895 | a first `[[a]]` makes `a` an array of one table; a second appends another |
| Statements.SecondArrayElement | dist/index.js:847-854 | a second `[[a]]` keeps the first element and appends a fresh one |
| Statements.TableTwiceDocument | dist/index.js:868-920 | the document `[a]`, line break, `[a]` fails as a redefined table at offset 5, the second key |
| Statements.ArrayTwiceDocument | dist/index.js:868-920 | the document `[[a]]`, line break, `[[a]]` is the table whose `a` is an array of two empty tables |
| Statements.TrailingTextDocument | dist/index.js:868-920 | the document `[a]x` fails at the `x` for lacking an end-of-line |
| Statements.UnclosedArrayHeaderAccepted | dist/index.js:877-885 | as written, `[[a]x` is accepted as the header `[[a]]` |
| Statements.UnclosedArrayHeaderRefused | dist/index.js:877-885 | read correctly, `[[a]x` fails as its table end is missing, at the `x` |

## Left out

- `makeCodeBlock` and the message text of `TomlError` (dist/index.js:37-68) are left out. An error is its kind and offset; `LineColOf` gives the line and column.
- Offsets count Dafny `char`s, which are Unicode scalar values; JavaScript counts UTF-16 code units. A `\u` escape naming a lone surrogate is refused, where JavaScript builds a lone surrogate.
- The JavaScript object semantics are not modelled. Integer-like keys are enumerated first. `__proto__` gets special handling (dist/index.js:718-720, 828-831). The model keeps plain insertion order.
- A float is kept as its text with the underscores removed (`FloatLit.Finite`). Its conversion to a double, and `isNaN` on it, are not modelled. An integer is kept as a mathematical integer with a tag saying whether it would be a BigInt.
- The `Date` constructor's calendar check is the parameter `dateOk`. So is the time-zone arithmetic of `toISOString` (dist/index.js:259-279). The `wrapAs…` helpers are left out.
- Extract.BareText, Extract.ExtractValue: under both readings they use the corrected `SkipUntil`. The restart of `skipUntil` as written (dist/index.js:141-143) can loop for ever, and a total function has no result to give for that, so it is modelled on its own by `Cursor.SkipUntilAsWritten` and shown by `Cursor.SkipUntilAsWrittenHangs` and `Cursor.SkipUntilAsWrittenMovesBack`.
- Extract.ExtractValue: a string that is never closed fails at once as unfinished. The JavaScript code passes -1 on and fails later, with a different message and offset.
- Values.UniqueKeys does not look inside values (inline tables and arrays). Inline tables are built by `InlineAssign` under the check `InlineFree`.
- KeyParser.QuotedStep: the offset of a line break after a quoted key part is modelled as written (`ptr + dot + newLine`). It is not corrected.
- Extract.ExtractValue, Extract.ArrayLoop, Extract.InlineLoop: no end-to-end round trip of a whole value is proved, only the parts it is made of (strings, numbers, keys).
- Statements: the whole documents run through `parse` are made of headers only; no lemma runs a key-value line with its value through `parse`.
- Document.Parse, Document.ParseDefault: the result is tied to each statement step by step (`Line` gives its statement's tree, `Declare` and `Assign` state their effect and frame), and across the whole document only through the top level, which every later statement keeps. A deeper path is not followed to the end because a later `[[t]]` makes paths through that array lead to the new element.
- Document.Parse: `maxDepth` is a natural number. In JavaScript the guard is `depth === 0` (dist/index.js:529), so a negative or fractional limit never trips and nesting is unlimited. The only call (dist/index.js:1204) uses the default of 1000, so nothing reachable is lost.
- The GitHub-action code around the parser (dist/index.js:934 and after: reading `pyproject.toml`, running `npm`, process exit) is left out. It is I/O.

## Findings

| source | as written | input that shows it | evidently intended | confidence | as-written member | corrected member |
|---|---|---|---|---|---|---|
| dist/index.js:141-143 | a `#` with no line break after it sets `i` to -1, so `i++` restarts the scan at offset 0 | `x = [1 # c` (never ends); `x = [1, 2 # c` (answers offset 7, before `2`) | report "cannot find end of structure" | high, not executed | Cursor.SkipUntilAsWrittenHangs | Cursor.SkipUntil |
| dist/index.js:511-513 | the comment is checked with `skipComment(str, commentIdx)`, an offset relative to the value, used as a document offset | a value `1 #` followed by U+0001, written right after a line break at document offset 2: as written the control character passes | `skipComment(str, startPtr + commentIdx)` | high, not executed | Extract.BadCommentAcceptedAsWritten | Extract.BadCommentRefused |
| dist/index.js:404 | the second skip after a line-ending backslash, `skipVoid(str, ptr)`, does not ban comments, so a next line starting with `#` is skipped as a comment | `x = """a\`, `#b`, `"""` reads as `a` | keep the `#` line as string content (`a#b` and a line break) | high, not executed | StringLit.HashLineAsWritten | StringLit.HashLineCorrected |
| dist/index.js:397-403 | the first skip after a line-ending backslash, `skipVoid(str, ptr - 1, true)`, does not ban comments either, so a `#` after the blanks is taken for a comment and the escape passes although string text follows the backslash on its line | `x = """a\ #x`, `b"""` reads as `ab` | refuse the escape as invalid, at the backslash (offset 4 of the string) | high, not executed | StringLit.HashAfterBackslashAsWritten | StringLit.HashAfterBackslashCorrected |
| dist/index.js:877-884 | the array header checks `toml[k[1] - 1]`, which is the first `]` (already stepped over by `parseKey`), and then steps over one more character, whatever it is | `[[a]x` is accepted as `[[a]]` | require the second `]` at `k[1]` | high, not executed | Statements.UnclosedArrayHeaderAccepted | Statements.UnclosedArrayHeaderRefused |
| dist/index.js:643-666 | after a quoted key part, the text up to the next `.` is checked against the end of the key found before the string; it is looked for again only afterwards | `"a=b" x.c = 1` reads as the key `a=b`.`c`, dropping `x` | look for the end of the key again first, so ` x` is an extra token | medium, not executed | KeyParser.ParseKeyAsWritten | KeyParser.StaleKeyDropsToken |
| dist/index.js:569 | a `,` just before the end of a bare value is dropped even at the top level, where no `,` may follow a value | `x = 1,` reads as `x = 1` | drop the `,` only inside an array or an inline table | medium, not executed | Extract.TopLevelCommaDropped | Extract.TopLevelCommaValue |
