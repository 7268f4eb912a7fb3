# logcpp template logger, modelled in Dafny

This project models the template logger of `code/cpp/logcpp/main.cpp`:

- the four log levels, and the upper-case name of each (`getLevelString`);
- the parsing of a level from text (`getLevelFromString`). The input is
  lower-cased and then compared, and INFO is the default;
- the placeholder substitution of `logMessage`. Five find-first-and-replace
  steps run on a copy of the format, in the order `{time}`, `{level}`,
  `{file}`, `{lineNumber}`, `{msg}`. Each step removes exactly the length of
  its placeholder (6, 7, 6, 12 and 5 characters);
- the millisecond field of `getCurrentTime`: the milliseconds since the
  epoch, taken modulo 1000 and written in a field of width 3 filled with `0`.

Modules:

- `Text` (`text.dfy`): character lower-casing, searching, `std::string::replace`
  and decimal text.
- `Levels` (`levels.dfy`): the enumeration, naming and parsing.
- `Clock` (`clock.dfy`): the timestamp text.
- `Logger` (`logger.dfy`): rendering, first as the pure function `Render` and
  then as the method `LogMessage`, which updates a local `output` step by step
  as the source does and is proved equal to `Render`.

Parsing is modelled as the code is written. As written, "warning" and
"error" in any casing never parse back to WARNING or ERROR (see
"## Findings"). The evidently intended comparison is modelled beside it and
is proved to round-trip.

## Model

| member | source | states |
|---|---|---|
| Levels.LevelString | code/cpp/logcpp/main.cpp:34-42 | every level has a non-empty name made only of upper-case letters |
| Levels.LevelStringInjective | code/cpp/logcpp/main.cpp:36-39 | different levels have different names |
| Levels.ParseLevel | code/cpp/logcpp/main.cpp:45-66 | the as-written parse, for every input: the result is DEBUG exactly when the input is "debug" in some casing, and INFO exactly otherwise (so INFO is also the result for any unmatched text) |
| Levels.LevelFromString | code/cpp/logcpp/main.cpp:45-66 | lower-casing the string in place, one character at a time, and then running the if/else chain from the INFO default gives the as-written parse result |
| Levels.UpperCaseNamesUnreachable | code/cpp/logcpp/main.cpp:57-64 | no input parses to WARNING or ERROR, because a lower-cased string never equals an upper-case name |
| Levels.ParseLevelIgnoresCase | code/cpp/logcpp/main.cpp:47 | two inputs that differ only in letter case parse to the same level |
| Levels.ParseLevelNameRoundTrip | code/cpp/logcpp/main.cpp:34-66 | parsing a level's own name gives DEBUG back for DEBUG and INFO for every other level, so WARNING and ERROR do not round-trip |
| Levels.ParseLevelIntended | code/cpp/logcpp/main.cpp:57-64 | the corrected parse, comparing with lower-case names: DEBUG, WARNING and ERROR each exactly for its own name in some casing, INFO for everything else |
| Levels.ParseLevelIntendedRoundTrip | code/cpp/logcpp/main.cpp:57-64 | with lower-case names in the comparisons, every level's name, in any casing, parses back to that level |
| Text.LowerChar | code/cpp/logcpp/main.cpp:47 | `tolower` maps each upper-case letter to its lower-case letter, leaves every other character alone, and never returns an upper-case letter |
| Text.ToLower | code/cpp/logcpp/main.cpp:47 | lower-casing keeps the length and lower-cases each character where it stands |
| Text.ToLowerEqualsIff | code/cpp/logcpp/main.cpp:47-56 | for a word with no upper-case letter, the lower-cased input equals the word exactly when the input equals the word ignoring case |
| Text.ToLowerNeverHasUpper | code/cpp/logcpp/main.cpp:47 | a lower-cased string never equals a word that contains an upper-case letter |
| Text.FindFrom | code/cpp/logcpp/main.cpp:75 | a search from a position returns the leftmost occurrence at or after it, or reports that there is none |
| Text.FindFirst | code/cpp/logcpp/main.cpp:75 | `find` returns the leftmost occurrence of the token, or `npos` exactly when the token does not occur |
| Text.ReplaceAt | code/cpp/logcpp/main.cpp:77 | `replace(pos, count, repl)` keeps the text before `pos`, puts `repl` in and keeps the text after the `count` removed characters (fewer when the string ends first), with the matching length |
| Text.ReplaceFirst | code/cpp/logcpp/main.cpp:75-78 | a step whose token is absent leaves the string unchanged; when the token is present the length changes by exactly the token's length removed and the value's length added |
| Text.ReplaceFirstAtFirstOccurrence | code/cpp/logcpp/main.cpp:75-78 | a step replaces the leftmost occurrence and keeps the text on both sides of it |
| Text.ReplaceFirstKeepsLaterOccurrences | code/cpp/logcpp/main.cpp:75-78 | a later occurrence of the same token is still there after the step, shifted by the change in length |
| Text.KeepsTextBefore | code/cpp/logcpp/main.cpp:75-78 | text that ends before the replaced occurrence is still at the same place |
| Text.KeepsTextAfter | code/cpp/logcpp/main.cpp:75-78 | text that starts after the replaced occurrence is still there, shifted by the change in length |
| Text.NatToDecimal | code/cpp/logcpp/main.cpp:28 | the decimal text of a natural number is a non-empty string of digits with no leading zero whose value is the number |
| Text.IntToDecimal | code/cpp/logcpp/main.cpp:95 | `std::to_string` of an integer: for a non-negative number a non-empty digit string with no leading zero whose value is the number; for a negative one a minus sign followed by such a digit string spelling its magnitude |
| Text.NatToDecimalLength | code/cpp/logcpp/main.cpp:28 | a number below 10^k has at most k decimal digits |
| Text.LeadingZerosValue | code/cpp/logcpp/main.cpp:28 | filling on the left with '0' does not change the value of the digits |
| Text.PadLeft | code/cpp/logcpp/main.cpp:28 | `setfill(fill) << setw(width)`: the result is the text itself when it is at least `width` long, otherwise `width` long; it ends with the text and everything before it is the fill character |
| Clock.MillisField | code/cpp/logcpp/main.cpp:22-28 | the millisecond field is always exactly three decimal digits |
| Clock.MillisFieldValue | code/cpp/logcpp/main.cpp:22-28 | those three digits spell the milliseconds since the epoch modulo 1000 |
| Clock.MillisFieldPadsWithZeros | code/cpp/logcpp/main.cpp:28 | 7 milliseconds past the second is written "007", not "7" |
| Clock.Timestamp | code/cpp/logcpp/main.cpp:27-30 | the timestamp is the date-time text, a dot and the three-digit field, four characters longer than the date-time text |
| Clock.TimestampMillis | code/cpp/logcpp/main.cpp:27-28 | the characters after the dot are digits whose value is the milliseconds modulo 1000 |
| Clock.TimestampHasNoBrace | code/cpp/logcpp/main.cpp:27-28 | the timestamp contains a '{' only where the date-time text does, since it only adds a dot and digits |
| Logger.Render | code/cpp/logcpp/main.cpp:70-103 | a format that contains none of the five placeholders is rendered unchanged |
| Logger.LogMessage | code/cpp/logcpp/main.cpp:70-103 | the five in-place find-and-replace steps, with the literal lengths 6, 7, 6, 12 and 5 and the current time computed from the clock reading, produce exactly the rendered line |
| Logger.RenderWithoutPlaceholders | code/cpp/logcpp/main.cpp:76-101 | whatever the record holds, a template without placeholders is written verbatim |
| Logger.StartsDoNotNest | code/cpp/logcpp/main.cpp:75-99 | an occurrence of one placeholder cannot begin strictly inside an occurrence of another |
| Logger.SameStartSameToken | code/cpp/logcpp/main.cpp:75-99 | two placeholders that occur at the same place are the same placeholder |
| Logger.DistinctPlaceholdersDisjoint | code/cpp/logcpp/main.cpp:75-99 | occurrences of two different placeholders do not overlap |
| Logger.ReplaceFirstKeepsOtherPlaceholder | code/cpp/logcpp/main.cpp:75-102 | replacing one placeholder never destroys an occurrence of a different placeholder |
| Logger.MessageAppearsVerbatim | code/cpp/logcpp/main.cpp:99-102 | when the template has a `{msg}`, the message appears verbatim in the output, whatever the time, the file name or the message contain |
| Logger.ReplaceAfterPlainText | code/cpp/logcpp/main.cpp:75-101 | a placeholder that follows brace-free text is the occurrence that gets replaced |
| Logger.RenderDefaultFormat | code/cpp/logcpp/main.cpp:117 | with the default template, and a time and a file name without braces, the line reads time-LEVEL-file:line-message |
| Logger.LogMessageDefaultFormat | code/cpp/logcpp/main.cpp:117 | with the default template, a brace-free date-time text and file name, the line `LogMessage` produces reads timestamp-LEVEL-file:line-message |
| Logger.RenderDefaultFormatExample | code/cpp/logcpp/main.cpp:117 | the default template with WARNING, "a.c", line 42 and message "x" gives the time followed by "-WARNING-a.c:42-x" |
| Logger.OnlyFirstOccurrenceReplaced | code/cpp/logcpp/main.cpp:81-84 | "{level} {level}" at INFO renders to "INFO {level}": only the first occurrence is replaced |
| Logger.FileNameIsRescanned | code/cpp/logcpp/main.cpp:87-102 | the later steps search the file name too: with the file name "{msg}", template "{file}:{msg}" and message "m", the output is "m:{msg}" |

## Left out

- Reading the wall clock (`system_clock::now`) and converting it to local time (`localtime`, `put_time` with `%Y-%m-%d %H:%M:%S`). The formatted date-time text and the milliseconds since the epoch are parameters of `Clock.Timestamp` and `Logger.LogMessage`.
- Clock.Timestamp: the milliseconds since the epoch are a natural number, so clock readings before 1970 (a negative count) are not modelled.
- Writing the line to `std::cout` and flushing it with `endl` (line 104). This is I/O; `Logger.LogMessage` returns the line instead.
- The `LOG` macro (line 108). It only captures `__FILE__` and `__LINE__`, which are passed here as plain parameters.
- `main` (lines 110-142): argument handling, the usage text and the choice of a fixed message per level. It always returns 0. Only its default template (line 117) appears, as `Logger.DefaultFormat`.
- Levels.LevelString: the `"UNKNOWN"` default of the switch is not modelled. The Dafny enumeration has only the four levels, so that branch cannot be reached.
- Text.LowerChar: only the ASCII letters A-Z are lower-cased, as `tolower` does in the "C" locale. Locale-dependent behaviour, and the undefined behaviour of `tolower` on negative `char` values, are not modelled.
- Text.IntToDecimal: the line number is an unbounded integer rather than a 32-bit `int`. Every value that a 32-bit `int` can hold is covered.
- Strings are sequences of characters. The byte encoding of `std::string` is not modelled.
- The ordering of the levels (the declaration order of the enumeration) is not used by any modelled operation.
- The other source files of the repository are not part of this model: console-printing demos, floating-point colour conversion and pointer casts.

## Findings

| source | as written | input that shows it | evidently intended | confidence | as-written member | corrected member |
|---|---|---|---|---|---|---|
| code/cpp/logcpp/main.cpp:57-64 | the input is lower-cased at line 47 and then compared with the upper-case "WARNING" and "ERROR", so neither branch can match | "warning", "WARNING" or "Error" parses to INFO | compare with "warning" and "error", so that every level's name parses back to that level in any casing | high, not executed | Levels.UpperCaseNamesUnreachable | Levels.ParseLevelIntendedRoundTrip |
