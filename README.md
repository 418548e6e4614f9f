# MEGAcmd core, modelled in Dafny

MEGAcmd is the command-line client of the MEGA cloud storage service. A server process runs the commands; an interactive shell and one-shot client programs send it command lines and print what comes back. Below the socket, SDK and threading layers sits a large body of sequential logic. This project models that logic and proves its properties:

- **Word and option utilities.** Quoting-aware word splitting, trims, `split` and `replaceAll`, `toInteger`, display widths, size strings, flag and option extraction, wildcards, permission strings, periods, and log and share levels. These are modules `CommonUtils`, `CommonWords`, `CommonSizes`, `ColumnDisplay` and `MegaCmdUtils`.
- **Codecs.**
  - The UTF-8 validator, against the byte grammar of section 4 of RFC 3629 (`Utf8`).
  - The shell's code point encoder, against the table of section 3 of RFC 3629 (`ShellUtf8`).
  - The updater's Base64 in the URL-safe alphabet of section 5 of RFC 4648 (`Base64`).
  - The `ParamWriter`/`ParamReader` field serialiser (`TransferManager`).
  - The binary `syncs`/`backups` files and the `megacmd.cfg` rewrites (`ConfigurationRecords`, `ConfigurationManager`).
  - The signed update manifest, from both its writer and its reader (`UpdateGenerator`, `Updater`).
- **State kept in place.**
  - The rotating logger's memory blocks and numbered archives (`RotatingLogger`).
  - The greeting and broadcast queues (`MegaCmdServer`).
  - The state-listener registry (`ComunicationsManager`).
  - The completed-transfer buffer (`MegaCmdListeners`).
  - The delete-confirmation queue (`DeleteQueue`).
  - The logger's per-thread tables (`MegaCmdLogger`).
  - The `.megaignore` file (`SyncIgnore`).
  - The test instrumentation registry (`TestInstrumentsModel`).
- **Remote paths.**
  - `nodebypath`'s splitter (`NodePath`).
  - Resolution and `makedir` over an abstract node tree (`NodeTree`).
- **Small state machines.**
  - The shell's prompt and password flow and its confirmation loops (`MegaCmdShell`, `ShellCommunications`).
  - Client argument absolutising (`MegaCmdClient`).
  - Stall detection (`StallIssues`).
  - Sync helpers (`SyncCommand`).
  - FUSE mount flags (`FuseMounts`).
  - Server argument and log-level handling (`ServerMain`).
  - The event tables (`MegaCmdEvents`).
- **The documentation generator's text transform** (`CommandDocs`).

`Wrappers` holds Option and Result. `Text` mirrors the C library calls the code relies on: C strings read past their end, `find`, `isdigit`/`isspace`, and decimal rendering. `MegaCmdCodes` holds the shared result codes and prompt kinds.

Loops in the source are `while` loops in methods, each proved equal to a recursive specification function. The properties are lemmas about those functions. Objects whose fields the source updates are classes with `modifies` frames. The SDK, the clock, the file system and other foreign calls are parameters.

## Model

| member | source | states |
|---|---|---|
| CommonUtils.Split | src/megacmdcommonutils.cpp:316-343 | the loop's tokens equal the reference splitting SplitSpec |
| CommonUtils.SplitTokens | src/megacmdcommonutils.cpp:316-343 | no token is empty, and with a non-empty pattern no token contains the pattern |
| CommonUtils.SplitEdgeCases | src/megacmdcommonutils.cpp:316-343 | empty input gives no token; an empty pattern gives the whole input as the only token |
| CommonUtils.SplitJoinRoundTrip | src/megacmdcommonutils.cpp:316-343 | splitting the join of non-empty tokens that avoid a one-character separator gives the tokens back |
| CommonUtils.LTrimRemovesLeading | src/megacmdcommonutils.cpp:356-361 | the result is a suffix reached by dropping only c's, and it does not start with c |
| CommonUtils.RTrimOne | src/megacmdcommonutils.cpp:369-383 | exactly one trailing c is removed when the string ends with c; otherwise nothing changes |
| CommonUtils.TrimExamples | src/megacmdcommonutils.cpp:356-383 | "123456" is unchanged by trimming '2' on either side, loses '1' on the left and '6' on the right |
| CommonUtils.Replace | src/megacmdcommonutils.cpp:518-527 | false and unchanged iff from does not occur; otherwise its first occurrence, and no other, is replaced by to |
| CommonUtils.ReplaceAll | src/megacmdcommonutils.cpp:529-541 | an empty from leaves the string unchanged; otherwise the loop's result equals the left-to-right reference ReplacedAll |
| CommonUtils.ReplaceAllSingleChar | src/megacmdcommonutils.cpp:529-541 | with a one-character from every occurrence is rewritten and every other character copied, so inserted text is never rescanned |
| CommonUtils.ReplaceAllAbsent | src/megacmdcommonutils.cpp:529-541 | a string without from is left as it is |
| CommonUtils.Strtol | src/megacmdcommonutils.cpp:554-555 | the end offset strtol reports lies within the text |
| CommonUtils.AsWrittenGuardIsMinus | src/megacmdcommonutils.cpp:543-567 | as written, every text starting with '-' yields failValue |
| CommonUtils.ToIntegerNegativeFinding | src/megacmdcommonutils.cpp:543-567 | "-5" yields failValue as written and -5 after the guard is corrected |
| CommonUtils.ToIntegerRoundTrip | src/megacmdcommonutils.cpp:543-567 | the decimal rendering of any int in range parses back to that int |
| CommonUtils.ToIntegerFailures | src/megacmdcommonutils.cpp:543-567 | empty text, trailing non-digits and values outside the int range yield failValue; any other result is within the int range |
| CommonUtils.JoinStrings | src/megacmdcommonutils.cpp:569-589 | no elements give ""; one element gives it (quoted when asked) followed by the delimiter |
| CommonUtils.JoinStringsMany | src/megacmdcommonutils.cpp:569-589 | with two or more elements the result is the delimiter join of the (quoted) elements, with no trailing delimiter |
| CommonUtils.IsPublicLink | src/megacmdcommonutils.cpp:70-84 | true iff the link starts with "http" and contains '#', "/file/" or "/folder/" |
| CommonUtils.IsValidEmail | src/megacmdcommonutils.cpp:1149-1156 | true iff some '@' comes before some '.' |
| CommonUtils.RTrimProperty | src/megacmdcommonutils.cpp:1187-1196 | a string made only of c is unchanged; otherwise the trailing run of c is cut and the result ends in another character |
| CommonUtils.LTrimAllSame | src/megacmdcommonutils.cpp:1180-1185 | a string made only of c trims to empty |
| CommonUtils.LTrimKeepsNonC | src/megacmdcommonutils.cpp:1180-1185 | a string not starting with c is unchanged |
| CommonUtils.RTrimPropertyPadding | src/megacmdcommonutils.cpp:1187-1196 | trailing padding after a non-c character is removed exactly |
| CommonUtils.LTrimPadding | src/megacmdcommonutils.cpp:1180-1185 | leading padding before a non-c character is removed exactly |
| CommonUtils.TrimPropertyQuoted | src/megacmdcommonutils.cpp:1198-1211 | a double-quoted, space-padded value loses the padding and both quotes |
| CommonUtils.GetFlag | src/megacmdcommonutils.cpp:866-874 | the stored count of a given flag, 0 for an absent one |
| CommonUtils.GetOption | src/megacmdcommonutils.cpp:876-884 | the stored value of a given option, the default for an absent one |
| CommonUtils.NonDashWordsMembers | src/megacmdcommonutils.cpp:925-940 | the kept words are exactly the words that do not start with '-' |
| CommonUtils.DiscardOptionsAndFlags | src/megacmdcommonutils.cpp:925-940 | the erase loop leaves exactly the non-dash words, in order |
| CommonUtils.NonDashWordsOfPlain | src/megacmdcommonutils.cpp:925-940 | words without dashes are all kept, in order |
| CommonUtils.NumberOfDigits | src/megacmdcommonutils.h:435-444 | the loop's count is one for a minus sign plus the number of decimal digits of the magnitude |
| CommonUtils.MagnitudeDigitsBounds | src/megacmdcommonutils.h:435-444 | a positive magnitude n with k digits satisfies 10^(k-1) <= n < 10^k |
| CommonUtils.NumberOfDigitsExamples | src/megacmdcommonutils.h:435-444 | 0 has no digits; 1, 10 and 100 have 1, 2 and 3, and their negatives one more |
| CommonUtils.OnlyZeroOfIff | src/megacmdcommonutils.h:279-283 | true iff no argument is true |
| CommonUtils.OnlyZeroOrOneOfIff | src/megacmdcommonutils.h:273-278 | true iff no two distinct arguments are true |
| CommonUtils.Concat | src/megacmdcommonutils.h:221-235 | the elements of a, then those of b, in order |
| CommonUtils.PlatformDirectories.RuntimeDirPath | src/megacmdcommonutils.h:418-425 | the config directory unless the platform overrides it |
| CommonUtils.HammeringLimiter.constructor | src/megacmdcommonutils.h:589-595 | the limit is stored and no call is recorded |
| CommonUtils.HammeringLimiter.RunRecently | src/megacmdcommonutils.h:596-606 | true iff a recorded call lies within the limit; only a false answer records the current time |
| CommonUtils.HammeringSecondCallIsRecent | src/megacmdcommonutils.h:596-606 | after a false answer an immediate second call answers true |
| CommonWords.SkipBlankRun | src/megacmdcommonutils.cpp:399-403 | the loop stops where the reference SkipBlanks does: a last blank is kept unless trailing spaces are ignored |
| CommonWords.ReadQuoted | src/megacmdcommonutils.cpp:411-460 | a quoted word is the text up to the matching quote (or the end), and reading resumes after that quote |
| CommonWords.ReadUnquoted | src/megacmdcommonutils.cpp:461-481 | the scan of an unquoted word ends where the reference WordEnd does: at an unescaped space or the end, skipping over an inner quoted run |
| CommonWords.ReadWord | src/megacmdcommonutils.cpp:410-482 | one word and the resume position, as the reference NextWord gives them |
| CommonWords.SplitWords | src/megacmdcommonutils.cpp:396-483 | the word loop yields the reference word list WordsFrom from the start |
| CommonWords.GetListOfWords | src/megacmdcommonutils.cpp:390-494 | the words of the line are the reference Words: the split words, then the completion escape |
| CommonWords.EscapeCompletionWords | src/megacmdcommonutils.cpp:485-491 | the loop gives the reference EscapeCompletion |
| CommonWords.DoubleBackslashes | src/megacmdcommonutils.cpp:487-490 | the same number of words, each with every backslash doubled |
| CommonWords.EscapeOnlyCompletion | src/megacmdcommonutils.cpp:485-491 | words are untouched unless the flag is set and the first of several words is "completion"; then the first is kept and every later word has each backslash doubled |
| CommonWords.SplitPlainLine | tests/unit/UtilsTests.cpp:56-63 | plain words joined by single spaces split back into those words; trailing blanks add a final "" unless ignored |
| CommonWords.TrailingSpaces | tests/unit/UtilsTests.cpp:107-118 | a run of trailing spaces yields no word when ignored, and one "" otherwise |
| CommonWords.QuotedWord | tests/unit/UtilsTests.cpp:65-82 | a word between matching quotes is the text inside them, without the quotes |
| CommonWords.UnmatchedQuote | src/megacmdcommonutils.cpp:417-434 | an opening quote with no closing one takes the rest of the line as its word |
| CommonWords.InnerQuoted | tests/unit/UtilsTests.cpp:120-134 | a quoted run inside an unquoted word stays in the word with its quotes, spaces included |
| CommonWords.InnerUnmatched | tests/unit/UtilsTests.cpp:71-75 | an unmatched quote inside an unquoted word runs the word to the end of the line |
| CommonWords.PlainWordAt | src/megacmdcommonutils.cpp:461-481 | a plain word followed by a space or the end is read whole |
| CommonWords.JoinedPlainWords | src/megacmdcommonutils.cpp:396-483 | a run of plain words joined by single spaces reads back as those words |
| CommonSizes.GetStringUtf8Size | src/megacmdcommonutils.cpp:591-616 | the loop's display width equals the reference Utf8Size |
| CommonSizes.AsciiWidth | src/megacmdcommonutils.cpp:591-616 | an ASCII string is as wide as it is long |
| CommonSizes.InvalidLeadWidth | src/megacmdcommonutils.cpp:591-616 | a continuation byte or a byte from 0xF8 up in lead position makes the width unknown |
| CommonSizes.InvalidLeadAfterAscii | src/megacmdcommonutils.cpp:591-616 | such a byte after an ASCII prefix makes the whole width 0 |
| CommonSizes.ThreeByteWidth | src/megacmdcommonutils.cpp:591-616 | a three-byte lead takes one column for the known narrow glyphs and two otherwise |
| CommonSizes.Repeat | src/megacmdcommonutils.cpp:618-644 | n copies of the character |
| CommonSizes.FillAtEnd | src/megacmdcommonutils.cpp:618-644 | inserting n fill characters at the end appends them |
| CommonSizes.SubAtEnd | src/megacmdcommonutils.cpp:618-644 | inserting a substring at the end appends it |
| CommonSizes.SubIntoEmpty | src/megacmdcommonutils.cpp:618-644 | inserting a substring into an empty string gives at most n characters of it |
| CommonSizes.SubNothing | src/megacmdcommonutils.cpp:618-644 | inserting the empty tail of a string changes nothing |
| CommonSizes.FixLengthFits | src/megacmdcommonutils.cpp:618-644 | ASCII text that fits is padded with the delimiter on the chosen side to exactly size characters |
| CommonSizes.FixLengthElided | src/megacmdcommonutils.cpp:618-644 | longer ASCII text with size above 3 keeps a head and a tail around "..." and is exactly size characters |
| CommonSizes.FixLengthThreeThrows | src/megacmdcommonutils.cpp:618-644 | size 3 with longer text makes the std::string call throw (no result) |
| CommonSizes.FixLengthTiny | src/megacmdcommonutils.cpp:618-644 | size 0 to 2 with longer ASCII text returns the text unchanged |
| CommonSizes.ParseSize | src/megacmdcommonutils.cpp:1029-1087 | the loop's result equals the reference TextToSize |
| CommonSizes.TextToSizeFails | src/megacmdcommonutils.cpp:1029-1087 | -1 iff the text has a rejected unit letter or ends in a digit; never below -1 |
| CommonSizes.TextToSizeOfRendered | src/megacmdcommonutils.cpp:1029-1087 | text made of number-and-unit components parses to the sum of their scaled values |
| CommonSizes.HumanUnit | src/megacmdcommonutils.cpp:988-1027 | the unit chosen by sizeToText is 1 or less than half the size, and "TB" exactly for 1024^4 |
| CommonSizes.TeraFinding | src/megacmdcommonutils.cpp:1029-1087 | as written "nT" gives 1024 times n·1024^4, the corrected parse gives n·1024^4, the value sizeToText prints as n TB |
| ColumnDisplay.NewField | src/megacmdcommonutils.cpp:1489-1496 | a field keeps its name and flags, maxValueLength 0, and the fixed width as display width only when fixed |
| ColumnDisplay.UpdateMaxValue | src/megacmdcommonutils.cpp:1498-1504 | the maximum of the old length and the candidate; nothing else changes |
| ColumnDisplay.UpdateMaxValueOrder | src/megacmdcommonutils.cpp:1498-1504 | updates commute, two updates equal one with the larger, and repeating an update changes nothing |
| ColumnDisplay.CloseRowKeeps | src/megacmdcommonutils.cpp:1245-1249 | closing the open row keeps the table consistent: every stored value fits its column |
| ColumnDisplay.RecordKeeps | src/megacmdcommonutils.cpp:1261-1284 | recording a value keeps the table consistent |
| ColumnDisplay.ColumnDisplayer.constructor | src/megacmdcommonutils.cpp:1286-1290 | an empty table with the path display size as minimum unfixed width |
| ColumnDisplay.ColumnDisplayer.EndRegistry | src/megacmdcommonutils.cpp:1245-1249 | the open row is appended to the rows and emptied; the length restarts at 0 |
| ColumnDisplay.ColumnDisplayer.SetPrefix | src/megacmdcommonutils.cpp:1251-1254 | only the prefix changes |
| ColumnDisplay.ColumnDisplayer.AddHeader | src/megacmdcommonutils.cpp:1256-1259 | the field under the name is replaced by a fresh one; nothing else changes |
| ColumnDisplay.ColumnDisplayer.AddValue | src/megacmdcommonutils.cpp:1261-1284 | a repeated name closes the row unless replacing; the value is stored, the length grows by its width, the name is registered once and the column's maximum is updated |
| ColumnDisplay.ColumnDisplayer.Clear | src/megacmdcommonutils.cpp:1479-1482 | everything is reset except the minimum unfixed width, which the reconstruction reads again from the same options |
| MegaCmdUtils.WildcardMatch | src/megacmdutils.cpp:1030-1073 | the three loops answer exactly the reference full-match Glob of the C strings |
| MegaCmdUtils.MatchUntilStar | src/megacmdutils.cpp:1036-1044 | a mismatch before the first '*' means no match; otherwise the match is unchanged from where the loop stops |
| MegaCmdUtils.MatchAfterStar | src/megacmdutils.cpp:1046-1067 | a final '*' matches; otherwise the match is decided by the pattern left once the text is used up |
| MegaCmdUtils.MatchTrailingStars | src/megacmdutils.cpp:1068-1072 | the rest of the pattern matches the empty remainder iff it is only stars |
| MegaCmdUtils.StarCommit | src/megacmdutils.cpp:1046-1067 | after a star, a matching literal segment followed by a star or the end can be taken at once |
| MegaCmdUtils.StarRetry | src/megacmdutils.cpp:1062-1066 | after a star, a segment that fails to match one character on is retried one character later |
| MegaCmdUtils.GlobLiteral | src/megacmdutils.cpp:1030-1073 | a pattern without '*' or '?' matches only text equal to it |
| MegaCmdUtils.GlobStar | src/megacmdutils.cpp:1030-1073 | "*" matches every text |
| MegaCmdUtils.LogLevelStr | src/megacmdutils.cpp:198-237 | a level has a name other than "UNKNOWN" iff it lies between FATAL and MAX |
| MegaCmdUtils.StreamInt | src/megacmdutils.cpp:266-272 | a number read from the text fits in an int |
| MegaCmdUtils.LogLevelNum | src/megacmdutils.cpp:239-275 | any result is a valid level; none iff the text is neither a level name nor a number |
| MegaCmdUtils.NamedFatal | src/megacmdutils.cpp:241-244 | "FATAL" names LOG_LEVEL_FATAL |
| MegaCmdUtils.NamedError | src/megacmdutils.cpp:245-248 | "ERROR" names LOG_LEVEL_ERROR |
| MegaCmdUtils.NamedWarning | src/megacmdutils.cpp:249-252 | "WARNING" names LOG_LEVEL_WARNING |
| MegaCmdUtils.NamedInfo | src/megacmdutils.cpp:253-256 | "INFO" names LOG_LEVEL_INFO |
| MegaCmdUtils.NamedDebug | src/megacmdutils.cpp:257-260 | "DEBUG" names LOG_LEVEL_DEBUG |
| MegaCmdUtils.NamedVerbose | src/megacmdutils.cpp:261-264 | "VERBOSE" names LOG_LEVEL_MAX |
| MegaCmdUtils.LogLevelRoundTrip | src/megacmdutils.cpp:198-275 | every valid level's name maps back to that level |
| MegaCmdUtils.NotLevelName | src/megacmdutils.cpp:239-275 | text starting with a digit or '-' is not a level name |
| MegaCmdUtils.LogLevelNumeric | src/megacmdutils.cpp:266-274 | a number's decimal text gives that number clamped into [FATAL, MAX] |
| MegaCmdUtils.ShareLevelStr | src/megacmdutils.cpp:278-312 | a level has a name other than "UNEXPECTED" iff it lies between UNKNOWN and OWNER |
| MegaCmdUtils.ShareLevelNum | src/megacmdutils.cpp:314-341 | "UNEXPECTED" maps to -9 |
| MegaCmdUtils.ShareLevelRoundTrip | src/megacmdutils.cpp:278-341 | every known level's name maps back to it; any other level comes back as -9 |
| MegaCmdUtils.ReadablePermissions | src/megacmdutils.cpp:1216-1225 | three octal digits |
| MegaCmdUtils.PermissionsFromReadable | src/megacmdutils.cpp:1227-1243 | a value in [-1, 0777]; -1 iff the text is not exactly three digits 0-7 |
| MegaCmdUtils.OctalSplit | src/megacmdutils.cpp:1216-1225 | the three octal digits of a value are recovered by division |
| MegaCmdUtils.OctalJoin | src/megacmdutils.cpp:1227-1243 | recombining the three octal digits gives the value back |
| MegaCmdUtils.PermissionsRoundTrip | src/megacmdutils.cpp:1216-1243 | values 0 to 0777 survive rendering and parsing, and any accepted text survives parsing and rendering |
| MegaCmdUtils.Period | src/megacmdutils.cpp:618-643 | six components: years, months, days, hours, minutes, seconds |
| MegaCmdUtils.PeriodDecomposes | src/megacmdutils.cpp:618-643 | the components times 31557600, 2629800, 86400, 3600, 60 and 1 add up to the time, and for a non-negative time each lies in its range |
| MegaCmdUtils.PeriodPartsShape | src/megacmdutils.cpp:618-643 | the text is empty iff every component is 0, and it never starts with '0' |
| MegaCmdUtils.ReadablePeriodZero | src/megacmdutils.cpp:618-643 | the text is "0s" iff the time is 0 |
| MegaCmdUtils.LinkType | src/megacmdutils.cpp:432-454 | "/folder/" gives folder, then "/file/" gives file, then no '#' or nothing after it gives unknown, "#F" folder and any other '#' file |
| MegaCmdUtils.NodeNameIsVersion | src/megacmdutils.cpp:1120-1136 | true iff the name is longer than 12 with '#' eleven from the end followed by ten digits |
| MegaCmdUtils.MinAndMaxSize | src/megacmdutils.cpp:877-937 | empty text or another first character is refused; accepted bounds are sizes or -1 |
| MegaCmdUtils.MinSizeOnly | src/megacmdutils.cpp:877-937 | "+A" sets the minimum from A and leaves the maximum at -1 |
| MegaCmdUtils.PlusMinusRange | src/megacmdutils.cpp:877-937 | "+A-B" sets the minimum from A and the maximum from B |
| MegaCmdUtils.MinusPlusRange | src/megacmdutils.cpp:877-937 | "-A+B" sets the maximum from A and the minimum from B |
| MegaCmdUtils.MinThenMaxSize | src/megacmdutils.cpp:877-937 | rendered sizes "+A-B" parse to the totals of A and B |
| MegaCmdUtils.MaxSizeOnly | src/megacmdutils.cpp:877-937 | "-A" sets the maximum from A and leaves the minimum at -1 |
| MegaCmdUtils.MaxThenMinSize | src/megacmdutils.cpp:877-937 | rendered sizes "-A+B" parse to maximum A and minimum B |
| MegaCmdUtils.Bump | src/megacmdutils.cpp:1154 | the named flag's count goes up by one and every other count stays |
| MegaCmdUtils.CountShortFlags | src/megacmdutils.cpp:1147-1162 | the character loop gives the reference ShortFlags |
| MegaCmdUtils.SetOptionsAndFlags | src/megacmdutils.cpp:1138-1212 | the erase loop gives the reference scan ScanOptions |
| MegaCmdUtils.ShortFlagsCount | src/megacmdutils.cpp:1147-1162 | each valid one-letter flag is counted once per occurrence; an invalid letter reports discarded |
| MegaCmdUtils.DashStepReports | src/megacmdutils.cpp:1145-1199 | one dash word reports discarded iff it names something invalid |
| MegaCmdUtils.DashStepMonotone | src/megacmdutils.cpp:1145-1199 | one dash word never lowers a count nor drops an option |
| MegaCmdUtils.ScanWithoutStop | src/megacmdutils.cpp:1138-1212 | without "--", outside global mode, exactly the non-dash words are kept, and discarded iff some word is invalid |
| MegaCmdUtils.ScanStopsAtDoubleDash | src/megacmdutils.cpp:1163-1167 | the first "--" is erased, the words after it are kept untouched |
| MegaCmdUtils.ScanGlobalStops | src/megacmdutils.cpp:1201-1206 | in global mode the scan keeps everything from the first non-dash word on |
| MegaCmdUtils.ScanMonotone | src/megacmdutils.cpp:1138-1212 | repeated flags only accumulate, options stay and discarded stays set |
| MegaCmdUtils.OptionWordParts | src/megacmdutils.cpp:1181-1188 | "--name=value" splits into name and value |
| MegaCmdUtils.OptionWordStored | src/megacmdutils.cpp:1181-1192 | a valid option stores its value with surrounding quotes stripped |
| MegaCmdUtils.LongFlagCounted | src/megacmdutils.cpp:1168-1180 | a valid long flag is counted once and erased |
| Utf8.FirstCharLength | src/megacmd_utf8.cpp:200-258 | the length of the well-formed first character, 0 when there is none; at most 4 and within the data |
| Utf8.ValidatorStepIsGrammar | src/megacmd_utf8.cpp:202-258 | one step of the validator's branches accepts exactly the first character the byte grammar of section 4 of RFC 3629 accepts |
| Utf8.IsValidUtf8 | src/megacmd_utf8.cpp:188-264 | the loop answers true iff the validations are disabled or the data is well-formed UTF-8 |
| Utf8.AsciiValid | src/megacmd_utf8.cpp:204-210 | ASCII-only data is always valid |
| Utf8.ValidAfterChar | src/megacmd_utf8.cpp:200-260 | data with a well-formed first character is valid iff the rest is |
| Utf8.OverlongLeadRejected | src/megacmd_utf8.cpp:211-221 | leads 0xC0 and 0xC1 are rejected |
| Utf8.OverlongThreeByteRejected | src/megacmd_utf8.cpp:222-239 | three-byte sequences below U+0800 are rejected |
| Utf8.SurrogateRejected | src/megacmd_utf8.cpp:222-239 | surrogates U+D800 to U+DFFF are rejected |
| Utf8.FourByteOutOfRangeRejected | src/megacmd_utf8.cpp:240-256 | four-byte sequences below U+10000 or above U+10FFFF, and leads from 0xF5, are rejected |
| Utf8.StrayContinuationRejected | src/megacmd_utf8.cpp:200-260 | a continuation byte in lead position is rejected |
| Utf8.TruncatedOrBadContinuationRejected | src/megacmd_utf8.cpp:211-258 | a truncated sequence or a bad continuation byte is rejected |
| Utf8.Utf8Encode | src/megacmdshell/megacmdshellcommunications.cpp:291-301 | the byte length is 1, 2, 3 or 4 by the ranges of section 3 of RFC 3629, and nothing above U+10FFFF |
| Utf8.DecodeEncode | src/megacmdshell/megacmdshellcommunications.cpp:283-317 | decoding the encoding of a code point up to U+10FFFF gives it back |
| Utf8.EncodeWellFormed | src/megacmd_utf8.cpp:188-261 | the encoding of a scalar value is one well-formed character that the validator accepts |
| Utf8.SurrogateEncodingRejected | src/megacmd_utf8.cpp:222-239 | the validator rejects the encoding of a surrogate |
| Utf8.EncodeDecode | src/megacmd_utf8.cpp:200-258 | every character the validator accepts decodes to a scalar value whose encoding is those bytes |
| Utf8.EncodedCount | src/megacmdshell/megacmdshellcommunications.cpp:291-301 | to_utf8's count is the length of the encoding |
| ShellUtf8.ContinuationBytes | src/megacmdshell/megacmdshellcommunications.cpp:303-309 | the first loop writes the continuation bytes from the end, six bits each, and shifts the code point by six per byte |
| ShellUtf8.LeadLoop | src/megacmdshell/megacmdshellcommunications.cpp:311-312 | the second loop sets the count's top bits |
| ShellUtf8.ToUtf8AsWritten | src/megacmdshell/megacmdshellcommunications.cpp:283-317 | as written an ASCII code point comes out with its top bit set; every other code point is encoded as RFC 3629 says |
| ShellUtf8.ToUtf8 | src/megacmdshell/megacmdshellcommunications.cpp:283-317 | with the lead loop skipped for one byte, the result is the encoding of section 3 of RFC 3629 |
| ShellUtf8.ToUtf8AsciiFinding | src/megacmdshell/megacmdshellcommunications.cpp:311-314 | 'A' (0x41) is written as the byte 0xC1, which the validator rejects, while its encoding is the valid byte 0x41 |
| Base64.To64 | src/updater/UpdateTask.cpp:1331-1356 | a six-bit value maps into the URL-safe alphabet |
| Base64.From64 | src/updater/UpdateTask.cpp:1358-1386 | a character maps to a six-bit value or to the 255 marker |
| Base64.To64Table | src/updater/UpdateTask.cpp:1331-1356 | the alphabet is A-Z, a-z, 0-9, '-' and '_' in that order |
| Base64.From64To64 | src/updater/UpdateTask.cpp:1331-1386 | from64 inverts to64 on the low six bits |
| Base64.To64From64 | src/updater/UpdateTask.cpp:1331-1386 | to64 inverts from64 on the alphabet |
| Base64.From64Extra | src/updater/UpdateTask.cpp:1358-1386 | '+' and '/' are also read as 62 and 63, and exactly the other characters give 255 |
| Base64.Group | src/updater/UpdateTask.cpp:1457-1472 | one pass of btoa's loop writes 4 characters for 3 or more bytes and one more than the bytes left otherwise |
| Base64.EncodeLength | src/updater/UpdateTask.cpp:1446-1481 | the encoding has 4 characters per whole group and one more than the leftover bytes, with no padding |
| Base64.EncodeAlphabet | src/updater/UpdateTask.cpp:1446-1481 | the encoding holds only alphabet characters, no '=' and no NUL |
| Base64.PutGroup | src/updater/UpdateTask.cpp:1457-1475 | one loop pass writes the group's characters after what is already written and nothing else |
| Base64.Btoa | src/updater/UpdateTask.cpp:1446-1481 | the array holds the encoding followed by a NUL and the encoded length is returned |
| Base64.BtoaString | src/updater/UpdateTask.cpp:1438-1444 | the string form returns exactly the encoding |
| Base64.QuadLength | src/updater/UpdateTask.cpp:1407-1413 | the inner loop reads at most four characters before a non-alphabet one |
| Base64.Sextets | src/updater/UpdateTask.cpp:1399-1413 | the four values the inner loop leaves in c |
| Base64.DecodeBound | src/updater/UpdateTask.cpp:1397-1436 | the decoding has at most three bytes per four characters, plus one group |
| Base64.DecodeStops | src/updater/UpdateTask.cpp:1407-1418 | decoding stops at the first character outside the alphabet |
| Base64.GroupBits | src/updater/UpdateTask.cpp:1420-1435 | the byte formulas of atob recover the three bytes from the four characters btoa wrote for them |
| Base64.DecodeGroup | src/updater/UpdateTask.cpp:1397-1481 | decoding a full group of the encoding gives its three bytes back |
| Base64.DecodeTail | src/updater/UpdateTask.cpp:1397-1481 | decoding the short last group gives its one or two bytes back |
| Base64.DecodeEncode | src/updater/UpdateTask.cpp:1389-1481 | atob of btoa's output is the original bytes |
| Base64.ReadQuad | src/updater/UpdateTask.cpp:1407-1413 | the inner loop stops at four values or at the first 255, which it stores |
| Base64.PutQuad | src/updater/UpdateTask.cpp:1415-1435 | one pass writes as many decoded bytes of the group as fit below blen and says whether to go on |
| Base64.Atob | src/updater/UpdateTask.cpp:1397-1436 | the array holds the decoding cut off at blen, and its length is returned; nothing beyond is written |
| Base64.AtobString | src/updater/UpdateTask.cpp:1389-1395 | the string form returns exactly the decoding |
| Base64.RoundTrip | src/updater/UpdateTask.cpp:1389-1444 | the string forms round-trip: atob(btoa(b)) == b |
| Updater.ChunkLength | src/updater/UpdateTask.cpp:1007-1013 | fgets into a 4096-byte buffer reads at most 4095 bytes, and at least one of a non-empty stream |
| Updater.NextLine | src/updater/UpdateTask.cpp:1007-1017 | one read consumes input, and a non-empty line always consumes some |
| Updater.TextEndClean | src/updater/UpdateTask.cpp:1015-1016 | the line kept holds neither a NUL nor a newline |
| Updater.NextLineShape | src/updater/UpdateTask.cpp:1007-1017 | a line is shorter than the buffer and clean; the input is left unchanged only at end of file, where the line is empty |
| Updater.NextLineOf | src/updater/UpdateTask.cpp:1007-1017 | a clean line followed by a newline is read back exactly, and the newline is consumed |
| Updater.NextOfLines | src/updater/UpdateTask.cpp:1007-1017 | reading a file made of clean lines gives its first line and leaves the others |
| Updater.LineFile.constructor | src/updater/UpdateTask.cpp:689 | an open file with all its bytes unread |
| Updater.NativeSeparators | src/updater/UpdateTask.cpp:273 | MEGA_TO_NATIVE_SEPARATORS outside Windows turns every backslash into a slash and changes nothing else |
| Updater.AtoiNoDigits | src/updater/UpdateTask.cpp:706 | atoi of text that does not start with a number is 0 |
| Updater.UpdateTask.constructor | src/updater/UpdateTask.cpp:689-775 | a task starts with no queued downloads and nothing signed |
| Updater.UpdateTask.ReadNextLine | src/updater/UpdateTask.cpp:1007-1017 | the line read and the file position are those NextLine gives |
| Updater.UpdateTask.ProcessUpdateFile | src/updater/UpdateTask.cpp:689-775 | the verdict, the version, the queued files and the signed bytes are those of the manifest reading Process |
| Updater.UpdateTask.ReadFileList | src/updater/UpdateTask.cpp:724-760 | the loop appends, in order, the URL, native path and signature of every listed file that is not already installed, signs every triple, and fails on a missing path or signature |
| Updater.UpdateTask.ReadEntry | src/updater/UpdateTask.cpp:726-759 | one loop pass reads one triple, stops on an empty URL or fails on an empty path or signature |
| Updater.UpdateTask.RecordEntry | src/updater/UpdateTask.cpp:746-759 | a triple is signed, and queued only if not already installed |
| Updater.ScanEntries | src/updater/UpdateTask.cpp:724-760 | the three queues always have equal length, hold no empty entry and no installed file |
| Updater.ScanOfEntries | src/updater/UpdateTask.cpp:724-760 | reading a list of well-formed entries queues exactly the pending ones, signs every entry and consumes the list |
| Updater.ManifestAccepted | src/updater/UpdateTask.cpp:689-775 | a well-formed manifest newer than the running version is accepted iff some file is pending and the signature of the version and all triples checks |
| Updater.ProcessOfHeader | src/updater/UpdateTask.cpp:692-722 | a missing current version or one not older than the manifest's rejects before the signature line is used |
| Updater.TruncatedManifestRejected | src/updater/UpdateTask.cpp:732-744 | a manifest cut after a URL and path, with no signature, is rejected |
| Updater.TruncatedScan | src/updater/UpdateTask.cpp:739-744 | the list of such a manifest is never complete |
| Updater.EarlyRejections | src/updater/UpdateTask.cpp:692-772 | an empty version line, an unreadable or newer current version reject; an accepted manifest has a complete list, something to download and a checked signature |
| UpdateGenerator.Ascii | src/updategenerator/MEGAUpdateGenerator.cpp:16-40 | the byte form of a string constant has its length |
| UpdateGenerator.SourceTablesShaped | src/updategenerator/MEGAUpdateGenerator.cpp:19-40 | the Windows table lists four files and the macOS table one, each with a target path |
| UpdateGenerator.LeftPadParts | src/updategenerator/MEGAUpdateGenerator.cpp:77-91 | padding keeps the signature as the suffix and fills the front with zeros; a full signature is unchanged |
| UpdateGenerator.PadSignature | src/updategenerator/MEGAUpdateGenerator.cpp:77-91 | the backward loop moves the signature to the end of the buffer and zeroes the front |
| UpdateGenerator.Get | src/updategenerator/MEGAUpdateGenerator.cpp:76 | the signer writes its signature at the front of the buffer and returns its size |
| UpdateGenerator.SignFile | src/updategenerator/MEGAUpdateGenerator.cpp:55-95 | an unreadable file gives size 0 and leaves the buffer; otherwise the buffer holds the file's signature, left-padded to the buffer's length |
| UpdateGenerator.GetLine | src/updategenerator/MEGAUpdateGenerator.cpp:156-157 | getline reads the text up to the first newline |
| UpdateGenerator.GetLineSplits | src/updategenerator/MEGAUpdateGenerator.cpp:156-157 | the line holds no newline, and the line, a newline and the rest make up the input, or the line is all of it |
| UpdateGenerator.FolderPath | src/updategenerator/MEGAUpdateGenerator.cpp:143-147 | the update folder always ends with a slash |
| UpdateGenerator.Entries | src/updategenerator/MEGAUpdateGenerator.cpp:192-217 | the manifest has one entry per listed file, each built from that file |
| UpdateGenerator.SignFiles | src/updategenerator/MEGAUpdateGenerator.cpp:192-217 | the loop succeeds iff every file is readable, and then collects every URL and signature, hashing the version followed by every triple |
| UpdateGenerator.SignEntry | src/updategenerator/MEGAUpdateGenerator.cpp:194-211 | one loop pass fails iff the file is unreadable, and otherwise yields its URL and encoded signature |
| UpdateGenerator.PrintManifest | src/updategenerator/MEGAUpdateGenerator.cpp:246-253 | the output is the version, the update signature and one URL, target, signature triple per file |
| UpdateGenerator.Generate | src/updategenerator/MEGAUpdateGenerator.cpp:97-260 | "-g" prints both keys in base64 and returns 0; a bad command returns 1; a bad key file 2, empty keys 3, version 0 returns 5; otherwise the sign step decides |
| UpdateGenerator.SignUpdate | src/updategenerator/MEGAUpdateGenerator.cpp:180-255 | an unreadable file returns 4, a failed update signature 6, and otherwise 0 with the whole manifest |
| UpdateGenerator.UpdateSignature | src/updategenerator/MEGAUpdateGenerator.cpp:219-243 | the update signature fails iff the signer gives nothing, and is otherwise the padded signature in base64 |
| UpdateGenerator.SignatureLine | src/updategenerator/MEGAUpdateGenerator.cpp:241-243 | an encoded signature is one clean manifest line |
| UpdateGenerator.CleanGenerated | src/updategenerator/MEGAUpdateGenerator.cpp:192-217 | every generated entry is made of clean lines |
| UpdateGenerator.GeneratedManifestRead | src/updategenerator/MEGAUpdateGenerator.cpp:246-253 | the updater reads a generated manifest back as exactly its entries, with the version and every triple under the signature the generator made |
| TransferManager.Raw | src/megacmdtransfermanager.h:328-336 | a value of a width-w type is written as exactly w little-endian bytes |
| TransferManager.ValueBound | src/megacmdtransfermanager.h:298-307 | w bytes read back a value below 256^w |
| TransferManager.ValueOfRaw | src/megacmdtransfermanager.h:298-336 | reading the bytes a value was written as gives the value back |
| TransferManager.RawOfValue | src/megacmdtransfermanager.h:298-336 | writing the value some bytes read as gives those bytes back |
| TransferManager.CBytes | src/megacmdtransfermanager.cpp:911-923 | append(const char *) copies no more than the text |
| TransferManager.CBytesIs | src/megacmdtransfermanager.cpp:911-923 | append(const char *) copies the text up to its first NUL, which is left out |
| TransferManager.EncodedString | src/megacmdtransfermanager.cpp:836-841 | a string is its size as a size_t followed by its bytes |
| TransferManager.EncodedFieldsAppend | src/megacmdtransfermanager.cpp:844-895 | the transfer's fields are written one after another |
| TransferManager.ParamWriter.constructor | src/megacmdtransfermanager.h:315 | the writer appends to the string it is given |
| TransferManager.ParamWriter.WriteRaw | src/megacmdtransfermanager.h:328-336 | the value's bytes are appended |
| TransferManager.ParamWriter.WriteBool | src/megacmdtransfermanager.h:328-336 | a bool is appended as one byte |
| TransferManager.ParamWriter.Write | src/megacmdtransfermanager.cpp:943-946 | the first size bytes of the buffer are appended |
| TransferManager.ParamWriter.WriteString | src/megacmdtransfermanager.cpp:836-841 | the size and the bytes of the string are appended |
| TransferManager.ParamWriter.WriteCString | src/megacmdtransfermanager.cpp:911-938 | a null flag is appended, then for a non-null pointer its text and a NUL |
| TransferManager.ParamWriter.WriteField | src/megacmdtransfermanager.cpp:844-895 | one field is appended in its writer's encoding |
| TransferManager.ParamWriter.WriteFields | src/megacmdtransfermanager.cpp:850-893 | the fields are appended in order |
| TransferManager.ParamWriter.WriteTransfer | src/megacmdtransfermanager.cpp:844-895 | a null flag is appended, then for a transfer all its fields |
| TransferManager.StringEndIs | src/megacmdtransfermanager.cpp:745-757 | advanceString stops just after the first NUL, or at the end when there is none |
| TransferManager.ReadRawAt | src/megacmdtransfermanager.h:298-307 | a read never moves past the end |
| TransferManager.ReadBoolAt | src/megacmdtransfermanager.h:298-307 | a bool read never moves past the end |
| TransferManager.ReadStringAt | src/megacmdtransfermanager.cpp:822-833 | a string read never moves past the end |
| TransferManager.ReadCStringAt | src/megacmdtransfermanager.cpp:786-802 | a C string read never moves past the end |
| TransferManager.ParamReader.constructor | src/megacmdtransfermanager.cpp:730-737 | the reader starts at the beginning of the buffer |
| TransferManager.ParamReader.SizeRead | src/megacmdtransfermanager.h:258-261 | sizeRead is within the buffer |
| TransferManager.ParamReader.Advance | src/megacmdtransfermanager.cpp:739-743 | the position moves by exactly size and stays within the buffer |
| TransferManager.ParamReader.AdvanceString | src/megacmdtransfermanager.cpp:745-757 | the position moves to just after the next NUL, or to the end |
| TransferManager.ParamReader.ReadRaw | src/megacmdtransfermanager.h:298-307 | a value is read when enough bytes remain; otherwise the output and the position are left as they were |
| TransferManager.ParamReader.ReadBool | src/megacmdtransfermanager.h:298-307 | a bool is read like any other fixed-size value |
| TransferManager.ParamReader.ReadString | src/megacmdtransfermanager.cpp:822-833 | the size is read, then the bytes when they fit; an oversized string leaves the output as it was |
| TransferManager.ParamReader.ReadCString | src/megacmdtransfermanager.cpp:786-802 | the null flag is read, then the text up to its NUL |
| TransferManager.ParamReader.ReadTransfer | src/megacmdtransfermanager.cpp:761-782 | a null flag or nothing left gives no transfer; otherwise the transfer is parsed from the rest and the position moves by what it read |
| TransferManager.RawRoundTrip | src/megacmdtransfermanager.h:298-336 | a value written and read back at the same place is the same value |
| TransferManager.StringRoundTrip | src/megacmdtransfermanager.cpp:822-841 | a string written and read back is the same string, and the position moves past it |
| TransferManager.OversizedString | src/megacmdtransfermanager.cpp:826-832 | a size running past the end leaves the output as it was, with the size consumed |
| TransferManager.CStringRoundTrip | src/megacmdtransfermanager.cpp:786-802 | a C string with no NUL inside reads back as itself |
| TransferManager.NullRoundTrip | src/megacmdtransfermanager.cpp:786-802 | a null pointer reads back as null |
| TransferManager.CBytesClean | src/megacmdtransfermanager.cpp:911-923 | a text without NUL is copied whole |
| TransferManager.CBytesStop | src/megacmdtransfermanager.cpp:911-923 | the copy stops at the first NUL |
| TransferManager.StringEndAtNul | src/megacmdtransfermanager.cpp:745-757 | advanceString after a text and its NUL lands just after the NUL |
| TransferManager.ReadFieldAt | src/megacmdtransfermanager.cpp:761-833 | a field read never moves past the end |
| TransferManager.FieldRoundTrip | src/megacmdtransfermanager.cpp:786-938 | every representable field reads back as itself and its exact encoded length is consumed |
| TransferManager.RawFieldRoundTrip | src/megacmdtransfermanager.h:298-336 | a fixed-size field round-trips |
| TransferManager.StringFieldRoundTrip | src/megacmdtransfermanager.cpp:822-841 | a string field round-trips |
| TransferManager.CStringFieldRoundTrip | src/megacmdtransfermanager.cpp:786-802 | a C string field round-trips |
| TransferManager.IdLessStrictTotal | src/megacmdtransfermanager.h:57-61 | the tag-then-path order is irreflexive, transitive, total and asymmetric |
| TransferManager.GetObjectID | src/megacmdtransfermanager.cpp:948-960 | the id starts with "O:", followed by the link handle for a public link with one and the path otherwise |
| TransferManager.IsObjectIDIff | src/megacmdtransfermanager.cpp:962-965 | isObjectID holds iff the text starts with "O:" |
| TransferManager.ObjectIDRecognised | src/megacmdtransfermanager.cpp:948-965 | every generated id is recognised as an object id |
| RotatingLogger.MemoryBlock.View | src/megacmd_rotating_logger.cpp:44-51 | a block's text has its size, and its capacity and allocation flag are those it was made with |
| RotatingLogger.MemoryBlock.constructor | src/megacmd_rotating_logger.cpp:44-51 | a new block is empty, with the given capacity, and out of memory iff the allocation failed |
| RotatingLogger.MemoryBlock.CanAppendData | src/megacmd_rotating_logger.cpp:53-57 | data fits iff the block has memory and the text stays below the capacity, keeping the last byte for the NUL |
| RotatingLogger.MemoryBlock.IsNearCapacity | src/megacmd_rotating_logger.cpp:59-62 | a block is near capacity iff less than an eighth of it is left |
| RotatingLogger.MemoryBlock.AppendData | src/megacmd_rotating_logger.cpp:74-85 | the data is appended to the text, which stays NUL-terminated, and nothing else changes |
| RotatingLogger.BufferedAppend | src/megacmd_rotating_logger.cpp:92-107 | the buffered text is the blocks' texts in list order |
| RotatingLogger.AppendedBuffered | src/megacmd_rotating_logger.cpp:92-107 | append adds the data to the buffered text exactly when it fits the last block or a new block, and drops it otherwise |
| RotatingLogger.AppendedToNewShape | src/megacmd_rotating_logger.cpp:97-106 | when the last block cannot take the data, one new block is added, holding the data when it fits it |
| RotatingLogger.AppendedToLast | src/megacmd_rotating_logger.cpp:103-106 | data that fits the last block goes there, and the other blocks are untouched |
| RotatingLogger.AppendedToNew | src/megacmd_rotating_logger.cpp:97-106 | otherwise a new block is opened, and the earlier blocks are untouched |
| RotatingLogger.ViewsBounded | src/megacmd_rotating_logger.cpp:53-85 | no block's text ever reaches its capacity |
| RotatingLogger.MessageBuffer.constructor | src/megacmd_rotating_logger.cpp:87-90 | a new buffer has no blocks and the given block capacity |
| RotatingLogger.MessageBuffer.Append | src/megacmd_rotating_logger.cpp:92-107 | the blocks after the call are those the functional Appended gives |
| RotatingLogger.MessageBuffer.AppendToNewBlock | src/megacmd_rotating_logger.cpp:97-106 | a block is opened at the end and written when the data fits it |
| RotatingLogger.MessageBuffer.OpenBlock | src/megacmd_rotating_logger.cpp:99-100 | emplace_back adds the block at the end of the list |
| RotatingLogger.MessageBuffer.FillLast | src/megacmd_rotating_logger.cpp:103-106 | the data is written into the last block only |
| RotatingLogger.MessageBuffer.PopMemoryBlockList | src/megacmd_rotating_logger.cpp:109-113 | the whole list is handed out and the buffer is left empty |
| RotatingLogger.MessageBuffer.IsEmpty | src/megacmd_rotating_logger.cpp:115-119 | empty iff there are no blocks |
| RotatingLogger.MessageBuffer.IsNearLastBlockCapacity | src/megacmd_rotating_logger.cpp:121-125 | true iff there is a last block and it is near capacity |
| RotatingLogger.DefaultRotation | src/megacmd_rotating_logger.cpp:263-269 | by default a file rotates once it is over 50 MiB, and 50 numbered archives are kept |
| RotatingLogger.FileName | src/megacmd_rotating_logger.cpp:187-205 | file 0 is the base name, file 1 adds ".1" and later files add ".i" and the archive extension |
| RotatingLogger.FileNameInjective | src/megacmd_rotating_logger.cpp:187-205 | distinct numbers give distinct file names when the extension does not start with a digit |
| RotatingLogger.DigitRunOf | src/megacmd_rotating_logger.cpp:195 | the number in a file name is read back by its digit run |
| RotatingLogger.SplitDigits | src/megacmd_rotating_logger.cpp:195-201 | names with numbers and extensions agree only when their numbers do |
| RotatingLogger.FileNameDistinct | src/megacmd_rotating_logger.cpp:187-205 | different numbers never name the same file |
| RotatingLogger.NeighboursDistinct | src/megacmd_rotating_logger.cpp:216-242 | a rename of file i to i+1 touches no other numbered file |
| RotatingLogger.RotateSkip | src/megacmd_rotating_logger.cpp:222-223 | a missing numbered file is quietly skipped |
| RotatingLogger.RotateDelete | src/megacmd_rotating_logger.cpp:225-233 | the last kept file is deleted |
| RotatingLogger.RotateRename | src/megacmd_rotating_logger.cpp:235-241 | every other existing file is renamed to the next number |
| RotatingLogger.RotateFiles | src/megacmd_rotating_logger.cpp:216-242 | afterwards file k holds what file k-1 held, file 0 is gone, the last is dropped and every other file is unchanged |
| ConfigurationManager.Key | src/configurationmanager.cpp:214-218 | a line has a key iff it holds '=', and the key is the text before the first '=' with trailing spaces cut, up to any NUL |
| ConfigurationManager.Filtered | src/configurationmanager.cpp:209-236 | the rewrite keeps at most the lines it read |
| ConfigurationManager.FilteredConcat | src/configurationmanager.cpp:209-236 | the kept lines of two runs of lines are kept in order |
| ConfigurationManager.FilteredMembers | src/configurationmanager.cpp:211 | a line survives iff it is non-empty and not a comment |
| ConfigurationManager.FirstKeyUnique | src/configurationmanager.cpp:220-225 | only one line is the first with the property's key |
| ConfigurationManager.FirstKeyExists | src/configurationmanager.cpp:220-225 | either no line has the key or a first one does |
| ConfigurationManager.SavedSkip | src/configurationmanager.cpp:226-234 | a line that is not the first match is copied as it was |
| ConfigurationManager.SavedHit | src/configurationmanager.cpp:220-225 | the first match is replaced by property=value and its old value is kept |
| ConfigurationManager.SaveLine | src/configurationmanager.cpp:209-236 | one loop pass drops blank and comment lines, replaces the first match and copies the rest |
| ConfigurationManager.SaveProperty | src/configurationmanager.cpp:192-249 | the file is rewritten without blank and comment lines, the first entry for the property replaced or one appended, and the old value returned |
| ConfigurationManager.PropertyOfSkips | src/megacmdcommonutils.cpp:1213-1241 | lines without the key do not change what getPropertyFromFile reads |
| ConfigurationManager.EntryRead | src/megacmdcommonutils.cpp:1213-1241 | an entry property=value is read back as the trimmed value |
| ConfigurationManager.SavePropertyRoundTrip | src/configurationmanager.cpp:192-249 | after saveProperty, getPropertyFromFile reads the saved value back |
| ConfigurationManager.AppendedRead | src/configurationmanager.cpp:242-245 | an appended entry is the one read when the key was absent |
| ConfigurationManager.ReplacedRead | src/configurationmanager.cpp:220-225 | a replaced first entry is the one read |
| ConfigurationManager.SavedLines | src/configurationmanager.cpp:192-249 | every written line was a kept line or the new entry, and every kept line other than the replaced one is still written |
| ConfigurationManager.UpdatedMembers | src/configurationmanager.cpp:220-225 | replacing one line keeps every other line |
| ConfigurationManager.ClearConfigurationFile | src/configurationmanager.cpp:873-918 | the file keeps its comments, blank lines, lines without '=' and the entries of the persistent keys |
| ConfigurationManager.ClearLine | src/configurationmanager.cpp:889-908 | one loop pass keeps a line iff it is not an entry or is a persistent entry |
| ConfigurationManager.KeepIfPersistent | src/configurationmanager.cpp:897-903 | the inner loop keeps the entry iff its key is autoupdate or updaterregistered |
| ConfigurationManager.ClearedMembers | src/configurationmanager.cpp:873-918 | exactly the lines clearing keeps survive, in order |
| ConfigurationManager.ClearedIdempotent | src/configurationmanager.cpp:873-918 | clearing twice is clearing once |
| ConfigurationManager.ClearedKeepsPersistent | src/configurationmanager.cpp:85-88 | the persistent keys read the same after clearing |
| ConfigurationManager.ClearedDropsOthers | src/configurationmanager.cpp:873-918 | every other key reads empty after clearing |
| ConfigurationManager.Stoull | src/configurationmanager.cpp:950 | stoull gives a value below 2^64 or throws |
| ConfigurationManager.ValidatorULL | src/configurationmanager.cpp:940-966 | accepted values do not start with '-', parse, and lie within the optional bounds |
| ConfigurationManager.StoullDecimal | src/configurationmanager.cpp:950 | stoull parses the decimal text of any value below 2^64 |
| ConfigurationManager.ExportedFoldersSdksBounds | src/configurationmanager.cpp:975-981 | exported_folders_sdks accepts exactly 0 to 20 and never a negative text |
| ConfigurationManager.ValidatorULLUnbounded | src/configurationmanager.cpp:968-973 | max_nodes_in_cache accepts every value below 2^64 but not the empty text |
| ConfigurationRecords.Unsigned | src/configurationmanager.cpp:341-346 | a signed value is stored as its two's-complement bytes, which fit the width |
| ConfigurationRecords.SignedOfUnsigned | src/configurationmanager.cpp:550-569 | reading two's-complement bytes back gives the signed value |
| ConfigurationRecords.ReadRaw | src/configurationmanager.cpp:550-569 | a fixed-size read consumes exactly its width |
| ConfigurationRecords.ReadRawOf | src/configurationmanager.cpp:550-569 | a written value reads back with the rest of the file untouched |
| ConfigurationRecords.ReadBytesOf | src/configurationmanager.cpp:568-569 | the path bytes read back as written |
| ConfigurationRecords.EncodedSyncAppend | src/configurationmanager.cpp:338-349 | one record is control value, version, fingerprint, handle, path length and path |
| ConfigurationRecords.SaveSyncs | src/configurationmanager.cpp:315-361 | the file is the records of the syncs in map order |
| ConfigurationRecords.WriteSync | src/configurationmanager.cpp:338-349 | one loop pass writes one record |
| ConfigurationRecords.ReadSync | src/configurationmanager.cpp:546-569 | reading a record always consumes input |
| ConfigurationRecords.LoadSyncs | src/configurationmanager.cpp:522-595 | the syncs map and the re-save flag are those the record reading gives |
| ConfigurationRecords.ReadSyncOf | src/configurationmanager.cpp:546-569 | a record saved with a version above 90500 reads back as the same sync and version |
| ConfigurationRecords.ReadSyncOldVersion | src/configurationmanager.cpp:551-565 | a record saved with a version of at most 90500 is read with the fingerprint as its handle and the control value as its fingerprint |
| ConfigurationRecords.EncodedSyncLonger | src/configurationmanager.cpp:544-581 | every record is non-empty, so the load loop ends |
| ConfigurationRecords.LoadSyncsRoundTrip | src/configurationmanager.cpp:522-595 | loading saved syncs gives the map with each path bound to its last sync, and asks to re-save iff some record's version differs from the current one |
| ConfigurationRecords.LoadedLastWins | src/configurationmanager.cpp:571-575 | a later record for the same path replaces the earlier one |
| ConfigurationRecords.LoadedUntouched | src/configurationmanager.cpp:571-575 | a path no record names is left as it was |
| ConfigurationRecords.LoadedHasAll | src/configurationmanager.cpp:575 | every record's path ends up in the map |
| ConfigurationRecords.LoadedKeeps | src/configurationmanager.cpp:571-575 | loading never removes a path |
| ConfigurationRecords.WriteBackup | src/configurationmanager.cpp:385-405 | one backup record is version, handle, path, number of backups, period and period text |
| ConfigurationRecords.EncodedBackupAppend | src/configurationmanager.cpp:385-405 | a record followed by more bytes is the record written before them |
| ConfigurationRecords.SaveBackups | src/configurationmanager.cpp:363-416 | the file is the records of the backups in map order |
| ConfigurationRecords.ReadBackup | src/configurationmanager.cpp:621-658 | a read always consumes input, and an accepted backup has a path of 1 to PATH_MAX_LOCAL_BACKUP bytes and id and tag -1 |
| ConfigurationRecords.ReadBackupOf | src/configurationmanager.cpp:621-654 | a storable backup reads back as itself with id and tag reset to -1 |
| ConfigurationRecords.ReadBackupRefused | src/configurationmanager.cpp:629-658 | a backup with an empty or over-long path is refused after its length, and the rest of its record is read as the next one |
| ConfigurationRecords.LoadBackups | src/configurationmanager.cpp:598-669 | the backups map is the one the record reading gives |
| ConfigurationRecords.EncodedBackupLonger | src/configurationmanager.cpp:619-659 | every backup record is non-empty |
| ConfigurationRecords.LoadBackupsRoundTrip | src/configurationmanager.cpp:598-669 | loading saved backups gives each path its last backup, with id and tag -1 |
| ConfigurationRecords.LoadedBackupsFiltered | src/configurationmanager.cpp:629-653 | whatever the file, every loaded backup has an accepted path length |
| SyncIgnore.SkipBOM | src/sync_ignore.cpp:44-56 | a leading UTF-8 byte-order mark is reported and skipped; without one the file is read from the start, and a file under three bytes yields nothing |
| SyncIgnore.NextLine | src/sync_ignore.cpp:61 | getline returns a line without newline and consumes input |
| SyncIgnore.Lines | src/sync_ignore.cpp:61 | the lines getline yields hold no newline |
| SyncIgnore.NextLineOf | src/sync_ignore.cpp:61 | a line written with its newline reads back as itself |
| SyncIgnore.NextLineSplit | src/sync_ignore.cpp:61 | the line, the newline and the rest make up the text |
| SyncIgnore.LinesOfJoin | src/sync_ignore.cpp:109-112 | lines written one per newline read back as the same lines |
| SyncIgnore.LinesAppend | src/sync_ignore.cpp:104-114 | appending to a file that ends with a newline appends its lines |
| SyncIgnore.InsertProperties | src/sync_ignore.cpp:68 | std::set insert keeps the set sorted and adds exactly the element |
| SyncIgnore.CollectedProperties | src/sync_ignore.cpp:58-70 | loading keeps the filters sorted, and they are exactly the non-empty lines not starting with '#' |
| SyncIgnore.KeptTextLines | src/sync_ignore.cpp:125-133 | the rewritten text is the kept lines, each followed by a newline |
| SyncIgnore.KeepMembers | src/sync_ignore.cpp:128-131 | a line is kept iff it is not one of the removed filters |
| SyncIgnore.KeepNoNewline | src/sync_ignore.cpp:125-133 | kept lines hold no newline |
| SyncIgnore.SkipOptional | src/sync_ignore.cpp:81 | an optional character class matches one character of the class or none |
| SyncIgnore.OptAtSkip | src/sync_ignore.cpp:81 | the character an optional class takes is the one skipped |
| SyncIgnore.ParseRender | src/sync_ignore.cpp:79-83 | every valid filter is the rendering of its parse |
| SyncIgnore.RenderValid | src/sync_ignore.cpp:79-83 | every well-formed filter renders to a valid filter |
| SyncIgnore.ValidFilterIff | src/sync_ignore.cpp:79-83 | a filter is valid iff it is class, optional target, type and strategy letters, a colon and non-blank text |
| SyncIgnore.KeepLines | src/sync_ignore.cpp:120-134 | the loop builds the kept text |
| SyncIgnore.MegaIgnoreFile.constructor | src/sync_ignore.cpp:85-90 | the object loads the file and is valid iff it opened |
| SyncIgnore.MegaIgnoreFile.Load | src/sync_ignore.cpp:92-102 | an unopenable file changes nothing; otherwise the filters are those of the file after its byte-order mark and the object is valid |
| SyncIgnore.MegaIgnoreFile.LoadFilters | src/sync_ignore.cpp:58-70 | the filters are replaced by those of the text |
| SyncIgnore.MegaIgnoreFile.AddFilters | src/sync_ignore.cpp:104-114 | the filters are appended one per line in set order, the loaded set is kept and the object is no longer valid |
| SyncIgnore.MegaIgnoreFile.RemoveFilters | src/sync_ignore.cpp:116-139 | the file is rewritten with its byte-order mark and without the removed lines, and the object is no longer valid |
| SyncIgnore.MegaIgnoreFile.ContainsFilter | src/sync_ignore.cpp:141-145 | true iff the filter is loaded |
| SyncIgnore.MegaIgnoreFile.GetFilterContents | src/sync_ignore.cpp:147-157 | the filters in set order, one per line |
| SyncIgnore.LoadedFilters | src/sync_ignore.cpp:92-102 | a loaded file's filters are sorted and are its meaningful lines |
| SyncIgnore.FilterContentsRead | src/sync_ignore.cpp:147-157 | the listed contents read back as the loaded filters |
| SyncIgnore.RemoveThenLoad | src/sync_ignore.cpp:116-139 | loading after a removal gives the meaningful lines not removed |
| SyncIgnore.RemoveKeepsBOM | src/sync_ignore.cpp:137 | the byte-order mark survives a rewrite |
| SyncIgnore.AddThenLoad | src/sync_ignore.cpp:104-114 | loading after an addition gives the old filters and the added meaningful ones |
| NodePath.Step | src/megacmdexecuter.cpp:277-348 | one pass of the do-while loop moves the pointer forward and keeps the scan state consistent |
| NodePath.SplitLoop | src/megacmdexecuter.cpp:271-353 | the loop computes the components, the remote flag or the malformed verdict the scan function gives |
| NodePath.NormPending | src/megacmdexecuter.cpp:285-290 | flushing the pending bytes into s keeps the component text unchanged |
| NodePath.StepNorm | src/megacmdexecuter.cpp:277-348 | a step gives the same outcome whether or not the pending bytes were flushed first |
| NodePath.ScanNorm | src/megacmdexecuter.cpp:277-348 | the whole scan does not depend on when pending bytes are flushed |
| NodePath.PlainStep | src/megacmdexecuter.cpp:281-325 | an ordinary ASCII character is added to the current component |
| NodePath.EscapeStep | src/megacmdexecuter.cpp:283-299 | with the corrected loop, a backslash adds the next character literally |
| NodePath.SlashStep | src/megacmdexecuter.cpp:302-323 | a '/' closes the component |
| NodePath.ColonStep | src/megacmdexecuter.cpp:304-312 | a ':' after a component makes the path malformed; the first one closes it and marks the path remote |
| NodePath.EndStep | src/megacmdexecuter.cpp:302-323 | the terminating NUL closes the last component |
| NodePath.LeadSkipOf | src/megacmdexecuter.cpp:326-341 | a three-byte lead skips one more byte and a four-byte lead two |
| NodePath.ThreeByteLead | src/megacmdexecuter.cpp:326-329 | a three-byte lead and the byte after it go into the component unexamined |
| NodePath.FourByteLead | src/megacmdexecuter.cpp:330-333 | a four-byte lead and the two bytes after it go into the component unexamined |
| NodePath.TruncatedLead | src/megacmdexecuter.cpp:343-353 | a lead the string ends after leaves bytes owing and the path is malformed |
| NodePath.Pieces | src/megacmdexecuter.cpp:302-323 | splitting at '/' and ':' gives at least one piece |
| NodePath.SimpleScan | src/megacmdexecuter.cpp:277-348 | without backslashes and UTF-8 leads the scan is a plain split |
| NodePath.SimpleSplit | src/megacmdexecuter.cpp:271-353 | a path without escapes or leads splits at '/' and ':', is malformed iff a ':' follows a component, and both walks agree on it |
| NodePath.SimpleSame | src/megacmdexecuter.cpp:283-299 | the as-written and the corrected walk only differ on backslashes |
| NodePath.EscapedHead | src/megacmdexecuter.cpp:283-299 | the first escaped character of a name is taken literally |
| NodePath.EscapedWord | src/megacmdexecuter.cpp:277-348 | an escaped name is read back as the name |
| NodePath.EscapedLast | src/megacmdexecuter.cpp:277-348 | an escaped name at the end is the last component |
| NodePath.EscapedFirst | src/megacmdexecuter.cpp:277-348 | an escaped name followed by '/' is one component |
| NodePath.EscapedJoin | src/megacmdexecuter.cpp:277-348 | escaped names joined by '/' are read back as those names |
| NodePath.SplitJoinEscaped | src/megacmdexecuter.cpp:258-353 | escaping each component's '/', ':' and '\' and joining them with '/' splits back into the same components |
| NodePath.JoinEscapedCons | src/megacmdexecuter.cpp:258 | the joined path of a first name and more is its escape, a '/' and the rest |
| NodePath.SplitRemote | src/megacmdexecuter.cpp:304-312 | user:path splits into the user and the path components, marked remote |
| NodePath.EscapeDropsLast | src/megacmdexecuter.cpp:283-299 | as written, "a\:" yields no component at all: the escaped ':' and the pending "a" are lost |
| NodePath.EscapeSwallowsSlash | src/megacmdexecuter.cpp:283-299 | as written, "a\//b" yields the single component "a//b": the '/' after an escaped character is never examined |
| NodePath.EscapeCorrected | src/megacmdexecuter.cpp:283-299 | corrected, "a\:" is the component "a:" and "a\//b" the components "a/" and "b" |
| NodePath.EscapedNames | src/megacmdexecuter.cpp:258 | those two paths are exactly the escaped forms of their names |
| NodeTree.FirstChild | src/megacmdexecuter.cpp:456 | getChildNode gives the first child with the name, or none when no child has it |
| NodeTree.Parent | src/megacmdexecuter.cpp:445 | getParentNode gives the parent recorded for the node |
| NodeTree.ContactNamed | src/megacmdexecuter.cpp:368-377 | the contact found has the email, and none is found only when no contact has it |
| NodeTree.ShareNamed | src/megacmdexecuter.cpp:381-390 | the share found has the name, and none is found only when no incoming share has it |
| NodeTree.FindInShare | src/megacmdexecuter.cpp:368-399 | the two loops find the user's incoming share the way InShare does |
| NodeTree.ResolveLoop | src/megacmdexecuter.cpp:437-483 | the component loop computes the lookup that Resolve gives |
| NodeTree.NodeByPath | src/megacmdexecuter.cpp:261-484 | nodebypath gives the lookup of its path, split with the corrected escape loop of the Findings table |
| NodeTree.ResolveSuffix | src/megacmdexecuter.cpp:437-481 | resolution depends only on the components not yet consumed |
| NodeTree.ResolveFrom | src/megacmdexecuter.cpp:437-481 | resolving from component l is resolving the rest from the start |
| NodeTree.Clean | src/megacmdexecuter.cpp:439-454 | the components that move the walk are neither "." nor empty |
| NodeTree.ResolveClean | src/megacmdexecuter.cpp:439-454 | "." and empty components are skipped |
| NodeTree.ResolveChain | src/megacmdexecuter.cpp:437-483 | names that each exist under the last reach the node at the end of the chain |
| NodeTree.ResolveMissing | src/megacmdexecuter.cpp:456-469 | a missing name fails, except as the last component when the name part is asked for, where the parent and the name are returned |
| NodeTree.Dots | src/megacmdexecuter.cpp:441 | n ".." components |
| NodeTree.ChainThenUp | src/megacmdexecuter.cpp:441-450 | going down n names and up n ".." leaves the walk where it started |
| NodeTree.AbsoluteLookup | src/megacmdexecuter.cpp:404-428 | a path starting with '/' resolves from the root |
| NodeTree.RelativeLookup | src/megacmdexecuter.cpp:430-433 | a relative path resolves from the current folder |
| NodeTree.SpecialRootLookup | src/megacmdexecuter.cpp:407-423 | "//in" resolves from the inbox, "//bin" from the rubbish bin, and any other "//x" fails |
| NodeTree.UserLookup | src/megacmdexecuter.cpp:355-366 | "user:" names the user's inbox and returns no node |
| NodeTree.ShareLookup | src/megacmdexecuter.cpp:368-399 | "user:share/..." resolves from the user's incoming share of that name, and fails without one |
| NodeTree.MakeDir | src/megacmdexecuter.cpp:2510-2603 | makedir's new tree and code are those MakeDirOf gives |
| NodeTree.ExtendsTrans | src/megacmdexecuter.cpp:2524-2593 | successive folder creations only ever add nodes |
| NodeTree.FirstChildPrefix | src/megacmdexecuter.cpp:2541 | adding children keeps an existing first match |
| NodeTree.FirstChildAppendNew | src/megacmdexecuter.cpp:2553-2557 | a newly created child is the one getChildNode then finds |
| NodeTree.ChildExtends | src/megacmdexecuter.cpp:2541 | a child found before a creation is still found after it |
| NodeTree.CreateFolderAdds | src/megacmdexecuter.cpp:2553 | createFolder keeps the tree well-formed, only adds, and under a folder without the name adds the new folder as that name |
| NodeTree.MkStepExtends | src/megacmdexecuter.cpp:2526-2592 | one loop pass only adds nodes and, when it succeeds on a name, moves into the child of that name |
| NodeTree.MkDirExtends | src/megacmdexecuter.cpp:2524-2593 | makedir only adds nodes |
| NodeTree.FirstSlash | src/megacmdexecuter.cpp:2527-2534 | find_first_of("/") cuts the first name |
| NodeTree.MkDirMissingParent | src/megacmdexecuter.cpp:2544-2550 | without -p, a missing intermediate folder gives MCMD_EARGS and changes nothing |
| NodeTree.MkDirExisting | src/megacmdexecuter.cpp:2575-2581 | a last folder that already exists gives MCMD_INVALIDSTATE and changes nothing |
| NodeTree.ChainExtends | src/megacmdexecuter.cpp:2524-2593 | a chain of names survives later creations |
| NodeTree.MkDirCreates | src/megacmdexecuter.cpp:2510-2603 | a successful makedir leaves a chain of folders with the given names |
| NodeTree.LiteralEscape | src/megacmdexecuter.cpp:258 | a name without '/', ':' and '\' is its own escape |
| NodeTree.LiteralJoin | src/megacmdexecuter.cpp:258 | such names joined with '/' need no escaping |
| NodeTree.MakeDirThenLookup | src/megacmdexecuter.cpp:2510-2603 | after a successful makedir the same path resolves to a node |
| DeleteQueue.Question | src/megacmdexecuter.cpp:2218-2220 | the question is "Are you sure to delete ", the name and " ? (Yes/No): " |
| DeleteQueue.Handles | src/megacmdexecuter.cpp:2206-2212 | the handles of the queued nodes, in queue order |
| DeleteQueue.SetPromptOf | src/megacmd.cpp:291-312 | the prompt becomes p; echo is on iff p is the command prompt; any other prompt prints its argument, or the prompt's default text when the argument is empty |
| DeleteQueue.Executer.constructor | src/megacmdexecuter.cpp:2107-2255 | the executer starts with nothing queued, the command prompt, echo on and nothing removed |
| DeleteQueue.Executer.SetPrompt | src/megacmd.cpp:291-312 | the state after setprompt is SetPromptOf's |
| DeleteQueue.Executer.DoDeleteNode | src/megacmdexecuter.cpp:2154-2182 | the node is removed and nothing else changes |
| DeleteQueue.Executer.DeleteNode | src/megacmdexecuter.cpp:2191-2255 | the state after deleteNode is DeleteNodeOf's |
| DeleteQueue.Executer.Reprompt | src/megacmdexecuter.cpp:2117-2127 | the prompt asks about the next queued node, or returns to the command prompt |
| DeleteQueue.Executer.ConfirmDelete | src/megacmdexecuter.cpp:2107-2129 | the state after confirmDelete is ConfirmDeleteOf's |
| DeleteQueue.Executer.DiscardDelete | src/megacmdexecuter.cpp:2135-2152 | the state after discardDelete is DiscardDeleteOf's |
| DeleteQueue.FolderNeedsRecursive | src/megacmdexecuter.cpp:2193-2200 | a folder without -r sets MCMD_INVALIDTYPE and neither queues nor removes anything |
| DeleteQueue.DistinctAppend | src/megacmdexecuter.cpp:2213-2215 | queueing a node not yet queued keeps the queue free of duplicates |
| DeleteQueue.DeleteNodeQueues | src/megacmdexecuter.cpp:2203-2230 | an interactive non-shell recursive delete of a folder without -f queues it once and removes nothing; every other call leaves the queue alone |
| DeleteQueue.DeleteNodeAsks | src/megacmdexecuter.cpp:2231-2248 | from the shell or a non-interactive thread the folder is removed iff the question is confirmed |
| DeleteQueue.DistinctTail | src/megacmdexecuter.cpp:2112 | popping the front keeps the queue free of duplicates |
| DeleteQueue.ConfirmPopsFront | src/megacmdexecuter.cpp:2107-2129 | confirming removes the front node, pops it, and asks about the next one or returns to the command prompt |
| DeleteQueue.DiscardPopsFront | src/megacmdexecuter.cpp:2135-2152 | discarding pops the front node without removing it and asks about the next one or returns to the command prompt |
| DeleteQueue.ConfirmShape | src/megacmdexecuter.cpp:2107-2129 | one confirmation pops and removes exactly the front node |
| DeleteQueue.ConfirmAllDrains | src/megacmdexecuter.cpp:2107-2129 | confirming as many times as there are queued nodes removes all of them in queue order and returns to the command prompt |
| MegaCmdServer.UnescapeEscaped | src/megacmd.cpp:879-887 | replacing every c by "ec" and then every "ec" by c gives the original string back |
| MegaCmdServer.EscapeSpaceRoundTrip | src/megacmd.cpp:879-887 | unescapeEspace undoes escapeEspace on every string |
| MegaCmdServer.KeptMembers | src/megacmd.cpp:189-199 | the erase loop keeps exactly the entries the rule does not match, and never grows the list |
| MegaCmdServer.KeptAppend | src/megacmd.cpp:189-199 | filtering a concatenation filters each part |
| MegaCmdServer.KeptNoMatch | src/megacmd.cpp:189-199 | a list with no matching entry is left as it is |
| MegaCmdServer.KeptIdempotent | src/megacmd.cpp:189-199 | erasing the matches twice is the same as erasing them once |
| MegaCmdServer.EraseMatching | src/megacmd.cpp:357-367 | the erase-while-iterating loop returns the entries the rule keeps, in order |
| MegaCmdServer.Greetings.constructor | src/megacmd.cpp:180-235 | both greeting lists and the delayed broadcast queue start empty |
| MegaCmdServer.Greetings.AppendGreetingStatusFirstListener | src/megacmd.cpp:180-184 | the message is put at the front of the first-client list; nothing else changes |
| MegaCmdServer.Greetings.AppendGreetingStatusAllListener | src/megacmd.cpp:202-206 | the message is put at the front of the all-clients list; nothing else changes |
| MegaCmdServer.Greetings.ClearGreetingStatusFirstListener | src/megacmd.cpp:214-218 | the first-client list becomes empty; nothing else changes |
| MegaCmdServer.Greetings.ClearGreetingStatusAllListener | src/megacmd.cpp:208-212 | the all-clients list becomes empty; nothing else changes |
| MegaCmdServer.Greetings.RemoveGreetingStatusFirstListener | src/megacmd.cpp:186-200 | every first-client entry equal to the message is erased, the rest keep their order |
| MegaCmdServer.Greetings.RemoveGreetingStatusAllListener | src/megacmd.cpp:220-234 | every all-clients entry equal to the message is erased, the rest keep their order |
| MegaCmdServer.Greetings.RemoveGreetingMatching | src/megacmd.cpp:370-384 | every all-clients entry containing the text is erased, the rest keep their order |
| MegaCmdServer.Greetings.QueueDelayedBroadcast | src/megacmd.cpp:386-391 | the message is appended at the back of the delayed queue |
| MegaCmdServer.Greetings.RemoveDelayedBroadcastMatching | src/megacmd.cpp:354-368 | every delayed message containing the text is erased, the rest keep their order |
| MegaCmdServer.Greetings.BroadcastMessage | src/megacmd.cpp:338-351 | a non-empty message nobody received, with keepIfNoListeners, is kept as "message:" plus the text at the front of the first-client list; otherwise nothing changes |
| MegaCmdServer.Greetings.UpdateValidCommands | src/megacmd.cpp:5286-5296 | while logging in at startup or blocked the valid commands are the login ones, otherwise all of them |
| MegaCmdServer.ProgressMessage | src/megacmd.cpp:424-438 | the progress state message starts with "progress:" |
| MegaCmdServer.FlagText | src/megacmd.cpp:984-1013 | a flag entry starts with '-' and is longer than the parameter name |
| MegaCmdServer.FlagRoundTrip | src/megacmd.cpp:984-1013 | the parameter name and whether it takes a value can be read back from the flag entry |
| MegaCmdServer.FlagTexts | src/megacmd.cpp:982-997 | one flag entry per parameter, in order |
| MegaCmdServer.FlagsCompletion | src/megacmd.cpp:982-1014 | the completion list is the flag entries of the parameters followed by the '='-terminated entries of the options taking a value |
| MegaCmdServer.CompletionFor | src/megacmd.cpp:1310-1329 | flag completion is picked iff there is more than one word and the last one starts with '-'; value completion iff that word also holds '=' |
| MegaCmdServer.ValueCompletionOfFlag | src/megacmd.cpp:1006-1010 | a word "--name=v" built from a value-taking entry leads to value completion of v |
| MegaCmdServer.QuoteRoundTrip | src/megacmd.cpp:1530-1540 | a value quoted by the completion list decodes back to itself |
| MegaCmdServer.ListOfCompletionValues | src/megacmd.cpp:1508-1545 | with more than one word the values are joined by the separator, quoting those with a separator; one word completes nothing |
| MegaCmdServer.JoinTwoValues | src/megacmd.cpp:1524-1540 | a plain first value is followed by the separator and the second value, quoted when it holds a separator |
| MegaCmdServer.IsBareCommand | src/megacmd.cpp:3988-4013 | true iff the line is the command or "X" plus the command, or starts with one of them and a space and every later word is empty or a client-width or clientID flag |
| MegaCmdServer.BareCommandWords | src/megacmd.cpp:4001-4012 | "--help" after the command makes it not bare; words that are only client-width or clientID flags keep it bare |
| MegaCmdShell.StateChangeHandle | src/megacmdshell/megacmdshell.cpp:318-395 | the loop handles, in order, every 0x1F-terminated message of the state string and leaves an unterminated remainder alone |
| MegaCmdShell.FramedEvents | src/megacmdshell/megacmdshell.cpp:320-327 | messages framed with 0x1F come back as one event per message, in order, whatever unterminated text follows |
| MegaCmdShell.FrameStep | src/megacmdshell/megacmdshell.cpp:325-327 | reading takes off exactly the first framed message |
| MegaCmdShell.NoColonInNumber | src/megacmdshell/megacmdshell.cpp:344-349 | a rendered number holds no ':' and so cannot split a progress field |
| MegaCmdShell.FirstField | src/megacmdshell/megacmdshell.cpp:344-347 | the text before the first ':' is the first field and the text after it the rest |
| MegaCmdShell.ProgressFields | src/megacmdshell/megacmdshell.cpp:342-357 | a progress body "a:b" or "a:b:title" with colon-free fields parses back to (a, b, title) |
| MegaCmdShell.ProgressPrefix | src/megacmdshell/megacmdshell.cpp:340-342 | a message starting with "progress:" is read as a progress event of the rest |
| MegaCmdShell.ProgressRoundTrip | src/megacmdshell/megacmdshell.cpp:340-357 | the message informProgressUpdate sends is read back as the same transferred count, total and title |
| MegaCmdShell.TruncatedFits | src/megacmdshell/megacmdshell.cpp:675-685 | a kept prompt fits the 128-byte buffer with its terminator; a long one keeps its first 63 and last 62 characters around ".."; keeping is idempotent |
| MegaCmdShell.Layout | src/megacmdshell/megacmdshell.cpp:675-685 | the buffer after a change always holds 128 bytes |
| MegaCmdShell.CStrTerminated | src/megacmdshell/megacmdshell.cpp:668-670 | a C string read stops at the first NUL |
| MegaCmdShell.LayoutReads | src/megacmdshell/megacmdshell.cpp:675-685 | the buffer read as a C string is the kept prompt |
| MegaCmdShell.Strncpy | src/megacmdshell/megacmdshell.cpp:679 | strncpy copies the source into the n bytes from the offset, pads with NUL, and leaves every other byte alone (the buffer becomes Copied of the old one) |
| MegaCmdShell.ShortLayout | src/megacmdshell/megacmdshell.cpp:679 | copying a prompt shorter than the buffer over any buffer contents gives the prompt followed by NULs |
| MegaCmdShell.LongLayout | src/megacmdshell/megacmdshell.cpp:681-686 | for a long prompt, the two copies, the two dots and the final NUL give its first 63 characters, "..", its last 62 and a terminator, whatever the buffer held |
| MegaCmdShell.LayoutAt | src/megacmdshell/megacmdshell.cpp:679-686 | the buffer layout byte by byte, for short and for long prompts |
| MegaCmdShell.PromptBuffer.constructor | src/megacmdshell/megacmdshell.cpp:666-685 | the buffer starts with 128 bytes and shows the empty prompt |
| MegaCmdShell.PromptBuffer.ChangePrompt | src/megacmdshell/megacmdshell.cpp:666-685 | a prompt equal to the shown one leaves the buffer as it is; any other prompt lays the buffer out as Layout and is then shown truncated |
| MegaCmdShell.EmptyLineWaits | src/megacmdshell/megacmdshell.cpp:1156-1224 | while a password is being read an empty line changes nothing |
| MegaCmdShell.PasswordChange | src/megacmdshell/megacmdshell.cpp:1195-1250 | "passwd" while logged in, the old password, the new one and the same again send "passwd old new" once and return to COMMAND |
| MegaCmdShell.MismatchedConfirmation | src/megacmdshell/megacmdshell.cpp:1225-1228 | a confirmation that differs from the new password returns to COMMAND and sends nothing |
| MegaCmdShell.ExitHandling | src/megacmdshell/megacmdshell.cpp:1264-1278 | "exit" or "quit" alone exits and is forwarded; with "--only-shell" it exits without forwarding; with any other word it is forwarded without exiting |
| MegaCmdShell.ClientIdAfterCommand | src/megacmdshell/megacmdshell.cpp:1444-1461 | for get, put and reload the client id is put right after the command word |
| MegaCmdShell.FirstAnswer | src/megacmdshell/megacmdshell.cpp:1787-1796 | the first response that is one of yes, y, YES, Y, no, n, NO, N, and whether it means yes; no earlier response is an answer |
| MegaCmdShell.ReadConfirmationLoop | src/megacmdshell/megacmdshell.cpp:1767-1798 | the answer is the first recognised response; the question is shown once and the retry text once per unrecognised response before it |
| MegaCmdShell.BackslashRun | src/megacmdshell/megacmdshell.cpp:1697-1704 | the run of backslashes before an index is no longer than the prefix |
| MegaCmdShell.QuoteDetectorOdd | src/megacmdshell/megacmdshell.cpp:1697-1704 | quote_detector holds iff an odd number of backslashes precede the index |
| MegaCmdShell.HistoryWidth | src/megacmdshell/megacmdshell.cpp:918-925 | the column width is the number of decimal digits of the history length, and 1 for a length below 10 |
| MegaCmdShell.DigitsMonotone | src/megacmdshell/megacmdshell.cpp:918-925 | a larger number never has fewer digits |
| MegaCmdShell.HistoryIndexFits | src/megacmdshell/megacmdshell.cpp:927-931 | every printed index fits the column sized from the history length |
| ShellCommunications.AnswerCode | src/megacmdshell/megacmdshellcommunications.cpp:584-599 | a recognised response maps to one of the four confirmation codes |
| ShellCommunications.AnswerSpellings | src/megacmdshell/megacmdshellcommunications.cpp:584-599 | each code is returned for exactly its spellings: yes/y/YES/Y/Yes, no/n/NO/N/No, All/ALL/a/A/all, none/NONE/None |
| ShellCommunications.FirstCode | src/megacmdshell/megacmdshellcommunications.cpp:566-602 | the first recognised response and its code; no earlier response is recognised |
| ShellCommunications.ReadConfirmationLoop | src/megacmdshell/megacmdshellcommunications.cpp:566-602 | the code is that of the first recognised response; the question is shown once and the yes/no/all/none retry text once per unrecognised response before it |
| ShellCommunications.HexDigitValue | src/megacmdshell/megacmdshellcommunications.cpp:346-353 | a hex digit is worth less than 16 |
| ShellCommunications.HexValue | src/megacmdshell/megacmdshellcommunications.cpp:349-353 | n hex digits are worth less than 16 to the n |
| ShellCommunications.HexRunEnd | src/megacmdshell/megacmdshellcommunications.cpp:346-347 | the first non-hex position at or after from, with only hex digits before it; none when the digits run to the end |
| ShellCommunications.EncodedAsWritten | src/megacmdshell/megacmdshellcommunications.cpp:283-317 | to_utf8 gives as many bytes as the code point's UTF-8 length |
| ShellCommunications.Replacement | src/megacmdshell/megacmdshellcommunications.cpp:355-356 | the encoding is shorter than the escape it replaces |
| ShellCommunications.NextStep | src/megacmdshell/megacmdshellcommunications.cpp:341-362 | one round never lengthens the string and strictly shrinks the part left to scan |
| ShellCommunications.EncodedShort | src/megacmdshell/megacmdshellcommunications.cpp:349-357 | no code point needs more bytes than its escape has characters |
| ShellCommunications.CountAtMostFour | src/megacmdshell/megacmdshellcommunications.cpp:283-317 | to_utf8 writes at most four bytes |
| ShellCommunications.SmallCount | src/megacmdshell/megacmdshellcommunications.cpp:283-317 | a code point below 256 takes at most two bytes, one below 16 exactly one |
| ShellCommunications.EncodeEscape | src/megacmdshell/megacmdshellcommunications.cpp:350-356 | the hex digits are read and replaced by their to_utf8 encoding |
| ShellCommunications.AsWrittenAgrees | src/megacmdshell/megacmdshellcommunications.cpp:283-317 | the encoding agrees with ShellUtf8's model of to_utf8 as written |
| ShellCommunications.UnescapeUtf16EscapedSeqs | src/megacmdshell/megacmdshellcommunications.cpp:319-365 | the do-while loop computes Unescaped from position 0 |
| ShellCommunications.NoEscapeUnchanged | src/megacmdshell/megacmdshellcommunications.cpp:343-344 | text with no "\u" is returned as it is |
| ShellCommunications.TrailingEscapeUntouched | src/megacmdshell/megacmdshellcommunications.cpp:346-347 | an escape whose digits run to the end of the string is left untouched |
| ShellCommunications.FindFirst | src/megacmdshell/megacmdshellcommunications.cpp:343 | find returns the first occurrence at or after the start |
| ShellCommunications.UnescapedNoLonger | src/megacmdshell/megacmdshellcommunications.cpp:319-365 | unescaping never makes a string longer |
| ShellCommunications.PromiseOnce | src/megacmdshell/megacmdshellcommunications.cpp:625-631 | only the first mark fulfils the readiness promise; a second mark changes nothing |
| ShellCommunications.RegistrationDeferred | src/megacmdshell/megacmdshellcommunications.cpp:640-647 | within 30 seconds of a failed registration nothing is attempted and nothing changes |
| ShellCommunications.RegistrationAttempted | src/megacmdshell/megacmdshellcommunications.cpp:633-701 | registration succeeds iff the listener is not stopping, the server is not updating, no deferral runs and a socket was obtained; success clears registerRequired |
| ShellCommunications.RegisterAgainNoWait | src/megacmdshell/megacmdshellcommunications.cpp:770-782 | setForRegisterAgain always requires registering again; with dontWait the deferral is lifted, without it the next 30 seconds are deferred |
| ShellCommunications.ShellCommunications.constructor | src/megacmdshell/megacmdshellcommunications.cpp:258-281 | the communications start not stopping, not updating, with no failed registration, no listener and an unfulfilled promise |
| ShellCommunications.ShellCommunications.MarkServerReadyOrRegistrationFailed | src/megacmdshell/megacmdshellcommunications.cpp:625-631 | the state after the call is MarkReadyOf's |
| ShellCommunications.ShellCommunications.SetForRegisterAgain | src/megacmdshell/megacmdshellcommunications.cpp:770-782 | the state after the call is SetForRegisterAgainOf's |
| ShellCommunications.ShellCommunications.MarkServerIsUpdating | src/megacmdshell/megacmdshellcommunications.cpp:610-613 | only the updating flag is set |
| ShellCommunications.ShellCommunications.UnmarkServerIsUpdating | src/megacmdshell/megacmdshellcommunications.cpp:615-618 | only the updating flag is cleared |
| ShellCommunications.ShellCommunications.RegisterForStateChanges | src/megacmdshell/megacmdshellcommunications.cpp:633-701 | the state and result after registering are RegisterOf's |
| MegaCmdClient.AbsPath | src/client/megacmdclient.cpp:130-202 | an empty or absolute path is kept; a relative one is put after the working directory and '/'; without a working directory the path is kept |
| MegaCmdClient.RealCount | src/client/megacmdclient.cpp:214-220 | the number of real arguments is at most the number of arguments |
| MegaCmdClient.LastReal | src/client/megacmdclient.cpp:285-292 | the last real argument's index, with no real argument after it; none when there is no real argument |
| MegaCmdClient.Converted | src/client/megacmdclient.cpp:206-320 | one output argument per input argument |
| MegaCmdClient.RealCountStep | src/client/megacmdclient.cpp:214-220 | the count grows by one exactly at a real argument |
| MegaCmdClient.LastRealStep | src/client/megacmdclient.cpp:286-292 | the last real index moves to i exactly when argument i is real |
| MegaCmdClient.ConvertedStep | src/client/megacmdclient.cpp:206-320 | each argument is made absolute or copied on its own |
| MegaCmdClient.AbsolutedArgs | src/client/megacmdclient.cpp:204-321 | the argument list sent is ArgsOf the command line |
| MegaCmdClient.SyncArgs | src/client/megacmdclient.cpp:212-241 | for sync only the first real argument is made absolute, and only when there are at least two |
| MegaCmdClient.LcdArgs | src/client/megacmdclient.cpp:242-255 | for lcd every real argument is made absolute |
| MegaCmdClient.GetArgs | src/client/megacmdclient.cpp:256-282 | for get, preview and thumbnail every real argument after the first is made absolute, and "." made absolute is added after a single real argument |
| MegaCmdClient.PutArgs | src/client/megacmdclient.cpp:283-313 | for put the first real argument and every real argument before the last are made absolute |
| MegaCmdClient.OtherArgs | src/client/megacmdclient.cpp:314-320 | for other commands the arguments are copied |
| MegaCmdClient.CountReal | src/client/megacmdclient.cpp:214-220 | the loop counts the non-empty arguments not starting with '-' |
| MegaCmdClient.LastRealArg | src/client/megacmdclient.cpp:285-292 | the loop finds the last real argument's position in argv, or 0 |
| MegaCmdClient.JoinArgs | src/client/megacmdclient.cpp:323-342 | the line is the arguments joined by spaces, quoting those that are empty or hold a space |
| MegaCmdClient.ParseArgs | src/client/megacmdclient.cpp:204-343 | parseArgs joins the absolutised arguments as JoinQuoted |
| MegaCmdClient.RealCountMono | src/client/megacmdclient.cpp:214-220 | longer prefixes never hold fewer real arguments |
| MegaCmdClient.RealCountPositive | src/client/megacmdclient.cpp:214-220 | a prefix holding a real argument counts at least one |
| MegaCmdClient.SyncOnlyFirst | src/client/megacmdclient.cpp:221-230 | sync makes at most one argument absolute |
| MegaCmdClient.PutKeepsLast | src/client/megacmdclient.cpp:293-306 | put leaves the last real argument as it is when a real argument comes before it |
| MegaCmdClient.GetKeepsFirst | src/client/megacmdclient.cpp:258-270 | get, preview and thumbnail leave the first real argument as it is |
| MegaCmdClient.OthersUnchanged | src/client/megacmdclient.cpp:314-320 | other commands are sent with their arguments as typed |
| MegaCmdClient.NoCwdJustCopies | src/client/megacmdclient.cpp:187-191 | without a working directory every argument is sent as typed |
| MegaCmdClient.JoinQuotedLength | src/client/megacmdclient.cpp:323-342 | the joined line has at least one character per argument plus the separating spaces |
| MegaCmdClient.JoinPlain | src/client/megacmdclient.cpp:326-339 | a non-empty argument without spaces is appended after a space, unquoted |
| MegaCmdClient.ReadConfirmationLoop | src/client/megacmdclient.cpp:502-531 | yes/y/YES/Y gives true and no/n/NO/N false at the first such line; the question is shown first and "Please enter [y]es/[n]o:" before every retry, each followed by a space |
| ComunicationsManager.SurvivorMembers | src/comunicationsmanager.cpp:79-90 | exactly the listeners not dropped survive, and the list never grows |
| ComunicationsManager.NoFailureKeepsAll | src/comunicationsmanager.cpp:110-113 | when informing never fails every listener is kept and none is deleted |
| ComunicationsManager.OtherClientsUntouched | src/comunicationsmanager.cpp:97-108 | informing by client id keeps every listener of another client and sends only to that client's listeners |
| ComunicationsManager.InformedIds | src/comunicationsmanager.cpp:99 | every message sent by client id goes to a listener of that client |
| ComunicationsManager.InformedAll | src/comunicationsmanager.cpp:79-90 | informing all listeners sends the message to each of them, in order |
| ComunicationsManager.ShellReadsMessage | src/comunicationsmanager.cpp:77 | a state message the server terminates with 0x1F is read by the shell as exactly one event |
| ComunicationsManager.AckReachesAll | src/comunicationsmanager.cpp:48-58 | past the limit at a multiple of 10, registering sends "ack" to every listener, the new one included, which is kept unless it fails |
| ComunicationsManager.RegisterAppends | src/comunicationsmanager.cpp:48-58 | below the limit registering only appends the listener |
| ComunicationsManager.SpecStep | src/comunicationsmanager.cpp:79-90 | one loop step keeps, sends to and deletes the next listener on its own |
| ComunicationsManager.Ids | src/comunicationsmanager.cpp:144-148 | one id per listener |
| ComunicationsManager.EraseFailing | src/comunicationsmanager.cpp:79-90 | the erase-while-iterating loop keeps the survivors in order and sends the message to each targeted listener |
| ComunicationsManager.ComunicationsManager.constructor | src/comunicationsmanager.cpp:39-41 | the registry starts with no listeners, nothing sent and nothing deleted |
| ComunicationsManager.ComunicationsManager.InformLoop | src/comunicationsmanager.cpp:79-90 | the listeners become the survivors, the targeted ones are sent the message and the failing ones deleted |
| ComunicationsManager.ComunicationsManager.InformStateListeners | src/comunicationsmanager.cpp:75-91 | the message is terminated with 0x1F and the state becomes InformOf's for all listeners |
| ComunicationsManager.ComunicationsManager.InformStateListenerByClientId | src/comunicationsmanager.cpp:93-109 | the message is terminated with 0x1F and the state becomes InformOf's for the client's listeners |
| ComunicationsManager.ComunicationsManager.RegisterStateListener | src/comunicationsmanager.cpp:48-58 | the state after registering is RegisterOf's |
| ComunicationsManager.ComunicationsManager.Destroy | src/comunicationsmanager.cpp:142-149 | every listener is deleted, in order, and the list becomes empty |
| MegaCmdLogger.UnsetReadsDefault | src/megacmdlogger.cpp:68-119 | a thread with no entry reads the default: OK, no petition, level -1, not a cmd shell, the standard output |
| MegaCmdLogger.SetThenGet | src/megacmdlogger.cpp:122-145 | a thread reads back what it set, and setting one thread's entry changes no other thread's |
| MegaCmdLogger.ThreadTables.constructor | src/megacmdlogger.cpp:37-145 | every per-thread table starts empty |
| MegaCmdLogger.ThreadTables.SetCurrentThreadLogLevel | src/megacmdlogger.cpp:122-125 | only the thread's level is set |
| MegaCmdLogger.ThreadTables.SetCurrentThreadOutStream | src/megacmdlogger.cpp:127-130 | only the thread's stream is set |
| MegaCmdLogger.ThreadTables.SetCurrentThreadIsCmdShell | src/megacmdlogger.cpp:132-135 | only the thread's cmd-shell flag is set |
| MegaCmdLogger.ThreadTables.SetCurrentOutCode | src/megacmdlogger.cpp:137-140 | only the thread's out code is set |
| MegaCmdLogger.ThreadTables.SetCurrentPetition | src/megacmdlogger.cpp:142-145 | only the thread's petition is set |
| MegaCmdLogger.InteractiveIff | src/megacmdlogger.cpp:50-66 | a thread is interactive iff it is a cmd shell or has no stream of its own |
| MegaCmdLogger.EffectiveLevel | src/megacmdlogger.cpp:156-160 | the thread's own level when it is not negative, the logger's otherwise |
| MegaCmdLogger.CmdMessageFilter | src/megacmdlogger.cpp:149-165 | a megacmd message reaches the output iff its level is within the cmd level, and the thread's stream iff within the thread's effective level and that stream is not the output |
| MegaCmdLogger.RetryNoiseDropped | src/megacmdlogger.cpp:168-177 | the SDK's retry-connection messages within the API level are written nowhere while that level is at most DEBUG |
| MegaCmdLogger.ApiMessageFilter | src/megacmdlogger.cpp:166-192 | any other SDK message reaches the output iff within the API level, and the thread's stream iff within the thread's level falling back to the API level |
| MegaCmdLogger.MaxLogLevel | src/megacmdlogger.cpp:195-198 | the largest of the thread, cmd and API levels |
| MegaCmdLogger.AboveMaxWritesNothing | src/megacmdlogger.cpp:147-198 | a message above the maximum level is written nowhere |
| MegaCmdListeners.FinishNewestFirst | src/listeners.cpp:521-543 | the finished transfer goes first; below the limit nothing is lost, at the limit exactly the oldest is dropped, and the buffer never exceeds 10000 |
| MegaCmdListeners.EvictionForgetsPath | src/listeners.cpp:535-541 | an eviction erases the path recorded under the evicted transfer's handle |
| MegaCmdListeners.FinishRecordsPath | src/listeners.cpp:527-533 | without an eviction the node's path is recorded under its handle and no other handle's path changes |
| MegaCmdListeners.GlobalTransferListener.constructor | src/listeners.cpp:513-519 | the listener starts with no completed transfers and no paths |
| MegaCmdListeners.GlobalTransferListener.OnTransferFinish | src/listeners.cpp:521-543 | the buffer and path map after the call are FinishOf's, the finished transfer first, within the limit |
| MegaCmdListeners.BumpOne | src/listeners.cpp:87-108 | a folder or file moves exactly its counter, new or removed, by one; any other node moves none |
| MegaCmdListeners.CountableSnoc | src/listeners.cpp:84-109 | one more file or folder adds one to the countable nodes |
| MegaCmdListeners.CountTotal | src/listeners.cpp:84-109 | the four counters together count every file and folder of the list once |
| MegaCmdListeners.OnNodesUpdate | src/listeners.cpp:76-168 | a listed update counts its nodes into the four counters; a missing list counts the account's folders and files only when the log level is at least INFO |
| MegaCmdListeners.QuotaState.constructor | src/megacmdsandbox.cpp:34-43 | the sandbox starts not over quota, with no bandwidth figure and the clock reading at creation |
| MegaCmdListeners.QuotaState.OnAccountUpdate | src/listeners.cpp:170-177 | the bandwidth figure is dropped; the overquota flag is cleared iff there is no overquota delay |
| MegaCmdListeners.QuotaState.OnTransferTemporaryError | src/listeners.cpp:547-564 | only EOVERQUOTA changes the sandbox: it sets overquota, the time it happened and its duration |
| StallIssues.ReasonStr | src/stalled_issues.cpp:33-46 | "<unsupported>" is returned exactly for a reason outside the table |
| StallIssues.ReasonStrNearlyInjective | src/stalled_issues.h:24-38 | two known reasons read the same only when they are the two "Local and remote differ" reasons |
| StallIssues.MainPath | src/stalled_issues.cpp:48-62 | a non-empty cloud path with a leading "/", otherwise the local path, otherwise "" |
| StallIssues.MainPathPrefersCloud | src/sync_issues.cpp:112-126 | the main path is empty iff neither path is given or non-empty; a cloud path always starts with "/" |
| StallIssues.StallNewsCases | src/stalled_issues.cpp:72-73 | a flip of the stalled flag is always news; staying unstalled never is; staying stalled is news iff the SDK says the stalls changed |
| StallIssues.NumberStalls | src/stalled_issues.cpp:97-107 | the i-th issue is the i-th stall with id i + 1 |
| StallIssues.NumberedIdsDistinct | src/stalled_issues.cpp:101-107 | the ids run 1..n in increasing order, so no two issues share one |
| StallIssues.StalledIssuesManager.constructor | src/stalled_issues.cpp:117-122 | the manager starts unstalled with no issues |
| StallIssues.StalledIssuesManager.OnGlobalSyncStateChanged | src/stalled_issues.cpp:70-81 | the stall list is requested iff the state is news, and the new flag is remembered either way |
| StallIssues.StalledIssuesManager.PopulateStalledIssues | src/stalled_issues.cpp:97-115 | the issues become the stalls numbered from 1 |
| StallIssues.StalledIssuesManager.OnRequestFinish | src/stalled_issues.cpp:83-95 | a missing list changes nothing; a list replaces the issues with its stalls numbered from 1 |
| StallIssues.SyncIssuesManager.constructor | src/sync_issues.cpp:59-61 | the listener starts unstalled with no issues |
| StallIssues.SyncIssuesManager.OnGlobalSyncStateChanged | src/sync_issues.cpp:37-55 | while scanning or waiting nothing happens; otherwise the callback fires and the flag is remembered iff the state is news |
| StallIssues.SyncIssuesManager.PopulateSyncIssues | src/sync_issues.cpp:134-155 | the issues become the stalls numbered from 1 |
| StallIssues.SyncIssuesManager.OnRequestFinish | src/sync_issues.cpp:69-81 | a missing list changes nothing; a list replaces the issues with its stalls numbered from 1 |
| StallIssues.ScanningDefersNews | src/sync_issues.cpp:41-54 | a flip reported while scanning is not remembered, so it is still news afterwards, while a remembered state without a change is not |
| SyncCommand.WithoutTrailingSeparator | src/sync_command.cpp:26-34 | one trailing '/' or '\' is dropped; any other path is kept |
| SyncCommand.AtMostOneSeparator | src/sync_command.cpp:29-32 | the result is a prefix of the path, at most one character shorter, and what it lost is a separator |
| SyncCommand.DoubledSeparatorKeepsOne | src/sync_command.cpp:29-32 | any path ending in two separators keeps the first of them, so the rule is not idempotent |
| SyncCommand.AsInt32 | src/sync_command.cpp:169-170 | the unsigned issue count read as int is unchanged below 2^31 and negative from there |
| SyncCommand.ErrorColumnCases | src/sync_command.cpp:91-104 | a sync in error shows its error code; otherwise "NO" with no issues and "Sync Issues (n)" with n of them |
| SyncCommand.HugeCountShowsNo | src/sync_command.cpp:98-103 | an issue count past the signed range reads as negative and the column shows "NO" |
| SyncCommand.ById | src/sync_command.cpp:139 | the sync found has the backup id; none means no sync has it |
| SyncCommand.ByPath | src/sync_command.cpp:143 | the sync found has the local folder; none means no sync has it |
| SyncCommand.GetSyncOrder | src/sync_command.cpp:136-146 | a sync with the decoded backup id wins; the path is used only when none has the id; nothing is found iff neither matches |
| SyncCommand.AddSync | src/sync_command.cpp:200-219 | a file or a node with less than full access is refused with MCMD_NOTPERMITTED; otherwise a two-way sync of the local path and the node is requested |
| SyncCommand.AddSyncNeedsFullFolder | src/sync_command.cpp:204-216 | only a folder with full or owner access is ever synced |
| SyncCommand.ModifyRequest | src/sync_command.cpp:244-263 | Remove removes the sync; Stop suspends it and Resume runs it, always by its backup id |
| SyncCommand.ModifyReportChannels | src/sync_command.cpp:249-282 | a failure always goes to the error log; only a successful removal reports on the output |
| FuseMounts.DefaultNodeName | src/megacmd_fuse.cpp:61-73 | a file or folder gives its own name; the root, rubbish and vault give "MEGA", "MEGA Rubbish" and "MEGA Vault"; anything else "<unknown>" |
| FuseMounts.Mount.constructor | src/megacmd_fuse.cpp:132 | a created mount has no handle, path or name and every flag clear |
| FuseMounts.Mount.ChangeConfig | src/megacmd_fuse.cpp:395-419 | every flag the delta names is overwritten and every other flag, the handle and the path are kept |
| FuseMounts.CreateMount | src/megacmd_fuse.cpp:130-154 | the mount gets the node and path, the given or default name, the read-only flag, startup iff neither transient nor disabled, and persistence iff not transient, so startup implies persistence |
| FuseMounts.ShouldRememberChange | src/megacmd_fuse.cpp:81-92 | a change is remembered iff the mount is persistent and the change is not temporary |
| FuseMounts.DeltaPredicates | src/megacmd_fuse.cpp:383-393 | a delta is invalid iff it sets startup on and persistence off, and sets nothing iff every field is absent |
| FuseMounts.StartupOnTransientMount | src/megacmd_fuse.cpp:388-410 | any delta turning startup on without naming persistence passes both checks and, applied to any transient mount, leaves startup on for a mount that is not remembered |
| FuseMounts.PathMatchesSound | src/megacmd_fuse.cpp:109-126 | every match is a listed mount at the path |
| FuseMounts.PathMatchesPrefix | src/megacmd_fuse.cpp:109-126 | the matches of a prefix of the list are a prefix of the matches |
| FuseMounts.PathMatchesComplete | src/megacmd_fuse.cpp:109-126 | every listed mount at the path is a match |
| FuseMounts.GetMountByPath | src/megacmd_fuse.cpp:99-128 | a missing list finds nothing; a clash is reported iff two mounts are at the path; the mount is returned iff exactly one is |
| FuseMounts.ByName | src/megacmd_fuse.cpp:94-97 | the mount found has the name; none means no listed mount has it |
| FuseMounts.GetMountByNameOrPath | src/megacmd_fuse.cpp:166-187 | a mount with the name wins; then a single mount at the path; a clash iff no name matches and two mounts are at the path; nothing iff neither name nor path matches |
| ServerMain.LastIndexBelow | src/megacmd_server_main.cpp:27-38 | the last index below the bound holding the flag, with no later occurrence; none when no index below the bound holds it |
| ServerMain.ExtractArg | src/megacmd_server_main.cpp:27-38 | true iff the flag is among the arguments, and then its last occurrence is erased; otherwise the arguments are kept |
| ServerMain.ExtractArgRemovesOne | src/megacmd_server_main.cpp:31-35 | erasing the last occurrence removes exactly one copy of the flag and leaves none after its place |
| ServerMain.ExtractArgParam | src/megacmd_server_main.cpp:40-52 | the last occurrence before the final argument is erased with the argument after it, which is returned; otherwise nothing is taken |
| ServerMain.FinalFlagIgnored | src/megacmd_server_main.cpp:42 | a flag given only as the final argument has no value and is not taken |
| ServerMain.LevelsPrecedence | src/megacmd_server_main.cpp:54-103 | the defaults depend on the build, and the switch latest in the fixed order debug, debug-full, verbose, verbose-full sets each level it touches; debug and verbose touch only the MEGAcmd level |
| ServerMain.LevelsInRange | src/megacmd_server_main.cpp:54-103 | both levels are valid log levels and never below the build's default |
| ServerMain.GetLogLevels | src/megacmd_server_main.cpp:54-103 | the levels follow from the four flags found in the arguments and the MEGACMD_LOGLEVEL value; the arguments left are those with the last occurrence of each present flag erased, so exactly one copy of each present flag is gone |
| ServerMain.Extracted | src/megacmd_server_main.cpp:27-38 | erasing the last occurrence of a flag, if any, removes one copy of it and nothing else |
| ServerMain.ExtractedLogFlags | src/megacmd_server_main.cpp:68-71 | the four erasures together remove one copy of each of the four log flags present and nothing else |
| ServerMain.ExtractLogFlags | src/megacmd_server_main.cpp:68-71 | the four extractarg calls report exactly which flags were present and leave the arguments ExtractedLogFlags gives |
| ServerMain.ApplySwitches | src/megacmd_server_main.cpp:58-101 | the defaults and the four overrides give the levels the precedence function Levels states |
| ServerMain.KeepsOthers | src/megacmd_server_main.cpp:27-38 | extracting one flag keeps whether any other flag is present |
| ServerMain.Shrinks | src/megacmd_server_main.cpp:27-38 | extracting a flag removes at most one argument and adds none |
| MegaCmdEvents.EntryOf | src/megacmd_events.h:29-34 | each event has exactly its own generator entry |
| MegaCmdEvents.IndexInBounds | src/megacmd_events.cpp:23-49 | every event's slot lies inside the tables, and distinct events have distinct slots |
| MegaCmdEvents.EverySlotOwned | src/megacmd_events.cpp:23-49 | every slot of the tables belongs to some event |
| MegaCmdEvents.GeneratorSlots | src/megacmd_events.h:29-34 | the generator's numbers, read in order, give the slots 0, 1, 2, ... |
| MegaCmdEvents.FillTables | src/megacmd_events.cpp:23-49 | after filling, each event's slot holds its default message and its identifier |
| MegaCmdEvents.Lookups | src/megacmd_events.cpp:23-49 | read from the filled tables, each event gets its own message and name |
| MegaCmdEvents.NamesDistinct | src/megacmd_events.h:29-34 | no two events share an identifier |
| TestInstrumentsModel.HandlersFor | tests/common/Instruments.cpp:104-108 | the every-time handlers an event runs are among those registered for it, never more than were registered |
| TestInstrumentsModel.OtherEvents | tests/common/Instruments.cpp:85-90 | erasing an event's every-time handlers keeps exactly the registrations of other events |
| TestInstrumentsModel.NoHandlersAfterClear | tests/common/Instruments.cpp:85-90 | once an event's handlers are erased, firing it runs none of the every-time handlers |
| TestInstrumentsModel.NoRegistrationNoHandlers | tests/common/Instruments.cpp:104-108 | an event nobody registered for runs no every-time handler |
| TestInstrumentsModel.TestInstruments.constructor | tests/common/Instruments.cpp:18-22 | the singleton starts with no flags, probes, handlers or test values |
| TestInstrumentsModel.TestInstruments.ClearAll | tests/common/Instruments.cpp:24-30 | flags, both handler tables and probes are emptied; test values survive |
| TestInstrumentsModel.TestInstruments.SetFlag | tests/common/Instruments.cpp:38-42 | the flag joins the set and nothing else changes |
| TestInstrumentsModel.TestInstruments.ResetFlag | tests/common/Instruments.cpp:44-48 | the flag leaves the set and nothing else changes |
| TestInstrumentsModel.TestInstruments.ClearFlags | tests/common/Instruments.cpp:50-54 | no flag is left set; the rest is unchanged |
| TestInstrumentsModel.TestInstruments.ThrowIfFlagAndReset | tests/common/Instruments.cpp:56-64 | throws exactly when the flag was set, and the flag is clear afterwards either way |
| TestInstrumentsModel.TestInstruments.OnEventOnce | tests/common/Instruments.h:134-139 | the one-shot handler for the event is replaced by the new one |
| TestInstrumentsModel.TestInstruments.OnEveryEvent | tests/common/Instruments.h:142-156 | the every-time handler is appended after earlier ones, which stay registered |
| TestInstrumentsModel.TestInstruments.ClearEvent | tests/common/Instruments.cpp:78-90 | the event's one-shot handler and all its every-time handlers go; other events keep theirs |
| TestInstrumentsModel.TestInstruments.ClearEvents | tests/common/Instruments.cpp:140-147 | both handler tables are emptied; flags, probes and values are untouched |
| TestInstrumentsModel.TestInstruments.FireEvent | tests/common/Instruments.cpp:92-138 | the every-time handlers run in registration order, then the one-shot handler if any, which is consumed |
| TestInstrumentsModel.TestInstruments.GetTestValue | tests/common/Instruments.cpp:149-158 | a value is returned exactly when the key has been set |
| TestInstrumentsModel.TestInstruments.SetTestValue | tests/common/Instruments.cpp:160-164 | the key maps to the new value; other keys and state are unchanged |
| TestInstrumentsModel.TestInstruments.ResetTestValue | tests/common/Instruments.cpp:166-170 | the key is removed; nothing else changes |
| TestInstrumentsModel.TestInstruments.IncreaseTestValue | tests/common/Instruments.cpp:172-181 | absent keys stay absent, an unsigned value grows by one modulo 2^64, and any other kind throws and leaves the map as it was |
| TestInstrumentsModel.TestInstruments.ClearTestValues | tests/common/Instruments.cpp:183-187 | no test value is left |
| TestInstrumentsModel.TestInstruments.SetProbe | tests/common/Instruments.h:105-110 | the probe joins the set and nothing else changes |
| TestInstrumentsModel.TestInstruments.ClearProbes | tests/common/Instruments.cpp:195-199 | no probe is left; nothing else changes |
| TestInstrumentsModel.CollectHandlers | tests/common/Instruments.cpp:104-108 | the loop over the registrations collects exactly the handlers of the fired event, in order |
| TestInstrumentsModel.FireTwice | tests/common/Instruments.cpp:92-114 | a one-shot handler runs on the first firing only, while every-time handlers run on both |
| TestInstrumentsModel.FlagRoundTrip | tests/common/Instruments.cpp:32-64 | a flag reads as set after setFlag, as clear after resetFlag, and a cleared flag does not throw |
| CommandDocs.SummaryMarkdown | contrib/docs/generate_command_docs.py:20-22 | the summary bullet links the command's page, shows the arguments in backquotes only when there are some, then the description |
| CommandDocs.DetailMarkdown | contrib/docs/generate_command_docs.py:31-33 | the page has the name heading, the summary and the usage, and a pre block only when the description is non-empty |
| CommandDocs.ParseSummary | contrib/docs/generate_command_docs.py:39-57 | a summary line fails (IndexError) exactly when it has no colon |
| CommandDocs.ParseSummaryRoundTrip | contrib/docs/generate_command_docs.py:39-57 | a line written as "name args:description" or "name:description" parses back into those three parts |
| CommandDocs.TagName | contrib/docs/generate_command_docs.py:63-66 | a recognised name is a non-empty run of word characters and dashes between angle brackets at the start of the line |
| CommandDocs.UsageOf | contrib/docs/generate_command_docs.py:72 | the usage is the non-empty text after the first "Usage: " on the line |
| CommandDocs.ParseDetail | contrib/docs/generate_command_docs.py:59-74 | a block is not a command exactly when its first line has no tag; a parsed command is never "echo" |
| CommandDocs.DetailFromLines | contrib/docs/generate_command_docs.py:72-83 | a detail is built exactly when there are at least three lines and the second has a usage; otherwise the script raises |
| CommandDocs.CommandTable.constructor | contrib/docs/generate_command_docs.py:35-37 | both dictionaries start empty |
| CommandDocs.CommandTable.AddCommandSummary | contrib/docs/generate_command_docs.py:39-57 | a parsed line is stored under its name, replacing any earlier entry; a line without a colon raises and stores nothing |
| CommandDocs.CommandTable.AddCommandDetail | contrib/docs/generate_command_docs.py:59-83 | only a parsed block other than "echo" is stored, under its name; the summaries are untouched |
| CommandDocs.CommandTable.ParseBriefLines | contrib/docs/generate_command_docs.py:91-102 | without an exception the summaries are those of every stripped line starting with a lower-case letter; an exception comes from such a line without a colon |
| CommandDocs.BriefKeepsCommands | contrib/docs/generate_command_docs.py:91-102 | a stored summary survives the loop unless a later command line uses the same name |
| CommandDocs.CommandTable.ParseDetailBlocks | contrib/docs/generate_command_docs.py:104-117 | without an exception the details are those of every non-empty stripped block that parses; an exception comes from such a block |
| CommandDocs.DetailsSkipEcho | contrib/docs/generate_command_docs.py:68-70 | the detail loop never stores an "echo" entry, and every entry is stored under its own name |
| CommandDocs.MiscCommands | contrib/docs/generate_command_docs.py:129-132 | the Misc. list is sorted and holds exactly the summarised commands that no fixed category lists |
| CommandDocs.CommandsByCategory | contrib/docs/generate_command_docs.py:119-134 | the fixed categories come first in order, then a sorted Misc., and every summarised command is in some category |
| CommandDocs.CommandLines | contrib/docs/generate_command_docs.py:142-144 | one bullet per command of a category, in its order, each the command's summary bullet |
| CommandDocs.AppendCommands | contrib/docs/generate_command_docs.py:142-144 | the loop succeeds exactly when every command has a summary, and then yields the bullets in order |
| CommandDocs.GenerateUserGuideSummary | contrib/docs/generate_command_docs.py:136-147 | the text is produced exactly when every listed command has a summary (a KeyError otherwise), and is the joined headings and bullets with a final newline |
| CommandDocs.SummaryListsCommand | contrib/docs/generate_command_docs.py:136-147 | every command listed in a category has its bullet in the summary |
| CommandDocs.SummaryCoversAll | contrib/docs/generate_command_docs.py:136-147 | every summarised command has its bullet in the summary |
| CommandDocs.SpliceReplacesSection | contrib/docs/generate_command_docs.py:157-163 | with each marker present once, the text from the first category heading up to the examples heading is replaced by the new summary and the rest is kept |
| CommandDocs.SpliceNeedsMarkers | contrib/docs/generate_command_docs.py:157-163 | a guide holding neither heading nor the anchor makes the splice raise IndexError |

## Left out

- Sockets, named pipes, fork/exec and the shell's `executeCommand`/`listenToStateChanges` are I/O. Console output is not modelled; where a prompt or a message matters, it is returned as a value.
- Threads, mutexes and condition variables are left out: the petition threads, `broadcastDelayedMessage`, the rotating logger's writer thread, the listener thread of `registerForStateChanges` and the promise of nodes being current. The structures they guard are modelled as if one thread used them.
- Floating point is left out: `sizeToText`'s decimals, progress bars and percentages. `textToSize` reads each number as an integer digit run rather than with `atof`. A sum beyond 64 bits is not modelled.
- libc time and locale calls (`mktime`, `localtime`, `strftime`, `strptime`) are left out.
- Windows branches (UTF-16 conversions, console control, the Windows path branch of `getAbsPath`) are left out. The exception is `to_utf8` and the `\u` unescaper, which are pure code.
- The MEGA SDK is an abstract node tree, a map from handles to nodes with children in creation order.
  - NodeTree.CreateFolder always succeeds under a parent that is not a file; the SDK's own failures of `createFolder` (API errors, quota) are not modelled.
  - SDK calls are parameters or oracles: the signature check, `alreadyInstalled`, the inform result of a listener, the mount list, and the decoded Base64 backup id in `getSync`.
  - CryptoPP key generation, hashing and signing in the update generator are oracles.
- Readline is left out. The shell's `getlistOfWords` enters `process_line` as the `words` parameter.
- MegaCmdShell.ReadConfirmationLoop, ShellCommunications.ReadConfirmationLoop and MegaCmdClient.ReadConfirmationLoop run over a finite list of typed lines and end with no answer when the lines run out. The source asks forever.
- The shell's `discardOptionsAndFlags` (src/megacmdshell/megacmdshell.cpp:150-165) is the same code as the common one. It is modelled once, as CommonUtils.DiscardOptionsAndFlags.
- The help and usage string tables, the command tables and `validCommands`' full lists are left out. `updatevalidCommands` is modelled as the choice between the two lists.
- NodeTree.Resolve: for a remote "user:share/path" with fewer than two components, the source reads past the end of its component vector. The model finds no share there.
- DeleteQueue: the API error of the asynchronous remove in `doDeleteNode` is not modelled. A confirmed delete always removes the node.
- ConfigurationRecords.LoadSyncs: a record cut short by the end of the file is dropped. The source stores the fields it has read so far.
- ConfigurationRecords.LoadBackups: a backup record cut short by the end of the file ends the load, marked as truncated, and is not stored. The source stores the partly read record (src/configurationmanager.cpp:619-660); its unread length and numeric fields are uninitialised locals and a default-initialised `backup_struct`, so what it stores has no determined value to model.
- NodeTree.NodeByPath and NodeTree.PathLookup split the path with the corrected escape loop of the Findings table (NodePath.SplitPath), not with the loop of `nodebypath` as written (src/megacmdexecuter.cpp:283-299). On paths without a backslash the two agree (NodePath.SimpleSame). On escaped paths they differ: for `a\:` the source finds no component while the model looks up `a:`, and for `a\//b` the source looks up `a//b` while the model walks `a/` then `b`.
- ConfigurationManager: `transitionLegacyExclusionRules` (src/configurationmanager.cpp:418-500) is not modelled: it moves old exclusion settings between files. The lock files and the other file I/O are left out; files are sequences of lines.
- ShellCommunications.ShellCommunications.RegisterForStateChanges: `markServerRegistrationFailed` (called at src/megacmdshell/megacmdshellcommunications.cpp:661 and :697) is not defined in the modelled sources. It is read as `markServerReadyOrRegistrationFailed(false)`.
- Utf8: the MEGACMD_DISABLE_UTF8_VALIDATIONS environment variable is a parameter of the validator.
- MegaCmdLogger: rendering a message into a stream (time stamps, thread names, colours) is left out. The filter decides which messages are written, and each message is kept as a record.
- MegaCmdListeners: the SDK's error code for over-quota is taken as -17.
  - `onNodesUpdate` receives the totals of the account's tree as parameters instead of walking it.
  - Progress printing in the transfer listeners is left out.
- StallIssues: a stall is reduced to its reason and its first cloud and local paths. The other paths and the per-path problems are left out.
- `sync_issues.cpp`'s code used only by the integration tests is left out.
- SyncCommand: the size and column formatting of `printSingleSync` through `sizeToText` and ColumnDisplay is left out; only the ERROR column is modelled.
- FuseMounts: the SDK calls after `changeConfig` (enabling, disabling, persisting) are left out. `getMountInfo` is taken from the same mount list as the path lookup.
- TestInstrumentsModel: the two event families of the source (instrument events and numbered MEGAcmd events) share one key type.
  - `removeEventMultiHandle` and the guard objects built on it are left out. They erase by iterator, which has no counterpart here.
  - Handlers are named by numbers, and running them is reported as the list of their numbers.
- CommandDocs: `subprocess` calls, the version regex substitution, file reads and writes and `write_command_files` are left out.
  - The split on runs of ten or more dashes that feeds the detail loop is left out; the blocks are the loop's input.
  - The class-level dictionaries that all instances share are one object.
  - `\w` is read as ASCII letters, digits and '_'.
- CommandDocs.IsPyWhitespace: Python's `strip` also removes the non-ASCII whitespace characters (U+0085, U+00A0, U+1680, U+2000-U+200A, U+2028, U+2029, U+202F, U+205F, U+3000). The model strips only ASCII whitespace.
- CommandDocs.CommandTable.ParseBriefLines takes the help lines as its input. The `re.split` on "Commands:" and the `strip().split('\n')` that produce them (contrib/docs/generate_command_docs.py:88-89) are left out.
- UpdateGenerator: the generated key pair, the key file, the update folder's files and the RSA signer are parameters.
- Updater: `downloadFile`, `performUpdate`, `rollbackUpdate` and directory creation are file-system code and are left out.
- TransferManager: `DownloadsManager`'s moves of entries between its active and finished maps are left out. The model covers the serialiser and the id type.
- The rotating logger's stream classes and timers are left out beyond `shouldRotateFile` and the numbered archive rotation.
- RotatingLogger.RotateFiles: every unlink and rename is taken to succeed. The source logs a failed `unlinklocal` or `renamelocal` and goes on with the next file (src/megacmd_rotating_logger.cpp:228-240).
- PlatformDirectories' environment and home-directory lookups are left out. Only the `runtimeDirPath` default is modelled.

## Findings

| source | as written | input that shows it | evidently intended | confidence | as-written member | corrected member |
|---|---|---|---|---|---|---|
| src/megacmdcommonutils.cpp:549 | the guard `!isdigit(w0) && !(w0 != '-') && (w0 != '+')` holds exactly when the text starts with '-', so every negative number is refused | "-5" gives failValue | refuse only texts that start with neither a digit nor a sign | not executed | CommonUtils.ToIntegerAsWritten, CommonUtils.ToIntegerNegativeFinding | CommonUtils.ToInteger, CommonUtils.ToIntegerRoundTrip |
| src/megacmdcommonutils.cpp:1066-1068 | the 'T' unit multiplies by 1024^5 | "3T" gives 3·1024^5, which `sizeToText` shows as 3072 TB | 1024^4, the factor `sizeToText` uses for TB | not executed | CommonSizes.TextToSizeAsWritten, CommonSizes.TeraFinding | CommonSizes.TextToSize, CommonSizes.TextToSizeOfRendered |
| src/megacmdshell/megacmdshellcommunications.cpp:311-314 | the lead-byte loop also runs for a one-byte result and sets its top bit | U+0041 is written as the byte 0xC1, which is not valid UTF-8 | a lone ASCII byte, as section 3 of RFC 3629 says | not executed | ShellUtf8.ToUtf8AsWritten, ShellUtf8.ToUtf8AsciiFinding | ShellUtf8.ToUtf8 |
| src/megacmdexecuter.cpp:283-299 | after an escape, `ptr++; continue;` reaches the loop condition `*ptr++`, so the character after the escaped one is never examined | `a\:` (the name `a:` escaped) yields no component, and `a\//b` (the names `a/` and `b` escaped) yields the one name `a//b` | the escaped character is taken literally and the scan goes on at the next one | not executed | NodePath.SplitAsWritten, NodePath.EscapeDropsLast, NodePath.EscapeSwallowsSlash | NodePath.SplitPath, NodePath.EscapeCorrected, NodePath.SplitJoinEscaped |
