# js-watch in Dafny

js-watch is a PHP command-line tool that watches a directory tree and
minifies JavaScript. It does three things:

- It runs `inotifywait` on the tree.
- It hands every changed `.js` file that is not itself minified to the
  Google Closure Compiler. The compiler runs as a local `java -jar`
  application when one can be constructed, and as the remote web service
  otherwise.
- It writes the result next to the source as `x.min.js` and prints the
  compiler's errors and warnings with a caret under the offending column.

This project models the tool's logic as pure functions over immutable
datatypes:

- the diagnostic message with its tab-stop arithmetic, and the compilation
  result that collects messages;
- the parsers for both backends' answers, with the command line of the
  local compiler and the form body sent to the service;
- the target-file naming rule, the watcher's relevance and freshness tests,
  and its exception policy;
- the monitor's dispatch of paths to watchers;
- the factory's choice of backend;
- the `inotifywait` change source as a two-state machine;
- the order of the entries the reporter emits;
- the class autoloader's name-to-file mapping.

Everything the PHP code obtains from the outside world becomes an input of
the model. This covers process exit codes and output lines, decoded JSON,
file existence and modification times, the directory walk, and the lines
`inotifywait` prints.

## Layout

| file | module | PHP counterpart |
|---|---|---|
| errors.dfy | `Errors` | `Option`/`Result`, the exception kinds and their numeric codes |
| strings.dfy | `Strings` | the PHP string built-ins the core uses (`trim`, `strpos`, `str_replace`, `explode`, ...) |
| logging.dfy | `Logging` | log levels and entries, returned as data |
| messages.dfy | `Messages` | `Compiler/Message.php` |
| compilation_result.dfy | `CompilationResults` | `Compiler/CompilationResult.php` |
| result_logger.dfy | `ResultLogger` | `Compiler/CompilationResultLogger.php` |
| options.dfy | `CompilerOptions` | PHP arrays with string keys: `array_merge` and `$a[k] = v` |
| shell.dfy | `Shell` | `escapeshellarg` and how a POSIX shell reads it back |
| form_encoding.dfy | `FormEncoding` | `rawurlencode` and the service's POST body |
| compilers.dfy | `Compilers` | `Compiler/AbstractCompiler.php` |
| closure_application.dfy | `ClosureApplication` | `Compiler/GoogleClosureCompilerApplication.php` |
| closure_service.dfy | `ClosureService` | `Compiler/GoogleClosureCompilerService.php` |
| compiler_factory.dfy | `CompilerFactory` | `Compiler/CompilerFactory.php` |
| watcher.dfy | `JavaScriptWatcher` | `Watcher/CompileJavaScriptWatcher.php` |
| inotify.dfy | `Inotify` | `Inotify.php` |
| monitor.dfy | `FileSystemMonitor` | `FileSystemMonitor.php` |
| autoload.dfy | `Autoload` | `Bootstrap.php` (`autoLoad`) |

## Behaviour worth knowing

- **Line-mark width.** The caret line pads `^` on the left to a total
  width of n (`str_pad('^', n, ' ', STR_PAD_LEFT)`): n-1 spaces and a caret
  in column n. When n is 0 or 1 the result is a bare `^`.
- **Missing targets.** The initial walk's `checkFile` reads the target's
  modification time without checking that the file exists, and
  `SplFileInfo::getMTime` raises for a missing file. A missing target
  therefore raises an exception; it is not treated as stale.
- **Line feed before the end.** The relevance test uses the pattern
  `/(?<![.-]min)\.js$/` without the `D` modifier, so `$` also matches just
  before one final line feed. `"x.js\n"` is watched.
- **End of the change stream.** `getChangedFile` returns
  `trim(fgets(...))`, and `trim(false)` is `""`, never `false`. The live
  loop's `!== FALSE` guard therefore never fires, and the end of the output
  is dispatched as the path `""`.

## Model

| member | source | states |
|---|---|---|
| Messages.NewMessage | Classes/JsWatch/Compiler/Message.php:54-59 | the constructor stores message, line number, offset and line as given; its defaults are line number 0, offset 0 and the empty line, and the getters return the stored values |
| Messages.ExpandHasNoTabs | Classes/JsWatch/Compiler/Message.php:117-122 | tab expansion from any column leaves no tab behind |
| Messages.ExpandTabFree | Classes/JsWatch/Compiler/Message.php:117-122 | a tab-free text comes back unchanged |
| Messages.ExpandAppend | Classes/JsWatch/Compiler/Message.php:117-122 | expansion is compositional: the second part is expanded from the column where the first part's expansion ends |
| Messages.ExpandLength | Classes/JsWatch/Compiler/Message.php:117-122 | expansion never shortens a text |
| Messages.ExpandPrefix | Classes/JsWatch/Compiler/Message.php:117-122 | expanding a prefix of a line gives a prefix of the expanded line |
| Messages.TabReachesTabStop | Classes/JsWatch/Compiler/Message.php:118-120 | a tab whose expanded column is c becomes exactly 4 - c % 4 spaces, so the next character starts on a multiple of 4 |
| Messages.ExpandKeepsVisible | Classes/JsWatch/Compiler/Message.php:117-122 | expansion keeps every character other than blanks and tabs, in order, and adds none |
| Messages.ExpandChars | Classes/JsWatch/Compiler/Message.php:117-122 | every character of an expansion is a blank or a character of the raw text |
| Messages.ConvertTabsToSpaces | Classes/JsWatch/Compiler/Message.php:117-122 | the source's find-first-tab-and-replace loop computes the reference expansion, leaves no tab, and returns a tab-free input unchanged |
| Messages.ConvertStep | Classes/JsWatch/Compiler/Message.php:118-119 | one iteration of the loop replaces exactly the next raw tab, so the loop's string stays "expanded raw prefix + untouched raw rest" |
| Messages.ReplaceTab | Classes/JsWatch/Compiler/Message.php:119 | replacing the first remaining tab by blanks up to the next stop extends the expanded prefix by one raw character |
| Messages.LocateTab | Classes/JsWatch/Compiler/Message.php:118 | the first tab in the loop's string is the first raw tab not yet replaced, and its position is the width of the expansion before it |
| Messages.ConvertDone | Classes/JsWatch/Compiler/Message.php:118-121 | when no tab is left the loop's string is the whole expansion |
| Messages.SubstrPrefix | Classes/JsWatch/Compiler/Message.php:131 | PHP `substr(line, 0, n)`: a prefix of the line, n characters long (capped at the line) for n >= 0, and the line minus its last -n characters for n < 0 |
| Messages.GetLine | Classes/JsWatch/Compiler/Message.php:78-80 | the displayed line has no tabs, and a tab-free line is displayed as stored |
| Messages.GetCharacterNumber | Classes/JsWatch/Compiler/Message.php:71-73 | the expanded offset is at most the displayed line's length, and the displayed line up to it is exactly the expansion of the raw prefix up to the raw offset |
| Messages.CharacterNumberMonotone | Classes/JsWatch/Compiler/Message.php:130-132 | on the same line the expanded offset grows with a non-negative raw offset |
| Messages.CharacterNumberTabFree | Classes/JsWatch/Compiler/Message.php:130-132 | on a tab-free line the expanded offset is min(offset, length) for offsets >= 0, and length + offset (at least 0) for negative ones |
| Messages.TabAlignment | Classes/JsWatch/Compiler/Message.php:71-80 | a line indented by one tab with offset 2 and the same line indented by four blanks with offset 5 both give offset 5, the same displayed line and the same line-mark |
| Messages.LeadingTab | Classes/JsWatch/Compiler/Message.php:117-122 | a tab on column 0 becomes a full tab stop of four blanks |
| Messages.PadLeft | Classes/JsWatch/Compiler/Message.php:100 | `str_pad` on the left: the result ends with the input, has length max(n, input length), and is blanks before the input |
| Messages.GetLineMark | Classes/JsWatch/Compiler/Message.php:99-101 | the line-mark has length max(n, 1) for the expanded offset n, ends in `^`, and is blanks before it |
| Messages.ToStringLines | Classes/JsWatch/Compiler/Message.php:106-110 | the string form is exactly three lines: `<type> in line <line>, character <expanded offset>: <message>`, the displayed line, and the line-mark |
| Messages.HeaderHasNoLineBreak | Classes/JsWatch/Compiler/Message.php:107 | the header line carries no line break of its own when the message and line number carry none |
| Messages.NoNewlineInDecimal | Classes/JsWatch/Compiler/Message.php:107 | the printed character number contains no line break |
| CompilationResults.NewResult | Classes/JsWatch/Compiler/CompilationResult.php:68-72 | a new result has the given source and optional target, is unsuccessful unless told otherwise, and has no code, errors or warnings |
| CompilationResults.SetTargetFile | Classes/JsWatch/Compiler/CompilationResult.php:91-93 | the target is replaced and nothing else changes |
| CompilationResults.SetSuccessful | Classes/JsWatch/Compiler/CompilationResult.php:98-114 | the success flag is replaced and nothing else changes; `isSuccessful` and `getSuccessful` read the same field |
| CompilationResults.SetCompiledCode | Classes/JsWatch/Compiler/CompilationResult.php:119-121 | the compiled code is replaced and nothing else changes |
| CompilationResults.SetErrors | Classes/JsWatch/Compiler/CompilationResult.php:133-135 | the whole error list is replaced and nothing else changes |
| CompilationResults.SetWarnings | Classes/JsWatch/Compiler/CompilationResult.php:156-158 | the whole warning list is replaced and nothing else changes |
| CompilationResults.AddError | Classes/JsWatch/Compiler/CompilationResult.php:142-144 | exactly one error is appended at the end; the earlier errors and every other field are unchanged |
| CompilationResults.AddWarning | Classes/JsWatch/Compiler/CompilationResult.php:165-167 | exactly one warning is appended at the end; the earlier warnings and every other field are unchanged |
| CompilationResults.AddMessage | Classes/JsWatch/Compiler/CompilationResult.php:182-190 | a Warning is added as a warning and an Error as an error; a plain Message is refused with InvalidArgumentException 1355353270 |
| CompilationResults.OfKind | Classes/JsWatch/Compiler/CompilationResult.php:182-190 | every message kept has the kind asked for, and a message is kept exactly when it is in the input with that kind |
| CompilationResults.OfKindAppend | Classes/JsWatch/Compiler/CompilationResult.php:182-190 | selecting one kind from a concatenation is the concatenation of the selections, so order and repetitions are kept |
| CompilationResults.AddMessagesRoutes | Classes/JsWatch/Compiler/CompilationResult.php:182-190 | adding classified messages one by one appends the error-only subsequence to the errors and the warning-only subsequence to the warnings, each in input order, and changes nothing else |
| CompilationResults.AddMessagesRefuses | Classes/JsWatch/Compiler/CompilationResult.php:187-188 | one unclassified message anywhere makes the whole sequence fail with InvalidArgumentException |
| ResultLogger.StatusEntry | Classes/JsWatch/Compiler/CompilationResultLogger.php:29-33 | the first entry is at ok level for a successful result and at error level otherwise |
| ResultLogger.MessageEntries | Classes/JsWatch/Compiler/CompilationResultLogger.php:36-43 | one entry per message, in list order, at the given level, with the message's string form |
| ResultLogger.LogCompilationResult | Classes/JsWatch/Compiler/CompilationResultLogger.php:28-44 | exactly 1 + errors + warnings entries: the status entry, then every error at error level in order, then every warning at warning level in order, also for a successful result |
| ResultLogger.ErrorsBeforeWarnings | Classes/JsWatch/Compiler/CompilationResultLogger.php:36-43 | after the status entry every entry is an error or a warning, and no error follows a warning |
| ResultLogger.EntryLevel | Classes/JsWatch/Compiler/CompilationResultLogger.php:36-43 | an entry after the status entry is at error level exactly when it lies within the first |errors| of them |
| CompilerOptions.Keys | Classes/JsWatch/Compiler/GoogleClosureCompilerApplication.php:41-43 | the keys of an option array, position by position |
| CompilerOptions.FindKey | Classes/JsWatch/Compiler/GoogleClosureCompilerApplication.php:37-38 | the position found carries the key, and when none is found no entry carries it |
| CompilerOptions.FindDistinct | Classes/JsWatch/Compiler/GoogleClosureCompilerApplication.php:37-38 | with distinct keys the entry carrying a key is the one found |
| CompilerOptions.Assign | Classes/JsWatch/Compiler/GoogleClosureCompilerApplication.php:37-38 | `$opts[k] = v`: an existing key keeps its position and takes the new value, a new key is appended at the end, and keys stay distinct |
| CompilerOptions.AssignLookup | Classes/JsWatch/Compiler/GoogleClosureCompilerApplication.php:37-38 | after the assignment the key reads the new value and every other key reads what it read before |
| CompilerOptions.AssignedKeyFound | Classes/JsWatch/Compiler/GoogleClosureCompilerService.php:41 | the assigned key reads the assigned value |
| CompilerOptions.OtherKeyKept | Classes/JsWatch/Compiler/GoogleClosureCompilerService.php:41 | an assignment leaves every other key's value alone |
| CompilerOptions.AssignNew | Classes/JsWatch/Compiler/GoogleClosureCompilerApplication.php:37-38 | assigning a key no entry carries appends it |
| CompilerOptions.Merge | Classes/JsWatch/Compiler/GoogleClosureCompilerApplication.php:33-36 | `array_merge` with string keys keeps keys distinct |
| CompilerOptions.MergeLookup | Classes/JsWatch/Compiler/GoogleClosureCompilerApplication.php:33-36 | after `array_merge` a key of the second array reads its value from there, and any other key reads its value from the first |
| CompilerOptions.MergeKeepsPositions | Classes/JsWatch/Compiler/GoogleClosureCompilerService.php:33-40 | `array_merge` keeps the first array's keys where they stand |
| CompilerOptions.MergeIntoEmpty | Classes/JsWatch/Compiler/GoogleClosureCompilerService.php:33-40 | merging into no options gives the second array itself |
| CompilerOptions.MergeFresh | Classes/JsWatch/Compiler/GoogleClosureCompilerService.php:33-40 | merging entries whose keys are all new appends them in order |
| CompilerOptions.LookupAbsent | Classes/JsWatch/Compiler/GoogleClosureCompilerService.php:33-40 | a key no entry carries reads nothing |
| CompilerOptions.NotLaterKey | Classes/JsWatch/Compiler/GoogleClosureCompilerService.php:33-40 | in an array with distinct keys the first entry's key occurs nowhere later |
| Shell.EscapeShellArgRoundTrip | Classes/JsWatch/Inotify.php:135 | a POSIX shell reads `escapeshellarg(s)` back as exactly the characters of s that the locale accepts, whatever quotes they contain |
| Shell.Kept | Classes/JsWatch/Inotify.php:135 | `escapeshellarg` skips the bytes the C locale rejects: a character is in the result exactly when it is in s and below 128, and the result is no longer than s |
| Shell.KeptChar | Classes/JsWatch/Inotify.php:135 | one character is kept exactly when it is below 128 |
| Shell.KeptAppend | Classes/JsWatch/Inotify.php:135 | skipping distributes over concatenation; with `KeptChar` this makes the result the characters of s below 128, in order and with their multiplicity |
| Shell.KeptDropsHighByte | Classes/JsWatch/Inotify.php:135 | a character from 128 up is dropped and the text on both sides stays in place, so `caf` + `é` + `.js` gives `caf.js` |
| Shell.KeptAscii | Classes/JsWatch/Inotify.php:135 | a string of bytes below 128 loses nothing |
| Shell.AsciiArgRoundTrip | Classes/JsWatch/Inotify.php:135 | an argument of bytes below 128 is read back as exactly itself |
| Shell.QuotedRunRoundTrip | Classes/JsWatch/Compiler/GoogleClosureCompilerApplication.php:40-42 | inside the opening quote the shell reads the quoted body and the closing quote back as the original text |
| Shell.EscapedQuoteStep | Classes/JsWatch/Compiler/GoogleClosureCompilerApplication.php:42 | inside single quotes `'\''` reads as one quote character |
| Shell.QuotedCharStep | Classes/JsWatch/Compiler/GoogleClosureCompilerApplication.php:42 | inside single quotes any character but the quote stands for itself |
| FormEncoding.HexValue | Classes/JsWatch/Compiler/GoogleClosureCompilerService.php:51 | a hexadecimal digit denotes a value below 16 |
| FormEncoding.HexDigitValue | Classes/JsWatch/Compiler/GoogleClosureCompilerService.php:51 | reading back the hexadecimal digit written for a value gives the value |
| FormEncoding.DecodeEncodedChar | Classes/JsWatch/Compiler/GoogleClosureCompilerService.php:51 | percent-decoding the encoding of one octet in front of any text gives that octet in front of the decoded text |
| FormEncoding.DecodeEncode | Classes/JsWatch/Compiler/GoogleClosureCompilerService.php:51 | percent-decoding `rawurlencode(s)` gives s back (section 2.1 of RFC 3986) |
| FormEncoding.EncodedAlphabet | Classes/JsWatch/Compiler/GoogleClosureCompilerService.php:51 | an encoded value contains only unreserved characters (section 2.3 of RFC 3986), `%` and hex digits, so never a raw `&` or `=` |
| FormEncoding.EncodeCharAlphabet | Classes/JsWatch/Compiler/GoogleClosureCompilerService.php:51 | the encoding of one octet uses only that alphabet |
| FormEncoding.PairsAreBytes | Classes/JsWatch/Compiler/GoogleClosureCompilerService.php:49-53 | expanding options into (key, value) pairs keeps everything a byte string |
| FormEncoding.AssignKeepsBytes | Classes/JsWatch/Compiler/GoogleClosureCompilerService.php:41 | assigning a byte-string option keeps the options encodable |
| FormEncoding.MergeKeepsBytes | Classes/JsWatch/Compiler/GoogleClosureCompilerService.php:33-40 | `array_merge` of encodable options is encodable |
| FormEncoding.Fields | Classes/JsWatch/Compiler/GoogleClosureCompilerService.php:49-53 | one `key=encoded-value` field per pair, in pair order |
| FormEncoding.FormBodyIsJoin | Classes/JsWatch/Compiler/GoogleClosureCompilerService.php:48-54 | with plain keys the body is exactly the fields joined by single `&`, with no leading or trailing `&` and nothing else removed |
| FormEncoding.TrimmedAccumulate | Classes/JsWatch/Compiler/GoogleClosureCompilerService.php:48-54 | `trim(accumulated, '&')` removes exactly the final separator the loop added |
| FormEncoding.AccumulateIsJoin | Classes/JsWatch/Compiler/GoogleClosureCompilerService.php:49-53 | the loop's accumulation is the joined fields plus one `&`, or nothing for no pairs |
| FormEncoding.TrimJoin | Classes/JsWatch/Compiler/GoogleClosureCompilerService.php:54 | `trim` removes only the trailing separator when the first field does not start, and the last does not end, with it |
| FormEncoding.TrimOnce | Classes/JsWatch/Compiler/GoogleClosureCompilerService.php:54 | `trim(j + c, c)` is j when j neither starts nor ends with c |
| FormEncoding.FieldStartsWithKey | Classes/JsWatch/Compiler/GoogleClosureCompilerService.php:51 | a field starts with its key's first character, which is not `&` |
| FormEncoding.FieldEndsPlain | Classes/JsWatch/Compiler/GoogleClosureCompilerService.php:51 | a field never ends in `&` |
| FormEncoding.PairKeysPlain | Classes/JsWatch/Compiler/GoogleClosureCompilerService.php:50 | list expansion repeats the option's key for each element, so plain keys stay plain |
| FormEncoding.FormBodyRoundTrip | Classes/JsWatch/Compiler/GoogleClosureCompilerService.php:48-54 | splitting the body on `&` and each field on its first `=`, then percent-decoding, yields every (key, value) pair in option order, a list value repeating its key once per element |
| FormEncoding.JoinedFieldsRoundTrip | Classes/JsWatch/Compiler/GoogleClosureCompilerService.php:49-54 | reading the joined fields back gives exactly the pairs |
| FormEncoding.FieldRoundTrip | Classes/JsWatch/Compiler/GoogleClosureCompilerService.php:51 | in one field the first `=` follows the key, and the rest decodes to the value |
| Compilers.DirName | Classes/JsWatch/Compiler/AbstractCompiler.php:54 | `getPath` is a prefix of the path, and it is empty when the path has no `/` |
| Compilers.BaseName | Classes/JsWatch/Compiler/AbstractCompiler.php:54 | the file name is a `/`-free suffix of the path |
| Compilers.GetTargetFileName | Classes/JsWatch/Compiler/AbstractCompiler.php:53-55 | the default target always ends in `.min.js` |
| Compilers.TargetReplacesSuffix | Classes/JsWatch/Compiler/AbstractCompiler.php:54 | for `dir/x.js` the target is `dir/x.min.js`: the trailing `.js` is replaced |
| Compilers.TargetInjective | Classes/JsWatch/Compiler/AbstractCompiler.php:54 | different `.js` sources with a directory part and a file name longer than `.js` never share a default target |
| Compilers.TargetAppendsSuffix | Classes/JsWatch/Compiler/AbstractCompiler.php:54 | a file name not ending in `.js` is kept whole and `.min.js` is appended |
| Compilers.TargetUpperCaseKept | Classes/JsWatch/Compiler/AbstractCompiler.php:54 | the suffix test is case-sensitive: `d/x.JS` gives `d/x.JS.min.js` |
| Compilers.TargetBareSuffixKept | Classes/JsWatch/Compiler/AbstractCompiler.php:54 | a file name that is only `.js` is not shortened: it becomes `.js.min.js` |
| Compilers.TargetCollision | Classes/JsWatch/Compiler/AbstractCompiler.php:54 | the sources `dir/.js` and `dir/.js.js` differ but share the default target |
| Compilers.TargetWithoutDirectory | Classes/JsWatch/Compiler/AbstractCompiler.php:54 | a path without a directory part gets an empty directory, so `x.js` gives `/x.min.js` |
| Compilers.GetCompilerOptions | Classes/JsWatch/Compiler/AbstractCompiler.php:64-66 | the default compiler options are empty |
| Compilers.CompileRequest | Classes/JsWatch/Compiler/AbstractCompiler.php:31-45 | a source that is not a regular file is refused with InvalidPathException 1353619162 before any backend runs; otherwise the backend gets the source, no options, and the explicit target name or else the default target |
| ClosureApplication.Run | Classes/JsWatch/Compiler/GoogleClosureCompilerApplication.php:72 | the longest prefix of characters of one class, which is what each character-class group of the header pattern captures before its delimiter |
| ClosureApplication.RunOfPrefix | Classes/JsWatch/Compiler/GoogleClosureCompilerApplication.php:72 | a run stops at the first character outside its class |
| ClosureApplication.Delimited | Classes/JsWatch/Compiler/GoogleClosureCompilerApplication.php:72 | a group followed by a delimiter outside its class is matched as exactly that group, that delimiter and the rest |
| ClosureApplication.MessageGroupOf | Classes/JsWatch/Compiler/GoogleClosureCompilerApplication.php:72 | the message group `(.*)$` is the text with or without one final line feed |
| ClosureApplication.TypeRender | Classes/JsWatch/Compiler/GoogleClosureCompilerApplication.php:72 | the type and message part of a printed header is read back |
| ClosureApplication.LineRender | Classes/JsWatch/Compiler/GoogleClosureCompilerApplication.php:72 | the line number, type and message part of a printed header is read back |
| ClosureApplication.ParseRender | Classes/JsWatch/Compiler/GoogleClosureCompilerApplication.php:72 | the header pattern reads every well-formed `file:line: TYPE - message` header back, with or without a final line feed |
| ClosureApplication.FileThenRest | Classes/JsWatch/Compiler/GoogleClosureCompilerApplication.php:72 | a file name never contains `:`, so the pattern splits the header at the `:` after it |
| ClosureApplication.MessageGroupSound | Classes/JsWatch/Compiler/GoogleClosureCompilerApplication.php:72 | a matched message group has no line break, and the text is that group with at most one line feed after it |
| ClosureApplication.TypeSound | Classes/JsWatch/Compiler/GoogleClosureCompilerApplication.php:72 | whatever the type and message part accepts is an upper-case type with a one-line message |
| ClosureApplication.LineSound | Classes/JsWatch/Compiler/GoogleClosureCompilerApplication.php:72 | whatever the line number part accepts is digits followed by an accepted type and message part |
| ClosureApplication.ParseSound | Classes/JsWatch/Compiler/GoogleClosureCompilerApplication.php:72 | whatever the header pattern accepts is the rendering of a well-formed header, with at most one line feed after it |
| ClosureApplication.RenderFromParts | Classes/JsWatch/Compiler/GoogleClosureCompilerApplication.php:72 | a header split at its first `:` into file name and accepted rest is that header's rendering |
| ClosureApplication.RecordMessage | Classes/JsWatch/Compiler/GoogleClosureCompilerApplication.php:72-88 | a record at line i succeeds exactly when its header matches and names WARNING or ERROR; the message then has the matching kind, the header's text and line number, the length of line i+2 as offset and line i+1 as source line; an unmatched header raises CommandExecutionException 1355352825 and another type raises 1355352906 |
| ClosureApplication.RecordCountStep | Classes/JsWatch/Compiler/GoogleClosureCompilerApplication.php:71 | each step of the loop by 4 lines consumes exactly one record |
| ClosureApplication.RecordsFrom | Classes/JsWatch/Compiler/GoogleClosureCompilerApplication.php:71-89 | on success there is one message per record start i, i+4, ... with i+2 inside the output, and every message is a warning or an error |
| ClosureApplication.RecordsFromContents | Classes/JsWatch/Compiler/GoogleClosureCompilerApplication.php:71-88 | the k-th message read is the message of the record at line 4k |
| ClosureApplication.RecordsFromFirstFailure | Classes/JsWatch/Compiler/GoogleClosureCompilerApplication.php:71-86 | a failure reports the exception of the first bad record; every record before it is good |
| ClosureApplication.RecordsFromSucceeds | Classes/JsWatch/Compiler/GoogleClosureCompilerApplication.php:71-86 | reading succeeds exactly when every record's header matches and names a known type |
| ClosureApplication.AddRecordsIsAddMessages | Classes/JsWatch/Compiler/GoogleClosureCompilerApplication.php:71-89 | the source's loop fails with the first bad record's exception, or otherwise adds every record's message through `addMessage` in output order |
| ClosureApplication.SeparatorIgnored | Classes/JsWatch/Compiler/GoogleClosureCompilerApplication.php:71-87 | the fourth line of each record is never inspected: outputs that differ only there are read alike |
| ClosureApplication.RecordsAfterPrefix | Classes/JsWatch/Compiler/GoogleClosureCompilerApplication.php:71 | the lines before a record boundary do not affect what is read after it |
| ClosureApplication.RecordLines | Classes/JsWatch/Compiler/GoogleClosureCompilerApplication.php:71-87 | the compiler prints each diagnostic as a four-line record |
| ClosureApplication.RecordOfPrefix | Classes/JsWatch/Compiler/GoogleClosureCompilerApplication.php:87 | a record is read from its first three lines only |
| ClosureApplication.RecordsOfBlocks | Classes/JsWatch/Compiler/GoogleClosureCompilerApplication.php:71-88 | consecutive four-line blocks, each a good record, are read as their messages in order |
| ClosureApplication.RecordLinesRead | Classes/JsWatch/Compiler/GoogleClosureCompilerApplication.php:72-88 | the record printed for a printable diagnostic is read back as that diagnostic |
| ClosureApplication.ParseRendered | Classes/JsWatch/Compiler/GoogleClosureCompilerApplication.php:72 | a well-formed header is read back from its rendering |
| ClosureApplication.PrintedHeaderWellFormed | Classes/JsWatch/Compiler/GoogleClosureCompilerApplication.php:72 | the header printed for a printable diagnostic matches the pattern's groups |
| ClosureApplication.ParseHeaderReadsPrinted | Classes/JsWatch/Compiler/GoogleClosureCompilerApplication.php:72 | the header pattern reads every printed header back |
| ClosureApplication.PrintedRoundTrip | Classes/JsWatch/Compiler/GoogleClosureCompilerApplication.php:71-88 | any header reader that reads printed headers back reads the printed output as exactly the diagnostics |
| ClosureApplication.OutputRoundTrip | Classes/JsWatch/Compiler/GoogleClosureCompilerApplication.php:45-88 | the output printed for a list of printable diagnostics is parsed back as exactly that list, in order, both as printed and as `exec` returns it after cutting the printed text at line feeds and stripping each line |
| ClosureApplication.ExecKeepsOutput | Classes/JsWatch/Compiler/GoogleClosureCompilerApplication.php:45 | `exec` returns the text printed for printable diagnostics as exactly the printed lines |
| ClosureApplication.ExecOfPlainLines | Classes/JsWatch/Compiler/GoogleClosureCompilerApplication.php:45 | lines without a line feed and not ending in white space, printed one after another, come back from `exec` as the same list |
| ClosureApplication.PrintedTextJoin | Classes/JsWatch/Compiler/GoogleClosureCompilerApplication.php:45 | printing lines one after another gives them joined by line feeds plus a final line feed |
| ClosureApplication.RecordLinesPlain | Classes/JsWatch/Compiler/GoogleClosureCompilerApplication.php:45 | every one of the four lines printed for a printable diagnostic holds no line feed and does not end in white space, so `exec` returns it unchanged |
| ClosureApplication.StripEnd | Classes/JsWatch/Compiler/GoogleClosureCompilerApplication.php:45 | a line as `exec` returns it: a prefix of the printed line, all of whose dropped characters are white space, and which does not end in white space |
| ClosureApplication.ParseResponse | Classes/JsWatch/Compiler/GoogleClosureCompilerApplication.php:63-92 | exit code 0 gives a successful result whose code is the target file's contents, and any other exit code gives an unsuccessful result with no code; the diagnostics are read whatever the exit code; errors and warnings are the records' error and warning subsequences in output order; a bad record's exception is raised instead |
| ClosureApplication.ParseResponseOfOutput | Classes/JsWatch/Compiler/GoogleClosureCompilerApplication.php:45-92 | parsing the lines `exec` returns for a printed output reports exactly its errors and its warnings, each in order |
| ClosureApplication.MessageCount | Classes/JsWatch/Compiler/GoogleClosureCompilerApplication.php:71 | n output lines give exactly floor((n + 1) / 4) messages |
| ClosureApplication.OfKindSplit | Classes/JsWatch/Compiler/GoogleClosureCompilerApplication.php:75-88 | warnings and errors together are all the messages read |
| ClosureApplication.UnknownTypeIsFatal | Classes/JsWatch/Compiler/GoogleClosureCompilerApplication.php:84-85 | a well-formed header with a type other than WARNING and ERROR raises CommandExecutionException 1355352906, even on exit code 0 |
| ClosureApplication.CompileFileOptions | Classes/JsWatch/Compiler/GoogleClosureCompilerApplication.php:33-38 | without caller options the compiler gets logging_level=SEVERE, summary_detail_level=0, js=source and js_output_file=target, in that order |
| ClosureApplication.FreshKeys | Classes/JsWatch/Compiler/GoogleClosureCompilerApplication.php:33-38 | two fixed entries merged into no options, then two new assignments, list the four entries in order |
| ClosureApplication.AssignTwoNew | Classes/JsWatch/Compiler/GoogleClosureCompilerApplication.php:37-38 | assigning two new keys appends them in order |
| ClosureApplication.CommandForCompileFile | Classes/JsWatch/Compiler/GoogleClosureCompilerApplication.php:40-45 | the command `compileFile` runs is `java -jar` with the escaped jar path, one ` --key escapeshellarg(value)` argument per option in option order, and `2>&1` |
| ClosureApplication.CommandOfFixedOptions | Classes/JsWatch/Compiler/GoogleClosureCompilerApplication.php:40-45 | the four fixed options give exactly four shell-quoted arguments, in order |
| ClosureApplication.FourArguments | Classes/JsWatch/Compiler/GoogleClosureCompilerApplication.php:41-43 | four options give one ` --key 'value'` argument each, in order |
| ClosureApplication.RunCompiler | Classes/JsWatch/Compiler/GoogleClosureCompilerApplication.php:32-51 | a returned result has the request's source and target, is successful exactly on exit code 0, and has compiled code when successful |
| ClosureApplication.CompileFileScalar | Classes/JsWatch/Compiler/GoogleClosureCompilerApplication.php:33-38 | every option `compileFile` passes is a single string |
| ClosureApplication.CompileFile | Classes/JsWatch/Compiler/AbstractCompiler.php:31-45 | with the local backend a non-file source raises InvalidPathException 1353619162, and a returned result has the source, the chosen target and compiled code when successful |
| ClosureService.ServiceOptions | Classes/JsWatch/Compiler/GoogleClosureCompilerService.php:33-41 | the options sent keep distinct keys |
| ClosureService.FixedOptionsAreBytes | Classes/JsWatch/Compiler/GoogleClosureCompilerService.php:33-41 | the fixed options and the source text are byte strings and can be encoded |
| ClosureService.ServiceOptionsAreBytes | Classes/JsWatch/Compiler/GoogleClosureCompilerService.php:33-41 | the options sent can be form-encoded when the caller's can |
| ClosureService.CompileFileOptions | Classes/JsWatch/Compiler/GoogleClosureCompilerService.php:33-41 | without caller options the options are output_format=json, output_info=[compiled_code, warnings, errors], then js_code = the source text last |
| ClosureService.ThreeKeys | Classes/JsWatch/Compiler/GoogleClosureCompilerService.php:33-41 | two fixed entries merged into no options, then a new assignment, list the three entries in order |
| ClosureService.FixedKeysPlain | Classes/JsWatch/Compiler/GoogleClosureCompilerService.php:33-41 | the fixed keys contain no `&` or `=` |
| ClosureService.FixedPairs | Classes/JsWatch/Compiler/GoogleClosureCompilerService.php:49-53 | the fixed options expand to five pairs, output_info repeated once per requested part |
| ClosureService.CompileFileBody | Classes/JsWatch/Compiler/GoogleClosureCompilerService.php:33-54 | the service reads the body `compileFile` sends as output_format=json, output_info three times (compiled_code, warnings, errors), then js_code with the source text intact |
| ClosureService.DiagnosticMessages | Classes/JsWatch/Compiler/GoogleClosureCompilerService.php:100-108 | one message per entry |
| ClosureService.MessagesCons | Classes/JsWatch/Compiler/GoogleClosureCompilerService.php:100-108 | the messages of a list are the first entry's message followed by the rest's |
| ClosureService.AddErrorsAppends | Classes/JsWatch/Compiler/GoogleClosureCompilerService.php:99-103 | the error loop appends one Error per entry, in list order, and touches nothing else |
| ClosureService.AddWarningsAppends | Classes/JsWatch/Compiler/GoogleClosureCompilerService.php:105-109 | the warning loop appends one Warning per entry, in list order, and touches nothing else |
| ClosureService.ErrorsThenRest | Classes/JsWatch/Compiler/GoogleClosureCompilerService.php:101 | adding one error and then appending the rest appends both |
| ClosureService.WarningsThenRest | Classes/JsWatch/Compiler/GoogleClosureCompilerService.php:107 | adding one warning and then appending the rest appends both |
| ClosureService.ParseResponse | Classes/JsWatch/Compiler/GoogleClosureCompilerService.php:87-112 | a reported server error raises CommandExecutionException 1355180897 with the first error's code and text; otherwise the result is successful exactly when the compiled code is not PHP-empty (so `""` and `"0"` fail), the code is copied only then, and errors and warnings come from list-valued fields in list order, a missing or non-list field adding nothing |
| ClosureService.DiagnosticsCarried | Classes/JsWatch/Compiler/GoogleClosureCompilerService.php:99-109 | the k-th error and warning carry the k-th entry's text, decimal line number, offset and source line, with the right kind |
| ClosureService.RunCompiler | Classes/JsWatch/Compiler/GoogleClosureCompilerService.php:32-76 | a transport error raises 1353627327 with its text, a non-object answer raises 1355177681, a server error fails the run; a returned result has the request's source and target, and the compiled code is written to the target exactly when the result is successful |
| ClosureService.CompileFile | Classes/JsWatch/Compiler/AbstractCompiler.php:31-45 | with the service a non-file source raises InvalidPathException 1353619162; a returned result has the source and the explicit target name or else the default target, and the code is written exactly when the result is successful |
| CompilerFactory.NewFactory | Classes/JsWatch/Compiler/CompilerFactory.php:38-43 | the candidates are the local application first, then the service |
| CompilerFactory.GetInstance | Classes/JsWatch/Compiler/CompilerFactory.php:48-53 | the stored factory is returned when there is one, a new one otherwise, and the slot holds what was returned |
| CompilerFactory.InstanceIsShared | Classes/JsWatch/Compiler/CompilerFactory.php:48-53 | every later call of `getInstance` returns the first call's factory |
| CompilerFactory.GetNewCompiler | Classes/JsWatch/Compiler/CompilerFactory.php:58-70 | the loop returns the first candidate whose construction does not raise MissingDependencyException; a candidate raising anything else ends the search with that exception; later candidates are never constructed; when every candidate is skipped it raises MissingDependencyException 1355441071; one debug entry per constructed or skipped candidate; each call starts again from the first candidate |
| CompilerFactory.SelectFirst | Classes/JsWatch/Compiler/CompilerFactory.php:59-64 | a candidate that constructs is selected when every candidate before it was skipped |
| CompilerFactory.DefaultOrder | Classes/JsWatch/Compiler/CompilerFactory.php:39-69 | the application is used whenever it constructs; the service only after the application reported a missing dependency; neither gives 1355441071; another exception from the application propagates |
| JavaScriptWatcher.WatchesFileBySuffix | Classes/JsWatch/Watcher/CompileJavaScriptWatcher.php:47-49 | for a path without a final line feed, watched iff it ends in `.js` and not in `.min.js` or `-min.js` |
| JavaScriptWatcher.WatchesFileExamples | Classes/JsWatch/Watcher/CompileJavaScriptWatcher.php:48 | `min.js`, `xmin.js`, `x_min.js` and `.js` are watched, while `x.min.js`, `x-min.js` and `x.JS` are not |
| JavaScriptWatcher.WatchesFileBeforeFinalLineFeed | Classes/JsWatch/Watcher/CompileJavaScriptWatcher.php:48 | `$` also matches before one final line feed: `x.js` plus a line feed is watched, but not with two |
| JavaScriptWatcher.TargetNotWatched | Classes/JsWatch/Watcher/CompileJavaScriptWatcher.php:48 | no feedback loop: the default target of any path is never watched |
| JavaScriptWatcher.MinJsNotWatched | Classes/JsWatch/Watcher/CompileJavaScriptWatcher.php:48 | any name ending in `.min.js` is left alone |
| JavaScriptWatcher.NewWatcher | Classes/JsWatch/Watcher/CompileJavaScriptWatcher.php:38-41 | the watcher keeps the compiler selected at construction, and a failed selection propagates |
| JavaScriptWatcher.CheckFile | Classes/JsWatch/Watcher/CompileJavaScriptWatcher.php:57-61 | up to date iff the target's modification time is strictly greater than the source's; a file whose time cannot be read raises RuntimeException, the target's first |
| JavaScriptWatcher.EqualTimesNotUpToDate | Classes/JsWatch/Watcher/CompileJavaScriptWatcher.php:60 | equal modification times mean not up to date |
| JavaScriptWatcher.ProcessFile | Classes/JsWatch/Watcher/CompileJavaScriptWatcher.php:68-76 | logs the detection, compiles with the watcher's own compiler and logs the report; a CommandExecutionException is logged as critical and swallowed, while any other exception propagates after the detection entry |
| JavaScriptWatcher.ProcessNeverRaisesCommandExecution | Classes/JsWatch/Watcher/CompileJavaScriptWatcher.php:73-75 | a CommandExecutionException never escapes `processFile` |
| JavaScriptWatcher.AsWatcher | Classes/JsWatch/Watcher/CompileJavaScriptWatcher.php:47-76 | the watcher as the monitor sees it answers with `watchesFile`, `checkFile` and `processFile`, all with the same compiler |
| JavaScriptWatcher.TargetNeverCompiled | Classes/JsWatch/FileSystemMonitor.php:96-103 | whatever else is registered and whether or not processing is forced, the monitor never has this watcher check or process a file it writes as default target |
| Inotify.NewChangeSource | Classes/JsWatch/Inotify.php:55-70 | an empty `which` answer (also `"0"`) raises MissingDependencyException 1353535595 before the path is checked; a missing path raises InvalidPathException 1353536088; otherwise the source starts stopped |
| Inotify.Start | Classes/JsWatch/Inotify.php:86-100 | a running source raises ProcessAlreadyRunningException and stays as it is; a failed spawn raises CommandExecutionException 1353536690 and stays stopped; otherwise it is running |
| Inotify.Stop | Classes/JsWatch/Inotify.php:107-117 | the source is stopped afterwards, and a stopped source is left as it is |
| Inotify.StopThenStart | Classes/JsWatch/Inotify.php:86-117 | stopping is idempotent, a stopped source can be started again, and a second start raises |
| Inotify.Command | Classes/JsWatch/Inotify.php:133-136 | the command is the executable, the fixed arguments, and the monitored path as one shell word that the shell reads back as the path's characters `escapeshellarg` keeps |
| Inotify.CommandAsciiPath | Classes/JsWatch/Inotify.php:133-136 | a path of bytes below 128 is read back by the shell as exactly the path |
| Inotify.GetChangedFile | Classes/JsWatch/Inotify.php:124-126 | the result is always a string: the end of output gives `""`, and a line gives exactly its `trim` (the middle part, every trimmable character at either end removed) |
| Inotify.ChangedFileDropsLineFeed | Classes/JsWatch/Inotify.php:125 | a reported path comes back without the line feed `inotifywait` ends it with |
| FileSystemMonitor.NewMonitor | Classes/JsWatch/FileSystemMonitor.php:48-56 | a missing path raises InvalidPathException 1353534222 before the change source is built; otherwise the change source's failure propagates, or the monitor starts with no watchers and a stopped source |
| FileSystemMonitor.AddWatcher | Classes/JsWatch/FileSystemMonitor.php:63-65 | the watcher is appended at the end with no deduplication, and nothing else changes |
| FileSystemMonitor.CallsWithin | Classes/JsWatch/FileSystemMonitor.php:96-103 | every call made for a path concerns that path and a registered watcher |
| FileSystemMonitor.UnwatchedNotCalled | Classes/JsWatch/FileSystemMonitor.php:99 | a watcher that does not watch the path is neither checked nor asked to process it, and with forcing no watcher is checked |
| FileSystemMonitor.DispatchRule | Classes/JsWatch/FileSystemMonitor.php:96-103 | when no watcher raises, watcher j processes the path iff it watches it and processing is forced or it is not up to date; it is checked iff it watches the path and processing is not forced |
| FileSystemMonitor.CallsInOrder | Classes/JsWatch/FileSystemMonitor.php:98-101 | watchers are called in registration order, and a watcher is checked before it processes |
| FileSystemMonitor.DispatchFiles | Classes/JsWatch/FileSystemMonitor.php:83-88 | a walk in which nobody raises processes exactly the (watcher, path) pairs of the dispatch rule |
| FileSystemMonitor.ChangedFiles | Classes/JsWatch/FileSystemMonitor.php:75 | the live loop receives one path per output line of the change source, trimmed |
| FileSystemMonitor.LoopNeverEnds | Classes/JsWatch/FileSystemMonitor.php:75 | the end of output arrives as `""`, so the `!== FALSE` guard never stops the loop |
| FileSystemMonitor.Run | Classes/JsWatch/FileSystemMonitor.php:70-78 | the change source is started first and a start failure ends the run; then the complete walk runs without forcing; then every reported path is dispatched with forcing |
| FileSystemMonitor.ForcedReprocessesUpToDate | Classes/JsWatch/FileSystemMonitor.php:73-77 | an up-to-date file is left alone by the walk but processed again when the change source reports it |
| Autoload.TrimBackslashes | Classes/JsWatch/Bootstrap.php:55 | `ltrim` removes exactly the leading backslashes |
| Autoload.ClassFileShape | Classes/JsWatch/Bootstrap.php:56-62 | every class file lies below `dir/../` and ends in `.php` |
| Autoload.AutoLoad | Classes/JsWatch/Bootstrap.php:64-69 | the loader returns true iff the computed file exists |
| Autoload.LeadingBackslashIgnored | Classes/JsWatch/Bootstrap.php:55 | a leading backslash makes no difference |
| Autoload.ClassFileParts | Classes/JsWatch/Bootstrap.php:55-62 | the file is the root, the relative path of the trimmed name, and `.php` |
| Autoload.NamespacedPath | Classes/JsWatch/Bootstrap.php:57-62 | the namespace before the last `\` becomes directories, and `_` in the class's own name becomes `/` |
| Autoload.NamespaceDirectories | Classes/JsWatch/Bootstrap.php:60 | `a\b` as a namespace becomes the directories `a/b` |
| Autoload.NamespaceKept | Classes/JsWatch/Bootstrap.php:57-62 | underscores in the namespace are kept |
| Autoload.NestedClassFile | Classes/JsWatch/Bootstrap.php:56-62 | a two-level namespace becomes two directories: `A\B\C` maps to `<dir>/../A/B/C.php` (so `JsWatch\Watcher\CompileJavaScriptWatcher` maps to `<dir>/../JsWatch/Watcher/CompileJavaScriptWatcher.php`) |
| Autoload.UnderscoreCollision | Classes/JsWatch/Bootstrap.php:60-62 | `A\B_C` and `A\B\C` map to the same file |
| Autoload.RelativePathRoundTrip | Classes/JsWatch/Bootstrap.php:57-62 | names without `_` or `/` are recovered from their path by turning separators back into backslashes |
| Autoload.RelativePathInjective | Classes/JsWatch/Bootstrap.php:57-62 | two such names never share a path |
| Strings.Spaces | Classes/JsWatch/Compiler/Message.php:119 | `str_repeat(' ', n)` is n blanks |
| Strings.ReplaceChar | Classes/JsWatch/Bootstrap.php:60 | `str_replace` for one character replaces exactly its occurrences, position by position |
| Strings.IndexOf | Classes/JsWatch/Compiler/Message.php:118 | `strpos` finds the first occurrence, or reports that there is none |
| Strings.LastIndexOf | Classes/JsWatch/Bootstrap.php:57 | `strrpos` finds the last occurrence, or reports that there is none |
| Strings.Trim | Classes/JsWatch/Inotify.php:125 | `trim` returns the middle part of the input: only trimmable characters precede and follow it, and it neither starts nor ends with one |
| Strings.TrimOfUnique | Classes/JsWatch/Inotify.php:125 | at most one string is the trim of a given input |
| Strings.TrimCharacterised | Classes/JsWatch/Inotify.php:125 | a string is the trim of the input exactly when `trim` returns it |
| Strings.TrimLeft | Classes/JsWatch/Inotify.php:125 | the left trim removes exactly a leading run of trimmable characters |
| Strings.TrimRight | Classes/JsWatch/Inotify.php:125 | the right trim removes exactly a trailing run of trimmable characters |
| Strings.NatToString | Classes/JsWatch/Compiler/Message.php:107 | the decimal rendering is digits with no leading zero |
| Strings.NatToStringValue | Classes/JsWatch/Compiler/Message.php:107 | the decimal digits read back, left to right, as the number itself |
| Strings.IntToString | Classes/JsWatch/Compiler/GoogleClosureCompilerService.php:101 | the rendering is non-empty and starts with `-` exactly for negative numbers |
| Strings.IntToStringValue | Classes/JsWatch/Compiler/GoogleClosureCompilerService.php:101 | after the optional `-`, the rendering is digits that read back as the magnitude of the number |
| Strings.SplitJoin | Classes/JsWatch/Compiler/Message.php:107-109 | splitting undoes joining when no part contains the separator |
| Strings.SplitCons | Classes/JsWatch/Compiler/Message.php:107-109 | a separator-free first piece is split off on its own |
| Strings.IndexOfAfter | Classes/JsWatch/Compiler/Message.php:118 | searching past a prefix that lacks the character shifts the position by the prefix's length |
| Strings.IndexOfUnique | Classes/JsWatch/Compiler/Message.php:118 | the first occurrence is the only position holding the character with none before it |

## Left out

- Process and file I/O are inputs, not modelled. This covers `exec`, `proc_open`, `fgets`, `file_exists`, `isFile`, `getMTime`, `file_get_contents`, `file_put_contents`, curl and `json_decode`. Their answers become parameters: exit code, output lines, existence, modification times, target contents, the transport outcome and the decoded response.
- `Classes/JsWatch/Logger.php` is not part of this model. Its console output, timestamps, colours and singleton are left out. Log entries are returned as (level, text) data in the order they would be written.
- `js-watch.php` and `build.php` are not part of this model: they are the CLI entry point and the Phar packaging.
- The order in which `RecursiveDirectoryIterator` visits leaves, including its `.` and `..` entries, is a parameter of `FileSystemMonitor.Run`.
- Signal handling is left out. This covers `registerSignalHandlers` (Classes/JsWatch/Bootstrap.php:72-75), `Bootstrap::run`/`shutdown`, destructors and `register_shutdown_function`. They only stop the process.
- AbstractGoogleClosureCompiler, CompilerInterface, the Error and Warning subclasses and the exception classes are not part of this model. Whether a backend's constructor succeeds, raises MissingDependencyException or raises something else is a parameter of the factory. The type labels of Error and Warning are taken to be `Error` and `Warning`.
- The `Content-type` header array and the other curl options are left out. Only the POST body is modelled.
- A failing `file_get_contents` (PHP `false`) is not modelled: the target's and the source's contents are given as strings.
- The live loop runs over a given finite list of output lines (`None` for end of output). Because the loop never ends as written, its termination is not a property of the model.
- `proc_open`'s process handle and pipe are reduced to a `running` flag. `stop` closing the pipe and terminating the process is not modelled beyond that flag.
- `escapeshellarg` is modelled as POSIX single-quoting. `Shell.EscapeShellArgRoundTrip` reads the word back with a shell reader that treats quotes and backslashes only; blanks and other metacharacters inside quotes are literal there, as in a real shell.
- Shell.EscapeShellArgRoundTrip: `escapeshellarg` skips every byte `mblen` rejects in the current `LC_CTYPE` locale. The model fixes the C locale, where every byte of 128 or more is skipped; under a multi-byte locale such as UTF-8, valid multi-byte characters would be kept and only invalid bytes skipped, which is not modelled. A NUL byte gets no special treatment here.
- ResultLogger.StatusEntry: states only the entry's level, not its exact text. A successful result without a target would be a fatal error in PHP (`getTargetFile()->getPathname()` on null, Classes/JsWatch/Compiler/CompilationResultLogger.php:30); that error is not modelled, and both backends always record a target.
- Compilers.TargetInjective: stated for `.js` sources given as directory, `/` and a file name longer than `.js`, not for every string. Paths without a directory part all land in `/`, and `dir/.js` and `dir/.js.js` share the target `dir/.js.min.js` (`Compilers.TargetCollision`).
- ClosureApplication.RecordLinesRead: stated for `Printable` diagnostics only: the text is non-empty, the source line holds no line feed, and neither ends in white space. `exec` cuts the printed text at line feeds and strips trailing white space from every line (Classes/JsWatch/Compiler/GoogleClosureCompilerApplication.php:45), so other diagnostics would not be read back unchanged. Elsewhere the output lines are taken as `exec` returns them.
- ClosureApplication.PrintedRoundTrip: stated for `Printable` diagnostics only, for the reason given for `ClosureApplication.RecordLinesRead`.
- ClosureApplication.OutputRoundTrip: stated for `Printable` diagnostics only; for them `ClosureApplication.ExecKeepsOutput` shows that `exec` returns the printed lines unchanged.
- ClosureApplication.ParseResponseOfOutput: stated for `Printable` diagnostics only, read from the lines as `exec` returns them.
- Characters stand for PHP bytes. `strlen`, `substr` and the offsets in `Messages.SubstrPrefix`, `Messages.GetCharacterNumber` and the caret-line length `ClosureApplication.RecordMessage` reads as the offset (`strlen` of line i+2) agree with PHP only when each character is one byte; multi-byte UTF-8 text is counted character by character here, where PHP counts its bytes.
- Compilers.TargetReplacesSuffix: stated for a source given as directory, `/` and a file name without `/`; a path without any `/` is covered separately by `Compilers.TargetWithoutDirectory`.
- Autoload.RelativePathInjective: stated for names without `_` and `/`. Names with `_` in the class's own segment do collide, as `Autoload.UnderscoreCollision` shows.
- Messages.CharacterNumberMonotone: stated for non-negative raw offsets only; a negative offset counts from the end of the line, as `Messages.SubstrPrefix` states.
- The PHP integer width is not modelled: line numbers, offsets, modification times and exit codes are unbounded integers, and nothing in the core does arithmetic near the 64-bit limit.
