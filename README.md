# Durable JSON Lines fault log of rammewerk/error-handler, in Dafny

This project models the fault log of the PHP library rammewerk/error-handler and proves
properties of the model.

- The log record `LogEntry` is built from a throwable and its chain of previous throwables (`fromThrowable`). It can also be rebuilt from decoded data (`fromData`).
- `JsonLineLogger` appends one JSON line per record. When the file is over its byte limit, it then drops the oldest line.
- `JsonLineReader` lists the lines newest first, decodes them, and deletes one line by position or the whole file.
- `ErrorHandler` keeps the log and report callback lists and dispatches a throwable to them. It also turns PHP errors into `ErrorException`, checks for fatal errors at shutdown, and has an older single-line JSON Lines writer.

How the model is built:

- The log file is its text, `Option<string>`, where `None` means the file does not exist. PHP's `file()` is the function `TextLines.Lines`. The library's writes are `Join` (each line followed by `PHP_EOL`) and `Implode` (`implode(PHP_EOL, ...)`). Lemmas prove that splitting and joining undo each other.
- The directory is two flags, "exists" and "is writable". A write succeeds exactly when the directory exists and is writable.
- The JSON codec is a parameter: encoding and decoding each succeed or fail. Where a round trip is stated, the lemma asks only about the one value it concerns: that its encoding is one non-empty line with no line break (section 7 of RFC 8259 escapes control characters) and that this line decodes back to the value. No codec-wide round trip is assumed; PHP's decoding cannot give one, since `{}` and `[]` both decode to an empty array.
- The record's `previous` cause is a value nested inside its entry, so a cause chain is finite, acyclic and never shared, by construction.
- Callbacks are numbers. Calling one is recorded as an `Invocation`.
- The clock (`date()`), the request (`$_SERVER['REQUEST_URI']`), the result of `mkdir`, `error_reporting()` and `error_get_last()` are parameters.

Modules, one per source file or concern:

- `Wrappers`: `Option`.
- `Json`: decoded values, PHP's `empty()`, the codec.
- `Sequences`: `array_reverse`, `unset`.
- `TextLines`: file text and lines.
- `LogEntries`: `LogEntry.php`.
- `FileSystem`: the directory and the file.
- `JsonLineLogger`: `JsonLineLogger.php`.
- `JsonLineReader`: `JsonLineReader.php`.
- `ErrorHandling`: `src/ErrorHandler.php`.

Behaviour of the code worth knowing:

- `deleteAll` calls `unlink` even when there is no file. `unlink` then raises an E_WARNING and returns false; the method itself returns nothing. `JsonLineReader.DeleteAll` answers `ok == false` in exactly those cases.
- The reader's only listings are `get` and `getEncoded`.
- `$maxBytes` is documented as the "maximum size of the log file in bytes" (src/Logger/JsonLineLogger.php:23), but the size rule drops one line per append and no more. The file can therefore stay over its limit while it holds several lines (`JsonLineLogger.SingleEvictionCanStayOverLimit`).
- `LogEntry::$code` is declared `int` (src/Logger/Entity/LogEntry.php:14), while `getCode()` may return a string: a PDOException carries its SQLSTATE, such as `"HY000"`. Assigning a non-integer string throws a TypeError inside the logger's `try` block, so the exception is not logged; the failure is swallowed, or dumped in debug mode (`JsonLineLogger.SqlStateChainIsNotLogged`).

## Model

| member | source | states |
|---|---|---|
| `Sequences.Reverse` | src/Logger/JsonLineReader.php:22 | `array_reverse`: element i of the result is element n-1-i of the input, and the result is a permutation of the input |
| `Sequences.ReverseReverse` | src/Logger/JsonLineReader.php:44 | reversing twice gives the original order back, which is why `deleteLine` writes oldest-first again |
| `Sequences.RemoveAt` | src/Logger/JsonLineReader.php:43 | `unset` then re-indexing: one element fewer; elements before i keep their place and later ones move down by one |
| `TextLines.Lines` | src/Logger/JsonLineLogger.php:66 | `file(..., FILE_IGNORE_NEW_LINES)` yields lines without line terminators |
| `TextLines.NonEmptyLines` | src/Logger/JsonLineReader.php:21 | `FILE_SKIP_EMPTY_LINES`: only non-empty lines, all taken from the input, and a list with no empty line is unchanged |
| `TextLines.LinesOfJoin` | src/Logger/JsonLineReader.php:45 | splitting text written as terminated lines gives exactly those lines back |
| `TextLines.JoinOfLines` | src/Logger/JsonLineLogger.php:66-69 | a terminated text is exactly its lines, each written back with a terminator |
| `TextLines.ImplodeThenEol` | src/Logger/JsonLineLogger.php:69 | for a non-empty list, `implode(PHP_EOL, $lines) . PHP_EOL` terminates every line |
| `TextLines.LinesAppend` | src/Logger/JsonLineLogger.php:37 | appending `$line . PHP_EOL` to a terminated file adds exactly one last line and leaves every earlier line as it was |
| `TextLines.LinesOfRewrite` | src/Logger/JsonLineLogger.php:69 | a rewritten file reads back as the lines written, and ends in a terminator |
| `LogEntries.CodeValue` | src/Logger/Entity/LogEntry.php:28 | assigning a code to `public int $code`: an int is kept; a string is accepted exactly when it is an integer string, and otherwise the assignment throws a TypeError |
| `LogEntries.DecimalCodeConverts` | src/Logger/Entity/LogEntry.php:28 | every integer written as a decimal string with its sign is accepted as that integer |
| `LogEntries.SqlStateIsRejected` | src/Logger/Entity/LogEntry.php:28 | the SQLSTATE `"HY000"` is rejected by the `int` property |
| `LogEntries.FromThrowable` | src/Logger/Entity/LogEntry.php:21-35 | an entry is built exactly when every code in the `getPrevious()` chain is accepted by the `int` property, and then the entry chain is exactly as long as the throwable chain |
| `LogEntries.FromThrowableAtEachLevel` | src/Logger/Entity/LogEntry.php:22-33 | at every depth the entry copies class, message, file, line, the converted code and the trace from the throwable at that depth; it takes the current date, and `REQUEST_URI` or `''` when that is unset |
| `LogEntries.RejectedAtAnyDepth` | src/Logger/Entity/LogEntry.php:28-33 | one rejected code at any depth of the chain means no entry is built |
| `LogEntries.FillFrom` | src/Logger/Entity/LogEntry.php:40-48 | each property takes its key's value when that value is set and not null; otherwise it takes the default (`''`, `0` or `[]`); the trace may be any array, list or object |
| `LogEntries.FromData` | src/Logger/Entity/LogEntry.php:39-53 | absent or null keys take their defaults and set keys are copied; `previous` is null exactly when the key is absent or `empty()`, and otherwise it is rebuilt recursively |
| `LogEntries.ToData` | src/Logger/Entity/LogEntry.php:9-17 | the serialised entry is an object whose keys are exactly the nine public properties |
| `LogEntries.FromDataToData` | src/Logger/Entity/LogEntry.php:9-17 | an entry's public properties, serialised to data and passed to `fromData`, give back an equal entry, cause chain included |
| `FileSystem.LogFile.MakeDirectory` | src/Logger/JsonLineLogger.php:54 | afterwards the directory exists when it already existed or `mkdir` brought it about |
| `FileSystem.LogFile.AppendContents` | src/Logger/JsonLineLogger.php:37 | `FILE_APPEND`: the file becomes its old text followed by the string (created when missing), or is untouched when the write fails |
| `FileSystem.LogFile.PutContents` | src/Logger/JsonLineLogger.php:69 | the file's text is replaced by the string, or is untouched when the write fails |
| `FileSystem.LogFile.Unlink` | src/Logger/JsonLineReader.php:14 | the file is removed; removing a missing file fails and changes nothing |
| `JsonLineLogger.CreateLogDirectory` | src/Logger/JsonLineLogger.php:52-60 | a missing directory is created when possible; the result is "not created" when it is still missing and "not writable" when it exists but cannot be written; it is an error exactly when no write is possible |
| `JsonLineLogger.TruncateIfOverLimit` | src/Logger/JsonLineLogger.php:64-71 | the file becomes `Truncated` of its old text |
| `JsonLineLogger.Truncated` | src/Logger/JsonLineLogger.php:64-71 | only a file over the limit is ever rewritten |
| `JsonLineLogger.Log` | src/Logger/JsonLineLogger.php:25-48 | the directory failures, the entry's TypeError and the encoding failure are met in that order and leave the file untouched; they are swallowed, or reported as the process dying when `debug` is set; on success exactly the encoded entry and a terminator are appended, and then the size rule runs |
| `JsonLineLogger.SqlStateChainIsNotLogged` | src/Logger/JsonLineLogger.php:32-40 | a throwable chain holding a code `"HY000"` at any depth never reaches the file, whatever the directory and the codec |
| `JsonLineLogger.TruncationRule` | src/Logger/JsonLineLogger.php:64-71 | a file within the limit is kept; a file over it with two or more lines loses exactly its first line, keeps the rest in order and stays terminated; a single oversized line is kept |
| `JsonLineLogger.LoggedFileIsTerminated` | src/Logger/JsonLineLogger.php:37-69 | after a logged write the file ends in a terminator, whatever it held before |
| `JsonLineLogger.AppendThenTruncate` | src/Logger/JsonLineLogger.php:34-38 | one log call on a terminated file: the new line is the last line, older lines keep their order, and at most the oldest of them is removed |
| `JsonLineLogger.StaysWithinLimit` | src/Logger/JsonLineLogger.php:64-71 | a file within the limit stays within it after appending a line no longer than its oldest line |
| `JsonLineLogger.UniformAppendsStayBounded` | src/Logger/JsonLineLogger.php:64-71 | with equally long records, once the file is within the limit, every further log call keeps it within the limit and terminated |
| `JsonLineLogger.SingleEvictionCanStayOverLimit` | src/Logger/JsonLineLogger.php:65-69 | one eviction per append is all there is: a concrete file stays over its limit with two lines left |
| `JsonLineReader.Get` | src/Logger/JsonLineReader.php:19-23 | a missing file lists nothing; every listed line is non-empty and free of line terminators |
| `JsonLineReader.DecodeOrRaw` | src/Logger/JsonLineReader.php:29-34 | a line that decodes gives its decoding; a line that does not is kept as the raw line |
| `JsonLineReader.DecodeAll` | src/Logger/JsonLineReader.php:29-35 | one element per line, in order; each is the decoding, or the raw line when decoding fails |
| `JsonLineReader.GetEncoded` | src/Logger/JsonLineReader.php:27-36 | as long as `get()`; element i is the decoding of line i, or line i itself when decoding fails |
| `JsonLineReader.DeleteLine` | src/Logger/JsonLineReader.php:40-47 | a position inside the listing causes the remaining lines to be rewritten oldest first; a negative or too-large position writes nothing |
| `JsonLineReader.Rewrite` | src/Logger/JsonLineReader.php:44-45 | the text `deleteLine` writes is non-empty and ends in a terminator |
| `JsonLineReader.DeleteAll` | src/Logger/JsonLineReader.php:13-15 | the file is removed and then lists nothing; where `unlink` raises its warning (no file, or no write access), `ok` is false and nothing changes |
| `JsonLineReader.GetAfterAppend` | src/Logger/JsonLineReader.php:20-22 | a line appended to a terminated file is listed first, ahead of all older lines in their order |
| `JsonLineReader.GetOfJoin` | src/Logger/JsonLineReader.php:21-22 | lines written oldest first are listed newest first: appending A, B, C lists C, B, A |
| `JsonLineReader.GetOfRewrite` | src/Logger/JsonLineReader.php:44-45 | the file `deleteLine` writes lists exactly the listing it was made from |
| `JsonLineReader.GetAfterDeleteLine` | src/Logger/JsonLineReader.php:40-46 | after deleting position i, the listing is the old listing without element i, the rest in order |
| `JsonLineReader.DeleteOnlyLine` | src/Logger/JsonLineReader.php:45 | deleting the only entry leaves a lone terminator, which lists as nothing |
| `JsonLineReader.NewestIsLastLine` | src/Logger/JsonLineReader.php:21-22 | the head of the listing is the file's last line |
| `JsonLineReader.LoggedEntryReadsBack` | src/Logger/JsonLineLogger.php:34-38 | after a successful log call, the newest decoded element is the entry's data, and `fromData` rebuilds the same entry from it, given only that this entry's encoding is one line that decodes back |
| `ErrorHandling.InvokeEach` | src/ErrorHandler.php:40-42 | each callback is called once, in list order, with the throwable |
| `ErrorHandling.Dispatch` | src/ErrorHandler.php:40-46 | log callbacks come first in registration order, then report callbacks in reverse registration order, each called once with the same throwable |
| `ErrorHandling.IsFatal` | src/ErrorHandler.php:85-87 | true exactly for `E_ERROR`, `E_PARSE`, `E_CORE_ERROR` and `E_COMPILE_ERROR` |
| `ErrorHandling.HandleError` | src/ErrorHandler.php:62-65 | returns false exactly when the level or `error_reporting()` is 0; otherwise throws an ErrorException with the message, code 0, severity = level, and the file and line |
| `ErrorHandling.FatalExceptionFromError` | src/ErrorHandler.php:96-98 | the error type becomes the code and the severity is 0; message, file and line are copied |
| `ErrorHandling.ShutdownSwapsCodeAndSeverity` | src/ErrorHandler.php:64-97 | for the same error, the shutdown path and `handleError` swap code and severity |
| `ErrorHandling.SavedRecord` | src/ErrorHandler.php:152-159 | the older writer's record has six keys, all of them entry properties; code, trace and previous are missing |
| `ErrorHandling.SavedRecordReadsBack` | src/ErrorHandler.php:152-159 | a record from the older writer reads back through `fromData` with code 0, an empty trace and no cause |
| `ErrorHandling.SaveExceptionToJsonL` | src/ErrorHandler.php:150-167 | on success, one encoded line with a terminator is appended and the result is the file's line count; if encoding or the write fails, the file is untouched and the result is null |
| `ErrorHandling.SavedLineCount` | src/ErrorHandler.php:161 | on a terminated file, the count returned is the previous number of lines plus one |
| `ErrorHandling.ErrorHandler.constructor` | src/ErrorHandler.php:22-28 | both callback lists start empty |
| `ErrorHandling.ErrorHandler.Log` | src/ErrorHandler.php:107-110 | the callback is added at the end of the log list, or becomes its only element on reset; the report list is unchanged |
| `ErrorHandling.ErrorHandler.Report` | src/ErrorHandler.php:120-123 | the same for the report list; the log list is unchanged |
| `ErrorHandling.ErrorHandler.HandleException` | src/ErrorHandler.php:38-48 | the calls made are exactly `Dispatch` of the two lists |
| `ErrorHandling.ErrorHandler.HandleShutdown` | src/ErrorHandler.php:72-76 | dispatches only when a last error exists and is fatal, and then dispatches the ErrorException built from it; otherwise it makes no call |
| `ErrorHandling.RegistrationScenario` | tests/ErrorHandlerTest.php:37-61 | the log-callback counts the tests check (1, 2, then 1 after a reset) and the ErrorException a reported warning becomes; also the order in which a thrown exception then reaches the callbacks |
| `ErrorHandling.ErrorHandler.RegisterJsonl` | src/ErrorHandler.php:134-140 | when the directory exists or can be created, the JSON Lines writer is registered as the last log callback; otherwise nothing is registered |

## Left out

- Installing the runtime hooks (`error_reporting(E_ALL)`, `ini_set`, `set_error_handler`, `set_exception_handler`, `register_shutdown_function`) is host-runtime glue. `error_reporting()` and `error_get_last()` are parameters instead.
- The bodies of callbacks are not modelled. A callback is an identifier, and the model records which callbacks are called and in what order.
- JSON encoding and decoding internals are not modelled. The codec is a parameter. Floats are not among the decoded values, and trace frames are opaque values.
- LogEntries.FromData: requires each set string field to hold a string, `line` and `code` to hold integers, and `trace` to hold an array (list or object). PHP's coercion of other scalars into these properties, or the `TypeError` it throws for them, is not modelled.
- LogEntries.CodeValue: accepts an optional sign followed by decimal digits. The other numeric strings PHP converts (surrounding whitespace, exponents, integral decimals such as `"1.0"`) are treated as rejected, and integers are unbounded rather than 64-bit.
- LogEntries.FromThrowable: uses one `now` for the whole chain. PHP calls `date()` once per level, so the seconds could change between levels.
- FileSystem.LogFile.AppendContents: a write succeeds exactly when the directory exists and is writable. The file's own permissions, a full disk and other I/O errors are not modelled. Reading the file (`file()`, `filesize()`) never fails.
- TextLines.Lines: only `"\n"` (`PHP_EOL` on Unix-like systems) separates lines. The stripping of a `"\r"` before it by `file()` is not modelled. Encoded lines contain neither character.
- Sizes count one byte per character. Multi-byte encodings are not modelled.
- The `var_dump` and `die` of the debug path are the outcome `Died`.
- Concurrent writers are not modelled, and neither is PHP's stat cache.
- `ErrorHandler.php` at the repository root is not part of this model. It is a superseded copy of `src/ErrorHandler.php`.
