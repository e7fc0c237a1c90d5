# EmailClient core logic in Dafny

This project models the parts of the EmailClient console application that
hold sequential logic of their own, and proves what they do. The rest of the
application is a console shell over IMAP, SMTP and POP3 libraries. The
modelled parts are:

- **The JSON message store** (`JsonEmailStorage`). The store keeps an ordered
  in-memory list of messages. Saving is an upsert by identifier. Deleting
  removes every record with the identifier. After each change the whole list
  is written to the file as a snapshot. A new store loads the file when it is
  created. The store is a class whose `emails` field is a `seq`. The file is
  an object of its own (`JsonFile`), so a second store opened on the same file
  sees what the first one wrote. The outcome of each write is a parameter of
  the operation.
- **The C# message filters** (`EmailFilterService`). These select by subject
  or sender substring, ignoring case, and pass the list through when the
  argument is null, empty or white space. They also select by an inclusive
  date range and by the attachment flag.
- **The Python filters** (`EmailFilter` in `core/email_filter.py`). These are
  case-sensitive list comprehensions over dicts. They raise `KeyError` or
  `TypeError` on malformed e-mails.
- **Attachment aggregation** (`AttachmentService`). The total size is a
  checked 64-bit sum over all attachments. The attachment names are listed
  message by message.
- **Console input editing** (`Program.cs`):
  - the masked password reader, a loop over key presses;
  - the "how many e-mails" rule, `int.TryParse` with a fallback to 10;
  - the multi-line body reader, a loop over lines joined with the newline.

Modules:

- `Wrappers`: `Option`.
- `Sequences`: order-preserving selection (`Where`), subsequence and
  substring.
- `Models`: the message and attachment records.
- `Repositories`: the store.
- `EmailFilterService`: the C# filters.
- `CoreEmailFilter`: the Python filters.
- `AttachmentService`: attachment aggregation.
- `ConsoleInput`: the console helpers.

Modelling choices:

- A `DateTime` is its tick count.
- A C# `long` is an `int` subset type with the 64-bit bounds.
- A C# `null` string argument is `None`.
- A JSON snapshot is the list of records itself.

Error handling follows the code:

- A failed file write is logged and the operation carries on. The model does
  the same: after a failed write the list has changed and the file has not,
  so the two may differ.
- A file that cannot be read or deserialised, or that holds `null`, gives an
  empty list (`Unreadable`, `JsonNull`).
- The store's unit test constructs the store with a file path. The only
  constructor in the code takes none and uses a fixed path. The model's
  constructor takes the file object the path would name.

## Model

| member | source | states |
|---|---|---|
| Sequences.Where | src/EmailClient.Application/Services/EmailFilterService.cs:18-20 | A LINQ `Where(...).ToList()` result holds exactly the input elements that satisfy the predicate and is no longer than the input |
| Sequences.IsSubstringIffOccurs | core/email_filter.py:4 | `k in s` holds exactly when `k` occurs at some position of `s` |
| Repositories.RemoveId | src/EmailClient.Infrastructure/Repositories/JsonEmailStorage.cs:78 | `RemoveAll` by identifier keeps exactly the records with another identifier and never lengthens the list |
| Repositories.Upsert | src/EmailClient.Infrastructure/Repositories/JsonEmailStorage.cs:65-66 | After a save the saved record is last, and the list holds exactly it and the old records with another identifier |
| Repositories.RemoveIdSpec | src/EmailClient.Infrastructure/Repositories/JsonEmailStorage.cs:78 | `RemoveAll` by identifier keeps the other records in order (a subsequence), each as often as before; no record with the identifier is left; the length drops by the number of matching records |
| Repositories.RemoveAbsentId | src/EmailClient.Infrastructure/Repositories/JsonEmailStorage.cs:78 | Deleting an identifier no record has leaves the list unchanged |
| Repositories.RemoveIdIdempotent | src/EmailClient.Infrastructure/Repositories/JsonEmailStorage.cs:78 | Deleting the same identifier twice gives the same list as deleting it once |
| Repositories.RemoveIdKeepsUnique | src/EmailClient.Infrastructure/Repositories/JsonEmailStorage.cs:78 | Deleting keeps identifiers pairwise distinct |
| Repositories.UpsertSpec | src/EmailClient.Infrastructure/Repositories/JsonEmailStorage.cs:65-66 | After a save exactly one record has the saved identifier, and it is the saved record at the end; the records before it are the old ones without that identifier, in order, each as often as before; the new length is the old length minus the replaced records plus one |
| Repositories.UpsertKeepsUnique | src/EmailClient.Infrastructure/Repositories/JsonEmailStorage.cs:65-66 | A save keeps identifiers pairwise distinct |
| Repositories.UpsertSameIdReplaces | src/EmailClient.Infrastructure/Repositories/JsonEmailStorage.cs:65-66 | Saving a record right after one with the same identifier gives the list that saving only the second would give |
| Repositories.UpsertIdempotent | src/EmailClient.Infrastructure/Repositories/JsonEmailStorage.cs:65-66 | Saving the same record twice gives the same list as saving it once |
| Repositories.JsonEmailStorage.constructor | src/EmailClient.Infrastructure/Repositories/JsonEmailStorage.cs:17-24 | A new store starts empty and holds the file's records; a missing, unreadable or `null` file yields an empty list |
| Repositories.JsonEmailStorage.LoadFromFile | src/EmailClient.Infrastructure/Repositories/JsonEmailStorage.cs:26-45 | The file's records are appended to the list; a missing, unreadable or `null` file adds nothing and raises nothing |
| Repositories.JsonEmailStorage.SaveToFile | src/EmailClient.Infrastructure/Repositories/JsonEmailStorage.cs:47-61 | A successful write leaves the file holding exactly the list; a failed write is swallowed and leaves the file unchanged |
| Repositories.JsonEmailStorage.Save | src/EmailClient.Infrastructure/Repositories/JsonEmailStorage.cs:63-69 | The list becomes the upsert of the old list with the record; the file then matches the list if the write succeeded and is unchanged otherwise; distinct identifiers stay distinct |
| Repositories.JsonEmailStorage.LoadAll | src/EmailClient.Infrastructure/Repositories/JsonEmailStorage.cs:71-74 | Returns the current list and changes nothing |
| Repositories.JsonEmailStorage.Delete | src/EmailClient.Infrastructure/Repositories/JsonEmailStorage.cs:76-81 | The list loses every record with the identifier; the file then matches the list if the write succeeded and is unchanged otherwise; distinct identifiers stay distinct |
| Repositories.SaveThenReopen | tests/EmailClient.Tests/Infrastructure/JsonEmailStorageTests.cs:22-41 | A record saved through one store is the last record, and the only one with its identifier, in a new store on the same file; starting from no file, the new store holds exactly that record |
| EmailFilterService.IsNullOrWhiteSpace | src/EmailClient.Application/Services/EmailFilterService.cs:15 | Null and the empty string are blank; a string is not blank exactly when it holds a character that is not white space |
| EmailFilterService.ContainsIgnoreCase | src/EmailClient.Application/Services/EmailFilterService.cs:19 | The empty value is contained in every string, and a contained value is never longer than the string |
| EmailFilterService.ContainsIgnoreCaseIff | src/EmailClient.Application/Services/EmailFilterService.cs:19 | Ordinal case-insensitive `Contains` holds exactly when the value matches the text character by character, under upper-case folding, at some position |
| EmailFilterService.FilterBySubject | src/EmailClient.Application/Services/EmailFilterService.cs:13-21 | A null, empty or white-space keyword returns the input itself; otherwise the result is exactly the messages whose subject contains the keyword ignoring case, each as often as in the input, in input order, no longer than the input |
| EmailFilterService.FilterBySender | src/EmailClient.Application/Services/EmailFilterService.cs:26-34 | The same as the subject filter, on the sender address |
| EmailFilterService.FilterByDate | src/EmailClient.Application/Services/EmailFilterService.cs:39-44 | Exactly the messages dated from the start to the end of the range, both included, each as often as in the input, in input order |
| EmailFilterService.FilterByAttachments | src/EmailClient.Application/Services/EmailFilterService.cs:49-54 | Exactly the messages whose attachment flag equals the argument (`true` when omitted), each as often as in the input, in input order, no longer than the input |
| EmailFilterService.FilterBySubjectIdempotent | src/EmailClient.Application/Services/EmailFilterService.cs:13-21 | Filtering the result again by the same keyword changes nothing |
| EmailFilterService.FilterBySenderIdempotent | src/EmailClient.Application/Services/EmailFilterService.cs:26-34 | Filtering the result again by the same sender changes nothing |
| EmailFilterService.FilterByDateIdempotent | src/EmailClient.Application/Services/EmailFilterService.cs:39-44 | Filtering the result again by the same range changes nothing |
| EmailFilterService.FilterByAttachmentsIdempotent | src/EmailClient.Application/Services/EmailFilterService.cs:49-54 | Filtering the result again by the same flag changes nothing |
| EmailFilterService.FilterByDateEmptyRange | src/EmailClient.Application/Services/EmailFilterService.cs:41-43 | A range whose start is after its end selects nothing |
| EmailFilterService.FilterByAttachmentsPartition | src/EmailClient.Application/Services/EmailFilterService.cs:51-53 | The results for `true` and `false` together hold every message exactly as often as the input |
| EmailFilterService.ScenarioMatches | tests/EmailClient.Tests/Services/EmailFilterServiceTests.cs:24-28 | "Practice" and "practice" are non-blank and occur, ignoring case, in "Optima Practice" and "Practice Report" |
| EmailFilterService.ScenarioMismatch | tests/EmailClient.Tests/Services/EmailFilterServiceTests.cs:25-28 | "Practice" and "practice" do not occur, ignoring case, in "Discount" |
| EmailFilterService.FilterBySubjectScenario | tests/EmailClient.Tests/Services/EmailFilterServiceTests.cs:19-37 | Of the three test messages, the keyword selects the first and the third, in that order |
| EmailFilterService.FilterBySubjectIgnoresCase | tests/EmailClient.Tests/Services/EmailFilterServiceTests.cs:56-69 | The keyword "optima" selects the message with subject "OPTIMA" |
| CoreEmailFilter.Select | core/email_filter.py:2-8 | The comprehension succeeds exactly when every e-mail holds a str under the key; otherwise it raises the error of the first e-mail that does not; on success the result is exactly the e-mails whose value contains the argument, case-sensitively, each as often as in the input, as an order-preserving subsequence no longer than the input |
| CoreEmailFilter.FirstBad | core/email_filter.py:4 | Finds the first e-mail for which evaluating the condition would raise: none exactly when every e-mail holds a str under the key, otherwise the least such index |
| CoreEmailFilter.FilterBySender | core/email_filter.py:2-4 | `filter_by_sender` succeeds exactly when every e-mail has a str under "from"; then it keeps exactly the e-mails whose sender contains the argument, case-sensitively, each as often as in the input and in input order |
| CoreEmailFilter.FilterBySubject | core/email_filter.py:6-8 | `filter_by_subject`: the same on "subject" |
| CoreEmailFilter.SelectIdempotent | core/email_filter.py:2-8 | Filtering a successful result again with the same argument gives it back |
| CoreEmailFilter.SelectEmptyKeepsAll | core/email_filter.py:2-8 | An empty argument keeps every e-mail |
| CoreEmailFilter.FilterBySenderIdempotent | core/email_filter.py:2-4 | `filter_by_sender` applied twice with the same sender gives the same result as once |
| CoreEmailFilter.FilterBySubjectIdempotent | core/email_filter.py:6-8 | `filter_by_subject` applied twice with the same keyword gives the same result as once |
| CoreEmailFilter.FilterBySenderEmptyKeepsAll | core/email_filter.py:2-4 | `filter_by_sender` with an empty sender keeps every e-mail |
| CoreEmailFilter.FilterBySubjectEmptyKeepsAll | core/email_filter.py:6-8 | `filter_by_subject` with an empty keyword keeps every e-mail |
| CoreEmailFilter.FilterBySenderSpaceIsLiteral | core/email_filter.py:4 | A white-space sender is matched literally: a single space drops the sender "a" instead of passing the list through |
| CoreEmailFilter.FilterBySenderMissingKey | core/email_filter.py:4 | The first e-mail without a "from" entry makes the filter raise `KeyError("from")` |
| AttachmentService.CheckedSum | src/EmailClient.Application/Services/AttachmentService.cs:29 | The checked `long` sum succeeds exactly when no partial sum leaves the `long` range, and then equals the exact sum |
| AttachmentService.GetTotalAttachmentSize | src/EmailClient.Application/Services/AttachmentService.cs:25-30 | When it does not throw, the total equals the per-message sum of every attachment size; it throws exactly when a partial sum overflows |
| AttachmentService.TotalSizeFlattens | src/EmailClient.Application/Services/AttachmentService.cs:27-29 | Summing the flattened attachment list equals adding up the per-message sums |
| AttachmentService.AllAttachmentsAppend | src/EmailClient.Application/Services/AttachmentService.cs:28 | Flattening distributes over concatenation of message lists |
| AttachmentService.TotalSizeAppend | src/EmailClient.Application/Services/AttachmentService.cs:27-29 | The total of `a + b` is the total of `a` plus the total of `b` |
| AttachmentService.AllAttachments | src/EmailClient.Application/Services/AttachmentService.cs:28 | `SelectMany` gives one entry per attachment of every message, and exactly the attachments of the messages; order and multiplicity are fixed by `AllAttachmentsSingle` and `AllAttachmentsAppend` |
| AttachmentService.AllAttachmentsSingle | src/EmailClient.Application/Services/AttachmentService.cs:28 | One message contributes exactly its own attachment list, in order; with `AllAttachmentsAppend` this makes the flattening message by message, then attachment by attachment |
| AttachmentService.ExtractAttachmentNames | src/EmailClient.Application/Services/AttachmentService.cs:35-41 | One name per attachment of every message; the name at each position is the file name of the flattened attachment at that position |
| AttachmentService.TotalSizeOfNoAttachments | src/EmailClient.Application/Services/AttachmentService.cs:25-30 | The total is 0 for an empty list and for messages without attachments |
| AttachmentService.NonNegativeOverflow | src/EmailClient.Application/Services/AttachmentService.cs:25-30 | With sizes that are never negative, the sum throws exactly when the total exceeds the largest `long` |
| AttachmentService.ExtractAttachmentNamesAppend | src/EmailClient.Application/Services/AttachmentService.cs:35-41 | The names of `a + b` are the names of `a` followed by the names of `b` |
| AttachmentService.ExtractAttachmentNamesSpec | src/EmailClient.Application/Services/AttachmentService.cs:35-41 | One name per attachment; the first message's attachment names come first, in attachment order, then those of the rest |
| ConsoleInput.ReadPassword | src/EmailClient.Console/Program.cs:303-327 | The loop reads keys up to and including the first Enter, and returns the password the editing rules give for those keys |
| ConsoleInput.TypedSnoc | src/EmailClient.Console/Program.cs:312-323 | One more key before Enter applies one editing step, and Enter changes nothing |
| ConsoleInput.PasswordEditing | src/EmailClient.Console/Program.cs:312-319 | A character key appends its character; Backspace removes exactly the last character of a non-empty password and leaves an empty one empty; Enter adds nothing |
| ConsoleInput.TypedStopsAtEnter | src/EmailClient.Console/Program.cs:308-323 | Keys after the first Enter do not affect the password |
| ConsoleInput.Step | src/EmailClient.Console/Program.cs:312-321 | A character key appends exactly its character; Backspace leaves a prefix one character shorter, or the empty password as it is; Enter changes nothing |
| ConsoleInput.Typed | src/EmailClient.Console/Program.cs:308-323 | The password typed by a key sequence is never longer than the starting password plus the number of keys |
| ConsoleInput.TryParseInt32 | src/EmailClient.Console/Program.cs:158 | A successful parse gives a value in the 32-bit range |
| ConsoleInput.TryParseInt32Accepts | src/EmailClient.Console/Program.cs:158 | White space, an optional `+` or `-`, digits (leading zeros allowed), white space and NULs parse to the signed value of the digits when it fits in 32 bits, and fail otherwise |
| ConsoleInput.TryParseInt32Shape | src/EmailClient.Console/Program.cs:158 | Every input that parses has that form, and its value is the signed value of its digits |
| ConsoleInput.FetchCount | src/EmailClient.Console/Program.cs:158-159 | The count is between 1 and the largest 32-bit value; a positive parsed number is the count; an unparsable or non-positive answer gives 10 |
| ConsoleInput.FetchCountAccepts | src/EmailClient.Console/Program.cs:262-263 | For an answer with white space, a sign, leading zeros or trailing NULs around its digits, the count is the signed value when it is between 1 and the largest 32-bit value, and 10 otherwise |
| ConsoleInput.ParseDecimal | src/EmailClient.Console/Program.cs:158 | Parsing the numeral of a natural number gives the number back when it fits in 32 bits, and fails otherwise |
| ConsoleInput.ParseNegativeDecimal | src/EmailClient.Console/Program.cs:158 | Parsing "-" followed by a numeral gives the negative number down to the smallest 32-bit value, and fails below it |
| ConsoleInput.FetchCountOfDecimal | src/EmailClient.Console/Program.cs:158-159 | Typing a number gives that number when it is between 1 and the largest 32-bit value, and 10 otherwise |
| ConsoleInput.FetchCountOfNegative | src/EmailClient.Console/Program.cs:262-263 | Typing a negative number gives 10 |
| ConsoleInput.BodyLines | src/EmailClient.Console/Program.cs:238-244 | The body lines are a prefix of the input, all non-empty, and followed by an empty line or the end of the input |
| ConsoleInput.Join | src/EmailClient.Console/Program.cs:246 | `string.Join` starts with the first part, followed by the separator when more parts come, ends with the last part, and its length is the parts' total length plus one separator between each two parts |
| ConsoleInput.ReadBody | src/EmailClient.Console/Program.cs:236-246 | The body is the lines before the first empty line or the end of input, joined with the newline; the terminating empty line is consumed but not included |
| ConsoleInput.BodyLinesUnique | src/EmailClient.Console/Program.cs:238-244 | Any prefix of non-empty lines that is followed by an empty line or the end is the body |
| ConsoleInput.SplitJoin | src/EmailClient.Console/Program.cs:246 | Joining non-empty parts that do not contain the separator's first character can be undone by splitting at each occurrence of the whole separator, so every separator is written out in full between the parts |
| ConsoleInput.BodyRoundTrip | src/EmailClient.Console/Program.cs:236-246 | Splitting the body at each whole newline ("\n", or the two characters "\r\n") gives back the lines typed before the first empty one |

## Left out

- JSON text and `System.Text.Json`: a snapshot is the record list itself, and deserialising an array gives back the records written.
- The store's `_lock` and thread safety: the model is sequential. The code also changes the list outside the lock, so no atomicity is claimed.
- A partially written file: a failed write leaves the file as it was. An exception in the middle of `File.WriteAllText` could leave it truncated.
- Path handling: the fixed `emails.json` path next to the executable is replaced by the `JsonFile` object given to the constructor.
- Logging of load and save failures to the console: it has no effect on the store's state.
- Record identity: `EmailMessage` is a mutable class in the code. The store keeps the caller's object, and `LoadAllAsync` returns a shallow copy of the list, so a caller that changes a saved or returned message changes the stored record but not the file. In the model records are values, so no such aliasing exists.
- A `null` element in the JSON array: the code loads it as a null record, after which every save or delete throws `NullReferenceException` in the `RemoveAll` predicate. A `Snapshot` holds only records, so the model cannot express this.
- Null fields in deserialised records: every string field of a record is a value, never null, and so is its attachment list and each attachment in it. A `null` subject or sender makes the C# filters throw `NullReferenceException`. A JSON `"Attachments": null` makes `SelectMany` throw `NullReferenceException` in both `GetTotalAttachmentSize` and `ExtractAttachmentNames`, and a `null` element of the list makes the `a.Size` or `a.FileName` selector throw it. The model captures none of these exceptions.
- EmailFilterService.ContainsIgnoreCase: folds only ASCII letters to upper case, because full Unicode case mapping is a table outside the code.
- `DateTime` kinds and time zones: a date is its tick count, and comparisons compare ticks only, as `DateTime` does.
- `AttachmentService.SaveAttachmentToFile`: directory and file I/O.
- ConsoleInput.TryParseInt32: uses the invariant-culture signs `+` and `-` and ASCII digits only. Culture-specific signs are not modelled, and neither are the parenthesis, thousands and hexadecimal styles, which `NumberStyles.Integer` rejects anyway.
- ConsoleInput.ReadPassword: requires an Enter among the keys. The code blocks until one arrives, so without one it never returns.
- The echo of `*` and `"\b \b"` in `ReadPassword`: console output only.
- `Environment.NewLine`: a parameter of `ReadBody`. The round-trip lemma covers "\n" and "\r\n".
- The Python filters on values other than str, `None` and bool, and on e-mails that are not dicts: `PyValue` holds only those three kinds.
- The menus, the host and dependency-injection setup, and console colour logging: UI and framework wiring.
- `MailKitEmailService` and the Python POP3/SMTP clients: network sessions through foreign libraries.
- `core/email_storage.py`: a single `json.dump` to a file.
