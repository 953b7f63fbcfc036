# OneTimePaste detection core in Dafny

OneTimePaste is a macOS menu-bar utility. It polls the local Messages store,
finds one-time passcodes in recent messages, and copies any new code to the
pasteboard. This project models the core of that pipeline and proves
properties of the model:

- `detector.dfy` (module `Detector`) models `findOTPInText`.
  - The regular expression `\b\d{3,9}\b` is modelled as a left-to-right scan.
  - The scan is proved to report exactly the word-bounded runs of 3 to 9 digits, in order.
  - The keyword scoring is a function, and the leftmost match scoring above 2 is returned.
  - The source's loops are methods proved equal to that function.
- `body.dfy` (module `AttributedBody`) models `parseAttributedBody`.
  - The structured path runs over an already-parsed property-list tree: `NSString`, then `NS.string`, then the strings found depth first.
  - The raw-byte fallback is a loop over the bytes, proved to emit exactly the maximal printable-ASCII runs of 3 or more bytes, in order.
- `scan.dfy` (module `Scan`) models `scanMessagesDatabase`:
  - path selection and its error outcomes;
  - per-row text selection;
  - dropping empty rows;
  - detection;
  - deduplication by code, keeping the first detection;
  - sorting newest first.
- `models.dfy` (module `Models`) holds the `OTPMessage` record and the `OTPError` descriptions.
- `wrappers.dfy` holds `Option` and `Result`.
- `background.dfy` (module `Background`) models the `BackgroundAppManager` class.
  - Its state is `isMonitoring`, the timer and `lastOTPCount`.
  - The pasteboard and the alerts are ghost state.
  - A check treats the leading `found.count - lastOTPCount` records as new.

Abstractions:

- SQLite and the file system are replaced by a map from existing paths to databases. Each database records whether it opens, whether the query prepares, and the rows the query returns.
- The property-list parser's outcome (a tree, or `None` when parsing fails) is an input on each row.
- Each asynchronous scan's outcome is passed to the method that consumes it.

Deduplication:

- Deduplication keeps the first detection in row order (OTPExtractor.swift:105-106). The query orders rows newest first (OTPExtractor.swift:50), so that detection is also the newest one with its code (`Scan.KeptRecordIsNewest`).

## Model

| member | source | states |
|---|---|---|
| Models.ErrorDescription | OneTimePaste/Models.swift:18-25 | every error has a description (never nil): "Messages database not found" for `databaseNotFound`, and "Database error: " followed by the message for `databaseError` |
| Models.ErrorDescriptionInjective | OneTimePaste/Models.swift:20-23 | two errors with the same description are the same error |
| Detector.DigitRun | OneTimePaste/OTPExtractor.swift:182 | the digit run at a position is all digits and ends at a non-digit or at the end of the text |
| Detector.MatchLengthIsRun | OneTimePaste/OTPExtractor.swift:182 | a match of `\b\d{3,9}\b` spans the whole digit run at its start |
| Detector.MatchesFromSound | OneTimePaste/OTPExtractor.swift:182-184 | every span the scan reports is 3 to 9 digits with a word boundary on each side |
| Detector.MatchesFromOrdered | OneTimePaste/OTPExtractor.swift:184-186 | reported spans do not overlap and come left to right |
| Detector.MatchesFromComplete | OneTimePaste/OTPExtractor.swift:182-184 | every match at or after the start position is reported |
| Detector.MatchesExactly | OneTimePaste/OTPExtractor.swift:182-186 | the matches are exactly the word-bounded runs of 3 to 9 digits, in text order |
| Detector.KeywordCountMeaning | OneTimePaste/OTPExtractor.swift:206-212 | the count of keywords present is 0 exactly when none of them occurs in the lower-cased text, and equals the number of keywords exactly when all of them occur |
| Detector.FirstAbove | OneTimePaste/OTPExtractor.swift:186-217 | the index of the first match whose score exceeds 2, with every earlier match scoring at most 2, or the end when none does |
| Detector.DetectNoneIffNoneQualifies | OneTimePaste/OTPExtractor.swift:186-220 | the detector returns nil exactly when no match of the text scores above 2 |
| Detector.DetectIsLeftmostQualifying | OneTimePaste/OTPExtractor.swift:186-217 | a returned code is the text of a match scoring above 2, and every match to its left scores at most 2 |
| Detector.DetectedCodeShape | OneTimePaste/OTPExtractor.swift:182-187 | a returned code is 3 to 9 digits and a substring of the text with a word boundary on each side |
| Detector.LongRunNeverMatches | OneTimePaste/OTPExtractor.swift:182 | no match overlaps a run of 10 or more digits |
| Detector.GluedDigitsNeverMatch | OneTimePaste/OTPExtractor.swift:182 | no match touches a letter or underscore on either side |
| Detector.OddLengthCodeNeedsCleanKeyword | OneTimePaste/OTPExtractor.swift:189-215 | a returned code of 3 or 7 to 9 digits implies that a context keyword occurs and that no bad keyword occurs in the lower-cased text |
| Detector.PenalisedTextYieldsNothing | OneTimePaste/OTPExtractor.swift:197-215 | two or more bad keywords, or one bad keyword and no context keyword, give nil |
| Detector.CleanKeywordReturnsFirstMatch | OneTimePaste/OTPExtractor.swift:186-215 | with a context keyword and no bad keyword, the first match is returned |
| Detector.ContextKeywordBonus | OneTimePaste/OTPExtractor.swift:197-204 | the keyword loop adds 2 exactly when some context keyword occurs in the lower-cased text |
| Detector.BadKeywordPenalty | OneTimePaste/OTPExtractor.swift:206-212 | the bad-keyword loop subtracts 2 for each bad keyword that occurs |
| Detector.FindOTPInText | OneTimePaste/OTPExtractor.swift:178-221 | the scoring loop returns the leftmost match scoring above 2, or nil |
| AttributedBody.Lookup | OneTimePaste/OTPExtractor.swift:116 | a key lookup finds a value exactly when some entry has that key, and the value belongs to such an entry |
| AttributedBody.FindStringsExactly | OneTimePaste/OTPExtractor.swift:124-142 | the tree walk finds exactly the string leaves longer than 2 characters |
| AttributedBody.FindStringsInEntriesExactly | OneTimePaste/OTPExtractor.swift:129-132 | the walk over dictionary values finds exactly the long string leaves below those values |
| AttributedBody.FindStringsInItemsExactly | OneTimePaste/OTPExtractor.swift:133-136 | the walk over array items finds exactly the long string leaves below those items |
| AttributedBody.JoinLength | OneTimePaste/OTPExtractor.swift:171 | a joined list is at least as long as its first part, and at least as long as its first two parts plus the separator |
| AttributedBody.JoinPrintable | OneTimePaste/OTPExtractor.swift:171 | joining printable parts with a printable separator gives printable text |
| AttributedBody.PrintableRun | OneTimePaste/OTPExtractor.swift:154-157 | the printable run at a position is all bytes in 32..126 and ends at a non-printable byte or at the end |
| AttributedBody.ChunkLengthIsRun | OneTimePaste/OTPExtractor.swift:154-163 | a maximal printable run spans the whole printable run at its start |
| AttributedBody.ChunkRunsFromSound | OneTimePaste/OTPExtractor.swift:154-168 | every chunk kept is a maximal printable run of at least 3 bytes |
| AttributedBody.ChunkRunsFromOrdered | OneTimePaste/OTPExtractor.swift:154-168 | kept chunks come in input order, separated by at least one byte |
| AttributedBody.ChunkRunsFromComplete | OneTimePaste/OTPExtractor.swift:154-168 | every maximal printable run of at least 3 bytes is kept |
| AttributedBody.ChunkRunsExactly | OneTimePaste/OTPExtractor.swift:151-168 | the chunks are exactly the maximal printable runs of at least 3 bytes, in input order |
| AttributedBody.ChunksPrintable | OneTimePaste/OTPExtractor.swift:155-168 | every chunk is printable ASCII and at least 3 characters long |
| AttributedBody.FallbackTextSpec | OneTimePaste/OTPExtractor.swift:170-175 | the fallback yields text exactly when there are two or more chunks or one chunk longer than 5; that text is printable and longer than 5 |
| AttributedBody.DecodeBodyOfDictionary | OneTimePaste/OTPExtractor.swift:114-145 | for a dictionary root: the `NSString` string, else the `NS.string` string, else the found strings joined by spaces, else the raw-byte fallback |
| AttributedBody.DecodeBodyWithoutDictionary | OneTimePaste/OTPExtractor.swift:113-151 | a body that does not parse to a dictionary goes to the raw-byte fallback |
| AttributedBody.ChunkerBreak | OneTimePaste/OTPExtractor.swift:158-163 | a non-printable byte closes the current chunk, keeping it when it is at least 3 long |
| AttributedBody.ChunkerEnd | OneTimePaste/OTPExtractor.swift:166-168 | after the last byte, the kept chunks plus the trailing chunk (if at least 3 long) are all the chunks |
| AttributedBody.RawTextFallback | OneTimePaste/OTPExtractor.swift:151-175 | the chunking loop returns the chunks joined by spaces when that is longer than 5 characters, else nil |
| AttributedBody.ParseAttributedBody | OneTimePaste/OTPExtractor.swift:112-176 | the decoder takes the structured path first and falls back to the raw bytes; it never fails |
| Scan.FirstExisting | OneTimePaste/OTPExtractor.swift:27-32 | no path is chosen exactly when no candidate exists; otherwise the first existing candidate is chosen |
| Scan.CString | OneTimePaste/OTPExtractor.swift:64-66 | a C-string read gives the prefix of the column up to its first NUL |
| Scan.Messages | OneTimePaste/OTPExtractor.swift:62-89 | at most one message per row; every message has non-empty text and comes from a row |
| Scan.MessagesAppend | OneTimePaste/OTPExtractor.swift:62-89 | collecting messages distributes over concatenation of rows, so surviving rows keep their order |
| Scan.MessagesOfRow | OneTimePaste/OTPExtractor.swift:63-88 | a row gives a message exactly when its final text is non-empty |
| Scan.Detections | OneTimePaste/OTPExtractor.swift:93-103 | every record carries the detected code of a message, with that message's sender, date and full text |
| Scan.DetectionsComplete | OneTimePaste/OTPExtractor.swift:93-103 | every message in which a code is detected yields the record with that code, sender, date and full text |
| Scan.DetectionsAppend | OneTimePaste/OTPExtractor.swift:93-103 | detection distributes over concatenation of messages, so records keep the message order |
| Scan.FirstWithCode | OneTimePaste/OTPExtractor.swift:106 | the first record with a code is absent exactly when no record has it; otherwise no earlier record has that code |
| Scan.FirstWithCodeAppend | OneTimePaste/OTPExtractor.swift:106 | appending a record changes the first record with a code only when the code is new |
| Scan.CodesAppend | OneTimePaste/OTPExtractor.swift:105 | the codes of a list with one more record gain that record's code |
| Scan.Dedup | OneTimePaste/OTPExtractor.swift:105-106 | deduplication keeps every code, keeps codes pairwise distinct, and keeps only input records |
| Scan.DedupKeepsFirst | OneTimePaste/OTPExtractor.swift:105-106 | each kept record is the first record in the list with its code |
| Scan.Insert | OneTimePaste/OTPExtractor.swift:107 | insertion adds exactly the inserted record |
| Scan.InsertNewestFirst | OneTimePaste/OTPExtractor.swift:107 | inserting into a newest-first list keeps it newest first |
| Scan.SortNewestFirst | OneTimePaste/OTPExtractor.swift:107 | sorting gives a permutation with non-increasing timestamps |
| Scan.PermutationKeepsDistinct | OneTimePaste/OTPExtractor.swift:105-107 | reordering a list with distinct codes keeps them distinct |
| Scan.AssembleSpec | OneTimePaste/OTPExtractor.swift:105-109 | the result has pairwise distinct codes, exactly the detected codes, each carried by its first detection, newest first |
| Scan.MessagesKeepOrder | OneTimePaste/OTPExtractor.swift:62-89 | rows newest first give messages newest first |
| Scan.DetectionsKeepOrder | OneTimePaste/OTPExtractor.swift:93-103 | messages newest first give records newest first |
| Scan.FirstIsNewest | OneTimePaste/OTPExtractor.swift:106 | in a newest-first list, the first record with a code is at least as new as every other record with that code |
| Scan.KeptRecordIsNewest | OneTimePaste/OTPExtractor.swift:105-106 | with rows newest first, as the query orders them, the record kept for a code is its newest detection |
| Scan.ScanOutcomes | OneTimePaste/OTPExtractor.swift:21-36 | not found exactly when neither candidate exists; otherwise the first existing candidate's database is scanned |
| Scan.ScanDatabase | OneTimePaste/OTPExtractor.swift:38-109 | a database that does not open fails with "Cannot open database", one whose query does not prepare fails with "Cannot prepare query"; otherwise the scan succeeds with pairwise distinct codes, exactly the detected codes, each carried by its first detection, newest first |
| Scan.EmptyStoreGivesNothing | OneTimePaste/OTPExtractor.swift:60-109 | a query with no rows gives an empty list |
| Scan.SelectPath | OneTimePaste/OTPExtractor.swift:26-32 | the path loop picks the first existing candidate |
| Scan.RowText | OneTimePaste/OTPExtractor.swift:63-80 | a non-empty text column is the row's text and the body is not consulted; a non-empty text from an empty or missing column is the decoding of a non-empty body; the text is empty exactly when the column is empty or missing and the body is missing, empty, or decodes to nothing or to empty text |
| Scan.ReadRowText | OneTimePaste/OTPExtractor.swift:63-80 | the per-row reading code computes the row text characterised by `Scan.RowText` |
| Scan.CollectMessages | OneTimePaste/OTPExtractor.swift:60-89 | the row loop collects one message per row with non-empty text, in row order |
| Scan.DetectAll | OneTimePaste/OTPExtractor.swift:91-103 | the detection loop builds one record per message with a code, in message order |
| Scan.ScanMessagesDatabase | OneTimePaste/OTPExtractor.swift:19-110 | the whole scan: the outcome of the first existing database, or the matching error |
| Background.NewOTPs | OneTimePaste/BackgroundManager.swift:152-153 | the new records are a prefix of the result: `found.count - lastOTPCount` of them when the count grew, none otherwise |
| Background.NewOTPsAreThePrepended | OneTimePaste/BackgroundManager.swift:152-153 | when the new result is the previous one with records put in front, exactly those records are new |
| Background.BackgroundManager.constructor | OneTimePaste/BackgroundManager.swift:17-19 | a new manager is monitoring, with its timer scheduled and a count of 0 |
| Background.BackgroundManager.StartMonitoring | OneTimePaste/BackgroundManager.swift:92-120 | monitoring on and timer scheduled, nothing else changed |
| Background.BackgroundManager.StopMonitoring | OneTimePaste/BackgroundManager.swift:122-128 | monitoring off and timer invalidated, nothing else changed |
| Background.BackgroundManager.ToggleMonitoring | OneTimePaste/BackgroundManager.swift:79-86 | monitoring flips, and the timer runs exactly while monitoring |
| Background.BackgroundManager.InitialScanCompleted | OneTimePaste/BackgroundManager.swift:96-105 | a successful initial scan sets the count to the number of records; a failed one changes nothing |
| Background.BackgroundManager.CheckForNewOTPs | OneTimePaste/BackgroundManager.swift:148-172 | on success, each new record in order is copied and announced once, the pasteboard ends with the last new code, and the count becomes the result's length; a failure changes nothing |
| Background.BackgroundManager.TimerFired | OneTimePaste/BackgroundManager.swift:107-117 | monitoring keeps its value; a tick after monitoring stopped only invalidates the timer, and a failed check changes nothing; a successful check while monitoring copies and announces each new record in order, leaves the last new code on the pasteboard, and sets the count to the result's length |

## Left out

- SQLite and `FileManager` are not modelled. A database is a value: whether it opens, whether the query prepares, and the rows the query returns. Filtering empty rows, ordering by date and the 200-row limit happen in SQL, so the model takes the returned rows as given.
- A failing `sqlite3_step` ends the row loop exactly as the last row does. The model's row sequence is the rows delivered before stepping stopped.
- `PropertyListSerialization` is a system parser. Its outcome is an input, and a dictionary is the list of its entries in iteration order.
  - Swift leaves that order unspecified, so `FindStringsExactly` states which strings are found, not their order.
  - A Swift dictionary cannot hold a key twice; the entry list can, and lookup takes the first entry.
- Strings are sequences of characters, and Swift's `count` (grapheme clusters) is the sequence length. The two agree on printable ASCII, the only characters a fallback chunk holds. For the `count > 2` test on arbitrary Unicode strings in the tree walk, they agree only up to this approximation.
- Lower-casing, `\d` and `\b` are ASCII only. Unicode case mapping and ICU's Unicode digit and word classes are not modelled.
- UTF-8 decoding of the text column and of `String(cString:)` is not modelled. Only the cut at the first NUL is.
- `Date(timeIntervalSinceReferenceDate:)` and the `Double` division are left out, and timestamps are the raw integers. Raw values that round to the same `Double` are ties in the source but ordered in the model.
- `Set` iteration order and the sort's treatment of ties are unspecified in Swift. The model keeps first appearances in list order and uses an insertion sort; every property proved about the assembled result holds whatever the order among equal timestamps.
- Asynchrony is not modelled: `extractOTPs`' dispatch, `Task`, `MainActor` and the 1-second `Timer`. Scan outcomes are arguments, and interleavings are whatever order the caller invokes the methods in.
- The menu bar, menu items, icons, window handling, notification permission, the popup window, the beep and the log messages are presentation only. Alerts are a ghost list of announced codes.
- The `id` UUID of `OTPMessage` is not modelled.
- `SettingsManager` and its length settings are not modelled; the detector never reads them.
- No concrete sample text is evaluated by the verifier. The detector's properties are stated for all texts.
