# Locales loading core, modelled in Dafny

This project models the part of the game client that loads translated texts:

- **`CsvSerializer`** turns CSV text into records. `ParseCsv` splits the text into rows of cells. It handles quoted fields, doubled or backslash-escaped quotes and `\n` escapes. `CreateArray` indexes the header row by each column name and by a derived lower-case key. `Create` and `SetValue` then fill one record per data row, coercing each cell to its field's type.
- **`Downloader`** starts at most one web request per URL. Every callback passed for a URL gets that request exactly once, either as soon as it is passed (request already done) or when the download coroutine finishes.
- **`StaticReadyChecker<T>`** is the singleton gate. Actions passed to `DoOnReady` are queued until `SetReady` publishes the instance.
- **`LocalizationManager`** downloads the locales CSV and builds the language → key → text table. It answers `TryGetLocale` for the selected language and switches language with `SetLanguage`.

Each source file becomes a module, or two when it has both a value model and a class:

- **`CsvScanner`** (`ParseCsv`)
  - `Scan` / `Parse` state the scanner as a function.
  - `ParseCsv` is the loop, proved equal to `Parse`.
  - Round trips for plain and fully quoted tables.
- **`CsvValues`**: `SetValue` for each field kind, with the integer, decimal and comma-list conversions.
- **`CsvBinder`**
  - The header index (`HeaderIndex`, proved against an independent meaning `IndexOf` / `Distinct`).
  - `DerivedKey`.
  - `Create` (`Bind`).
- **`CsvSerializer`**: `CreateArray`, `Deserialize` and the table round trip.
- **`DownloadModel`**: the downloader's state as a value (`Coordinator`), with one function per step and the run-level exactly-once theorem.
- **`Downloader`**: the classes `ActiveDownload` and `Downloader`. The `_downloads` dictionary is a `map` field of objects. Each method is proved to move a ghost `Coordinator` exactly as the value model does.
- **`ReadyGate`** / **`ReadyChecker`**: the gate as a value and the class around it.
- **`LocaleTable`** / **`Localization`**: the table as a value, its meaning, and the `LocalizationManager` class.

Records are values: a record type is described by a `Shape`, its fields' names and kinds in declaration order, and a record is a `seq<Value>`. Callback invocations are returned to the caller as sequences of calls, in invocation order; the model does not run the callbacks' code.

## Model

| member | source | states |
|---|---|---|
| CsvScanner.EndRow | Assets/Utils/CSVSerializer.cs:165-178 | at a line break the pending token joins the line only if non-empty and the line becomes a row only if non-empty; the token and line are emptied |
| CsvScanner.Step | Assets/Utils/CSVSerializer.cs:137-192 | one scanner step consumes one or two characters and never more than remain |
| CsvScanner.Scan | Assets/Utils/CSVSerializer.cs:137-205 | scanning only appends rows, and never appends an empty row |
| CsvScanner.Parse | Assets/Utils/CSVSerializer.cs:130-205 | every row `ParseCsv` returns has at least one cell |
| CsvScanner.ParseCsv | Assets/Utils/CSVSerializer.cs:130-205 | the imperative loop (index skips, `StringBuilder` token, `quotes` flag, final flushes) returns exactly `Parse(text)` |
| CsvScanner.ScanUnquoted | Assets/Utils/CSVSerializer.cs:165-191 | outside quotes: a line break ends the row, a separator ends the cell, `"` opens quotes, any other character is appended |
| CsvScanner.ScanQuoted | Assets/Utils/CSVSerializer.cs:139-163 | inside quotes: `\"` and `""` give `"`, `\n` gives a newline, a lone `"` closes the cell and swallows one following separator; any other character, a backslash not followed by `"` or `n` included, is appended as is |
| CsvScanner.PlainRoundTrip | Assets/Utils/CSVSerializer.cs:130-205 | rows of unquoted cells whose last cell is non-empty, joined by separators and any run of line breaks, parse back to exactly those rows |
| CsvScanner.TrailingSeparatorDropped | Assets/Utils/CSVSerializer.cs:179-183 | a separator at the end of the text yields no trailing empty cell: `Parse(row + ",") == [row]` |
| CsvScanner.EmptyFieldKept | Assets/Utils/CSVSerializer.cs:179-183 | `a,,b` parses to the three cells `a`, empty, `b` |
| CsvScanner.TrailingEmptyFieldDropped | Assets/Utils/CSVSerializer.cs:194-197 | `a,b,` parses to the two cells `a`, `b` |
| CsvScanner.ScanQuotedField | Assets/Utils/CSVSerializer.cs:139-163 | the escaped form of a backslash-free field (quotes doubled or backslash-escaped, newlines as `\n`), followed by a closing quote, reads back as that field |
| CsvScanner.EncodeRoundTrip | Assets/Utils/CSVSerializer.cs:130-205 | any table of non-empty rows of backslash-free cells, with every cell quoted, parses back to exactly that table, in either quoting style |
| CsvScanner.QuoteInsideField | Assets/Utils/CSVSerializer.cs:184-187 | a quote opening in the middle of an unquoted cell continues the same cell: `a"b"` is the one cell `ab` |
| CsvScanner.QuotedMiddle | Assets/Utils/CSVSerializer.cs:152-159 | a quoted middle cell may hold separators: `a,"b",c` gives the three cells `a`, `b`, `c` |
| CsvScanner.QuotedSeparatorExample | Assets/Utils/CSVSerializer.cs:152-159 | `a,"b,c",d` parses to `a`, `b,c`, `d` |
| CsvScanner.QuoteInsideFieldExample | Assets/Utils/CSVSerializer.cs:184-187 | `ab"c,d"` parses to the single cell `abc,d` |
| CsvValues.Default | Assets/Utils/CSVSerializer.cs:60 | a fresh record holds 0 in an `int` field, the first member in an enum field, null in the others |
| CsvValues.Split | Assets/Utils/CSVSerializer.cs:89 | `Split(',')` yields at least one piece and no piece holds a comma |
| CsvValues.JoinSplit | Assets/Utils/CSVSerializer.cs:89 | joining the pieces with commas gives back the cell; there is one more piece than commas |
| CsvValues.SplitJoin | Assets/Utils/CSVSerializer.cs:89 | comma-free pieces joined with commas split back into exactly those pieces |
| CsvValues.NatDigits | Assets/Utils/CSVSerializer.cs:126 | the decimal digits of a natural number read back as that number |
| CsvValues.ParseInt32 | Assets/Utils/CSVSerializer.cs:126 | an `int` conversion succeeds only on an optional `-`/`+` sign followed by digits and only within 32 bits; otherwise a bad-number or overflow error |
| CsvValues.ParseFormatInt | Assets/Utils/CSVSerializer.cs:126 | a 32-bit integer written in decimal converts back to itself; one outside 32 bits overflows |
| CsvValues.RoundHalfEven | Assets/Utils/CSVSerializer.cs:110-111 | `n/d` rounded to nearest: the remainder is within half of `d`, and a tie goes to the even quotient |
| CsvValues.RoundHalfEvenNearest | Assets/Utils/CSVSerializer.cs:110-111 | no other integer is nearer to `n/d` than the rounded quotient |
| CsvValues.IndexOf | Assets/Utils/CSVSerializer.cs:105 | the position of the first occurrence of the character, or the length when it has none |
| CsvValues.DecimalToInt32 | Assets/Utils/CSVSerializer.cs:105-111 | a cell with a point converts to a 32-bit integer only when it is sign, digits, one point, digits; otherwise a bad-number or overflow error |
| CsvValues.DecimalHalfDown | Assets/Utils/CSVSerializer.cs:110-111 | `2.5` becomes 2 (ties to even) |
| CsvValues.DecimalHalfUp | Assets/Utils/CSVSerializer.cs:110-111 | `3.5` becomes 4 |
| CsvValues.DecimalNegativeHalf | Assets/Utils/CSVSerializer.cs:110-111 | `-1.5` becomes -2 |
| CsvValues.DecimalBelowHalf | Assets/Utils/CSVSerializer.cs:110-111 | `1.49` becomes 1 |
| CsvValues.DecimalTwoPoints | Assets/Utils/CSVSerializer.cs:110 | `1.2.3` is not a number |
| CsvValues.ParseAll | Assets/Utils/CSVSerializer.cs:89-96 | an `int[]` cell succeeds iff every piece converts, giving the pieces' values in order |
| CsvValues.FirstIndex | Assets/Utils/CSVSerializer.cs:103 | an enum name resolves to the first member of that name |
| CsvValues.SetValue | Assets/Utils/CSVSerializer.cs:77-128 | an empty cell leaves the field as it was; a string field takes the cell; a `string[]` field takes its comma pieces; an `int[]` cell succeeds iff every comma piece converts, giving their values in order; an enum cell succeeds iff it names a member; an `int` cell without a point is a whole-number conversion and one with a point goes through `DecimalToInt32`; every success fits the field's type |
| CsvValues.IntegerCellRoundTrip | Assets/Utils/CSVSerializer.cs:120-127 | a 32-bit integer written in decimal is stored back into an `int` field as itself |
| CsvValues.TextArrayCellRoundTrip | Assets/Utils/CSVSerializer.cs:84-99 | comma-free strings joined with commas are stored into a `string[]` field as exactly those strings |
| CsvBinder.DerivedKey | Assets/Utils/CSVSerializer.cs:27-40 | the derived key is no longer than the name and holds only lower-case letters and digits |
| CsvBinder.DerivedKeyFixedPoint | Assets/Utils/CSVSerializer.cs:27-40 | a name equals its derived key iff it already consists of lower-case letters and digits |
| CsvBinder.DerivedKeyIdempotent | Assets/Utils/CSVSerializer.cs:27-40 | deriving a key twice gives the same key as deriving once |
| CsvBinder.DeriveKey | Assets/Utils/CSVSerializer.cs:26-40 | the character loop builds exactly `DerivedKey(id)` |
| CsvBinder.RegisterKeepsIndex | Assets/Utils/CSVSerializer.cs:42-46 | adding column `i` succeeds iff no earlier column has the same name or a derived key equal to its name; on success the index still maps every key to the first column naming it |
| CsvBinder.IndexFromMeaning | Assets/Utils/CSVSerializer.cs:24-47 | the rest of the header loop succeeds iff the header names are distinct in that sense, and then gives the full index |
| CsvBinder.HeaderIndexMeaning | Assets/Utils/CSVSerializer.cs:24-47 | the header index exists iff no name repeats a name or key seen before, and then maps each name and each new derived key to the first column naming it |
| CsvBinder.HeaderTable | Assets/Utils/CSVSerializer.cs:21-47 | the header loop with its `table.Add` throwing on a repeated name returns exactly `HeaderIndex(header)` |
| CsvBinder.DerivedKeyCollisionExample | Assets/Utils/CSVSerializer.cs:42-45 | the header `Name,name` fails with a duplicate key `name` |
| CsvBinder.Defaults | Assets/Utils/CSVSerializer.cs:60 | a fresh record has one default value per field |
| CsvBinder.Bind | Assets/Utils/CSVSerializer.cs:58-75 | a row binds iff every field binds, giving each field's value; otherwise the first failing field's error |
| CsvBinder.BindFirstFailure | Assets/Utils/CSVSerializer.cs:62-72 | the fields are visited in order, so the first field that fails decides the error |
| CsvBinder.BindReadsNamingColumn | Assets/Utils/CSVSerializer.cs:64-70 | under a valid header a field is read from the first column carrying its name (as a name or derived key), and left at its default when no column carries it or the row is too short |
| CsvBinder.Create | Assets/Utils/CSVSerializer.cs:58-75 | the field loop returns exactly `Bind(shape, table, cols)` |
| CsvSerializer.BindRows | Assets/Utils/CSVSerializer.cs:49-53 | all data rows bind iff each does, giving one record per row in order |
| CsvSerializer.BindRowsFirstFailure | Assets/Utils/CSVSerializer.cs:49-53 | the first data row that fails to bind decides the error |
| CsvSerializer.Decode | Assets/Utils/CSVSerializer.cs:19-56 | no rows is an error; a bad header is its error; otherwise decoding succeeds iff every data row binds, giving one record per data row (record `i - 1` from row `i`, one value per field), and fails with the error of the first data row that does not bind |
| CsvSerializer.DataRows | Assets/Utils/CSVSerializer.cs:49-53 | the rows after the header bind iff each does, and record `i - 1` is row `i`'s |
| CsvSerializer.DataRowsFirstFailure | Assets/Utils/CSVSerializer.cs:49-53 | when the data rows before row `i` bind and row `i` does not, the array loop fails with row `i`'s error |
| CsvSerializer.CreateArray | Assets/Utils/CSVSerializer.cs:19-56 | the header loop and the array-filling loop return exactly `Decode(shape, rows)` |
| CsvSerializer.FillArray | Assets/Utils/CSVSerializer.cs:49-53 | the loop over data rows fills the array with exactly `BindRows(shape, table, data)` |
| CsvSerializer.BindRowsAll | Assets/Utils/CSVSerializer.cs:49-53 | rows that each bind give exactly their records |
| CsvSerializer.Deserialize | Assets/Utils/CSVSerializer.cs:14-17 | `Deserialize` returns exactly the records of the text |
| CsvSerializer.TextTableRoundTrip | Assets/Utils/CSVSerializer.cs:14-205 | a quoted table of non-empty backslash-free cells under distinct header names deserializes into string records holding exactly each row's cells |
| DownloadModel.Deliveries | Assets/Core/Scripts/Downloader.cs:17-20 | `Invoke` calls every subscriber once, in subscription order, with the URL's request |
| DownloadModel.Fetch | Assets/Core/Scripts/Downloader.cs:31-58 | a known URL with no callback changes nothing; a known done URL calls the callback at once; a known pending URL queues it; a new URL gets an entry, its callback queued, and one transfer started |
| DownloadModel.Begin | Assets/Core/Scripts/Downloader.cs:60-68 | a coroutine whose URL has no entry does nothing; otherwise a fresh, not-done request is made and its transfer started |
| DownloadModel.Launch | Assets/Core/Scripts/Downloader.cs:57 | starting the coroutine holds its handle and runs it up to its first wait |
| DownloadModel.Transferred | Assets/Core/Scripts/Downloader.cs:68 | the engine ends the transfer: the request is done with its result and text; nothing else changes |
| DownloadModel.Resumed | Assets/Core/Scripts/Downloader.cs:70-84 | the coroutine drops its handle and calls every subscriber once, in order, with the request |
| DownloadModel.DeliveredToDeliveries | Assets/Core/Scripts/Downloader.cs:17-20 | an `Invoke` for a URL calls exactly that URL's subscribers and no other URL's |
| DownloadModel.TracksStep | Assets/Core/Scripts/Downloader.cs:31-84 | each `Download` call, end of a transfer and resumption of a coroutine, in any interleaving, keeps the per-URL phase invariant (transfer running / ended but not resumed / resumed) |
| DownloadModel.TracksEnd | Assets/Core/Scripts/Downloader.cs:68 | when a transfer ends, every callback passed so far is a waiting subscriber and none has been called |
| DownloadModel.TracksResume | Assets/Core/Scripts/Downloader.cs:70-84 | when the coroutine resumes, its subscribers are called after the callbacks answered at once since the transfer ended |
| DownloadModel.ExactlyOnce | Assets/Core/Scripts/Downloader.cs:31-84 | over any run in which transfers end and coroutines resume as separate events, each requested URL has one entry and one transfer started; nothing is called before its request is done; the callbacks passed while the transfer ran are called together, in the order passed, when the coroutine resumes; each callback passed after the end is called at once, in the order passed; an unrequested URL has no entry and no calls |
| DownloadModel.CalledExactlyOnce | Assets/Core/Scripts/Downloader.cs:31-84 | over any run, no callback of a URL is called before its request is done; while the coroutine is held every callback passed is either called once or waiting; once it has resumed the calls are exactly the callbacks passed, each once (as multisets) |
| DownloadModel.LateCallbackFirst | Assets/Core/Scripts/Downloader.cs:37-40 | a callback passed after the transfer ended but before the coroutine resumed is called before the earlier subscriber: the calls are `[2, 1]` for callbacks `1`, `2` |
| Downloader.ActiveDownload.Subscribe | Assets/Core/Scripts/Downloader.cs:15 | `OnResult +=` appends the callback and changes nothing else |
| Downloader.ActiveDownload.Invoke | Assets/Core/Scripts/Downloader.cs:17-20 | one call per subscriber, in order, each with the request |
| Downloader.AsDeliveries | Assets/Core/Scripts/Downloader.cs:17-20 | the calls made, recorded as (callback, URL of the request) in the same order |
| Downloader.Downloader.Download | Assets/Core/Scripts/Downloader.cs:31-58 | the dictionary moves exactly as `Fetch` says, the immediate calls are the new deliveries, and the class invariant holds |
| Downloader.Downloader.Answer | Assets/Core/Scripts/Downloader.cs:37-40 | a done request is handed to the new callback at once and the table is unchanged |
| Downloader.Downloader.Wait | Assets/Core/Scripts/Downloader.cs:41-44 | a pending request's subscriber list gains the callback; nothing else changes |
| Downloader.Downloader.AddDownload | Assets/Core/Scripts/Downloader.cs:50-57 | a new URL moves the model exactly as `Fetch` does |
| Downloader.Downloader.AddEntry | Assets/Core/Scripts/Downloader.cs:50-55 | a new entry with no handle, no request and only the given callback is added |
| Downloader.Downloader.Insert | Assets/Core/Scripts/Downloader.cs:50-51 | `_downloads.Add` adds a fresh empty entry under the URL |
| Downloader.Downloader.AddAction | Assets/Core/Scripts/Downloader.cs:52-55 | a non-null callback is subscribed to the fresh entry |
| Downloader.Downloader.StartCoroutine | Assets/Core/Scripts/Downloader.cs:57 | the model moves as `Launch` says |
| Downloader.Downloader.Hold | Assets/Core/Scripts/Downloader.cs:57 | the entry's coroutine handle is stored; nothing else changes |
| Downloader.Downloader.BeginTransfer | Assets/Core/Scripts/Downloader.cs:60-68 | the coroutine's first part moves the model as `Begin` says |
| Downloader.Downloader.SendRequest | Assets/Core/Scripts/Downloader.cs:67-68 | the entry gets a fresh request for its URL and the transfer starts |
| Downloader.Downloader.EndTransfer | Assets/Core/Scripts/Downloader.cs:68 | the model moves as `Transferred` says |
| Downloader.Downloader.Resume | Assets/Core/Scripts/Downloader.cs:70-84 | the model moves as `Resumed` says and the calls returned are one per subscriber, in order |
| Downloader.Downloader.Release | Assets/Core/Scripts/Downloader.cs:83 | the coroutine handle is cleared; the subscribers and request stay |
| ReadyGate.DoOnReady | Assets/Core/Scripts/StaticReadyChecker.cs:13-23 | when ready, the action runs at once and the queue is kept; otherwise it is queued and nothing runs |
| ReadyGate.SetReady | Assets/Core/Scripts/StaticReadyChecker.cs:25-35 | as written: when ready, nothing happens; otherwise the instance is published and the whole queue runs, and the gate stays not ready |
| ReadyGate.SetReadyFixed | Assets/Core/Scripts/StaticReadyChecker.cs:25-35 | as intended: the same, and the gate becomes ready |
| ReadyGate.Reset | Assets/Core/Scripts/StaticReadyChecker.cs:37-41 | not ready, no instance, queue untouched |
| ReadyGate.HasReadyStep | Assets/Core/Scripts/StaticReadyChecker.cs:25-35 | the first `SetReady` of a run stays the first one as the run grows |
| ReadyGate.AsWritten | Assets/Core/Scripts/StaticReadyChecker.cs:8-35 | as written, over any run the gate is never ready, the queue is every action ever passed, each `SetReady` reruns the whole queue, and the instance is the latest one |
| ReadyGate.NeverImmediate | Assets/Core/Scripts/StaticReadyChecker.cs:13-23 | as written, an action passed to `DoOnReady` never runs at once, whatever happened before |
| ReadyGate.SecondSetReadyReRuns | Assets/Core/Scripts/StaticReadyChecker.cs:25-35 | as written, a second `SetReady` publishes a second instance and reruns the queued action; as intended it is refused |
| ReadyGate.LateActionNeverRuns | Assets/Core/Scripts/StaticReadyChecker.cs:13-23 | as written, an action passed after the only `SetReady` of a run is queued and does not run until another `SetReady` replays the queue; as intended it runs at once |
| ReadyGate.FixedRunsEachActionOnce | Assets/Core/Scripts/StaticReadyChecker.cs:13-35 | as intended, over a run without resets, the gate is ready iff some `SetReady` happened, the instance is the first one published, and every action passed runs exactly once, in order, or waits in the queue if none did |
| ReadyChecker.StaticReadyChecker.DoOnReady | Assets/Core/Scripts/StaticReadyChecker.cs:13-23 | the class moves as `ReadyGate.DoOnReady` says and returns the actions it ran |
| ReadyChecker.StaticReadyChecker.SetReady | Assets/Core/Scripts/StaticReadyChecker.cs:25-35 | the class moves as `ReadyGate.SetReady` says |
| ReadyChecker.StaticReadyChecker.SetReadyFixed | Assets/Core/Scripts/StaticReadyChecker.cs:25-35 | the class moves as `ReadyGate.SetReadyFixed` says |
| ReadyChecker.StaticReadyChecker.Reset | Assets/Core/Scripts/StaticReadyChecker.cs:37-41 | the class moves as `ReadyGate.Reset` says |
| LocaleTable.ParseLang | Assets/Core/Scripts/LocalizationManager.cs:69 | exactly `RU` and `EN` parse, each to its own language; anything else, null included, does not |
| LocaleTable.Lookup | Assets/Core/Scripts/LocalizationManager.cs:82-91 | without a dictionary for the language: false and `ERROR`; otherwise true iff the key is present, with its text, or null when absent |
| LocaleTable.FillMeaning | Assets/Core/Scripts/LocalizationManager.cs:63-80 | loading records ends without an exception iff no known-language record lacks a key and no two give the same key in one language; a dictionary exists only for a language some record gives; when it succeeds, every known-language record is in the table and every entry comes from some record |
| LocaleTable.FillStops | Assets/Core/Scripts/LocalizationManager.cs:67-79 | once a record throws, the records after it change nothing |
| LocaleTable.UnknownLanguageSkipped | Assets/Core/Scripts/LocalizationManager.cs:69 | a record whose language does not parse is skipped |
| LocaleTable.LocaleHeadersDistinct | Assets/Core/Scripts/LocalizationManager.cs:18-23 | the header `Key,Language,Text` is accepted by the header index |
| LocaleTable.LocaleRecords | Assets/Core/Scripts/LocalizationManager.cs:24-27 | a quoted locales table deserializes into one `CsvLocale` per row holding that row's key, language and text |
| LocaleTable.RowsWellKeyed | Assets/Core/Scripts/LocalizationManager.cs:67-79 | rows with a known language and no key repeated within a language are well keyed |
| LocaleTable.LocalesRoundTrip | Assets/Core/Scripts/LocalizationManager.cs:63-91 | a quoted locales table with known languages and no key repeated within a language loads without an exception, and looking up any row's key in its language gives that row's text |
| LocaleTable.SelectLanguage | Assets/Core/Scripts/LocalizationManager.cs:93-102 | the new language is selected; the change event is raised once iff the language differs |
| LocaleTable.SelectLanguageIdempotent | Assets/Core/Scripts/LocalizationManager.cs:93-102 | selecting the same language again raises no further event |
| Localization.LocalizationManager.ParseLocales | Assets/Core/Scripts/LocalizationManager.cs:63-80 | the dictionary and the exception left are exactly `Locales(localesCsv)`; the selected language is untouched |
| Localization.LocalizationManager.AddAll | Assets/Core/Scripts/LocalizationManager.cs:67-79 | the record loop from an empty table leaves exactly `Fill` of the records |
| Localization.LocalizationManager.AddRecord | Assets/Core/Scripts/LocalizationManager.cs:69-77 | one record moves the dictionary exactly as `AddLocale` says |
| Localization.LocalizationManager.TryGetLocale | Assets/Core/Scripts/LocalizationManager.cs:82-91 | looks the key up in the selected language's dictionary, as `Lookup` says |
| Localization.LocalizationManager.SetLanguage | Assets/Core/Scripts/LocalizationManager.cs:93-102 | selects the language and counts a change event as `SelectLanguage` says; the table is untouched |
| Localization.LocalizationManager.OnDownloaded | Assets/Core/Scripts/LocalizationManager.cs:54-61 | a request that is not done or did not succeed changes nothing; otherwise the locales are parsed from its text and, unless that throws, `SetReady` as written publishes the manager and runs the queued actions while the gate stays closed |
| Localization.LocalizationManager.OnDownloadedFixed | Assets/Core/Scripts/LocalizationManager.cs:54-61 | the same with the corrected `SetReady`: after a successful parse the gate opens, so later actions run at once |

## Left out

- Unity lifecycle and engine calls are not modelled: `Awake`, `DontDestroyOnLoad`, `LoadLocales` and the `Debug.LogError` messages. `UnityWebRequest` is a small class with a URL, a done flag, a result and a text. The network transfer is a parameter of `EndTransfer`.
- `URLConfig` and `LocalizeText` are not part of this model.
- Downloader coroutines: Unity's scheduler is not modelled. `StartCoroutine` runs the coroutine up to its first `yield` (`StartCoroutine`, `BeginTransfer`). The engine later resumes it (`EndTransfer`, `Resume`). The end of a transfer and the resumption of its coroutine are separate events (`TransferEnd`, `CoroutineResume`), and the run-level theorem (`DownloadModel.ExactlyOnce`) takes any interleaving of them with `Download` calls. It does not model frame timing or which of several coroutines the engine resumes first.
- Callbacks are identities. Their effects are not run, so re-entrant calls from inside a callback and exceptions thrown by one are not modelled.
- `OnLanguageChanged` is modelled as a counter of raised events.
- Reflection is replaced by an explicit field description. `Activator.CreateInstance`, `GetFields` and `FieldInfo.SetValue` become `Shape`, `Defaults` and the record `seq<Value>`.
- Field types: only `string`, `string[]`, `int[]`, enums and `int` are modelled. `long`, `short`, `float`, `Sprite` (editor only) and other `Convert.ChangeType` targets are left out.
- CsvValues.ParseInt32: follows `Int32.Parse` under the invariant culture for a sign and ASCII digits only. Surrounding whitespace, thousands separators and other cultures are not modelled.
- CsvValues.DecimalToInt32: the `.` path converts through `float` (`Single.Parse` with the current culture's number format, allowing surrounding whitespace, group separators and exponents). The model accepts only sign, digits, one `.`, digits, and rounds the exact decimal half to even. So it rejects cells the program accepts, such as ` 2.5` (giving 2) or `1,000.5` (giving 1000). It accepts `2.5` where a culture whose decimal separator is `,` rejects it. Single-precision error on long inputs is not modelled.
- CsvValues.Default: an enum field holds the position of a member, so the default `0` is the first member and a parsed name gives that member's position. This matches C# only for enums whose members carry their implicit values 0, 1, … in order, as `Lang` does. Explicit member values (and a default `0` that names no member) are not modelled.
- CsvValues.SetValue: an enum cell is matched against member names exactly. Numeric enum values, comma-separated flags, whitespace and case variants that `Enum.Parse` accepts are not modelled. The same holds for `int[]` pieces, which go through `ParseInt32`.
- LocaleTable.ParseLang: `Enum.TryParse` also accepts numeric strings, surrounding whitespace and flag combinations. Only the exact member names are modelled, since the locales table carries language names.
- The separator of `ParseCsv` is modelled only at its default `,`, the only value any caller passes.
- `ParseCsv` differs from the usual CSV reading in ways the code dictates, and the model follows the code:
  - a separator at the end of a row yields no trailing empty cell (`CsvScanner.TrailingSeparatorDropped`);
  - a header whose name collides with an earlier name or derived key makes `CreateArray` throw (`CsvBinder.DerivedKeyCollisionExample`); the first column is not kept.
- `Instance` of `StaticReadyChecker` is one per instantiation of `T`. The model has one gate object per checker (`ReadyChecker.StaticReadyChecker`), shared by whoever holds it, rather than a static field.

## Findings

| source | as written | input that shows it | evidently intended | confidence | as-written member | corrected member |
|---|---|---|---|---|---|---|
| Assets/Core/Scripts/StaticReadyChecker.cs:25-35 | `SetReady` publishes the instance and runs the `OnReady` queue but never sets `_isReady`, so the gate never becomes ready | `DoOnReady(a); SetReady(x); SetReady(y)` runs `a` twice and publishes `y`; `SetReady(x); DoOnReady(a)` never runs `a` | `SetReady` sets `_isReady = true`: a second `SetReady` is refused and a later `DoOnReady` runs its action at once, so each action runs exactly once | not executed | ReadyGate.SecondSetReadyReRuns | ReadyGate.FixedRunsEachActionOnce |

`Localization.LocalizationManager.OnDownloaded` calls `SetReady` as written, as the program does; `Localization.LocalizationManager.OnDownloadedFixed` is the same handler with the corrected `SetReadyFixed`.
