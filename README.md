# contour-rust-pdk core, modelled in Dafny

This project models the logic of the contour plugin development kit and proves
properties of that model:

- **The windowed CSV extraction driver `Csv::parse`.** It calls a field tokenizer over
  the input bytes into a 1024-byte buffer. It builds each cell from one or more decoded
  chunks and groups cells into records. It keeps the records whose index lies in the row
  window `[startingRow, startingRow + rows)` and cuts each kept record to the column
  window `[startingCol, startingCol + cols)`. With a row count it stops at the end of
  record `startingRow + rows`, which it reads and decodes but does not keep.
- **The earlier copy of the driver.** It runs the termination test before the inclusion
  test, and it is proved to return the same result on every stream satisfying
  `NoSlicePanic`. Both drivers slice exactly the same records (`StopFirstKeepsSameRecords`),
  so on those streams neither of them panics.
- **The configuration helpers.** These cover the environment variable names that a
  plugin's domains and e-mail listeners require, the text form of a listener
  configuration, and the default metadata type.
- **The checks of the `listener_fn` attribute macro.** This includes `get_type_string`,
  which renders the parameter's type as the command type.
- **The input records for the host.** These cover `get_type` on a compiler-supplied type
  name, `EntryInput::new` and the by-value `RequestBuilder`.

Files:

- **`csv_stream.dfy`** (module `CsvStream`): the specification of the stream. It covers
  the tokenizer's answers and which answers the driver reads (`Scanned`). It then covers
  the decoding of their chunks (`DecodePrefix`) and the grouping of pieces into cells and
  records (`Assemble`, `Records`). It also has the round trip from a table to the answers
  that report it and back.
- **`csv.dfy`** (module `Csv`):
  - the row tests and `filter_row`;
  - the window of a list of records;
  - the specification `ParseSpec` of the driver;
  - the driver itself, as the method `Parse` with its loop body `HandleAnswer`, proved
    against `ParseSpec`;
  - the properties of the result;
  - the clamped variant the out-of-bounds test expects.
- **`legacy_csv.dfy`** (module `LegacyCsv`): the earlier driver as a method, proved
  against the same `ParseSpec`.
- **`csv_scenarios.dfy`** (module `CsvScenarios`): the unit tests of `src/csv.rs`, stated
  over an ASCII codec.
- **`config.dfy`** (module `Config`): `required_envs` of a domain and of a plugin (the
  latter as a method with a loop over the listeners), `Display` and `default_type`.
- **`macros.dfy`** (module `Macros`):
  - `get_type_string` as written, as a method with its loop, proved against the function
    `TypeString`;
  - the intended rendering;
  - the signature checks of `listener_fn`.
- **`io.dfy`** (module `Io`): `get_type`, `EntryInput::new` and the request builder.
- **`text.dfy`** (module `Text`): joining with a separator, Rust's `str::split` on a
  non-empty pattern, and deleting a character, with their round trips.
- **`wrappers.dfy`** (module `Wrappers`): `Option` and `Result`.

What comes from outside the repository becomes an input:

- **The tokenizer.** `csv_core::Reader::read_field` is a foreign library. Its answers,
  call after call, are a sequence of `Step(result, nin, output)`. `WellFormed` says that
  each answer consumes only unread input and writes at most `OUTPUT_BUFFER_SIZE` bytes,
  and that a terminal answer comes.
- **UTF-8 decoding.** `std::str::from_utf8` is an abstract partial function
  `seq<byte> -> Option<string>`.
- **Type names.** The name that `std::any::type_name_of_val` gives is a string argument.
- **`syn` syntax trees.** The macro's input is a small datatype in their place.

A panic of the source is modelled in two ways:

- **The slice in `filter_row`.** This panic becomes the precondition `NoSlicePanic`. It
  says that every record the driver keeps before it stops or fails fits the column
  window.
- **The panics of the macro.** Each becomes an `Err` case.

## Model

| member | source | states |
|---|---|---|
| Csv.ShouldProcessRow | src/csv.rs:92-96 | the inclusion test `should_process_row`, a definition: at or past `startingRow` and, with a row count, before `startingRow + rows`; `RowChecksExclusive` and `KeptBounds` state what it keeps |
| Csv.ShouldStopProcessing | src/csv.rs:98-102 | the termination test `should_stop_processing`, a definition: a row count is given and the index has reached `startingRow + rows`; `RowChecksExclusive` relates it to the inclusion test |
| Csv.RowChecksExclusive | src/csv.rs:92-102 | the inclusion test and the termination test never both hold; from `startingRow` on with a row count exactly one holds; without a row count the driver never stops early |
| Csv.FilterRow | src/csv.rs:104-111 | requires the column window to lie inside the record (the slice panics otherwise); the result has `cols` cells, or the cells from `startingCol` to the end, and its cell `j` is cell `startingCol + j` of the record |
| Csv.KeptBounds | src/csv.rs:72-84 | the kept record indices form one interval: an index lies in it exactly when the inclusion test holds, and it holds the records from `startingRow` on that exist, at most `rows` of them |
| Csv.Window | src/csv.rs:72-77 | the table is, in order, the kept records each cut by `filter_row` |
| Csv.WindowExtend | src/csv.rs:72-77 | completing a record adds its cut cells to the table exactly when the inclusion test keeps it |
| Csv.WindowOfPrefix | src/csv.rs:78-80 | records after index `startingRow + rows` never change the table |
| Csv.WindowWithoutOptions | src/csv.rs:46-47 | with no option set, every record is kept whole |
| Csv.Scan | src/csv.rs:49-84 | a definition: the answers the driver reads, up to the first terminal answer or the end of record `startingRow + rows`; `Scanned`, `ScanReadsPrefix` and `LaterAnswersIgnored` state its properties |
| Csv.NoSlicePanic | src/csv.rs:106-111 | a definition: every record the driver keeps among those it reads fits the column window, so `filter_row` does not panic; `ParseOfAnswers` reduces it to `WindowFits` of a reported table |
| Csv.ParseSpec | src/csv.rs:31-90 | a definition of what `parse` returns: the decoding error when a chunk it reads does not decode, otherwise the window of the records it reads; `Parse` is proved equal to it and `ParseIsWindowOfAllRecords`, `ParseFailsOnlyOnBadChunk` and `ParseOfAnswers` describe it |
| Csv.DriverStart | src/csv.rs:38-47 | the loop starts with nothing read, no record, an empty row, cell and table |
| Csv.DriverBadChunk | src/csv.rs:57-68 | a chunk that is not valid UTF-8 makes the driver return the decoding error |
| Csv.DriverTerminal | src/csv.rs:55 | `InputEmpty` and `End` leave the loop with the table built so far; the unfinished row and cell are discarded |
| Csv.DriverChunk | src/csv.rs:57-62 | `OutputFull` only appends the decoded chunk to the cell; records, row, record index and table are unchanged |
| Csv.DriverField | src/csv.rs:64-70 | a field end that does not end a record pushes the completed cell onto the row and starts an empty cell |
| Csv.DriverRecordEnd | src/csv.rs:72-84 | a record end on which the driver does not stop completes the record, advances the record index by one, resets the row and adds the cut record to the table exactly when the inclusion test holds |
| Csv.DriverStop | src/csv.rs:72-80 | on the record end where the termination test holds the record is not kept and the driver returns the table it has |
| Csv.HandleAnswer | src/csv.rs:49-87 | one pass of the loop keeps the loop invariant or leaves with exactly the specified result |
| Csv.Parse | src/csv.rs:31-90 | the driver returns the decoding error when a chunk it reads does not decode and otherwise the window of the records it reads |
| Csv.ParseIsWindowOfAllRecords | src/csv.rs:78-80 | stopping early never changes the result: the table is the window of every record of the stream |
| Csv.ParseFailsOnlyOnBadChunk | src/csv.rs:57-68 | the driver fails exactly when one of the chunks it reads does not decode; no other input makes it fail |
| Csv.ParseWithoutOptions | src/csv.rs:46-47 | with no option set the driver never panics and returns every complete record whole |
| Csv.LaterAnswersIgnored | src/csv.rs:78-80 | once record `startingRow + rows` (the one after the row window, read and decoded but not kept) ends, later answers, undecodable chunks included, change neither the panic condition nor the result |
| Csv.ParseTableShape | src/csv.rs:72-77 | the table has at most `rows` rows, and each row has `cols` cells, or the cells of its record from `startingCol` on |
| Csv.ScanReadsPrefix | src/csv.rs:78-80 | the driver reads a prefix of the answers it would read without a row count, and reads less only when it stops after record `startingRow + rows` |
| Csv.ParseOfAnswers | src/csv.rs:31-111 | reading back the answers that report a table of complete records: the driver panics exactly when a kept record is too short for the column window, and otherwise returns the window of the table |
| Csv.ClampedFilterRow | src/csv.rs:320-341 | the clamped column window: a start past the end gives no cell, a count past the end stops at the last cell, and inside the record it equals `filter_row` |
| Csv.ParseClamped | src/csv.rs:320-341 | a definition: the driver with `filter_row` clamped, defined on every stream; `ParseClampedOfAnswers` and `ParseClampedAgrees` state its properties |
| Csv.ClampedWindow | src/csv.rs:320-341 | the kept records in order, each cut by the clamped column window |
| Csv.ClampedWindowOfPrefix | src/csv.rs:78-80 | with clamping too, records past the row window never change the table |
| Csv.ParseClampedOfAnswers | src/csv.rs:320-341 | with clamping, reading back the answers of any table of complete records gives its clamped window for every option |
| Csv.ParseClampedAgrees | src/csv.rs:106-111 | whenever the driver as written does not panic, clamping changes nothing |
| Csv.PromptScan | src/csv.rs:78-80 | a definition: the answers read by a driver that stops right after record `startingRow + rows - 1`; `PromptScanReadsLess` and `PromptIgnoresLaterAnswers` state its properties |
| Csv.ParsePrompt | src/csv.rs:31-90 | a definition: `ParseSpec` over the answers that driver reads; `ParsePromptAgrees` relates it to the driver as written |
| Csv.PromptScanReadsLess | src/csv.rs:78-80 | a driver that stops right after record `startingRow + rows - 1` reads a prefix of what the driver as written reads, and less only once the window's last record has ended |
| Csv.PromptIgnoresLaterAnswers | src/csv.rs:78-80 | for that driver, everything answered after the end of the window's last record, undecodable chunks included, changes neither what it reads nor its panic condition nor its result |
| Csv.ParsePromptAgrees | src/csv.rs:31-90 | wherever the driver as written returns a table, the promptly stopping driver returns the same table |
| CsvStream.WellFormedStep | src/csv.rs:5 | each tokenizer call consumes at most what is left and writes at most 1024 bytes, and the rest of the stream is well formed on the remaining bytes |
| CsvStream.RecordEndsAppend | src/csv.rs:72 | record ends add up over concatenation |
| CsvStream.Scanned | src/csv.rs:49-87 | the answers read are a prefix of the stream and hold no terminal answer |
| CsvStream.StopIgnoresLaterAnswers | src/csv.rs:78-80 | the driver stops right after the record end that completes record `k + 1`: nothing after it is read |
| CsvStream.ScannedWithBudget | src/csv.rs:78-80 | with a row count the driver reads a prefix of what it reads without one, and reads less only after `k + 1` record ends |
| CsvStream.ScannedBudgetGrows | src/csv.rs:78-80 | one more record end in the budget reads a longer prefix, longer only after `k + 1` record ends |
| CsvStream.DecodePrefix | src/csv.rs:57-68 | decoding fails exactly when fewer pieces than answers were decoded |
| CsvStream.DecodedPieces | src/csv.rs:57-68 | every decoded piece is the decoded chunk of its answer in order, and decoding stops exactly at the first chunk that does not decode |
| CsvStream.DecodeExtends | src/csv.rs:57-68 | reading more answers decodes at least as much, and a failure stays a failure |
| CsvStream.DecodeFailsIffBadChunk | src/csv.rs:57-68 | decoding fails exactly when some chunk does not decode |
| CsvStream.Assemble | src/csv.rs:64-84 | one complete record per record end |
| CsvStream.AssembleStep | src/csv.rs:57-84 | a chunk extends the cell; a field end pushes the cell onto the row; a record end also closes the row into a record |
| CsvStream.RecordsGrow | src/csv.rs:72-84 | reading more only adds records at the end |
| CsvStream.DecodedRecordsGrow | src/csv.rs:57-84 | the records of a prefix of the answers are a prefix of those of the whole, and a failure on the prefix is a failure on the whole |
| CsvStream.DecodedRecordCount | src/csv.rs:72-82 | when every chunk decodes there is one record per record end: the record index counts every completed record, skipped ones included |
| CsvStream.TrailingPiecesDiscarded | src/csv.rs:55 | pieces after the last record end add no record |
| CsvStream.Chunks | src/csv.rs:57-62 | one chunk piece per text, in order |
| CsvStream.ChunksExtendCell | src/csv.rs:57-62 | `OutputFull` chunks extend only the unfinished cell |
| CsvStream.FieldClosesCell | src/csv.rs:64-70 | a field end closes the cell as the concatenation of every chunk since the previous field end and starts an empty cell |
| CsvStream.FieldsReportCells | src/csv.rs:64-70 | the field ends for a list of cells report each cell in turn |
| CsvStream.FieldsExtendRow | src/csv.rs:64-70 | field ends that do not end a record append their cells to the row |
| CsvStream.CloseRecord | src/csv.rs:64-84 | a record end after such field ends closes the row, last cell included, into a record |
| CsvStream.AssembleRow | src/csv.rs:64-84 | the answers of one record add exactly that record |
| CsvStream.RecordsOfEmit | src/csv.rs:64-84 | grouping undoes emitting: the answers of complete records read back as those records |
| CsvStream.ResultOf | src/csv.rs:54-64 | the answer that reports a piece is not terminal and reports that piece |
| CsvStream.Answers | src/csv.rs:50-52 | one non-terminal answer per piece, each writing the encoding of its text |
| CsvStream.DecodeAnswers | src/csv.rs:57-68 | decoding undoes encoding: the answers of a list of pieces decode to those pieces without failure |
| CsvStream.ScannedToTerminal | src/csv.rs:55 | the driver reads nothing past the first terminal answer |
| CsvStream.EmitRoundTrips | src/csv.rs:57-68 | a codec that round-trips every cell round-trips every piece emitted for the records |
| LegacyCsv.PushWindow | contour_rust_pdk/src/csv.rs:49-55 | once the termination test let the record through, the lower-bound test and the inline slice keep exactly what `should_process_row` and `filter_row` keep |
| LegacyCsv.HandleAnswer | contour_rust_pdk/src/csv.rs:25-65 | one pass of the earlier loop, stop test first, keeps the same invariant as the current loop or leaves with the same result |
| LegacyCsv.Parse | contour_rust_pdk/src/csv.rs:7-68 | on every stream satisfying `NoSlicePanic` (on which, as both slice the same records, neither driver panics), the earlier driver returns what the current driver returns, errors included |
| LegacyCsv.StopFirstKeepsSameRecords | contour_rust_pdk/src/csv.rs:42-55 | the stop-then-lower-bound order keeps exactly the records the inclusion test keeps, and a record on which it stops is never kept |
| CsvScenarios.AsciiDecode | src/csv.rs:57-68 | the ASCII codec decodes exactly the chunks whose bytes are all below 128 |
| CsvScenarios.AsciiRoundTrip | src/csv.rs:57-68 | ASCII text decodes back from its bytes |
| CsvScenarios.Reads | src/csv.rs:31-111 | for an ASCII table of non-empty records, the driver panics exactly when the window does not fit, and otherwise returns the window |
| CsvScenarios.BasicCsv | src/csv.rs:118-129 | `a,b,c` / `1,2,3` gives both records whole |
| CsvScenarios.EmptyCsv | src/csv.rs:131-136 | empty input gives an empty table |
| CsvScenarios.SingleCellReported | src/csv.rs:138-143 | `value` gives one cell when the tokenizer reports the record end at the end of the input |
| CsvScenarios.SingleCellPendingAtInputEmpty | src/csv.rs:55 | when the tokenizer answers `InputEmpty` on the last bytes, the unfinished record is lost |
| CsvScenarios.SingleRow | src/csv.rs:145-153 | `a,b,c` gives one record of three cells |
| CsvScenarios.MultipleRows | src/csv.rs:155-167 | three records come back in order |
| CsvScenarios.CellAcrossAnswers | src/csv.rs:57-70 | a cell reported in two answers comes back as one cell |
| CsvScenarios.InvalidUtf8 | src/csv.rs:57-68 | a chunk that is not valid UTF-8 makes the driver fail |
| CsvScenarios.OverreadFails | src/csv.rs:72-82 | with one row wanted, `a` followed by a record holding the byte 0xFF makes the driver as written fail: it decodes the record after the window before its termination test fires |
| CsvScenarios.PromptStopsAtWindow | src/csv.rs:72-82 | on the same answers a driver that stops right after the window returns `[["a"]]` |
| CsvScenarios.ColumnFilteringStart | src/csv.rs:169-182 | columns from 1 on |
| CsvScenarios.ColumnFilteringCount | src/csv.rs:183-192 | the first two columns |
| CsvScenarios.ColumnFilteringBoth | src/csv.rs:193-202 | two columns from column 1 |
| CsvScenarios.RowFilteringStart | src/csv.rs:204-218 | rows from 1 on: the header row is skipped |
| CsvScenarios.RowFilteringCount | src/csv.rs:219-228 | the first two rows |
| CsvScenarios.RowFilteringBoth | src/csv.rs:229-238 | two rows from row 1 |
| CsvScenarios.CombinedFiltering | src/csv.rs:280-291 | two columns from column 1 of two rows from row 1 |
| CsvScenarios.EmptyFields | src/csv.rs:240-252 | empty cells come back as empty strings |
| CsvScenarios.QuotedFields | src/csv.rs:254-265 | a delimiter, a doubled quote and a line break inside quotes reach the cell |
| CsvScenarios.EmptyRows | src/csv.rs:295-305 | three line breaks give three records of one empty cell |
| CsvScenarios.SingleCharacterRows | src/csv.rs:307-317 | records of one single-character cell each |
| CsvScenarios.StartColumnPastEnd | src/csv.rs:324-326 | column 5 of two-cell records: the driver as written panics; clamped, every row is empty, as the test expects |
| CsvScenarios.StartRowPastEnd | src/csv.rs:328-330 | row 5 of two records gives an empty table without a panic |
| CsvScenarios.ColumnCountPastEnd | src/csv.rs:332-340 | five columns of two-cell records: the driver as written panics; clamped, the records come back whole, as the test expects |
| Config.SplitEnv | src/config.rs:159-173 | a name split into a slug and a domain suffix concatenates back to the name |
| Config.SplitEnvOfSuffixed | src/config.rs:159-173 | a slug followed by a domain suffix splits back into both |
| Config.DomainRequiredEnvs | src/config.rs:159-173 | three names for OAuth2 and two for a token, the first always `<slug>_environment` |
| Config.DomainEnvsSplit | src/config.rs:159-173 | the names are exactly `<slug>_environment, <slug>_client_id, <slug>_secret` for OAuth2 and `<slug>_environment, <slug>_token` for a token, pairwise different, each giving back its slug |
| Config.CollectedEnvsVisit | src/config.rs:28-35 | visiting one listener adds the two mail service names when it is an e-mail listener, and nothing otherwise |
| Config.RequiredEnvs | src/config.rs:20-38 | a definition of the set `required_envs` returns: the union of every domain's names and, when some listener is an e-mail listener, the mail service names; `RequiredEnvsMembers` gives its members in both directions |
| Config.PluginRequiredEnvs | src/config.rs:20-38 | the loop over the listeners, in any order, collects every domain's names and the mail service names when some listener is an e-mail listener |
| Config.MailNamesAreNotDomainNames | src/config.rs:21-38 | the mail service names are no domain's names |
| Config.RequiredEnvsMembers | src/config.rs:21-38 | a name is required exactly when a domain needs it, or it is a mail service name and some listener is an e-mail listener |
| Config.RequiredEnvsDependOnlyOnDomainsAndEmail | src/config.rs:21-38 | name, version, language, dimensions, the `form` flags and other listener kinds do not change the names |
| Config.DomainNamesRequired | src/config.rs:21-26 | every name a domain needs is required by the plugin |
| Config.IndexOf | src/config.rs:77-99 | the position of the first occurrence of a character, or none |
| Config.ParseBracketed | src/config.rs:77-99 | `kind<arg>` reads back as the kind and the argument |
| Config.Show | src/config.rs:77-99 | the `Display` text of a listener configuration, a definition, one arm per kind; `ShowParses` and `ShowDeterminesKind` state that it determines the kind and its argument |
| Config.ShowParses | src/config.rs:77-99 | the text of a configuration reads back as its kind name and its argument (the model, body and metadata, or model and record); `Email` and `Scraper` are their names alone |
| Config.NoBracket | src/config.rs:83-84 | a text without `<` reads back whole |
| Config.ShowDeterminesKind | src/config.rs:77-99 | equal texts mean the same kind and argument |
| Config.DefaultType | src/config.rs:142-144 | `default_type`, the text `()`; `ConfigResponse` and `DefaultMetadataShown` use it |
| Config.ConfigResponse | src/config.rs:129-144 | a request configuration with the given body and metadata, and `()` (the value of `default_type`) as metadata when none is given |
| Config.DefaultMetadataShown | src/config.rs:132-144 | a request listener without metadata renders as `Request<body, ()>` |
| Config.ShowExamples | src/config.rs:80-84 | `Manual<Lead>`, `Cron<Lead>`, `Email` and `Scraper` |
| Config.ShowTypedExamples | src/config.rs:85-96 | `Request<Body, ()>` and `Deleted<Contact<Id>>` |
| Macros.AllOkFirstError | macros/src/lib.rs:101-108 | the arguments render exactly when each does, their renderings in order; otherwise the first failing one's panic |
| Macros.AllOkPrefixError | macros/src/lib.rs:101-108 | once a prefix of the arguments panics, the rendering panics with that panic |
| Macros.WrittenStep | macros/src/lib.rs:95-113 | a turn over a segment that is not the last writes its identifier, consumes the next segment and writes `::` |
| Macros.WrittenLast | macros/src/lib.rs:95-99 | with an odd count, the last turn completes the identifiers at even positions joined by `::` |
| Macros.TypeString | macros/src/lib.rs:89-126 | a definition of `get_type_string` as written, by positions: `()` for the empty tuple, a panic for a non-empty tuple or a non-path type, and for a path the even-position identifiers joined by `::`, with the last segment's generic arguments for an odd count and a trailing `::` for an even one; `GetTypeString`, `EvenCountEndsWithSeparator` and `OddCountRendersLastGenerics` state it |
| Macros.GetTypeString | macros/src/lib.rs:89-126 | the loop with its double-advancing cursor computes the rendering by positions |
| Macros.RenderArguments | macros/src/lib.rs:100-109 | the map-and-join over the generic arguments gives every rendering in order, or the first panic |
| Macros.SkippedSegmentIgnored | macros/src/lib.rs:99 | a segment at an odd position is never rendered: replacing it changes nothing |
| Macros.EvenCountEndsWithSeparator | macros/src/lib.rs:95-114 | with an even count the rendering is the identifiers at even positions, each followed by `::`, generic arguments ignored; split on `::` it gives those identifiers and an empty last piece |
| Macros.OddCountRendersLastGenerics | macros/src/lib.rs:95-110 | with an odd count the last segment's arguments follow as `<a1, a2, …>`; a non-type argument or a panicking one makes the rendering panic |
| Macros.OneSegment | macros/src/lib.rs:95-110 | a one-segment path renders as its identifier followed by its generic arguments |
| Macros.OneSegmentExamples | macros/src/lib.rs:95-110 | `Cron` renders as `Cron` and `Foo<Bar>` as `Foo<Bar>` |
| Macros.ThreeSegmentsLoseTheMiddle | macros/src/lib.rs:99 | `a::b::C` renders as `a::C` |
| Macros.TwoSegmentsLoseTheName | macros/src/lib.rs:99 | `models::Foo` renders as `models::` |
| Macros.DistinctTypesCollide | macros/src/lib.rs:99 | `a::b::C` and `a::x::C` get the same command type |
| Macros.IntendedTypeString | macros/src/lib.rs:95-114 | a definition of the rendering with `peek()` for the end-of-path test: every identifier joined by `::`, then the last segment's generic arguments; `IntendedKeepsEverySegment` and `ShortPathsAgree` state its properties |
| Macros.IntendedKeepsEverySegment | macros/src/lib.rs:95-114 | the intended rendering of a plain path splits back into all of its identifiers |
| Macros.IntendedExamples | macros/src/lib.rs:95-114 | intended, `a::b::C` stays `a::b::C` and `models::Foo` stays `models::Foo` |
| Macros.ShortPathsAgree | macros/src/lib.rs:89-126 | where no path has more than one segment, the code as written and the intended rendering agree |
| Macros.OneIdentParameter | macros/src/lib.rs:24-34 | a definition: exactly one parameter, typed and bound to a plain identifier; `ListenerFn` rejects exactly the functions without it |
| Macros.ReturnAccepted | macros/src/lib.rs:43-56 | a definition: a path return type must end in `FnResult`, and other return types pass; `ListenerFn` rejects exactly the functions whose return type fails it |
| Macros.ListenerFn | macros/src/lib.rs:12-58 | the checks in source order: a non-public function, other than one plain typed parameter, the name `main`, no return type, or a path return type not ending in `FnResult` is rejected with its own panic, the first failing check deciding, each rejection stated in both directions; a parameter type that does not render fails with its rendering error once every check passes; otherwise the parameter's name, type and rendered command type |
| Io.GetType | src/io.rs:253-260 | the name has no `>` |
| Io.GetTypeTakesLastSegment | src/io.rs:253-260 | the result is the tail after the last of the left-to-right, non-overlapping `::` matches (so `x:::a` keeps `:a`), less its `>` characters: what precedes it is empty or ends in `::`, and it holds no `::` |
| Io.GetTypeOfUnqualifiedName | src/io.rs:255-258 | a name without `::` comes back whole, less its `>` characters |
| Io.GetTypeOfQualifiedName | src/io.rs:253-260 | a type declared in nested modules gets its own identifier |
| Io.TestStructName | src/io.rs:277-284 | `&contour_rust_pdk::io::tests::TestStruct` gives `TestStruct` |
| Io.NestedResourceName | src/io.rs:286-302 | `&contour_rust_pdk::io::ResourceInput<contour_rust_pdk::io::tests::TestStruct>` gives `TestStruct` |
| Io.NewEntryInput | src/io.rs:33-44 | the entry type is `get_type` of the entry's type name, and every other argument is stored as given |
| Io.RequestBuilder.AddHeaders | src/io.rs:112-115 | the header map is replaced, not merged, and nothing else changes |
| Io.RequestBuilder.AddParameters | src/io.rs:117-120 | the parameter list is replaced and nothing else changes |
| Io.RequestBuilder.AddBody | src/io.rs:122-125 | the body is set, nothing else changes, and the step never fails |
| Io.RequestBuilder.Build | src/io.rs:127-137 | every field is copied unchanged into the request |
| Io.NewRequestBuilder | src/io.rs:100-110 | the path becomes the endpoint, with no parameters, no headers and no body |
| Io.BuiltRequest | src/io.rs:100-137 | a full chain builds the request from exactly what each step supplied; a later header map overrides an earlier one; headers and parameters commute |
| Text.Split | src/io.rs:255 | `str::split` on a non-empty pattern, a definition: the pieces between the matches found from left to right without overlap, at least one; `JoinSplit`, `SplitJoin` and `LastPieceHasNoSeparator` state its properties |
| Text.Join | macros/src/lib.rs:108 | `join`, a definition: the parts in order with the separator between neighbours; `JoinSplit` and `SplitJoin` relate it to `Split` |
| Text.LastPiece | src/io.rs:256 | `.last().unwrap()` of the split, a definition, defined because a split has at least one piece; `LastPieceHasNoSeparator` and `Io.GetTypeTakesLastSegment` state its properties |
| Text.JoinSplit | src/io.rs:255 | joining the pieces of a split with the separator gives the text back |
| Text.SplitJoin | src/io.rs:255 | splitting undoes joining when no part holds the separator's first character |
| Text.LastPieceHasNoSeparator | src/io.rs:256 | the last piece of a split holds no separator |
| Text.Remove | src/io.rs:258 | the result has no occurrence of the character, and a text without it is unchanged |
| Text.RemoveKeepsOthers | src/io.rs:258 | every other character occurs in the result exactly as often as in the text |
| Text.RemoveConcat | src/io.rs:258 | deleting works piece by piece, so the characters kept stay in their order |

## Left out

- The tokenizer `csv_core::Reader` is a foreign library. Its answers are an input sequence, so quoting, escaping and the handling of line-break styles are not modelled. The scenarios give the answers under which each test's expectation holds, assuming that the last record end is reported when the input runs out and that blank lines come back as records of one empty cell.
- UTF-8 validation (`std::str::from_utf8`) is an abstract decoder parameter. The `anyhow` context messages collapse into the one error `Utf8Error`.
- `usize` overflow in `starting_row + rows` and `starting_col + cols` is not modelled: indices are unbounded naturals.
- Csv.Parse and LegacyCsv.Parse: the slice panic of `filter_row` is a precondition (`NoSlicePanic`) instead of a modelled crash. The panic condition is `NoSlicePanic` itself; for the answers that report a table of complete records, `Csv.ParseOfAnswers` reduces it to the window fitting the table (`WindowFits`).
- The tokenizer stream is assumed to reach a terminal answer (`WellFormed`), as the real tokenizer does once its input is consumed. The model does not cover a tokenizer that runs forever.
- Whether a record without a final line break appears depends on what the tokenizer answers on the last bytes. Both behaviours are stated for `value` (`SingleCellReported`, `SingleCellPendingAtInputEmpty`). The other scenarios assume the record end is reported; under the `InputEmpty` answer every test whose input has no trailing line break loses its last record, not only the single-cell one.
- The Unicode test of `src/csv.rs` (lines 267-278) is not stated: the scenario codec is ASCII only.
- `ConfigPlugin::required_envs` returns a `HashSet`, whose iteration order is not modelled: the result is a set. The listener loop visits the listener keys in an arbitrary order, as a `HashMap` does.
- The serde attributes (`rename_all`, `tag`, `flatten`, `default`) are not modelled; `default_type` appears as the metadata default of `ConfigResponse`.
- The `quote!` code generation and the ABI wrapper of `listener_fn` (macros/src/lib.rs:58-86) are not modelled, nor is `syn` parsing: the macro input is a small datatype.
- The `{:?}` payloads of the panic messages are not modelled: each panic is an error value naming its check.
- `std::any::type_name_of_val` is a compiler intrinsic: its output is a string argument of `GetType` and `NewEntryInput`.
- chrono dates, `Decimal`, `Uuid` and `Duration` values are carried as opaque numbers. `LineInput::new`, `ResourceInput::new` and the other constructors of `src/io.rs` only copy their arguments and are not modelled.
- src/lib.rs (host bindings and mocks), src/models.rs, src/command.rs and src/response.rs (data declarations) and tests/test_macro.rs (which exercises macros not defined in macros/src/lib.rs) are not part of this model.

## Findings

| source | as written | input that shows it | evidently intended | confidence | as-written member | corrected member |
|---|---|---|---|---|---|---|
| src/csv.rs:106-111 | `filter_row` slices `row[starting_col..starting_col + n]` without clamping, which panics when the window passes the end of the record | `a,b\n1,2` with `starting_col = 5`, or with `cols = 5` (the test at src/csv.rs:320-341) | the test expects clamping: every row empty for a start past the end, whole records for a count past the end | not executed | Csv.FilterRow, Csv.ParseOfAnswers, CsvScenarios.StartColumnPastEnd, CsvScenarios.ColumnCountPastEnd | Csv.ClampedFilterRow, Csv.ParseClampedOfAnswers, Csv.ParseClampedAgrees |
| macros/src/lib.rs:99 | the end-of-path test calls `segments.next()` instead of `peek()`, consuming the following segment, so only the segments at even positions are written | the parameter type `a::b::C` renders as `a::C`; `models::Foo` renders as `models::`; `a::b::C` and `a::x::C` collide | every segment written, joined by `::`, with the last segment's generic arguments | not executed | Macros.TypeString, Macros.GetTypeString, Macros.ThreeSegmentsLoseTheMiddle, Macros.TwoSegmentsLoseTheName, Macros.DistinctTypesCollide | Macros.IntendedTypeString, Macros.IntendedKeepsEverySegment, Macros.IntendedExamples, Macros.ShortPathsAgree |
| src/csv.rs:78-80 | the termination test runs on the record after the row window, so with a row count the driver reads and decodes record `startingRow + rows` before it stops | `rows = Some(1)` on `a\n` followed by a line holding the byte 0xFF: `Err` instead of `[["a"]]` | stop as soon as the row window is complete, so that nothing after the last wanted record is read | not executed | Csv.LaterAnswersIgnored, CsvScenarios.OverreadFails | Csv.PromptScanReadsLess, Csv.PromptIgnoresLaterAnswers, Csv.ParsePromptAgrees, CsvScenarios.PromptStopsAtWindow |
