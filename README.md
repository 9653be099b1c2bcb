# api_exam CSV converter: a verified model of `processFile`

The converter watches an input directory for CSV files of people records. It
turns each file into a JSON document of valid records and a CSV report of the
rejected lines, then deletes the input. This project models `processFile`
(`main.go:137-299`), the one function that holds the converter's logic, and
proves what it promises.

- **Header map** (module `HeaderMap`). The first row the CSV reader yields
  becomes a map from column name to position. `BuildHeader` is the loop that
  fills it; `HeaderOf` is the function it is proved against. A repeated name
  keeps its last position, so the map is smaller than the row.
- **Row validation** (modules `Schema`, `Strconv`, `RowValidator`). The check
  chain of `main.go:183-254` is a pure function `Validate` from the header map
  and one row to a verdict:
  - accept the record;
  - reject it with one `RowError`;
  - or `IndexOutOfRange`, the runtime panic of `record[id]` when a header
    position lies past the row's end.

  `Strconv.Atoi` models Go's `strconv.Atoi` on a 64-bit platform, including
  its range errors. Besides `Validate`, the module holds an independent
  reference: the rules as a list of separate checks, `Chain`. Validate is
  proved to report the first check in `Chain` that fails.
- **Read loop** (module `FileConverter`). The CSV reader is a sequence of
  `ReadResult`s, either a row or a parse error. `ProcessRows` is the loop of
  `main.go:163-257`:
  - the line number counts every read;
  - a parse error adds an error row;
  - the first row becomes the header;
  - every later read gives exactly one outcome.

  Its body is split into `HandleRead`, one call per read. Both are proved
  against a declarative account, `Outcomes(input)`, which gives one `Outcome`
  per read. From that account, `AcceptedRecords` and `ErrorTable` give the
  `records` and `errs` slices.
- **Paths** (module `Paths`). `filepath.Ext`, `filepath.Base`,
  `strings.TrimSuffix` and ASCII `strings.ToLower`, with:
  - the case-insensitive `.csv` test of `main.go:153-155`;
  - the output name of `main.go:270`.
- **The whole file** (module `FileProcessing`). `ProcessFile` is the
  extension test, the loop, then `WriteOutputFiles`: the JSON file, the error
  report when `errs` holds more than its title row, and the removal of the
  input. Each file-system call is a boolean of `Env`, and the files written
  are a list of `Effect`s. `ProcessFile` is proved equal to the declarative
  `Convert`.

## Behaviour worth knowing

- **No valid records.** The JSON document is `null`, not `[]`. `records`
  starts as a nil slice (`main.go:138`), and `json.MarshalIndent`
  (`main.go:262`) writes a nil slice as `null`. `JsonWrittenFirst` states
  this.
- **Line numbers.** A line number counts calls of the CSV reader
  (`main.go:165-166`), not physical lines. The reader skips blank lines, and a
  quoted field can span several lines.
- **The id field.** The `Record` comment (`main.go:48`) calls the id an
  8-digit positive number. The checks (`main.go:193-205`) test the field's
  byte length, `strconv.Atoi` and `< 0`. So "+1234567" is accepted as
  1234567 (`SignedIdExample`). Any 8-byte field that `Atoi` reads as a
  value from 0 to 99999999 passes, with leading zeros or a '+' sign. Even a
  '-' sign passes: "-0000000" parses to 0, which is not below 0, so it is
  accepted as id 0 (`NegativeZeroIdExample`).
- **A read error that repeats.** The loop ends only on `io.EOF`
  (`main.go:165-169`); after any other error it logs a row and reads again
  (`main.go:170-173`). A reader whose error repeats therefore keeps the loop
  running for ever. One case is a directory whose name ends in ".csv": the
  glob (`main.go:115`) and the watcher events (`main.go:97`) pass it on,
  `os.Open` (`main.go:157`) opens it without error, and every `Read` then
  fails the same way. Nothing is written and nothing is removed.
- **The field-count check** (`main.go:183`) compares a row's width with the
  size of the header map, which is the number of distinct names.
  - With distinct names it matches the header row's width.
  - With a repeated name, every row as wide as the header row is rejected.
    `SameWidthRows` states this.
  - A row of another width is already refused by Go's CSV reader, which
    reports a parse error first.
- **The `record[id]` lookups** (`main.go:193, 212, 226, 236, 250`). They can
  run past the row only when a schema column's position is at least the size
  of the header map. That needs a repeated name in the header row
  (`PanicNeedsDuplicateHeader`) and a row narrower than the header row.
  A repeated name alone is not enough: with the header
  `INTERNAL_ID,FIRST_NAME,MIDDLE_NAME,LAST_NAME,PHONE_NUM,X,X` every schema position is below
  the map's size 6. Go's reader gives every row it delivers without error the
  same width. So the program as written does not panic here
  (`NoCrashWithUniformWidth`). The model takes the reader's rows as given, so
  it still records the panic as `Crashed`, `Status.Panicked` and
  `Exit.PanicAt`.

## Model

| member | source | states |
|---|---|---|
| Schema.PhoneMatchesAt | main.go:61 | the phone pattern holds exactly for 12 characters with '-' at positions 3 and 7 and ASCII digits everywhere else |
| Schema.PhoneExamples | main.go:61 | "555-123-4567" matches; "5551234567", "", a letter in the last group and a trailing newline do not |
| Strconv.ScanDigitsValue | main.go:197 | scanning an all-digit string whose value fits 64 bits yields that value |
| Strconv.ScanDigitsSyntax | main.go:197 | on a string too short to overflow 64 bits, a non-digit is a syntax error (the case of every 8-byte id field) |
| Strconv.AtoiShort | main.go:197-201 | below 19 bytes, Atoi succeeds exactly on an optional sign followed by digits, with the value they denote, and otherwise fails with a syntax error |
| Strconv.EightByteRange | main.go:193-205 | an 8-byte field that Atoi accepts lies between -9999999 and 99999999 |
| Strconv.AtoiExamples | main.go:193-201 | "12345678" parses to 12345678; "12ab5678", "" and "-" are syntax errors |
| Strconv.AtoiSignedExamples | main.go:197-205 | "+1234567" is 1234567; "-1234567" and "-0000001" parse to negative values |
| Strconv.ZerosValue | main.go:197 | a run of zeros of any length is all digits and denotes 0 |
| Strconv.NegativeZeroExample | main.go:197-205 | "-0000000" parses to 0, which the `< 0` test lets through |
| HeaderMap.HeaderOfSpec | main.go:175-181 | the map's keys are exactly the names of the header row; each maps to a position holding that name, and no later position holds it |
| HeaderMap.HeaderSnoc | main.go:177-179 | one more column assigns its name to the new last position |
| HeaderMap.BuildHeader | main.go:176-179 | the in-place loop over the header row builds exactly HeaderOf(row) |
| HeaderMap.NamesSize | main.go:177-179 | a row has as many different names as columns exactly when its names are distinct, and fewer otherwise |
| HeaderMap.HeaderSize | main.go:177-183 | len(header) equals the header row's width for distinct names and is smaller otherwise |
| HeaderMap.SnocDistinct | main.go:177-179 | a row extended by a name is distinct exactly when the row is distinct and the name is new |
| HeaderMap.DistinctPositionsInRange | main.go:177-193 | with distinct names every stored position is below len(header) |
| HeaderMap.DuplicateExample | main.go:177-179 | a repeated name keeps its last position and gives one key |
| RowValidator.CheckId | main.go:188-205 | a passing id comes from an 8-byte field that Atoi accepts, and it is non-negative |
| RowValidator.CheckName | main.go:207-243 | a passing name is the field verbatim, at most 15 bytes, and non-empty when required |
| RowValidator.CheckPhone | main.go:245-254 | a passing phone is the field verbatim and matches the phone pattern |
| RowValidator.Validate | main.go:183-256 | an accepted record is well formed and copies each field from its named column; the count error fires exactly when the width differs from len(header); a panic needs a named position past the row |
| RowValidator.NoOutOfRangeWhenPositionsFit | main.go:183-193 | when every header position is below the header size, no lookup panics |
| RowValidator.DistinctHeaderNeverPanics | main.go:177-193 | with a header row of distinct names, validation never indexes out of range |
| RowValidator.SameWidthRows | main.go:177-186 | a row as wide as the header row gets the count error exactly when the header repeats a name, and never panics |
| RowValidator.FailureFromIsFirst | main.go:183-254 | the reference search returns a failing check with every earlier check passing, or none fails |
| RowValidator.Unroll | main.go:183-254 | one step of the reference search: a passing check moves on, a failing one is found |
| RowValidator.IdAgrees | main.go:188-205 | the id checks agree with the Present(ID), 8-byte, parses and non-negative entries of Chain |
| RowValidator.NameAgrees | main.go:207-243 | each name check agrees with its presence, length and non-empty entries of Chain |
| RowValidator.PhoneAgrees | main.go:245-254 | the phone check agrees with its presence and pattern entries of Chain |
| RowValidator.ValidateFollows | main.go:183-254 | Validate accepts exactly when no check fails; a rejection is ErrorFor of the first failing check, which refutes the row |
| RowValidator.ValidateIsFirstFailure | main.go:183-254 | fail-fast in Chain order: accept iff every check passes; a rejection is the first failing check's error, with the values its message quotes (ErrorFor) |
| RowValidator.SchemaOrderLayout | main.go:175-181 | a header row listing the five schema columns in order puts them at positions 0 to 4 |
| RowValidator.SchemaPositions | main.go:23-34 | the schema's own column order gives that layout |
| RowValidator.AcceptExample | main.go:183-256 | a valid row is accepted with its fields copied |
| RowValidator.SignedIdExample | main.go:197-230 | a '+'-signed id and an empty middle name are accepted |
| RowValidator.NegativeZeroIdExample | main.go:193-205 | "-0000000" passes every id rule and is accepted as id 0 |
| RowValidator.IdRejectionExamples | main.go:193-205 | "1234567" fails the length rule, "12ab5678" the parse rule and "-0000001" the sign rule |
| RowValidator.FirstErrorWinsExamples | main.go:183-254 | with two faults only the first is reported; a short row reports only the count |
| FileConverter.HeaderIndex | main.go:170-181 | the header, if any, is a row |
| FileConverter.HeaderIndexSpec | main.go:170-181 | every read before the header is a parse error, and without a header every read is one |
| FileConverter.HeaderIndexFirst | main.go:175-181 | the first row read is the header |
| FileConverter.OutcomeAt | main.go:165-256 | a read is taken as the header exactly at the header's position |
| FileConverter.OutcomesUpTo | main.go:165 | one outcome per read |
| FileConverter.OutcomesAt | main.go:165 | the account gives each read its own outcome |
| FileConverter.OutcomesPrefix | main.go:165 | the outcomes of the first m reads do not depend on later reads |
| FileConverter.ErrorTable | main.go:140-150 | the error table always starts with the LINE_NUM, ERROR_MSG title row |
| FileConverter.SnocStep | main.go:150-256 | one more read extends records and errs by exactly its own share |
| FileConverter.HandleRead | main.go:166-256 | one read extends the loop state by its outcome, or panics exactly when its outcome is a crash |
| FileConverter.LoopStateStep | main.go:165-256 | the loop state advances by one read's share |
| FileConverter.ProcessRows | main.go:163-257 | over a finite sequence of reads ending in EOF, the loop completes exactly when no read crashes; records and errs are those of the outcomes of every read it took; a panic reports the line that crashed |
| FileConverter.OneOutcomePerRead | main.go:165-256 | records plus error rows plus header reads add up to the number of reads |
| FileConverter.HeaderReadsUpTo | main.go:175-181 | among the first n reads exactly one is taken as the header when the first row is among them, and none otherwise |
| FileConverter.EveryReadAccountedFor | main.go:165-256 | every read of a file that does not panic becomes exactly one record, one error row or the header |
| FileConverter.AcceptedRecordsAppend | main.go:256 | the records of two runs of reads concatenate in order |
| FileConverter.AcceptedRecordsExact | main.go:256 | a record is output exactly when some read accepted it |
| FileConverter.NoneAccepted | main.go:138-256 | no record is output exactly when no read was accepted |
| FileConverter.ErrorTableSound | main.go:148-151 | each error row names the line of a rejected read with that read's message, and lines strictly increase |
| FileConverter.ErrorTableComplete | main.go:148-151 | every rejected read appears in the table under its own line |
| FileConverter.ErrorTableHasErrors | main.go:140-150 | the table holds more than its title row exactly when some read was rejected |
| FileConverter.ParseErrorReported | main.go:170-173 | a read the reader could not parse is reported on its own line with its message |
| FileConverter.AcceptedAreWellFormed | main.go:187-256 | every output record is well formed |
| FileConverter.NoCrashWithDistinctHeader | main.go:177-193 | with distinct header names no read crashes |
| FileConverter.CrashNeedsDuplicateHeader | main.go:177-193 | a crash needs a data row after the header, and a header row that repeats a name |
| FileConverter.NoCrashWithUniformWidth | main.go:183-193 | when every row is as wide as the header row, nothing crashes |
| FileConverter.HeaderOnlyFile | main.go:175-181 | a file with only a header has no records and only the title row |
| FileConverter.TwoRowFileExample | main.go:165-256 | header, valid row and 7-digit id row: one record, and an error on line 3 |
| FileConverter.ThreeReads | main.go:165-256 | header, accepted row, rejected row: one record, and an error on line 3 |
| FileConverter.ThreeOutcomes | main.go:140-256 | the tables for the outcomes header, accepted, rejected |
| Paths.Ext | main.go:153 | the extension is a suffix of the path and is empty or starts with '.' |
| Paths.LastElement | main.go:270 | the last element is a separator-free suffix preceded by a separator, or the whole path |
| Paths.TrimTrailingSeparators | main.go:270 | only trailing separators are dropped |
| Paths.Base | main.go:270 | the base name is non-empty and free of separators unless it is the root |
| Paths.TrimSuffix | main.go:270 | the suffix is dropped exactly when the string ends with it |
| Paths.ToLower | main.go:155 | lower-casing keeps the length |
| Paths.ExtSpec | main.go:153 | the extension runs from the last dot of the last element, and is empty when that element has no dot |
| Paths.SuffixSnoc | main.go:153 | appending a common last character keeps a suffix a suffix |
| Paths.CsvExtensionIff | main.go:153-155 | a path is converted exactly when it ends in '.' and c, s, v in any case |
| Paths.CsvTail | main.go:153-155 | such a path has those last four characters as its extension |
| Paths.CsvPathExt | main.go:153-155 | a path ending in a csv extension meets the test's character conditions |
| Paths.BaseOfFilePath | main.go:270 | a path not ending in a separator has its last element as base name |
| Paths.LastElementAfter | main.go:270 | the last element is whatever follows the last separator |
| Paths.OutputNameShape | main.go:270 | for a converted path, the output name is the base name with its four-character extension replaced by ".json", and holds no separator |
| Paths.ExtensionExamples | main.go:153-155 | ".csv" and ".Csv" are converted, and so is a directory named "dir.csv", since only the path string is tested; ".bak", no extension and a path ending in '/' are not |
| Paths.OutputNameOfFile | main.go:270 | dir/stem.csv, in any case, is written out as stem.json; dots inside the stem stay |
| FileProcessing.FirstCrash | main.go:165-193 | the position of the first crashing read, with no crash before it |
| FileProcessing.FirstCrashUnique | main.go:165-193 | the first crash is unique |
| FileProcessing.ProcessFile | main.go:137-299 | the method equals Convert: the extension test, the open, the loop, the writes and the removal in that order |
| FileProcessing.WriteOutputFiles | main.go:262-296 | the steps after the loop equal WriteOutputs: JSON file, report only when errs has more than its title row, then the removal, each failed call ending the run |
| FileProcessing.OnlyCsvFilesTouched | main.go:153-155 | a path without a case-insensitive ".csv" ending is returned without effect |
| FileProcessing.ConvertAfterLoop | main.go:258-298 | after a loop without a panic, the outputs are those of the accepted records and the error table |
| FileProcessing.JsonFirst | main.go:262-274 | when the JSON write succeeds, the JSON file is the first output |
| FileProcessing.JsonWrittenFirst | main.go:256-274 | the JSON file comes first under the output name; it is null exactly when no line was accepted, and otherwise lists well-formed records from accepted lines |
| FileProcessing.ReportIffErrorRows | main.go:276-291 | the report is written exactly when errs has more than its title row, and it holds errs |
| FileProcessing.ReportIffRejected | main.go:276-291 | the report is written exactly when some line was rejected, and it holds the error table |
| FileProcessing.RemovalAfterWrites | main.go:262-296 | the removal is the last output and follows the JSON file and, if needed, the report |
| FileProcessing.RemovalComesLast | main.go:262-296 | the input is removed last, after two or three outputs depending on whether a line was rejected |
| FileProcessing.PanicNeedsDuplicateHeader | main.go:177-193 | processFile panics only on a row after a header row that repeats a name |

## Left out

- `init`, `main`, flag parsing, logging, the fsnotify watcher, the goroutine
  and the WaitGroup (`main.go:65-134`). These are configuration, I/O and
  concurrency.
- `FileConverter.ProcessRows` takes the reader's results as a finite
  sequence, so it always reaches the end of input. It does not model a
  reader whose error repeats without end (a directory named "*.csv", for
  one), where the Go loop never ends.
- The CSV reader, Go's `encoding/csv`. The model takes its results as given.
  Blank-line skipping, quoting and its own width check stay inside it.
- File-system calls. `os.Open`, `ioutil.WriteFile`, `os.OpenFile`,
  `csv.Writer.WriteAll` and `os.Remove` are booleans of `Env`. Their results
  are `Effect`s that name the file and its content.
  - A failed report is modelled as `Terminated`, standing for `logrus.Fatal`
    (`main.go:283, 289`). Partial report contents are not modelled.
  - The `Close` calls, and the file a panic leaves open, are not modelled.
- The directories `outputDir` and `errorDir` joined in front of the names. The
  model names files by base name only.
- JSON rendering and the `MarshalIndent` error branch (`main.go:262-265`). A
  `[]Record` always marshals, and `JsonDoc` stands for the document.
- The CSV rendering of the error report. An error row is a line number plus an
  `ErrorMessage`.
- Message text formatting (`%q`, `%d`, `%v`). Each error is a `RowError` value
  that carries the value the message quotes.
- `Paths.ToLower` lower-cases only ASCII letters, while `strings.ToLower` maps
  all of Unicode. No other character lowers to one of ".csv", so the
  extension test is unchanged.
- `Paths.Ext` and `Paths.Base` use Unix path rules with '/' as the only
  separator. There are no volume names.
- A Go string is a byte string, and each `char` stands for one byte, as Go's
  `len` counts.
- Regular expressions in general. `Schema.PhoneMatches` is the one pattern the
  program uses, written out by hand.
- `Strconv.ScanDigitsSyntax` is stated only for strings too short to
  overflow 64 bits. On a longer string, a range error can come before the
  non-digit; `ScanDigits` itself models that order. The id field has 8 bytes,
  so `AtoiShort` needs only the short case.
