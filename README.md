# Attendance report pipeline — a verified model

This project models the core of `app.js`, a small Node.js tool. It reads a
meeting attendance report exported as tab-separated text. From it, the tool
extracts the participant section, turns each participant row into a record,
sorts the records by surname, and decides for each participant whether a
certificate is due ("Tak") or not ("Nie"). The file I/O around it is not
modelled. The four stages are modelled in the source's own shape:

- **Section scanner** (`scanner.dfy`, module `Scanner`). This is the per-row
  callback of `readFile`. `Scan` is a loop that keeps the two booleans
  `startReading` and `stopReading`. It is proved equal to two references:
  - `Run`, a three-phase state machine (Before, Inside, After);
  - `Section`, a declarative slice: the rows after the first row that holds the
    start marker, up to the first later row that holds the stop marker.
- **Record builder** (`records.dfy`, module `Records`). `ProcessRows` is the
  loop of `processRows`. It keeps the `headersSet`, `headers` and
  `participants` state and has the early `return`; the `undefined` result is
  `None`. `MapRow` is the inner `headers.forEach`. `ProcessRows` is proved equal
  to `Build`, a declarative reference:
  - blank rows are dropped;
  - the first remaining row is the header;
  - every later row becomes a participant;
  - if any such row lacks a name or a duration, the result is `None`.
- **Sorter** (`sorter.dfy`, module `Sorter`). `SortByLastName` sorts an
  `array<Participant>` in place, with insertion sort, and returns the same
  array. The comparator `before(x, y)` stands for `x.localeCompare(y) <= 0`. The
  model only assumes that it is a total preorder. The result is proved to be:
  - sorted by surname;
  - a permutation of the input;
  - stable (JavaScript's `Array.prototype.sort` is stable).
- **Eligibility classifier** (`eligibility.dfy`, module `Eligibility`).
  `DetermineCertificateEligibility` maps each participant to an output record.
  The regular expression `\b([1-9]\d*) godz` is written out by hand as
  `MatchesAt`. `MatchesAtIsPattern` proves that this agrees with `PatternAt`, a
  reading of the regular expression with word boundary and backtracking
  digits.

`strings.dfy` (module `Strings`) holds the two JavaScript string operations
used: `includes` (`Contains`) and `split` on one character (`Split`, with its
inverse `Join`). `wrappers.dfy` holds `Option`.

Three behaviours of the code that a reader might not expect, all modelled as
written:
- **Name split.** Only the first two pieces of the name split on `' '` are
  kept, so a third piece is dropped. The surname is not the rest of the string
  joined back together.
- **Bad rows.** A row with an empty name or duration makes `processRows` return
  `undefined`. Every participant already collected is lost, not just the rows
  after it. `EarlyReturnLosesEarlierRows` shows an input where this happens.
- **Hour pattern.** The pattern needs exactly one space between the hour count
  and `godz`, not any whitespace.

## Model

| member | source | states |
|---|---|---|
| `Strings.Split` | app.js:78 | `split(' ')` yields at least one piece, no piece holds the separator, and joining the pieces with it gives back the input |
| `Strings.SplitJoin` | app.js:78 | splitting the join of separator-free pieces gives those pieces back (round trip) |
| `Strings.Contains` | app.js:24-30 | (no contract; definition) true exactly when `sub` occurs in `s` at some index, the empty string occurring everywhere, as `includes` decides |
| `Scanner.RowHasFlag` | app.js:24-30 | (no contract; definition) true exactly when some cell of the row contains the flag as a substring; used for both the start test (line 24) and the stop test (line 30) |
| `Scanner.Scan` | app.js:18-35 | the rows pushed to `dataRows` are exactly the declarative `Section`: those strictly after the first start-marker row and before the first later stop-marker row |
| `Scanner.FirstWith` | app.js:23-33 | the index found is the first row with a cell containing the flag, or the end when no row has one |
| `Scanner.RunAfter` | app.js:20 | once `stopReading` is set, no further row is emitted |
| `Scanner.RunInside` | app.js:29-34 | while reading, every row up to (not including) the first stop-marker row is pushed unchanged |
| `Scanner.RunIsSection` | app.js:20-34 | the flag-driven state machine started before the section emits exactly the declarative section |
| `Scanner.SectionWithoutStart` | app.js:23-27 | if no row contains the start marker, the output is empty |
| `Scanner.SectionBetweenMarkers` | app.js:20-34 | with `s` the first start row and `e` the first later stop row (or the end), the output is `rows[s+1..e]`: the start row, everything before it, the stop row and everything after are dropped |
| `Scanner.SectionShape` | app.js:30-34 | no emitted row contains the stop marker, and a non-empty output is a contiguous run of input rows right after a start-marker row |
| `Records.Cell` | app.js:66 | (no contract; definition) the cell at column `index`, or `''` when the row has no such column |
| `Records.IsBlank` | app.js:55 | (no contract; definition) true exactly when every cell of the row is the empty string, the only falsy cell value |
| `Records.RowDataKeys` | app.js:64-67 | `rowData` has exactly one key per header name |
| `Records.RowDataValues` | app.js:64-67 | the value under a header name is the cell of that name's last column (a later column overwrites an earlier one), or `''` when the row is shorter or the cell empty |
| `Records.FieldOfColumn` | app.js:64-71 | reading a field gives the cell under its last header column, and `''` when the header lacks it |
| `Records.MapRow` | app.js:64-67 | the `forEach` loop builds exactly that `rowData` |
| `Records.Field` | app.js:70-73 | (no contract; definition) the value stored under the key, or `''` when the key is absent, so both read as falsy alike |
| `Records.SplitName` | app.js:78-83 | neither the given name nor the surname contains a space; `SplitNameOneWord`, `SplitNameTwoPieces` and `SplitNameEmptySecond` together fix its value on every input |
| `Records.SplitNameOneWord` | app.js:78-83 | a name without a space becomes the surname, with an empty given name |
| `Records.SplitNameTwoPieces` | app.js:78 | with two space-free pieces, the second non-empty, they become given name and surname, and anything after a further space is dropped |
| `Records.SplitNameEmptySecond` | app.js:79-83 | when the second piece is empty (trailing or doubled space), the first piece becomes the surname and the given name is empty |
| `Records.SurnameNonEmpty` | app.js:78-83 | a non-empty name that does not start with a space always yields a non-empty surname |
| `Records.ToParticipant` | app.js:64-85 | one data row gives `None` (the early `return`) exactly when its name or duration field is empty; otherwise a participant whose given name and surname are `SplitName` of the name field (hence space-free) and whose duration is that field, non-empty |
| `Records.DataParticipantsSpec` | app.js:70-85 | the data rows under a header give `None` exactly when some row has an empty name or duration field; otherwise they give one participant per row, in order |
| `Records.DataParticipantsAppend` | app.js:73-85 | one more data row either fails the batch or appends that row's participant at the end |
| `Records.DataParticipantsPrefix` | app.js:73-76 | once some data row has failed, any longer run of data rows starting with it fails too |
| `Records.FailingRowFailsBatch` | app.js:73-76 | a failing data row after the header makes the whole result `None`, whatever comes before or after |
| `Records.ProcessRows` | app.js:48-88 | the loop with its header state and early `return` computes exactly `Build`: blank rows skipped, first non-blank row as header, and the outcome described by `BuildOutcome` |
| `Records.BuildOutcome` | app.js:53-87 | the result is `None` exactly when a non-blank row after the header yields no participant; otherwise it has one participant per such row, in input order, with the duration copied, and the header row yields none |
| `Records.BlankRowIgnored` | app.js:55 | inserting an all-empty row anywhere leaves the result unchanged |
| `Records.EarlyReturnLosesEarlierRows` | app.js:73-76 | a valid participant followed by a row with an empty name gives `None`: the earlier participant is lost too |
| `Sorter.SwapStep` | app.js:93 | moving an entry down past a strictly greater surname keeps the insertion invariant (sorted except the moving entry, stability, rearrangement of the input) |
| `Sorter.FinishInserting` | app.js:93 | when the moving entry meets a surname that is not greater, the prefix one longer is sorted and stable |
| `Sorter.InsertDown` | app.js:93 | one insertion pass extends the sorted, stable prefix by one entry and permutes the array |
| `Sorter.SortByLastName` | app.js:92-94 | returns the same array, now ordered non-decreasingly by surname under the comparator, a permutation of the input, and stable: equal surnames keep their input order |
| `Eligibility.DigitsEnd` | app.js:99 | the greedy `\d*` run: every character up to the result is a digit and the one at the result is not |
| `Eligibility.MatchFromSpec` | app.js:99 | `test` trying start positions left to right succeeds exactly when some position from there on matches |
| `Eligibility.MatchesAtIsPattern` | app.js:99 | the hand-written matcher at a position succeeds exactly when `\b([1-9]\d*) godz` matches there, for any backtracking length of the digit run |
| `Eligibility.MatchesAt` | app.js:99 | (no contract; definition) at start position `i`: no word character just before, a digit 1-9, the maximal digit run, then ` godz` |
| `Eligibility.HasHourCount` | app.js:99 | (no contract; definition) the `test` of the duration: `MatchesAt` holds at some start position, tried left to right from 0 |
| `Eligibility.StatusIsPattern` | app.js:99 | the status is `Tak` exactly when the pattern occurs somewhere in the duration |
| `Eligibility.Status` | app.js:99 | the status is always `Tak` or `Nie` |
| `Eligibility.Classify` | app.js:98-105 | the `map` callback copies surname, given name and duration, and its status is `Tak` exactly when the pattern occurs in the duration and `Nie` exactly when it does not |
| `Eligibility.DetermineCertificateEligibility` | app.js:97-107 | one output record per participant, in order; surname, given name and duration are copied unchanged; the status is `Tak` when the pattern occurs in the duration and `Nie` otherwise |
| `Eligibility.StatusTakExamples` | app.js:99 | `1 godz. 5 min.` and `12 godz` give `Tak` |
| `Eligibility.StatusMinutesOnly` | app.js:99 | `45 min.` gives `Nie` |
| `Eligibility.StatusZeroHours` | app.js:99 | `0 godz. 50 min.` gives `Nie`: zero hours do not qualify |
| `Eligibility.StatusNoBoundary` | app.js:99 | `01 godz` and `x1 godz` give `Nie`: no word boundary before a digit 1-9 |

## Left out

- Reading the file (app.js:7-17, 36-44) is I/O and is left out. This covers the
  UTF-16LE stream, the Promise and its error path, and the console logging. The
  scanner takes the row sequence as given.
- Console output in the core is left out: the `console.warn` at app.js:74 that
  precedes the early `return` is not modelled; `ProcessRows` just gives `None`.
- Tab splitting and ragged-row handling (app.js:13-17) belong to the
  csv-parse library. Rows are `seq<string>`, and their cells are assumed
  already trimmed (`trim: true`).
- `saveToCSV` (app.js:110-126) writes the output file through csv-writer. It
  is I/O with a fixed header list.
- `processFile` (app.js:129-147) is left out: its paths and markers are fixed,
  and it does async orchestration, the top-level `try`/`catch` and logging.
  When `processRows` gives `undefined`, `sortByLastName` throws, and the
  `catch` at app.js:142 logs the error; the model stops at `None`.
- The locale collation of `localeCompare` depends on ICU and the locale. The
  sort is proved for any comparator that is a total preorder.
- JavaScript strings are sequences of UTF-16 code units, while Dafny's `char`
  is a Unicode scalar value. The stop marker and the two field names hold
  non-ASCII letters (`ł`, `ę`). For well-formed strings this changes no
  result: substring search (`includes`), equality of keys and `split(' ')`
  give the same answer on code units as on scalar values, and `\b` and `\d`
  without the `u` flag only look at ASCII characters. Lone surrogates, which
  decoding malformed UTF-16LE input can produce, cannot be represented.
- Plain JavaScript objects treat a few keys specially (`__proto__`). `rowData`
  is modelled as a map in which every header name is an ordinary key.
- Only the one regular expression at app.js:99 is modelled, as a hand-written
  matcher. The general regular-expression engine is not.
