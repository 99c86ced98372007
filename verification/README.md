# Expense tracker record core, modelled in Dafny

This project models the record-management core of a command-line expense
tracker written in Go. It has two layers:

- the **CSV record store** (`CSVExpenseRepository`), which keeps one expense
  per row of a comma-separated file with the fields `id,DD/MM/YYYY,description,amount`;
- the **expense service** (`ExpenseService`), which validates input, totals
  amounts (overall and per month) and merges partial updates.

Both layers are pure functions. The file is a sequence of rows, each row a
non-empty sequence of fields (`CsvRepo.Row`). A `CsvRepo.Disk` records
whether the file exists and whether the operating system lets the program
read and write it. Each operation maps the disk before to the disk after,
together with what the Go method returns (`Domain.Reply`). The service is
parameterised over any backend: `Domain.Repository` bundles the four
operations of the `ExpenseRepository` interface as functions of a backend
state. `Tracker.Csv` plugs the CSV store in.

Go's `int` has the platform's word size; the model takes a 64-bit
platform, where it is 64 bits wide. The model uses `GoInt.Int64` for it and writes
two's-complement wrap-around out (`GoInt.Wrap`). It matters in two places:
the id increment in Save, and the `total +=` loops of the totals.

Files:

- `optional.dfy`: the `Option` type.
- `goint.dfy`: the 64-bit range, wrap-around, `strconv.Itoa` and `strconv.Atoi`.
- `domain.dfy`: `Date` (a day/month/year triple), `Expense`, the errors, and
  the repository capability set.
- `calendar.dfy`: the leap-year rule, and the `DD/MM/YYYY` format and parse
  with layout `02/01/2006`.
- `seqs.dfy`: an order-preserving filter, used as the reference for the row scans.
- `csvrepo.dfy`: the row codec, FindAll, Save, DeleteByID and UpdateByID.
- `service.dfy`: AddExpense, ListExpenses, GetTotalAmount,
  GetTotalAmountByMonth, DeleteExpense and UpdateExpense.
- `tracker.dfy`: the service over the CSV file, with add/delete/update
  followed by a listing, and a worked session.

## Behaviour as written

The model follows the Go code. In these places the code does something a
reader might not expect:

- **Row 0 is a header.** DeleteByID copies the first row without reading
  its id, although Save never writes a header. So the first expense ever
  saved cannot be deleted. A file with one row always gives "no expenses to
  delete". `Tracker.LunchDinnerSession` shows deleting id 1 failing with
  "expense not found".
- **Ids can be reused.** The next id is one more than the largest id
  listed, so deleting the newest expense frees its id for the next add.
- **Rows with a bad id are handled differently.** DeleteByID drops later rows
  whose id does not parse, printing only a warning and returning no error. UpdateByID aborts on such a row before
  writing.
- **UpdateByID with no matching row rewrites the file unchanged and
  succeeds.** The service still reports "expense not found" for an id that
  FindAll does not list.
- **UpdateExpense does not validate.** It does not re-check that a new
  amount is positive or that a new description is non-empty.
- **A date outside years 0..9999 is lost.** Save writes it, but FindAll
  cannot read it back and skips the row (`Calendar.ParseFormatOnlyStorable`).
- **Ids can wrap, and then repeat.** Save's loop keeps a running value and,
  for each listed record in file order, moves it to that id plus one when
  it is not already above it. When the last listed record carries
  9223372036854775807, the increment wraps and Save assigns
  -9223372036854775808 (`CsvRepo.NextIdWrapsAtMax`). When a record with
  that id comes earlier, the loop starts over from the smallest Go int at
  that point, so later rows decide the result and it can be an id already
  in use: ids 11, 9223372036854775807, 10 give 11
  (`CsvRepo.NextIdAfterWrapReusesId`).

## Model

| member | source | states |
|---|---|---|
| GoInt.Wrap | internal/app/service.go:48-52 | the result is the 64-bit value congruent to the exact one modulo 2^64, and equals it when it fits |
| GoInt.WrapAddLeft | internal/app/service.go:50-52 | wrapping a running total after every addition gives the same value as wrapping the exact sum once |
| GoInt.NatToDigits | internal/infra/storage/csv-repo/csv-expense-repository.go:45 | the decimal spelling is non-empty, all digits, and has no leading zero |
| GoInt.NatToDigitsValue | internal/infra/storage/csv-repo/csv-expense-repository.go:45 | reading the decimal spelling of n gives n back |
| GoInt.AtoiItoa | internal/infra/storage/csv-repo/csv-expense-repository.go:45-48 | Atoi reads back every 64-bit integer that Itoa writes (this is how ids and amounts travel through the file) |
| GoInt.PaddedSpelling | internal/infra/storage/csv-repo/csv-expense-repository.go:87 | a fixed-width digit field is the zero-padded spelling of its value, so re-printing a parsed field reproduces it |
| Calendar.DaysIn | internal/infra/storage/csv-repo/csv-expense-repository.go:87 | each month has 28 to 31 days, and February has 29 exactly in leap years |
| Calendar.ParseFormat | internal/infra/storage/csv-repo/csv-expense-repository.go:46 | parsing the DD/MM/YYYY text of a real day in years 0..9999 gives that day back |
| Calendar.FormatParse | internal/infra/storage/csv-repo/csv-expense-repository.go:87 | any text the parser accepts is a real, storable day written exactly as the formatter writes it |
| Calendar.ParseIffFormat | internal/infra/storage/csv-repo/csv-expense-repository.go:46-87 | the parser accepts s as day d if and only if d is storable and s is the formatted text of d |
| Calendar.ParseFormatOnlyStorable | internal/infra/storage/csv-repo/csv-expense-repository.go:46 | a formatted day can be parsed back exactly when it is a real day with a year from 0 to 9999 |
| CsvRepo.EncodeRow | internal/infra/storage/csv-repo/csv-expense-repository.go:44-49 | a written row has four fields, and the third is the description verbatim |
| CsvRepo.ParseRow | internal/infra/storage/csv-repo/csv-expense-repository.go:76-104 | a row is kept if and only if it has at least four fields and its id, date and amount fields all parse; the record's id, date and amount are those parsed values, its description is field 3 verbatim, and its date is a storable day |
| CsvRepo.ParseEncodeRow | internal/infra/storage/csv-repo/csv-expense-repository.go:44-49 | a row written for expense e reads back as exactly e when e's day is storable, and is skipped otherwise |
| CsvRepo.ParseRows | internal/infra/storage/csv-repo/csv-expense-repository.go:75-109 | the listing is never longer than the file, and every listed date is a real day |
| CsvRepo.ParseRowsAppend | internal/infra/storage/csv-repo/csv-expense-repository.go:75-107 | listing two blocks of rows gives the first block's records, then the second's, in file order |
| CsvRepo.ParseRowsExactly | internal/infra/storage/csv-repo/csv-expense-repository.go:75-107 | there is one listed record per row that parses; a record is listed if and only if some row parses to it |
| CsvRepo.ParseRowsAllValid | internal/infra/storage/csv-repo/csv-expense-repository.go:75-107 | when every row parses, the listing is those records one for one, in order |
| CsvRepo.FindAll | internal/infra/storage/csv-repo/csv-expense-repository.go:60-110 | it fails only when the file cannot be read; a missing file is created empty; no row is changed; the listing is the records of the rows that parse, in file order, so malformed rows shorten the list but do not abort it |
| CsvRepo.FindAllIdempotent | internal/infra/storage/csv-repo/csv-expense-repository.go:60-110 | reading again right after a read gives the same records and leaves the same file |
| CsvRepo.NextIdIsMaxPlusOne | internal/infra/storage/csv-repo/csv-expense-repository.go:30-36 | with no listed id at the 64-bit maximum, the next id is at least 1, above every listed id, and either 1 or one more than a listed id, i.e. max(1, max id + 1) |
| CsvRepo.NextIdWrapsAtMax | internal/infra/storage/csv-repo/csv-expense-repository.go:30-36 | when the last listed record's id is 2^63-1, the increment wraps and the next id is -2^63 |
| CsvRepo.NextIdAfterWrapReusesId | internal/infra/storage/csv-repo/csv-expense-repository.go:30-36 | after the wrap the loop starts over, so listed ids 11, 2^63-1, 10 give the next id 11, which the first record already has |
| CsvRepo.Save | internal/infra/storage/csv-repo/csv-expense-repository.go:24-58 | on success exactly one row (the next id, the formatted date, the description, the amount) is appended and the old rows are kept; it succeeds exactly when the file is readable and writable; on failure no row changes |
| CsvRepo.SaveThenFindAll | internal/infra/storage/csv-repo/csv-expense-repository.go:24-109 | after a save, the listing is the old listing plus the saved expense under its new id, if its day is storable |
| CsvRepo.Sweep | internal/infra/storage/csv-repo/csv-expense-repository.go:136-154 | the rows kept after row 0 are, in order, those whose id parses and differs from the target; found holds exactly when some row's id is the target |
| CsvRepo.DeleteById | internal/infra/storage/csv-repo/csv-expense-repository.go:112-173 | a missing file gives "expense file not found"; an unreadable file, or an unwritable one when the id is found, gives the I/O error; at most one row gives "no expenses to delete"; no later row with the id gives "expense not found"; every error leaves the file as it was; success means row 0 is kept verbatim and then only the later rows with a parseable, different id |
| CsvRepo.ParseSurvivors | internal/infra/storage/csv-repo/csv-expense-repository.go:142-153 | the records of the rows the delete keeps are the old records without those having the target id |
| CsvRepo.DeleteThenFindAll | internal/infra/storage/csv-repo/csv-expense-repository.go:128-173 | after a delete, the listing is row 0's record (if it parses) followed by the later records without the target id |
| CsvRepo.DeleteRemovesId | internal/infra/storage/csv-repo/csv-expense-repository.go:136-154 | after a successful delete, no listed record has the target id unless row 0 holds a record with it |
| CsvRepo.FirstMalformed | internal/infra/storage/csv-repo/csv-expense-repository.go:198-202 | the index found is the first row whose id does not parse, or the row count when every id parses |
| CsvRepo.Rewrite | internal/infra/storage/csv-repo/csv-expense-repository.go:196-210 | it succeeds exactly when every id parses; then it keeps the row count and replaces exactly the rows with e's id by e's encoding; otherwise it fails with the first unparseable id field |
| CsvRepo.UpdateById | internal/infra/storage/csv-repo/csv-expense-repository.go:175-225 | a missing or unreadable file gives the I/O error; a bad id fails before writing; an unwritable file then gives the I/O error; errors leave the file unchanged; otherwise the row count is kept, rows with e's id are replaced and all others are left identical, and no match leaves the file unchanged without an error |
| CsvRepo.UpdateThenFindAll | internal/infra/storage/csv-repo/csv-expense-repository.go:189-210 | after an update with a storable day, every listed record with e's id is e, e is listed whenever some row carried its id, and the records with other ids are listed as before |
| Service.AddExpense | internal/app/service.go:20-35 | an empty description is refused first, then an amount of 0 or less, both without touching the store; otherwise Save gets the description, the amount and the given day, and its result is returned |
| Service.ListExpenses | internal/app/service.go:38-40 | the listing is the backend's FindAll result |
| Service.RunningTotal | internal/app/service.go:48-52 | the loop's total is the exact sum of the amounts wrapped to 64 bits |
| Service.MonthRunningTotal | internal/app/service.go:67-72 | the loop's total is the exact sum of the month's amounts, over all years, wrapped to 64 bits |
| Service.GetTotalAmount | internal/app/service.go:42-55 | the total is the sum of the listed amounts, wrapped to 64 bits; the backend is left as FindAll leaves it; FindAll's error is passed on |
| Service.GetTotalAmountByMonth | internal/app/service.go:57-75 | a month outside 1..12 is refused without reading; otherwise the sum of the amounts of the records in that month, of any year, wrapped to 64 bits |
| Service.MonthSumsPartition | internal/app/service.go:42-75 | when every month is in 1..12, the twelve month sums add up to the whole sum |
| Service.MonthlyTotalsAddUp | internal/app/service.go:42-75 | for any backend listing only months 1..12, the twelve by-month totals succeed and add up, in Go ints, to the total |
| Service.DeleteExpense | internal/app/service.go:77-83 | an id of 0 or less is refused without touching the store; otherwise the result is exactly DeleteByID's |
| Service.FirstWithId | internal/app/service.go:99-105 | it finds none exactly when no record has the id; otherwise it finds the earliest record with the id |
| Service.Patch | internal/app/service.go:111-121 | the id is kept; each given field is replaced and each absent field is kept |
| Service.UpdateExpense | internal/app/service.go:85-128 | an id of 0 or less is refused, then an empty change set, both before reading; no listed record with the id gives "expense not found"; otherwise UpdateByID gets the first such record with only the given fields replaced; the id is returned on success and UpdateByID's error otherwise |
| Tracker.AddThenList | internal/app/service.go:20-40 | on the CSV file, a successful add makes the listing the old one plus the new expense with the returned id and the given day |
| Tracker.AddAssignsNextId | internal/infra/storage/csv-repo/csv-expense-repository.go:30-36 | the id an add returns is above every previously listed id and equals max(1, largest id + 1) |
| Tracker.DeleteThenList | internal/app/service.go:77-83 | after a successful delete, row 0 is still first, and no listed record has the deleted id unless row 0 carries it |
| Tracker.UpdateThenList | internal/app/service.go:85-128 | after a successful update, the first old record with the id, patched with the given fields, is listed and every listed record with the id is that record; other records are unchanged |
| Tracker.MonthlyTotalsAddUpOnCsv | internal/app/service.go:42-75 | on a readable CSV file, the twelve by-month totals add up to the total |
| Tracker.LunchDinnerSession | internal/app/service.go:20-128 | on an empty file: adding Lunch 20 and Dinner 30 gives ids 1 and 2 and a total of 50; deleting id 1 fails; deleting id 2 leaves Lunch; updating id 2 to amount 45 keeps the date and the description |

## Left out

- File I/O mechanics are not modelled: opening, `os.Create` truncation,
  closing, and the open flags. That includes `O_APPEND` without a write flag
  in Save. On Linux and macOS that descriptor is read-only, so Save's
  flush fails and it returns the chosen id with the error; the model leaves
  this to the disk's `writable` flag, and Save succeeds only when it is set.
  Each file operation either reads the rows, writes the rows, or
  fails with `IoFailure`, as the disk's `readable` and `writable` flags say.
  A failed write leaves the rows as they were; partial writes after a
  truncation are not modelled.
- The `encoding/csv` quoting rules and the reader's rule that all records
  have the same number of fields are not modelled. The file is taken to be
  exactly the sequence of rows. Reader errors count as an unreadable file.
- 32-bit platforms are not modelled. There Go's `int` is 32 bits wide, and
  Save's id and the totals wrap at 2^31 instead of 2^63.
- The warnings FindAll and DeleteByID print for skipped rows are a side
  channel and are left out.
- `time.Now()` becomes a parameter of AddExpense holding a calendar day.
  The time of day and the time zone are dropped, since only the day
  survives a write and a reload.
- Operating-system and `strconv` error values are not modelled beyond their
  kind: `IoFailure` and `MalformedId`. Their exact text is left out.
- CsvRepo.Save: when the final flush fails, Go returns the chosen id
  together with the error (the open and `Write` failures return 0). The
  model returns only the error, which is how every caller treats it.
- CsvRepo.NextIdIsMaxPlusOne: stated only when no listed id is
  9223372036854775807. At that id the increment wraps, and the result then
  depends on row order (`CsvRepo.NextIdWrapsAtMax`,
  `CsvRepo.NextIdAfterWrapReusesId`).
- Tracker.AddAssignsNextId: stated under the same condition as
  CsvRepo.NextIdIsMaxPlusOne.
- Tracker.UpdateThenList: stated for a new date that can be stored (years
  0..9999), which every date the command line parses is. With any other
  date the row is written, but the record is then skipped when listing.
- CsvRepo.UpdateThenFindAll: stated for a record whose day is storable, for
  the same reason.
- The command-line layer is not part of this model. That covers
  `cmd/expense-tracker/main.go`, `cmd/expense-tracker/commands.go` (flag
  parsing, dispatch, printing, exit status) and
  `internal/presentation/cli/formatter.go` (table printing).
- Concurrent access by several processes and crashes in the middle of a
  rewrite are not modelled. The model assumes one process at a time.
