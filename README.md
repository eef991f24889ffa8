# Library management: lending and record keeping

This project models the core of a console library-management program
(`main.cpp`). The program keeps four sqlite tables: `books`, `authors`,
`borrowers` and `borrow_records`. Its menu operations change these tables
one checked step at a time:

- `addBook` inserts a book;
- `updateBook` merges new field values into a book;
- `borrowBook` and `returnBook` run the lending cycle on a book's
  `is_borrowed` flag;
- `removeBook` deletes a book;
- the importer and the exporter read and write books as comma-separated lines.

The model has these parts:

- `Entities` has the four row types, `Option` for the nullable date columns,
  and the error kinds. Each error kind stands for a lookup that throws, a
  guard that prints and returns, or a date that is refused.
- `Store` holds the tables as finite maps from auto-increment ids to rows.
  Its `Tables` value keeps one next-id counter per table, so an id is never
  handed out twice. Each operation is a pure step from one `Tables` to the
  next, with an `Outcome`. `Consistent` is the invariant the operations keep:
  - every key is the row's own id and was already handed out;
  - no two borrow records refer to the same book;
  - a book in the table is marked borrowed exactly when a record refers to it.
- `StoreProperties` proves, for every operation, exactly what a success
  changes and that every other row and table stays as it was. For the
  operations that can fail (`updateBook`, `borrowBook`, `returnBook`,
  `removeBook`) it also proves when they fail and that a failure changes
  nothing. It proves that every operation keeps `Consistent`, that borrowing
  and then returning restores the tables, and that a borrowed book has
  exactly one record.
- `Library.Storage` is the shared `storage` handle as a class. Its map fields
  are updated in place by methods that follow the code's statements, and
  each method is proved to perform the matching `Store` step.
- `DateFormat` models the return-date check `^\d{2}-\d{2}-\d{4}$` as a
  small fixed-count pattern matcher. A lemma shows which strings it accepts.
  The module also models the `"%d-%m-%Y"` text of the current date.
- `Trim` models `erase(find_last_not_of(" \t\n\r") + 1)`. Its size arithmetic
  is 64-bit: when every character is blank, `npos + 1` wraps to 0.
- `Decimal` and `Csv` cover how an `int` is written, plus joining and
  splitting at commas. `Csv.Join` is how the exporter writes a line.
  `Csv.Split` (with its helper `Csv.IndexOf`) is a reader for such lines; it
  exists only to state that a written line can be read back.
- `Export` derives the per-book export row with its "Unknown", "N/A",
  "available" and "borrowed" fallbacks, and the line written for it.

The current date is a parameter of `BorrowBook`; the model never reads the
clock. A lookup that the program catches as an exception (`get<Book>`,
`get<BorrowRecord>`) becomes an `Err` outcome, and a failed step leaves all
four tables as they were.

In these places the model follows the code, where a reader might expect otherwise:

- `returnBook` deletes the borrow record. It does not stamp a return date.
  The return date stored in a record is the one entered when borrowing.
- `removeBook` deletes the book row only. Its borrow records stay, and they
  can no longer be returned (`ReturnAfterRemoveFails`).
- `borrowBook` does not check that the borrower id exists
  (`BorrowIgnoresBorrowers`).
- There is no author removal. No such operation exists in the code, so none
  is modelled.
- The export, like the book listing, fetches the borrow record by using the
  book's id as the record key, not through the record's `book_id`
  (see Findings).
- The export writes fields without quoting. A title holding a comma, which
  `addBook` and `updateBook` accept, makes its line split into eight fields,
  and every column after the title shifts (`CommaInTitleShiftsColumns`).

## Model

| member | source | states |
|---|---|---|
| `Decimal.NatToDecimalRoundTrip` | main.cpp:179 | the digits written for a book id read back as that id |
| `Decimal.NatToDecimalLength` | main.cpp:370 | a numeral has at most k digits exactly when the number is below 10^k |
| `Decimal.FourDigitNumerals` | main.cpp:370 | a year's `%Y` text has four characters exactly for the years 1000 to 9999 |
| `Decimal.IntToDecimalChars` | main.cpp:179 | the text of an `int` is non-empty and holds only digits and a leading minus sign, so it holds no comma |
| `DateFormat.FullMatchLength` | main.cpp:382-383 | a pattern of fixed-count pieces matches only strings of the pattern's total length |
| `DateFormat.DateFormatExact` | main.cpp:382-386 | the return-date expression accepts exactly the 10-character strings with '-' at indices 2 and 5 and digits everywhere else (both directions) |
| `DateFormat.FormattedDateIsValid` | main.cpp:369-371 | the captured date text of any calendar day passes the return-date check exactly when its year has four digits |
| `Trim.FindLastNotOf` | main.cpp:123-124 | the result is the last index whose character is not blank, with only blanks after it, or `npos` when every character is blank |
| `Trim.TrimTrailingMeets` | main.cpp:123-124 | the trimmed string is a prefix, everything cut off is blank, and it is empty or ends in a non-blank (the `npos + 1` wrap included) |
| `Trim.TrimOfIsUnique` | main.cpp:123-124 | at most one prefix has those three properties |
| `Trim.TrimTrailingCharacterized` | main.cpp:123-124 | trimming yields r exactly when r has those three properties (both directions) |
| `Trim.TrimTrailingIdempotent` | main.cpp:123-124 | trimming a trimmed string changes nothing |
| `Trim.TrimTrailingDropsAppendedBlanks` | main.cpp:123-124 | blanks appended to a string are removed and nothing else is |
| `Trim.TrimTrailingKeepsUnpadded` | main.cpp:123-124 | a string that ends in a non-blank is kept whole |
| `Csv.JoinSplit` | main.cpp:179-185 | joining the fields of any split line gives the line back |
| `Csv.SplitJoin` | main.cpp:179-185 | splitting joined fields gives the fields back when none holds the separator |
| `StoreProperties.EmptyIsConsistent` | main.cpp:63-82 | the newly created empty tables satisfy the store invariant |
| `StoreProperties.AddBookEffect` | main.cpp:206 | `addBook` inserts exactly one book, under an id not in use, with `is_borrowed = false`, and leaves every other row and table unchanged |
| `StoreProperties.ImportBookTrims` | main.cpp:122-128 | an imported book's title and genre are the raw fields with trailing blanks removed, and the book is not borrowed; it is inserted under the next id, which in a consistent store is not in use, and every other row and table is left unchanged |
| `StoreProperties.AddBookPreservesConsistent` | main.cpp:206 | adding a book keeps the store invariant |
| `StoreProperties.ImportBookPreservesConsistent` | main.cpp:127-128 | importing a book keeps the store invariant |
| `StoreProperties.AddAuthorEffect` | main.cpp:300 | adding an author inserts exactly that author under an id not in use, and leaves every other row and table unchanged |
| `StoreProperties.RegisterBorrowerEffect` | main.cpp:333 | registering a borrower inserts exactly that name and email under an id not in use, and leaves every other row and table unchanged |
| `StoreProperties.AddAuthorPreservesConsistent` | main.cpp:300 | adding an author keeps the invariant and uses an id not in use |
| `StoreProperties.RegisterBorrowerPreservesConsistent` | main.cpp:333 | registering a borrower keeps the invariant and uses an id not in use |
| `StoreProperties.UpdateBookEffect` | main.cpp:217-253 | `updateBook` fails exactly on a missing id, changing nothing; on success, only that book changes; id and flag are kept; title and genre are replaced only by non-empty input; author id is replaced only by a value other than -1 |
| `StoreProperties.MergeKeepsAllOnEmptyInput` | main.cpp:235-250 | empty title and genre with author id -1 leave the book as it was |
| `StoreProperties.MergeIdempotent` | main.cpp:235-250 | applying the same edit twice is the same as applying it once |
| `StoreProperties.UpdateBookPreservesConsistent` | main.cpp:217-253 | updating a book keeps the store invariant |
| `StoreProperties.RemoveBookEffect` | main.cpp:431-432 | `removeBook` fails exactly on a missing id, changing nothing; on success, only that book row is gone and the borrow records are untouched |
| `StoreProperties.RemoveBookPreservesConsistent` | main.cpp:431-432 | removing a book keeps the store invariant |
| `StoreProperties.ReturnAfterRemoveFails` | main.cpp:414-415 | a record of a removed book stays, and returning it fails at the book lookup with nothing changed |
| `StoreProperties.BorrowOutcome` | main.cpp:349-393 | a missing book fails first, then an already borrowed book; a borrow succeeds exactly when the book exists, is not borrowed, and the return date has the dd-mm-yyyy shape; every failure leaves the tables unchanged |
| `StoreProperties.BorrowRejectsMalformedDate` | main.cpp:382-386 | an available book with a return date that lacks length 10 or the dashes at 2 and 5 is refused with no change |
| `StoreProperties.BorrowSuccessEffect` | main.cpp:389-393 | a successful borrow adds exactly one record under an unused id, holding the book, the borrower, today and the entered return date; it sets that book's flag; all other books, records, authors and borrowers stay the same |
| `StoreProperties.BorrowIgnoresBorrowers` | main.cpp:355-389 | the outcome of a borrow does not depend on the borrowers table |
| `StoreProperties.BorrowPreservesConsistent` | main.cpp:389-393 | borrowing keeps the store invariant |
| `StoreProperties.ReturnOutcome` | main.cpp:414-415 | return fails on a missing record and on a record whose book is gone, changing nothing in either case, and succeeds otherwise |
| `StoreProperties.ReturnSuccessEffect` | main.cpp:414-418 | a successful return deletes the chosen record and clears its book's flag; nothing else changes and no date is written |
| `StoreProperties.ReturnPreservesConsistent` | main.cpp:414-418 | returning keeps the store invariant |
| `StoreProperties.BorrowedIffExactlyOneRecord` | main.cpp:389-418 | in a consistent store, a book is marked borrowed exactly when one record, and no more, refers to it |
| `StoreProperties.BorrowThenReturn` | main.cpp:389-418 | borrowing an available book and returning the record that borrow created restores every table; only the record counter has advanced |
| `StoreProperties.BorrowTwiceFails` | main.cpp:349-353 | right after a successful borrow, borrowing the same book again fails with AlreadyBorrowed and changes nothing |
| `StoreProperties.LendingScenario` | main.cpp:343-423 | on a new database: add, borrow, refused second borrow, return (record deleted, flag cleared), borrow again under record id 2 |
| `Export.RowFallbacks` | main.cpp:146-170 | id and title come from the book; the author is named or shown as "Unknown"; status is "borrowed" exactly when the flag is set, otherwise "available"; with no loan or no record found, the dates and borrower are "N/A" |
| `Export.BookRowUsesRecordKey` | main.cpp:161-169 | for a borrowed book, the exported dates and borrower come from the record whose own id equals the book's id, with `value_or("N/A")` and "Unknown" for a missing borrower |
| `Export.BookRowShowsAnotherLoan` | main.cpp:161 | in a store reached by adding two books and lending them in reverse order, book 1's exported row names the borrower and date of book 2's loan |
| `Export.BookRowByReferenceShowsOwnLoan` | main.cpp:157-169 | with the record found via its `book_id`, a borrowed book's row shows the dates and borrower of the one record for that book, and an available book's row shows none |
| `Export.HeaderMatchesFields` | main.cpp:144 | the header line reads back as the seven column names, as many as every row has fields |
| `Export.LineRoundTrip` | main.cpp:179-185 | an exported line ends in a newline and splits back into its seven fields when no text field holds a comma |
| `Export.CommaInTitleShiftsColumns` | main.cpp:179-185 | a title "A, B" turns the line into eight fields: "A" and " B" sit where the title and author belong, and the author name moves one column right |
| `Library.Storage.constructor` | main.cpp:456-458 | a new storage is empty, with every id counter at 1, and satisfies the invariant |
| `Library.Storage.AddBook` | main.cpp:191-207 | inserts the book under the new id, not borrowed, keeps the invariant and performs `Store.AddBook` |
| `Library.Storage.ImportBook` | main.cpp:117-128 | trims title and genre, inserts the book, keeps the invariant and performs `Store.ImportBook` |
| `Library.Storage.AddAuthor` | main.cpp:296-302 | inserts the author under a new id and keeps the invariant |
| `Library.Storage.RegisterBorrower` | main.cpp:326-335 | inserts the borrower under a new id and keeps the invariant |
| `Library.Storage.UpdateBook` | main.cpp:209-259 | succeeds exactly when the book exists, changes nothing otherwise, keeps the invariant and performs `Store.UpdateBook` |
| `Library.Storage.BorrowBook` | main.cpp:343-399 | succeeds exactly when the book exists, is available and the return date is well formed; changes nothing otherwise; keeps the invariant and performs `Store.Borrow` |
| `Library.Storage.ReturnBook` | main.cpp:400-423 | succeeds exactly when the record and its book exist, changes nothing otherwise, keeps the invariant and performs `Store.Return` |
| `Library.Storage.RemoveBook` | main.cpp:424-437 | succeeds exactly when the book exists; removes only that book and leaves the records as they were; performs `Store.RemoveBook` |

## Left out

- The sqlite_orm schema, `sync_schema` and persistence across runs are not modelled. The tables are finite maps with next-id counters, and the store starts empty. A database file that already holds rows, for example from `createTestData`, is not covered by the invariant.
- Storage errors on `insert`, `update` or `remove` (disk or database failures) are not modelled: in the model these always succeed. In particular, `returnBook` deletes the record before it writes the book back, and a failure between the two writes is not modelled.
- The menu, its dispatch loop, all prompts and printing, and `std::cin` parsing are out. This includes the `>> author_id` stream parsing in the importer, and which `int` a failed parse leaves behind.
- File opening, reading and writing in `importBooksFromFile` and `exportBooksToFile` are out, and so is the order in which `get_all` returns rows. Only the per-line insert with its trim, the per-book row and its line are modelled.
- `listBooks`, `listAuthors`, `listAuthorsAndBooks` and `listBorrowers` are out as console output. `listBooks` uses the same record-key lookup as the export row, which `Export.BookRow` models.
- Reading the clock with `std::chrono` and `localtime` is out. `BorrowBook` takes the date as a string. `DateFormat.FormatDate` models only the `"%d-%m-%Y"` formatting of a given day, month and year.
- Ids are unbounded integers. The 32-bit `int` fields and the 64-bit sqlite rowids, and any overflow between them, are not modelled.
- `\d` is modelled as the ASCII digits '0' to '9', which is what the default C locale gives.
- Storage.BorrowBook: places no requirement on `today`. The code never checks the captured date either; `DateFormat.FormattedDateIsValid` shows that the captured date is well formed when its year has four digits.
- Storage.ImportBook: requires both raw fields to be shorter than `npos`, which every `std::string` is.

## Findings

| source | as written | input that shows it | evidently intended | confidence | as-written member | corrected member |
|---|---|---|---|---|---|---|
| main.cpp:161 | the export fetches `get_optional<BorrowRecord>(book.id)`, using the book's id as the borrow record's key | add books 1 and 2 and borrowers Alice (1) and Bob (2); Alice borrows book 2 (record 1), then Bob borrows book 1 (record 2); book 1's row names Alice and 01-02-2025 | the row of a borrowed book shows the record whose `book_id` is that book | high, not executed | `Export.BookRowShowsAnotherLoan` | `Export.BookRowByReferenceShowsOwnLoan` |

The same lookup appears in `listBooks` (main.cpp:279). `Export.BookRow` stays
the model of the code as written. `Export.BookRowByReference` is the corrected
derivation, and the lemma in the corrected cell proves its intended property.
