/** The per-book row that `exportBooksToFile` writes, with its fallbacks:
    "Unknown" for a missing author or borrower, "N/A" for loan details that
    are absent, "available"/"borrowed" for the flag. */
module Export {
  import opened Entities
  import opened Store
  import Decimal
  import Csv
  import DateFormat

  datatype ExportRow = ExportRow(
    bookId: int,
    bookName: string,
    authorName: string,
    status: string,
    borrowDate: string,
    returnDate: string,
    borrowerName: string)

  /** The column names of the export file, in order. */
  const Columns: seq<string> :=
    ["book_id", "book_name", "author_name", "borrowed/available", "borrow_date", "return_date", "borrower_name"]

  /** The first line of the export file: the column names separated by commas. */
  const Header: string := Csv.Join(Columns, ',') + "\n"

  function AuthorName(t: Tables, authorId: int): string {
    if authorId in t.authors then t.authors[authorId].name else "Unknown"
  }

  function BorrowerName(t: Tables, borrowerId: int): string {
    if borrowerId in t.borrowers then t.borrowers[borrowerId].name else "Unknown"
  }

  /** The row of `book`, given the borrow record the lookup found, if any. The
      record is only consulted for a borrowed book. */
  function RowWith(t: Tables, book: Book, found: Option<BorrowRecord>): ExportRow {
    var authorName := AuthorName(t, book.authorId);
    if !book.isBorrowed then
      ExportRow(book.id, book.title, authorName, "available", "N/A", "N/A", "N/A")
    else
      match found
      case None => ExportRow(book.id, book.title, authorName, "borrowed", "N/A", "N/A", "N/A")
      case Some(r) =>
        ExportRow(book.id, book.title, authorName, "borrowed",
                  r.borrowDate.GetOr("N/A"), r.returnDate.GetOr("N/A"), BorrowerName(t, r.borrowerId))
  }

  /** The row as the export derives it: the borrow record is fetched with the
      BOOK's id used as the RECORD key. */
  function BookRow(t: Tables, book: Book): ExportRow {
    RowWith(t, book, if book.id in t.records then Some(t.records[book.id]) else None)
  }

  /** The borrow record that refers to the book, if there is one. */
  ghost function LoanOf(t: Tables, bookId: int): Option<BorrowRecord> {
    if OnLoan(t, bookId) then
      var r :| r in t.records && t.records[r].bookId == bookId;
      Some(t.records[r])
    else None
  }

  /** The row with the record found through its `book_id` reference. */
  ghost function BookRowByReference(t: Tables, book: Book): ExportRow {
    RowWith(t, book, LoanOf(t, book.id))
  }

  /** The seven columns of a row, in the header's order. */
  function Fields(row: ExportRow): seq<string> {
    [Decimal.IntToDecimal(row.bookId), row.bookName, row.authorName, row.status,
     row.borrowDate, row.returnDate, row.borrowerName]
  }

  function Line(row: ExportRow): string {
    Csv.Join(Fields(row), ',') + "\n"
  }

  // ---------------------------------------------------------------------------

  /** Whatever the lookup finds: the id and title are the book's, the author
      is named or "Unknown", the status follows the flag, and an available
      book has no loan details. */
  lemma RowFallbacks(t: Tables, book: Book, found: Option<BorrowRecord>)
    ensures var row := RowWith(t, book, found);
      && row.bookId == book.id && row.bookName == book.title
      && (book.authorId in t.authors ==> row.authorName == t.authors[book.authorId].name)
      && (book.authorId !in t.authors ==> row.authorName == "Unknown")
      && (row.status == "borrowed" <==> book.isBorrowed)
      && (row.status == "available" <==> !book.isBorrowed)
      && (!book.isBorrowed || found.None? ==> row.borrowDate == row.returnDate == row.borrowerName == "N/A")
  {
  }

  /** The row as written shows whichever record has the book's id as its own
      id, whatever book that record is for. */
  lemma BookRowUsesRecordKey(t: Tables, book: Book)
    requires book.isBorrowed && book.id in t.records
    ensures var r := t.records[book.id];
      var row := BookRow(t, book);
      && row.borrowDate == r.borrowDate.GetOr("N/A")
      && row.returnDate == r.returnDate.GetOr("N/A")
      && row.borrowerName == BorrowerName(t, r.borrowerId)
  {
  }

  /** Books 1 and 2 are added, Alice (borrower 1) borrows book 2 and Bob
      (borrower 2) borrows book 1. The row as written for book 1 names Alice
      and her dates, from record 1, which is the loan of book 2; the row
      through the reference names Bob. */
  lemma BookRowShowsAnotherLoan()
    ensures var t := CrossLoans();
      && 1 in t.books && t.books[1].isBorrowed
      && BookRow(t, t.books[1]).borrowerName == "Alice"
      && BookRow(t, t.books[1]).borrowDate == "01-02-2025"
      && BookRowByReference(t, t.books[1]).borrowerName == "Bob"
      && BookRowByReference(t, t.books[1]).borrowDate == "03-02-2025"
  {
    DateFormat.DateFormatExact("15-02-2025");
    DateFormat.DateFormatExact("20-02-2025");
    var t := CrossLoans();
    assert t.records[2].bookId == 1;
    assert OnLoan(t, 1);
  }

  /** The store the counterexample above is built in, reached from an empty
      database through the operations alone. */
  function CrossLoans(): Tables {
    var t0 := AddBook(AddBook(Empty, "Dune", 1, "SF"), "Emma", 1, "Novel");
    var t1 := RegisterBorrower(RegisterBorrower(t0, "Alice", "alice@example.com"), "Bob", "bob@example.com");
    var t2 := Borrow(t1, 2, 1, "01-02-2025", "15-02-2025").tables;
    Borrow(t2, 1, 2, "03-02-2025", "20-02-2025").tables
  }

  /** In a consistent store the corrected row of a borrowed book shows the
      dates and the borrower of the one record that refers to it, and an
      available book shows none. */
  lemma BookRowByReferenceShowsOwnLoan(t: Tables, bookId: int)
    requires Consistent(t) && bookId in t.books
    ensures var row := BookRowByReference(t, t.books[bookId]);
      && (t.books[bookId].isBorrowed ==>
            exists r :: r in t.records && t.records[r].bookId == bookId
              && row.borrowDate == t.records[r].borrowDate.value
              && row.returnDate == t.records[r].returnDate.value
              && row.borrowerName == BorrowerName(t, t.records[r].borrowerId))
      && (!t.books[bookId].isBorrowed ==> row.borrowDate == row.returnDate == row.borrowerName == "N/A")
  {
  }

  /** A row's line ends in a newline and splits back into its seven fields
      when no text field holds a comma. */
  lemma LineRoundTrip(row: ExportRow)
    requires ',' !in row.bookName && ',' !in row.authorName && ',' !in row.status
    requires ',' !in row.borrowDate && ',' !in row.returnDate && ',' !in row.borrowerName
    ensures var line := Line(row);
      && line[|line| - 1] == '\n'
      && Csv.Split(line[..|line| - 1], ',') == Fields(row)
      && |Csv.Split(line[..|line| - 1], ',')| == 7
  {
    var line := Line(row);
    Decimal.IntToDecimalChars(row.bookId);
    assert ',' !in Decimal.IntToDecimal(row.bookId);
    assert line[..|line| - 1] == Csv.Join(Fields(row), ',');
    Csv.SplitJoin(Fields(row), ',');
  }

  /** The header names as many columns as a row has fields, and the reader
      gets the column names back from it. */
  lemma HeaderMatchesFields(row: ExportRow)
    ensures Csv.Split(Header[..|Header| - 1], ',') == Columns
    ensures |Columns| == |Fields(row)|
  {
    var c := Columns;
    assert forall k :: 0 <= k < |c| ==> ',' !in c[k];
    assert Header[..|Header| - 1] == Csv.Join(c, ',');
    Csv.SplitJoin(c, ',');
  }

  /** Fields are written without quoting, so a comma in a title, which
      `addBook` and `updateBook` accept, splits the line into eight fields and
      shifts every later column: what follows the title's comma is read where
      the author name belongs. */
  lemma CommaInTitleShiftsColumns(row: ExportRow)
    requires row.bookName == "A, B"
    requires ',' !in row.authorName && ',' !in row.status
    requires ',' !in row.borrowDate && ',' !in row.returnDate && ',' !in row.borrowerName
    ensures var line := Line(row);
      var fields := Csv.Split(line[..|line| - 1], ',');
      && |fields| == 8 && fields[1] == "A" && fields[2] == " B" && fields[3] == row.authorName
  {
    var line := Line(row);
    var f := Fields(row);
    var g := [f[0], "A", " B"] + f[2..];
    assert g[3..] == f[2..];
    assert Csv.Join(g[2..], ',') == " B" + [','] + Csv.Join(f[2..], ',');
    assert Csv.Join(g[1..], ',') == "A" + [','] + Csv.Join(g[2..], ',');
    assert Csv.Join(f[1..], ',') == "A, B" + [','] + Csv.Join(f[2..], ',');
    assert "A, B" == "A" + [','] + " B";
    assert Csv.Join(f[1..], ',') == Csv.Join(g[1..], ',');
    assert Csv.Join(f, ',') == Csv.Join(g, ',');
    assert line[..|line| - 1] == Csv.Join(g, ',');
    Decimal.IntToDecimalChars(row.bookId);
    assert ',' !in f[0];
    Csv.SplitJoin(g, ',');
  }
}
