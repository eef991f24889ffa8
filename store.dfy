/** The four tables of the library database as finite maps from
    auto-increment ids to rows, and the lending and record-keeping operations
    as pure steps over them. Every step checks before it changes anything, so
    a failed step returns the tables it was given. */
module Store {
  import opened Entities
  import DateFormat
  import Trim

  /** `books`, `authors`, `borrowers` and `borrow_records`, with the next id
      each `AUTOINCREMENT` key hands out (ids are never reused). */
  datatype Tables = Tables(
    books: map<int, Book>,
    authors: map<int, Author>,
    borrowers: map<int, Borrower>,
    records: map<int, BorrowRecord>,
    nextBookId: int,
    nextAuthorId: int,
    nextBorrowerId: int,
    nextRecordId: int)

  /** A freshly created database: empty tables, ids starting at 1. */
  const Empty: Tables := Tables(map[], map[], map[], map[], 1, 1, 1, 1)

  /** The tables after an operation, and whether it succeeded. */
  datatype Step = Step(tables: Tables, outcome: Outcome)

  /** Some borrow record refers to the book. */
  ghost predicate OnLoan(t: Tables, bookId: int) {
    exists r :: r in t.records && t.records[r].bookId == bookId
  }

  /** The ids of the borrow records that refer to the book. */
  ghost function RecordsOf(t: Tables, bookId: int): set<int> {
    set r | r in t.records && t.records[r].bookId == bookId
  }

  /** What the operations keep true of a store that starts empty: every key is
      an id already handed out and is the row's own id; a record refers to an
      id already handed out and carries both dates; no two records refer to
      the same book; and a book in the table is marked borrowed exactly when
      a record refers to it. */
  ghost predicate Consistent(t: Tables) {
    && t.nextBookId >= 1 && t.nextAuthorId >= 1 && t.nextBorrowerId >= 1 && t.nextRecordId >= 1
    && (forall id :: id in t.books ==> 1 <= id < t.nextBookId && t.books[id].id == id)
    && (forall id :: id in t.authors ==> 1 <= id < t.nextAuthorId && t.authors[id].id == id)
    && (forall id :: id in t.borrowers ==> 1 <= id < t.nextBorrowerId && t.borrowers[id].id == id)
    && (forall id :: id in t.records ==>
          && 1 <= id < t.nextRecordId && t.records[id].id == id
          && t.records[id].bookId < t.nextBookId
          && t.records[id].borrowDate.Some? && t.records[id].returnDate.Some?)
    && (forall r1, r2 :: r1 in t.records && r2 in t.records && t.records[r1].bookId == t.records[r2].bookId ==> r1 == r2)
    && (forall id :: id in t.books ==> (t.books[id].isBorrowed <==> OnLoan(t, id)))
  }

  // ---------------------------------------------------------------------------
  // Inserts

  /** `addBook`: a new book under the next id, not borrowed. */
  function AddBook(t: Tables, title: string, authorId: int, genre: string): Tables {
    var id := t.nextBookId;
    t.(books := t.books[id := Book(id, title, authorId, genre, false)], nextBookId := id + 1)
  }

  /** `importBooksFromFile`, for one parsed line: title and genre lose their
      trailing blanks, then the book is inserted like `addBook` does. */
  function ImportBook(t: Tables, rawTitle: string, authorId: int, rawGenre: string): Tables
    requires |rawTitle| < Trim.NPos && |rawGenre| < Trim.NPos
  {
    AddBook(t, Trim.TrimTrailing(rawTitle), authorId, Trim.TrimTrailing(rawGenre))
  }

  /** `addAuthor`. */
  function AddAuthor(t: Tables, name: string): Tables {
    var id := t.nextAuthorId;
    t.(authors := t.authors[id := Author(id, name)], nextAuthorId := id + 1)
  }

  /** `registerBorrower`. */
  function RegisterBorrower(t: Tables, name: string, email: string): Tables {
    var id := t.nextBorrowerId;
    t.(borrowers := t.borrowers[id := Borrower(id, name, email)], nextBorrowerId := id + 1)
  }

  // ---------------------------------------------------------------------------
  // Update and removal

  /** The field merge of `updateBook`: an empty title or genre and the author
      id -1 keep the current value; any other input, even one made only of
      spaces, replaces it. */
  function MergeBook(b: Book, newTitle: string, newAuthorId: int, newGenre: string): Book {
    b.(title := if newTitle != "" then newTitle else b.title,
       authorId := if newAuthorId != -1 then newAuthorId else b.authorId,
       genre := if newGenre != "" then newGenre else b.genre)
  }

  /** `updateBook`: a missing id changes nothing. */
  function UpdateBook(t: Tables, bookId: int, newTitle: string, newAuthorId: int, newGenre: string): Step {
    if bookId !in t.books then Step(t, Err(BookNotFound))
    else Step(t.(books := t.books[bookId := MergeBook(t.books[bookId], newTitle, newAuthorId, newGenre)]), Ok)
  }

  /** `removeBook`: deletes the book row only; its borrow records stay. */
  function RemoveBook(t: Tables, bookId: int): Step {
    if bookId !in t.books then Step(t, Err(BookNotFound))
    else Step(t.(books := t.books - {bookId}), Ok)
  }

  // ---------------------------------------------------------------------------
  // Lending

  /** `borrowBook` with the date of the day given as `today`: the book must
      exist, must not be borrowed, and the entered return date must have the
      dd-mm-yyyy shape; only then is a record inserted and the flag set. The
      borrower id is stored without being looked up. */
  function Borrow(t: Tables, bookId: int, borrowerId: int, today: string, returnDate: string): Step {
    if bookId !in t.books then Step(t, Err(BookNotFound))
    else if t.books[bookId].isBorrowed then Step(t, Err(AlreadyBorrowed))
    else if !DateFormat.IsDateFormat(returnDate) then Step(t, Err(InvalidDateFormat))
    else
      var rid := t.nextRecordId;
      var record := BorrowRecord(rid, bookId, borrowerId, Some(today), Some(returnDate));
      Step(t.(records := t.records[rid := record],
              nextRecordId := rid + 1,
              books := t.books[bookId := t.books[bookId].(isBorrowed := true)]), Ok)
  }

  /** `returnBook`: fetches the record, then its book (either fetch failing
      stops the step), clears the flag and deletes the record. */
  function Return(t: Tables, recordId: int): Step {
    if recordId !in t.records then Step(t, Err(RecordNotFound))
    else
      var record := t.records[recordId];
      if record.bookId !in t.books then Step(t, Err(BookNotFound))
      else
        Step(t.(records := t.records - {record.id},
                books := t.books[record.bookId := t.books[record.bookId].(isBorrowed := false)]), Ok)
  }
}
