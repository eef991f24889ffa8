/** The `storage` handle the menu functions share: four tables and their
    id counters, updated in place by each operation. Every method checks
    its guards before it writes, and is proved to perform the matching step
    of `Store`, so it inherits what `StoreProperties` proves. */
module Library {
  import opened Entities
  import Store
  import StoreProperties
  import DateFormat
  import Trim

  class Storage {
    var books: map<int, Book>
    var authors: map<int, Author>
    var borrowers: map<int, Borrower>
    var records: map<int, BorrowRecord>
    var nextBookId: int
    var nextAuthorId: int
    var nextBorrowerId: int
    var nextRecordId: int

    /** The tables as a value. */
    function State(): Store.Tables
      reads this
    {
      Store.Tables(books, authors, borrowers, records, nextBookId, nextAuthorId, nextBorrowerId, nextRecordId)
    }

    ghost predicate Valid()
      reads this
    {
      Store.Consistent(State())
    }

    /** A new database: `sync_schema` on an empty file. */
    constructor ()
      ensures Valid() && State() == Store.Empty
    {
      books, authors, borrowers, records := map[], map[], map[], map[];
      nextBookId, nextAuthorId, nextBorrowerId, nextRecordId := 1, 1, 1, 1;
    }

    /** `addBook`: the returned id is new and names an available book. */
    method AddBook(title: string, authorId: int, genre: string) returns (id: int)
      requires Valid()
      modifies this
      ensures Valid()
      ensures id !in old(books) && books == old(books)[id := Book(id, title, authorId, genre, false)]
      ensures State() == Store.AddBook(old(State()), title, authorId, genre)
    {
      StoreProperties.AddBookPreservesConsistent(State(), title, authorId, genre);
      id := nextBookId;
      books := books[id := Book(id, title, authorId, genre, false)];
      nextBookId := nextBookId + 1;
    }

    /** One line of `importBooksFromFile` once split into its fields: title
        and genre are trimmed of trailing blanks, then inserted. */
    method ImportBook(rawTitle: string, authorId: int, rawGenre: string) returns (id: int)
      requires Valid()
      requires |rawTitle| < Trim.NPos && |rawGenre| < Trim.NPos
      modifies this
      ensures Valid()
      ensures id !in old(books)
      ensures State() == Store.ImportBook(old(State()), rawTitle, authorId, rawGenre)
    {
      var title := Trim.TrimTrailing(rawTitle);
      var genre := Trim.TrimTrailing(rawGenre);
      id := AddBook(title, authorId, genre);
    }

    /** `addAuthor`. */
    method AddAuthor(name: string) returns (id: int)
      requires Valid()
      modifies this
      ensures Valid()
      ensures id !in old(authors) && authors == old(authors)[id := Author(id, name)]
      ensures State() == Store.AddAuthor(old(State()), name)
    {
      StoreProperties.AddAuthorPreservesConsistent(State(), name);
      id := nextAuthorId;
      authors := authors[id := Author(id, name)];
      nextAuthorId := nextAuthorId + 1;
    }

    /** `registerBorrower`. */
    method RegisterBorrower(name: string, email: string) returns (id: int)
      requires Valid()
      modifies this
      ensures Valid()
      ensures id !in old(borrowers) && borrowers == old(borrowers)[id := Borrower(id, name, email)]
      ensures State() == Store.RegisterBorrower(old(State()), name, email)
    {
      StoreProperties.RegisterBorrowerPreservesConsistent(State(), name, email);
      id := nextBorrowerId;
      borrowers := borrowers[id := Borrower(id, name, email)];
      nextBorrowerId := nextBorrowerId + 1;
    }

    /** `updateBook`: `get_optional`, then the field-by-field merge, then
        `update`. */
    method UpdateBook(bookId: int, newTitle: string, newAuthorId: int, newGenre: string) returns (outcome: Outcome)
      requires Valid()
      modifies this
      ensures Valid()
      ensures outcome == Ok <==> bookId in old(books)
      ensures outcome != Ok ==> State() == old(State())
      ensures State() == Store.UpdateBook(old(State()), bookId, newTitle, newAuthorId, newGenre).tables
      ensures outcome == Store.UpdateBook(old(State()), bookId, newTitle, newAuthorId, newGenre).outcome
    {
      StoreProperties.UpdateBookPreservesConsistent(State(), bookId, newTitle, newAuthorId, newGenre);
      if bookId !in books {
        return Err(BookNotFound);
      }
      var book := books[bookId];
      if newTitle != "" {
        book := book.(title := newTitle);
      }
      if newAuthorId != -1 {
        book := book.(authorId := newAuthorId);
      }
      if newGenre != "" {
        book := book.(genre := newGenre);
      }
      books := books[bookId := book];
      outcome := Ok;
    }

    /** `borrowBook`, with the date of the day passed in: fetch the book,
        refuse a borrowed one, check the entered return date, then insert
        the record and set the flag. */
    method BorrowBook(bookId: int, borrowerId: int, today: string, returnDate: string) returns (outcome: Outcome)
      requires Valid()
      modifies this
      ensures Valid()
      ensures outcome == Ok <==>
        bookId in old(books) && !old(books)[bookId].isBorrowed && DateFormat.IsDateFormat(returnDate)
      ensures outcome != Ok ==> State() == old(State())
      ensures State() == Store.Borrow(old(State()), bookId, borrowerId, today, returnDate).tables
      ensures outcome == Store.Borrow(old(State()), bookId, borrowerId, today, returnDate).outcome
    {
      StoreProperties.BorrowPreservesConsistent(State(), bookId, borrowerId, today, returnDate);
      if bookId !in books {
        return Err(BookNotFound);
      }
      var book := books[bookId];
      if book.isBorrowed {
        return Err(AlreadyBorrowed);
      }
      if !DateFormat.IsDateFormat(returnDate) {
        return Err(InvalidDateFormat);
      }
      var recordId := nextRecordId;
      records := records[recordId := BorrowRecord(recordId, bookId, borrowerId, Some(today), Some(returnDate))];
      nextRecordId := nextRecordId + 1;
      book := book.(isBorrowed := true);
      books := books[bookId := book];
      outcome := Ok;
    }

    /** `returnBook`: fetch the record, fetch its book, clear the flag,
        delete the record, write the book back. */
    method ReturnBook(recordId: int) returns (outcome: Outcome)
      requires Valid()
      modifies this
      ensures Valid()
      ensures outcome == Ok <==> recordId in old(records) && old(records)[recordId].bookId in old(books)
      ensures outcome != Ok ==> State() == old(State())
      ensures State() == Store.Return(old(State()), recordId).tables
      ensures outcome == Store.Return(old(State()), recordId).outcome
    {
      StoreProperties.ReturnPreservesConsistent(State(), recordId);
      if recordId !in records {
        return Err(RecordNotFound);
      }
      var record := records[recordId];
      if record.bookId !in books {
        return Err(BookNotFound);
      }
      var book := books[record.bookId];
      book := book.(isBorrowed := false);
      records := records - {record.id};
      books := books[record.bookId := book];
      outcome := Ok;
    }

    /** `removeBook`: fetch the book, then delete that row only. */
    method RemoveBook(bookId: int) returns (outcome: Outcome)
      requires Valid()
      modifies this
      ensures Valid()
      ensures outcome == Ok <==> bookId in old(books)
      ensures books == if outcome == Ok then old(books) - {bookId} else old(books)
      ensures records == old(records)
      ensures State() == Store.RemoveBook(old(State()), bookId).tables
      ensures outcome == Store.RemoveBook(old(State()), bookId).outcome
    {
      if bookId !in books {
        return Err(BookNotFound);
      }
      books := books - {bookId};
      outcome := Ok;
    }
  }
}
