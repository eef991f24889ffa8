/** What the store operations promise: which inputs make them fail, that a
    failure changes nothing, what exactly a success changes, and that every
    operation keeps `Store.Consistent`. */
module StoreProperties {
  import opened Entities
  import opened Store
  import DateFormat
  import Decimal
  import Trim

  /** The database starts consistent. */
  lemma EmptyIsConsistent()
    ensures Consistent(Empty)
  {
  }

  // ---------------------------------------------------------------------------
  // Inserts

  /** `addBook` inserts exactly one book under an id not in use, not
      borrowed, and touches no other row or table. */
  lemma AddBookEffect(t: Tables, title: string, authorId: int, genre: string)
    requires Consistent(t)
    ensures var t' := AddBook(t, title, authorId, genre);
      var id := t.nextBookId;
      && id !in t.books
      && t'.books.Keys == t.books.Keys + {id}
      && t'.books[id] == Book(id, title, authorId, genre, false)
      && (forall k :: k in t.books ==> t'.books[k] == t.books[k])
      && t'.authors == t.authors && t'.borrowers == t.borrowers && t'.records == t.records
      && !OnLoan(t', id)
  {
  }

  /** The importer inserts exactly one book, under an id not in use, with
      the title and genre stored without trailing blanks, not borrowed, and
      touches no other row or table. */
  lemma ImportBookTrims(t: Tables, rawTitle: string, authorId: int, rawGenre: string)
    requires |rawTitle| < Trim.NPos && |rawGenre| < Trim.NPos
    ensures var t' := ImportBook(t, rawTitle, authorId, rawGenre);
      var id := t.nextBookId;
      var b := t'.books[id];
      && Trim.IsTrimOf(b.title, rawTitle) && Trim.IsTrimOf(b.genre, rawGenre)
      && b.id == id && b.authorId == authorId && !b.isBorrowed
      && (Consistent(t) ==> id !in t.books)
      && t'.books.Keys == t.books.Keys + {id}
      && (forall k :: k in t.books && k != id ==> t'.books[k] == t.books[k])
      && t'.authors == t.authors && t'.borrowers == t.borrowers && t'.records == t.records
  {
  }

  lemma AddBookPreservesConsistent(t: Tables, title: string, authorId: int, genre: string)
    requires Consistent(t)
    ensures Consistent(AddBook(t, title, authorId, genre))
  {
  }

  lemma ImportBookPreservesConsistent(t: Tables, rawTitle: string, authorId: int, rawGenre: string)
    requires Consistent(t)
    requires |rawTitle| < Trim.NPos && |rawGenre| < Trim.NPos
    ensures Consistent(ImportBook(t, rawTitle, authorId, rawGenre))
  {
  }

  /** `addAuthor` inserts exactly one author under an id not in use and
      touches no other row or table. */
  lemma AddAuthorEffect(t: Tables, name: string)
    requires Consistent(t)
    ensures var t' := AddAuthor(t, name);
      var id := t.nextAuthorId;
      && id !in t.authors
      && t'.authors.Keys == t.authors.Keys + {id}
      && t'.authors[id] == Author(id, name)
      && (forall k :: k in t.authors ==> t'.authors[k] == t.authors[k])
      && t'.books == t.books && t'.borrowers == t.borrowers && t'.records == t.records
  {
  }

  /** `registerBorrower` inserts exactly one borrower under an id not in use
      and touches no other row or table. */
  lemma RegisterBorrowerEffect(t: Tables, name: string, email: string)
    requires Consistent(t)
    ensures var t' := RegisterBorrower(t, name, email);
      var id := t.nextBorrowerId;
      && id !in t.borrowers
      && t'.borrowers.Keys == t.borrowers.Keys + {id}
      && t'.borrowers[id] == Borrower(id, name, email)
      && (forall k :: k in t.borrowers ==> t'.borrowers[k] == t.borrowers[k])
      && t'.books == t.books && t'.authors == t.authors && t'.records == t.records
  {
  }

  lemma AddAuthorPreservesConsistent(t: Tables, name: string)
    requires Consistent(t)
    ensures Consistent(AddAuthor(t, name))
    ensures t.nextAuthorId !in t.authors
  {
  }

  lemma RegisterBorrowerPreservesConsistent(t: Tables, name: string, email: string)
    requires Consistent(t)
    ensures Consistent(RegisterBorrower(t, name, email))
    ensures t.nextBorrowerId !in t.borrowers
  {
  }

  // ---------------------------------------------------------------------------
  // Update

  /** `updateBook` fails only on a missing id, and then changes nothing; on
      success it rewrites that one book: id and borrowed flag kept, a field
      replaced only by a non-empty title or genre or an author id other
      than -1. */
  lemma UpdateBookEffect(t: Tables, bookId: int, newTitle: string, newAuthorId: int, newGenre: string)
    ensures var s := UpdateBook(t, bookId, newTitle, newAuthorId, newGenre);
      && (s.outcome == Ok <==> bookId in t.books)
      && (s.outcome != Ok ==> s == Step(t, Err(BookNotFound)))
      && (s.outcome == Ok ==>
            var old_ := t.books[bookId];
            var new_ := s.tables.books[bookId];
            && s.tables.books.Keys == t.books.Keys
            && new_.id == old_.id && new_.isBorrowed == old_.isBorrowed
            && new_.title == (if newTitle == "" then old_.title else newTitle)
            && new_.genre == (if newGenre == "" then old_.genre else newGenre)
            && new_.authorId == (if newAuthorId == -1 then old_.authorId else newAuthorId)
            && (forall k :: k in t.books && k != bookId ==> s.tables.books[k] == t.books[k])
            && s.tables == t.(books := s.tables.books))
  {
  }

  /** Empty title and genre with author id -1 leave the book as it is. */
  lemma MergeKeepsAllOnEmptyInput(b: Book)
    ensures MergeBook(b, "", -1, "") == b
  {
  }

  /** Applying the same edit twice is applying it once. */
  lemma MergeIdempotent(b: Book, newTitle: string, newAuthorId: int, newGenre: string)
    ensures var m := MergeBook(b, newTitle, newAuthorId, newGenre);
      MergeBook(m, newTitle, newAuthorId, newGenre) == m
  {
  }

  lemma UpdateBookPreservesConsistent(t: Tables, bookId: int, newTitle: string, newAuthorId: int, newGenre: string)
    requires Consistent(t)
    ensures Consistent(UpdateBook(t, bookId, newTitle, newAuthorId, newGenre).tables)
  {
  }

  // ---------------------------------------------------------------------------
  // Removal

  /** `removeBook` fails only on a missing id, and then changes nothing; on
      success only that book row is gone and every borrow record stays. */
  lemma RemoveBookEffect(t: Tables, bookId: int)
    ensures var s := RemoveBook(t, bookId);
      && (s.outcome == Ok <==> bookId in t.books)
      && (s.outcome != Ok ==> s == Step(t, Err(BookNotFound)))
      && (s.outcome == Ok ==>
            && s.tables.books.Keys == t.books.Keys - {bookId}
            && (forall k :: k in s.tables.books ==> s.tables.books[k] == t.books[k])
            && s.tables.records == t.records
            && s.tables == t.(books := s.tables.books))
  {
  }

  lemma RemoveBookPreservesConsistent(t: Tables, bookId: int)
    requires Consistent(t)
    ensures Consistent(RemoveBook(t, bookId).tables)
  {
  }

  /** With no cascade, a record of a removed book can no longer be returned:
      the book lookup of `returnBook` fails and nothing changes. */
  lemma ReturnAfterRemoveFails(t: Tables, bookId: int, recordId: int)
    requires Consistent(t)
    requires recordId in t.records && t.records[recordId].bookId == bookId
    ensures var s := RemoveBook(t, bookId);
      && recordId in s.tables.records
      && Return(s.tables, recordId) == Step(s.tables, Err(BookNotFound))
  {
  }

  // ---------------------------------------------------------------------------
  // Borrowing

  /** The three guards of `borrowBook`, in their order: a missing book, a
      borrowed book, then a return date that is not two digits, '-', two
      digits, '-', four digits. Borrowing succeeds exactly when none applies,
      and a failure changes nothing. */
  lemma BorrowOutcome(t: Tables, bookId: int, borrowerId: int, today: string, returnDate: string)
    ensures var s := Borrow(t, bookId, borrowerId, today, returnDate);
      && (bookId !in t.books ==> s == Step(t, Err(BookNotFound)))
      && (bookId in t.books && t.books[bookId].isBorrowed ==> s == Step(t, Err(AlreadyBorrowed)))
      && (s.outcome == Ok <==>
            && bookId in t.books && !t.books[bookId].isBorrowed
            && |returnDate| == 10 && returnDate[2] == '-' && returnDate[5] == '-'
            && (forall i :: 0 <= i < 10 && i != 2 && i != 5 ==> Decimal.IsDigit(returnDate[i])))
      && (s.outcome != Ok ==> s.tables == t)
  {
  }

  /** A malformed return date is refused after the two lookups. */
  lemma BorrowRejectsMalformedDate(t: Tables, bookId: int, borrowerId: int, today: string, returnDate: string)
    requires bookId in t.books && !t.books[bookId].isBorrowed
    requires |returnDate| != 10 || returnDate[2] != '-' || returnDate[5] != '-'
    ensures Borrow(t, bookId, borrowerId, today, returnDate) == Step(t, Err(InvalidDateFormat))
  {
  }

  /** A successful borrow adds one record under an unused id, holding the
      book, the borrower, today's date and the entered return date; sets the
      book's flag; and changes nothing else. */
  lemma BorrowSuccessEffect(t: Tables, bookId: int, borrowerId: int, today: string, returnDate: string)
    requires Consistent(t)
    requires Borrow(t, bookId, borrowerId, today, returnDate).outcome == Ok
    ensures var t' := Borrow(t, bookId, borrowerId, today, returnDate).tables;
      var rid := t.nextRecordId;
      && rid !in t.records
      && t'.records.Keys == t.records.Keys + {rid}
      && t'.records[rid] == BorrowRecord(rid, bookId, borrowerId, Some(today), Some(returnDate))
      && (forall r :: r in t.records ==> t'.records[r] == t.records[r])
      && t'.books.Keys == t.books.Keys
      && t'.books[bookId] == t.books[bookId].(isBorrowed := true)
      && (forall k :: k in t.books && k != bookId ==> t'.books[k] == t.books[k])
      && t'.authors == t.authors && t'.borrowers == t.borrowers
      && t'.nextBookId == t.nextBookId
  {
  }

  /** Whether the borrower id names a registered borrower plays no part. */
  lemma BorrowIgnoresBorrowers(t: Tables, bookId: int, borrowerId: int, today: string, returnDate: string,
                               others: map<int, Borrower>)
    ensures Borrow(t.(borrowers := others), bookId, borrowerId, today, returnDate).outcome
         == Borrow(t, bookId, borrowerId, today, returnDate).outcome
  {
  }

  lemma BorrowPreservesConsistent(t: Tables, bookId: int, borrowerId: int, today: string, returnDate: string)
    requires Consistent(t)
    ensures Consistent(Borrow(t, bookId, borrowerId, today, returnDate).tables)
  {
    var s := Borrow(t, bookId, borrowerId, today, returnDate);
    if s.outcome == Ok {
      var t' := s.tables;
      var rid := t.nextRecordId;
      assert !OnLoan(t, bookId);
      assert t'.records[rid].bookId == bookId;
      forall id | id in t'.books ensures t'.books[id].isBorrowed <==> OnLoan(t', id) {
        if id != bookId {
          if OnLoan(t', id) {
            var r :| r in t'.records && t'.records[r].bookId == id;
            assert r != rid && r in t.records;
          }
          if OnLoan(t, id) {
            var r :| r in t.records && t.records[r].bookId == id;
            assert r in t'.records && t'.records[r].bookId == id;
          }
        }
      }
    }
  }

  // ---------------------------------------------------------------------------
  // Returning

  /** `returnBook` fails on a missing record and on a record whose book is
      gone, changing nothing in either case, and succeeds otherwise. */
  lemma ReturnOutcome(t: Tables, recordId: int)
    ensures var s := Return(t, recordId);
      && (recordId !in t.records ==> s == Step(t, Err(RecordNotFound)))
      && (recordId in t.records && t.records[recordId].bookId !in t.books ==> s == Step(t, Err(BookNotFound)))
      && (s.outcome == Ok <==> recordId in t.records && t.records[recordId].bookId in t.books)
      && (s.outcome != Ok ==> s.tables == t)
  {
  }

  /** A successful return deletes the chosen record, clears its book's flag
      and changes nothing else; no return date is written anywhere. */
  lemma ReturnSuccessEffect(t: Tables, recordId: int)
    requires Consistent(t)
    requires Return(t, recordId).outcome == Ok
    ensures var t' := Return(t, recordId).tables;
      var bookId := t.records[recordId].bookId;
      && t'.records.Keys == t.records.Keys - {recordId}
      && (forall r :: r in t'.records ==> t'.records[r] == t.records[r])
      && t'.books.Keys == t.books.Keys
      && t'.books[bookId] == t.books[bookId].(isBorrowed := false)
      && (forall k :: k in t.books && k != bookId ==> t'.books[k] == t.books[k])
      && t'.authors == t.authors && t'.borrowers == t.borrowers
      && t'.nextRecordId == t.nextRecordId && t'.nextBookId == t.nextBookId
  {
  }

  lemma ReturnPreservesConsistent(t: Tables, recordId: int)
    requires Consistent(t)
    ensures Consistent(Return(t, recordId).tables)
  {
    var s := Return(t, recordId);
    if s.outcome == Ok {
      var t' := s.tables;
      var bookId := t.records[recordId].bookId;
      forall id | id in t'.books ensures t'.books[id].isBorrowed <==> OnLoan(t', id) {
        if id == bookId {
          // The deleted record was the only one that referred to the book.
          forall r | r in t'.records ensures t'.records[r].bookId != bookId {
            assert r != recordId && r in t.records;
          }
        } else if OnLoan(t, id) {
          var r :| r in t.records && t.records[r].bookId == id;
          assert r != recordId;
          assert r in t'.records && t'.records[r].bookId == id;
        }
      }
    }
  }

  // ---------------------------------------------------------------------------
  // Consequences

  /** In a consistent store a book is marked borrowed exactly when one borrow
      record, and no more, refers to it. */
  lemma BorrowedIffExactlyOneRecord(t: Tables, bookId: int)
    requires Consistent(t)
    requires bookId in t.books
    ensures t.books[bookId].isBorrowed <==> |RecordsOf(t, bookId)| == 1
  {
    var rs := RecordsOf(t, bookId);
    if t.books[bookId].isBorrowed {
      var r :| r in t.records && t.records[r].bookId == bookId;
      assert r in rs;
      assert forall x :: x in rs ==> x == r;
      assert rs == {r};
    } else {
      assert forall x :: x !in rs;
      assert rs == {};
    }
  }

  /** Borrowing an available book and then returning the record it created
      restores every table; only the record counter has moved on. */
  lemma BorrowThenReturn(t: Tables, bookId: int, borrowerId: int, today: string, returnDate: string)
    requires Consistent(t)
    requires Borrow(t, bookId, borrowerId, today, returnDate).outcome == Ok
    ensures var t' := Borrow(t, bookId, borrowerId, today, returnDate).tables;
      Return(t', t.nextRecordId) == Step(t.(nextRecordId := t.nextRecordId + 1), Ok)
  {
  }

  /** A second borrow of the same book, whatever the borrower and dates,
      fails and changes nothing. */
  lemma BorrowTwiceFails(t: Tables, bookId: int, borrowerId: int, today: string, returnDate: string,
                         borrowerId2: int, today2: string, returnDate2: string)
    requires Borrow(t, bookId, borrowerId, today, returnDate).outcome == Ok
    ensures var t' := Borrow(t, bookId, borrowerId, today, returnDate).tables;
      Borrow(t', bookId, borrowerId2, today2, returnDate2) == Step(t', Err(AlreadyBorrowed))
  {
  }

  /** On a new database: a book is added and borrowed with today's date,
      a second borrow is refused, the return deletes the record and clears the
      flag, and the book can be borrowed again under the next record id. */
  lemma LendingScenario(borrowerId: int)
    ensures var t0 := AddBook(Empty, "Dune", 1, "SF");
      var s1 := Borrow(t0, 1, borrowerId, "03-02-2025", "20-02-2025");
      var s2 := Borrow(s1.tables, 1, borrowerId + 1, "04-02-2025", "20-02-2025");
      var s3 := Return(s1.tables, 1);
      var s4 := Borrow(s3.tables, 1, borrowerId + 1, "05-02-2025", "20-02-2025");
      && s1.outcome == Ok && s1.tables.books[1].isBorrowed
      && s1.tables.records == map[1 := BorrowRecord(1, 1, borrowerId, Some("03-02-2025"), Some("20-02-2025"))]
      && s2 == Step(s1.tables, Err(AlreadyBorrowed))
      && s3.outcome == Ok && !s3.tables.books[1].isBorrowed && s3.tables.records == map[]
      && s4.outcome == Ok && s4.tables.records.Keys == {2}
  {
  }
}
