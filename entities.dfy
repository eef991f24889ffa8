/** The records kept in the library's four tables, and the outcome of an
    operation that can fail. */
module Entities {

  /** `std::optional`: a value that may be absent. */
  datatype Option<T> = None | Some(value: T) {
    /** `value_or`: the value when present, otherwise the given default. */
    function GetOr(default: T): T {
      match this
      case Some(v) => v
      case None => default
    }
  }

  /** A row of the `books` table. */
  datatype Book = Book(id: int, title: string, authorId: int, genre: string, isBorrowed: bool)

  /** A row of the `authors` table. */
  datatype Author = Author(id: int, name: string)

  /** A row of the `borrowers` table. */
  datatype Borrower = Borrower(id: int, name: string, email: string)

  /** A row of the `borrow_records` table; both dates are nullable columns. */
  datatype BorrowRecord = BorrowRecord(
    id: int,
    bookId: int,
    borrowerId: int,
    borrowDate: Option<string>,
    returnDate: Option<string>)

  /** Why an operation stopped without changing the store. */
  datatype Error =
    | BookNotFound       // a `get<Book>` that throws, or a `get_optional<Book>` that is empty
    | AlreadyBorrowed    // borrowing a book whose flag is already set
    | InvalidDateFormat  // an entered return date that is not dd-mm-yyyy
    | RecordNotFound     // a `get<BorrowRecord>` that throws

  datatype Outcome = Ok | Err(error: Error)
}
