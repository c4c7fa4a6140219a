/** The adapter's database rows for checkouts and their conversion into the
    kernel's `Checkout` entity. Every conversion chains the value objects'
    `TryFrom`, which never fails, so every conversion succeeds. */
module CheckoutRows {
  import opened Wrappers
  import opened ValueObject
  import opened CheckoutDomain

  /** The lending state of one book, read inside a transaction: a row exists
      exactly when the book does; `checkoutId` (and, on the return path,
      `userId`) are Some exactly when the book is on loan. */
  datatype CheckoutStateRow = CheckoutStateRow(bookId: Uuid, checkoutId: Option<Uuid>, userId: Option<Uuid>)

  /** A row of `checkouts` joined with its book. */
  datatype CheckoutRow = CheckoutRow(
    checkoutId: Uuid,
    userId: Uuid,
    checkedOutAt: Timestamp,
    bookId: Uuid,
    title: string,
    author: string,
    isbn: string)

  /** A row of `returned_checkouts` joined with its book. */
  datatype ReturnedCheckoutRow = ReturnedCheckoutRow(
    checkoutId: Uuid,
    userId: Uuid,
    checkedOutAt: Timestamp,
    returnedAt: Timestamp,
    bookId: Uuid,
    title: string,
    author: string,
    isbn: string)

  /** `CheckoutRowError` (`ReturnedCheckoutRowError` has the same variants). */
  datatype CheckoutRowError =
    | InvalidCheckoutId(ValueObjectError<Uuid>)
    | InvalidUserId(ValueObjectError<Uuid>)
    | InvalidBookId(ValueObjectError<Uuid>)
    | InvalidTitle(ValueObjectError<string>)
    | InvalidAuthor(ValueObjectError<string>)
    | InvalidIsbn(ValueObjectError<string>)

  /** The `book` part of both conversions: four value-object `TryFrom`s, each
      error lifted by `?` into the row error (the `?` is spelt out as a match
      whose failure case passes the error on). */
  function BookFromColumns(bookId: Uuid, title: string, author: string, isbn: string): (r: Result<CheckoutBook, CheckoutRowError>)
    ensures r.Success?
    ensures r.value.bookId.inner == bookId && r.value.title.inner == title
    ensures r.value.author.inner == author && r.value.isbn.inner == isbn
  {
    match TryFrom<BookIdKind, Uuid>(bookId).MapFailure(e => InvalidBookId(e))
    case Failure(err) => Failure(err)
    case Success(b) =>
    match TryFrom<TitleKind, string>(title).MapFailure(e => InvalidTitle(e))
    case Failure(err) => Failure(err)
    case Success(t) =>
    match TryFrom<AuthorKind, string>(author).MapFailure(e => InvalidAuthor(e))
    case Failure(err) => Failure(err)
    case Success(a) =>
    match TryFrom<IsbnKind, string>(isbn).MapFailure(e => InvalidIsbn(e))
    case Failure(err) => Failure(err)
    case Success(i) =>
    Success(CheckoutBook(b, t, a, i))
  }

  /** `TryFrom<CheckoutRow> for Checkout`: an open loan, `returned_at = None`. */
  function FromCheckoutRow(row: CheckoutRow): (r: Result<Checkout, CheckoutRowError>)
    ensures r.Success?
    ensures r.value.returnedAt.None?
    ensures r.value.checkoutId.inner == row.checkoutId
    ensures r.value.checkedOutBy.inner == row.userId
    ensures r.value.checkedOutAt == row.checkedOutAt
    ensures r.value.book.bookId.inner == row.bookId
    ensures r.value.book.title.inner == row.title
    ensures r.value.book.author.inner == row.author
    ensures r.value.book.isbn.inner == row.isbn
  {
    match TryFrom<CheckoutIdKind, Uuid>(row.checkoutId).MapFailure(e => InvalidCheckoutId(e))
    case Failure(err) => Failure(err)
    case Success(checkoutId) =>
    match TryFrom<UserIdKind, Uuid>(row.userId).MapFailure(e => InvalidUserId(e))
    case Failure(err) => Failure(err)
    case Success(checkedOutBy) =>
    match BookFromColumns(row.bookId, row.title, row.author, row.isbn)
    case Failure(err) => Failure(err)
    case Success(book) =>
    Success(Checkout(checkoutId, checkedOutBy, row.checkedOutAt, None, book))
  }

  /** `TryFrom<ReturnedCheckoutRow> for Checkout`: a closed loan,
      `returned_at = Some(row.returned_at)`. */
  function FromReturnedCheckoutRow(row: ReturnedCheckoutRow): (r: Result<Checkout, CheckoutRowError>)
    ensures r.Success?
    ensures r.value.returnedAt == Some(row.returnedAt)
    ensures r.value.checkoutId.inner == row.checkoutId
    ensures r.value.checkedOutBy.inner == row.userId
    ensures r.value.checkedOutAt == row.checkedOutAt
    ensures r.value.book.bookId.inner == row.bookId
    ensures r.value.book.title.inner == row.title
    ensures r.value.book.author.inner == row.author
    ensures r.value.book.isbn.inner == row.isbn
  {
    match TryFrom<CheckoutIdKind, Uuid>(row.checkoutId).MapFailure(e => InvalidCheckoutId(e))
    case Failure(err) => Failure(err)
    case Success(checkoutId) =>
    match TryFrom<UserIdKind, Uuid>(row.userId).MapFailure(e => InvalidUserId(e))
    case Failure(err) => Failure(err)
    case Success(checkedOutBy) =>
    match BookFromColumns(row.bookId, row.title, row.author, row.isbn)
    case Failure(err) => Failure(err)
    case Success(book) =>
    Success(Checkout(checkoutId, checkedOutBy, row.checkedOutAt, Some(row.returnedAt), book))
  }

  /** The two conversions agree on everything but `returned_at`: a returned
      row reads as the open row it came from, stamped with its return time. */
  lemma ReturnedRowIsStampedOpenRow(row: ReturnedCheckoutRow)
    ensures
      var open := CheckoutRow(row.checkoutId, row.userId, row.checkedOutAt, row.bookId, row.title, row.author, row.isbn);
      FromReturnedCheckoutRow(row).value == FromCheckoutRow(open).value.(returnedAt := Some(row.returnedAt))
  {
  }

  /** Distinct open rows convert to distinct checkouts: nothing is lost. */
  lemma FromCheckoutRowInjective(a: CheckoutRow, b: CheckoutRow)
    ensures FromCheckoutRow(a).value == FromCheckoutRow(b).value ==> a == b
  {
  }
}
