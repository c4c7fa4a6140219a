/** The three tables the checkout repository works on, the invariant they
    keep, and the reads the repository's SQL performs on them, as functions
    over table values. The tables hold raw UUIDs, as the SQL binds
    `inner_ref()` of each identifier. */
module CheckoutTables {
  import opened Wrappers
  import opened ValueObject
  import opened CheckoutDomain
  import opened CheckoutRows

  /** The columns of `books` that the checkout queries select. */
  datatype BookRow = BookRow(title: string, author: string, isbn: string)

  /** A row of `checkouts`: an open loan. */
  datatype OpenLoan = OpenLoan(checkoutId: Uuid, bookId: Uuid, userId: Uuid, checkedOutAt: Timestamp)

  /** A row of `returned_checkouts`: a closed loan. */
  datatype ClosedLoan = ClosedLoan(
    checkoutId: Uuid,
    bookId: Uuid,
    userId: Uuid,
    checkedOutAt: Timestamp,
    returnedAt: Timestamp)

  /** `books` keyed by its primary key; the two loan tables in row order. */
  datatype Tables = Tables(books: map<Uuid, BookRow>, open: seq<OpenLoan>, closed: seq<ClosedLoan>)

  // ---------------------------------------------------------------------
  // The invariant

  /** At most one open loan per book (the unique constraint on `checkouts.book_id`). */
  ghost predicate OneOpenLoanPerBook(open: seq<OpenLoan>)
  {
    forall i, j :: 0 <= i < j < |open| ==> open[i].bookId != open[j].bookId
  }

  /** `checkouts.checkout_id` is the primary key. */
  ghost predicate OpenIdsUnique(open: seq<OpenLoan>)
  {
    forall i, j :: 0 <= i < j < |open| ==> open[i].checkoutId != open[j].checkoutId
  }

  /** Checkout ids are generated once: no two closed loans, and no closed and
      open loan, share one. */
  ghost predicate HistoryIdsUnique(t: Tables)
  {
    && (forall i, j :: 0 <= i < j < |t.closed| ==> t.closed[i].checkoutId != t.closed[j].checkoutId)
    && (forall i, j :: 0 <= i < |t.closed| && 0 <= j < |t.open| ==> t.closed[i].checkoutId != t.open[j].checkoutId)
  }

  /** The foreign keys from both loan tables to `books`. */
  ghost predicate LoansReferToBooks(t: Tables)
  {
    && (forall l :: l in t.open ==> l.bookId in t.books)
    && (forall l :: l in t.closed ==> l.bookId in t.books)
  }

  ghost predicate Valid(t: Tables)
  {
    && OneOpenLoanPerBook(t.open)
    && OpenIdsUnique(t.open)
    && HistoryIdsUnique(t)
    && LoansReferToBooks(t)
  }

  /** An id the database may generate for a new loan: not used by any loan. */
  ghost predicate FreshCheckoutId(t: Tables, id: Uuid)
  {
    && (forall i :: 0 <= i < |t.open| ==> t.open[i].checkoutId != id)
    && (forall i :: 0 <= i < |t.closed| ==> t.closed[i].checkoutId != id)
  }

  // ---------------------------------------------------------------------
  // Reads of `checkouts`

  predicate OnLoan(open: seq<OpenLoan>, bookId: Uuid)
  {
    exists i :: 0 <= i < |open| && open[i].bookId == bookId
  }

  /** The first open loan of the book: what a join on `book_id` fetched
      with `fetch_optional` sees. */
  function OpenLoanOf(open: seq<OpenLoan>, bookId: Uuid): (r: Option<OpenLoan>)
    ensures r.Some? <==> OnLoan(open, bookId)
    ensures r.Some? ==> r.value.bookId == bookId && r.value in open
  {
    if open == [] then None
    else if open[0].bookId == bookId then Some(open[0])
    else
      assert OnLoan(open, bookId) <==> OnLoan(open[1..], bookId) by {
        if OnLoan(open, bookId) {
          var i :| 0 <= i < |open| && open[i].bookId == bookId;
          assert open[1..][i - 1] == open[i];
        }
      }
      OpenLoanOf(open[1..], bookId)
  }

  /** The rows `WHERE c.checkout_id = $1` selects. */
  function WithCheckoutId(open: seq<OpenLoan>, id: Uuid): (r: seq<OpenLoan>)
    ensures forall l :: l in r <==> l in open && l.checkoutId == id
  {
    if open == [] then []
    else if open[0].checkoutId == id then [open[0]] + WithCheckoutId(open[1..], id)
    else WithCheckoutId(open[1..], id)
  }

  /** The rows `DELETE FROM checkouts WHERE checkout_id = $1` leaves, in order. */
  function WithoutCheckoutId(open: seq<OpenLoan>, id: Uuid): (r: seq<OpenLoan>)
    ensures forall l :: l in r <==> l in open && l.checkoutId != id
  {
    if open == [] then []
    else if open[0].checkoutId == id then WithoutCheckoutId(open[1..], id)
    else [open[0]] + WithoutCheckoutId(open[1..], id)
  }

  /** `WHERE c.user_id = $1`. */
  function OfUser(open: seq<OpenLoan>, userId: Uuid): (r: seq<OpenLoan>)
    ensures forall l :: l in r <==> l in open && l.userId == userId
  {
    if open == [] then []
    else if open[0].userId == userId then [open[0]] + OfUser(open[1..], userId)
    else OfUser(open[1..], userId)
  }

  /** `WHERE rc.book_id = $1` on `returned_checkouts`. */
  function ClosedOfBook(closed: seq<ClosedLoan>, bookId: Uuid): (r: seq<ClosedLoan>)
    ensures forall l :: l in r <==> l in closed && l.bookId == bookId
    ensures |r| <= |closed|
  {
    if closed == [] then []
    else if closed[0].bookId == bookId then [closed[0]] + ClosedOfBook(closed[1..], bookId)
    else ClosedOfBook(closed[1..], bookId)
  }

  /** Closing a loan: the same columns, plus the return time. */
  function Close(l: OpenLoan, at: Timestamp): ClosedLoan
  {
    ClosedLoan(l.checkoutId, l.bookId, l.userId, l.checkedOutAt, at)
  }

  /** `INSERT INTO returned_checkouts (…) SELECT …, $2 FROM checkouts`: the
      selected rows, each stamped with the return time. */
  function CloseAll(loans: seq<OpenLoan>, at: Timestamp): (r: seq<ClosedLoan>)
    ensures |r| == |loans|
    ensures forall i :: 0 <= i < |loans| ==> r[i] == Close(loans[i], at)
  {
    if loans == [] then [] else [Close(loans[0], at)] + CloseAll(loans[1..], at)
  }

  // ---------------------------------------------------------------------
  // The state rows of the two transactions

  /** The create path's state query: `books LEFT OUTER JOIN checkouts`, with
      `NULL AS user_id`. */
  function CreateStateRow(t: Tables, bookId: Uuid): (row: Option<CheckoutStateRow>)
    ensures row.Some? <==> bookId in t.books
    ensures row.Some? ==> row.value.bookId == bookId
    ensures row.Some? ==> (row.value.checkoutId.Some? <==> OnLoan(t.open, bookId))
    ensures row.Some? ==> row.value.userId.None?
  {
    if bookId !in t.books then None
    else
      var loan := OpenLoanOf(t.open, bookId);
      Some(CheckoutStateRow(bookId, if loan.Some? then Some(loan.value.checkoutId) else None, None))
  }

  /** The return path's state query: the same join, selecting `c.user_id`. */
  function ReturnStateRow(t: Tables, bookId: Uuid): (row: Option<CheckoutStateRow>)
    ensures row.Some? <==> bookId in t.books
    ensures row.Some? ==> row.value.bookId == bookId
    ensures row.Some? ==> (row.value.checkoutId.Some? <==> OnLoan(t.open, bookId))
    ensures row.Some? ==> (row.value.userId.Some? <==> OnLoan(t.open, bookId))
    ensures row.Some? && row.value.checkoutId.Some? ==>
              exists l :: l in t.open && l.bookId == bookId &&
                row.value.checkoutId == Some(l.checkoutId) && row.value.userId == Some(l.userId)
  {
    if bookId !in t.books then None
    else
      match OpenLoanOf(t.open, bookId)
      case None => Some(CheckoutStateRow(bookId, None, None))
      case Some(loan) => Some(CheckoutStateRow(bookId, Some(loan.checkoutId), Some(loan.userId)))
  }

  // ---------------------------------------------------------------------
  // The joins of the list queries

  function OpenLoanRow(books: map<Uuid, BookRow>, l: OpenLoan): CheckoutRow
    requires l.bookId in books
  {
    var b := books[l.bookId];
    CheckoutRow(l.checkoutId, l.userId, l.checkedOutAt, l.bookId, b.title, b.author, b.isbn)
  }

  function ClosedLoanRow(books: map<Uuid, BookRow>, l: ClosedLoan): ReturnedCheckoutRow
    requires l.bookId in books
  {
    var b := books[l.bookId];
    ReturnedCheckoutRow(l.checkoutId, l.userId, l.checkedOutAt, l.returnedAt, l.bookId, b.title, b.author, b.isbn)
  }

  /** `checkouts INNER JOIN books`: loans whose book exists, in row order. */
  function JoinOpen(books: map<Uuid, BookRow>, loans: seq<OpenLoan>): (rows: seq<CheckoutRow>)
    ensures |rows| <= |loans|
    ensures forall l :: l in loans && l.bookId in books ==> OpenLoanRow(books, l) in rows
    ensures forall r :: r in rows ==> exists l :: l in loans && l.bookId in books && r == OpenLoanRow(books, l)
    ensures (forall l :: l in loans ==> l.bookId in books) ==>
              |rows| == |loans| && forall i :: 0 <= i < |loans| ==> rows[i] == OpenLoanRow(books, loans[i])
  {
    if loans == [] then []
    else if loans[0].bookId in books then [OpenLoanRow(books, loans[0])] + JoinOpen(books, loans[1..])
    else JoinOpen(books, loans[1..])
  }

  /** `returned_checkouts INNER JOIN books`. */
  function JoinClosed(books: map<Uuid, BookRow>, loans: seq<ClosedLoan>): (rows: seq<ReturnedCheckoutRow>)
    ensures |rows| <= |loans|
    ensures forall l :: l in loans && l.bookId in books ==> ClosedLoanRow(books, l) in rows
    ensures forall r :: r in rows ==> exists l :: l in loans && l.bookId in books && r == ClosedLoanRow(books, l)
    ensures (forall l :: l in loans ==> l.bookId in books) ==>
              |rows| == |loans| && forall i :: 0 <= i < |loans| ==> rows[i] == ClosedLoanRow(books, loans[i])
  {
    if loans == [] then []
    else if loans[0].bookId in books then [ClosedLoanRow(books, loans[0])] + JoinClosed(books, loans[1..])
    else JoinClosed(books, loans[1..])
  }

  /** `books INNER JOIN checkouts WHERE b.book_id = $1`, fetched with `fetch_optional`. */
  function CheckingOutRow(books: map<Uuid, BookRow>, open: seq<OpenLoan>, bookId: Uuid): (r: Option<CheckoutRow>)
    ensures r.Some? <==> bookId in books && OnLoan(open, bookId)
    ensures r.Some? ==> r.value == OpenLoanRow(books, OpenLoanOf(open, bookId).value)
  {
    if bookId !in books then None
    else
      match OpenLoanOf(open, bookId)
      case None => None
      case Some(l) => Some(OpenLoanRow(books, l))
  }

  /** What a user sees of an open loan. */
  function LoanCheckout(books: map<Uuid, BookRow>, l: OpenLoan): (c: Checkout)
    requires l.bookId in books
    ensures c.checkoutId.inner == l.checkoutId && c.checkedOutBy.inner == l.userId
    ensures c.checkedOutAt == l.checkedOutAt && c.returnedAt.None? && c.book.bookId.inner == l.bookId
  {
    FromCheckoutRow(OpenLoanRow(books, l)).value
  }

  /** What a user sees of a closed loan. */
  function ClosedLoanCheckout(books: map<Uuid, BookRow>, l: ClosedLoan): (c: Checkout)
    requires l.bookId in books
    ensures c.checkoutId.inner == l.checkoutId && c.checkedOutBy.inner == l.userId
    ensures c.checkedOutAt == l.checkedOutAt && c.returnedAt == Some(l.returnedAt) && c.book.bookId.inner == l.bookId
  {
    FromReturnedCheckoutRow(ClosedLoanRow(books, l)).value
  }
}
