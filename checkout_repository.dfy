/** `CheckoutRepositoryImpl`: the tables it reaches through its connection
    pool are its fields. `create` and `update_returned` run a transaction on
    a copy of the tables and commit it by assigning the copy back; the three
    queries read the fields. */
module CheckoutRepository {
  import opened Wrappers
  import opened ValueObject
  import opened CheckoutDomain
  import opened CheckoutRows
  import opened RowSequences
  import opened CheckoutTables
  import opened CheckoutTransactions

  // ---------------------------------------------------------------------
  // ORDER BY keys and the row conversions, as first-class functions

  function OpenRowKey(row: CheckoutRow): int { row.checkedOutAt }

  /** `ORDER BY checked_out_at DESC` sorts ascending on the negated key. */
  function ReturnedRowKeyDesc(row: ReturnedCheckoutRow): int { -row.checkedOutAt }

  function CheckoutKey(c: Checkout): int { c.checkedOutAt }

  function CheckoutKeyDesc(c: Checkout): int { -c.checkedOutAt }

  function OpenRowCheckout(row: CheckoutRow): Checkout { FromCheckoutRow(row).value }

  function ReturnedRowCheckout(row: ReturnedCheckoutRow): Checkout { FromReturnedCheckoutRow(row).value }

  /** `map_err(|e| InvalidSavedEntity(e.into()))`. */
  function SavedEntityError(e: CheckoutRowError): (r: CheckoutRepositoryError)
    ensures r.InvalidSavedEntity?
    ensures |r.message| > 0
  {
    InvalidSavedEntity(
      match e
      case InvalidCheckoutId(_) => "saved checkout id is invalid"
      case InvalidUserId(_) => "saved user id is invalid"
      case InvalidBookId(_) => "saved book id is invalid"
      case InvalidTitle(_) => "saved title is invalid"
      case InvalidAuthor(_) => "saved author is invalid"
      case InvalidIsbn(_) => "saved isbn is invalid")
  }

  /** Converting the open rows sorted by time gives the converted rows
      sorted by time. */
  lemma OpenRowsListed(rows: seq<CheckoutRow>)
    ensures Collect(SortBy(rows, OpenRowKey), FromCheckoutRow).Success?
    ensures Collect(SortBy(rows, OpenRowKey), FromCheckoutRow).value == SortBy(Map(rows, OpenRowCheckout), CheckoutKey)
  {
    var sorted := SortBy(rows, OpenRowKey);
    assert Collect(sorted, FromCheckoutRow).value == Map(sorted, OpenRowCheckout);
    MapSortBy(rows, OpenRowKey, OpenRowCheckout, CheckoutKey);
  }

  /** Converting the returned rows sorted newest first gives the converted
      rows newest first. */
  lemma ReturnedRowsListed(rows: seq<ReturnedCheckoutRow>)
    ensures Collect(SortBy(rows, ReturnedRowKeyDesc), FromReturnedCheckoutRow).Success?
    ensures Collect(SortBy(rows, ReturnedRowKeyDesc), FromReturnedCheckoutRow).value ==
              SortBy(Map(rows, ReturnedRowCheckout), CheckoutKeyDesc)
  {
    var sorted := SortBy(rows, ReturnedRowKeyDesc);
    assert Collect(sorted, FromReturnedCheckoutRow).value == Map(sorted, ReturnedRowCheckout);
    MapSortBy(rows, ReturnedRowKeyDesc, ReturnedRowCheckout, CheckoutKeyDesc);
  }

  /** Every loan whose book exists shows up in the joined, converted list. */
  lemma JoinedOpenLoansListed(books: map<Uuid, BookRow>, loans: seq<OpenLoan>)
    ensures (forall l :: l in loans ==> l.bookId in books) ==>
              && |Map(JoinOpen(books, loans), OpenRowCheckout)| == |loans|
              && forall l :: l in loans ==> LoanCheckout(books, l) in Map(JoinOpen(books, loans), OpenRowCheckout)
  {
    if forall l :: l in loans ==> l.bookId in books {
      var listed := Map(JoinOpen(books, loans), OpenRowCheckout);
      forall l | l in loans ensures LoanCheckout(books, l) in listed {
        var i :| 0 <= i < |loans| && loans[i] == l;
        assert listed[i] == LoanCheckout(books, l);
      }
    }
  }

  /** Every closed loan whose book exists shows up in the joined, converted list. */
  lemma JoinedClosedLoansListed(books: map<Uuid, BookRow>, loans: seq<ClosedLoan>)
    requires forall l :: l in loans ==> l.bookId in books
    ensures |Map(JoinClosed(books, loans), ReturnedRowCheckout)| == |loans|
    ensures forall l :: l in loans ==> ClosedLoanCheckout(books, l) in Map(JoinClosed(books, loans), ReturnedRowCheckout)
  {
    var listed := Map(JoinClosed(books, loans), ReturnedRowCheckout);
    forall l | l in loans ensures ClosedLoanCheckout(books, l) in listed {
      var i :| 0 <= i < |loans| && loans[i] == l;
      assert listed[i] == ClosedLoanCheckout(books, l);
    }
  }

  /** The joined rows of one user's loans all belong to that user. */
  lemma {:induction false} JoinedLoansOfUser(books: map<Uuid, BookRow>, loans: seq<OpenLoan>, userId: Uuid)
    requires forall l :: l in loans ==> l.userId == userId
    ensures forall c :: c in Map(JoinOpen(books, loans), OpenRowCheckout) ==> c.checkedOutBy.inner == userId
  {
    if loans != [] {
      assert forall l :: l in loans[1..] ==> l in loans;
      JoinedLoansOfUser(books, loans[1..], userId);
      var rest := Map(JoinOpen(books, loans[1..]), OpenRowCheckout);
      if loans[0].bookId in books {
        assert Map(JoinOpen(books, loans), OpenRowCheckout) == [LoanCheckout(books, loans[0])] + rest;
      } else {
        assert Map(JoinOpen(books, loans), OpenRowCheckout) == rest;
      }
    }
  }

  /** The joined rows of one book's closed loans are all closed loans of that book. */
  lemma {:induction false} JoinedClosedLoansOfBook(books: map<Uuid, BookRow>, loans: seq<ClosedLoan>, bookId: Uuid)
    requires forall l :: l in loans ==> l.bookId == bookId
    ensures forall c :: c in Map(JoinClosed(books, loans), ReturnedRowCheckout) ==>
              c.book.bookId.inner == bookId && c.returnedAt.Some?
  {
    if loans != [] {
      assert forall l :: l in loans[1..] ==> l in loans;
      JoinedClosedLoansOfBook(books, loans[1..], bookId);
      var rest := Map(JoinClosed(books, loans[1..]), ReturnedRowCheckout);
      if loans[0].bookId in books {
        assert Map(JoinClosed(books, loans), ReturnedRowCheckout) == [ClosedLoanCheckout(books, loans[0])] + rest;
      } else {
        assert Map(JoinClosed(books, loans), ReturnedRowCheckout) == rest;
      }
    }
  }

  /** The order of what `find_unreturned_all` lists from the given loans:
      every conversion succeeds, oldest first, all of them open. */
  lemma OpenListingOrder(books: map<Uuid, BookRow>, loans: seq<OpenLoan>)
    ensures
      var r := Collect(SortBy(JoinOpen(books, loans), OpenRowKey), FromCheckoutRow);
      && r.Success?
      && (forall i, j :: 0 <= i < j < |r.value| ==> r.value[i].checkedOutAt <= r.value[j].checkedOutAt)
      && (forall c :: c in r.value ==> c.returnedAt.None?)
  {
    var sorted := SortBy(JoinOpen(books, loans), OpenRowKey);
    var cs := Collect(sorted, FromCheckoutRow).value;
    forall i, j | 0 <= i < j < |cs| ensures cs[i].checkedOutAt <= cs[j].checkedOutAt {
      assert OpenRowKey(sorted[i]) <= OpenRowKey(sorted[j]);
    }
  }

  /** The contents of what `find_unreturned_all` lists from the given
      loans: the joined rows, converted; with the foreign key, one entry
      per loan. */
  lemma OpenListingContents(books: map<Uuid, BookRow>, loans: seq<OpenLoan>)
    ensures
      var r := Collect(SortBy(JoinOpen(books, loans), OpenRowKey), FromCheckoutRow);
      && r.Success?
      && multiset(r.value) == multiset(Map(JoinOpen(books, loans), OpenRowCheckout))
      && ((forall l :: l in loans ==> l.bookId in books) ==>
            |r.value| == |loans| && forall l :: l in loans ==> LoanCheckout(books, l) in r.value)
  {
    var rows := JoinOpen(books, loans);
    OpenRowsListed(rows);
    SameMembers(Collect(SortBy(rows, OpenRowKey), FromCheckoutRow).value, Map(rows, OpenRowCheckout));
    JoinedOpenLoansListed(books, loans);
  }

  /** What `find_unreturned_by_user_id` lists: the open listing of the
      user's loans, all of them the user's. */
  lemma UserListing(books: map<Uuid, BookRow>, open: seq<OpenLoan>, userId: Uuid)
    ensures
      var r := Collect(SortBy(JoinOpen(books, OfUser(open, userId)), OpenRowKey), FromCheckoutRow);
      && r.Success?
      && (forall i, j :: 0 <= i < j < |r.value| ==> r.value[i].checkedOutAt <= r.value[j].checkedOutAt)
      && (forall c :: c in r.value ==> c.returnedAt.None? && c.checkedOutBy.inner == userId)
      && multiset(r.value) == multiset(Map(JoinOpen(books, OfUser(open, userId)), OpenRowCheckout))
      && ((forall l :: l in open ==> l.bookId in books) ==>
            |r.value| == |OfUser(open, userId)| &&
            forall l :: l in open && l.userId == userId ==> LoanCheckout(books, l) in r.value)
  {
    var mine := OfUser(open, userId);
    OpenListingOrder(books, mine);
    OpenListingContents(books, mine);
    JoinedLoansOfUser(books, mine, userId);
    var cs := Collect(SortBy(JoinOpen(books, mine), OpenRowKey), FromCheckoutRow).value;
    SameMembers(cs, Map(JoinOpen(books, mine), OpenRowCheckout));
  }

  /** The closed part of `find_history_by_book_id`: the book's closed loans,
      converted, newest first; with the foreign key, one entry per loan. */
  lemma PastListing(books: map<Uuid, BookRow>, closed: seq<ClosedLoan>, bookId: Uuid)
    ensures
      var rows := JoinClosed(books, ClosedOfBook(closed, bookId));
      var r := Collect(SortBy(rows, ReturnedRowKeyDesc), FromReturnedCheckoutRow);
      && r.Success?
      && (forall i, j :: 0 <= i < j < |r.value| ==> r.value[i].checkedOutAt >= r.value[j].checkedOutAt)
      && (forall c :: c in r.value ==> c.returnedAt.Some? && c.book.bookId.inner == bookId)
      && multiset(r.value) == multiset(Map(rows, ReturnedRowCheckout))
      && ((forall l :: l in closed ==> l.bookId in books) ==>
            |r.value| == |ClosedOfBook(closed, bookId)| &&
            forall l :: l in closed && l.bookId == bookId ==> ClosedLoanCheckout(books, l) in r.value)
  {
    var past := ClosedOfBook(closed, bookId);
    var rows := JoinClosed(books, past);
    ReturnedRowsListed(rows);
    JoinedClosedLoansOfBook(books, past, bookId);
    var listed := Map(rows, ReturnedRowCheckout);
    var cs := Collect(SortBy(rows, ReturnedRowKeyDesc), FromReturnedCheckoutRow).value;
    assert SortedBy(cs, CheckoutKeyDesc);
    SameMembers(cs, listed);
    if forall l :: l in closed ==> l.bookId in books {
      JoinedClosedLoansListed(books, past);
    }
  }

  class CheckoutRepositoryImpl {
    var books: map<Uuid, BookRow>
    var open: seq<OpenLoan>
    var closed: seq<ClosedLoan>

    function State(): Tables
      reads this
    {
      Tables(books, open, closed)
    }

    ghost predicate Valid()
      reads this
    {
      CheckoutTables.Valid(State())
    }

    /** A repository over a catalogue of books with no loans yet. */
    constructor(catalog: map<Uuid, BookRow>)
      ensures State() == Tables(catalog, [], [])
      ensures Valid()
    {
      books, open, closed := catalog, [], [];
    }

    /** `create`. `generatedId` is the `checkout_id` the database generates
        for the inserted row. */
    method Create(event: CreateCheckout, generatedId: Uuid) returns (r: Result<(), CheckoutRepositoryError>)
      modifies this
      ensures Step(r, State()) == CreateSpec(old(State()), event, generatedId)
      ensures old(Valid()) && FreshCheckoutId(old(State()), generatedId) ==> Valid()
    {
      ghost var before := State();
      if Valid() && FreshCheckoutId(before, generatedId) {
        CreatePreservesValid(before, event, generatedId);
      }
      var row := CreateStateRow(State(), event.bookId.inner);
      match row {
        case None =>
          return Failure(BookNotFound(event.bookId));
        case Some(CheckoutStateRow(_, Some(_), _)) =>
          return Failure(BookAlreadyCheckedOut(event.bookId));
        case _ =>
      }
      var txOpen := open + [OpenLoan(generatedId, event.bookId.inner, event.checkedOutBy.inner, event.checkedOutAt)];
      // `rows_affected() < 1` after an `INSERT … VALUES` of one row: never taken.
      var rowsAffected := |txOpen| - |open|;
      if rowsAffected < 1 {
        return Failure(NoResourceAffected(NOT_INSERTED_CHECKOUT));
      }
      open := txOpen;
      return Success(());
    }

    /** `update_returned`, with its guard as written. */
    method UpdateReturned(event: UpdateReturned) returns (r: Result<(), CheckoutRepositoryError>)
      modifies this
      ensures Step(r, State()) == ReturnSpec(old(State()), event)
      ensures old(Valid()) ==> Valid()
    {
      ghost var before := State();
      if Valid() {
        ReturnPreservesValid(before, event);
      }
      var row := ReturnStateRow(State(), event.bookId.inner);
      match row {
        case None =>
          return Failure(BookNotFound(event.bookId));
        case Some(CheckoutStateRow(_, Some(c), Some(u))) =>
          if (c, u) != (event.checkoutId.inner, event.returnedBy.inner) {
            return Failure(CannotReturn(event.bookId, event.returnedBy, event.checkoutId));
          }
        case _ =>
      }
      r := MoveToReturned(event);
    }

    /** `update_returned` with the guard its comment describes: the book must
        be on loan under the event's checkout id to the returning user, so a
        book that is not on loan is refused as well. */
    method UpdateReturnedCorrected(event: UpdateReturned) returns (r: Result<(), CheckoutRepositoryError>)
      modifies this
      ensures Step(r, State()) == ReturnCorrectedSpec(old(State()), event)
      ensures old(Valid()) ==> Valid()
    {
      ghost var before := State();
      if Valid() {
        ReturnCorrectedPreservesValid(before, event);
      }
      var row := ReturnStateRow(State(), event.bookId.inner);
      match row {
        case None =>
          return Failure(BookNotFound(event.bookId));
        case Some(CheckoutStateRow(_, None, _)) =>
          return Failure(CannotReturn(event.bookId, event.returnedBy, event.checkoutId));
        case Some(CheckoutStateRow(_, Some(c), Some(u))) =>
          if (c, u) != (event.checkoutId.inner, event.returnedBy.inner) {
            return Failure(CannotReturn(event.bookId, event.returnedBy, event.checkoutId));
          }
        case _ =>
      }
      r := MoveToReturned(event);
    }

    /** The part of `update_returned` after its guard: `INSERT … SELECT` into
        `returned_checkouts`, then `DELETE` from `checkouts`, each checked for
        an affected row, then commit. */
    method MoveToReturned(event: UpdateReturned) returns (r: Result<(), CheckoutRepositoryError>)
      modifies this
      ensures
        var selected := WithCheckoutId(old(open), event.checkoutId.inner);
        var left := WithoutCheckoutId(old(open), event.checkoutId.inner);
        Step(r, State()) ==
          if |selected| < 1 then Step(Failure(NoResourceAffected(NOT_INSERTED_RETURNED)), old(State()))
          else if |old(open)| - |left| < 1 then Step(Failure(NoResourceAffected(NOT_DELETED_CHECKOUT)), old(State()))
          else Step(Success(()), Tables(old(books), left, old(closed) + CloseAll(selected, event.returnedAt)))
    {
      var selected := WithCheckoutId(open, event.checkoutId.inner);
      var txClosed := closed + CloseAll(selected, event.returnedAt);
      if |txClosed| - |closed| < 1 {
        return Failure(NoResourceAffected(NOT_INSERTED_RETURNED));
      }
      var txOpen := WithoutCheckoutId(open, event.checkoutId.inner);
      if |open| - |txOpen| < 1 {
        return Failure(NoResourceAffected(NOT_DELETED_CHECKOUT));
      }
      open, closed := txOpen, txClosed;
      return Success(());
    }

    /** `find_unreturned_all`: every open loan, oldest first. */
    function FindUnreturnedAll(): (r: Result<seq<Checkout>, CheckoutRepositoryError>)
      reads this
      ensures r.Success?
      ensures forall i, j :: 0 <= i < j < |r.value| ==> r.value[i].checkedOutAt <= r.value[j].checkedOutAt
      ensures forall c :: c in r.value ==> c.returnedAt.None?
      ensures multiset(r.value) == multiset(Map(JoinOpen(books, open), OpenRowCheckout))
      ensures Valid() ==> |r.value| == |open| && forall l :: l in open ==> LoanCheckout(books, l) in r.value
    {
      OpenListingOrder(books, open);
      OpenListingContents(books, open);
      Collect(SortBy(JoinOpen(books, open), OpenRowKey), FromCheckoutRow).MapFailure(SavedEntityError)
    }

    /** `find_unreturned_by_user_id`: the user's open loans, oldest first. */
    function FindUnreturnedByUserId(userId: UserId): (r: Result<seq<Checkout>, CheckoutRepositoryError>)
      reads this
      ensures r.Success?
      ensures forall i, j :: 0 <= i < j < |r.value| ==> r.value[i].checkedOutAt <= r.value[j].checkedOutAt
      ensures forall c :: c in r.value ==> c.returnedAt.None? && c.checkedOutBy.inner == userId.inner
      ensures multiset(r.value) == multiset(Map(JoinOpen(books, OfUser(open, userId.inner)), OpenRowCheckout))
      ensures Valid() ==>
                |r.value| == |OfUser(open, userId.inner)| &&
                forall l :: l in open && l.userId == userId.inner ==> LoanCheckout(books, l) in r.value
    {
      UserListing(books, open, userId.inner);
      Collect(SortBy(JoinOpen(books, OfUser(open, userId.inner)), OpenRowKey), FromCheckoutRow).MapFailure(SavedEntityError)
    }

    /** `find_history_by_book_id`: the book's open loan, if any, first; then
        its closed loans, newest first. */
    method FindHistoryByBookId(bookId: BookId) returns (r: Result<seq<Checkout>, CheckoutRepositoryError>)
      ensures r.Success?
      ensures (bookId.inner in books && OnLoan(open, bookId.inner)) <==> (|r.value| > 0 && r.value[0].returnedAt.None?)
      ensures |r.value| > 0 && r.value[0].returnedAt.None? ==>
                r.value[0] == LoanCheckout(books, OpenLoanOf(open, bookId.inner).value)
      ensures
        var lead := if bookId.inner in books && OnLoan(open, bookId.inner) then 1 else 0;
        && |r.value| >= lead
        && (forall i, j :: lead <= i < j < |r.value| ==> r.value[i].checkedOutAt >= r.value[j].checkedOutAt)
        && (forall c :: c in r.value[lead..] ==> c.returnedAt.Some? && c.book.bookId.inner == bookId.inner)
        && multiset(r.value[lead..]) == multiset(Map(JoinClosed(books, ClosedOfBook(closed, bookId.inner)), ReturnedRowCheckout))
        && (Valid() ==>
              |r.value| == lead + |ClosedOfBook(closed, bookId.inner)| &&
              forall l :: l in closed && l.bookId == bookId.inner ==> ClosedLoanCheckout(books, l) in r.value[lead..])
    {
      PastListing(books, closed, bookId.inner);
      var returnedRows := SortBy(JoinClosed(books, ClosedOfBook(closed, bookId.inner)), ReturnedRowKeyDesc);

      var checkingOut: Option<Checkout> := None;
      var openRow := CheckingOutRow(books, open, bookId.inner);
      if openRow.Some? {
        match FromCheckoutRow(openRow.value) {
          case Failure(e) =>
            return Failure(SavedEntityError(e));
          case Success(c) =>
            checkingOut := Some(c);
        }
      }

      var checkouts;
      match Collect(returnedRows, FromReturnedCheckoutRow) {
        case Failure(e) =>
          return Failure(SavedEntityError(e));
        case Success(past) =>
          checkouts := past;
      }
      ghost var past := checkouts;
      if checkingOut.Some? {
        checkouts := [checkingOut.value] + checkouts;
        assert checkouts[1..] == past;
      }
      return Success(checkouts);
    }
  }
}
