/** The two write transactions of the checkout repository as functions from
    the tables before to the result and the tables after. A transaction that
    returns early is dropped, which rolls it back: every error leaves the
    tables as they were. */
module CheckoutTransactions {
  import opened Wrappers
  import opened ValueObject
  import opened CheckoutDomain
  import opened CheckoutRows
  import opened CheckoutTables

  /** The outcome of one transaction. */
  datatype Step = Step(result: Result<(), CheckoutRepositoryError>, tables: Tables)

  const NOT_INSERTED_CHECKOUT: string := "No checkouts record has been inserted."
  const NOT_INSERTED_RETURNED: string := "No returned checkouts record has been inserted."
  const NOT_DELETED_CHECKOUT: string := "No checkouts record has been deleted."

  /** `create`: the state row decides; then one row is inserted into
      `checkouts`, whose `checkout_id` the database generates (`generatedId`). */
  function CreateSpec(t: Tables, e: CreateCheckout, generatedId: Uuid): (s: Step)
    ensures s.result.Success? <==> e.bookId.inner in t.books && !OnLoan(t.open, e.bookId.inner)
    ensures s.result.Failure? ==> s.tables == t
    ensures s.tables.books == t.books && s.tables.closed == t.closed
  {
    match CreateStateRow(t, e.bookId.inner)
    case None => Step(Failure(BookNotFound(e.bookId)), t)
    case Some(row) =>
      if row.checkoutId.Some? then Step(Failure(BookAlreadyCheckedOut(e.bookId)), t)
      else
        var inserted := [OpenLoan(generatedId, e.bookId.inner, e.checkedOutBy.inner, e.checkedOutAt)];
        // `rows_affected() < 1` after an `INSERT … VALUES` of one row: never taken.
        if |inserted| < 1 then Step(Failure(NoResourceAffected(NOT_INSERTED_CHECKOUT)), t)
        else Step(Success(()), t.(open := t.open + inserted))
  }

  /** The guard of `update_returned` as written: it rejects only a book that
      is on loan under another (checkout, user) pair. */
  predicate ReturnGuardRejects(row: CheckoutStateRow, e: UpdateReturned)
  {
    row.checkoutId.Some? && row.userId.Some? &&
    (row.checkoutId.value, row.userId.value) != (e.checkoutId.inner, e.returnedBy.inner)
  }

  /** `update_returned` as written: the guard, then `INSERT … SELECT` of the
      loans with the event's checkout id, then `DELETE` of the same loans. */
  function ReturnSpec(t: Tables, e: UpdateReturned): (s: Step)
    ensures s.result.Failure? ==> s.tables == t
    ensures s.tables.books == t.books
    ensures s.result.Success? ==>
              e.bookId.inner in t.books && exists l :: l in t.open && l.checkoutId == e.checkoutId.inner
  {
    match ReturnStateRow(t, e.bookId.inner)
    case None => Step(Failure(BookNotFound(e.bookId)), t)
    case Some(row) =>
      if ReturnGuardRejects(row, e) then Step(Failure(CannotReturn(e.bookId, e.returnedBy, e.checkoutId)), t)
      else
        var selected := WithCheckoutId(t.open, e.checkoutId.inner);
        if |selected| < 1 then Step(Failure(NoResourceAffected(NOT_INSERTED_RETURNED)), t)
        else
          var left := WithoutCheckoutId(t.open, e.checkoutId.inner);
          if |t.open| - |left| < 1 then Step(Failure(NoResourceAffected(NOT_DELETED_CHECKOUT)), t)
          else Step(Success(()), Tables(t.books, left, t.closed + CloseAll(selected, e.returnedAt)))
  }

  /** `update_returned` with the guard its comment describes: a book that is
      not on loan cannot be returned either. */
  function ReturnCorrectedSpec(t: Tables, e: UpdateReturned): (s: Step)
    ensures s.result.Failure? ==> s.tables == t
    ensures s.result.Success? ==> OnLoan(t.open, e.bookId.inner)
  {
    if e.bookId.inner in t.books && !OnLoan(t.open, e.bookId.inner)
    then Step(Failure(CannotReturn(e.bookId, e.returnedBy, e.checkoutId)), t)
    else ReturnSpec(t, e)
  }

  /** The event names an open loan of its book, borrowed by its user. */
  predicate BorrowedBy(open: seq<OpenLoan>, e: UpdateReturned)
  {
    exists l :: l in open && l.bookId == e.bookId.inner && l.checkoutId == e.checkoutId.inner && l.userId == e.returnedBy.inner
  }

  // ---------------------------------------------------------------------
  // Facts about the filters on `checkout_id`

  /** `INSERT … SELECT` and `DELETE` with the same `WHERE` split the table:
      the rows inserted are as many as the rows deleted. */
  lemma {:induction false} SelectedAndLeftSplit(open: seq<OpenLoan>, id: Uuid)
    ensures |WithCheckoutId(open, id)| + |WithoutCheckoutId(open, id)| == |open|
  {
    if open != [] {
      SelectedAndLeftSplit(open[1..], id);
    }
  }

  /** An id no loan has selects nothing. */
  lemma {:induction false} NoneSelected(open: seq<OpenLoan>, id: Uuid)
    requires forall m :: m in open ==> m.checkoutId != id
    ensures WithCheckoutId(open, id) == []
  {
    if open != [] {
      assert forall m :: m in open[1..] ==> m in open;
      NoneSelected(open[1..], id);
    }
  }

  /** Under the primary key, the loan with a given id is the only row selected. */
  lemma {:induction false} SelectedIsTheLoan(open: seq<OpenLoan>, l: OpenLoan)
    requires OpenIdsUnique(open)
    requires l in open
    ensures WithCheckoutId(open, l.checkoutId) == [l]
  {
    if open[0] == l {
      forall m | m in open[1..] ensures m.checkoutId != l.checkoutId {
        var k :| 0 <= k < |open[1..]| && open[1..][k] == m;
        assert open[k + 1] == m;
      }
      NoneSelected(open[1..], l.checkoutId);
    } else {
      assert open[0].checkoutId != l.checkoutId by {
        var k :| 0 <= k < |open| && open[k] == l;
      }
      assert l in open[1..];
      SelectedIsTheLoan(open[1..], l);
    }
  }

  /** Under the unique book constraint, the first loan of a book is its only one. */
  lemma {:induction false} OnlyLoanOfBook(open: seq<OpenLoan>, l: OpenLoan)
    requires OneOpenLoanPerBook(open)
    requires l in open
    ensures OpenLoanOf(open, l.bookId) == Some(l)
  {
    if open[0] != l {
      assert open[0].bookId != l.bookId by {
        var k :| 0 <= k < |open| && open[k] == l;
      }
      assert l in open[1..];
      OnlyLoanOfBook(open[1..], l);
    }
  }

  /** Deleting rows keeps both keys of `checkouts` unique. */
  lemma {:induction false} LeftKeepsKeys(open: seq<OpenLoan>, id: Uuid)
    requires OneOpenLoanPerBook(open) && OpenIdsUnique(open)
    ensures OneOpenLoanPerBook(WithoutCheckoutId(open, id)) && OpenIdsUnique(WithoutCheckoutId(open, id))
  {
    if open != [] {
      var rest := WithoutCheckoutId(open[1..], id);
      LeftKeepsKeys(open[1..], id);
      if open[0].checkoutId != id {
        forall m | m in rest
          ensures m.bookId != open[0].bookId && m.checkoutId != open[0].checkoutId
        {
          var k :| 0 <= k < |open[1..]| && open[1..][k] == m;
          assert open[k + 1] == m;
        }
        var r := [open[0]] + rest;
        forall i, j | 0 <= i < j < |r|
          ensures r[i].bookId != r[j].bookId && r[i].checkoutId != r[j].checkoutId
        {
          if i == 0 {
            assert r[j] in rest;
          } else {
            assert r[i] == rest[i - 1] && r[j] == rest[j - 1];
          }
        }
      }
    }
  }

  /** A loan appended under a fresh id is exactly what that id selects, and
      deleting it leaves the table as it was. */
  lemma {:induction false} FreshLoanSelected(open: seq<OpenLoan>, l: OpenLoan)
    requires forall m :: m in open ==> m.checkoutId != l.checkoutId
    ensures WithCheckoutId(open + [l], l.checkoutId) == [l]
    ensures WithoutCheckoutId(open + [l], l.checkoutId) == open
  {
    if open != [] {
      assert (open + [l])[1..] == open[1..] + [l];
      FreshLoanSelected(open[1..], l);
      assert open == [open[0]] + open[1..];
    }
  }

  // ---------------------------------------------------------------------
  // create

  /** A book that does not exist cannot be lent; nothing changes. */
  lemma CreateRejectsUnknownBook(t: Tables, e: CreateCheckout, generatedId: Uuid)
    requires e.bookId.inner !in t.books
    ensures CreateSpec(t, e, generatedId) == Step(Failure(BookNotFound(e.bookId)), t)
  {
  }

  /** A book already on loan cannot be lent again; nothing changes. */
  lemma CreateRejectsBookOnLoan(t: Tables, e: CreateCheckout, generatedId: Uuid)
    requires e.bookId.inner in t.books && OnLoan(t.open, e.bookId.inner)
    ensures CreateSpec(t, e, generatedId) == Step(Failure(BookAlreadyCheckedOut(e.bookId)), t)
  {
  }

  /** An available book is lent: exactly one loan is added, for this book,
      this user and this time, and nothing else changes. */
  lemma CreateLendsAvailableBook(t: Tables, e: CreateCheckout, generatedId: Uuid)
    requires e.bookId.inner in t.books && !OnLoan(t.open, e.bookId.inner)
    ensures CreateSpec(t, e, generatedId).result.Success?
    ensures CreateSpec(t, e, generatedId).tables ==
              t.(open := t.open + [OpenLoan(generatedId, e.bookId.inner, e.checkedOutBy.inner, e.checkedOutAt)])
    ensures OnLoan(CreateSpec(t, e, generatedId).tables.open, e.bookId.inner)
  {
    var open' := CreateSpec(t, e, generatedId).tables.open;
    assert open'[|t.open|].bookId == e.bookId.inner;
  }

  /** `create` keeps the invariant when the generated id is fresh. */
  lemma CreatePreservesValid(t: Tables, e: CreateCheckout, generatedId: Uuid)
    requires Valid(t) && FreshCheckoutId(t, generatedId)
    ensures Valid(CreateSpec(t, e, generatedId).tables)
  {
    var open' := CreateSpec(t, e, generatedId).tables.open;
    if e.bookId.inner in t.books && !OnLoan(t.open, e.bookId.inner) {
      assert forall i :: 0 <= i < |t.open| ==> open'[i] == t.open[i];
    }
  }

  // ---------------------------------------------------------------------
  // update_returned

  /** A book that does not exist cannot be returned; nothing changes. */
  lemma ReturnRejectsUnknownBook(t: Tables, e: UpdateReturned)
    requires e.bookId.inner !in t.books
    ensures ReturnSpec(t, e) == Step(Failure(BookNotFound(e.bookId)), t)
  {
  }

  /** A book on loan can be returned only under its own checkout id by its
      own borrower; anyone else is refused and nothing changes. */
  lemma ReturnRejectsOtherLoanOrUser(t: Tables, e: UpdateReturned, l: OpenLoan)
    requires Valid(t) && l in t.open && l.bookId == e.bookId.inner
    requires l.checkoutId != e.checkoutId.inner || l.userId != e.returnedBy.inner
    ensures ReturnSpec(t, e) == Step(Failure(CannotReturn(e.bookId, e.returnedBy, e.checkoutId)), t)
  {
    OnlyLoanOfBook(t.open, l);
  }

  /** When the guard lets the event through but no open loan has its
      checkout id, nothing is inserted, the transaction fails and nothing
      changes. */
  lemma ReturnOfUnknownCheckoutAffectsNothing(t: Tables, e: UpdateReturned)
    requires e.bookId.inner in t.books
    requires !ReturnGuardRejects(ReturnStateRow(t, e.bookId.inner).value, e)
    requires forall l :: l in t.open ==> l.checkoutId != e.checkoutId.inner
    ensures ReturnSpec(t, e) == Step(Failure(NoResourceAffected(NOT_INSERTED_RETURNED)), t)
  {
    NoneSelected(t.open, e.checkoutId.inner);
  }

  /** The borrower returns the loan: it leaves `checkouts`, exactly one
      record of it with the return time is appended to
      `returned_checkouts`, and the book is available again. */
  lemma ReturnClosesTheLoan(t: Tables, e: UpdateReturned, l: OpenLoan)
    requires Valid(t) && l in t.open
    requires l.bookId == e.bookId.inner && l.checkoutId == e.checkoutId.inner && l.userId == e.returnedBy.inner
    ensures ReturnSpec(t, e).result.Success?
    ensures ReturnSpec(t, e).tables.books == t.books
    ensures ReturnSpec(t, e).tables.closed == t.closed + [Close(l, e.returnedAt)]
    ensures ReturnSpec(t, e).tables.open == WithoutCheckoutId(t.open, l.checkoutId)
    ensures |ReturnSpec(t, e).tables.open| == |t.open| - 1
    ensures !OnLoan(ReturnSpec(t, e).tables.open, e.bookId.inner)
  {
    OnlyLoanOfBook(t.open, l);
    SelectedIsTheLoan(t.open, l);
    SelectedAndLeftSplit(t.open, l.checkoutId);
  }

  /** Whatever the event, a successful return moves exactly one open loan,
      the one with the event's checkout id, into `returned_checkouts`, and
      that loan's book becomes available. */
  lemma ReturnMovesOneLoan(t: Tables, e: UpdateReturned)
    requires Valid(t)
    requires ReturnSpec(t, e).result.Success?
    ensures exists l :: l in t.open && l.checkoutId == e.checkoutId.inner &&
              ReturnSpec(t, e).tables == Tables(t.books, WithoutCheckoutId(t.open, l.checkoutId), t.closed + [Close(l, e.returnedAt)]) &&
              |ReturnSpec(t, e).tables.open| == |t.open| - 1 &&
              !OnLoan(ReturnSpec(t, e).tables.open, l.bookId)
  {
    var selected := WithCheckoutId(t.open, e.checkoutId.inner);
    var l := selected[0];
    assert l in selected;
    SelectedIsTheLoan(t.open, l);
    SelectedAndLeftSplit(t.open, l.checkoutId);
    var left := WithoutCheckoutId(t.open, l.checkoutId);
    forall i | 0 <= i < |left| ensures left[i].bookId != l.bookId {
      assert left[i] in t.open;
      OnlyLoanOfBook(t.open, left[i]);
      OnlyLoanOfBook(t.open, l);
    }
  }

  /** `update_returned` keeps the invariant, whoever calls it. */
  lemma ReturnPreservesValid(t: Tables, e: UpdateReturned)
    requires Valid(t)
    ensures Valid(ReturnSpec(t, e).tables)
  {
    var s := ReturnSpec(t, e);
    if s.result.Success? {
      var id := e.checkoutId.inner;
      var selected := WithCheckoutId(t.open, id);
      var l := selected[0];
      assert l in selected;
      SelectedIsTheLoan(t.open, l);
      LeftKeepsKeys(t.open, id);
      var t' := s.tables;
      assert t'.closed == t.closed + [Close(l, e.returnedAt)];
      assert forall j :: 0 <= j < |t.closed| ==> t.closed[j].checkoutId != id by {
        var k :| 0 <= k < |t.open| && t.open[k] == l;
      }
      forall i, j | 0 <= i < |t'.closed| && 0 <= j < |t'.open|
        ensures t'.closed[i].checkoutId != t'.open[j].checkoutId
      {
        assert t'.open[j] in t.open;
        var k :| 0 <= k < |t.open| && t.open[k] == t'.open[j];
      }
    }
  }

  /** Borrowing an available book and returning it under the generated id
      restores `checkouts` and appends the loan, with both times, to
      `returned_checkouts`. */
  lemma CreateThenReturn(t: Tables, e: CreateCheckout, generatedId: Uuid, returnedAt: Timestamp)
    requires Valid(t) && FreshCheckoutId(t, generatedId)
    requires e.bookId.inner in t.books && !OnLoan(t.open, e.bookId.inner)
    ensures
      var lent := CreateSpec(t, e, generatedId).tables;
      var back := UpdateReturned(TupleValueObject(generatedId), e.bookId, e.checkedOutBy, returnedAt);
      ReturnSpec(lent, back) ==
        Step(Success(()), t.(closed := t.closed + [ClosedLoan(generatedId, e.bookId.inner, e.checkedOutBy.inner, e.checkedOutAt, returnedAt)]))
  {
    var l := OpenLoan(generatedId, e.bookId.inner, e.checkedOutBy.inner, e.checkedOutAt);
    CreateLendsAvailableBook(t, e, generatedId);
    CreatePreservesValid(t, e, generatedId);
    var lent := CreateSpec(t, e, generatedId).tables;
    assert lent == t.(open := t.open + [l]);
    assert l in lent.open;
    OnlyLoanOfBook(lent.open, l);
    assert ReturnStateRow(lent, l.bookId) == Some(CheckoutStateRow(l.bookId, Some(generatedId), Some(l.userId)));
    FreshLoanSelected(t.open, l);
  }

  // ---------------------------------------------------------------------
  // The guard as written, and as intended

  /** As written, the guard passes when the named book is not on loan, so
      any user can close any open loan (another user's, of another book) by
      naming an available book with it. */
  lemma ReturnAsWrittenClosesAnyLoan(t: Tables, l: OpenLoan, available: BookId, anyone: UserId, at: Timestamp)
    requires Valid(t) && l in t.open
    requires available.inner in t.books && !OnLoan(t.open, available.inner)
    ensures
      var e := UpdateReturned(TupleValueObject(l.checkoutId), available, anyone, at);
      ReturnSpec(t, e).result.Success? &&
      ReturnSpec(t, e).tables.closed == t.closed + [Close(l, at)]
  {
    SelectedIsTheLoan(t.open, l);
    SelectedAndLeftSplit(t.open, l.checkoutId);
  }

  /** One concrete instance: user 2 names available book 7 with user 1's
      checkout 100 of book 5, and the loan is closed on user 1's record. */
  lemma ReturnAsWrittenCounterexample()
    ensures
      var book := BookRow("Title", "Author", "ISBN");
      var t := Tables(map[5 := book, 7 := book], [OpenLoan(100, 5, 1, 0)], []);
      var e := UpdateReturned(TupleValueObject(100), TupleValueObject(7), TupleValueObject(2), 10);
      && Valid(t)
      && ReturnSpec(t, e).result.Success?
      && ReturnSpec(t, e).tables.closed == [ClosedLoan(100, 5, 1, 0, 10)]
      && !BorrowedBy(t.open, e)
  {
    var book := BookRow("Title", "Author", "ISBN");
    var t := Tables(map[5 := book, 7 := book], [OpenLoan(100, 5, 1, 0)], []);
    assert !OnLoan(t.open, 7) by {
      forall i | 0 <= i < |t.open| ensures t.open[i].bookId != 7 {
        assert t.open[i] == OpenLoan(100, 5, 1, 0);
      }
    }
    ReturnAsWrittenClosesAnyLoan(t, OpenLoan(100, 5, 1, 0), TupleValueObject(7), TupleValueObject(2), 10);
  }

  /** With the corrected guard, a return succeeds exactly when the event
      names an open loan of its book borrowed by its user; the record
      appended is that loan, closed at the event's time. */
  lemma {:induction false} ReturnCorrectedOnlyByBorrower(t: Tables, e: UpdateReturned)
    requires Valid(t)
    ensures ReturnCorrectedSpec(t, e).result.Success? <==> BorrowedBy(t.open, e)
    ensures ReturnCorrectedSpec(t, e).result.Success? ==>
              exists l :: l in t.open && l.bookId == e.bookId.inner && l.userId == e.returnedBy.inner &&
                ReturnCorrectedSpec(t, e).tables.closed == t.closed + [Close(l, e.returnedAt)]
    ensures ReturnCorrectedSpec(t, e).result.Failure? ==> ReturnCorrectedSpec(t, e).tables == t
  {
    var b := e.bookId.inner;
    if BorrowedBy(t.open, e) {
      var l :| l in t.open && l.bookId == b && l.checkoutId == e.checkoutId.inner && l.userId == e.returnedBy.inner;
      assert b in t.books;
      assert OnLoan(t.open, b) by {
        var k :| 0 <= k < |t.open| && t.open[k] == l;
      }
      ReturnClosesTheLoan(t, e, l);
    } else if b in t.books && OnLoan(t.open, b) {
      var i :| 0 <= i < |t.open| && t.open[i].bookId == b;
      ReturnRejectsOtherLoanOrUser(t, e, t.open[i]);
    }
  }

  /** Where the book is on loan (or unknown) the two guards agree, so every
      property proved of `ReturnSpec` for such events holds of the
      corrected transaction too. */
  lemma ReturnCorrectedAgreesOnLoanedBooks(t: Tables, e: UpdateReturned)
    requires e.bookId.inner !in t.books || OnLoan(t.open, e.bookId.inner)
    ensures ReturnCorrectedSpec(t, e) == ReturnSpec(t, e)
  {
  }

  /** The corrected transaction keeps the invariant as well. */
  lemma ReturnCorrectedPreservesValid(t: Tables, e: UpdateReturned)
    requires Valid(t)
    ensures Valid(ReturnCorrectedSpec(t, e).tables)
  {
    ReturnPreservesValid(t, e);
  }
}
