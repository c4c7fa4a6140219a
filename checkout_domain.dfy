/** The kernel's checkout types: the identifiers and strings a checkout
    carries, the `Checkout` entity with its `CheckoutBook`, the two events
    the repository accepts, and the repository's error enum. */
module CheckoutDomain {
  import opened Wrappers
  import opened ValueObject
  import Entity

  /** `DateTime<Utc>`, as an instant on an integer time line. */
  type Timestamp = int

  // One tag per `tuple_value_object_with_simple_error!` instance.
  datatype CheckoutIdKind = CheckoutIdKind
  datatype BookIdKind = BookIdKind
  datatype UserIdKind = UserIdKind
  datatype TitleKind = TitleKind
  datatype AuthorKind = AuthorKind
  datatype IsbnKind = IsbnKind

  type CheckoutId = TupleValueObject<CheckoutIdKind, Uuid>
  type BookId = TupleValueObject<BookIdKind, Uuid>
  type UserId = TupleValueObject<UserIdKind, Uuid>
  type Title = TupleValueObject<TitleKind, string>
  type Author = TupleValueObject<AuthorKind, string>
  type Isbn = TupleValueObject<IsbnKind, string>

  datatype CheckoutBook = CheckoutBook(bookId: BookId, title: Title, author: Author, isbn: Isbn)

  /** A loan: open while `returnedAt` is None, closed once it is Some. */
  datatype Checkout = Checkout(
    checkoutId: CheckoutId,
    checkedOutBy: UserId,
    checkedOutAt: Timestamp,
    returnedAt: Option<Timestamp>,
    book: CheckoutBook)

  /** `impl_entity!(Checkout, checkout_id, CheckoutId)`: the identity accessor. */
  function CheckoutIdentity(c: Checkout): CheckoutId
  {
    c.checkoutId
  }

  /** The `PartialEq` that `impl_entity!` generates for `Checkout`. */
  predicate CheckoutEq(a: Checkout, b: Checkout)
  {
    Entity.EntityEq(CheckoutIdentity, a, b)
  }

  /** Two checkouts are equal exactly when their checkout ids are, whatever
      their borrower, times or book. */
  lemma CheckoutEqIffSameId(a: Checkout, b: Checkout)
    ensures CheckoutEq(a, b) <==> a.checkoutId == b.checkoutId
  {
  }

  /** The open and the closed view of one loan differ as values, yet are
      the same entity. */
  lemma ReturnedLoanIsSameEntity(c: Checkout, at: Timestamp)
    requires c.returnedAt.None?
    ensures c != c.(returnedAt := Some(at))
    ensures CheckoutEq(c, c.(returnedAt := Some(at)))
  {
  }

  /** Checkout equality is an equivalence relation. */
  lemma CheckoutEqIsEquivalence()
    ensures Entity.Reflexive(CheckoutEq)
    ensures Entity.Symmetric(CheckoutEq)
    ensures Entity.Transitive(CheckoutEq)
  {
    Entity.EntityEqIsEquivalence(CheckoutIdentity);
    assert forall a, b :: CheckoutEq(a, b) == Entity.EntityEq(CheckoutIdentity, a, b);
  }

  /** `event::CreateCheckout`. */
  datatype CreateCheckout = CreateCheckout(bookId: BookId, checkedOutBy: UserId, checkedOutAt: Timestamp)

  /** `event::UpdateReturned`. */
  datatype UpdateReturned = UpdateReturned(
    checkoutId: CheckoutId,
    bookId: BookId,
    returnedBy: UserId,
    returnedAt: Timestamp)

  /** `CheckoutRepositoryError`. The boxed source errors of the first three
      kinds are kept as their messages. */
  datatype CheckoutRepositoryError =
    | Unexpected(message: string)
    | InvalidSavedEntity(message: string)
    | Transaction(message: string)
    | BookNotFound(bookId: BookId)
    | BookAlreadyCheckedOut(bookId: BookId)
    | NoResourceAffected(message: string)
    | CannotReturn(bookId: BookId, userId: UserId, checkoutId: CheckoutId)
}
