# Checkout repository of a library lending service — a Dafny model

This project models the lending core of a small library service written in Rust. A user borrows a book (a *checkout*), which lives in the `checkouts` table while the loan is open. When the book comes back, the row moves to `returned_checkouts`. The model covers:

- **Value objects** (`value_object.dfy`). The kernel's macro-generated wrappers (`TryFrom`, `inner_ref`, `into_inner`) and the `Display` / `FromStr` pair of a UUID identifier. Hex encoding and decoding are written out, and the round trip is proved.
- **Entities** (`entity.dfy`, `checkout_domain.dfy`). Identity equality: a `Checkout` equals another exactly when their checkout ids match. The same module holds the two events (`CreateCheckout`, `UpdateReturned`) and `CheckoutRepositoryError`.
- **Database rows** (`checkout_rows.dfy`). `CheckoutStateRow`, `CheckoutRow`, `ReturnedCheckoutRow` and their `TryFrom` conversions into `Checkout`.
- **Tables** (`checkout_tables.dfy`). The three tables as values, with their integrity invariant:
  - at most one open loan per book;
  - unique checkout ids across both loan tables;
  - foreign keys into `books`.

  The same file defines the reads the repository's SQL performs on them.
- **Row sequences** (`row_sequences.dfy`). `ORDER BY`, modelled as a stable sort proved sorted and a permutation. It also holds `map` and `collect::<Result<_, _>>`.
- **Transactions** (`checkout_transactions.dfy`). The two write transactions, `create` and `update_returned`, as functions from the tables before to the result and the tables after. An error rolls the transaction back, so the tables are unchanged. Lemmas state what each transaction does in each case, that the invariant is preserved, and the create-then-return round trip.
- **The repository** (`checkout_repository.dfy`). `CheckoutRepositoryImpl` is a class holding the three tables as fields:
  - `Create`, `UpdateReturned` (the guard as written) and `UpdateReturnedCorrected` (the guard its comment describes) update the fields and are proved equal to the transaction functions.
  - `FindUnreturnedAll`, `FindUnreturnedByUserId` and `FindHistoryByBookId` are proved to list exactly the right loans, in the right order.

The service's clock and the database's generated checkout id are parameters (`checkedOutAt`, `returnedAt`, `generatedId`).

## Model

| member | source | states |
|---|---|---|
| ValueObject.TryFrom | kernel/src/model/value_object.rs:35-41 | building a tuple value object never fails and wraps exactly the given value |
| ValueObject.InnerRef | kernel/src/model/value_object.rs:26-28 | the wrapped value, from which `try_from` rebuilds the same object |
| ValueObject.IntoInner | kernel/src/model/value_object.rs:30-32 | the same value as `inner_ref`, which `try_from` turns back into the object |
| ValueObject.IntoInnerTryFrom | kernel/src/model/value_object.rs:26-41 | wrapping a value and then unwrapping it (by `into_inner` or `inner_ref`) gives the value back |
| ValueObject.EqualIffInnerEqual | kernel/src/model/value_object.rs:19-20 | the derived equality: two value objects are equal exactly when their wrapped values are |
| ValueObject.UserRole.InnerRef | kernel/src/model/value_object.rs:113-115 | `inner_ref` of the enum value object `UserRole` is the role itself |
| ValueObject.UserRole.IntoInner | kernel/src/model/value_object.rs:117-119 | `into_inner` of the enum value object `UserRole` is the role itself |
| ValueObject.Pow16 | kernel/src/model/value_object.rs:144-154 | powers of sixteen used to bound hex values are positive |
| ValueObject.Pow16Of32 | kernel/src/model/value_object.rs:144-154 | 32 hex digits hold exactly the 2^128 values of a UUID |
| ValueObject.DigitValue | kernel/src/model/value_object.rs:134-142 | the value of a hex digit (either case) is below 16 |
| ValueObject.LowerHexChar | kernel/src/model/value_object.rs:144-154 | the digit written for a value below 16 is a lower-case hex digit that reads back as that value |
| ValueObject.EncodeLowerHex | kernel/src/model/value_object.rs:144-154 | encoding writes exactly `k` lower-case hex digits |
| ValueObject.DecodeHex | kernel/src/model/value_object.rs:134-142 | decoding succeeds exactly when every character is a hex digit, and the value is below 16^length |
| ValueObject.DecodeEncodeHex | kernel/src/model/value_object.rs:134-154 | decoding the `k`-digit encoding of any value below 16^k gives the value back |
| ValueObject.Display | kernel/src/model/value_object.rs:144-154 | an id is displayed as its UUID in simple form: 32 lower-case hex digits |
| ValueObject.ParseSimple | kernel/src/model/value_object.rs:134-142 | 32 characters parse exactly when every one is a hex digit |
| ValueObject.ParseHyphenated | kernel/src/model/value_object.rs:134-142 | 36 characters parse exactly when there are hyphens at positions 8, 13, 18 and 23 and hex digits everywhere else |
| ValueObject.ParseUuid | kernel/src/model/value_object.rs:134-142 | a text parses exactly when it is in one of the four forms: 32 hex digits; the hyphenated 8-4-4-4-12 form; that form in braces; or that form after `urn:uuid:`. Any other length never parses |
| ValueObject.FromStr | kernel/src/model/value_object.rs:134-142 | parsing succeeds exactly for UUID text, wraps the parsed UUID, and otherwise fails with a parse error |
| ValueObject.FromStrDisplay | kernel/src/model/value_object.rs:134-154 | what `Display` writes, `FromStr` reads back as the same id |
| ValueObject.DisplayInjective | kernel/src/model/value_object.rs:144-154 | distinct ids are displayed as distinct texts |
| Entity.EntityEq | kernel/src/model/entity.rs:8-10 | `Entity::eq` compares identities; its meaning as an equivalence is `Entity.EntityEqIsEquivalence` |
| Entity.EntityEqIsEquivalence | kernel/src/model/entity.rs:1-11 | equality by identity is reflexive, symmetric and transitive, as `Eq` demands |
| CheckoutDomain.CheckoutIdentity | kernel/src/model/entity.rs:20-22 | `identity()` of a checkout, its checkout id (`impl_entity!` at kernel/src/model/checkout/mod.rs:28); what it decides is `CheckoutDomain.CheckoutEqIffSameId` |
| CheckoutDomain.CheckoutEq | kernel/src/model/entity.rs:25-29 | the generated `PartialEq` of `Checkout`, delegating to `Entity::eq`; its meaning is `CheckoutDomain.CheckoutEqIffSameId` and `CheckoutDomain.CheckoutEqIsEquivalence` |
| CheckoutDomain.CheckoutEqIffSameId | kernel/src/model/entity.rs:20-31 | two checkouts are equal exactly when their checkout ids are, whatever else differs |
| CheckoutDomain.ReturnedLoanIsSameEntity | kernel/src/model/checkout/mod.rs:19-28 | an open checkout and the same checkout with a return time differ as values but are the same entity |
| CheckoutDomain.CheckoutEqIsEquivalence | kernel/src/model/checkout/mod.rs:28 | checkout equality is an equivalence relation |
| CheckoutRows.BookFromColumns | adapter/src/database/model/checkout.rs:44-55 | the book part of a row converts without error and keeps id, title, author and ISBN |
| CheckoutRows.FromCheckoutRow | adapter/src/database/model/checkout.rs:30-57 | an open-loan row always converts, into a checkout with every column copied and no return time |
| CheckoutRows.FromReturnedCheckoutRow | adapter/src/database/model/checkout.rs:91-119 | a returned row always converts, into a checkout with every column copied and its return time set |
| CheckoutRows.ReturnedRowIsStampedOpenRow | adapter/src/database/model/checkout.rs:30-119 | the two conversions agree except for the return time |
| CheckoutRows.FromCheckoutRowInjective | adapter/src/database/model/checkout.rs:30-57 | distinct open rows convert to distinct checkouts |
| CheckoutTables.Valid | adapter/src/repository/checkout.rs:44-74 | the tables' integrity invariant (one open loan per book, unique checkout ids, foreign keys to `books`), which the state query's `fetch_optional` relies on; kept by `CheckoutTransactions.CreatePreservesValid`, `CheckoutTransactions.ReturnPreservesValid` and `CheckoutTransactions.ReturnCorrectedPreservesValid` |
| CheckoutTables.OpenLoanOf | adapter/src/repository/checkout.rs:44-74 | the join finds a loan exactly when the book is on loan, and the loan found is of that book |
| CheckoutTables.WithCheckoutId | adapter/src/repository/checkout.rs:279-309 | `WHERE checkout_id = $1` selects exactly the open loans with that id |
| CheckoutTables.WithoutCheckoutId | adapter/src/repository/checkout.rs:311-325 | `DELETE … WHERE checkout_id = $1` leaves exactly the open loans with another id |
| CheckoutTables.OfUser | adapter/src/repository/checkout.rs:130-161 | `WHERE user_id = $1` keeps exactly that user's open loans |
| CheckoutTables.ClosedOfBook | adapter/src/repository/checkout.rs:167-188 | `WHERE book_id = $1` keeps exactly that book's closed loans |
| CheckoutTables.CloseAll | adapter/src/repository/checkout.rs:279-309 | `INSERT … SELECT` writes one closed record per selected loan, stamped with the return time |
| CheckoutTables.CreateStateRow | adapter/src/repository/checkout.rs:44-74 | the state row exists exactly when the book does; its checkout id is set exactly when the book is on loan; its user id is NULL |
| CheckoutTables.ReturnStateRow | adapter/src/repository/checkout.rs:242-258 | the state row exists exactly when the book does; checkout and user ids are set exactly when it is on loan, and then they are the ids of an open loan of that book |
| CheckoutTables.JoinOpen | adapter/src/repository/checkout.rs:102-128 | the inner join: every loan whose book exists appears joined with its book's columns, and every row is such a loan joined with its book; when every loan's book exists, row i is loan i joined |
| CheckoutTables.JoinClosed | adapter/src/repository/checkout.rs:167-188 | the inner join: every closed loan whose book exists appears joined with its book's columns, and every row is such a loan joined with its book; when every loan's book exists, row i is loan i joined |
| CheckoutTables.CheckingOutRow | adapter/src/repository/checkout.rs:190-212 | a current-loan row is found exactly when the book exists and is on loan, and it is the book's open loan joined with the book's columns |
| CheckoutTables.LoanCheckout | adapter/src/database/model/checkout.rs:30-57 | an open loan is seen as a checkout with its ids and time and no return time |
| CheckoutTables.ClosedLoanCheckout | adapter/src/database/model/checkout.rs:91-119 | a closed loan is seen as a checkout with its ids, both times, and its book |
| RowSequences.Insert | adapter/src/repository/checkout.rs:102-128 | the insertion step adds exactly one row to the multiset |
| RowSequences.InsertSorted | adapter/src/repository/checkout.rs:102-128 | inserting into sorted rows keeps them sorted |
| RowSequences.SortBy | adapter/src/repository/checkout.rs:102-128 | `ORDER BY` returns a sorted permutation of the rows |
| RowSequences.SameMembers | adapter/src/repository/checkout.rs:102-128 | a permutation has the same members |
| RowSequences.Map | adapter/src/repository/checkout.rs:123-126 | `map` converts each row in place |
| RowSequences.Collect | adapter/src/repository/checkout.rs:123-126 | `collect` succeeds exactly when every conversion does, keeps their values in order, and otherwise returns the error of the first failed conversion |
| RowSequences.MapCons | adapter/src/repository/checkout.rs:123-126 | converting a list converts its head and then its tail |
| RowSequences.MapInsert | adapter/src/repository/checkout.rs:102-128 | converting commutes with one insertion step when the conversion keeps the sort key |
| RowSequences.MapSortBy | adapter/src/repository/checkout.rs:102-128 | sorting rows then converting equals converting then sorting by the converted key |
| CheckoutRepository.SavedEntityError | adapter/src/repository/checkout.rs:127 | `map_err` of a row conversion error: always the `InvalidSavedEntity` variant, with a non-empty message |
| CheckoutRepository.OpenRowsListed | adapter/src/repository/checkout.rs:102-128 | converting the sorted open rows succeeds and equals the converted checkouts sorted by checkout time |
| CheckoutRepository.ReturnedRowsListed | adapter/src/repository/checkout.rs:167-218 | converting the returned rows sorted newest first succeeds and equals the converted checkouts in the same order |
| CheckoutRepository.JoinedOpenLoansListed | adapter/src/repository/checkout.rs:102-128 | under the foreign key, every open loan appears, once per row |
| CheckoutRepository.JoinedClosedLoansListed | adapter/src/repository/checkout.rs:167-188 | under the foreign key, every closed loan appears, once per row |
| CheckoutRepository.JoinedLoansOfUser | adapter/src/repository/checkout.rs:130-161 | a listing built from one user's loans shows only that user's checkouts, all open |
| CheckoutRepository.JoinedClosedLoansOfBook | adapter/src/repository/checkout.rs:167-188 | a listing built from one book's closed loans shows only returned checkouts of that book |
| CheckoutRepository.OpenListingOrder | adapter/src/repository/checkout.rs:102-128 | the open listing succeeds, is oldest first, and holds only open checkouts |
| CheckoutRepository.OpenListingContents | adapter/src/repository/checkout.rs:102-128 | the open listing is a permutation of the joined loans and, under the invariant, shows every open loan once |
| CheckoutRepository.UserListing | adapter/src/repository/checkout.rs:130-161 | a user's listing is oldest first, shows only that user's open checkouts, and under the invariant shows all of them |
| CheckoutRepository.PastListing | adapter/src/repository/checkout.rs:163-218 | a book's past listing is newest first, shows only returned checkouts of the book, and under the invariant shows all of them |
| CheckoutRepository.CheckoutRepositoryImpl.constructor | adapter/src/repository/checkout.rs:29-100 | a repository over a catalogue starts with no loans and satisfies the invariant |
| CheckoutRepository.CheckoutRepositoryImpl.Create | adapter/src/repository/checkout.rs:29-100 | `create` changes the tables and returns exactly as the transaction `CreateSpec` does, and keeps the invariant when the generated id is fresh |
| CheckoutRepository.CheckoutRepositoryImpl.UpdateReturned | adapter/src/repository/checkout.rs:227-332 | `update_returned` as written changes the tables and returns exactly as the transaction `ReturnSpec` does, and always keeps the invariant |
| CheckoutRepository.CheckoutRepositoryImpl.UpdateReturnedCorrected | adapter/src/repository/checkout.rs:237-276 | `update_returned` with the guard its comment at lines 237-241 describes changes the tables and returns exactly as the corrected transaction `ReturnCorrectedSpec` does, and always keeps the invariant |
| CheckoutRepository.CheckoutRepositoryImpl.MoveToReturned | adapter/src/repository/checkout.rs:279-331 | the steps after the guard: if no open loan has the checkout id, it fails with the "not inserted" error and changes nothing; otherwise the selected loans leave `checkouts` and are appended, closed at the return time, to `returned_checkouts` |
| CheckoutRepository.CheckoutRepositoryImpl.FindUnreturnedAll | adapter/src/repository/checkout.rs:102-128 | succeeds; the checkouts are oldest first, all open, a permutation of the joined loans, and under the invariant exactly one per open loan |
| CheckoutRepository.CheckoutRepositoryImpl.FindUnreturnedByUserId | adapter/src/repository/checkout.rs:130-161 | succeeds; the checkouts are oldest first, all open and all the user's, and under the invariant exactly one per open loan of the user |
| CheckoutRepository.CheckoutRepositoryImpl.FindHistoryByBookId | adapter/src/repository/checkout.rs:163-225 | succeeds; the first checkout is open exactly when the book is on loan, and is then that loan; the returned checkouts of the book follow newest first, and under the invariant every one of them is there |
| CheckoutTransactions.CreateSpec | adapter/src/repository/checkout.rs:29-100 | `create` as a transaction: it succeeds exactly when the book exists and is not on loan, a failure leaves the tables unchanged, and `books` and `returned_checkouts` are never touched; case by case in `CheckoutTransactions.CreateRejectsUnknownBook`, `CreateRejectsBookOnLoan` and `CreateLendsAvailableBook` |
| CheckoutTransactions.ReturnGuardRejects | adapter/src/repository/checkout.rs:260-276 | the guard as written, refusing only a book on loan under another (checkout id, user) pair; its consequences are `CheckoutTransactions.ReturnRejectsOtherLoanOrUser` and `CheckoutTransactions.ReturnAsWrittenClosesAnyLoan` |
| CheckoutTransactions.ReturnSpec | adapter/src/repository/checkout.rs:227-332 | `update_returned` as written: a failure leaves the tables unchanged, `books` is never touched, and a success needs the book to exist and an open loan with the event's checkout id; case by case in `CheckoutTransactions.ReturnRejectsUnknownBook`, `ReturnRejectsOtherLoanOrUser`, `ReturnOfUnknownCheckoutAffectsNothing`, `ReturnClosesTheLoan` and `ReturnMovesOneLoan` |
| CheckoutTransactions.ReturnCorrectedSpec | adapter/src/repository/checkout.rs:237-276 | `update_returned` with the guard its comment describes: a failure leaves the tables unchanged and a success needs the book to be on loan; `CheckoutTransactions.ReturnCorrectedOnlyByBorrower` proves it succeeds exactly for the borrower's own loan |
| CheckoutTransactions.SelectedAndLeftSplit | adapter/src/repository/checkout.rs:279-325 | as many rows are deleted as were inserted into `returned_checkouts` |
| CheckoutTransactions.NoneSelected | adapter/src/repository/checkout.rs:279-309 | an id no open loan has selects no row |
| CheckoutTransactions.SelectedIsTheLoan | adapter/src/repository/checkout.rs:279-309 | under the primary key, an open loan's id selects exactly that loan |
| CheckoutTransactions.OnlyLoanOfBook | adapter/src/repository/checkout.rs:242-258 | under the unique book constraint, the join finds the book's only loan |
| CheckoutTransactions.LeftKeepsKeys | adapter/src/repository/checkout.rs:311-325 | deleting rows keeps both keys of `checkouts` unique |
| CheckoutTransactions.FreshLoanSelected | adapter/src/repository/checkout.rs:76-93 | a loan inserted under a fresh id is exactly what that id selects, and deleting it restores the table |
| CheckoutTransactions.CreateRejectsUnknownBook | adapter/src/repository/checkout.rs:62-65 | lending a missing book fails with `BookNotFound` and changes nothing |
| CheckoutTransactions.CreateRejectsBookOnLoan | adapter/src/repository/checkout.rs:62-73 | lending a book already on loan fails with `BookAlreadyCheckedOut` and changes nothing |
| CheckoutTransactions.CreateLendsAvailableBook | adapter/src/repository/checkout.rs:76-99 | lending an available book succeeds, appends exactly the new loan and nothing else, and puts the book on loan |
| CheckoutTransactions.CreatePreservesValid | adapter/src/repository/checkout.rs:29-100 | `create` keeps the table invariant when the generated id is fresh |
| CheckoutTransactions.ReturnRejectsUnknownBook | adapter/src/repository/checkout.rs:260-261 | returning a missing book fails with `BookNotFound` and changes nothing |
| CheckoutTransactions.ReturnRejectsOtherLoanOrUser | adapter/src/repository/checkout.rs:260-276 | a book on loan cannot be returned under another checkout id or by another user: `CannotReturn`, nothing changes |
| CheckoutTransactions.ReturnOfUnknownCheckoutAffectsNothing | adapter/src/repository/checkout.rs:279-309 | if no open loan has the event's checkout id, nothing is inserted, the transaction fails with `NoResourceAffected`, and nothing changes |
| CheckoutTransactions.ReturnClosesTheLoan | adapter/src/repository/checkout.rs:227-332 | the borrower's return succeeds, removes exactly that loan, appends exactly its closed record, and frees the book |
| CheckoutTransactions.ReturnMovesOneLoan | adapter/src/repository/checkout.rs:279-331 | every successful return moves exactly one open loan, the one with the event's id, to the history, and frees that loan's book |
| CheckoutTransactions.ReturnPreservesValid | adapter/src/repository/checkout.rs:227-332 | `update_returned` keeps the table invariant whatever the event |
| CheckoutTransactions.CreateThenReturn | adapter/src/repository/checkout.rs:29-332 | lending an available book and returning it under the generated id restores `checkouts` and appends the loan, with both times, to the history |
| CheckoutTransactions.ReturnAsWrittenClosesAnyLoan | adapter/src/repository/checkout.rs:260-276 | as written: naming any available book with an open loan's checkout id lets any user close that loan |
| CheckoutTransactions.ReturnAsWrittenCounterexample | adapter/src/repository/checkout.rs:260-309 | a concrete input on which a user closes another user's loan of another book |
| CheckoutTransactions.ReturnCorrectedOnlyByBorrower | adapter/src/repository/checkout.rs:237-276 | with the corrected guard, a return succeeds exactly when the event names an open loan of its book held by its user; that loan is what is closed, and a failure changes nothing |
| CheckoutTransactions.ReturnCorrectedAgreesOnLoanedBooks | adapter/src/repository/checkout.rs:260-276 | for a book on loan or unknown, the corrected and the as-written transactions agree |
| CheckoutTransactions.ReturnCorrectedPreservesValid | adapter/src/repository/checkout.rs:227-332 | the corrected transaction keeps the table invariant |

## Left out

- Asynchrony, the connection pool, and `begin`/`commit` as I/O. A transaction is one function from tables to tables. Returning early drops the transaction, so the tables are left unchanged.
- The errors `Unexpected` and `Transaction` come from database or driver failures (the `begin`, `commit` and `SET TRANSACTION` calls, and every query's `map_err` in adapter/src/repository/checkout.rs). The model assumes every query succeeds, so they never arise. The variants exist in `CheckoutRepositoryError`.
- `set_transaction_serializable` (adapter/src/repository/checkout.rs:335-347) and concurrent transactions. The model runs one transaction at a time, which is what SERIALIZABLE isolation guarantees to observers.
- The checkout id the database generates is a parameter (`generatedId`). Its freshness is a precondition of the invariant-preservation results.
- `ORDER BY` ties are resolved by a stable sort. The listing contracts state only sortedness and the permutation, which hold for any order the database chooses among ties.
- `InvalidSavedEntity` cannot arise: every value-object `TryFrom` accepts every value, so every row conversion succeeds. The error path is modelled but unreachable.
- `Uuid::parse_str` accepts four textual forms, and the model covers those four, with hex digits in either case. Other details of the `uuid` crate (its error messages, its other constructors) are not part of this model. `define_id_with_uuid!` is modelled, although the kernel's identifiers in this core are plain tuple value objects.
- `From<$name> for String` is not modelled beyond `Display`, of which it is a copy.
- `UserRole`'s `Default` (`User`, kernel/src/model/user/mod.rs) is not part of this model. Neither is the conversion between `UserRole` and the stored role name (`UserRoleName`, adapter/src/database/model/user.rs:17-53), which belongs to the user repository, not to checkouts.
- `DateTime<Utc>` is an integer instant.
- Tables are sequences of rows. Their integrity constraints (primary keys, the unique `book_id` of `checkouts`, the foreign keys) are the invariant `CheckoutTables.Valid`, not enforced by the database.
- CheckoutRepository.CheckoutRepositoryImpl.Create: the invariant is promised only when the generated id is fresh, because the database's id generator is outside the model.

## Findings

| source | as written | input that shows it | evidently intended | confidence | as-written member | corrected member |
|---|---|---|---|---|---|---|
| adapter/src/repository/checkout.rs:260-276 | The guard of `update_returned` rejects only a book that is on loan under another checkout id or user. If the named book is not on loan, the guard passes. The `INSERT … SELECT` and the `DELETE` then select by `checkout_id` alone, so they close whatever loan has that id. | Books 5 and 7; one open loan, checkout 100 of book 5 by user 1. Event: user 2 returns book 7 under checkout 100. It succeeds and moves user 1's loan of book 5 into `returned_checkouts`. | Lines 237-241 say the book must be on loan under the given checkout id by the given user. A book that is not on loan should be refused with `CannotReturn`. | not executed | CheckoutTransactions.ReturnAsWrittenClosesAnyLoan, CheckoutTransactions.ReturnAsWrittenCounterexample | CheckoutTransactions.ReturnCorrectedSpec, CheckoutTransactions.ReturnCorrectedOnlyByBorrower |

`CheckoutTransactions.ReturnSpec` is `update_returned` as written, and the two as-written lemmas are about it. `CheckoutRepository.CheckoutRepositoryImpl.UpdateReturned` runs the guard as written and follows `ReturnSpec`. `CheckoutRepository.CheckoutRepositoryImpl.UpdateReturnedCorrected` runs the corrected guard, which also refuses a book that is not on loan, and follows `CheckoutTransactions.ReturnCorrectedSpec`. `CheckoutTransactions.ReturnCorrectedAgreesOnLoanedBooks` shows the two agree on every book that is on loan or unknown. So every property proved about `ReturnSpec` for such events holds for the corrected transaction too.
