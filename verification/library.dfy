/**
 The library as a state machine: every request the core serves, one
 dispatcher, and the run of a sequence of requests served one at a time.
 Each request is one step. A failed request leaves the database as it was:
 borrow and return roll back their transaction, and the API views fail
 before writing or in their single failing statement.

 The central results: every step keeps `0 <= available_copies <=
 total_copies` for every book, and a database written only through these
 requests, served one at a time, keeps each book's borrowed_copies equal to
 its number of open Borrow rows.

 Handle serves borrow and return as intended (the success redirect
 resolves); HandleAsWritten serves them as the views are written, where
 that redirect raises and rolls the request back.
 */
module Library {
  import opened Results
  import opened Models
  import opened Store
  import opened Circulation
  import opened BookApi

  /** One request to the core. */
  datatype Request =
    | BorrowRequest(user: UserId, book: BookId)
    | ReturnRequest(user: UserId, borrow: BorrowId)
    | CreateRequest(payload: BookPayload)
    | UpdateRequest(book: BookId, payload: BookPayload)
    | DeleteRequest(book: BookId)

  /** A request together with the time the server's clock read while serving it. */
  datatype Event = Event(request: Request, now: Time)

  /** Serve one request. */
  function Handle(db: Db, req: Request, now: Time): Result<Db> {
    match req
    case BorrowRequest(user, book) => BorrowBook(db, user, book, now)
    case ReturnRequest(user, borrow) => ReturnBook(db, user, borrow, now)
    case CreateRequest(payload) => CreateBook(db, payload)
    case UpdateRequest(book, payload) => UpdateBook(db, book, payload)
    case DeleteRequest(book) => DeleteBook(db, book)
  }

  /** Borrowing keeps the ledger in agreement with the counters. */
  lemma BorrowPreservesConsistent(db: Db, user: UserId, id: BookId, now: Time)
    requires Consistent(db)
    requires BorrowBook(db, user, id, now).Ok?
    ensures Consistent(BorrowBook(db, user, id, now).value)
  {
    BorrowPreservesValid(db, user, id, now);
    var after := BorrowBook(db, user, id, now).value;
    var loan := Borrow(user, id, now, DefaultDueDate(now), None);
    assert after.borrows == db.borrows[db.nextBorrowId := loan];
    forall x | x in after.books
      ensures BorrowedCopies(after.books[x]) == |OpenLoansOf(after.borrows, x)|
    {
      OpenLoansAfterLending(db.borrows, db.nextBorrowId, loan, x);
    }
  }

  /**
   In a consistent database the clamp in return_book never fires: the
   returned copy was out, so the counter goes up by exactly one.
   */
  lemma ReturnAddsExactlyOne(db: Db, user: UserId, k: BorrowId, now: Time)
    requires Consistent(db)
    requires OwnedBy(db, k, user) && !IsReturned(db.borrows[k])
    ensures ReturnBook(db, user, k, now).Ok?
    ensures ReturnBook(db, user, k, now).value.books[db.borrows[k].book].availableCopies
            == db.books[db.borrows[k].book].availableCopies + 1
  {
    OpenLoanMeansCopyOut(db, k);
  }

  /** Returning keeps the ledger in agreement with the counters. */
  lemma ReturnPreservesConsistent(db: Db, user: UserId, k: BorrowId, now: Time)
    requires Consistent(db)
    requires ReturnBook(db, user, k, now).Ok?
    ensures Consistent(ReturnBook(db, user, k, now).value)
  {
    ReturnPreservesValid(db, user, k, now);
    var after := ReturnBook(db, user, k, now).value;
    if !IsReturned(db.borrows[k]) {
      ReturnAddsExactlyOne(db, user, k, now);
      assert after.borrows == db.borrows[k := db.borrows[k].(returnedAt := Some(now))];
      forall x | x in after.books
        ensures BorrowedCopies(after.books[x]) == |OpenLoansOf(after.borrows, x)|
      {
        OpenLoansAfterReturn(db.borrows, k, now, x);
      }
    }
  }

  /** Creating a book keeps the ledger in agreement: the new book has no loans and no copy out. */
  lemma CreatePreservesConsistent(db: Db, p: BookPayload)
    requires Consistent(db)
    requires CreateBook(db, p).Ok?
    ensures Consistent(CreateBook(db, p).value)
  {
    CreatePreservesValid(db, p);
    var after := CreateBook(db, p).value;
    forall x | x in after.books
      ensures BorrowedCopies(after.books[x]) == |OpenLoansOf(after.borrows, x)|
    {
      if x == db.nextBookId {
        assert OpenLoansOf(db.borrows, x) == {};
      }
    }
  }

  /** Updating a book keeps the ledger in agreement: its borrowed count does not move. */
  lemma UpdatePreservesConsistent(db: Db, id: BookId, p: BookPayload)
    requires Consistent(db)
    requires UpdateBook(db, id, p).Ok?
    ensures Consistent(UpdateBook(db, id, p).value)
  {
    UpdatePreservesValid(db, id, p);
  }

  /** Deleting a book keeps the ledger in agreement. */
  lemma DeletePreservesConsistent(db: Db, id: BookId)
    requires Consistent(db)
    requires DeleteBook(db, id).Ok?
    ensures Consistent(DeleteBook(db, id).value)
  {
    DeletePreservesValid(db, id);
  }

  /** Every request keeps both invariants. */
  lemma HandlePreserves(db: Db, req: Request, now: Time)
    requires Handle(db, req, now).Ok?
    ensures Valid(db) ==> Valid(Handle(db, req, now).value)
    ensures Consistent(db) ==> Consistent(Handle(db, req, now).value)
  {
    match req
    case BorrowRequest(user, book) =>
      if Valid(db) { BorrowPreservesValid(db, user, book, now); }
      if Consistent(db) { BorrowPreservesConsistent(db, user, book, now); }
    case ReturnRequest(user, borrow) =>
      if Valid(db) { ReturnPreservesValid(db, user, borrow, now); }
      if Consistent(db) { ReturnPreservesConsistent(db, user, borrow, now); }
    case CreateRequest(payload) =>
      if Valid(db) { CreatePreservesValid(db, payload); }
      if Consistent(db) { CreatePreservesConsistent(db, payload); }
    case UpdateRequest(book, payload) =>
      if Valid(db) { UpdatePreservesValid(db, book, payload); }
      if Consistent(db) { UpdatePreservesConsistent(db, book, payload); }
    case DeleteRequest(book) =>
      if Valid(db) { DeletePreservesValid(db, book); }
      if Consistent(db) { DeletePreservesConsistent(db, book); }
  }

  /**
   One step: the request's new database when it succeeds, the old one when
   it fails (nothing was written, or the transaction rolled back).
   */
  function Step(db: Db, e: Event): (after: Db)
    ensures Handle(db, e.request, e.now).Err? ==> after == db
    ensures Valid(db) ==> Valid(after)
    ensures Consistent(db) ==> Consistent(after)
  {
    match Handle(db, e.request, e.now)
    case Ok(next) =>
      HandlePreserves(db, e.request, e.now);
      next
    case Err(_) => db
  }

  /**
   Serving a sequence of requests one at a time, in any order:
   `0 <= available_copies <= total_copies` holds for every book afterwards,
   and a consistent database stays consistent.
   */
  function Run(db: Db, trace: seq<Event>): (after: Db)
    ensures Valid(db) ==> Valid(after)
    ensures Consistent(db) ==> Consistent(after)
    decreases |trace|
  {
    if |trace| == 0 then db
    else Run(Step(db, trace[0]), trace[1..])
  }

  /** A freshly created database stays consistent under any sequence of requests served one at a time. */
  lemma RunFromEmpty(categories: set<CategoryId>, trace: seq<Event>)
    ensures Consistent(Run(Empty(categories), trace))
  {
  }

  /** A book never has more copies out than it owns, at every point of a run. */
  lemma RunKeepsCopiesInRange(db: Db, trace: seq<Event>, i: nat, id: BookId)
    requires Valid(db)
    requires i <= |trace|
    requires id in Run(db, trace[..i]).books
    ensures 0 <= BorrowedCopies(Run(db, trace[..i]).books[id]) <= Run(db, trace[..i]).books[id].totalCopies
  {
  }

  /**
   The last copy: with one copy on the shelf, a first borrower gets it, a
   second is refused with no change, and after the first returns it the
   copy is back on the shelf and the loan is stamped returned.
   */
  lemma LastCopyScenario(db: Db, a: UserId, b: UserId, id: BookId, t1: Time, t2: Time, t3: Time)
    requires Consistent(db)
    requires id in db.books && db.books[id].totalCopies == 1 && db.books[id].availableCopies == 1
    ensures
      var lent := BorrowBook(db, a, id, t1);
      && lent.Ok?
      && lent.value.books[id].availableCopies == 0
      && BorrowBook(lent.value, b, id, t2) == Err(NoCopiesAvailable)
      && Step(lent.value, Event(BorrowRequest(b, id), t2)) == lent.value
      && var back := ReturnBook(lent.value, a, db.nextBorrowId, t3);
         && back.Ok?
         && back.value.books[id].availableCopies == 1
         && back.value.borrows[db.nextBorrowId].returnedAt == Some(t3)
  {
  }

  /** A return attempted by someone other than the borrower is refused and changes nothing. */
  lemma ForeignReturnChangesNothing(db: Db, owner: UserId, other: UserId, k: BorrowId, now: Time)
    requires k in db.borrows && db.borrows[k].borrower == owner && other != owner
    ensures Handle(db, ReturnRequest(other, k), now) == Err(BorrowNotFound)
    ensures Step(db, Event(ReturnRequest(other, k), now)) == db
  {
  }

  /** Serve one request with borrow and return exactly as written. */
  function HandleAsWritten(db: Db, req: Request, now: Time): Result<Db> {
    match req
    case BorrowRequest(user, book) => BorrowBookAsWritten(db, user, book, now)
    case ReturnRequest(user, borrow) => ReturnBookAsWritten(db, user, borrow, now)
    case _ => Handle(db, req, now)
  }

  /**
   One step with borrow and return as written: no borrow or return
   ever persists, and the other requests behave as in Step.
   */
  function StepAsWritten(db: Db, e: Event): (after: Db)
    ensures e.request.BorrowRequest? || e.request.ReturnRequest? ==> after == db
    ensures !e.request.BorrowRequest? && !e.request.ReturnRequest? ==> after == Step(db, e)
  {
    match HandleAsWritten(db, e.request, e.now)
    case Ok(next) => next
    case Err(_) => db
  }

  /**
   The discrepancy on a concrete input: a book with a copy on the shelf.
   The intended borrow lends the copy; the borrow as written leaves the
   database exactly as it was and answers with a server error.
   */
  lemma LoanLostAsWritten(db: Db, user: UserId, id: BookId, now: Time)
    requires id in db.books && CanBorrow(db.books[id])
    ensures Step(db, Event(BorrowRequest(user, id), now)).books[id].availableCopies + 1
            == db.books[id].availableCopies
    ensures db.nextBorrowId in Step(db, Event(BorrowRequest(user, id), now)).borrows
    ensures HandleAsWritten(db, BorrowRequest(user, id), now) == Err(ServerError)
    ensures StepAsWritten(db, Event(BorrowRequest(user, id), now)) == db
  {
  }
}
