/**
 The two circulation views: borrowing a copy of a book and returning a
 borrowed copy. Each runs in one transaction, so each is one step
 Db -> Result<Db>; an Err means nothing was written.
 */
module Circulation {
  import opened Results
  import opened Models
  import opened Store
  import opened Routing

  /** Everything but book `id`'s available counter is the same in `before` and `after`. */
  predicate OnlyCounterChanged(before: Db, after: Db, id: BookId) {
    && id in before.books
    && after.categories == before.categories
    && after.nextBookId == before.nextBookId
    && after.books.Keys == before.books.Keys
    && after.books[id] == before.books[id].(availableCopies := after.books[id].availableCopies)
    && (forall other | other in before.books && other != id :: after.books[other] == before.books[other])
  }

  /**
   What a successful borrow of book `id` by `user` at `now` did: one copy
   fewer on the shelf, and one open Borrow row under the next Borrow id,
   due 14 days later; every existing Borrow row is untouched.
   */
  predicate Lent(before: Db, after: Db, user: UserId, id: BookId, now: Time) {
    var n := before.nextBorrowId;
    && OnlyCounterChanged(before, after, id)
    && after.books[id].availableCopies + 1 == before.books[id].availableCopies
    && after.nextBorrowId == n + 1
    && after.borrows.Keys == before.borrows.Keys + {n}
    && after.borrows[n].borrower == user
    && after.borrows[n].book == id
    && after.borrows[n].borrowedAt == now
    && after.borrows[n].dueDate == DefaultDueDate(now)
    && !IsReturned(after.borrows[n])
    && (forall k | k in before.borrows && k != n :: after.borrows[k] == before.borrows[k])
  }

  /**
   borrow_book: look the book up (404 when absent), refuse when no copy
   is available, otherwise record the loan and take one copy off the shelf.
   */
  function BorrowBook(db: Db, user: UserId, id: BookId, now: Time): (r: Result<Db>)
    ensures id !in db.books ==> r == Err(BookNotFound)
    ensures id in db.books ==> (r.Ok? <==> CanBorrow(db.books[id]))
    ensures id in db.books && !CanBorrow(db.books[id]) ==> r == Err(NoCopiesAvailable)
    ensures r.Ok? ==> Lent(db, r.value, user, id, now)
  {
    if id !in db.books then Err(BookNotFound)
    else
      var b := db.books[id];
      if b.availableCopies <= 0 then Err(NoCopiesAvailable)
      else
        var loan := Borrow(user, id, now, DefaultDueDate(now), None);
        Ok(db.(
          books := db.books[id := b.(availableCopies := b.availableCopies - 1)],
          borrows := db.borrows[db.nextBorrowId := loan],
          nextBorrowId := db.nextBorrowId + 1))
  }

  /** Borrow row `k` exists and belongs to `user`: the only rows return_book can find. */
  predicate OwnedBy(db: Db, k: BorrowId, user: UserId) {
    k in db.borrows && db.borrows[k].borrower == user
  }

  /**
   What a successful return of the open Borrow row `k` at `now` did: the
   row is stamped returned at `now`, and its book gains one copy back,
   capped at the total.
   */
  predicate Restored(before: Db, after: Db, k: BorrowId, now: Time)
    requires k in before.borrows && before.borrows[k].book in before.books
  {
    var id := before.borrows[k].book;
    var was := before.books[id].availableCopies;
    var total := before.books[id].totalCopies;
    && OnlyCounterChanged(before, after, id)
    && after.nextBorrowId == before.nextBorrowId
    && after.borrows.Keys == before.borrows.Keys
    && after.borrows[k] == before.borrows[k].(returnedAt := Some(now))
    && (forall j | j in before.borrows && j != k :: after.borrows[j] == before.borrows[j])
    && after.books[id].availableCopies <= total
    && after.books[id].availableCopies <= was + 1
    && (was < total ==> after.books[id].availableCopies == was + 1)
    && (was >= total ==> after.books[id].availableCopies == total)
  }

  /**
   return_book: find Borrow `k` among the caller's own rows (404 otherwise,
   also when it belongs to someone else); an already returned row is left
   alone without error; otherwise stamp it returned and put the copy back,
   never raising the counter above total_copies. The Book is fetched with a
   plain `get`, so a loan whose Book row is missing raises and ends in a
   server error (see ReturnFindsBook for why that cannot happen).
   */
  function ReturnBook(db: Db, user: UserId, k: BorrowId, now: Time): (r: Result<Db>)
    ensures !OwnedBy(db, k, user) ==> r == Err(BorrowNotFound)
    ensures OwnedBy(db, k, user) && IsReturned(db.borrows[k]) ==> r == Ok(db)
    ensures OwnedBy(db, k, user) && !IsReturned(db.borrows[k]) && db.borrows[k].book !in db.books
            ==> r == Err(ServerError)
    ensures OwnedBy(db, k, user) && !IsReturned(db.borrows[k]) && db.borrows[k].book in db.books
            ==> r.Ok? && Restored(db, r.value, k, now)
  {
    if k !in db.borrows || db.borrows[k].borrower != user then Err(BorrowNotFound)
    else
      var loan := db.borrows[k];
      if loan.returnedAt.Some? then Ok(db)
      else if loan.book !in db.books then Err(ServerError)
      else
        var b := db.books[loan.book];
        var raised := b.availableCopies + 1;
        var capped := if raised > b.totalCopies then b.totalCopies else raised;
        Ok(db.(
          borrows := db.borrows[k := loan.(returnedAt := Some(now))],
          books := db.books[loan.book := b.(availableCopies := capped)]))
  }

  /**
   borrow_book as written: after the borrow of BorrowBook the view
   redirects to HistoryTarget. That route name cannot be reversed, so the
   redirect raises inside the atomic block, the new Borrow row and the
   decrement are rolled back, and the request ends in a server error.
   */
  function BorrowBookAsWritten(db: Db, user: UserId, id: BookId, now: Time): (r: Result<Db>)
    ensures r.Err?
    ensures BorrowBook(db, user, id, now).Err? ==> r == BorrowBook(db, user, id, now)
    ensures BorrowBook(db, user, id, now).Ok? ==> r == Err(ServerError)
  {
    HistoryRedirectFails();
    match BorrowBook(db, user, id, now)
    case Err(e) => Err(e)
    case Ok(after) => if RedirectResolves(HistoryTarget, LibraryRouteNames) then Ok(after) else Err(ServerError)
  }

  /**
   return_book as written: both the already-returned branch and the
   successful return end in the same unreversible redirect, so every
   outcome that ReturnBook reports as success is a rolled-back server error.
   */
  function ReturnBookAsWritten(db: Db, user: UserId, k: BorrowId, now: Time): (r: Result<Db>)
    ensures r.Err?
    ensures ReturnBook(db, user, k, now).Err? ==> r == ReturnBook(db, user, k, now)
    ensures ReturnBook(db, user, k, now).Ok? ==> r == Err(ServerError)
  {
    HistoryRedirectFails();
    match ReturnBook(db, user, k, now)
    case Err(e) => Err(e)
    case Ok(after) => if RedirectResolves(HistoryTarget, LibraryRouteNames) then Ok(after) else Err(ServerError)
  }

  /** In a valid database every Borrow row names an existing Book, so the unguarded lookup of return never fails. */
  lemma ReturnFindsBook(db: Db, user: UserId, k: BorrowId, now: Time)
    requires Valid(db)
    ensures ReturnBook(db, user, k, now) != Err(ServerError)
  {
  }

  /** In a valid database a successful borrow adds exactly one Borrow row, and it is new. */
  lemma BorrowAppendsOneLoan(db: Db, user: UserId, id: BookId, now: Time)
    requires Valid(db)
    requires BorrowBook(db, user, id, now).Ok?
    ensures db.nextBorrowId !in db.borrows
    ensures |BorrowBook(db, user, id, now).value.borrows| == |db.borrows| + 1
  {
  }

  /** Borrowing preserves the counter invariant. */
  lemma BorrowPreservesValid(db: Db, user: UserId, id: BookId, now: Time)
    requires Valid(db)
    requires BorrowBook(db, user, id, now).Ok?
    ensures Valid(BorrowBook(db, user, id, now).value)
  {
  }

  /** Returning preserves the counter invariant. */
  lemma ReturnPreservesValid(db: Db, user: UserId, k: BorrowId, now: Time)
    requires Valid(db)
    requires ReturnBook(db, user, k, now).Ok?
    ensures Valid(ReturnBook(db, user, k, now).value)
  {
  }

  /** Returning twice is returning once: the second return changes nothing. */
  lemma ReturnIdempotent(db: Db, user: UserId, k: BorrowId, now: Time, later: Time)
    requires ReturnBook(db, user, k, now).Ok?
    ensures ReturnBook(ReturnBook(db, user, k, now).value, user, k, later) == ReturnBook(db, user, k, now)
  {
  }

  /**
   Returning the loan a borrow just created puts the book's counter back
   where it was and leaves the loan returned, never overdue.
   */
  lemma BorrowThenReturnRestoresCount(db: Db, user: UserId, id: BookId, now: Time, later: Time)
    requires Valid(db)
    requires id in db.books && CanBorrow(db.books[id])
    ensures BorrowBook(db, user, id, now).Ok?
    ensures ReturnBook(BorrowBook(db, user, id, now).value, user, db.nextBorrowId, later).Ok?
    ensures
      var after := ReturnBook(BorrowBook(db, user, id, now).value, user, db.nextBorrowId, later).value;
      && after.books == db.books
      && IsReturned(after.borrows[db.nextBorrowId])
      && !IsOverdue(after.borrows[db.nextBorrowId], later)
  {
  }
}
