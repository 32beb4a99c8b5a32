/**
 The database as one immutable value. Each request is modelled as a
 single step from one Db to the next, with requests served one at a time.
 Borrow and return run inside one transaction, which rolls back when they
 fail. The API views run without a transaction, but each of them fails
 before writing or in the single statement that fails. So a request that
 fails leaves the Db as it was.
 */
module Store {
  import opened Results
  import opened Models

  /**
   The tables the core touches. `nextBookId` and `nextBorrowId` are the
   auto-increment counters that hand out primary keys.
   */
  datatype Db = Db(
    categories: set<CategoryId>,
    books: map<BookId, Book>,
    borrows: map<BorrowId, Borrow>,
    nextBookId: nat,
    nextBorrowId: nat)

  /** `0 <= available_copies <= total_copies` for every book. */
  predicate CountersValid(db: Db) {
    forall id | id in db.books :: CopiesInRange(db.books[id])
  }

  /** Primary keys below the auto-increment counters; foreign keys resolve. */
  predicate KeysValid(db: Db) {
    && (forall id | id in db.books :: id < db.nextBookId && db.books[id].category in db.categories)
    && (forall k | k in db.borrows :: k < db.nextBorrowId && db.borrows[k].book in db.books)
  }

  /** The invariant every request preserves. */
  predicate Valid(db: Db) {
    CountersValid(db) && KeysValid(db)
  }

  /** Ids of the Borrow rows that reference book `id` (what on_delete=PROTECT looks at). */
  function LoansOf(borrows: map<BorrowId, Borrow>, id: BookId): set<BorrowId> {
    set k | k in borrows && borrows[k].book == id
  }

  /** Ids of the Borrow rows of book `id` that are not returned yet. */
  function OpenLoansOf(borrows: map<BorrowId, Borrow>, id: BookId): set<BorrowId> {
    set k | k in borrows && borrows[k].book == id && !IsReturned(borrows[k])
  }

  /** Each book's borrowed_copies equals its number of open Borrow rows. */
  predicate LedgerAgrees(db: Db) {
    forall id | id in db.books :: BorrowedCopies(db.books[id]) == |OpenLoansOf(db.borrows, id)|
  }

  /**
   The stronger invariant of a database that only the views have written
   to, serving requests one at a time: valid, and the counters agree with
   the Borrow ledger.
   */
  predicate Consistent(db: Db) {
    Valid(db) && LedgerAgrees(db)
  }

  /** An empty database over a fixed set of categories. */
  function Empty(categories: set<CategoryId>): (db: Db)
    ensures Consistent(db)
  {
    Db(categories, map[], map[], 0, 0)
  }

  /** Recording a new open loan under a fresh id adds one open loan to its book and none to any other. */
  lemma OpenLoansAfterLending(borrows: map<BorrowId, Borrow>, n: BorrowId, loan: Borrow, x: BookId)
    requires n !in borrows
    requires !IsReturned(loan)
    ensures loan.book == x ==> |OpenLoansOf(borrows[n := loan], x)| == |OpenLoansOf(borrows, x)| + 1
    ensures loan.book != x ==> OpenLoansOf(borrows[n := loan], x) == OpenLoansOf(borrows, x)
  {
    if loan.book == x {
      assert OpenLoansOf(borrows[n := loan], x) == OpenLoansOf(borrows, x) + {n};
    } else {
      assert OpenLoansOf(borrows[n := loan], x) == OpenLoansOf(borrows, x);
    }
  }

  /** Stamping an open loan returned removes one open loan from its book and none from any other. */
  lemma OpenLoansAfterReturn(borrows: map<BorrowId, Borrow>, k: BorrowId, t: Time, x: BookId)
    requires k in borrows && !IsReturned(borrows[k])
    ensures borrows[k].book == x
            ==> |OpenLoansOf(borrows[k := borrows[k].(returnedAt := Some(t))], x)| + 1 == |OpenLoansOf(borrows, x)|
    ensures borrows[k].book != x
            ==> OpenLoansOf(borrows[k := borrows[k].(returnedAt := Some(t))], x) == OpenLoansOf(borrows, x)
  {
    var after := borrows[k := borrows[k].(returnedAt := Some(t))];
    if borrows[k].book == x {
      assert OpenLoansOf(after, x) + {k} == OpenLoansOf(borrows, x);
    } else {
      assert OpenLoansOf(after, x) == OpenLoansOf(borrows, x);
    }
  }

  /** In a consistent database a book can be borrowed exactly when fewer loans are open than it has copies. */
  lemma CanBorrowIffLoansBelowTotal(db: Db, id: BookId)
    requires Consistent(db) && id in db.books
    ensures CanBorrow(db.books[id]) <==> |OpenLoansOf(db.borrows, id)| < db.books[id].totalCopies
  {
  }

  /** In a consistent database a book with an open loan has a copy out, so its counter is below the total. */
  lemma OpenLoanMeansCopyOut(db: Db, k: BorrowId)
    requires Consistent(db)
    requires k in db.borrows && !IsReturned(db.borrows[k])
    ensures db.borrows[k].book in db.books
    ensures db.books[db.borrows[k].book].availableCopies < db.books[db.borrows[k].book].totalCopies
  {
    var id := db.borrows[k].book;
    assert k in OpenLoansOf(db.borrows, id);
  }
}
