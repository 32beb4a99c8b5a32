# Library circulation core, modelled in Dafny

This project models the copy-count bookkeeping of a small library catalog
application (Django). It covers borrowing and returning a book, and the JSON
administration endpoints that create a book, change its `total_copies` and
delete it. It also covers the properties the `Book` and `Borrow` models derive.

The database is one immutable value `Store.Db`. It holds the category ids, a
map of `Book` rows, a map of `Borrow` rows, and the two auto-increment
counters that hand out new primary keys. Each view is a pure function
`Db -> Result<Db>`. Borrow and return run under `transaction.atomic`, so each
of them is one indivisible step. The configured backend is SQLite, where
`select_for_update` has no effect. What keeps two borrows or returns apart is
SQLite's single database-wide write lock: of two overlapping writing
transactions, one fails with "database is locked" and rolls back. `Library.Step` applies one request and keeps the old database when the
request fails, because nothing is written or the transaction rolls back.
`Library.Run` applies a sequence of requests one at a time. The API views have
neither a lock nor a transaction; see "## Left out". The clock
(`timezone.now()`) is an integer parameter `now`, counted in seconds, so
`timedelta(days=14)` is `Models.LoanPeriod`. The logged-in user is a `UserId`
parameter.

Two invariants are proved:

- `Store.Valid`: every book has `0 <= available_copies <= total_copies`.
  Every book's category exists, and every Borrow row references an existing
  book. Every primary key is below its auto-increment counter.
- `Store.Consistent`: `Valid`, plus each book's `borrowed_copies` equals its
  number of unreturned Borrow rows. This holds for a database that only these
  requests have written to, one request at a time. Under it, the clamp in
  `return_book` never fires, so a return adds exactly one copy
  (`Library.ReturnAddsExactlyOne`).

Both invariants are kept by every request (`Library.HandlePreserves`). So they
hold after any sequence of requests served one at a time (`Library.Run`).

The model follows the code in these places:

- Returning a borrow that belongs to someone else goes through
  `get_object_or_404(..., borrower=request.user)`. That is a not-found error
  (`BorrowNotFound`).
- `book.delete()` is guarded only by `borrowed_copies > 0`. `Borrow.book` uses
  `on_delete=PROTECT`, so a book with any Borrow row, returned or not, cannot be
  deleted. The model reports that as the `Protected` error.
- In the update, `available_copies` is clamped at zero. After the
  `total_copies < borrowed_copies` guard that clamp can never fire. The new
  available count is `total_new - borrowed_old`, and the guard makes that
  non-negative. `BookApi.AdjustTotal` proves that the borrowed count is
  unchanged on every successful update.
- The counters are `PositiveIntegerField` columns. The SQLite backend gives
  them a `CHECK (value >= 0)` constraint, and they are `NOT NULL`. A stored
  `Book` therefore has `nat` counters. A create with a negative or `null`
  `total_copies` fails with `IntegrityError` and nothing is stored.
- The create view tests required fields with Python truthiness. An empty
  title or author counts as missing, and so does a `category_id` of `0`. The
  update view tests `is not None`, so an explicit `null` there means "leave
  unchanged", and an empty title is accepted.
- After a successful borrow or return, and after a repeated return, the views
  redirect to the route name `"library:my_history"`. `library/urls.py`
  registers that route inside the `library` namespace under a name that itself
  contains the colon. The redirect therefore cannot be reversed, and the
  request is rolled back (see "## Findings"). `Circulation.BorrowBookAsWritten`
  and `Circulation.ReturnBookAsWritten` model the code as written.
  `Circulation.BorrowBook` and `Circulation.ReturnBook` model the intended
  behaviour, and the rest of the model uses them.

## Model

| member | source | states |
|---|---|---|
| Models.MakeBook | library/models.py:40-41 | writing a Book row succeeds exactly when both counters are non-negative; otherwise it fails with an integrity error; a stored row carries the given values |
| Store.CanBorrowIffLoansBelowTotal | library/models.py:59-61 | in a consistent database, can_borrow holds exactly when the book has fewer open loans than copies |
| Store.OpenLoanMeansCopyOut | library/models.py:64-73 | in a consistent database, a book with an open loan has borrowed_copies above zero: its available count is below its total |
| Models.ReturnedNeverOverdue | library/models.py:100-108 | a returned borrow is never overdue, at any time |
| Models.OverdueStaysOverdue | library/models.py:105-108 | an open overdue borrow stays overdue at every later time |
| Models.DefaultDueDate | library/models.py:110-113 | the default due date lies strictly after now, exactly 14 days of seconds later |
| Models.FreshLoanOverdueAfterLoanPeriod | library/models.py:105-113 | an open loan due at the default date is overdue exactly when more than 14 days have passed since it was made |
| Circulation.BorrowBook | library/views.py:46-68 | as intended, with a success redirect that resolves: unknown book gives not-found; the borrow succeeds exactly when can_borrow holds, and otherwise fails with no-copies-available; on success the book has one copy fewer and every other book and the rest of the row are unchanged; the only new Borrow row is an unreturned loan of that book to the user, made now and due at the default date; existing Borrow rows are untouched |
| Circulation.BorrowAppendsOneLoan | library/views.py:60-64 | in a valid database a successful borrow uses a fresh Borrow id and the ledger grows by exactly one row |
| Circulation.ReturnBook | library/views.py:73-94 | as intended, with a success redirect that resolves: a borrow id that is missing or owned by someone else gives not-found; an already returned borrow leaves the database unchanged with no error; otherwise the borrow is stamped returned at now and its book gets one copy back, capped at the total; nothing else changes; an open loan whose book row is missing ends in a server error |
| Circulation.ReturnFindsBook | library/views.py:83 | in a valid database the unguarded lookup of the loan's book never fails, so a return never ends in that server error |
| Circulation.ReturnIdempotent | library/views.py:79-80 | as intended, a second return of the same borrow, at any time, changes nothing and reports no error |
| Circulation.BorrowBookAsWritten | library/views.py:44-68 | as written, borrow_book never persists anything: its errors are those of the intended borrow, and wherever the intended borrow succeeds the request ends in a server error |
| Circulation.ReturnBookAsWritten | library/views.py:71-94 | as written, return_book never persists anything: its errors are those of the intended return, and wherever the intended return succeeds, including the already-returned no-op, the request ends in a server error |
| Routing.HistoryRedirectFails | library/urls.py:19 | the route name "library:my_history", registered inside the library namespace, cannot be reversed, and the text is not usable as a URL, so the redirect raises |
| Routing.HistoryRedirectResolvesWhenNamedPlainly | library/urls.py:12-19 | with the history route registered as "my_history", the same redirect target resolves |
| Circulation.BorrowPreservesValid | library/views.py:53-66 | a successful borrow keeps every book in range and every Borrow row pointing at an existing book |
| Circulation.ReturnPreservesValid | library/views.py:85-92 | a successful return keeps every book in range and every Borrow row pointing at an existing book |
| Circulation.BorrowThenReturnRestoresCount | library/views.py:60-92 | a borrow that can succeed, followed by its owner returning that loan, leaves every book exactly as before, and the loan ends returned and not overdue |
| BookApi.CreateBook | library/views.py:136-171 | a missing or empty title, author or category id is rejected; an unknown category gives not-found; with those present the create succeeds exactly when total_copies is absent or a non-negative number; the new book under the next id has the requested fields, total_copies defaulting to 1, and every copy available; nothing else changes; with the required fields and a known category, every failure is an integrity error |
| BookApi.AdjustTotal | library/views.py:227-243 | a new total below the borrowed count is rejected; the change succeeds exactly when the new total is at least the borrowed count and non-negative; on success the total is the requested one, the borrowed count is unchanged, the other fields are kept, and an in-range book stays in range |
| BookApi.UpdateBook | library/views.py:207-246 | unknown book or category gives not-found; a total below the borrowed count is rejected; the update succeeds exactly when the book exists, any supplied category is known, and any supplied total is non-negative and not below the borrowed count; on success each supplied field is written, unsupplied ones are kept, the borrowed count is unchanged, and no other book or table changes |
| BookApi.DeleteBook | library/views.py:249-260 | unknown book gives not-found; a book with copies out is rejected; a book with no copies out that some Borrow row still references is refused as protected; the delete succeeds exactly when the book exists, has no copies out, and no Borrow row references it; then only that book is removed |
| BookApi.CreatePreservesValid | library/views.py:158-164 | a successful create keeps the invariant |
| BookApi.UpdatePreservesValid | library/views.py:227-245 | a successful update keeps the invariant |
| BookApi.DeletePreservesValid | library/views.py:251-259 | a successful delete keeps the invariant; no Borrow row is left pointing at a missing book |
| BookApi.AdjustToSameTotal | library/views.py:237-243 | setting any book's total to its current value changes nothing |
| BookApi.AdjustTotalComposes | library/views.py:227-243 | two successive total_copies updates have the same outcome as the second alone |
| BookApi.CreateThenDelete | library/views.py:136-260 | deleting a book right after creating it restores the database, except that the used id is not handed out again |
| Library.BorrowPreservesConsistent | library/views.py:60-66 | a borrow keeps each book's borrowed count equal to its number of open loans |
| Library.ReturnAddsExactlyOne | library/views.py:88-91 | in a consistent database returning an open loan always succeeds and adds exactly one copy; the clamp never fires |
| Library.ReturnPreservesConsistent | library/views.py:78-92 | a return keeps each book's borrowed count equal to its number of open loans |
| Library.CreatePreservesConsistent | library/views.py:158-164 | a new book has no loans and no copy out, so the ledger still agrees |
| Library.UpdatePreservesConsistent | library/views.py:227-243 | an update keeps each book's borrowed count equal to its number of open loans |
| Library.DeletePreservesConsistent | library/views.py:251-259 | a delete keeps each book's borrowed count equal to its number of open loans |
| Library.HandlePreserves | library/views.py:44-260 | every successful request keeps both the range invariant and the ledger agreement |
| Library.Step | library/views.py:44-46 | a failed request leaves the database unchanged, because nothing was written or the atomic transaction rolled back; a step keeps both invariants |
| Library.Run | library/views.py:44-260 | any sequence of requests keeps 0 <= available_copies <= total_copies for every book, and keeps the ledger agreement |
| Library.RunFromEmpty | library/views.py:44-260 | starting from an empty database, any sequence of requests served one at a time leaves the ledger in agreement with the counters |
| Library.StepAsWritten | library/views.py:44-94 | as written, a borrow or return request leaves the database exactly as it was; every other request behaves as in the intended step |
| Library.LoanLostAsWritten | library/views.py:60-68 | for any book with a copy on the shelf, the intended borrow takes one copy and records the loan, while the borrow as written answers with a server error and leaves the database unchanged |
| Library.RunKeepsCopiesInRange | library/views.py:44-260 | at every point of a run, every book's borrowed count lies between zero and its total |
| Library.LastCopyScenario | library/views.py:46-94 | with one copy left, the first borrower gets it; a second borrower is refused and nothing changes; when the first returns it, the copy is back and the loan is stamped |
| Library.ForeignReturnChangesNothing | library/views.py:78 | a return of someone else's borrow is not found and leaves the database unchanged |

## Left out

- HTTP plumbing is not modelled: request-method checks, redirect responses, template rendering and response status codes. Each view is reduced to its new database or its error.
- JSON decoding is not modelled. A body that is not valid JSON is answered with 400 and no change. The model starts from the decoded payload. Non-string titles, and ids or totals that are not integers, are not represented, so the ORM's coercion of those values is left out.
- Authentication, registration, login and the `login_required` decorator are not modelled. They belong to the framework's auth subsystem, and the user is simply a parameter.
- Locks and `transaction.atomic` are represented only as the atomicity of `Library.Step`. This is faithful for borrow and return on SQLite, whose database-wide write lock lets only one of two overlapping transactions commit. A request that fails with "database is locked" rolls back, so it acts like a request never made and is not modelled. On a backend with real row locks, `return_book` would read `returned_at` before taking any lock, so two concurrent returns of one loan could each add a copy; other backends are not modelled. The API views (`api_books`, `api_book_detail`) take no lock and open no transaction, and the settings do not turn on `ATOMIC_REQUESTS`. A PUT reads the book, then saves every column with `book.save()`. If a borrow commits in between, the PUT writes the old `available_copies` back. The copy then no longer counts as lent, although its Borrow row is still open. `Store.Consistent` and the lemmas about it are therefore proved only for requests served one at a time. The range invariant `Store.Valid` is not affected, because the PUT writes both counters from one consistent snapshot.
- The read-only views are not modelled: `book_list`, `book_detail`, `my_history` and the GET branches of the API. They only read and sort.
- The cover image, `__str__` methods, the admin registrations and category management are not modelled. Categories are a fixed set of ids, and the admin site can edit counters outside these rules. That kind of drift is why `Store.Valid` is kept separate from `Store.Consistent`.
- `CharField` length limits are not modelled, because SQLite does not enforce them. The upper limit of the integer columns is not modelled either.
- `Borrow.borrowed_at` uses the default `timezone.now`. It is modelled as the same `now` the view uses for the due date, although the code reads the clock twice.
- Only the success redirect of borrow and return is modelled, as whether its target can be reversed (`Routing`). The rest of URL routing is not modelled. The redirect of a non-POST request to the book detail page is not modelled either.
- Configuration and entry points are not modelled. They contain no logic.

## Findings

| source | as written | input that shows it | evidently intended | confidence | as-written member | corrected member |
|---|---|---|---|---|---|---|
| library/views.py:68 | after recording the loan, `redirect("library:my_history")` raises NoReverseMatch, because library/urls.py:19 registers the route inside the `library` namespace under the name `"library:my_history"`; the exception leaves the atomic block and the borrow is rolled back | any book with `available_copies > 0`, e.g. total 1, available 1: the request ends in a server error, no Borrow row is created, and the counter stays at 1 | the borrow is committed and the user lands on the history page (route named `my_history`) | high (not executed) | Circulation.BorrowBookAsWritten | Circulation.BorrowBook |
| library/views.py:80-94 | the same unreversible redirect ends both the already-returned branch and the successful return, so `returned_at` and the counter change are rolled back and a repeated return is a server error | any open Borrow row owned by the caller: the request ends in a server error and the row stays unreturned | the return is committed, and a repeated return is a silent no-op | high (not executed) | Circulation.ReturnBookAsWritten | Circulation.ReturnBook |
