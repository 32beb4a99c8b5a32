/**
 The rows of the library database: Book and Borrow, with the derived
 properties the Django models expose (can_borrow, borrowed_copies,
 is_returned, is_overdue, default_due_date).

 Time is an integer count of seconds; the current time is always a parameter.
 */
module Models {
  import opened Results

  type CategoryId = int
  type BookId = nat
  type BorrowId = nat
  type UserId = nat
  type Time = int

  const SecondsPerDay: int := 86400
  const LoanDays: int := 14
  /** timedelta(days=14), in seconds */
  const LoanPeriod: int := LoanDays * SecondsPerDay

  /**
   A catalog entry. Both counters are PositiveIntegerField columns: the
   database refuses a negative value, so a stored Book has `nat` counters.
   The cover image is not modelled.
   */
  datatype Book = Book(
    title: string,
    author: string,
    category: CategoryId,
    totalCopies: nat,
    availableCopies: nat)

  /** One lending transaction; `returnedAt` is the nullable return timestamp. */
  datatype Borrow = Borrow(
    borrower: UserId,
    book: BookId,
    borrowedAt: Time,
    dueDate: Time,
    returnedAt: Option<Time>)

  /** The catalog invariant for one book: `0 <= available_copies <= total_copies`. */
  predicate CopiesInRange(b: Book) {
    b.availableCopies <= b.totalCopies
  }

  /** Book.can_borrow */
  predicate CanBorrow(b: Book) {
    b.availableCopies > 0
  }

  /** Book.borrowed_copies; negative only for a book whose counters drifted out of range. */
  function BorrowedCopies(b: Book): int {
    b.totalCopies - b.availableCopies
  }

  /** Borrow.is_returned */
  predicate IsReturned(br: Borrow) {
    br.returnedAt.Some?
  }

  /** Borrow.is_overdue, evaluated at time `now`. */
  predicate IsOverdue(br: Borrow, now: Time) {
    br.returnedAt.None? && now > br.dueDate
  }

  /** Borrow.default_due_date, evaluated at time `now`. */
  function DefaultDueDate(now: Time): (due: Time)
    ensures due > now
    ensures due - now == LoanDays * SecondsPerDay
  {
    now + LoanPeriod
  }

  /**
   Writing a Book row with the given counters. The PositiveIntegerField
   columns carry a CHECK (value >= 0) constraint, and neither column is
   nullable, so a negative counter makes the write fail with an
   IntegrityError and nothing is stored.
   */
  function MakeBook(title: string, author: string, category: CategoryId, total: int, available: int): (r: Result<Book>)
    ensures r.Ok? <==> total >= 0 && available >= 0
    ensures r.Err? ==> r.error == IntegrityError
    ensures r.Ok? ==> r.value.totalCopies == total && r.value.availableCopies == available
    ensures r.Ok? ==> r.value.title == title && r.value.author == author && r.value.category == category
  {
    if total < 0 || available < 0 then Err(IntegrityError)
    else Ok(Book(title, author, category, total, available))
  }

  /** A returned borrow is never overdue, whatever the time. */
  lemma ReturnedNeverOverdue(br: Borrow, now: Time)
    ensures IsReturned(br) ==> !IsOverdue(br, now)
  {
  }

  /** An open borrow that is overdue stays overdue as time passes. */
  lemma OverdueStaysOverdue(br: Borrow, t1: Time, t2: Time)
    requires IsOverdue(br, t1)
    requires t1 <= t2
    ensures IsOverdue(br, t2)
  {
  }

  /** A fresh open loan due at the default date is overdue exactly when more than 14 days have passed. */
  lemma FreshLoanOverdueAfterLoanPeriod(user: UserId, book: BookId, now: Time, later: Time)
    ensures IsOverdue(Borrow(user, book, now, DefaultDueDate(now), None), later)
        <==> later - now > LoanDays * SecondsPerDay
  {
  }
}
