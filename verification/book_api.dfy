/**
 The JSON administration surface over Book: create (POST /api/books/),
 partial update and delete (PUT and DELETE /api/books/<id>/). Only the
 outcome of each request is modelled: the new Db, or the error that was
 answered with nothing saved.
 */
module BookApi {
  import opened Results
  import opened Models
  import opened Store

  /** The decoded JSON body of a create or update request. */
  datatype BookPayload = BookPayload(
    title: Field<string>,
    author: Field<string>,
    categoryId: Field<int>,
    totalCopies: Field<int>)

  /** Python truthiness of a string field: present, not null, not empty. */
  predicate Truthy(f: Field<string>) {
    f.Given? && f.value != ""
  }

  /** Python truthiness of an id field: present, not null, not zero. */
  predicate TruthyId(f: Field<int>) {
    f.Given? && f.value != 0
  }

  /** The create request names a title, an author and a category. */
  predicate HasRequiredFields(p: BookPayload) {
    Truthy(p.title) && Truthy(p.author) && TruthyId(p.categoryId)
  }

  /**
   `payload.get("total_copies", 1)`: an absent key means one copy; an
   explicit null reaches the NOT NULL column and fails there.
   */
  function RequestedTotal(f: Field<int>): Result<int> {
    match f
    case Absent => Ok(1)
    case Null => Err(IntegrityError)
    case Given(n) => Ok(n)
  }

  /**
   What a successful create did: one new Book under the next Book id, with
   the requested fields and every copy on the shelf; nothing else changed.
   */
  predicate Added(before: Db, after: Db, p: BookPayload)
    requires HasRequiredFields(p)
  {
    var n := before.nextBookId;
    && after.books.Keys == before.books.Keys + {n}
    && after.nextBookId == n + 1
    && after.books[n].title == p.title.value
    && after.books[n].author == p.author.value
    && after.books[n].category == p.categoryId.value
    && after.books[n].totalCopies == p.totalCopies.Or(1)
    && after.books[n].availableCopies == after.books[n].totalCopies
    && (forall id | id in before.books && id != n :: after.books[id] == before.books[id])
    && after.borrows == before.borrows
    && after.nextBorrowId == before.nextBorrowId
    && after.categories == before.categories
  }

  /**
   The POST branch of api_books: refuse a payload without a title, an
   author or a category id (400), or with an unknown category (404);
   otherwise create the book with all of its copies available.
   */
  function CreateBook(db: Db, p: BookPayload): (r: Result<Db>)
    ensures !HasRequiredFields(p) ==> r == Err(MissingFields)
    ensures HasRequiredFields(p) && p.categoryId.value !in db.categories ==> r == Err(CategoryNotFound)
    ensures HasRequiredFields(p) && p.categoryId.value in db.categories
            ==> (r.Ok? <==> p.totalCopies.Absent? || (p.totalCopies.Given? && p.totalCopies.value >= 0))
    ensures r.Err? ==> r.error in {MissingFields, CategoryNotFound, IntegrityError}
    ensures HasRequiredFields(p) && p.categoryId.value in db.categories && r.Err? ==> r == Err(IntegrityError)
    ensures r.Ok? ==> HasRequiredFields(p) && Added(db, r.value, p)
  {
    if !HasRequiredFields(p) then Err(MissingFields)
    else if p.categoryId.value !in db.categories then Err(CategoryNotFound)
    else
      var total :- RequestedTotal(p.totalCopies);
      var book :- MakeBook(p.title.value, p.author.value, p.categoryId.value, total, total);
      Ok(db.(books := db.books[db.nextBookId := book], nextBookId := db.nextBookId + 1))
  }

  /**
   The total_copies part of an update: refuse a total below the number of
   borrowed copies, otherwise move the available counter by the same
   amount as the total (never below zero) and write the row.
   */
  function AdjustTotal(b: Book, newTotal: int): (r: Result<Book>)
    ensures newTotal < BorrowedCopies(b) ==> r == Err(BelowBorrowed)
    ensures r.Ok? <==> newTotal >= BorrowedCopies(b) && newTotal >= 0
    ensures r.Ok? ==> r.value.totalCopies == newTotal
    ensures r.Ok? ==> BorrowedCopies(r.value) == BorrowedCopies(b)
    ensures r.Ok? ==> r.value == b.(totalCopies := r.value.totalCopies, availableCopies := r.value.availableCopies)
    ensures r.Ok? && CopiesInRange(b) ==> CopiesInRange(r.value)
  {
    if newTotal < BorrowedCopies(b) then Err(BelowBorrowed)
    else
      var shifted := b.availableCopies + (newTotal - b.totalCopies);
      var available := if shifted < 0 then 0 else shifted;
      MakeBook(b.title, b.author, b.category, newTotal, available)
  }

  /**
   What a successful update of book `id` did: the supplied fields were
   written, borrowed_copies is what it was, and nothing else changed.
   */
  predicate Patched(before: Db, after: Db, id: BookId, p: BookPayload)
    requires id in before.books
  {
    var b := before.books[id];
    && after.books.Keys == before.books.Keys
    && after.books[id].title == p.title.Or(b.title)
    && after.books[id].author == p.author.Or(b.author)
    && after.books[id].category == p.categoryId.Or(b.category)
    && after.books[id].totalCopies == p.totalCopies.Or(b.totalCopies)
    && BorrowedCopies(after.books[id]) == BorrowedCopies(b)
    && (forall other | other in before.books && other != id :: after.books[other] == before.books[other])
    && after == before.(books := after.books)
  }

  /**
   The PUT branch of api_book_detail: 404 for an unknown book or category,
   400 when total_copies would drop below the borrowed count; otherwise
   every supplied (non-null) field is written.
   */
  function UpdateBook(db: Db, id: BookId, p: BookPayload): (r: Result<Db>)
    ensures id !in db.books ==> r == Err(BookNotFound)
    ensures id in db.books && p.categoryId.Given? && p.categoryId.value !in db.categories
            ==> r == Err(CategoryNotFound)
    ensures id in db.books && p.categoryId.Or(db.books[id].category) in db.categories
            && p.totalCopies.Given? && p.totalCopies.value < BorrowedCopies(db.books[id])
            ==> r == Err(BelowBorrowed)
    ensures r.Ok? <==>
              && id in db.books
              && (p.categoryId.Given? ==> p.categoryId.value in db.categories)
              && (p.totalCopies.Given? ==> p.totalCopies.value >= BorrowedCopies(db.books[id]) && p.totalCopies.value >= 0)
    ensures r.Ok? ==> id in db.books && Patched(db, r.value, id, p)
  {
    if id !in db.books then Err(BookNotFound)
    else
      var b := db.books[id];
      var named := b.(title := p.title.Or(b.title), author := p.author.Or(b.author));
      if p.categoryId.Given? && p.categoryId.value !in db.categories then Err(CategoryNotFound)
      else
        var filed := named.(category := p.categoryId.Or(b.category));
        var counted :- if p.totalCopies.Given? then AdjustTotal(filed, p.totalCopies.value) else Ok(filed);
        Ok(db.(books := db.books[id := counted]))
  }

  /**
   The DELETE branch of api_book_detail: 404 for an unknown book, 400
   while copies are lent out, and a ProtectedError while any Borrow row
   (returned or not) still references the book; otherwise the book goes.
   */
  function DeleteBook(db: Db, id: BookId): (r: Result<Db>)
    ensures id !in db.books ==> r == Err(BookNotFound)
    ensures id in db.books && BorrowedCopies(db.books[id]) > 0 ==> r == Err(CopiesBorrowed)
    ensures id in db.books && BorrowedCopies(db.books[id]) <= 0 && LoansOf(db.borrows, id) != {}
            ==> r == Err(Protected)
    ensures r.Ok? <==> id in db.books && BorrowedCopies(db.books[id]) <= 0
                       && (forall k | k in db.borrows :: db.borrows[k].book != id)
    ensures r.Ok? ==> r.value.books.Keys == db.books.Keys - {id}
    ensures r.Ok? ==> forall other | other in r.value.books :: r.value.books[other] == db.books[other]
    ensures r.Ok? ==> r.value == db.(books := r.value.books)
  {
    if id !in db.books then Err(BookNotFound)
    else if BorrowedCopies(db.books[id]) > 0 then Err(CopiesBorrowed)
    else if LoansOf(db.borrows, id) != {} then Err(Protected)
    else
      assert forall k | k in db.borrows :: k !in LoansOf(db.borrows, id);
      Ok(db.(books := db.books - {id}))
  }

  /** Creating preserves the invariant. */
  lemma CreatePreservesValid(db: Db, p: BookPayload)
    requires Valid(db)
    requires CreateBook(db, p).Ok?
    ensures Valid(CreateBook(db, p).value)
  {
  }

  /** Updating preserves the invariant. */
  lemma UpdatePreservesValid(db: Db, id: BookId, p: BookPayload)
    requires Valid(db)
    requires UpdateBook(db, id, p).Ok?
    ensures Valid(UpdateBook(db, id, p).value)
  {
  }

  /** Deleting preserves the invariant; in particular no Borrow row is left dangling. */
  lemma DeletePreservesValid(db: Db, id: BookId)
    requires Valid(db)
    requires DeleteBook(db, id).Ok?
    ensures Valid(DeleteBook(db, id).value)
  {
  }

  /** Setting the total a book already has changes nothing. */
  lemma AdjustToSameTotal(b: Book)
    ensures AdjustTotal(b, b.totalCopies) == Ok(b)
  {
  }

  /** Two total_copies updates in a row act as the second one alone. */
  lemma AdjustTotalComposes(b: Book, t1: int, t2: int)
    requires AdjustTotal(b, t1).Ok?
    ensures AdjustTotal(AdjustTotal(b, t1).value, t2) == AdjustTotal(b, t2)
  {
  }

  /** Deleting a book just created, before anyone borrowed it, undoes the create (the id is not reused). */
  lemma CreateThenDelete(db: Db, p: BookPayload)
    requires Valid(db)
    requires CreateBook(db, p).Ok?
    ensures DeleteBook(CreateBook(db, p).value, db.nextBookId) == Ok(db.(nextBookId := db.nextBookId + 1))
  {
    var after := CreateBook(db, p).value;
    assert after.books - {db.nextBookId} == db.books;
  }
}
