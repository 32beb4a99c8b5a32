/**
 Outcome types shared by the library model: an optional value, the error
 conditions the views can end in, a result that is either a new value or
 one of those errors, and the three-way shape of a JSON payload field.
 */
module Results {

  /** A nullable value (a nullable database column, a missing row). */
  datatype Option<+T> = None | Some(value: T)

  /** Every way a request can end without a state change. */
  datatype Error =
    | BookNotFound        // no Book row with the requested id (HTTP 404)
    | BorrowNotFound      // no Borrow row with that id owned by the caller (HTTP 404)
    | CategoryNotFound    // category_id names no Category (HTTP 404)
    | NoCopiesAvailable   // borrow attempted while available_copies <= 0 (error page)
    | MissingFields       // title, author or category_id missing or empty (HTTP 400)
    | BelowBorrowed       // total_copies lowered below the borrowed count (HTTP 400)
    | CopiesBorrowed      // delete attempted while copies are lent out (HTTP 400)
    | Protected           // delete of a Book still referenced by Borrow rows (ProtectedError)
    | IntegrityError      // a negative or NULL value for a non-negative counter column
    | ServerError         // an uncaught exception ended the request (HTTP 500)

  /** Either the new value or the error the request ended in. */
  datatype Result<+T> = Ok(value: T) | Err(error: Error) {

    predicate IsFailure() {
      Err?
    }

    function PropagateFailure<U>(): Result<U>
      requires Err?
    {
      Err(error)
    }

    function Extract(): T
      requires Ok?
    {
      value
    }
  }

  /** A key of a JSON object: not present, present with `null`, or present with a value. */
  datatype Field<+T> = Absent | Null | Given(value: T) {

    /** The supplied value, or `keep` when the key is absent or null. */
    function Or(keep: T): T {
      if Given? then value else keep
    }
  }
}
