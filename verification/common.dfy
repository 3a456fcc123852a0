/** Failure-compatible wrappers, the error kinds the services raise, and
    calendar dates. Every operation of the model returns a `Result`; an
    error carries no store, so a failed call changes nothing. */
module Common {

  /** A nullable value: `None` is Java's `null`. */
  datatype Option<+T> = None | Some(value: T) {

    predicate IsFailure() {
      None?
    }

    function PropagateFailure<U>(): Option<U>
      requires None?
    {
      None
    }

    function Extract(): T
      requires Some?
    {
      value
    }

    /** An absent value becomes the failure `e`. */
    function OrFail(e: Error): (r: Result<T>)
      ensures r.Ok? <==> Some?
      ensures r.Ok? ==> r.value == value
      ensures r.Err? ==> r.error == e
    {
      match this
      case Some(v) => Ok(v)
      case None => Err(e)
    }
  }

  /** The kinds of exception the services throw.
      `NullValue` stands for Java's null-dereference exception: unboxing a null
      `Double` or calling a method on a null reference. */
  datatype Error =
    | NotFound
    | InvalidArgument
    | ExamNotActive
    | AccessDenied
    | AlreadyExists
    | BadCredentials
    | NullValue

  datatype Result<+T> = Ok(value: T) | Err(error: Error) {

    predicate IsFailure() {
      Err?
    }

    function PropagateFailure<U>(): Result<U>
      requires Err?
    {
      Err(error)
    }

    function Extract(): T
      requires Ok?
    {
      value
    }
  }

  /** `Need(c, e)` passes when `c` holds and fails with `e` otherwise. */
  datatype Check = Pass | Fail(error: Error) {

    predicate IsFailure() {
      Fail?
    }

    function PropagateFailure<U>(): Result<U>
      requires Fail?
    {
      Err(error)
    }
  }

  function Need(condition: bool, e: Error): (r: Check)
    ensures r.Pass? <==> condition
    ensures r.Fail? ==> r.error == e
  {
    if condition then Pass else Fail(e)
  }

  /** A `java.time.LocalDate`, ordered lexicographically. */
  datatype Date = Date(year: int, month: int, day: int)

  /** `a.isBefore(b)` */
  predicate Before(a: Date, b: Date) {
    || a.year < b.year
    || (a.year == b.year && a.month < b.month)
    || (a.year == b.year && a.month == b.month && a.day < b.day)
  }

  /** `!b.isBefore(a)`, i.e. `a` is on or before `b`. */
  predicate OnOrBefore(a: Date, b: Date) {
    !Before(b, a)
  }

  lemma BeforeIsStrictTotalOrder(a: Date, b: Date, c: Date)
    ensures !Before(a, a)
    ensures Before(a, b) && Before(b, c) ==> Before(a, c)
    ensures a != b ==> Before(a, b) || Before(b, a)
    ensures OnOrBefore(a, b) && OnOrBefore(b, c) ==> OnOrBefore(a, c)
    ensures OnOrBefore(a, b) <==> Before(a, b) || a == b
  {
  }
}
