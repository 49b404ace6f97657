/** Vocabulary shared by the whole model: optional values, results carrying
    the errors the services return, instants, and the date windows of the
    report queries. */
module Base {

  datatype Option<+T> = None | Some(value: T)

  /** The errors the store and the services hand back to their callers. */
  datatype Error =
    | RecordNotFound          // gorm's "record not found" from First
    | StoreFailure            // any other error reported by the database
    | NoAvailableTickets      // the booking transaction found no seat left
    | InvalidDateFormat       // the event date is not YYYY-MM-DD
    | EventNameExists         // another event already carries the name
    | EventNotCancellable     // the cancel guard rejected the event status
    | EmailAlreadyRegistered  // registration with a known email
    | PasswordMismatch        // bcrypt found that hash and password differ
    | HashFailure             // bcrypt could not hash the password
    | TokenFailure            // the JWT could not be generated

  datatype Result<+T> = Ok(value: T) | Err(error: Error)

  /** A point in time as an integer count; ZeroTime stands for Go's zero
      time.Time, which the report queries read as "no bound". */
  type Instant = int

  const ZeroTime: Instant := 0

  /** The optional [start, end] window of a report query; a bound equal to
      ZeroTime is absent. */
  datatype Window = Window(start: Instant, end: Instant)

  /** Both bounds are inclusive (created_at >= start, created_at <= end). */
  predicate InWindow(w: Window, t: Instant)
  {
    (w.start == ZeroTime || t >= w.start) && (w.end == ZeroTime || t <= w.end)
  }

  /** The window with no bound at all. */
  const Unbounded: Window := Window(ZeroTime, ZeroTime)

  function Init<T>(s: seq<T>): seq<T>
    requires |s| > 0
  {
    s[..|s| - 1]
  }

  function Last<T>(s: seq<T>): T
    requires |s| > 0
  {
    s[|s| - 1]
  }
}
