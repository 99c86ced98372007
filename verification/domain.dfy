/** The expense record, the errors the tracker reports, and the capability
    set of a storage backend (the `ExpenseRepository` interface). */
module Domain {
  import opened GoInt

  /** The calendar day of a Go `time.Time`; the time of day is not kept,
      since only the day survives a write and a reload. */
  datatype Date = Date(day: int, month: int, year: int)

  datatype Expense = Expense(id: Int64, date: Date, description: string, amount: Int64)

  /** Every error the core returns, by kind. */
  datatype Error =
    | EmptyDescription
    | NonPositiveAmount
    | InvalidMonth
    | InvalidExpenseId
    | NothingToUpdate
    | ExpenseNotFound
    | NoExpensesToDelete
    | ExpenseFileNotFound
      /** `strconv.Atoi` refusing the id field of a stored row */
    | MalformedId(field: string)
      /** the operating system or the CSV reader/writer failing */
    | IoFailure

  /** Go's `(value, error)` return pair. */
  datatype Result<+T> = Ok(value: T) | Err(error: Error)

  /** What an operation leaves behind in its backend's state `S`, and what it
      returns. */
  datatype Reply<S, +T> = Reply(state: S, result: Result<T>)

  /** A storage backend: the four operations of `ExpenseRepository`, each a
      function of the backend's state. `save` ignores the id it is given and
      returns the id it assigned. */
  datatype Repository<!S> = Repository(
    save: (S, Expense) -> Reply<S, Int64>,
    findAll: S -> Reply<S, seq<Expense>>,
    deleteById: (S, Int64) -> Reply<S, ()>,
    updateById: (S, Expense) -> Reply<S, ()>)
}
