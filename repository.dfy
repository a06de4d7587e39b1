/** The error values of the repository package (internal/repository), and what
    a SQL round trip reports back to it. */
module Repository {

  /** ErrUserNotFound and ErrInternal (declared in repository.go and again in
      users.go with the same texts), ErrSessionExpiredOrInvalid,
      ErrProductNotFound (products.go) and ErrCardNotFound (cards.go). */
  datatype RepoError =
    | ErrUserNotFound
    | ErrInternal
    | ErrSessionExpiredOrInvalid
    | ErrProductNotFound
    | ErrCardNotFound

  /** The outcome of a query that scans one row: the row, sql.ErrNoRows, or
      any other driver or scan failure. */
  datatype QueryOutcome<T> = Row(value: T) | NoRows | QueryFailed
}
