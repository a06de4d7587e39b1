/** The error values of the service package (internal/service) and the
    translation of a failed user lookup that CardsService and ProductsService
    share. ErrInternal is declared in service.go, ErrCardNotFound in cards.go
    and ErrProductNotFound in products.go; ErrUserNotFound is used by both
    services but its declaration (not among the service files modelled here)
    is taken to be a distinct sentinel. */
module Service {
  import opened Common
  import Repository

  datatype ServiceError = ErrUserNotFound | ErrInternal | ErrCardNotFound | ErrProductNotFound

  /** `usersRepo.GetById` followed by the reversed errors.Is test: only the
      repository's ErrUserNotFound becomes ErrUserNotFound, every other
      failure ErrInternal; None when the user exists. */
  function UserCheck<U>(lookup: Result<U, Repository.RepoError>): (r: Option<ServiceError>)
    ensures r.None? <==> lookup.Ok?
    ensures r == Some(ErrUserNotFound) <==> lookup == Err(Repository.ErrUserNotFound)
    ensures r.Some? ==> r.value in {ErrUserNotFound, ErrInternal}
  {
    if lookup.Ok? then None
    else if lookup.error == Repository.ErrUserNotFound then Some(ErrUserNotFound)
    else Some(ErrInternal)
  }
}
