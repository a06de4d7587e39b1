/** internal/domain/users.go: the User record, the partial update a client
    sends, its Validate check, and the role names. */
module InternalDomainUsers {
  import opened Common

  const RoleUser: string := "user"
  const RoleManager: string := "manager"
  const RoleSeller: string := "seller"

  datatype User = User(
    Id: int,
    Username: string,
    Name: string,
    Email: string,
    Password: string,
    EmailVerified: bool,
    Role: string)

  /** A nil pointer is None. The field name keeps the source's spelling. */
  datatype UserUpdate = UserUpdate(
    Username: Option<string>,
    Name: Option<string>,
    Email: Option<string>,
    Password: Option<string>,
    EmailVefiried: Option<bool>,
    Role: Option<string>)

  datatype DomainError = ErrUserUpdateHasNoValues

  /** The fields of an update, named. */
  datatype Field = UsernameField | NameField | EmailField | PasswordField | EmailVerifiedField | RoleField

  /** The fields an update sets. */
  function Present(u: UserUpdate): (r: set<Field>)
    ensures UsernameField in r <==> u.Username.Some?
    ensures NameField in r <==> u.Name.Some?
    ensures EmailField in r <==> u.Email.Some?
    ensures PasswordField in r <==> u.Password.Some?
    ensures EmailVerifiedField in r <==> u.EmailVefiried.Some?
    ensures RoleField in r <==> u.Role.Some?
  {
    (if u.Username.Some? then {UsernameField} else {})
    + (if u.Name.Some? then {NameField} else {})
    + (if u.Email.Some? then {EmailField} else {})
    + (if u.Password.Some? then {PasswordField} else {})
    + (if u.EmailVefiried.Some? then {EmailVerifiedField} else {})
    + (if u.Role.Some? then {RoleField} else {})
  }

  /** Validate: an update with none of Username, Name, Email, Password and
      Role is refused; EmailVefiried is not consulted. */
  function Validate(u: UserUpdate): (r: Option<DomainError>)
  {
    if u.Username.None? && u.Name.None? && u.Email.None? && u.Password.None? && u.Role.None?
    then Some(ErrUserUpdateHasNoValues)
    else None
  }

  /** Validate accepts exactly the updates that set some field other than
      EmailVefiried, whatever the values. */
  lemma ValidateAcceptsIff(u: UserUpdate)
    ensures Validate(u).None? <==> Present(u) - {EmailVerifiedField} != {}
    ensures Validate(u).Some? ==> Validate(u).value == ErrUserUpdateHasNoValues
  {
    if Validate(u).None? {
      if u.Username.Some? { assert UsernameField in Present(u) - {EmailVerifiedField}; }
      else if u.Name.Some? { assert NameField in Present(u) - {EmailVerifiedField}; }
      else if u.Email.Some? { assert EmailField in Present(u) - {EmailVerifiedField}; }
      else if u.Password.Some? { assert PasswordField in Present(u) - {EmailVerifiedField}; }
      else { assert RoleField in Present(u) - {EmailVerifiedField}; }
    } else {
      assert Present(u) <= {EmailVerifiedField};
    }
  }

  /** An update that only sets EmailVefiried is refused. */
  lemma ValidateRefusesOnlyEmailVerified(b: bool)
    ensures Validate(UserUpdate(None, None, None, None, Some(b), None)) == Some(ErrUserUpdateHasNoValues)
  {
  }

  /** The role names are pairwise distinct. */
  lemma RolesDistinct()
    ensures RoleUser != RoleManager && RoleUser != RoleSeller && RoleManager != RoleSeller
  {
    assert RoleUser[0] == 'u' && RoleManager[0] == 'm' && RoleSeller[0] == 's';
  }
}
