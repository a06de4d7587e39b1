/** internal/handler/auth.go: what SignUp, SignIn, Refresh, Logout,
    LogoutAll and Verification answer for each outcome of the binding and of
    the auth service call. The auth service is not part of this model: its
    outcome is a parameter. errors.Is on these unwrapped sentinels is
    equality, so each error is one value of an enumeration. */
module AuthHandler {
  import opened Common
  import opened Handler

  /** The service sentinels the handlers test, and any other error. */
  datatype AuthError =
    | ErrEmailAlreadyInUse
    | ErrUsernameAlreadyInUse
    | ErrInvalidEmailOrPassowrd
    | ErrSessionInvalidOrExpired
    | ErrInternal
    | ErrUserNotFound
    | OtherError

  datatype Tokens = Tokens(AccessToken: string, RefreshToken: string)

  datatype Cookie = Cookie(Name: string, Value: string, HttpOnly: bool)

  const BadRequest: HttpError := HttpError(400, "Bad request")
  const Unauthorized: HttpError := HttpError(401, "Unauthorized")

  /** An answer, and the cookie the handler set before it. */
  datatype Answer<T> = Answer(response: Response<T>, cookie: Option<Cookie>)

  /** The refresh-token cookie a successful SignIn or Refresh sets. */
  function RefreshCookie(ts: Tokens): Cookie
  {
    Cookie("refreshToken", ts.RefreshToken, true)
  }

  /** SignUp; bound is whether the body bound, result what the service
      returned. */
  function SignUp(bound: bool, result: Result<int, AuthError>): Response<int>
  {
    if !bound then Err(BadRequest)
    else match result
      case Ok(id) => Ok(id)
      case Err(e) =>
        if e == ErrEmailAlreadyInUse then Err(HttpError(409, "Email already in use"))
        else if e == ErrUsernameAlreadyInUse then Err(HttpError(409, "Username already in use"))
        else Err(InternalServerError)
  }

  function SignIn(bound: bool, result: Result<Tokens, AuthError>): Answer<Tokens>
  {
    if !bound then Answer(Err(BadRequest), None)
    else match result
      case Err(e) =>
        if e == ErrInvalidEmailOrPassowrd then Answer(Err(HttpError(401, "Invalid username or password")), None)
        else Answer(Err(Unauthorized), None)
      case Ok(ts) => Answer(Ok(ts), Some(RefreshCookie(ts)))
  }

  /** Refresh; the refresh token comes from the request's cookie, which the
      generated wrapper has already read. */
  function Refresh(result: Result<Tokens, AuthError>): Answer<Tokens>
  {
    match result
    case Err(e) =>
      if e == ErrSessionInvalidOrExpired then Answer(Err(Unauthorized), None)
      else if e == ErrInternal then Answer(Err(InternalServerError), None)
      else Answer(Err(Unauthorized), None)
    case Ok(ts) => Answer(Ok(ts), Some(RefreshCookie(ts)))
  }

  /** Logout; the 200 body is {"Message": "ok"}. */
  function Logout(result: Option<AuthError>): Response<string>
  {
    match result
    case None => Ok("ok")
    case Some(e) => if e == ErrSessionInvalidOrExpired then Err(Unauthorized) else Err(InternalServerError)
  }

  /** LogoutAll has Logout's decision table. */
  function LogoutAll(result: Option<AuthError>): Response<string>
  {
    Logout(result)
  }

  /** Verification. The query parameter is a pointer that is dereferenced
      unchecked; a missing one (None) panics. The e-mail token manager and
      the service's VerifyEmail are parameters. */
  function Verification(token: Option<string>, parse: string -> Result<string, TokenError>,
                        verify: string -> Option<AuthError>): Outcome<Response<string>>
  {
    if token.None? then Panicked
    else if token.value == "" then Returned(Err(HttpError(401, "No authorized")))
    else match parse(token.value)
      case Err(e) =>
        if e == ErrTokenExpired then Returned(Err(HttpError(401, "Token is expired")))
        else if e == ErrTokenInvalid then Returned(Err(HttpError(401, "Token is invalid")))
        else Returned(Err(InternalServerError))
      case Ok(email) =>
        match verify(email)
        case None => Returned(Ok("ok"))
        case Some(e) =>
          if e == ErrUserNotFound then Returned(Err(HttpError(401, "User not found")))
          else Returned(Err(InternalServerError))
  }

  // ---- Properties ----

  /** A body that does not bind is 400 "Bad request" whatever the service
      would have returned, and SignIn then sets no cookie. */
  lemma BindFailsFirst(r: Result<int, AuthError>, r': Result<int, AuthError>, s: Result<Tokens, AuthError>, s': Result<Tokens, AuthError>)
    ensures SignUp(false, r) == SignUp(false, r') == Err(BadRequest)
    ensures SignIn(false, s) == SignIn(false, s') == Answer(Err(BadRequest), None)
  {
  }

  /** SignUp passes the new id through; its 409s are exactly the two
      "already in use" errors, and every other error is 500. */
  lemma SignUpTable(result: Result<int, AuthError>)
    ensures SignUp(true, result).Ok? <==> result.Ok?
    ensures SignUp(true, result).Ok? ==> SignUp(true, result).value == result.value
    ensures SignUp(true, result).Err? ==>
              (SignUp(true, result).error.status == 409 <==>
                 result.error == ErrEmailAlreadyInUse || result.error == ErrUsernameAlreadyInUse)
    ensures SignUp(true, result).Err? ==> SignUp(true, result).error.status in {409, 500}
  {
  }

  /** SignIn never answers 500: a refused sign-in is 401 and a bad body 400.
      The cookie is set exactly on success, and carries the refresh
      token. */
  lemma SignInNever500(bound: bool, result: Result<Tokens, AuthError>)
    ensures SignIn(bound, result).response.Err? ==> SignIn(bound, result).response.error.status in {400, 401}
    ensures SignIn(bound, result).response.Ok? <==> bound && result.Ok?
    ensures SignIn(bound, result).cookie.Some? <==> SignIn(bound, result).response.Ok?
    ensures SignIn(bound, result).response.Ok? ==>
              SignIn(bound, result).response.value == result.value
              && SignIn(bound, result).cookie == Some(Cookie("refreshToken", result.value.RefreshToken, true))
  {
  }

  /** Refresh is 500 exactly for the service's ErrInternal and 401 for
      every other error; the cookie is set exactly on success, and carries
      the new refresh token. */
  lemma RefreshTable(result: Result<Tokens, AuthError>)
    ensures Refresh(result).response.Err? <==> result.Err?
    ensures Refresh(result).response.Err? ==>
              (Refresh(result).response.error.status == 500 <==> result.error == ErrInternal)
              && Refresh(result).response.error.status in {401, 500}
    ensures Refresh(result).cookie.Some? <==> result.Ok?
    ensures result.Ok? ==>
              Refresh(result).response == Ok(result.value)
              && Refresh(result).cookie == Some(Cookie("refreshToken", result.value.RefreshToken, true))
  {
  }

  /** Logout and LogoutAll are 401 exactly for an invalid or expired
      session, and 500 for every other error. */
  lemma LogoutTable(result: Option<AuthError>)
    ensures Logout(result).Ok? <==> result.None?
    ensures Logout(result).Err? ==>
              (Logout(result).error.status == 401 <==> result.value == ErrSessionInvalidOrExpired)
              && Logout(result).error.status in {401, 500}
    ensures LogoutAll(result) == Logout(result)
  {
  }

  /** An empty token is refused before it is parsed: the answer is the same
      for every token manager and every service. */
  lemma VerificationEmptyToken(parse: string -> Result<string, TokenError>, parse': string -> Result<string, TokenError>,
                               verify: string -> Option<AuthError>, verify': string -> Option<AuthError>)
    ensures Verification(Some(""), parse, verify) == Verification(Some(""), parse', verify')
    ensures Verification(Some(""), parse, verify) == Returned(Err(HttpError(401, "No authorized")))
  {
  }

  /** VerifyEmail sees only the e-mail the token named: two services that
      agree on that address give the same answer, and a token that does
      not parse never reaches the service. */
  lemma VerificationUsesParsedEmail(token: string, parse: string -> Result<string, TokenError>,
                                    verify: string -> Option<AuthError>, verify': string -> Option<AuthError>)
    requires token != "" && (parse(token).Ok? ==> verify(parse(token).value) == verify'(parse(token).value))
    ensures Verification(Some(token), parse, verify) == Verification(Some(token), parse, verify')
  {
  }

  /** The statuses of Verification: 200 exactly when the token parses and
      the address verifies; a refused token or an unknown user is 401; any
      other failure is 500. */
  lemma VerificationTable(token: string, parse: string -> Result<string, TokenError>, verify: string -> Option<AuthError>)
    ensures Verification(Some(token), parse, verify).Returned?
    ensures var r := Verification(Some(token), parse, verify).value;
            (r.Ok? <==> token != "" && parse(token).Ok? && verify(parse(token).value).None?)
            && (r.Err? ==> r.error.status in {401, 500})
            && (r.Err? ==>
                  (r.error.status == 500 <==>
                     token != "" &&
                     (parse(token) == Err(OtherTokenError)
                      || (parse(token).Ok? && verify(parse(token).value).Some? && verify(parse(token).value) != Some(ErrUserNotFound)))))
  {
  }
}
