/** internal/handler/middleware.go: the userIdentity middleware, which reads
    the Authorization header, parses the bearer token and stores the caller's
    id and role in the request context, and getUserId/getRole, which read
    them back. The token manager is a parameter: any function from a token
    to claims or a token error. */
module Middleware {
  import opened Common
  import opened Text
  import opened Handler

  /** What ParseAccessToken yields for a good token. */
  datatype Claims = Claims(userId: int, role: string)

  type TokenParser = string -> Result<Claims, TokenError>

  /** A value stored in the Echo context: an int, a string, or something
      else. A key never set is absent from the context's map (c.Get gives
      nil). */
  datatype Value = IntValue(i: int) | StringValue(s: string) | OtherValue

  const NotAuthorized: HttpError := HttpError(401, "Not authorized")
  const TokenExpired: HttpError := HttpError(401, "Token is expired")
  /** getUserId's and getRole's message, spelled as in the source. */
  const Unauthorized: HttpError := HttpError(401, "Unautharized")

  const UserIdKey: string := "userId"
  const RoleKey: string := "role"

  /** The answer to a token the manager refused. */
  function TokenFailure(e: TokenError): HttpError
  {
    match e
    case ErrTokenExpired => TokenExpired
    case ErrTokenInvalid => NotAuthorized
    case OtherTokenError => InternalServerError
  }

  /** The decision userIdentity takes before handing over to the next
      handler: the claims to store, or the error answer. */
  function Authenticate(header: string, parse: TokenParser): Result<Claims, HttpError>
  {
    if header == "" then Err(NotAuthorized)
    else
      var params := Split(header, ' ');
      if |params| < 2 then Err(NotAuthorized)
      else if params[0] != "Bearer" then Err(NotAuthorized)
      else match parse(params[1])
        case Ok(claims) => Ok(claims)
        case Err(e) => Err(TokenFailure(e))
  }

  /** The context after the two c.Set calls. */
  function Stored(values: map<string, Value>, claims: Claims): (r: map<string, Value>)
    ensures r.Keys == values.Keys + {UserIdKey, RoleKey}
    ensures forall k :: k in values && k != UserIdKey && k != RoleKey ==> r[k] == values[k]
  {
    values[UserIdKey := IntValue(claims.userId)][RoleKey := StringValue(claims.role)]
  }

  /** getUserId: the stored id when it is an int. */
  function GetUserId(values: map<string, Value>): Result<int, HttpError>
  {
    if UserIdKey in values && values[UserIdKey].IntValue? then Ok(values[UserIdKey].i)
    else Err(Unauthorized)
  }

  /** getRole: the stored role when it is a string. */
  function GetRole(values: map<string, Value>): Result<string, HttpError>
  {
    if RoleKey in values && values[RoleKey].StringValue? then Ok(values[RoleKey].s)
    else Err(Unauthorized)
  }

  /** The request context, whose values c.Set updates in place. */
  class RequestContext {
    var values: map<string, Value>

    constructor(values: map<string, Value>)
      ensures this.values == values
    {
      this.values := values;
    }

    /** c.Set(key, v). */
    method Set(key: string, v: Value)
      modifies this
      ensures values == old(values)[key := v]
    {
      values := values[key := v];
    }
  }

  /** userIdentity on one request. None means the next handler runs, on the
      context with the caller's id and role stored; otherwise the error is
      the answer and the context is untouched. */
  method UserIdentity(c: RequestContext, header: string, parse: TokenParser) returns (r: Option<HttpError>)
    modifies c
    ensures r.None? <==> Authenticate(header, parse).Ok?
    ensures r.Some? ==> r.value == Authenticate(header, parse).error && c.values == old(c.values)
    ensures r.None? ==> c.values == Stored(old(c.values), Authenticate(header, parse).value)
  {
    match Authenticate(header, parse)
    case Err(e) =>
      r := Some(e);
    case Ok(claims) =>
      c.Set(UserIdKey, IntValue(claims.userId));
      c.Set(RoleKey, StringValue(claims.role));
      r := None;
  }

  // ---- Properties ----

  /** The header is accepted exactly when it splits on spaces into at least
      two parts, the first exactly "Bearer", and the second a token the
      manager accepts; the claims are then the token's. Every refusal is a
      401, except a token failure other than expired or invalid, which is
      the only 500. */
  lemma AuthenticateIff(header: string, parse: TokenParser)
    ensures var params := Split(header, ' ');
            Authenticate(header, parse).Ok? <==> |params| >= 2 && params[0] == "Bearer" && parse(params[1]).Ok?
    ensures var params := Split(header, ' ');
            Authenticate(header, parse).Ok? ==> Authenticate(header, parse).value == parse(params[1]).value
    ensures var params := Split(header, ' ');
            Authenticate(header, parse).Err? ==>
              (Authenticate(header, parse).error.status == 500 <==>
                 |params| >= 2 && params[0] == "Bearer" && parse(params[1]) == Err(OtherTokenError))
    ensures Authenticate(header, parse).Err? ==> Authenticate(header, parse).error.status in {401, 500}
  {
    if header == "" {
      assert Split(header, ' ') == [""];
    }
  }

  /** After "Bearer " the token is everything up to the next space: later
      parts are ignored, and a header of just "Bearer " parses the empty
      token. */
  lemma BearerToken(t: string, parse: TokenParser)
    ensures Authenticate("Bearer " + t, parse) == Authenticate("Bearer " + Split(t, ' ')[0], parse)
    ensures var token := Split(t, ' ')[0];
            Authenticate("Bearer " + t, parse) ==
              match parse(token)
              case Ok(claims) => Ok(claims)
              case Err(e) => Err(TokenFailure(e))
  {
    BearerSplit(t);
    var token := Split(t, ' ')[0];
    SplitPieces(t, ' ');
    assert forall j :: 0 <= j < |token| ==> token[j] != ' ';
    SplitNoSeparator(token, ' ');
    BearerSplit(token);
  }

  lemma BearerSplit(t: string)
    ensures Split("Bearer " + t, ' ') == ["Bearer"] + Split(t, ' ')
  {
    assert "Bearer " + t == "Bearer" + [' '] + t;
    SplitAfterPrefix("Bearer", ' ', t);
  }

  /** Any first word other than "Bearer" is refused before the token is
      looked at: the scheme check is exact and case-sensitive. */
  lemma SchemeRefused(w: string, t: string, parse: TokenParser)
    requires forall j :: 0 <= j < |w| ==> w[j] != ' '
    requires w != "Bearer"
    ensures Authenticate(w + " " + t, parse) == Err(NotAuthorized)
  {
    assert w + " " + t == w + [' '] + t;
    SplitAfterPrefix(w, ' ', t);
  }

  /** Parts after the token are ignored: "Bearer a b" parses "a". */
  lemma LaterPartsIgnored(a: string, b: string, parse: TokenParser)
    requires forall j :: 0 <= j < |a| ==> a[j] != ' '
    ensures Authenticate("Bearer " + a + " " + b, parse) == Authenticate("Bearer " + a, parse)
    ensures Authenticate("Bearer " + a, parse) == (if parse(a).Ok? then Ok(parse(a).value) else Err(TokenFailure(parse(a).error)))
  {
    assert "Bearer " + a + " " + b == "Bearer " + (a + [' '] + b);
    SplitAfterPrefix(a, ' ', b);
    BearerToken(a + [' '] + b, parse);
    SplitNoSeparator(a, ' ');
    BearerToken(a, parse);
  }

  /** "Bearer " with nothing after it parses the empty token. */
  lemma EmptyToken(parse: TokenParser)
    ensures Authenticate("Bearer ", parse) == (if parse("").Ok? then Ok(parse("").value) else Err(TokenFailure(parse("").error)))
  {
    assert "Bearer " == "Bearer " + "";
    BearerToken("", parse);
  }

  /** A header without a space, "Bearer" alone among them, is refused
      without parsing anything. */
  lemma OneWordRefused(header: string, parse: TokenParser)
    requires forall j :: 0 <= j < |header| ==> header[j] != ' '
    ensures Authenticate(header, parse) == Err(NotAuthorized)
  {
    SplitNoSeparator(header, ' ');
  }

  /** What userIdentity stores is what getUserId and getRole read back. */
  lemma StoredClaimsRead(values: map<string, Value>, claims: Claims)
    ensures GetUserId(Stored(values, claims)) == Ok(claims.userId)
    ensures GetRole(Stored(values, claims)) == Ok(claims.role)
  {
  }

  /** getUserId succeeds exactly when an int is stored under "userId", and
      getRole exactly when a string is stored under "role"; each refusal is
      401. */
  lemma ReadBackIff(values: map<string, Value>)
    ensures GetUserId(values).Ok? <==> exists i :: UserIdKey in values && values[UserIdKey] == IntValue(i)
    ensures GetUserId(values).Ok? ==> values[UserIdKey] == IntValue(GetUserId(values).value)
    ensures GetUserId(values).Err? ==> GetUserId(values).error.status == 401
    ensures GetRole(values).Ok? <==> exists s :: RoleKey in values && values[RoleKey] == StringValue(s)
    ensures GetRole(values).Ok? ==> values[RoleKey] == StringValue(GetRole(values).value)
    ensures GetRole(values).Err? ==> GetRole(values).error.status == 401
  {
    if GetUserId(values).Ok? {
      assert values[UserIdKey] == IntValue(values[UserIdKey].i);
    }
    if GetRole(values).Ok? {
      assert values[RoleKey] == StringValue(values[RoleKey].s);
    }
  }
}
