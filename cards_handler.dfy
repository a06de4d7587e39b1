/** internal/handler/cards.go: addCard's field checks and the cardId
    parsing of getCard and deleteCard, each followed by its call into the
    cards service, modelled on that service's functions of the tables. The
    request context is the map of values userIdentity stored; a request
    body that does not bind is None. */
module CardsHandler {
  import opened Common
  import opened Decimal
  import opened Handler
  import opened Middleware
  import Users
  import opened CardsService
  import Service

  const ValidationError: HttpError := HttpError(400, "Validation error")
  const CardNotFound: HttpError := HttpError(404, "CardNotFound")

  /** `^\d{16}$`: exactly sixteen ASCII digits. */
  predicate IsCardNumber(s: string)
  {
    |s| == 16 && AllDigits(s)
  }

  /** `^\d{3}$`: exactly three ASCII digits. */
  predicate IsCvv(s: string)
  {
    |s| == 3 && AllDigits(s)
  }

  /** `([01][0-9]|2[0-9])\/[0-9]{2}` on five characters: a digit 0 to 2, a
      digit, '/', two digits. */
  predicate DateShape(e: string)
  {
    |e| == 5 && '0' <= e[0] <= '2' && IsDigit(e[1]) && e[2] == '/' && IsDigit(e[3]) && IsDigit(e[4])
  }

  /** The Data pattern as written: anchored at the end only, so it matches
      when the last five characters have the shape, whatever precedes
      them. */
  predicate IsCardDate(s: string)
  {
    |s| >= 5 && DateShape(s[|s| - 5..])
  }

  /** The three checks in order; the first that fails is the answer. */
  function Validate(card: Card): Option<HttpError>
  {
    if !IsCardNumber(card.Number) then Some(ValidationError)
    else if !IsCvv(card.Cvv) then Some(ValidationError)
    else if !IsCardDate(card.Data) then Some(ValidationError)
    else None
  }

  /** addCard: bind, validate, read the caller's id, create. The answer and
      the cards table afterwards. */
  function AddCard(body: Option<Card>, values: map<string, Value>, t: CardTable, users: Users.Table): (Response<int>, CardTable)
  {
    if body.None? then (Err(InternalServerError), t)
    else if Validate(body.value).Some? then (Err(Validate(body.value).value), t)
    else match GetUserId(values)
      case Err(e) => (Err(e), t)
      case Ok(userId) =>
        var (r, t') := CreateOutcome(t, users, userId, body.value);
        if r.Err? then (Err(InternalServerError), t') else (Ok(r.value), t')
  }

  /** getCard: the path's cardId, then the caller's id, then the lookup. */
  function GetCard(cardId: string, values: map<string, Value>, t: CardTable): Response<Card>
  {
    match Atoi(cardId)
    case None => Err(InternalServerError)
    case Some(id) =>
      match GetUserId(values)
      case Err(e) => Err(e)
      case Ok(userId) =>
        match GetOutcome(t, userId, id)
        case Ok(card) => Ok(card)
        case Err(e) => if e == Service.ErrCardNotFound then Err(CardNotFound) else Err(InternalServerError)
  }

  /** deleteCard: the path's cardId, then the caller's id, then the delete;
      the 200 body is {"condition": "success"}. */
  function DeleteCard(cardId: string, values: map<string, Value>, t: CardTable): (Response<string>, CardTable)
  {
    match Atoi(cardId)
    case None => (Err(InternalServerError), t)
    case Some(id) =>
      match GetUserId(values)
      case Err(e) => (Err(e), t)
      case Ok(userId) =>
        var (e, t') := DeleteOutcome(t, userId, id);
        if e.Some? then (Err(InternalServerError), t') else (Ok("success"), t')
  }

  // ---- Properties ----

  /** Validation passes exactly when all three fields match; any failure is
      400 "Validation error". */
  lemma ValidateIff(card: Card)
    ensures Validate(card).None? <==> IsCardNumber(card.Number) && IsCvv(card.Cvv) && IsCardDate(card.Data)
    ensures Validate(card).Some? ==> Validate(card).value == ValidationError
  {
  }

  /** A body that fails to bind, or fails a check, is answered without
      reading the context or touching the table: the answer is the same for
      every context and every users table, and the cards table is
      unchanged. */
  lemma AddCardChecksFirst(body: Option<Card>, values: map<string, Value>, values': map<string, Value>,
                           t: CardTable, users: Users.Table, users': Users.Table)
    requires body.None? || Validate(body.value).Some?
    ensures AddCard(body, values, t, users) == AddCard(body, values', t, users')
    ensures AddCard(body, values, t, users).1 == t
    ensures body.None? ==> AddCard(body, values, t, users).0 == Err(InternalServerError)
    ensures body.Some? ==> AddCard(body, values, t, users).0 == Err(ValidationError)
  {
  }

  /** A valid card from an identified caller is answered as the service's
      Create decides: its id with 200, any service error as 500; a missing
      caller id is getUserId's 401 and creates nothing. */
  lemma AddCardCreates(card: Card, values: map<string, Value>, t: CardTable, users: Users.Table)
    requires Validate(card).None?
    ensures GetUserId(values).Err? ==> AddCard(Some(card), values, t, users) == (Err(Unauthorized), t)
    ensures GetUserId(values).Ok? ==>
              var (r, t') := CreateOutcome(t, users, GetUserId(values).value, card);
              AddCard(Some(card), values, t, users) == (if r.Ok? then Ok(r.value) else Err(InternalServerError), t')
  {
  }

  /** A cardId strconv.Atoi refuses is a 500 before anything else is read:
      the answer does not depend on the context or the table, and nothing is
      deleted. */
  lemma BadCardIdFirst(cardId: string, values: map<string, Value>, values': map<string, Value>, t: CardTable, t': CardTable)
    requires Atoi(cardId).None?
    ensures GetCard(cardId, values, t) == GetCard(cardId, values', t') == Err(InternalServerError)
    ensures DeleteCard(cardId, values, t) == (Err(InternalServerError), t)
  {
  }

  /** The owner of the first row with the id, if any. */
  function FirstCardOwner(rows: seq<Card>, id: int): Option<int>
  {
    match FirstCard(rows, id)
    case Row(c) => Some(c.UserId)
    case _ => None
  }

  /** getCard answers 200 exactly when the card with the id belongs to the
      caller, and then with that card; the id of a missing card or of
      someone else's card is 404 "CardNotFound", a failing table 500. */
  lemma GetCardAnswers(cardId: string, values: map<string, Value>, t: CardTable)
    requires Atoi(cardId).Some? && GetUserId(values).Ok?
    ensures var r := GetCard(cardId, values, t);
            var id, userId := Atoi(cardId).value, GetUserId(values).value;
            (r.Ok? <==> !t.down && FirstCardOwner(t.rows, id) == Some(userId))
            && (r.Ok? ==> r.value in t.rows && r.value.Id == id && r.value.UserId == userId)
            && (r == Err(InternalServerError) <==> t.down)
            && (r == Err(CardNotFound) <==> !t.down && FirstCardOwner(t.rows, id) != Some(userId))
  {
  }

  /** deleteCard never answers 404: every service refusal, a missing card
      included, is a 500. */
  lemma DeleteCardNever404(cardId: string, values: map<string, Value>, t: CardTable)
    ensures DeleteCard(cardId, values, t).0.Err? ==> DeleteCard(cardId, values, t).0.error.status in {401, 500}
    ensures DeleteCard(cardId, values, t).0.Ok? ==>
              DeleteCard(cardId, values, t).1 == DeleteOutcome(t, GetUserId(values).value, Atoi(cardId).value).1
  {
  }

  // ---- The Data pattern without its start anchor ----

  /** Whatever precedes a well-shaped date, the pattern as written accepts
      it: "x12/34" and "not a date 29/99" pass the check. */
  lemma CardDateUnanchored(p: string, e: string)
    requires DateShape(e)
    ensures IsCardDate(p + e)
  {
    assert (p + e)[|p + e| - 5..] == e;
  }

  lemma CardDateExample()
    ensures IsCardDate("x12/34") && !DateShape("x12/34")
  {
    CardDateUnanchored("x", "12/34");
    assert "x" + "12/34" == "x12/34";
  }

  /** The Data pattern anchored at both ends, as the other two are. */
  predicate IsCardDateFixed(s: string)
  {
    DateShape(s)
  }

  /** The checks with the anchored Data pattern. */
  function ValidateFixed(card: Card): Option<HttpError>
  {
    if !IsCardNumber(card.Number) then Some(ValidationError)
    else if !IsCvv(card.Cvv) then Some(ValidationError)
    else if !IsCardDateFixed(card.Data) then Some(ValidationError)
    else None
  }

  /** The anchored checks accept exactly a sixteen-digit number, a
      three-digit CVV and a five-character date; they accept only cards the
      written checks accept, and the two differ exactly on dates with
      something before the last five characters. */
  lemma ValidateFixedIff(card: Card)
    ensures ValidateFixed(card).None? <==> IsCardNumber(card.Number) && IsCvv(card.Cvv) && |card.Data| == 5 && IsCardDate(card.Data)
    ensures ValidateFixed(card).None? ==> Validate(card).None?
    ensures Validate(card).None? && ValidateFixed(card).Some? ==> |card.Data| > 5
  {
    if |card.Data| == 5 {
      assert card.Data[|card.Data| - 5..] == card.Data;
    }
  }
}
