/** internal/service/cards.go: CardsService over the cards table and the
    users table. The cards repository's four queries are modelled by what
    Postgres does with them; the service's ownership checks and error
    translation are modelled as written. */
module CardsService {
  import opened Common
  import Repository
  import Users
  import opened Service

  /** internal/domain/cards.go. */
  datatype Card = Card(Id: int, Number: string, Data: string, Cvv: string, UserId: int)

  /** The rows of the cards table, whether the database refuses every
      statement, and the id its sequence hands out next. */
  datatype CardTable = CardTable(rows: seq<Card>, down: bool, nextId: int)

  /** Each id names one card, and every id is below the next one, as the
      id sequence keeps them. */
  ghost predicate Valid(t: CardTable)
  {
    (forall c, d :: c in t.rows && d in t.rows && c.Id == d.Id ==> c == d)
    && forall c :: c in t.rows ==> c.Id < t.nextId
  }

  // ---- The cards repository ----

  /** The first row with the id. */
  function FirstCard(rows: seq<Card>, id: int): (r: Repository.QueryOutcome<Card>)
    ensures !r.QueryFailed?
    ensures r.Row? ==> r.value in rows && r.value.Id == id
    ensures r.NoRows? <==> forall c :: c in rows ==> c.Id != id
  {
    if |rows| == 0 then Repository.NoRows
    else if rows[0].Id == id then Repository.Row(rows[0])
    else FirstCard(rows[1..], id)
  }

  /** `SELECT * FROM cards WHERE id = $1`: no row is ErrCardNotFound, any
      other failure ErrInternal. */
  function RepoGet(t: CardTable, id: int): Result<Card, Repository.RepoError>
  {
    if t.down then Err(Repository.ErrInternal)
    else match FirstCard(t.rows, id)
      case Row(c) => Ok(c)
      case _ => Err(Repository.ErrCardNotFound)
  }

  /** The cards of a user, in table order. */
  function CardsOf(rows: seq<Card>, userId: int): (r: seq<Card>)
    ensures forall c :: c in r <==> c in rows && c.UserId == userId
  {
    if |rows| == 0 then []
    else if rows[0].UserId == userId then [rows[0]] + CardsOf(rows[1..], userId)
    else CardsOf(rows[1..], userId)
  }

  /** `SELECT * FROM cards WHERE user_id = $1`. */
  function RepoGetAll(t: CardTable, userId: int): Result<seq<Card>, Repository.RepoError>
  {
    if t.down then Err(Repository.ErrInternal) else Ok(CardsOf(t.rows, userId))
  }

  /** The insert: the card as given under the next id. */
  function RepoCreate(t: CardTable, card: Card): (Result<int, Repository.RepoError>, CardTable)
  {
    if t.down then (Err(Repository.ErrInternal), t)
    else (Ok(t.nextId), CardTable(t.rows + [card.(Id := t.nextId)], false, t.nextId + 1))
  }

  /** The rows without the id. */
  function Without(rows: seq<Card>, id: int): (r: seq<Card>)
    ensures forall c :: c in r <==> c in rows && c.Id != id
    ensures |r| <= |rows|
  {
    if |rows| == 0 then []
    else if rows[0].Id == id then Without(rows[1..], id)
    else [rows[0]] + Without(rows[1..], id)
  }

  /** `DELETE FROM cards WHERE id = $1`; deleting nothing is no error. */
  function RepoDelete(t: CardTable, id: int): (Option<Repository.RepoError>, CardTable)
  {
    if t.down then (Some(Repository.ErrInternal), t)
    else (None, t.(rows := Without(t.rows, id)))
  }

  /** The repository's ErrCardNotFound is the service's, anything else
      ErrInternal. */
  function CardError(e: Repository.RepoError): ServiceError
  {
    if e == Repository.ErrCardNotFound then ErrCardNotFound else ErrInternal
  }

  // ---- The service, as functions of the tables ----

  function GetAllOutcome(t: CardTable, users: Users.Table, userId: int): Result<seq<Card>, ServiceError>
  {
    var check := UserCheck(Users.GetById(users, userId));
    if check.Some? then Err(check.value)
    else match RepoGetAll(t, userId)
      case Err(_) => Err(ErrInternal)
      case Ok(cs) => Ok(cs)
  }

  function GetOutcome(t: CardTable, userId: int, cardId: int): Result<Card, ServiceError>
  {
    match RepoGet(t, cardId)
    case Err(e) => Err(CardError(e))
    case Ok(c) => if c.UserId != userId then Err(ErrCardNotFound) else Ok(c)
  }

  function CreateOutcome(t: CardTable, users: Users.Table, userId: int, card: Card): (Result<int, ServiceError>, CardTable)
  {
    var check := UserCheck(Users.GetById(users, userId));
    if check.Some? then (Err(check.value), t)
    else
      var (id, t') := RepoCreate(t, card);
      if id.Err? then (Err(ErrInternal), t') else (Ok(id.value), t')
  }

  /** Delete as written: the card it checks is the one whose id is the
      user's id. */
  function DeleteOutcome(t: CardTable, userId: int, cardId: int): (Option<ServiceError>, CardTable)
  {
    match RepoGet(t, userId)
    case Err(e) => (Some(CardError(e)), t)
    case Ok(c) =>
      if c.UserId != userId then (Some(ErrCardNotFound), t)
      else
        var (e, t') := RepoDelete(t, cardId);
        if e.Some? then (Some(ErrInternal), t') else (None, t')
  }

  /** The service object: the two tables it reaches through its
      repositories. */
  class CardsService {
    var cards: CardTable
    var users: Users.Table

    constructor(cards: CardTable, users: Users.Table)
      ensures this.cards == cards && this.users == users
    {
      this.cards := cards;
      this.users := users;
    }

    /** GetAll: the user must exist; then the user's cards. */
    method GetAll(userId: int) returns (r: Result<seq<Card>, ServiceError>)
      ensures r == GetAllOutcome(cards, users, userId)
    {
      var check := UserCheck(Users.GetById(users, userId));
      if check.Some? {
        return Err(check.value);
      }
      var listed := RepoGetAll(cards, userId);
      if listed.Err? {
        return Err(ErrInternal);
      }
      return Ok(listed.value);
    }

    /** Get: the card by id, refused unless it is the user's. */
    method Get(userId: int, cardId: int) returns (r: Result<Card, ServiceError>)
      ensures r == GetOutcome(cards, userId, cardId)
    {
      var found := RepoGet(cards, cardId);
      if found.Err? {
        return Err(CardError(found.error));
      }
      if found.value.UserId != userId {
        return Err(ErrCardNotFound);
      }
      return Ok(found.value);
    }

    /** Create: the user must exist; then the insert. */
    method Create(userId: int, card: Card) returns (r: Result<int, ServiceError>)
      modifies this
      ensures (r, cards) == CreateOutcome(old(cards), old(users), userId, card)
      ensures users == old(users)
    {
      var check := UserCheck(Users.GetById(users, userId));
      if check.Some? {
        return Err(check.value);
      }
      var (id, after) := RepoCreate(cards, card);
      cards := after;
      if id.Err? {
        return Err(ErrInternal);
      }
      return Ok(id.value);
    }

    /** Delete, as written. */
    method Delete(userId: int, cardId: int) returns (r: Option<ServiceError>)
      modifies this
      ensures (r, cards) == DeleteOutcome(old(cards), userId, cardId)
      ensures users == old(users)
    {
      var found := RepoGet(cards, userId);
      if found.Err? {
        return Some(CardError(found.error));
      }
      if found.value.UserId != userId {
        return Some(ErrCardNotFound);
      }
      var (e, after) := RepoDelete(cards, cardId);
      cards := after;
      if e.Some? {
        return Some(ErrInternal);
      }
      return None;
    }
  }

  // ---- Properties ----

  /** GetAll answers only after the user lookup: a failed lookup is
      ErrUserNotFound or ErrInternal whatever the cards table holds, and
      otherwise the answer is exactly the user's cards. */
  lemma GetAllChecksUserFirst(t: CardTable, t': CardTable, users: Users.Table, userId: int)
    ensures Users.GetById(users, userId).Err? ==> GetAllOutcome(t, users, userId) == GetAllOutcome(t', users, userId)
    ensures GetAllOutcome(t, users, userId) == Err(ErrUserNotFound) <==>
              !users.down && forall u :: u in users.rows ==> u.Id != userId
    ensures GetAllOutcome(t, users, userId).Ok? ==>
              forall c :: c in GetAllOutcome(t, users, userId).value <==> c in t.rows && c.UserId == userId
    ensures GetAllOutcome(t, users, userId).Ok? <==> Users.GetById(users, userId).Ok? && !t.down
  {
    Users.GetByIdFinds(users, userId);
  }

  /** Get returns a card only to its owner. Another user's card is
      ErrCardNotFound, as a missing card is, and a database failure is
      ErrInternal. */
  lemma GetOwnership(t: CardTable, userId: int, cardId: int)
    ensures GetOutcome(t, userId, cardId).Ok? ==>
              var c := GetOutcome(t, userId, cardId).value;
              c in t.rows && c.Id == cardId && c.UserId == userId
    ensures GetOutcome(t, userId, cardId) == Err(ErrInternal) <==> t.down
    ensures !t.down && (forall c :: c in t.rows ==> c.Id != cardId) ==> GetOutcome(t, userId, cardId) == Err(ErrCardNotFound)
    ensures Valid(t) && !t.down ==>
              (GetOutcome(t, userId, cardId) == Err(ErrCardNotFound) <==>
                 forall c :: c in t.rows && c.Id == cardId ==> c.UserId != userId)
  {
  }

  /** Another user's card answers exactly as if it did not exist. */
  lemma GetHidesOthersCards(t: CardTable, userId: int, cardId: int)
    requires FirstCard(t.rows, cardId).Row? && FirstCard(t.rows, cardId).value.UserId != userId
    ensures GetOutcome(t, userId, cardId) == GetOutcome(t.(rows := Without(t.rows, cardId)), userId, cardId)
  {
  }

  /** Create stores the card with the owner it came with, not the caller: a
      card made by user 1 for user 2 is then refused to user 1. */
  lemma CreateKeepsGivenOwner(t: CardTable, users: Users.Table, card: Card)
    requires !t.down && Users.GetById(users, 1).Ok? && card.UserId == 2 && Valid(t)
    ensures var (r, t') := CreateOutcome(t, users, 1, card);
            r == Ok(t.nextId) && t'.rows == t.rows + [card.(Id := t.nextId)]
            && GetOutcome(t', 1, t.nextId) == Err(ErrCardNotFound)
  {
    var t' := CreateOutcome(t, users, 1, card).1;
    assert forall c :: c in t.rows ==> c.Id != t.nextId;
    FirstCardAppend(t.rows, card.(Id := t.nextId));
  }

  lemma {:induction false} FirstCardAppend(rows: seq<Card>, c: Card)
    requires forall d :: d in rows ==> d.Id != c.Id
    ensures FirstCard(rows + [c], c.Id) == Repository.Row(c)
    decreases |rows|
  {
    if |rows| > 0 {
      assert (rows + [c])[1..] == rows[1..] + [c];
      assert rows[0] in rows;
      FirstCardAppend(rows[1..], c);
    } else {
      assert rows + [c] == [c];
    }
  }

  /** Create reaches the cards table only after the user lookup succeeds,
      and then adds exactly one card, keeping ids unique. */
  lemma CreateEffect(t: CardTable, users: Users.Table, userId: int, card: Card)
    requires Valid(t)
    ensures var (r, t') := CreateOutcome(t, users, userId, card);
            Valid(t')
            && (Users.GetById(users, userId).Err? ==> t' == t && r.Err? && r.error in {ErrUserNotFound, ErrInternal})
            && (r.Ok? <==> Users.GetById(users, userId).Ok? && !t.down)
            && (r.Ok? ==> t'.rows == t.rows + [card.(Id := r.value)] && r.value == t.nextId)
            && (r.Err? ==> t'.rows == t.rows)
  {
  }

  /** Delete as written changes nothing when a check fails, removes only the
      card cardId otherwise, and keeps ids unique. */
  lemma DeleteEffect(t: CardTable, userId: int, cardId: int)
    requires Valid(t)
    ensures var (r, t') := DeleteOutcome(t, userId, cardId);
            Valid(t')
            && (r.Some? ==> t' == t)
            && (r.None? ==> t' == t.(rows := Without(t.rows, cardId)))
            && forall c :: c in t.rows && c.Id != cardId ==> c in t'.rows
  {
  }

  /** Delete as written checks the card whose id is the user's id: user 1,
      owner of card 1, deletes user 2's card 2; and user 3 cannot delete
      their own card 4. */
  lemma DeleteChecksWrongCard(n: string, d: string, v: string)
    ensures var mine, theirs := Card(1, n, d, v, 1), Card(2, n, d, v, 2);
            var t := CardTable([mine, theirs], false, 3);
            DeleteOutcome(t, 1, 2) == (None, t.(rows := [mine]))
    ensures var t := CardTable([Card(4, n, d, v, 3)], false, 5);
            DeleteOutcome(t, 3, 4) == (Some(ErrCardNotFound), t)
  {
    var mine, theirs := Card(1, n, d, v, 1), Card(2, n, d, v, 2);
    assert FirstCard([mine, theirs], 1) == Repository.Row(mine);
    assert [mine, theirs][1..] == [theirs];
    assert Without([theirs], 2) == [];
    assert Without([mine, theirs], 2) == [mine];
  }

  /** Delete as evidently intended: the card checked is cardId. */
  function DeleteFixed(t: CardTable, userId: int, cardId: int): (Option<ServiceError>, CardTable)
  {
    match RepoGet(t, cardId)
    case Err(e) => (Some(CardError(e)), t)
    case Ok(c) =>
      if c.UserId != userId then (Some(ErrCardNotFound), t)
      else
        var (e, t') := RepoDelete(t, cardId);
        if e.Some? then (Some(ErrInternal), t') else (None, t')
  }

  /** The corrected Delete removes a card only for its owner: it succeeds
      exactly when the database works and card cardId exists and is the
      user's, it then removes just that card, and it never removes another
      user's card. */
  lemma DeleteFixedOwnership(t: CardTable, userId: int, cardId: int)
    requires Valid(t)
    ensures var (r, t') := DeleteFixed(t, userId, cardId);
            Valid(t')
            && (r.None? <==> !t.down && exists c :: c in t.rows && c.Id == cardId && c.UserId == userId)
            && (r.Some? ==> t' == t)
            && (r.None? ==> t'.rows == Without(t.rows, cardId))
            && forall c :: c in t.rows && c.UserId != userId ==> c in t'.rows
  {
    GetOwnership(t, userId, cardId);
    var r := DeleteFixed(t, userId, cardId).0;
    if r.None? {
      var c := FirstCard(t.rows, cardId).value;
      assert c in t.rows && c.Id == cardId && c.UserId == userId;
    }
  }
}
