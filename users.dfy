/** internal/repository/users.go: the users table behind UsersRepository.
    A query's effect on the table is modelled by what Postgres does with the
    statement the repository builds; rows are kept in scan order. */
module Users {
  import opened Common
  import opened Repository
  import opened InternalDomainUsers
  import opened Sql

  /** The rows of the users table, and whether the database refuses every
      statement (a lost connection, a failed scan). */
  datatype Table = Table(rows: seq<User>, down: bool)

  /** The columns of the table (the db tags of User). */
  predicate IsColumn(column: string)
  {
    column in {"id", "username", "name", "email", "hash_password", "email_verified", "role"}
  }

  /** A row's value in a column. */
  function ColumnValue(u: User, column: string): (v: Option<SqlArg>)
    ensures v.Some? <==> IsColumn(column)
  {
    if column == "id" then Some(Int(u.Id))
    else if column == "username" then Some(Text(u.Username))
    else if column == "name" then Some(Text(u.Name))
    else if column == "email" then Some(Text(u.Email))
    else if column == "hash_password" then Some(Text(u.Password))
    else if column == "email_verified" then Some(Bool(u.EmailVerified))
    else if column == "role" then Some(Text(u.Role))
    else None
  }

  /** The first row whose column equals the argument. */
  function FirstMatch(rows: seq<User>, column: string, arg: SqlArg): (r: QueryOutcome<User>)
    ensures !r.QueryFailed?
    ensures r.Row? ==> r.value in rows && ColumnValue(r.value, column) == Some(arg)
    ensures r.NoRows? <==> forall u :: u in rows ==> ColumnValue(u, column) != Some(arg)
  {
    if |rows| == 0 then NoRows
    else if ColumnValue(rows[0], column) == Some(arg) then Row(rows[0])
    else FirstMatch(rows[1..], column, arg)
  }

  /** A row added at the end is found only when no earlier row matches. */
  lemma {:induction false} FirstMatchAppend(rows: seq<User>, u: User, column: string, arg: SqlArg)
    requires forall v :: v in rows ==> ColumnValue(v, column) != Some(arg)
    requires ColumnValue(u, column) == Some(arg)
    ensures FirstMatch(rows + [u], column, arg) == Row(u)
    decreases |rows|
  {
    if |rows| > 0 {
      assert (rows + [u])[1..] == rows[1..] + [u];
      assert rows[0] in rows;
      FirstMatchAppend(rows[1..], u, column, arg);
    } else {
      assert rows + [u] == [u];
    }
  }

  /** `SELECT * FROM users WHERE column = $1` scanned into one User: the
      first matching row; a column the table lacks is an SQL error. */
  function Select(t: Table, column: string, arg: SqlArg): QueryOutcome<User>
  {
    if t.down || !IsColumn(column) then QueryFailed else FirstMatch(t.rows, column, arg)
  }

  /** The error mapping of get and Update: sql.ErrNoRows is ErrUserNotFound,
      any other failure ErrInternal. */
  function FromRow(q: QueryOutcome<User>): (r: Result<User, RepoError>)
    ensures r.Ok? <==> q.Row?
    ensures r.Ok? ==> r.value == q.value
    ensures r.Err? ==> r.error == (if q.NoRows? then ErrUserNotFound else ErrInternal)
  {
    match q
    case Row(u) => Ok(u)
    case NoRows => Err(ErrUserNotFound)
    case QueryFailed => Err(ErrInternal)
  }

  /** get(ctx, key, value). */
  function Get(t: Table, key: string, arg: SqlArg): Result<User, RepoError>
  {
    FromRow(Select(t, key, arg))
  }

  function GetById(t: Table, id: int): Result<User, RepoError>
  {
    Get(t, "id", Int(id))
  }

  function GetByEmail(t: Table, email: string): Result<User, RepoError>
  {
    Get(t, "email", Text(email))
  }

  function GetByUserName(t: Table, username: string): Result<User, RepoError>
  {
    Get(t, "username", Text(username))
  }

  /** GetById finds a row with that id; it reports ErrUserNotFound exactly
      when there is none, and ErrInternal exactly when the database fails. */
  lemma GetByIdFinds(t: Table, id: int)
    ensures GetById(t, id).Ok? ==> GetById(t, id).value in t.rows && GetById(t, id).value.Id == id
    ensures GetById(t, id) == Err(ErrUserNotFound) <==> !t.down && forall u :: u in t.rows ==> u.Id != id
    ensures GetById(t, id) == Err(ErrInternal) <==> t.down
  {
    assert forall u :: ColumnValue(u, "id") == Some(Int(u.Id));
  }

  /** GetByEmail finds a row with that email, by the same rules. */
  lemma GetByEmailFinds(t: Table, email: string)
    ensures GetByEmail(t, email).Ok? ==> GetByEmail(t, email).value in t.rows && GetByEmail(t, email).value.Email == email
    ensures GetByEmail(t, email) == Err(ErrUserNotFound) <==> !t.down && forall u :: u in t.rows ==> u.Email != email
    ensures GetByEmail(t, email) == Err(ErrInternal) <==> t.down
  {
    assert forall u :: ColumnValue(u, "email") == Some(Text(u.Email));
  }

  /** GetByUserName finds a row with that username, by the same rules. */
  lemma GetByUserNameFinds(t: Table, username: string)
    ensures GetByUserName(t, username).Ok? ==> GetByUserName(t, username).value in t.rows && GetByUserName(t, username).value.Username == username
    ensures GetByUserName(t, username) == Err(ErrUserNotFound) <==> !t.down && forall u :: u in t.rows ==> u.Username != username
    ensures GetByUserName(t, username) == Err(ErrInternal) <==> t.down
  {
    assert forall u :: ColumnValue(u, "username") == Some(Text(u.Username));
  }

  // ---- Create ----

  /** `INSERT INTO users (email, username, name, hash_password) ... RETURNING
      id`: the database picks the id and fills email_verified and role with
      their column defaults, all three given here; a failure is ErrInternal. */
  function Create(t: Table, user: User, id: int, verified: bool, role: string): (Result<int, RepoError>, Table)
  {
    if t.down then (Err(ErrInternal), t)
    else (Ok(id), Table(t.rows + [User(id, user.Username, user.Name, user.Email, user.Password, verified, role)], false))
  }

  /** A created user is found again by the id Create returns. */
  lemma CreateThenGetById(t: Table, user: User, id: int, verified: bool, role: string)
    requires !t.down && forall u :: u in t.rows ==> u.Id != id
    ensures var created := Create(t, user, id, verified, role);
            created.0 == Ok(id)
            && GetById(created.1, id) == Ok(User(id, user.Username, user.Name, user.Email, user.Password, verified, role))
  {
    var row := User(id, user.Username, user.Name, user.Email, user.Password, verified, role);
    FirstMatchAppend(t.rows, row, "id", Int(id));
  }

  /** A failed insert reports ErrInternal and adds nothing. */
  lemma CreateFailure(t: Table, user: User, id: int, verified: bool, role: string)
    requires t.down
    ensures Create(t, user, id, verified, role) == (Err(ErrInternal), t)
  {
  }

  // ---- Update ----

  /** An UPDATE statement: the SET terms, the arguments in order, and the
      placeholder index of the WHERE id. */
  datatype UpdateQuery = UpdateQuery(sets: seq<Term>, args: seq<SqlArg>, where: nat)

  /** The columns Postgres lets Update assign, all of type text. */
  predicate TextColumn(column: string)
  {
    column in {"username", "name", "email", "hash_password", "role"}
  }

  /** A statement Postgres accepts: a non-empty SET list of `col = $i` on
      text columns with text arguments, every placeholder among the
      arguments, and an integer id. */
  predicate Accepted(q: UpdateQuery)
  {
    |q.sets| > 0
    && (forall i :: 0 <= i < |q.sets| ==>
          q.sets[i].op == "=" && TextColumn(q.sets[i].column)
          && Bound(q.sets[i].index, q.args) && q.args[q.sets[i].index - 1].Text?)
    && Bound(q.where, q.args) && q.args[q.where - 1].Int?
  }

  function SetText(u: User, column: string, s: string): User
  {
    if column == "username" then u.(Username := s)
    else if column == "name" then u.(Name := s)
    else if column == "email" then u.(Email := s)
    else if column == "hash_password" then u.(Password := s)
    else u.(Role := s)
  }

  /** The SET list applied left to right to one row. */
  function ApplySets(u: User, sets: seq<Term>, args: seq<SqlArg>): User
    requires forall i :: 0 <= i < |sets| ==> Bound(sets[i].index, args) && args[sets[i].index - 1].Text?
    decreases |sets|
  {
    if |sets| == 0 then u
    else
      assert Bound(sets[0].index, args);
      ApplySets(SetText(u, sets[0].column, args[sets[0].index - 1].s), sets[1..], args)
  }

  /** Every row with the id gets the SET list. */
  function UpdateRows(rows: seq<User>, id: int, sets: seq<Term>, args: seq<SqlArg>): (r: seq<User>)
    requires forall i :: 0 <= i < |sets| ==> Bound(sets[i].index, args) && args[sets[i].index - 1].Text?
    ensures |r| == |rows|
    ensures forall i :: 0 <= i < |rows| ==> r[i] == if rows[i].Id == id then ApplySets(rows[i], sets, args) else rows[i]
  {
    if |rows| == 0 then []
    else [if rows[0].Id == id then ApplySets(rows[0], sets, args) else rows[0]] + UpdateRows(rows[1..], id, sets, args)
  }

  /** `UPDATE users u SET ... WHERE id = $w RETURNING u.*` scanned into one
      User: an error for a statement Postgres refuses, no rows when no row
      has the id, else the first updated row; the table changes only when the
      statement runs. */
  function RunUpdate(t: Table, q: UpdateQuery): (QueryOutcome<User>, Table)
  {
    if t.down || !Accepted(q) then (QueryFailed, t)
    else
      var id := q.args[q.where - 1].i;
      match FirstMatch(t.rows, "id", Int(id))
      case Row(u) => (Row(ApplySets(u, q.sets, q.args)), Table(UpdateRows(t.rows, id, q.sets, q.args), false))
      case _ => (NoRows, t)
  }

  /** The assignments Update makes, in the order of the source, each with
      the value it binds: the "name" assignment reads *data.Email, so setting
      Name without Email dereferences a nil pointer (None). */
  function WrittenAssignments(d: UserUpdate): Option<seq<(string, string)>>
  {
    if d.Name.Some? && d.Email.None? then None
    else Some((if d.Email.Some? then [("email", d.Email.value)] else [])
              + (if d.Name.Some? then [("name", d.Email.value)] else [])
              + (if d.Password.Some? then [("password", d.Password.value)] else [])
              + (if d.Username.Some? then [("username", d.Username.value)] else []))
  }

  /** `col =` for each assignment. */
  function Sets(fs: seq<(string, string)>): (r: seq<(string, string)>)
    ensures |r| == |fs| && forall i :: 0 <= i < |fs| ==> r[i] == (fs[i].0, "=")
  {
    if |fs| == 0 then [] else [(fs[0].0, "=")] + Sets(fs[1..])
  }

  /** The value of each assignment, in order. */
  function Args(fs: seq<(string, string)>): (r: seq<SqlArg>)
    ensures |r| == |fs| && forall i :: 0 <= i < |fs| ==> r[i] == Text(fs[i].1)
  {
    if |fs| == 0 then [] else [Text(fs[0].1)] + Args(fs[1..])
  }

  /** The statement Update builds: `col = $i` for i = 1 .. k, then the k
      values and the id, and WHERE id = $(k + 2). */
  function UpdateQueryAsWritten(id: int, d: UserUpdate): Outcome<UpdateQuery>
  {
    match WrittenAssignments(d)
    case None => Panicked
    case Some(fs) => Returned(UpdateQuery(Number(Sets(fs), 1), Args(fs) + [Int(id)], |fs| + 2))
  }

  function UpdateOutcome(t: Table, id: int, d: UserUpdate): (Outcome<Result<User, RepoError>>, Table)
  {
    match UpdateQueryAsWritten(id, d)
    case Panicked => (Panicked, t)
    case Returned(q) =>
      var run := RunUpdate(t, q);
      (Returned(FromRow(run.0)), run.1)
  }

  /** Update as written, step by step: the terms grow through addProp, the
      id goes after the values, and the WHERE uses argId + 1. */
  method Update(t: Table, id: int, data: UserUpdate) returns (r: Outcome<Result<User, RepoError>>, after: Table)
    ensures (r, after) == UpdateOutcome(t, id, data)
  {
    var names: seq<Term> := [];
    var values: seq<SqlArg> := [];
    var argId: nat := 1;
    ghost var fs: seq<(string, string)> := [];
    if data.Email.Some? {
      AddStep(fs, names, values, argId, "email", data.Email.value);
      names, values, argId := AddProp(names, values, argId, "email", "=", Text(data.Email.value));
      fs := fs + [("email", data.Email.value)];
    }
    assert fs == Written(data, 1);
    if data.Name.Some? {
      if data.Email.None? {
        return Panicked, t;
      }
      AddStep(fs, names, values, argId, "name", data.Email.value);
      names, values, argId := AddProp(names, values, argId, "name", "=", Text(data.Email.value));
      fs := fs + [("name", data.Email.value)];
    }
    assert fs == Written(data, 2);
    if data.Password.Some? {
      AddStep(fs, names, values, argId, "password", data.Password.value);
      names, values, argId := AddProp(names, values, argId, "password", "=", Text(data.Password.value));
      fs := fs + [("password", data.Password.value)];
    }
    assert fs == Written(data, 3);
    if data.Username.Some? {
      AddStep(fs, names, values, argId, "username", data.Username.value);
      names, values, argId := AddProp(names, values, argId, "username", "=", Text(data.Username.value));
      fs := fs + [("username", data.Username.value)];
    }
    assert fs == Written(data, 4);
    WrittenWhole(data);
    UpdateTail(t, id, data, fs, names, values, argId);
    values := values + [Int(id)];
    var q := UpdateQuery(names, values, argId + 1);
    var run := RunUpdate(t, q);
    r := Returned(FromRow(run.0));
    after := run.1;
  }

  /** The assignments of the first k of Update's four steps (email, name,
      password, username), for an update that does not panic. */
  ghost function Written(d: UserUpdate, k: nat): seq<(string, string)>
    requires k <= 4
  {
    if k == 0 then [] else Written(d, k - 1) + Step(d, k - 1)
  }

  /** The assignment Update's step k makes, if any. */
  ghost function Step(d: UserUpdate, k: nat): seq<(string, string)>
  {
    if k == 0 then (if d.Email.Some? then [("email", d.Email.value)] else [])
    else if k == 1 then (if d.Name.Some? && d.Email.Some? then [("name", d.Email.value)] else [])
    else if k == 2 then (if d.Password.Some? then [("password", d.Password.value)] else [])
    else (if d.Username.Some? then [("username", d.Username.value)] else [])
  }

  lemma WrittenWhole(d: UserUpdate)
    ensures WrittenAssignments(d).Some? ==> WrittenAssignments(d) == Some(Written(d, 4))
  {
    assert Written(d, 4) == Written(d, 3) + Step(d, 3);
    assert Written(d, 3) == Written(d, 2) + Step(d, 2);
    assert Written(d, 2) == Written(d, 1) + Step(d, 1);
    assert Written(d, 1) == [] + Step(d, 0);
    assert [] + Step(d, 0) == Step(d, 0);
    if WrittenAssignments(d).Some? {
      assert Step(d, 1) == if d.Name.Some? then [("name", d.Email.value)] else [];
    }
  }

  /** Once the assignments are collected, the statement Update runs is the
      one UpdateQueryAsWritten describes. */
  lemma UpdateTail(t: Table, id: int, d: UserUpdate, fs: seq<(string, string)>, names: seq<Term>, values: seq<SqlArg>, argId: nat)
    requires Steps(fs, names, values, argId)
    requires WrittenAssignments(d) == Some(fs)
    ensures var run := RunUpdate(t, UpdateQuery(names, values + [Int(id)], argId + 1));
            UpdateOutcome(t, id, d) == (Returned(FromRow(run.0)), run.1)
  {
  }

  /** What Update's locals hold after the assignments fs. */
  ghost predicate Steps(fs: seq<(string, string)>, names: seq<Term>, values: seq<SqlArg>, argId: nat)
  {
    names == Number(Sets(fs), 1) && values == Args(fs) && argId == |fs| + 1
  }

  /** One addProp step keeps Steps. */
  lemma AddStep(fs: seq<(string, string)>, names: seq<Term>, values: seq<SqlArg>, argId: nat, name: string, value: string)
    requires Steps(fs, names, values, argId)
    ensures Steps(fs + [(name, value)], names + [Term(name, "=", argId)], values + [Text(value)], argId + 1)
  {
    SetsSnoc(fs, (name, value));
    ArgsSnoc(fs, (name, value));
    NumberSnoc(Sets(fs), (name, "="), 1);
  }

  lemma SetsSnoc(fs: seq<(string, string)>, f: (string, string))
    ensures Sets(fs + [f]) == Sets(fs) + [(f.0, "=")]
  {
    var l, r := Sets(fs + [f]), Sets(fs) + [(f.0, "=")];
    forall i | 0 <= i < |l| ensures l[i] == r[i] {
      if i < |fs| { assert (fs + [f])[i] == fs[i]; }
    }
  }

  lemma ArgsSnoc(fs: seq<(string, string)>, f: (string, string))
    ensures Args(fs + [f]) == Args(fs) + [Text(f.1)]
  {
    var l, r := Args(fs + [f]), Args(fs) + [Text(f.1)];
    forall i | 0 <= i < |l| ensures l[i] == r[i] {
      if i < |fs| { assert (fs + [f])[i] == fs[i]; }
    }
  }

  /** The shape of the statement as written: `col = $1` .. `col = $k` over the
      assigned columns, the k values followed by the id, and a WHERE
      placeholder one past the last argument. */
  lemma UpdateShape(id: int, d: UserUpdate)
    requires UpdateQueryAsWritten(id, d).Returned?
    ensures var q := UpdateQueryAsWritten(id, d).value;
            var fs := WrittenAssignments(d).value;
            |q.sets| == |fs| && |q.args| == |fs| + 1 && q.args[|fs|] == Int(id)
            && (forall i :: 0 <= i < |fs| ==> RenderTerm(q.sets[i]) == fs[i].0 + " = " + Placeholder(i + 1))
            && q.where == |q.args| + 1
  {
  }

  /** The value bound for the "name" column is the new email. */
  lemma UpdateNameBindsEmail(id: int, d: UserUpdate)
    requires d.Name.Some? && d.Email.Some?
    ensures var q := UpdateQueryAsWritten(id, d).value;
            UpdateQueryAsWritten(id, d).Returned?
            && q.sets[1].column == "name" && q.args[q.sets[1].index - 1] == Text(d.Email.value)
  {
  }

  /** As written, Update never succeeds: it panics exactly when Name is set
      without Email, and otherwise its WHERE names a placeholder no argument
      fills, so Postgres refuses the statement, the table stays as it was and
      the caller gets ErrInternal. */
  lemma UpdateAsWrittenFails(t: Table, id: int, d: UserUpdate)
    ensures UpdateOutcome(t, id, d).0.Panicked? <==> d.Name.Some? && d.Email.None?
    ensures UpdateOutcome(t, id, d).0.Returned? ==> UpdateOutcome(t, id, d) == (Returned(Err(ErrInternal)), t)
  {
    if UpdateQueryAsWritten(id, d).Returned? {
      var q := UpdateQueryAsWritten(id, d).value;
      assert !Bound(q.where, q.args);
    }
  }

  /** Update evidently meant to bind *data.Name for "name", to assign the
      table's hash_password column, and to put the id at $(k + 1). */
  function FixedAssignments(d: UserUpdate): seq<(string, string)>
  {
    (if d.Email.Some? then [("email", d.Email.value)] else [])
    + (if d.Name.Some? then [("name", d.Name.value)] else [])
    + (if d.Password.Some? then [("hash_password", d.Password.value)] else [])
    + (if d.Username.Some? then [("username", d.Username.value)] else [])
  }

  function UpdateQueryFixed(id: int, d: UserUpdate): UpdateQuery
  {
    var fs := FixedAssignments(d);
    UpdateQuery(Number(Sets(fs), 1), Args(fs) + [Int(id)], |fs| + 1)
  }

  function UpdateFixed(t: Table, id: int, d: UserUpdate): (Result<User, RepoError>, Table)
  {
    var run := RunUpdate(t, UpdateQueryFixed(id, d));
    (FromRow(run.0), run.1)
  }

  /** The user an update describes: each of the four fields it sets
      replaced, the others kept. */
  function Patch(u: User, d: UserUpdate): User
  {
    u.(Email := if d.Email.Some? then d.Email.value else u.Email,
       Name := if d.Name.Some? then d.Name.value else u.Name,
       Password := if d.Password.Some? then d.Password.value else u.Password,
       Username := if d.Username.Some? then d.Username.value else u.Username)
  }

  /** The assignments one at a time. */
  function ApplyAll(u: User, fs: seq<(string, string)>): User
    decreases |fs|
  {
    if |fs| == 0 then u else ApplyAll(SetText(u, fs[0].0, fs[0].1), fs[1..])
  }

  /** Running a SET list whose i-th term assigns the i-th column to the
      i-th value is applying the assignments in order. */
  lemma {:induction false} ApplySetsPointwise(u: User, sets: seq<Term>, args: seq<SqlArg>, fs: seq<(string, string)>)
    requires |sets| == |fs|
    requires forall i :: 0 <= i < |sets| ==> Bound(sets[i].index, args) && args[sets[i].index - 1] == Text(fs[i].1)
    requires forall i :: 0 <= i < |sets| ==> sets[i].column == fs[i].0
    ensures ApplySets(u, sets, args) == ApplyAll(u, fs)
    decreases |fs|
  {
    if |fs| > 0 {
      assert Bound(sets[0].index, args) && args[sets[0].index - 1] == Text(fs[0].1);
      var u' := SetText(u, fs[0].0, fs[0].1);
      assert ApplySets(u, sets, args) == ApplySets(u', sets[1..], args);
      ApplySetsPointwise(u', sets[1..], args, fs[1..]);
    }
  }

  lemma {:induction false} ApplyAllAppend(u: User, a: seq<(string, string)>, b: seq<(string, string)>)
    ensures ApplyAll(u, a + b) == ApplyAll(ApplyAll(u, a), b)
    decreases |a|
  {
    if |a| > 0 {
      assert (a + b)[1..] == a[1..] + b;
      ApplyAllAppend(SetText(u, a[0].0, a[0].1), a[1..], b);
    } else {
      assert a + b == b;
    }
  }

  /** The corrected assignments patch the row. */
  lemma FixedAssignmentsPatch(u: User, d: UserUpdate)
    ensures ApplyAll(u, FixedAssignments(d)) == Patch(u, d)
  {
    var e := if d.Email.Some? then [("email", d.Email.value)] else [];
    var n := if d.Name.Some? then [("name", d.Name.value)] else [];
    var p := if d.Password.Some? then [("hash_password", d.Password.value)] else [];
    var s := if d.Username.Some? then [("username", d.Username.value)] else [];
    ApplyAllAppend(u, e, n);
    ApplyAllAppend(u, e + n, p);
    ApplyAllAppend(u, e + n + p, s);
    var u1 := ApplyAll(u, e);
    var u2 := ApplyAll(u1, n);
    var u3 := ApplyAll(u2, p);
    assert u1 == u.(Email := if d.Email.Some? then d.Email.value else u.Email);
    assert u2 == u1.(Name := if d.Name.Some? then d.Name.value else u.Name);
    assert u3 == u2.(Password := if d.Password.Some? then d.Password.value else u.Password);
  }

  /** The corrected statement is accepted exactly when it assigns
      something, and then its WHERE binds the id. */
  lemma FixedQueryAccepted(id: int, d: UserUpdate)
    ensures var q := UpdateQueryFixed(id, d);
            (Accepted(q) <==> FixedAssignments(d) != [])
            && (Accepted(q) ==> q.args[q.where - 1] == Int(id))
  {
    var fs := FixedAssignments(d);
    var q := UpdateQueryFixed(id, d);
    FixedArgs(id, d);
    assert forall f :: f in fs ==> TextColumn(f.0);
    if fs != [] {
      forall i | 0 <= i < |q.sets|
        ensures q.sets[i].op == "=" && TextColumn(q.sets[i].column)
                && Bound(q.sets[i].index, q.args) && q.args[q.sets[i].index - 1].Text?
      {
        assert q.sets[i] == Term(fs[i].0, "=", 1 + i);
        assert fs[i] in fs;
      }
    }
  }

  /** The arguments of the corrected statement line up with its SET list. */
  lemma FixedArgs(id: int, d: UserUpdate)
    ensures var fs := FixedAssignments(d);
            var q := UpdateQueryFixed(id, d);
            |q.args| == |fs| + 1 && forall i :: 0 <= i < |fs| ==> q.args[1 - 1 + i] == Text(fs[i].1)
  {
  }

  /** The SET list of the corrected statement patches any row. */
  lemma FixedQueryPatches(id: int, d: UserUpdate, u: User)
    ensures var q := UpdateQueryFixed(id, d);
            ApplySets(u, q.sets, q.args) == Patch(u, d)
  {
    var fs := FixedAssignments(d);
    var q := UpdateQueryFixed(id, d);
    FixedArgs(id, d);
    assert forall i :: 0 <= i < |q.sets| ==> q.sets[i] == Term(fs[i].0, "=", 1 + i);
    ApplySetsPointwise(u, q.sets, q.args, fs);
    FixedAssignmentsPatch(u, d);
  }

  /** The corrected Update patches the first row with the id and every row
      with it, reports ErrUserNotFound when no row has it, and reports
      ErrInternal for an update that assigns nothing (Role alone passes
      Validate, but Update has no column for it). */
  lemma UpdateFixedPatches(t: Table, id: int, d: UserUpdate)
    requires !t.down
    ensures var r := UpdateFixed(t, id, d);
            FixedAssignments(d) == [] ==> r == (Err(ErrInternal), t)
    ensures var r := UpdateFixed(t, id, d);
            FixedAssignments(d) != [] && (forall u :: u in t.rows ==> u.Id != id) ==> r == (Err(ErrUserNotFound), t)
    ensures var r := UpdateFixed(t, id, d);
            var first := FirstMatch(t.rows, "id", Int(id));
            FixedAssignments(d) != [] && first.Row? ==>
              r.0 == Ok(Patch(first.value, d))
              && |r.1.rows| == |t.rows| && !r.1.down
              && forall i :: 0 <= i < |t.rows| ==>
                   r.1.rows[i] == if t.rows[i].Id == id then Patch(t.rows[i], d) else t.rows[i]
  {
    FixedQueryAccepted(id, d);
    forall u: User ensures ApplySets(u, UpdateQueryFixed(id, d).sets, UpdateQueryFixed(id, d).args) == Patch(u, d) {
      FixedQueryPatches(id, d, u);
    }
    assert forall u :: ColumnValue(u, "id") == Some(Int(u.Id));
  }
}
