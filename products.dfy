/** internal/repository/products.go: the products table behind
    ProductsRepository, the single-row lookup Get, the insert Create, and
    the listing query GetAll builds from a Filter. */
module Products {
  import opened Common
  import opened Repository
  import opened Sql
  import opened Text
  import opened Decimal
  import opened InternalDomainProducts

  /** The rows of the products table, and whether the database refuses every
      statement. */
  datatype ProductTable = ProductTable(rows: seq<Product>, down: bool)

  // ---- Get and Create ----

  /** The first row with the id. */
  function FirstWithId(rows: seq<Product>, id: int): (r: QueryOutcome<Product>)
    ensures !r.QueryFailed?
    ensures r.Row? ==> r.value in rows && r.value.Id == id
    ensures r.NoRows? <==> forall p :: p in rows ==> p.Id != id
  {
    if |rows| == 0 then NoRows
    else if rows[0].Id == id then Row(rows[0])
    else FirstWithId(rows[1..], id)
  }

  /** `SELECT * FROM products WHERE id = $1`: sql.ErrNoRows is
      ErrProductNotFound, any other failure ErrInternal. */
  function Get(t: ProductTable, id: int): Result<Product, RepoError>
  {
    if t.down then Err(ErrInternal)
    else match FirstWithId(t.rows, id)
      case Row(p) => Ok(p)
      case _ => Err(ErrProductNotFound)
  }

  /** Get finds a row with the id; it reports ErrProductNotFound exactly when
      there is none, and ErrInternal exactly when the database fails. */
  lemma GetFinds(t: ProductTable, id: int)
    ensures Get(t, id).Ok? ==> Get(t, id).value in t.rows && Get(t, id).value.Id == id
    ensures Get(t, id) == Err(ErrProductNotFound) <==> !t.down && forall p :: p in t.rows ==> p.Id != id
    ensures Get(t, id) == Err(ErrInternal) <==> t.down
  {
  }

  /** The columns the INSERT names, in its order. Postgres folds unquoted
      names to lower case, so "sellerId" names a column "sellerid". */
  const InsertColumns: seq<string> := ["article", "name", "price", "manufacturer", "sellerId", "deleted", "rating"]

  /** The same list with the column the struct's db tag names. */
  const InsertColumnsFixed: seq<string> := ["article", "name", "price", "manufacturer", "seller_id", "deleted", "rating"]

  /** Every name, folded to lower case, is a column of the table. */
  predicate Named(columns: seq<string>)
  {
    forall c :: c in columns ==> IsColumn(ToLowerAscii(c))
  }

  /** An INSERT naming those columns: the row as given under the id the
      database assigns. A failing database or a column the table lacks is
      ErrInternal and adds nothing. */
  function Insert(t: ProductTable, columns: seq<string>, p: Product, id: int): (Result<int, RepoError>, ProductTable)
  {
    if t.down || !Named(columns) then (Err(ErrInternal), t)
    else (Ok(id), ProductTable(t.rows + [p.(Id := id)], false))
  }

  /** Create as written. */
  function Create(t: ProductTable, p: Product, id: int): (Result<int, RepoError>, ProductTable)
  {
    Insert(t, InsertColumns, p, id)
  }

  /** Create with the seller column named as the table has it. */
  function CreateFixed(t: ProductTable, p: Product, id: int): (Result<int, RepoError>, ProductTable)
  {
    Insert(t, InsertColumnsFixed, p, id)
  }

  /** The insert as written names the column "sellerid", which the table
      lacks: Create always answers ErrInternal and adds nothing. */
  lemma CreateAsWrittenFails(t: ProductTable, p: Product, id: int)
    ensures Create(t, p, id) == (Err(ErrInternal), t)
  {
    assert InsertColumns[4] == "sellerId";
    assert ToLowerAscii("sellerId") == "sellerid";
    assert !IsColumn("sellerid");
  }

  /** Lower-case names are their own folding. */
  lemma {:induction false} LowerCaseFolds(s: string)
    requires forall i :: 0 <= i < |s| ==> !('A' <= s[i] <= 'Z')
    ensures ToLowerAscii(s) == s
  {
  }

  /** The corrected insert names only columns of the table. */
  lemma FixedColumnsNamed()
    ensures Named(InsertColumnsFixed)
  {
    forall c | c in InsertColumnsFixed ensures IsColumn(ToLowerAscii(c)) {
      LowerCaseFolds(c);
    }
  }

  /** A row added at the end is found only when no earlier row has its id. */
  lemma {:induction false} FirstWithIdAppend(rows: seq<Product>, p: Product)
    requires forall q :: q in rows ==> q.Id != p.Id
    ensures FirstWithId(rows + [p], p.Id) == Row(p)
    decreases |rows|
  {
    if |rows| > 0 {
      assert (rows + [p])[1..] == rows[1..] + [p];
      assert rows[0] in rows;
      FirstWithIdAppend(rows[1..], p);
    } else {
      assert rows + [p] == [p];
    }
  }

  /** With the corrected insert, a product created under a fresh id is what
      Get then returns, with every field but the id as given; the insert
      fails exactly when the database does, and then adds nothing. */
  lemma CreateThenGet(t: ProductTable, p: Product, id: int)
    ensures var (r, t') := CreateFixed(t, p, id);
            (r.Err? <==> t.down)
            && (r.Err? ==> r.error == ErrInternal && t' == t)
            && (r.Ok? ==> r.value == id && t'.rows == t.rows + [p.(Id := id)])
            && (r.Ok? && (forall q :: q in t.rows ==> q.Id != id) ==> Get(t', id) == Ok(p.(Id := id)))
  {
    FixedColumnsNamed();
    if !t.down && forall q :: q in t.rows ==> q.Id != id {
      FirstWithIdAppend(t.rows, p.(Id := id));
    }
  }

  /** The rows without the id. */
  function WithoutId(rows: seq<Product>, id: int): (r: seq<Product>)
    ensures forall p :: p in r <==> p in rows && p.Id != id
  {
    if |rows| == 0 then []
    else if rows[0].Id == id then WithoutId(rows[1..], id)
    else [rows[0]] + WithoutId(rows[1..], id)
  }

  /** `DELETE FROM products WHERE id = $1`: any failure is ErrInternal and
      removes nothing; deleting an id no row has is no error. */
  function Delete(t: ProductTable, id: int): (Option<RepoError>, ProductTable)
  {
    if t.down then (Some(ErrInternal), t) else (None, ProductTable(WithoutId(t.rows, id), false))
  }

  /** After a successful Delete, Get no longer finds the id. */
  lemma DeleteThenGet(t: ProductTable, id: int)
    requires !t.down
    ensures Delete(t, id).0.None? && Get(Delete(t, id).1, id) == Err(ErrProductNotFound)
  {
  }

  // ---- GetAll ----

  /** One condition of the WHERE clause: column, operator and the value it
      binds. */
  datatype Cond = Cond(column: string, op: string, value: SqlArg)

  /** The condition GetAll adds for each of the six filter fields, in the
      order of the source: Article, Name, MinPrice, MaxPrice, Manufacturer,
      Rating; None for a nil field. The manufacturer column is spelled
      "manafacturer", and the Rating condition compares the article column. */
  function WrittenSlots(f: Filter): (s: seq<Option<Cond>>)
    ensures |s| == 6 && forall j :: 0 <= j < 6 ==> s[j] == WrittenSlot(f, j)
  {
    [WrittenSlot(f, 0), WrittenSlot(f, 1), WrittenSlot(f, 2), WrittenSlot(f, 3), WrittenSlot(f, 4), WrittenSlot(f, 5)]
  }

  function WrittenSlot(f: Filter, j: nat): Option<Cond>
  {
    if j == 0 then (if f.Article.Some? then Some(Cond("article", "=", Text(f.Article.value))) else None)
    else if j == 1 then (if f.Name.Some? then Some(Cond("name", "=", Text(f.Name.value))) else None)
    else if j == 2 then (if f.MinPrice.Some? then Some(Cond("price", ">", Int(f.MinPrice.value))) else None)
    else if j == 3 then (if f.MaxPrice.Some? then Some(Cond("price", "<", Int(f.MaxPrice.value))) else None)
    else if j == 4 then (if f.Manufacturer.Some? then Some(Cond("manafacturer", "=", Text(f.Manufacturer.value))) else None)
    else (if f.Rating.Some? then Some(Cond("article", "=", Real(f.Rating.value))) else None)
  }

  /** The value of a slot, if there is one. */
  function Filled(o: Option<Cond>): (r: seq<Cond>)
    ensures |r| == if o.Some? then 1 else 0
  {
    if o.Some? then [o.value] else []
  }

  /** The values present in the first n slots, in order. */
  function Present(s: seq<Option<Cond>>, n: nat): (r: seq<Cond>)
    requires n <= |s|
    ensures |r| == SomeCount(s, n)
  {
    if n == 0 then [] else Present(s, n - 1) + Filled(s[n - 1])
  }

  /** The number of filled slots among the first n. */
  function SomeCount(s: seq<Option<Cond>>, n: nat): nat
    requires n <= |s|
  {
    if n == 0 then 0 else SomeCount(s, n - 1) + (if s[n - 1].Some? then 1 else 0)
  }

  /** The values present are those of the filled slots. */
  lemma {:induction false} PresentMembers(s: seq<Option<Cond>>, n: nat)
    requires n <= |s|
    ensures forall c :: c in Present(s, n) <==> exists i :: 0 <= i < n && s[i] == Some(c)
  {
    if n > 0 {
      PresentMembers(s, n - 1);
    }
  }

  /** The number of the six condition fields a filter sets. */
  function SetCount(f: Filter): (n: nat)
  {
    (if f.Article.Some? then 1 else 0) + (if f.Name.Some? then 1 else 0)
    + (if f.MinPrice.Some? then 1 else 0) + (if f.MaxPrice.Some? then 1 else 0)
    + (if f.Manufacturer.Some? then 1 else 0) + (if f.Rating.Some? then 1 else 0)
  }

  /** One condition per field set, whichever correction of the columns. */
  lemma SlotsCount(s: seq<Option<Cond>>, f: Filter)
    requires |s| == 6
    requires s[0].Some? == f.Article.Some? && s[1].Some? == f.Name.Some? && s[2].Some? == f.MinPrice.Some?
    requires s[3].Some? == f.MaxPrice.Some? && s[4].Some? == f.Manufacturer.Some? && s[5].Some? == f.Rating.Some?
    ensures SomeCount(s, 6) == SetCount(f)
  {
    assert SomeCount(s, 1) == (if s[0].Some? then 1 else 0);
    assert SomeCount(s, 2) == SomeCount(s, 1) + (if s[1].Some? then 1 else 0);
    assert SomeCount(s, 3) == SomeCount(s, 2) + (if s[2].Some? then 1 else 0);
    assert SomeCount(s, 4) == SomeCount(s, 3) + (if s[3].Some? then 1 else 0);
    assert SomeCount(s, 5) == SomeCount(s, 4) + (if s[4].Some? then 1 else 0);
  }

  /** The conditions GetAll adds, in order. */
  function WrittenConds(f: Filter): seq<Cond>
  {
    Present(WrittenSlots(f), 6)
  }

  /** The terms of the conditions, numbered from `from` on. */
  function Terms(cs: seq<Cond>, from: nat): (r: seq<Term>)
    ensures |r| == |cs| && forall i :: 0 <= i < |cs| ==> r[i] == Term(cs[i].column, cs[i].op, from + i)
  {
    if |cs| == 0 then [] else [Term(cs[0].column, cs[0].op, from)] + Terms(cs[1..], from + 1)
  }

  /** The values of the conditions, in order. */
  function Values(cs: seq<Cond>): (r: seq<SqlArg>)
    ensures |r| == |cs| && forall i :: 0 <= i < |cs| ==> r[i] == cs[i].value
  {
    if |cs| == 0 then [] else [cs[0].value] + Values(cs[1..])
  }

  /** A SELECT over products: the conditions, the text between them, the
      arguments, the placeholders of LIMIT and OFFSET, and whether the
      statement has a WHERE keyword. */
  datatype SelectQuery = SelectQuery(conds: seq<Term>, joiner: string, args: seq<SqlArg>, limit: nat, offset: nat, hasWhere: bool)

  /** The body of the WHERE clause. */
  function WhereBody(q: SelectQuery): string
  {
    Join(RenderTerms(q.conds), q.joiner)
  }

  /** The statement text. */
  function Statement(q: SelectQuery): string
  {
    "SELECT * FROM products "
    + (if q.hasWhere then "WHERE " + WhereBody(q) + " " else "")
    + "ORDER BY rating DESC LIMIT " + Placeholder(q.limit) + " OFFSET " + Placeholder(q.offset)
  }

  /** The query GetAll builds for a filter Fill_defaults accepted: the
      conditions numbered $1 .. $k and joined with ", ", then LIMIT $(k + 1)
      and OFFSET $(k + 2) bound to *Limit and *Offset. */
  function WrittenQuery(f: Filter): SelectQuery
    requires f.Limit.Some? && f.Offset.Some?
  {
    var cs := WrittenConds(f);
    SelectQuery(Terms(cs, 1), ", ", Values(cs) + [Int(f.Limit.value), Int(f.Offset.value)], |cs| + 1, |cs| + 2, true)
  }

  /** The columns of the table (the db tags of Product). */
  predicate IsColumn(column: string)
  {
    column in {"id", "article", "name", "price", "manufacturer", "seller_id", "deleted", "rating"}
  }

  function ColumnValue(p: Product, column: string): SqlArg
  {
    if column == "id" then Int(p.Id)
    else if column == "article" then Text(p.Article)
    else if column == "name" then Text(p.Name)
    else if column == "price" then Int(p.Price)
    else if column == "manufacturer" then Text(p.Manufacturer)
    else if column == "seller_id" then Int(p.SellerId)
    else if column == "deleted" then Bool(p.Deleted)
    else Real(p.Rating)
  }

  /** A comparison Postgres can evaluate. */
  predicate IsOp(op: string)
  {
    op in {"=", ">", "<"}
  }

  /** A paging argument: a non-negative integer. */
  predicate PageArg(i: nat, args: seq<SqlArg>)
  {
    Bound(i, args) && args[i - 1].Int? && args[i - 1].i >= 0
  }

  /** A statement Postgres accepts: with a WHERE keyword exactly one
      condition, or several joined by AND, and without one no condition;
      known columns and operators; every placeholder bound; and paging by
      non-negative integers. */
  predicate Accepted(q: SelectQuery)
  {
    (if q.hasWhere then |q.conds| == 1 || (|q.conds| > 1 && q.joiner == " AND ") else |q.conds| == 0)
    && (forall i :: 0 <= i < |q.conds| ==>
          IsColumn(q.conds[i].column) && IsOp(q.conds[i].op) && Bound(q.conds[i].index, q.args))
    && PageArg(q.limit, q.args) && PageArg(q.offset, q.args)
  }

  /** A row satisfies a term when its column compares as the operator says
      with the bound value; an equality holds only between values of the same
      kind, and an ordering only between integers. */
  predicate Holds(p: Product, t: Term, args: seq<SqlArg>)
    requires Bound(t.index, args)
  {
    var v, a := ColumnValue(p, t.column), args[t.index - 1];
    if t.op == "=" then v == a
    else if t.op == ">" then v.Int? && a.Int? && v.i > a.i
    else v.Int? && a.Int? && v.i < a.i
  }

  predicate HoldsAll(p: Product, q: SelectQuery)
    requires Accepted(q)
  {
    forall i :: 0 <= i < |q.conds| ==> Holds(p, q.conds[i], q.args)
  }

  /** The rows satisfying every condition, in table order. */
  function Matching(rows: seq<Product>, q: SelectQuery): (r: seq<Product>)
    requires Accepted(q)
    ensures forall p :: p in r <==> p in rows && HoldsAll(p, q)
    ensures |r| <= |rows|
  {
    if |rows| == 0 then []
    else (if HoldsAll(rows[0], q) then [rows[0]] else []) + Matching(rows[1..], q)
  }

  /** OFFSET skips rows and LIMIT caps how many are returned. */
  function Page(rows: seq<Product>, limit: nat, offset: nat): (r: seq<Product>)
    ensures |r| == if offset >= |rows| then 0 else if offset + limit <= |rows| then limit else |rows| - offset
    ensures forall i :: 0 <= i < |r| ==> r[i] == rows[offset + i]
  {
    if offset >= |rows| then [] else rows[offset..if offset + limit <= |rows| then offset + limit else |rows|]
  }

  /** Running a SELECT: an error for a statement Postgres refuses, else the
      requested page of the matching rows. */
  function Run(t: ProductTable, q: SelectQuery): Option<seq<Product>>
  {
    if t.down || !Accepted(q) then None
    else Some(Page(Matching(t.rows, q), q.args[q.limit - 1].i, q.args[q.offset - 1].i))
  }

  /** GetAll as written: Fill_defaults first (its panic ends the request,
      its error is ErrInternal), then the query; a failed query is
      ErrInternal. */
  function GetAllOutcome(t: ProductTable, f: Filter): Outcome<Result<seq<Product>, RepoError>>
  {
    match FillDefaults(f)
    case Panicked => Panicked
    case Returned(Some(_)) => Returned(Err(ErrInternal))
    case Returned(None) =>
      match Run(t, WrittenQuery(f))
      case None => Returned(Err(ErrInternal))
      case Some(ps) => Returned(Ok(ps))
  }

  /** GetAll step by step: Fill_defaults, the conditions, then the paging
      values after them and the query run. */
  method GetAll(t: ProductTable, filter: Filter) returns (r: Outcome<Result<seq<Product>, RepoError>>)
    ensures r == GetAllOutcome(t, filter)
  {
    var fill := FillDefaults(filter);
    if fill.Panicked? {
      return Panicked;
    }
    if fill.value.Some? {
      return Returned(Err(ErrInternal));
    }
    var names, values, argId := AddConditions(filter);
    GetAllTail(t, filter, WrittenConds(filter), names, values, argId);
    values := values + [Int(filter.Limit.value), Int(filter.Offset.value)];
    var q := SelectQuery(names, ", ", values, argId, argId + 1, true);
    var ps := Run(t, q);
    if ps.None? {
      return Returned(Err(ErrInternal));
    }
    r := Returned(Ok(ps.value));
  }

  /** The addProp calls of GetAll, one for each field the filter sets, in
      the order of the source: the terms are the conditions numbered from
      $1, the values are theirs, and argId is one past the last. */
  method AddConditions(filter: Filter) returns (names: seq<Term>, values: seq<SqlArg>, argId: nat)
    ensures names == Terms(WrittenConds(filter), 1) && values == Values(WrittenConds(filter))
    ensures argId == |WrittenConds(filter)| + 1
  {
    names, values, argId := [], [], 1;
    ghost var cs: seq<Cond> := [];
    ghost var names0, values0, argId0 := names, values, argId;
    if filter.Article.Some? {
      names, values, argId := AddProp(names, values, argId, "article", "=", Text(filter.Article.value));
    }
    StepBuilt(cs, WrittenSlot(filter, 0), names0, values0, argId0, names, values, argId);
    cs, names0, values0, argId0 := cs + Filled(WrittenSlot(filter, 0)), names, values, argId;
    if filter.Name.Some? {
      names, values, argId := AddProp(names, values, argId, "name", "=", Text(filter.Name.value));
    }
    StepBuilt(cs, WrittenSlot(filter, 1), names0, values0, argId0, names, values, argId);
    cs, names0, values0, argId0 := cs + Filled(WrittenSlot(filter, 1)), names, values, argId;
    if filter.MinPrice.Some? {
      names, values, argId := AddProp(names, values, argId, "price", ">", Int(filter.MinPrice.value));
    }
    StepBuilt(cs, WrittenSlot(filter, 2), names0, values0, argId0, names, values, argId);
    cs, names0, values0, argId0 := cs + Filled(WrittenSlot(filter, 2)), names, values, argId;
    if filter.MaxPrice.Some? {
      names, values, argId := AddProp(names, values, argId, "price", "<", Int(filter.MaxPrice.value));
    }
    StepBuilt(cs, WrittenSlot(filter, 3), names0, values0, argId0, names, values, argId);
    cs, names0, values0, argId0 := cs + Filled(WrittenSlot(filter, 3)), names, values, argId;
    if filter.Manufacturer.Some? {
      names, values, argId := AddProp(names, values, argId, "manafacturer", "=", Text(filter.Manufacturer.value));
    }
    StepBuilt(cs, WrittenSlot(filter, 4), names0, values0, argId0, names, values, argId);
    cs, names0, values0, argId0 := cs + Filled(WrittenSlot(filter, 4)), names, values, argId;
    if filter.Rating.Some? {
      names, values, argId := AddProp(names, values, argId, "article", "=", Real(filter.Rating.value));
    }
    StepBuilt(cs, WrittenSlot(filter, 5), names0, values0, argId0, names, values, argId);
    cs, names0, values0, argId0 := cs + Filled(WrittenSlot(filter, 5)), names, values, argId;
    WrittenCondsSteps(filter);
  }

  lemma WrittenCondsSteps(f: Filter)
    ensures WrittenConds(f) == [] + Filled(WrittenSlot(f, 0)) + Filled(WrittenSlot(f, 1)) + Filled(WrittenSlot(f, 2))
                               + Filled(WrittenSlot(f, 3)) + Filled(WrittenSlot(f, 4)) + Filled(WrittenSlot(f, 5))
  {
    PresentSix(WrittenSlots(f));
  }

  /** The values of six slots, slot by slot. */
  lemma PresentSix(s: seq<Option<Cond>>)
    requires |s| == 6
    ensures Present(s, 6) == [] + Filled(s[0]) + Filled(s[1]) + Filled(s[2]) + Filled(s[3]) + Filled(s[4]) + Filled(s[5])
  {
    assert Present(s, 1) == [] + Filled(s[0]);
    assert Present(s, 2) == Present(s, 1) + Filled(s[1]);
    assert Present(s, 3) == Present(s, 2) + Filled(s[2]);
    assert Present(s, 4) == Present(s, 3) + Filled(s[3]);
    assert Present(s, 5) == Present(s, 4) + Filled(s[4]);
  }

  /** What GetAll's locals hold after the conditions cs. */
  ghost predicate Built(cs: seq<Cond>, names: seq<Term>, values: seq<SqlArg>, argId: nat)
  {
    names == Terms(cs, 1) && values == Values(cs) && argId == |cs| + 1
  }

  /** A step of GetAll keeps Built: an empty slot leaves the locals as they
      were, a filled one is one addProp. */
  lemma StepBuilt(cs: seq<Cond>, slot: Option<Cond>, names: seq<Term>, values: seq<SqlArg>, argId: nat,
                  names': seq<Term>, values': seq<SqlArg>, argId': nat)
    requires Built(cs, names, values, argId)
    requires slot.None? ==> names' == names && values' == values && argId' == argId
    requires slot.Some? ==> names' == names + [Term(slot.value.column, slot.value.op, argId)]
                            && values' == values + [slot.value.value] && argId' == argId + 1
    ensures Built(cs + Filled(slot), names', values', argId')
  {
    if slot.Some? {
      AddCond(cs, names, values, argId, slot.value);
    } else {
      assert cs + Filled(slot) == cs;
    }
  }

  /** One addProp step keeps Built. */
  lemma AddCond(cs: seq<Cond>, names: seq<Term>, values: seq<SqlArg>, argId: nat, c: Cond)
    requires Built(cs, names, values, argId)
    ensures Built(cs + [c], names + [Term(c.column, c.op, argId)], values + [c.value], argId + 1)
  {
    var l, r := Terms(cs + [c], 1), Terms(cs, 1) + [Term(c.column, c.op, argId)];
    forall i | 0 <= i < |l| ensures l[i] == r[i] {
      if i < |cs| { assert (cs + [c])[i] == cs[i]; }
    }
    var lv, rv := Values(cs + [c]), Values(cs) + [c.value];
    forall i | 0 <= i < |lv| ensures lv[i] == rv[i] {
      if i < |cs| { assert (cs + [c])[i] == cs[i]; }
    }
  }

  /** Once the conditions are collected, the statement GetAll runs is
      WrittenQuery. */
  lemma GetAllTail(t: ProductTable, f: Filter, cs: seq<Cond>, names: seq<Term>, values: seq<SqlArg>, argId: nat)
    requires FillDefaults(f) == Returned(None)
    requires Built(cs, names, values, argId) && cs == WrittenConds(f)
    ensures var q := SelectQuery(names, ", ", values + [Int(f.Limit.value), Int(f.Offset.value)], argId, argId + 1, true);
            q == WrittenQuery(f)
            && GetAllOutcome(t, f) == if Run(t, q).None? then Returned(Err(ErrInternal)) else Returned(Ok(Run(t, q).value))
  {
  }

  /** When Fill_defaults refuses the filter no query runs: the answer is
      ErrInternal whatever the table holds. */
  lemma GetAllRefusedFilter(t: ProductTable, t': ProductTable, f: Filter)
    requires FillDefaults(f).Returned? && FillDefaults(f).value.Some?
    ensures GetAllOutcome(t, f) == GetAllOutcome(t', f) == Returned(Err(ErrInternal))
  {
  }

  /** The shape of the query as written: one term per field set, in order,
      numbered $1 .. $k; each placeholder's argument is its condition's
      value; LIMIT is $(k + 1) bound to *Limit and OFFSET $(k + 2) bound to
      *Offset; price bounds are strict. */
  lemma WrittenQueryShape(f: Filter)
    requires f.Limit.Some? && f.Offset.Some?
    ensures var q, cs := WrittenQuery(f), WrittenConds(f);
            |q.conds| == |cs| && |q.args| == |cs| + 2
            && (forall i :: 0 <= i < |cs| ==>
                  q.conds[i] == Term(cs[i].column, cs[i].op, i + 1) && q.args[q.conds[i].index - 1] == cs[i].value)
            && q.limit == |cs| + 1 && q.args[q.limit - 1] == Int(f.Limit.value)
            && q.offset == |cs| + 2 && q.args[q.offset - 1] == Int(f.Offset.value)
    ensures f.MinPrice.Some? ==> Cond("price", ">", Int(f.MinPrice.value)) in WrittenConds(f)
    ensures f.MaxPrice.Some? ==> Cond("price", "<", Int(f.MaxPrice.value)) in WrittenConds(f)
  {
    PresentMembers(WrittenSlots(f), 6);
    assert WrittenSlots(f)[2] == WrittenSlot(f, 2) && WrittenSlots(f)[3] == WrittenSlot(f, 3);
  }

  lemma WrittenCondsCount(f: Filter)
    ensures |WrittenConds(f)| == SetCount(f)
  {
    SlotsCount(WrittenSlots(f), f);
  }

  /** Postgres accepts a query built from conditions exactly when its WHERE
      clause is well formed, every condition names a column and an
      operator, and the paging values are not negative. */
  lemma {:induction false} AcceptedBuilt(q: SelectQuery, cs: seq<Cond>, limit: int, offset: int)
    requires q.conds == Terms(cs, 1) && q.args == Values(cs) + [Int(limit), Int(offset)]
    requires q.limit == |cs| + 1 && q.offset == |cs| + 2
    ensures Accepted(q) <==>
              (if q.hasWhere then |cs| == 1 || (|cs| > 1 && q.joiner == " AND ") else |cs| == 0)
              && (forall c :: c in cs ==> IsColumn(c.column) && IsOp(c.op))
              && limit >= 0 && offset >= 0
  {
    assert q.args[q.limit - 1] == Int(limit) && q.args[q.offset - 1] == Int(offset);
    assert forall i :: 0 <= i < |cs| ==> q.conds[i].column == cs[i].column && q.conds[i].op == cs[i].op && cs[i] in cs;
    if !(forall c :: c in cs ==> IsColumn(c.column) && IsOp(c.op)) {
      var c :| c in cs && !(IsColumn(c.column) && IsOp(c.op));
      var i :| 0 <= i < |cs| && cs[i] == c;
      assert q.conds[i].column == c.column && q.conds[i].op == c.op;
    }
  }

  /** The conditions as written use the known operators and columns, except
      the misspelled manufacturer column, which only a Manufacturer filter
      adds. */
  lemma WrittenCondsColumns(f: Filter)
    ensures forall c :: c in WrittenConds(f) ==>
              IsOp(c.op) && (IsColumn(c.column) <==> c.column != "manafacturer")
              && (c.column == "manafacturer" ==> f.Manufacturer.Some?)
    ensures f.Manufacturer.Some? ==> Cond("manafacturer", "=", Text(f.Manufacturer.value)) in WrittenConds(f)
  {
    var s := WrittenSlots(f);
    PresentMembers(s, 6);
    forall c | c in WrittenConds(f)
      ensures IsOp(c.op) && (IsColumn(c.column) <==> c.column != "manafacturer")
              && (c.column == "manafacturer" ==> f.Manufacturer.Some?)
    {
      var j :| 0 <= j < 6 && s[j] == Some(c);
      assert s[j] == WrittenSlot(f, j);
    }
    assert s[4] == WrittenSlot(f, 4);
  }

  /** Postgres accepts the query as written exactly when the filter sets
      one condition field, not Manufacturer, and the offset is not negative:
      with none the WHERE keyword has no body, with several the ", " between
      them is a syntax error, and the manufacturer column does not exist. */
  lemma WrittenAcceptedIff(f: Filter)
    requires FillDefaults(f) == Returned(None)
    ensures Accepted(WrittenQuery(f)) <==> SetCount(f) == 1 && f.Manufacturer.None? && f.Offset.value >= 0
  {
    var cs := WrittenConds(f);
    WrittenCondsCount(f);
    WrittenCondsColumns(f);
    AcceptedBuilt(WrittenQuery(f), cs, f.Limit.value, f.Offset.value);
    if SetCount(f) == 1 && f.Manufacturer.None? {
      assert cs[0] in cs;
    }
  }

  /** So GetAll as written answers ErrInternal whenever the filter sets no
      condition field or more than one. */
  lemma GetAllWrittenFails(t: ProductTable, f: Filter)
    requires FillDefaults(f) == Returned(None)
    requires SetCount(f) != 1
    ensures GetAllOutcome(t, f) == Returned(Err(ErrInternal))
  {
    WrittenAcceptedIff(f);
  }

  /** The query for an Article and a Name filter, as text: the two
      conditions separated by a comma. */
  lemma WrittenWhereExample(a: string, n: string)
    ensures var f := Filter(Some(a), Some(n), None, None, None, None, Some(25), Some(0));
            WhereBody(WrittenQuery(f)) == "article = " + Placeholder(1) + ", " + "name = " + Placeholder(2)
  {
    var f := Filter(Some(a), Some(n), None, None, None, None, Some(25), Some(0));
    WrittenCondsSteps(f);
    var cs := WrittenConds(f);
    assert cs == [Cond("article", "=", Text(a)), Cond("name", "=", Text(n))];
    var q := WrittenQuery(f);
    assert q.conds == [Term("article", "=", 1), Term("name", "=", 2)];
    var r := RenderTerms(q.conds);
    assert r[0] == "article = " + Placeholder(1);
    assert |r| == 2 && r[1] == "name = " + Placeholder(2);
    assert r[1..] == ["name = " + Placeholder(2)];
    assert Join(r, ", ") == r[0] + ", " + Join(r[1..], ", ");
  }

  /** A filter on Rating alone compares the article column with the rating. */
  lemma WrittenRatingTestsArticle(f: Filter)
    requires f.Rating.Some? && SetCount(f) == 1 && f.Limit.Some? && f.Offset.Some?
    ensures WrittenQuery(f).conds == [Term("article", "=", 1)] && WrittenQuery(f).args[0] == Real(f.Rating.value)
  {
    WrittenCondsSteps(f);
    assert WrittenConds(f) == [Cond("article", "=", Real(f.Rating.value))];
  }

  // ---- GetAll, corrected ----

  /** The conditions GetAll evidently means: the manufacturer and rating
      columns for Manufacturer and Rating. */
  function FixedSlots(f: Filter): (s: seq<Option<Cond>>)
    ensures |s| == 6 && forall j :: 0 <= j < 6 ==> s[j] == FixedSlot(f, j)
  {
    [FixedSlot(f, 0), FixedSlot(f, 1), FixedSlot(f, 2), FixedSlot(f, 3), FixedSlot(f, 4), FixedSlot(f, 5)]
  }

  function FixedSlot(f: Filter, j: nat): Option<Cond>
  {
    if j == 4 then (if f.Manufacturer.Some? then Some(Cond("manufacturer", "=", Text(f.Manufacturer.value))) else None)
    else if j == 5 then (if f.Rating.Some? then Some(Cond("rating", "=", Real(f.Rating.value))) else None)
    else WrittenSlot(f, j)
  }

  function FixedConds(f: Filter): seq<Cond>
  {
    Present(FixedSlots(f), 6)
  }

  /** The corrected query: conditions joined by AND, and no WHERE keyword
      when there are none. */
  function FixedQuery(f: Filter): SelectQuery
    requires f.Limit.Some? && f.Offset.Some?
  {
    var cs := FixedConds(f);
    SelectQuery(Terms(cs, 1), " AND ", Values(cs) + [Int(f.Limit.value), Int(f.Offset.value)], |cs| + 1, |cs| + 2, |cs| > 0)
  }

  /** When a product matches a filter, independently of SQL. */
  predicate FilterMatches(p: Product, f: Filter)
  {
    (f.Article.Some? ==> p.Article == f.Article.value)
    && (f.Name.Some? ==> p.Name == f.Name.value)
    && (f.MinPrice.Some? ==> p.Price > f.MinPrice.value)
    && (f.MaxPrice.Some? ==> p.Price < f.MaxPrice.value)
    && (f.Manufacturer.Some? ==> p.Manufacturer == f.Manufacturer.value)
    && (f.Rating.Some? ==> p.Rating == f.Rating.value)
  }

  /** The rows matching a filter, in table order. */
  function FilterRows(rows: seq<Product>, f: Filter): (r: seq<Product>)
    ensures forall p :: p in r <==> p in rows && FilterMatches(p, f)
  {
    if |rows| == 0 then []
    else (if FilterMatches(rows[0], f) then [rows[0]] else []) + FilterRows(rows[1..], f)
  }

  /** What a condition says of a row. */
  predicate CondHolds(p: Product, c: Cond)
  {
    var v := ColumnValue(p, c.column);
    if c.op == "=" then v == c.value
    else if c.op == ">" then v.Int? && c.value.Int? && v.i > c.value.i
    else v.Int? && c.value.Int? && v.i < c.value.i
  }

  /** The corrected conditions name real columns and operators. */
  lemma FixedCondsKnown(f: Filter)
    ensures forall c :: c in FixedConds(f) ==> IsColumn(c.column) && IsOp(c.op)
  {
    var s := FixedSlots(f);
    PresentMembers(s, 6);
    forall c | c in FixedConds(f) ensures IsColumn(c.column) && IsOp(c.op) {
      var j :| 0 <= j < 6 && s[j] == Some(c);
      assert s[j] == FixedSlot(f, j);
    }
  }

  /** A row satisfies the corrected conditions exactly when it matches the
      filter. */
  lemma FixedCondsMatch(p: Product, f: Filter)
    ensures (forall c :: c in FixedConds(f) ==> CondHolds(p, c)) <==> FilterMatches(p, f)
  {
    var s := FixedSlots(f);
    PresentMembers(s, 6);
    if FilterMatches(p, f) {
      forall c | c in FixedConds(f) ensures CondHolds(p, c) {
        var j :| 0 <= j < 6 && s[j] == Some(c);
        assert s[j] == FixedSlot(f, j);
      }
    } else if f.Article.Some? && p.Article != f.Article.value {
      SlotRefutes(p, s, 0);
    } else if f.Name.Some? && p.Name != f.Name.value {
      SlotRefutes(p, s, 1);
    } else if f.MinPrice.Some? && p.Price <= f.MinPrice.value {
      SlotRefutes(p, s, 2);
    } else if f.MaxPrice.Some? && p.Price >= f.MaxPrice.value {
      SlotRefutes(p, s, 3);
    } else if f.Manufacturer.Some? && p.Manufacturer != f.Manufacturer.value {
      SlotRefutes(p, s, 4);
    } else {
      SlotRefutes(p, s, 5);
    }
  }

  /** A filled slot whose condition fails refutes the whole list. */
  lemma SlotRefutes(p: Product, s: seq<Option<Cond>>, j: nat)
    requires j < |s| && s[j].Some? && !CondHolds(p, s[j].value)
    ensures !(forall c :: c in Present(s, |s|) ==> CondHolds(p, c))
  {
    PresentMembers(s, |s|);
  }

  /** Postgres accepts the corrected query exactly when the paging values
      are not negative. */
  lemma FixedQueryAccepted(f: Filter)
    requires f.Limit.Some? && f.Offset.Some?
    ensures Accepted(FixedQuery(f)) <==> f.Limit.value >= 0 && f.Offset.value >= 0
  {
    FixedCondsKnown(f);
    AcceptedBuilt(FixedQuery(f), FixedConds(f), f.Limit.value, f.Offset.value);
  }

  /** A row satisfies an accepted query built from conditions exactly when
      it satisfies every condition. */
  lemma QueryHolds(p: Product, q: SelectQuery, cs: seq<Cond>, rest: seq<SqlArg>)
    requires q.conds == Terms(cs, 1) && q.args == Values(cs) + rest && Accepted(q)
    ensures HoldsAll(p, q) <==> forall c :: c in cs ==> CondHolds(p, c)
  {
    forall i | 0 <= i < |cs| ensures Holds(p, q.conds[i], q.args) == CondHolds(p, cs[i]) {
      assert q.conds[i] == Term(cs[i].column, cs[i].op, i + 1);
      assert q.args[i] == cs[i].value;
    }
    if HoldsAll(p, q) {
      forall c | c in cs ensures CondHolds(p, c) {
        var i :| 0 <= i < |cs| && cs[i] == c;
      }
    }
  }

  /** A row satisfies the accepted corrected query exactly when it matches
      the filter. */
  lemma FixedQueryHolds(p: Product, f: Filter)
    requires f.Limit.Some? && f.Offset.Some? && Accepted(FixedQuery(f))
    ensures HoldsAll(p, FixedQuery(f)) <==> FilterMatches(p, f)
  {
    FixedCondsMatch(p, f);
    QueryHolds(p, FixedQuery(f), FixedConds(f), [Int(f.Limit.value), Int(f.Offset.value)]);
  }

  /** Matching under the corrected query is filtering by the filter. */
  lemma {:induction false} FixedMatching(rows: seq<Product>, f: Filter)
    requires f.Limit.Some? && f.Offset.Some? && Accepted(FixedQuery(f))
    ensures Matching(rows, FixedQuery(f)) == FilterRows(rows, f)
    decreases |rows|
  {
    if |rows| > 0 {
      FixedQueryHolds(rows[0], f);
      FixedMatching(rows[1..], f);
    }
  }

  /** GetAll as evidently intended: the corrected Fill_defaults and query. */
  function GetAllFixed(t: ProductTable, f: Filter): Result<seq<Product>, RepoError>
  {
    match FillDefaultsFixed(f)
    case Err(_) => Err(ErrInternal)
    case Ok(g) =>
      match Run(t, FixedQuery(g))
      case None => Err(ErrInternal)
      case Some(ps) => Ok(ps)
  }

  /** The corrected GetAll never panics. It answers ErrInternal for a limit
      above 25, a negative limit or offset, or a failing database, and
      otherwise the requested page of the rows that match the filter, in
      table order, with 10 for a missing limit or offset. */
  lemma GetAllFixedSelects(t: ProductTable, f: Filter)
    ensures var limit := if f.Limit.Some? then f.Limit.value else 10;
            var offset := if f.Offset.Some? then f.Offset.value else 10;
            GetAllFixed(t, f) ==
              if t.down || limit > 25 || limit < 0 || offset < 0 then Err(ErrInternal)
              else Ok(Page(FilterRows(t.rows, f), limit, offset))
  {
    FillDefaultsFixedSound(f);
    if FillDefaultsFixed(f).Ok? {
      var g := FillDefaultsFixed(f).value;
      RunFixed(t, g);
      FilterRowsSame(t.rows, f, g);
    }
  }

  /** Running the corrected query: an error when the database fails or a
      paging value is negative, else the page of the matching rows. */
  lemma RunFixed(t: ProductTable, g: Filter)
    requires g.Limit.Some? && g.Offset.Some?
    ensures Run(t, FixedQuery(g)) ==
              if t.down || g.Limit.value < 0 || g.Offset.value < 0 then None
              else Some(Page(FilterRows(t.rows, g), g.Limit.value, g.Offset.value))
  {
    var q := FixedQuery(g);
    FixedQueryAccepted(g);
    if Accepted(q) {
      FixedMatching(t.rows, g);
      assert q.args[q.limit - 1].i == g.Limit.value;
      assert q.args[q.offset - 1].i == g.Offset.value;
    }
  }

  /** Filters that differ only in paging select the same rows. */
  lemma {:induction false} FilterRowsSame(rows: seq<Product>, f: Filter, g: Filter)
    requires g.(Limit := f.Limit, Offset := f.Offset) == f
    ensures FilterRows(rows, f) == FilterRows(rows, g)
    decreases |rows|
  {
    if |rows| > 0 {
      assert FilterMatches(rows[0], f) == FilterMatches(rows[0], g);
      FilterRowsSame(rows[1..], f, g);
    }
  }
}
