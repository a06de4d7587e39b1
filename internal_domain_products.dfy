/** internal/domain/products.go: the Product record, the listing Filter a
    client sends, and its Fill_defaults check. */
module InternalDomainProducts {
  import opened Common
  import opened Sql

  datatype Product = Product(
    Id: int,
    Article: string,
    Name: string,
    Price: int,
    Manufacturer: string,
    SellerId: int,
    Deleted: bool,
    Rating: Float32)

  /** A nil pointer is None. */
  datatype Filter = Filter(
    Article: Option<string>,
    Name: Option<string>,
    MinPrice: Option<int>,
    MaxPrice: Option<int>,
    Manufacturer: Option<string>,
    Rating: Option<Float32>,
    Limit: Option<int>,
    Offset: Option<int>)

  const LimitTooHigh: string := "limit too high"

  /** Fill_defaults as written. Both of its writes go through a pointer it
      has just found nil, so each one panics and the filter is never changed:
      a nil Limit panics, a Limit below 25 is refused as "limit too high", a
      nil Offset then panics, and otherwise the filter is accepted as it is. */
  function FillDefaults(f: Filter): Outcome<Option<string>>
  {
    if f.Limit.None? then Panicked
    else if f.Limit.value < 25 then Returned(Some(LimitTooHigh))
    else if f.Offset.None? then Panicked
    else Returned(None)
  }

  /** The four outcomes of Fill_defaults, each with its condition. */
  lemma FillDefaultsCases(f: Filter)
    ensures FillDefaults(f).Panicked? <==> f.Limit.None? || (f.Limit.value >= 25 && f.Offset.None?)
    ensures FillDefaults(f) == Returned(Some(LimitTooHigh)) <==> f.Limit.Some? && f.Limit.value < 25
    ensures FillDefaults(f) == Returned(None) <==> f.Limit.Some? && f.Limit.value >= 25 && f.Offset.Some?
  {
  }

  /** A filter Fill_defaults accepts has both paging fields, with at least
      25 rows per page. */
  lemma FillDefaultsAccepts(f: Filter)
    requires FillDefaults(f) == Returned(None)
    ensures f.Limit.Some? && f.Offset.Some? && f.Limit.value >= 25
  {
  }

  /** What Fill_defaults evidently means: install 10 for a missing Limit
      and Offset, and refuse a Limit above 25. */
  function FillDefaultsFixed(f: Filter): Result<Filter, string>
  {
    var limit := if f.Limit.Some? then f.Limit.value else 10;
    if limit > 25 then Err(LimitTooHigh)
    else Ok(f.(Limit := Some(limit), Offset := Some(if f.Offset.Some? then f.Offset.value else 10)))
  }

  /** The corrected Fill_defaults never panics: it refuses exactly the
      limits above 25, and an accepted filter has both paging fields, the
      given values kept, the defaults installed for the missing ones, and
      every other field unchanged. */
  lemma FillDefaultsFixedSound(f: Filter)
    ensures FillDefaultsFixed(f).Err? <==> f.Limit.Some? && f.Limit.value > 25
    ensures FillDefaultsFixed(f).Err? ==> FillDefaultsFixed(f).error == LimitTooHigh
    ensures FillDefaultsFixed(f).Ok? ==>
              var g := FillDefaultsFixed(f).value;
              g.Limit.Some? && g.Offset.Some? && g.Limit.value <= 25
              && (f.Limit.Some? ==> g.Limit == f.Limit) && (f.Limit.None? ==> g.Limit == Some(10))
              && (f.Offset.Some? ==> g.Offset == f.Offset) && (f.Offset.None? ==> g.Offset == Some(10))
              && g.(Limit := f.Limit, Offset := f.Offset) == f
  {
  }

  /** The as-written check is the corrected one inverted: a Limit of 10 is
      refused by one and accepted by the other, a Limit of 100 the other way
      round. */
  lemma FillDefaultsInverted(f: Filter)
    requires f.Limit == Some(10) && f.Offset.Some?
    ensures FillDefaults(f) == Returned(Some(LimitTooHigh))
    ensures FillDefaultsFixed(f).Ok?
    ensures FillDefaults(f.(Limit := Some(100))) == Returned(None)
    ensures FillDefaultsFixed(f.(Limit := Some(100))) == Err(LimitTooHigh)
  {
  }
}
