/** internal/service/products.go: ProductsService over the products table
    and the users table, with the service's error translation. */
module ProductsService {
  import opened Common
  import Repository
  import Users
  import Products
  import InternalDomainProducts
  import opened Service

  type Product = InternalDomainProducts.Product

  /** The repository's ErrProductNotFound is the service's, anything else
      ErrInternal. */
  function ProductError(e: Repository.RepoError): ServiceError
  {
    if e == Repository.ErrProductNotFound then ErrProductNotFound else ErrInternal
  }

  /** GetAll passes the user's id to the repository's GetAll, which takes a
      Filter instead; what that call returns is a parameter. */
  function GetAllOutcome(users: Users.Table, userId: int, listing: Result<seq<Product>, Repository.RepoError>): Result<seq<Product>, ServiceError>
  {
    var check := UserCheck(Users.GetById(users, userId));
    if check.Some? then Err(check.value)
    else match listing
      case Err(_) => Err(ErrInternal)
      case Ok(ps) => Ok(ps)
  }

  function GetOutcome(t: Products.ProductTable, productId: int): Result<Product, ServiceError>
  {
    match Products.Get(t, productId)
    case Err(e) => Err(ProductError(e))
    case Ok(p) => Ok(p)
  }

  /** Create: the user must exist; the database assigns the id. The insert
      is the corrected one, with the seller column the table has. */
  function CreateOutcome(t: Products.ProductTable, users: Users.Table, userId: int, product: Product, id: int): (Result<int, ServiceError>, Products.ProductTable)
  {
    var check := UserCheck(Users.GetById(users, userId));
    if check.Some? then (Err(check.value), t)
    else
      var (r, t') := Products.CreateFixed(t, product, id);
      if r.Err? then (Err(ErrInternal), t') else (Ok(r.value), t')
  }

  function DeleteOutcome(t: Products.ProductTable, productId: int): (Option<ServiceError>, Products.ProductTable)
  {
    var (e, t') := Products.Delete(t, productId);
    if e.Some? then (Some(ErrInternal), t') else (None, t')
  }

  /** The service object: the two tables it reaches through its
      repositories. */
  class ProductsService {
    var products: Products.ProductTable
    var users: Users.Table

    constructor(products: Products.ProductTable, users: Users.Table)
      ensures this.products == products && this.users == users
    {
      this.products := products;
      this.users := users;
    }

    method GetAll(userId: int, listing: Result<seq<Product>, Repository.RepoError>) returns (r: Result<seq<Product>, ServiceError>)
      ensures r == GetAllOutcome(users, userId, listing)
    {
      var check := UserCheck(Users.GetById(users, userId));
      if check.Some? {
        return Err(check.value);
      }
      if listing.Err? {
        return Err(ErrInternal);
      }
      return Ok(listing.value);
    }

    method Get(productId: int) returns (r: Result<Product, ServiceError>)
      ensures r == GetOutcome(products, productId)
    {
      var found := Products.Get(products, productId);
      if found.Err? {
        return Err(ProductError(found.error));
      }
      return Ok(found.value);
    }

    method Create(userId: int, product: Product, id: int) returns (r: Result<int, ServiceError>)
      modifies this
      ensures (r, products) == CreateOutcome(old(products), old(users), userId, product, id)
      ensures users == old(users)
    {
      var check := UserCheck(Users.GetById(users, userId));
      if check.Some? {
        return Err(check.value);
      }
      var (created, after) := Products.CreateFixed(products, product, id);
      products := after;
      if created.Err? {
        return Err(ErrInternal);
      }
      return Ok(created.value);
    }

    method Delete(productId: int) returns (r: Option<ServiceError>)
      modifies this
      ensures (r, products) == DeleteOutcome(old(products), productId)
      ensures users == old(users)
    {
      var (e, after) := Products.Delete(products, productId);
      products := after;
      if e.Some? {
        return Some(ErrInternal);
      }
      return None;
    }
  }

  // ---- Properties ----

  /** GetAll consults the listing only after the user lookup succeeds; a
      failed listing is ErrInternal and a successful one is returned as
      it is. */
  lemma GetAllChecksUserFirst(users: Users.Table, userId: int, l: Result<seq<Product>, Repository.RepoError>, l': Result<seq<Product>, Repository.RepoError>)
    ensures Users.GetById(users, userId).Err? ==> GetAllOutcome(users, userId, l) == GetAllOutcome(users, userId, l')
    ensures GetAllOutcome(users, userId, l) == Err(ErrUserNotFound) <==>
              !users.down && forall u :: u in users.rows ==> u.Id != userId
    ensures Users.GetById(users, userId).Ok? ==>
              GetAllOutcome(users, userId, l) == if l.Ok? then Ok(l.value) else Err(ErrInternal)
  {
    Users.GetByIdFinds(users, userId);
  }

  /** Get finds a product with the id; ErrProductNotFound exactly when there
      is none, ErrInternal exactly when the database fails. */
  lemma GetTranslation(t: Products.ProductTable, productId: int)
    ensures GetOutcome(t, productId).Ok? ==> GetOutcome(t, productId).value in t.rows && GetOutcome(t, productId).value.Id == productId
    ensures GetOutcome(t, productId) == Err(ErrProductNotFound) <==> !t.down && forall p :: p in t.rows ==> p.Id != productId
    ensures GetOutcome(t, productId) == Err(ErrInternal) <==> t.down
  {
    Products.GetFinds(t, productId);
  }

  /** Create touches the products table only after the user lookup
      succeeds; it then returns the id the database assigned, and Get finds
      the product under it when the id was fresh. */
  lemma CreateEffect(t: Products.ProductTable, users: Users.Table, userId: int, product: Product, id: int)
    ensures var (r, t') := CreateOutcome(t, users, userId, product, id);
            (Users.GetById(users, userId).Err? ==> t' == t && r.Err? && r.error in {ErrUserNotFound, ErrInternal})
            && (r.Ok? <==> Users.GetById(users, userId).Ok? && !t.down)
            && (r.Err? ==> t' == t)
            && (r.Ok? ==> r.value == id && t'.rows == t.rows + [product.(Id := id)])
            && (r.Ok? && (forall p :: p in t.rows ==> p.Id != id) ==> GetOutcome(t', id) == Ok(product.(Id := id)))
  {
    Products.CreateThenGet(t, product, id);
  }

  /** Delete checks neither user nor seller: it removes the product whoever
      sells it, and fails only when the database does. */
  lemma DeleteAnyProduct(t: Products.ProductTable, productId: int)
    ensures var (r, t') := DeleteOutcome(t, productId);
            (r.None? <==> !t.down)
            && (r.Some? ==> r.value == ErrInternal && t' == t)
            && (r.None? ==> forall p :: p in t'.rows <==> p in t.rows && p.Id != productId)
  {
  }
}
