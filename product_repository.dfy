/** CatalogHub.Infrastructure/Repository/ProductRepository.cs: writes that
    change the `Products` table in place, and the three queries over it. */
module ProductRepo {
  import opened Wrappers
  import opened Models
  import opened Tables
  import opened Listing
  import opened Schema
  import opened Context

  /** `GetByIdAsync(id)`: the product with that id, or nothing. */
  function GetById(products: seq<Product>, id: Guid): (r: Option<Product>)
    ensures r.Some? ==> r.value in products && r.value.id == id
    ensures r.None? <==> forall p :: p in products ==> p.id != id
  {
    Find(products, ProductKey, id)
  }

  /** In a table with unique ids, lookup returns the stored product itself. */
  lemma GetByIdFindsStored(products: seq<Product>, p: Product)
    requires UniqueKeys(products, ProductKey) && p in products
    ensures GetById(products, p.id) == Some(p)
  {
    FindUnique(products, ProductKey, p);
  }

  /** `GetAllAsync(pageNumber, pageSize)`: one page of the products in name
      order, with the number of all products. */
  function GetAll(products: seq<Product>, pageNumber: int, pageSize: int): (r: PagedList<Product>)
    requires pageNumber >= 1 && pageSize >= 1
    ensures r.totalCount == |products|
    ensures |r.items| == Min(pageSize, Max(0, |products| - Offset(pageNumber, pageSize)))
    ensures Offset(pageNumber, pageSize) >= |products| ==> r.items == []
    ensures forall k :: 0 <= k < |r.items| ==>
              r.items[k] == OrderBy(products, ProductName)[Offset(pageNumber, pageSize) + k]
    ensures SortedBy(r.items, ProductName)
    ensures multiset(r.items) <= multiset(products)
    ensures UniqueKeys(products, ProductKey) ==> UniqueKeys(r.items, ProductKey)
  {
    var r := GetAllPaged(products, ProductName, pageNumber, pageSize);
    UniqueKeysSubBag(products, r.items, ProductKey);
    r
  }

  /** The conjunction of the filters that are present; an absent filter
      imposes no condition. */
  predicate MatchesFilters(p: Product, categoryId: Option<Guid>, minPrice: Option<real>,
                           maxPrice: Option<real>, isActive: Option<bool>)
  {
    && (categoryId.Some? ==> p.categoryId == categoryId.value)
    && (minPrice.Some? ==> p.price >= minPrice.value)
    && (maxPrice.Some? ==> p.price <= maxPrice.value)
    && (isActive.Some? ==> p.isActive == isActive.value)
  }

  /** `if (present) query = query.Where(f);` */
  function WhereIf(query: seq<Product>, present: bool, f: Product -> bool): (r: seq<Product>)
    ensures forall p :: multiset(r)[p] == if present && !f(p) then 0 else multiset(query)[p]
  {
    if present then Where(query, f) else query
  }

  /** The four conditional `Where`s of `GetByFiltersAsync`, before ordering. */
  function ApplyFilters(products: seq<Product>, categoryId: Option<Guid>, minPrice: Option<real>,
                        maxPrice: Option<real>, isActive: Option<bool>): (r: seq<Product>)
    ensures forall p :: multiset(r)[p] ==
              if MatchesFilters(p, categoryId, minPrice, maxPrice, isActive) then multiset(products)[p] else 0
  {
    var q1 := WhereIf(products, categoryId.Some?, (p: Product) => p.categoryId == categoryId.GetOr(EmptyGuid));
    var q2 := WhereIf(q1, minPrice.Some?, (p: Product) => p.price >= minPrice.GetOr(0.0));
    var q3 := WhereIf(q2, maxPrice.Some?, (p: Product) => p.price <= maxPrice.GetOr(0.0));
    WhereIf(q3, isActive.Some?, (p: Product) => p.isActive == isActive.GetOr(false))
  }

  /** `GetByFiltersAsync`: the filtered products in name order. It holds
      every matching product as often as the table does, and nothing else. */
  function GetByFilters(products: seq<Product>, categoryId: Option<Guid>, minPrice: Option<real>,
                        maxPrice: Option<real>, isActive: Option<bool>): (r: seq<Product>)
    ensures SortedBy(r, ProductName)
    ensures forall p :: multiset(r)[p] ==
              if MatchesFilters(p, categoryId, minPrice, maxPrice, isActive) then multiset(products)[p] else 0
    ensures forall p :: p in r <==> p in products && MatchesFilters(p, categoryId, minPrice, maxPrice, isActive)
    ensures UniqueKeys(products, ProductKey) ==> UniqueKeys(r, ProductKey)
  {
    var r := OrderBy(ApplyFilters(products, categoryId, minPrice, maxPrice, isActive), ProductName);
    assert forall p :: p in r <==> p in multiset(r);
    assert forall p :: p in products <==> p in multiset(products);
    UniqueKeysSubBag(products, r, ProductKey);
    r
  }

  /** With no filter present, every product is returned. */
  lemma NoFiltersReturnsAll(products: seq<Product>)
    ensures multiset(GetByFilters(products, None, None, None, None)) == multiset(products)
  {
    var r := GetByFilters(products, None, None, None, None);
    assert forall p :: multiset(r)[p] == multiset(products)[p];
  }

  /** The row `CreateAsync` inserts for `product`. The key is a single
      `Guid` (ProductMap.cs:13), which EF Core generates on add by
      convention: an `Id` of `Guid.Empty` is replaced by a new key, which is
      also written back into the argument; any other `Id` is kept. */
  function AssignKey(product: Product, products: seq<Product>): (r: Product)
    ensures r == product.(id := r.id)
    ensures r.id != EmptyGuid
    ensures product.id != EmptyGuid ==> r == product
    ensures product.id == EmptyGuid ==> !HasKey(products, ProductKey, r.id)
  {
    if product.id == EmptyGuid then product.(id := FreshKey(products, ProductKey)) else product
  }

  /** A product from the initialiser, given its text columns within their
      limits and an existing category, is one `Create` accepts: its
      initialiser key is fresh and kept as it is. */
  lemma NewProductIsCreatable(products: seq<Product>, categories: seq<Category>, now: Timestamp,
                              name: string, description: string, categoryId: Guid)
    requires |name| <= ProductNameMaxLength && |description| <= ProductDescriptionMaxLength
    requires HasKey(categories, CategoryKey, categoryId)
    ensures var p := NewProduct(FreshKey(products, ProductKey), now)
                       .(name := Some(name), description := Some(description), categoryId := categoryId);
            && ValidProduct(p)
            && !HasKey(products, ProductKey, p.id)
            && HasKey(categories, CategoryKey, p.categoryId)
            && AssignKey(p, products) == p
  {
    var p0 := NewProduct(FreshKey(products, ProductKey), now);
    NewProductWithTextIsValid(p0.id, now, name, description);
  }

  /** The repository over the context's `Products` table. */
  class ProductRepository {
    const context: CatalogContext

    constructor (context: CatalogContext)
      ensures this.context == context
    {
      this.context := context;
    }

    /** `CreateAsync`: inserts `product`, with a generated key when its `Id`
      is `Guid.Empty`, and returns it. */
    method Create(product: Product) returns (r: Result<Product, StoreError>)
      requires context.Valid()
      modifies context
      ensures context.Valid()
      ensures context.categories == old(context.categories)
      ensures r.Ok? <==> && ValidProduct(product)
                         && (product.id == EmptyGuid || !HasKey(old(context.products), ProductKey, product.id))
                         && HasKey(context.categories, CategoryKey, product.categoryId)
      ensures r.Err? ==> r.error == (if !ValidProduct(product) then ConstraintViolation
                                     else if product.id != EmptyGuid && HasKey(old(context.products), ProductKey, product.id)
                                     then KeyConflict
                                     else ForeignKeyViolation)
      ensures r.Ok? ==> r.value == AssignKey(product, old(context.products))
                        && context.products == old(context.products) + [r.value]
      ensures r.Err? ==> context.products == old(context.products)
      ensures r.Ok? ==> GetById(context.products, r.value.id) == Some(r.value)
      ensures r.Ok? ==> forall id :: id != r.value.id ==>
                GetById(context.products, id) == GetById(old(context.products), id)
    {
      if !ValidProduct(product) {
        return Err(ConstraintViolation);
      }
      if product.id != EmptyGuid && HasKey(context.products, ProductKey, product.id) {
        return Err(KeyConflict);
      }
      if !HasKey(context.categories, CategoryKey, product.categoryId) {
        return Err(ForeignKeyViolation);
      }
      var row := AssignKey(product, context.products);
      UniqueKeysAppend(context.products, ProductKey, row);
      forall id ensures Find(context.products + [row], ProductKey, id) ==
                        if id == row.id then Some(row) else Find(context.products, ProductKey, id)
      {
        FindAppend(context.products, ProductKey, row, id);
      }
      context.products := context.products + [row];
      r := Ok(row);
    }

    /** `UpdateAsync`: overwrites every column of the product with the same
      id and returns the argument. EF Core tracks an argument whose `Id` is
      `Guid.Empty` as new, so that update is an insert with a generated key. */
    method Update(product: Product) returns (r: Result<Product, StoreError>)
      requires context.Valid()
      modifies context
      ensures context.Valid()
      ensures context.categories == old(context.categories)
      ensures r.Ok? <==> && (product.id == EmptyGuid || HasKey(old(context.products), ProductKey, product.id))
                         && ValidProduct(product)
                         && HasKey(context.categories, CategoryKey, product.categoryId)
      ensures r.Err? ==> r.error == (if product.id != EmptyGuid && !HasKey(old(context.products), ProductKey, product.id)
                                     then RowNotFound
                                     else if !ValidProduct(product) then ConstraintViolation
                                     else ForeignKeyViolation)
      ensures r.Ok? && product.id != EmptyGuid ==>
                r.value == product && context.products == Replace(old(context.products), ProductKey, product)
      ensures r.Ok? && product.id == EmptyGuid ==>
                r.value == AssignKey(product, old(context.products))
                && context.products == old(context.products) + [r.value]
      ensures r.Err? ==> context.products == old(context.products)
      ensures product.id != EmptyGuid ==> |context.products| == |old(context.products)|
      ensures r.Ok? ==> GetById(context.products, r.value.id) == Some(r.value)
      ensures r.Ok? ==> forall id :: id != r.value.id ==>
                GetById(context.products, id) == GetById(old(context.products), id)
    {
      if product.id == EmptyGuid {
        r := Create(product);
        return;
      }
      if !HasKey(context.products, ProductKey, product.id) {
        return Err(RowNotFound);
      }
      if !ValidProduct(product) {
        return Err(ConstraintViolation);
      }
      if !HasKey(context.categories, CategoryKey, product.categoryId) {
        return Err(ForeignKeyViolation);
      }
      var updated := Replace(context.products, ProductKey, product);
      ReplaceKeepsKeys(context.products, ProductKey, product);
      forall id ensures Find(updated, ProductKey, id) ==
                        if id != product.id then Find(context.products, ProductKey, id)
                        else if HasKey(context.products, ProductKey, id) then Some(product) else None
      {
        FindReplace(context.products, ProductKey, product, id);
      }
      assert forall q :: q in updated ==> q == product || q in context.products;
      context.products := updated;
      r := Ok(product);
    }

    /** `DeleteAsync`: deletes the product with the argument's id and returns
      the argument. */
    method Delete(product: Product) returns (r: Result<Product, StoreError>)
      requires context.Valid()
      modifies context
      ensures context.Valid()
      ensures context.categories == old(context.categories)
      ensures r.Ok? <==> HasKey(old(context.products), ProductKey, product.id)
      ensures r.Err? ==> r.error == RowNotFound && context.products == old(context.products)
      ensures r.Ok? ==> r.value == product && context.products == Remove(old(context.products), ProductKey, product.id)
      ensures r.Ok? ==> |context.products| == |old(context.products)| - 1
      ensures GetById(context.products, product.id) == None
      ensures forall id :: id != product.id ==> GetById(context.products, id) == GetById(old(context.products), id)
    {
      if !HasKey(context.products, ProductKey, product.id) {
        return Err(RowNotFound);
      }
      var stored := Find(context.products, ProductKey, product.id).value;
      var remaining := Remove(context.products, ProductKey, product.id);
      RemoveKeys(context.products, ProductKey, product.id);
      RemoveOne(context.products, ProductKey, stored);
      forall id ensures Find(remaining, ProductKey, id) ==
                        if id == product.id then None else Find(context.products, ProductKey, id)
      {
        FindRemove(context.products, ProductKey, product.id, id);
      }
      assert forall q :: q in remaining ==> q in multiset(context.products);
      context.products := remaining;
      r := Ok(product);
    }
  }
}
