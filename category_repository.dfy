/** CatalogHub.Infrastructure/Repository/CategoryRepository.cs: writes that
    change the `Categories` table in place, lookup with the category's
    products loaded, and paginated listing. */
module CategoryRepo {
  import opened Wrappers
  import opened Models
  import opened Tables
  import opened Listing
  import opened Schema
  import opened Context

  /** The products of category `id`, as `Include(c => c.Products)` loads them. */
  function ProductsOf(products: seq<Product>, id: Guid): (r: seq<Product>)
    ensures forall p :: multiset(r)[p] == if p.categoryId == id then multiset(products)[p] else 0
  {
    Where(products, (p: Product) => p.categoryId == id)
  }

  /** `GetByIdAsync(id)`: the stored category with that id, its `Products`
      being exactly the stored products that refer to it; or nothing. */
  function GetById(categories: seq<Category>, products: seq<Product>, id: Guid): (r: Option<Category>)
    ensures r.Some? <==> HasKey(categories, CategoryKey, id)
    ensures r.Some? ==> r.value.id == id
    ensures r.Some? ==> exists c :: c in categories && c.id == id && r.value == c.(products := r.value.products)
    ensures r.Some? ==> forall p :: p in r.value.products <==> p in products && p.categoryId == id
    ensures r.Some? ==> forall p :: multiset(r.value.products)[p] ==
                          if p.categoryId == id then multiset(products)[p] else 0
  {
    match Find(categories, CategoryKey, id)
    case None => None
    case Some(row) =>
      var loaded := ProductsOf(products, id);
      assert forall p :: p in loaded <==> p in multiset(loaded);
      Some(row.(products := loaded))
  }

  /** In a table with unique ids, lookup returns the stored row with its
      products loaded. */
  lemma GetByIdFindsStored(categories: seq<Category>, products: seq<Product>, c: Category)
    requires UniqueKeys(categories, CategoryKey) && c in categories
    ensures GetById(categories, products, c.id) == Some(c.(products := ProductsOf(products, c.id)))
  {
    FindUnique(categories, CategoryKey, c);
  }

  /** The columns of a category row. The `categories` table has no column
      for `Products`, so a category read without `Include` carries the empty
      collection its initialiser gives it, and a write stores no products. */
  function Row(c: Category): (r: Category)
    ensures r.products == []
    ensures r.(products := c.products) == c
  {
    c.(products := [])
  }

  /** The rows of a list of categories, in the same order: names and keys
      are those of the list, so its order and key uniqueness carry over. */
  function Rows(s: seq<Category>): (r: seq<Category>)
    ensures |r| == |s|
    ensures forall k :: 0 <= k < |s| ==> r[k] == Row(s[k])
    ensures SortedBy(s, CategoryName) ==> SortedBy(r, CategoryName)
    ensures UniqueKeys(s, CategoryKey) ==> UniqueKeys(r, CategoryKey)
  {
    seq(|s|, k requires 0 <= k < |s| => Row(s[k]))
  }

  /** `GetAllAsync(pageNumber, pageSize)`: one page of the categories in name
      order, with the number of all categories. The query has no `Include`,
      so no listed category carries its products. */
  function GetAll(categories: seq<Category>, pageNumber: int, pageSize: int): (r: PagedList<Category>)
    requires pageNumber >= 1 && pageSize >= 1
    ensures r.totalCount == |categories|
    ensures |r.items| == Min(pageSize, Max(0, |categories| - Offset(pageNumber, pageSize)))
    ensures Offset(pageNumber, pageSize) >= |categories| ==> r.items == []
    ensures forall k :: 0 <= k < |r.items| ==>
              r.items[k] == Row(OrderBy(categories, CategoryName)[Offset(pageNumber, pageSize) + k])
    ensures forall k :: 0 <= k < |r.items| ==> r.items[k].products == []
    ensures forall k :: 0 <= k < |r.items| ==> exists c :: c in categories && r.items[k] == Row(c)
    ensures SortedBy(r.items, CategoryName)
    ensures UniqueKeys(categories, CategoryKey) ==> UniqueKeys(r.items, CategoryKey)
  {
    var page := GetAllPaged(categories, CategoryName, pageNumber, pageSize).items;
    UniqueKeysSubBag(categories, page, CategoryKey);
    RowsOfStored(categories, page);
    PagedList(Rows(page), |categories|)
  }

  /** Every row listed from a selection of stored categories is the row of a
      stored category. */
  lemma RowsOfStored(categories: seq<Category>, page: seq<Category>)
    requires multiset(page) <= multiset(categories)
    ensures forall k :: 0 <= k < |page| ==> exists c :: c in categories && Rows(page)[k] == Row(c)
  {
    var r := Rows(page);
    forall k | 0 <= k < |page| ensures exists c :: c in categories && r[k] == Row(c) {
      assert page[k] in multiset(page) && page[k] in multiset(categories);
      assert page[k] in categories && r[k] == Row(page[k]);
    }
  }

  /** The category `CreateAsync` inserts: its `Id` as given, or, when it is
      `Guid.Empty`, a key generated on add (the convention for a single
      `Guid` key, CategoryMap.cs:13), which is also written back into the
      argument. */
  function AssignKey(category: Category, categories: seq<Category>): (r: Category)
    ensures r == category.(id := r.id)
    ensures r.id != EmptyGuid
    ensures category.id != EmptyGuid ==> r == category
    ensures category.id == EmptyGuid ==> !HasKey(categories, CategoryKey, r.id)
  {
    if category.id == EmptyGuid then category.(id := FreshKey(categories, CategoryKey)) else category
  }

  /** The repository over the context's `Categories` table. */
  class CategoryRepository {
    const context: CatalogContext

    constructor (context: CatalogContext)
      ensures this.context == context
    {
      this.context := context;
    }

    /** `CreateAsync`: inserts the row of `category`, with a generated key
      when its `Id` is `Guid.Empty`, and returns the argument. */
    method Create(category: Category) returns (r: Result<Category, StoreError>)
      requires context.Valid()
      modifies context
      ensures context.Valid()
      ensures context.products == old(context.products)
      ensures r.Ok? <==> && ValidCategory(category)
                         && (category.id == EmptyGuid || !HasKey(old(context.categories), CategoryKey, category.id))
      ensures r.Err? ==> r.error == (if !ValidCategory(category) then ConstraintViolation else KeyConflict)
      ensures r.Ok? ==> r.value == AssignKey(category, old(context.categories))
                        && context.categories == old(context.categories) + [Row(r.value)]
      ensures r.Err? ==> context.categories == old(context.categories)
      ensures r.Ok? ==> Find(context.categories, CategoryKey, r.value.id) == Some(Row(r.value))
      ensures r.Ok? ==> forall id :: id != r.value.id ==>
                Find(context.categories, CategoryKey, id) == Find(old(context.categories), CategoryKey, id)
    {
      if !ValidCategory(category) {
        return Err(ConstraintViolation);
      }
      if category.id != EmptyGuid && HasKey(context.categories, CategoryKey, category.id) {
        return Err(KeyConflict);
      }
      var keyed := AssignKey(category, context.categories);
      var row := Row(keyed);
      UniqueKeysAppend(context.categories, CategoryKey, row);
      forall id ensures Find(context.categories + [row], CategoryKey, id) ==
                        if id == row.id then Some(row) else Find(context.categories, CategoryKey, id)
      {
        FindAppend(context.categories, CategoryKey, row, id);
      }
      forall p | p in context.products
        ensures HasKey(context.categories + [row], CategoryKey, p.categoryId)
      {
        var c :| c in context.categories && c.id == p.categoryId;
        assert c in context.categories + [row];
      }
      context.categories := context.categories + [row];
      r := Ok(keyed);
    }

    /** `UpdateAsync`: overwrites the row with the same id by the row of
      `category` and returns the argument. EF Core tracks an argument whose
      `Id` is `Guid.Empty` as new, so that update is an insert with a
      generated key. */
    method Update(category: Category) returns (r: Result<Category, StoreError>)
      requires context.Valid()
      modifies context
      ensures context.Valid()
      ensures context.products == old(context.products)
      ensures r.Ok? <==> && (category.id == EmptyGuid || HasKey(old(context.categories), CategoryKey, category.id))
                         && ValidCategory(category)
      ensures r.Err? ==> r.error == (if category.id != EmptyGuid && !HasKey(old(context.categories), CategoryKey, category.id)
                                     then RowNotFound
                                     else ConstraintViolation)
      ensures r.Ok? && category.id != EmptyGuid ==>
                r.value == category && context.categories == Replace(old(context.categories), CategoryKey, Row(category))
      ensures r.Ok? && category.id == EmptyGuid ==>
                r.value == AssignKey(category, old(context.categories))
                && context.categories == old(context.categories) + [Row(r.value)]
      ensures r.Err? ==> context.categories == old(context.categories)
      ensures category.id != EmptyGuid ==> |context.categories| == |old(context.categories)|
      ensures r.Ok? ==> Find(context.categories, CategoryKey, r.value.id) == Some(Row(r.value))
      ensures r.Ok? ==> forall id :: id != r.value.id ==>
                Find(context.categories, CategoryKey, id) == Find(old(context.categories), CategoryKey, id)
    {
      if category.id == EmptyGuid {
        r := Create(category);
        return;
      }
      if !HasKey(context.categories, CategoryKey, category.id) {
        return Err(RowNotFound);
      }
      if !ValidCategory(category) {
        return Err(ConstraintViolation);
      }
      var row := Row(category);
      var updated := Replace(context.categories, CategoryKey, row);
      ReplaceKeepsKeys(context.categories, CategoryKey, row);
      forall id ensures Find(updated, CategoryKey, id) ==
                        if id != row.id then Find(context.categories, CategoryKey, id)
                        else if HasKey(context.categories, CategoryKey, id) then Some(row) else None
      {
        FindReplace(context.categories, CategoryKey, row, id);
      }
      assert forall c :: c in updated ==> c == row || c in context.categories;
      context.categories := updated;
      r := Ok(category);
    }

    /** `DeleteAsync`: deletes the category with the argument's id and
      returns the argument. The foreign key is `DeleteBehavior.Restrict`, so
      a category that some product still refers to is not deleted. */
    method Delete(category: Category) returns (r: Result<Category, StoreError>)
      requires context.Valid()
      modifies context
      ensures context.Valid()
      ensures context.products == old(context.products)
      ensures r.Ok? <==> HasKey(old(context.categories), CategoryKey, category.id)
                         && !Referenced(context.products, category.id)
      ensures r.Err? ==> r.error == (if !HasKey(old(context.categories), CategoryKey, category.id) then RowNotFound
                                     else ForeignKeyViolation)
      ensures r.Err? ==> context.categories == old(context.categories)
      ensures r.Ok? ==> r.value == category && context.categories == Remove(old(context.categories), CategoryKey, category.id)
      ensures r.Ok? ==> |context.categories| == |old(context.categories)| - 1
      ensures r.Ok? ==> Find(context.categories, CategoryKey, category.id) == None
      ensures forall id :: id != category.id ==>
                Find(context.categories, CategoryKey, id) == Find(old(context.categories), CategoryKey, id)
    {
      if !HasKey(context.categories, CategoryKey, category.id) {
        return Err(RowNotFound);
      }
      if Referenced(context.products, category.id) {
        return Err(ForeignKeyViolation);
      }
      var stored := Find(context.categories, CategoryKey, category.id).value;
      var remaining := Remove(context.categories, CategoryKey, category.id);
      RemoveKeys(context.categories, CategoryKey, category.id);
      DeleteUnreferencedKeepsForeignKeys(context.products, context.categories, category.id);
      RemoveOne(context.categories, CategoryKey, stored);
      forall id ensures Find(remaining, CategoryKey, id) ==
                        if id == category.id then None else Find(context.categories, CategoryKey, id)
      {
        FindRemove(context.categories, CategoryKey, category.id, id);
      }
      assert forall c :: c in remaining ==> c in multiset(context.categories);
      context.categories := remaining;
      r := Ok(category);
    }
  }
}
