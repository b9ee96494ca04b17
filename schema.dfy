/** The storage schema the two entity maps configure
    (CatalogHub.Infrastructure/Data/Map/ProductMap.cs and CategoryMap.cs):
    column rules per row, primary keys, and the product-to-category foreign
    key. A store whose tables satisfy `ValidTables` is one the database
    accepts. */
module Schema {
  import opened Wrappers
  import opened Models
  import opened Tables

  const ProductNameMaxLength: nat := 200
  const ProductDescriptionMaxLength: nat := 2000
  const ProductImageUrlMaxLength: nat := 1000
  const CategoryNameMaxLength: nat := 150

  /** A required text column: present and at most `max` characters. */
  predicate RequiredText(t: Option<string>, max: nat)
  {
    t.Some? && |t.value| <= max
  }

  /** An optional text column: absent, or at most `max` characters. */
  predicate OptionalText(t: Option<string>, max: nat)
  {
    t.None? || |t.value| <= max
  }

  /** The column rules of `ProductMap.Configure`. `Id`, `Price`,
      `StockQuantity`, `IsActive`, `CategoryId` and `CreatedAt` are value
      types and so never absent; `UpdatedAt` is nullable. */
  predicate ValidProduct(p: Product)
  {
    && RequiredText(p.name, ProductNameMaxLength)
    && RequiredText(p.description, ProductDescriptionMaxLength)
    && OptionalText(p.imageUrl, ProductImageUrlMaxLength)
  }

  /** The column rules of `CategoryMap.Configure`. `Description` is not
      configured and is an unbounded nullable column. */
  predicate ValidCategory(c: Category)
  {
    RequiredText(c.name, CategoryNameMaxLength)
  }

  /** The foreign key `products.category_id -> categories.id`. */
  predicate ForeignKeysHold(products: seq<Product>, categories: seq<Category>)
  {
    forall p :: p in products ==> HasKey(categories, CategoryKey, p.categoryId)
  }

  /** Some product refers to category `id`; with `DeleteBehavior.Restrict`
      such a category cannot be deleted. */
  predicate Referenced(products: seq<Product>, id: Guid)
  {
    exists p :: p in products && p.categoryId == id
  }

  /** Everything the schema enforces on the two tables. */
  predicate ValidTables(products: seq<Product>, categories: seq<Category>)
  {
    && UniqueKeys(products, ProductKey)
    && UniqueKeys(categories, CategoryKey)
    && (forall p :: p in products ==> ValidProduct(p))
    && (forall c :: c in categories ==> ValidCategory(c))
    && ForeignKeysHold(products, categories)
  }

  /** Deleting a category that no product refers to keeps the foreign key. */
  lemma DeleteUnreferencedKeepsForeignKeys(products: seq<Product>, categories: seq<Category>, id: Guid)
    requires ForeignKeysHold(products, categories) && !Referenced(products, id)
    ensures ForeignKeysHold(products, Remove(categories, CategoryKey, id))
  {
    RemoveKeys(categories, CategoryKey, id);
  }

  /** Deleting a category that some product refers to would orphan that
      product, which is why the database refuses it. */
  lemma DeleteReferencedBreaksForeignKeys(products: seq<Product>, categories: seq<Category>, id: Guid)
    requires Referenced(products, id)
    ensures !ForeignKeysHold(products, Remove(categories, CategoryKey, id))
  {
    RemoveKeys(categories, CategoryKey, id);
    var p :| p in products && p.categoryId == id;
    assert !HasKey(Remove(categories, CategoryKey, id), CategoryKey, p.categoryId);
  }

  /** A product straight from its initialiser breaks the schema: `Name` and
      `Description` must be assigned first. */
  lemma NewProductNotStorable(id: Guid, now: Timestamp)
    ensures !ValidProduct(NewProduct(id, now))
  {
  }

  /** Assigning a name and a description within their limits makes a new
      product storable; every other initialiser default already is. */
  lemma NewProductWithTextIsValid(id: Guid, now: Timestamp, name: string, description: string)
    ensures ValidProduct(NewProduct(id, now).(name := Some(name), description := Some(description)))
        <==> |name| <= ProductNameMaxLength && |description| <= ProductDescriptionMaxLength
  {
  }

  /** A new category is storable exactly when it is given a name of at most
      150 characters. */
  lemma NewCategoryNeedsName(id: Guid, name: Option<string>, description: Option<string>)
    ensures !ValidCategory(NewCategory(id))
    ensures ValidCategory(NewCategory(id).(name := name, description := description))
        <==> name.Some? && |name.value| <= CategoryNameMaxLength
  {
  }

  /** As written: the row EF Core inserts for `p`. `IsActive` is a `bool`
      with a database default (`HasDefaultValue(true)`), so EF Core treats
      `false`, the CLR default, as "not set", leaves the column out of the
      INSERT, and the database fills in `true`. Every other column is
      inserted as given. */
  function InsertedProduct(p: Product): (row: Product)
    ensures row.isActive
    ensures row.(isActive := p.isActive) == p
    ensures row == p <==> p.isActive
  {
    if p.isActive then p else p.(isActive := true)
  }

  /** The discrepancy: an inactive product, once created, is read back as
      active, so lookup by its id does not return what was created. */
  lemma InactiveProductIsStoredActive(products: seq<Product>, p: Product)
    requires !p.isActive && !HasKey(products, ProductKey, p.id)
    ensures Find(products + [InsertedProduct(p)], ProductKey, p.id) == Some(p.(isActive := true))
    ensures Find(products + [InsertedProduct(p)], ProductKey, p.id) != Some(p)
  {
    FindAppend(products, ProductKey, InsertedProduct(p), p.id);
  }
}
