/** The two catalog entities, as records with the defaults their initialisers
    give them (CatalogHub.Domain/Models/Product.cs and Category.cs). */
module Models {
  import opened Wrappers

  /** A GUID, abstracted to a natural number. */
  type Guid = nat

  /** `Guid.Empty`, the value of an unassigned GUID property. */
  const EmptyGuid: Guid := 0

  /** A point in time; the clock itself is not modelled. */
  type Timestamp = int

  /** A product row. `name` and `description` are `None` until assigned (their
      C# initialiser is `null!`); `Price` is an exact number here. The
      `Category` navigation property is not part of the record. */
  datatype Product = Product(
    id: Guid,
    name: Option<string>,
    description: Option<string>,
    price: real,
    stockQuantity: int,
    isActive: bool,
    categoryId: Guid,
    imageUrl: Option<string>,
    createdAt: Timestamp,
    updatedAt: Option<Timestamp>)

  /** A category row together with its `Products` collection. */
  datatype Category = Category(
    id: Guid,
    name: Option<string>,
    description: Option<string>,
    products: seq<Product>)

  /** `new Product()`: `id` stands for `Guid.NewGuid()` and `now` for
      `DateTime.UtcNow`, both supplied by the caller. */
  function NewProduct(id: Guid, now: Timestamp): (p: Product)
    ensures p.id == id && p.createdAt == now
    ensures p.name.None? && p.description.None?
    ensures p.price == 0.0 && p.stockQuantity == 0 && p.isActive
    ensures p.categoryId == EmptyGuid
    ensures p.imageUrl.None? && p.updatedAt.None?
  {
    Product(id, None, None, 0.0, 0, true, EmptyGuid, None, now, None)
  }

  /** `new Category()`: `id` stands for `Guid.NewGuid()`. */
  function NewCategory(id: Guid): (c: Category)
    ensures c.id == id && c.name.None? && c.description.None? && c.products == []
  {
    Category(id, None, None, [])
  }

  /** The primary key of each table, as a function value for the generic
      table operations. */
  function ProductKey(p: Product): Guid { p.id }

  function CategoryKey(c: Category): Guid { c.id }

  /** The sort key of `OrderBy(x => x.Name)`. The column is NOT NULL, so a
      stored row never takes the empty-string branch. */
  function ProductName(p: Product): string { p.name.GetOr("") }

  function CategoryName(c: Category): string { c.name.GetOr("") }
}
