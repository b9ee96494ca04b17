/** The store behind both repositories: the `Products` and `Categories` sets
    of the EF Core context, as two tables that writes replace wholesale. */
module Context {
  import opened Models
  import opened Schema

  /** Why the database refuses a write (`SaveChangesAsync` throws). */
  datatype StoreError =
    | ConstraintViolation  // a required column is absent or a text column is too long
    | KeyConflict          // INSERT with a primary key already in the table
    | RowNotFound          // UPDATE or DELETE matched no row (a concurrency exception)
    | ForeignKeyViolation  // unknown category, or DELETE of a category still referenced

  class CatalogContext {
    var products: seq<Product>
    var categories: seq<Category>

    /** The tables satisfy every rule of the schema. */
    ghost predicate Valid()
      reads this
    {
      ValidTables(products, categories)
    }

    /** An empty database. */
    constructor ()
      ensures Valid() && products == [] && categories == []
    {
      products := [];
      categories := [];
    }
  }
}
