# CatalogHub catalog store, modelled in Dafny

This project models the persistence core of CatalogHub, a product-catalog backend.
The store holds two tables, `products` and `categories`. Two repositories work on it:

- `ProductRepository` creates, updates and deletes products. It looks a product up by id,
  lists one page of products in name order together with the total count, and answers a query
  with four optional filters (category, minimum price, maximum price, active flag).
- `CategoryRepository` creates, updates and deletes categories. It looks a category up by id
  with its products loaded, and lists one page of categories in name order.

The entity maps (`ProductMap`, `CategoryMap`) give the rules the database enforces:

- primary keys on `Id`;
- required and maximum-length text columns;
- a foreign key from `products.category_id` to `categories.id` with restrict-on-delete.

The entity classes (`Product`, `Category`) give the initial values of a new entity.

Layout, one module per file:

- `wrappers.dfy` (`Wrappers`): `Option` and `Result`.
- `ordering.dfy` (`Ordering`): the name order, lexicographic on characters, proved total and
  transitive.
- `models.dfy` (`Models`): the `Product` and `Category` records, their initialisers, and
  their key and name accessors.
- `tables.dfy` (`Tables`): generic operations on a table keyed by id. `Find` is
  `FirstOrDefault` by key. `Where` filters. `Replace` is `UPDATE ... WHERE id`. `Remove` is
  `DELETE ... WHERE id`. `FreshKey` stands in for `Guid.NewGuid()`. The lemmas say what each
  write does to every lookup and to key uniqueness.
- `listing.dfy` (`Listing`): `OrderBy` (sorted and a permutation), `Skip`/`Take`, `Page`,
  and `GetAllPaged` (count before slicing). It also holds the 32-bit offset as the source
  computes it.
- `schema.dfy` (`Schema`): the row rules `ValidProduct` and `ValidCategory`, the foreign key,
  and `ValidTables`, which combines all rules the database enforces. It also holds the insert
  default of `is_active`.
- `context.dfy` (`Context`): the class `CatalogContext` with the two tables as mutable fields.
  Its invariant `Valid()` is `ValidTables`.
- `product_repository.dfy` (`ProductRepo`) and `category_repository.dfy` (`CategoryRepo`): the
  queries as functions over the tables, and each repository as a class whose `Create`,
  `Update` and `Delete` methods change the context. Each method keeps `Valid()` and states the
  new table, the returned value and the error cases.

Writes follow what the database does with the statement EF Core sends, with two corrections
listed under "## Findings": an inactive product is stored inactive, and page offsets are
computed exactly. The code as written is modelled beside them (`Schema.InsertedProduct`,
`Listing.OffsetAsWritten`). The whole write is refused, with the store unchanged, when:

- a column rule is broken (`ConstraintViolation`);
- an inserted id is taken (`KeyConflict`);
- an `UPDATE` or `DELETE` matches no row (`RowNotFound`, EF Core's concurrency exception);
- a category id is unknown, or a category to delete is still referenced (`ForeignKeyViolation`).

On success the repository returns its argument. When the argument's `Id` is `Guid.Empty`,
EF Core generates a key on add and writes it back into the argument, so the returned entity
carries the new key. EF Core tracks such an argument to `Update` as new, so that update is an
insert. A category row stores no products: the `categories` table has no such column, and a
category listed without `Include` has an empty `Products` collection.

Three checks one might expect are not made by this code, and the model does not add them:

- Price and stock quantity are not checked for being non-negative.
- Category existence for a product is enforced only by the foreign key, when the database
  executes the write. The product and category services are not part of this model.
- Deleting a referenced category is refused by the database (`DeleteBehavior.Restrict`). The
  model therefore returns `ForeignKeyViolation` rather than leaving an orphan.

## Model

| member | source | states |
|---|---|---|
| `Models.NewProduct` | CatalogHub.Domain/Models/Product.cs:5-15 | a new product has the given fresh id and creation time, stock 0, active, no image, no update time, price 0, `Guid.Empty` category, and name and description not yet assigned |
| `Models.NewCategory` | CatalogHub.Domain/Models/Category.cs:5-8 | a new category has the given id, no name yet, no description, and an empty `Products` collection |
| `Tables.FreshKey` | CatalogHub.Domain/Models/Product.cs:5 | a new id is greater than every stored key, so no row has it, and it is never `Guid.Empty` |
| `Tables.Replace` | CatalogHub.Infrastructure/Repository/ProductRepository.cs:17-22 | `UPDATE ... WHERE id`: the table keeps its length, every row with the argument's key reads as the argument, and every other row is untouched |
| `Tables.Remove` | CatalogHub.Infrastructure/Repository/ProductRepository.cs:24-29 | `DELETE ... WHERE id`: every row with that key is gone and every other row stays, as often as it was stored |
| `Tables.Find` | CatalogHub.Infrastructure/Repository/ProductRepository.cs:35 | `FirstOrDefault(x => x.Id == id)` returns a row iff some row has that key, and the row it returns is stored and has that key |
| `Tables.Where` | CatalogHub.Infrastructure/Repository/ProductRepository.cs:62 | `Where(f)` keeps each row satisfying `f` exactly as often as the table holds it and drops every other row |
| `Tables.FindUnique` | CatalogHub.Infrastructure/Data/Map/ProductMap.cs:13 | with unique keys, lookup by a stored row's key returns that very row |
| `Tables.FindAppend` | CatalogHub.Infrastructure/Repository/ProductRepository.cs:10-15 | after inserting a row with a new key, that key finds the new row and every other key finds what it found before |
| `Tables.FindReplace` | CatalogHub.Infrastructure/Repository/ProductRepository.cs:17-22 | after an update by key, the updated key finds the new row if the key was stored and nothing otherwise; every other key finds what it found before |
| `Tables.FindRemove` | CatalogHub.Infrastructure/Repository/ProductRepository.cs:24-29 | after a delete by key, that key finds nothing and every other key finds what it found before |
| `Tables.UniqueKeysNoDuplicates` | CatalogHub.Infrastructure/Data/Map/ProductMap.cs:13 | a table with a primary key holds no row twice |
| `Tables.UniqueKeysSubBag` | CatalogHub.Infrastructure/Data/Map/CategoryMap.cs:13 | any selection of rows from a table with unique keys (a filter, a page, a reordering) has unique keys |
| `Tables.UniqueKeysAppend` | CatalogHub.Infrastructure/Repository/CategoryRepository.cs:10-15 | inserting a row whose key is not stored keeps keys unique |
| `Tables.ReplaceKeepsKeys` | CatalogHub.Infrastructure/Repository/CategoryRepository.cs:17-22 | an update by key keeps every row's key in place, so uniqueness and the set of stored keys are unchanged |
| `Tables.RemoveKeys` | CatalogHub.Infrastructure/Repository/CategoryRepository.cs:24-29 | a delete by key keeps keys unique, and afterwards exactly the other stored keys remain |
| `Tables.RemoveOne` | CatalogHub.Infrastructure/Repository/ProductRepository.cs:26 | with unique keys, deleting a stored row's key removes exactly that one row and keeps every other row |
| `Ordering.NameLeTotal` | CatalogHub.Infrastructure/Repository/ProductRepository.cs:42 | any two names are comparable in the order used by `OrderBy(p => p.Name)` |
| `Ordering.NameLeTransitive` | CatalogHub.Infrastructure/Repository/CategoryRepository.cs:39 | the name order is transitive |
| `Listing.OrderBy` | CatalogHub.Infrastructure/Repository/ProductRepository.cs:73 | the ordered result is sorted by name ascending and is a permutation of its input |
| `Listing.Skip` | CatalogHub.Infrastructure/Repository/ProductRepository.cs:47 | LINQ `Skip(n)`: drops the first `n` rows, all of them when `n` is past the end, none when `n` is at most 0 |
| `Listing.Take` | CatalogHub.Infrastructure/Repository/ProductRepository.cs:48 | LINQ `Take(n)`: keeps the first `n` rows, all of them when `n` is past the end, none when `n` is at most 0 |
| `Listing.SkipIsSuffix` | CatalogHub.Infrastructure/Repository/ProductRepository.cs:47 | `Skip(n)` is the suffix of the list after position `min(max(0, n), count)` |
| `Listing.TakeIsPrefix` | CatalogHub.Infrastructure/Repository/ProductRepository.cs:48 | `Take(n)` is the prefix of the list up to position `min(max(0, n), count)` |
| `Listing.Offset` | CatalogHub.Infrastructure/Repository/ProductRepository.cs:47 | the number of rows skipped, `(pageNumber - 1) * pageSize` exactly, is never negative and is at least one page for any page after the first |
| `Listing.Page` | CatalogHub.Infrastructure/Repository/ProductRepository.cs:46-49 | `Skip(offset).Take(pageSize)` holds `min(pageSize, max(0, count - offset))` rows, and its k-th row is the list's row `offset + k` |
| `Listing.GetAllPaged` | CatalogHub.Infrastructure/Repository/CategoryRepository.cs:37-49 | the count is the size of the whole table. The page is the name-ordered list sliced at the offset. The page has at most `pageSize` rows, is empty past the end, is sorted, and holds only table rows |
| `Listing.PageOfIndex` | CatalogHub.Infrastructure/Repository/CategoryRepository.cs:43-46 | pages partition the ordered list: row `i` is on page `i / pageSize + 1` at position `i % pageSize` |
| `Listing.FirstPageHoldsAll` | CatalogHub.Infrastructure/Repository/CategoryRepository.cs:43-46 | a first page at least as large as the table holds every row |
| `Listing.WrapInt32` | CatalogHub.Infrastructure/Repository/CategoryRepository.cs:44 | unchecked 32-bit arithmetic: the result is an `int`, congruent to the exact value modulo 2^32, and equal to it when it fits |
| `Listing.OffsetAsWritten` | CatalogHub.Infrastructure/Repository/CategoryRepository.cs:44 | the offset as written on `int` is an `int` and equals the exact offset iff the exact offset is at most `int.MaxValue` |
| `Listing.PageAsWritten` | CatalogHub.Infrastructure/Repository/ProductRepository.cs:46-49 | as written: the query fails (`None`) iff the wrapped offset is negative, since the database refuses a negative `OFFSET`. Otherwise the page is cut at the wrapped offset, with `min(pageSize, max(0, count - offset))` rows from there. It is the exact page whenever the exact offset fits in an `int` |
| `Listing.OffsetOverflowShowsFirstPage` | CatalogHub.Infrastructure/Repository/ProductRepository.cs:47 | page 65537 of size 65536 is empty in exact arithmetic, but as written its offset wraps to 0 and the first page is returned |
| `Listing.OffsetOverflowIsRefused` | CatalogHub.Infrastructure/Repository/CategoryRepository.cs:44 | page 3 of size 2^30 is empty in exact arithmetic, but as written its offset wraps to `int.MinValue` and the query is refused |
| `Schema.ValidProduct` | CatalogHub.Infrastructure/Data/Map/ProductMap.cs:19-45 | the column rules of a product row: name present and at most 200 characters, description present and at most 2000, image URL absent or at most 1000; the other columns are value types and never absent |
| `Schema.ValidCategory` | CatalogHub.Infrastructure/Data/Map/CategoryMap.cs:19-22 | the column rule of a category row: name present and at most 150 characters |
| `Schema.ForeignKeysHold` | CatalogHub.Infrastructure/Data/Map/ProductMap.cs:47-50 | every product's `category_id` is the id of a stored category |
| `Schema.Referenced` | CatalogHub.Infrastructure/Data/Map/ProductMap.cs:62-65 | some stored product refers to the category, so restrict-on-delete refuses its deletion |
| `Schema.ValidTables` | CatalogHub.Infrastructure/Data/Map/ProductMap.cs:9-66 | everything the two maps make the database enforce: unique keys in both tables, every row's column rules, and the foreign key |
| `Schema.NewProductNotStorable` | CatalogHub.Infrastructure/Data/Map/ProductMap.cs:19-27 | a product straight from its initialiser breaks the required `name` and `description` columns |
| `Schema.NewProductWithTextIsValid` | CatalogHub.Infrastructure/Data/Map/ProductMap.cs:19-45 | a new product given a name and a description is storable iff the name is at most 200 and the description at most 2000 characters; the initial image is acceptable |
| `Schema.NewCategoryNeedsName` | CatalogHub.Infrastructure/Data/Map/CategoryMap.cs:19-22 | a new category is not storable; given a name and description it is storable iff the name is present and at most 150 characters |
| `Schema.DeleteUnreferencedKeepsForeignKeys` | CatalogHub.Infrastructure/Data/Map/ProductMap.cs:47-50 | deleting a category no product refers to keeps every product's category present |
| `Schema.DeleteReferencedBreaksForeignKeys` | CatalogHub.Infrastructure/Data/Map/ProductMap.cs:62-65 | deleting a category some product refers to would orphan that product, which restrict-on-delete refuses |
| `Schema.InsertedProduct` | CatalogHub.Infrastructure/Data/Map/ProductMap.cs:38-41 | as written: the inserted row is always active and agrees with the argument in every other column; it equals the argument iff the argument is active |
| `Schema.InactiveProductIsStoredActive` | CatalogHub.Infrastructure/Data/Map/ProductMap.cs:38-41 | as written: an inactive product, once inserted, is looked up as the active product, not as the one created |
| `Context.CatalogContext.Valid` | CatalogHub.Infrastructure/Data/CatalogHubDbContext.cs:12-17 | the invariant of the store: its two tables satisfy `ValidTables` |
| `Context.CatalogContext.constructor` | CatalogHub.Infrastructure/Data/CatalogHubDbContext.cs:12-13 | an empty database, with both tables empty, satisfies every schema rule |
| `ProductRepo.GetById` | CatalogHub.Infrastructure/Repository/ProductRepository.cs:31-35 | the result is a stored product with that id, and it is absent iff no stored product has that id |
| `ProductRepo.GetByIdFindsStored` | CatalogHub.Infrastructure/Repository/ProductRepository.cs:31-35 | with unique ids, lookup returns the stored product itself |
| `ProductRepo.GetAll` | CatalogHub.Infrastructure/Repository/ProductRepository.cs:37-52 | corrected offset: computed exactly, not on wrapping `int` (as written, see `Listing.OffsetAsWritten`). The count is the number of all products, taken before slicing. The page is the name-ordered products from offset `(pageNumber-1)*pageSize`, with exactly `min(pageSize, max(0, count - offset))` rows, so it is empty past the end. The page is sorted by name, holds only stored products, and has no duplicate id |
| `ProductRepo.MatchesFilters` | CatalogHub.Infrastructure/Repository/ProductRepository.cs:61-71 | a product passes the filters iff it meets every present one: category equal, price at least the minimum, price at most the maximum, active flag equal |
| `ProductRepo.WhereIf` | CatalogHub.Infrastructure/Repository/ProductRepository.cs:61-62 | a conditional `Where` drops exactly the rows the filter rejects when the filter is present, and nothing when it is absent |
| `ProductRepo.ApplyFilters` | CatalogHub.Infrastructure/Repository/ProductRepository.cs:56-71 | the four conditional `Where`s keep exactly the products meeting every present filter, each as often as stored |
| `ProductRepo.GetByFilters` | CatalogHub.Infrastructure/Repository/ProductRepository.cs:54-74 | a product is returned iff it is stored and meets every present filter (category equal, price at least min, price at most max, active flag equal). It appears as often as stored, the result is sorted by name, and ids stay unique |
| `ProductRepo.NoFiltersReturnsAll` | CatalogHub.Infrastructure/Repository/ProductRepository.cs:56-59 | with all four filters absent, every product is returned |
| `ProductRepo.AssignKey` | CatalogHub.Infrastructure/Data/Map/ProductMap.cs:13 | the inserted product differs from the argument in its id at most; an id other than `Guid.Empty` is kept, and `Guid.Empty` is replaced by a generated key no stored product has; the key is never `Guid.Empty` |
| `ProductRepo.NewProductIsCreatable` | CatalogHub.Domain/Models/Product.cs:5-15 | a product from the initialiser, given a name and description within their limits and a stored category, is valid, has an id no stored product has, and keeps that id on insert, so `Create` accepts it |
| `ProductRepo.ProductRepository.constructor` | CatalogHub.Infrastructure/Repository/ProductRepository.cs:8 | the repository works on the context it is given |
| `ProductRepo.ProductRepository.Create` | CatalogHub.Infrastructure/Repository/ProductRepository.cs:10-15 | corrected insert: `isActive` is stored as given (as written, see `Schema.InsertedProduct`). Succeeds iff the row is valid, its id is `Guid.Empty` or not stored, and its category exists. On success the product, with a generated key if its id was `Guid.Empty`, is appended and returned. Its id finds it, and every other id finds what it found before. On failure the error names the first broken rule and nothing changes. The schema invariant is kept |
| `ProductRepo.ProductRepository.Update` | CatalogHub.Infrastructure/Repository/ProductRepository.cs:17-22 | succeeds iff the id is `Guid.Empty` or stored, the row is valid and its category exists. For a stored id, that row is replaced by the argument, which is returned. For `Guid.Empty`, the update is an insert with a generated key, as in `Create`. Every other id finds what it found before. On failure nothing changes. The invariant is kept |
| `ProductRepo.ProductRepository.Delete` | CatalogHub.Infrastructure/Repository/ProductRepository.cs:24-29 | succeeds iff the id is stored. On success exactly that row is removed (one fewer row) and the argument is returned. Afterwards the id finds nothing and other ids are unaffected. The invariant is kept |
| `CategoryRepo.ProductsOf` | CatalogHub.Infrastructure/Repository/CategoryRepository.cs:34 | the loaded `Products` are exactly the stored products whose category is the given id, each as often as stored |
| `CategoryRepo.GetById` | CatalogHub.Infrastructure/Repository/CategoryRepository.cs:31-35 | present iff the id is stored. The result is a stored category row with that id whose `Products` are exactly the stored products referring to it |
| `CategoryRepo.GetByIdFindsStored` | CatalogHub.Infrastructure/Repository/CategoryRepository.cs:31-35 | with unique ids, lookup returns the stored row with its products loaded |
| `CategoryRepo.Row` | CatalogHub.Infrastructure/Data/Map/CategoryMap.cs:11-22 | a category row has an empty `Products` collection and agrees with the category in every column |
| `CategoryRepo.Rows` | CatalogHub.Infrastructure/Repository/CategoryRepository.cs:39-48 | the rows of a list of categories, position by position; a sorted list stays sorted and unique keys stay unique |
| `CategoryRepo.GetAll` | CatalogHub.Infrastructure/Repository/CategoryRepository.cs:37-49 | corrected offset: computed exactly, not on wrapping `int` (as written, see `Listing.OffsetAsWritten`). The count is the number of all categories, taken before slicing. The page is the name-ordered categories from the offset, with exactly `min(pageSize, max(0, count - offset))` rows. Every listed category is a stored row with an empty `Products` collection, since the query has no `Include`. The page is sorted by name and has no duplicate id |
| `CategoryRepo.AssignKey` | CatalogHub.Infrastructure/Data/Map/CategoryMap.cs:13 | the inserted category differs from the argument in its id at most; an id other than `Guid.Empty` is kept, and `Guid.Empty` is replaced by a generated key no stored category has |
| `CategoryRepo.CategoryRepository.constructor` | CatalogHub.Infrastructure/Repository/CategoryRepository.cs:8 | the repository works on the context it is given |
| `CategoryRepo.CategoryRepository.Create` | CatalogHub.Infrastructure/Repository/CategoryRepository.cs:10-15 | succeeds iff the row is valid and its id is `Guid.Empty` or not stored. On success the category's row, without products and with a generated key if its id was `Guid.Empty`, is appended; the argument is returned with that key. Other ids are unaffected. On failure nothing changes. The invariant is kept |
| `CategoryRepo.CategoryRepository.Update` | CatalogHub.Infrastructure/Repository/CategoryRepository.cs:17-22 | succeeds iff the id is `Guid.Empty` or stored and the row is valid. For a stored id, that row is replaced by the argument's row, without products, and the argument is returned. For `Guid.Empty`, the update is an insert with a generated key, as in `Create`. Other ids are unaffected. On failure nothing changes. The invariant is kept |
| `CategoryRepo.CategoryRepository.Delete` | CatalogHub.Infrastructure/Repository/CategoryRepository.cs:24-29 | succeeds iff the id is stored and no product refers to it (restrict-on-delete). On success exactly that row is removed and the argument is returned; a refused delete changes nothing. The foreign key and the other invariants are kept |

## Left out

- EF Core mechanics are not modelled: the change tracker, `AsNoTracking`, `SaveChangesAsync` as a separate step, and `async`/`await`. Each write is one atomic step on the tables.
- `Product.Category`, the navigation property that `Include(p => p.Category)` loads, is not a field of the product record. A product's category is found by looking up its `categoryId`.
- `Add`, `Update` and `Remove` of a category whose `Products` collection is not empty would also write those products in EF Core. The model writes only the category row, without products (`CategoryRepo.Row`).
- `Price` is an exact `real`. The column is a single-precision float (`real`), and rounding on storage is not modelled.
- `StockQuantity` is an unbounded integer; its 32-bit range is not modelled (no operation does arithmetic on it).
- Timestamps are abstract integers. `DateTime.UtcNow` and the `now()` column default are not modelled; the creation time is a parameter of `Models.NewProduct`.
- GUIDs are natural numbers. `Guid.NewGuid()` and EF Core's key generator are assumed never to collide with a stored id, and `Tables.FreshKey` stands for both.
- `ProductRepo.ProductRepository.Delete`, `CategoryRepo.CategoryRepository.Delete`: an argument whose id is `Guid.Empty` is deleted by that key like any other, so it ends in `RowNotFound` unless such a row is stored. Whether EF Core refuses to track it first is not modelled.
- Names are compared in lexicographic order of characters. The database collation is not visible.
- `ProductRepo.GetAll`, `CategoryRepo.GetAll`, `ProductRepo.GetByFilters`: the page is stated as a slice of one particular name ordering (`Listing.OrderBy`). SQL may order rows with equal names differently from call to call; only sortedness and the multiset of rows are meant as guarantees.
- `ProductRepo.GetAll`, `CategoryRepo.GetAll`: `pageNumber >= 1` and `pageSize >= 1` are preconditions. Smaller values are handled in a provider-specific way.
- `CountAsync` fails on more than `int.MaxValue` rows; the count is unbounded here.
- When several rules fail at once, the model reports the first in this order: missing row, then column rule, then key, then foreign key. The database raises an update exception in every case, and its exact kind may differ.
- `CatalogHub.Infrastructure/Data/CatalogHubDbContext.cs` is not modelled beyond its two sets, which become the two tables.
- The repository interfaces, the product and category services, blob storage and the HTTP layer are not part of this model.

## Findings

| source | as written | input that shows it | evidently intended | confidence | as-written member | corrected member |
|---|---|---|---|---|---|---|
| CatalogHub.Infrastructure/Data/Map/ProductMap.cs:38-41 | `IsActive` is a `bool` with a database default of `true`. EF Core treats `false`, the CLR default, as "not set" and leaves the column out of the INSERT, so the database stores `true` | `CreateAsync` with a product whose `IsActive` is `false` | the product is stored inactive, as given | medium; not executed (rests on EF Core's rule for store-generated defaults) | `Schema.InactiveProductIsStoredActive` | `ProductRepo.ProductRepository.Create` (stores `isActive` as given; `Tables.FindAppend` proves lookup returns the created product) |
| CatalogHub.Infrastructure/Repository/ProductRepository.cs:47 (also CategoryRepository.cs:44) | `(pageNumber - 1) * pageSize` is evaluated on 32-bit `int` without overflow checking. A product that wraps to a non-negative value cuts the wrong page; one that wraps to a negative value is sent as a negative `OFFSET`, which the database refuses, so the query fails | `pageNumber = 65537`, `pageSize = 65536`: 2^32 wraps to offset 0 and the first page is returned. `pageNumber = 3`, `pageSize = 2^30`: 2^31 wraps to -2^31 and the query fails | a page past the end is empty | medium; not executed | `Listing.PageAsWritten` (with `Listing.OffsetOverflowShowsFirstPage` and `Listing.OffsetOverflowIsRefused`) | `Listing.GetAllPaged` (exact offset, as used by both `GetAll`s; a page at or past the end is proved empty) |
