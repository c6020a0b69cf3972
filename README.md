# BookApp data layer, modelled in Dafny

BookApp's data layer presents books from two sources through one domain type,
`Book`. One source is the Google Books `volumes` search (`BookResponse` ->
`BookItem` -> `VolumeInfo`, where almost every field is nullable). The other is
the Room table of saved books (`BookEntity`, whose `categories` column is one
comma-joined string). `BookRepository` offers three operations:

- `searchBooks(query)` maps the service's response into books;
- `getSavedBooks()` maps each snapshot of the table into books;
- `saveBook(book)` converts the book to a row and hands it to `BookDao.insertBook`.

The production classes (`BookRepository`, the mappers, `BookEntity`,
`BookResponse`, `BookDao`) are not modelled from their code. Their behaviour is
reconstructed from what `BookRepositoryTest` checks. Each choice the test
leaves open is listed under "Modelling choices" below.

Modules, leaf first:

- `Wrappers` (`wrappers.dfy`): `Option` for Kotlin's nullable types, and `Result`.
- `Models` (`models.dfy`): the three representations as datatypes.
- `CategoryCodec` (`category_codec.dfy`): `joinToString(",")` and `split(",")`, the
  category column's encoder and decoder, and their two round-trip laws.
- `Mappers` (`mappers.dfy`): item -> book, response -> books, row -> book,
  book -> row, and the save/reload round trips.
- `Store` (`store.dfy`): the book table as a class `BookDao` whose `rows` the
  insert updates by upsert, and the laws of that upsert.
- `Repository` (`repository.dfy`): `SearchBooks` and the class `BookRepository`
  with `GetSavedBooks` and `SaveBook`.
- `Scenarios` (`scenarios.dfy`): the test's four cases on the model.

## Modelling choices

These are not pinned down by the test.

- The decoder maps an empty categories column to the empty list. Any other
  column is split with Kotlin's `split(",")` semantics, which always yields at
  least one piece. Because `[]` and `[""]` both join to `""`, exactly the
  lists that are free of commas and are not `[""]` survive the round trip
  (`CategoryCodec.Encodable`).
- `author` is the first element of `authors`. It is `""` when `authors` is
  null or empty.
- `thumbnailUrl` of a search result is `volumeInfo.imageLinks.thumbnail`. It is
  `""` when either part is null. The test's `VolumeInfo` carries no image links.
- Saving a book whose id is already stored replaces that row: the old row is
  dropped and the new row is appended, as SQLite's `REPLACE` does. A saved id
  is never duplicated.
- The table's snapshot order is row order: the order in which rows were
  inserted, with a replaced row moved to the end. Only the "saved book is
  listed last" facts of `SaveBook` and `SavedBookListed` rest on this order.
  That the saved book is listed, and that every listed book with its id
  equals it, hold for any order.

## Model

| member | source | states |
|---|---|---|
| `Mappers.ItemToBook` | app/src/test/java/com/example/bookapp/data/repository/BookRepositoryTest.kt:39-76 | the item's id is kept; each present title, description, publishedDate, pageCount and categories field is copied verbatim (categories element for element, in order); each absent one becomes "" / 0 / []; the author is the first listed author, or "" when there is none; the thumbnail URL is `imageLinks.thumbnail` when both are present, and "" otherwise |
| `Mappers.FirstAuthor` | app/src/test/java/com/example/bookapp/data/repository/BookRepositoryTest.kt:48-72 | the display author is `authors[0]` when the list is present and non-empty, and "" otherwise |
| `Mappers.ItemsToBooks` | app/src/test/java/com/example/bookapp/data/repository/BookRepositoryTest.kt:64-76 | one book per item, same count, the i-th book is the i-th item mapped |
| `Mappers.ResponseToBooks` | app/src/test/java/com/example/bookapp/data/repository/BookRepositoryTest.kt:39-87 | a null `items` gives no books; otherwise there are as many books as items, in item order, each one the item mapped |
| `Repository.SearchBooks` | app/src/test/java/com/example/bookapp/data/repository/BookRepositoryTest.kt:54-87 | a service failure reaches the caller unchanged; a response gives a success holding one mapped book per item, in order, and no books for null `items` |
| `Mappers.EntityToBook` | app/src/test/java/com/example/bookapp/data/repository/BookRepositoryTest.kt:91-111 | a stored row becomes a book with the row's id, title, author, description, thumbnail URL, published date and page count, and with the categories column decoded (split on commas); those categories are always a list that can be stored again unchanged |
| `Mappers.BookToEntity` | app/src/test/java/com/example/bookapp/data/repository/BookRepositoryTest.kt:114-140 | the row written for a book has the book's id, title, author, description, thumbnail URL, published date and page count, and its categories joined with "," into one column |
| `Mappers.EntitiesToBooks` | app/src/test/java/com/example/bookapp/data/repository/BookRepositoryTest.kt:101-111 | one book per stored row, same count, the i-th book is the i-th row mapped |
| `Mappers.EntityRoundTrip` | app/src/test/java/com/example/bookapp/data/repository/BookRepositoryTest.kt:91-139 | converting a stored row to a book and back gives the same row, for every row |
| `Mappers.BookRoundTrip` | app/src/test/java/com/example/bookapp/data/repository/BookRepositoryTest.kt:116-139 | converting a book to a row and back gives the same book if and only if its categories are comma-free and not `[""]` |
| `Mappers.SearchResultSurvivesSave` | app/src/test/java/com/example/bookapp/data/repository/BookRepositoryTest.kt:43-76 | a search result whose categories are encodable is unchanged, id included, by a save and reload |
| `CategoryCodec.Join` | app/src/test/java/com/example/bookapp/data/repository/BookRepositoryTest.kt:125-139 | the column written for a category list: "" for no categories, the category itself for one, and a string containing the separator for two or more |
| `CategoryCodec.Split` | app/src/test/java/com/example/bookapp/data/repository/BookRepositoryTest.kt:100-110 | splitting on commas yields at least one piece, and no piece contains a comma |
| `CategoryCodec.DecodeCategories` | app/src/test/java/com/example/bookapp/data/repository/BookRepositoryTest.kt:100-110 | the categories read from a column form an empty list exactly when the column is empty, and are always encodable |
| `CategoryCodec.SplitJoin` | app/src/test/java/com/example/bookapp/data/repository/BookRepositoryTest.kt:100-139 | splitting the comma-join of a non-empty, comma-free list gives back that list |
| `CategoryCodec.JoinSplit` | app/src/test/java/com/example/bookapp/data/repository/BookRepositoryTest.kt:100-139 | joining the comma-split of any string gives back that string |
| `CategoryCodec.CategoriesRoundTrip` | app/src/test/java/com/example/bookapp/data/repository/BookRepositoryTest.kt:100-139 | decoding an encoded category list returns that list if and only if the list is encodable |
| `CategoryCodec.ColumnRoundTrip` | app/src/test/java/com/example/bookapp/data/repository/BookRepositoryTest.kt:100-139 | encoding a decoded column gives back that column, for every string, including "" |
| `Store.Lookup` | app/src/test/java/com/example/bookapp/data/repository/BookRepositoryTest.kt:129-139 | a row found by id is in the table and has that id; when none is found, no row has that id |
| `Store.Without` | app/src/test/java/com/example/bookapp/data/repository/BookRepositoryTest.kt:129-139 | dropping an id keeps exactly the rows with other ids |
| `Store.UpsertLookup` | app/src/test/java/com/example/bookapp/data/repository/BookRepositoryTest.kt:129-139 | after an insert, the new row is what its id finds, and every other id finds what it found before |
| `Store.Upsert` | app/src/test/java/com/example/bookapp/data/repository/BookRepositoryTest.kt:129-139 | the insert-or-replace write: after it, the new row is what its id finds, and a table with unique ids keeps unique ids |
| `Store.UpsertIdempotent` | app/src/test/java/com/example/bookapp/data/repository/BookRepositoryTest.kt:127-139 | inserting the same row twice leaves the table as inserting it once does |
| `Store.UpsertSize` | app/src/test/java/com/example/bookapp/data/repository/BookRepositoryTest.kt:129-139 | an insert adds a row exactly when its id was not stored yet, and otherwise keeps the row count |
| `Store.BookDao.constructor` | app/src/test/java/com/example/bookapp/data/repository/BookRepositoryTest.kt:28 | a fresh table holds no rows and has received no inserts |
| `Store.BookDao.InsertBook` | app/src/test/java/com/example/bookapp/data/repository/BookRepositoryTest.kt:129-139 | records the row as received and upserts it, keeping ids unique |
| `Repository.BookRepository.constructor` | app/src/test/java/com/example/bookapp/data/repository/BookRepositoryTest.kt:29 | the repository works over the table it is given |
| `Repository.BookRepository.GetSavedBooks` | app/src/test/java/com/example/bookapp/data/repository/BookRepositoryTest.kt:101-111 | one snapshot of the saved books holds one book per stored row, in row order, each row mapped |
| `Repository.BookRepository.SaveBook` | app/src/test/java/com/example/bookapp/data/repository/BookRepositoryTest.kt:127-139 | the table receives exactly the book's row, as one more insert; the table is upserted with it and keeps unique ids; an encodable book is then listed, every listed book with its id equals it, and in row order it is the last one listed |
| `Repository.SavedBookListed` | app/src/test/java/com/example/bookapp/data/repository/BookRepositoryTest.kt:114-139 | after saving an encodable book, the book is in the listing and every listed book with its id equals it; in row order it is the last one listed |
| `Repository.SaveKeepsOthers` | app/src/test/java/com/example/bookapp/data/repository/BookRepositoryTest.kt:127-139 | saving a book keeps every stored book with another id in the listing |
| `Scenarios.SearchMapsResponse` | app/src/test/java/com/example/bookapp/data/repository/BookRepositoryTest.kt:32-77 | the one-item response gives one book with id "test_id", title "Test Book", author "Test Author", description "Test Description", date "2024", 100 pages, categories ["Fiction"] |
| `Scenarios.SearchNullItems` | app/src/test/java/com/example/bookapp/data/repository/BookRepositoryTest.kt:79-87 | a response with null items gives an empty success |
| `Scenarios.FictionDrama` | app/src/test/java/com/example/bookapp/data/repository/BookRepositoryTest.kt:100-139 | "Fiction,Drama" decodes to ["Fiction", "Drama"], and that list encodes to "Fiction,Drama" |
| `Scenarios.SavedBooksScenario` | app/src/test/java/com/example/bookapp/data/repository/BookRepositoryTest.kt:89-112 | listing a table holding the test row gives one book with the row's id, title and author, and categories ["Fiction", "Drama"] |
| `Scenarios.SaveBookScenario` | app/src/test/java/com/example/bookapp/data/repository/BookRepositoryTest.kt:114-140 | saving the test book hands the table exactly one row: the book's fields, with categories "Fiction,Drama" |

## Left out

- The HTTP call to the search service (Retrofit `BookService`, `@GET("volumes")`)
  is not modelled. Its outcome, a response or a failure, is the parameter of
  `SearchBooks`, and the query string is not modelled.
- The Room engine behind `BookDao` is not modelled: no SQL, no live `Flow` of
  snapshots, no threads. `GetSavedBooks` maps one snapshot, the current `rows`,
  as `getSavedBooks().first()` does.
- Coroutines, suspension and cancellation are not modelled. Every operation
  completes at once.
- Persistence failures are not modelled. `InsertBook` always succeeds.
- Mockito's stubbing is not modelled. Its verification of the insert call is
  modelled as the `inserted` record of `BookDao`.
- `pageCount` is an unbounded integer. Kotlin's 32-bit `Int` is not modelled,
  because no arithmetic is done on it.
- The code of `Book`, the mapper functions, `BookEntity`, `BookResponse` and
  `BookDao` is not part of this model. Their behaviour is reconstructed from
  what `BookRepositoryTest` checks, as described above.
