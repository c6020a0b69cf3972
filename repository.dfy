/** The public contract of the data layer: search, list the saved books,
    save a book. */
module Repository {
  import opened Wrappers
  import opened Models
  import opened CategoryCodec
  import opened Mappers
  import opened Store

  /** Whatever the search call throws (transport or deserialisation); the
      repository never looks inside it. */
  datatype ServiceError = ServiceError(message: Text)

  /** `searchBooks(query)`: `fetched` is what the search service returned for
      the query. A failure reaches the caller unchanged; a response becomes
      one book per item, in order, and a null `items` no books. */
  function SearchBooks(fetched: Result<BookResponse, ServiceError>): (r: Result<seq<Book>, ServiceError>)
    ensures r.Failure? <==> fetched.Failure?
    ensures fetched.Failure? ==> r.error == fetched.error
    ensures fetched.Success? && fetched.value.items.None? ==> r.value == []
    ensures fetched.Success? && fetched.value.items.Some? ==>
      var items := fetched.value.items.value;
      |r.value| == |items| && forall i :: 0 <= i < |items| ==> r.value[i] == ItemToBook(items[i])
  {
    match fetched
    case Success(response) => Success(ResponseToBooks(response))
    case Failure(e) => Failure(e)
  }

  /** After a book with encodable categories is saved, the book is listed
      and it is the only listed book with its id; with the table's row
      order, it is the last one listed. */
  lemma SavedBookListed(rows: seq<BookEntity>, b: Book)
    requires UniqueIds(rows)
    requires Encodable(b.categories)
    ensures var listed := EntitiesToBooks(Upsert(rows, BookToEntity(b)));
      && b in listed
      && |listed| > 0 && listed[|listed| - 1] == b
      && (forall i :: 0 <= i < |listed| && listed[i].id == b.id ==> listed[i] == b)
  {
    BookRoundTrip(b);
    var after := Upsert(rows, BookToEntity(b));
    var listed := EntitiesToBooks(after);
    assert listed[|listed| - 1] == b;
    forall i | 0 <= i < |listed| && listed[i].id == b.id ensures listed[i] == b {
      assert listed[i].id == after[i].id;
      assert after[|after| - 1].id == b.id;
      assert i == |listed| - 1;
    }
  }

  /** Saving a book leaves every stored book with another id listed as
      before. */
  lemma SaveKeepsOthers(rows: seq<BookEntity>, b: Book, r: BookEntity)
    requires r in rows && r.id != b.id
    ensures EntityToBook(r) in EntitiesToBooks(Upsert(rows, BookToEntity(b)))
  {
    var after := Upsert(rows, BookToEntity(b));
    assert r in Without(rows, b.id);
    assert r in after;
    var k :| 0 <= k < |after| && after[k] == r;
    assert EntitiesToBooks(after)[k] == EntityToBook(r);
  }

  /** The repository over a book table; the search service appears as the
      outcome passed to `SearchBooks`. */
  class BookRepository {
    const dao: BookDao

    constructor (dao: BookDao)
      ensures this.dao == dao
    {
      this.dao := dao;
    }

    /** The current snapshot of the table, one book per row, in row order
        (one emission of `getSavedBooks()`). */
    function GetSavedBooks(): (books: seq<Book>)
      reads dao
      ensures |books| == |dao.rows|
      ensures forall i :: 0 <= i < |books| ==> books[i] == EntityToBook(dao.rows[i])
    {
      EntitiesToBooks(dao.rows)
    }

    /** Hands the book's row to the table's insert; when its categories are
        encodable, the saved book is then listed, as the only listed book
        with its id (and, in row order, as the last one). */
    method SaveBook(book: Book)
      requires dao.Valid()
      modifies dao
      ensures dao.Valid()
      ensures dao.inserted == old(dao.inserted) + [BookToEntity(book)]
      ensures dao.rows == Upsert(old(dao.rows), BookToEntity(book))
      ensures Encodable(book.categories) ==> book in GetSavedBooks()
      ensures Encodable(book.categories) ==>
        forall i :: 0 <= i < |GetSavedBooks()| && GetSavedBooks()[i].id == book.id ==>
          GetSavedBooks()[i] == book
      ensures Encodable(book.categories) ==> book == GetSavedBooks()[|GetSavedBooks()| - 1]
    {
      dao.InsertBook(BookToEntity(book));
      if Encodable(book.categories) {
        SavedBookListed(old(dao.rows), book);
      }
    }
  }
}
