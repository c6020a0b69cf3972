/** Conversions between the remote, domain and persisted shapes of a book.
    None of them can fail: every absent field has a default. */
module Mappers {
  import opened Wrappers
  import opened Models
  import opened CategoryCodec

  /** The display author: the first listed author, or "" when the list is
      absent or empty. */
  function FirstAuthor(authors: Option<seq<Text>>): (a: Text)
    ensures authors.Some? && |authors.value| > 0 ==> a == authors.value[0]
    ensures authors.None? || authors.value == [] ==> a == []
  {
    match authors
    case Some(names) => if |names| > 0 then names[0] else []
    case None => []
  }

  /** A search item as a domain book. Present fields are copied verbatim;
      absent text fields become "", an absent page count 0, absent categories
      the empty list; the item's id is always kept. */
  function ItemToBook(item: BookItem): (b: Book)
    ensures b.id == item.id
    ensures var info := item.volumeInfo;
      && (info.title.Some? ==> b.title == info.title.value)
      && (info.title.None? ==> b.title == [])
      && (info.description.Some? ==> b.description == info.description.value)
      && (info.description.None? ==> b.description == [])
      && (info.publishedDate.Some? ==> b.publishedDate == info.publishedDate.value)
      && (info.publishedDate.None? ==> b.publishedDate == [])
      && (info.pageCount.Some? ==> b.pageCount == info.pageCount.value)
      && (info.pageCount.None? ==> b.pageCount == 0)
      && (info.categories.Some? ==> b.categories == info.categories.value)
      && (info.categories.None? ==> b.categories == [])
      && (info.authors.Some? && |info.authors.value| > 0 ==> b.author == info.authors.value[0])
      && (info.authors.None? || info.authors.value == [] ==> b.author == [])
      && (info.imageLinks.Some? && info.imageLinks.value.thumbnail.Some? ==>
            b.thumbnailUrl == info.imageLinks.value.thumbnail.value)
      && (info.imageLinks.None? || info.imageLinks.value.thumbnail.None? ==> b.thumbnailUrl == [])
  {
    var info := item.volumeInfo;
    Book(
      item.id,
      info.title.GetOr([]),
      FirstAuthor(info.authors),
      info.description.GetOr([]),
      match info.imageLinks
      case Some(links) => links.thumbnail.GetOr([])
      case None => [],
      info.publishedDate.GetOr([]),
      info.pageCount.GetOr(0),
      info.categories.GetOr([]))
  }

  /** Maps the items one by one, in order. */
  function ItemsToBooks(items: seq<BookItem>): (books: seq<Book>)
    ensures |books| == |items|
    ensures forall i :: 0 <= i < |items| ==> books[i] == ItemToBook(items[i])
  {
    if items == [] then []
    else [ItemToBook(items[0])] + ItemsToBooks(items[1..])
  }

  /** A whole search response as books: one book per item, in the items'
      order; a null `items` is no books at all, never an error. */
  function ResponseToBooks(response: BookResponse): (books: seq<Book>)
    ensures response.items.None? ==> books == []
    ensures response.items.Some? ==> |books| == |response.items.value|
    ensures response.items.Some? ==>
      forall i :: 0 <= i < |books| ==> books[i] == ItemToBook(response.items.value[i])
  {
    match response.items
    case Some(items) => ItemsToBooks(items)
    case None => []
  }

  /** A stored row as a domain book: every field copied, the categories
      column decoded. */
  function EntityToBook(e: BookEntity): (b: Book)
    ensures b.id == e.id && b.title == e.title && b.author == e.author
    ensures b.description == e.description && b.thumbnailUrl == e.thumbnailUrl
    ensures b.publishedDate == e.publishedDate && b.pageCount == e.pageCount
    ensures b.categories == DecodeCategories(e.categories)
    ensures Encodable(b.categories)
  {
    Book(e.id, e.title, e.author, e.description, e.thumbnailUrl,
         e.publishedDate, e.pageCount, DecodeCategories(e.categories))
  }

  /** A domain book as the row to store: every field copied, the categories
      joined into one column. */
  function BookToEntity(b: Book): (e: BookEntity)
    ensures e.id == b.id && e.title == b.title && e.author == b.author
    ensures e.description == b.description && e.thumbnailUrl == b.thumbnailUrl
    ensures e.publishedDate == b.publishedDate && e.pageCount == b.pageCount
    ensures e.categories == Join(b.categories)
  {
    BookEntity(b.id, b.title, b.author, b.description, b.thumbnailUrl,
               b.publishedDate, b.pageCount, Join(b.categories))
  }

  /** Maps a snapshot of stored rows one by one, in order. */
  function EntitiesToBooks(rows: seq<BookEntity>): (books: seq<Book>)
    ensures |books| == |rows|
    ensures forall i :: 0 <= i < |rows| ==> books[i] == EntityToBook(rows[i])
  {
    if rows == [] then []
    else [EntityToBook(rows[0])] + EntitiesToBooks(rows[1..])
  }

  /** Storing a row read back from the store writes that same row again. */
  lemma EntityRoundTrip(e: BookEntity)
    ensures BookToEntity(EntityToBook(e)) == e
  {
    ColumnRoundTrip(e.categories);
  }

  /** Saving a book and reading it back gives the same book exactly when its
      categories are encodable. */
  lemma BookRoundTrip(b: Book)
    ensures EntityToBook(BookToEntity(b)) == b <==> Encodable(b.categories)
  {
    CategoriesRoundTrip(b.categories);
  }

  /** A search result whose categories are encodable survives being saved
      and read back unchanged, id included. */
  lemma SearchResultSurvivesSave(item: BookItem)
    requires item.volumeInfo.categories.None? || Encodable(item.volumeInfo.categories.value)
    ensures EntityToBook(BookToEntity(ItemToBook(item))) == ItemToBook(item)
  {
    BookRoundTrip(ItemToBook(item));
  }
}
