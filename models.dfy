/** The three shapes a book takes: the remote search response, the domain
    `Book`, and the persisted `BookEntity` row. */
module Models {
  import opened Wrappers

  /** Kotlin `String` */
  type Text = seq<char>

  // ---- Remote response (Google Books `volumes` search) ----

  datatype ImageLinks = ImageLinks(thumbnail: Option<Text>)

  /** Every field is nullable in the response. */
  datatype VolumeInfo = VolumeInfo(
    title: Option<Text>,
    authors: Option<seq<Text>>,
    description: Option<Text>,
    publishedDate: Option<Text>,
    pageCount: Option<int>,
    categories: Option<seq<Text>>,
    imageLinks: Option<ImageLinks>)

  datatype BookItem = BookItem(id: Text, volumeInfo: VolumeInfo)

  /** `items` is null when the search has no results. */
  datatype BookResponse = BookResponse(items: Option<seq<BookItem>>)

  // ---- Domain model ----

  datatype Book = Book(
    id: Text,
    title: Text,
    author: Text,
    description: Text,
    thumbnailUrl: Text,
    publishedDate: Text,
    pageCount: int,
    categories: seq<Text>)

  // ---- Persisted row ----

  /** Same fields as `Book`, except that the categories are one
      comma-joined string column. */
  datatype BookEntity = BookEntity(
    id: Text,
    title: Text,
    author: Text,
    description: Text,
    thumbnailUrl: Text,
    publishedDate: Text,
    pageCount: int,
    categories: Text)
}
