/** The repository's four unit scenarios, stated on the model. */
module Scenarios {
  import opened Wrappers
  import opened Models
  import opened CategoryCodec
  import opened Mappers
  import opened Store
  import opened Repository

  const TestItem := BookItem("test_id", VolumeInfo(
    Some("Test Book"), Some(["Test Author"]), Some("Test Description"),
    Some("2024"), Some(100), Some(["Fiction"]), None))

  const TestEntity := BookEntity("test_id", "Test Book", "Test Author",
    "Test Description", "test_url", "2024", 100, "Fiction,Drama")

  const TestBook := Book("test_id", "Test Book", "Test Author",
    "Test Description", "test_url", "2024", 100, ["Fiction", "Drama"])

  /** A successful search maps the one item field by field. */
  lemma SearchMapsResponse()
    ensures var r := SearchBooks(Success(BookResponse(Some([TestItem]))));
      && r.Success? && |r.value| == 1
      && r.value[0].id == "test_id"
      && r.value[0].title == "Test Book"
      && r.value[0].author == "Test Author"
      && r.value[0].description == "Test Description"
      && r.value[0].publishedDate == "2024"
      && r.value[0].pageCount == 100
      && r.value[0].categories == ["Fiction"]
  {
  }

  /** A response with null items is an empty result. */
  lemma SearchNullItems()
    ensures SearchBooks(Success(BookResponse(None))) == Success([])
  {
  }

  /** The column "Fiction,Drama" is the list ["Fiction", "Drama"], both ways. */
  lemma FictionDrama()
    ensures DecodeCategories("Fiction,Drama") == ["Fiction", "Drama"]
    ensures Join(["Fiction", "Drama"]) == "Fiction,Drama"
  {
    var cs: seq<Text> := ["Fiction", "Drama"];
    assert Join(cs) == "Fiction" + [Separator] + Join(cs[1..]);
    assert Join(cs) == "Fiction,Drama";
    SplitJoin(cs);
  }

  /** Listing a table holding the test row gives one book with the row's id,
      title and author and the split categories. */
  method SavedBooksScenario() returns (result: seq<Book>)
    ensures |result| == 1
    ensures result[0].id == "test_id" && result[0].title == "Test Book"
    ensures result[0].author == "Test Author"
    ensures result[0].categories == ["Fiction", "Drama"]
  {
    var dao := new BookDao();
    dao.InsertBook(TestEntity);
    var repository := new BookRepository(dao);
    FictionDrama();
    result := repository.GetSavedBooks();
  }

  /** Saving the test book hands the table exactly one row: the book's fields
      with the categories joined. */
  method SaveBookScenario() returns (inserted: seq<BookEntity>)
    ensures inserted == [TestEntity]
  {
    var dao := new BookDao();
    var repository := new BookRepository(dao);
    FictionDrama();
    repository.SaveBook(TestBook);
    inserted := dao.inserted;
  }
}
