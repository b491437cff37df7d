/**
 * The `Book` record and the extraction of a `Book` from a decoded item-lookup
 * response of the catalogue API. The HTTP request itself is not modelled: the
 * decoded response is an input.
 */
module BookInfo {
  import opened Wrappers
  import opened Text

  /** A book as the pipeline passes it around; it only stores its constructor arguments. */
  datatype Book = Book(
    isbn: string,
    title: string,
    author: string,
    publisher: string,
    publishYear: string,
    coverUrl: string,
    description: string)

  /** One element of the response's `item` list, with the keys the extraction reads. */
  datatype Item = Item(
    isbn13: string,
    pubDate: string,
    author: string,
    cover: string,
    description: string,
    publisher: string,
    title: string)

  /** A decoded response: the HTTP status, and the `item` list when that key is present. */
  datatype Response = Response(status: int, items: Option<seq<Item>>)

  /** What the lookup yields: a book, `None`, or the IndexError of an empty `item` list. */
  datatype Lookup = Found(book: Book) | NoBook | EmptyItemList

  /** The year kept for a book: the first four characters of `pubDate`, or all of it when shorter. */
  function PublishYear(pubDate: string): (year: string)
    ensures |pubDate| >= 4 ==> year == pubDate[..4]
    ensures |pubDate| < 4 ==> year == pubDate
  {
    Take(pubDate, 4)
  }

  /**
   * The large cover image: every "coversum" in the cover address becomes
   * "cover500" and the text around the occurrences is kept. Both are eight
   * characters long, so the address keeps its length; an address without
   * "coversum" is kept as it is, and no "coversum" is left in the result.
   */
  function CoverUrl(cover: string): (url: string)
    ensures url == Join(Split(cover, "coversum"), "cover500")
    ensures !Contains(url, "coversum")
    ensures Contains(cover, "coversum") ==> Contains(url, "cover500")
    ensures |url| == |cover|
    ensures !Contains(cover, "coversum") ==> url == cover
  {
    var pat, rep := "coversum", "cover500";
    assert rep[5] != pat[5];
    ReplaceJoinSplit(cover, pat, rep);
    ReplaceLeavesNoPattern(cover, pat, rep);
    Replace(cover, pat, rep)
  }

  /** The `Book` built from one response item: the isbn is the item's `isbn13`. */
  function ItemToBook(item: Item): (book: Book)
    ensures book.isbn == item.isbn13
    ensures |book.publishYear| <= 4 && StartsWith(item.pubDate, book.publishYear)
    ensures |book.coverUrl| == |item.cover|
  {
    Book(item.isbn13, item.title, item.author, item.publisher,
         PublishYear(item.pubDate), CoverUrl(item.cover), item.description)
  }

  /**
   * `get_book_info_by_isbn` after the request: a book is produced only for
   * status 200 with an `item` key, and only the first item is read; its isbn
   * comes from the item's `isbn13`, not from the queried `isbn`.
   */
  function GetBookInfoByIsbn(isbn: string, response: Response): (r: Lookup)
    ensures r.Found? <==> response.status == 200 && response.items.Some? && |response.items.value| > 0
    ensures r.EmptyItemList? <==> response.status == 200 && response.items == Some([])
    ensures r.Found? ==>
      var item := response.items.value[0];
      && r.book.isbn == item.isbn13
      && r.book.title == item.title
      && r.book.author == item.author
      && r.book.publisher == item.publisher
      && r.book.description == item.description
      && r.book.publishYear == Take(item.pubDate, 4)
      && r.book.coverUrl == Replace(item.cover, "coversum", "cover500")
  {
    if response.status != 200 then NoBook
    else match response.items
      case None => NoBook
      case Some(items) => if |items| == 0 then EmptyItemList else Found(ItemToBook(items[0]))
  }

  /** Items after the first never influence the result. */
  lemma OnlyFirstItemUsed(isbn: string, status: int, first: Item, rest1: seq<Item>, rest2: seq<Item>)
    ensures GetBookInfoByIsbn(isbn, Response(status, Some([first] + rest1)))
         == GetBookInfoByIsbn(isbn, Response(status, Some([first] + rest2)))
  {
  }
}
