/**
 * The relational catalog: the tables the pipeline reads and writes, the
 * book-synchronisation transaction and the lookup helpers. Opening the SSH
 * tunnel and the MySQL connection is not modelled; the database is an object
 * whose `tables` field is the committed state.
 */
module DatabaseConn {
  import opened Wrappers
  import opened BookInfo

  type MemberId = string

  /** A row of `books`; `isbn` is its unique key and `bookId` its auto-increment id. */
  datatype BookRow = BookRow(
    bookId: int,
    title: string,
    author: string,
    description: string,
    publisher: string,
    coverUrl: string,
    publishYear: string)

  /** A row of the fixed `sub_categories` taxonomy. */
  datatype SubCategory = SubCategory(id: int, name: string)

  /** A row of `member_sub_category_selections`. */
  datatype Selection = Selection(memberId: MemberId, subCategoryId: int)

  /** A row of `daily_book_id_recommendations`; dates are day numbers. */
  datatype RecommendationRow = RecommendationRow(memberId: MemberId, bookId: int, date: int)

  /**
   * The tables. Unique keys are modelled by the collection types: `books` is
   * keyed by isbn, `hashtags` by name, and the two mapping tables are sets of
   * (book_id, other id) pairs.
   */
  datatype Tables = Tables(
    books: map<string, BookRow>,
    nextBookId: int,
    hashtags: map<string, int>,
    nextHashtagId: int,
    bookHashtags: set<(int, int)>,
    subCategories: seq<SubCategory>,
    bookSubCategories: set<(int, int)>,
    selections: seq<Selection>,
    recommendations: seq<RecommendationRow>)

  /** Auto-increment ids are positive, below the next id to hand out, and distinct. */
  ghost predicate Consistent(t: Tables) {
    BooksConsistent(t.books, t.nextBookId) && HashtagsConsistent(t.hashtags, t.nextHashtagId)
  }

  /** Book ids are positive, below the next auto-increment value, and distinct. */
  ghost predicate BooksConsistent(books: map<string, BookRow>, next: int) {
    && next > 0
    && (forall isbn :: isbn in books ==> 0 < books[isbn].bookId < next)
    && (forall a, b :: a in books && b in books && a != b ==> books[a].bookId != books[b].bookId)
  }

  /** Hashtag ids are positive, below the next auto-increment value, and distinct. */
  ghost predicate HashtagsConsistent(hashtags: map<string, int>, next: int) {
    && next > 0
    && (forall n :: n in hashtags ==> 0 < hashtags[n] < next)
    && (forall a, b :: a in hashtags && b in hashtags && a != b ==> hashtags[a] != hashtags[b])
  }

  /**
   * How `insert_book_info_to_db` ends: committed, rolled back inside its
   * `try`, or raised by `ast.literal_eval` before the `try` is entered.
   */
  datatype TxOutcome = Committed | RolledBack | LiteralRaised

  // ---------------------------------------------------------------------------
  // Lookups

  /** The position of the first `sub_categories` row with this name, or the row count. */
  function FindSubCategory(rows: seq<SubCategory>, name: string): (k: nat)
    ensures k <= |rows|
    ensures forall i :: 0 <= i < k ==> rows[i].name != name
    ensures k < |rows| ==> rows[k].name == name
  {
    if rows == [] then 0
    else if rows[0].name == name then 0
    else 1 + FindSubCategory(rows[1..], name)
  }

  /** `SELECT sub_category_id ... WHERE sub_category_name = %s`, first row. */
  function SubCategoryIdOf(rows: seq<SubCategory>, name: string): (id: Option<int>)
    ensures id.None? <==> forall k :: 0 <= k < |rows| ==> rows[k].name != name
    ensures id.Some? ==> exists k :: 0 <= k < |rows| && rows[k].name == name && rows[k].id == id.value
                                      && forall j :: 0 <= j < k ==> rows[j].name != name
  {
    var k := FindSubCategory(rows, name);
    if k < |rows| then Some(rows[k].id) else None
  }

  /** The sub-category id passes the truth test at database_conn.py:112 (0 is falsy). */
  predicate Resolves(rows: seq<SubCategory>, name: string)
    ensures Resolves(rows, name) <==>
      exists k :: 0 <= k < |rows| && rows[k].name == name && rows[k].id != 0
                  && forall j :: 0 <= j < k ==> rows[j].name != name
  {
    var id := SubCategoryIdOf(rows, name);
    id.Some? && id.value != 0
  }

  /** The names of the `sub_categories` rows with this id, in table order. */
  function NamesWithId(rows: seq<SubCategory>, id: int): (names: seq<string>)
    ensures forall x :: x in names <==> exists k :: 0 <= k < |rows| && rows[k].id == id && rows[k].name == x
    decreases |rows|
  {
    if rows == [] then []
    else
      var rest := NamesWithId(rows[1..], id);
      assert forall k :: 1 <= k < |rows| ==> rows[k] == rows[1..][k - 1];
      (if rows[0].id == id then [rows[0].name] else []) + rest
  }

  /**
   * The preference query: for each selection row of the member, in row order,
   * the names of the sub-categories it joins with.
   */
  function Preferences(sels: seq<Selection>, rows: seq<SubCategory>, member: MemberId): (names: seq<string>)
    ensures forall x :: x in names <==>
      exists i, k :: 0 <= i < |sels| && 0 <= k < |rows| && sels[i].memberId == member
                     && rows[k].id == sels[i].subCategoryId && rows[k].name == x
    decreases |sels|
  {
    if sels == [] then []
    else
      var init := sels[..|sels| - 1];
      var last := sels[|sels| - 1];
      var earlier := Preferences(init, rows, member);
      assert forall i :: 0 <= i < |init| ==> init[i] == sels[i];
      earlier + (if last.memberId == member then NamesWithId(rows, last.subCategoryId) else [])
  }

  // ---------------------------------------------------------------------------
  // The synchronisation transaction, as a function of the tables

  function RowFor(bookId: int, book: Book): BookRow {
    BookRow(bookId, book.title, book.author, book.description, book.publisher, book.coverUrl, book.publishYear)
  }

  /** INSERT ... ON DUPLICATE KEY UPDATE on `books`, keyed by isbn. */
  function UpsertBook(t: Tables, book: Book): (r: Tables)
    ensures book.isbn in r.books
  {
    if book.isbn in t.books then
      t.(books := t.books[book.isbn := RowFor(t.books[book.isbn].bookId, book)])
    else
      t.(books := t.books[book.isbn := RowFor(t.nextBookId, book)], nextBookId := t.nextBookId + 1)
  }

  /**
   * A new isbn adds exactly one row, with the next auto-increment id; an
   * existing isbn keeps its id and gets the new scalar fields; no other row
   * and no other table changes.
   */
  lemma UpsertBookSpec(t: Tables, book: Book)
    ensures var r := UpsertBook(t, book);
      && r.books.Keys == t.books.Keys + {book.isbn}
      && |r.books| == (if book.isbn in t.books then |t.books| else |t.books| + 1)
      && (book.isbn in t.books ==> r.books[book.isbn] == RowFor(t.books[book.isbn].bookId, book))
      && (book.isbn !in t.books ==> r.books[book.isbn] == RowFor(t.nextBookId, book))
      && (forall isbn :: isbn in t.books && isbn != book.isbn ==> r.books[isbn] == t.books[isbn])
      && r.(books := t.books, nextBookId := t.nextBookId) == t
  {
    if book.isbn in t.books {
      UpsertExisting(t, book);
    } else {
      UpsertNew(t, book);
    }
  }

  lemma UpsertExisting(t: Tables, book: Book)
    requires book.isbn in t.books
    ensures var r := UpsertBook(t, book);
      && r.books == t.books[book.isbn := RowFor(t.books[book.isbn].bookId, book)]
      && r.books.Keys == t.books.Keys
      && |r.books| == |t.books|
      && r.(books := t.books, nextBookId := t.nextBookId) == t
  {
    var r := UpsertBook(t, book);
    assert r.books.Keys == t.books.Keys;
  }

  lemma UpsertNew(t: Tables, book: Book)
    requires book.isbn !in t.books
    ensures var r := UpsertBook(t, book);
      && r.books == t.books[book.isbn := RowFor(t.nextBookId, book)]
      && r.books.Keys == t.books.Keys + {book.isbn}
      && |r.books| == |t.books| + 1
      && r.(books := t.books, nextBookId := t.nextBookId) == t
  {
  }


  /** Insert-or-ignore of one hashtag name. */
  function InsertHashtag(t: Tables, name: string): (r: Tables)
    ensures name in r.hashtags
  {
    if name in t.hashtags then t
    else t.(hashtags := t.hashtags[name := t.nextHashtagId], nextHashtagId := t.nextHashtagId + 1)
  }

  /** Insert-or-ignore of one (book_id, hashtag_id) pair. */
  function MapHashtag(t: Tables, bookId: int, name: string): (r: Tables)
    requires name in t.hashtags
    ensures (bookId, t.hashtags[name]) in r.bookHashtags
    ensures r.(bookHashtags := t.bookHashtags) == t && t.bookHashtags <= r.bookHashtags
  {
    t.(bookHashtags := t.bookHashtags + {(bookId, t.hashtags[name])})
  }

  /** The hashtag loop over `names`, in order. */
  function AddHashtags(t: Tables, bookId: int, names: seq<string>): (r: Tables)
    ensures t.hashtags.Keys <= r.hashtags.Keys && t.bookHashtags <= r.bookHashtags
    ensures r.(hashtags := t.hashtags, nextHashtagId := t.nextHashtagId, bookHashtags := t.bookHashtags) == t
    decreases |names|
  {
    if names == [] then t
    else
      var name := names[|names| - 1];
      MapHashtag(InsertHashtag(AddHashtags(t, bookId, names[..|names| - 1]), name), bookId, name)
  }

  /**
   * The dictionary gains exactly the new names, no existing id changes, and
   * the book is mapped to the id of every name; nothing else changes.
   */
  lemma AddHashtagsSpec(t: Tables, bookId: int, names: seq<string>)
    ensures var r := AddHashtags(t, bookId, names);
      && r.hashtags.Keys == t.hashtags.Keys + (set n | n in names)
      && (forall n :: n in t.hashtags ==> r.hashtags[n] == t.hashtags[n])
      && r.bookHashtags == t.bookHashtags + (set n | n in names :: (bookId, r.hashtags[n]))
      && r.(hashtags := t.hashtags, nextHashtagId := t.nextHashtagId, bookHashtags := t.bookHashtags) == t
  {
    AddHashtagsKeys(t, bookId, names);
    AddHashtagsMapped(t, bookId, names);
    PairsAsSet(bookId, AddHashtags(t, bookId, names).hashtags, names);
  }

  /** The hashtag loop adds exactly the new names and changes no existing id, nor any table but its own. */
  lemma AddHashtagsKeys(t: Tables, bookId: int, names: seq<string>)
    ensures var r := AddHashtags(t, bookId, names);
      && r.hashtags.Keys == t.hashtags.Keys + (set n | n in names)
      && (forall n :: n in t.hashtags ==> r.hashtags[n] == t.hashtags[n])
      && r.(hashtags := t.hashtags, nextHashtagId := t.nextHashtagId, bookHashtags := t.bookHashtags) == t
  {
    AddHashtagsKeySet(t, bookId, names);
    AddHashtagsKeepsIds(t, bookId, names);
    AddHashtagsFrame(t, bookId, names);
  }

  /** The dictionary's names after the loop are the old ones and the loop's. */
  lemma {:induction false} AddHashtagsKeySet(t: Tables, bookId: int, names: seq<string>)
    ensures AddHashtags(t, bookId, names).hashtags.Keys == t.hashtags.Keys + (set n | n in names)
    decreases |names|
  {
    if names != [] {
      var init := names[..|names| - 1];
      var name := names[|names| - 1];
      AddHashtagsKeySet(t, bookId, init);
      var before := AddHashtags(t, bookId, init);
      var mid := InsertHashtag(before, name);
      assert AddHashtags(t, bookId, names).hashtags == mid.hashtags;
      InsertHashtagKeys(before, name);
      assert names == init + [name];
      NamesOfSnoc(init, name);
    }
  }

  /** Insert-or-ignore adds the name to the dictionary's names and no other. */
  lemma InsertHashtagKeys(t: Tables, name: string)
    ensures InsertHashtag(t, name).hashtags.Keys == t.hashtags.Keys + {name}
  {
  }

  /** The names of `init + [name]` are those of `init`, and `name`. */
  lemma NamesOfSnoc(init: seq<string>, name: string)
    ensures (set n | n in init + [name]) == (set n | n in init) + {name}
  {
  }

  /** A name already in the dictionary keeps its id through the loop. */
  lemma {:induction false} AddHashtagsKeepsIds(t: Tables, bookId: int, names: seq<string>)
    ensures var h := AddHashtags(t, bookId, names).hashtags;
      forall n :: n in t.hashtags ==> n in h && h[n] == t.hashtags[n]
    decreases |names|
  {
    if names != [] {
      var init := names[..|names| - 1];
      var name := names[|names| - 1];
      AddHashtagsKeepsIds(t, bookId, init);
      var before := AddHashtags(t, bookId, init);
      var mid := InsertHashtag(before, name);
      assert AddHashtags(t, bookId, names).hashtags == mid.hashtags;
      assert forall n :: n in before.hashtags ==> n in mid.hashtags && mid.hashtags[n] == before.hashtags[n];
    }
  }

  /** The loop changes no table other than the dictionary and the mapping. */
  lemma {:induction false} AddHashtagsFrame(t: Tables, bookId: int, names: seq<string>)
    ensures AddHashtags(t, bookId, names).(hashtags := t.hashtags, nextHashtagId := t.nextHashtagId,
                                           bookHashtags := t.bookHashtags) == t
    decreases |names|
  {
    if names != [] {
      var init := names[..|names| - 1];
      var name := names[|names| - 1];
      AddHashtagsFrame(t, bookId, init);
      var before := AddHashtags(t, bookId, init);
      var mid := InsertHashtag(before, name);
      var r := AddHashtags(t, bookId, names);
      assert r.books == mid.books == before.books;
      assert r.nextBookId == mid.nextBookId == before.nextBookId;
      assert r.subCategories == mid.subCategories == before.subCategories;
      assert r.bookSubCategories == mid.bookSubCategories == before.bookSubCategories;
      assert r.selections == mid.selections == before.selections;
      assert r.recommendations == mid.recommendations == before.recommendations;
    }
  }

  /** The (book id, hashtag id) pairs for `names`, in the hashtag dictionary `h`. */
  function Pairs(bookId: int, h: map<string, int>, names: seq<string>): set<(int, int)>
    requires forall n :: n in names ==> n in h
    decreases |names|
  {
    if names == [] then {}
    else Pairs(bookId, h, names[..|names| - 1]) + {(bookId, h[names[|names| - 1]])}
  }

  /** The pairs are those of the names, one per name. */
  lemma {:induction false} PairsAsSet(bookId: int, h: map<string, int>, names: seq<string>)
    requires forall n :: n in names ==> n in h
    ensures Pairs(bookId, h, names) == set n | n in names :: (bookId, h[n])
    decreases |names|
  {
    if names != [] {
      var init := names[..|names| - 1];
      var name := names[|names| - 1];
      PairsAsSet(bookId, h, init);
      assert names == init + [name];
      var now := set n | n in names :: (bookId, h[n]);
      var earlier := set n | n in init :: (bookId, h[n]);
      forall p | p in now
        ensures p in earlier || p == (bookId, h[name])
      {
        var n :| n in names && p == (bookId, h[n]);
        if n != name {
          assert n in init;
        }
      }
      assert now == earlier + {(bookId, h[name])};
    }
  }

  /** Pairs only depend on the ids of the names involved. */
  lemma {:induction false} PairsAgree(bookId: int, h: map<string, int>, g: map<string, int>, names: seq<string>)
    requires forall n :: n in names ==> n in h && n in g && h[n] == g[n]
    ensures Pairs(bookId, h, names) == Pairs(bookId, g, names)
    decreases |names|
  {
    if names != [] {
      PairsAgree(bookId, h, g, names[..|names| - 1]);
    }
  }

  /** The hashtag loop maps the book to the id of every name, and to nothing else. */
  lemma {:induction false} AddHashtagsMapped(t: Tables, bookId: int, names: seq<string>)
    ensures var r := AddHashtags(t, bookId, names);
      && (forall n :: n in names ==> n in r.hashtags)
      && r.bookHashtags == t.bookHashtags + Pairs(bookId, r.hashtags, names)
    decreases |names|
  {
    if names != [] {
      var init := names[..|names| - 1];
      var name := names[|names| - 1];
      AddHashtagsMapped(t, bookId, init);
      var before := AddHashtags(t, bookId, init);
      var mid := InsertHashtag(before, name);
      var r := AddHashtags(t, bookId, names);
      assert r.hashtags == mid.hashtags;
      assert r.bookHashtags == before.bookHashtags + {(bookId, mid.hashtags[name])};
      assert forall n :: n in init ==> n in names;
      PairsAgree(bookId, before.hashtags, r.hashtags, init);
    }
  }

  lemma AddHashtagsStep(t: Tables, bookId: int, names: seq<string>, i: nat)
    requires i < |names|
    ensures AddHashtags(t, bookId, names[..i + 1])
         == MapHashtag(InsertHashtag(AddHashtags(t, bookId, names[..i]), names[i]), bookId, names[i])
  {
    assert names[..i + 1][..i] == names[..i];
  }

  /** The sub-category loop: map every name that resolves, skip the others. */
  function MapSubCategories(t: Tables, bookId: int, names: seq<string>): (r: Tables)
    ensures t.bookSubCategories <= r.bookSubCategories
    ensures r.(bookSubCategories := t.bookSubCategories) == t
    decreases |names|
  {
    if names == [] then t
    else
      var name := names[|names| - 1];
      var before := MapSubCategories(t, bookId, names[..|names| - 1]);
      if Resolves(t.subCategories, name) then
        before.(bookSubCategories := before.bookSubCategories + {(bookId, SubCategoryIdOf(t.subCategories, name).value)})
      else before
  }

  /** Every name that resolves yields one mapping; nothing else changes. */
  lemma {:induction false} MapSubCategoriesSpec(t: Tables, bookId: int, names: seq<string>)
    ensures var r := MapSubCategories(t, bookId, names);
      && r.bookSubCategories == t.bookSubCategories
           + (set n | n in names && Resolves(t.subCategories, n) :: (bookId, SubCategoryIdOf(t.subCategories, n).value))
    decreases |names|
  {
    if names != [] {
      var init := names[..|names| - 1];
      MapSubCategoriesSpec(t, bookId, init);
      assert names == init + [names[|names| - 1]];
      ResolvedSnoc(t.subCategories, bookId, init, names[|names| - 1]);
    }
  }

  /** One more name adds its pair exactly when it resolves. */
  lemma ResolvedSnoc(rows: seq<SubCategory>, bookId: int, init: seq<string>, name: string)
    ensures (set n | n in init + [name] && Resolves(rows, n) :: (bookId, SubCategoryIdOf(rows, n).value))
         == (set n | n in init && Resolves(rows, n) :: (bookId, SubCategoryIdOf(rows, n).value))
            + (if Resolves(rows, name) then {(bookId, SubCategoryIdOf(rows, name).value)} else {})
  {
    var now := set n | n in init + [name] && Resolves(rows, n) :: (bookId, SubCategoryIdOf(rows, n).value);
    var earlier := set n | n in init && Resolves(rows, n) :: (bookId, SubCategoryIdOf(rows, n).value);
    forall p | p in now
      ensures p in earlier || (Resolves(rows, name) && p == (bookId, SubCategoryIdOf(rows, name).value))
    {
      var n :| n in init + [name] && Resolves(rows, n) && p == (bookId, SubCategoryIdOf(rows, n).value);
      if n != name {
        assert n in init;
      }
    }
    forall p | p in earlier
      ensures p in now
    {
      var n :| n in init && Resolves(rows, n) && p == (bookId, SubCategoryIdOf(rows, n).value);
      assert n in init + [name];
    }
    if Resolves(rows, name) {
      assert name in init + [name];
    }
  }

  lemma MapSubCategoriesStep(t: Tables, bookId: int, names: seq<string>, j: nat)
    requires j < |names|
    ensures var before := MapSubCategories(t, bookId, names[..j]);
      MapSubCategories(t, bookId, names[..j + 1])
      == if Resolves(t.subCategories, names[j])
         then before.(bookSubCategories := before.bookSubCategories + {(bookId, SubCategoryIdOf(t.subCategories, names[j]).value)})
         else before
  {
    assert names[..j + 1][..j] == names[..j];
  }

  /** The tables after a committed `insert_book_info_to_db`. */
  function Inserted(t: Tables, book: Book, categoryNames: seq<string>, hashtagNames: seq<string>): (r: Tables)
    ensures book.isbn in r.books && r.books.Keys == t.books.Keys + {book.isbn}
    ensures r.subCategories == t.subCategories && r.selections == t.selections && r.recommendations == t.recommendations
  {
    var t1 := UpsertBook(t, book);
    var bookId := t1.books[book.isbn].bookId;
    MapSubCategories(AddHashtags(t1, bookId, hashtagNames), bookId, categoryNames)
  }

  /** A statement of the transaction, by its place in the code. */
  datatype Statement =
    | BookUpsert                  // the INSERT into `books`
    | HashtagInsert(i: nat)       // the INSERT into `hashtags` for the i-th hashtag
    | HashtagMapping(i: nat)      // the INSERT into `book_hashtag_mappings` for the i-th hashtag
    | SubCategoryMapping(j: nat)  // the INSERT into `book_sub_category_mappings` for the j-th name
    | Commit

  /** Whether a call with these arguments actually issues the statement. */
  predicate Issued(t: Tables, categoryNames: seq<string>, hashtagNames: seq<string>, s: Statement) {
    match s
    case BookUpsert => true
    case HashtagInsert(i) => i < |hashtagNames|
    case HashtagMapping(i) => i < |hashtagNames|
    case SubCategoryMapping(j) => j < |categoryNames| && Resolves(t.subCategories, categoryNames[j])
    case Commit => true
  }

  // ---------------------------------------------------------------------------
  // Properties of the transaction

  /**
   * The book row is upserted by isbn: a new isbn adds one row with a fresh id,
   * an existing isbn keeps its id and gets the new scalar fields, and no other
   * book row changes. The taxonomy, the selections and the recommendations are
   * untouched.
   */
  lemma InsertedUpsertsBook(t: Tables, book: Book, categoryNames: seq<string>, hashtagNames: seq<string>)
    ensures var r := Inserted(t, book, categoryNames, hashtagNames);
      && r.books.Keys == t.books.Keys + {book.isbn}
      && (book.isbn in t.books ==> r.books[book.isbn] == RowFor(t.books[book.isbn].bookId, book) && |r.books| == |t.books|)
      && (book.isbn !in t.books ==> r.books[book.isbn] == RowFor(t.nextBookId, book) && |r.books| == |t.books| + 1)
      && (forall isbn :: isbn in t.books && isbn != book.isbn ==> r.books[isbn] == t.books[isbn])
      && r.subCategories == t.subCategories
      && r.selections == t.selections
      && r.recommendations == t.recommendations
  {
    SpecsOfInserted(t, book, categoryNames, hashtagNames);
    UpsertBookSpec(t, book);
  }

  /**
   * Hashtags and mappings: every name ends up in the dictionary with the id it
   * already had, and the book is mapped to each of them; every name that
   * resolves to a sub-category is mapped and the others are skipped.
   */
  lemma InsertedMappings(t: Tables, book: Book, categoryNames: seq<string>, hashtagNames: seq<string>)
    ensures var r := Inserted(t, book, categoryNames, hashtagNames);
      var bookId := UpsertBook(t, book).books[book.isbn].bookId;
      && r.hashtags.Keys == t.hashtags.Keys + (set n | n in hashtagNames)
      && (forall n :: n in t.hashtags ==> r.hashtags[n] == t.hashtags[n])
      && r.bookHashtags == t.bookHashtags + (set n | n in hashtagNames :: (bookId, r.hashtags[n]))
      && r.bookSubCategories == t.bookSubCategories
           + (set n | n in categoryNames && Resolves(t.subCategories, n) :: (bookId, SubCategoryIdOf(t.subCategories, n).value))
  {
    SpecsOfInserted(t, book, categoryNames, hashtagNames);
    var t1 := UpsertBook(t, book);
    var bookId := t1.books[book.isbn].bookId;
    AddHashtagsSpec(t1, bookId, hashtagNames);
    MapSubCategoriesSpec(AddHashtags(t1, bookId, hashtagNames), bookId, categoryNames);
  }

  /** Brings the three step specifications of one call into scope. */
  lemma SpecsOfInserted(t: Tables, book: Book, categoryNames: seq<string>, hashtagNames: seq<string>)
    ensures var t1 := UpsertBook(t, book);
      var bookId := t1.books[book.isbn].bookId;
      var t2 := AddHashtags(t1, bookId, hashtagNames);
      && t1.(books := t.books, nextBookId := t.nextBookId) == t
      && t2.(hashtags := t1.hashtags, nextHashtagId := t1.nextHashtagId, bookHashtags := t1.bookHashtags) == t1
      && Inserted(t, book, categoryNames, hashtagNames).(bookSubCategories := t2.bookSubCategories) == t2
  {
    var t1 := UpsertBook(t, book);
    var bookId := t1.books[book.isbn].bookId;
    UpsertBookSpec(t, book);
    AddHashtagsSpec(t1, bookId, hashtagNames);
    MapSubCategoriesSpec(AddHashtags(t1, bookId, hashtagNames), bookId, categoryNames);
  }

  /** A consistent database stays consistent: fresh ids are handed out above all existing ones. */
  lemma InsertedConsistent(t: Tables, book: Book, categoryNames: seq<string>, hashtagNames: seq<string>)
    requires Consistent(t)
    ensures Consistent(Inserted(t, book, categoryNames, hashtagNames))
  {
    var t1 := UpsertBook(t, book);
    UpsertConsistent(t, book);
    var bookId := t1.books[book.isbn].bookId;
    AddHashtagsConsistent(t1, bookId, hashtagNames);
    SpecsOfInserted(t, book, categoryNames, hashtagNames);
    var t2 := AddHashtags(t1, bookId, hashtagNames);
    var r := Inserted(t, book, categoryNames, hashtagNames);
    assert r.books == t2.books && r.nextBookId == t2.nextBookId;
    assert r.hashtags == t2.hashtags && r.nextHashtagId == t2.nextHashtagId;
  }

  /** The upsert keeps book ids consistent: a new row takes the next id, above all others. */
  lemma UpsertConsistent(t: Tables, book: Book)
    requires Consistent(t)
    ensures Consistent(UpsertBook(t, book))
  {
    if book.isbn in t.books {
      UpsertExistingConsistent(t, book);
    } else {
      UpsertNewConsistent(t, book);
    }
  }

  lemma UpsertExistingConsistent(t: Tables, book: Book)
    requires Consistent(t) && book.isbn in t.books
    ensures Consistent(UpsertBook(t, book))
  {
    var r := UpsertBook(t, book);
    var row := RowFor(t.books[book.isbn].bookId, book);
    assert r.books == t.books[book.isbn := row];
    KeepIdConsistent(t.books, t.nextBookId, book.isbn, row);
    assert r.nextBookId == t.nextBookId;
    assert r.hashtags == t.hashtags && r.nextHashtagId == t.nextHashtagId;
  }

  lemma UpsertNewConsistent(t: Tables, book: Book)
    requires Consistent(t) && book.isbn !in t.books
    ensures Consistent(UpsertBook(t, book))
  {
    var r := UpsertBook(t, book);
    var row := RowFor(t.nextBookId, book);
    assert r.books == t.books[book.isbn := row];
    FreshIdConsistent(t.books, t.nextBookId, book.isbn, row);
    assert r.nextBookId == t.nextBookId + 1;
    assert r.hashtags == t.hashtags && r.nextHashtagId == t.nextHashtagId;
  }

  /** Rewriting a row under its own id keeps the book ids consistent. */
  lemma KeepIdConsistent(books: map<string, BookRow>, next: int, isbn: string, row: BookRow)
    requires BooksConsistent(books, next) && isbn in books && row.bookId == books[isbn].bookId
    ensures BooksConsistent(books[isbn := row], next)
  {
    var b2 := books[isbn := row];
    forall x | x in b2
      ensures b2[x].bookId == books[x].bookId
    {
    }
  }

  /** Adding a row for a new isbn under the next id, and bumping the counter, keeps the book ids consistent. */
  lemma FreshIdConsistent(books: map<string, BookRow>, next: int, isbn: string, row: BookRow)
    requires BooksConsistent(books, next) && isbn !in books && row.bookId == next
    ensures BooksConsistent(books[isbn := row], next + 1)
  {
    var b2 := books[isbn := row];
    forall a, b | a in b2 && b in b2 && a != b
      ensures b2[a].bookId != b2[b].bookId
    {
      if a == isbn {
        assert b2[b].bookId == books[b].bookId < next;
      } else if b == isbn {
        assert b2[a].bookId == books[a].bookId < next;
      }
    }
  }


  lemma {:induction false} AddHashtagsConsistent(t: Tables, bookId: int, names: seq<string>)
    requires Consistent(t)
    ensures Consistent(AddHashtags(t, bookId, names))
    decreases |names|
  {
    if names != [] {
      var init := names[..|names| - 1];
      AddHashtagsConsistent(t, bookId, init);
      var before := AddHashtags(t, bookId, init);
      var name := names[|names| - 1];
      InsertHashtagConsistent(before, name);
      var r := AddHashtags(t, bookId, names);
      var mid := InsertHashtag(before, name);
      assert r == MapHashtag(mid, bookId, name);
      assert r.books == mid.books && r.nextBookId == mid.nextBookId;
      assert r.hashtags == mid.hashtags && r.nextHashtagId == mid.nextHashtagId;
    }
  }

  /** Insert-or-ignore of a hashtag keeps hashtag ids consistent. */
  lemma InsertHashtagConsistent(t: Tables, name: string)
    requires Consistent(t)
    ensures Consistent(InsertHashtag(t, name))
  {
    var r := InsertHashtag(t, name);
    if name !in t.hashtags {
      assert r.books == t.books && r.nextBookId == t.nextBookId;
      assert r.hashtags == t.hashtags[name := t.nextHashtagId];
      forall a, b | a in r.hashtags && b in r.hashtags && a != b
        ensures r.hashtags[a] != r.hashtags[b]
      {
        if a == name {
          assert r.hashtags[a] == t.nextHashtagId;
        } else if b == name {
          assert r.hashtags[b] == t.nextHashtagId;
        }
      }
    }
  }

  /** Hashtag names already in the dictionary, and already mapped to the book, add nothing. */
  lemma {:induction false} AddHashtagsPresent(t: Tables, bookId: int, names: seq<string>)
    requires forall n :: n in names ==> n in t.hashtags && (bookId, t.hashtags[n]) in t.bookHashtags
    ensures AddHashtags(t, bookId, names) == t
    decreases |names|
  {
    if names != [] {
      AddHashtagsPresent(t, bookId, names[..|names| - 1]);
    }
  }

  /** Sub-category mappings already present add nothing. */
  lemma {:induction false} MapSubCategoriesPresent(t: Tables, bookId: int, names: seq<string>)
    requires forall n :: n in names && Resolves(t.subCategories, n) ==>
      (bookId, SubCategoryIdOf(t.subCategories, n).value) in t.bookSubCategories
    ensures MapSubCategories(t, bookId, names) == t
    decreases |names|
  {
    if names != [] {
      MapSubCategoriesPresent(t, bookId, names[..|names| - 1]);
    }
  }

  /** Re-running the synchronisation with the same data changes nothing: no second row of any kind. */
  lemma InsertedIdempotent(t: Tables, book: Book, categoryNames: seq<string>, hashtagNames: seq<string>)
    ensures Inserted(Inserted(t, book, categoryNames, hashtagNames), book, categoryNames, hashtagNames)
         == Inserted(t, book, categoryNames, hashtagNames)
  {
    var r := Inserted(t, book, categoryNames, hashtagNames);
    var bookId := UpsertBook(t, book).books[book.isbn].bookId;
    InsertedUpsertsBook(t, book, categoryNames, hashtagNames);
    InsertedMappings(t, book, categoryNames, hashtagNames);
    assert r.books[book.isbn] == RowFor(bookId, book);
    UpsertSameRow(r, book);
    forall n | n in hashtagNames
      ensures n in r.hashtags && (bookId, r.hashtags[n]) in r.bookHashtags
    {
    }
    AddHashtagsPresent(r, bookId, hashtagNames);
    MapSubCategoriesPresent(r, bookId, categoryNames);
  }

  /** Upserting a book whose row already holds its data changes nothing. */
  lemma UpsertSameRow(t: Tables, book: Book)
    requires book.isbn in t.books && t.books[book.isbn] == RowFor(t.books[book.isbn].bookId, book)
    ensures UpsertBook(t, book) == t
  {
    assert t.books[book.isbn := t.books[book.isbn]] == t.books;
  }

  // ---------------------------------------------------------------------------
  // The two loops of the transaction, on the working copy

  /** `failAt` names a statement of the hashtag loop over `names`. */
  predicate FailsInHashtags(failAt: Option<Statement>, names: seq<string>) {
    FailsBelow(failAt, |names|)
  }

  /** `failAt` names a statement of one of the first `n` hashtags. */
  predicate FailsBelow(failAt: Option<Statement>, n: nat) {
    failAt.Some? && (failAt.value.HashtagInsert? || failAt.value.HashtagMapping?) && failAt.value.i < n
  }

  /** `failAt` names a mapping statement that the category loop over `names` issues. */
  predicate FailsInCategories(failAt: Option<Statement>, rows: seq<SubCategory>, names: seq<string>) {
    failAt.Some? && failAt.value.SubCategoryMapping? && failAt.value.j < |names| && Resolves(rows, names[failAt.value.j])
  }

  /** A statement is issued exactly when it is the upsert, the commit, or falls in one of the two loops. */
  lemma IssuedCases(t: Tables, categoryNames: seq<string>, hashtagNames: seq<string>, failAt: Option<Statement>)
    ensures (failAt.Some? && Issued(t, categoryNames, hashtagNames, failAt.value))
        <==> (|| failAt == Some(BookUpsert)
              || FailsInHashtags(failAt, hashtagNames)
              || FailsInCategories(failAt, t.subCategories, categoryNames)
              || failAt == Some(Commit))
  {
  }

  /**
   * The hashtag loop (database_conn.py:93-107) on the working copy `t`: for
   * each name, insert-or-ignore it, then insert-or-ignore its mapping.
   * `failed` tells whether one of these statements raised.
   */
  method RunHashtagLoop(t: Tables, bookId: int, names: seq<string>, failAt: Option<Statement>)
    returns (r: Tables, failed: bool)
    ensures failed <==> FailsInHashtags(failAt, names)
    ensures !failed ==> r == AddHashtags(t, bookId, names)
  {
    r := t;
    var i := 0;
    while i < |names|
      invariant 0 <= i <= |names|
      invariant !FailsBelow(failAt, i)
      invariant r == AddHashtags(t, bookId, names[..i])
    {
      if failAt == Some(HashtagInsert(i)) {
        return r, true;
      }
      r := InsertHashtag(r, names[i]);
      if failAt == Some(HashtagMapping(i)) {
        return r, true;
      }
      r := MapHashtag(r, bookId, names[i]);
      AddHashtagsStep(t, bookId, names, i);
      i := i + 1;
    }
    assert names[..i] == names;
    failed := false;
  }

  /**
   * The category loop (database_conn.py:110-120) on the working copy `t`:
   * map every name whose sub-category id resolves, skip the others.
   * `failed` tells whether a mapping statement raised.
   */
  method RunCategoryLoop(t: Tables, bookId: int, names: seq<string>, failAt: Option<Statement>)
    returns (r: Tables, failed: bool)
    ensures failed <==> FailsInCategories(failAt, t.subCategories, names)
    ensures !failed ==> r == MapSubCategories(t, bookId, names)
  {
    var rows := t.subCategories;
    r := t;
    var j := 0;
    while j < |names|
      invariant 0 <= j <= |names|
      invariant failAt.Some? && failAt.value.SubCategoryMapping? && failAt.value.j < j ==> !Resolves(rows, names[failAt.value.j])
      invariant r == MapSubCategories(t, bookId, names[..j])
    {
      MapSubCategoriesStep(t, bookId, names, j);
      var subId := SubCategoryIdOf(rows, names[j]);
      if subId.Some? && subId.value != 0 {
        if failAt == Some(SubCategoryMapping(j)) {
          return r, true;
        }
        r := r.(bookSubCategories := r.bookSubCategories + {(bookId, subId.value)});
      }
      j := j + 1;
    }
    assert names[..j] == names;
    failed := false;
  }

  // ---------------------------------------------------------------------------
  // The database object

  /**
   * The relational store behind the module's functions. `openConnections`
   * counts the connection-and-tunnel pairs that `connect_to_db` opened and
   * no `finally` has closed yet.
   */
  class Database {
    var tables: Tables
    var openConnections: nat

    /** The database as it stands when the pipeline starts, with no connection open. */
    constructor (initial: Tables)
      requires Consistent(initial)
      ensures tables == initial
      ensures Consistent(tables)
      ensures openConnections == 0
    {
      tables := initial;
      openConnections := 0;
    }

    /**
     * `get_sub_category_id`: the id of the first row whose name equals the
     * argument; `None` when no row matches or when the query raises.
     */
    method GetSubCategoryId(name: string, queryFails: bool) returns (id: Option<int>)
      ensures queryFails ==> id.None?
      ensures !queryFails ==> (id.None? <==> forall k :: 0 <= k < |tables.subCategories| ==> tables.subCategories[k].name != name)
      ensures id.Some? ==> exists k :: 0 <= k < |tables.subCategories| && tables.subCategories[k].name == name
                                      && tables.subCategories[k].id == id.value
      ensures !queryFails ==> id == SubCategoryIdOf(tables.subCategories, name)
    {
      if queryFails {
        return None;
      }
      var rows := tables.subCategories;
      var k := FindSubCategory(rows, name);
      if k < |rows| {
        id := Some(rows[k].id);
      } else {
        id := None;
      }
    }

    /**
     * `insert_book_info_to_db`: upsert the book row, insert-or-ignore every
     * hashtag and its mapping, map every category name that resolves, then
     * commit. `failAt` names the statement whose execution raises, if any:
     * then every write of the call is rolled back. The connection is opened
     * first; `literalFails` says that a string `category_names` makes
     * `ast.literal_eval` raise, which happens before the `try` whose `finally`
     * closes the connection, so that connection stays open. On every other
     * path the `finally` closes it.
     */
    method InsertBookInfo(book: Book, categoryNames: seq<string>, hashtagNames: seq<string>,
                          literalFails: bool, failAt: Option<Statement>)
      returns (outcome: TxOutcome)
      requires Consistent(tables)
      modifies this
      ensures Consistent(tables)
      ensures outcome == LiteralRaised <==> literalFails
      ensures literalFails ==> tables == old(tables) && openConnections == old(openConnections) + 1
      ensures !literalFails ==> openConnections == old(openConnections)
      ensures outcome == RolledBack <==>
                !literalFails && failAt.Some? && Issued(old(tables), categoryNames, hashtagNames, failAt.value)
      ensures outcome == Committed ==> tables == Inserted(old(tables), book, categoryNames, hashtagNames)
      ensures outcome == RolledBack ==> tables == old(tables)
    {
      openConnections := openConnections + 1;
      if literalFails {
        return LiteralRaised;
      }
      IssuedCases(tables, categoryNames, hashtagNames, failAt);
      if failAt == Some(BookUpsert) {
        openConnections := openConnections - 1;
        return RolledBack;
      }
      var tx := UpsertBook(tables, book);
      var bookId := tx.books[book.isbn].bookId;
      var failed;
      tx, failed := RunHashtagLoop(tx, bookId, hashtagNames, failAt);
      if failed {
        openConnections := openConnections - 1;
        return RolledBack;
      }
      SpecsOfInserted(tables, book, categoryNames, hashtagNames);
      assert tx.subCategories == tables.subCategories;
      tx, failed := RunCategoryLoop(tx, bookId, categoryNames, failAt);
      if failed || failAt == Some(Commit) {
        openConnections := openConnections - 1;
        return RolledBack;
      }
      InsertedConsistent(tables, book, categoryNames, hashtagNames);
      tables := tx;
      openConnections := openConnections - 1;
      return Committed;
    }

    /**
     * `get_member_preferences`: the sub-category name of each selection row of
     * the member, in row order. A query that raises is caught and the call
     * returns `None`. The `finally` closes the connection on both paths, so
     * the call changes nothing, the count of open connections included.
     */
    method GetMemberPreferences(member: MemberId, queryFails: bool) returns (names: Option<seq<string>>)
      ensures names.None? <==> queryFails
      ensures names.Some? ==> names.value == Preferences(tables.selections, tables.subCategories, member)
    {
      if queryFails {
        return None;
      }
      names := Some(Preferences(tables.selections, tables.subCategories, member));
    }

    /**
     * `get_book_id_by_isbn`: the `book_id` of the row with this isbn, or `None`.
     * A failing connection or query is not caught for good: the final
     * `return` reads a variable that was never bound, so the call raises.
     * The `finally` closes the connection first, so the call changes nothing.
     */
    method GetBookIdByIsbn(isbn: string, queryFails: bool) returns (id: Option<int>, raised: bool)
      ensures raised <==> queryFails
      ensures raised ==> id.None?
      ensures !raised ==> (id.Some? <==> isbn in tables.books)
      ensures id.Some? ==> isbn in tables.books && id.value == tables.books[isbn].bookId
    {
      if queryFails {
        return None, true;
      }
      raised := false;
      if isbn in tables.books {
        id := Some(tables.books[isbn].bookId);
      } else {
        id := None;
      }
    }

    /**
     * `save_recommendation`: append exactly one row and commit. There is no
     * handler: a failing insert raises before the commit, and nothing is saved.
     * Either way the `finally` closes the connection the call opened.
     */
    method SaveRecommendation(member: MemberId, bookId: int, date: int, fails: bool) returns (raised: bool)
      modifies this
      ensures raised <==> fails
      ensures fails ==> tables == old(tables)
      ensures !fails ==> tables == old(tables).(recommendations := old(tables).recommendations
                                                  + [RecommendationRow(member, bookId, date)])
      ensures openConnections == old(openConnections)
    {
      openConnections := openConnections + 1;
      if fails {
        openConnections := openConnections - 1;
        return true;
      }
      tables := tables.(recommendations := tables.recommendations + [RecommendationRow(member, bookId, date)]);
      openConnections := openConnections - 1;
      raised := false;
    }
  }
}
