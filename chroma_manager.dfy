/**
 * The vector collection manager. The collection is keyed by isbn; each entry
 * holds the book description as its document, a flat metadata record, and the
 * text its embedding was computed from. Embedding and similarity search are an
 * oracle `nearest` that maps a query text to zero or one stored id.
 */
module ChromaStore {
  import opened Wrappers
  import opened Text
  import opened BookInfo
  import opened DatabaseConn

  /** The metadata dictionary stored with every entry. */
  datatype Metadata = Metadata(
    title: string,
    author: string,
    isbn: string,
    hashtags: string,
    mainCategory: string,
    subCategory: string)

  /** One collection entry: document, metadata, and the text that was embedded. */
  datatype Entry = Entry(document: string, metadata: Metadata, embeddedText: string)

  /** The dictionary `get_book` returns. */
  datatype BookView = BookView(
    title: string,
    author: string,
    isbn: string,
    description: string,
    hashtags: string,
    mainCategory: string,
    subCategory: string)

  /** An HTTP error raised towards the web layer. */
  datatype HttpError = HttpError(status: int, detail: string)

  /** A nearest-neighbour query: the text that is embedded and the number of results asked for. */
  datatype Query = Query(text: string, nResults: int)

  datatype AddOutcome = AlreadyExists | Added
  datatype DeleteOutcome = NotFound | Deleted

  /**
   * How one `recommend_book` call ends: one of its four return values, or
   * `Raised` when an exception from the database layer propagates out of it.
   */
  datatype RecommendOutcome = NoPreferences | NoBookFound | NoBookId | Recommended(bookId: int) | Raised

  /**
   * Which database call of one `recommend_book` fails, if any: the preference
   * query (caught, the call sees `None`), the book id lookup or the insert of
   * the recommendation (both raise out of the call).
   */
  datatype Fault = PreferencesFail | LookupFail | SaveFail

  const NotFoundDetail: string := "존재하지 않는 책 정보입니다."

  // ---------------------------------------------------------------------------
  // The collection as a value

  /** `x if x is not None else []` */
  function OrEmpty(xs: Option<seq<string>>): seq<string> {
    match xs
    case None => []
    case Some(v) => v
  }

  /** The f-string that is embedded for a new book. */
  function EmbedText(book: Book, mainCategory: string, subCategoryText: string, hashtagsText: string): string {
    "title: " + book.title + "\nauthor: " + book.author + "\ndescription: " + book.description
    + "\nmain_category: " + mainCategory + "\nsub_category: " + subCategoryText + "\nhashtags: " + hashtagsText
  }

  /** The entry `add_book` stores for a book: lists are stored joined with ", ". */
  function NewEntry(book: Book, mainCategory: string, subCategory: Option<seq<string>>, hashtags: Option<seq<string>>): (e: Entry)
    ensures e.document == book.description && e.metadata.isbn == book.isbn && e.metadata.mainCategory == mainCategory
    ensures subCategory.None? ==> e.metadata.subCategory == ""
    ensures hashtags.None? ==> e.metadata.hashtags == ""
  {
    var subText := Join(OrEmpty(subCategory), ", ");
    var tagText := Join(OrEmpty(hashtags), ", ");
    Entry(book.description,
          Metadata(book.title, book.author, book.isbn, tagText, mainCategory, subText),
          EmbedText(book, mainCategory, subText, tagText))
  }

  /** The collection after `add_book`: an existing isbn is left alone. */
  function WithBook(c: map<string, Entry>, book: Book, mainCategory: string,
                    subCategory: Option<seq<string>>, hashtags: Option<seq<string>>): (r: map<string, Entry>)
    ensures r.Keys == c.Keys + {book.isbn}
    ensures forall k :: k in c ==> r[k] == c[k]
    ensures book.isbn !in c ==> r[book.isbn] == NewEntry(book, mainCategory, subCategory, hashtags)
  {
    if book.isbn in c then c else c[book.isbn := NewEntry(book, mainCategory, subCategory, hashtags)]
  }

  /** The collection after `delete_book`. */
  function WithoutBook(c: map<string, Entry>, isbn: string): (r: map<string, Entry>)
    ensures r.Keys == c.Keys - {isbn}
    ensures forall k :: k in r ==> r[k] == c[k]
  {
    c - {isbn}
  }

  function ViewOf(e: Entry): BookView {
    BookView(e.metadata.title, e.metadata.author, e.metadata.isbn, e.document,
             e.metadata.hashtags, e.metadata.mainCategory, e.metadata.subCategory)
  }

  /** `get_book`: the stored entry as a dictionary, or the 404 error for an absent isbn. */
  function Retrieve(c: map<string, Entry>, isbn: string): (r: Result<BookView, HttpError>)
    ensures r.Err? <==> isbn !in c
    ensures r.Err? ==> r.error == HttpError(404, NotFoundDetail)
    ensures r.Ok? ==> var e := c[isbn];
      r.value == BookView(e.metadata.title, e.metadata.author, e.metadata.isbn, e.document,
                          e.metadata.hashtags, e.metadata.mainCategory, e.metadata.subCategory)
  {
    if isbn in c then Ok(ViewOf(c[isbn])) else Err(HttpError(404, NotFoundDetail))
  }

  /** Every entry is filed under the isbn its metadata carries. */
  predicate KeysMatch(c: map<string, Entry>) {
    forall k :: k in c ==> c[k].metadata.isbn == k
  }

  /** Every id the oracle can answer is in the collection. */
  ghost predicate NearestInCollection(c: map<string, Entry>, nearest: string -> Option<string>) {
    forall q :: nearest(q).Some? ==> nearest(q).value in c
  }

  // ---------------------------------------------------------------------------
  // Properties of the collection operations

  /** Adding a book whose isbn is present changes nothing. */
  lemma AddExistingUnchanged(c: map<string, Entry>, book: Book, mainCategory: string,
                             subCategory: Option<seq<string>>, hashtags: Option<seq<string>>)
    requires book.isbn in c
    ensures WithBook(c, book, mainCategory, subCategory, hashtags) == c
  {
  }

  /** Adding a fresh isbn adds exactly one key and leaves every other entry as it was. */
  lemma AddFreshOneEntry(c: map<string, Entry>, book: Book, mainCategory: string,
                         subCategory: Option<seq<string>>, hashtags: Option<seq<string>>)
    requires book.isbn !in c
    ensures var r := WithBook(c, book, mainCategory, subCategory, hashtags);
      && r.Keys == c.Keys + {book.isbn}
      && |r| == |c| + 1
      && (forall k :: k in c ==> r[k] == c[k])
  {
  }

  /** A missing list is stored exactly as an empty one, as the empty string. */
  lemma MissingListsStoredEmpty(book: Book, mainCategory: string)
    ensures NewEntry(book, mainCategory, None, None) == NewEntry(book, mainCategory, Some([]), Some([]))
    ensures NewEntry(book, mainCategory, None, None).metadata.hashtags == ""
    ensures NewEntry(book, mainCategory, None, None).metadata.subCategory == ""
  {
  }

  /**
   * Round trip: after adding a fresh isbn, `get_book` returns the book's title,
   * author and isbn, its description as stored document, and the joined lists.
   */
  lemma AddThenGet(c: map<string, Entry>, book: Book, mainCategory: string,
                   subCategory: Option<seq<string>>, hashtags: Option<seq<string>>)
    requires book.isbn !in c
    ensures Retrieve(WithBook(c, book, mainCategory, subCategory, hashtags), book.isbn)
         == Ok(BookView(book.title, book.author, book.isbn, book.description,
                        Join(OrEmpty(hashtags), ", "), mainCategory, Join(OrEmpty(subCategory), ", ")))
  {
  }

  /**
   * The stored list strings give back the lists: splitting the returned
   * hashtags and sub-categories on ", " yields the lists that were added,
   * provided they are non-empty and no name contains ", ".
   */
  lemma StoredListsRecoverable(c: map<string, Entry>, book: Book, mainCategory: string,
                               subCategory: seq<string>, hashtags: seq<string>)
    requires book.isbn !in c
    requires |subCategory| >= 1 && |hashtags| >= 1
    requires forall i :: 0 <= i < |subCategory| ==> !Contains(subCategory[i], ", ")
    requires forall i :: 0 <= i < |hashtags| ==> !Contains(hashtags[i], ", ")
    ensures var r := Retrieve(WithBook(c, book, mainCategory, Some(subCategory), Some(hashtags)), book.isbn);
      && r.Ok?
      && Split(r.value.hashtags, ", ") == hashtags
      && Split(r.value.subCategory, ", ") == subCategory
  {
    CommaSpaceSplitJoin(hashtags);
    CommaSpaceSplitJoin(subCategory);
  }

  /** After deleting an isbn, `get_book` raises the 404 error; every other lookup is unaffected. */
  lemma DeleteThenGet(c: map<string, Entry>, isbn: string)
    ensures Retrieve(WithoutBook(c, isbn), isbn) == Err(HttpError(404, NotFoundDetail))
    ensures forall k :: k != isbn ==> Retrieve(WithoutBook(c, isbn), k) == Retrieve(c, k)
  {
  }

  /** Deleting what was just added restores the collection. */
  lemma AddThenDelete(c: map<string, Entry>, book: Book, mainCategory: string,
                      subCategory: Option<seq<string>>, hashtags: Option<seq<string>>)
    requires book.isbn !in c
    ensures WithoutBook(WithBook(c, book, mainCategory, subCategory, hashtags), book.isbn) == c
  {
    var r := WithoutBook(WithBook(c, book, mainCategory, subCategory, hashtags), book.isbn);
    assert r.Keys == c.Keys;
  }

  /** Adding and deleting keep every entry filed under its own isbn. */
  lemma KeysMatchPreserved(c: map<string, Entry>, book: Book, mainCategory: string,
                           subCategory: Option<seq<string>>, hashtags: Option<seq<string>>, isbn: string)
    requires KeysMatch(c)
    ensures KeysMatch(WithBook(c, book, mainCategory, subCategory, hashtags))
    ensures KeysMatch(WithoutBook(c, isbn))
  {
  }

  // ---------------------------------------------------------------------------
  // Recommendation, as a function of the tables and the collection

  /** What one `recommend_book` call does: its answer, the query it issues and the row it saves. */
  datatype Recommendation = Recommendation(outcome: RecommendOutcome, query: Option<Query>, saved: Option<RecommendationRow>)

  /**
   * `recommend_book` against the tables `t`, when the database call named by
   * `fault` fails: a failing preference query reads as no preferences, a
   * failing lookup or save raises out of the call.
   */
  function Recommend(t: Tables, c: map<string, Entry>, member: MemberId, today: int,
                     nearest: string -> Option<string>, fault: Option<Fault>): (r: Recommendation)
    requires NearestInCollection(c, nearest)
    ensures r.query.None? <==> r.outcome == NoPreferences
    ensures r.saved.Some? <==> r.outcome.Recommended?
    ensures r.saved.Some? ==> r.saved.value == RecommendationRow(member, r.outcome.bookId, today + 1) && r.outcome.bookId != 0
  {
    var prefs := Preferences(t.selections, t.subCategories, member);
    if fault == Some(PreferencesFail) || prefs == [] then Recommendation(NoPreferences, None, None)
    else
      var q := Query(Join(prefs, " "), 1);
      match nearest(q.text)
      case None => Recommendation(NoBookFound, Some(q), None)
      case Some(id) =>
        var isbn := c[id].metadata.isbn;
        if fault == Some(LookupFail) then Recommendation(Raised, Some(q), None)
        else if isbn !in t.books || t.books[isbn].bookId == 0 then Recommendation(NoBookId, Some(q), None)
        else if fault == Some(SaveFail) then Recommendation(Raised, Some(q), None)
        else
          var bookId := t.books[isbn].bookId;
          Recommendation(Recommended(bookId), Some(q), Some(RecommendationRow(member, bookId, today + 1)))
  }

  /** `[x]` for `Some(x)`, `[]` for `None`. */
  function AsSeq<T>(o: Option<T>): (s: seq<T>)
    ensures |s| <= 1
    ensures o.None? <==> s == []
    ensures o.Some? ==> s == [o.value]
  {
    match o
    case None => []
    case Some(x) => [x]
  }

  /**
   * The "no preferences" answer comes exactly when no query is issued, which
   * is when the preference query failed or found nothing; then nothing is saved.
   */
  lemma NoPreferencesNoEffect(t: Tables, c: map<string, Entry>, member: MemberId, today: int,
                              nearest: string -> Option<string>, fault: Option<Fault>)
    requires NearestInCollection(c, nearest)
    ensures var r := Recommend(t, c, member, today, nearest, fault);
      && (r.outcome == NoPreferences <==> r.query.None?)
      && (r.query.None? <==> fault == Some(PreferencesFail) || Preferences(t.selections, t.subCategories, member) == [])
      && (r.query.None? ==> r.saved.None?)
  {
  }

  /**
   * A query is issued exactly when the preferences were read and are not
   * empty; it is the preference names joined with spaces, asking for one
   * result. When no name contains a space, its words are the names in row order.
   */
  lemma QueryFromPreferences(t: Tables, c: map<string, Entry>, member: MemberId, today: int,
                             nearest: string -> Option<string>, fault: Option<Fault>)
    requires NearestInCollection(c, nearest)
    ensures var prefs := Preferences(t.selections, t.subCategories, member);
      var r := Recommend(t, c, member, today, nearest, fault);
      && (r.query.Some? <==> fault != Some(PreferencesFail) && prefs != [])
      && (r.query.Some? ==> r.query.value == Query(Join(prefs, " "), 1))
      && (r.query.Some? && (forall i :: 0 <= i < |prefs| ==> !Contains(prefs[i], " ")) ==>
            Split(r.query.value.text, " ") == prefs)
  {
    var prefs := Preferences(t.selections, t.subCategories, member);
    if prefs != [] && (forall i :: 0 <= i < |prefs| ==> !Contains(prefs[i], " ")) {
      assert forall i :: 0 <= i < |prefs| ==> prefs[i] + " "[..0] == prefs[i];
      SplitJoin(prefs, " ");
    }
  }

  /**
   * A row is saved exactly when a book id is recommended; it carries the
   * member, the non-zero id of the matched entry's isbn in the books table,
   * and the day after today.
   */
  lemma SavedOnlyWhenResolved(t: Tables, c: map<string, Entry>, member: MemberId, today: int,
                              nearest: string -> Option<string>, fault: Option<Fault>)
    requires NearestInCollection(c, nearest)
    ensures var r := Recommend(t, c, member, today, nearest, fault);
      && (r.saved.Some? <==> r.outcome.Recommended?)
      && (r.saved.Some? ==>
            && r.saved.value.memberId == member
            && r.saved.value.date == today + 1
            && r.saved.value.bookId != 0
            && r.query.Some?
            && nearest(r.query.value.text).Some?
            && var isbn := c[nearest(r.query.value.text).value].metadata.isbn;
               isbn in t.books && t.books[isbn].bookId == r.saved.value.bookId)
  {
  }

  /**
   * Once a query is issued, the answer follows the code's branches: no match
   * is "no book found"; a match whose lookup raises, or whose save raises,
   * raises; a match without a non-zero book id is "no book ID"; otherwise that
   * id is recommended and the row (member, id, today + 1) is saved.
   */
  lemma RecommendOutcomes(t: Tables, c: map<string, Entry>, member: MemberId, today: int,
                          nearest: string -> Option<string>, fault: Option<Fault>)
    requires NearestInCollection(c, nearest)
    ensures var r := Recommend(t, c, member, today, nearest, fault);
      r.query.Some? ==>
        if nearest(r.query.value.text).None? then r.outcome == NoBookFound && r.saved.None?
        else
          var isbn := c[nearest(r.query.value.text).value].metadata.isbn;
          if fault == Some(LookupFail) then r.outcome == Raised && r.saved.None?
          else if isbn !in t.books || t.books[isbn].bookId == 0 then r.outcome == NoBookId && r.saved.None?
          else if fault == Some(SaveFail) then r.outcome == Raised && r.saved.None?
          else
            && r.outcome == Recommended(t.books[isbn].bookId)
            && r.saved == Some(RecommendationRow(member, t.books[isbn].bookId, today + 1))
  {
  }

  /** Only a failing lookup or a failing save makes the call raise; without a fault it returns. */
  lemma RaisedOnlyOnFault(t: Tables, c: map<string, Entry>, member: MemberId, today: int,
                          nearest: string -> Option<string>, fault: Option<Fault>)
    requires NearestInCollection(c, nearest)
    ensures Recommend(t, c, member, today, nearest, fault).outcome == Raised ==>
      fault == Some(LookupFail) || fault == Some(SaveFail)
  {
  }

  /** The answer depends on the selections, sub-categories and books only, not on earlier recommendations. */
  lemma RecommendIgnoresHistory(t: Tables, rows: seq<RecommendationRow>, c: map<string, Entry>, member: MemberId,
                                today: int, nearest: string -> Option<string>, fault: Option<Fault>)
    requires NearestInCollection(c, nearest)
    ensures Recommend(t.(recommendations := rows), c, member, today, nearest, fault)
         == Recommend(t, c, member, today, nearest, fault)
  {
  }

  // ---------------------------------------------------------------------------
  // The manager object

  class ChromaManager {
    /** The persistent collection, keyed by isbn. */
    var collection: map<string, Entry>
    /** The nearest-neighbour queries issued so far, in order. */
    var queries: seq<Query>

    /** Open the persisted collection. */
    constructor (persisted: map<string, Entry>)
      ensures collection == persisted && queries == []
    {
      collection := persisted;
      queries := [];
    }

    /** `add_book`: store a new book once; an isbn already present is reported and left alone. */
    method AddBook(book: Book, mainCategory: string, subCategory: Option<seq<string>>, hashtags: Option<seq<string>>)
      returns (outcome: AddOutcome)
      modifies this
      ensures outcome == AlreadyExists <==> book.isbn in old(collection)
      ensures collection == WithBook(old(collection), book, mainCategory, subCategory, hashtags)
      ensures KeysMatch(old(collection)) ==> KeysMatch(collection)
      ensures queries == old(queries)
    {
      if book.isbn in collection {
        return AlreadyExists;
      }
      var subText := Join(OrEmpty(subCategory), ", ");
      var tagText := Join(OrEmpty(hashtags), ", ");
      var embedded := EmbedText(book, mainCategory, subText, tagText);
      var metadata := Metadata(book.title, book.author, book.isbn, tagText, mainCategory, subText);
      collection := collection[book.isbn := Entry(book.description, metadata, embedded)];
      outcome := Added;
    }

    /** `delete_book`: remove a present isbn; an absent one is reported and nothing changes. */
    method DeleteBook(isbn: string) returns (outcome: DeleteOutcome)
      modifies this
      ensures outcome == NotFound <==> isbn !in old(collection)
      ensures collection == WithoutBook(old(collection), isbn)
      ensures KeysMatch(old(collection)) ==> KeysMatch(collection)
      ensures queries == old(queries)
    {
      if isbn !in collection {
        assert collection - {isbn} == collection;
        return NotFound;
      }
      collection := collection - {isbn};
      outcome := Deleted;
    }

    /** `get_book`: the stored entry as a dictionary, or the 404 error. */
    method GetBook(isbn: string) returns (r: Result<BookView, HttpError>)
      ensures r.Err? <==> isbn !in collection
      ensures r == Retrieve(collection, isbn)
    {
      if isbn !in collection {
        return Err(HttpError(404, NotFoundDetail));
      }
      var e := collection[isbn];
      r := Ok(BookView(e.metadata.title, e.metadata.author, e.metadata.isbn, e.document,
                       e.metadata.hashtags, e.metadata.mainCategory, e.metadata.subCategory));
    }

    /**
     * `recommend_book`: read the member's preferences, ask for the single
     * nearest entry, resolve its isbn to a book id and save one recommendation
     * dated tomorrow. The collection is not changed, and every connection the
     * database calls open is closed again. `fault` names the database call
     * that fails, if any.
     */
    method RecommendBook(db: Database, member: MemberId, today: int, nearest: string -> Option<string>,
                         fault: Option<Fault>)
      returns (outcome: RecommendOutcome)
      requires NearestInCollection(collection, nearest)
      modifies this, db
      ensures collection == old(collection)
      ensures db.openConnections == old(db.openConnections)
      ensures var r := Recommend(old(db.tables), collection, member, today, nearest, fault);
        && outcome == r.outcome
        && queries == old(queries) + AsSeq(r.query)
        && db.tables == old(db.tables).(recommendations := old(db.tables).recommendations + AsSeq(r.saved))
    {
      var preferences := db.GetMemberPreferences(member, fault == Some(PreferencesFail));
      if preferences.None? || preferences.value == [] {
        return NoPreferences;
      }
      var query := Query(Join(preferences.value, " "), 1);
      queries := queries + [query];
      var found := nearest(query.text);
      if found.None? {
        return NoBookFound;
      }
      var isbn := collection[found.value].metadata.isbn;
      var bookId, raised := db.GetBookIdByIsbn(isbn, fault == Some(LookupFail));
      if raised {
        return Raised;
      }
      if bookId.None? || bookId.value == 0 {
        return NoBookId;
      }
      raised := db.SaveRecommendation(member, bookId.value, today + 1, fault == Some(SaveFail));
      if raised {
        return Raised;
      }
      outcome := Recommended(bookId.value);
    }
  }

  /** Adding a book and reading it back through the manager gives the round trip. */
  method AddThenGetBook(m: ChromaManager, book: Book, mainCategory: string,
                        subCategory: Option<seq<string>>, hashtags: Option<seq<string>>)
    returns (added: AddOutcome, view: Result<BookView, HttpError>)
    modifies m
    ensures added == Added ==> view == Ok(BookView(book.title, book.author, book.isbn, book.description,
                                                    Join(OrEmpty(hashtags), ", "), mainCategory,
                                                    Join(OrEmpty(subCategory), ", ")))
    ensures added == AlreadyExists ==> view == Retrieve(old(m.collection), book.isbn) && view.Ok?
  {
    added := m.AddBook(book, mainCategory, subCategory, hashtags);
    view := m.GetBook(book.isbn);
  }
}
