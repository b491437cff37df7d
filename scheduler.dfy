/**
 * The two batch jobs. The recommendation sweep runs `recommend_book` for every
 * member id in turn, until one call raises. The best-sellers task walks the
 * feed and, for every book whose isbn is unknown, calls the crawler, the
 * classifier and both stores; it collects one rank row per entry and saves the
 * batch once, at the end, unless a call raised first. In the best-sellers task the
 * crawler, the classifier and the stores are abstract calls: the task issues a
 * trace of calls, and the environment supplies their answers per feed entry.
 */
module Scheduler {
  import opened Wrappers
  import opened BookInfo
  import opened Crawling
  import opened DatabaseConn
  import opened ChromaStore

  // ---------------------------------------------------------------------------
  // The recommendation sweep

  /**
   * The queries the sweep issues over `members`, in order, when each runs to
   * the end; the member at position `k` meets the database fault `faults(k)`.
   */
  function SweepQueries(t: Tables, c: map<string, Entry>, members: seq<MemberId>, today: int,
                        nearest: string -> Option<string>, faults: nat -> Option<Fault>): (queries: seq<Query>)
    requires NearestInCollection(c, nearest)
    ensures |queries| <= |members|
    decreases |members|
  {
    if members == [] then []
    else
      var n := |members| - 1;
      SweepQueries(t, c, members[..n], today, nearest, faults) + AsSeq(Recommend(t, c, members[n], today, nearest, faults(n)).query)
  }

  /** The recommendation rows the sweep saves over `members`, in order. */
  function SweepRows(t: Tables, c: map<string, Entry>, members: seq<MemberId>, today: int,
                     nearest: string -> Option<string>, faults: nat -> Option<Fault>): (rows: seq<RecommendationRow>)
    requires NearestInCollection(c, nearest)
    ensures |rows| <= |members|
    decreases |members|
  {
    if members == [] then []
    else
      var n := |members| - 1;
      SweepRows(t, c, members[..n], today, nearest, faults) + AsSeq(Recommend(t, c, members[n], today, nearest, faults(n)).saved)
  }

  /** The answers the sweep gives over `members`, in order, when each runs to the end. */
  function SweepOutcomes(t: Tables, c: map<string, Entry>, members: seq<MemberId>, today: int,
                         nearest: string -> Option<string>, faults: nat -> Option<Fault>): (outcomes: seq<RecommendOutcome>)
    requires NearestInCollection(c, nearest)
    ensures |outcomes| == |members|
    decreases |members|
  {
    if members == [] then []
    else
      var n := |members| - 1;
      SweepOutcomes(t, c, members[..n], today, nearest, faults) + [Recommend(t, c, members[n], today, nearest, faults(n)).outcome]
  }

  /** Each answer of the sweep is the one its member gets alone, with its own fault. */
  lemma {:induction false} SweepOutcomesAt(t: Tables, c: map<string, Entry>, members: seq<MemberId>, today: int,
                                           nearest: string -> Option<string>, faults: nat -> Option<Fault>)
    requires NearestInCollection(c, nearest)
    ensures forall k :: 0 <= k < |members| ==>
              SweepOutcomes(t, c, members, today, nearest, faults)[k] == Recommend(t, c, members[k], today, nearest, faults(k)).outcome
    decreases |members|
  {
    if members != [] {
      var n := |members| - 1;
      var init := members[..n];
      SweepOutcomesAt(t, c, init, today, nearest, faults);
      var all := SweepOutcomes(t, c, members, today, nearest, faults);
      var before := SweepOutcomes(t, c, init, today, nearest, faults);
      assert all == before + [Recommend(t, c, members[n], today, nearest, faults(n)).outcome];
      forall k | 0 <= k < |members|
        ensures all[k] == Recommend(t, c, members[k], today, nearest, faults(k)).outcome
      {
        if k < n {
          assert all[k] == before[k];
          assert init[k] == members[k];
        }
      }
    }
  }

  /** Sweeping one more member adds that member's answer, query and row. */
  lemma SweepStep(t: Tables, c: map<string, Entry>, members: seq<MemberId>, i: nat, today: int,
                  nearest: string -> Option<string>, faults: nat -> Option<Fault>)
    requires NearestInCollection(c, nearest)
    requires i < |members|
    ensures var r := Recommend(t, c, members[i], today, nearest, faults(i));
      && SweepQueries(t, c, members[..i + 1], today, nearest, faults) == SweepQueries(t, c, members[..i], today, nearest, faults) + AsSeq(r.query)
      && SweepRows(t, c, members[..i + 1], today, nearest, faults) == SweepRows(t, c, members[..i], today, nearest, faults) + AsSeq(r.saved)
      && SweepOutcomes(t, c, members[..i + 1], today, nearest, faults) == SweepOutcomes(t, c, members[..i], today, nearest, faults) + [r.outcome]
      && t.recommendations + SweepRows(t, c, members[..i + 1], today, nearest, faults)
           == t.recommendations + SweepRows(t, c, members[..i], today, nearest, faults) + AsSeq(r.saved)
  {
    assert members[..i + 1][..i] == members[..i];
    var r := Recommend(t, c, members[i], today, nearest, faults(i));
    var before := SweepRows(t, c, members[..i], today, nearest, faults);
    assert t.recommendations + (before + AsSeq(r.saved)) == t.recommendations + before + AsSeq(r.saved);
  }

  /**
   * `run_recommendations_for_all_members`: one `recommend_book` per member id,
   * in the order given, until one of them raises; nothing catches it, so the
   * members after that one are not processed. Each processed member's answer
   * is the one it would get alone against the tables at the start, and the
   * saved rows and issued queries are those of the processed members, in
   * order. `SweepStopsOnlyOnFault` shows that without a failing lookup or
   * save every member is processed.
   */
  method RunRecommendationsForAllMembers(chroma: ChromaManager, db: Database, memberIds: seq<MemberId>,
                                         today: int, nearest: string -> Option<string>,
                                         faults: nat -> Option<Fault>)
    returns (outcomes: seq<RecommendOutcome>)
    requires NearestInCollection(chroma.collection, nearest)
    modifies chroma, db
    ensures chroma.collection == old(chroma.collection)
    ensures db.openConnections == old(db.openConnections)
    ensures |outcomes| <= |memberIds|
    ensures forall k :: 0 <= k < |outcomes| ==>
              outcomes[k] == Recommend(old(db.tables), chroma.collection, memberIds[k], today, nearest, faults(k)).outcome
    ensures forall k :: 0 <= k < |outcomes| - 1 ==> outcomes[k] != Raised
    ensures |outcomes| < |memberIds| ==> |outcomes| > 0 && outcomes[|outcomes| - 1] == Raised
    ensures chroma.queries == old(chroma.queries)
              + SweepQueries(old(db.tables), chroma.collection, memberIds[..|outcomes|], today, nearest, faults)
    ensures db.tables == old(db.tables).(recommendations := old(db.tables).recommendations
              + SweepRows(old(db.tables), chroma.collection, memberIds[..|outcomes|], today, nearest, faults))
  {
    ghost var start := db.tables;
    ghost var c := chroma.collection;
    ghost var q0 := chroma.queries;
    outcomes := [];
    var i := 0;
    while i < |memberIds|
      invariant 0 <= i <= |memberIds|
      invariant chroma.collection == c
      invariant db.openConnections == old(db.openConnections)
      invariant |outcomes| == i
      invariant Raised !in outcomes
      invariant Swept(chroma.collection, chroma.queries, db.tables, start, q0, memberIds, outcomes, today, nearest, faults)
    {
      var outcome := SweepOne(chroma, db, start, q0, memberIds, outcomes, today, nearest, faults);
      outcomes := outcomes + [outcome];
      if outcome == Raised {
        break;
      }
      i := i + 1;
    }
    SweptFinal(c, chroma.queries, db.tables, start, q0, memberIds, outcomes, today, nearest, faults);
  }

  /**
   * A sweep whose answers are those of the members in order, and which stops
   * early only on a raised call (as `RunRecommendationsForAllMembers` ensures),
   * processes every member when no member meets a failing lookup or save.
   */
  lemma SweepStopsOnlyOnFault(start: Tables, c: map<string, Entry>, memberIds: seq<MemberId>, today: int,
                              nearest: string -> Option<string>, faults: nat -> Option<Fault>,
                              outcomes: seq<RecommendOutcome>)
    requires NearestInCollection(c, nearest)
    requires |outcomes| <= |memberIds|
    requires forall k :: 0 <= k < |outcomes| ==> outcomes[k] == Recommend(start, c, memberIds[k], today, nearest, faults(k)).outcome
    requires |outcomes| < |memberIds| ==> |outcomes| > 0 && outcomes[|outcomes| - 1] == Raised
    ensures (forall k :: 0 <= k < |memberIds| ==> faults(k) != Some(LookupFail) && faults(k) != Some(SaveFail))
              ==> |outcomes| == |memberIds|
  {
    if |outcomes| < |memberIds| {
      var last := |outcomes| - 1;
      RaisedOnlyOnFault(start, c, memberIds[last], today, nearest, faults(last));
    }
  }

  /** What the sweep has produced so far: the answers, the issued queries and the tables. */
  datatype SweepView = SweepView(outcomes: seq<RecommendOutcome>, queries: seq<Query>, tables: Tables)

  /** The view after one more member, answered with `r`. */
  function Extend(v: SweepView, r: Recommendation): (w: SweepView)
    ensures |w.outcomes| == |v.outcomes| + 1 && w.outcomes[|v.outcomes|] == r.outcome
    ensures w.tables.(recommendations := v.tables.recommendations) == v.tables
  {
    SweepView(v.outcomes + [r.outcome], v.queries + AsSeq(r.query),
              v.tables.(recommendations := v.tables.recommendations + AsSeq(r.saved)))
  }

  /**
   * The view after sweeping `members` from the tables `start` and the queries
   * `q0`, when each member runs to the end.
   */
  function SweepAfter(start: Tables, c: map<string, Entry>, q0: seq<Query>, members: seq<MemberId>, today: int,
                      nearest: string -> Option<string>, faults: nat -> Option<Fault>): (v: SweepView)
    requires NearestInCollection(c, nearest)
    ensures |v.outcomes| == |members|
  {
    SweepView(SweepOutcomes(start, c, members, today, nearest, faults),
              q0 + SweepQueries(start, c, members, today, nearest, faults),
              start.(recommendations := start.recommendations + SweepRows(start, c, members, today, nearest, faults)))
  }

  /** Sweeping member `i` after the first `i` extends the view by that member's answer against `start`. */
  lemma SweepAfterStep(start: Tables, c: map<string, Entry>, q0: seq<Query>, memberIds: seq<MemberId>, i: nat, today: int,
                       nearest: string -> Option<string>, faults: nat -> Option<Fault>)
    requires NearestInCollection(c, nearest)
    requires i < |memberIds|
    ensures SweepAfter(start, c, q0, memberIds[..i + 1], today, nearest, faults)
         == Extend(SweepAfter(start, c, q0, memberIds[..i], today, nearest, faults),
                   Recommend(start, c, memberIds[i], today, nearest, faults(i)))
  {
    SweepStep(start, c, memberIds, i, today, nearest, faults);
    var r := Recommend(start, c, memberIds[i], today, nearest, faults(i));
    var qs := SweepQueries(start, c, memberIds[..i], today, nearest, faults);
    assert q0 + (qs + AsSeq(r.query)) == q0 + qs + AsSeq(r.query);
  }

  /**
   * The state after the members answered in `answered`: each answer is the
   * one the member gets alone against `start`, and the queries and tables are
   * those of the answered members, after `q0` and the rows of `start`.
   */
  ghost predicate Swept(c: map<string, Entry>, queries: seq<Query>, tables: Tables, start: Tables, q0: seq<Query>,
                        memberIds: seq<MemberId>, answered: seq<RecommendOutcome>, today: int,
                        nearest: string -> Option<string>, faults: nat -> Option<Fault>)
  {
    && NearestInCollection(c, nearest)
    && |answered| <= |memberIds|
    && SweepView(answered, queries, tables) == SweepAfter(start, c, q0, memberIds[..|answered|], today, nearest, faults)
  }

  /** What `Swept` says, member by member and field by field. */
  lemma SweptFinal(c: map<string, Entry>, queries: seq<Query>, tables: Tables, start: Tables, q0: seq<Query>,
                   memberIds: seq<MemberId>, answered: seq<RecommendOutcome>, today: int,
                   nearest: string -> Option<string>, faults: nat -> Option<Fault>)
    requires Swept(c, queries, tables, start, q0, memberIds, answered, today, nearest, faults)
    ensures forall k :: 0 <= k < |answered| ==>
              answered[k] == Recommend(start, c, memberIds[k], today, nearest, faults(k)).outcome
    ensures queries == q0 + SweepQueries(start, c, memberIds[..|answered|], today, nearest, faults)
    ensures tables == start.(recommendations := start.recommendations
                               + SweepRows(start, c, memberIds[..|answered|], today, nearest, faults))
  {
    var prefix := memberIds[..|answered|];
    SweepOutcomesAt(start, c, prefix, today, nearest, faults);
    forall k | 0 <= k < |answered|
      ensures answered[k] == Recommend(start, c, memberIds[k], today, nearest, faults(k)).outcome
    {
      assert prefix[k] == memberIds[k];
    }
  }

  /**
   * One step of the sweep: the member after those already answered in
   * `answered` is recommended for.
   */
  method SweepOne(chroma: ChromaManager, db: Database, ghost start: Tables, ghost q0: seq<Query>,
                  memberIds: seq<MemberId>, answered: seq<RecommendOutcome>, today: int,
                  nearest: string -> Option<string>, faults: nat -> Option<Fault>)
    returns (outcome: RecommendOutcome)
    requires |answered| < |memberIds|
    requires Swept(chroma.collection, chroma.queries, db.tables, start, q0, memberIds, answered, today, nearest, faults)
    modifies chroma, db
    ensures chroma.collection == old(chroma.collection)
    ensures db.openConnections == old(db.openConnections)
    ensures Swept(chroma.collection, chroma.queries, db.tables, start, q0, memberIds, answered + [outcome], today, nearest, faults)
  {
    var i := |answered|;
    outcome := chroma.RecommendBook(db, memberIds[i], today, nearest, faults(i));
    RecommendIgnoresHistory(start, old(db.tables).recommendations, chroma.collection, memberIds[i], today, nearest, faults(i));
    SweptStep(chroma.collection, old(chroma.queries), old(db.tables), start, q0, memberIds, answered, today, nearest, faults,
              Recommend(start, chroma.collection, memberIds[i], today, nearest, faults(i)));
  }

  /**
   * Answering the next member with `r`, what that member gets alone against
   * the tables at the start, keeps `Swept`.
   */
  lemma SweptStep(c: map<string, Entry>, queries: seq<Query>, tables: Tables, start: Tables, q0: seq<Query>,
                  memberIds: seq<MemberId>, answered: seq<RecommendOutcome>, today: int,
                  nearest: string -> Option<string>, faults: nat -> Option<Fault>, r: Recommendation)
    requires |answered| < |memberIds|
    requires Swept(c, queries, tables, start, q0, memberIds, answered, today, nearest, faults)
    requires r == Recommend(start, c, memberIds[|answered|], today, nearest, faults(|answered|))
    ensures Swept(c, queries + AsSeq(r.query), tables.(recommendations := tables.recommendations + AsSeq(r.saved)),
                  start, q0, memberIds, answered + [r.outcome], today, nearest, faults)
  {
    assert |answered + [r.outcome]| == |answered| + 1;
    SweepAfterStep(start, c, q0, memberIds, |answered|, today, nearest, faults);
  }

  /**
   * Sweeping two lists of members one after the other saves the rows of each,
   * in that order, the second list meeting the faults from its own position on.
   */
  lemma {:induction false} SweepRowsAppend(t: Tables, c: map<string, Entry>, first: seq<MemberId>, second: seq<MemberId>,
                                           today: int, nearest: string -> Option<string>,
                                           faults: nat -> Option<Fault>, shifted: nat -> Option<Fault>)
    requires NearestInCollection(c, nearest)
    requires forall k: nat :: shifted(k) == faults(|first| + k)
    ensures SweepRows(t, c, first + second, today, nearest, faults)
         == SweepRows(t, c, first, today, nearest, faults) + SweepRows(t, c, second, today, nearest, shifted)
    decreases |second|
  {
    if second == [] {
      assert first + second == first;
    } else {
      var n := |second| - 1;
      var init := second[..n];
      var last := AsSeq(Recommend(t, c, second[n], today, nearest, shifted(n)).saved);
      SweepRowsAppend(t, c, first, init, today, nearest, faults, shifted);
      DropLastOfAppend(first, second);
      assert shifted(n) == faults(|first + second| - 1);
      assert SweepRows(t, c, first + second, today, nearest, faults) == SweepRows(t, c, first + init, today, nearest, faults) + last;
      assert SweepRows(t, c, second, today, nearest, shifted) == SweepRows(t, c, init, today, nearest, shifted) + last;
    }
  }

  /** Dropping the last element of `a + b`, for a non-empty `b`, drops it from `b`. */
  lemma DropLastOfAppend<T>(a: seq<T>, b: seq<T>)
    requires b != []
    ensures (a + b)[..|a + b| - 1] == a + b[..|b| - 1]
    ensures (a + b)[|a + b| - 1] == b[|b| - 1]
  {
  }

  /** There are never more saved rows than issued queries, nor more queries than swept members. */
  lemma {:induction false} SweepCountsBounded(t: Tables, c: map<string, Entry>, members: seq<MemberId>, today: int,
                                              nearest: string -> Option<string>, faults: nat -> Option<Fault>)
    requires NearestInCollection(c, nearest)
    ensures |SweepRows(t, c, members, today, nearest, faults)| <= |SweepQueries(t, c, members, today, nearest, faults)| <= |members|
    decreases |members|
  {
    if members != [] {
      var n := |members| - 1;
      SweepCountsBounded(t, c, members[..n], today, nearest, faults);
      SavedOnlyWhenResolved(t, c, members[n], today, nearest, faults(n));
    }
  }

  /** Every row of `rows` belongs to one of `members`, is dated tomorrow and carries a non-zero book id. */
  predicate RowsForMembers(rows: seq<RecommendationRow>, members: seq<MemberId>, today: int) {
    forall k :: 0 <= k < |rows| ==> rows[k].memberId in members && rows[k].date == today + 1 && rows[k].bookId != 0
  }

  /** Every saved row belongs to a swept member, is dated tomorrow and carries a non-zero book id. */
  lemma {:induction false} SweepRowsBounded(t: Tables, c: map<string, Entry>, members: seq<MemberId>, today: int,
                                            nearest: string -> Option<string>, faults: nat -> Option<Fault>)
    requires NearestInCollection(c, nearest)
    ensures RowsForMembers(SweepRows(t, c, members, today, nearest, faults), members, today)
    decreases |members|
  {
    if members != [] {
      var n := |members| - 1;
      var init := members[..n];
      SweepRowsBounded(t, c, init, today, nearest, faults);
      var r := Recommend(t, c, members[n], today, nearest, faults(n));
      SavedOnlyWhenResolved(t, c, members[n], today, nearest, faults(n));
      var before := SweepRows(t, c, init, today, nearest, faults);
      var rows := before + AsSeq(r.saved);
      assert SweepRows(t, c, members, today, nearest, faults) == rows;
      forall k | 0 <= k < |rows|
        ensures rows[k].memberId in members && rows[k].date == today + 1 && rows[k].bookId != 0
      {
        if k < |before| {
          assert rows[k] == before[k];
          assert before[k].memberId in init;
        } else {
          assert rows[k] == r.saved.value;
        }
      }
    }
  }

  // ---------------------------------------------------------------------------
  // The best-sellers task

  /** One entry of the best-seller feed: the book and its rank. */
  datatype FeedEntry = FeedEntry(book: Book, bestRank: int)

  /** One element of the batch handed to `insert_best_sellers`. */
  datatype RankRow = RankRow(isbn: string, bestRank: int)

  /**
   * The calls the task issues. The crawler's answer is passed on as the pair
   * it is, and the classifier's two names are passed on as single strings.
   */
  datatype Call =
    | LookupBookId(isbn: string)
    | GetHashtags(isbn: string)
    | ClassifyCategory(title: string, author: string, isbn: string, description: string, hashtags: CrawlResult)
    | InsertBookInfo(book: Book, categoryNames: string, hashtags: CrawlResult)
    | AddToCollection(book: Book, mainCategory: string, subCategory: string, hashtags: CrawlResult)
    | InsertBestSellers(batch: seq<RankRow>)

  /**
   * The answers of the abstract calls for the entry at each feed position:
   * whether the book id lookup raises and what it returns otherwise, whether
   * the crawler raises before its own handler and what it returns otherwise,
   * the classifier's list of names (`None` when the call raises), and whether
   * the relational insert or the collection add raises.
   */
  datatype Env = Env(
    lookupRaises: nat -> bool,
    bookIdOf: nat -> Option<int>,
    crawlRaises: nat -> bool,
    hashtagsOf: nat -> CrawlResult,
    categoriesOf: nat -> Option<seq<string>>,
    insertRaises: nat -> bool,
    addRaises: nat -> bool)

  /** The calls one feed entry issues, and whether one of them raised. */
  datatype EntryRun = EntryRun(calls: seq<Call>, raised: bool)

  /**
   * The calls issued for the feed entry at position `i`, in order, and whether
   * the entry raised: the lookup, then, for an unknown isbn, the
   * crawler, the classifier, the relational insert and the collection add.
   */
  function EntryCalls(e: FeedEntry, i: nat, env: Env): (r: EntryRun)
    ensures 1 <= |r.calls| <= 5 && r.calls[0] == LookupBookId(e.book.isbn)
    ensures |r.calls| > 1 <==> !env.lookupRaises(i) && env.bookIdOf(i).None?
    ensures env.lookupRaises(i) ==> r.raised
    ensures |r.calls| == 5 ==> r.calls[3].InsertBookInfo? && r.calls[4].AddToCollection?
    ensures |r.calls| > 1 && !r.raised ==> |r.calls| == 5
  {
    var isbn := e.book.isbn;
    if env.lookupRaises(i) then EntryRun([LookupBookId(isbn)], true)
    else if env.bookIdOf(i).Some? then EntryRun([LookupBookId(isbn)], false)
    else if env.crawlRaises(i) then EntryRun([LookupBookId(isbn), GetHashtags(isbn)], true)
    else
      var tags := env.hashtagsOf(i);
      var asked := [LookupBookId(isbn), GetHashtags(isbn),
                    ClassifyCategory(e.book.title, e.book.author, isbn, e.book.description, tags)];
      match env.categoriesOf(i)
      case None => EntryRun(asked, true)
      case Some(names) =>
        if |names| != 2 then EntryRun(asked, true)
        else
          var inserted := asked + [InsertBookInfo(e.book, names[1], tags)];
          if env.insertRaises(i) then EntryRun(inserted, true)
          else EntryRun(inserted + [AddToCollection(e.book, names[0], names[1], tags)], env.addRaises(i))
  }

  /** The state of the task after the first `n` entries: calls so far, the batch, and whether it has stopped. */
  datatype Progress = Progress(trace: seq<Call>, batch: seq<RankRow>, aborted: bool)

  function RankOf(e: FeedEntry): RankRow {
    RankRow(e.book.isbn, e.bestRank)
  }

  /** The task after the first `n` entries; once an entry has raised, nothing more happens. */
  function Steps(feed: seq<FeedEntry>, env: Env, n: nat): (p: Progress)
    requires n <= |feed|
    ensures |p.batch| <= n
    ensures !p.aborted ==> |p.batch| == n
    decreases n
  {
    if n == 0 then Progress([], [], false)
    else
      var p := Steps(feed, env, n - 1);
      if p.aborted then p
      else
        var r := EntryCalls(feed[n - 1], n - 1, env);
        if r.raised then Progress(p.trace + r.calls, p.batch, true)
        else Progress(p.trace + r.calls, p.batch + [RankOf(feed[n - 1])], false)
  }

  /** The calls of the whole task: the batch is saved only when no entry raised. */
  function TaskTrace(feed: seq<FeedEntry>, env: Env): (trace: seq<Call>)
    ensures (|trace| > 0 && trace[|trace| - 1].InsertBestSellers?) <==> !Steps(feed, env, |feed|).aborted
  {
    var p := Steps(feed, env, |feed|);
    StepsSaveNothing(feed, env, |feed|);
    if p.aborted then p.trace else p.trace + [InsertBestSellers(p.batch)]
  }

  /** Once an entry has raised, later entries are not processed. */
  lemma {:induction false} AbortedStays(feed: seq<FeedEntry>, env: Env, n: nat, m: nat)
    requires n <= m <= |feed|
    requires Steps(feed, env, n).aborted
    ensures Steps(feed, env, m) == Steps(feed, env, n)
    decreases m
  {
    if m > n {
      AbortedStays(feed, env, n, m - 1);
    }
  }

  /**
   * The body of the feed loop for the entry at position `i`: look the isbn up
   * and, when it is unknown, crawl, classify, unpack the two category names,
   * insert into the relational store and add to the collection. `raised`
   * tells whether a call raised, which ends the task.
   */
  method SyncEntry(entry: FeedEntry, i: nat, env: Env) returns (calls: seq<Call>, raised: bool)
    ensures EntryRun(calls, raised) == EntryCalls(entry, i, env)
  {
    var isbn := entry.book.isbn;
    calls := [LookupBookId(isbn)];
    if env.lookupRaises(i) {
      return calls, true;
    }
    var bookId := env.bookIdOf(i);
    if bookId.Some? {
      return calls, false;
    }
    calls := calls + [GetHashtags(isbn)];
    if env.crawlRaises(i) {
      return calls, true;
    }
    var hashtags := env.hashtagsOf(i);
    calls := calls + [ClassifyCategory(entry.book.title, entry.book.author, isbn, entry.book.description, hashtags)];
    var classified := env.categoriesOf(i);
    if classified.None? {
      return calls, true;
    }
    var names := classified.value;
    if |names| != 2 {
      return calls, true;
    }
    var mainCategory, subCategory := names[0], names[1];
    calls := calls + [InsertBookInfo(entry.book, subCategory, hashtags)];
    if env.insertRaises(i) {
      return calls, true;
    }
    calls := calls + [AddToCollection(entry.book, mainCategory, subCategory, hashtags)];
    raised := env.addRaises(i);
  }

  /** `best_sellers_update_task`, issuing the calls in the order the loop makes them. */
  method BestSellersUpdateTask(feed: seq<FeedEntry>, env: Env) returns (trace: seq<Call>, completed: bool)
    ensures trace == TaskTrace(feed, env)
    ensures completed <==> !Steps(feed, env, |feed|).aborted
  {
    var batch: seq<RankRow> := [];
    trace := [];
    var i := 0;
    while i < |feed|
      invariant 0 <= i <= |feed|
      invariant Steps(feed, env, i) == Progress(trace, batch, false)
    {
      var entry := feed[i];
      var calls, raised := SyncEntry(entry, i, env);
      trace := trace + calls;
      if raised {
        AbortedStays(feed, env, i + 1, |feed|);
        return trace, false;
      }
      batch := batch + [RankRow(entry.book.isbn, entry.bestRank)];
      i := i + 1;
    }
    trace := trace + [InsertBestSellers(batch)];
    completed := true;
  }


  // ---------------------------------------------------------------------------
  // Properties of the best-sellers task

  /** The rank rows of a list of feed entries, in feed order. */
  function Ranks(feed: seq<FeedEntry>): (rows: seq<RankRow>)
    ensures |rows| == |feed|
    ensures forall i :: 0 <= i < |feed| ==> rows[i].isbn == feed[i].book.isbn && rows[i].bestRank == feed[i].bestRank
  {
    seq(|feed|, i requires 0 <= i < |feed| => RankOf(feed[i]))
  }

  /** The task runs to its end exactly when no entry raised. */
  lemma {:induction false} CompletesIffNothingRaised(feed: seq<FeedEntry>, env: Env, n: nat)
    requires n <= |feed|
    ensures !Steps(feed, env, n).aborted <==> forall i :: 0 <= i < n ==> !EntryCalls(feed[i], i, env).raised
    decreases n
  {
    if n > 0 {
      CompletesIffNothingRaised(feed, env, n - 1);
    }
  }

  /**
   * Until the task stops, the batch holds one rank row per processed entry,
   * in feed order, whether its book was new or already known.
   */
  lemma {:induction false} BatchIsFeedRanks(feed: seq<FeedEntry>, env: Env, n: nat)
    requires n <= |feed|
    requires !Steps(feed, env, n).aborted
    ensures Steps(feed, env, n).batch == Ranks(feed[..n])
    decreases n
  {
    if n > 0 {
      BatchIsFeedRanks(feed, env, n - 1);
      assert feed[..n] == feed[..n - 1] + [feed[n - 1]];
      RanksSnoc(feed[..n - 1], feed[n - 1]);
    }
  }

  /** One more entry adds its rank row at the end. */
  lemma RanksSnoc(feed: seq<FeedEntry>, e: FeedEntry)
    ensures Ranks(feed + [e]) == Ranks(feed) + [RankOf(e)]
  {
  }

  /** No entry saves the batch. */
  lemma EntrySavesNothing(e: FeedEntry, i: nat, env: Env)
    ensures var calls := EntryCalls(e, i, env).calls;
      forall k :: 0 <= k < |calls| ==> !calls[k].InsertBestSellers?
  {
  }

  /** Processing one more entry appends that entry's calls, unless the task has stopped. */
  lemma StepsStep(feed: seq<FeedEntry>, env: Env, n: nat)
    requires 0 < n <= |feed|
    ensures var p := Steps(feed, env, n - 1);
      Steps(feed, env, n).trace == if p.aborted then p.trace else p.trace + EntryCalls(feed[n - 1], n - 1, env).calls
  {
  }

  /** Only the end of the task saves the batch. */
  lemma {:induction false} StepsSaveNothing(feed: seq<FeedEntry>, env: Env, n: nat)
    requires n <= |feed|
    ensures forall k :: 0 <= k < |Steps(feed, env, n).trace| ==> !Steps(feed, env, n).trace[k].InsertBestSellers?
    decreases n
  {
    if n > 0 {
      StepsSaveNothing(feed, env, n - 1);
      StepsStep(feed, env, n);
      EntrySavesNothing(feed[n - 1], n - 1, env);
    }
  }

  /**
   * `insert_best_sellers` is called at most once, as the last call, and only
   * when every entry was processed; then it gets the rank of every feed entry,
   * in feed order.
   */
  lemma BestSellersSavedOnce(feed: seq<FeedEntry>, env: Env)
    ensures var trace := TaskTrace(feed, env);
      && (forall k :: 0 <= k < |trace| && trace[k].InsertBestSellers? ==> k == |trace| - 1)
      && ((forall i :: 0 <= i < |feed| ==> !EntryCalls(feed[i], i, env).raised)
            <==> (|trace| > 0 && trace[|trace| - 1] == InsertBestSellers(Ranks(feed))))
  {
    var p := Steps(feed, env, |feed|);
    StepsSaveNothing(feed, env, |feed|);
    CompletesIffNothingRaised(feed, env, |feed|);
    if !p.aborted {
      BatchIsFeedRanks(feed, env, |feed|);
      assert feed[..|feed|] == feed;
    }
  }

  /** The isbn a synchronising call is about; `None` for the lookup and the batch save. */
  function SyncIsbn(call: Call): Option<string> {
    match call
    case LookupBookId(_) => None
    case GetHashtags(isbn) => Some(isbn)
    case ClassifyCategory(_, _, isbn, _, _) => Some(isbn)
    case InsertBookInfo(book, _, _) => Some(book.isbn)
    case AddToCollection(book, _, _, _) => Some(book.isbn)
    case InsertBestSellers(_) => None
  }

  /**
   * An entry whose lookup raised or found a book id issues only the lookup;
   * it stops the task exactly when the lookup raised.
   */
  lemma KnownEntryOnlyLooksUp(e: FeedEntry, i: nat, env: Env)
    requires env.lookupRaises(i) || env.bookIdOf(i).Some?
    ensures EntryCalls(e, i, env) == EntryRun([LookupBookId(e.book.isbn)], env.lookupRaises(i))
  {
  }

  /**
   * Within one entry, every synchronising call is about that entry's isbn, and
   * only when its lookup returned without finding a book id.
   */
  lemma EntrySyncsOnlyUnseen(e: FeedEntry, i: nat, env: Env)
    ensures var calls := EntryCalls(e, i, env).calls;
      forall k :: 0 <= k < |calls| && SyncIsbn(calls[k]).Some? ==>
        !env.lookupRaises(i) && env.bookIdOf(i).None? && SyncIsbn(calls[k]).value == e.book.isbn
  {
  }

  /**
   * Every synchronising call in `trace` is about the isbn of one of the first
   * `n` entries whose lookup returned nothing.
   */
  ghost predicate SyncedUnseen(trace: seq<Call>, feed: seq<FeedEntry>, env: Env, n: nat)
    requires n <= |feed|
  {
    forall k :: 0 <= k < |trace| && SyncIsbn(trace[k]).Some? ==>
      exists i :: 0 <= i < n && !env.lookupRaises(i) && env.bookIdOf(i).None? && SyncIsbn(trace[k]).value == feed[i].book.isbn
  }

  /**
   * Crawling, classification, the relational insert and the collection add
   * happen only for feed entries whose isbn lookup returned `None`, up to
   * entry `n`.
   */
  lemma {:induction false} SyncsOnlyUnseen(feed: seq<FeedEntry>, env: Env, n: nat)
    requires n <= |feed|
    ensures SyncedUnseen(Steps(feed, env, n).trace, feed, env, n)
    decreases n
  {
    if n > 0 {
      SyncsOnlyUnseen(feed, env, n - 1);
      var p := Steps(feed, env, n - 1);
      StepsStep(feed, env, n);
      if p.aborted {
        SyncedUnseenGrow(p.trace, feed, env, n - 1);
      } else {
        SyncedUnseenAppend(p.trace, feed, env, n);
      }
    }
  }

  /** The property survives counting one more entry. */
  lemma SyncedUnseenGrow(trace: seq<Call>, feed: seq<FeedEntry>, env: Env, n: nat)
    requires n < |feed|
    requires SyncedUnseen(trace, feed, env, n)
    ensures SyncedUnseen(trace, feed, env, n + 1)
  {
    forall k | 0 <= k < |trace| && SyncIsbn(trace[k]).Some?
      ensures exists i :: 0 <= i < n + 1 && !env.lookupRaises(i) && env.bookIdOf(i).None? && SyncIsbn(trace[k]).value == feed[i].book.isbn
    {
      var i :| 0 <= i < n && !env.lookupRaises(i) && env.bookIdOf(i).None? && SyncIsbn(trace[k]).value == feed[i].book.isbn;
    }
  }

  /** The calls of entry `n - 1`, appended to a trace of the earlier entries, keep the property. */
  lemma SyncedUnseenAppend(trace: seq<Call>, feed: seq<FeedEntry>, env: Env, n: nat)
    requires 0 < n <= |feed|
    requires SyncedUnseen(trace, feed, env, n - 1)
    ensures SyncedUnseen(trace + EntryCalls(feed[n - 1], n - 1, env).calls, feed, env, n)
  {
    var calls := EntryCalls(feed[n - 1], n - 1, env).calls;
    EntrySyncsOnlyUnseen(feed[n - 1], n - 1, env);
    var all := trace + calls;
    forall k | 0 <= k < |all| && SyncIsbn(all[k]).Some?
      ensures exists i :: 0 <= i < n && !env.lookupRaises(i) && env.bookIdOf(i).None? && SyncIsbn(all[k]).value == feed[i].book.isbn
    {
      if k < |trace| {
        assert all[k] == trace[k];
        var i :| 0 <= i < n - 1 && !env.lookupRaises(i) && env.bookIdOf(i).None? && SyncIsbn(trace[k]).value == feed[i].book.isbn;
      } else {
        assert all[k] == calls[k - |trace|];
        assert !env.lookupRaises(n - 1) && env.bookIdOf(n - 1).None? && SyncIsbn(all[k]).value == feed[n - 1].book.isbn;
      }
    }
  }

  /** Every collection add in `calls` comes right after the relational insert of the same book, sub-category and hashtags. */
  predicate InsertPrecedesAdd(calls: seq<Call>) {
    forall k :: 0 <= k < |calls| && calls[k].AddToCollection? ==>
      k > 0 && calls[k - 1] == InsertBookInfo(calls[k].book, calls[k].subCategory, calls[k].hashtags)
  }

  /** Within one entry, the collection add comes right after the relational insert of the same book. */
  lemma EntryInsertBeforeAdd(e: FeedEntry, i: nat, env: Env)
    ensures InsertPrecedesAdd(EntryCalls(e, i, env).calls)
  {
  }

  /** Two traces with the property concatenate into one. */
  lemma InsertPrecedesAddAppend(a: seq<Call>, b: seq<Call>)
    requires InsertPrecedesAdd(a) && InsertPrecedesAdd(b)
    ensures InsertPrecedesAdd(a + b)
  {
    var all := a + b;
    forall k | 0 <= k < |all| && all[k].AddToCollection?
      ensures k > 0 && all[k - 1] == InsertBookInfo(all[k].book, all[k].subCategory, all[k].hashtags)
    {
      if k < |a| {
        assert all[k] == a[k] && all[k - 1] == a[k - 1];
      } else {
        var j := k - |a|;
        assert all[k] == b[j];
        assert j > 0;
        assert all[k - 1] == b[j - 1];
      }
    }
  }

  /**
   * For every synchronised entry, the relational insert is issued immediately
   * before the collection add, with the same book, sub-category and hashtags.
   */
  lemma {:induction false} InsertBeforeAdd(feed: seq<FeedEntry>, env: Env, n: nat)
    requires n <= |feed|
    ensures InsertPrecedesAdd(Steps(feed, env, n).trace)
    decreases n
  {
    if n > 0 {
      InsertBeforeAdd(feed, env, n - 1);
      var p := Steps(feed, env, n - 1);
      StepsStep(feed, env, n);
      if !p.aborted {
        EntryInsertBeforeAdd(feed[n - 1], n - 1, env);
        InsertPrecedesAddAppend(p.trace, EntryCalls(feed[n - 1], n - 1, env).calls);
      }
    }
  }

  /**
   * Over the whole task, crawling, classification, the relational insert and
   * the collection add happen only for feed entries whose isbn lookup returned
   * `None`.
   */
  lemma TaskSyncsOnlyUnseen(feed: seq<FeedEntry>, env: Env)
    ensures SyncedUnseen(TaskTrace(feed, env), feed, env, |feed|)
  {
    var p := Steps(feed, env, |feed|);
    SyncsOnlyUnseen(feed, env, |feed|);
    if !p.aborted {
      SyncedUnseenSave(p.trace, p.batch, feed, env, |feed|);
    }
  }

  /** Appending the batch save keeps the property, the save not being a synchronising call. */
  lemma SyncedUnseenSave(trace: seq<Call>, batch: seq<RankRow>, feed: seq<FeedEntry>, env: Env, n: nat)
    requires n <= |feed|
    requires SyncedUnseen(trace, feed, env, n)
    ensures SyncedUnseen(trace + [InsertBestSellers(batch)], feed, env, n)
  {
    var all := trace + [InsertBestSellers(batch)];
    forall k | 0 <= k < |all| && SyncIsbn(all[k]).Some?
      ensures exists i :: 0 <= i < n && !env.lookupRaises(i) && env.bookIdOf(i).None? && SyncIsbn(all[k]).value == feed[i].book.isbn
    {
      assert k < |trace| && all[k] == trace[k];
    }
  }

  /**
   * Over the whole task, every collection add comes right after the relational
   * insert of the same book, sub-category and hashtags.
   */
  lemma TaskInsertBeforeAdd(feed: seq<FeedEntry>, env: Env)
    ensures InsertPrecedesAdd(TaskTrace(feed, env))
  {
    var p := Steps(feed, env, |feed|);
    InsertBeforeAdd(feed, env, |feed|);
    if !p.aborted {
      InsertPrecedesAddAppend(p.trace, [InsertBestSellers(p.batch)]);
    }
  }
}
